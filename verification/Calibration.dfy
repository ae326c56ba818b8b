/** SISPIS calibration: signals merged by cause, then summed under a per-cause and a global cap.
    Effects and totals are in millionths, so the source's six-digit rounding is the identity. */
module Calibration {
  import opened Ordering

  const CAUSE_CAP := 2_000_000
  const TOTAL_CAP := 10_000_000

  datatype Mode = Auto | Direct | Explanation | Schema
  datatype Severity = Low | Medium | High

  datatype Dimension =
    | AmbiguityOfFraming | TradeoffDensity | OptionMultiplicity | ComparativeIntent | DownstreamImpact
    | Unmapped(name: string)

  const DIMENSIONS: set<Dimension> :=
    {AmbiguityOfFraming, TradeoffDensity, OptionMultiplicity, ComparativeIntent, DownstreamImpact}

  /** What the calibration table says about one signal type. */
  datatype Entry = Entry(entropy: map<Dimension, int>, intent: int, floor: Option<Mode>)

  datatype Table = Table(signals: map<string, Entry>, actions: map<string, Option<Mode>>)

  /** `wellFormed` is the schema verdict and `evidenced` says the evidence list is not empty. */
  datatype Signal = Signal(cause: string, kind: string, source: string, severity: Severity, action: string,
                           wellFormed: bool, evidenced: bool)

  datatype Failure = Rejected | Conflicting

  datatype Result<+T> = Ok(value: T) | Err(failure: Failure)

  datatype Merged = Merged(cause: string, entropy: map<Dimension, int>, intent: int, floor: Option<Mode>,
                           severity: Severity, actions: seq<string>, kinds: seq<string>)

  datatype Totals = Totals(entropy: int, intent: int, floor: Option<Mode>, causes: seq<Merged>)

  function Max(a: int, b: int): int { if a >= b then a else b }
  function Min(a: int, b: int): int { if a <= b then a else b }

  // ---------- the response-mode floor ----------

  function Level(m: Option<Mode>): nat {
    match m
    case None => 0
    case Some(Auto) => 1
    case Some(Direct) => 2
    case Some(Explanation) => 3
    case Some(Schema) => 4
  }

  function FloorAt(level: int): (m: Option<Mode>)
    ensures 0 <= level <= 4 ==> Level(m) == level
  {
    if level <= 0 then None
    else if level == 1 then Some(Auto)
    else if level == 2 then Some(Direct)
    else if level == 3 then Some(Explanation)
    else Some(Schema)
  }

  function StrongestFloor(a: Option<Mode>, b: Option<Mode>): (m: Option<Mode>)
    ensures Level(m) == Max(Level(a), Level(b))
  {
    if a.None? then b
    else if b.None? then a
    else if Level(a) >= Level(b) then a else b
  }

  function Weight(s: Severity): nat {
    match s case Low => 0 case Medium => 1 case High => 2
  }

  function SeverityAt(w: int): Severity {
    if w <= 0 then Low else if w == 1 then Medium else High
  }

  // ---------- what one signal contributes ----------

  /** `table.get(kind, {})`: a registered type without an entry contributes nothing. */
  function EntryOf(t: Table, kind: string): Entry {
    if kind in t.signals then t.signals[kind] else Entry(map[], 0, None)
  }

  function Delta(t: Table, sig: Signal, d: Dimension): int {
    var entropy := EntryOf(t, sig.kind).entropy;
    if d in entropy then entropy[d] else 0
  }

  function ActionFloor(t: Table, action: string): Option<Mode> {
    if action in t.actions then t.actions[action] else None
  }

  function SignalFloor(t: Table, sig: Signal): Option<Mode> {
    StrongestFloor(EntryOf(t, sig.kind).floor, ActionFloor(t, sig.action))
  }

  predicate Accepted(registry: map<string, string>, sig: Signal) {
    sig.cause != "" && sig.wellFormed && sig.kind in registry && sig.evidenced && registry[sig.kind] == sig.source
  }

  // ---------- specification ----------

  /** The part of an accepted envelope that calibration reads. */
  datatype Facts = Facts(cause: string, kind: string, action: string, severity: Severity)

  function FactsOf(sig: Signal): Facts { Facts(sig.cause, sig.kind, sig.action, sig.severity) }

  /** `f` depends on nothing but those facts. */
  ghost predicate ReadsFacts(f: Signal -> int) {
    forall u, x :: FactsOf(u) == FactsOf(x) ==> f(u) == f(x)
  }

  /** Two signals of one cause and one type that disagree on action or severity. */
  ghost predicate Clash(a: Signal, b: Signal) {
    a.cause == b.cause && a.kind == b.kind && (a.action != b.action || a.severity != b.severity)
  }

  ghost predicate Conflicted(s: seq<Signal>) {
    exists a, b :: a in s && b in s && Clash(a, b)
  }

  /** The largest value of `f` over the selected signals, or zero. */
  ghost function Peak(s: seq<Signal>, sel: Signal -> bool, f: Signal -> int): int {
    if s == [] then 0
    else
      var last := s[|s| - 1];
      Max(Peak(s[..|s| - 1], sel, f), if sel(last) then f(last) else 0)
  }

  ghost predicate IsPeak(v: int, s: seq<Signal>, sel: Signal -> bool, f: Signal -> int) {
    && v >= 0
    && (forall sig :: sig in s && sel(sig) ==> f(sig) <= v)
    && (v == 0 || exists sig :: sig in s && sel(sig) && f(sig) == v)
  }

  lemma {:induction false} PeakIsPeak(s: seq<Signal>, sel: Signal -> bool, f: Signal -> int)
    ensures IsPeak(Peak(s, sel, f), s, sel, f)
  {
    if s != [] {
      var last := |s| - 1;
      assert s == s[..last] + [s[last]];
      PeakIsPeak(s[..last], sel, f);
      var v := Peak(s[..last], sel, f);
      if Peak(s, sel, f) == v != 0 {
        var sig :| sig in s[..last] && sel(sig) && f(sig) == v;
        assert sig in s;
      } else if Peak(s, sel, f) != 0 {
        assert s[last] in s;
      }
    }
  }

  lemma {:induction false} PeakIsUnique(v: int, s: seq<Signal>, sel: Signal -> bool, f: Signal -> int)
    requires IsPeak(v, s, sel, f)
    ensures v == Peak(s, sel, f)
  {
    PeakIsPeak(s, sel, f);
  }

  /** Every selected signal of `a` is matched by a selected signal of `b` with at least its value. */
  ghost predicate Covers(a: seq<Signal>, selA: Signal -> bool, b: seq<Signal>, selB: Signal -> bool, f: Signal -> int) {
    forall x :: x in a && selA(x) ==> exists y :: y in b && selB(y) && f(y) >= f(x)
  }

  lemma {:induction false} PeakOfCovered(a: seq<Signal>, selA: Signal -> bool, b: seq<Signal>, selB: Signal -> bool,
                                         f: Signal -> int)
    requires Covers(a, selA, b, selB, f)
    ensures Peak(a, selA, f) <= Peak(b, selB, f)
  {
    PeakIsPeak(a, selA, f);
    PeakIsPeak(b, selB, f);
  }

  function InCause(c: string): Signal -> bool { (sig: Signal) => sig.cause == c }
  function Anyone(): Signal -> bool { (sig: Signal) => true }

  function DeltaAt(t: Table, d: Dimension): Signal -> int { (sig: Signal) => Delta(t, sig, d) }
  function IntentOf(t: Table): Signal -> int { (sig: Signal) => EntryOf(t, sig.kind).intent }
  function FloorOf(t: Table): Signal -> int { (sig: Signal) => Level(SignalFloor(t, sig)) }
  function SeverityOf(): Signal -> int { (sig: Signal) => Weight(sig.severity) }

  ghost function Causes(s: seq<Signal>): set<string> { set sig | sig in s :: sig.cause }
  ghost function KindsOf(s: seq<Signal>, c: string): set<string> { set sig | sig in s && sig.cause == c :: sig.kind }
  ghost function ActionsOf(s: seq<Signal>, c: string): set<string> {
    set sig | sig in s && sig.cause == c && sig.action != "" :: sig.action
  }

  // ---------- sums over causes ----------

  ghost function SumOver(names: set<string>, g: string -> int): int
    decreases |names|
  {
    if names == {} then 0
    else
      var x :| x in names;
      g(x) + SumOver(names - {x}, g)
  }

  lemma {:induction false} SumRemove(names: set<string>, g: string -> int, x: string)
    requires x in names
    ensures SumOver(names, g) == g(x) + SumOver(names - {x}, g)
    decreases |names|
  {
    var y :| y in names && SumOver(names, g) == g(y) + SumOver(names - {y}, g);
    if y != x {
      SumRemove(names - {y}, g, x);
      SumRemove(names - {x}, g, y);
      assert names - {y} - {x} == names - {x} - {y};
    }
  }

  lemma {:induction false} SumUnion(a: set<string>, b: set<string>, g: string -> int)
    requires a !! b
    ensures SumOver(a + b, g) == SumOver(a, g) + SumOver(b, g)
    decreases |a|
  {
    if a == {} {
      assert a + b == b;
    } else {
      var x :| x in a;
      SumRemove(a, g, x);
      SumRemove(a + b, g, x);
      assert a + b - {x} == (a - {x}) + b;
      SumUnion(a - {x}, b, g);
    }
  }

  lemma {:induction false} SumBounds(names: set<string>, g: string -> int, h: string -> int)
    requires forall x :: x in names ==> g(x) <= h(x)
    ensures SumOver(names, g) <= SumOver(names, h)
    decreases |names|
  {
    if names != {} {
      var x :| x in names;
      SumRemove(names, g, x);
      SumRemove(names, h, x);
      SumBounds(names - {x}, g, h);
    }
  }

  lemma {:induction false} SumOfConstant(names: set<string>, k: int)
    ensures SumOver(names, (x: string) => k) == k * |names|
    decreases |names|
  {
    if names != {} {
      var x :| x in names;
      SumRemove(names, (x: string) => k, x);
      SumOfConstant(names - {x}, k);
    }
  }

  // ---------- the merged result ----------

  /** Total entropy effect of one cause before its cap: the dimension peaks added up. */
  ghost function Spread(t: Table, s: seq<Signal>, c: string): int {
    Peak(s, InCause(c), DeltaAt(t, AmbiguityOfFraming)) + Peak(s, InCause(c), DeltaAt(t, TradeoffDensity))
    + Peak(s, InCause(c), DeltaAt(t, OptionMultiplicity)) + Peak(s, InCause(c), DeltaAt(t, ComparativeIntent))
    + Peak(s, InCause(c), DeltaAt(t, DownstreamImpact))
  }

  ghost function EntropyOf(t: Table, s: seq<Signal>): string -> int {
    (c: string) => Min(Spread(t, s, c), CAUSE_CAP)
  }

  ghost function IntentPeak(t: Table, s: seq<Signal>): string -> int {
    (c: string) => Peak(s, InCause(c), IntentOf(t))
  }

  ghost function MergedOf(t: Table, s: seq<Signal>, c: string): Merged {
    Merged(c, map d | d in DIMENSIONS :: Peak(s, InCause(c), DeltaAt(t, d)),
           Peak(s, InCause(c), IntentOf(t)), FloorAt(Peak(s, InCause(c), FloorOf(t))),
           SeverityAt(Peak(s, InCause(c), SeverityOf())), Listing(ActionsOf(s, c)), Listing(KindsOf(s, c)))
  }

  ghost function MergedList(t: Table, s: seq<Signal>, causes: seq<string>): (l: seq<Merged>)
    ensures |l| == |causes|
  {
    seq(|causes|, i requires 0 <= i < |causes| => MergedOf(t, s, causes[i]))
  }

  ghost predicate AllAccepted(registry: map<string, string>, s: seq<Signal>) {
    forall sig :: sig in s ==> Accepted(registry, sig)
  }

  /** What merging should return, stated without order, grouping or deduplication. */
  ghost function MergeResult(t: Table, registry: map<string, string>, s: seq<Signal>): Result<seq<Merged>> {
    if !AllAccepted(registry, s) then Err(Rejected)
    else if Conflicted(s) then Err(Conflicting)
    else Ok(MergedList(t, s, Listing(Causes(s))))
  }

  ghost function TotalsOf(t: Table, s: seq<Signal>, baseEntropy: int, baseIntent: int): Totals {
    Totals(Min(TOTAL_CAP, baseEntropy + SumOver(Causes(s), EntropyOf(t, s))),
           baseIntent + SumOver(Causes(s), IntentPeak(t, s)),
           FloorAt(Peak(s, Anyone(), FloorOf(t))),
           MergedList(t, s, Listing(Causes(s))))
  }

  ghost function Calibrated(t: Table, registry: map<string, string>, s: seq<Signal>, baseEntropy: int, baseIntent: int)
    : Result<Totals>
  {
    match MergeResult(t, registry, s)
    case Err(e) => Err(e)
    case Ok(_) => Ok(TotalsOf(t, s, baseEntropy, baseIntent))
  }
}
