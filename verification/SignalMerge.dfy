/** The merging and summing loops of the calibrator, proved against the order-free specification. */
module SignalMerge {
  import opened Ordering
  import opened Calibration

  /** The signals of one cause in arrival order. */
  function OfCause(s: seq<Signal>, c: string): (r: seq<Signal>)
    ensures forall sig :: sig in r <==> sig in s && sig.cause == c
  {
    if s == [] then []
    else
      var last := |s| - 1;
      assert s == s[..last] + [s[last]];
      if s[last].cause == c then OfCause(s[..last], c) + [s[last]] else OfCause(s[..last], c)
  }

  /** Some signal of `s` carries these facts. */
  ghost predicate Carries(s: seq<Signal>, facts: Facts) {
    exists u :: u in s && FactsOf(u) == facts
  }

  ghost predicate OnePerKind(unique: seq<Signal>) {
    forall a, b :: a in unique && b in unique && a.kind == b.kind ==> a == b
  }

  /** `unique` keeps some of the signals, and the facts of every signal are those of a kept one. */
  ghost predicate Represents(unique: seq<Signal>, sigs: seq<Signal>) {
    && (forall u :: u in unique ==> u in sigs)
    && (forall x :: x in sigs ==> Carries(unique, FactsOf(x)))
  }

  function FirstOfKind(unique: seq<Signal>, kind: string): (r: Option<Signal>)
    ensures r.None? <==> forall u :: u in unique ==> u.kind != kind
    ensures r.Some? ==> r.value in unique && r.value.kind == kind
  {
    if unique == [] then None
    else if unique[0].kind == kind then Some(unique[0])
    else
      assert unique == [unique[0]] + unique[1..];
      FirstOfKind(unique[1..], kind)
  }

  lemma {:induction false} KeepNew(unique: seq<Signal>, sigs: seq<Signal>, x: Signal)
    requires Represents(unique, sigs)
    ensures Represents(unique + [x], sigs + [x])
  {
    hide FactsOf;
    forall y | y in sigs + [x] ensures Carries(unique + [x], FactsOf(y)) {
      if y in sigs {
        assert Carries(unique, FactsOf(y));
        var u :| u in unique && FactsOf(u) == FactsOf(y);
        assert u in unique + [x];
      } else {
        assert x in unique + [x];
      }
    }
  }

  lemma {:induction false} KeepNewKind(unique: seq<Signal>, x: Signal)
    requires OnePerKind(unique) && forall u :: u in unique ==> u.kind != x.kind
    ensures OnePerKind(unique + [x])
  {}

  lemma {:induction false} DropDuplicate(unique: seq<Signal>, sigs: seq<Signal>, x: Signal, prior: Signal)
    requires Represents(unique, sigs) && prior in unique && FactsOf(prior) == FactsOf(x)
    ensures Represents(unique, sigs + [x])
  {
    hide FactsOf;
    assert Carries(unique, FactsOf(x));
  }

  lemma {:induction false} RepresentedIsConsistent(unique: seq<Signal>, sigs: seq<Signal>)
    requires Represents(unique, sigs) && OnePerKind(unique)
    ensures !Conflicted(sigs)
  {
    forall a, b | a in sigs && b in sigs ensures !Clash(a, b) {
      SameKindSameFacts(unique, a, b);
    }
  }

  lemma {:induction false} SameKindSameFacts(unique: seq<Signal>, a: Signal, b: Signal)
    requires OnePerKind(unique) && Carries(unique, FactsOf(a)) && Carries(unique, FactsOf(b))
    ensures !Clash(a, b)
  {
    var u :| u in unique && FactsOf(u) == FactsOf(a);
    var v :| v in unique && FactsOf(v) == FactsOf(b);
    if a.kind == b.kind { assert u.kind == v.kind; }
  }

  method Dedupe(c: string, sigs: seq<Signal>) returns (r: Option<seq<Signal>>)
    requires forall x :: x in sigs ==> x.cause == c
    ensures r.None? <==> Conflicted(sigs)
    ensures r.Some? ==> Represents(r.value, sigs) && OnePerKind(r.value)
  {
    hide Represents, Conflicted, OnePerKind;
    var unique: seq<Signal> := [];
    RepresentsNothing(sigs);
    for i := 0 to |sigs|
      invariant Represents(unique, sigs[..i]) && OnePerKind(unique)
    {
      var sig := sigs[i];
      assert sigs[..i + 1] == sigs[..i] + [sig];
      var prior := FirstOfKind(unique, sig.kind);
      if prior.Some? {
        InSource(unique, sigs, i, prior.value);
        if sig.action != prior.value.action || sig.severity != prior.value.severity {
          ClashFound(sigs, sig, prior.value);
          return None;
        }
        DropDuplicate(unique, sigs[..i], sig, prior.value);
      } else {
        KeepNew(unique, sigs[..i], sig);
        KeepNewKind(unique, sig);
        unique := unique + [sig];
      }
    }
    assert sigs[..|sigs|] == sigs;
    RepresentedIsConsistent(unique, sigs);
    return Some(unique);
  }

  lemma {:induction false} RepresentsNothing(sigs: seq<Signal>)
    ensures Represents([], sigs[..0]) && OnePerKind([])
  {}

  lemma {:induction false} InSource(unique: seq<Signal>, sigs: seq<Signal>, i: nat, u: Signal)
    requires i < |sigs| && Represents(unique, sigs[..i]) && u in unique
    ensures u in sigs
  {}

  lemma {:induction false} ClashFound(sigs: seq<Signal>, a: Signal, b: Signal)
    requires a in sigs && b in sigs && Clash(a, b)
    ensures Conflicted(sigs)
  {}

  // ---------- folding one cause ----------

  lemma {:induction false} CarriedIsCovered(a: seq<Signal>, b: seq<Signal>, c: string, f: Signal -> int)
    requires ReadsFacts(f) && forall x :: x in a ==> Carries(b, FactsOf(x))
    ensures Covers(a, InCause(c), b, InCause(c), f)
  {
    hide Peak;
    forall x | x in a && InCause(c)(x) ensures exists y :: y in b && InCause(c)(y) && f(y) >= f(x) {
      assert Carries(b, FactsOf(x));
      var y :| y in b && FactsOf(y) == FactsOf(x);
      assert f(y) == f(x) && y.cause == x.cause;
      assert InCause(c)(y);
    }
  }

  lemma {:induction false} PeakOfUnique(unique: seq<Signal>, sigs: seq<Signal>, c: string, f: Signal -> int)
    requires Represents(unique, sigs) && ReadsFacts(f)
    ensures Peak(unique, InCause(c), f) == Peak(sigs, InCause(c), f)
  {
    CarriedIsCovered(sigs, unique, c, f);
    PeakOfCovered(sigs, InCause(c), unique, InCause(c), f);
    forall u | u in unique ensures Carries(sigs, FactsOf(u)) {
      assert u in sigs;
    }
    CarriedIsCovered(unique, sigs, c, f);
    PeakOfCovered(unique, InCause(c), sigs, InCause(c), f);
  }

  lemma {:induction false} MergedOfUnique(t: Table, unique: seq<Signal>, sigs: seq<Signal>, c: string)
    requires Represents(unique, sigs)
    ensures MergedOf(t, unique, c) == MergedOf(t, sigs, c)
  {
    forall d ensures Peak(unique, InCause(c), DeltaAt(t, d)) == Peak(sigs, InCause(c), DeltaAt(t, d)) {
      PeakOfUnique(unique, sigs, c, DeltaAt(t, d));
    }
    PeakOfUnique(unique, sigs, c, IntentOf(t));
    PeakOfUnique(unique, sigs, c, FloorOf(t));
    PeakOfUnique(unique, sigs, c, SeverityOf());
    assert ActionsOf(unique, c) == ActionsOf(sigs, c);
    assert KindsOf(unique, c) == KindsOf(sigs, c);
  }

  /** The running values of the fold over the first `i` kept signals. */
  ghost predicate Folded(t: Table, s: seq<Signal>, c: string, ent: map<Dimension, int>, intent: int,
                         floor: Option<Mode>, severity: Severity, actions: seq<string>, kinds: seq<string>)
  {
    && ent.Keys == DIMENSIONS
    && (forall d :: d in DIMENSIONS ==> ent[d] == Peak(s, InCause(c), DeltaAt(t, d)))
    && intent == Peak(s, InCause(c), IntentOf(t))
    && Level(floor) == Peak(s, InCause(c), FloorOf(t))
    && Weight(severity) == Peak(s, InCause(c), SeverityOf())
    && NoDup(actions) && Elems(actions) == ActionsOf(s, c)
    && NoDup(kinds) && Elems(kinds) == KindsOf(s, c)
  }

  lemma {:induction false} PeakAppend(s: seq<Signal>, x: Signal, sel: Signal -> bool, f: Signal -> int)
    ensures Peak(s + [x], sel, f) == Max(Peak(s, sel, f), if sel(x) then f(x) else 0)
  {
    assert (s + [x])[..|s|] == s;
  }

  lemma {:induction false} NamesAppend(s: seq<Signal>, x: Signal, c: string)
    requires x.cause == c
    ensures KindsOf(s + [x], c) == KindsOf(s, c) + {x.kind}
    ensures ActionsOf(s + [x], c) == ActionsOf(s, c) + (if x.action == "" then {} else {x.action})
  {
    forall k ensures k in KindsOf(s + [x], c) <==> k in KindsOf(s, c) + {x.kind} {
      if k == x.kind { assert x in s + [x]; }
      if k in KindsOf(s, c) {
        var sig :| sig in s && sig.cause == c && sig.kind == k;
        assert sig in s + [x];
      }
    }
    forall k ensures k in ActionsOf(s + [x], c) <==> k in ActionsOf(s, c) || (x.action != "" && k == x.action) {
      if x.action != "" && k == x.action { assert x in s + [x]; }
      if k in ActionsOf(s, c) {
        var sig :| sig in s && sig.cause == c && sig.action == k;
        assert sig in s + [x];
      }
    }
  }

  function AddName(names: seq<string>, x: string): (r: seq<string>)
    ensures Elems(r) == Elems(names) + {x}
    ensures NoDup(names) ==> NoDup(r)
  {
    ElemsAppend(names, x);
    if x in names then assert x in Elems(names); names else names + [x]
  }

  lemma {:induction false} FoldStep(t: Table, s: seq<Signal>, x: Signal, c: string, ent: map<Dimension, int>, intent: int,
                                    floor: Option<Mode>, severity: Severity, actions: seq<string>, kinds: seq<string>)
    requires x.cause == c && Folded(t, s, c, ent, intent, floor, severity, actions, kinds)
    ensures Folded(t, s + [x], c,
                   map d | d in DIMENSIONS :: Max(ent[d], Delta(t, x, d)),
                   Max(intent, EntryOf(t, x.kind).intent),
                   StrongestFloor(StrongestFloor(floor, EntryOf(t, x.kind).floor), ActionFloor(t, x.action)),
                   if Weight(x.severity) > Weight(severity) then x.severity else severity,
                   if x.action != "" then AddName(actions, x.action) else actions,
                   AddName(kinds, x.kind))
  {
    hide Peak, ActionsOf, KindsOf, Delta, EntryOf, ActionFloor, StrongestFloor;
    forall d ensures Peak(s + [x], InCause(c), DeltaAt(t, d)) == Max(Peak(s, InCause(c), DeltaAt(t, d)), Delta(t, x, d)) {
      PeakAppend(s, x, InCause(c), DeltaAt(t, d));
    }
    PeakAppend(s, x, InCause(c), IntentOf(t));
    PeakAppend(s, x, InCause(c), FloorOf(t));
    PeakAppend(s, x, InCause(c), SeverityOf());
    NamesAppend(s, x, c);
  }

  lemma {:induction false} FoldDone(t: Table, s: seq<Signal>, c: string, ent: map<Dimension, int>, intent: int,
                                    floor: Option<Mode>, severity: Severity, actions: seq<string>, kinds: seq<string>)
    requires Folded(t, s, c, ent, intent, floor, severity, actions, kinds)
    ensures Merged(c, ent, intent, floor, severity, Sort(actions, Leq), Sort(kinds, Leq)) == MergedOf(t, s, c)
  {
    hide Peak, ActionsOf, KindsOf, Leq, Sort;
    SortedListing(actions, ActionsOf(s, c));
    ListingIsUnique(Sort(actions, Leq), Listing(ActionsOf(s, c)), ActionsOf(s, c));
    SortedListing(kinds, KindsOf(s, c));
    ListingIsUnique(Sort(kinds, Leq), Listing(KindsOf(s, c)), KindsOf(s, c));
    FloorOfLevel(floor);
    assert SeverityAt(Weight(severity)) == severity;
    assert ent == map d | d in DIMENSIONS :: Peak(s, InCause(c), DeltaAt(t, d));
  }

  lemma FloorOfLevel(floor: Option<Mode>)
    ensures FloorAt(Level(floor)) == floor
  {}

  method FoldCause(t: Table, c: string, unique: seq<Signal>) returns (m: Merged)
    requires forall x :: x in unique ==> x.cause == c
    ensures m == MergedOf(t, unique, c)
  {
    hide Folded, MergedOf, AddName, Delta, EntryOf, ActionFloor, StrongestFloor, Weight, Max, Leq, Sort;
    var ent: map<Dimension, int> := map d | d in DIMENSIONS :: 0;
    var intent, floor, severity := 0, None, Low;
    var actions: seq<string>, kinds: seq<string> := [], [];
    FoldedNothing(t, unique, c);
    for i := 0 to |unique|
      invariant ent.Keys == DIMENSIONS
      invariant Folded(t, unique[..i], c, ent, intent, floor, severity, actions, kinds)
    {
      var sig := unique[i];
      assert unique[..i + 1] == unique[..i] + [sig];
      FoldStep(t, unique[..i], sig, c, ent, intent, floor, severity, actions, kinds);
      ent := map d | d in DIMENSIONS :: Max(ent[d], Delta(t, sig, d));
      intent := Max(intent, EntryOf(t, sig.kind).intent);
      floor := StrongestFloor(floor, EntryOf(t, sig.kind).floor);
      if Weight(sig.severity) > Weight(severity) {
        severity := sig.severity;
      }
      if sig.action != "" {
        actions := AddName(actions, sig.action);
      }
      floor := StrongestFloor(floor, ActionFloor(t, sig.action));
      kinds := AddName(kinds, sig.kind);
    }
    assert unique[..|unique|] == unique;
    FoldDone(t, unique, c, ent, intent, floor, severity, actions, kinds);
    m := Merged(c, ent, intent, floor, severity, Sort(actions, Leq), Sort(kinds, Leq));
  }

  lemma {:induction false} FoldedNothing(t: Table, unique: seq<Signal>, c: string)
    ensures Folded(t, unique[..0], c, map d | d in DIMENSIONS :: 0, 0, None, Low, [], [])
  {
    assert unique[..0] == [];
  }

  // ---------- grouping ----------

  /** The grouping dict after reading `s`: its keys in insertion order and one arrival list per cause. */
  ghost predicate Grouped(s: seq<Signal>, order: seq<string>, groups: map<string, seq<Signal>>) {
    && NoDup(order) && Elems(order) == Causes(s) == groups.Keys
    && forall c :: c in groups ==> groups[c] == OfCause(s, c)
  }

  lemma {:induction false} OfCauseAppend(s: seq<Signal>, x: Signal, c: string)
    ensures OfCause(s + [x], c) == if x.cause == c then OfCause(s, c) + [x] else OfCause(s, c)
  {
    assert (s + [x])[..|s|] == s;
  }

  lemma {:induction false} CausesAppend(s: seq<Signal>, x: Signal)
    ensures Causes(s + [x]) == Causes(s) + {x.cause}
  {
    forall c | c in Causes(s) ensures c in Causes(s + [x]) {
      var sig :| sig in s && sig.cause == c;
      assert sig in s + [x];
    }
    assert x in s + [x];
  }

  lemma {:induction false} AbsentCause(s: seq<Signal>, c: string)
    requires c !in Causes(s)
    ensures OfCause(s, c) == []
  {
    if OfCause(s, c) != [] {
      assert OfCause(s, c)[0] in OfCause(s, c);
    }
  }

  lemma {:induction false} GroupOne(s: seq<Signal>, x: Signal, order: seq<string>, groups: map<string, seq<Signal>>)
    requires Grouped(s, order, groups)
    ensures Grouped(s + [x], AddName(order, x.cause),
                    groups[x.cause := (if x.cause in groups then groups[x.cause] else []) + [x]])
  {
    hide OfCause;
    CausesAppend(s, x);
    var groups' := groups[x.cause := (if x.cause in groups then groups[x.cause] else []) + [x]];
    if x.cause !in groups { AbsentCause(s, x.cause); }
    forall c | c in groups' ensures groups'[c] == OfCause(s + [x], c) {
      OfCauseAppend(s, x, c);
    }
    assert groups'.Keys == groups.Keys + {x.cause};
  }

  lemma {:induction false} MergedOfGroup(t: Table, s: seq<Signal>, c: string)
    ensures MergedOf(t, OfCause(s, c), c) == MergedOf(t, s, c)
  {
    var g := OfCause(s, c);
    forall f: Signal -> int ensures Peak(g, InCause(c), f) == Peak(s, InCause(c), f) {
      PeakOfCovered(s, InCause(c), g, InCause(c), f);
      PeakOfCovered(g, InCause(c), s, InCause(c), f);
    }
    assert ActionsOf(g, c) == ActionsOf(s, c);
    assert KindsOf(g, c) == KindsOf(s, c);
  }

  lemma {:induction false} ConflictIsLocal(s: seq<Signal>)
    ensures Conflicted(s) <==> exists c :: c in Causes(s) && Conflicted(OfCause(s, c))
  {
    if a, b :| a in s && b in s && Clash(a, b) {
      assert a.cause in Causes(s);
      assert a in OfCause(s, a.cause) && b in OfCause(s, a.cause);
    }
    if c :| c in Causes(s) && Conflicted(OfCause(s, c)) {
      var a, b :| a in OfCause(s, c) && b in OfCause(s, c) && Clash(a, b);
      assert a in s && b in s;
    }
  }

  method GroupByCause(s: seq<Signal>, registry: map<string, string>)
    returns (r: Result<(seq<string>, map<string, seq<Signal>>)>)
    ensures r.Err? ==> r.failure == Rejected
    ensures r.Err? <==> !AllAccepted(registry, s)
    ensures r.Ok? ==> Grouped(s, r.value.0, r.value.1)
  {
    hide Grouped, Accepted, AddName;
    var order: seq<string>, groups: map<string, seq<Signal>> := [], map[];
    GroupNothing(s);
    for i := 0 to |s|
      invariant Grouped(s[..i], order, groups) && AllAccepted(registry, s[..i])
    {
      var sig := s[i];
      assert s[..i + 1] == s[..i] + [sig] && sig in s;
      if !Accepted(registry, sig) {
        return Err(Rejected);
      }
      GroupOne(s[..i], sig, order, groups);
      order := AddName(order, sig.cause);
      groups := groups[sig.cause := (if sig.cause in groups then groups[sig.cause] else []) + [sig]];
    }
    assert s[..|s|] == s;
    return Ok((order, groups));
  }

  lemma {:induction false} GroupNothing(s: seq<Signal>)
    ensures Grouped(s[..0], [], map[])
  {}

  lemma {:induction false} ListNothing(t: Table, s: seq<Signal>, causes: seq<string>)
    ensures MergedList(t, s, causes[..0]) == []
  {}

  lemma {:induction false} ListNext(t: Table, s: seq<Signal>, causes: seq<string>, i: nat)
    requires i < |causes|
    ensures MergedList(t, s, causes[..i + 1]) == MergedList(t, s, causes[..i]) + [MergedOf(t, s, causes[i])]
  {}

  lemma {:induction false} MergeOne(t: Table, s: seq<Signal>, unique: seq<Signal>, c: string)
    requires Represents(unique, OfCause(s, c))
    ensures MergedOf(t, unique, c) == MergedOf(t, s, c)
    ensures forall x :: x in unique ==> x.cause == c
  {
    hide MergedOf, Carries;
    MergedOfUnique(t, unique, OfCause(s, c), c);
    MergedOfGroup(t, s, c);
  }

  lemma {:induction false} NoneConflicted(s: seq<Signal>, causes: seq<string>)
    requires Elems(causes) == Causes(s) && forall k :: 0 <= k < |causes| ==> !Conflicted(OfCause(s, causes[k]))
    ensures !Conflicted(s)
  {
    hide Conflicted;
    ConflictIsLocal(s);
    forall c | c in Causes(s) ensures !Conflicted(OfCause(s, c)) {
      assert c in Elems(causes);
    }
  }

  lemma {:induction false} OneConflicted(s: seq<Signal>, c: string)
    requires c in Causes(s) && Conflicted(OfCause(s, c))
    ensures Conflicted(s)
  {
    ConflictIsLocal(s);
  }

  method MergeByCause(s: seq<Signal>, t: Table, registry: map<string, string>) returns (r: Result<seq<Merged>>)
    ensures r == MergeResult(t, registry, s)
  {
    hide OfCause, Conflicted, MergedOf, MergedList, Causes, AllAccepted, Leq, Sort, Represents;
    var grouping := GroupByCause(s, registry);
    if grouping.Err? {
      return Err(Rejected);
    }
    var (order, groups) := grouping.value;
    var causes := Sort(order, Leq);
    SortedListing(order, Causes(s));
    ListingIsUnique(causes, Listing(Causes(s)), Causes(s));
    var merged: seq<Merged> := [];
    ListNothing(t, s, causes);
    for i := 0 to |causes|
      invariant merged == MergedList(t, s, causes[..i])
      invariant forall k :: 0 <= k < i ==> !Conflicted(OfCause(s, causes[k]))
    {
      var c := causes[i];
      assert c in Elems(causes);
      var unique := Dedupe(c, groups[c]);
      if unique.None? {
        OneConflicted(s, c);
        return Err(Conflicting);
      }
      MergeOne(t, s, unique.value, c);
      var m := FoldCause(t, c, unique.value);
      ListNext(t, s, causes, i);
      merged := merged + [m];
    }
    assert causes[..|causes|] == causes;
    NoneConflicted(s, causes);
    return Ok(merged);
  }

  // ---------- totals ----------

  function EntropySum(ent: map<Dimension, int>): int
    requires DIMENSIONS <= ent.Keys
  {
    ent[AmbiguityOfFraming] + ent[TradeoffDensity] + ent[OptionMultiplicity] + ent[ComparativeIntent] + ent[DownstreamImpact]
  }

  lemma {:induction false} SumNext(l: seq<string>, i: nat, g: string -> int)
    requires i < |l| && NoDup(l)
    ensures SumOver(Elems(l[..i + 1]), g) == SumOver(Elems(l[..i]), g) + g(l[i])
  {
    assert l[..i + 1] == l[..i] + [l[i]];
    ElemsAppend(l[..i], l[i]);
    assert l[i] !in l[..i];
    SumRemove(Elems(l[..i + 1]), g, l[i]);
    assert Elems(l[..i + 1]) - {l[i]} == Elems(l[..i]);
  }

  /** The strongest of the first `i` floors, seen as a level. */
  ghost predicate FloorSoFar(t: Table, s: seq<Signal>, causes: seq<string>, i: nat, level: int)
    requires i <= |causes|
  {
    && level >= 0
    && (forall k :: 0 <= k < i ==> Peak(s, InCause(causes[k]), FloorOf(t)) <= level)
    && (level == 0 || exists k :: 0 <= k < i && Peak(s, InCause(causes[k]), FloorOf(t)) == level)
  }

  lemma {:induction false} FloorOverall(t: Table, s: seq<Signal>, causes: seq<string>, level: int)
    requires Elems(causes) == Causes(s) && FloorSoFar(t, s, causes, |causes|, level)
    ensures level == Peak(s, Anyone(), FloorOf(t))
  {
    forall sig | sig in s ensures FloorOf(t)(sig) <= level {
      assert sig.cause in Elems(causes);
      var k :| 0 <= k < |causes| && causes[k] == sig.cause;
      PeakIsPeak(s, InCause(causes[k]), FloorOf(t));
      assert InCause(causes[k])(sig);
    }
    if level != 0 {
      var k :| 0 <= k < |causes| && Peak(s, InCause(causes[k]), FloorOf(t)) == level;
      PeakIsPeak(s, InCause(causes[k]), FloorOf(t));
      var sig :| sig in s && InCause(causes[k])(sig) && FloorOf(t)(sig) == level;
      assert Anyone()(sig);
    }
    PeakIsUnique(level, s, Anyone(), FloorOf(t));
  }

  lemma {:induction false} MergedLevels(t: Table, s: seq<Signal>, c: string)
    ensures Level(MergedOf(t, s, c).floor) == Peak(s, InCause(c), FloorOf(t))
    ensures DIMENSIONS <= MergedOf(t, s, c).entropy.Keys
    ensures EntropySum(MergedOf(t, s, c).entropy) == Spread(t, s, c)
  {
    PeakIsPeak(s, InCause(c), FloorOf(t));
  }

  lemma {:induction false} FloorNext(t: Table, s: seq<Signal>, causes: seq<string>, i: nat, level: int, next: int)
    requires i < |causes| && FloorSoFar(t, s, causes, i, level)
    requires next == Max(level, Peak(s, InCause(causes[i]), FloorOf(t)))
    ensures FloorSoFar(t, s, causes, i + 1, next)
  {
    if next != 0 && next == level {
      var k :| 0 <= k < i && Peak(s, InCause(causes[k]), FloorOf(t)) == level;
      assert 0 <= k < i + 1;
    }
  }

  method Calibrate(s: seq<Signal>, baseEntropy: int, baseIntent: int, t: Table, registry: map<string, string>)
    returns (r: Result<Totals>)
    ensures r == Calibrated(t, registry, s, baseEntropy, baseIntent)
  {
    hide Conflicted, MergedOf, Leq, Sort, AllAccepted, FloorSoFar, Peak, Level;
    var merge := MergeByCause(s, t, registry);
    if merge.Err? {
      return Err(merge.failure);
    }
    var merged := merge.value;
    ghost var causes := Listing(Causes(s));
    var entropy, intent, floor := 0, 0, None;
    FloorStart(t, s, causes);
    for i := 0 to |merged|
      invariant entropy == SumOver(Elems(causes[..i]), EntropyOf(t, s))
      invariant intent == SumOver(Elems(causes[..i]), IntentPeak(t, s))
      invariant FloorSoFar(t, s, causes, i, Level(floor))
    {
      var m := merged[i];
      MergedLevels(t, s, causes[i]);
      MergedIntent(t, s, causes[i]);
      SumNext(causes, i, EntropyOf(t, s));
      SumNext(causes, i, IntentPeak(t, s));
      ghost var level := Level(floor);
      entropy := entropy + Min(EntropySum(m.entropy), CAUSE_CAP);
      intent := intent + m.intent;
      floor := StrongestFloor(floor, m.floor);
      FloorNext(t, s, causes, i, level, Level(floor));
    }
    assert causes[..|causes|] == causes;
    FloorOverall(t, s, causes, Level(floor));
    FloorOfLevel(floor);
    return Ok(Totals(Min(TOTAL_CAP, baseEntropy + entropy), baseIntent + intent, floor, merged));
  }

  lemma {:induction false} FloorStart(t: Table, s: seq<Signal>, causes: seq<string>)
    ensures FloorSoFar(t, s, causes, 0, Level(None))
  {}

  lemma MergedIntent(t: Table, s: seq<Signal>, c: string)
    ensures MergedOf(t, s, c).intent == IntentPeak(t, s)(c)
  {}
}
