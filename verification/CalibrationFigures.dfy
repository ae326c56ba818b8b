/** What calibration computes on small batches, with the constants written out. */
module CalibrationFigures {
  import opened Ordering
  import opened Calibration

  // ---------- acceptance ----------

  /** Each defect alone rejects a batch, and nothing else does. */
  lemma {:induction false} RejectedExactly(t: Table, registry: map<string, string>, s: seq<Signal>)
    ensures MergeResult(t, registry, s) == Err(Rejected) <==>
      exists x :: x in s && (x.cause == "" || !x.wellFormed || !x.evidenced || x.kind !in registry || registry[x.kind] != x.source)
  {
    if x :| x in s && (x.cause == "" || !x.wellFormed || !x.evidenced || x.kind !in registry || registry[x.kind] != x.source) {
      assert !Accepted(registry, x);
    }
  }

  /** Two accepted signals conflict exactly when they share cause and type but not action and severity. */
  lemma {:induction false} PairConflictsExactly(t: Table, registry: map<string, string>, x: Signal, y: Signal)
    requires Accepted(registry, x) && Accepted(registry, y)
    ensures MergeResult(t, registry, [x, y]) == Err(Conflicting)
       <==> x.cause == y.cause && x.kind == y.kind && !(x.action == y.action && x.severity == y.severity)
  {
    hide Accepted, MergedList, Listing;
    assert x in [x, y] && y in [x, y];
    assert forall z :: z in [x, y] ==> z == x || z == y;
  }

  // ---------- floors ----------

  /** The order of the floors, without levels: schema, explanation, direct, auto, none. */
  lemma StrongestFloorByCases(a: Option<Mode>, b: Option<Mode>)
    ensures StrongestFloor(a, b) ==
      if a == Some(Schema) || b == Some(Schema) then Some(Schema)
      else if a == Some(Explanation) || b == Some(Explanation) then Some(Explanation)
      else if a == Some(Direct) || b == Some(Direct) then Some(Direct)
      else if a == Some(Auto) || b == Some(Auto) then Some(Auto)
      else None
  {}

  // ---------- one signal ----------

  /** What a table entry adds in one dimension: its effect when positive. */
  function Effect(e: Entry, d: Dimension): int {
    if d in e.entropy && e.entropy[d] > 0 then e.entropy[d] else 0
  }

  function Effects(e: Entry): map<Dimension, int> { map d | d in DIMENSIONS :: Effect(e, d) }

  /** The effects in the five dimensions added up. */
  function EffectSum(e: Entry): int {
    Effect(e, AmbiguityOfFraming) + Effect(e, TradeoffDensity) + Effect(e, OptionMultiplicity)
    + Effect(e, ComparativeIntent) + Effect(e, DownstreamImpact)
  }

  lemma {:induction false} PeakOfOne(x: Signal, sel: Signal -> bool, f: Signal -> int)
    requires sel(x)
    ensures Peak([x], sel, f) == if f(x) > 0 then f(x) else 0
  {
    assert [x][..0] == [];
  }

  lemma {:induction false} PeakOfTwo(x: Signal, y: Signal, sel: Signal -> bool, f: Signal -> int)
    requires sel(x) && sel(y)
    ensures Peak([x, y], sel, f) == Max(Peak([x], sel, f), Peak([y], sel, f))
  {
    assert [x, y][..1] == [x];
    PeakOfOne(x, sel, f);
    PeakOfOne(y, sel, f);
  }

  lemma {:induction false} ListingOfOne(name: string)
    ensures Listing({name}) == [name] && Listing({}) == []
  {
    ListingIsUnique([name], Listing({name}), {name});
    ListingIsUnique([], Listing({}), {});
  }

  lemma {:induction false} SumOfOne(name: string, g: string -> int)
    ensures SumOver({name}, g) == g(name)
  {
    SumRemove({name}, g, name);
    assert {name} - {name} == {};
  }

  lemma {:induction false} RecordOfOne(t: Table, x: Signal, e: Entry, fl: Option<Mode>)
    requires e == if x.kind in t.signals then t.signals[x.kind] else Entry(map[], 0, None)
    requires fl == StrongestFloor(e.floor, if x.action in t.actions then t.actions[x.action] else None)
    ensures MergedOf(t, [x], x.cause) == Merged(x.cause, Effects(e), Max(0, e.intent), fl, x.severity,
                                                   if x.action == "" then [] else [x.action], [x.kind])
  {
    EffectsOfOne(t, x, e);
    LevelsOfOne(t, x, e, fl);
    NamesOfOne(x);
    hide Peak, Effects, Listing, StrongestFloor, FloorAt, SeverityAt, KindsOf, ActionsOf, InCause, IntentOf, FloorOf, SeverityOf;
  }

  lemma {:induction false} LevelsOfOne(t: Table, x: Signal, e: Entry, fl: Option<Mode>)
    requires e == if x.kind in t.signals then t.signals[x.kind] else Entry(map[], 0, None)
    requires fl == StrongestFloor(e.floor, if x.action in t.actions then t.actions[x.action] else None)
    ensures Peak([x], InCause(x.cause), IntentOf(t)) == Max(0, e.intent)
    ensures FloorAt(Peak([x], InCause(x.cause), FloorOf(t))) == fl
    ensures SeverityAt(Peak([x], InCause(x.cause), SeverityOf())) == x.severity
  {
    PeakOfOne(x, InCause(x.cause), IntentOf(t));
    PeakOfOne(x, InCause(x.cause), FloorOf(t));
    PeakOfOne(x, InCause(x.cause), SeverityOf());
    hide Peak;
  }

  lemma {:induction false} NamesOfOne(x: Signal)
    ensures Listing(KindsOf([x], x.cause)) == [x.kind]
    ensures Listing(ActionsOf([x], x.cause)) == if x.action == "" then [] else [x.action]
  {
    hide Listing;
    assert KindsOf([x], x.cause) == {x.kind};
    assert ActionsOf([x], x.cause) == if x.action == "" then {} else {x.action};
    ListingOfOne(x.kind);
    ListingOfOne(x.action);
  }

  lemma {:induction false} EffectsOfOne(t: Table, x: Signal, e: Entry)
    requires e == if x.kind in t.signals then t.signals[x.kind] else Entry(map[], 0, None)
    ensures (map d | d in DIMENSIONS :: Peak([x], InCause(x.cause), DeltaAt(t, d))) == Effects(e)
    ensures Spread(t, [x], x.cause) == EffectSum(e)
  {
    forall d ensures Peak([x], InCause(x.cause), DeltaAt(t, d)) == Effect(e, d) { PeakOfOne(x, InCause(x.cause), DeltaAt(t, d)); }
    hide Peak, Effect;
  }

  lemma {:induction false} OneIsAccepted(t: Table, registry: map<string, string>, x: Signal, baseEntropy: int, baseIntent: int)
    requires Accepted(registry, x)
    ensures Calibrated(t, registry, [x], baseEntropy, baseIntent) == Ok(TotalsOf(t, [x], baseEntropy, baseIntent))
  {
    NoConflictInOne(x);
    hide Accepted, Conflicted, TotalsOf, MergedList;
  }

  /** The totals of one signal in terms of its merged record. */
  lemma {:induction false} TotalsOfOne(t: Table, x: Signal, baseEntropy: int, baseIntent: int)
    ensures TotalsOf(t, [x], baseEntropy, baseIntent)
         == Totals(Min(10_000_000, baseEntropy + Min(Spread(t, [x], x.cause), 2_000_000)),
                   baseIntent + MergedOf(t, [x], x.cause).intent, MergedOf(t, [x], x.cause).floor, [MergedOf(t, [x], x.cause)])
  {
    var s, c := [x], x.cause;
    assert Causes(s) == {c};
    ListingOfOne(c);
    SumOfOne(c, EntropyOf(t, s));
    SumOfOne(c, IntentPeak(t, s));
    PeakOfOne(x, Anyone(), FloorOf(t));
    PeakOfOne(x, InCause(c), FloorOf(t));
    hide Peak, Spread, Listing, SumOver, Level, FloorAt, SignalFloor;
    assert MergedList(t, s, [c]) == [MergedOf(t, s, c)];
  }

  /** One accepted signal: the whole result, caps included. A type without a table entry counts as an empty entry. */
  lemma {:induction false} CalibrateOne(t: Table, registry: map<string, string>, x: Signal, e: Entry, fl: Option<Mode>,
                                        baseEntropy: int, baseIntent: int)
    requires Accepted(registry, x)
    requires e == if x.kind in t.signals then t.signals[x.kind] else Entry(map[], 0, None)
    requires fl == StrongestFloor(e.floor, if x.action in t.actions then t.actions[x.action] else None)
    ensures Calibrated(t, registry, [x], baseEntropy, baseIntent)
         == Ok(Totals(Min(10_000_000, baseEntropy + Min(EffectSum(e), 2_000_000)), baseIntent + Max(0, e.intent), fl,
                      [Merged(x.cause, Effects(e), Max(0, e.intent), fl, x.severity,
                              if x.action == "" then [] else [x.action], [x.kind])]))
  {
    hide *;
    OneIsAccepted(t, registry, x, baseEntropy, baseIntent);
    TotalsOfOne(t, x, baseEntropy, baseIntent);
    RecordOfOne(t, x, e, fl);
    EffectsOfOne(t, x, e);
  }

  lemma {:induction false} NoConflictInOne(x: Signal)
    ensures !Conflicted([x])
  {}

  lemma EffectOfSingle(e: Entry, d: Dimension, v: int)
    requires v >= 0 && e.entropy == map[d := v]
    ensures EffectSum(e) == if d.Unmapped? then 0 else v
  {}

  /** Every one of the five dimensions counts in full up to the cap of two units, and a dimension the
      calibrator does not know counts nothing. */
  lemma {:induction false} EveryDimensionCounts(t: Table, registry: map<string, string>, x: Signal, d: Dimension, v: int, w: int, fl: Option<Mode>)
    requires Accepted(registry, x) && v >= 0
    requires x.kind in t.signals && t.signals[x.kind] == Entry(map[d := v], w, fl)
    ensures Calibrated(t, registry, [x], 0, 0).Ok?
    ensures Calibrated(t, registry, [x], 0, 0).value.entropy == if d.Unmapped? then 0 else if v <= 2_000_000 then v else 2_000_000
    ensures Calibrated(t, registry, [x], 0, 0).value.intent == if w > 0 then w else 0
  {
    EffectOfSingle(t.signals[x.kind], d, v);
    CalibrateOne(t, registry, x, t.signals[x.kind], SignalFloor(t, x), 0, 0);
    hide Calibrated, EffectSum, Effect, Accepted;
  }

  lemma EffectsOfPair(e: Entry, d: Dimension, v: int, b: Dimension, u: int)
    requires d in DIMENSIONS && b in DIMENSIONS && d != b && v >= 0 && u >= 0 && e.entropy == map[d := v, b := u]
    ensures EffectSum(e) == v + u
  {}

  /** Effects of one signal in two dimensions add up. */
  lemma {:induction false} DimensionsAddUp(t: Table, registry: map<string, string>, x: Signal, d: Dimension, v: int, b: Dimension, u: int,
                                           w: int, fl: Option<Mode>)
    requires Accepted(registry, x) && d in DIMENSIONS && b in DIMENSIONS && d != b && v >= 0 && u >= 0 && v + u <= 2_000_000
    requires x.kind in t.signals && t.signals[x.kind] == Entry(map[d := v, b := u], w, fl)
    ensures Calibrated(t, registry, [x], 0, 0).Ok? && Calibrated(t, registry, [x], 0, 0).value.entropy == v + u
  {
    EffectsOfPair(t.signals[x.kind], d, v, b, u);
    CalibrateOne(t, registry, x, t.signals[x.kind], SignalFloor(t, x), 0, 0);
    hide Calibrated, EffectSum, Effect;
  }

  /** The global cap holds whatever the base is. */
  lemma {:induction false} TotalIsCapped(t: Table, registry: map<string, string>, x: Signal, baseEntropy: int)
    requires Accepted(registry, x) && baseEntropy >= 10_000_000
    ensures Calibrated(t, registry, [x], baseEntropy, 0).Ok?
    ensures Calibrated(t, registry, [x], baseEntropy, 0).value.entropy == 10_000_000
  {
    var e := if x.kind in t.signals then t.signals[x.kind] else Entry(map[], 0, None);
    CalibrateOne(t, registry, x, e, SignalFloor(t, x), baseEntropy, 0);
  }

  // ---------- two signals ----------

  /** The larger effect of two entries, dimension by dimension, added up. */
  function LargerSum(e: Entry, f: Entry): int {
    Max(Effect(e, AmbiguityOfFraming), Effect(f, AmbiguityOfFraming)) + Max(Effect(e, TradeoffDensity), Effect(f, TradeoffDensity))
    + Max(Effect(e, OptionMultiplicity), Effect(f, OptionMultiplicity)) + Max(Effect(e, ComparativeIntent), Effect(f, ComparativeIntent))
    + Max(Effect(e, DownstreamImpact), Effect(f, DownstreamImpact))
  }

  lemma {:induction false} PeakOfPair(x: Signal, y: Signal, c: string, f: Signal -> int)
    requires x.cause == c && y.cause == c
    ensures Peak([x, y], InCause(c), f) == Max(if f(x) > 0 then f(x) else 0, if f(y) > 0 then f(y) else 0)
  {
    PeakOfTwo(x, y, InCause(c), f);
    PeakOfOne(x, InCause(c), f);
    PeakOfOne(y, InCause(c), f);
  }

  lemma {:induction false} SpreadOfTwo(t: Table, x: Signal, y: Signal, c: string)
    requires x.cause == c && y.cause == c && x.kind in t.signals && y.kind in t.signals
    ensures Spread(t, [x, y], c) == LargerSum(t.signals[x.kind], t.signals[y.kind])
  {
    var e, f := t.signals[x.kind], t.signals[y.kind];
    forall d ensures Peak([x, y], InCause(c), DeltaAt(t, d)) == Max(Effect(e, d), Effect(f, d)) {
      PeakOfPair(x, y, c, DeltaAt(t, d));
    }
    hide Peak, Effect;
  }

  /** Two types under one cause: the larger effect in every dimension, the larger intent and severity, one cap. */
  lemma {:induction false} OneCauseTakesTheLarger(t: Table, registry: map<string, string>, x: Signal, y: Signal)
    requires Accepted(registry, x) && Accepted(registry, y) && x.cause == y.cause && x.kind != y.kind
    requires x.kind in t.signals && y.kind in t.signals
    ensures var e, f := t.signals[x.kind], t.signals[y.kind];
            var r := Calibrated(t, registry, [x, y], 0, 0);
            && r.Ok? && |r.value.causes| == 1
            && r.value.entropy == Min(LargerSum(e, f), 2_000_000)
            && r.value.intent == Max(0, Max(e.intent, f.intent))
            && r.value.causes[0].severity == if x.severity == High || y.severity == High then High
                                             else if x.severity == Medium || y.severity == Medium then Medium else Low
  {
    var s, c := [x, y], x.cause;
    SpreadOfTwo(t, x, y, c);
    PeakOfPair(x, y, c, IntentOf(t));
    PeakOfPair(x, y, c, SeverityOf());
    hide Peak, Spread, LargerSum, FloorAt, Level, SignalFloor, Effect, EntryOf;
    PairConflictsExactly(t, registry, x, y);
    assert Causes(s) == {c};
    ListingOfOne(c);
    SumOfOne(c, EntropyOf(t, s));
    SumOfOne(c, IntentPeak(t, s));
    hide Peak, Spread, LargerSum, Accepted, Conflicted, Listing, SumOver, FloorAt, Level;
    assert MergeResult(t, registry, s) != Err(Rejected) by {
      assert forall z :: z in s ==> z == x || z == y;
    }
  }
}
