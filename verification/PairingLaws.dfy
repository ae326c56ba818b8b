/** Symmetry, conservation and additivity of paired comparisons. */
module PairingLaws {
  import opened Ordering
  import opened Pairing

  /** Every row an arm indexed is matched, mismatched or unmatched. */
  lemma {:induction false} RowsArePartitioned(a: Index, b: Index, names: set<string>, c: Comparison)
    requires IsComparison(a, b, names, c)
    ensures c.matched + c.mismatched + c.unmatchedControl == |a|
    ensures c.matched + c.mismatched + c.unmatchedTreatment == |b|
    ensures c.all.matched == c.matched
  {
    hide IsSummary, Matched, PairsOf, SplitBy;
    MatchedIsCommon(a, b);
    SplitCardinality(a.Keys, a.Keys * b.Keys, Matched(a, b));
    SplitCardinality(b.Keys, a.Keys * b.Keys, Matched(a, b));
    assert a.Keys - a.Keys * b.Keys == a.Keys - b.Keys && b.Keys - a.Keys * b.Keys == b.Keys - a.Keys;
    ListingSize(Matched(a, b));
    AllMatched(PairsOf(a, b), names, c.all);
  }

  lemma {:induction false} MatchedIsCommon(a: Index, b: Index)
    ensures Matched(a, b) <= a.Keys * b.Keys
  {}

  lemma {:induction false} SplitCardinality(keys: set<string>, common: set<string>, matched: set<string>)
    requires matched <= common <= keys
    ensures |matched| + |common - matched| + |keys - common| == |keys|
  {
    assert keys == common + (keys - common);
    assert common == matched + (common - matched);
  }

  lemma {:induction false} AllMatched(pairs: seq<Pair>, names: set<string>, s: Summary)
    requires IsSummary(pairs, names, s)
    ensures s.matched == |pairs|
  {}

  // ---------- exchanging the arms ----------

  ghost function Flip(pairs: seq<Pair>): (r: seq<Pair>)
    ensures |r| == |pairs| && forall i :: 0 <= i < |pairs| ==> r[i] == (pairs[i].1, pairs[i].0)
  {
    seq(|pairs|, i requires 0 <= i < |pairs| => (pairs[i].1, pairs[i].0))
  }

  ghost predicate SameFamilies(pairs: seq<Pair>) {
    forall i :: 0 <= i < |pairs| ==> pairs[i].0.family == pairs[i].1.family && pairs[i].0.holdout == pairs[i].1.holdout
  }

  lemma {:induction false} FlipFront(pairs: seq<Pair>)
    requires pairs != []
    ensures Flip(pairs)[..|pairs| - 1] == Flip(pairs[..|pairs| - 1])
    ensures SameFamilies(pairs) ==> SameFamilies(pairs[..|pairs| - 1])
  {}

  lemma {:induction false} SwappedAppend(values: Values, more: Values)
    ensures Swapped(values + more) == Swapped(values) + Swapped(more)
  {}

  lemma {:induction false} ScalarsOfFlip(pairs: seq<Pair>, name: string)
    ensures Scalars(Flip(pairs), name) == Swapped(Scalars(pairs, name))
  {
    if pairs != [] {
      var front, last := pairs[..|pairs| - 1], pairs[|pairs| - 1];
      FlipFront(pairs);
      ScalarsOfFlip(front, name);
      hide Metric;
      var left, right := Metric(last.0, name), Metric(last.1, name);
      var more := if left.Some? && right.Some? then [(left.value, right.value)] else [];
      SwappedAppend(Scalars(front, name), more);
    }
  }

  lemma {:induction false} TaskValueOfFlip(pair: Pair, key: TaskKey)
    requires pair.0.family == pair.1.family
    ensures TaskValue((pair.1, pair.0), key) == Swapped(TaskValue(pair, key))
  {
    hide Lookup;
  }

  lemma {:induction false} TaskValuesOfFlip(pairs: seq<Pair>, key: TaskKey)
    requires SameFamilies(pairs)
    ensures TaskValues(Flip(pairs), key) == Swapped(TaskValues(pairs, key))
  {
    if pairs != [] {
      var front, last := pairs[..|pairs| - 1], pairs[|pairs| - 1];
      FlipFront(pairs);
      TaskValuesOfFlip(front, key);
      TaskValueOfFlip(last, key);
      hide TaskValue;
      SwappedAppend(TaskValues(front, key), TaskValue(last, key));
    }
  }

  lemma {:induction false} OutcomesOfFlip(pairs: seq<Pair>, c: bool, t: bool)
    ensures Outcomes(Flip(pairs), c, t) == Outcomes(pairs, t, c)
  {
    if pairs != [] {
      FlipFront(pairs);
      OutcomesOfFlip(pairs[..|pairs| - 1], c, t);
    }
  }

  ghost function MirrorSummary(s: Summary): Summary {
    Summary(s.matched, s.controlOnly, s.treatmentOnly, s.both, s.neither,
            map name | name in s.scalars :: Mirror(s.scalars[name]), map key | key in s.tasks :: Mirror(s.tasks[key]))
  }

  /** Exchanging the arms of a split negates every mean and exchanges the one-sided counts. */
  lemma {:induction false} SummaryOfFlip(pairs: seq<Pair>, names: set<string>, s: Summary, flipped: Summary)
    requires SameFamilies(pairs) && IsSummary(pairs, names, s) && IsSummary(Flip(pairs), names, flipped)
    ensures flipped == MirrorSummary(s)
  {
    hide Scalars, TaskValues, Outcomes, DeltaSummary, Mirror;
    forall c, t ensures Outcomes(Flip(pairs), c, t) == Outcomes(pairs, t, c) { OutcomesOfFlip(pairs, c, t); }
    forall name ensures DeltaSummary(Scalars(Flip(pairs), name)) == Mirror(DeltaSummary(Scalars(pairs, name))) {
      ScalarsOfFlip(pairs, name);
      SummaryOfSwap(Scalars(pairs, name));
    }
    forall key
      ensures (TaskValues(Flip(pairs), key) == [] <==> TaskValues(pairs, key) == [])
      ensures DeltaSummary(TaskValues(Flip(pairs), key)) == Mirror(DeltaSummary(TaskValues(pairs, key)))
    {
      TaskValuesOfFlip(pairs, key);
      SummaryOfSwap(TaskValues(pairs, key));
    }
    assert flipped.scalars == MirrorSummary(s).scalars;
    assert flipped.tasks == MirrorSummary(s).tasks;
  }

  lemma {:induction false} SplitOfFlip(pairs: seq<Pair>, holdout: bool)
    requires SameFamilies(pairs)
    ensures SplitBy(Flip(pairs), holdout) == Flip(SplitBy(pairs, holdout)) && SameFamilies(SplitBy(pairs, holdout))
  {
    if pairs != [] {
      var front, last := pairs[..|pairs| - 1], pairs[|pairs| - 1];
      FlipFront(pairs);
      SplitOfFlip(front, holdout);
      assert Flip(SplitBy(front, holdout) + [last]) == Flip(SplitBy(front, holdout)) + [(last.1, last.0)];
    }
  }

  ghost function MirrorComparison(c: Comparison): Comparison {
    Comparison(c.matched, c.unmatchedTreatment, c.unmatchedControl, c.mismatched,
               MirrorSummary(c.all), MirrorSummary(c.inTreatment), MirrorSummary(c.heldOut))
  }

  lemma {:induction false} PairsOfFlip(a: Index, b: Index)
    ensures PairsOf(b, a) == Flip(PairsOf(a, b)) && SameFamilies(PairsOf(a, b))
  {
    assert Matched(b, a) == Matched(a, b);
    var ids := Listing(Matched(a, b));
    forall i | 0 <= i < |ids| ensures ids[i] in Matched(a, b) { assert ids[i] in Elems(ids); }
  }

  /** The comparison with control and treatment exchanged is the mirror image, split by split. */
  lemma {:induction false} ComparisonIsAntisymmetric(a: Index, b: Index, names: set<string>, c: Comparison, swapped: Comparison)
    requires IsComparison(a, b, names, c) && IsComparison(b, a, names, swapped)
    ensures swapped == MirrorComparison(c)
  {
    hide IsSummary, MirrorSummary, SplitBy, Flip, PairsOf;
    PairsOfFlip(a, b);
    var pairs := PairsOf(a, b);
    SplitOfFlip(pairs, false);
    SplitOfFlip(pairs, true);
    SummaryOfFlip(pairs, names, c.all, swapped.all);
    SummaryOfFlip(SplitBy(pairs, false), names, c.inTreatment, swapped.inTreatment);
    SummaryOfFlip(SplitBy(pairs, true), names, c.heldOut, swapped.heldOut);
    MatchedIsSymmetric(a, b);
  }

  lemma {:induction false} MatchedIsSymmetric(a: Index, b: Index)
    ensures Matched(b, a) == Matched(a, b) && b.Keys * a.Keys - Matched(b, a) == a.Keys * b.Keys - Matched(a, b)
  {}

  // ---------- three arms ----------

  ghost predicate AllNumeric(a: Index, ids: seq<string>, name: string) {
    forall id :: id in ids ==> id in a && Metric(a[id], name).Some?
  }

  lemma {:induction false} SumsAddOver(a: Index, b: Index, c: Index, ids: seq<string>, name: string)
    requires AllNumeric(a, ids, name) && AllNumeric(b, ids, name) && AllNumeric(c, ids, name)
    ensures Sum(Scalars(PairsAt(a, c, ids), name)) == Sum(Scalars(PairsAt(a, b, ids), name)) + Sum(Scalars(PairsAt(b, c, ids), name))
    ensures |Scalars(PairsAt(a, c, ids), name)| == |Scalars(PairsAt(a, b, ids), name)| == |Scalars(PairsAt(b, c, ids), name)| == |ids|
  {
    if ids != [] {
      var front, id := ids[..|ids| - 1], ids[|ids| - 1];
      assert ids == front + [id];
      SumsAddOver(a, b, c, front, name);
      ScalarsNext(a, b, front, id, name);
      ScalarsNext(b, c, front, id, name);
      ScalarsNext(a, c, front, id, name);
    }
  }

  lemma {:induction false} ScalarsNext(a: Index, b: Index, front: seq<string>, id: string, name: string)
    requires AllNumeric(a, front + [id], name) && AllNumeric(b, front + [id], name)
    requires forall other :: other in front ==> other in front + [id]
    requires id in front + [id]
    ensures Sum(Scalars(PairsAt(a, b, front + [id]), name))
         == Sum(Scalars(PairsAt(a, b, front), name)) + (Metric(b[id], name).value - Metric(a[id], name).value)
    ensures |Scalars(PairsAt(a, b, front + [id]), name)| == |Scalars(PairsAt(a, b, front), name)| + 1
  {
    hide Metric;
    var pairs := PairsAt(a, b, front + [id]);
    assert pairs[..|front|] == PairsAt(a, b, front);
    var values := Scalars(PairsAt(a, b, front), name);
    var x := (Metric(a[id], name).value, Metric(b[id], name).value);
    assert Scalars(pairs, name) == values + [x];
    assert (values + [x])[..|values|] == values;
  }

  /** Three arms with the same matched tasks: the unrounded effects add up along the chain. */
  lemma {:induction false} EffectsAddUp(a: Index, b: Index, c: Index, name: string)
    requires Matched(a, b) == Matched(b, c) == Matched(a, c)
    requires AllNumeric(a, Listing(Matched(a, b)), name) && AllNumeric(b, Listing(Matched(a, b)), name)
    requires AllNumeric(c, Listing(Matched(a, b)), name)
    ensures Sum(Scalars(PairsOf(a, c), name)) == Sum(Scalars(PairsOf(a, b), name)) + Sum(Scalars(PairsOf(b, c), name))
    ensures |Scalars(PairsOf(a, c), name)| == |Scalars(PairsOf(a, b), name)| == |Scalars(PairsOf(b, c), name)| == |Matched(a, b)|
  {
    var ids := Listing(Matched(a, b));
    ListingSize(Matched(a, b));
    SumsAddOver(a, b, c, ids, name);
    assert PairsOf(a, b) == PairsAt(a, b, ids) && PairsOf(b, c) == PairsAt(b, c, ids) && PairsOf(a, c) == PairsAt(a, c, ids);
  }

  // ---------- what the figures are ----------

  /** The pairs whose treatment value, the second, is the larger one. */
  ghost function Risen(values: Values): set<int> { set i | 0 <= i < |values| && values[i].1 > values[i].0 }

  /** The pairs whose treatment value is the smaller one. */
  ghost function Fallen(values: Values): set<int> { set i | 0 <= i < |values| && values[i].1 < values[i].0 }

  lemma {:induction false} RisenAppend(values: Values, x: (real, real))
    ensures |Risen(values + [x])| == |Risen(values)| + (if x.1 > x.0 then 1 else 0)
  {
    var more := values + [x];
    assert forall i :: 0 <= i < |values| ==> more[i] == values[i];
    assert Risen(more) == Risen(values) + (if x.1 > x.0 then {|values|} else {});
  }

  lemma {:induction false} FallenAppend(values: Values, x: (real, real))
    ensures |Fallen(values + [x])| == |Fallen(values)| + (if x.1 < x.0 then 1 else 0)
  {
    var more := values + [x];
    assert forall i :: 0 <= i < |values| ==> more[i] == values[i];
    assert Fallen(more) == Fallen(values) + (if x.1 < x.0 then {|values|} else {});
  }

  /** A delta is positive when the treatment value is the larger one, negative when it is the smaller one. */
  lemma {:induction false} SignsArePositions(values: Values)
    ensures DeltaSummary(values).n == |values|
    ensures DeltaSummary(values).positive == |Risen(values)| && DeltaSummary(values).negative == |Fallen(values)|
  {
    if values == [] {
      assert Risen(values) == {} && Fallen(values) == {};
    } else {
      var front, x := values[..|values| - 1], values[|values| - 1];
      assert values == front + [x];
      SignsArePositions(front);
      RisenAppend(front, x);
      FallenAppend(front, x);
      hide Risen, Fallen, Sum;
    }
  }

  lemma {:induction false} SumOfConcat(a: Values, b: Values)
    ensures Sum(a + b) == Sum(a) + Sum(b)
    ensures forall left: real, right: real :: Sum([(left, right)]) == right - left
  {
    assert forall x: (real, real) :: [x][..0] == [];
    if b == [] {
      assert a + b == a;
    } else {
      assert (a + b)[..|a + b| - 1] == a + b[..|b| - 1];
      SumOfConcat(a, b[..|b| - 1]);
    }
  }

  /** When every pair differs by the same amount, treatment minus control, that amount is the mean. */
  lemma {:induction false} MeanOfConstant(values: Values, d: real)
    requires values != [] && forall i :: 0 <= i < |values| ==> values[i].1 - values[i].0 == d
    ensures DeltaSummary(values).mean == Some(d)
  {
    SumOfEqual(values, d);
    DivideBack(Sum(values), d, |values| as real);
  }

  lemma {:induction false} SumOfEqual(values: Values, d: real)
    requires forall i :: 0 <= i < |values| ==> values[i].1 - values[i].0 == d
    ensures Sum(values) == d * |values| as real
  {
    if values != [] { SumOfEqual(values[..|values| - 1], d); }
  }

  lemma DivideBack(x: real, d: real, n: real)
    requires n != 0.0 && x == d * n
    ensures x / n == d
  {}

  lemma {:induction false} ScalarsOfConcat(a: seq<Pair>, b: seq<Pair>, name: string)
    ensures Scalars(a + b, name) == Scalars(a, name) + Scalars(b, name)
    decreases |b|
  {
    hide Metric;
    if b == [] {
      assert a + b == a;
    } else {
      var front, x := b[..|b| - 1], b[|b| - 1];
      assert (a + b)[..|a + b| - 1] == a + front && (a + b)[|a + b| - 1] == x;
      ScalarsOfConcat(a, front, name);
      var left, right := Metric(x.0, name), Metric(x.1, name);
      var more := if left.Some? && right.Some? then [(left.value, right.value)] else [];
      assert Scalars(a, name) + Scalars(front, name) + more == Scalars(a, name) + (Scalars(front, name) + more);
    }
  }

  /** The first of a pair is the control row: its value is the first of the pair of values. */
  lemma {:induction false} ScalarsOfOne(control: Row, treatment: Row, name: string)
    ensures Metric(control, name).Some? && Metric(treatment, name).Some? ==>
              Scalars([(control, treatment)], name) == [(Metric(control, name).value, Metric(treatment, name).value)]
    ensures Metric(control, name).None? || Metric(treatment, name).None? ==> Scalars([(control, treatment)], name) == []
  {
    hide Metric;
    var pairs: seq<Pair> := [(control, treatment)];
    assert pairs[..|pairs| - 1] == [];
    assert forall x: (real, real) :: [] + [x] == [x];
  }

  /** A semantic metric is read from the last telemetry record, any other from the row itself; flags count as 0 and 1. */
  lemma {:induction false} MetricIsRead(row: Row, front: seq<Option<Fields>>, final: Fields, gaps: nat, x: real, on: bool)
    requires row.snapshots == front + [Some(final)] + seq(gaps, i => None)
    ensures "semantic_uses" in final && final["semantic_uses"] == Number(x) ==> Metric(row, "semantic_uses") == Some(x)
    ensures "semantic_uses" !in final ==> Metric(row, "semantic_uses") == None
    ensures "model_calls" in row.fields && row.fields["model_calls"] == Number(x) ==> Metric(row, "model_calls") == Some(x)
    ensures COMPLETION in row.fields && row.fields[COMPLETION] == Flag(on) ==>
      Metric(row, COMPLETION) == Some(if on then 1.0 else 0.0)
    ensures COMPLETION in row.fields && row.fields[COMPLETION].Other? ==> Metric(row, COMPLETION) == None
  {
    FinalIsLast(front, final, gaps);
    assert "semantic_uses" == "semantic_" + "uses";
    assert "model_calls"[0] != 's' && COMPLETION[0] != 's' && "semantic_"[0] == 's';
  }

  lemma {:induction false} FinalIsLast(front: seq<Option<Fields>>, final: Fields, gaps: nat)
    ensures FinalRecord(front + [Some(final)] + seq(gaps, i => None)) == final
  {
    var all := front + [Some(final)] + seq(gaps, i => None);
    if gaps > 0 {
      assert all[..|all| - 1] == front + [Some(final)] + seq(gaps - 1, i => None);
      FinalIsLast(front, final, gaps - 1);
    }
  }

  /** One pair of completed trials falls into the one outcome that names its two flags, control first. */
  lemma {:induction false} OutcomeOfOne(control: Row, treatment: Row, names: set<string>, s: Summary, before: bool, after: bool)
    requires IsSummary([(control, treatment)], names, s)
    requires COMPLETION in control.fields && control.fields[COMPLETION] == Flag(before)
    requires COMPLETION in treatment.fields && treatment.fields[COMPLETION] == Flag(after)
    ensures s.matched == 1
    ensures s.treatmentOnly == if !before && after then 1 else 0
    ensures s.controlOnly == if before && !after then 1 else 0
    ensures s.both == if before && after then 1 else 0
    ensures s.neither == if !before && !after then 1 else 0
  {
    hide Scalars, TaskValues, DeltaSummary;
    forall c, t ensures Outcomes([(control, treatment)], c, t) == if before == c && after == t then 1 else 0 {
      var pairs: seq<Pair> := [(control, treatment)];
      assert pairs[..|pairs| - 1] == [];
    }
  }

  lemma {:induction false} OutcomesOfConcat(a: seq<Pair>, b: seq<Pair>, before: bool, after: bool)
    ensures Outcomes(a + b, before, after) == Outcomes(a, before, after) + Outcomes(b, before, after)
  {
    if b == [] {
      assert a + b == a;
    } else {
      assert (a + b)[..|a + b| - 1] == a + b[..|b| - 1];
      OutcomesOfConcat(a, b[..|b| - 1], before, after);
    }
  }

  /** A task metric is filed under the control row's family, or "unknown" when that is missing or empty. */
  lemma {:induction false} TaskMetricIsFiled(control: Row, treatment: Row, names: set<string>, s: Summary, name: string, x: real, y: real)
    requires IsSummary([(control, treatment)], names, s)
    requires control.metrics.Some? && name in control.metrics.value && control.metrics.value[name] == Number(x)
    requires treatment.metrics.Some? && name in treatment.metrics.value && treatment.metrics.value[name] == Number(y)
    ensures var key := TaskKey(if control.family.Some? && control.family.value != "" then control.family.value else "unknown", name);
            key in s.tasks && s.tasks[key] == DeltaSummary([(x, y)])
  {
    hide Scalars, DeltaSummary, Outcomes;
    var pairs: seq<Pair> := [(control, treatment)];
    var key := TaskKey(FamilyOf(control), name);
    assert pairs[..|pairs| - 1] == [];
    assert TaskValue((control, treatment), key) == [(x, y)];
    assert TaskValues(pairs, key) == [] + [(x, y)] == [(x, y)];
  }

  /** The two splits: the pairs whose control row is not held out, and those whose control row is, in order. */
  lemma {:induction false} SplitKeepsOrder(a: seq<Pair>, pair: Pair, holdout: bool)
    ensures SplitBy([], holdout) == []
    ensures SplitBy(a + [pair], holdout) == if pair.0.holdout == Some(holdout) then SplitBy(a, holdout) + [pair] else SplitBy(a, holdout)
  {
    assert (a + [pair])[..|a|] == a;
  }

  ghost function Assigned(a: Index, ids: seq<string>, holdout: bool): set<string> {
    set id | id in ids && id in a && a[id].holdout == Some(holdout)
  }

  lemma {:induction false} AssignedAppend(a: Index, front: seq<string>, id: string, holdout: bool)
    requires id in a && id !in front
    ensures |Assigned(a, front + [id], holdout)| == |Assigned(a, front, holdout)| + (if a[id].holdout == Some(holdout) then 1 else 0)
  {
    assert Assigned(a, front + [id], holdout) == Assigned(a, front, holdout) + (if a[id].holdout == Some(holdout) then {id} else {});
  }

  lemma {:induction false} SplitSize(a: Index, b: Index, ids: seq<string>, holdout: bool)
    requires NoDup(ids) && forall id :: id in ids ==> id in a && id in b
    ensures |SplitBy(PairsAt(a, b, ids), holdout)| == |Assigned(a, ids, holdout)|
  {
    if ids == [] {
      assert Assigned(a, ids, holdout) == {};
    } else {
      var front, id := ids[..|ids| - 1], ids[|ids| - 1];
      assert ids == front + [id] && id in ids;
      NoDupAppend(front, id);
      hide SplitBy, PairsAt, NoDup, Assigned;
      SplitSize(a, b, front, holdout);
      PairsAtAppend(a, b, front, id);
      SplitKeepsOrder(PairsAt(a, b, front), (a[id], b[id]), holdout);
      AssignedAppend(a, front, id, holdout);
    }
  }

  lemma {:induction false} PairsAtAppend(a: Index, b: Index, front: seq<string>, id: string)
    requires (forall x :: x in front ==> x in a && x in b) && id in a && id in b
    ensures PairsAt(a, b, front + [id]) == PairsAt(a, b, front) + [(a[id], b[id])]
  {}

  lemma {:induction false} AssignedOfMatched(a: Index, b: Index, holdout: bool)
    ensures Assigned(a, Listing(Matched(a, b)), holdout) == set id | id in Matched(a, b) && a[id].holdout == Some(holdout)
  {
    var ids := Listing(Matched(a, b));
    assert forall id :: id in ids <==> id in Elems(ids);
  }

  lemma {:induction false} PairsOfIsPairsAt(a: Index, b: Index)
    ensures NoDup(Listing(Matched(a, b))) && forall id :: id in Listing(Matched(a, b)) ==> id in a && id in b
    ensures PairsOf(a, b) == PairsAt(a, b, Listing(Matched(a, b)))
  {
    var ids := Listing(Matched(a, b));
    assert forall id :: id in ids <==> id in Elems(ids);
  }

  /** The held-out split counts the matched tasks marked as held out, the other split those marked as not. */
  lemma {:induction false} SplitsCountHoldouts(a: Index, b: Index, names: set<string>, c: Comparison)
    requires IsComparison(a, b, names, c)
    ensures c.heldOut.matched == |set id | id in Matched(a, b) && a[id].holdout == Some(true)|
    ensures c.inTreatment.matched == |set id | id in Matched(a, b) && a[id].holdout == Some(false)|
  {
    hide IsSummary, SplitBy, PairsOf, PairsAt, Assigned, Listing, NoDup;
    PairsOfIsPairsAt(a, b);
    SplitSize(a, b, Listing(Matched(a, b)), true);
    SplitSize(a, b, Listing(Matched(a, b)), false);
    AssignedOfMatched(a, b, true);
    AssignedOfMatched(a, b, false);
    AllMatched(SplitBy(PairsOf(a, b), true), names, c.heldOut);
    AllMatched(SplitBy(PairsOf(a, b), false), names, c.inTreatment);
  }
}
