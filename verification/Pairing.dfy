/** Paired-effect statistics of two cohort arms, unrounded and over the reals. */
module Pairing {
  import opened Ordering

  datatype Value = Flag(on: bool) | Number(x: real) | Other

  type Fields = map<string, Value>

  /** One trial. `snapshots` are the telemetry entries, `None` where an entry is no record. */
  datatype Row = Row(family: Option<string>, holdout: Option<bool>, fields: Fields,
                     snapshots: seq<Option<Fields>>, metrics: Option<Fields>)

  /** A raw result row; rows without a task id are not indexed. */
  datatype Raw = Raw(taskId: Option<string>, row: Row)

  type Index = map<string, Row>
  type Pair = (Row, Row)

  function Numeric(v: Value): Option<real> {
    match v
    case Flag(on) => Some(if on then 1.0 else 0.0)
    case Number(x) => Some(x)
    case Other => None
  }

  function Lookup(fields: Fields, name: string): Option<real> {
    if name in fields then Numeric(fields[name]) else None
  }

  function FinalRecord(snapshots: seq<Option<Fields>>): Fields {
    if snapshots == [] then map[]
    else if snapshots[|snapshots| - 1].Some? then snapshots[|snapshots| - 1].value
    else FinalRecord(snapshots[..|snapshots| - 1])
  }

  predicate IsSemantic(name: string) { "semantic_" <= name }

  function Metric(row: Row, name: string): Option<real> {
    if IsSemantic(name) then Lookup(FinalRecord(row.snapshots), name) else Lookup(row.fields, name)
  }

  // ---------- one delta summary ----------

  datatype Delta = Delta(n: nat, mean: Option<real>, positive: nat, negative: nat, zero: nat)

  type Values = seq<(real, real)>

  /** Sum of treatment minus control. */
  function Sum(values: Values): real {
    if values == [] then 0.0
    else Sum(values[..|values| - 1]) + (values[|values| - 1].1 - values[|values| - 1].0)
  }

  /** How many deltas have the given sign: 1, -1 or 0. */
  function Count(values: Values, sign: int): nat {
    if values == [] then 0
    else
      var delta := values[|values| - 1].1 - values[|values| - 1].0;
      Count(values[..|values| - 1], sign) + (if Sign(delta) == sign then 1 else 0)
  }

  function Sign(x: real): int { if x > 0.0 then 1 else if x < 0.0 then -1 else 0 }

  function DeltaSummary(values: Values): Delta {
    Delta(|values|, if values == [] then None else Some(Sum(values) / |values| as real),
          Count(values, 1), Count(values, -1), Count(values, 0))
  }

  lemma {:induction false} SignsPartition(values: Values)
    ensures Count(values, 1) + Count(values, -1) + Count(values, 0) == |values|
  {
    if values != [] { SignsPartition(values[..|values| - 1]); }
  }

  function Swapped(values: Values): (r: Values)
    ensures |r| == |values| && forall i :: 0 <= i < |values| ==> r[i] == (values[i].1, values[i].0)
  {
    seq(|values|, i requires 0 <= i < |values| => (values[i].1, values[i].0))
  }

  function Mirror(d: Delta): Delta {
    Delta(d.n, if d.mean.Some? then Some(-d.mean.value) else None, d.negative, d.positive, d.zero)
  }

  lemma {:induction false} SwapNegates(values: Values, sign: int)
    ensures Sum(Swapped(values)) == -Sum(values) && Count(Swapped(values), -sign) == Count(values, sign)
  {
    if values != [] {
      var last := |values| - 1;
      assert Swapped(values)[..last] == Swapped(values[..last]);
      SwapNegates(values[..last], sign);
    }
  }

  /** Exchanging the arms negates the mean and exchanges positive with negative deltas. */
  lemma {:induction false} SummaryOfSwap(values: Values)
    ensures DeltaSummary(Swapped(values)) == Mirror(DeltaSummary(values))
  {
    SwapNegates(values, 1);
    SwapNegates(values, -1);
    SwapNegates(values, 0);
    if values != [] { NegateQuotient(Sum(values), |values| as real); }
  }

  lemma NegateQuotient(x: real, n: real)
    requires n != 0.0
    ensures (-x) / n == -(x / n)
  {}

  // ---------- one split ----------

  /** Values of a metric over the pairs where both arms have a number. */
  function Scalars(pairs: seq<Pair>, name: string): Values {
    if pairs == [] then []
    else
      var (control, treatment) := pairs[|pairs| - 1];
      var left, right := Metric(control, name), Metric(treatment, name);
      Scalars(pairs[..|pairs| - 1], name)
      + (if left.Some? && right.Some? then [(left.value, right.value)] else [])
  }

  datatype TaskKey = TaskKey(family: string, name: string)

  function FamilyOf(row: Row): string {
    if row.family.Some? && row.family.value != "" then row.family.value else "unknown"
  }

  /** What one pair contributes to a task-evaluator metric of its control row's family. */
  function TaskValue(pair: Pair, key: TaskKey): Values {
    var (control, treatment) := pair;
    if FamilyOf(control) == key.family && control.metrics.Some? && treatment.metrics.Some? then
      var left, right := Lookup(control.metrics.value, key.name), Lookup(treatment.metrics.value, key.name);
      if left.Some? && right.Some? then [(left.value, right.value)] else []
    else []
  }

  function TaskValues(pairs: seq<Pair>, key: TaskKey): Values {
    if pairs == [] then [] else TaskValues(pairs[..|pairs| - 1], key) + TaskValue(pairs[|pairs| - 1], key)
  }

  const COMPLETION := "completion_success"

  function Completed(row: Row): Option<bool> {
    if COMPLETION in row.fields && row.fields[COMPLETION].Flag? then Some(row.fields[COMPLETION].on) else None
  }

  /** Pairs whose two completion flags are exactly these. */
  function Outcomes(pairs: seq<Pair>, control: bool, treatment: bool): nat {
    if pairs == [] then 0
    else
      var (c, t) := pairs[|pairs| - 1];
      Outcomes(pairs[..|pairs| - 1], control, treatment)
      + (if Completed(c) == Some(control) && Completed(t) == Some(treatment) then 1 else 0)
  }

  datatype Summary = Summary(matched: nat, treatmentOnly: nat, controlOnly: nat, both: nat, neither: nat,
                             scalars: map<string, Delta>, tasks: map<TaskKey, Delta>)

  ghost predicate IsSummary(pairs: seq<Pair>, names: set<string>, s: Summary) {
    && s.matched == |pairs|
    && s.treatmentOnly == Outcomes(pairs, false, true) && s.controlOnly == Outcomes(pairs, true, false)
    && s.both == Outcomes(pairs, true, true) && s.neither == Outcomes(pairs, false, false)
    && s.scalars.Keys == names && (forall name :: name in names ==> s.scalars[name] == DeltaSummary(Scalars(pairs, name)))
    && (forall key :: key in s.tasks <==> TaskValues(pairs, key) != [])
    && (forall key :: key in s.tasks ==> s.tasks[key] == DeltaSummary(TaskValues(pairs, key)))
  }

  ghost predicate Collected(pairs: seq<Pair>, tasks: map<TaskKey, Values>) {
    && (forall key :: key in tasks <==> TaskValues(pairs, key) != [])
    && (forall key :: key in tasks ==> tasks[key] == TaskValues(pairs, key))
  }

  /** What the pair contributes through the names handled so far. */
  ghost function Part(pair: Pair, key: TaskKey, names: set<string>): Values {
    if key.name in names then TaskValue(pair, key) else []
  }

  function Base(tasks: map<TaskKey, Values>, key: TaskKey): Values { if key in tasks then tasks[key] else [] }

  ghost predicate Extended(tasks0: map<TaskKey, Values>, pair: Pair, names: set<string>, tasks: map<TaskKey, Values>) {
    && (forall key :: key in tasks <==> key in tasks0 || Part(pair, key, names) != [])
    && (forall key :: key in tasks ==> tasks[key] == Base(tasks0, key) + Part(pair, key, names))
  }

  lemma {:induction false} ExtendOne(tasks0: map<TaskKey, Values>, pair: Pair, names: set<string>, tasks: map<TaskKey, Values>,
                                     key: TaskKey, family: string)
    requires Extended(tasks0, pair, names, tasks) && key.name !in names && key.family == family
    requires forall other :: TaskValue(pair, other) != [] ==> other.family == family
    ensures Extended(tasks0, pair, names + {key.name},
                     if TaskValue(pair, key) == [] then tasks else tasks[key := Base(tasks, key) + TaskValue(pair, key)])
  {
    hide TaskValue;
    var tasks' := if TaskValue(pair, key) == [] then tasks else tasks[key := Base(tasks, key) + TaskValue(pair, key)];
    forall other ensures Part(pair, other, names + {key.name}) == if other == key then TaskValue(pair, key) else Part(pair, other, names) {}
    assert Part(pair, key, names) == [];
  }

  /** Both arms report the metric and the control row is of that family. */
  ghost predicate Feeds(pair: Pair, key: TaskKey) {
    && key.family == FamilyOf(pair.0)
    && pair.0.metrics.Some? && key.name in pair.0.metrics.value
    && pair.1.metrics.Some? && key.name in pair.1.metrics.value
  }

  lemma {:induction false} ValuesOfFamily(pair: Pair, key: TaskKey)
    ensures TaskValue(pair, key) != [] ==> Feeds(pair, key)
  {
    if pair.0.metrics.Some? { MissingIsNone(pair.0.metrics.value, key.name); }
    if pair.1.metrics.Some? { MissingIsNone(pair.1.metrics.value, key.name); }
  }

  lemma {:induction false} ExtendNone(tasks0: map<TaskKey, Values>, pair: Pair)
    ensures Extended(tasks0, pair, {}, tasks0)
  {}

  lemma {:induction false} ExtendAll(tasks0: map<TaskKey, Values>, pair: Pair, names: set<string>, tasks: map<TaskKey, Values>)
    requires Extended(tasks0, pair, names, tasks)
    requires forall key :: TaskValue(pair, key) != [] ==> key.name in names
    ensures forall key :: key in tasks <==> key in tasks0 || TaskValue(pair, key) != []
    ensures forall key :: key in tasks ==> tasks[key] == Base(tasks0, key) + TaskValue(pair, key)
  {
    hide TaskValue;
    forall key ensures Part(pair, key, names) == TaskValue(pair, key) {}
  }

  /** One pair's metrics, added name by name to the lists collected so far. */
  method CollectPair(pair: Pair, tasks0: map<TaskKey, Values>) returns (tasks: map<TaskKey, Values>)
    ensures forall key :: key in tasks <==> key in tasks0 || TaskValue(pair, key) != []
    ensures forall key :: key in tasks ==> tasks[key] == Base(tasks0, key) + TaskValue(pair, key)
  {
    hide Lookup, Extended;
    tasks := tasks0;
    var (control, treatment) := pair;
    forall key ensures TaskValue(pair, key) != [] ==> Feeds(pair, key) {
      ValuesOfFamily(pair, key);
    }
    ExtendNone(tasks0, pair);
    if control.metrics.None? || treatment.metrics.None? {
      ExtendAll(tasks0, pair, {}, tasks);
      return;
    }
    var family := FamilyOf(control);
    var names := control.metrics.value.Keys * treatment.metrics.value.Keys;
    ghost var done: set<string> := {};
    while names != {}
      invariant done + names == control.metrics.value.Keys * treatment.metrics.value.Keys && done !! names
      invariant Extended(tasks0, pair, done, tasks)
      decreases |names|
    {
      var name :| name in names;
      var key := TaskKey(family, name);
      var left, right := Lookup(control.metrics.value, name), Lookup(treatment.metrics.value, name);
      ExtendOne(tasks0, pair, done, tasks, key, family);
      if left.Some? && right.Some? {
        tasks := tasks[key := Base(tasks, key) + [(left.value, right.value)]];
      }
      names, done := names - {name}, done + {name};
    }
    ExtendAll(tasks0, pair, done, tasks);
  }

  lemma {:induction false} MissingIsNone(fields: Fields, name: string)
    ensures name !in fields ==> Lookup(fields, name).None?
  {}

  method PairedSplitSummary(pairs: seq<Pair>, names: seq<string>) returns (s: Summary)
    ensures IsSummary(pairs, Elems(names), s)
  {
    var scalars: map<string, Delta> := map[];
    for i := 0 to |names|
      invariant scalars.Keys == Elems(names[..i])
      invariant forall name :: name in scalars ==> scalars[name] == DeltaSummary(Scalars(pairs, name))
    {
      assert names[..i + 1] == names[..i] + [names[i]];
      ElemsAppend(names[..i], names[i]);
      scalars := scalars[names[i] := DeltaSummary(Scalars(pairs, names[i]))];
    }
    assert names[..|names|] == names;
    var values: map<TaskKey, Values> := map[];
    for i := 0 to |pairs|
      invariant Collected(pairs[..i], values)
    {
      assert pairs[..i + 1][..i] == pairs[..i];
      values := CollectPair(pairs[i], values);
    }
    assert pairs[..|pairs|] == pairs;
    var tasks := map key | key in values :: DeltaSummary(values[key]);
    s := Summary(|pairs|, Outcomes(pairs, false, true), Outcomes(pairs, true, false), Outcomes(pairs, true, true),
                 Outcomes(pairs, false, false), scalars, tasks);
  }

  // ---------- matching two arms ----------

  /** The task ids both arms ran under the same family and the same holdout assignment. */
  ghost function Matched(a: Index, b: Index): set<string> {
    set id | id in a && id in b && a[id].family == b[id].family && a[id].holdout == b[id].holdout
  }

  ghost function PairsOf(a: Index, b: Index): (pairs: seq<Pair>)
    ensures |pairs| == |Listing(Matched(a, b))|
  {
    var ids := Listing(Matched(a, b));
    seq(|ids|, i requires 0 <= i < |ids| => (assert ids[i] in Elems(ids); (a[ids[i]], b[ids[i]])))
  }

  function SplitBy(pairs: seq<Pair>, holdout: bool): seq<Pair> {
    if pairs == [] then []
    else
      SplitBy(pairs[..|pairs| - 1], holdout)
      + (if pairs[|pairs| - 1].0.holdout == Some(holdout) then [pairs[|pairs| - 1]] else [])
  }

  datatype Comparison = Comparison(matched: nat, unmatchedControl: nat, unmatchedTreatment: nat, mismatched: nat,
                                   all: Summary, inTreatment: Summary, heldOut: Summary)

  ghost predicate IsComparison(a: Index, b: Index, names: set<string>, c: Comparison) {
    && c.matched == |Matched(a, b)|
    && c.unmatchedControl == |a.Keys - b.Keys| && c.unmatchedTreatment == |b.Keys - a.Keys|
    && c.mismatched == |a.Keys * b.Keys - Matched(a, b)|
    && IsSummary(PairsOf(a, b), names, c.all)
    && IsSummary(SplitBy(PairsOf(a, b), false), names, c.inTreatment)
    && IsSummary(SplitBy(PairsOf(a, b), true), names, c.heldOut)
  }

  /** The last-in dictionary of an arm; a repeated task id is an error. */
  ghost predicate IsIndex(raws: seq<Raw>, index: Index) {
    && (forall id :: id in index <==> id != "" && exists k :: 0 <= k < |raws| && raws[k].taskId == Some(id))
    && (forall k :: 0 <= k < |raws| && raws[k].taskId.Some? && raws[k].taskId.value != "" ==>
          raws[k].taskId.value in index && index[raws[k].taskId.value] == raws[k].row)
  }

  ghost predicate Repeats(raws: seq<Raw>) {
    exists i, j :: 0 <= i < j < |raws| && raws[i].taskId.Some? && raws[i].taskId.value != "" && raws[i].taskId == raws[j].taskId
  }

  method IndexRows(raws: seq<Raw>) returns (r: Option<Index>, order: seq<string>)
    ensures r.None? <==> Repeats(raws)
    ensures r.Some? ==> IsIndex(raws, r.value) && NoDup(order) && Elems(order) == r.value.Keys
  {
    var index: Index := map[];
    order := [];
    for i := 0 to |raws|
      invariant IsIndex(raws[..i], index) && !Repeats(raws[..i])
      invariant NoDup(order) && Elems(order) == index.Keys
    {
      var raw := raws[i];
      var seen := raws[..i];
      assert raws[..i + 1] == seen + [raw];
      if raw.taskId.Some? && raw.taskId.value != "" {
        if raw.taskId.value in index {
          RepeatFound(raws, i, index);
          return None, order;
        }
        IndexOne(seen, raw, index);
        ElemsAppend(order, raw.taskId.value);
        assert raw.taskId.value !in Elems(order);
        NoDupAppend(order, raw.taskId.value);
        index := index[raw.taskId.value := raw.row];
        order := order + [raw.taskId.value];
      } else {
        SkipOne(seen, raw, index);
      }
    }
    assert raws[..|raws|] == raws;
    return Some(index), order;
  }

  lemma {:induction false} RepeatFound(raws: seq<Raw>, i: nat, index: Index)
    requires i < |raws| && raws[i].taskId.Some? && raws[i].taskId.value != ""
    requires IsIndex(raws[..i], index) && raws[i].taskId.value in index
    ensures Repeats(raws)
  {
    var k :| 0 <= k < i && raws[..i][k].taskId == raws[i].taskId;
    assert raws[k].taskId == raws[i].taskId;
  }

  lemma {:induction false} IndexOne(seen: seq<Raw>, raw: Raw, index: Index)
    requires IsIndex(seen, index) && !Repeats(seen) && raw.taskId.Some? && raw.taskId.value != "" && raw.taskId.value !in index
    ensures IsIndex(seen + [raw], index[raw.taskId.value := raw.row]) && !Repeats(seen + [raw])
  {
    var more, index' := seen + [raw], index[raw.taskId.value := raw.row];
    assert more[|seen|] == raw;
    forall id ensures id in index' <==> id != "" && exists k :: 0 <= k < |more| && more[k].taskId == Some(id) {
      if k :| 0 <= k < |seen| && seen[k].taskId == Some(id) { assert more[k].taskId == Some(id); }
    }
  }

  lemma {:induction false} SkipOne(seen: seq<Raw>, raw: Raw, index: Index)
    requires IsIndex(seen, index) && !Repeats(seen) && (raw.taskId.None? || raw.taskId.value == "")
    ensures IsIndex(seen + [raw], index) && !Repeats(seen + [raw])
  {
    var more := seen + [raw];
    forall id ensures id in index <==> id != "" && exists k :: 0 <= k < |more| && more[k].taskId == Some(id) {
      if k :| 0 <= k < |seen| && seen[k].taskId == Some(id) { assert more[k].taskId == Some(id); }
    }
  }

  /** The ids of the control arm, in its order, that the treatment arm also has. */
  function Common(order: seq<string>, b: Index): (r: seq<string>)
    ensures forall id :: id in r <==> id in order && id in b
    ensures NoDup(order) ==> NoDup(r)
  {
    if order == [] then []
    else
      var last := |order| - 1;
      assert order == order[..last] + [order[last]];
      if order[last] in b then Common(order[..last], b) + [order[last]] else Common(order[..last], b)
  }

  /** The matched ids among the first ids of the sorted common list, and how many were skipped. */
  ghost predicate Matching(a: Index, b: Index, seen: seq<string>, kept: seq<string>, skipped: nat) {
    && NoDup(kept) && Sorted(kept, Leq) && (forall id :: id in kept <==> id in seen && id in Matched(a, b))
    && skipped + |kept| == |seen|
  }

  lemma {:induction false} MatchNext(a: Index, b: Index, common: seq<string>, i: nat, kept: seq<string>, skipped: nat)
    requires i < |common| && NoDup(common) && Sorted(common, Leq) && Matching(a, b, common[..i], kept, skipped)
    ensures common[i] in Matched(a, b) ==> Matching(a, b, common[..i + 1], kept + [common[i]], skipped)
    ensures common[i] !in Matched(a, b) ==> Matching(a, b, common[..i + 1], kept, skipped + 1)
  {
    hide Leq, Matched;
    var id := common[i];
    assert common[..i + 1] == common[..i] + [id];
    if id in Matched(a, b) {
      assert id !in common[..i];
      NoDupAppend(kept, id);
      forall k | 0 <= k < |kept| ensures Leq(kept[k], id) {
        assert kept[k] in common[..i];
        var j :| 0 <= j < i && common[..i][j] == kept[k];
        assert Leq(common[j], common[i]);
      }
    }
  }

  lemma {:induction false} MatchAll(a: Index, b: Index, common: seq<string>, kept: seq<string>, skipped: nat)
    requires NoDup(common) && Elems(common) == a.Keys * b.Keys && Matching(a, b, common, kept, skipped)
    ensures kept == Listing(Matched(a, b)) && skipped == |a.Keys * b.Keys - Matched(a, b)|
  {
    hide Leq;
    forall id ensures id in Elems(kept) <==> id in Matched(a, b) { assert id in common <==> id in Elems(common); }
    ListingIsUnique(kept, Listing(Matched(a, b)), Matched(a, b));
    NoDupCardinality(common);
    NoDupCardinality(kept);
    assert Matched(a, b) <= a.Keys * b.Keys;
  }

  ghost function PairsAt(a: Index, b: Index, ids: seq<string>): (pairs: seq<Pair>)
    requires forall id :: id in ids ==> id in a && id in b
    ensures |pairs| == |ids| && forall i :: 0 <= i < |ids| ==> pairs[i] == (a[ids[i]], b[ids[i]])
  {
    seq(|ids|, i requires 0 <= i < |ids| => (a[ids[i]], b[ids[i]]))
  }

  method MatchRows(a: Index, b: Index, common: seq<string>) returns (pairs: seq<Pair>, mismatched: nat)
    requires NoDup(common) && Sorted(common, Leq) && Elems(common) == a.Keys * b.Keys
    ensures pairs == PairsOf(a, b) && mismatched == |a.Keys * b.Keys - Matched(a, b)|
  {
    hide Leq, Matching, Sorted;
    pairs, mismatched := [], 0;
    ghost var kept: seq<string> := [];
    MatchNone(a, b, common);
    for i := 0 to |common|
      invariant Matching(a, b, common[..i], kept, mismatched)
      invariant forall id :: id in kept ==> id in a && id in b
      invariant pairs == PairsAt(a, b, kept)
    {
      var id := common[i];
      assert id in Elems(common);
      MatchNext(a, b, common, i, kept, mismatched);
      if a[id].family != b[id].family || a[id].holdout != b[id].holdout {
        mismatched := mismatched + 1;
      } else {
        pairs := pairs + [(a[id], b[id])];
        kept := kept + [id];
      }
    }
    assert common[..|common|] == common;
    MatchAll(a, b, common, kept, mismatched);
    assert pairs == PairsOf(a, b);
  }

  lemma {:induction false} MatchNone(a: Index, b: Index, common: seq<string>)
    ensures Matching(a, b, common[..0], [], 0)
  {}

  method PairedComparison(control: seq<Raw>, treatment: seq<Raw>, names: seq<string>)
    returns (r: Option<Comparison>, ghost a: Index, ghost b: Index)
    ensures r.None? <==> Repeats(control) || Repeats(treatment)
    ensures r.Some? ==> IsIndex(control, a) && IsIndex(treatment, b) && IsComparison(a, b, Elems(names), r.value)
  {
    hide Leq, Sort, IsIndex, Repeats, IsSummary, Matched;
    var left, order := IndexRows(control);
    var right, other := IndexRows(treatment);
    a, b := map[], map[];
    if left.None? || right.None? {
      return None, a, b;
    }
    var index, index' := left.value, right.value;
    a, b := index, index';
    var common := Sort(Common(order, index'), Leq);
    CommonIsSorted(index, index', order);
    var pairs, mismatched := MatchRows(index, index', common);
    var all := PairedSplitSummary(pairs, names);
    var live := PairedSplitSummary(SplitBy(pairs, false), names);
    var held := PairedSplitSummary(SplitBy(pairs, true), names);
    ListingSize(Matched(a, b));
    r := Some(Comparison(|pairs|, |index.Keys - index'.Keys|, |index'.Keys - index.Keys|, mismatched, all, live, held));
  }

  lemma {:induction false} ListingSize(names: set<string>)
    ensures |Listing(names)| == |names|
  {
    NoDupCardinality(Listing(names));
  }

  lemma {:induction false} CommonIsSorted(a: Index, b: Index, order: seq<string>)
    requires NoDup(order) && Elems(order) == a.Keys
    ensures var common := Sort(Common(order, b), Leq);
      NoDup(common) && Sorted(common, Leq) && Elems(common) == a.Keys * b.Keys
  {
    hide Leq, Sort;
    forall id ensures id in Elems(Common(order, b)) <==> id in a.Keys * b.Keys { assert id in order <==> id in Elems(order); }
    SortedListing(Common(order, b), a.Keys * b.Keys);
  }
}
