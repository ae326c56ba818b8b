/** Anti-hyperfocus metrics: one pass of running counters, proved equal to statements about
    windows of the action sequence. */
module Attention {
  import opened Ordering

  /** One traced action: its declared target and the criterion ids it lists. */
  datatype Action = Action(target: Option<string>, listed: seq<string>)

  datatype Metrics = Metrics(
    actions: nat, unattributed: nat, perCriterion: map<string, nat>, firstAction: map<string, nat>,
    untouched: seq<string>, streak: nat, streakCriterion: Option<string>, starvation: Option<nat>, rotations: nat)

  // ---------- criteria and targets ----------

  function NonEmpty(names: seq<string>): (r: seq<string>)
    ensures forall x :: x in r <==> x in names && x != ""
  {
    if names == [] then []
    else
      var last := |names| - 1;
      assert names == names[..last] + [names[last]];
      if names[last] == "" then NonEmpty(names[..last]) else NonEmpty(names[..last]) + [names[last]]
  }

  function AllListed(actions: seq<Action>): (r: seq<string>)
    ensures forall x :: x in r <==> exists a :: a in actions && x in a.listed
  {
    if actions == [] then []
    else
      var last := |actions| - 1;
      assert actions == actions[..last] + [actions[last]];
      AllListed(actions[..last]) + actions[last].listed
  }

  /** The required criteria, or every listed criterion when none is required; sorted, without repetition. */
  function CriteriaOf(required: seq<string>, actions: seq<Action>): seq<string> {
    var declared := Sort(Dedup(NonEmpty(required)), Leq);
    if declared != [] then declared else Sort(Dedup(NonEmpty(AllListed(actions))), Leq)
  }

  lemma {:induction false} SortedSet(names: seq<string>)
    ensures var l := Sort(Dedup(names), Leq); NoDup(l) && Sorted(l, Leq) && Elems(l) == Elems(names)
  {
    hide Leq, Sort, Dedup, Sorted;
    LeqIsTotalOrder({});
    SortSorted(Dedup(names), Leq);
    SortKeeps(Dedup(names), Leq);
  }

  /** The criteria are the sorted set of the required names, or of the listed ones when none is required. */
  lemma {:induction false} CriteriaAreDistinct(required: seq<string>, actions: seq<Action>)
    ensures NoDup(CriteriaOf(required, actions)) && Sorted(CriteriaOf(required, actions), Leq)
    ensures forall x :: x in CriteriaOf(required, actions) <==>
      x != "" && if exists r :: r in required && r != "" then x in required else exists a :: a in actions && x in a.listed
  {
    hide Leq, Sort, Dedup, NoDup, Sorted;
    SortedSet(NonEmpty(required));
    SortedSet(NonEmpty(AllListed(actions)));
    var declared, listed := Sort(Dedup(NonEmpty(required)), Leq), Sort(Dedup(NonEmpty(AllListed(actions))), Leq);
    forall x ensures (x in declared <==> x in NonEmpty(required)) && (x in listed <==> x in NonEmpty(AllListed(actions))) {
      assert x in declared <==> x in Elems(declared);
      assert x in listed <==> x in Elems(listed);
      assert x in NonEmpty(required) <==> x in Elems(NonEmpty(required));
      assert x in NonEmpty(AllListed(actions)) <==> x in Elems(NonEmpty(AllListed(actions)));
    }
    if r :| r in required && r != "" { assert r in declared; }
    if declared != [] { assert declared[0] in declared; }
  }

  /** The declared target when it is a criterion, else the only listed criterion, else none. */
  function Resolve(a: Action, criteria: seq<string>): (t: Option<string>)
    ensures t.Some? ==> t.value in criteria
  {
    if a.target.Some? && a.target.value in criteria then a.target
    else
      var candidates := Keep(a.listed, criteria);
      if |candidates| == 1 then Some(candidates[0]) else None
  }

  function Keep(names: seq<string>, criteria: seq<string>): (r: seq<string>)
    ensures forall x :: x in r <==> x in names && x in criteria
  {
    if names == [] then []
    else
      var last := |names| - 1;
      assert names == names[..last] + [names[last]];
      if names[last] in criteria then Keep(names[..last], criteria) + [names[last]] else Keep(names[..last], criteria)
  }

  type Targets = seq<Option<string>>

  /** Exactly one position of the list names a criterion, and it names `c`. */
  ghost predicate OnlyListed(names: seq<string>, criteria: seq<string>, c: string) {
    exists k :: 0 <= k < |names| && names[k] == c && c in criteria
                && forall j :: 0 <= j < |names| && j != k ==> names[j] !in criteria
  }

  /** The action counts towards `c`: its declared target, or the only criterion it lists when the declared
      target is no criterion. */
  ghost predicate CountsTowards(a: Action, criteria: seq<string>, c: string) {
    && c in criteria
    && (a.target == Some(c)
        || ((a.target.None? || a.target.value !in criteria) && OnlyListed(a.listed, criteria, c)))
  }

  ghost predicate AttributedTo(actions: seq<Action>, criteria: seq<string>, ts: Targets) {
    && |ts| == |actions|
    && forall i, c :: 0 <= i < |actions| ==> (ts[i] == Some(c) <==> CountsTowards(actions[i], criteria, c))
  }

  lemma {:induction false} KeepNone(names: seq<string>, criteria: seq<string>)
    ensures Keep(names, criteria) == [] <==> forall j :: 0 <= j < |names| ==> names[j] !in criteria
  {
    if names != [] {
      var last := |names| - 1;
      KeepNone(names[..last], criteria);
    }
  }

  lemma {:induction false} KeepOne(names: seq<string>, criteria: seq<string>, c: string)
    ensures Keep(names, criteria) == [c] <==> OnlyListed(names, criteria, c)
  {
    if names != [] {
      var last := |names| - 1;
      var front := names[..last];
      KeepOne(front, criteria, c);
      KeepNone(front, criteria);
      OnlyListedAppend(front, names[last], criteria, c);
      assert names == front + [names[last]];
      hide OnlyListed;
      var kept := Keep(front, criteria);
      if names[last] in criteria {
        assert kept + [names[last]] == [c] <==> kept == [] && names[last] == c by {
          assert kept == [] ==> kept + [names[last]] == [names[last]];
          assert |kept + [names[last]]| == |kept| + 1;
        }
      }
    }
  }

  lemma {:induction false} OnlyListedAppend(front: seq<string>, x: string, criteria: seq<string>, c: string)
    ensures OnlyListed(front + [x], criteria, c) <==>
      if x in criteria then x == c && forall j :: 0 <= j < |front| ==> front[j] !in criteria
      else OnlyListed(front, criteria, c)
  {
    var names := front + [x];
    assert forall j :: 0 <= j < |front| ==> names[j] == front[j];
    assert names[|front|] == x;
    if k :| 0 <= k < |names| && names[k] == c && c in criteria && forall j :: 0 <= j < |names| && j != k ==> names[j] !in criteria {
      if x in criteria { assert k == |front|; } else { assert k < |front| && front[k] == c; }
    }
    if k :| 0 <= k < |front| && front[k] == c && c in criteria && forall j :: 0 <= j < |front| && j != k ==> front[j] !in criteria {
      assert names[k] == c;
    }
  }

  /** The resolved target is the criterion the action counts towards, when there is one. */
  lemma {:induction false} ResolveIsAttribution(a: Action, criteria: seq<string>, c: string)
    ensures Resolve(a, criteria) == Some(c) <==> CountsTowards(a, criteria, c)
  {
    KeepOne(a.listed, criteria, c);
    hide Keep, OnlyListed;
    var kept := Keep(a.listed, criteria);
    assert |kept| == 1 ==> kept == [kept[0]];
  }

  /** The cases one by one: a declared criterion wins, a foreign or missing target falls back to the one listed
      criterion, and a repeated or second criterion leaves the action unattributed. */
  lemma {:induction false} AttributionByCases(c: string, d: string, foreign: string, listed: seq<string>, criteria: seq<string>)
    requires c in criteria && d in criteria && foreign !in criteria
    ensures Resolve(Action(Some(c), listed), criteria) == Some(c)
    ensures Resolve(Action(None, [foreign, c]), criteria) == Some(c)
    ensures Resolve(Action(Some(foreign), [c, foreign]), criteria) == Some(c)
    ensures Resolve(Action(None, [c, d]), criteria) == None
    ensures Resolve(Action(None, [foreign]), criteria) == None && Resolve(Action(None, []), criteria) == None
  {
    KeepPair(foreign, c, criteria);
    KeepPair(c, foreign, criteria);
    KeepPair(c, d, criteria);
    KeepPair(foreign, foreign, criteria);
    hide Keep;
  }

  lemma {:induction false} KeepPair(x: string, y: string, criteria: seq<string>)
    ensures Keep([x, y], criteria) == (if x in criteria then [x] else []) + (if y in criteria then [y] else [])
    ensures Keep([x], criteria) == if x in criteria then [x] else []
    ensures Keep([], criteria) == []
  {
    assert [x, y][..1] == [x] && [x][..0] == [];
    assert Keep([x], criteria) == [] + (if x in criteria then [x] else []);
  }

  lemma {:induction false} TargetsAreAttributed(actions: seq<Action>, criteria: seq<string>)
    ensures AttributedTo(actions, criteria, TargetsOf(actions, criteria))
  {
    hide Resolve, CountsTowards;
    forall i, c | 0 <= i < |actions| ensures TargetsOf(actions, criteria)[i] == Some(c) <==> CountsTowards(actions[i], criteria, c) {
      ResolveIsAttribution(actions[i], criteria, c);
    }
  }

  ghost function TargetsOf(actions: seq<Action>, criteria: seq<string>): (ts: Targets)
    ensures |ts| == |actions|
  {
    seq(|actions|, i requires 0 <= i < |actions| => Resolve(actions[i], criteria))
  }

  // ---------- what the counters mean ----------

  /** Actions `i` up to but not including `j` all target `c`. */
  ghost predicate Run(ts: Targets, i: int, j: int, c: string) {
    0 <= i <= j <= |ts| && forall k :: i <= k < j ==> ts[k] == Some(c)
  }

  /** None of the actions from `i` up to `j` targets `c`. */
  ghost predicate Gap(ts: Targets, i: int, j: int, c: string) {
    0 <= i <= j <= |ts| && forall k :: i <= k < j ==> ts[k] != Some(c)
  }

  /** `n` is the length of the longest run among the first `end` actions. */
  ghost predicate LongestRun(ts: Targets, end: int, n: nat) {
    && (n == 0 || exists i, j, c :: Run(ts, i, j, c) && j - i == n && j <= end)
    && forall i, j, c :: Run(ts, i, j, c) && j <= end ==> j - i <= n
  }

  /** `c` is the criterion of the run that first reached the longest length. */
  ghost predicate LeaderOfRun(ts: Targets, end: int, n: nat, leader: Option<string>) {
    if n == 0 then leader.None?
    else leader.Some? && exists i, e :: FirstReached(ts, end, n, leader.value, i, e)
  }

  ghost predicate FirstReached(ts: Targets, end: int, n: nat, c: string, i: int, e: int) {
    && e <= end && e - i == n && Run(ts, i, e, c)
    && forall a, d, b :: Run(ts, a, d, b) && d - a == n ==> e <= d
  }

  /** `n` is the length of the longest stretch among the first `end` actions that misses some criterion. */
  ghost predicate LongestGap(ts: Targets, criteria: seq<string>, end: int, n: nat) {
    && LongestGapReached(ts, criteria, end, n)
    && forall i, j, c :: c in criteria && Gap(ts, i, j, c) && j <= end ==> j - i <= n
  }

  /** The targets with the unattributed actions removed. */
  ghost function Attributed(ts: Targets): seq<string> {
    if ts == [] then []
    else
      var last := ts[|ts| - 1];
      Attributed(ts[..|ts| - 1]) + (if last.Some? then [last.value] else [])
  }

  /** Unequal neighbours. */
  ghost function Changes(s: seq<string>): nat {
    if |s| < 2 then 0
    else Changes(s[..|s| - 1]) + (if s[|s| - 1] != s[|s| - 2] then 1 else 0)
  }

  ghost function CountOf(ts: Targets, t: Option<string>): nat {
    if ts == [] then 0
    else CountOf(ts[..|ts| - 1], t) + (if ts[|ts| - 1] == t then 1 else 0)
  }

  ghost predicate FirstAt(ts: Targets, c: string, n: nat) {
    0 < n <= |ts| && ts[n - 1] == Some(c) && forall k :: 0 <= k < n - 1 ==> ts[k] != Some(c)
  }

  // ---------- one step of each counter ----------

  /** The current streak is the maximal run that ends here. */
  ghost predicate CurrentRun(ts: Targets, i: nat, streak: nat, current: Option<string>) {
    && streak <= i <= |ts|
    && (current.None? <==> streak == 0)
    && (current.Some? ==> Run(ts, i - streak, i, current.value))
    && (i > 0 ==> current == ts[i - 1])
    && (0 < i && streak < i && current.Some? ==> ts[i - streak - 1] != current)
  }

  lemma {:induction false} StreakStep(ts: Targets, i: nat, streak: nat, current: Option<string>, best: nat, leader: Option<string>)
    requires i < |ts| && CurrentRun(ts, i, streak, current)
    requires LongestRun(ts, i, best) && LeaderOfRun(ts, i, best, leader)
    ensures var streak' := if ts[i].None? then 0 else if ts[i] == current then streak + 1 else 1;
            && CurrentRun(ts, i + 1, streak', ts[i])
            && LongestRun(ts, i + 1, if streak' > best then streak' else best)
            && LeaderOfRun(ts, i + 1, if streak' > best then streak' else best, if streak' > best then ts[i] else leader)
  {
    var streak' := if ts[i].None? then 0 else if ts[i] == current then streak + 1 else 1;
    assert CurrentRun(ts, i + 1, streak', ts[i]);
    forall a, j, c | Run(ts, a, j, c) && j <= i + 1 && j > i ensures j - a <= streak' {
      EndingRunIsShort(ts, i + 1, streak', ts[i], a, c);
    }
    if streak' > best {
      assert Run(ts, i + 1 - streak', i + 1, ts[i].value);
      assert FirstReached(ts, i + 1, streak', ts[i].value, i + 1 - streak', i + 1);
    } else if best > 0 {
      var a, e :| FirstReached(ts, i, best, leader.value, a, e);
      assert FirstReached(ts, i + 1, best, leader.value, a, e);
    }
  }

  lemma {:induction false} EndingRunIsShort(ts: Targets, i: nat, streak: nat, current: Option<string>, a: int, c: string)
    requires i > 0 && CurrentRun(ts, i, streak, current) && Run(ts, a, i, c)
    ensures i - a <= streak
  {
    if i - a > 0 {
      assert current == Some(c);
      assert forall k :: a <= k < i ==> ts[k] == current;
    }
  }

  /** The age of `c` is the length of the maximal gap of `c` that ends here. */
  ghost predicate AgeIs(ts: Targets, i: nat, c: string, age: nat) {
    && age <= i <= |ts| && Gap(ts, i - age, i, c)
    && (age < i ==> ts[i - age - 1] == Some(c))
  }

  lemma {:induction false} AgeStep(ts: Targets, i: nat, c: string, age: nat)
    requires i < |ts| && AgeIs(ts, i, c, age)
    ensures AgeIs(ts, i + 1, c, if ts[i] == Some(c) then 0 else age + 1)
    ensures forall a, j :: Gap(ts, a, j, c) && j == i + 1 ==> j - a <= (if ts[i] == Some(c) then 0 else age + 1)
  {}

  /** The running maximum after the first `m` criteria have been aged for action `i`. */
  ghost predicate GapSoFar(ts: Targets, criteria: seq<string>, i: nat, m: nat, worst: nat)
    requires m <= |criteria|
  {
    && LongestGapReached(ts, criteria, i + 1, worst)
    && (forall a, j, c :: c in criteria && Gap(ts, a, j, c) && j <= i ==> j - a <= worst)
    && (forall a, j, c :: c in criteria[..m] && Gap(ts, a, j, c) && j <= i + 1 ==> j - a <= worst)
  }

  ghost predicate LongestGapReached(ts: Targets, criteria: seq<string>, end: int, n: nat) {
    n == 0 || exists i, j, c :: c in criteria && Gap(ts, i, j, c) && j - i == n && j <= end
  }

  lemma {:induction false} GapStep(ts: Targets, criteria: seq<string>, i: nat, m: nat, worst: nat, age: nat)
    requires i < |ts| && m < |criteria| && GapSoFar(ts, criteria, i, m, worst) && AgeIs(ts, i, criteria[m], age)
    ensures GapSoFar(ts, criteria, i, m + 1,
                     if ts[i] == Some(criteria[m]) then worst else if age + 1 > worst then age + 1 else worst)
  {
    var c := criteria[m];
    AgeStep(ts, i, c, age);
    assert criteria[..m + 1] == criteria[..m] + [c];
    if ts[i] != Some(c) && age + 1 > worst {
      assert Gap(ts, i - age, i + 1, c) && c in criteria;
    }
  }

  // ---------- the pass ----------

  ghost predicate Correct(ts: Targets, criteria: seq<string>, m: Metrics) {
    && m.actions == |ts|
    && Tallied(ts, criteria, m.perCriterion, m.firstAction, m.unattributed)
    && HaveNoActions(ts, criteria, m.untouched)
    && LongestRun(ts, |ts|, m.streak)
    && LeaderOfRun(ts, |ts|, m.streak, m.streakCriterion)
    && (m.starvation.None? <==> ts == [])
    && (m.starvation.Some? ==> LongestGap(ts, criteria, |ts|, m.starvation.value))
    && m.rotations == Changes(Attributed(ts))
  }

  /** The counters after the targets `ts`. */
  ghost predicate Tallied(ts: Targets, criteria: seq<string>, counts: map<string, nat>, first: map<string, nat>, unattributed: nat) {
    && counts.Keys == Elems(criteria) && (forall c :: c in criteria ==> counts[c] == CountOf(ts, Some(c)))
    && (forall c :: c in first ==> FirstAt(ts, c, first[c]))
    && (forall c :: c in criteria ==> (c in first <==> CountOf(ts, Some(c)) > 0))
    && unattributed == CountOf(ts, None)
  }

  lemma {:induction false} CountAppend(ts: Targets, x: Option<string>, t: Option<string>)
    ensures CountOf(ts + [x], t) == CountOf(ts, t) + (if x == t then 1 else 0)
  {
    assert (ts + [x])[..|ts|] == ts;
  }

  lemma {:induction false} TallyNone(ts: Targets, criteria: seq<string>, counts: map<string, nat>, first: map<string, nat>, unattributed: nat)
    requires Tallied(ts, criteria, counts, first, unattributed)
    ensures Tallied(ts + [None], criteria, counts, first, unattributed + 1)
  {
    hide CountOf;
    forall t ensures CountOf(ts + [None], t) == CountOf(ts, t) + (if t == None then 1 else 0) { CountAppend(ts, None, t); }
  }

  lemma {:induction false} TallyOne(ts: Targets, criteria: seq<string>, counts: map<string, nat>, first: map<string, nat>, unattributed: nat, c: string)
    requires Tallied(ts, criteria, counts, first, unattributed) && c in criteria && c in counts
    ensures Tallied(ts + [Some(c)], criteria, counts[c := counts[c] + 1],
                    if c in first then first else first[c := |ts| + 1], unattributed)
  {
    hide CountOf;
    forall t ensures CountOf(ts + [Some(c)], t) == CountOf(ts, t) + (if t == Some(c) then 1 else 0) {
      CountAppend(ts, Some(c), t);
    }
    KeysOfUpdate(counts, c, counts[c] + 1);
    NoneSoFar(ts, Some(c));
    var first' := if c in first then first else first[c := |ts| + 1];
    forall b | b in first' ensures FirstAt(ts + [Some(c)], b, first'[b]) {
      if b in first { assert FirstAt(ts, b, first[b]); }
    }
  }

  /** First loop: targets, counts per criterion and first positions. */
  method Attribute(actions: seq<Action>, criteria: seq<string>)
    returns (ts: Targets, counts: map<string, nat>, first: map<string, nat>, unattributed: nat)
    ensures ts == TargetsOf(actions, criteria) && AttributedTo(actions, criteria, ts)
    ensures Tallied(ts, criteria, counts, first, unattributed)
  {
    TargetsAreAttributed(actions, criteria);
    hide AttributedTo, CountOf, FirstAt, Resolve;
    ts, counts, first, unattributed := [], map c | c in criteria :: 0, map[], 0;
    TallyNothing(criteria, counts);
    for i := 0 to |actions|
      invariant ts == TargetsOf(actions[..i], criteria)
      invariant Tallied(ts, criteria, counts, first, unattributed)
    {
      var target := Resolve(actions[i], criteria);
      TargetsNext(actions, criteria, i);
      if target.Some? {
        assert target.value in Elems(criteria);
        TallyOne(ts, criteria, counts, first, unattributed, target.value);
        counts := counts[target.value := counts[target.value] + 1];
        if target.value !in first {
          first := first[target.value := i + 1];
        }
      } else {
        TallyNone(ts, criteria, counts, first, unattributed);
        unattributed := unattributed + 1;
      }
      ts := ts + [target];
    }
    assert actions[..|actions|] == actions;
  }

  lemma {:induction false} TargetsNext(actions: seq<Action>, criteria: seq<string>, i: nat)
    requires i < |actions|
    ensures TargetsOf(actions[..i + 1], criteria) == TargetsOf(actions[..i], criteria) + [Resolve(actions[i], criteria)]
  {}

  lemma {:induction false} TallyNothing(criteria: seq<string>, counts: map<string, nat>)
    requires counts == map c | c in criteria :: 0
    ensures Tallied([], criteria, counts, map[], 0)
  {}

  lemma {:induction false} NoneSoFar(ts: Targets, t: Option<string>)
    ensures CountOf(ts, t) == 0 <==> t !in ts
  {
    if ts != [] {
      NoneSoFar(ts[..|ts| - 1], t);
      assert ts == ts[..|ts| - 1] + [ts[|ts| - 1]];
    }
  }

  ghost predicate Ages(ts: Targets, criteria: seq<string>, i: nat, m: nat, ages: map<string, nat>)
    requires i < |ts| && m <= |criteria|
  {
    && ages.Keys == Elems(criteria)
    && (forall k :: 0 <= k < m ==> AgeIs(ts, i + 1, criteria[k], ages[criteria[k]]))
    && (forall k :: m <= k < |criteria| ==> AgeIs(ts, i, criteria[k], ages[criteria[k]]))
  }

  lemma {:induction false} AgeOfCriterion(ts: Targets, criteria: seq<string>, i: nat, m: nat, ages: map<string, nat>)
    requires i < |ts| && m < |criteria| && Ages(ts, criteria, i, m, ages)
    ensures criteria[m] in ages && AgeIs(ts, i, criteria[m], ages[criteria[m]])
  {
    assert criteria[m] in Elems(criteria);
  }

  lemma {:induction false} AgesStep(ts: Targets, criteria: seq<string>, i: nat, m: nat, ages: map<string, nat>)
    requires i < |ts| && m < |criteria| && NoDup(criteria) && Ages(ts, criteria, i, m, ages) && criteria[m] in ages
    ensures Ages(ts, criteria, i, m + 1,
                 ages[criteria[m] := if ts[i] == Some(criteria[m]) then 0 else ages[criteria[m]] + 1])
  {
    hide AgeIs;
    var c := criteria[m];
    AgeStep(ts, i, c, ages[c]);
    KeysOfUpdate(ages, c, if ts[i] == Some(c) then 0 else ages[c] + 1);
    forall k | 0 <= k < |criteria| && k != m ensures criteria[k] != c && criteria[k] in ages {
      assert criteria[k] in Elems(criteria);
    }
  }

  lemma {:induction false} GapDone(ts: Targets, criteria: seq<string>, i: nat, worst: nat)
    requires i < |ts| && GapSoFar(ts, criteria, i, |criteria|, worst)
    ensures LongestGap(ts, criteria, i + 1, worst)
  {
    assert criteria[..|criteria|] == criteria;
  }

  /** Inner loop: every criterion but the target ages by one. */
  method AgeAll(ts: Targets, criteria: seq<string>, i: nat, ages0: map<string, nat>, worst0: nat)
    returns (ages: map<string, nat>, worst: nat)
    requires i < |ts| && NoDup(criteria) && Ages(ts, criteria, i, 0, ages0)
    requires LongestGap(ts, criteria, i, worst0)
    ensures Ages(ts, criteria, i, |criteria|, ages) && LongestGap(ts, criteria, i + 1, worst)
  {
    hide *;
    ages, worst := ages0, worst0;
    StartAging(ts, criteria, i, worst);
    for m := 0 to |criteria|
      invariant Ages(ts, criteria, i, m, ages) && GapSoFar(ts, criteria, i, m, worst)
    {
      var c := criteria[m];
      AgeOfCriterion(ts, criteria, i, m, ages);
      GapStep(ts, criteria, i, m, worst, ages[c]);
      AgesStep(ts, criteria, i, m, ages);
      if Some(c) == ts[i] {
        ages := ages[c := 0];
      } else {
        ages := ages[c := ages[c] + 1];
        worst := if ages[c] > worst then ages[c] else worst;
      }
    }
    GapDone(ts, criteria, i, worst);
  }

  lemma {:induction false} StartAging(ts: Targets, criteria: seq<string>, i: nat, worst: nat)
    requires i < |ts| && LongestGap(ts, criteria, i, worst)
    ensures GapSoFar(ts, criteria, i, 0, worst)
  {
    assert criteria[..0] == [];
    if worst > 0 {
      var a, j, c :| c in criteria && Gap(ts, a, j, c) && j - a == worst && j <= i;
      assert j <= i + 1;
    }
  }

  lemma {:induction false} AttributedAppend(ts: Targets, i: nat)
    requires i < |ts|
    ensures Attributed(ts[..i + 1]) == if ts[i].Some? then Attributed(ts[..i]) + [ts[i].value] else Attributed(ts[..i])
  {
    assert ts[..i + 1][..i] == ts[..i];
  }

  lemma {:induction false} ChangesAppend(s: seq<string>, x: string)
    ensures Changes(s + [x]) == Changes(s) + (if s != [] && s[|s| - 1] != x then 1 else 0)
  {
    assert (s + [x])[..|s|] == s;
  }

  /** The last attributed target, or none so far. */
  ghost predicate Previous(ts: Targets, i: nat, previous: Option<string>)
    requires i <= |ts|
  {
    var s := Attributed(ts[..i]);
    previous == if s == [] then None else Some(s[|s| - 1])
  }

  /** Second loop: streak, rotations and starvation in one pass. */
  method Scan(ts: Targets, criteria: seq<string>)
    returns (best: nat, leader: Option<string>, rotations: nat, worst: nat)
    requires NoDup(criteria)
    ensures LongestRun(ts, |ts|, best) && LeaderOfRun(ts, |ts|, best, leader)
    ensures rotations == Changes(Attributed(ts))
    ensures LongestGap(ts, criteria, |ts|, worst)
  {
    hide LongestRun, LeaderOfRun, LongestGap, CurrentRun, Attributed, Changes, NoDup, AgeIs;
    best, leader, rotations, worst := 0, None, 0, 0;
    var streak, current, previous := 0, None, None;
    var ages := map c | c in criteria :: 0;
    StartScan(ts, criteria, ages);
    for i := 0 to |ts|
      invariant LongestRun(ts, i, best) && LeaderOfRun(ts, i, best, leader) && CurrentRun(ts, i, streak, current)
      invariant rotations == Changes(Attributed(ts[..i])) && Previous(ts, i, previous)
      invariant i < |ts| ==> Ages(ts, criteria, i, 0, ages)
      invariant LongestGap(ts, criteria, i, worst)
    {
      var target := ts[i];
      StreakStep(ts, i, streak, current, best, leader);
      AttributedAppend(ts, i);
      if target.Some? {
        if target == current {
          streak := streak + 1;
        } else {
          streak := 1;
          current := target;
        }
        if streak > best {
          best := streak;
          leader := target;
        }
        ChangesAppend(Attributed(ts[..i]), target.value);
        if previous.Some? && target != previous {
          rotations := rotations + 1;
        }
        previous := target;
      } else {
        streak := 0;
        current := None;
      }
      ages, worst := AgeAll(ts, criteria, i, ages, worst);
    }
    assert ts[..|ts|] == ts;
  }

  lemma {:induction false} StartScan(ts: Targets, criteria: seq<string>, ages: map<string, nat>)
    requires ages.Keys == Elems(criteria) && forall c :: c in ages ==> ages[c] == 0
    ensures LongestRun(ts, 0, 0) && LeaderOfRun(ts, 0, 0, None) && CurrentRun(ts, 0, 0, None)
    ensures LongestGap(ts, criteria, 0, 0) && Attributed(ts[..0]) == [] && Changes([]) == 0
    ensures |ts| > 0 ==> Ages(ts, criteria, 0, 0, ages)
  {
    forall k | 0 <= k < |criteria| ensures criteria[k] in ages { assert criteria[k] in Elems(criteria); }
  }

  method Measure(required: seq<string>, actions: seq<Action>) returns (m: Metrics)
    ensures AttributedTo(actions, CriteriaOf(required, actions), TargetsOf(actions, CriteriaOf(required, actions)))
    ensures Correct(TargetsOf(actions, CriteriaOf(required, actions)), CriteriaOf(required, actions), m)
  {
    hide *;
    var criteria := CriteriaOf(required, actions);
    CriteriaAreDistinct(required, actions);
    var ts, counts, first, unattributed := Attribute(actions, criteria);
    var best, leader, rotations, worst := Scan(ts, criteria);
    TalliedKeys(ts, criteria, counts, first, unattributed);
    var untouched := Untouched(criteria, counts);
    m := Metrics(|actions|, unattributed, counts, first, untouched, best, leader,
                 if actions == [] then None else Some(worst), rotations);
    UntouchedHaveNoActions(ts, criteria, counts, first, unattributed, untouched);
    Assembled(ts, criteria, m);
  }

  lemma {:induction false} TalliedKeys(ts: Targets, criteria: seq<string>, counts: map<string, nat>, first: map<string, nat>, unattributed: nat)
    requires Tallied(ts, criteria, counts, first, unattributed)
    ensures Elems(criteria) <= counts.Keys
  {}

  ghost function NeverTargeted(ts: Targets, criteria: seq<string>): set<string> {
    set c | c in criteria && CountOf(ts, Some(c)) == 0
  }

  /** The criteria without an action, in the order of the criteria. */
  ghost predicate HaveNoActions(ts: Targets, criteria: seq<string>, untouched: seq<string>) {
    untouched == Filter(criteria, NeverTargeted(ts, criteria))
  }

  lemma {:induction false} UntouchedHaveNoActions(ts: Targets, criteria: seq<string>, counts: map<string, nat>, first: map<string, nat>,
                                                  unattributed: nat, untouched: seq<string>)
    requires Tallied(ts, criteria, counts, first, unattributed) && Elems(criteria) <= counts.Keys
    requires untouched == Untouched(criteria, counts)
    ensures HaveNoActions(ts, criteria, untouched)
  {
    hide CountOf, FirstAt, Untouched;
    forall c | c in criteria ensures counts[c] == 0 <==> c in NeverTargeted(ts, criteria) {
      assert c in Elems(criteria);
    }
    UntouchedIsFilter(criteria, counts, NeverTargeted(ts, criteria));
  }

  lemma {:induction false} UntouchedIsFilter(criteria: seq<string>, counts: map<string, nat>, keep: set<string>)
    requires Elems(criteria) <= counts.Keys
    requires forall c :: c in criteria ==> c in counts && (counts[c] == 0 <==> c in keep)
    ensures Untouched(criteria, counts) == Filter(criteria, keep)
  {
    if criteria != [] {
      var front := criteria[..|criteria| - 1];
      assert Elems(front) <= Elems(criteria);
      UntouchedIsFilter(front, counts, keep);
    }
  }

  lemma {:induction false} Assembled(ts: Targets, criteria: seq<string>, m: Metrics)
    requires m.actions == |ts| && Tallied(ts, criteria, m.perCriterion, m.firstAction, m.unattributed)
    requires HaveNoActions(ts, criteria, m.untouched)
    requires LongestRun(ts, |ts|, m.streak) && LeaderOfRun(ts, |ts|, m.streak, m.streakCriterion)
    requires m.starvation.None? <==> ts == []
    requires m.starvation.Some? ==> LongestGap(ts, criteria, |ts|, m.starvation.value)
    requires m.rotations == Changes(Attributed(ts))
    ensures Correct(ts, criteria, m)
  {
    hide CountOf, FirstAt, LongestRun, LeaderOfRun, LongestGap, Changes, Attributed, Tallied;
  }

  function Untouched(criteria: seq<string>, counts: map<string, nat>): (r: seq<string>)
    requires Elems(criteria) <= counts.Keys
  {
    if criteria == [] then []
    else
      var last := |criteria| - 1;
      assert Elems(criteria[..last]) <= Elems(criteria);
      assert criteria[last] in Elems(criteria);
      if counts[criteria[last]] == 0 then Untouched(criteria[..last], counts) + [criteria[last]]
      else Untouched(criteria[..last], counts)
  }
}
