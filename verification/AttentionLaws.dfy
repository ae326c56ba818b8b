/** Bounds that tie the attention metrics to each other, for every trace. */
module AttentionLaws {
  import opened Ordering
  import opened Attention

  // ---------- conservation ----------

  ghost function Total(criteria: seq<string>, counts: map<string, nat>): nat
    requires Elems(criteria) <= counts.Keys
  {
    if criteria == [] then 0
    else
      var last := |criteria| - 1;
      assert criteria[last] in Elems(criteria) && Elems(criteria[..last]) <= Elems(criteria);
      Total(criteria[..last], counts) + counts[criteria[last]]
  }

  ghost function CountAll(ts: Targets, criteria: seq<string>): nat {
    if criteria == [] then 0 else CountAll(ts, criteria[..|criteria| - 1]) + CountOf(ts, Some(criteria[|criteria| - 1]))
  }

  lemma {:induction false} CountAllAppend(ts: Targets, t: Option<string>, criteria: seq<string>)
    requires NoDup(criteria)
    ensures CountAll(ts + [t], criteria) == CountAll(ts, criteria) + (if t.Some? && t.value in criteria then 1 else 0)
  {
    if criteria != [] {
      var last := |criteria| - 1;
      CountAllAppend(ts, t, criteria[..last]);
      CountAppend(ts, t, Some(criteria[last]));
      assert criteria == criteria[..last] + [criteria[last]];
      assert criteria[last] !in criteria[..last];
    }
  }

  lemma {:induction false} CountAllNothing(criteria: seq<string>)
    ensures CountAll([], criteria) == 0
  {
    if criteria != [] { CountAllNothing(criteria[..|criteria| - 1]); }
  }

  /** Targets drawn from the criteria: attributed and unattributed actions add up. */
  lemma {:induction false} CountsAddUp(ts: Targets, criteria: seq<string>)
    requires NoDup(criteria) && forall k :: 0 <= k < |ts| && ts[k].Some? ==> ts[k].value in criteria
    ensures CountAll(ts, criteria) + CountOf(ts, None) == |ts|
    ensures CountAll(ts, criteria) == |Attributed(ts)|
  {
    if ts == [] {
      CountAllNothing(criteria);
    } else {
      var last := |ts| - 1;
      assert ts == ts[..last] + [ts[last]];
      CountsAddUp(ts[..last], criteria);
      CountAllAppend(ts[..last], ts[last], criteria);
    }
  }

  lemma {:induction false} TotalIsCountAll(ts: Targets, criteria: seq<string>, counts: map<string, nat>)
    requires Elems(criteria) <= counts.Keys && forall c :: c in criteria ==> counts[c] == CountOf(ts, Some(c))
    ensures Total(criteria, counts) == CountAll(ts, criteria)
  {
    if criteria != [] {
      var last := |criteria| - 1;
      assert criteria[last] in criteria && Elems(criteria[..last]) <= Elems(criteria);
      TotalIsCountAll(ts, criteria[..last], counts);
    }
  }

  /** No action is lost or counted twice: the per-criterion counts and the unattributed count sum to the trace. */
  lemma {:induction false} ActionsAreConserved(actions: seq<Action>, criteria: seq<string>, m: Metrics)
    requires NoDup(criteria) && Correct(TargetsOf(actions, criteria), criteria, m)
    ensures Elems(criteria) <= m.perCriterion.Keys
    ensures Total(criteria, m.perCriterion) + m.unattributed == m.actions == |actions|
  {
    hide LongestRun, LeaderOfRun, LongestGap, Attributed, Changes, CountOf, FirstAt;
    var ts := TargetsOf(actions, criteria);
    CountsAddUp(ts, criteria);
    TotalIsCountAll(ts, criteria, m.perCriterion);
  }

  // ---------- streaks, rotations and starvation ----------

  /** Length of the run that ends the trace. */
  ghost function TailRun(ts: Targets): nat {
    if ts == [] then 0
    else if |ts| > 1 && ts[|ts| - 1] == ts[|ts| - 2] then TailRun(ts[..|ts| - 1]) + 1
    else 1
  }

  lemma {:induction false} TailRunIsRun(ts: Targets)
    requires ts != [] && forall k :: 0 <= k < |ts| ==> ts[k].Some?
    ensures 0 < TailRun(ts) <= |ts| && Run(ts, |ts| - TailRun(ts), |ts|, ts[|ts| - 1].value)
  {
    var last := |ts| - 1;
    if |ts| > 1 && ts[last] == ts[last - 1] {
      var front := ts[..last];
      TailRunIsRun(front);
      assert forall k :: 0 <= k < last ==> front[k] == ts[k];
    }
  }

  ghost predicate FullyAttributed(ts: Targets) {
    forall k :: 0 <= k < |ts| ==> ts[k].Some?
  }

  ghost predicate RunsAtMost(ts: Targets, n: nat) {
    forall i, j, c :: Run(ts, i, j, c) ==> j - i <= n
  }

  lemma {:induction false} FrontKeeps(ts: Targets, n: nat)
    requires ts != [] && FullyAttributed(ts) && RunsAtMost(ts, n)
    ensures FullyAttributed(ts[..|ts| - 1]) && RunsAtMost(ts[..|ts| - 1], n)
  {
    var front := ts[..|ts| - 1];
    forall i, j, c | Run(front, i, j, c) ensures j - i <= n { assert Run(ts, i, j, c); }
  }

  lemma {:induction false} AttributedIsTrace(ts: Targets)
    requires FullyAttributed(ts)
    ensures |Attributed(ts)| == |ts|
    ensures ts != [] ==> ts[|ts| - 1] == Some(Attributed(ts)[|ts| - 1])
  {
    if ts != [] {
      var front := ts[..|ts| - 1];
      assert FullyAttributed(front);
      AttributedIsTrace(front);
    }
  }

  lemma {:induction false} TailIsAtMost(ts: Targets, n: nat)
    requires ts != [] && FullyAttributed(ts) && RunsAtMost(ts, n)
    ensures TailRun(ts) <= n
  {
    TailRunIsRun(ts);
  }

  /** Every rotation starts a new run, and no run is longer than `n`. */
  lemma {:induction false} RunsCoverTrace(ts: Targets, n: nat)
    requires ts != [] && FullyAttributed(ts) && RunsAtMost(ts, n)
    ensures |ts| <= n * Changes(Attributed(ts)) + TailRun(ts)
  {
    hide FullyAttributed, RunsAtMost;
    var last := |ts| - 1;
    var front := ts[..last];
    if front != [] {
      FrontKeeps(ts, n);
      RunsCoverTrace(front, n);
      AttributedIsTrace(front);
      TailIsAtMost(front, n);
      FullValue(ts, last);
      ChangesAppend(Attributed(front), ts[last].value);
      if ts[last] != ts[last - 1] {
        AddOne(n, Changes(Attributed(front)));
      }
    }
  }

  lemma {:induction false} FullValue(ts: Targets, k: nat)
    requires FullyAttributed(ts) && k < |ts|
    ensures ts[k].Some?
  {}

  lemma AddOne(n: nat, k: nat)
    ensures n * (k + 1) == n * k + n
  {}

  /** With every action attributed, the trace is no longer than streak times the number of stretches. */
  lemma {:induction false} StreakTimesRotations(ts: Targets, n: nat)
    requires FullyAttributed(ts) && LongestRun(ts, |ts|, n)
    ensures |ts| <= n * (Changes(Attributed(ts)) + 1)
  {
    assert RunsAtMost(ts, n);
    if ts != [] {
      RunsCoverTrace(ts, n);
      TailIsAtMost(ts, n);
      AddOne(n, Changes(Attributed(ts)));
    }
  }

  /** With two criteria or more, a streak on one starves another at least as long. */
  lemma {:induction false} StarvationCoversStreak(ts: Targets, criteria: seq<string>, streak: nat, worst: nat)
    requires NoDup(criteria) && |criteria| >= 2
    requires LongestRun(ts, |ts|, streak) && LongestGap(ts, criteria, |ts|, worst)
    ensures streak <= worst
  {
    if streak > 0 {
      var i, j, c :| Run(ts, i, j, c) && j - i == streak && j <= |ts|;
      var other := if criteria[0] == c then criteria[1] else criteria[0];
      assert other in criteria && other != c;
      assert Gap(ts, i, j, other);
    }
  }

  /** With `k` criteria and at least `k - 1` actions, some criterion waits at least `k - 1` actions. */
  lemma {:induction false} ManyCriteriaStarve(ts: Targets, criteria: seq<string>, worst: nat)
    requires NoDup(criteria) && criteria != [] && |ts| >= |criteria| - 1
    requires LongestGap(ts, criteria, |ts|, worst)
    ensures worst >= |criteria| - 1
  {
    var n := |criteria| - 1;
    var seen := Elems(Attributed(ts[..n]));
    AttributedIsShort(ts[..n]);
    NoDupCardinality(Attributed(ts[..n]));
    NoDupCardinality(criteria);
    if Elems(criteria) <= seen { SubsetCardinality(Elems(criteria), seen); }
    var c :| c in Elems(criteria) && c !in seen;
    forall k | 0 <= k < n ensures ts[k] != Some(c) {
      AttributedContains(ts[..n], k);
    }
    assert Gap(ts, 0, n, c);
  }

  lemma {:induction false} AttributedIsShort(ts: Targets)
    ensures |Attributed(ts)| <= |ts|
  {
    if ts != [] { AttributedIsShort(ts[..|ts| - 1]); }
  }

  lemma {:induction false} AttributedContains(ts: Targets, k: nat)
    requires k < |ts|
    ensures ts[k].Some? ==> ts[k].value in Attributed(ts)
  {
    if k < |ts| - 1 { AttributedContains(ts[..|ts| - 1], k); }
  }

  /** Some action among the `n` from `i` on targets `c`. */
  ghost predicate Hit(ts: Targets, i: int, n: nat, c: string) {
    exists k :: 0 <= k < |ts| && i <= k < i + n && ts[k] == Some(c)
  }

  ghost predicate EveryWindowHits(ts: Targets, criteria: seq<string>, n: nat) {
    forall i, c :: 0 <= i <= |ts| - n && c in criteria ==> Hit(ts, i, n, c)
  }

  /** The reported age plus one is the least window length that always hits every criterion. */
  lemma {:induction false} StarvationIsLeastWindow(ts: Targets, criteria: seq<string>, worst: nat, n: nat)
    requires LongestGap(ts, criteria, |ts|, worst) && n > 0
    ensures n > worst <==> EveryWindowHits(ts, criteria, n)
  {
    if n > worst {
      forall i, c | 0 <= i <= |ts| - n && c in criteria ensures Hit(ts, i, n, c) {
        if !Hit(ts, i, n, c) { assert Gap(ts, i, i + n, c); }
      }
    } else {
      var i, j, c :| c in criteria && Gap(ts, i, j, c) && j - i == worst && j <= |ts|;
      assert !Hit(ts, i, n, c);
    }
  }

  /** The bounds on the reported figures themselves, for every trace. */
  lemma {:induction false} ReportedFiguresAreBounded(ts: Targets, criteria: seq<string>, m: Metrics)
    requires NoDup(criteria) && Correct(ts, criteria, m) && ts != []
    ensures m.starvation.Some?
    ensures FullyAttributed(ts) ==> m.actions <= m.streak * (m.rotations + 1)
    ensures |criteria| >= 2 ==> m.streak <= m.starvation.value
    ensures criteria != [] && m.actions >= |criteria| - 1 ==> m.starvation.value >= |criteria| - 1
  {
    hide LongestRun, LongestGap, LeaderOfRun, Tallied, HaveNoActions, Changes, Attributed, NoDup;
    if FullyAttributed(ts) { StreakTimesRotations(ts, m.streak); }
    if |criteria| >= 2 { StarvationCoversStreak(ts, criteria, m.streak, m.starvation.value); }
    if criteria != [] && m.actions >= |criteria| - 1 { ManyCriteriaStarve(ts, criteria, m.starvation.value); }
  }

  // ---------- the counters in plain terms ----------

  /** A count is the number of positions. */
  lemma {:induction false} CountIsPositions(ts: Targets, t: Option<string>)
    ensures CountOf(ts, t) == |set k | 0 <= k < |ts| && ts[k] == t|
  {
    if ts != [] {
      var last := |ts| - 1;
      CountIsPositions(ts[..last], t);
      var before := set k | 0 <= k < last && ts[..last][k] == t;
      var all := set k | 0 <= k < |ts| && ts[k] == t;
      assert all == before + (if ts[last] == t then {last} else {});
    }
  }

  ghost predicate ChangeAt(s: seq<string>, k: int) { 0 < k < |s| && s[k] != s[k - 1] }

  /** The rotations are the positions that differ from the one before. */
  lemma {:induction false} ChangesArePositions(s: seq<string>)
    ensures Changes(s) == |set k | 0 <= k < |s| && ChangeAt(s, k)|
  {
    if |s| >= 2 {
      var last := |s| - 1;
      ChangesArePositions(s[..last]);
      var before := set k | 0 <= k < last && ChangeAt(s[..last], k);
      var all := set k | 0 <= k < |s| && ChangeAt(s, k);
      assert forall k :: 0 <= k < last ==> (ChangeAt(s[..last], k) <==> ChangeAt(s, k));
      assert all == before + (if ChangeAt(s, last) then {last} else {});
    } else {
      assert (set k | 0 <= k < |s| && ChangeAt(s, k)) == {};
    }
  }

  lemma {:induction false} AttributedOfConcat(a: Targets, b: Targets)
    ensures Attributed(a + b) == Attributed(a) + Attributed(b)
    ensures forall c :: Attributed([Some(c)]) == [c]
    ensures Attributed([None]) == []
  {
    assert forall x: Option<string> :: [x][..0] == [];
    if b == [] {
      assert a + b == a;
    } else {
      var front, x := b[..|b| - 1], b[|b| - 1];
      assert (a + b)[..|a + b| - 1] == a + front && (a + b)[|a + b| - 1] == x;
      AttributedOfConcat(a, front);
    }
  }

  lemma {:induction false} LongestIsUnique(ts: Targets, n: nat, m: nat)
    requires LongestRun(ts, |ts|, n) && LongestRun(ts, |ts|, m)
    ensures n == m
  {}

  lemma {:induction false} LongestGapIsUnique(ts: Targets, criteria: seq<string>, n: nat, m: nat)
    requires LongestGap(ts, criteria, |ts|, n) && LongestGap(ts, criteria, |ts|, m)
    ensures n == m
  {}

  lemma {:induction false} LeaderIsUnique(ts: Targets, n: nat, a: Option<string>, b: Option<string>)
    requires LeaderOfRun(ts, |ts|, n, a) && LeaderOfRun(ts, |ts|, n, b)
    ensures a == b
  {
    if n > 0 {
      var i, e :| FirstReached(ts, |ts|, n, a.value, i, e);
      var j, d :| FirstReached(ts, |ts|, n, b.value, j, d);
      assert e == d;
      assert ts[e - 1] == a && ts[d - 1] == b;
    }
  }

  lemma {:induction false} TallyIsUnique(ts: Targets, criteria: seq<string>, counts: map<string, nat>, first: map<string, nat>, n: nat,
                                         counts': map<string, nat>, first': map<string, nat>, n': nat)
    requires Tallied(ts, criteria, counts, first, n) && Tallied(ts, criteria, counts', first', n')
    requires forall k :: 0 <= k < |ts| && ts[k].Some? ==> ts[k].value in criteria
    ensures counts == counts' && first == first' && n == n'
  {
    hide CountOf;
    forall c | c in counts ensures counts[c] == counts'[c] { assert c in Elems(criteria); }
    forall c | c in first || c in first' ensures c in criteria {
      if c in first { assert FirstAt(ts, c, first[c]); } else { assert FirstAt(ts, c, first'[c]); }
    }
    forall c ensures c in first <==> c in first' {}
    forall c | c in first ensures first[c] == first'[c] {
      assert FirstAt(ts, c, first[c]) && FirstAt(ts, c, first'[c]);
    }
  }

  /** The declared statements fit one report only. */
  lemma {:induction false} ReportIsDetermined(ts: Targets, criteria: seq<string>, a: Metrics, b: Metrics)
    requires Correct(ts, criteria, a) && Correct(ts, criteria, b)
    requires forall k :: 0 <= k < |ts| && ts[k].Some? ==> ts[k].value in criteria
    ensures a == b
  {
    hide LongestRun, LongestGap, LeaderOfRun, Tallied, Changes, Attributed;
    LongestIsUnique(ts, a.streak, b.streak);
    LeaderIsUnique(ts, a.streak, a.streakCriterion, b.streakCriterion);
    if a.starvation.Some? { LongestGapIsUnique(ts, criteria, a.starvation.value, b.starvation.value); }
    TallyIsUnique(ts, criteria, a.perCriterion, a.firstAction, a.unattributed, b.perCriterion, b.firstAction, b.unattributed);
  }

  // ---------- small reports, written out ----------

  /** No action: every criterion is untouched, and there is no starvation figure. */
  lemma {:induction false} ReportOfNothing(criteria: seq<string>, m: Metrics)
    requires Correct([], criteria, m)
    ensures m == Metrics(0, 0, map c | c in criteria :: 0, map[], criteria, 0, None, None, 0)
  {
    assert Correct([], criteria, Metrics(0, 0, map c | c in criteria :: 0, map[], criteria, 0, None, None, 0)) by {
      FilterAll(criteria, NeverTargeted([], criteria));
    }
    ReportIsDetermined([], criteria, m, Metrics(0, 0, map c | c in criteria :: 0, map[], criteria, 0, None, None, 0));
  }

  lemma {:induction false} FilterAll(s: seq<string>, keep: set<string>)
    requires forall x :: x in s ==> x in keep
    ensures Filter(s, keep) == s
  {
    if s != [] {
      assert s == s[..|s| - 1] + [s[|s| - 1]];
      FilterAll(s[..|s| - 1], keep);
    }
  }

  lemma {:induction false} TwoTargets(a: string, b: string, ts: Targets)
    requires a != b && ts == [Some(a), Some(b)]
    ensures CountOf(ts, Some(a)) == 1 && CountOf(ts, Some(b)) == 1 && CountOf(ts, None) == 0
    ensures Attributed(ts) == [a, b] && Changes([a, b]) == 1
    ensures forall c :: c != a && c != b ==> CountOf(ts, Some(c)) == 0
  {
    assert ts[..1] == [Some(a)] && [Some(a)][..0] == [] && [a, b][..1] == [a];
    assert Attributed([Some(a)]) == [] + [a];
    forall t ensures CountOf(ts, t) == (if t == Some(a) then 1 else 0) + (if t == Some(b) then 1 else 0) {
      assert CountOf([Some(a)], t) == if t == Some(a) then 1 else 0;
    }
  }

  /** Two actions on two of three criteria: positions count from one, the first run of the longest length leads,
      each criterion ages while the other is served, and the third is never touched. */
  lemma {:induction false} ReportOfTwo(a: string, b: string, c: string, m: Metrics)
    requires a != b && b != c && a != c
    requires Correct([Some(a), Some(b)], [a, b, c], m)
    ensures m == Metrics(2, 0, map[a := 1, b := 1, c := 0], map[a := 1, b := 2], [c], 1, Some(a), Some(2), 1)
  {
    var ts: Targets, criteria := [Some(a), Some(b)], [a, b, c];
    var w := Metrics(2, 0, map[a := 1, b := 1, c := 0], map[a := 1, b := 2], [c], 1, Some(a), Some(2), 1);
    TwoTargets(a, b, ts);
    TallyOfTwo(a, b, c, ts);
    UntouchedOfTwo(a, b, c, ts);
    RunsOfTwo(a, b, c, ts);
    hide CountOf, Changes, Attributed, Tallied, HaveNoActions, LongestRun, LeaderOfRun, LongestGap;
    assert Correct(ts, criteria, w);
    ReportIsDetermined(ts, criteria, m, w);
  }

  lemma {:induction false} TallyOfTwo(a: string, b: string, c: string, ts: Targets)
    requires a != b && b != c && a != c && ts == [Some(a), Some(b)]
    ensures Tallied(ts, [a, b, c], map[a := 1, b := 1, c := 0], map[a := 1, b := 2], 0)
  {
    TwoTargets(a, b, ts);
    hide CountOf;
    assert Elems([a, b, c]) == {a, b, c};
    assert FirstAt(ts, a, 1) && FirstAt(ts, b, 2);
  }

  lemma {:induction false} UntouchedOfTwo(a: string, b: string, c: string, ts: Targets)
    requires a != b && b != c && a != c && ts == [Some(a), Some(b)]
    ensures HaveNoActions(ts, [a, b, c], [c])
  {
    TwoTargets(a, b, ts);
    hide CountOf;
    assert NeverTargeted(ts, [a, b, c]) == {c};
    assert [a, b, c] == [a, b] + [c] && [a, b] == [a] + [b] && [a] == [] + [a];
    FilterAppend([a, b], c, {c});
    FilterAppend([a], b, {c});
    FilterAppend([], a, {c});
  }

  lemma {:induction false} FilterAppend(s: seq<string>, x: string, keep: set<string>)
    ensures Filter(s + [x], keep) == if x in keep then Filter(s, keep) + [x] else Filter(s, keep)
  {
    assert (s + [x])[..|s|] == s;
  }

  lemma {:induction false} RunsOfTwo(a: string, b: string, c: string, ts: Targets)
    requires a != b && b != c && a != c && ts == [Some(a), Some(b)]
    ensures LongestRun(ts, 2, 1) && LeaderOfRun(ts, 2, 1, Some(a)) && LongestGap(ts, [a, b, c], 2, 2)
  {
    assert Run(ts, 0, 1, a) && Gap(ts, 0, 2, c) && [a, b, c][2] == c;
    forall i, j, x | Run(ts, i, j, x) ensures j - i <= 1 {
      assert ts[0] != ts[1];
    }
    assert FirstReached(ts, 2, 1, a, 0, 1);
  }
}
