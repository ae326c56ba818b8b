/** The pipeline resolver: alias expansion, requirement closure and the two lifecycle orders. */
module Resolver {
  import opened Ordering
  import opened StageGraph
  import opened Kahn

  // ---------- canonical manifest order ----------

  /** The lexicographically least topological order of the stages that no cycle reaches. */
  ghost predicate CanonicalOrder(m: Manifest, out: seq<Id>) {
    && Topological(m, Known(m), out)
    && Elems(out) == Sound(m, Known(m))
    && forall t :: Topological(m, Known(m), t) && Elems(t) == Elems(out) ==> LexLeq(out, t, Leq)
  }

  method CanonicalStageOrder(stages: Manifest) returns (ordered: seq<Id>)
    ensures CanonicalOrder(stages, ordered)
  {
    LeqIsTotalOrder(Known(stages));
    ordered := SortedKahn(stages, Leq);
    GreedyIsTopological(stages, Known(stages), Leq, ordered);
    GreedyEmitsSound(stages, Known(stages), Leq, ordered);
    forall t | Topological(stages, Known(stages), t) && Elems(t) == Elems(ordered) ensures LexLeq(ordered, t, Leq) {
      GreedyIsLexLeast(stages, Known(stages), Leq, ordered, t);
    }
  }

  lemma {:induction false} SameGraph(a: Manifest, b: Manifest, pool: set<Id>)
    requires forall x :: After(a, x) == After(b, x)
    ensures Sound(a, pool) == Sound(b, pool)
    ensures forall t :: Topological(a, pool, t) <==> Topological(b, pool, t)
  {
    assert forall p, x :: Pred(a, pool, p, x) <==> Pred(b, pool, p, x);
    assert forall w :: Walk(a, pool, w) <==> Walk(b, pool, w);
  }

  lemma {:induction false} SameRowsSameLookups(a: Manifest, b: Manifest, x: Id)
    requires multiset(a) == multiset(b) && NoDup(StageIds(a)) && NoDup(StageIds(b))
    ensures After(a, x) == After(b, x) && Needs(a, x) == Needs(b, x)
    ensures x in Known(a) <==> x in Known(b)
  {
    if i :| 0 <= i < |a| && a[i].id == x {
      assert a[i] in multiset(b);
      var j :| 0 <= j < |b| && b[j] == a[i];
      LookupOfUniqueRow(a, i);
      LookupOfUniqueRow(b, j);
      assert StageIds(a)[i] == x && StageIds(b)[j] == x;
    } else {
      forall j | 0 <= j < |b| ensures b[j].id != x {
        assert b[j] in multiset(a);
      }
      LookupOfAbsent(a, x);
      LookupOfAbsent(b, x);
    }
  }

  /** The canonical order does not depend on the order in which the manifest dict was filled. */
  lemma {:induction false} CanonicalIgnoresInsertionOrder(a: Manifest, b: Manifest, outA: seq<Id>, outB: seq<Id>)
    requires multiset(a) == multiset(b) && NoDup(StageIds(a)) && NoDup(StageIds(b))
    requires CanonicalOrder(a, outA) && CanonicalOrder(b, outB)
    ensures outA == outB
  {
    forall x ensures After(a, x) == After(b, x) && (x in Known(a) <==> x in Known(b)) { SameRowsSameLookups(a, b, x); }
    assert Known(a) == Known(b);
    SameGraph(a, b, Known(a));
    CanonicalIsUnique(a, outA, outB);
  }

  /** Self-edges and edges to absent stages play no part: manifests with the same stages and the same other
      edges have the same canonical order. */
  lemma {:induction false} CanonicalIgnoresUnrealEdges(a: Manifest, b: Manifest, out: seq<Id>)
    requires Known(a) == Known(b)
    requires forall p, x :: p in Known(a) && x in Known(a) && p != x ==> (p in After(a, x) <==> p in After(b, x))
    ensures CanonicalOrder(a, out) <==> CanonicalOrder(b, out)
  {
    var pool := Known(a);
    assert forall p, x :: x in pool ==> (Pred(a, pool, p, x) <==> Pred(b, pool, p, x));
    hide After, Pred, Known, Leq;
    forall w ensures Walk(a, pool, w) <==> Walk(b, pool, w) {
      assert Elems(w) <= pool ==> forall i :: 0 <= i < |w| ==> w[i] in pool;
    }
    forall t ensures Topological(a, pool, t) <==> Topological(b, pool, t) {
      assert Elems(t) <= pool ==> forall i :: 0 <= i < |t| ==> t[i] in pool;
    }
    assert Sound(a, pool) == Sound(b, pool);
  }

  /** Without edges the canonical order is the sorted list of the stages. */
  lemma {:induction false} CanonicalOfUnordered(m: Manifest)
    requires forall k :: 0 <= k < |m| ==> m[k].after == []
    ensures CanonicalOrder(m, Listing(Known(m)))
  {
    var out, pool := Listing(Known(m)), Known(m);
    forall x ensures After(m, x) == [] {
      if After(m, x) != [] { AfterByRow(m, x, After(m, x)[0]); }
    }
    assert forall p, x :: !Pred(m, pool, p, x);
    forall w | Walk(m, pool, w) ensures NoDup(w) {
      if |w| > 1 { FirstEdge(m, pool, w); }
    }
    assert Sound(m, pool) == pool;
    hide After, Pred, Known, Sound, Walk;
    forall t | Topological(m, pool, t) && Elems(t) == Elems(out) ensures LexLeq(out, t, Leq) {
      SortedIsLexLeast(out, t);
    }
  }

  lemma {:induction false} FirstEdge(m: Manifest, pool: set<Id>, w: seq<Id>)
    requires Walk(m, pool, w) && |w| > 1
    ensures Pred(m, pool, w[1], w[0])
  {
    var i := 0;
    assert Pred(m, pool, w[i + 1], w[i]);
  }

  lemma {:induction false} SortedIsLexLeast(s: seq<Id>, t: seq<Id>)
    requires NoDup(s) && NoDup(t) && Elems(s) == Elems(t) && Sorted(s, Leq)
    ensures LexLeq(s, t, Leq)
  {
    hide Leq;
    SameElementsSameLength(s, t);
    if s != t {
      var k := FirstDifference(s, t);
      assert t[k] in Elems(s);
      var j :| 0 <= j < |s| && s[j] == t[k];
      assert forall i :: 0 <= i < k ==> s[i] == s[..k][i] && t[i] == t[..k][i];
    }
  }

  /** `order_after` points backwards: with one edge the listed stage comes first, whatever the names are. */
  lemma {:induction false} CanonicalOfOneEdge(early: Id, late: Id, m: Manifest)
    requires early != late && (m == [Stage(late, [], [early]), Stage(early, [], [])] || m == [Stage(early, [], []), Stage(late, [], [early])])
    ensures CanonicalOrder(m, [early, late])
  {
    var out, pool := [early, late], {early, late};
    assert StageIds(m)[0] == m[0].id && StageIds(m)[1] == m[1].id;
    assert Known(m) == pool;
    forall p, x ensures p in After(m, x) <==> x == late && p == early {
      AfterByRow(m, x, p);
    }
    hide After, Known, Leq;
    assert out[..0] == [] && out[..1] == [early] && out[..2] == out;
    assert Left(pool, out, 0) == pool && Left(pool, out, 1) == {late} && Left(pool, out, 2) == {};
    assert GreedyRun(m, pool, Anything, out) by {
      assert Elems(out) == pool;
    }
    GreedyEmitsSound(m, pool, Anything, out);
    GreedyIsTopological(m, pool, Anything, out);
    forall t | Topological(m, pool, t) && Elems(t) == Elems(out) ensures t == out {
      OneEdgeOrder(m, early, late, t);
    }
  }

  lemma {:induction false} OneEdgeOrder(m: Manifest, early: Id, late: Id, t: seq<Id>)
    requires early != late && early in After(m, late)
    requires Topological(m, {early, late}, t) && Elems(t) == {early, late}
    ensures t == [early, late]
  {
    NoDupCardinality(t);
    assert |t| == 2;
    assert t[0] in Elems(t) && t[1] in Elems(t);
    assert late in Elems(t);
    var k :| 0 <= k < 2 && t[k] == late;
    assert Pred(m, {early, late}, early, t[k]);
    var j :| 0 <= j < k && t[..k][j] == early;
  }

  lemma {:induction false} CanonicalIsUnique(m: Manifest, a: seq<Id>, b: seq<Id>)
    requires CanonicalOrder(m, a)
    requires Topological(m, Known(m), b) && Elems(b) == Sound(m, Known(m))
    requires forall t :: Topological(m, Known(m), t) && Elems(t) == Elems(b) ==> LexLeq(b, t, Leq)
    ensures a == b
  {
    SameElementsSameLength(a, b);
    LeqIsTotalOrder(Elems(a) + Elems(b));
    LexLeqAntisymmetric(a, b, Leq);
  }

  // ---------- the active kernel ----------

  function ByRank(canonical: seq<Id>): (Id, Id) -> bool {
    (a, b) => Rank(canonical, a) <= Rank(canonical, b)
  }

  /** The rows the kernel sort builds its edges from: the active ids with their own predecessor lists. */
  function Induced(m: Manifest, ids: seq<Id>): (rows: Manifest)
    ensures StageIds(rows) == ids
  {
    seq(|ids|, i requires 0 <= i < |ids| => Stage(ids[i], [], After(m, ids[i])))
  }

  lemma {:induction false} InducedRun(m: Manifest, ids: seq<Id>, leq: (Id, Id) -> bool, out: seq<Id>)
    requires NoDup(ids) && GreedyRun(Induced(m, ids), Elems(ids), leq, out)
    requires FirstCome(Induced(m, ids), Elems(ids), leq, ids, out)
    ensures GreedyRun(m, Elems(ids), leq, out) && FirstCome(m, Elems(ids), leq, ids, out)
  {
    var rows, pool := Induced(m, ids), Elems(ids);
    forall x | x in pool ensures After(rows, x) == After(m, x) {
      var i :| 0 <= i < |ids| && ids[i] == x;
      LookupOfUniqueRow(rows, i);
    }
    forall rest, x | rest <= pool ensures Ready(rows, rest, x) <==> Ready(m, rest, x) {}
    forall k, y | 0 <= k <= |out| ensures Ready(rows, Left(pool, out, k), y) <==> Ready(m, Left(pool, out, k), y) {
      assert Left(pool, out, k) <= pool;
    }
    hide Ready, Left, GreedyRun, Rank;
    forall k, x, y | 0 <= k <= |out| ensures Sooner(rows, pool, out, k, x, y) <==> Sooner(m, pool, out, k, x, y) {}
  }

  /** The active ids in the order of priority, then waiting time, then position in the active list. */
  ghost predicate KernelOrder(m: Manifest, canonical: seq<Id>, active: seq<Id>, out: seq<Id>) {
    && GreedyRun(m, Elems(active), ByRank(canonical), out) && Elems(out) == Elems(active)
    && FirstCome(m, Elems(active), ByRank(canonical), Dedup(active), out)
  }

  /** That description fits one list only, also for ids without a canonical place. */
  lemma {:induction false} KernelIsDetermined(m: Manifest, canonical: seq<Id>, active: seq<Id>, a: seq<Id>, b: seq<Id>)
    requires KernelOrder(m, canonical, active, a) && KernelOrder(m, canonical, active, b)
    ensures a == b
  {
    hide GreedyRun, FirstCome, Dedup;
    FirstComeIsUnique(m, Elems(active), ByRank(canonical), Dedup(active), a, b);
  }

  method OrderKernel(active: seq<Id>, stages: Manifest) returns (canonical: seq<Id>, r: Option<seq<Id>>)
    ensures CanonicalOrder(stages, canonical)
    ensures r.None? <==> HasCycle(stages, Elems(active))
    ensures r.Some? ==> NoDup(r.value) && Elems(r.value) == Elems(active)
    ensures r.Some? ==> KernelOrder(stages, canonical, active, r.value)
    ensures r.Some? ==> Topological(stages, Elems(active), r.value)
    ensures Elems(active) <= Sound(stages, Known(stages)) ==> r == Some(Filter(canonical, Elems(active)))
  {
    hide FirstCome;
    canonical := CanonicalStageOrder(stages);
    var ids := Dedup(active);
    var ordered := SortedKahn(Induced(stages, ids), ByRank(canonical));
    InducedRun(stages, ids, ByRank(canonical), ordered);
    KernelSucceedsIffAcyclic(stages, ids, ByRank(canonical), ordered);
    if Elems(active) <= Sound(stages, Known(stages)) {
      KernelOfSoundIds(stages, canonical, ids, ordered);
    }
    if |ordered| != |ids| {
      return canonical, None;
    }
    GreedyIsTopological(stages, Elems(ids), ByRank(canonical), ordered);
    return canonical, Some(ordered);
  }

  lemma {:induction false} KernelSucceedsIffAcyclic(m: Manifest, ids: seq<Id>, leq: (Id, Id) -> bool, out: seq<Id>)
    requires NoDup(ids) && GreedyRun(m, Elems(ids), leq, out)
    ensures |out| == |ids| <==> !HasCycle(m, Elems(ids))
    ensures |out| == |ids| <==> Elems(out) == Elems(ids)
  {
    var pool := Elems(ids);
    GreedyEmitsSound(m, pool, leq, out);
    NoDupCardinality(out);
    NoDupCardinality(ids);
    SubsetCardinality(Elems(out), pool);
    TaintedIffCycle(m, pool);
    if Elems(out) == pool {
      assert forall x :: x in pool ==> x in Sound(m, pool);
    } else {
      assert exists x :: x in pool && x !in Elems(out);
    }
  }

  /** Ids the manifest does not know keep their order in the active list. */
  lemma {:induction false} KernelOfUnknownIds(m: Manifest, canonical: seq<Id>, active: seq<Id>)
    requires CanonicalOrder(m, canonical) && Elems(active) !! Known(m)
    ensures KernelOrder(m, canonical, active, Dedup(active))
  {
    var out, pool := Dedup(active), Elems(active);
    forall x | x in pool ensures After(m, x) == [] && Rank(canonical, x) == |canonical| {
      LookupOfAbsent(m, x);
      assert x !in Elems(canonical);
    }
    assert forall rest, x :: rest <= pool ==> (Ready(m, rest, x) <==> x in rest);
    hide After, Known, CanonicalOrder, Ready, Rank, Dedup;
    UnknownIsGreedy(m, pool, ByRank(canonical), out);
    forall k, y | 0 <= k < |out| && Ready(m, Left(pool, out, k), y) ensures Before(m, pool, out, out, k, out[k], y) {
      UnknownInOrder(m, pool, out, k, y);
    }
  }

  lemma {:induction false} UnknownIsGreedy(m: Manifest, pool: set<Id>, leq: (Id, Id) -> bool, out: seq<Id>)
    requires NoDup(out) && Elems(out) == pool
    requires forall rest, x :: rest <= pool ==> (Ready(m, rest, x) <==> x in rest)
    requires forall x, y :: x in pool && y in pool ==> leq(x, y)
    ensures GreedyRun(m, pool, leq, out)
  {
    hide Ready;
    forall k | 0 <= k < |out| ensures out[k] in Left(pool, out, k) && out[k] in pool {
      assert out[k] in Elems(out);
      assert out[k] !in out[..k];
    }
    forall k | 0 <= k <= |out| ensures Left(pool, out, k) <= pool {}
    assert out[..|out|] == out;
    assert Left(pool, out, |out|) == {};
  }

  lemma {:induction false} UnknownInOrder(m: Manifest, pool: set<Id>, out: seq<Id>, k: nat, y: Id)
    requires NoDup(out) && Elems(out) == pool && k < |out| && y in Left(pool, out, k)
    requires forall rest, x :: rest <= pool ==> (Ready(m, rest, x) <==> x in rest)
    ensures Before(m, pool, out, out, k, out[k], y)
  {
    hide Ready;
    assert y in Elems(out);
    var j :| 0 <= j < |out| && out[j] == y;
    assert forall i :: 0 <= i < k ==> out[i] == out[..k][i];
    RankOfPosition(out, k);
    RankOfPosition(out, j);
    forall i | 0 <= i <= k ensures out[k] in Left(pool, out, i) && Left(pool, out, i) <= pool {
      assert out[k] in Elems(out);
      assert out[k] !in out[..i];
    }
    assert !Sooner(m, pool, out, k, y, out[k]);
  }

  lemma {:induction false} FilterKeepsRanks(s: seq<Id>, keep: set<Id>, i: nat, j: nat)
    requires NoDup(s) && i < j < |Filter(s, keep)|
    ensures Rank(s, Filter(s, keep)[i]) < Rank(s, Filter(s, keep)[j])
  {
    var last := |s| - 1;
    var front := s[..last];
    assert s == front + [s[last]];
    var f := Filter(front, keep);
    RankInFront(front, s[last], f[i]);
    if j < |f| {
      FilterKeepsRanks(front, keep, i, j);
      RankInFront(front, s[last], f[j]);
    } else {
      assert Filter(s, keep)[j] == s[last] && s[last] !in front;
    }
  }

  lemma {:induction false} RankInFront(front: seq<Id>, y: Id, x: Id)
    requires x in front
    ensures Rank(front + [y], x) == Rank(front, x) < |front|
  {
    assert (front + [y])[..Rank(front, x)] == front[..Rank(front, x)];
    FirstPosition(front + [y], x, Rank(front, x));
  }

  lemma {:induction false} EarlierHasSmallerRank(s: seq<Id>, p: Id, k: nat)
    requires NoDup(s) && k < |s| && p in s[..k]
    ensures Rank(s, p) < k == Rank(s, s[k])
  {
    var i :| 0 <= i < k && s[..k][i] == p;
    RankOfPosition(s, i);
    RankOfPosition(s, k);
  }

  /** The canonical order cut down to the active ids is itself a greedy run of the kernel sort. */
  lemma {:induction false} FilteredCanonicalIsGreedy(m: Manifest, canonical: seq<Id>, active: set<Id>)
    requires Topological(m, Known(m), canonical) && active <= Elems(canonical)
    ensures GreedyRun(m, active, ByRank(canonical), Filter(canonical, active))
  {
    var f := Filter(canonical, active);
    assert Elems(f) == active;
    assert f[..|f|] == f;
    forall k, y | 0 <= k < |f| && y in Left(active, f, k) ensures ByRank(canonical)(f[k], y) {
      var j :| 0 <= j < |f| && f[j] == y;
      assert forall i :: 0 <= i < k ==> f[i] == f[..k][i];
      if k < j { FilterKeepsRanks(canonical, active, k, j); }
    }
    forall k | 0 <= k < |f| ensures Ready(m, Left(active, f, k), f[k]) {
      assert f[k] in f && f[k] in canonical;
      assert f[k] !in f[..k];
      var i := Rank(canonical, f[k]);
      forall p | p in After(m, f[k]) && p != f[k] ensures p !in Left(active, f, k) {
        if p in Left(active, f, k) {
          assert Pred(m, Known(m), p, canonical[i]);
          EarlierHasSmallerRank(canonical, p, i);
          assert false;
        }
      }
    }
  }

  /** The kernel sort of the active ids is the canonical order cut down to them,
      exactly when every active id has a place in the canonical order. */
  lemma {:induction false} KernelIsCanonicalFilter(m: Manifest, canonical: seq<Id>, active: set<Id>, out: seq<Id>)
    requires CanonicalOrder(m, canonical)
    requires GreedyRun(m, active, ByRank(canonical), out) && Elems(out) == active
    ensures out == Filter(canonical, active) <==> active <= Sound(m, Known(m))
  {
    if active <= Elems(canonical) {
      FilteredCanonicalIsGreedy(m, canonical, active);
      forall a, b | a in active && b in active && Rank(canonical, a) == Rank(canonical, b) ensures a == b {
        assert a in canonical && b in canonical;
      }
      GreedyIsUnique(m, active, ByRank(canonical), out, Filter(canonical, active));
    } else {
      var x :| x in active && x !in Elems(canonical);
      assert x in Elems(out) && x in out && x !in Filter(canonical, active);
    }
  }

  /** Ids that no cycle reaches never make the kernel sort fail. */
  lemma {:induction false} KernelOfSoundIds(m: Manifest, canonical: seq<Id>, ids: seq<Id>, out: seq<Id>)
    requires CanonicalOrder(m, canonical) && NoDup(ids) && Elems(ids) <= Sound(m, Known(m))
    requires GreedyRun(m, Elems(ids), ByRank(canonical), out)
    ensures out == Filter(canonical, Elems(ids)) && |out| == |ids|
  {
    var active := Elems(ids);
    FilteredCanonicalIsGreedy(m, canonical, active);
    assert Elems(Filter(canonical, active)) == active;
    GreedyEmitsSound(m, active, ByRank(canonical), Filter(canonical, active));
    GreedyEmitsSound(m, active, ByRank(canonical), out);
    SameElementsSameLength(out, ids);
    KernelIsCanonicalFilter(m, canonical, active, out);
  }

  /** A concrete failing input: an unknown id has no canonical place, yet the kernel lists it. */
  lemma {:induction false} UnknownIdIsNotFiltered(x: Id)
    ensures CanonicalOrder([], []) && GreedyRun([], {x}, ByRank([]), [x])
    ensures [x] != Filter([], {x})
  {
    assert Sound([], Known([])) == {} && Elems<Id>([]) == {};
    assert Elems([x]) == {x};
    assert [x][..0] == [] && [x][..1] == [x];
    assert Left({x}, [x], 0) == {x} && Left({x}, [x], 1) == {};
  }

  lemma {:induction false} FilterTwice(s: seq<Id>, small: set<Id>, big: set<Id>)
    requires small <= big
    ensures Filter(Filter(s, big), small) == Filter(s, small)
  {
    if s != [] {
      var last := |s| - 1;
      FilterTwice(s[..last], small, big);
      var f := Filter(s[..last], big);
      if s[last] in big { assert (f + [s[last]])[..|f|] == f; }
    }
  }

  /** Among stages that no cycle reaches, the kernel of a subset is the kernel of the superset with the
      other stages deleted; equal sets give equal kernels. */
  lemma {:induction false} KernelOfSubset(m: Manifest, canonical: seq<Id>, small: set<Id>, big: set<Id>,
                                          outSmall: seq<Id>, outBig: seq<Id>)
    requires small <= big <= Sound(m, Known(m))
    requires CanonicalOrder(m, canonical)
    requires GreedyRun(m, small, ByRank(canonical), outSmall) && Elems(outSmall) == small
    requires GreedyRun(m, big, ByRank(canonical), outBig) && Elems(outBig) == big
    ensures outSmall == Filter(outBig, small)
    ensures small == big ==> outSmall == outBig
  {
    KernelIsCanonicalFilter(m, canonical, small, outSmall);
    KernelIsCanonicalFilter(m, canonical, big, outBig);
    FilterTwice(canonical, small, big);
  }

  /** In an acyclic manifest that covers every known stage. */
  lemma {:induction false} AcyclicIsSound(m: Manifest)
    ensures !HasCycle(m, Known(m)) <==> Sound(m, Known(m)) == Known(m)
  {
    TaintedIffCycle(m, Known(m));
    if Sound(m, Known(m)) == Known(m) {
      assert forall x :: x in Known(m) ==> x in Sound(m, Known(m));
    }
  }

  // ---------- requirement closure ----------

  ghost predicate Closed(m: Manifest, ids: set<Id>) {
    forall x, r :: x in ids && r in Needs(m, x) ==> r in ids
  }

  /** The least closed set containing `seed`. */
  ghost predicate LeastClosure(m: Manifest, seed: set<Id>, ids: set<Id>) {
    && seed <= ids && Closed(m, ids)
    && forall s :: seed <= s && Closed(m, s) ==> ids <= s
  }

  ghost function Mentioned(m: Manifest): set<Id> {
    set i, r | 0 <= i < |m| && r in m[i].needs :: r
  }

  lemma {:induction false} NeedsAreMentioned(m: Manifest, x: Id)
    ensures Elems(Needs(m, x)) <= Mentioned(m)
  {
    if m != [] {
      var front, last := m[..|m| - 1], m[|m| - 1];
      NeedsAreMentioned(front, x);
      forall r | r in Mentioned(front) ensures r in Mentioned(m) {
        var i :| 0 <= i < |front| && r in front[i].needs;
        assert r in m[i].needs;
      }
      forall r | r in Needs(m, x) ensures r in Mentioned(m) {
        if r !in Needs(front, x) { assert r in m[|m| - 1].needs; }
      }
    }
  }

  /** Everything added so far is forced by the seed. */
  ghost predicate Forced(m: Manifest, seed: set<Id>, ids: set<Id>) {
    && seed <= ids && ids <= seed + Mentioned(m)
    && forall s :: seed <= s && Closed(m, s) ==> ids <= s
  }

  lemma {:induction false} ForceNeeds(m: Manifest, seed: set<Id>, ids: set<Id>, x: Id, needs: set<Id>)
    requires Forced(m, seed, ids) && x in ids && needs <= Elems(Needs(m, x))
    ensures Forced(m, seed, ids + needs)
  {
    NeedsAreMentioned(m, x);
    forall s | seed <= s && Closed(m, s) ensures ids + needs <= s {
      assert ids <= s;
    }
  }

  /** Appends the requirements that are not listed yet. */
  method AddNeeds(needs: seq<Id>, listed: seq<Id>) returns (ordered: seq<Id>, changed: bool)
    ensures listed <= ordered && Elems(ordered) == Elems(listed) + Elems(needs)
    ensures NoDup(listed) ==> NoDup(ordered)
    ensures changed <==> |ordered| > |listed|
    ensures changed <==> !(Elems(needs) <= Elems(listed))
    ensures NoDup(listed) ==> ordered == Dedup(listed + needs)
  {
    ordered, changed := listed, false;
    assert listed + needs[..0] == listed;
    for j := 0 to |needs|
      invariant listed <= ordered && Elems(ordered) == Elems(listed) + Elems(needs[..j])
      invariant NoDup(listed) ==> NoDup(ordered)
      invariant changed <==> |ordered| > |listed|
      invariant changed <==> !(Elems(needs[..j]) <= Elems(listed))
      invariant NoDup(listed) ==> ordered == Dedup(listed + needs[..j])
    {
      assert needs[..j + 1] == needs[..j] + [needs[j]];
      assert listed + needs[..j + 1] == (listed + needs[..j]) + [needs[j]];
      ElemsAppend(needs[..j], needs[j]);
      if needs[j] !in ordered {
        ElemsAppend(ordered, needs[j]);
        ordered := ordered + [needs[j]];
        changed := true;
      }
    }
    assert needs[..|needs|] == needs;
  }

  ghost predicate ServedUpTo(m: Manifest, queue: seq<Id>, i: nat, ids: set<Id>)
    requires i <= |queue|
  {
    forall k :: 0 <= k < i ==> Elems(Needs(m, queue[k])) <= ids
  }

  lemma {:induction false} ServeNext(m: Manifest, queue: seq<Id>, i: nat, ids: set<Id>, more: set<Id>)
    requires i < |queue| && ServedUpTo(m, queue, i, ids)
    requires more == ids + Elems(Needs(m, queue[i]))
    ensures ServedUpTo(m, queue, i + 1, more)
  {
    hide Needs, Elems;
    forall k | 0 <= k < i + 1 ensures Elems(Needs(m, queue[k])) <= more {
      if k < i { assert Elems(Needs(m, queue[k])) <= ids; }
    }
  }

  lemma {:induction false} ListedIn(s: seq<Id>, t: seq<Id>, i: nat)
    requires i < |s| && s <= t
    ensures s[i] in Elems(t)
  {
    assert t[i] == s[i];
  }

  lemma {:induction false} ServedIsClosed(m: Manifest, ids: seq<Id>)
    requires ServedUpTo(m, ids, |ids|, Elems(ids))
    ensures Closed(m, Elems(ids))
  {
    forall x, r | x in Elems(ids) && r in Needs(m, x) ensures r in Elems(ids) {
      var k :| 0 <= k < |ids| && ids[k] == x;
      assert Elems(Needs(m, ids[k])) <= Elems(ids);
    }
  }

  /** The requirements of the listed stages, one list after the other. */
  ghost function NeedsInOrder(m: Manifest, ids: seq<Id>): seq<Id> {
    if ids == [] then []
    else NeedsInOrder(m, ids[..|ids| - 1]) + Needs(m, ids[|ids| - 1])
  }

  /** The list so far is what a single breadth-first pass has when it has served its first `p` entries. */
  ghost predicate BreadthFirst(m: Manifest, active: seq<Id>, ordered: seq<Id>, p: nat) {
    p <= |ordered| && ordered == Dedup(active + NeedsInOrder(m, ordered[..p]))
  }

  lemma {:induction false} NeedsInOrderNext(m: Manifest, ids: seq<Id>, i: nat)
    requires i < |ids|
    ensures NeedsInOrder(m, ids[..i + 1]) == NeedsInOrder(m, ids[..i]) + Needs(m, ids[i])
  {
    assert ids[..i + 1][..i] == ids[..i];
  }

  lemma {:induction false} BreadthNext(m: Manifest, active: seq<Id>, s: seq<Id>, i: nat, ordered: seq<Id>, next: seq<Id>)
    requires i < |s| && s <= ordered <= next
    requires BreadthFirst(m, active, ordered, i) && next == Dedup(ordered + Needs(m, s[i]))
    ensures BreadthFirst(m, active, next, i + 1)
  {
    hide Dedup, NeedsInOrder, Needs;
    var all, more := active + NeedsInOrder(m, next[..i]), Needs(m, s[i]);
    assert ordered[..i] == next[..i] && s[i] == next[i];
    NeedsInOrderNext(m, next, i);
    DedupTwice(all, more);
    assert all + more == active + NeedsInOrder(m, next[..i + 1]);
  }

  lemma {:induction false} ServedPrefix(m: Manifest, s: seq<Id>, t: seq<Id>, i: nat, small: set<Id>, big: set<Id>)
    requires s <= t && i <= |s| && small <= big && ServedUpTo(m, s, i, small)
    ensures ServedUpTo(m, t, i, big)
  {
    hide Needs, Elems;
    forall k | 0 <= k < i ensures Elems(Needs(m, t[k])) <= big {
      assert s[k] == t[k] && Elems(Needs(m, s[k])) <= small;
    }
  }

  lemma {:induction false} ServedEntry(m: Manifest, s: seq<Id>, i: nat, p: nat, ids: set<Id>)
    requires i < p <= |s| && ServedUpTo(m, s, p, ids)
    ensures Elems(Needs(m, s[i])) <= ids
  {}

  /** The rescanning loop adds requirements in the order of a single breadth-first pass over its own result. */
  method RequiresClosure(active: seq<Id>, stages: Manifest) returns (ordered: seq<Id>)
    ensures NoDup(ordered) && Dedup(active) <= ordered
    ensures LeastClosure(stages, Elems(active), Elems(ordered))
    ensures ordered == Dedup(active + NeedsInOrder(stages, ordered))
  {
    hide Needs, Closed, Mentioned, Elems, BreadthFirst, ServedUpTo;
    ghost var seed, pool := Elems(active), Elems(active) + Mentioned(stages);
    ordered := Dedup(active);
    var changed := true;
    ghost var p: nat := 0;
    StartBreadthFirst(stages, active);
    while changed
      invariant NoDup(ordered) && Dedup(active) <= ordered && Forced(stages, seed, Elems(ordered))
      invariant p <= |ordered| && (!changed ==> p == |ordered|)
      invariant BreadthFirst(stages, active, ordered, p) && ServedUpTo(stages, ordered, p, Elems(ordered))
      decreases |pool| - |ordered|, changed
    {
      changed := false;
      var snapshot := ordered;
      ServedNothing(stages, snapshot, Elems(ordered));
      for i := 0 to |snapshot|
        invariant NoDup(ordered) && Dedup(active) <= snapshot <= ordered && Forced(stages, seed, Elems(ordered))
        invariant changed <==> |ordered| > |snapshot|
        invariant i <= p ==> ordered == snapshot
        invariant BreadthFirst(stages, active, ordered, if i < p then p else i)
        invariant ServedUpTo(stages, snapshot, i, Elems(ordered))
      {
        var needs := Needs(stages, snapshot[i]);
        ListedIn(snapshot, ordered, i);
        ForceNeeds(stages, seed, Elems(ordered), snapshot[i], Elems(needs));
        var more;
        ghost var before := ordered;
        ordered, more := AddNeeds(needs, ordered);
        changed := changed || more;
        ServeNext(stages, snapshot, i, Elems(before), Elems(ordered));
        if i < p {
          ServedEntry(stages, snapshot, i, p, Elems(before));
          assert ordered == before;
        } else {
          BreadthNext(stages, active, snapshot, i, before, ordered);
        }
      }
      NoDupCardinality(ordered);
      SubsetCardinality(Elems(ordered), pool);
      p := |snapshot|;
      ServedPrefix(stages, snapshot, ordered, p, Elems(ordered), Elems(ordered));
    }
    ServedIsClosed(stages, ordered);
    EndBreadthFirst(stages, active, ordered);
  }

  lemma {:induction false} StartBreadthFirst(m: Manifest, active: seq<Id>)
    ensures BreadthFirst(m, active, Dedup(active), 0) && ServedUpTo(m, Dedup(active), 0, Elems(Dedup(active)))
    ensures Forced(m, Elems(active), Elems(Dedup(active)))
  {
    assert Dedup(active)[..0] == [] && active + [] == active;
  }

  lemma {:induction false} ServedNothing(m: Manifest, s: seq<Id>, ids: set<Id>)
    ensures ServedUpTo(m, s, 0, ids)
  {}

  lemma {:induction false} EndBreadthFirst(m: Manifest, active: seq<Id>, ordered: seq<Id>)
    requires BreadthFirst(m, active, ordered, |ordered|)
    ensures ordered == Dedup(active + NeedsInOrder(m, ordered))
  {
    assert ordered[..|ordered|] == ordered;
  }

  lemma {:induction false} LeastClosureIsUnique(m: Manifest, seed: set<Id>, a: set<Id>, b: set<Id>)
    requires LeastClosure(m, seed, a) && LeastClosure(m, seed, b)
    ensures a == b
  {}

  lemma {:induction false} NeedsInOrderHolds(m: Manifest, ids: seq<Id>, j: nat)
    requires j < |ids|
    ensures Elems(Needs(m, ids[j])) <= Elems(NeedsInOrder(m, ids))
  {
    if j < |ids| - 1 { NeedsInOrderHolds(m, ids[..|ids| - 1], j); }
  }

  lemma {:induction false} NeedsInOrderPrefix(m: Manifest, ids: seq<Id>, k: nat)
    requires k <= |ids|
    ensures NeedsInOrder(m, ids[..k]) <= NeedsInOrder(m, ids)
  {
    if k < |ids| {
      assert ids[..|ids| - 1][..k] == ids[..k];
      NeedsInOrderPrefix(m, ids[..|ids| - 1], k);
    } else {
      assert ids[..k] == ids;
    }
  }

  /** What the first `k` entries ask for comes first in a breadth-first list. */
  lemma {:induction false} BreadthPrefix(m: Manifest, active: seq<Id>, ordered: seq<Id>, k: nat)
    requires k <= |ordered| && ordered == Dedup(active + NeedsInOrder(m, ordered))
    ensures Dedup(active + NeedsInOrder(m, ordered[..k])) <= ordered
  {
    hide Dedup, NeedsInOrder;
    NeedsInOrderPrefix(m, ordered, k);
    var some, all := NeedsInOrder(m, ordered[..k]), NeedsInOrder(m, ordered);
    assert all == some + all[|some|..];
    assert active + all == active + some + all[|some|..];
    DedupPrefix(active + some, all[|some|..]);
  }

  /** Entries that ask for nothing beyond themselves are the whole closure. */
  lemma {:induction false} ClosedPrefixIsAll(m: Manifest, active: seq<Id>, ordered: seq<Id>, k: nat)
    requires k <= |ordered| && NoDup(ordered) && LeastClosure(m, Elems(active), Elems(ordered))
    requires Dedup(active + NeedsInOrder(m, ordered[..k])) <= ordered[..k]
    ensures k == |ordered|
  {
    hide Dedup, Needs, NeedsInOrder;
    var part := ordered[..k];
    var asked := active + NeedsInOrder(m, part);
    assert Elems(Dedup(asked)) == Elems(asked) == Elems(active) + Elems(NeedsInOrder(m, part));
    assert Elems(Dedup(asked)) <= Elems(part);
    forall x, r | x in Elems(part) && r in Needs(m, x) ensures r in Elems(part) {
      var j :| 0 <= j < |part| && part[j] == x;
      NeedsInOrderHolds(m, part, j);
      assert r in Elems(Needs(m, x));
    }
    assert Closed(m, Elems(part));
    NoDupCardinality(ordered);
    NoDupCardinality(part);
    SubsetCardinality(Elems(ordered), Elems(part));
  }

  /** The closure is determined, its order included: the description of `RequiresClosure` fits one list only. */
  lemma {:induction false} ClosureIsDetermined(m: Manifest, active: seq<Id>, a: seq<Id>, b: seq<Id>)
    requires NoDup(a) && LeastClosure(m, Elems(active), Elems(a)) && a == Dedup(active + NeedsInOrder(m, a))
    requires NoDup(b) && LeastClosure(m, Elems(active), Elems(b)) && b == Dedup(active + NeedsInOrder(m, b))
    ensures a == b
  {
    LeastClosureIsUnique(m, Elems(active), Elems(a), Elems(b));
    SameElementsSameLength(a, b);
    hide Dedup, NeedsInOrder, LeastClosure;
    if a != b {
      var k := FirstDifference(a, b);
      BreadthPrefix(m, active, a, k);
      BreadthPrefix(m, active, b, k);
      var d := Dedup(active + NeedsInOrder(m, a[..k]));
      if |d| <= k {
        ClosedPrefixIsAll(m, active, a, k);
      }
    }
  }

  /** Closing a closed list changes nothing, not even its order. */
  lemma {:induction false} ClosureIsIdempotent(m: Manifest, active: seq<Id>, once: seq<Id>, twice: seq<Id>)
    requires NoDup(once) && LeastClosure(m, Elems(active), Elems(once))
    requires NoDup(twice) && Dedup(once) <= twice && LeastClosure(m, Elems(once), Elems(twice))
    ensures twice == once
  {
    assert Elems(twice) <= Elems(once);
    SameElementsSameLength(once, twice);
  }

  lemma {:induction false} ClosureIsMonotone(m: Manifest, small: set<Id>, big: set<Id>, a: set<Id>, b: set<Id>)
    requires small <= big && LeastClosure(m, small, a) && LeastClosure(m, big, b)
    ensures a <= b
  {}

  // ---------- alias expansion ----------

  /** The expansion with `depth` further nested calls to spare, or nothing when that is not enough. */
  ghost function Expansion(nodes: seq<Id>, aliases: map<Id, seq<Id>>, depth: nat): Option<seq<Id>>
    decreases depth, |nodes|
  {
    if nodes == [] then Some([])
    else
      var last := |nodes| - 1;
      var front := Expansion(nodes[..last], aliases, depth);
      var inner := if nodes[last] !in aliases then Some([nodes[last]])
                   else if depth == 0 then None
                   else Expansion(aliases[nodes[last]], aliases, depth - 1);
      if front.None? || inner.None? then None else Some(front.value + inner.value)
  }

  lemma {:induction false} ExpansionFailsEarly(nodes: seq<Id>, i: nat, aliases: map<Id, seq<Id>>, depth: nat)
    requires i <= |nodes| && Expansion(nodes[..i], aliases, depth).None?
    ensures Expansion(nodes, aliases, depth).None?
  {
    if i < |nodes| {
      assert nodes[..|nodes| - 1][..i] == nodes[..i];
      ExpansionFailsEarly(nodes[..|nodes| - 1], i, aliases, depth);
    } else {
      assert nodes[..i] == nodes;
    }
  }

  /** `depth` is what the recursion limit leaves; exceeding it is an error. */
  method Expand(nodes: seq<Id>, aliases: map<Id, seq<Id>>, depth: nat) returns (r: Option<seq<Id>>)
    ensures r == Expansion(nodes, aliases, depth)
    decreases depth
  {
    var out: seq<Id> := [];
    for i := 0 to |nodes|
      invariant Expansion(nodes[..i], aliases, depth) == Some(out)
    {
      assert nodes[..i + 1][..i] == nodes[..i];
      if nodes[i] in aliases {
        var inner: Option<seq<Id>> := None;
        if depth > 0 {
          inner := Expand(aliases[nodes[i]], aliases, depth - 1);
        }
        if inner.None? {
          ExpansionFailsEarly(nodes, i + 1, aliases, depth);
          return None;
        }
        out := out + inner.value;
      } else {
        out := out + [nodes[i]];
      }
    }
    assert nodes[..|nodes|] == nodes;
    return Some(out);
  }

  /** Aliases, the first one among the nodes, each listing the next. */
  ghost predicate Chain(nodes: seq<Id>, aliases: map<Id, seq<Id>>, w: seq<Id>) {
    && (forall i :: 0 <= i < |w| ==> w[i] in aliases)
    && (forall i :: 0 <= i < |w| - 1 ==> w[i + 1] in aliases[w[i]])
    && (w != [] ==> w[0] in nodes)
  }

  ghost predicate HasChain(nodes: seq<Id>, aliases: map<Id, seq<Id>>, n: nat) {
    exists w :: |w| == n && Chain(nodes, aliases, w)
  }

  lemma {:induction false} ChainOfAppend(front: seq<Id>, node: Id, aliases: map<Id, seq<Id>>, n: nat)
    requires n > 0
    ensures HasChain(front + [node], aliases, n) <==>
      HasChain(front, aliases, n) || (node in aliases && HasChain(aliases[node], aliases, n - 1))
  {
    if w :| |w| == n && Chain(front + [node], aliases, w) {
      if w[0] in front {
        assert Chain(front, aliases, w);
      } else {
        assert w[0] == node;
        var v := w[1..];
        assert forall i :: 0 <= i < |v| - 1 ==> v[i + 1] in aliases[v[i]] by {
          forall i | 0 <= i < |v| - 1 ensures v[i + 1] in aliases[v[i]] { assert w[i + 1 + 1] in aliases[w[i + 1]]; }
        }
        assert Chain(aliases[node], aliases, v);
      }
    }
    if w :| |w| == n && Chain(front, aliases, w) {
      assert Chain(front + [node], aliases, w);
    }
    if node in aliases && HasChain(aliases[node], aliases, n - 1) {
      var v :| |v| == n - 1 && Chain(aliases[node], aliases, v);
      var w := [node] + v;
      assert forall i :: 0 < i < |w| ==> w[i] == v[i - 1];
      assert Chain(front + [node], aliases, w);
    }
  }

  /** The recursion runs out of depth exactly when the nodes start a longer chain of aliases. */
  lemma {:induction false} ExpansionFailsExactly(nodes: seq<Id>, aliases: map<Id, seq<Id>>, depth: nat)
    ensures Expansion(nodes, aliases, depth).None? <==> HasChain(nodes, aliases, depth + 1)
    decreases depth, |nodes|
  {
    hide HasChain;
    if nodes == [] {
      NoChainFromNothing(aliases, depth + 1);
    } else {
      var front, node := nodes[..|nodes| - 1], nodes[|nodes| - 1];
      assert nodes == front + [node];
      ExpansionFailsExactly(front, aliases, depth);
      ChainOfAppend(front, node, aliases, depth + 1);
      if node in aliases {
        if depth > 0 { ExpansionFailsExactly(aliases[node], aliases, depth - 1); } else { EmptyChain(aliases[node], aliases); }
      }
    }
  }

  lemma {:induction false} NoChainFromNothing(aliases: map<Id, seq<Id>>, n: nat)
    requires n > 0
    ensures !HasChain([], aliases, n)
  {}

  lemma {:induction false} EmptyChain(nodes: seq<Id>, aliases: map<Id, seq<Id>>)
    ensures HasChain(nodes, aliases, 0)
  {
    assert Chain(nodes, aliases, []);
  }

  /** No chain of aliases from the nodes comes back to an alias: no alias cycle is reachable from them. */
  ghost predicate Expandable(nodes: seq<Id>, aliases: map<Id, seq<Id>>) {
    forall w :: Chain(nodes, aliases, w) ==> NoDup(w)
  }

  lemma {:induction false} ChainPrefix(nodes: seq<Id>, aliases: map<Id, seq<Id>>, w: seq<Id>, n: nat)
    requires Chain(nodes, aliases, w) && n <= |w|
    ensures HasChain(nodes, aliases, n)
  {
    assert Chain(nodes, aliases, w[..n]);
  }

  /** Going round a cycle once more makes the chain longer, so chains of every length exist. */
  lemma {:induction false} Pump(nodes: seq<Id>, aliases: map<Id, seq<Id>>, w: seq<Id>, i: nat, j: nat, n: nat)
    requires Chain(nodes, aliases, w) && i < j < |w| && w[i] == w[j]
    ensures HasChain(nodes, aliases, n)
    decreases n - |w|
  {
    if n <= |w| {
      ChainPrefix(nodes, aliases, w, n);
    } else {
      var v := w[..j] + w[i..];
      forall k | 0 <= k < |v| ensures v[k] == if k < j then w[k] else w[k - j + i] {}
      forall k | 0 <= k < |v| - 1 ensures v[k + 1] in aliases[v[k]] {
        if k < j - 1 {
          assert w[k + 1] in aliases[w[k]];
        } else if k == j - 1 {
          assert w[j - 1 + 1] in aliases[w[j - 1]];
        } else {
          assert w[k - j + i + 1] in aliases[w[k - j + i]];
        }
      }
      Pump(nodes, aliases, v, i, j, n);
    }
  }

  /** The exact termination condition: without a reachable alias cycle as many nested calls as there are
      aliases suffice, and with one no depth does. */
  lemma {:induction false} ExpandReturnsExactly(nodes: seq<Id>, aliases: map<Id, seq<Id>>, depth: nat)
    ensures Expandable(nodes, aliases) ==> Expansion(nodes, aliases, |aliases.Keys|).Some?
    ensures !Expandable(nodes, aliases) ==> Expansion(nodes, aliases, depth).None?
  {
    if Expandable(nodes, aliases) {
      var n := |aliases.Keys|;
      ExpansionFailsExactly(nodes, aliases, n);
      forall w | |w| == n + 1 ensures !Chain(nodes, aliases, w) {
        if Chain(nodes, aliases, w) {
          Pigeonhole(w, aliases.Keys);
          assert false;
        }
      }
    } else {
      var w :| Chain(nodes, aliases, w) && !NoDup(w);
      var i, j :| 0 <= i < j < |w| && w[i] == w[j];
      Pump(nodes, aliases, w, i, j, depth + 1);
      ExpansionFailsExactly(nodes, aliases, depth);
    }
  }

  /** One nested call is enough for every list of nodes exactly when no alias lists an alias. */
  lemma {:induction false} FlatAliasesExpandAtOnce(aliases: map<Id, seq<Id>>)
    ensures (forall nodes :: Expansion(nodes, aliases, 1).Some?)
       <==> forall a, b :: a in aliases && b in aliases[a] ==> b !in aliases
  {
    if a, b :| a in aliases && b in aliases[a] && b in aliases {
      assert Chain([a], aliases, [a, b]);
      ExpansionFailsExactly([a], aliases, 1);
    } else {
      forall nodes ensures Expansion(nodes, aliases, 1).Some? {
        ExpansionFailsExactly(nodes, aliases, 1);
        forall w | |w| == 2 ensures !Chain(nodes, aliases, w) {
          if w[0] in aliases && w[0 + 1] in aliases[w[0]] { assert w[1] !in aliases; }
        }
      }
    }
  }

  /** Two expansions one after the other, when both succeed. */
  function Both(a: Option<seq<Id>>, b: Option<seq<Id>>): Option<seq<Id>> {
    if a.None? || b.None? then None else Some(a.value + b.value)
  }

  /** The expansion of a list is the expansion of its parts in order. */
  lemma {:induction false} ExpansionOfConcat(a: seq<Id>, b: seq<Id>, aliases: map<Id, seq<Id>>, depth: nat)
    ensures Expansion(a + b, aliases, depth) == Both(Expansion(a, aliases, depth), Expansion(b, aliases, depth))
    decreases |b|
  {
    if b == [] {
      assert a + b == a;
      assert forall s: seq<Id> :: s + [] == s;
    } else {
      var front, node := b[..|b| - 1], b[|b| - 1];
      assert (a + b)[..|a + b| - 1] == a + front && (a + b)[|a + b| - 1] == node;
      ExpansionOfConcat(a, front, aliases, depth);
      var x, y := Expansion(a, aliases, depth), Expansion(front, aliases, depth);
      var z := if node !in aliases then Some([node]) else if depth == 0 then None else Expansion(aliases[node], aliases, depth - 1);
      if x.Some? && y.Some? && z.Some? { assert x.value + y.value + z.value == x.value + (y.value + z.value); }
    }
  }

  /** An alias stands for what its list expands to with one nested call less, a concrete name for itself. */
  lemma {:induction false} ExpansionOfOne(node: Id, aliases: map<Id, seq<Id>>, depth: nat)
    ensures Expansion([node], aliases, depth) ==
      if node !in aliases then Some([node])
      else if depth == 0 then None
      else Expansion(aliases[node], aliases, depth - 1)
  {
    assert [node][..0] == [];
    assert Expansion([], aliases, depth) == Some([]);
    assert forall s: seq<Id> :: [] + s == s;
  }

  /** A flat alias is replaced where it stands by its own members, in their order. */
  lemma {:induction false} AliasIsReplacedInPlace(before: seq<Id>, node: Id, after: seq<Id>, aliases: map<Id, seq<Id>>, depth: nat)
    requires node in aliases && depth > 0
    requires forall x :: x in before + aliases[node] + after ==> x !in aliases
    ensures Expansion(before + [node] + after, aliases, depth) == Some(before + aliases[node] + after)
  {
    assert forall x :: x in before || x in aliases[node] || x in after ==> x in before + aliases[node] + after;
    ExpansionOfConcat(before + [node], after, aliases, depth);
    ExpansionOfConcat(before, [node], aliases, depth);
    ExpansionOfOne(node, aliases, depth);
    NamesStay(before, aliases, depth);
    NamesStay(aliases[node], aliases, depth - 1);
    NamesStay(after, aliases, depth);
  }

  lemma {:induction false} NamesStay(names: seq<Id>, aliases: map<Id, seq<Id>>, depth: nat)
    requires forall x :: x in names ==> x !in aliases
    ensures Expansion(names, aliases, depth) == Some(names)
  {
    if names != [] {
      var last := |names| - 1;
      assert names == names[..last] + [names[last]];
      NamesStay(names[..last], aliases, depth);
    }
  }

  /** More depth than needed does not change the expansion. */
  lemma {:induction false} ExpansionIgnoresDepth(nodes: seq<Id>, aliases: map<Id, seq<Id>>, d1: nat, d2: nat)
    requires Expansion(nodes, aliases, d1).Some? && Expansion(nodes, aliases, d2).Some?
    ensures Expansion(nodes, aliases, d1) == Expansion(nodes, aliases, d2)
    decreases d1, |nodes|
  {
    if nodes != [] {
      var last := |nodes| - 1;
      ExpansionIgnoresDepth(nodes[..last], aliases, d1, d2);
      if nodes[last] in aliases {
        ExpansionIgnoresDepth(aliases[nodes[last]], aliases, d1 - 1, d2 - 1);
      }
    }
  }

  /** A chain of alias memberships from `w[0]` down to a name that is no alias. */
  ghost predicate AliasPath(aliases: map<Id, seq<Id>>, w: seq<Id>) {
    && |w| > 0 && w[|w| - 1] !in aliases
    && forall i :: 0 <= i < |w| - 1 ==> w[i] in aliases && w[i + 1] in aliases[w[i]]
  }

  /** The node leads down to the concrete name `x`. */
  ghost predicate Reaches(aliases: map<Id, seq<Id>>, node: Id, x: Id) {
    exists w :: AliasPath(aliases, w) && w[0] == node && w[|w| - 1] == x
  }

  lemma {:induction false} ReachesThroughMember(aliases: map<Id, seq<Id>>, node: Id, x: Id)
    requires node in aliases
    ensures Reaches(aliases, node, x) <==> exists y :: y in aliases[node] && Reaches(aliases, y, x)
  {
    if y :| y in aliases[node] && Reaches(aliases, y, x) {
      var w :| AliasPath(aliases, w) && w[0] == y && w[|w| - 1] == x;
      var v := [node] + w;
      assert forall i :: 0 < i < |v| ==> v[i] == w[i - 1];
      assert AliasPath(aliases, v) && v[0] == node && v[|v| - 1] == x;
    }
    if Reaches(aliases, node, x) {
      var v :| AliasPath(aliases, v) && v[0] == node && v[|v| - 1] == x;
      assert |v| > 1 && v[1] in aliases[v[0]];
      var w := v[1..];
      assert AliasPath(aliases, w) && w[0] == v[1] && w[|w| - 1] == x;
    }
  }

  lemma {:induction false} ConcreteReachesItself(aliases: map<Id, seq<Id>>, node: Id, x: Id)
    requires node !in aliases
    ensures Reaches(aliases, node, x) <==> node == x
  {
    assert AliasPath(aliases, [node]);
  }

  /** The expansion lists exactly the concrete names that the nodes reach through aliases. */
  lemma {:induction false} ExpansionReaches(nodes: seq<Id>, aliases: map<Id, seq<Id>>, depth: nat, x: Id)
    requires Expansion(nodes, aliases, depth).Some?
    ensures x in Expansion(nodes, aliases, depth).value <==> exists y :: y in nodes && Reaches(aliases, y, x)
    decreases depth, |nodes|
  {
    hide Reaches;
    if nodes != [] {
      var last := |nodes| - 1;
      var node := nodes[last];
      assert nodes == nodes[..last] + [node];
      ExpansionReaches(nodes[..last], aliases, depth, x);
      if node in aliases {
        ExpansionReaches(aliases[node], aliases, depth - 1, x);
        ReachesThroughMember(aliases, node, x);
      } else {
        ConcreteReachesItself(aliases, node, x);
      }
    }
  }

  lemma {:induction false} ReachedIsConcrete(aliases: map<Id, seq<Id>>, node: Id, x: Id)
    requires Reaches(aliases, node, x)
    ensures x !in aliases
  {}

  /** Expanding an expanded list returns it unchanged and needs no nested call, so no alias is left in it. */
  lemma {:induction false} ExpansionIsFinal(nodes: seq<Id>, aliases: map<Id, seq<Id>>, depth: nat)
    requires Expansion(nodes, aliases, depth).Some?
    ensures Expansion(Expansion(nodes, aliases, depth).value, aliases, 0) == Expansion(nodes, aliases, depth)
    ensures Elems(Expansion(nodes, aliases, depth).value) !! aliases.Keys
  {
    var out := Expansion(nodes, aliases, depth).value;
    forall x | x in out ensures x !in aliases {
      ExpansionReaches(nodes, aliases, depth, x);
      var y :| y in nodes && Reaches(aliases, y, x);
      ReachedIsConcrete(aliases, y, x);
    }
    NamesStay(out, aliases, 0);
  }
}
