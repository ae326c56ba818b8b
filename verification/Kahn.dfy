/** Kahn's algorithm with in-degree counters: the loop the resolver runs with a sorted
    ready list and the loop the manifest checker runs with a FIFO queue. */
module Kahn {
  import opened Ordering
  import opened StageGraph

  // ---------- in-degree counters ----------

  /** Listed predecessors of `x` still in `pool`, each counted as often as it is listed. */
  ghost function Pending(after: seq<Id>, x: Id, pool: set<Id>): nat {
    if after == [] then 0
    else
      var p := after[|after| - 1];
      Pending(after[..|after| - 1], x, pool) + (if p in pool && p != x then 1 else 0)
  }

  lemma {:induction false} PendingAppend(after: seq<Id>, p: Id, x: Id, pool: set<Id>)
    ensures Pending(after + [p], x, pool) == Pending(after, x, pool) + (if p in pool && p != x then 1 else 0)
  {
    assert (after + [p])[..|after|] == after;
  }

  lemma {:induction false} PendingZero(after: seq<Id>, x: Id, pool: set<Id>)
    ensures Pending(after, x, pool) == 0 <==> forall p :: p in after ==> p == x || p !in pool
  {
    if after != [] {
      var last := |after| - 1;
      assert after == after[..last] + [after[last]];
      PendingZero(after[..last], x, pool);
    }
  }

  /** Occurrences of `x` in `s`. */
  ghost function Times(s: seq<Id>, x: Id): nat {
    if s == [] then 0
    else Times(s[..|s| - 1], x) + (if s[|s| - 1] == x then 1 else 0)
  }

  lemma {:induction false} TimesAppend(s: seq<Id>, y: Id, x: Id)
    ensures Times(s + [y], x) == Times(s, x) + (if x == y then 1 else 0)
  {
    assert (s + [y])[..|s|] == s;
  }

  lemma {:induction false} TimesHead(s: seq<Id>, x: Id)
    requires s != []
    ensures Times(s, x) == Times(s[1..], x) + (if x == s[0] then 1 else 0)
  {
    if |s| > 1 {
      TimesHead(s[..|s| - 1], x);
      assert s[..|s| - 1][1..] == s[1..][..|s| - 2];
    }
  }

  lemma {:induction false} TimesIsMultiplicity(s: seq<Id>, x: Id)
    ensures Times(s, x) == multiset(s)[x]
  {
    if s != [] {
      TimesIsMultiplicity(s[..|s| - 1], x);
      assert s == s[..|s| - 1] + [s[|s| - 1]];
    }
  }

  /** How often emitting `p` decrements the counter of `x`. */
  ghost function Flow(after: seq<Id>, p: Id, x: Id): nat {
    if p == x then 0 else Times(after, p)
  }

  lemma {:induction false} PendingRemove(after: seq<Id>, x: Id, pool: set<Id>, p: Id)
    requires p in pool
    ensures Pending(after, x, pool) == Pending(after, x, pool - {p}) + Flow(after, p, x)
  {
    if after != [] {
      var last := |after| - 1;
      assert after == after[..last] + [after[last]];
      PendingRemove(after[..last], x, pool, p);
    }
  }

  // ---------- building the graph ----------

  ghost predicate Degrees(pool: set<Id>, hist: map<Id, seq<Id>>, indegree: map<Id, int>) {
    && hist.Keys == indegree.Keys == pool
    && forall x :: x in pool ==> indegree[x] == Pending(hist[x], x, pool)
  }

  ghost predicate Successors(pool: set<Id>, hist: map<Id, seq<Id>>, edges: map<Id, seq<Id>>) {
    && hist.Keys == edges.Keys == pool
    && (forall p, x :: p in pool && x in pool ==> Times(edges[p], x) == Flow(hist[x], p, x))
    && (forall p :: p in pool ==> Elems(edges[p]) <= pool)
  }

  /** Counters and successor lists record exactly the predecessor lists in `hist`. */
  ghost predicate Built(pool: set<Id>, hist: map<Id, seq<Id>>, indegree: map<Id, int>, edges: map<Id, seq<Id>>) {
    Degrees(pool, hist, indegree) && Successors(pool, hist, edges)
  }

  method AddEdge(ghost pool: set<Id>, ghost hist: map<Id, seq<Id>>, p: Id, x: Id,
                 indegree: map<Id, int>, edges: map<Id, seq<Id>>)
    returns (ghost hist': map<Id, seq<Id>>, indegree': map<Id, int>, edges': map<Id, seq<Id>>)
    requires Built(pool, hist, indegree, edges) && x in pool
    ensures hist' == hist[x := hist[x] + [p]]
    ensures Built(pool, hist', indegree', edges')
    ensures edges' == if p in edges && p != x then edges[p := edges[p] + [x]] else edges
  {
    hist' := hist[x := hist[x] + [p]];
    if p in edges && p != x {
      edges' := edges[p := edges[p] + [x]];
      indegree' := indegree[x := indegree[x] + 1];
    } else {
      indegree', edges' := indegree, edges;
    }
    NewDegree(pool, hist, p, x, indegree);
    NewEdge(pool, hist, p, x, edges);
  }

  lemma {:induction false} NewDegree(pool: set<Id>, hist: map<Id, seq<Id>>, p: Id, x: Id, indegree: map<Id, int>)
    requires Degrees(pool, hist, indegree) && x in pool
    ensures Degrees(pool, hist[x := hist[x] + [p]],
                    if p in pool && p != x then indegree[x := indegree[x] + 1] else indegree)
  {
    var hist' := hist[x := hist[x] + [p]];
    var degree := if p in pool && p != x then indegree[x := indegree[x] + 1] else indegree;
    KeysOfUpdate(hist, x, hist[x] + [p]);
    KeysOfUpdate(indegree, x, indegree[x] + 1);
    forall y | y in pool ensures degree[y] == Pending(hist'[y], y, pool) {
      assert indegree[y] == Pending(hist[y], y, pool);
      PendingAppend(hist[x], p, x, pool);
    }
  }

  lemma {:induction false} NewEdge(pool: set<Id>, hist: map<Id, seq<Id>>, p: Id, x: Id, edges: map<Id, seq<Id>>)
    requires Successors(pool, hist, edges) && x in pool
    ensures Successors(pool, hist[x := hist[x] + [p]],
                       if p in pool && p != x then edges[p := edges[p] + [x]] else edges)
  {
    var hist', edges' := hist[x := hist[x] + [p]], if p in pool && p != x then edges[p := edges[p] + [x]] else edges;
    forall q, y | q in pool && y in pool ensures Times(edges'[q], y) == Flow(hist'[y], q, y) {
      assert Times(edges[q], y) == Flow(hist[y], q, y);
      if y == x { TimesAppend(hist[x], p, q); }
      if q == p { TimesAppend(edges[q], x, y); }
    }
    forall q | q in pool ensures Elems(edges'[q]) <= pool {
      assert Elems(edges[q]) <= pool;
    }
    KeysOfUpdate(hist, x, hist[x] + [p]);
    if p in pool { KeysOfUpdate(edges, p, edges[p] + [x]); }
  }

  /** `hist` holds the predecessor lists that the first `i` rows contribute. */
  ghost predicate History(m: Manifest, i: nat, hist: map<Id, seq<Id>>)
    requires i <= |m|
  {
    hist.Keys == Known(m) && forall x :: x in Known(m) ==> hist[x] == After(m[..i], x)
  }

  lemma {:induction false} HistoryNextRow(m: Manifest, i: nat, hist: map<Id, seq<Id>>, hist': map<Id, seq<Id>>)
    requires i < |m| && History(m, i, hist)
    requires m[i].id in Known(m) && hist' == hist[m[i].id := hist[m[i].id] + m[i].after]
    ensures History(m, i + 1, hist')
  {
    assert m[..i + 1][..i] == m[..i];
    KeysOfUpdate(hist, m[i].id, hist[m[i].id] + m[i].after);
  }

  lemma {:induction false} EmptyGraph(m: Manifest, hist: map<Id, seq<Id>>, indegree: map<Id, int>, edges: map<Id, seq<Id>>)
    requires hist.Keys == indegree.Keys == edges.Keys == Known(m)
    requires forall x :: x in Known(m) ==> hist[x] == [] && indegree[x] == 0 && edges[x] == []
    ensures History(m, 0, hist) && Built(Known(m), hist, indegree, edges)
  {}

  ghost predicate ByPosition(ids: seq<Id>, x: Id, y: Id) { Rank(ids, x) <= Rank(ids, y) }

  ghost predicate InRank(ids: seq<Id>, s: seq<Id>) {
    forall i, j :: 0 <= i < j < |s| ==> ByPosition(ids, s[i], s[j])
  }

  /** Every successor list names its stages in manifest order, and only stages among the first `n`. */
  ghost predicate RowOrdered(ids: seq<Id>, n: nat, edges: map<Id, seq<Id>>) {
    forall p :: p in edges ==> InRank(ids, edges[p]) && forall x :: x in edges[p] ==> Rank(ids, x) < n
  }

  lemma {:induction false} RowOrderedAppend(ids: seq<Id>, n: nat, edges: map<Id, seq<Id>>, p: Id, x: Id)
    requires p in edges && RowOrdered(ids, n, edges) && Rank(ids, x) + 1 == n
    ensures RowOrdered(ids, n, edges[p := edges[p] + [x]])
  {
    hide Rank;
    assert forall i :: 0 <= i < |edges[p]| ==> edges[p][i] in edges[p];
  }

  lemma {:induction false} RowOrderedLater(ids: seq<Id>, n: nat, edges: map<Id, seq<Id>>)
    requires RowOrdered(ids, n, edges)
    ensures RowOrdered(ids, n + 1, edges)
  {
    hide Rank;
  }

  method AddRow(ghost ids: seq<Id>, ghost n: nat, ghost pool: set<Id>, ghost hist: map<Id, seq<Id>>, row: Stage,
                indegree: map<Id, int>, edges: map<Id, seq<Id>>)
    returns (ghost hist': map<Id, seq<Id>>, indegree': map<Id, int>, edges': map<Id, seq<Id>>)
    requires Built(pool, hist, indegree, edges) && row.id in pool && row.id in hist
    ensures hist' == hist[row.id := hist[row.id] + row.after]
    ensures Built(pool, hist', indegree', edges')
    ensures RowOrdered(ids, n, edges) && Rank(ids, row.id) + 1 == n ==> RowOrdered(ids, n, edges')
  {
    hide Built, RowOrdered;
    hist', indegree', edges' := hist, indegree, edges;
    ghost var before := hist[row.id];
    assert before + row.after[..0] == before;
    for j := 0 to |row.after|
      invariant hist' == hist[row.id := before + row.after[..j]]
      invariant Built(pool, hist', indegree', edges')
      invariant RowOrdered(ids, n, edges) && Rank(ids, row.id) + 1 == n ==> RowOrdered(ids, n, edges')
    {
      if RowOrdered(ids, n, edges') && Rank(ids, row.id) + 1 == n && row.after[j] in edges' {
        RowOrderedAppend(ids, n, edges', row.after[j], row.id);
      }
      PrefixStep(before, row.after, j);
      UpdateTwice(hist, row.id, before + row.after[..j], before + row.after[..j + 1]);
      hist', indegree', edges' := AddEdge(pool, hist', row.after[j], row.id, indegree', edges');
    }
    assert row.after[..|row.after|] == row.after;
  }

  method BuildGraph(m: Manifest) returns (ghost hist: map<Id, seq<Id>>, indegree: map<Id, int>, edges: map<Id, seq<Id>>)
    ensures History(m, |m|, hist) && Built(Known(m), hist, indegree, edges)
    ensures NoDup(StageIds(m)) ==> RowOrdered(StageIds(m), |m|, edges)
  {
    hide Built, RowOrdered;
    var ids := StageIds(m);
    indegree := map x | x in ids :: 0;
    edges := map x | x in ids :: [];
    hist := map x | x in Known(m) :: [];
    EmptyGraph(m, hist, indegree, edges);
    EmptyRowOrdered(ids, edges);
    for i := 0 to |m|
      invariant History(m, i, hist)
      invariant Built(Known(m), hist, indegree, edges)
      invariant NoDup(ids) ==> RowOrdered(ids, i, edges)
    {
      assert ids[i] == m[i].id;
      ghost var before := hist;
      if NoDup(ids) {
        RowOrderedLater(ids, i, edges);
        RankOfPosition(ids, i);
      }
      hist, indegree, edges := AddRow(ids, i + 1, Known(m), hist, m[i], indegree, edges);
      HistoryNextRow(m, i, before, hist);
    }
  }

  lemma {:induction false} EmptyRowOrdered(ids: seq<Id>, edges: map<Id, seq<Id>>)
    requires forall p :: p in edges ==> edges[p] == []
    ensures RowOrdered(ids, 0, edges)
  {}

  // ---------- the main loop ----------

  ghost predicate Counted(m: Manifest, pool: set<Id>, rest: set<Id>, todo: seq<Id>, indegree: map<Id, int>) {
    && indegree.Keys == pool
    && forall x :: x in pool ==> indegree[x] == Pending(After(m, x), x, rest) + Times(todo, x)
  }

  /** The waiting list holds, once each, the unemitted stages whose counter is zero. */
  ghost predicate Waiting(rest: set<Id>, indegree: map<Id, int>, waiting: seq<Id>) {
    && NoDup(waiting)
    && forall x :: x in waiting <==> x in rest && x in indegree && indegree[x] == 0
  }

  /** Everything emitted so far was emitted by the greedy rule. */
  ghost predicate Emitted(m: Manifest, pool: set<Id>, leq: (Id, Id) -> bool, out: seq<Id>) {
    && NoDup(out) && Elems(out) <= pool
    && (forall k :: 0 <= k < |out| ==> Ready(m, Left(pool, out, k), out[k]))
    && (forall k, y :: 0 <= k < |out| && Ready(m, Left(pool, out, k), y) ==> leq(out[k], y))
  }

  /** Mid-step state: `todo` lists the decrements the last emission still has to make. */
  ghost predicate StepState(m: Manifest, out: seq<Id>, waiting: seq<Id>, todo: seq<Id>, indegree: map<Id, int>) {
    var rest := Known(m) - Elems(out);
    && Counted(m, Known(m), rest, todo, indegree)
    && Elems(todo) <= Known(m)
    && (forall x :: x in out && x in indegree ==> indegree[x] == 0)
    && Waiting(rest, indegree, waiting)
  }

  /** The successor lists match the predecessor lists of the manifest. */
  ghost predicate Mirrors(m: Manifest, edges: map<Id, seq<Id>>) {
    && edges.Keys == Known(m)
    && (forall p, x :: p in Known(m) && x in Known(m) ==> Times(edges[p], x) == Flow(After(m, x), p, x))
    && (forall p :: p in Known(m) ==> Elems(edges[p]) <= Known(m))
  }

  ghost predicate LoopState(m: Manifest, leq: (Id, Id) -> bool, out: seq<Id>, waiting: seq<Id>,
                            indegree: map<Id, int>, edges: map<Id, seq<Id>>)
  {
    && Emitted(m, Known(m), leq, out)
    && StepState(m, out, waiting, [], indegree)
    && Mirrors(m, edges)
  }

  /** A zero counter means ready, in both directions. */
  lemma {:induction false} ZeroIsReady(m: Manifest, rest: set<Id>, indegree: map<Id, int>, waiting: seq<Id>)
    requires rest <= Known(m) && Counted(m, Known(m), rest, [], indegree) && Waiting(rest, indegree, waiting)
    ensures forall x :: x in waiting <==> Ready(m, rest, x)
  {
    forall x | x in rest ensures indegree[x] == 0 <==> Ready(m, rest, x) {
      PendingZero(After(m, x), x, rest);
    }
  }

  /** Popping `current` leaves every counter one decrement per successor entry too high. */
  lemma {:induction false} PopCounts(m: Manifest, rest: set<Id>, current: Id, succs: seq<Id>, indegree: map<Id, int>)
    requires rest <= Known(m) && current in rest
    requires Counted(m, Known(m), rest, [], indegree)
    requires forall x :: x in Known(m) ==> Times(succs, x) == Flow(After(m, x), current, x)
    ensures Counted(m, Known(m), rest - {current}, succs, indegree)
  {
    forall x | x in Known(m)
      ensures indegree[x] == Pending(After(m, x), x, rest - {current}) + Times(succs, x)
    {
      PendingRemove(After(m, x), x, rest, current);
    }
  }

  lemma {:induction false} Emit(m: Manifest, pool: set<Id>, leq: (Id, Id) -> bool, out: seq<Id>, current: Id)
    requires Emitted(m, pool, leq, out)
    requires Ready(m, pool - Elems(out), current)
    requires forall y :: Ready(m, pool - Elems(out), y) ==> leq(current, y)
    ensures Emitted(m, pool, leq, out + [current])
    ensures pool - Elems(out + [current]) == (pool - Elems(out)) - {current}
  {
    var out' := out + [current];
    assert Elems(out') == Elems(out) + {current};
    forall k | 0 <= k < |out'|
      ensures Left(pool, out', k) == if k < |out| then Left(pool, out, k) else pool - Elems(out)
    {
      if k < |out| { assert out'[..k] == out[..k]; } else { assert out'[..k] == out; }
    }
  }

  /** A successor entry still to be processed keeps its stage out of the waiting list. */
  lemma {:induction false} Decrement(m: Manifest, rest: set<Id>, todo: seq<Id>, indegree: map<Id, int>)
    requires Counted(m, Known(m), rest, todo, indegree)
    requires todo != [] && todo[0] in Known(m)
    ensures indegree[todo[0]] > 0
    ensures Counted(m, Known(m), rest, todo[1..], indegree[todo[0] := indegree[todo[0]] - 1])
  {
    hide Pending, Times, After, Known;
    var x := todo[0];
    TimesHead(todo, x);
    assert indegree[x] > 0;
    var degree := indegree[x := indegree[x] - 1];
    KeysOfUpdate(indegree, x, indegree[x] - 1);
    forall y | y in Known(m) ensures degree[y] == Pending(After(m, y), y, rest) + Times(todo[1..], y) {
      TimesHead(todo, y);
      assert indegree[y] == Pending(After(m, y), y, rest) + Times(todo, y);
    }
  }

  lemma {:induction false} SortKeepsTimes(s: seq<Id>, leq: (Id, Id) -> bool)
    ensures forall x :: Times(Sort(s, leq), x) == Times(s, x)
  {
    forall x ensures Times(Sort(s, leq), x) == Times(s, x) {
      TimesIsMultiplicity(Sort(s, leq), x);
      TimesIsMultiplicity(s, x);
    }
  }

  /** The ids whose counter is zero, in dict order. */
  function Zeros(ids: seq<Id>, indegree: map<Id, int>): (r: seq<Id>)
    ensures forall x :: x in r <==> x in ids && x in indegree && indegree[x] == 0
    ensures NoDup(ids) ==> NoDup(r)
  {
    if ids == [] then []
    else
      var last := |ids| - 1;
      assert ids == ids[..last] + [ids[last]];
      var front := Zeros(ids[..last], indegree);
      if ids[last] in indegree && indegree[ids[last]] == 0 then front + [ids[last]] else front
  }

  lemma {:induction false} Begin(m: Manifest, leq: (Id, Id) -> bool, hist: map<Id, seq<Id>>,
                                 waiting: seq<Id>, indegree: map<Id, int>, edges: map<Id, seq<Id>>)
    requires History(m, |m|, hist) && Built(Known(m), hist, indegree, edges)
    requires NoDup(waiting) && forall x :: x in waiting <==> x in Known(m) && indegree[x] == 0
    ensures LoopState(m, leq, [], waiting, indegree, edges)
  {
    assert m[..|m|] == m;
    assert Known(m) - Elems<Id>([]) == Known(m);
  }

  lemma {:induction false} HeadIsKnown(m: Manifest, leq: (Id, Id) -> bool, out: seq<Id>, waiting: seq<Id>,
                                       indegree: map<Id, int>, edges: map<Id, seq<Id>>)
    requires LoopState(m, leq, out, waiting, indegree, edges) && waiting != []
    ensures waiting[0] in edges
  {
    assert waiting[0] in waiting;
  }

  lemma {:induction false} Pop(m: Manifest, leq: (Id, Id) -> bool, out: seq<Id>, waiting: seq<Id>, todo: seq<Id>,
                               indegree: map<Id, int>, edges: map<Id, seq<Id>>)
    requires LoopState(m, leq, out, waiting, indegree, edges) && waiting != []
    requires forall y :: y in waiting ==> leq(waiting[0], y)
    requires waiting[0] in edges && Elems(todo) == Elems(edges[waiting[0]])
    requires forall x :: Times(todo, x) == Times(edges[waiting[0]], x)
    ensures Emitted(m, Known(m), leq, out + [waiting[0]])
    ensures StepState(m, out + [waiting[0]], waiting[1..], todo, indegree)
    ensures Mirrors(m, edges)
    ensures |out| < |Known(m)|
  {
    var pool, current := Known(m), waiting[0];
    var rest := pool - Elems(out);
    assert current in waiting;
    ZeroIsReady(m, rest, indegree, waiting);
    Emit(m, pool, leq, out, current);
    PopCounts(m, rest, current, todo, indegree);
    PopWaiting(rest, indegree, waiting);
    NoDupCardinality(out + [current]);
    SubsetCardinality(Elems(out + [current]), pool);
  }

  lemma {:induction false} PopWaiting(rest: set<Id>, indegree: map<Id, int>, waiting: seq<Id>)
    requires Waiting(rest, indegree, waiting) && waiting != []
    ensures Waiting(rest - {waiting[0]}, indegree, waiting[1..])
  {
    assert waiting == [waiting[0]] + waiting[1..];
    forall x ensures x in waiting[1..] <==> x in rest - {waiting[0]} && x in indegree && indegree[x] == 0 {
      assert x in waiting <==> x == waiting[0] || x in waiting[1..];
    }
  }

  /** The list after a decrement: the stage joins, in some position, exactly when its counter was one. */
  ghost predicate Joined(waiting: seq<Id>, x: Id, count: int, waiting': seq<Id>) {
    if count == 1 then
      Elems(waiting') == Elems(waiting) + {x} && (NoDup(waiting + [x]) ==> NoDup(waiting'))
    else
      waiting' == waiting
  }

  lemma {:induction false} RelaxWaiting(rest: set<Id>, indegree: map<Id, int>, waiting: seq<Id>, x: Id, waiting': seq<Id>)
    requires Waiting(rest, indegree, waiting)
    requires x in indegree && x in rest && indegree[x] > 0 && Joined(waiting, x, indegree[x], waiting')
    ensures Waiting(rest, indegree[x := indegree[x] - 1], waiting')
  {
    var degree := indegree[x := indegree[x] - 1];
    assert x !in waiting;
    assert NoDup(waiting + [x]);
    forall y ensures y in waiting' <==> y in rest && y in degree && degree[y] == 0 {
      assert y in waiting' <==> y in Elems(waiting');
      assert y in waiting <==> y in Elems(waiting);
    }
  }

  lemma {:induction false} NextSuccessor(m: Manifest, out: seq<Id>, waiting: seq<Id>, todo: seq<Id>, indegree: map<Id, int>)
    requires StepState(m, out, waiting, todo, indegree) && todo != []
    ensures todo[0] in indegree
  {
    assert todo[0] in todo;
  }

  /** One decrement: the successor was not waiting, and it starts waiting exactly when its counter reaches zero. */
  lemma {:induction false} Relax(m: Manifest, out: seq<Id>, waiting: seq<Id>, x: Id, todo: seq<Id>,
                                 indegree: map<Id, int>, waiting': seq<Id>, indegree': map<Id, int>)
    requires StepState(m, out, waiting, [x] + todo, indegree) && x in indegree
    requires Joined(waiting, x, indegree[x], waiting') && indegree' == indegree[x := indegree[x] - 1]
    ensures StepState(m, out, waiting', todo, indegree')
  {
    hide Pending, Times, After, Counted, Waiting, Joined;
    var rest := Known(m) - Elems(out);
    assert ([x] + todo)[1..] == todo;
    assert x in [x] + todo;
    Decrement(m, rest, [x] + todo, indegree);
    RelaxWaiting(rest, indegree, waiting, x, waiting');
    assert forall y :: y in todo ==> y in [x] + todo;
  }

  lemma {:induction false} Finish(m: Manifest, leq: (Id, Id) -> bool, out: seq<Id>, indegree: map<Id, int>, edges: map<Id, seq<Id>>)
    requires LoopState(m, leq, out, [], indegree, edges)
    ensures GreedyRun(m, Known(m), leq, out)
  {
    assert out[..|out|] == out;
    ZeroIsReady(m, Known(m) - Elems(out), indegree, []);
  }

  // ---------- the order of the waiting list ----------

  /** Which of two waiting stages became ready first; with a repeated id nothing is claimed. */
  ghost function Turn(m: Manifest, out: seq<Id>): (Id, Id) -> bool {
    (x, y) => NoDup(StageIds(m)) ==> Before(m, Known(m), StageIds(m), out, |out|, x, y)
  }

  ghost function Position(m: Manifest): (Id, Id) -> bool {
    (x, y) => NoDup(StageIds(m)) ==> ByPosition(StageIds(m), x, y)
  }

  /** Every stage emitted so far was the first of its priority to have become ready. */
  ghost predicate Served(m: Manifest, leq: (Id, Id) -> bool, out: seq<Id>) {
    NoDup(StageIds(m)) ==> FirstCome(m, Known(m), leq, StageIds(m), out)
  }

  lemma {:induction false} WaitingIsReady(m: Manifest, out: seq<Id>, waiting: seq<Id>, todo: seq<Id>, indegree: map<Id, int>)
    requires StepState(m, out, waiting, todo, indegree)
    ensures forall y :: y in waiting ==> Ready(m, Left(Known(m), out, |out|), y)
  {
    assert out[..|out|] == out;
    forall y | y in waiting ensures Ready(m, Known(m) - Elems(out), y) {
      PendingZero(After(m, y), y, Known(m) - Elems(out));
    }
  }

  lemma {:induction false} NotSooner(m: Manifest, y: Id, x: Id)
    requires Ready(m, Known(m), x)
    ensures !Sooner(m, Known(m), [], 0, y, x)
  {
    assert Left(Known(m), [], 0) == Known(m);
  }

  lemma {:induction false} ZerosInRank(ids: seq<Id>, some: seq<Id>, indegree: map<Id, int>)
    requires NoDup(ids) && some <= ids
    ensures InRank(ids, Zeros(some, indegree))
  {
    if some != [] {
      var last := |some| - 1;
      ZerosInRank(ids, some[..last], indegree);
      var front := Zeros(some[..last], indegree);
      RankOfPosition(ids, last);
      forall i | 0 <= i < |front| ensures ByPosition(ids, front[i], some[last]) {
        assert front[i] in front;
        var k :| 0 <= k < last && some[..last][k] == front[i];
        RankOfPosition(ids, k);
      }
    }
  }

  lemma {:induction false} StartInTurn(m: Manifest, leq: (Id, Id) -> bool, zeros: seq<Id>, indegree: map<Id, int>)
    requires zeros == Zeros(Dedup(StageIds(m)), indegree)
    requires forall x :: x in zeros ==> Ready(m, Known(m), x)
    ensures TieOrdered(zeros, leq, Turn(m, [])) && Served(m, leq, [])
  {
    hide Zeros, Ready, Sooner;
    if NoDup(StageIds(m)) {
      ZerosInRank(StageIds(m), StageIds(m), indegree);
      forall i, j | 0 <= i < j < |zeros| ensures Turn(m, [])(zeros[i], zeros[j]) {
        assert ByPosition(StageIds(m), zeros[i], zeros[j]);
        assert zeros[i] in zeros;
        NotSooner(m, zeros[j], zeros[i]);
      }
    }
  }

  /** An emission does not change who was ready sooner. */
  lemma {:induction false} SoonerLater(m: Manifest, out: seq<Id>, current: Id, x: Id, y: Id)
    requires Ready(m, Left(Known(m), out, |out|), y) && y != current
    ensures Sooner(m, Known(m), out, |out|, x, y) <==> Sooner(m, Known(m), out + [current], |out| + 1, x, y)
  {
    var pool, more := Known(m), out + [current];
    assert more[..|out|] == out[..|out|];
    SoonerByPrefix(m, pool, out, more, |out|, x, y);
    assert more[..|out| + 1] == more && out[..|out|] == out;
    ElemsAppend(out, current);
    assert Left(pool, more, |out| + 1) == Left(pool, out, |out|) - {current};
    StaysReady(m, pool, more, |out|, |out| + 1, y);
    hide Ready;
    if Sooner(m, pool, more, |out| + 1, x, y) {
      var j :| 0 <= j <= |out| + 1 && Ready(m, Left(pool, more, j), x) && !Ready(m, Left(pool, more, j), y);
      assert j <= |out|;
    }
  }

  lemma {:induction false} PopInTurn(m: Manifest, leq: (Id, Id) -> bool, out: seq<Id>, waiting: seq<Id>)
    requires waiting != [] && NoDup(waiting) && TieOrdered(waiting, leq, Turn(m, out))
    requires forall y :: y in waiting ==> Ready(m, Left(Known(m), out, |out|), y)
    ensures TieOrdered(waiting[1..], leq, Turn(m, out + [waiting[0]]))
  {
    var more, tail := out + [waiting[0]], waiting[1..];
    hide Ready, Sooner, Rank, Left;
    forall i, j | 0 <= i < j < |tail| && leq(tail[i], tail[j]) && leq(tail[j], tail[i])
      ensures Turn(m, more)(tail[i], tail[j])
    {
      var x, y := tail[i], tail[j];
      assert x == waiting[i + 1] && y == waiting[j + 1];
      assert Turn(m, out)(x, y);
      SoonerLater(m, out, waiting[0], x, y);
      SoonerLater(m, out, waiting[0], y, x);
    }
  }

  lemma {:induction false} PopServed(m: Manifest, leq: (Id, Id) -> bool, out: seq<Id>, waiting: seq<Id>)
    requires waiting != [] && TieOrdered(waiting, leq, Turn(m, out)) && Served(m, leq, out)
    requires forall y :: y in waiting <==> Ready(m, Left(Known(m), out, |out|), y)
    requires forall y :: y in waiting ==> leq(waiting[0], y)
    ensures Served(m, leq, out + [waiting[0]])
  {
    var pool, ids, more := Known(m), StageIds(m), out + [waiting[0]];
    hide Ready, Sooner, Rank, Left;
    if NoDup(ids) {
      forall k, y | 0 <= k < |more| && Ready(m, Left(pool, more, k), y) && leq(y, more[k])
        ensures Before(m, pool, ids, more, k, more[k], y)
      {
        assert more[..k] == out[..k];
        LeftByPrefix(pool, out, more, k);
        SoonerByPrefix(m, pool, out, more, k, more[k], y);
        SoonerByPrefix(m, pool, out, more, k, y, more[k]);
        if k < |out| {
          assert Before(m, pool, ids, out, k, out[k], y);
        } else {
          var i :| 0 <= i < |waiting| && waiting[i] == y;
          if i == 0 { NeverSooner(m, pool, out, k, y); } else { assert Turn(m, out)(waiting[0], y); }
        }
      }
    }
  }

  lemma {:induction false} LeftByPrefix(pool: set<Id>, a: seq<Id>, b: seq<Id>, k: nat)
    requires k <= |a| && k <= |b| && a[..k] == b[..k]
    ensures Left(pool, a, k) == Left(pool, b, k)
  {}

  lemma {:induction false} NeverSooner(m: Manifest, pool: set<Id>, out: seq<Id>, k: nat, x: Id)
    requires k <= |out|
    ensures !Sooner(m, pool, out, k, x, x)
  {}

  /** The last emitted stage is a real predecessor of `x`, which was therefore not ready before. */
  ghost predicate Released(m: Manifest, out: seq<Id>, x: Id) {
    out != [] && Pred(m, Known(m), out[|out| - 1], x)
  }

  lemma {:induction false} NotReadyBefore(m: Manifest, out: seq<Id>, x: Id, j: nat)
    requires NoDup(out) && Released(m, out, x) && j < |out|
    ensures !Ready(m, Left(Known(m), out, j), x)
  {
    var p := out[|out| - 1];
    assert p !in out[..j];
    assert p in Left(Known(m), out, j);
  }

  /** Entries of the waiting list were there before the last emission or come from the successors in `done`. */
  ghost predicate OldOrDone(m: Manifest, out: seq<Id>, waiting: seq<Id>, done: seq<Id>) {
    out != [] && forall y :: y in waiting ==> Ready(m, Left(Known(m), out, |out| - 1), y) || y in done
  }

  /** A stage that just became ready belongs behind every waiting stage of equal priority. */
  lemma {:induction false} NewcomerBehind(m: Manifest, leq: (Id, Id) -> bool, out: seq<Id>, waiting: seq<Id>, succ: seq<Id>, j: nat)
    requires NoDup(out) && j < |succ| && Released(m, out, succ[j])
    requires TieOrdered(succ, leq, Position(m)) && TieOrdered(waiting, leq, Turn(m, out))
    requires OldOrDone(m, out, waiting, succ[..j])
    requires forall y :: y in waiting + [succ[j]] ==> Ready(m, Left(Known(m), out, |out|), y)
    ensures TieOrdered(waiting + [succ[j]], leq, Turn(m, out))
  {
    var x := succ[j];
    hide Ready, Rank, Left;
    forall y | y in waiting && leq(y, x) && leq(x, y) ensures Turn(m, out)(y, x) {
      NotReadyBefore(m, out, x, |out| - 1);
      if Ready(m, Left(Known(m), out, |out| - 1), y) {
        assert Sooner(m, Known(m), out, |out|, y, x);
      } else {
        var i :| 0 <= i < j && succ[..j][i] == y;
        assert Position(m)(succ[i], succ[j]);
        NewcomerNotSooner(m, out, x, y);
      }
    }
  }

  lemma {:induction false} NewcomerNotSooner(m: Manifest, out: seq<Id>, x: Id, y: Id)
    requires NoDup(out) && Released(m, out, x) && Ready(m, Left(Known(m), out, |out|), y)
    ensures !Sooner(m, Known(m), out, |out|, x, y)
  {
    hide Ready, Left;
    forall j | 0 <= j <= |out| ensures !(Ready(m, Left(Known(m), out, j), x) && !Ready(m, Left(Known(m), out, j), y)) {
      if j < |out| { NotReadyBefore(m, out, x, j); }
    }
  }

  /** What a pass over the successors of the last emitted stage may rely on. */
  ghost predicate Relaxing(m: Manifest, leq: (Id, Id) -> bool, out: seq<Id>, succ: seq<Id>) {
    && NoDup(out) && (forall x :: x in succ ==> Released(m, out, x))
    && TieOrdered(succ, leq, Position(m))
  }

  /** The newcomer goes to the end of the list and is sorted into its place. */
  lemma {:induction false} JoinInTurn(m: Manifest, leq: (Id, Id) -> bool, out: seq<Id>, succ: seq<Id>, j: nat, waiting: seq<Id>,
                                      joined: seq<Id>, waiting': seq<Id>)
    requires Relaxing(m, leq, out, succ) && j < |succ|
    requires TieOrdered(waiting, leq, Turn(m, out)) && OldOrDone(m, out, waiting, succ[..j])
    requires joined == waiting + [succ[j]] && (waiting' == Sort(joined, leq) || waiting' == joined)
    requires forall y :: y in waiting' ==> Ready(m, Left(Known(m), out, |out|), y)
    ensures TieOrdered(waiting', leq, Turn(m, out)) && OldOrDone(m, out, waiting', succ[..j + 1])
  {
    hide Ready, Left, Released;
    SameMembers(waiting', joined, leq);
    assert succ[..j + 1] == succ[..j] + [succ[j]];
    NewcomerBehind(m, leq, out, waiting, succ, j);
    SortStable(joined, leq, Turn(m, out));
  }

  lemma {:induction false} NobodyJoins(m: Manifest, out: seq<Id>, succ: seq<Id>, j: nat, waiting: seq<Id>)
    requires j < |succ| && OldOrDone(m, out, waiting, succ[..j])
    ensures OldOrDone(m, out, waiting, succ[..j + 1])
  {
    hide Ready, Left;
    assert succ[..j + 1] == succ[..j] + [succ[j]];
  }

  method RelaxSorted(ghost m: Manifest, leq: (Id, Id) -> bool, ghost out: seq<Id>, successors: seq<Id>,
                     waiting: seq<Id>, indegree: map<Id, int>)
    returns (ready: seq<Id>, degree: map<Id, int>)
    requires TotalPreorder(leq) && Sorted(waiting, leq)
    requires StepState(m, out, waiting, successors, indegree)
    requires Relaxing(m, leq, out, successors) && TieOrdered(waiting, leq, Turn(m, out)) && OldOrDone(m, out, waiting, [])
    ensures StepState(m, out, ready, [], degree) && Sorted(ready, leq)
    ensures TieOrdered(ready, leq, Turn(m, out))
  {
    hide StepState, Relaxing, TieOrdered, OldOrDone, Turn, Sorted, TotalPreorder, Ready, Left, Sort, Known;
    ready, degree := waiting, indegree;
    for j := 0 to |successors|
      invariant StepState(m, out, ready, successors[j..], degree) && Sorted(ready, leq)
      invariant TieOrdered(ready, leq, Turn(m, out)) && OldOrDone(m, out, ready, successors[..j])
    {
      var x := successors[j];
      assert successors[j..] == [x] + successors[j + 1..];
      ghost var ready0, degree0 := ready, degree;
      NextSuccessor(m, out, ready, successors[j..], degree);
      degree := degree[x := degree[x] - 1];
      if degree[x] == 0 {
        ready := Sort(ready + [x], leq);
        SortKeeps(ready0 + [x], leq);
        SortSorted(ready0 + [x], leq);
        ElemsAppend(ready0, x);
      }
      Relax(m, out, ready0, x, successors[j + 1..], degree0, ready, degree);
      WaitingIsReady(m, out, ready, successors[j + 1..], degree);
      if degree[x] == 0 {
        JoinInTurn(m, leq, out, successors, j, ready0, ready0 + [x], ready);
      } else {
        NobodyJoins(m, out, successors, j, ready);
      }
    }
  }

  /** When nothing waits, the positive counters are exactly the unemitted stages. */
  lemma {:induction false} Blocked(m: Manifest, out: seq<Id>, indegree: map<Id, int>, edges: map<Id, seq<Id>>)
    requires LoopState(m, Anything, out, [], indegree, edges)
    ensures indegree.Keys == Known(m)
    ensures forall x :: x in Known(m) ==> (indegree[x] > 0 <==> x !in out)
  {
    forall x | x in Known(m) ensures indegree[x] > 0 <==> x !in out {
      assert indegree[x] == Pending(After(m, x), x, Known(m) - Elems(out)) + Times([], x);
    }
  }

  /** The resolver's loop: the ready list is kept sorted and its first entry is emitted. */
  method SortedKahn(m: Manifest, leq: (Id, Id) -> bool) returns (ordered: seq<Id>)
    requires TotalPreorder(leq)
    ensures GreedyRun(m, Known(m), leq, ordered)
    ensures NoDup(StageIds(m)) ==> FirstCome(m, Known(m), leq, StageIds(m), ordered)
  {
    hide StepState, Emitted, Mirrors, Built, History, Sorted, RowOrdered, Relaxing, TieOrdered, OldOrDone, Turn, FirstCome;
    ghost var hist;
    var indegree, edges;
    hist, indegree, edges := BuildGraph(m);
    var zeros := Zeros(Dedup(StageIds(m)), indegree);
    var ready := Sort(zeros, leq);
    SortKeeps(zeros, leq);
    SortSorted(zeros, leq);
    BeginSorted(m, leq, hist, zeros, ready, indegree, edges);
    BeginInTurn(m, leq, zeros, ready, indegree, edges);
    ordered := [];
    while ready != []
      invariant LoopState(m, leq, ordered, ready, indegree, edges)
      invariant Sorted(ready, leq)
      invariant Served(m, leq, ordered) && TieOrdered(ready, leq, Turn(m, ordered))
      decreases |Known(m)| - |ordered|
    {
      HeadIsLeast(ready, leq);
      HeadIsKnown(m, leq, ordered, ready, indegree, edges);
      var current := ready[0];
      var successors := Sort(edges[current], leq);
      SortKeeps(edges[current], leq);
      SortKeepsTimes(edges[current], leq);
      BeginRelaxing(m, leq, ordered, ready, successors, indegree, edges);
      Pop(m, leq, ordered, ready, successors, indegree, edges);
      ordered, ready := ordered + [current], ready[1..];
      ready, indegree := RelaxSorted(m, leq, ordered, successors, ready, indegree);
    }
    Finish(m, leq, ordered, indegree, edges);
  }

  lemma {:induction false} HeadIsLeast(s: seq<Id>, leq: (Id, Id) -> bool)
    requires TotalPreorder(leq) && Sorted(s, leq) && s != []
    ensures forall y :: y in s ==> leq(s[0], y)
    ensures Sorted(s[1..], leq)
  {
    assert leq(s[0], s[0]);
  }

  lemma {:induction false} BeginSorted(m: Manifest, leq: (Id, Id) -> bool, hist: map<Id, seq<Id>>, zeros: seq<Id>,
                                       waiting: seq<Id>, indegree: map<Id, int>, edges: map<Id, seq<Id>>)
    requires History(m, |m|, hist) && Built(Known(m), hist, indegree, edges)
    requires zeros == Zeros(Dedup(StageIds(m)), indegree)
    requires Elems(waiting) == Elems(zeros) && (NoDup(zeros) ==> NoDup(waiting))
    ensures LoopState(m, leq, [], waiting, indegree, edges)
  {
    forall x ensures x in waiting <==> x in Known(m) && indegree[x] == 0 {
      assert x in waiting <==> x in Elems(waiting);
      assert x in zeros <==> x in Elems(zeros);
      assert x in Dedup(StageIds(m)) <==> x in Elems(Dedup(StageIds(m)));
    }
    Begin(m, leq, hist, waiting, indegree, edges);
  }

  lemma {:induction false} BeginInTurn(m: Manifest, leq: (Id, Id) -> bool, zeros: seq<Id>, waiting: seq<Id>,
                                       indegree: map<Id, int>, edges: map<Id, seq<Id>>)
    requires LoopState(m, leq, [], waiting, indegree, edges) && zeros == Zeros(Dedup(StageIds(m)), indegree)
    requires waiting == zeros || waiting == Sort(zeros, leq)
    ensures Served(m, leq, []) && TieOrdered(waiting, leq, Turn(m, []))
  {
    WaitingIsReady(m, [], waiting, [], indegree);
    assert Left(Known(m), [], 0) == Known(m);
    hide Served, TieOrdered, Turn, Ready, Zeros, LoopState;
    SameMembers(waiting, zeros, leq);
    StartInTurn(m, leq, zeros, indegree);
    SortStable(zeros, leq, Turn(m, []));
  }

  predicate Anything(x: Id, y: Id) { true }

  method RelaxQueue(ghost m: Manifest, ghost out: seq<Id>, successors: seq<Id>, waiting: seq<Id>, indegree: map<Id, int>)
    returns (queue: seq<Id>, degree: map<Id, int>)
    requires StepState(m, out, waiting, successors, indegree)
    requires Relaxing(m, Anything, out, successors) && TieOrdered(waiting, Anything, Turn(m, out)) && OldOrDone(m, out, waiting, [])
    ensures StepState(m, out, queue, [], degree)
    ensures TieOrdered(queue, Anything, Turn(m, out))
  {
    hide StepState, Relaxing, TieOrdered, OldOrDone, Turn, Ready, Left, Known;
    queue, degree := waiting, indegree;
    for j := 0 to |successors|
      invariant StepState(m, out, queue, successors[j..], degree)
      invariant TieOrdered(queue, Anything, Turn(m, out)) && OldOrDone(m, out, queue, successors[..j])
    {
      var x := successors[j];
      assert successors[j..] == [x] + successors[j + 1..];
      ghost var queue0, degree0 := queue, degree;
      NextSuccessor(m, out, queue, successors[j..], degree);
      degree := degree[x := degree[x] - 1];
      if degree[x] == 0 {
        queue := queue + [x];
        ElemsAppend(queue0, x);
      }
      Relax(m, out, queue0, x, successors[j + 1..], degree0, queue, degree);
      WaitingIsReady(m, out, queue, successors[j + 1..], degree);
      if degree[x] == 0 {
        JoinInTurn(m, Anything, out, successors, j, queue0, queue0 + [x], queue);
      } else {
        NobodyJoins(m, out, successors, j, queue);
      }
    }
  }

  lemma {:induction false} InListTimes(s: seq<Id>, x: Id)
    requires x in s
    ensures Times(s, x) > 0
  {
    TimesIsMultiplicity(s, x);
  }

  lemma {:induction false} TimesInList(s: seq<Id>, x: Id)
    requires Times(s, x) > 0
    ensures x in s
  {
    TimesIsMultiplicity(s, x);
  }

  lemma {:induction false} SuccessorsReleased(m: Manifest, out: seq<Id>, current: Id, edges: map<Id, seq<Id>>)
    requires Mirrors(m, edges) && current in edges
    ensures forall x :: x in edges[current] ==> Released(m, out + [current], x)
  {
    hide Times, After;
    forall x | x in edges[current] ensures Pred(m, Known(m), current, x) {
      InListTimes(edges[current], x);
      assert x in Elems(edges[current]);
      assert Times(edges[current], x) == Flow(After(m, x), current, x);
      TimesInList(After(m, x), current);
    }
  }

  lemma {:induction false} EdgesInTurn(m: Manifest, leq: (Id, Id) -> bool, edges: map<Id, seq<Id>>, n: nat, current: Id)
    requires NoDup(StageIds(m)) ==> RowOrdered(StageIds(m), n, edges)
    requires current in edges
    ensures TieOrdered(edges[current], leq, Position(m))
  {
    hide ByPosition;
  }

  /** The waiting list holds exactly the ready stages; popping its head keeps the rest. */
  lemma {:induction false} LoopReady(m: Manifest, leq: (Id, Id) -> bool, out: seq<Id>, waiting: seq<Id>,
                                     indegree: map<Id, int>, edges: map<Id, seq<Id>>)
    requires LoopState(m, leq, out, waiting, indegree, edges) && waiting != []
    ensures forall y :: y in waiting <==> Ready(m, Left(Known(m), out, |out|), y)
    ensures NoDup(waiting) && NoDup(out + [waiting[0]])
    ensures OldOrDone(m, out + [waiting[0]], waiting[1..], [])
    ensures Mirrors(m, edges)
  {
    hide Mirrors;
    var rest := Known(m) - Elems(out);
    assert out[..|out|] == out && (out + [waiting[0]])[..|out|] == out;
    ZeroIsReady(m, rest, indegree, waiting);
    hide Ready, Counted;
    assert waiting[0] in waiting && waiting[0] !in out;
    NoDupAppend(out, waiting[0]);
  }

  lemma {:induction false} SuccessorsInTurn(m: Manifest, leq: (Id, Id) -> bool, out: seq<Id>, current: Id, succ: seq<Id>, edges: map<Id, seq<Id>>)
    requires Mirrors(m, edges) && current in edges && NoDup(out + [current])
    requires NoDup(StageIds(m)) ==> RowOrdered(StageIds(m), |m|, edges)
    requires succ == edges[current] || succ == Sort(edges[current], leq)
    ensures Relaxing(m, leq, out + [current], succ)
  {
    hide TieOrdered, Released, Mirrors, RowOrdered, NoDup, Position, Sort;
    SuccessorsReleased(m, out, current, edges);
    EdgesInTurn(m, leq, edges, |m|, current);
    SortStable(edges[current], leq, Position(m));
    SameMembers(succ, edges[current], leq);
  }

  /** Everything a pass over the successors of the popped stage relies on. */
  lemma {:induction false} BeginRelaxing(m: Manifest, leq: (Id, Id) -> bool, out: seq<Id>, waiting: seq<Id>, succ: seq<Id>,
                                         indegree: map<Id, int>, edges: map<Id, seq<Id>>)
    requires LoopState(m, leq, out, waiting, indegree, edges) && waiting != [] && waiting[0] in edges
    requires Served(m, leq, out) && TieOrdered(waiting, leq, Turn(m, out))
    requires NoDup(StageIds(m)) ==> RowOrdered(StageIds(m), |m|, edges)
    requires forall y :: y in waiting ==> leq(waiting[0], y)
    requires succ == edges[waiting[0]] || succ == Sort(edges[waiting[0]], leq)
    ensures Relaxing(m, leq, out + [waiting[0]], succ)
    ensures TieOrdered(waiting[1..], leq, Turn(m, out + [waiting[0]])) && OldOrDone(m, out + [waiting[0]], waiting[1..], [])
    ensures Served(m, leq, out + [waiting[0]])
  {
    hide *;
    LoopReady(m, leq, out, waiting, indegree, edges);
    PopServed(m, leq, out, waiting);
    PopInTurn(m, leq, out, waiting);
    SuccessorsInTurn(m, leq, out, waiting[0], succ, edges);
  }

  lemma {:induction false} SameMembers(succ: seq<Id>, s: seq<Id>, leq: (Id, Id) -> bool)
    requires succ == s || succ == Sort(s, leq)
    ensures forall x :: x in succ <==> x in s
  {
    forall x ensures x in succ <==> x in s {
      assert x in multiset(succ) <==> x in multiset(s);
    }
  }

  /** The checker's loop: a queue served first in, first out. */
  method FifoKahn(m: Manifest) returns (order: seq<Id>, indegree: map<Id, int>)
    ensures GreedyRun(m, Known(m), Anything, order)
    ensures NoDup(StageIds(m)) ==> FirstCome(m, Known(m), Anything, StageIds(m), order)
    ensures indegree.Keys == Known(m)
    ensures forall x :: x in Known(m) ==> (indegree[x] > 0 <==> x !in order)
  {
    hide StepState, Emitted, Mirrors, Built, History, RowOrdered, Relaxing, TieOrdered, OldOrDone, Turn, FirstCome;
    ghost var hist;
    var edges;
    hist, indegree, edges := BuildGraph(m);
    var queue := Zeros(Dedup(StageIds(m)), indegree);
    BeginSorted(m, Anything, hist, queue, queue, indegree, edges);
    BeginInTurn(m, Anything, queue, queue, indegree, edges);
    order := [];
    while queue != []
      invariant LoopState(m, Anything, order, queue, indegree, edges)
      invariant Served(m, Anything, order) && TieOrdered(queue, Anything, Turn(m, order))
      decreases |Known(m)| - |order|
    {
      HeadIsKnown(m, Anything, order, queue, indegree, edges);
      var current := queue[0];
      var successors := edges[current];
      BeginRelaxing(m, Anything, order, queue, successors, indegree, edges);
      Pop(m, Anything, order, queue, successors, indegree, edges);
      order, queue := order + [current], queue[1..];
      queue, indegree := RelaxQueue(m, order, successors, queue, indegree);
    }
    Finish(m, Anything, order, indegree, edges);
    Blocked(m, order, indegree, edges);
  }
}
