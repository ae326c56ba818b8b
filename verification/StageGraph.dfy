/** The lifecycle graph of a pipeline manifest: predecessors, walks, cycles and greedy orders. */
module StageGraph {
  import opened Ordering

  /** One manifest row. `needs` is the row's `requires` list and `after` its `order_after` list. */
  datatype Stage = Stage(id: Id, needs: seq<Id>, after: seq<Id>)

  type Manifest = seq<Stage>

  function StageIds(m: Manifest): (ids: seq<Id>)
    ensures |ids| == |m| && forall i :: 0 <= i < |m| ==> ids[i] == m[i].id
  {
    seq(|m|, i requires 0 <= i < |m| => m[i].id)
  }

  ghost function Known(m: Manifest): set<Id> { Elems(StageIds(m)) }

  /** `stages.get(x, {}).get("order_after", [])`; rows that share an id contribute in turn. */
  function After(m: Manifest, x: Id): seq<Id> {
    if m == [] then []
    else After(m[..|m| - 1], x) + (if m[|m| - 1].id == x then m[|m| - 1].after else [])
  }

  /** `stages.get(x, {}).get("requires", [])`. */
  function Needs(m: Manifest, x: Id): seq<Id> {
    if m == [] then []
    else Needs(m[..|m| - 1], x) + (if m[|m| - 1].id == x then m[|m| - 1].needs else [])
  }

  /** With unique ids the two lookups return the one row's own lists. */
  lemma {:induction false} LookupOfUniqueRow(m: Manifest, i: nat)
    requires NoDup(StageIds(m)) && i < |m|
    ensures After(m, m[i].id) == m[i].after && Needs(m, m[i].id) == m[i].needs
  {
    var last := |m| - 1;
    var front := m[..last];
    assert forall j :: 0 <= j < last ==> StageIds(front)[j] == StageIds(m)[j];
    if i < last {
      LookupOfUniqueRow(front, i);
      assert StageIds(m)[i] != StageIds(m)[last];
    } else {
      assert forall j :: 0 <= j < last ==> StageIds(m)[j] != StageIds(m)[last];
      LookupOfAbsent(front, m[i].id);
    }
  }

  lemma {:induction false} LookupOfAbsent(m: Manifest, x: Id)
    requires x !in Known(m)
    ensures After(m, x) == [] && Needs(m, x) == []
  {
    if m != [] {
      var last := |m| - 1;
      assert StageIds(m)[last] == m[last].id;
      assert forall j :: 0 <= j < last ==> StageIds(m[..last])[j] == StageIds(m)[j];
      LookupOfAbsent(m[..last], x);
    }
  }

  /** A stage requires what some row of it requires. */
  lemma {:induction false} NeedsByRow(m: Manifest, x: Id, r: Id)
    ensures r in Needs(m, x) <==> exists k :: 0 <= k < |m| && m[k].id == x && r in m[k].needs
  {
    if m != [] {
      var last := |m| - 1;
      var front := m[..last];
      NeedsByRow(front, x, r);
      if k :| 0 <= k < last && front[k].id == x && r in front[k].needs { assert m[k].id == x && r in m[k].needs; }
      if k :| 0 <= k < last && m[k].id == x && r in m[k].needs { assert front[k].id == x && r in front[k].needs; }
    }
  }

  lemma {:induction false} AfterByRow(m: Manifest, x: Id, p: Id)
    ensures p in After(m, x) <==> exists k :: 0 <= k < |m| && m[k].id == x && p in m[k].after
  {
    if m != [] {
      var last := |m| - 1;
      var front := m[..last];
      AfterByRow(front, x, p);
      if k :| 0 <= k < last && front[k].id == x && p in front[k].after { assert m[k].id == x && p in m[k].after; }
      if k :| 0 <= k < last && m[k].id == x && p in m[k].after { assert front[k].id == x && p in front[k].after; }
    }
  }

  /** A real predecessor: listed, and neither the stage itself nor outside `pool`. */
  predicate Pred(m: Manifest, pool: set<Id>, p: Id, x: Id) {
    p in After(m, x) && p != x && p in pool
  }

  /** `x` waits for nobody in `pool`. */
  ghost predicate Ready(m: Manifest, pool: set<Id>, x: Id) {
    x in pool && forall p :: p in After(m, x) ==> p == x || p !in pool
  }

  // ---------- walks against the arrows, and cycles ----------

  ghost predicate Walk(m: Manifest, pool: set<Id>, w: seq<Id>) {
    && Elems(w) <= pool
    && forall i :: 0 <= i < |w| - 1 ==> Pred(m, pool, w[i + 1], w[i])
  }

  /** The stage is on a cycle or downstream of one: some walk from it revisits a stage. */
  ghost predicate Tainted(m: Manifest, pool: set<Id>, x: Id) {
    exists w :: Walk(m, pool, w) && |w| > 0 && w[0] == x && !NoDup(w)
  }

  ghost predicate ClosedWalk(m: Manifest, pool: set<Id>, w: seq<Id>) {
    Walk(m, pool, w) && |w| >= 2 && w[0] == w[|w| - 1]
  }

  ghost predicate HasCycle(m: Manifest, pool: set<Id>) {
    exists w :: ClosedWalk(m, pool, w)
  }

  /** The stages that are neither on nor downstream of a cycle. */
  ghost function Sound(m: Manifest, pool: set<Id>): set<Id> {
    set x | x in pool && !Tainted(m, pool, x)
  }

  lemma {:induction false} Subwalk(m: Manifest, pool: set<Id>, w: seq<Id>, i: nat, j: nat)
    requires Walk(m, pool, w) && i <= j <= |w|
    ensures Walk(m, pool, w[i..j])
  {
    var v := w[i..j];
    forall k | 0 <= k < |v| - 1 ensures Pred(m, pool, v[k + 1], v[k]) {
      assert Pred(m, pool, w[i + k + 1], w[i + k]);
    }
  }

  lemma {:induction false} TaintedIffCycle(m: Manifest, pool: set<Id>)
    ensures HasCycle(m, pool) <==> exists x :: x in pool && Tainted(m, pool, x)
  {
    if w :| ClosedWalk(m, pool, w) {
      assert !NoDup(w);
      assert w[0] in pool && Tainted(m, pool, w[0]);
    }
    if x :| x in pool && Tainted(m, pool, x) {
      var w :| Walk(m, pool, w) && |w| > 0 && w[0] == x && !NoDup(w);
      var i, j :| 0 <= i < j < |w| && w[i] == w[j];
      Subwalk(m, pool, w, i, j + 1);
      assert ClosedWalk(m, pool, w[i..j + 1]);
    }
  }

  /** A cycle among any ids at all is a cycle of manifest stages. */
  lemma {:induction false} CycleOfSubset(m: Manifest, pool: set<Id>)
    requires HasCycle(m, pool)
    ensures HasCycle(m, Known(m))
  {
    var w :| ClosedWalk(m, pool, w);
    forall i | 0 <= i < |w| ensures w[i] in Known(m) {
      var k := if i == |w| - 1 then 0 else i;
      assert w[k] == w[i] && Pred(m, pool, w[k + 1], w[k]);
      if w[k] !in Known(m) { LookupOfAbsent(m, w[k]); }
    }
    forall i | 0 <= i < |w| - 1 ensures Pred(m, Known(m), w[i + 1], w[i]) {
      assert Pred(m, pool, w[i + 1], w[i]);
    }
    assert ClosedWalk(m, Known(m), w);
  }

  // ---------- orders ----------

  /** Duplicate-free, inside the pool, and every predecessor comes earlier. */
  ghost predicate Topological(m: Manifest, pool: set<Id>, out: seq<Id>) {
    && NoDup(out) && Elems(out) <= pool
    && forall k, p :: 0 <= k < |out| && Pred(m, pool, p, out[k]) ==> p in out[..k]
  }

  ghost function Left(pool: set<Id>, out: seq<Id>, k: nat): set<Id>
    requires k <= |out|
  {
    pool - Elems(out[..k])
  }

  /** Always emits a least ready stage, and stops only when no stage is ready. */
  ghost predicate GreedyRun(m: Manifest, pool: set<Id>, leq: (Id, Id) -> bool, out: seq<Id>) {
    && NoDup(out) && Elems(out) <= pool
    && (forall k :: 0 <= k < |out| ==> Ready(m, Left(pool, out, k), out[k]))
    && (forall k, y :: 0 <= k < |out| && Ready(m, Left(pool, out, k), y) ==> leq(out[k], y))
    && (forall y :: !Ready(m, Left(pool, out, |out|), y))
  }

  lemma {:induction false} GreedyIsTopological(m: Manifest, pool: set<Id>, leq: (Id, Id) -> bool, out: seq<Id>)
    requires GreedyRun(m, pool, leq, out)
    ensures Topological(m, pool, out)
  {
    forall k, p | 0 <= k < |out| && Pred(m, pool, p, out[k]) ensures p in out[..k] {
      assert Ready(m, Left(pool, out, k), out[k]);
    }
  }

  /** From an emitted stage every walk goes strictly back in the order, so it cannot revisit. */
  lemma {:induction false} WalkDescends(m: Manifest, pool: set<Id>, out: seq<Id>, w: seq<Id>, k: nat)
    requires Topological(m, pool, out) && Walk(m, pool, w) && |w| > 0
    requires k < |out| && w[0] == out[k]
    ensures NoDup(w) && Elems(w) <= Elems(out[..k + 1])
    decreases |w|
  {
    if |w| > 1 {
      assert Pred(m, pool, w[1], w[0]);
      assert w[1] in out[..k];
      var j :| 0 <= j < k && out[..k][j] == w[1];
      Subwalk(m, pool, w, 1, |w|);
      WalkDescends(m, pool, out, w[1..], j);
      hide Pred, Topological, Walk;
      assert out[k] !in out[..k];
      assert forall x :: x in out[..j + 1] ==> x in out[..k];
      NoDupCons(w[0], w[1..], Elems(out[..k]));
      assert w == [w[0]] + w[1..] && out[..k + 1] == out[..k] + [out[k]];
    }
  }

  /** Every stage left over has a predecessor left over, so arbitrarily long walks exist. */
  lemma {:induction false} GrowWalk(m: Manifest, pool: set<Id>, rest: set<Id>, x: Id, n: nat) returns (w: seq<Id>)
    requires rest <= pool && x in rest
    requires forall y :: !Ready(m, rest, y)
    ensures Walk(m, pool, w) && Elems(w) <= rest && |w| == n + 1 && w[0] == x
    decreases n
  {
    w := [x];
    if n > 0 {
      assert !Ready(m, rest, x);
      var p :| p in After(m, x) && p != x && p in rest;
      var tail := GrowWalk(m, pool, rest, p, n - 1);
      w := [x] + tail;
      assert Pred(m, pool, tail[0], x);
      forall i | 0 <= i < |w| - 1 ensures Pred(m, pool, w[i + 1], w[i]) {
        if i > 0 { assert Pred(m, pool, tail[i], tail[i - 1]); }
      }
      assert Elems(w) == {x} + Elems(tail);
    }
  }

  /** A greedy run emits exactly the stages that no cycle reaches. */
  lemma {:induction false} GreedyEmitsSound(m: Manifest, pool: set<Id>, leq: (Id, Id) -> bool, out: seq<Id>)
    requires GreedyRun(m, pool, leq, out)
    ensures Elems(out) == Sound(m, pool)
  {
    GreedyIsTopological(m, pool, leq, out);
    forall x | x in pool ensures x in Elems(out) <==> !Tainted(m, pool, x) {
      if x in out {
        var k :| 0 <= k < |out| && out[k] == x;
        forall w | Walk(m, pool, w) && |w| > 0 && w[0] == x ensures NoDup(w) {
          WalkDescends(m, pool, out, w, k);
        }
      } else {
        assert out[..|out|] == out;
        var rest := Left(pool, out, |out|);
        var w := GrowWalk(m, pool, rest, x, |rest|);
        Pigeonhole(w, rest);
      }
    }
  }

  /** With an antisymmetric priority the greedy run is unique. */
  lemma {:induction false} GreedyIsUnique(m: Manifest, pool: set<Id>, leq: (Id, Id) -> bool, a: seq<Id>, b: seq<Id>)
    requires GreedyRun(m, pool, leq, a) && GreedyRun(m, pool, leq, b)
    requires AntisymmetricOn(leq, Elems(a))
    ensures a == b
  {
    GreedyEmitsSound(m, pool, leq, a);
    GreedyEmitsSound(m, pool, leq, b);
    SameElementsSameLength(a, b);
    if a != b {
      var k := FirstDifference(a, b);
    }
  }

  /** `s` comes no later than `t` in the dictionary order that `leq` induces on lists. */
  ghost predicate LexLeq(s: seq<Id>, t: seq<Id>, leq: (Id, Id) -> bool) {
    s <= t || exists k :: 0 <= k < |s| && k < |t| && s[..k] == t[..k] && s[k] != t[k] && leq(s[k], t[k])
  }

  /** Greedy choice is optimal: no topological order of the same stages comes before it. */
  lemma {:induction false} GreedyIsLexLeast(m: Manifest, pool: set<Id>, leq: (Id, Id) -> bool, out: seq<Id>, t: seq<Id>)
    requires GreedyRun(m, pool, leq, out)
    requires Topological(m, pool, t) && Elems(t) == Elems(out)
    ensures LexLeq(out, t, leq)
  {
    SameElementsSameLength(out, t);
    if out != t {
      var k := FirstDifference(out, t);
      assert t[k] in pool;
      forall p | p in After(m, t[k]) ensures p == t[k] || p !in Left(pool, out, k) {
        if p != t[k] && p in pool { assert Pred(m, pool, p, t[k]); }
      }
      assert Ready(m, Left(pool, out, k), t[k]);
    }
  }

  /** Two orders of one set, both in canonical form, are equal: the first difference contradicts one of them. */
  lemma {:induction false} LexLeqAntisymmetric(s: seq<Id>, t: seq<Id>, leq: (Id, Id) -> bool)
    requires LexLeq(s, t, leq) && LexLeq(t, s, leq) && |s| == |t|
    requires AntisymmetricOn(leq, Elems(s) + Elems(t))
    ensures s == t
  {
    if s != t {
      var k := FirstDifference(s, t);
    }
  }

  // ---------- first come, first served ----------

  /** Before step `k` there was a moment at which `x` was ready and `y` was not. */
  ghost predicate Sooner(m: Manifest, pool: set<Id>, out: seq<Id>, k: nat, x: Id, y: Id)
    requires k <= |out|
  {
    exists j :: 0 <= j <= k && Ready(m, Left(pool, out, j), x) && !Ready(m, Left(pool, out, j), y)
  }

  /** Of two stages ready at step `k`, `x` became ready sooner, or at the same time and is listed earlier. */
  ghost predicate Before(m: Manifest, pool: set<Id>, ids: seq<Id>, out: seq<Id>, k: nat, x: Id, y: Id)
    requires k <= |out|
  {
    Sooner(m, pool, out, k, x, y) || (!Sooner(m, pool, out, k, y, x) && Rank(ids, x) <= Rank(ids, y))
  }

  /** Among ready stages of equal priority the emitted one is always the first to have become ready. */
  ghost predicate FirstCome(m: Manifest, pool: set<Id>, leq: (Id, Id) -> bool, ids: seq<Id>, out: seq<Id>) {
    forall k, y :: 0 <= k < |out| && Ready(m, Left(pool, out, k), y) && leq(y, out[k]) ==> Before(m, pool, ids, out, k, out[k], y)
  }

  /** A ready stage stays ready until it is emitted. */
  lemma {:induction false} StaysReady(m: Manifest, pool: set<Id>, out: seq<Id>, i: nat, j: nat, x: Id)
    requires i <= j <= |out| && Ready(m, Left(pool, out, i), x) && x in Left(pool, out, j)
    ensures Ready(m, Left(pool, out, j), x)
  {
    assert Left(pool, out, j) <= Left(pool, out, i) by {
      assert forall p :: p in out[..i] ==> p in out[..j];
    }
  }

  lemma {:induction false} SoonerOneWay(m: Manifest, pool: set<Id>, out: seq<Id>, k: nat, x: Id, y: Id)
    requires k <= |out| && Ready(m, Left(pool, out, k), x) && Ready(m, Left(pool, out, k), y)
    ensures !(Sooner(m, pool, out, k, x, y) && Sooner(m, pool, out, k, y, x))
  {
    hide Ready;
    if Sooner(m, pool, out, k, x, y) && Sooner(m, pool, out, k, y, x) {
      var i :| 0 <= i <= k && Ready(m, Left(pool, out, i), x) && !Ready(m, Left(pool, out, i), y);
      var j :| 0 <= j <= k && Ready(m, Left(pool, out, j), y) && !Ready(m, Left(pool, out, j), x);
      StillLeft(m, pool, out, i, k, x);
      StillLeft(m, pool, out, j, k, y);
      if i <= j { StaysReady(m, pool, out, i, j, x); } else { StaysReady(m, pool, out, j, i, y); }
    }
  }

  lemma {:induction false} StillLeft(m: Manifest, pool: set<Id>, out: seq<Id>, i: nat, k: nat, x: Id)
    requires i <= k <= |out| && Ready(m, Left(pool, out, k), x)
    ensures forall j :: i <= j <= k ==> x in Left(pool, out, j)
  {
    forall j | i <= j <= k ensures x in Left(pool, out, j) {
      assert out[..j] == out[..k][..j];
    }
  }

  /** What happened before step `k` depends only on the stages emitted before it. */
  lemma {:induction false} SoonerByPrefix(m: Manifest, pool: set<Id>, a: seq<Id>, b: seq<Id>, k: nat, x: Id, y: Id)
    requires k <= |a| && k <= |b| && a[..k] == b[..k]
    ensures Sooner(m, pool, a, k, x, y) <==> Sooner(m, pool, b, k, x, y)
  {
    forall j | 0 <= j <= k ensures Left(pool, a, j) == Left(pool, b, j) {
      assert a[..j] == a[..k][..j] == b[..j];
    }
  }

  lemma {:induction false} RankIsInjective(ids: seq<Id>, x: Id, y: Id)
    requires x in ids && y in ids && Rank(ids, x) == Rank(ids, y)
    ensures x == y
  {}

  /** The rule leaves no choice: priority, then waiting time, then position decide every step. */
  lemma {:induction false} FirstComeIsUnique(m: Manifest, pool: set<Id>, leq: (Id, Id) -> bool, ids: seq<Id>, a: seq<Id>, b: seq<Id>)
    requires GreedyRun(m, pool, leq, a) && FirstCome(m, pool, leq, ids, a)
    requires GreedyRun(m, pool, leq, b) && FirstCome(m, pool, leq, ids, b)
    requires pool <= Elems(ids)
    ensures a == b
  {
    GreedyEmitsSound(m, pool, leq, a);
    GreedyEmitsSound(m, pool, leq, b);
    SameElementsSameLength(a, b);
    hide Ready, Sooner, Rank;
    if a != b {
      var k := FirstDifference(a, b);
      var x, y := a[k], b[k];
      assert Left(pool, a, k) == Left(pool, b, k);
      assert Ready(m, Left(pool, a, k), x) && Ready(m, Left(pool, b, k), y);
      assert leq(x, y) && leq(y, x);
      assert Before(m, pool, ids, a, k, x, y) && Before(m, pool, ids, b, k, y, x);
      SoonerByPrefix(m, pool, a, b, k, x, y);
      SoonerByPrefix(m, pool, a, b, k, y, x);
      SoonerOneWay(m, pool, a, k, x, y);
      assert x in Elems(ids) && y in Elems(ids) by { assert x in pool && y in pool; }
      RankIsInjective(ids, x, y);
    }
  }
}
