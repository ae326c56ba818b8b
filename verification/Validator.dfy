/** The manifest checker: its own closure loop and its own FIFO cycle check. */
module Validator {
  import opened Ordering
  import opened StageGraph
  import opened Kahn
  import opened Resolver

  /** One profile: closes the expanded list in manifest order, then looks for unmet requirements. */
  method CheckProfile(expanded: seq<Id>, stages: Manifest) returns (active: seq<Id>, missing: set<Id>)
    ensures expanded <= active
    ensures LeastClosure(stages, Elems(expanded), Elems(active))
    ensures missing == {}
  {
    hide Needs, Closed, Mentioned, Elems;
    ghost var seed, pool := Elems(expanded), Elems(expanded) + Mentioned(stages);
    active := expanded;
    var changed := true;
    while changed
      invariant expanded <= active && Forced(stages, seed, Elems(active))
      invariant !changed ==> RowsServed(stages, |stages|, Elems(active))
      decreases |pool - Elems(active)|, changed
    {
      changed := false;
      ghost var before := Elems(active);
      for i := 0 to |stages|
        invariant expanded <= active && Forced(stages, seed, Elems(active))
        invariant before <= Elems(active) && (changed <==> Elems(active) != before)
        invariant !changed ==> RowsServed(stages, i, Elems(active))
      {
        InElems(active, stages[i].id);
        if stages[i].id in active {
          RowNeeds(stages, i);
          ForceNeeds(stages, seed, Elems(active), stages[i].id, Elems(stages[i].needs));
          var more;
          active, more := AddNeeds(stages[i].needs, active);
          changed := changed || more;
        }
      }
      Shrinks(pool, before, Elems(active));
    }
    RowsServedIsClosed(stages, Elems(active));
    missing := FindMissing(stages, active);
  }

  /** The requirements of listed rows that are not themselves listed. */
  ghost predicate Unmet(m: Manifest, i: nat, ids: set<Id>, r: Id)
    requires i <= |m|
  {
    r !in ids && exists k :: 0 <= k < i && m[k].id in ids && r in m[k].needs
  }

  method FindMissing(stages: Manifest, active: seq<Id>) returns (missing: set<Id>)
    ensures forall r :: r in missing <==> Unmet(stages, |stages|, Elems(active), r)
  {
    missing := {};
    for i := 0 to |stages|
      invariant forall r :: r in missing <==> Unmet(stages, i, Elems(active), r)
    {
      ghost var before := missing;
      if stages[i].id in active {
        var needs := stages[i].needs;
        for j := 0 to |needs|
          invariant forall r :: r in missing <==> r in before || (r in needs[..j] && r !in active)
        {
          assert needs[..j + 1] == needs[..j] + [needs[j]];
          if needs[j] !in active {
            missing := missing + {needs[j]};
          }
        }
        assert needs[..|needs|] == needs;
      }
    }
  }

  /** The first `i` rows have their requirements listed wherever the row itself is listed. */
  ghost predicate RowsServed(m: Manifest, i: nat, ids: set<Id>)
    requires i <= |m|
  {
    forall k :: 0 <= k < i && m[k].id in ids ==> Elems(m[k].needs) <= ids
  }

  lemma {:induction false} InElems(s: seq<Id>, x: Id)
    ensures x in s <==> x in Elems(s)
  {}

  lemma {:induction false} Shrinks(pool: set<Id>, small: set<Id>, big: set<Id>)
    requires small <= big <= pool
    ensures |pool - big| <= |pool - small|
    ensures small != big ==> |pool - big| < |pool - small|
  {
    SubsetCardinality(pool - big, pool - small);
    if small != big {
      var x :| x in big && x !in small;
      assert x in pool - small && x !in pool - big;
    }
  }

  lemma {:induction false} RowNeeds(m: Manifest, i: nat)
    requires i < |m|
    ensures Elems(m[i].needs) <= Elems(Needs(m, m[i].id))
  {
    hide Needs;
    forall r | r in m[i].needs ensures r in Needs(m, m[i].id) {
      NeedsByRow(m, m[i].id, r);
    }
  }

  lemma {:induction false} RowsServedIsClosed(m: Manifest, ids: set<Id>)
    requires RowsServed(m, |m|, ids)
    ensures Closed(m, ids)
    ensures forall r :: !Unmet(m, |m|, ids, r)
  {
    hide Needs;
    forall x, r | x in ids && r in Needs(m, x) ensures r in ids {
      NeedsByRow(m, x, r);
      var k :| 0 <= k < |m| && m[k].id == x && r in m[k].needs;
      assert Elems(m[k].needs) <= ids;
    }
  }

  /** No requirement is missing exactly when the list is closed. */
  lemma {:induction false} NothingMissingIffClosed(m: Manifest, ids: set<Id>)
    ensures (forall r :: !Unmet(m, |m|, ids, r)) <==> Closed(m, ids)
  {
    hide Needs;
    if Closed(m, ids) {
      forall r ensures !Unmet(m, |m|, ids, r) {
        if k :| 0 <= k < |m| && m[k].id in ids && r in m[k].needs { NeedsByRow(m, m[k].id, r); }
      }
    } else {
      var x, r :| x in ids && r in Needs(m, x) && r !in ids;
      NeedsByRow(m, x, r);
      assert Unmet(m, |m|, ids, r);
    }
  }

  /** The lifecycle check: duplicate ids, and the ids blocked by an `order_after` cycle. */
  method CheckLifecycle(stages: Manifest) returns (duplicates: bool, passed: bool, blocked: seq<Id>)
    ensures duplicates <==> !NoDup(StageIds(stages))
    ensures passed <==> NoDup(StageIds(stages)) && !HasCycle(stages, Known(stages))
    ensures Elems(blocked) == if passed then {} else Known(stages) - Sound(stages, Known(stages))
  {
    var ids := StageIds(stages);
    var distinct := Dedup(ids);
    NoDupCardinality(ids);
    NoDupCardinality(distinct);
    duplicates := |ids| != |distinct|;
    var order, indegree := FifoKahn(stages);
    KernelSucceedsIffAcyclic(stages, distinct, Anything, order);
    GreedyEmitsSound(stages, Known(stages), Anything, order);
    NoDupCardinality(order);
    SubsetCardinality(Elems(order), Known(stages));
    passed := |order| == |ids|;
    blocked := if passed then [] else Positive(distinct, indegree);
    forall x ensures x in Elems(blocked) <==> !passed && x in Known(stages) && x !in Elems(order) {
      assert x in distinct <==> x in Elems(distinct);
    }
  }

  /** The ids whose counter is still positive, in dict order. */
  function Positive(ids: seq<Id>, indegree: map<Id, int>): (r: seq<Id>)
    ensures forall x :: x in r <==> x in ids && x in indegree && indegree[x] > 0
  {
    if ids == [] then []
    else
      var last := |ids| - 1;
      assert ids == ids[..last] + [ids[last]];
      var front := Positive(ids[..last], indegree);
      if ids[last] in indegree && indegree[ids[last]] > 0 then front + [ids[last]] else front
  }

  /** The kernel sort passes its length test on this active list, whatever its priority. */
  ghost predicate NeverRaises(m: Manifest, ids: seq<Id>) {
    forall leq, out :: GreedyRun(m, Elems(ids), leq, out) ==> |out| == |ids|
  }

  /** A manifest has no cycle exactly when the kernel sort never raises on it, whatever ids are active. */
  lemma {:induction false} PassedManifestNeverFails(m: Manifest)
    ensures !HasCycle(m, Known(m)) <==> forall ids :: NoDup(ids) ==> NeverRaises(m, ids)
  {
    if !HasCycle(m, Known(m)) {
      forall ids, leq, out | NoDup(ids) && GreedyRun(m, Elems(ids), leq, out) ensures |out| == |ids| {
        if HasCycle(m, Elems(ids)) { CycleOfSubset(m, Elems(ids)); }
        KernelSucceedsIffAcyclic(m, ids, leq, out);
      }
    } else {
      var ids := Dedup(StageIds(m));
      var out := GreedyRunExists(m, Elems(ids));
      KernelSucceedsIffAcyclic(m, ids, Anything, out);
      assert !NeverRaises(m, ids);
    }
  }

  /** Some greedy run exists: a stage that is ready can always be emitted next. */
  lemma {:induction false} GreedyRunExists(m: Manifest, pool: set<Id>) returns (out: seq<Id>)
    ensures GreedyRun(m, pool, Anything, out)
  {
    out := [];
    assert Emitted(m, pool, Anything, out);
    while exists y :: Ready(m, pool - Elems(out), y)
      invariant Emitted(m, pool, Anything, out)
      decreases |pool - Elems(out)|
    {
      var y :| Ready(m, pool - Elems(out), y);
      Emit(m, pool, Anything, out, y);
      out := out + [y];
    }
    assert out[..|out|] == out;
  }

  /** The checker and the resolver close a profile to the same set of stages. */
  lemma {:induction false} CheckerAgreesWithResolver(stages: Manifest, profile: seq<Id>, checked: seq<Id>, resolved: seq<Id>)
    requires LeastClosure(stages, Elems(profile), Elems(checked))
    requires NoDup(resolved) && Dedup(profile) <= resolved && LeastClosure(stages, Elems(profile), Elems(resolved))
    ensures Elems(checked) == Elems(resolved) && |resolved| <= |checked|
  {
    LeastClosureIsUnique(stages, Elems(profile), Elems(checked), Elems(resolved));
    NoDupCardinality(checked);
    NoDupCardinality(resolved);
  }

  /** For a manifest that passes the checker, a profile of known stages always resolves: its closure holds
      only known stages, the kernel lists them in canonical order and misses no requirement. */
  lemma {:induction false} ValidatedProfileResolves(stages: Manifest, profile: seq<Id>, closed: seq<Id>, canonical: seq<Id>, kernel: seq<Id>)
    requires NoDup(StageIds(stages)) && !HasCycle(stages, Known(stages))
    requires Mentioned(stages) <= Known(stages) && Elems(profile) <= Known(stages)
    requires NoDup(closed) && LeastClosure(stages, Elems(profile), Elems(closed))
    requires CanonicalOrder(stages, canonical) && GreedyRun(stages, Elems(closed), ByRank(canonical), kernel)
    ensures kernel == Filter(canonical, Elems(closed)) && Elems(kernel) == Elems(closed)
    ensures forall x, r :: x in kernel && r in Needs(stages, x) ==> r in kernel
  {
    KnownIsClosed(stages);
    AcyclicIsSound(stages);
    KernelOfSoundIds(stages, canonical, closed, kernel);
    assert Elems(kernel) == Elems(closed);
    forall x, r | x in kernel && r in Needs(stages, x) ensures r in kernel {
      assert x in Elems(closed) && r in Elems(closed);
    }
  }

  lemma {:induction false} KnownIsClosed(m: Manifest)
    requires Mentioned(m) <= Known(m)
    ensures Closed(m, Known(m))
  {
    forall x, r | x in Known(m) && r in Needs(m, x) ensures r in Known(m) {
      NeedsAreMentioned(m, x);
    }
  }
}
