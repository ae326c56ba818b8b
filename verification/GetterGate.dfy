/** The Getter completion gate: a workflow may leave CHANGING only on fresh validator passes and two
    equal observations of the repository. The repository, the authority's decisions and every call
    that may raise are chosen by an adversary. */
module GetterGate {
  import opened Ordering

  datatype WorkflowState = Changing | Verified | Recovering | Stable | Elsewhere(name: string)

  datatype ValidatorResult = ValidatorResult(validator: string, passed: bool, testsFailed: int, source: Option<string>)

  datatype Facts = Facts(head: string, statusLines: seq<string>, changedPaths: seq<string>,
                         diffCheckPassed: bool, source: string, fingerprint: string)

  /** The adversary: which calls raise and which steps the authority allows. */
  datatype Choices = Choices(observeFirst: bool, recordFirst: bool, allowVerified: bool, observeSecond: bool,
                             shareFailure: bool, allowRecovering: bool, recordSecond: bool, allowStable: bool, publish: bool)

  datatype Packet = Packet(from: WorkflowState, to: WorkflowState, facts: Facts)

  datatype Outcome =
    | Returned(state: WorkflowState, completed: bool)
    | Raised

  // ---------- evidence ----------

  predicate InScope(path: string) { path == "src" || "src/" <= path }

  predicate PassedAndBound(r: ValidatorResult) {
    r.passed && r.testsFailed == 0 && r.source.Some? && r.source.value != ""
  }

  /** The last result reported for the validator. */
  ghost predicate IsLatest(results: seq<ValidatorResult>, v: string, r: ValidatorResult) {
    exists k :: 0 <= k < |results| && results[k] == r && r.validator == v
                && forall j :: k < j < |results| ==> results[j].validator != v
  }

  /** Every required validator reported, and its last report passed on a recorded source digest. */
  ghost predicate Complete(results: seq<ValidatorResult>, required: set<string>) {
    forall v :: v in required ==> exists r :: IsLatest(results, v, r) && PassedAndBound(r)
  }

  /** Moreover the last reports are all bound to this source digest. */
  ghost predicate CompleteOn(results: seq<ValidatorResult>, required: set<string>, source: string) {
    forall v :: v in required ==> exists r :: IsLatest(results, v, r) && PassedAndBound(r) && r.source == Some(source)
  }

  /** The bounded mutation contract. */
  ghost predicate Verifiable(results: seq<ValidatorResult>, required: set<string>, facts: Facts, seedHead: string, initialSource: string) {
    && CompleteOn(results, required, facts.source)
    && facts.head == seedHead && facts.source != initialSource && facts.diffCheckPassed
    && forall k :: 0 <= k < |facts.changedPaths| ==> InScope(facts.changedPaths[k])
  }

  lemma {:induction false} LatestIsUnique(results: seq<ValidatorResult>, v: string, a: ValidatorResult, b: ValidatorResult)
    requires IsLatest(results, v, a) && IsLatest(results, v, b)
    ensures a == b
  {
    var i :| 0 <= i < |results| && results[i] == a && a.validator == v && forall j :: i < j < |results| ==> results[j].validator != v;
    var k :| 0 <= k < |results| && results[k] == b && b.validator == v && forall j :: k < j < |results| ==> results[j].validator != v;
    assert i == k;
  }

  lemma {:induction false} LatestAppend(results: seq<ValidatorResult>, x: ValidatorResult, v: string, r: ValidatorResult)
    ensures IsLatest(results + [x], v, r) <==> if x.validator == v then r == x else IsLatest(results, v, r)
  {
    var more := results + [x];
    if x.validator == v {
      assert more[|results|] == x;
      if k :| 0 <= k < |more| && more[k] == r && r.validator == v && forall j :: k < j < |more| ==> more[j].validator != v {
        assert k == |results|;
      }
    } else {
      if k :| 0 <= k < |results| && results[k] == r && r.validator == v && forall j :: k < j < |results| ==> results[j].validator != v {
        assert more[k] == r;
      }
      if k :| 0 <= k < |more| && more[k] == r && r.validator == v && forall j :: k < j < |more| ==> more[j].validator != v {
        assert k < |results| && results[k] == r;
        assert forall j :: k < j < |results| ==> results[j] == more[j];
      }
    }
  }

  ghost predicate IsLatestMap(results: seq<ValidatorResult>, required: set<string>, latest: map<string, ValidatorResult>) {
    && latest.Keys <= required
    && forall v, r :: v in required ==> (IsLatest(results, v, r) <==> v in latest && latest[v] == r)
  }

  method LatestResults(results: seq<ValidatorResult>, required: set<string>) returns (latest: map<string, ValidatorResult>)
    ensures IsLatestMap(results, required, latest)
  {
    hide IsLatest;
    latest := map[];
    NoneLatest(results);
    for i := 0 to |results|
      invariant IsLatestMap(results[..i], required, latest)
    {
      var item := results[i];
      assert results[..i + 1] == results[..i] + [item];
      forall v, r ensures IsLatest(results[..i + 1], v, r) <==> if item.validator == v then r == item else IsLatest(results[..i], v, r) {
        LatestAppend(results[..i], item, v, r);
      }
      ghost var before, now := latest, results[..i + 1];
      if item.validator in required {
        latest := latest[item.validator := item];
        assert latest.Keys == before.Keys + {item.validator};
      }
      forall v, r | v in required ensures IsLatest(now, v, r) <==> v in latest && latest[v] == r {
        assert IsLatest(results[..i], v, r) <==> v in before && before[v] == r;
      }
    }
    assert results[..|results|] == results;
  }

  lemma {:induction false} NoneLatest(results: seq<ValidatorResult>)
    ensures forall v, r :: !IsLatest(results[..0], v, r)
  {}

  lemma {:induction false} MapDecides(results: seq<ValidatorResult>, required: set<string>, latest: map<string, ValidatorResult>, source: string)
    requires IsLatestMap(results, required, latest)
    ensures Complete(results, required) <==> forall v :: v in required ==> v in latest && PassedAndBound(latest[v])
    ensures CompleteOn(results, required, source)
       <==> forall v :: v in required ==> v in latest && PassedAndBound(latest[v]) && latest[v].source == Some(source)
  {
    hide IsLatest;
    forall v | v in required && v in latest ensures IsLatest(results, v, latest[v]) {}
  }

  // ---------- the authority ----------

  class Authority {
    var state: WorkflowState
    var completed: bool
    var handoff: Option<Packet>

    /** One contract step: it advances from its source state, or the caller raises. */
    method ApplyStep(from: WorkflowState, to: WorkflowState, allowed: bool) returns (ok: bool)
      modifies this`state, this`completed
      ensures ok <==> allowed && old(state) == from
      ensures state == if ok then to else old(state)
      ensures completed == if ok then to == Stable else old(completed)
    {
      ok := allowed && state == from;
      if ok {
        state := to;
        completed := to == Stable;
      }
    }
  }

  predicate AllInScope(paths: seq<string>)
    ensures AllInScope(paths) <==> forall k :: 0 <= k < |paths| ==> InScope(paths[k])
  {
    forall k :: 0 <= k < |paths| ==> InScope(paths[k])
  }

  /** `first` and `second` are what the two observations see. */
  method CompleteGetterWorkflow(authority: Authority, results: seq<ValidatorResult>, required: set<string>,
                                seedHead: string, initialSource: string, first: Facts, second: Facts, choices: Choices)
    returns (outcome: Outcome)
    requires authority.handoff.None?
    modifies authority
    // a call that does not start in CHANGING takes no step
    ensures old(authority.completed) || old(authority.state) != Changing ==>
      authority.state == old(authority.state) && outcome == Returned(old(authority.state), old(authority.completed))
    // otherwise it never returns from VERIFIED, and reports the state it leaves behind
    ensures outcome.Returned? ==> outcome.state == authority.state && outcome.completed == authority.completed
    ensures old(authority.state) == Changing && outcome.Returned? ==> authority.state in {Changing, Recovering, Stable}
    // STABLE exactly on bound validator passes, two equal observations and an agreeing authority
    ensures old(authority.state) == Changing && !old(authority.completed) ==>
      (authority.state == Stable <==>
         Verifiable(results, required, first, seedHead, initialSource) && first == second
         && !choices.observeFirst && !choices.recordFirst && choices.allowVerified
         && !choices.observeSecond && !choices.recordSecond && choices.allowStable)
    // RECOVERING exactly when the repository moved between the observations
    ensures old(authority.state) == Changing && !old(authority.completed) ==>
      (authority.state == Recovering <==>
         Verifiable(results, required, first, seedHead, initialSource) && first != second
         && !choices.observeFirst && !choices.recordFirst && choices.allowVerified
         && !choices.observeSecond && !choices.shareFailure && choices.allowRecovering)
    // VERIFIED is left behind exactly when the first step was taken and nothing after it got through
    ensures old(authority.state) == Changing && !old(authority.completed) ==>
      (authority.state == Verified <==>
         Verifiable(results, required, first, seedHead, initialSource)
         && !choices.observeFirst && !choices.recordFirst && choices.allowVerified
         && (choices.observeSecond
             || if first == second then choices.recordSecond || !choices.allowStable
                else choices.shareFailure || !choices.allowRecovering))
    // the handoff carries the second observation and is published only from STABLE
    ensures authority.handoff.Some? ==> authority.state == Stable && authority.handoff.value == Packet(Verified, Stable, second)
    ensures outcome.Returned? && authority.state == Stable && old(authority.state) == Changing && !old(authority.completed) ==>
      authority.handoff.Some?
  {
    hide IsLatest, Complete, CompleteOn, InScope;
    if authority.completed || authority.state != Changing {
      return Returned(authority.state, authority.completed);
    }
    var latest := LatestResults(results, required);
    MapDecides(results, required, latest, first.source);
    if exists v :: v in required && (v !in latest || !PassedAndBound(latest[v])) {
      CompleteOnIsComplete(results, required, first.source);
      return Returned(authority.state, authority.completed);
    }
    if choices.observeFirst {
      return Raised;
    }
    var checksPassed :=
      && first.head == seedHead
      && first.source != initialSource
      && (forall v :: v in latest ==> latest[v].source == Some(first.source))
      && AllInScope(first.changedPaths)
      && first.diffCheckPassed;
    assert checksPassed <==> Verifiable(results, required, first, seedHead, initialSource);
    if !checksPassed {
      return Returned(authority.state, authority.completed);
    }
    var finalPacket: Option<Packet> := None;
    if choices.recordFirst {
      return Raised;
    }
    var ok := authority.ApplyStep(Changing, Verified, choices.allowVerified);
    if !ok {
      return Raised;
    }
    if choices.observeSecond {
      return Raised;
    }
    if second != first {
      if choices.shareFailure {
        return Raised;
      }
      ok := authority.ApplyStep(Verified, Recovering, choices.allowRecovering);
      if !ok {
        return Raised;
      }
      return Returned(authority.state, false);
    }
    finalPacket := Some(Packet(Verified, Stable, second));
    if choices.recordSecond {
      return Raised;
    }
    ok := authority.ApplyStep(Verified, Stable, choices.allowStable);
    if !ok {
      return Raised;
    }
    if finalPacket.None? || choices.publish {
      return Raised;
    }
    authority.handoff := finalPacket;
    return Returned(authority.state, authority.completed);
  }

  lemma {:induction false} CompleteOnIsComplete(results: seq<ValidatorResult>, required: set<string>, source: string)
    ensures CompleteOn(results, required, source) ==> Complete(results, required)
  {
    if CompleteOn(results, required, source) {
      CompleteOnEach(results, required, source);
    }
  }

  lemma {:induction false} CompleteOnEach(results: seq<ValidatorResult>, required: set<string>, source: string)
    requires CompleteOn(results, required, source)
    ensures Complete(results, required)
  {
    forall v | v in required ensures exists r :: IsLatest(results, v, r) && PassedAndBound(r) {
      var r :| IsLatest(results, v, r) && PassedAndBound(r) && r.source == Some(source);
    }
  }

  // ---------- the conditions one by one ----------

  /** In scope is the directory `src` and what lies below it. */
  lemma {:induction false} ScopeIsSrc(path: string)
    ensures InScope("src") && InScope("src/" + path)
    ensures InScope(path) ==> path == "src" || (|path| >= 4 && path[..4] == "src/")
    ensures !InScope("") && !InScope("srcs") && !InScope("tests/src/a")
  {
    assert "src/" + path == "src/" + path && ("src/" + path)[..4] == "src/";
    assert |"srcs"| == 4 && "srcs"[3] != '/';
    assert "tests/src/a"[0] != 's' && "src"[0] == 's';
  }

  ghost predicate Reported(results: seq<ValidatorResult>, v: string) {
    exists k :: 0 <= k < |results| && results[k].validator == v
  }

  /** Each of these alone keeps the workflow in CHANGING, and nothing else does. */
  ghost predicate Obstacle(results: seq<ValidatorResult>, required: set<string>, facts: Facts, seedHead: string, initialSource: string) {
    || facts.head != seedHead || facts.source == initialSource || !facts.diffCheckPassed
    || (exists k :: 0 <= k < |facts.changedPaths| && !InScope(facts.changedPaths[k]))
    || (exists v :: v in required && !Reported(results, v))
    || (exists v, r :: v in required && IsLatest(results, v, r) && !(r.passed && r.testsFailed == 0))
    || (exists v, r :: v in required && IsLatest(results, v, r) && (r.source.None? || r.source.value == "" || r.source.value != facts.source))
  }

  lemma {:induction false} LatestExists(results: seq<ValidatorResult>, v: string)
    ensures Reported(results, v) <==> exists r :: IsLatest(results, v, r)
  {
    if results == [] {
    } else {
      var front, x := results[..|results| - 1], results[|results| - 1];
      assert results == front + [x];
      LatestExists(front, v);
      forall r ensures IsLatest(results, v, r) <==> if x.validator == v then r == x else IsLatest(front, v, r) { LatestAppend(front, x, v, r); }
      hide IsLatest;
      if x.validator == v {
        assert IsLatest(results, v, x);
      } else {
        if k :| 0 <= k < |front| && front[k].validator == v { assert results[k].validator == v; }
        if k :| 0 <= k < |results| && results[k].validator == v { assert front[k].validator == v; }
      }
    }
  }

  lemma {:induction false} VerifiableExactly(results: seq<ValidatorResult>, required: set<string>, facts: Facts, seedHead: string, initialSource: string)
    ensures Verifiable(results, required, facts, seedHead, initialSource) <==> !Obstacle(results, required, facts, seedHead, initialSource)
  {
    forall v ensures Reported(results, v) <==> exists r :: IsLatest(results, v, r) {
      LatestExists(results, v);
    }
    forall v, a, b | IsLatest(results, v, a) && IsLatest(results, v, b) ensures a == b { LatestIsUnique(results, v, a, b); }
    hide IsLatest, InScope, Reported;
  }
}
