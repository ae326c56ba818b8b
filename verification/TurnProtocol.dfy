/** Turn-completion correlation: completions race with the `turn/start` response.
    The steps between two suspension points are atomic; every interleaving of them is a run. */
module TurnProtocol {
  import opened Ordering

  /** A `turn` object of a completion notification; its id may be missing. */
  datatype Turn = Turn(id: Option<string>, status: string)

  datatype Record = Record(turnId: string, result: Turn)

  /** Starting: before the first turn. Between: a turn was just recorded. Requesting: awaiting the
      response. Waiting: awaiting the completion future. */
  datatype Phase = Starting | Between | Requesting | Waiting | Raised

  datatype State = State(phase: Phase, done: Option<Turn>, current: Option<string>,
                         early: map<string, Turn>, records: seq<Record>)

  datatype Event = Notify(turn: Turn) | Request | Respond(id: string) | Resume

  const EARLY_LIMIT := 8

  const INITIAL := State(Starting, None, None, map[], [])

  /** Notifications are handled only while the loop is suspended. */
  predicate Enabled(s: State, e: Event) {
    match e
    case Notify(_) => s.phase in {Starting, Requesting, Waiting}
    case Request => s.phase in {Starting, Between}
    case Respond(id) => s.phase == Requesting && id != ""
    case Resume => s.phase == Waiting && s.done.Some?
  }

  function Notified(s: State, turn: Turn): State {
    if turn.id == s.current && s.done.None? then s.(done := Some(turn))
    else if turn.id.Some? && |s.early| < EARLY_LIMIT then s.(early := s.early[turn.id.value := turn])
    else s
  }

  /** The future the response finds: an early completion fills it unless it is already filled. */
  function Found(s: State, id: string): Option<Turn> {
    if id in s.early && s.done.None? then Some(s.early[id]) else s.done
  }

  function Responded(s: State, id: string): State {
    var found := Found(s, id);
    var s' := s.(current := Some(id), early := s.early - {id}, done := None);
    if found.Some? && found.value.id == Some(id) then
      s'.(phase := Between, records := s.records + [Record(id, found.value)])
    else
      s'.(phase := Waiting)
  }

  function Step(s: State, e: Event): State
    requires Enabled(s, e)
  {
    match e
    case Notify(turn) => Notified(s, turn)
    case Request => if s.done.Some? then s.(phase := Raised) else s.(phase := Requesting)
    case Respond(id) => Responded(s, id)
    case Resume =>
      var id := if s.current.Some? then s.current.value else "";
      s.(phase := Between, done := None, records := s.records + [Record(id, s.done.value)])
  }

  ghost predicate Run(events: seq<Event>)
    decreases |events|, 0
  {
    events == [] || (Run(events[..|events| - 1]) && Enabled(After(events[..|events| - 1]), events[|events| - 1]))
  }

  ghost function After(events: seq<Event>): State
    requires Run(events)
    decreases |events|, 1
  {
    if events == [] then INITIAL
    else Step(After(events[..|events| - 1]), events[|events| - 1])
  }

  // ---------- safety over all interleavings ----------

  ghost predicate Safe(s: State) {
    && |s.early| <= EARLY_LIMIT
    && (forall id :: id in s.early ==> s.early[id].id == Some(id))
    && (forall k :: 0 <= k < |s.records| ==> s.records[k].result.id == Some(s.records[k].turnId))
    && (s.phase == Waiting ==> s.current.Some? && (s.done.Some? ==> s.done.value.id == s.current))
  }

  lemma {:induction false} StepIsSafe(s: State, e: Event)
    requires Safe(s) && Enabled(s, e)
    ensures Safe(Step(s, e))
  {
    match e {
      case Notify(turn) => NotifyIsSafe(s, turn);
      case Respond(id) => RespondIsSafe(s, id);
      case _ =>
    }
  }

  lemma {:induction false} NotifyIsSafe(s: State, turn: Turn)
    requires Safe(s)
    ensures Safe(Notified(s, turn))
  {
    if turn.id.Some? {
      var early := s.early[turn.id.value := turn];
      assert early.Keys == s.early.Keys + {turn.id.value};
      forall id | id in early ensures early[id].id == Some(id) {}
    }
  }

  lemma {:induction false} PopIsSafe(early: map<string, Turn>, id: string)
    requires |early| <= EARLY_LIMIT && forall k :: k in early ==> early[k].id == Some(k)
    ensures |early - {id}| <= EARLY_LIMIT && forall k :: k in early - {id} ==> (early - {id})[k].id == Some(k)
  {
    assert (early - {id}).Keys == early.Keys - {id};
    SubsetCardinality((early - {id}).Keys, early.Keys);
  }

  lemma {:induction false} RespondIsSafe(s: State, id: string)
    requires Safe(s)
    ensures Safe(Responded(s, id))
  {
    PopIsSafe(s.early, id);
  }

  /** On every run each recorded result carries the id of its turn, and the buffer holds at most eight completions. */
  lemma {:induction false} EveryRunIsSafe(events: seq<Event>)
    requires Run(events)
    ensures Safe(After(events)) && |After(events).early| <= 8
  {
    if events != [] {
      EveryRunIsSafe(events[..|events| - 1]);
      StepIsSafe(After(events[..|events| - 1]), events[|events| - 1]);
    }
  }

  // ---------- every answered turn is recorded ----------

  /** The turn ids of the responses, in order. */
  ghost function Responses(events: seq<Event>): seq<string> {
    if events == [] then []
    else
      var last := events[|events| - 1];
      Responses(events[..|events| - 1]) + (if last.Respond? then [last.id] else [])
  }

  ghost function TurnIds(records: seq<Record>): seq<string> {
    seq(|records|, i requires 0 <= i < |records| => records[i].turnId)
  }

  /** Every turn the state holds on to was notified. */
  ghost predicate FromNotifications(events: seq<Event>, s: State) {
    && (s.done.Some? ==> Notify(s.done.value) in events)
    && (forall id :: id in s.early ==> Notify(s.early[id]) in events)
    && (forall k :: 0 <= k < |s.records| ==> Notify(s.records[k].result) in events)
  }

  /** The recorded turns are the answered ones, less the turn being waited for. */
  ghost predicate RecordsMatch(events: seq<Event>, s: State) {
    if s.phase == Waiting then s.current.Some? && Responses(events) == TurnIds(s.records) + [s.current.value]
    else Responses(events) == TurnIds(s.records)
  }

  lemma {:induction false} TurnIdsAppend(records: seq<Record>, r: Record)
    ensures TurnIds(records + [r]) == TurnIds(records) + [r.turnId]
  {}

  lemma {:induction false} RecordStep(events: seq<Event>, s: State, e: Event)
    requires FromNotifications(events, s) && RecordsMatch(events, s) && Enabled(s, e)
    ensures FromNotifications(events + [e], Step(s, e)) && RecordsMatch(events + [e], Step(s, e))
  {
    var more := events + [e];
    assert more[..|events|] == events && more[|more| - 1] == e;
    assert forall x :: x in more <==> x in events || x == e;
    hide TurnIds;
    match e {
      case Respond(id) =>
        if Found(s, id).Some? { TurnIdsAppend(s.records, Record(id, Found(s, id).value)); }
      case Resume =>
        if s.current.Some? { TurnIdsAppend(s.records, Record(s.current.value, s.done.value)); }
      case _ =>
    }
  }

  /** On every run the records name exactly the answered turns, in the order of their responses, except the
      turn still waited for; every recorded result is a completion that was notified. */
  lemma {:induction false} EveryAnsweredTurnIsRecorded(events: seq<Event>)
    requires Run(events)
    ensures RecordsMatch(events, After(events)) && FromNotifications(events, After(events))
  {
    if events != [] {
      var front, e := events[..|events| - 1], events[|events| - 1];
      assert events == front + [e];
      EveryAnsweredTurnIsRecorded(front);
      RecordStep(front, After(front), e);
    }
  }

  // ---------- the cells, step by step ----------

  /** A completion for another turn is kept exactly while fewer than eight are. */
  lemma {:induction false} EarlyCompletionIsKept(s: State, turn: Turn)
    requires turn.id.Some? && turn.id != s.current
    ensures Notified(s, turn).early == if |s.early| < 8 then s.early[turn.id.value := turn] else s.early
    ensures Notified(s, turn).(early := s.early) == s
  {}

  /** The future is set once: by the first completion for the current turn, and kept after that. */
  lemma {:induction false} FutureIsSetOnce(s: State, turn: Turn)
    ensures Notified(s, turn).done == if s.done.Some? then s.done else if turn.id == s.current then Some(turn) else None
    ensures s.done.Some? && turn.id.Some? && |s.early| < 8 ==> Notified(s, turn).early == s.early[turn.id.value := turn]
  {}

  /** A response takes its own early completion out of the buffer and no other. */
  lemma {:induction false} ResponsePopsItsOwn(s: State, id: string)
    ensures id !in Responded(s, id).early
    ensures forall other :: other != id ==>
      (other in Responded(s, id).early <==> other in s.early)
      && (other in s.early ==> Responded(s, id).early[other] == s.early[other])
  {}

  /** Before the first request nothing but notifications has happened. */
  ghost predicate OnlyNotified(events: seq<Event>) { forall k :: 0 <= k < |events| ==> events[k].Notify? }

  ghost predicate SomeAnonymous(events: seq<Event>) { exists k :: 0 <= k < |events| && Anonymous(events[k]) }

  ghost predicate StaleAt(events: seq<Event>) {
    && |events| > 0 && events[|events| - 1] == Request
    && OnlyNotified(events[..|events| - 1]) && SomeAnonymous(events[..|events| - 1])
  }

  ghost predicate Startup(events: seq<Event>, s: State) {
    && (s.phase == Starting <==> OnlyNotified(events))
    && (s.phase == Starting ==> s.current.None? && (s.done.Some? <==> SomeAnonymous(events)))
    && (s.phase == Between ==> s.done.None?)
    && (s.phase == Raised <==> StaleAt(events))
  }

  lemma {:induction false} StartupStep(events: seq<Event>, s: State, e: Event)
    requires Startup(events, s) && Enabled(s, e)
    ensures Startup(events + [e], Step(s, e))
  {
    var more := events + [e];
    assert more[..|events|] == events && more[|more| - 1] == e;
    assert OnlyNotified(more) <==> OnlyNotified(events) && e.Notify? by {
      assert forall k :: 0 <= k < |events| ==> more[k] == events[k];
    }
    assert SomeAnonymous(more) <==> SomeAnonymous(events) || Anonymous(e) by {
      if k :| 0 <= k < |events| && Anonymous(events[k]) { assert Anonymous(more[k]); }
      if k :| 0 <= k < |more| && Anonymous(more[k]) { assert k == |events| || Anonymous(events[k]); }
    }
    hide OnlyNotified, SomeAnonymous;
  }

  /** The stale-signal error is raised exactly when the first request finds that a completion without an id
      came before it; no later request can raise it. */
  lemma {:induction false} RaisesExactly(events: seq<Event>)
    requires Run(events)
    ensures After(events).phase == Raised <==> StaleAt(events)
  {
    StartupOfRun(events);
  }

  lemma {:induction false} StartupOfRun(events: seq<Event>)
    requires Run(events)
    ensures Startup(events, After(events))
  {
    if events != [] {
      var front, e := events[..|events| - 1], events[|events| - 1];
      assert events == front + [e];
      StartupOfRun(front);
      StartupStep(front, After(front), e);
    }
  }

  // ---------- when a delivered completion is lost ----------

  ghost predicate Delivered(events: seq<Event>, id: string) {
    exists k :: 0 <= k < |events| && events[k].Notify? && events[k].turn.id == Some(id)
  }

  ghost predicate Answered(events: seq<Event>, id: string) {
    Respond(id) in events
  }

  ghost predicate Anonymous(e: Event) { e.Notify? && e.turn.id.None? }

  /** A completion without an id came before any turn had an id. */
  ghost predicate AnonymousFirst(events: seq<Event>) {
    exists k :: 0 <= k < |events| && Anonymous(events[k]) && forall j :: 0 <= j < k ==> !events[j].Respond?
  }

  ghost predicate Dropped(s: State, turn: Turn) {
    !(turn.id == s.current && s.done.None?) && turn.id.Some? && |s.early| >= EARLY_LIMIT
  }

  /** Turn ids are fresh, no completion comes twice and the buffer never overflows. */
  ghost predicate Polite(events: seq<Event>)
    requires Run(events)
  {
    events == [] ||
    var front, last := events[..|events| - 1], events[|events| - 1];
    && Polite(front)
    && (last.Respond? ==> !Answered(front, last.id))
    && (last.Notify? && last.turn.id.Some? ==> !Delivered(front, last.turn.id.value))
    && (last.Notify? ==> !Dropped(After(front), last.turn))
  }

  ghost predicate Tracked(events: seq<Event>, s: State) {
    && (s.current.None? <==> forall id :: !Answered(events, id))
    && (s.current.Some? ==> Answered(events, s.current.value))
    && (s.phase in {Starting, Requesting} && s.done.Some? ==> s.current.None? && s.done.value.id.None?)
    && (s.phase in {Starting, Requesting} && s.current.None? ==> (s.done.Some? <==> AnonymousFirst(events)))
    && (s.phase == Between ==> s.done.None? && s.current.Some?)
    && (s.phase in {Between, Requesting} && s.current.Some? ==> Delivered(events, s.current.value))
    && (s.phase == Starting ==> s.current.None?)
    && (forall id :: id in s.early ==> Delivered(events, id))
    && (s.phase != Raised ==> forall id :: Delivered(events, id) ==>
          id in s.early || (s.done.Some? && s.done.value.id == Some(id)) || Answered(events, id))
    && (s.phase == Waiting && s.done.None? && s.current.Some? && Delivered(events, s.current.value) ==> AnonymousFirst(events))
    && (s.phase == Waiting && s.done.Some? && s.current.Some? ==> Delivered(events, s.current.value))
  }

  lemma {:induction false} DeliveredAppend(events: seq<Event>, e: Event, id: string)
    ensures Delivered(events + [e], id) <==> Delivered(events, id) || (e.Notify? && e.turn.id == Some(id))
  {
    var more := events + [e];
    if k :| 0 <= k < |events| && events[k].Notify? && events[k].turn.id == Some(id) { assert more[k] == events[k]; }
    if e.Notify? && e.turn.id == Some(id) { assert more[|events|] == e; }
  }

  lemma {:induction false} AnonymousFirstAppend(events: seq<Event>, e: Event)
    ensures AnonymousFirst(events + [e]) <==>
            AnonymousFirst(events) || (Anonymous(e) && forall id :: !Answered(events, id))
  {
    var more := events + [e];
    if k :| 0 <= k < |more| && Anonymous(more[k]) && forall j :: 0 <= j < k ==> !more[j].Respond? {
      if k < |events| {
        assert Anonymous(events[k]) && forall j :: 0 <= j < k ==> events[j] == more[j];
      } else {
        assert forall j :: 0 <= j < |events| ==> events[j] == more[j] && !events[j].Respond?;
      }
    }
    if k :| 0 <= k < |events| && Anonymous(events[k]) && forall j :: 0 <= j < k ==> !events[j].Respond? {
      assert Anonymous(more[k]);
    }
    if Anonymous(e) && forall id :: !Answered(events, id) {
      forall j | 0 <= j < |events| ensures !more[j].Respond? {
        if events[j].Respond? { assert Answered(events, events[j].id); }
      }
      assert Anonymous(more[|events|]);
    }
  }

  lemma {:induction false} TrackStep(events: seq<Event>, s: State, e: Event)
    requires Safe(s) && Tracked(events, s) && Enabled(s, e)
    requires e.Respond? ==> !Answered(events, e.id)
    requires e.Notify? && e.turn.id.Some? ==> !Delivered(events, e.turn.id.value)
    requires e.Notify? ==> !Dropped(s, e.turn)
    ensures Tracked(events + [e], Step(s, e))
  {
    hide Delivered, AnonymousFirst;
    forall id ensures Delivered(events + [e], id) <==> Delivered(events, id) || (e.Notify? && e.turn.id == Some(id)) {
      DeliveredAppend(events, e, id);
    }
    AnonymousFirstAppend(events, e);
    assert forall id :: Answered(events + [e], id) <==> Answered(events, id) || e == Respond(id);
  }

  lemma {:induction false} PoliteRunIsTracked(events: seq<Event>)
    requires Run(events) && Polite(events)
    ensures Tracked(events, After(events))
  {
    if events != [] {
      var front, last := events[..|events| - 1], events[|events| - 1];
      assert events == front + [last];
      PoliteRunIsTracked(front);
      EveryRunIsSafe(front);
      TrackStep(front, After(front), last);
    }
  }

  /** The loop is suspended on a future although the completion of its turn has already arrived. */
  ghost predicate WaitsInVain(events: seq<Event>)
    requires Run(events)
  {
    var s := After(events);
    s.phase == Waiting && s.done.None? && s.current.Some? && Delivered(events, s.current.value)
  }

  /** With fresh ids, single completions and no overflow, the loop never waits for a completion that
      was already delivered, provided no completion without an id came before the first response. */
  lemma {:induction false} NeverWaitsInVain(events: seq<Event>)
    requires Run(events) && Polite(events) && !AnonymousFirst(events)
    ensures !WaitsInVain(events)
  {
    PoliteRunIsTracked(events);
  }

  /** At a response the exact condition: a completion delivered for that turn is lost just when this is the
      first turn and a completion without an id came first. */
  lemma {:induction false} ResponseLosesExactly(events: seq<Event>, id: string)
    requires Run(events + [Respond(id)]) && Polite(events + [Respond(id)])
    ensures WaitsInVain(events + [Respond(id)])
       <==> Delivered(events, id) && AnonymousFirst(events) && forall other :: !Answered(events, other)
  {
    var more := events + [Respond(id)];
    assert more[..|events|] == events;
    PoliteRunIsTracked(events);
    EveryRunIsSafe(events);
    DeliveredAppend(events, Respond(id), id);
    hide Delivered, AnonymousFirst, Polite;
    var s := After(events);
    assert After(more) == Responded(s, id);
  }

  /** The response at position `k` answers the first turn, whose completion is already there, after a
      completion without an id. */
  ghost predicate LosingResponse(events: seq<Event>, k: nat) {
    && k < |events| && events[k].Respond? && Delivered(events[..k], events[k].id)
    && AnonymousFirst(events[..k]) && forall other :: !Answered(events[..k], other)
  }

  lemma {:induction false} LosingResponseAppend(events: seq<Event>, e: Event, k: nat)
    requires k < |events|
    ensures LosingResponse(events + [e], k) <==> LosingResponse(events, k)
  {
    assert (events + [e])[..k] == events[..k] && (events + [e])[k] == events[k];
  }

  /** Only a response starts a wait in vain, and a polite run has no event that ends one. */
  lemma {:induction false} VainWaitPersists(events: seq<Event>, e: Event)
    requires Run(events + [e]) && Polite(events + [e])
    ensures WaitsInVain(events) ==> !e.Respond?
    ensures !e.Respond? ==> (WaitsInVain(events + [e]) <==> WaitsInVain(events))
  {
    assert (events + [e])[..|events|] == events;
    var s := After(events);
    PoliteRunIsTracked(events);
    if s.current.Some? { DeliveredAppend(events, e, s.current.value); }
    hide Delivered, AnonymousFirst;
    assert After(events + [e]) == Step(s, e);
  }

  lemma {:induction false} LastResponseLoses(front: seq<Event>, e: Event)
    requires Run(front + [e]) && Polite(front + [e])
    ensures LosingResponse(front + [e], |front|) <==> e.Respond? && WaitsInVain(front + [e])
  {
    assert (front + [e])[..|front|] == front && (front + [e])[|front|] == e;
    if e.Respond? { ResponseLosesExactly(front, e.id); }
    hide WaitsInVain, Run, Polite, Delivered, AnonymousFirst, Answered;
  }

  lemma {:induction false} LosesInside(events: seq<Event>)
    ensures forall k: nat :: LosingResponse(events, k) ==> k < |events|
  {}

  lemma {:induction false} EarlierResponsesLose(front: seq<Event>, e: Event)
    ensures forall k: nat :: k < |front| ==> (LosingResponse(front + [e], k) <==> LosingResponse(front, k))
  {
    hide LosingResponse;
    forall k: nat | k < |front| ensures LosingResponse(front + [e], k) <==> LosingResponse(front, k) {
      LosingResponseAppend(front, e, k);
    }
  }

  lemma {:induction false} FrontIsPolite(front: seq<Event>, e: Event)
    requires Run(front + [e]) && Polite(front + [e])
    ensures Run(front) && Polite(front)
  {
    assert (front + [e])[..|front|] == front;
  }

  /** Over whole runs: with fresh ids, single completions and no overflow, the loop waits for a completion
      that was already delivered exactly when an earlier response answered the first turn after both that
      turn's completion and a completion without an id. */
  lemma {:induction false} WaitsInVainExactly(events: seq<Event>)
    requires Run(events) && Polite(events)
    ensures WaitsInVain(events) <==> exists k :: LosingResponse(events, k)
  {
    if events == [] {
      assert forall k :: !LosingResponse(events, k);
    } else {
      hide *;
      var front, e := events[..|events| - 1], events[|events| - 1];
      assert events == front + [e];
      FrontIsPolite(front, e);
      WaitsInVainExactly(front);
      EarlierResponsesLose(front, e);
      VainWaitPersists(front, e);
      LastResponseLoses(front, e);
      LosesInside(events);
      LosesInside(front);
      if k: nat :| LosingResponse(events, k) { assert k == |front| || LosingResponse(front, k); }
      if k: nat :| LosingResponse(front, k) { assert LosingResponse(events, k); }
    }
  }

  /** That condition is reachable: a completion without an id, then the first turn's own early completion. */
  lemma {:induction false} AnonymousCompletionLosesTurn(id: string, status: string)
    requires id != ""
    ensures var events := [Request, Notify(Turn(None, status)), Notify(Turn(Some(id), status)), Respond(id)];
            Run(events) && Polite(events) && WaitsInVain(events)
  {
    var e0, e1, e2, e3 := Request, Notify(Turn(None, status)), Notify(Turn(Some(id), status)), Respond(id);
    var r0: seq<Event>, r1, r2, r3, r4 := [], [e0], [e0, e1], [e0, e1, e2], [e0, e1, e2, e3];
    assert r1[..0] == r0 && r2[..1] == r1 && r3[..2] == r2 && r4[..3] == r3;
    assert Run(r0) && After(r0) == INITIAL;
    assert Run(r1) && After(r1) == INITIAL.(phase := Requesting);
    assert Run(r2) && After(r2) == After(r1).(done := Some(Turn(None, status)));
    assert Run(r3) && After(r3) == After(r2).(early := map[id := Turn(Some(id), status)]);
    assert Run(r4) && After(r4) == Responded(After(r3), id);
    assert Polite(r0) && Polite(r1) && Polite(r2) && Polite(r3) && Polite(r4);
    assert r4[2] == e2;
  }

  lemma {:induction false} Extend(run: seq<Event>, e: Event)
    requires Run(run) && Enabled(After(run), e)
    ensures Run(run + [e]) && After(run + [e]) == Step(After(run), e)
  {
    assert (run + [e])[..|run|] == run;
  }

  /** Single delivery is needed too: after any turn, a repeated completion of that turn fills the next
      future first, and the next turn's own early completion is thrown away. */
  lemma {:induction false} RepeatedCompletionLosesTurn(run: seq<Event>, again: Turn, next: Turn)
    requires Run(run) && After(run).phase == Between && After(run).done.None? && |After(run).early| < EARLY_LIMIT
    requires again.id.Some? && again.id == After(run).current
    requires next.id.Some? && next.id.value != "" && next.id != again.id
    ensures var more := run + [Request] + [Notify(again)] + [Notify(next)] + [Respond(next.id.value)];
            Run(more) && WaitsInVain(more)
  {
    hide Run, After, Delivered;
    var r1 := run + [Request];
    var r2 := r1 + [Notify(again)];
    var r3 := r2 + [Notify(next)];
    Extend(run, Request);
    Extend(r1, Notify(again));
    Extend(r2, Notify(next));
    Extend(r3, Respond(next.id.value));
    DeliveredAppend(r2, Notify(next), next.id.value);
    DeliveredAppend(r3, Respond(next.id.value), next.id.value);
  }
}
