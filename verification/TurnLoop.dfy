/** The callback and the turn loop as they update the shared cells, tied to the protocol steps. */
module TurnLoop {
  import opened Ordering
  import opened TurnProtocol

  /** An asyncio future: unset, or set once. */
  class Future {
    var result: Option<Turn>

    constructor ()
      ensures result == None
    {
      result := None;
    }
  }

  class Loop {
    var phase: Phase
    var completion: Future
    var responseFuture: Future
    var current: Option<string>
    var early: map<string, Turn>
    var records: seq<Record>

    /** While the response is awaited the loop's own alias and the callback's cell are one future. */
    ghost predicate Valid()
      reads this
    {
      phase == Requesting ==> responseFuture == completion
    }

    ghost function View(): State
      reads this, completion
    {
      State(phase, completion.result, current, early, records)
    }

    constructor ()
      ensures Valid() && View() == INITIAL
    {
      phase, current, early, records := Starting, None, map[], [];
      var f := new Future();
      completion, responseFuture := f, f;
    }

    /** The `turn/completed` notification handler. */
    method OnCompleted(turn: Turn)
      requires Valid() && Enabled(View(), Notify(turn))
      modifies this`early, completion
      ensures Valid() && View() == Step(old(View()), Notify(turn))
    {
      if turn.id == current && completion.result.None? {
        completion.result := Some(turn);
      } else if turn.id.Some? && |early| < EARLY_LIMIT {
        early := early[turn.id.value := turn];
      }
    }

    /** Top of the loop, up to the request. */
    method BeginTurn()
      requires Valid() && Enabled(View(), Request)
      modifies this
      ensures Valid() && View() == Step(old(View()), Request)
    {
      if completion.result.Some? {
        phase := Raised;
      } else {
        responseFuture := completion;
        phase := Requesting;
      }
    }

    /** From the response to the next suspension point. */
    method OnResponse(turnId: string)
      requires Valid() && Enabled(View(), Respond(turnId))
      modifies this, responseFuture
      ensures Valid() && View() == Step(old(View()), Respond(turnId))
    {
      current := Some(turnId);
      var popped := if turnId in early then Some(early[turnId]) else None;
      early := early - {turnId};
      if popped.Some? && responseFuture.result.None? {
        responseFuture.result := popped;
      }
      if responseFuture.result.Some? {
        if responseFuture.result.value.id == Some(turnId) {
          RecordTurn(turnId, responseFuture.result.value);
        } else {
          completion := new Future();
          phase := Waiting;
        }
      } else {
        phase := Waiting;
      }
    }

    /** The awaited future is set: the loop runs on from its wait. */
    method OnResumed()
      requires Valid() && Enabled(View(), Resume) && current.Some?
      modifies this
      ensures Valid() && View() == Step(old(View()), Resume)
    {
      RecordTurn(current.value, completion.result.value);
    }

    method RecordTurn(turnId: string, result: Turn)
      modifies this`completion, this`records, this`phase
      ensures fresh(completion) && completion.result == None
      ensures phase == Between && records == old(records) + [Record(turnId, result)]
    {
      completion := new Future();
      records := records + [Record(turnId, result)];
      phase := Between;
    }
  }
}
