/**
 * The control ring composed from its four per-item steps:
 * EventLoop (`handle_event`), Orchestrator (`Command` -> `Action`),
 * worker (`handle_action`) and ResultHandler (`handle_result`).
 */
module Ring {
  import opened Common
  import opened EventHandler
  import opened Orchestrating
  import opened ActionHandler
  import opened ResultHandler

  /** The events that one command produces once it has gone through a worker and the result handler. */
  function CommandEvents(command: Command): seq<Event>
  {
    RaisedEvents(HandleAction(ToAction(command)).ops)
  }

  /** The events that a list of commands produces, in command order. */
  function CommandsEvents(commands: seq<Command>): seq<Event>
  {
    if commands == [] then []
    else CommandsEvents(commands[..|commands| - 1]) + CommandEvents(commands[|commands| - 1])
  }

  /** The events fed back to the event loop after one full lap started by `event`. */
  function Lap(event: Event): seq<Event>
  {
    CommandsEvents(HandleEvent(event))
  }

  /** No command re-enters the ring: each produces a successful result with only a `Test` operation. */
  lemma CommandRaisesNothing(command: Command)
    ensures HandleAction(ToAction(command)).successful
    ensures HandleAction(ToAction(command)).id == command.id
    ensures CommandEvents(command) == []
  {
    OnlyTestsRaiseNothing([Operation.Test]);
  }

  lemma {:induction false} CommandsRaiseNothing(commands: seq<Command>)
    ensures CommandsEvents(commands) == []
  {
    if commands != [] {
      CommandsRaiseNothing(commands[..|commands| - 1]);
      CommandRaisesNothing(commands[|commands| - 1]);
    }
  }

  /** The ring terminates: every event leads back to no event after one lap. */
  lemma LapIsEmpty(event: Event)
    ensures Lap(event) == []
  {
    CommandsRaiseNothing(HandleEvent(event));
  }

  /**
   * The trace of a `Test` event: one `Test` command and one `Test` action with
   * the event's id, a successful result with the same id and the operations
   * `[Test]`, and no event fed back.
   */
  lemma TestEventTrace(event: Event)
    requires event.eventType.Test?
    ensures HandleEvent(event) == [Command(event.id, CommandType.Test)]
    ensures ToAction(Command(event.id, CommandType.Test)) == Action(event.id, ActionType.Test)
    ensures HandleAction(Action(event.id, ActionType.Test)) ==
            ActionResult(event.id, true, HelloMessage, [Operation.Test])
    ensures RaisedEvents([Operation.Test]) == []
    ensures Lap(event) == []
  {
    OnlyTestsRaiseNothing([Operation.Test]);
    LapIsEmpty(event);
  }
}
