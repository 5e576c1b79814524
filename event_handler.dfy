/** `handle_event` (src/events/event_handler.rs): the Event -> Commands step of the ring. */
module EventHandler {
  import opened Common

  /**
   * A `Test` event becomes one `Test` command with the event's id; a
   * `RunResult` event, successful or not, is terminal and yields no command
   * (the flag only chooses the log line, which is not modelled).
   */
  function HandleEvent(event: Event): (commands: seq<Command>)
    ensures |commands| <= 1
    ensures forall c :: c in commands ==> c.id == event.id
    ensures event.eventType.Test? <==> commands == [Command(event.id, CommandType.Test)]
    ensures event.eventType.RunResult? <==> commands == []
  {
    match event.eventType
    case Test => [Command(event.id, CommandType.Test)]
    case RunResult(_) => []
  }
}
