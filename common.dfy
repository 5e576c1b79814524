/**
 * The datatypes that travel around the control ring
 * Event -> Command -> Action -> ActionResult -> Operation -> Event
 * (src/common/mod.rs). Each carries the variants that the handlers match on.
 * Constructor names repeat across types, as in the source, so they are
 * written qualified (`CommandType.Test`).
 */
module Common {

  /** A 128-bit correlation id; ids are opaque values, only compared and copied. */
  newtype Uuid = x: int | 0 <= x < 0x1_0000_0000_0000_0000_0000_0000_0000_0000

  /** Node state as carried by a state-change request (`u8`). */
  newtype NodeState = x: int | 0 <= x < 256

  /** Payload of a `RunResult` event. */
  datatype RunResultEvent = RunResultEvent(successful: bool, message: string)

  datatype EventType =
    | Test
    | RunResult(runResult: RunResultEvent)

  datatype Event = Event(id: Uuid, eventType: EventType)

  datatype CommandType =
    | Test
    | Run(message: string)
    | ChangeNodeState(node: string, newState: NodeState)

  datatype Command = Command(id: Uuid, commandType: CommandType)

  datatype ActionType =
    | Test
    | Run(message: string)
    | ChangeNodeState(node: string, newState: NodeState)

  datatype Action = Action(id: Uuid, actionType: ActionType)

  datatype Operation =
    | Test
    | RaiseEvent(event: Event)

  datatype ActionResult = ActionResult(id: Uuid, successful: bool, message: string, ops: seq<Operation>)
}
