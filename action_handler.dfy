/** `handle_action` (src/orchestrating/action_handler.rs): the Action -> ActionResult step. */
module ActionHandler {
  import opened Common

  const HelloMessage: string := "Hello, World!"

  /**
   * Every action, whatever its payload, completes successfully with the
   * constant message and the single operation `Test`; only the id is taken
   * from the action.
   */
  function HandleAction(action: Action): (result: ActionResult)
    ensures result.id == action.id
    ensures result.successful
    ensures result.message == HelloMessage
    ensures result.ops == [Operation.Test]
  {
    ActionResult(action.id, true, HelloMessage, [Operation.Test])
  }

  /** The result depends only on the action's id, never on its payload. */
  lemma HandleActionIgnoresPayload(a: Action, b: Action)
    requires a.id == b.id
    ensures HandleAction(a) == HandleAction(b)
  {
  }
}
