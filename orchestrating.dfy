/**
 * The Orchestrator (src/orchestrating/mod.rs): the total Command -> Action
 * translation, and the dispatcher that turns each received command into one
 * job for the worker pool, in receipt order.
 */
module Orchestrating {
  import opened Common

  /** The translation inside the dispatcher loop: same id, same payload, matching variant. */
  function ToAction(command: Command): (action: Action)
    ensures action.id == command.id
    ensures command.commandType.Test? <==> action.actionType.Test?
    ensures command.commandType.Run? <==> action.actionType.Run?
    ensures command.commandType.Run? ==>
              action.actionType.message == command.commandType.message
    ensures command.commandType.ChangeNodeState? <==> action.actionType.ChangeNodeState?
    ensures command.commandType.ChangeNodeState? ==>
              && action.actionType.node == command.commandType.node
              && action.actionType.newState == command.commandType.newState
  {
    match command.commandType
    case Test => Action(command.id, ActionType.Test)
    case Run(message) => Action(command.id, ActionType.Run(message))
    case ChangeNodeState(node, newState) =>
      Action(command.id, ActionType.ChangeNodeState(node, newState))
  }

  /** The command an action was made from; the inverse of `ToAction`. */
  function ToCommand(action: Action): Command
  {
    match action.actionType
    case Test => Command(action.id, CommandType.Test)
    case Run(message) => Command(action.id, CommandType.Run(message))
    case ChangeNodeState(node, newState) =>
      Command(action.id, CommandType.ChangeNodeState(node, newState))
  }

  /** Translation loses nothing: the command is recovered from its action. */
  lemma ToCommandToAction(command: Command)
    ensures ToCommand(ToAction(command)) == command
  {
  }

  /** Translation is onto: every action is the translation of some command. */
  lemma ToActionToCommand(action: Action)
    ensures ToAction(ToCommand(action)) == action
  {
  }

  /** The actions submitted for a sequence of commands, one each, in order. */
  function Translated(commands: seq<Command>): (actions: seq<Action>)
  {
    if commands == [] then []
    else Translated(commands[..|commands| - 1]) + [ToAction(commands[|commands| - 1])]
  }

  lemma {:induction false} TranslatedAt(commands: seq<Command>, k: nat)
    requires k < |commands|
    ensures |Translated(commands)| == |commands|
    ensures Translated(commands)[k] == ToAction(commands[k])
    ensures Translated(commands)[k].id == commands[k].id
    decreases |commands|
  {
    var n := |commands| - 1;
    if k < n {
      TranslatedAt(commands[..n], k);
    } else if n > 0 {
      TranslatedAt(commands[..n], 0);
    }
  }

  /**
   * The dispatcher thread. `jobs` is the worker pool's job queue as seen by
   * the dispatcher: the actions submitted so far, in submission order (the
   * per-action log context is not modelled).
   */
  class Orchestrator {
    var jobs: seq<Action>

    constructor ()
      ensures jobs == []
    {
      jobs := [];
    }

    /** One turn of the dispatcher loop: translate the command and submit one job. */
    method Receive(command: Command)
      modifies this
      ensures jobs == old(jobs) + [ToAction(command)]
    {
      var action := ToAction(command);
      jobs := jobs + [action];
    }

    /** The dispatcher loop over the commands received, one job per command. */
    method DispatchAll(commands: seq<Command>)
      modifies this
      ensures jobs == old(jobs) + Translated(commands)
    {
      var i := 0;
      while i < |commands|
        invariant 0 <= i <= |commands|
        invariant jobs == old(jobs) + Translated(commands[..i])
      {
        assert commands[..i + 1][..i] == commands[..i];
        Receive(commands[i]);
        i := i + 1;
      }
      assert commands[..|commands|] == commands;
    }
  }
}
