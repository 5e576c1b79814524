/**
 * `handle_result` (src/results/result_handler.rs): the ActionResult -> Events
 * step that closes the ring. Only `RaiseEvent` operations have an effect.
 */
module ResultHandler {
  import opened Common

  /** The events embedded in the `RaiseEvent` operations of `ops`, in order. */
  function RaisedEvents(ops: seq<Operation>): seq<Event>
  {
    if ops == [] then []
    else
      RaisedEvents(ops[..|ops| - 1]) +
      (match ops[|ops| - 1]
       case Test => []
       case RaiseEvent(event) => [event])
  }

  /**
   * The loop over `result.ops` pushing every embedded event. The
   * `successful` flag only selects a log line, so the output depends on
   * `ops` alone.
   */
  method HandleResult(result: ActionResult) returns (events: seq<Event>)
    ensures events == RaisedEvents(result.ops)
    ensures |events| <= |result.ops|
  {
    events := [];
    var ops := result.ops;
    for i := 0 to |ops|
      invariant events == RaisedEvents(ops[..i])
      invariant |events| <= i
    {
      assert ops[..i + 1][..i] == ops[..i];
      match ops[i]
      case Test =>
      case RaiseEvent(event) =>
        events := events + [event];
    }
    assert ops[..|ops|] == ops;
  }

  /** Raising distributes over concatenation of operation lists. */
  lemma {:induction false} RaisedEventsAppend(a: seq<Operation>, b: seq<Operation>)
    ensures RaisedEvents(a + b) == RaisedEvents(a) + RaisedEvents(b)
    decreases |b|
  {
    if b == [] {
      assert a + b == a;
    } else {
      var n := |b| - 1;
      assert (a + b)[..|a + b| - 1] == a + b[..n];
      RaisedEventsAppend(a, b[..n]);
    }
  }

  /** At most one event per operation, and exactly one each when every operation raises. */
  lemma {:induction false} RaisedEventsLength(ops: seq<Operation>)
    ensures |RaisedEvents(ops)| <= |ops|
    ensures (forall k :: 0 <= k < |ops| ==> ops[k].RaiseEvent?) ==> |RaisedEvents(ops)| == |ops|
  {
    if ops != [] {
      var n := |ops| - 1;
      RaisedEventsLength(ops[..n]);
    }
  }

  /** `Test` operations contribute nothing: a list of them raises no event. */
  lemma {:induction false} OnlyTestsRaiseNothing(ops: seq<Operation>)
    requires forall k :: 0 <= k < |ops| ==> ops[k].Test?
    ensures RaisedEvents(ops) == []
  {
    if ops != [] {
      OnlyTestsRaiseNothing(ops[..|ops| - 1]);
    }
  }

  /**
   * Exactly the embedded events are forwarded, in order: the output is the
   * embedded event of every `RaiseEvent` operation, listed by the increasing
   * positions of those operations.
   */
  lemma {:induction false} RaisedEventsAreEmbedded(ops: seq<Operation>)
    ensures forall e :: e in RaisedEvents(ops) <==> RaiseEvent(e) in ops
  {
    if ops != [] {
      var n := |ops| - 1;
      RaisedEventsAreEmbedded(ops[..n]);
      assert ops == ops[..n] + [ops[n]];
    }
  }

  /** Raising a single `RaiseEvent` after some operations appends its event. */
  lemma RaiseEventOrder(before: seq<Operation>, event: Event, after: seq<Operation>)
    ensures RaisedEvents(before + [RaiseEvent(event)] + after) ==
            RaisedEvents(before) + [event] + RaisedEvents(after)
  {
    RaisedEventsAppend(before + [RaiseEvent(event)], after);
    RaisedEventsAppend(before, [RaiseEvent(event)]);
    assert [RaiseEvent(event)][..0] == [];
  }
}
