/**
 * The NameResolver actor (src/io/network.rs): a single owner of the
 * name -> address directory, driven one message at a time. A reply that the
 * source sends on the request's own channel is returned here as a `Reply`
 * naming that channel.
 */
module Network {
  import opened Wrappers

  /** Identity of a caller's private one-shot reply channel. */
  type ReplyChannel = nat

  datatype NameRequest = NameRequest(name: string, replyChannel: ReplyChannel)

  datatype ResolverMessage =
    | AddAddress(name: string, address: string)
    | GetAddress(request: NameRequest)

  datatype Reply = Reply(channel: ReplyChannel, address: Option<string>)

  /** The answer to a lookup of `name` in `directory`. */
  function Lookup(directory: map<string, string>, name: string): (r: Option<string>)
    ensures r.Some? <==> name in directory
    ensures r.Some? ==> r.value == directory[name]
  {
    if name in directory then Some(directory[name]) else None
  }

  /** The directory after one message. */
  function Apply(directory: map<string, string>, message: ResolverMessage): map<string, string>
  {
    match message
    case AddAddress(name, address) => directory[name := address]
    case GetAddress(_) => directory
  }

  /** The directory after a list of messages, applied in receipt order. */
  function ApplyAll(directory: map<string, string>, messages: seq<ResolverMessage>): map<string, string>
  {
    if messages == [] then directory
    else Apply(ApplyAll(directory, messages[..|messages| - 1]), messages[|messages| - 1])
  }

  /** The replies sent while processing `messages` from `directory`, one per lookup, in order. */
  function Replies(directory: map<string, string>, messages: seq<ResolverMessage>): seq<Reply>
  {
    if messages == [] then []
    else
      var n := |messages| - 1;
      Replies(directory, messages[..n]) +
      (match messages[n]
       case AddAddress(_, _) => []
       case GetAddress(request) =>
         [Reply(request.replyChannel, Lookup(ApplyAll(directory, messages[..n]), request.name))])
  }

  class NameResolver {
    var directory: map<string, string>

    /** The resolver starts from the seed directory handed to `start`. */
    constructor (seed: map<string, string>)
      ensures directory == seed
    {
      directory := seed;
    }

    /** `AddAddress((k, v))`: insert or overwrite; no reply. */
    method AddAddress(name: string, address: string)
      modifies this
      ensures directory == old(directory)[name := address]
      ensures forall other :: other != name ==> Lookup(directory, other) == Lookup(old(directory), other)
    {
      directory := directory[name := address];
    }

    /** `GetAddress(request)`: the reply for the request; the directory is not touched. */
    method GetAddress(request: NameRequest) returns (reply: Reply)
      ensures reply.channel == request.replyChannel
      ensures request.name in directory ==> reply.address == Some(directory[request.name])
      ensures request.name !in directory ==> reply.address == None
    {
      if request.name in directory {
        reply := Reply(request.replyChannel, Some(directory[request.name]));
      } else {
        reply := Reply(request.replyChannel, None);
      }
    }

    /** The body of the receive loop for one message: at most one reply. */
    method Handle(message: ResolverMessage) returns (replies: seq<Reply>)
      modifies this
      ensures directory == Apply(old(directory), message)
      ensures replies == Replies(old(directory), [message])
    {
      assert [message][..0] == [];
      match message
      case AddAddress(name, address) =>
        AddAddress(name, address);
        replies := [];
      case GetAddress(request) =>
        var reply := GetAddress(request);
        replies := [reply];
    }

    /** The receive loop over a finite run of messages, one at a time in receipt order. */
    method Serve(messages: seq<ResolverMessage>) returns (replies: seq<Reply>)
      modifies this
      ensures directory == ApplyAll(old(directory), messages)
      ensures replies == Replies(old(directory), messages)
    {
      replies := [];
      var i := 0;
      while i < |messages|
        invariant 0 <= i <= |messages|
        invariant directory == ApplyAll(old(directory), messages[..i])
        invariant replies == Replies(old(directory), messages[..i])
      {
        assert messages[..i + 1][..i] == messages[..i];
        var sent := Handle(messages[i]);
        replies := replies + sent;
        i := i + 1;
      }
      assert messages[..|messages|] == messages;
    }
  }

  /** Processing splits at any point: the second part starts from the directory the first left. */
  lemma {:induction false} ApplyAllAppend(directory: map<string, string>, a: seq<ResolverMessage>, b: seq<ResolverMessage>)
    ensures ApplyAll(directory, a + b) == ApplyAll(ApplyAll(directory, a), b)
    ensures Replies(directory, a + b) == Replies(directory, a) + Replies(ApplyAll(directory, a), b)
    decreases |b|
  {
    if b == [] {
      assert a + b == a;
    } else {
      var n := |b| - 1;
      assert (a + b)[..|a + b| - 1] == a + b[..n];
      ApplyAllAppend(directory, a, b[..n]);
    }
  }

  /** Lookups never change the directory. */
  lemma {:induction false} LookupsChangeNothing(directory: map<string, string>, messages: seq<ResolverMessage>)
    requires forall k :: 0 <= k < |messages| ==> messages[k].GetAddress?
    ensures ApplyAll(directory, messages) == directory
  {
    if messages != [] {
      LookupsChangeNothing(directory, messages[..|messages| - 1]);
    }
  }

  /** Each lookup gets exactly one reply, on its own channel; additions get none. */
  lemma {:induction false} OneReplyPerLookup(directory: map<string, string>, messages: seq<ResolverMessage>)
    ensures |Replies(directory, messages)| == |LookupChannels(messages)|
    ensures forall k :: 0 <= k < |Replies(directory, messages)| ==>
              Replies(directory, messages)[k].channel == LookupChannels(messages)[k]
  {
    if messages != [] {
      OneReplyPerLookup(directory, messages[..|messages| - 1]);
    }
  }

  /** The reply channels of the lookups among `messages`, in order. */
  function LookupChannels(messages: seq<ResolverMessage>): seq<ReplyChannel>
  {
    if messages == [] then []
    else
      var n := |messages| - 1;
      LookupChannels(messages[..n]) +
      (match messages[n]
       case AddAddress(_, _) => []
       case GetAddress(request) => [request.replyChannel])
  }

  /** Messages that leave the entry for `name` alone. */
  predicate KeepsEntry(messages: seq<ResolverMessage>, name: string)
  {
    forall k :: 0 <= k < |messages| ==> !(messages[k].AddAddress? && messages[k].name == name)
  }

  /** The entry for `name` survives messages that do not add `name`. */
  lemma {:induction false} EntryKept(directory: map<string, string>, messages: seq<ResolverMessage>, name: string)
    requires KeepsEntry(messages, name)
    ensures Lookup(ApplyAll(directory, messages), name) == Lookup(directory, name)
  {
    if messages != [] {
      EntryKept(directory, messages[..|messages| - 1], name);
    }
  }

  /**
   * Read after write: a lookup of `name` that follows an addition of `name`,
   * with no other addition of `name` between them, is answered with the
   * added address, on the lookup's own channel.
   */
  lemma ReadAfterWrite(directory: map<string, string>, before: seq<ResolverMessage>, name: string,
                       address: string, between: seq<ResolverMessage>, channel: ReplyChannel)
    requires KeepsEntry(between, name)
    ensures var messages := before + [AddAddress(name, address)] + between + [GetAddress(NameRequest(name, channel))];
            Replies(directory, messages)[|Replies(directory, messages)| - 1] == Reply(channel, Some(address))
  {
    var prefix := before + [AddAddress(name, address)] + between;
    var messages := prefix + [GetAddress(NameRequest(name, channel))];
    assert messages[..|messages| - 1] == prefix;
    ApplyAllAppend(directory, before + [AddAddress(name, address)], between);
    ApplyAllAppend(directory, before, [AddAddress(name, address)]);
    assert [AddAddress(name, address)][..0] == [];
    EntryKept(ApplyAll(directory, before + [AddAddress(name, address)]), between, name);
  }

  /** Last write wins: after two additions of one name, the later address is returned. */
  lemma LastWriteWins(directory: map<string, string>, name: string, first: string, second: string, channel: ReplyChannel)
    ensures Replies(directory, [AddAddress(name, first), AddAddress(name, second), GetAddress(NameRequest(name, channel))])
            == [Reply(channel, Some(second))]
  {
    var one := [AddAddress(name, first)];
    var two := one + [AddAddress(name, second)];
    var messages := two + [GetAddress(NameRequest(name, channel))];
    assert one[..0] == [] && two[..1] == one && messages[..2] == two;
    assert ApplyAll(directory, one) == directory[name := first];
    assert Replies(directory, one) == [];
    assert ApplyAll(directory, two) == directory[name := first][name := second];
    assert Replies(directory, two) == [];
    assert Replies(directory, messages) == [Reply(channel, Some(second))];
    assert messages == [AddAddress(name, first), AddAddress(name, second), GetAddress(NameRequest(name, channel))];
  }
}
