/** Client and server put together: subscribing to a remote stream. */
module Plumber {
  import opened Wire
  import opened Utf8
  import opened Codec
  import opened Registry
  import opened Dispatcher
  import opened Cqrs
  import opened Server
  import opened Client
  import opened Events
  import opened EventStores
  import opened StoreRuns
  import opened Subscriber

  /** The recipient "$" of the commands that the library sends itself. */
  const SYSTEM: bytes := [0x24]

  /** What happens on a server: a command runs its handler, which may do anything to the event store,
      or the application uses the store on its own. */
  datatype ServerEvent = Handled(call: Call, ops: seq<Op>) | Direct(op: Op)

  type History = seq<ServerEvent>

  function CallsOf(h: History): seq<Call>
  {
    if h == [] then []
    else
      var before, last := CallsOf(h[..|h| - 1]), h[|h| - 1];
      if last.Handled? then before + [last.call] else before
  }

  function EventOps(e: ServerEvent): seq<Op>
  {
    match e
    case Handled(_, ops) => ops
    case Direct(op) => [op]
  }

  function OpsOf(h: History): seq<Op>
  {
    if h == [] then [] else OpsOf(h[..|h| - 1]) + EventOps(h[|h| - 1])
  }

  /** The library's own handler: a CreateStream command ensures its stream and does nothing else. */
  ghost predicate EnsuresItsStream(e: ServerEvent)
  {
    e.Handled? && e.call.command.ty == CREATE_STREAM ==> e.ops == [EnsureStream(e.call.command.rec[0].b)]
  }

  ghost predicate Lawful(h: History)
  {
    forall i | 0 <= i < |h| :: EnsuresItsStream(h[i])
  }

  lemma {:induction false} OpsOfConcat(h: History, more: History)
    ensures OpsOf(h + more) == OpsOf(h) + OpsOf(more)
  {
    hide EventOps;
    if more == [] {
      assert h + more == h;
    } else {
      var n := |more| - 1;
      OpsOfConcat(h, more[..n]);
      assert (h + more)[..|h| + n] == h + more[..n];
      assert OpsOf(h) + OpsOf(more[..n]) + EventOps(more[n]) == OpsOf(h) + (OpsOf(more[..n]) + EventOps(more[n]));
    }
  }

  lemma {:induction false} CallsOfConcat(h: History, more: History)
    ensures CallsOf(h + more) == CallsOf(h) + CallsOf(more)
  {
    if more == [] {
      assert h + more == h;
    } else {
      var n := |more| - 1;
      CallsOfConcat(h, more[..n]);
      assert (h + more)[..|h| + n] == h + more[..n];
    }
  }

  /** A handled CreateStream command shows in the operations. */
  lemma {:induction false} CreateStreamShows(h: History, s: bytes) returns (i: nat)
    requires Lawful(h) && exists c | c in CallsOf(h) :: c.command == CreateStreamMsg(s)
    ensures i < |OpsOf(h)| && OpsOf(h)[i] == EnsureStream(s)
  {
    var n := |h| - 1;
    if h[n].Handled? && h[n].call.command == CreateStreamMsg(s) {
      assert EnsuresItsStream(h[n]);
      i := |OpsOf(h[..n])|;
    } else {
      i := CreateStreamShows(h[..n], s);
    }
  }

  lemma {:induction false} EnsuredHasChannel(types: TypeMap, ops: seq<Op>, i: nat, s: bytes)
    requires i < |ops| && ops[i] == EnsureStream(s)
    ensures Channels(Run(types, ops).0, s) != []
  {
    hide Step, Channels;
    var first := ops[..i + 1];
    assert first[..i] == ops[..i] && ops == first + ops[i + 1..];
    ChannelsStep(types, Run(types, ops[..i]).0, ops[i], s);
    ChannelsOnlyGrow(types, first, ops[i + 1..], s);
  }

  lemma {:induction false} CreateStreamDeliverable(s: bytes)
    requires |Bytes(CreateStreamMsg(s))| <= CAPACITY
    ensures Deliverable(SYSTEM, CreateStreamMsg(s)) <==> s != [] && ValidUtf8(s)
  {
    var m := CreateStreamMsg(s);
    EmptyEncodingIsDefault(m.ty.fields, m.rec, 0);
    StringsAreShort(m.ty.fields, m.rec, 0, 0);
    assert m.rec[0] == Data(s) && Default(m.ty.fields[0].kind) == Data([]);
    assert Sendable(m) <==> Readable(m.ty.fields[0].kind, m.rec[0]);
    assert ValidUtf8(SYSTEM[1..]);
  }

  /** Subscribing remotely to a nonempty UTF-8 name that fits creates the stream on the server: in any
      history that made these calls, whatever other handlers and the application did to the store and
      whichever publishes failed, the stream has a channel. Every channel stays in every later
      state, with the frames it has sent; each later CreateStream adds exactly one, and if none ever
      named this stream, it has exactly one. For any other name the server sees no command at all,
      stops, and the client gets no reply. */
  lemma {:induction false} RemoteSubscribeCreatesStream(client: Maps, factories: IdMap, server: ServerTables,
      log: seq<Call>, s: bytes, h: History, later: History)
    requires Connected(client.types, server, CREATE_STREAM) && Fits(client.types, SYSTEM, CreateStreamMsg(s))
    requires Lawful(h) && CallsOf(h) == Remote(client.types, server, log, SYSTEM, CreateStreamMsg(s)).1
    ensures var (x, calls) := Remote(client.types, server, log, SYSTEM, CreateStreamMsg(s));
            var before := Channels(Run(server.maps.types, OpsOf(h)).0, s);
            var after := Channels(Run(server.maps.types, OpsOf(h + later)).0, s);
            if s != [] && ValidUtf8(s)
            then calls == log + [Call(client.types[CREATE_STREAM], SYSTEM, CreateStreamMsg(s))]
              && before != []
              && |after| == |before| + Creations(OpsOf(later), s)
              && (forall c | 0 <= c < |before| :: before[c] <= after[c])
              && (Creations(OpsOf(h + later), s) == 0 ==> |after| == 1)
            else calls == log && EndVoid(x, client.ids, factories) == NoReply
  {
    hide Remote, Bytes, ReplyTo, Deliverable, Run, Channels, OpsOf;
    CreateStreamDeliverable(s);
    DeliveryExactly(client.types, server, log, SYSTEM, CreateStreamMsg(s));
    if s != [] && ValidUtf8(s) {
      var types, ops, more := server.maps.types, OpsOf(h), OpsOf(later);
      var call := Call(client.types[CREATE_STREAM], SYSTEM, CreateStreamMsg(s));
      assert CallsOf(h) == log + [call];
      assert call in CallsOf(h);
      var i := CreateStreamShows(h, s);
      EnsuredHasChannel(types, ops, i, s);
      OpsOfConcat(h, later);
      ChannelsOnlyGrow(types, ops, more, s);
      LaterCreationsAddExactlyOne(types, ops, more, s);
      if Creations(ops + more, s) == 0 {
        assert (ops + more)[i] == EnsureStream(s);
        EnsuringGivesOneChannel(types, ops + more, s);
      }
    }
  }

  /** PlumberClient's subscription manager. */
  class SubscriptionManagerImp {
    const bus: ProtoReqRspClientHandler
    var subscriptions: seq<ClientProtoSubscriptionStream>

    constructor (b: ProtoReqRspClientHandler)
      ensures bus == b && subscriptions == []
    {
      bus, subscriptions := b, [];
    }

    /** Subscribe: the stream is created remotely first; only if that returns normally is a running
        subscription stream made and remembered. */
    method Subscribe(name: bytes, d: EventDispatcher,
        server: ProtoReqRspSrvHandler) returns (stream: ClientProtoSubscriptionStream?)
      requires server.Ready()
      modifies this`subscriptions, bus`connected
      modifies server`up, server.dispatcher`log, server.inBuffer`written, server.inBuffer.buffer
      modifies server.outBuffer`written, server.outBuffer.buffer
      ensures server.Ready()
      ensures var (x, calls) := SendTo(old(server.up), bus.serializer.typeIdMap, server.SetUpValue(),
                                       old(server.dispatcher.log), (SYSTEM, CreateStreamMsg(name)));
              && server.dispatcher.log == calls && server.up == (old(server.up) && x != Unanswered)
              && (stream != null
                  <==> EndVoid(x, bus.serializer.messageIdMap, bus.exceptionFactories) == ClientOutcome.Done)
      ensures stream != null ==> fresh(stream) && stream.running && stream.streamName == name
      ensures stream != null ==> stream.serializer == bus.serializer && stream.dispatched == []
      ensures stream != null ==> subscriptions == old(subscriptions) + [stream]
      ensures stream == null ==> subscriptions == old(subscriptions)
    {
      hide SendTo, EndVoid;
      stream := null;
      var o := bus.Send(SYSTEM, CreateStreamMsg(name), server);
      if o != ClientOutcome.Done {
        return;
      }
      var made := new ClientProtoSubscriptionStream(name, bus.serializer, d);
      made.Start();
      subscriptions := subscriptions + [made];
      stream := made;
    }

    /** Unsubscribe: stops the stream and forgets its first entry. */
    method Unsubscribe(stream: ClientProtoSubscriptionStream)
      modifies this`subscriptions, stream`running
      ensures !stream.running
      ensures stream !in old(subscriptions) ==> subscriptions == old(subscriptions)
      ensures stream in old(subscriptions) ==>
                exists i | 0 <= i < |old(subscriptions)| ::
                  && old(subscriptions)[i] == stream && stream !in old(subscriptions)[..i]
                  && subscriptions == old(subscriptions)[..i] + old(subscriptions)[i + 1..]
    {
      stream.Stop();
      var i := 0;
      while i < |subscriptions| && subscriptions[i] != stream
        invariant i <= |subscriptions| && subscriptions == old(subscriptions) && stream !in subscriptions[..i]
      {
        i := i + 1;
      }
      if i < |subscriptions| {
        subscriptions := subscriptions[..i] + subscriptions[i + 1..];
      } else {
        assert subscriptions[..i] == subscriptions;
      }
    }
  }
}
