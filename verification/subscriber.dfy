/** The receiving end of a channel: subscription streams that survive bad frames and throwing
    handlers, and what they make of a lossy channel. */
module Subscriber {
  import opened Wire
  import opened Codec
  import opened Registry
  import opened Cqrs
  import opened Frame
  import opened Events
  import opened EventStores
  import opened StoreRuns

  /** What one frame makes a stream dispatch: one delivery, or none if it cannot be decoded. */
  function DeliveryOf(ids: IdMap, stream: bytes, frame: bytes): seq<Delivery>
  {
    match ReadExactly(frame, ids, EVENTS)
    case Read(h, payload) => [Delivery(Metadata(stream, h.rec[0].n), h.rec[1].n, payload)]
    case _ => []
  }

  function DeliveriesOf(ids: IdMap, stream: bytes, frames: seq<bytes>): seq<Delivery>
  {
    if frames == [] then []
    else DeliveriesOf(ids, stream, frames[..|frames| - 1]) + DeliveryOf(ids, stream, frames[|frames| - 1])
  }

  /** A frame that cannot be read is dispatched as nothing, and any other one as one delivery with its time, its
      id and its payload, if it has one. */
  lemma {:induction false} FrameIsDispatchedExactly(ids: IdMap, stream: bytes, frame: bytes, now: uint64, id: uint32,
      m: Option<Message>)
    ensures DeliveryOf(ids, stream, frame) == [Delivery(Metadata(stream, now), id, m)]
       <==> ReadExactly(frame, ids, EVENTS) == ReadResult.Read(EventHeaderMsg(now, id), m)
    ensures DeliveryOf(ids, stream, frame) == [] <==> !ReadExactly(frame, ids, EVENTS).Read?
  {
    hide ReadFrame;
    match ReadExactly(frame, ids, EVENTS)
    case Read(h, _) =>
      assert h.rec == [Num(h.rec[0].n), Num(h.rec[1].n)];
    case _ =>
  }

  class ClientProtoSubscriptionStream {
    const streamName: bytes
    const serializer: MessageSerializer
    const dispatcher: EventDispatcher
    var running: bool
    /** The calls made to the dispatcher. */
    var dispatched: seq<Delivery>

    constructor (name: bytes, s: MessageSerializer, d: EventDispatcher)
      ensures streamName == name && serializer == s && !running && dispatched == []
    {
      streamName, serializer, dispatcher, running, dispatched := name, s, d, false, [];
    }

    method Start()
      modifies this`running
      ensures running
    {
      running := true;
    }

    method Stop()
      modifies this`running
      ensures !running
    {
      running := false;
    }

    /** OnMessageReceived: an exception, from reading or from the dispatcher, ends this message only. */
    method OnMessageReceived(buffer: array<byte>, size: nat)
      requires size <= buffer.Length <= INT_MAX
      modifies this`dispatched
      ensures dispatched == old(dispatched) +
              if running then DeliveryOf(serializer.messageIdMap, streamName, buffer[..size]) else []
    {
      hide ReadFrame;
      if !running {
        return;
      }
      var v := new ProtoFrameBufferView(serializer, buffer);
      v.AckWritten(size);
      var r := v.Read(EVENTS);
      ReadIgnoresStaleBytes(buffer[..], size, serializer.messageIdMap, EVENTS);
      assert buffer[..][..size] == buffer[..size];
      if !r.Read? {
        return;
      }
      var d := Delivery(Metadata(streamName, r.header.rec[0].n), r.header.rec[1].n, r.payload);
      var threw := dispatcher(dispatched, d);
      dispatched := dispatched + [d];
      if threw {
        return;
      }
    }
  }

  /** ProtoSubscribeHandler: its own handler table in place of a dispatcher. */
  class ProtoSubscribeHandler {
    const serializer: MessageSerializer
    var eventHandlers: IdMap
    var running: bool
    /** The typed events passed to user handlers, with their timestamps. */
    var handled: seq<(uint64, Message)>

    constructor ()
      ensures fresh(serializer) && eventHandlers == map[] && !running && handled == []
    {
      serializer := new MessageSerializer();
      eventHandlers, running, handled := map[], false, [];
    }

    /** A handler is stored only if its event type could be registered. */
    method RegisterHandler(ty: MsgType, id: uint32) returns (ok: bool)
      modifies this`eventHandlers, serializer
      ensures (serializer.Value(), ok) == Register(old(serializer.Value()), ty, id)
      ensures eventHandlers == if ok then old(eventHandlers)[id := ty] else old(eventHandlers)
    {
      ok := serializer.RegisterMessage(ty, id);
      if ok {
        eventHandlers := eventHandlers[id := ty];
      }
    }

    method Start()
      modifies this`running
      ensures running
    {
      running := true;
    }

    method Stop()
      modifies this`running
      ensures !running
    {
      running := false;
    }

    /** A frame reaches a handler exactly when it decodes to a delivery whose id is handled and whose
        event has the handler's type. */
    method OnMessageReceived(buffer: array<byte>, size: nat)
      requires size <= buffer.Length <= INT_MAX
      modifies this`handled
      ensures var ds := if running then DeliveryOf(serializer.messageIdMap, [], buffer[..size]) else [];
              handled == if ds != [] && ds[0].id in eventHandlers
                            && ds[0].event.Some? && ds[0].event.value.ty == eventHandlers[ds[0].id]
                         then old(handled) + [(ds[0].meta.created, ds[0].event.value)] else old(handled)
    {
      hide ReadFrame;
      if !running {
        return;
      }
      var v := new ProtoFrameBufferView(serializer, buffer);
      v.AckWritten(size);
      var r := v.Read(EVENTS);
      ReadIgnoresStaleBytes(buffer[..], size, serializer.messageIdMap, EVENTS);
      assert buffer[..][..size] == buffer[..size];
      if !r.Read? {
        return;
      }
      var id := r.header.rec[1].n;
      if id !in eventHandlers {
        return;
      }
      if r.payload == None || r.payload.value.ty != eventHandlers[id] {
        return;
      }
      handled := handled + [(r.header.rec[0].n, r.payload.value)];
    }
  }

  // ---------- Every run of a stream ----------

  datatype StreamOp = Start | Stop | Receive(frame: bytes)

  datatype StreamState = StreamState(running: bool, dispatched: seq<Delivery>)

  function StreamRun(ids: IdMap, stream: bytes, ops: seq<StreamOp>): StreamState
  {
    if ops == [] then StreamState(false, [])
    else
      var n := |ops| - 1;
      var st := StreamRun(ids, stream, ops[..n]);
      match ops[n]
      case Start => st.(running := true)
      case Stop => st.(running := false)
      case Receive(f) => if st.running then st.(dispatched := st.dispatched + DeliveryOf(ids, stream, f)) else st
  }

  /** Is there a start that no later stop undoes? */
  ghost predicate Running(ops: seq<StreamOp>)
  {
    exists i | 0 <= i < |ops| :: ops[i] == Start && forall j | i < j < |ops| :: ops[j] != Stop
  }

  /** The frames received while running. */
  ghost function Admitted(ops: seq<StreamOp>): seq<bytes>
  {
    if ops == [] then []
    else
      var n := |ops| - 1;
      if ops[n].Receive? && Running(ops[..n]) then Admitted(ops[..n]) + [ops[n].frame] else Admitted(ops[..n])
  }

  lemma {:induction false} RunningStep(ops: seq<StreamOp>)
    requires ops != []
    ensures var n := |ops| - 1; Running(ops) <==> ops[n] == Start || (Running(ops[..n]) && ops[n] != Stop)
  {
    var n := |ops| - 1;
    if Running(ops[..n]) && ops[n] != Stop {
      var i :| 0 <= i < n && ops[..n][i] == Start && forall j | i < j < n :: ops[..n][j] != Stop;
      assert ops[i] == Start;
      forall j | i < j < |ops| ensures ops[j] != Stop { assert j < n ==> ops[..n][j] == ops[j]; }
    }
    if Running(ops) && ops[n] != Start {
      var i :| 0 <= i < |ops| && ops[i] == Start && forall j | i < j < |ops| :: ops[j] != Stop;
      assert ops[..n][i] == Start;
    }
  }

  /** A stream's dispatched log is the in-order decoding of the frames received while it ran:
      frames that do not decode, and handlers that throw, change nothing about the others. */
  lemma {:induction false} StreamDispatchesWhatItAdmits(ids: IdMap, stream: bytes, ops: seq<StreamOp>)
    ensures var st := StreamRun(ids, stream, ops);
            (st.running <==> Running(ops)) && st.dispatched == DeliveriesOf(ids, stream, Admitted(ops))
  {
    hide DeliveryOf, Running;
    if ops == [] {
      NotRunningYet();
    } else {
      var n := |ops| - 1;
      StreamDispatchesWhatItAdmits(ids, stream, ops[..n]);
      RunningStep(ops);
      if ops[n].Receive? && Running(ops[..n]) {
        var a := Admitted(ops[..n]);
        assert (a + [ops[n].frame])[..|a|] == a;
      }
    }
  }

  lemma {:induction false} NotRunningYet()
    ensures !Running([])
  {
  }

  // ---------- From a channel to its subscriber ----------

  /** Can evt reach a reader with these ids? Its type needs a nonzero id that the reader ties to the
      same type, its strings must be readable, and its encoding must not be empty. */
  predicate Receivable(types: TypeMap, ids: IdMap, evt: Message)
  {
    && evt.ty in types && types[evt.ty] != 0
    && types[evt.ty] in ids && ids[types[evt.ty]] == evt.ty
    && Sendable(evt) && Bytes(evt) != []
  }

  /** What a published event should arrive as. */
  function Arrival(types: TypeMap, stream: bytes, e: (Message, uint64)): Delivery
  {
    Delivery(Metadata(stream, e.1), if e.0.ty in types then types[e.0.ty] else 0, Some(e.0))
  }

  /** The reader does not take the event's nonzero id for another type's. It need not know the id. */
  predicate Unambiguous(types: TypeMap, ids: IdMap, evt: Message)
  {
    evt.ty in types ==> types[evt.ty] != 0 && (types[evt.ty] in ids ==> ids[types[evt.ty]] == evt.ty)
  }

  lemma {:induction false} ReceivableIsUnambiguous(types: TypeMap, ids: IdMap, evt: Message)
    requires Receivable(types, ids, evt)
    ensures Unambiguous(types, ids, evt)
  {
  }

  /** What a published frame is dispatched as: the very event, id and time that were published if the
      event is receivable, and nothing otherwise. */
  lemma {:induction false} FrameArrives(types: TypeMap, ids: IdMap, stream: bytes, evt: Message, now: uint64)
    requires Unambiguous(types, ids, evt) && EventFrame(types, evt, now).Some?
    ensures DeliveryOf(ids, stream, EventFrame(types, evt, now).value)
         == if Receivable(types, ids, evt) then [Arrival(types, stream, (evt, now))] else []
  {
    hide ReadFrame, Bytes, ParseAs;
    var h := EventHeaderMsg(now, types[evt.ty]);
    var f := FrameOf(Bytes(h), Bytes(evt));
    ReadOfFrame(ids, EVENTS, h, Bytes(evt), []);
    ParseAsUndoesBytes(evt);
    assert f + [] == f;
    assert Readable(h.ty.fields[0].kind, h.rec[0]) && Readable(h.ty.fields[1].kind, h.rec[1]);
  }

  /** A reader that does tie the id to another type dispatches another event: the same record under
      that type's name, if the two tables are alike. */
  lemma {:induction false} AmbiguousIdMisleads(types: TypeMap, ids: IdMap, stream: bytes, evt: Message, now: uint64)
    requires EventFrame(types, evt, now).Some? && types[evt.ty] != 0 && Sendable(evt) && Bytes(evt) != []
    requires types[evt.ty] in ids && ids[types[evt.ty]].fields == evt.ty.fields
    ensures DeliveryOf(ids, stream, EventFrame(types, evt, now).value)
         == [Delivery(Metadata(stream, now), types[evt.ty], Some(RawMessage(ids[types[evt.ty]], evt.rec)))]
  {
    hide ReadFrame, Bytes, ParseAs;
    var h := EventHeaderMsg(now, types[evt.ty]);
    var f := FrameOf(Bytes(h), Bytes(evt));
    var read := RawMessage(ids[types[evt.ty]], evt.rec);
    ReadOfFrame(ids, EVENTS, h, Bytes(evt), []);
    SameEncoding(evt, read);
    ParseAsUndoesBytes(read);
    assert f + [] == f;
    assert Readable(h.ty.fields[0].kind, h.rec[0]) && Readable(h.ty.fields[1].kind, h.rec[1]);
  }

  lemma {:induction false} SameEncoding(m: Message, n: Message)
    requires m.ty.fields == n.ty.fields && m.rec == n.rec
    ensures Bytes(m) == Bytes(n) && Sendable(m) == Sendable(n)
  {
  }

  /** xs is ys with elements left out. */
  predicate IsSubsequence<T(==)>(xs: seq<T>, ys: seq<T>)
  {
    xs == [] || (ys != [] &&
      var x, y := xs[|xs| - 1], ys[|ys| - 1];
      ((x == y && IsSubsequence(xs[..|xs| - 1], ys[..|ys| - 1])) || IsSubsequence(xs, ys[..|ys| - 1])))
  }

  lemma {:induction false} SubsequenceCases<T>(xs: seq<T>, ys: seq<T>)
    requires IsSubsequence(xs, ys) && xs != []
    ensures ys != []
    ensures var m, n := |xs| - 1, |ys| - 1;
            (xs[m] == ys[n] && IsSubsequence(xs[..m], ys[..n])) || IsSubsequence(xs, ys[..n])
  {
  }

  lemma {:induction false} SubsequenceGrows<T>(xs: seq<T>, ys: seq<T>, zs: seq<T>)
    requires IsSubsequence(xs, ys) && |zs| <= 1
    ensures IsSubsequence(xs, ys + zs) && IsSubsequence(xs + zs, ys + zs)
  {
    if zs == [] {
      assert xs + zs == xs && ys + zs == ys;
    } else {
      assert (xs + zs)[..|xs|] == xs && (ys + zs)[..|ys|] == ys;
    }
  }

  function Arrivals(types: TypeMap, stream: bytes, events: seq<(Message, uint64)>): (ds: seq<Delivery>)
    ensures |ds| == |events|
  {
    seq(|events|, i requires 0 <= i < |events| => Arrival(types, stream, events[i]))
  }

  /** The events among these that the reader can receive. */
  function Survivors(types: TypeMap, ids: IdMap, events: seq<(Message, uint64)>): seq<(Message, uint64)>
  {
    if events == [] then []
    else
      var n := |events| - 1;
      var before := Survivors(types, ids, events[..n]);
      if Receivable(types, ids, events[n].0) then before + [events[n]] else before
  }

  ghost predicate AllUnambiguous(types: TypeMap, ids: IdMap, events: seq<(Message, uint64)>)
  {
    forall i | 0 <= i < |events| :: Unambiguous(types, ids, events[i].0)
  }

  lemma {:induction false} FramesAreMany(types: TypeMap, events: seq<(Message, uint64)>, frames: seq<bytes>)
    requires FramesFor(types, events, frames)
    ensures |frames| == |events|
  {
  }

  /** The last of several frames adds its delivery to the arrivals, if it has one. */
  lemma {:induction false} LastFrame(types: TypeMap, ids: IdMap, stream: bytes, events: seq<(Message, uint64)>,
      frames: seq<bytes>)
    requires events != [] && FramesFor(types, events, frames) && AllUnambiguous(types, ids, events)
    ensures var n := |events| - 1;
            && |frames| == |events|
            && FramesFor(types, events[..n], frames[..n]) && AllUnambiguous(types, ids, events[..n])
            && |DeliveryOf(ids, stream, frames[n])| <= 1
            && Arrivals(types, stream, Survivors(types, ids, events))
               == Arrivals(types, stream, Survivors(types, ids, events[..n])) + DeliveryOf(ids, stream, frames[n])
  {
    hide EventFrame, DeliveryOf, Receivable, Unambiguous, Arrival;
    var n := |events| - 1;
    FrameArrives(types, ids, stream, events[n].0, events[n].1);
  }

  lemma {:induction false} DeliveriesStep(ids: IdMap, stream: bytes, frames: seq<bytes>)
    requires frames != []
    ensures var n := |frames| - 1;
            DeliveriesOf(ids, stream, frames) ==
            DeliveriesOf(ids, stream, frames[..n]) + DeliveryOf(ids, stream, frames[n])
  {
    hide DeliveryOf;
  }

  lemma {:induction false} NothingPublished(types: TypeMap, ids: IdMap, stream: bytes)
    ensures DeliveriesOf(ids, stream, []) == [] && Arrivals(types, stream, Survivors(types, ids, [])) == []
  {
  }

  lemma {:induction false} NothingIsSubsequence<T>(ys: seq<T>)
    ensures IsSubsequence([], ys)
  {
  }

  /** Over a channel that loses nothing, the receivable events are dispatched, and only these. */
  lemma {:induction false} LosslessChannel(types: TypeMap, ids: IdMap, stream: bytes, events: seq<(Message, uint64)>,
      sent: seq<bytes>)
    requires AllUnambiguous(types, ids, events) && FramesFor(types, events, sent)
    ensures DeliveriesOf(ids, stream, sent) == Arrivals(types, stream, Survivors(types, ids, events))
    decreases |events|
  {
    hide FramesFor, AllUnambiguous, DeliveryOf, DeliveriesOf, Arrivals, Survivors;
    FramesAreMany(types, events, sent);
    if events == [] {
      NothingPublished(types, ids, stream);
    } else {
      var n := |events| - 1;
      LastFrame(types, ids, stream, events, sent);
      DeliveriesStep(ids, stream, sent);
      LosslessChannel(types, ids, stream, events[..n], sent[..n]);
    }
  }

  lemma {:induction false} LossyChannel(types: TypeMap, ids: IdMap, stream: bytes, events: seq<(Message, uint64)>,
      sent: seq<bytes>, got: seq<bytes>)
    requires AllUnambiguous(types, ids, events) && FramesFor(types, events, sent) && IsSubsequence(got, sent)
    ensures IsSubsequence(DeliveriesOf(ids, stream, got), Arrivals(types, stream, Survivors(types, ids, events)))
    decreases |events|
  {
    hide FramesFor, AllUnambiguous, DeliveryOf, DeliveriesOf, Arrivals, Survivors, IsSubsequence;
    FramesAreMany(types, events, sent);
    if got == [] {
      NothingPublished(types, ids, stream);
      NothingIsSubsequence(Arrivals(types, stream, Survivors(types, ids, events)));
    } else {
      SubsequenceCases(got, sent);
      var n, g := |events| - 1, |got| - 1;
      var early, last := Arrivals(types, stream, Survivors(types, ids, events[..n])), DeliveryOf(ids, stream, sent[n]);
      LastFrame(types, ids, stream, events, sent);
      if got[g] == sent[n] && IsSubsequence(got[..g], sent[..n]) {
        LossyChannel(types, ids, stream, events[..n], sent[..n], got[..g]);
        DeliveriesStep(ids, stream, got);
        SubsequenceGrows(DeliveriesOf(ids, stream, got[..g]), early, last);
      } else {
        LossyChannel(types, ids, stream, events[..n], sent[..n], got);
        SubsequenceGrows(DeliveriesOf(ids, stream, got), early, last);
      }
    }
  }

  /** What comes through a lossy first-in first-out channel is dispatched as a subsequence of the
      receivable events among those published, whatever else was published between them; over a
      channel that loses nothing, as exactly these. */
  lemma {:induction false} LossyChannelKeepsOrder(types: TypeMap, ids: IdMap, stream: bytes,
      events: seq<(Message, uint64)>, sent: seq<bytes>, got: seq<bytes>)
    requires AllUnambiguous(types, ids, events) && FramesFor(types, events, sent) && IsSubsequence(got, sent)
    ensures var all := Arrivals(types, stream, Survivors(types, ids, events));
            && IsSubsequence(DeliveriesOf(ids, stream, got), all)
            && (got == sent ==> DeliveriesOf(ids, stream, got) == all)
  {
    hide FramesFor, AllUnambiguous, DeliveriesOf, Arrivals, Survivors, IsSubsequence;
    LossyChannel(types, ids, stream, events, sent, got);
    LosslessChannel(types, ids, stream, events, sent);
  }

  /** End to end: after any run of the server's store, a subscriber that keeps running and receives
      some of the frames of a channel, in order, dispatches a subsequence of the events it can receive
      among those published to the stream since the channel was created; if it receives all the
      frames, it dispatches exactly those events. */
  lemma {:induction false} SubscriberHearsTheStream(types: TypeMap, ids: IdMap, ops: seq<Op>, s: bytes, c: nat,
      got: seq<bytes>)
    requires c < |Channels(Run(types, ops).0, s)| && IsSubsequence(got, Channels(Run(types, ops).0, s)[c])
    requires AllUnambiguous(types, ids, Announced(types, ops, s, c))
    ensures var all := Arrivals(types, s, Survivors(types, ids, Announced(types, ops, s, c)));
            && IsSubsequence(DeliveriesOf(ids, s, got), all)
            && (got == Channels(Run(types, ops).0, s)[c] ==> DeliveriesOf(ids, s, got) == all)
  {
    EachChannelCarriesItsStream(types, ops, s);
    LossyChannelKeepsOrder(types, ids, s, Announced(types, ops, s, c), Channels(Run(types, ops).0, s)[c], got);
  }
}
