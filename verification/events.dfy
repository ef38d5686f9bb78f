/** Events on their way out: what a dispatcher makes of them, and their frames. */
module Events {
  import opened Wire
  import opened Codec
  import opened Registry
  import opened Cqrs
  import opened Frame
  import opened Server

  datatype Metadata = Metadata(stream: bytes, created: uint64)

  /** One call of an event dispatcher's Handle. */
  datatype Delivery = Delivery(meta: Metadata, id: uint32, event: Option<Message>)

  /** An event dispatcher: does Handle throw on a delivery, after the earlier ones? */
  type EventDispatcher = (seq<Delivery>, Delivery) -> bool

  // ---------- EventHandlerBase ----------

  /** What EventHandlerBase::Handle forwards to the derived class: an event of the type that its id is mapped
      to, if the class has a handler interface for it. */
  function ForwardedBy(mapped: IdMap, interfaces: set<MsgType>, id: uint32, event: Option<Message>): Option<Message>
  {
    if id !in mapped then None
    else if event == None || event.value.ty != mapped[id] then None
    else if mapped[id] !in interfaces then None
    else event
  }

  /** A handler's table, and the typed events forwarded to its derived class so far. */
  datatype HandlerState = HandlerState(handlers: IdMap, forwarded: seq<Message>)

  datatype HandlerOp = MapType(ty: MsgType, id: uint32) | HandleEvent(id: uint32, event: Option<Message>)

  function HandlerStep(st: HandlerState, interfaces: set<MsgType>, op: HandlerOp): HandlerState
  {
    match op
    case MapType(ty, id) => st.(handlers := st.handlers[id := ty])
    case HandleEvent(id, event) =>
      match ForwardedBy(st.handlers, interfaces, id, event)
      case Some(m) => st.(forwarded := st.forwarded + [m])
      case None => st
  }

  function HandlerRun(interfaces: set<MsgType>, ops: seq<HandlerOp>): HandlerState
  {
    if ops == [] then HandlerState(map[], [])
    else HandlerStep(HandlerRun(interfaces, ops[..|ops| - 1]), interfaces, ops[|ops| - 1])
  }

  /** Does the latest mapping of this id name this type? */
  ghost predicate LatestMapped(ops: seq<HandlerOp>, id: uint32, ty: MsgType)
  {
    exists i | 0 <= i < |ops| :: ops[i] == MapType(ty, id)
      && forall j | i < j < |ops| :: !(ops[j].MapType? && ops[j].id == id)
  }

  /** The events that belong to the derived class: those of the type that their id was mapped to last, if it
      has a handler interface for that type. */
  ghost function Belonging(interfaces: set<MsgType>, ops: seq<HandlerOp>): seq<Message>
  {
    if ops == [] then []
    else
      var n := |ops| - 1;
      var before := Belonging(interfaces, ops[..n]);
      if ops[n].HandleEvent? && ops[n].event.Some? && LatestMapped(ops[..n], ops[n].id, ops[n].event.value.ty)
         && ops[n].event.value.ty in interfaces
      then before + [ops[n].event.value] else before
  }

  lemma {:induction false} LatestMappedStep(ops: seq<HandlerOp>, id: uint32, ty: MsgType)
    requires ops != []
    ensures var n := |ops| - 1;
            LatestMapped(ops, id, ty)
            <==> if ops[n].MapType? && ops[n].id == id then ops[n].ty == ty else LatestMapped(ops[..n], id, ty)
  {
    var n := |ops| - 1;
    if ops[n].MapType? && ops[n].id == id {
      if LatestMapped(ops, id, ty) {
        var i :| 0 <= i < |ops| && ops[i] == MapType(ty, id)
                 && forall j | i < j < |ops| :: !(ops[j].MapType? && ops[j].id == id);
        assert i == n;
      }
    } else {
      if LatestMapped(ops, id, ty) {
        var i :| 0 <= i < |ops| && ops[i] == MapType(ty, id)
                 && forall j | i < j < |ops| :: !(ops[j].MapType? && ops[j].id == id);
        assert ops[..n][i] == MapType(ty, id);
      }
      if LatestMapped(ops[..n], id, ty) {
        var i :| 0 <= i < n && ops[..n][i] == MapType(ty, id)
                 && forall j | i < j < n :: !(ops[..n][j].MapType? && ops[..n][j].id == id);
        assert ops[i] == MapType(ty, id);
        forall j | i < j < |ops| ensures !(ops[j].MapType? && ops[j].id == id) {
          assert j < n ==> ops[..n][j] == ops[j];
        }
      }
    }
  }

  lemma {:induction false} MappedIsLatest(interfaces: set<MsgType>, ops: seq<HandlerOp>, id: uint32, ty: MsgType)
    ensures var mapped := HandlerRun(interfaces, ops).handlers;
            id in mapped && mapped[id] == ty <==> LatestMapped(ops, id, ty)
  {
    if ops != [] {
      hide LatestMapped, ForwardedBy;
      MappedIsLatest(interfaces, ops[..|ops| - 1], id, ty);
      LatestMappedStep(ops, id, ty);
    }
  }

  /** Over any run of mapping and handling, just the events that belong to the derived class are forwarded to
      it, once each and in order. */
  lemma {:induction false} ForwardedExactly(interfaces: set<MsgType>, ops: seq<HandlerOp>)
    ensures HandlerRun(interfaces, ops).forwarded == Belonging(interfaces, ops)
  {
    hide LatestMapped;
    if ops != [] {
      var n := |ops| - 1;
      ForwardedExactly(interfaces, ops[..n]);
      if ops[n].HandleEvent? && ops[n].event.Some? {
        MappedIsLatest(interfaces, ops[..n], ops[n].id, ops[n].event.value.ty);
      }
    }
  }

  class EventHandlerBase {
    /** The event types whose handler interface the derived class implements. */
    const interfaces: set<MsgType>
    var handlers: IdMap
    var messageTypeToId: TypeMap
    /** The typed events forwarded to the derived class. */
    var forwarded: seq<Message>

    function Value(): HandlerState reads this { HandlerState(handlers, forwarded) }

    constructor (implemented: set<MsgType>)
      ensures interfaces == implemented && Value() == HandlerRun(implemented, [])
    {
      interfaces := implemented;
      handlers, messageTypeToId, forwarded := map[], map[], [];
    }

    method Map(ty: MsgType, id: uint32)
      modifies this
      ensures handlers == old(handlers)[id := ty] && messageTypeToId == old(messageTypeToId)[ty := id]
      ensures Value() == HandlerStep(old(Value()), interfaces, MapType(ty, id))
    {
      messageTypeToId := messageTypeToId[ty := id];
      handlers := handlers[id := ty];
    }

    /** Throws exactly if the id is mapped and the event is not one for the derived class; an unmapped id
        changes nothing. */
    method Handle(id: uint32, event: Option<Message>) returns (threw: bool)
      modifies this`forwarded
      ensures threw <==>
              id in handlers && !(event.Some? && event.value.ty == handlers[id] && handlers[id] in interfaces)
      ensures Value() == HandlerStep(old(Value()), interfaces, HandleEvent(id, event))
      ensures threw || id !in handlers ==> forwarded == old(forwarded)
      ensures !threw && id in handlers ==> event.Some? && forwarded == old(forwarded) + [event.value]
    {
      if id !in handlers {
        return false;
      }
      if event == None || event.value.ty != handlers[id] {
        return true;
      }
      if handlers[id] !in interfaces {
        return true;
      }
      forwarded := forwarded + [event.value];
      threw := false;
    }
  }

  // ---------- Publishing to one channel ----------

  /** The frame for an event, or nothing when it is unregistered or does not fit. */
  function EventFrame(types: TypeMap, evt: Message, now: uint64): (f: Option<bytes>)
    ensures f.Some? ==> evt.ty in types
  {
    if evt.ty !in types then None
    else var h := EventHeaderMsg(now, types[evt.ty]);
      if 8 + |Bytes(h)| + |Bytes(evt)| <= CAPACITY then Some(FrameOf(Bytes(h), Bytes(evt))) else None
  }

  /** The frame in bytes: a header with the time and the type's id, and the event. An event of an unregistered
      type has none, and one that does not fit 64 KiB has none. */
  lemma {:induction false} EventFrameBytes(types: TypeMap, evt: Message, now: uint64)
    ensures evt.ty !in types ==> EventFrame(types, evt, now) == None
    ensures evt.ty in types ==>
              var h := NumberOnWire(8, now) + NumberOnWire(16, types[evt.ty]);
              EventFrame(types, evt, now) ==
              if |h| + |Bytes(evt)| <= 65528 then Some(Le32(|h|) + Le32(|Bytes(evt)|) + h + Bytes(evt)) else None
  {
    hide Bytes, NumberOnWire, Le32;
    if evt.ty in types {
      EventHeaderLayout(now, types[evt.ty]);
    }
  }

  /** Every registered event of at most 65511 bytes can be framed at any time. */
  lemma {:induction false} SmallEventsAlwaysFit(types: TypeMap, evt: Message, now: uint64)
    requires evt.ty in types && |Bytes(evt)| <= 65511
    ensures EventFrame(types, evt, now).Some?
  {
    EventHeaderIsSmall(now, types[evt.ty]);
  }

  /** The bound is tight: one byte more does not fit at the largest timestamp and message id. */
  lemma {:induction false} LargerEventsMayNotFit(types: TypeMap, evt: Message)
    requires evt.ty in types && types[evt.ty] == 0xFFFF_FFFF && |Bytes(evt)| == 65512
    ensures EventFrame(types, evt, 0xFFFF_FFFF_FFFF_FFFF) == None
  {
    var m := EventHeaderMsg(0xFFFF_FFFF_FFFF_FFFF, 0xFFFF_FFFF);
    EncodeTwo(m.ty.fields, m.rec);
    assert Pow128(4) == 0x1000_0000;
    VarintFits(0xFFFF_FFFF, 4);
    PowFour();
    VarintFits(0xFFFF_FFFF_FFFF_FFFF, 9);
  }

  lemma {:induction false} PowFour()
    ensures Pow128(9) == 0x8000_0000_0000_0000
  {
    assert Pow128(4) == 0x1000_0000;
    PowFive(4);
  }

  class ProtoPublishHandler {
    const serializer: MessageSerializer
    /** The frames handed to the socket. */
    var sent: seq<bytes>

    constructor (s: MessageSerializer)
      ensures serializer == s && sent == []
    {
      serializer, sent := s, [];
    }

    /** Returns false where the original throws. */
    method Publish(evt: Message, now: uint64) returns (ok: bool)
      modifies this`sent
      ensures match EventFrame(serializer.typeIdMap, evt, now)
              case Some(f) => ok && sent == old(sent) + [f]
              case None => !ok && sent == old(sent)
    {
      hide Bytes, Framed;
      var storage := new byte[CAPACITY];
      var frameBuffer := new ProtoFrameBufferView(serializer, storage);
      var id := serializer.GetMessageId(evt.ty);
      if id == None {
        return false;
      }
      var header := new EventHeader();
      header.timestamp := now;
      header.eventType := id.value;
      ghost var before := storage[..];
      var w := frameBuffer.Write(header.Msg(), evt);
      if !w.Wrote? {
        return false;
      }
      FramedAtZero(before, Bytes(header.Msg()), Bytes(evt));
      assert storage[..frameBuffer.written] == storage[..][..frameBuffer.written];
      sent := sent + [storage[..frameBuffer.written]];
      ok := true;
    }
  }
}
