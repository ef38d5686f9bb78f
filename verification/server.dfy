/** The server half of the command protocol: one request in, one response out, over two buffers
    that are reused and never cleared. */
module Server {
  import opened Wire
  import opened Codec
  import opened Writer
  import opened Registry
  import opened Dispatcher
  import opened Cqrs
  import opened Frame

  const CAPACITY := 0x1_0000

  /** A C string ends at its first zero byte; what() is read as one. */
  function CStr(s: bytes): (t: bytes)
    ensures t <= s && 0 !in t
    ensures t == s <==> 0 !in s
    ensures |t| < |s| ==> s[|t|] == 0
  {
    if s == [] || s[0] == 0 then [] else [s[0]] + CStr(s[1..])
  }

  datatype Served = Reply(frame: bytes) | Stop

  /** The response header and payload for a handler's outcome. A fault's details never travel, and
      a typed reply travels without its type; any exception but a fault goes unanswered. */
  function ResponseTo(o: Outcome): Option<(Message, bytes)>
  {
    match o
    case Returned => Some((CommandResponseMsg(200, [], 0), []))
    case Responded(m) => Some((CommandResponseMsg(200, [], 0), Bytes(m)))
    case Faulted(what, code, typeId) => Some((CommandResponseMsg(code, CStr(what), typeId), []))
    case Threw => None
  }

  /** A response that does not fit stops the server like any other error. */
  function ReplyTo(o: Outcome): Served
  {
    match ResponseTo(o)
    case None => Stop
    case Some((h, p)) => if 8 + |Bytes(h)| + |p| <= CAPACITY then Reply(FrameOf(Bytes(h), p)) else Stop
  }

  lemma {:induction false} SuccessHeader()
    ensures Bytes(CommandResponseMsg(200, [], 0)) == [8, 0xC8, 1]
  {
    hide Bytes, CommandResponseMsg;
    CommandResponseLayout(200, [], 0);
    assert Varint(200) == [0xC8, 1];
    assert [8] + Varint(200) == [8, 0xC8, 1];
  }

  /** A void handler that returns is answered with these eleven bytes: status 200 and no payload. */
  lemma {:induction false} VoidReplyBytes()
    ensures ReplyTo(Returned) == Reply([3, 0, 0, 0, 0, 0, 0, 0, 8, 0xC8, 1])
  {
    hide Bytes, CommandResponseMsg;
    SuccessHeader();
    var header: bytes := [8, 0xC8, 1];
    assert FrameOf(header, []) == [3, 0, 0, 0, 0, 0, 0, 0, 8, 0xC8, 1];
  }

  /** A typed handler's reply in bytes: the same success header, and the message behind it. */
  lemma {:induction false} TypedReplyBytes(m: Message)
    ensures ReplyTo(Responded(m))
         == if |Bytes(m)| <= 65525 then Reply([3, 0, 0, 0] + Le32(|Bytes(m)|) + [8, 0xC8, 1] + Bytes(m)) else Stop
  {
    hide Bytes, CommandResponseMsg;
    SuccessHeader();
    assert Le32(3) == [3, 0, 0, 0];
  }

  /** A fault in bytes: its code, its text up to the first zero byte and its detail type, and no payload. */
  lemma {:induction false} FaultReplyBytes(what: bytes, code: uint32, typeId: uint32)
    ensures var h := NumberOnWire(8, code) + StringOnWire(18, CStr(what)) + NumberOnWire(24, typeId);
            ReplyTo(Faulted(what, code, typeId)) ==
            if |h| <= 65528 then Reply(Le32(|h|) + [0, 0, 0, 0] + h) else Stop
  {
    hide Bytes, CommandResponseMsg, NumberOnWire, StringOnWire, Le32;
    CommandResponseLayout(code, CStr(what), typeId);
    LeZero();
    var h := Bytes(CommandResponseMsg(code, CStr(what), typeId));
    if |h| <= 65528 {
      assert Le32(|h|) + Le32(0) + h + [] == Le32(|h|) + Le32(0) + h;
    }
  }

  lemma {:induction false} LeZero()
    ensures Le32(0) == [0, 0, 0, 0]
  {
  }

  /** Any other exception goes unanswered. */
  lemma {:induction false} OtherExceptionStops()
    ensures ReplyTo(Threw) == Stop
  {
  }

  /** What a request comes to: malformed, unregistered, unhandled and mismatched requests all stop
      the server before any handler runs. */
  function DispatchRequest(ids: IdMap, handlers: HandlerMap, log: seq<Call>, r: ReadResult): Dispatched
    requires r.Read? ==> r.header.ty == COMMAND_HEADER
  {
    if !r.Read? then NoHandler
    else var id := Selected(COMMANDS, r.header);
      if id !in ids then NoHandler
      else Dispatch(handlers, log, r.header.rec[1].b, id, r.payload)
  }

  /** One request, on values: the reply, and the log of handler calls afterwards. */
  function Serve(ids: IdMap, handlers: HandlerMap, log: seq<Call>, request: bytes): (Served, seq<Call>)
  {
    var d := DispatchRequest(ids, handlers, log, ReadExactly(request, ids, COMMANDS));
    (if d.Ran? then ReplyTo(d.outcome) else Stop, LogAfter(log, d))
  }

  /** Over all requests: a handler runs, once, exactly if the request is a frame whose header names a
      registered and handled id and whose payload has the handler's type; the answer is then that to the
      handler's outcome. Every other request stops the server and reaches no handler. */
  lemma {:induction false} ServesExactly(ids: IdMap, handlers: HandlerMap, log: seq<Call>, request: bytes)
    ensures match ReadExactly(request, ids, COMMANDS)
            case Read(h, payload) =>
              var id, recipient := h.rec[0].n, h.rec[1].b;
              if id in ids && id in handlers && payload.Some? && payload.value.ty == handlers[id].expects
              then Serve(ids, handlers, log, request) ==
                   (ReplyTo(handlers[id].run(log, recipient, payload.value)),
                    log + [Call(id, recipient, payload.value)])
              else Serve(ids, handlers, log, request) == (Stop, log)
            case _ => Serve(ids, handlers, log, request) == (Stop, log)
  {
    hide ReadFrame, Dispatch, ReplyTo;
    match ReadExactly(request, ids, COMMANDS)
    case Read(h, payload) => DispatchRunsExactly(handlers, log, h.rec[1].b, h.rec[0].n, payload);
    case _ =>
  }

  /** A whole session: replies in order, the log, and whether the server is still up. */
  datatype Session = Session(replies: seq<bytes>, log: seq<Call>, up: bool)

  function ServeAll(ids: IdMap, handlers: HandlerMap, log: seq<Call>, requests: seq<bytes>): Session
  {
    if requests == [] then Session([], log, true)
    else
      var n := |requests| - 1;
      var before := ServeAll(ids, handlers, log, requests[..n]);
      if !before.up then before
      else match Serve(ids, handlers, before.log, requests[n])
        case (Reply(f), calls) => Session(before.replies + [f], calls, true)
        case (Stop, calls) => Session(before.replies, calls, false)
  }

  /** The k-th reply answers the k-th request, from the handler state that the requests before it
      left behind and nothing else; a session's replies only ever grow. */
  lemma {:induction false} KthReplyAnswersKthRequest(ids: IdMap, handlers: HandlerMap, log: seq<Call>,
      requests: seq<bytes>, k: nat)
    requires k < |requests|
    ensures var s := ServeAll(ids, handlers, log, requests);
            var before := ServeAll(ids, handlers, log, requests[..k]);
            && before.replies <= s.replies && |s.replies| <= |requests|
            && (before.up <==> |before.replies| == k)
            && (k < |s.replies| ==> Serve(ids, handlers, before.log, requests[k]).0 == Reply(s.replies[k]))
            && (k >= |s.replies| ==> !s.up)
            && (k == |s.replies| ==> before.up && Serve(ids, handlers, before.log, requests[k]) == (Stop, s.log))
  {
    hide Serve;
    var n := |requests| - 1;
    SessionLength(ids, handlers, log, requests[..k]);
    SessionLength(ids, handlers, log, requests[..n]);
    if k < n {
      assert requests[..n][..k] == requests[..k];
      KthReplyAnswersKthRequest(ids, handlers, log, requests[..n], k);
    }
  }

  lemma {:induction false} SessionLength(ids: IdMap, handlers: HandlerMap, log: seq<Call>, requests: seq<bytes>)
    ensures var s := ServeAll(ids, handlers, log, requests);
            |s.replies| <= |requests| && (s.up <==> |s.replies| == |requests|)
  {
    hide Serve;
    if requests != [] {
      SessionLength(ids, handlers, log, requests[..|requests| - 1]);
    }
  }

  /** A server that has stopped stays stopped: later requests get no reply and reach no handler. */
  lemma {:induction false} StoppedForGood(ids: IdMap, handlers: HandlerMap, log: seq<Call>, first: seq<bytes>,
      more: seq<bytes>)
    requires !ServeAll(ids, handlers, log, first).up
    ensures ServeAll(ids, handlers, log, first + more) == ServeAll(ids, handlers, log, first)
  {
    if more == [] {
      assert first + more == first;
    } else {
      var n := |more| - 1;
      StoppedForGood(ids, handlers, log, first, more[..n]);
      assert (first + more)[..|first| + n] == first + more[..n];
    }
  }

  // ---------- The handler object ----------

  datatype Handled = Sent(size: nat) | Stopped

  class ProtoReqRspSrvHandler {
    const serializer: MessageSerializer
    const dispatcher: MessageDispatcher
    var running: bool
    /** The socket's receive loop is at work: it has been started, and no request has stopped it. */
    var up: bool
    var inBuffer: ProtoFrameBufferView?
    var outBuffer: ProtoFrameBufferView?

    /** The server has been started: both buffers are there, whatever bytes they hold. */
    ghost predicate Ready()
      reads this, inBuffer, outBuffer
    {
      && inBuffer != null && outBuffer != null && inBuffer != outBuffer
      && inBuffer.Valid() && inBuffer.buffer.Length == CAPACITY && inBuffer.serializer == serializer
      && outBuffer.Valid() && outBuffer.buffer.Length == CAPACITY
      && inBuffer.buffer != outBuffer.buffer
    }

    constructor (s: MessageSerializer)
      ensures serializer == s && fresh(dispatcher) && !running && !up
      ensures dispatcher.handlers == map[] && dispatcher.log == []
    {
      serializer, running, up, inBuffer, outBuffer := s, false, false, null, null;
      dispatcher := new MessageDispatcher();
    }

    /** The set-up of this server. */
    function SetUpValue(): ServerTables reads serializer, dispatcher
    {
      ServerTables(serializer.Value(), dispatcher.handlers)
    }

    /** RegisterHandler and RegisterHandlerWithMetadata. */
    method RegisterHandler(ty: MsgType, id: uint32, run: Behaviour) returns (ok: bool)
      modifies serializer, dispatcher
      ensures SetUpValue() == DoStep(old(SetUpValue()), AddHandler(ty, id, run))
      ensures ok == Register(old(serializer.Value()), ty, id).1
      ensures dispatcher.log == old(dispatcher.log)
    {
      ok := serializer.RegisterMessage(ty, id);
      if ok {
        dispatcher.RegisterHandler(ty, id, run);
      }
    }

    /** The typed RegisterHandler: the request and the response are registered first, and the handler is
        stored only if neither is refused. */
    method RegisterTypedHandler(ty: MsgType, id: uint32, replyTy: MsgType, replyId: uint32,
        run: Behaviour) returns (ok: bool)
      modifies serializer, dispatcher
      ensures var first := DoStep(old(SetUpValue()), AddMessage(ty, id));
              var second := DoStep(first, AddMessage(replyTy, replyId));
              if !Register(old(serializer.Value()), ty, id).1 then !ok && SetUpValue() == first
              else if !Register(first.maps, replyTy, replyId).1 then !ok && SetUpValue() == second
              else ok && SetUpValue() == DoStep(second, AddHandler(ty, id, run))
      ensures dispatcher.log == old(dispatcher.log)
    {
      ok := serializer.RegisterMessage(ty, id);
      if !ok {
        return;
      }
      ok := serializer.RegisterMessage(replyTy, replyId);
      if ok {
        dispatcher.RegisterHandler(ty, id, run);
      }
    }

    /** RegisterError. */
    method RegisterError(ty: MsgType, id: uint32) returns (ok: bool)
      modifies serializer
      ensures SetUpValue() == DoStep(old(SetUpValue()), AddMessage(ty, id))
      ensures ok == Register(old(serializer.Value()), ty, id).1
    {
      ok := serializer.RegisterMessage(ty, id);
    }

    /** Returns true when the server was running already. */
    method OnStart() returns (already: bool)
      modifies this`inBuffer, this`outBuffer
      ensures already == running
      ensures already ==> inBuffer == old(inBuffer) && outBuffer == old(outBuffer)
      ensures !already ==> Ready() && fresh(inBuffer) && fresh(outBuffer)
      ensures !already ==> fresh(inBuffer.buffer) && fresh(outBuffer.buffer)
    {
      if running {
        return true;
      }
      var a, b := new byte[CAPACITY], new byte[CAPACITY];
      inBuffer := new ProtoFrameBufferView(serializer, a);
      outBuffer := new ProtoFrameBufferView(serializer, b);
      already := false;
    }

    method Start()
      requires running ==> Ready()
      modifies this
      ensures running && Ready()
      ensures old(running) ==> inBuffer == old(inBuffer) && outBuffer == old(outBuffer) && up == old(up)
      ensures !old(running) ==> up
    {
      var already := OnStart();
      if already {
        return;
      }
      up := true;
      running := true;
    }

    method Stop()
      modifies this`running
      ensures !running
    {
      running := false;
    }

    /** Handles the request in the first requestSize bytes of the input buffer. The reply and the
        handler calls are those of Serve on just these bytes. */
    method HandleRequest(requestSize: nat) returns (r: Handled)
      requires Ready() && requestSize <= CAPACITY
      modifies dispatcher`log, inBuffer`written, outBuffer`written, outBuffer.buffer
      ensures Ready()
      ensures var (served, log) := Serve(serializer.messageIdMap, dispatcher.handlers, old(dispatcher.log),
                                         inBuffer.buffer[..requestSize]);
              && dispatcher.log == log
              && match served
                 case Reply(f) => r == Sent(|f|) && |f| <= CAPACITY && outBuffer.buffer[..|f|] == f
                 case Stop => r == Stopped
    {
      hide ReadFrame, Dispatch, CommandResponseMsg;
      inBuffer.AckWritten(requestSize);
      outBuffer.Reset();
      var read := inBuffer.Read(COMMANDS);
      ReadIgnoresStaleBytes(inBuffer.buffer[..], requestSize, serializer.messageIdMap, COMMANDS);
      assert inBuffer.buffer[..][..requestSize] == inBuffer.buffer[..requestSize];
      if !read.Read? {
        return Stopped;
      }
      var header := read.header;
      var id := Selected(COMMANDS, header);
      var name := serializer.GetMessageName(id);
      if name == None {
        return Stopped;
      }
      var d := dispatcher.Handle(header.rec[1].b, id, read.payload);
      if !d.Ran? {
        return Stopped;
      }
      r := Respond(d.outcome);
    }

    /** Writes the response to a handler's outcome into the reset output buffer. */
    method Respond(o: Outcome) returns (r: Handled)
      requires Ready() && outBuffer.written == 0
      modifies outBuffer`written, outBuffer.buffer
      ensures Ready()
      ensures match ReplyTo(o)
              case Reply(f) => r == Sent(|f|) && |f| <= CAPACITY && outBuffer.buffer[..|f|] == f
              case Stop => r == Stopped
    {
      hide Bytes, Splice, CommandResponseMsg;
      ghost var before := outBuffer.buffer[..];
      var w;
      match o {
        case Returned =>
          w := outBuffer.WriteHeader(CommandResponseMsg(200, [], 0));
        case Responded(reply) =>
          w := outBuffer.WritePtr(CommandResponseMsg(200, [], 0), Some(reply));
        case Faulted(what, code, typeId) =>
          w := outBuffer.WritePtr(CommandResponseMsg(code, CStr(what), typeId), None);
        case Threw =>
          return Stopped;
      }
      if !w.Wrote? {
        return Stopped;
      }
      ghost var (h, p) := ResponseTo(o).value;
      FramedAtZero(before, Bytes(h), p);
      r := Sent(outBuffer.written);
    }

    /** One turn of the receive loop: receive into the reused input buffer, handle, send. A request that
        stops the server ends the loop. */
    method Turn(request: bytes) returns (reply: Option<bytes>)
      requires Ready() && up && |request| <= CAPACITY
      modifies this`up, dispatcher`log, inBuffer`written, inBuffer.buffer, outBuffer`written, outBuffer.buffer
      ensures Ready()
      ensures var (served, log) := Serve(serializer.messageIdMap, dispatcher.handlers, old(dispatcher.log), request);
              && dispatcher.log == log && up == served.Reply?
              && reply == match served case Reply(f) => Some(f) case Stop => None
    {
      hide Serve;
      var end := WriteRaw(request, inBuffer.buffer, 0);
      assert inBuffer.buffer[..|request|] == inBuffer.buffer[..][..|request|] == request;
      var handled := HandleRequest(end);
      match handled {
        case Sent(size) => reply := Some(outBuffer.buffer[..size]);
        case Stopped => reply, up := None, false;
      }
    }

    /** ReceiveLoop over the requests that arrive, until one of them stops the server. */
    method ReceiveLoop(requests: seq<bytes>) returns (replies: seq<bytes>)
      requires Ready() && up && forall i | 0 <= i < |requests| :: |requests[i]| <= CAPACITY
      modifies this`up, dispatcher`log, inBuffer`written, inBuffer.buffer, outBuffer`written, outBuffer.buffer
      ensures Ready()
      ensures Session(replies, dispatcher.log, up)
           == ServeAll(serializer.messageIdMap, dispatcher.handlers, old(dispatcher.log), requests)
    {
      hide Serve;
      ghost var ids, handlers, log := serializer.messageIdMap, dispatcher.handlers, dispatcher.log;
      replies := [];
      var i := 0;
      while up && i < |requests|
        invariant i <= |requests| && Ready()
        invariant dispatcher.handlers == handlers && serializer.messageIdMap == ids
        invariant Session(replies, dispatcher.log, up) == ServeAll(ids, handlers, log, requests[..i])
        decreases |requests| - i
      {
        assert requests[..i + 1][..i] == requests[..i];
        var reply := Turn(requests[i]);
        match reply {
          case Some(f) => replies := replies + [f];
          case None =>
        }
        i := i + 1;
      }
      if up {
        assert requests[..i] == requests;
      } else {
        StoppedForGood(ids, handlers, log, requests[..i], requests[i..]);
        assert requests[..i] + requests[i..] == requests;
      }
    }
  }
}
