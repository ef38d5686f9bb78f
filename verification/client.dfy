/** The client half of the command protocol, and the remote call as a whole against a direct one. */
module Client {
  import opened Wire
  import opened Utf8
  import opened Codec
  import opened Writer
  import opened Registry
  import opened Dispatcher
  import opened Cqrs
  import opened Frame
  import opened Server

  /** How a send ends for its caller: normally, possibly with a value; with a FaultException, plain
      or typed; with another exception; or without any reply because the server stopped. */
  datatype ClientOutcome =
    | Done | DoneWith(value: Message)
    | Fault(what: bytes, code: uint32) | TypedFault(typeId: uint32, what: bytes, code: uint32, details: Message)
    | Failed | NoReply

  /** An exception factory, called with the details it was registered for or with others. */
  function CallFactory(expected: MsgType, typeId: uint32, what: bytes, code: uint32, details: Message): ClientOutcome
  {
    if details.ty == expected then TypedFault(typeId, what, code, details) else Failed
  }

  /** ProcessResponse for commands without a result. */
  function ProcessVoid(frame: bytes, ids: IdMap, factories: IdMap): ClientOutcome
  {
    match ReadExactly(frame, ids, RESPONSES)
    case Read(rsp, payload) =>
      var status, what, typeId := rsp.rec[0].n, rsp.rec[1].b, rsp.rec[2].n;
      if status >= 300 || status < 200 then
        if payload.Some? && typeId in factories
        then CallFactory(factories[typeId], typeId, what, status, payload.value)
        else Fault(what, status)
      else if payload.Some? then Failed
      else Done
    case _ => Failed
  }

  /** ProcessResponse<TRsp>; without a payload the result is a default-constructed TRsp. */
  function ProcessTyped(frame: bytes, ids: IdMap, factories: IdMap, ty: MsgType): ClientOutcome
  {
    match ReadExactly(frame, ids, RESPONSES)
    case Read(rsp, payload) =>
      var status, what, typeId := rsp.rec[0].n, rsp.rec[1].b, rsp.rec[2].n;
      if status >= 300 || status < 200 then
        if payload.Some? && typeId in factories
        then CallFactory(factories[typeId], typeId, what, status, payload.value)
        else Fault(what, status)
      else if payload.None? then DoneWith(RawMessage(ty, Defaults(ty.fields)))
      else if payload.value.ty != ty then Failed
      else DoneWith(payload.value)
    case _ => Failed
  }

  /** The two agree on every response frame that is not a success, and on a success they differ only
      in what they make of the payload. */
  lemma {:induction false} VoidAndTypedAgreeOnFailure(frame: bytes, ids: IdMap, factories: IdMap, ty: MsgType)
    ensures var v, t := ProcessVoid(frame, ids, factories), ProcessTyped(frame, ids, factories, ty);
            var r := ReadExactly(frame, ids, RESPONSES);
            if r.Read? && 200 <= r.header.rec[0].n < 300
            then && v == (if r.payload == None then Done else Failed)
                 && t == match r.payload
                         case None => DoneWith(RawMessage(ty, Defaults(ty.fields)))
                         case Some(m) => if m.ty == ty then DoneWith(m) else Failed
            else v == t && !v.Done? && !t.DoneWith? && (!r.Read? ==> v == Failed)
  {
    hide ReadFrame;
  }

  /** The request frame, or nothing for an unregistered type or a command that does not fit. */
  function RequestFrame(types: TypeMap, recipient: bytes, m: Message): Option<bytes>
  {
    if m.ty !in types then None
    else var h := CommandHeaderMsg(types[m.ty], recipient);
      if 8 + |Bytes(h)| + |Bytes(m)| <= CAPACITY then Some(FrameOf(Bytes(h), Bytes(m))) else None
  }

  /** What a Send comes to, up to how the response is processed: nothing was sent, nothing came back, or
      the response frame. */
  datatype Exchange = Unsent | Unanswered | Answered(frame: bytes)

  /** A command and its recipient. */
  type Request = (bytes, Message)

  /** A frame handed over to a server that is up or not, and the server's handler log afterwards; a
      server that has stopped answers nobody. */
  function HandOver(up: bool, server: ServerTables, log: seq<Call>, frame: bytes): (r: (Exchange, seq<Call>))
    ensures r.0 != Unsent
    ensures !up ==> r == (Unanswered, log)
  {
    if !up then (Unanswered, log)
    else
      match Serve(server.maps.ids, server.handlers, log, frame)
      case (Stop, calls) => (Unanswered, calls)
      case (Reply(g), calls) => (Answered(g), calls)
  }

  /** A whole Send. */
  function SendTo(up: bool, types: TypeMap, server: ServerTables, log: seq<Call>,
      cmd: Request): (r: (Exchange, seq<Call>))
    ensures !up ==> r.1 == log && !r.0.Answered?
  {
    match RequestFrame(types, cmd.0, cmd.1)
    case None => (Unsent, log)
    case Some(f) => HandOver(up, server, log, f)
  }

  /** A Send to a server that is up. */
  function Remote(types: TypeMap, server: ServerTables, log: seq<Call>, recipient: bytes, m: Message): (Exchange,
      seq<Call>)
  {
    SendTo(true, types, server, log, (recipient, m))
  }

  /** The exchange that a handler's outcome makes. */
  function ExchangeFor(o: Outcome): Exchange
  {
    match ReplyTo(o)
    case Stop => Unanswered
    case Reply(g) => Answered(g)
  }

  function EndVoid(x: Exchange, ids: IdMap, factories: IdMap): ClientOutcome
  {
    match x
    case Unsent => Failed
    case Unanswered => NoReply
    case Answered(g) => ProcessVoid(g, ids, factories)
  }

  function EndTyped(x: Exchange, ids: IdMap, factories: IdMap, ty: MsgType): ClientOutcome
  {
    match x
    case Unsent => Failed
    case Unanswered => NoReply
    case Answered(g) => ProcessTyped(g, ids, factories, ty)
  }

  // ---------- The remote call against the direct call ----------

  /** Client and server agree on a nonzero id for the type, and a handler for it is in place. */
  ghost predicate Connected(types: TypeMap, server: ServerTables, ty: MsgType)
  {
    && ty in types && types[ty] != 0
    && types[ty] in server.maps.ids && server.maps.ids[types[ty]] == ty
    && types[ty] in server.handlers && server.handlers[types[ty]].expects == ty
  }

  predicate Fits(types: TypeMap, recipient: bytes, m: Message)
    requires m.ty in types
  {
    8 + |Bytes(CommandHeaderMsg(types[m.ty], recipient))| + |Bytes(m)| <= CAPACITY
  }

  /** A string field's content is part of the encoding, so what fits a buffer fits a length prefix. */
  lemma {:induction false} StringsAreShort(fs: Table, r: Record, i: nat, j: nat)
    requires Typed(fs, r) && i <= j < |fs| && r[j].Data?
    ensures |r[j].b| <= |EncodeFrom(fs, r, i)|
    decreases |fs| - i
  {
    hide EncodeField;
    StringIsInField(fs[j], r[j].b);
    if i < j {
      StringsAreShort(fs, r, i + 1, j);
    }
  }

  lemma {:induction false} StringIsInField(f: Field, b: bytes)
    requires TypedValue(f.kind, Data(b))
    ensures |b| <= |EncodeField(f, Data(b))|
  {
  }

  lemma {:induction false} HeaderSendable(id: uint32, recipient: bytes)
    requires |Bytes(CommandHeaderMsg(id, recipient))| <= CAPACITY
    ensures Sendable(CommandHeaderMsg(id, recipient)) <==> ValidUtf8(recipient)
  {
    var h := CommandHeaderMsg(id, recipient);
    StringsAreShort(h.ty.fields, h.rec, 0, 1);
    assert Readable(h.ty.fields[0].kind, h.rec[0]);
    assert Readable(h.ty.fields[1].kind, h.rec[1]) <==> ValidUtf8(recipient);
  }

  lemma {:induction false} ResponseSendable(status: uint32, what: bytes, typeId: uint32)
    requires |Bytes(CommandResponseMsg(status, what, typeId))| <= CAPACITY
    ensures Sendable(CommandResponseMsg(status, what, typeId)) <==> ValidUtf8(what)
  {
    var h := CommandResponseMsg(status, what, typeId);
    StringsAreShort(h.ty.fields, h.rec, 0, 1);
    assert Readable(h.ty.fields[0].kind, h.rec[0]) && Readable(h.ty.fields[2].kind, h.rec[2]);
    assert Readable(h.ty.fields[1].kind, h.rec[1]) <==> ValidUtf8(what);
  }

  /** Can this command be delivered to its handler? */
  predicate Deliverable(recipient: bytes, m: Message)
  {
    ValidUtf8(recipient) && Sendable(m) && Bytes(m) != []
  }

  /** Delivery, exactly: a command that fits runs its handler once, with the recipient and command
      that were sent, if its strings are UTF-8 and its encoding is not empty; otherwise no handler
      runs at all and the server stops. */
  lemma {:induction false} DeliveryExactly(types: TypeMap, server: ServerTables, log: seq<Call>, recipient: bytes,
      m: Message)
    requires Connected(types, server, m.ty) && Fits(types, recipient, m)
    ensures var id := types[m.ty]; var (x, calls) := Remote(types, server, log, recipient, m);
            if Deliverable(recipient, m)
            then calls == log + [Call(id, recipient, m)]
              && x == ExchangeFor(server.handlers[id].run(log, recipient, m))
            else calls == log && x == Unanswered
  {
    hide ParseAs, ReadFrame, Bytes, Sendable, ReplyTo, AllReadable;
    var id := types[m.ty];
    var h := CommandHeaderMsg(id, recipient);
    var f := FrameOf(Bytes(h), Bytes(m));
    HeaderSendable(id, recipient);
    ReadOfFrame(server.maps.ids, COMMANDS, h, Bytes(m), []);
    ParseAsUndoesBytes(m);
    assert f + [] == f;
  }

  /** What calling the handler directly would mean to a caller without a result. */
  function DirectOutcome(o: Outcome): ClientOutcome
  {
    match o
    case Returned => Done
    case Responded(_) => Done
    case Faulted(what, code, _) => Fault(what, code)
    case Threw => Failed
  }

  /** The outcomes that the wire carries faithfully. A fault must be untyped, have a code outside
      [200, 300), and a UTF-8 message without zero bytes that fits; a reply must encode to nothing.
      Any other exception is lost: the server stops, and the caller waits in vain. */
  predicate Faithful(o: Outcome)
  {
    match o
    case Returned => true
    case Responded(m) => Bytes(m) == []
    case Faulted(what, code, typeId) =>
      && typeId == 0 && (code < 200 || 300 <= code) && 0 !in what && ValidUtf8(what)
      && 8 + |Bytes(CommandResponseMsg(code, what, 0))| <= CAPACITY
    case Threw => false
  }

  /** Reading back a response frame that the server wrote. */
  lemma {:induction false} ReadOfResponse(ids: IdMap, status: uint32, what: bytes, typeId: uint32, p: bytes)
    requires 8 + |Bytes(CommandResponseMsg(status, what, typeId))| + |p| <= CAPACITY
    requires p == [] || typeId == 0
    ensures var h := CommandResponseMsg(status, what, typeId);
            ReadExactly(FrameOf(Bytes(h), p), ids, RESPONSES) ==
            if !ValidUtf8(what) then BadHeader
            else if (p == []) != (typeId == 0) then SizeTypeMismatch
            else Read(h, None)
  {
    hide ReadFrame, Bytes, Sendable;
    var h := CommandResponseMsg(status, what, typeId);
    ResponseSendable(status, what, typeId);
    ReadOfFrame(ids, RESPONSES, h, p, []);
    assert FrameOf(Bytes(h), p) + [] == FrameOf(Bytes(h), p);
  }

  lemma {:induction false} SuccessIsFaithfulExactly(o: Outcome, p: bytes, ids: IdMap, factories: IdMap)
    requires (o == Returned && p == []) || (o.Responded? && p == Bytes(o.reply))
    ensures EndVoid(ExchangeFor(o), ids, factories) == ClientOutcome.Done <==> p == []
  {
    hide ReadFrame, Bytes, FrameOf;
    SuccessHeader();
    if 8 + 3 + |p| <= CAPACITY {
      ReadOfResponse(ids, 200, [], 0, p);
    }
  }

  lemma {:induction false} FaultIsFaithfulExactly(what: bytes, code: uint32, typeId: uint32, ids: IdMap,
      factories: IdMap)
    ensures EndVoid(ExchangeFor(Faulted(what, code, typeId)), ids, factories) == Fault(what, code)
       <==> Faithful(Faulted(what, code, typeId))
  {
    hide ReadFrame, Bytes, FrameOf, ValidUtf8;
    var sent := CStr(what);
    if 8 + |Bytes(CommandResponseMsg(code, sent, typeId))| <= CAPACITY {
      ReadOfResponse(ids, code, sent, typeId, []);
    }
  }

  /** The client's view of each server reply: the direct outcome exactly when the wire is faithful. */
  lemma {:induction false} ReplyIsFaithfulExactly(o: Outcome, ids: IdMap, factories: IdMap)
    ensures EndVoid(ExchangeFor(o), ids, factories) == DirectOutcome(o) <==> Faithful(o)
  {
    match o {
      case Returned => SuccessIsFaithfulExactly(o, [], ids, factories);
      case Responded(m) => SuccessIsFaithfulExactly(o, Bytes(m), ids, factories);
      case Faulted(what, code, typeId) =>
        hide ExchangeFor, EndVoid, Faithful;
        FaultIsFaithfulExactly(what, code, typeId, ids, factories);
      case Threw => ThrewIsUnanswered();
    }
  }

  /** A handler's other exceptions stop the server, and nobody is told. */
  lemma {:induction false} ThrewIsUnanswered()
    ensures ExchangeFor(Threw) == Unanswered
  {
  }

  /** The remote call refines the direct call: for every connected command that fits and is
      deliverable, the handler runs exactly once on exactly what was sent, and the caller sees what
      a direct call would have shown if and only if the handler's outcome is one of the faithful ones. */
  lemma {:induction false} RemoteCallRefinesDirectCall(client: Maps, factories: IdMap, server: ServerTables,
      log: seq<Call>, recipient: bytes, m: Message)
    requires Connected(client.types, server, m.ty) && Fits(client.types, recipient, m) && Deliverable(recipient, m)
    ensures var id := client.types[m.ty];
            var o := server.handlers[id].run(log, recipient, m);
            var (x, calls) := Remote(client.types, server, log, recipient, m);
            && calls == log + [Call(id, recipient, m)]
            && (EndVoid(x, client.ids, factories) == DirectOutcome(o) <==> Faithful(o))
  {
    hide Serve, ReplyTo, ProcessVoid, Faithful;
    DeliveryExactly(client.types, server, log, recipient, m);
    ReplyIsFaithfulExactly(server.handlers[client.types[m.ty]].run(log, recipient, m), client.ids, factories);
  }

  /** Setting up both sides connects them: with one type per id on the server, one id for this type,
      a handler registered for it, and the client's first registration of it under the same id. */
  lemma {:induction false} SetUpConnects(steps: seq<SetupStep>, regs: seq<Registration>, i: nat)
    requires i < |steps| && steps[i].AddHandler? && steps[i].id != 0
    requires InjectiveIds(steps)
    requires forall j | 0 <= j < |steps| :: steps[j].ty == steps[i].ty ==> steps[j].id == steps[i].id
    requires FirstIndex(regs, steps[i].ty) < |regs| && regs[FirstIndex(regs, steps[i].ty)].id == steps[i].id
    ensures Connected(RegisterAll(regs).types, SetUp(steps), steps[i].ty)
  {
    MapsAfterRegistrations(regs);
    HandlerStays(steps, i);
    InjectiveIdsNeverMismatch(steps, steps[i].id, [], [], []);
  }

  // ---------- Whole runs ----------

  /** A client's commands sent one after the other: the server's handler log, whether the server is
      still up, and what each call came to for its caller. */
  datatype Trace = Trace(log: seq<Call>, up: bool, outcomes: seq<ClientOutcome>)

  function SendAll(client: Maps, factories: IdMap, server: ServerTables, log: seq<Call>,
      cmds: seq<Request>): (t: Trace)
    ensures |t.outcomes| == |cmds|
  {
    if cmds == [] then Trace(log, true, [])
    else
      var n := |cmds| - 1;
      var before := SendAll(client, factories, server, log, cmds[..n]);
      var (x, calls) := SendTo(before.up, client.types, server, before.log, cmds[n]);
      Trace(calls, before.up && x != Unanswered, before.outcomes + [EndVoid(x, client.ids, factories)])
  }

  function IdOf(types: TypeMap, ty: MsgType): uint32
  {
    if ty in types then types[ty] else 0
  }

  function CallsFor(types: TypeMap, cmds: seq<Request>): (calls: seq<Call>)
    ensures |calls| == |cmds|
  {
    seq(|cmds|, i requires 0 <= i < |cmds| => Call(IdOf(types, cmds[i].1.ty), cmds[i].0, cmds[i].1))
  }

  /** Every command has its handler, fits its frame and can be delivered. */
  ghost predicate AllDeliverable(types: TypeMap, server: ServerTables, cmds: seq<Request>)
  {
    forall i | 0 <= i < |cmds| :: RequestDeliverable(types, server, cmds[i])
  }

  ghost predicate RequestDeliverable(types: TypeMap, server: ServerTables, cmd: Request)
  {
    Connected(types, server, cmd.1.ty) && Fits(types, cmd.0, cmd.1) && Deliverable(cmd.0, cmd.1)
  }

  /** What the i-th handler comes to when the same handlers are called directly, one after the other. */
  ghost function DirectResult(types: TypeMap, server: ServerTables, log: seq<Call>, cmds: seq<Request>, i: nat): Outcome
    requires AllDeliverable(types, server, cmds) && i < |cmds|
  {
    assert RequestDeliverable(types, server, cmds[i]);
    server.handlers[types[cmds[i].1.ty]].run(log + CallsFor(types, cmds)[..i], cmds[i].0, cmds[i].1)
  }

  /** The log has gone on from an earlier one with an initial segment of these calls. */
  ghost predicate Begins(now: seq<Call>, log: seq<Call>, calls: seq<Call>)
  {
    log <= now <= log + calls
  }

  lemma {:induction false} BeginsWithNothing(log: seq<Call>, calls: seq<Call>)
    requires calls == []
    ensures Begins(log, log, calls) && log == log + calls
  {
  }

  lemma {:induction false} BeginsStep(log: seq<Call>, calls: seq<Call>, last: Call, now: seq<Call>)
    requires Begins(now, log, calls)
    ensures Begins(now, log, calls + [last])
    ensures now == log + calls ==> now + [last] == log + (calls + [last])
    ensures now == log + calls ==> Begins(now + [last], log, calls + [last])
  {
    assert log + calls + [last] == log + (calls + [last]);
  }

  lemma {:induction false} CallsForStep(types: TypeMap, cmds: seq<Request>)
    requires cmds != []
    ensures var n := |cmds| - 1; var all := CallsFor(types, cmds);
            && all[..n] == CallsFor(types, cmds[..n]) && all == all[..n] + [all[n]]
            && all[n] == Call(IdOf(types, cmds[n].1.ty), cmds[n].0, cmds[n].1)
  {
  }

  /** Over a whole run of deliverable commands the handlers see the commands that were sent, in the
      order they were sent, each exactly once: all of them while the server is up, and an initial
      segment of them if a handler's outcome stopped it. */
  lemma {:induction false} CommandsRunOnceInOrder(client: Maps, factories: IdMap, server: ServerTables, log: seq<Call>,
      cmds: seq<Request>)
    requires AllDeliverable(client.types, server, cmds)
    ensures var t := SendAll(client, factories, server, log, cmds); var all := CallsFor(client.types, cmds);
            Begins(t.log, log, all) && (t.up ==> t.log == log + all)
  {
    hide SendTo, ReplyTo, RequestDeliverable, EndVoid, RequestFrame, CallsFor, Begins;
    var all := CallsFor(client.types, cmds);
    if cmds == [] {
      BeginsWithNothing(log, all);
    } else {
      var n := |cmds| - 1;
      CommandsRunOnceInOrder(client, factories, server, log, cmds[..n]);
      var before := SendAll(client, factories, server, log, cmds[..n]);
      CallsForStep(client.types, cmds);
      if before.up {
        RequestIsDelivered(client.types, server, before.log, cmds[n]);
      }
      BeginsStep(log, all[..n], all[n], before.log);
    }
  }

  lemma {:induction false} RequestIsDelivered(types: TypeMap, server: ServerTables, log: seq<Call>, cmd: Request)
    requires RequestDeliverable(types, server, cmd)
    ensures cmd.1.ty in types && types[cmd.1.ty] in server.handlers
    ensures var id := types[cmd.1.ty]; var x := ExchangeFor(server.handlers[id].run(log, cmd.0, cmd.1));
            Remote(types, server, log, cmd.0, cmd.1) == (x, log + [Call(id, cmd.0, cmd.1)])
  {
    hide SendTo, ReplyTo, Bytes, Deliverable;
    DeliveryExactly(types, server, log, cmd.0, cmd.1);
  }

  lemma {:induction false} FaithfulIsAnswered(o: Outcome, ids: IdMap, factories: IdMap)
    requires Faithful(o)
    ensures ExchangeFor(o) != Unanswered
  {
    hide Faithful, ReplyTo, ProcessVoid;
    ReplyIsFaithfulExactly(o, ids, factories);
  }

  /** A run of remote calls refines the run of direct calls: up to any point the callers have seen
      just what direct calls would have shown them if and only if every handler outcome up to that
      point was faithful. */
  lemma {:induction false} RemoteRunRefinesDirectRun(client: Maps, factories: IdMap, server: ServerTables,
      log: seq<Call>, cmds: seq<Request>, k: nat)
    requires AllDeliverable(client.types, server, cmds) && k <= |cmds|
    ensures var t := SendAll(client, factories, server, log, cmds);
            (forall i | 0 <= i < k :: t.outcomes[i] == DirectOutcome(DirectResult(client.types, server, log, cmds, i)))
            <==> forall i | 0 <= i < k :: Faithful(DirectResult(client.types, server, log, cmds, i))
  {
    hide AllDeliverable, Faithful, DirectOutcome, DirectResult, SendAll, CallsFor;
    SendAllOfPrefix(client, factories, server, log, cmds, k);
    if k > 0 {
      var types, n := client.types, k - 1;
      RemoteRunRefinesDirectRun(client, factories, server, log, cmds, n);
      if forall i | 0 <= i < n :: Faithful(DirectResult(types, server, log, cmds, i)) {
        FaithfulRunStaysUp(client, factories, server, log, cmds, n);
        NthOutcome(client, factories, server, log, cmds, n);
      }
    }
  }

  /** The outcomes and the server's state after the first k commands do not depend on later ones. */
  lemma {:induction false} SendAllOfPrefix(client: Maps, factories: IdMap, server: ServerTables, log: seq<Call>,
      cmds: seq<Request>, k: nat)
    requires k <= |cmds|
    ensures SendAll(client, factories, server, log, cmds).outcomes[..k]
         == SendAll(client, factories, server, log, cmds[..k]).outcomes
  {
    hide SendTo, EndVoid;
    if k < |cmds| {
      var n := |cmds| - 1;
      SendAllOfPrefix(client, factories, server, log, cmds[..n], k);
      assert cmds[..n][..k] == cmds[..k];
    } else {
      assert cmds[..k] == cmds;
    }
  }

  lemma {:induction false} FaithfulRunStaysUp(client: Maps, factories: IdMap, server: ServerTables, log: seq<Call>,
      cmds: seq<Request>, k: nat)
    requires AllDeliverable(client.types, server, cmds) && k <= |cmds|
    requires forall i | 0 <= i < k :: Faithful(DirectResult(client.types, server, log, cmds, i))
    ensures var t := SendAll(client, factories, server, log, cmds[..k]);
            t.up && t.log == log + CallsFor(client.types, cmds)[..k]
  {
    hide SendTo, ReplyTo, RequestDeliverable, EndVoid, RequestFrame, Faithful;
    if k > 0 {
      var types, n := client.types, k - 1;
      FaithfulRunStaysUp(client, factories, server, log, cmds, n);
      assert cmds[..k][..n] == cmds[..n];
      RequestIsDelivered(types, server, log + CallsFor(types, cmds)[..n], cmds[n]);
      FaithfulIsAnswered(DirectResult(types, server, log, cmds, n), client.ids, factories);
      assert CallsFor(types, cmds)[..k] == CallsFor(types, cmds)[..n] + [CallsFor(types, cmds)[n]];
    }
  }

  lemma {:induction false} NthOutcome(client: Maps, factories: IdMap, server: ServerTables, log: seq<Call>,
      cmds: seq<Request>, n: nat)
    requires AllDeliverable(client.types, server, cmds) && n < |cmds|
    requires var t := SendAll(client, factories, server, log, cmds[..n]);
             t.up && t.log == log + CallsFor(client.types, cmds)[..n]
    ensures var t := SendAll(client, factories, server, log, cmds);
            var o := DirectResult(client.types, server, log, cmds, n);
            t.outcomes[n] == DirectOutcome(o) <==> Faithful(o)
  {
    hide SendTo, ReplyTo, RequestDeliverable, EndVoid, RequestFrame, Faithful, DirectOutcome;
    var types := client.types;
    SendAllOfPrefix(client, factories, server, log, cmds, n + 1);
    assert cmds[..n + 1][..n] == cmds[..n];
    SendAllOfPrefix(client, factories, server, log, cmds[..n], n);
    RequestIsDelivered(types, server, log + CallsFor(types, cmds)[..n], cmds[n]);
    ReplyIsFaithfulExactly(DirectResult(types, server, log, cmds, n), client.ids, factories);
    var t := SendAll(client, factories, server, log, cmds);
    assert t.outcomes[n] == t.outcomes[..n + 1][n];
  }

  /** A typed fault never arrives as a fault of any kind: its frame names a payload it lacks. */
  lemma {:induction false} TypedFaultNeverArrives(what: bytes, code: uint32, typeId: uint32, ids: IdMap,
      factories: IdMap)
    requires typeId != 0
    ensures var x := ExchangeFor(Faulted(what, code, typeId));
            EndVoid(x, ids, factories) == (if x == Unanswered then NoReply else Failed)
  {
    hide ReadFrame, Bytes;
    if 8 + |Bytes(CommandResponseMsg(code, CStr(what), typeId))| <= CAPACITY {
      ReadOfResponse(ids, code, CStr(what), typeId, []);
    }
  }

  /** A typed call returns the handler's reply exactly when that reply is the default message of the
      type the client asked for: only a reply that encodes to nothing passes without its type. */
  lemma {:induction false} TypedReplyOnlyIfDefault(reply: Message, ids: IdMap, factories: IdMap, ty: MsgType)
    ensures var x := ExchangeFor(Responded(reply));
            EndTyped(x, ids, factories, ty) == DoneWith(reply) <==> reply == RawMessage(ty, Defaults(ty.fields))
  {
    hide ReadFrame, EncodeFrom;
    SuccessHeader();
    EmptyEncodingIsDefault(reply.ty.fields, reply.rec, 0);
    if Bytes(reply) == [] {
      assert reply.rec == Defaults(reply.ty.fields);
    }
    if 8 + 3 + |Bytes(reply)| <= CAPACITY {
      ReadOfResponse(ids, 200, [], 0, Bytes(reply));
    }
  }

  /** The client's half of typed faults is sound: a response that does carry details of a registered
      type raises the typed fault with its message, code and details if that type's factory is
      registered, a plain fault if no factory is, and another exception if the factory is for another type. */
  lemma {:induction false} FaultDetailsAreRaised(status: uint32, what: bytes, typeId: uint32, details: Message,
      ids: IdMap, factories: IdMap)
    requires (status < 200 || 300 <= status) && ValidUtf8(what) && Sendable(details) && Bytes(details) != []
    requires typeId != 0 && typeId in ids && ids[typeId] == details.ty
    requires 8 + |Bytes(CommandResponseMsg(status, what, typeId))| + |Bytes(details)| <= CAPACITY
    ensures var frame := FrameOf(Bytes(CommandResponseMsg(status, what, typeId)), Bytes(details));
            ProcessVoid(frame, ids, factories) ==
            if typeId !in factories then Fault(what, status)
            else if factories[typeId] == details.ty then TypedFault(typeId, what, status, details)
            else Failed
  {
    hide ReadFrame, Bytes, Sendable;
    var h := CommandResponseMsg(status, what, typeId);
    ResponseSendable(status, what, typeId);
    ParseAsUndoesBytes(details);
    ReadOfFrame(ids, RESPONSES, h, Bytes(details), []);
    assert FrameOf(Bytes(h), Bytes(details)) + [] == FrameOf(Bytes(h), Bytes(details));
  }

  // ---------- How calls end ----------

  /** An untyped fault by its code alone: outside [200, 300) it is raised as it was thrown, and inside the
      caller takes it for a normal return. */
  lemma {:induction false} UntypedFaultEnds(what: bytes, code: uint32, ids: IdMap, factories: IdMap, ty: MsgType)
    requires ValidUtf8(what) && 0 !in what && |NumberOnWire(8, code) + StringOnWire(18, what)| <= 65528
    ensures EndVoid(ExchangeFor(Faulted(what, code, 0)), ids, factories)
         == if code < 200 || code >= 300 then Fault(what, code) else Done
    ensures EndTyped(ExchangeFor(Faulted(what, code, 0)), ids, factories, ty)
         == if code < 200 || code >= 300 then Fault(what, code) else DoneWith(RawMessage(ty, Defaults(ty.fields)))
  {
    hide ReadFrame, Bytes, FrameOf, NumberOnWire, StringOnWire, ValidUtf8;
    CommandResponseLayout(code, what, 0);
    NoNumber(24);
    var layout := NumberOnWire(8, code) + StringOnWire(18, what);
    assert layout + [] == layout;
    ReadOfResponse(ids, code, what, 0, []);
  }

  lemma {:induction false} NoNumber(tag: byte)
    ensures NumberOnWire(tag, 0) == []
  {
  }

  /** A returning handler: a normal return, or the default of the type that was asked for. */
  lemma {:induction false} ReturnEnds(ids: IdMap, factories: IdMap, ty: MsgType)
    ensures EndVoid(ExchangeFor(Returned), ids, factories) == Done
    ensures EndTyped(ExchangeFor(Returned), ids, factories, ty) == DoneWith(RawMessage(ty, Defaults(ty.fields)))
  {
    hide ReadFrame, Bytes, FrameOf;
    SuccessHeader();
    ReadOfResponse(ids, 200, [], 0, []);
  }

  /** A frame with the response's status in [200, 300), and its payload. */
  predicate IsSuccess(x: Exchange, ids: IdMap, payload: Option<Message>)
  {
    x.Answered? && match ReadExactly(x.frame, ids, RESPONSES)
      case Read(rsp, p) => 200 <= rsp.rec[0].n < 300 && p == payload
      case _ => false
  }

  /** A frame with another status, and its error message, status, detail type and payload. */
  predicate IsFault(x: Exchange, ids: IdMap, what: bytes, code: uint32, typeId: uint32, payload: Option<Message>)
  {
    x.Answered? && match ReadExactly(x.frame, ids, RESPONSES)
      case Read(rsp, p) =>
        && (code < 200 || code >= 300)
        && rsp.rec[0] == Num(code) && rsp.rec[1] == Data(what) && rsp.rec[2] == Num(typeId) && p == payload
      case _ => false
  }

  /** How a call without a result ends, each way exactly. */
  lemma {:induction false} VoidCallEndsExactly(x: Exchange, ids: IdMap, factories: IdMap, what: bytes, code: uint32,
      typeId: uint32, details: Message)
    ensures var o := EndVoid(x, ids, factories);
            && (o == NoReply <==> x == Unanswered)
            && (x == Unsent ==> o == Failed)
            && (o == Done <==> IsSuccess(x, ids, None))
            && (IsFault(x, ids, what, code, typeId, None) ==> o == Fault(what, code))
            && (IsFault(x, ids, what, code, typeId, Some(details)) && typeId !in factories ==> o == Fault(what, code))
            && (IsFault(x, ids, what, code, typeId, Some(details)) && typeId in factories ==>
                  o == if factories[typeId] == details.ty then TypedFault(typeId, what, code, details) else Failed)
            && (x.Answered? && !ReadExactly(x.frame, ids, RESPONSES).Read? ==> o == Failed)
            && (IsSuccess(x, ids, Some(details)) ==> o == Failed)
  {
    hide ReadFrame;
  }

  /** A call with a result ends in the same ways, except that a success yields a value: the payload if it has
      the type that was asked for, or the default of that type if there is none. */
  lemma {:induction false} TypedCallEndsExactly(x: Exchange, ids: IdMap, factories: IdMap, ty: MsgType, v: Message)
    ensures var o := EndTyped(x, ids, factories, ty);
            && (o == DoneWith(v) <==>
                  (IsSuccess(x, ids, Some(v)) && v.ty == ty)
                  || (IsSuccess(x, ids, None) && v == RawMessage(ty, Defaults(ty.fields))))
            && (IsSuccess(x, ids, Some(v)) && v.ty != ty ==> o == Failed)
            && ((forall p :: !IsSuccess(x, ids, p)) ==> o == EndVoid(x, ids, factories))
  {
    hide ReadFrame;
    if x.Answered? {
      VoidAndTypedAgreeOnFailure(x.frame, ids, factories, ty);
      var r := ReadExactly(x.frame, ids, RESPONSES);
      if r.Read? && 200 <= r.header.rec[0].n < 300 {
        assert IsSuccess(x, ids, r.payload);
      }
    }
  }

  /** A command of an unregistered type, or one too large for a frame, is not sent at all: the call throws,
      and the server hears nothing, whatever state it is in. */
  lemma {:induction false} UnsendableFails(up: bool, types: TypeMap, server: ServerTables, log: seq<Call>, cmd: Request,
      ids: IdMap, factories: IdMap, ty: MsgType)
    requires cmd.1.ty in types ==>
               |NumberOnWire(8, types[cmd.1.ty]) + StringOnWire(18, cmd.0)| + |Bytes(cmd.1)| > 65528
    ensures var (x, calls) := SendTo(up, types, server, log, cmd);
            calls == log && EndVoid(x, ids, factories) == Failed && EndTyped(x, ids, factories, ty) == Failed
  {
    hide Bytes, NumberOnWire, StringOnWire;
    if cmd.1.ty in types {
      CommandHeaderLayout(types[cmd.1.ty], cmd.0);
    }
  }

  /** What is sent is a header with the type's id and the recipient, and the command, in one frame. */
  lemma {:induction false} RequestFrameBytes(types: TypeMap, recipient: bytes, m: Message)
    requires m.ty in types
    ensures var h := NumberOnWire(8, types[m.ty]) + StringOnWire(18, recipient);
            RequestFrame(types, recipient, m) ==
            if |h| + |Bytes(m)| <= 65528 then Some(Le32(|h|) + Le32(|Bytes(m)|) + h + Bytes(m)) else None
  {
    hide Bytes, NumberOnWire, StringOnWire, Le32;
    CommandHeaderLayout(types[m.ty], recipient);
  }

  /** A command that is sent to a stopped server, or stops it, gets no reply. */
  lemma {:induction false} StoppedMeansNoReply(up: bool, types: TypeMap, server: ServerTables, log: seq<Call>,
      cmd: Request, ids: IdMap, factories: IdMap, ty: MsgType)
    requires RequestFrame(types, cmd.0, cmd.1).Some?
    requires up ==> Serve(server.maps.ids, server.handlers, log, RequestFrame(types, cmd.0, cmd.1).value).0 == Stop
    ensures var (x, calls) := SendTo(up, types, server, log, cmd);
            && EndVoid(x, ids, factories) == NoReply && EndTyped(x, ids, factories, ty) == NoReply
            && (!up ==> calls == log)
  {
    hide Serve, RequestFrame;
  }

  /** A command whose id has no handler on the server, or means another type there than the handler's, runs
      nothing and stops the server. */
  lemma {:induction false} UnhandledIsUnanswered(types: TypeMap, server: ServerTables, log: seq<Call>,
      recipient: bytes, m: Message)
    requires m.ty in types && Fits(types, recipient, m)
    requires var id := types[m.ty];
             !(id in server.maps.ids && id in server.handlers && server.maps.ids[id] == server.handlers[id].expects)
    ensures Remote(types, server, log, recipient, m) == (Unanswered, log)
  {
    hide ReadFrame, Bytes, ReplyTo, Serve, FrameOf;
    var id := types[m.ty];
    var h := CommandHeaderMsg(id, recipient);
    var f := FrameOf(Bytes(h), Bytes(m));
    assert f + [] == f;
    ReadOfFrame(server.maps.ids, COMMANDS, h, Bytes(m), []);
    ServesExactly(server.maps.ids, server.handlers, log, f);
  }

  // ---------- The handler object ----------

  class ProtoReqRspClientHandler {
    const serializer: MessageSerializer
    var connected: bool
    /** The error type behind each registered exception factory. */
    var exceptionFactories: IdMap

    constructor (s: MessageSerializer)
      ensures serializer == s && !connected && exceptionFactories == map[]
    {
      serializer, connected, exceptionFactories := s, false, map[];
    }

    method RegisterRequest(ty: MsgType, id: uint32) returns (ok: bool)
      modifies serializer
      ensures (serializer.Value(), ok) == Register(old(serializer.Value()), ty, id)
    {
      ok := serializer.RegisterMessage(ty, id);
    }

    /** No factory is stored for an error type that cannot be registered. */
    method RegisterError(ty: MsgType, id: uint32) returns (ok: bool)
      modifies this`exceptionFactories, serializer
      ensures (serializer.Value(), ok) == Register(old(serializer.Value()), ty, id)
      ensures exceptionFactories == if ok then old(exceptionFactories)[id := ty] else old(exceptionFactories)
    {
      ok := serializer.RegisterMessage(ty, id);
      if ok {
        exceptionFactories := exceptionFactories[id := ty];
      }
    }

    /** The request in a frame buffer of its own, or nothing where the original throws. */
    method FrameRequest(recipient: bytes, request: Message) returns (frame: Option<bytes>)
      ensures frame == RequestFrame(serializer.typeIdMap, recipient, request)
    {
      hide Bytes, Framed, WellTyped, Typed;
      var storage := new byte[CAPACITY];
      var inBuf := new ProtoFrameBufferView(serializer, storage);
      var id := serializer.GetMessageId(request.ty);
      if id == None {
        return None;
      }
      var header := CommandHeaderMsg(id.value, recipient);
      ghost var before := inBuf.buffer[..];
      var w := inBuf.Write(header, request);
      if !w.Wrote? {
        return None;
      }
      FramedAtZero(before, Bytes(header), Bytes(request));
      assert inBuf.buffer[..inBuf.written] == inBuf.buffer[..][..inBuf.written];
      frame := Some(inBuf.buffer[..inBuf.written]);
    }

    /** The transport: hands a frame to the server while it is up, and receives the reply into target. */
    method Transmit(frame: bytes, server: ProtoReqRspSrvHandler, target: array<byte>) returns (received: Option<nat>)
      requires server.Ready() && |frame| <= CAPACITY == target.Length
      requires target != server.inBuffer.buffer && target != server.outBuffer.buffer
      modifies target, server`up, server.dispatcher`log, server.inBuffer`written, server.inBuffer.buffer
      modifies server.outBuffer`written, server.outBuffer.buffer
      ensures server.Ready()
      ensures var (x, calls) := HandOver(old(server.up), server.SetUpValue(), old(server.dispatcher.log), frame);
              && server.dispatcher.log == calls && server.up == x.Answered?
              && match x
                 case Answered(g) => received == Some(|g|) && |g| <= CAPACITY && target[..|g|] == g
                 case _ => received == None
    {
      hide Serve;
      if !server.up {
        return None;
      }
      ServedFits(serializer, server, server.dispatcher.log, frame);
      var reply := server.Turn(frame);
      if reply == None {
        return None;
      }
      var size := WriteRaw(reply.value, target, 0);
      assert target[..size] == target[..][..size] == reply.value;
      received := Some(size);
    }

    /** OnSend over a synchronous transport to the given server, which answers while it is up; the response
        is left in outBuf. */
    method OnSend(recipient: bytes, request: Message, server: ProtoReqRspSrvHandler,
        outBuf: ProtoFrameBufferView) returns (x: Exchange)
      requires server.Ready()
      requires outBuf.Valid() && outBuf.buffer.Length == CAPACITY
      requires outBuf != server.inBuffer && outBuf.buffer != server.inBuffer.buffer
      requires outBuf != server.outBuffer && outBuf.buffer != server.outBuffer.buffer
      modifies this`connected, outBuf`written, outBuf.buffer
      modifies server`up, server.dispatcher`log, server.inBuffer`written, server.inBuffer.buffer
      modifies server.outBuffer`written, server.outBuffer.buffer
      ensures connected && server.Ready() && outBuf.Valid()
      ensures (x, server.dispatcher.log)
           == SendTo(old(server.up), serializer.typeIdMap, server.SetUpValue(), old(server.dispatcher.log),
                     (recipient, request))
      ensures server.up == (old(server.up) && x != Unanswered)
      ensures x.Answered? ==> outBuf.written == |x.frame| && outBuf.buffer[..outBuf.written] == x.frame
    {
      hide HandOver, RequestFrame;
      connected := true;
      var frame := FrameRequest(recipient, request);
      if frame == None {
        return Unsent;
      }
      outBuf.Reset();
      outBuf.Clear();
      RequestsFit(serializer.typeIdMap, recipient, request);
      var received := Transmit(frame.value, server, outBuf.buffer);
      if received == None {
        return Unanswered;
      }
      outBuf.AckWritten(received.value);
      x := Answered(outBuf.buffer[..outBuf.written]);
    }

    /** Send<TReq>: a command without a result. */
    method Send(recipient: bytes, request: Message, server: ProtoReqRspSrvHandler) returns (o: ClientOutcome)
      requires server.Ready()
      modifies this`connected
      modifies server`up, server.dispatcher`log, server.inBuffer`written, server.inBuffer.buffer
      modifies server.outBuffer`written, server.outBuffer.buffer
      ensures server.Ready()
      ensures var (x, calls) := SendTo(old(server.up), serializer.typeIdMap, server.SetUpValue(),
                                       old(server.dispatcher.log), (recipient, request));
              && server.dispatcher.log == calls && server.up == (old(server.up) && x != Unanswered)
              && o == EndVoid(x, serializer.messageIdMap, exceptionFactories)
    {
      hide SendTo, ReadFrame;
      var storage := new byte[CAPACITY];
      var outBuf := new ProtoFrameBufferView(serializer, storage);
      var x := OnSend(recipient, request, server, outBuf);
      if !x.Answered? {
        return if x == Unsent then Failed else NoReply;
      }
      o := ProcessResponse(outBuf);
    }

    /** A client program: its commands sent one after the other, whatever becomes of them. */
    method SendEach(cmds: seq<Request>, server: ProtoReqRspSrvHandler) returns (outcomes: seq<ClientOutcome>)
      requires server.Ready() && server.up
      modifies this`connected
      modifies server`up, server.dispatcher`log, server.inBuffer`written, server.inBuffer.buffer
      modifies server.outBuffer`written, server.outBuffer.buffer
      ensures server.Ready()
      ensures Trace(server.dispatcher.log, server.up, outcomes)
           == SendAll(old(serializer.Value()), exceptionFactories, server.SetUpValue(),
                      old(server.dispatcher.log), cmds)
    {
      hide SendTo, EndVoid;
      ghost var maps, tables, log := serializer.Value(), server.SetUpValue(), server.dispatcher.log;
      outcomes := [];
      var i := 0;
      while i < |cmds|
        invariant i <= |cmds| && server.Ready()
        invariant serializer.Value() == maps && server.SetUpValue() == tables
        invariant Trace(server.dispatcher.log, server.up, outcomes)
               == SendAll(maps, exceptionFactories, tables, log, cmds[..i])
      {
        assert cmds[..i + 1][..i] == cmds[..i];
        var o := Send(cmds[i].0, cmds[i].1, server);
        outcomes := outcomes + [o];
        i := i + 1;
      }
      assert cmds[..i] == cmds;
    }

    /** Send<TReq, TRsp>: a command with a result of the given type. */
    method SendForReply(recipient: bytes, request: Message, ty: MsgType,
        server: ProtoReqRspSrvHandler) returns (o: ClientOutcome)
      requires server.Ready()
      modifies this`connected
      modifies server`up, server.dispatcher`log, server.inBuffer`written, server.inBuffer.buffer
      modifies server.outBuffer`written, server.outBuffer.buffer
      ensures server.Ready()
      ensures var (x, calls) := SendTo(old(server.up), serializer.typeIdMap, server.SetUpValue(),
                                       old(server.dispatcher.log), (recipient, request));
              && server.dispatcher.log == calls && server.up == (old(server.up) && x != Unanswered)
              && o == EndTyped(x, serializer.messageIdMap, exceptionFactories, ty)
    {
      hide SendTo, ReadFrame;
      var storage := new byte[CAPACITY];
      var outBuf := new ProtoFrameBufferView(serializer, storage);
      var x := OnSend(recipient, request, server, outBuf);
      if !x.Answered? {
        return if x == Unsent then Failed else NoReply;
      }
      o := ProcessTypedResponse(outBuf, ty);
    }

    /** ProcessResponse<TRsp>. */
    method ProcessTypedResponse(frameBuffer: ProtoFrameBufferView, ty: MsgType) returns (o: ClientOutcome)
      requires frameBuffer.Valid() && frameBuffer.serializer == serializer
      ensures o
           == ProcessTyped(frameBuffer.buffer[..frameBuffer.written], serializer.messageIdMap, exceptionFactories, ty)
    {
      hide ReadFrame;
      var buf := frameBuffer.buffer;
      ReadIgnoresStaleBytes(buf[..], frameBuffer.written, serializer.messageIdMap, RESPONSES);
      assert buf[..][..frameBuffer.written] == buf[..frameBuffer.written];
      var r := frameBuffer.Read(RESPONSES);
      if !r.Read? {
        return Failed;
      }
      var status, what := r.header.rec[0].n, r.header.rec[1].b;
      if status >= 300 || status < 200 {
        if r.payload.Some? {
          var typeId := r.header.rec[2].n;
          if typeId in exceptionFactories {
            return CallFactory(exceptionFactories[typeId], typeId, what, status, r.payload.value);
          }
        }
        return Fault(what, status);
      }
      if r.payload == None {
        return DoneWith(RawMessage(ty, Defaults(ty.fields)));
      }
      o := if r.payload.value.ty == ty then DoneWith(r.payload.value) else Failed;
    }

    /** ProcessResponse for commands without a result. */
    method ProcessResponse(frameBuffer: ProtoFrameBufferView) returns (o: ClientOutcome)
      requires frameBuffer.Valid() && frameBuffer.serializer == serializer
      ensures o == ProcessVoid(frameBuffer.buffer[..frameBuffer.written], serializer.messageIdMap, exceptionFactories)
    {
      hide ReadFrame;
      var buf := frameBuffer.buffer;
      ReadIgnoresStaleBytes(buf[..], frameBuffer.written, serializer.messageIdMap, RESPONSES);
      assert buf[..][..frameBuffer.written] == buf[..frameBuffer.written];
      var r := frameBuffer.Read(RESPONSES);
      if !r.Read? {
        return Failed;
      }
      var status, what := r.header.rec[0].n, r.header.rec[1].b;
      if status >= 300 || status < 200 {
        if r.payload.Some? {
          var typeId := r.header.rec[2].n;
          if typeId in exceptionFactories {
            return CallFactory(exceptionFactories[typeId], typeId, what, status, r.payload.value);
          }
        }
        return Fault(what, status);
      }
      o := if r.payload.Some? then Failed else Done;
    }
  }

  lemma {:induction false} RequestsFit(types: TypeMap, recipient: bytes, m: Message)
    ensures var f := RequestFrame(types, recipient, m); f.Some? ==> |f.value| <= CAPACITY
  {
    hide Bytes;
  }

  /** Every reply fits the buffer it is received into. */
  lemma {:induction false} ServedFits(s: MessageSerializer, server: ProtoReqRspSrvHandler, log: seq<Call>, frame: bytes)
    ensures var r := Serve(server.serializer.messageIdMap, server.dispatcher.handlers, log, frame).0;
            r.Reply? ==> |r.frame| <= CAPACITY
  {
    hide ReadFrame, Dispatch;
  }
}
