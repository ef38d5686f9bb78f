/** The message dispatcher: handlers by message id, each behind a downcast to its own type,
    and how its table and the serializer's stay in step. */
module Dispatcher {
  import opened Wire
  import opened Codec
  import opened Registry

  /** One invocation of a command handler. */
  datatype Call = Call(id: uint32, recipient: bytes, command: Message)

  /** How a handler ends: a void handler returns, a typed one responds, and either may throw a
      FaultException (its what() text, code and detail type id) or any other exception. */
  datatype Outcome = Returned | Responded(reply: Message) | Faulted(what: bytes, code: uint32, typeId: uint32) | Threw

  /** A deterministic handler: its outcome may depend on every earlier call. */
  type Behaviour = (seq<Call>, bytes, Message) -> Outcome

  datatype Handler = Handler(expects: MsgType, run: Behaviour)

  type HandlerMap = map<uint32, Handler>

  datatype Dispatched = NoHandler | NullMessage | TypeMismatch | Ran(call: Call, outcome: Outcome)

  function Dispatch(handlers: HandlerMap, log: seq<Call>, recipient: bytes, id: uint32,
      msg: Option<Message>): Dispatched
  {
    if id !in handlers then NoHandler
    else if msg.None? then NullMessage
    else if msg.value.ty != handlers[id].expects then TypeMismatch
    else Ran(Call(id, recipient, msg.value), handlers[id].run(log, recipient, msg.value))
  }

  function LogAfter(log: seq<Call>, d: Dispatched): seq<Call>
  {
    if d.Ran? then log + [d.call] else log
  }

  /** A handler runs exactly if there is one for the id and a message of its type; then just this call is made,
      with the outcome of that handler, and otherwise none. */
  lemma {:induction false} DispatchRunsExactly(handlers: HandlerMap, log: seq<Call>, recipient: bytes, id: uint32,
      msg: Option<Message>)
    ensures var d := Dispatch(handlers, log, recipient, id, msg);
            if id in handlers && msg.Some? && msg.value.ty == handlers[id].expects
            then && d == Ran(Call(id, recipient, msg.value), handlers[id].run(log, recipient, msg.value))
                 && LogAfter(log, d) == log + [Call(id, recipient, msg.value)]
            else !d.Ran? && LogAfter(log, d) == log
  {
  }

  class MessageDispatcher {
    var handlers: HandlerMap
    var messageTypes: IdMap
    var typeToIdMap: TypeMap
    /** Every handler invocation so far, in order. */
    var log: seq<Call>

    constructor ()
      ensures handlers == map[] && log == []
    {
      handlers, messageTypes, typeToIdMap, log := map[], map[], map[], [];
    }

    method RegisterHandler(ty: MsgType, id: uint32, run: Behaviour)
      modifies this
      ensures handlers == old(handlers)[id := Handler(ty, run)]
      ensures messageTypes == old(messageTypes)[id := ty]
      ensures typeToIdMap == old(typeToIdMap)[ty := id]
      ensures log == old(log)
    {
      messageTypes := messageTypes[id := ty];
      typeToIdMap := typeToIdMap[ty := id];
      handlers := handlers[id := Handler(ty, run)];
    }

    /** Handle: looks up, checks for null, downcasts and calls. */
    method Handle(recipient: bytes, id: uint32, msg: Option<Message>) returns (d: Dispatched)
      modifies this`log
      ensures d == Dispatch(handlers, old(log), recipient, id, msg)
      ensures log == LogAfter(old(log), d)
      ensures if id in handlers && msg.Some? && msg.value.ty == handlers[id].expects
              then d.Ran? && log == old(log) + [Call(id, recipient, msg.value)] else !d.Ran? && log == old(log)
    {
      if id !in handlers {
        return NoHandler;
      }
      if msg.None? {
        return NullMessage;
      }
      var handler := handlers[id];
      if msg.value.ty != handler.expects {
        return TypeMismatch;
      }
      var call := Call(id, recipient, msg.value);
      d := Ran(call, handler.run(log, recipient, msg.value));
      log := log + [call];
    }
  }

  // ---------- Setting up a server ----------

  /** A server is set up by registering messages, and handlers together with their message. */
  datatype SetupStep = AddMessage(ty: MsgType, id: uint32) | AddHandler(ty: MsgType, id: uint32, run: Behaviour)

  datatype ServerTables = ServerTables(maps: Maps, handlers: HandlerMap)

  /** A handler whose message cannot be registered is not stored. */
  function DoStep(s: ServerTables, step: SetupStep): ServerTables
  {
    var (maps, ok) := Register(s.maps, step.ty, step.id);
    if step.AddHandler? && ok then ServerTables(maps, s.handlers[step.id := Handler(step.ty, step.run)])
    else ServerTables(maps, s.handlers)
  }

  function SetUp(steps: seq<SetupStep>): ServerTables
  {
    if steps == [] then ServerTables(EMPTY, map[])
    else DoStep(SetUp(steps[..|steps| - 1]), steps[|steps| - 1])
  }

  function Registrations(steps: seq<SetupStep>): (regs: seq<Registration>)
    ensures |regs| == |steps|
  {
    seq(|steps|, i requires 0 <= i < |steps| => Registration(steps[i].ty, steps[i].id))
  }

  /** The serializer sees one registration a step, and every stored handler expects a type that
      the serializer knows under the handler's id. */
  lemma {:induction false} SetUpTracksSerializer(steps: seq<SetupStep>)
    ensures var s := SetUp(steps);
            && s.maps == RegisterAll(Registrations(steps))
            && forall id | id in s.handlers :: var ty := s.handlers[id].expects;
                 ty in s.maps.types && s.maps.types[ty] == id
  {
    if steps != [] {
      var n := |steps| - 1;
      SetUpTracksSerializer(steps[..n]);
      assert Registrations(steps)[..n] == Registrations(steps[..n]);
    }
  }

  /** After any set-up, a handler agrees with the serializer on its id's type exactly when no other
      type was first registered under that id later than the handler's. */
  lemma {:induction false} HandlerTypeAgreesExactly(steps: seq<SetupStep>, id: uint32)
    requires id in SetUp(steps).handlers
    ensures var s := SetUp(steps); var expects := s.handlers[id].expects;
            id in s.maps.ids && s.maps.ids[id] == expects <==> LatestUnder(Registrations(steps), expects, id)
  {
    SetUpTracksSerializer(steps);
    MapsAfterRegistrations(Registrations(steps));
  }

  predicate InjectiveIds(steps: seq<SetupStep>)
  {
    forall i, j | 0 <= i < |steps| && 0 <= j < |steps| :: steps[i].id == steps[j].id ==> steps[i].ty == steps[j].ty
  }

  /** With one type per id, whatever the serializer decodes for a handled id reaches its handler:
      the type mismatch branch of the dispatcher is dead. */
  lemma {:induction false} InjectiveIdsNeverMismatch(steps: seq<SetupStep>, id: uint32, data: bytes, log: seq<Call>,
      recipient: bytes)
    requires InjectiveIds(steps) && id in SetUp(steps).handlers
    ensures var s := SetUp(steps);
            && id in s.maps.ids && s.maps.ids[id] == s.handlers[id].expects
            && match Deserialize(s.maps.ids, data, id)
               case Parsed(m) => Dispatch(s.handlers, log, recipient, id, Some(m)).Ran?
               case _ => true
  {
    var regs, expects := Registrations(steps), SetUp(steps).handlers[id].expects;
    SetUpTracksSerializer(steps);
    MapsAfterRegistrations(regs);
    HandlerTypeAgreesExactly(steps, id);
    var i := FirstIndex(regs, expects);
    forall other | FirstIndex(regs, other) < |regs| && regs[FirstIndex(regs, other)].id == id
      ensures FirstIndex(regs, other) <= i
    {
      assert steps[FirstIndex(regs, other)].ty == steps[i].ty;
    }
  }

  /** With one type per id, and one id for its type, a registered handler's type is expected under
      its id from then on. */
  lemma {:induction false} HandlerStays(steps: seq<SetupStep>, i: nat)
    requires i < |steps| && steps[i].AddHandler? && InjectiveIds(steps)
    requires forall j | 0 <= j < |steps| :: steps[j].ty == steps[i].ty ==> steps[j].id == steps[i].id
    ensures var s := SetUp(steps); steps[i].id in s.handlers && s.handlers[steps[i].id].expects == steps[i].ty
  {
    var n := |steps| - 1;
    if i == n {
      var regs := Registrations(steps[..n]);
      SetUpTracksSerializer(steps[..n]);
      MapsAfterRegistrations(regs);
      assert steps[i].ty in RegisterAll(regs).types ==> steps[FirstIndex(regs, steps[i].ty)].id == steps[i].id;
    } else {
      HandlerStays(steps[..n], i);
    }
  }

  /** Two types under one id: every message of the later type runs into the mismatch branch. */
  lemma {:induction false} SharedIdMismatches(a: MsgType, b: MsgType, id: uint32, run: Behaviour, m: Message,
      log: seq<Call>, recipient: bytes)
    requires a != b && m.ty == b && Sendable(m)
    ensures var s := SetUp([AddHandler(a, id, run), AddMessage(b, id)]);
            && Deserialize(s.maps.ids, Bytes(m), id) == Parsed(m)
            && Dispatch(s.handlers, log, recipient, id, Some(m)) == TypeMismatch
  {
    var first := [AddHandler(a, id, run)];
    var steps := first + [AddMessage(b, id)];
    assert steps == [AddHandler(a, id, run), AddMessage(b, id)];
    assert steps[..1] == first && first[..0] == [];
    assert SetUp(first) == DoStep(SetUp([]), first[0]);
    assert SetUp(steps) == DoStep(SetUp(first), steps[1]);
    ParseAsUndoesBytes(m);
  }
}
