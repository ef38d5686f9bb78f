/** The example server's own set-up, which the theorems about hosted applications are for. */
module Example {
  import opened Wire
  import opened Codec
  import opened Registry
  import opened Dispatcher
  import opened Cqrs
  import opened Client
  import opened EventStores
  import opened Monitor
  import opened RemoteApp

  function Ascii(s: string): bytes
    requires forall i | 0 <= i < |s| :: s[i] < 128 as char
  {
    seq<byte>(|s|, i requires 0 <= i < |s| => s[i] as int)
  }

  const BUFFERS := Key(Ascii("fakevideosrc"), Ascii("num-buffers"))
  const PROCESSED := Key(Ascii("fakevideosink"), Ascii("processed"))

  const START_REACTIVE := MsgType("example.StartReactiveSubscription", [Field(1, Text)])

  /** Message ids of the library and of the example. */
  const CREATE_STREAM_ID: uint32 := 1
  const SETTER_ID: uint32 := 0x100
  const CREATE_REACTIVE_ID: uint32 := 0x101
  const START_REACTIVE_ID: uint32 := 0x102
  const PROPERTY_CHANGED_ID: uint32 := 0x1_0000

  /** Two writable properties with their initial values, nothing monitored and no streams. */
  const EXAMPLE_APP := App(
    map[BUFFERS := 100, PROCESSED := 0], {BUFFERS, PROCESSED}, map[BUFFERS := 0, PROCESSED := 0], {}, [], EMPTY_STORE)

  /** The registrations of the example; createReactive stands for the type of CreateReactiveSubscription,
      whose repeated field tables do not describe. */
  function Registered(createReactive: MsgType): (regs: seq<Registration>)
    ensures |regs| == 5
  {
    [Registration(CREATE_STREAM, CREATE_STREAM_ID), Registration(SETTER_COMMAND, SETTER_ID),
     Registration(createReactive, CREATE_REACTIVE_ID), Registration(START_REACTIVE, START_REACTIVE_ID),
     Registration(PROPERTY_CHANGED, PROPERTY_CHANGED_ID)]
  }

  predicate NewType(ty: MsgType)
  {
    ty != CREATE_STREAM && ty != SETTER_COMMAND && ty != START_REACTIVE && ty != PROPERTY_CHANGED
  }

  lemma {:induction false} NonzeroId(createReactive: MsgType, i: nat)
    requires i < 5
    ensures Registered(createReactive)[i].id != 0
  {
  }

  function ExampleSetting(createReactive: MsgType, read: Reader, clock: Clock): (p: Setting)
  {
    Setting(EXAMPLE_APP, RegisterAll(Registered(createReactive)).types, read, clock)
  }

  lemma {:induction false} ExampleIsValid()
    ensures ValidApp(EXAMPLE_APP)
  {
  }

  /** Plumber's constructor, the example's AddCommandHandler calls and its RegisterMessage, in order. */
  ghost function ExampleSteps(p: Setting, createReactive: MsgType): seq<SetupStep>
    requires ValidApp(p.app)
  {
    var regs := Registered(createReactive);
    seq(5, i requires 0 <= i < 5 =>
      if i < 4 then AddHandler(regs[i].ty, regs[i].id, AppHandler(p, regs[i].id, regs[i].ty).run)
      else AddMessage(regs[i].ty, regs[i].id))
  }

  /** The example's set-up makes a server that hosts the example's application. */
  lemma {:induction false} ExampleHosts(createReactive: MsgType, read: Reader, clock: Clock)
    ensures var p := ExampleSetting(createReactive, read, clock);
            ValidApp(p.app) && Hosts(SetUp(ExampleSteps(p, createReactive)), p)
  {
    ExampleIsValid();
    var p := ExampleSetting(createReactive, read, clock);
    var steps := ExampleSteps(p, createReactive);
    SetUpTracksSerializer(steps);
    assert Registrations(steps) == Registered(createReactive);
    SetUpHosts(steps, p);
  }

  /** No two registrations share a type or an id. */
  lemma {:induction false} RegisteredOnce(createReactive: MsgType, i: nat, j: nat)
    requires NewType(createReactive) && i < 5 && j < 5
    requires var regs := Registered(createReactive); regs[i].ty == regs[j].ty || regs[i].id == regs[j].id
    ensures i == j
  {
  }

  /** A client that registers one of the example's four command types under the example's id is connected
      to this server. */
  lemma {:induction false} ExampleConnects(createReactive: MsgType, read: Reader, clock: Clock,
      regs: seq<Registration>, i: nat)
    requires NewType(createReactive) && i < 4
    requires var ty := Registered(createReactive)[i].ty;
             FirstIndex(regs, ty) < |regs| && regs[FirstIndex(regs, ty)].id == Registered(createReactive)[i].id
    ensures var p := ExampleSetting(createReactive, read, clock);
            && ValidApp(p.app)
            && Connected(RegisterAll(regs).types, SetUp(ExampleSteps(p, createReactive)),
                         Registered(createReactive)[i].ty)
  {
    hide SetUp, RegisterAll, FirstIndex, AppHandler, Connected, Registered, NewType, ValidApp;
    ExampleIsValid();
    var steps := ExampleSteps(ExampleSetting(createReactive, read, clock), createReactive);
    forall j, k | 0 <= j < 5 && 0 <= k < 5 && (steps[j].ty == steps[k].ty || steps[j].id == steps[k].id)
      ensures j == k
    {
      RegisteredOnce(createReactive, j, k);
    }
    NonzeroId(createReactive, i);
    SetUpConnects(steps, regs, i);
  }
}
