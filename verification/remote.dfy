/** The whole way: the example server's application behind its command handlers, driven by a remote
    client, and mirrored by a subscriber. */
module RemoteApp {
  import opened Wire
  import opened Utf8
  import opened Codec
  import opened Registry
  import opened Dispatcher
  import opened Cqrs
  import opened Server
  import opened Client
  import opened EventStores
  import opened StoreRuns
  import opened Subscriber
  import opened Plumber
  import opened Monitor
  import opened Replay

  /** How the application reads its other commands. CreateReactiveSubscription's selectors are a
      repeated field, which field tables do not describe. */
  type Reader = Message -> Monitor.Command

  /** The time at which each command is handled. */
  type Clock = nat -> uint64

  /** An application as it is before its server's first command. */
  datatype Setting = Setting(app: App, types: TypeMap, read: Reader, clock: Clock)

  function CommandOf(p: Setting, m: Message, n: nat): Monitor.Command
  {
    if m.ty == SETTER_COMMAND then Monitor.Command.Set(m, p.clock(n))
    else if m.ty == CREATE_STREAM then Ensure(m.rec[0].b)
    else p.read(m)
  }

  function CommandsOf(p: Setting, log: seq<Call>): (cmds: seq<Monitor.Command>)
    ensures |cmds| == |log|
  {
    seq(|log|, i requires 0 <= i < |log| => CommandOf(p, log[i].command, i))
  }

  /** The application after the calls made so far. */
  ghost function After(p: Setting, log: seq<Call>): (r: (App, Result))
    requires ValidApp(p.app)
    ensures r.1 != PublishFailed ==> ValidApp(r.0)
  {
    var cmds := CommandsOf(p, log);
    var (app, r) := AppRun(p.app, p.types, cmds);
    assert r != PublishFailed ==> ValidApp(app) by {
      if r != PublishFailed {
        RunKeepsValid(p.app, p.types, cmds);
      }
    }
    (app, r)
  }

  /** Refusals and failed publishes are exceptions, and none of them is a fault. */
  function OutcomeOf(r: Result): Outcome
  {
    if r == Result.Done then Returned else Threw
  }

  /** The handler that carries out its command on the application. */
  ghost function AppHandler(p: Setting, id: uint32, ty: MsgType): (h: Handler)
    requires ValidApp(p.app)
    ensures h.expects == ty
  {
    Handler(ty, (log: seq<Call>, recipient: bytes, m: Message) => OutcomeOf(After(p, log + [Call(id, recipient, m)]).1))
  }

  ghost predicate WorksOn(h: Handler, id: uint32, p: Setting)
    requires ValidApp(p.app)
  {
    h == AppHandler(p, id, h.expects)
  }

  /** Every handler of the server works on the application, and both use the same registry. */
  ghost predicate Hosts(server: ServerTables, p: Setting)
    requires ValidApp(p.app)
  {
    p.types == server.maps.types && forall id | id in server.handlers :: WorksOn(server.handlers[id], id, p)
  }

  /** A set-up whose handlers all work on the application makes a server that hosts it. */
  lemma {:induction false} SetUpHosts(steps: seq<SetupStep>, p: Setting)
    requires ValidApp(p.app) && p.types == SetUp(steps).maps.types
    requires forall i | 0 <= i < |steps| && steps[i].AddHandler? ::
               WorksOn(Handler(steps[i].ty, steps[i].run), steps[i].id, p)
    ensures Hosts(SetUp(steps), p)
  {
    hide WorksOn, ValidApp;
    HandlersComeFromSteps(steps, p);
  }

  lemma {:induction false} HandlersComeFromSteps(steps: seq<SetupStep>, p: Setting)
    requires ValidApp(p.app)
    requires forall i | 0 <= i < |steps| && steps[i].AddHandler? ::
               WorksOn(Handler(steps[i].ty, steps[i].run), steps[i].id, p)
    ensures forall id | id in SetUp(steps).handlers :: WorksOn(SetUp(steps).handlers[id], id, p)
  {
    hide WorksOn, ValidApp;
    if steps != [] {
      HandlersComeFromSteps(steps[..|steps| - 1], p);
    }
  }

  lemma {:induction false} AfterStep(p: Setting, log: seq<Call>, call: Call)
    requires ValidApp(p.app)
    ensures After(p, log + [call])
         == if After(p, log).1 == Result.Done
            then AppStep(After(p, log).0, p.types, CommandOf(p, call.command, |log|)) else After(p, log)
  {
    hide AppStep, CommandOf, ValidApp;
    var cmds := CommandsOf(p, log + [call]);
    assert cmds[..|log|] == CommandsOf(p, log);
  }

  lemma {:induction false} AppRunConcat(app: App, types: TypeMap, a: seq<Monitor.Command>, b: seq<Monitor.Command>)
    requires Steppable(app)
    ensures AppRun(app, types, a + b)
         == if AppRun(app, types, a).1 == Result.Done then AppRun(AppRun(app, types, a).0, types, b)
            else AppRun(app, types, a)
  {
    hide AppStep, Steppable;
    if b == [] {
      assert a + b == a;
    } else {
      var n := |b| - 1;
      AppRunConcat(app, types, a, b[..n]);
      assert (a + b)[..|a| + n] == a + b[..n];
    }
  }

  /** The exchange with the application: the caller is told that the command is done exactly when it
      is, and otherwise never hears from the server again. */
  lemma {:induction false} ExchangeTells(r: Result, ids: IdMap, factories: IdMap)
    ensures var x := ExchangeFor(OutcomeOf(r));
            && (x != Unanswered <==> r == Result.Done)
            && EndVoid(x, ids, factories) == if r == Result.Done then ClientOutcome.Done else NoReply
  {
    hide ProcessVoid, ReplyTo;
    ReplyIsFaithfulExactly(OutcomeOf(r), ids, factories);
    ThrewIsUnanswered();
  }

  lemma {:induction false} HostedExchange(client: Maps, server: ServerTables, p: Setting, log: seq<Call>, cmd: Request)
    requires ValidApp(p.app) && Hosts(server, p) && RequestDeliverable(client.types, server, cmd)
    ensures cmd.1.ty in client.types
    ensures var calls := log + [Call(client.types[cmd.1.ty], cmd.0, cmd.1)];
            Remote(client.types, server, log, cmd.0, cmd.1) == (ExchangeFor(OutcomeOf(After(p, calls).1)), calls)
  {
    hide Remote, ExchangeFor, After, RequestDeliverable;
    RequestIsDelivered(client.types, server, log, cmd);
  }

  /** A server that hosts the application is up exactly as long as every command has been carried out,
      and the callers are told so one by one. */
  lemma {:induction false} UpWhileDone(client: Maps, factories: IdMap, server: ServerTables, p: Setting, log: seq<Call>,
      cmds: seq<Request>)
    requires ValidApp(p.app) && Hosts(server, p) && AllDeliverable(client.types, server, cmds)
    requires After(p, log).1 == Result.Done
    ensures var t := SendAll(client, factories, server, log, cmds);
            && (t.up <==> After(p, t.log).1 == Result.Done)
            && (cmds != [] ==> (t.outcomes[|cmds| - 1] == ClientOutcome.Done <==> t.up))
  {
    hide After, EndVoid, ExchangeFor, RequestDeliverable, Hosts, RequestFrame, ValidApp, SendTo;
    if cmds != [] {
      var n := |cmds| - 1;
      UpWhileDone(client, factories, server, p, log, cmds[..n]);
      var before := SendAll(client, factories, server, log, cmds[..n]);
      if before.up {
        assert RequestDeliverable(client.types, server, cmds[n]);
        HostedExchange(client, server, p, before.log, cmds[n]);
        var t := SendAll(client, factories, server, log, cmds);
        ExchangeTells(After(p, t.log).1, client.ids, factories);
      } else {
        NotDoneWhenDown(client, factories, server, before.log, cmds[n]);
      }
    }
  }

  lemma {:induction false} NotDoneWhenDown(client: Maps, factories: IdMap, server: ServerTables, log: seq<Call>,
      cmd: Request)
    ensures EndVoid(SendTo(false, client.types, server, log, cmd).0, client.ids, factories) != ClientOutcome.Done
    ensures SendTo(false, client.types, server, log, cmd).1 == log
  {
    hide RequestFrame;
  }

  /** From a client's commands to a subscriber's view. Take a snapshot of the hosted application at any
      moment. Whatever deliverable commands a remote client sends from then on, as long as no publish
      fails, every channel that a reactive stream had at the snapshot has only gained frames, and
      replaying what a subscriber dispatches for them over the snapshot gives every property
      monitored then whose name can be read back its value on the server. The server is up exactly if
      every command succeeded. */
  lemma {:induction false} RemoteRunIsMirrored(client: Maps, factories: IdMap, server: ServerTables, p: Setting,
      log: seq<Call>, cmds: seq<Request>, ids: IdMap, s: bytes, c: nat)
    requires ValidApp(p.app) && Hosts(server, p) && AllDeliverable(client.types, server, cmds)
    requires After(p, log).1 == Result.Done
    requires var app := After(p, log).0;
             s in app.reactive && c < |Channels(app.store, s)| && KnowsChanges(p.types, ids)
    ensures var t := SendAll(client, factories, server, log, cmds); var (app, r) := After(p, t.log);
            && (t.up <==> r == Result.Done)
            && (r != PublishFailed ==> Agrees(ids, After(p, log).0, app, s, c))
  {
    hide AppRun, ValidApp, Agrees, SendAll, AllDeliverable;
    UpWhileDone(client, factories, server, p, log, cmds);
    CommandsRunOnceInOrder(client, factories, server, log, cmds);
    var t := SendAll(client, factories, server, log, cmds);
    var earlier, all := CommandsOf(p, log), CommandsOf(p, t.log);
    var later := all[|log|..];
    assert all == earlier + later by {
      assert t.log[..|log|] == log;
    }
    ValidIsSteppable(p.app);
    AppRunConcat(p.app, p.types, earlier, later);
    if After(p, t.log).1 != PublishFailed {
      ReplayReconstructsState(After(p, log).0, p.types, ids, later, s, c);
    }
  }

  /** A remote setter ends in the subscriber's view: when the call returns normally to the client, the
      property monitored at the snapshot has the value that was sent, on the server and in the view. */
  lemma {:induction false} RemoteSetReachesSubscriber(client: Maps, factories: IdMap, server: ServerTables, p: Setting,
      log: seq<Call>, cmds: seq<Request>, recipient: bytes, key: Key, v: int32, ids: IdMap, s: bytes, c: nat)
    requires ValidApp(p.app) && Hosts(server, p) && After(p, log).1 == Result.Done
    requires AllDeliverable(client.types, server, cmds + [(recipient, SetterMsg(key, INT_VALUE, Le32(FromInt32(v))))])
    requires var app := After(p, log).0;
             s in app.reactive && c < |Channels(app.store, s)| && KnowsChanges(p.types, ids)
    requires key in After(p, log).0.monitored
    ensures var setter := (recipient, SetterMsg(key, INT_VALUE, Le32(FromInt32(v))));
            var t := SendAll(client, factories, server, log, cmds + [setter]);
            var was, app := After(p, log).0, After(p, t.log).0;
            t.outcomes[|cmds|] == ClientOutcome.Done ==>
              && key in app.values && app.values[key] == v
              && c < |Channels(app.store, s)| && |Channels(was.store, s)[c]| <= |Channels(app.store, s)[c]|
              && var gained := Channels(app.store, s)[c][|Channels(was.store, s)[c]|..];
                 var view := Replayed(was.values, DeliveriesOf(ids, s, gained));
                 key in view && view[key] == v
  {
    hide After, ValidApp, SendAll, AllDeliverable, SetterMsg, Hosts, Replayed;
    var setter := (recipient, SetterMsg(key, INT_VALUE, Le32(FromInt32(v))));
    var all := cmds + [setter];
    UpWhileDone(client, factories, server, p, log, all);
    RemoteRunIsMirrored(client, factories, server, p, log, all, ids, s, c);
    if SendAll(client, factories, server, log, all).up {
      SetterHasGoodName(client.types, server, all, |cmds|, key, v);
      LastSetHolds(client, factories, server, p, log, cmds, setter, key, v);
    }
  }

  /** A setter that can be delivered names a property whose name can be read back. */
  lemma {:induction false} SetterHasGoodName(types: TypeMap, server: ServerTables, cmds: seq<Request>, i: nat, key: Key,
      v: int32)
    requires AllDeliverable(types, server, cmds) && i < |cmds|
    requires cmds[i].1 == SetterMsg(key, INT_VALUE, Le32(FromInt32(v)))
    ensures GoodName(key)
  {
    hide Connected, Fits;
    var m := cmds[i].1;
    assert RequestDeliverable(types, server, cmds[i]);
    assert Readable(m.ty.fields[0].kind, m.rec[0]) && Readable(m.ty.fields[1].kind, m.rec[1]);
  }

  lemma {:induction false} LastSetHolds(client: Maps, factories: IdMap, server: ServerTables, p: Setting,
      log: seq<Call>, cmds: seq<Request>, setter: Request, key: Key, v: int32)
    requires ValidApp(p.app) && AllDeliverable(client.types, server, cmds + [setter])
    requires setter.1 == SetterMsg(key, INT_VALUE, Le32(FromInt32(v)))
    requires var t := SendAll(client, factories, server, log, cmds + [setter]); t.up && After(p, t.log).1 == Result.Done
    ensures var app := After(p, SendAll(client, factories, server, log, cmds + [setter]).log).0;
            key in app.values && app.values[key] == v
  {
    hide After, ValidApp, SendAll, AllDeliverable;
    var all := cmds + [setter];
    CommandsRunOnceInOrder(client, factories, server, log, all);
    var calls := CallsFor(client.types, all);
    var earlier, last := log + calls[..|cmds|], calls[|cmds|];
    assert log + calls == earlier + [last];
    assert last.command == setter.1;
    AfterStep(p, earlier, last);
    assert After(p, earlier).1 == Result.Done;
    ValidIsSteppable(After(p, earlier).0);
    SetStepHolds(After(p, earlier).0, p.types, key, v, p.clock(|earlier|));
  }

  lemma {:induction false} SetStepHolds(app: App, types: TypeMap, key: Key, v: int32, now: uint64)
    requires Steppable(app)
    ensures var setter := Monitor.Command.Set(SetterMsg(key, INT_VALUE, Le32(FromInt32(v))), now);
            var (after, r) := AppStep(app, types, setter);
            r == Result.Done ==> key in after.values && after.values[key] == v
  {
    SetterNamesItsValue(app.values, key, INT_VALUE, v, []);
    assert Le32(FromInt32(v)) + [] == Le32(FromInt32(v));
  }

  // ---------- The hosted application as a server history ----------

  /** The publishes that one round makes: those to the first n streams, up to the first that fails. */
  ghost function PublishOps(st: Store, types: TypeMap, streams: seq<bytes>, n: nat, evt: Message, now: uint64): seq<Op>
    requires ValidStore(st) && n <= |streams|
  {
    if n == 0 then []
    else
      var before := PublishOps(st, types, streams, n - 1, evt, now);
      if PublishAll(st, types, streams, n - 1, evt, now).1
      then before + [Op.Publish(streams[n - 1], evt, now)] else before
  }

  /** What a command does to the event store. */
  ghost function StoreOps(app: App, types: TypeMap, c: Monitor.Command): seq<Op>
    requires ValidApp(app)
  {
    match c
    case Set(_, now) =>
      if ChangeOf(app, c).Some? then
        var (k, v) := ChangeOf(app, c).value;
        PublishOps(app.store, types, app.reactive, |app.reactive|, ChangedMsg(k, v), now)
      else []
    case CreateReactive(name, _) => [Op.CreateStream(name)]
    case StartReactive(_) => []
    case Ensure(name) => [EnsureStream(name)]
  }

  lemma {:induction false} RunOneMore(types: TypeMap, ops: seq<Op>, op: Op)
    ensures Run(types, ops + [op]).0 == Step(types, Run(types, ops).0, op).0
  {
    assert (ops + [op])[..|ops|] == ops;
  }

  lemma {:induction false} PublishAllIsARun(types: TypeMap, ops: seq<Op>, streams: seq<bytes>, n: nat, evt: Message,
      now: uint64)
    requires n <= |streams|
    ensures var st := Run(types, ops).0;
            var published := PublishOps(st, types, streams, n, evt, now);
            Run(types, ops + published).0 == PublishAll(st, types, streams, n, evt, now).0
  {
    hide Run, PublishTo;
    var st := Run(types, ops).0;
    if n == 0 {
      assert ops + [] == ops;
    } else {
      PublishAllIsARun(types, ops, streams, n - 1, evt, now);
      var before, op := PublishOps(st, types, streams, n - 1, evt, now), Op.Publish(streams[n - 1], evt, now);
      RunOneMore(types, ops + before, op);
      assert ops + (before + [op]) == ops + before + [op];
    }
  }

  lemma {:induction false} SetIsARun(app: App, types: TypeMap, cmd: Message, now: uint64, ops: seq<Op>)
    requires ValidApp(app) && app.store == Run(types, ops).0
    ensures var c := Monitor.Command.Set(cmd, now);
            AppStep(app, types, c).0.store == Run(types, ops + StoreOps(app, types, c)).0
  {
    hide Run, PublishAll, PublishOps, ChangedMsg, Ascending;
    assert ops + [] == ops;
    if cmd.ty == SETTER_COMMAND && Target(app.values, cmd).Some? {
      var (k, v) := Target(app.values, cmd).value;
      var streams, evt := app.reactive, ChangedMsg(k, v);
      assert Fire(app.store, types, streams, 0, evt, now) == (app.store, true);
      assert Fire(app.store, types, streams, 1, evt, now)
          == PublishAll(app.store, types, streams, |streams|, evt, now);
      PublishAllIsARun(types, ops, streams, |streams|, evt, now);
    }
  }

  lemma {:induction false} StepIsARun(app: App, types: TypeMap, c: Monitor.Command, ops: seq<Op>)
    requires ValidApp(app) && app.store == Run(types, ops).0
    ensures AppStep(app, types, c).0.store == Run(types, ops + StoreOps(app, types, c)).0
  {
    hide Run, ChangeOf, AfterSetter, Ascending;
    match c
    case Set(cmd, now) => SetIsARun(app, types, cmd, now, ops);
    case StartReactive(_) => assert ops + [] == ops;
    case Ensure(name) => RunOneMore(types, ops, EnsureStream(name));
    case CreateReactive(name, selectors) =>
      RunOneMore(types, ops, Op.CreateStream(name));
      MonitorKeepsStore(app.(store := AddChannel(app.store, name), reactive := Insert(app.reactive, name)), selectors);
  }

  /** What happened on the server that hosts the application, call by call. */
  ghost function HistoryOf(p: Setting, log: seq<Call>): History
    requires ValidApp(p.app)
  {
    if log == [] then []
    else
      var n := |log| - 1;
      var (app, r) := After(p, log[..n]);
      HistoryOf(p, log[..n])
        + [Handled(log[n], if r == Result.Done then StoreOps(app, p.types, CommandOf(p, log[n].command, n)) else [])]
  }

  /** The application is one of the servers that remote subscribing is about: after every run of its
      commands, refused or failed ones included, its event store is the outcome of the history's
      operations, and as long as all commands succeed its handlers obey the library's rule for
      CreateStream. */
  lemma {:induction false} AppIsAServer(p: Setting, start: seq<Op>, log: seq<Call>)
    requires ValidApp(p.app) && p.app.store == Run(p.types, start).0
    ensures var h := HistoryOf(p, log); var (app, r) := After(p, log);
            && CallsOf(h) == log
            && app.store == Run(p.types, start + OpsOf(h)).0
            && (r == Result.Done ==> Lawful(h))
  {
    hide AppStep, Run, StoreOps, ValidApp, After, CallsOf, OpsOf, EnsuresItsStream, CommandOf;
    if log == [] {
      NothingYet(p);
      assert start + [] == start;
    } else {
      var n := |log| - 1;
      var early, call := log[..n], log[n];
      AppIsAServer(p, start, early);
      AfterStep(p, early, call);
      assert early + [call] == log;
      var h := HistoryOf(p, early);
      var (app, r) := After(p, early);
      var c := CommandOf(p, call.command, n);
      var ops := if r == Result.Done then StoreOps(app, p.types, c) else [];
      OneMoreHandled(h, call, ops);
      assert start + (OpsOf(h) + ops) == start + OpsOf(h) + ops;
      if r == Result.Done {
        StepIsARun(app, p.types, c, start + OpsOf(h));
        EnsureIsLawful(app, p.types, call, ops, p, n);
      } else {
        assert start + OpsOf(h) + ops == start + OpsOf(h);
      }
    }
  }

  lemma {:induction false} NothingYet(p: Setting)
    requires ValidApp(p.app)
    ensures After(p, []) == (p.app, Result.Done) && CallsOf([]) == [] && OpsOf([]) == []
  {
  }

  lemma {:induction false} OneMoreHandled(h: History, call: Call, ops: seq<Op>)
    ensures CallsOf(h + [Handled(call, ops)]) == CallsOf(h) + [call]
    ensures OpsOf(h + [Handled(call, ops)]) == OpsOf(h) + ops
  {
    assert (h + [Handled(call, ops)])[..|h|] == h;
  }

  lemma {:induction false} EnsureIsLawful(app: App, types: TypeMap, call: Call, ops: seq<Op>, p: Setting, n: nat)
    requires ValidApp(app) && ops == StoreOps(app, types, CommandOf(p, call.command, n))
    ensures EnsuresItsStream(Handled(call, ops))
  {
  }

  lemma {:induction false} HistoryOfConcat(p: Setting, log: seq<Call>, more: seq<Call>)
    requires ValidApp(p.app)
    ensures |HistoryOf(p, log)| == |log| && HistoryOf(p, log) <= HistoryOf(p, log + more)
  {
    hide After, StoreOps, CommandOf, ValidApp;
    if more != [] {
      var n := |more| - 1;
      HistoryOfConcat(p, log, more[..n]);
      assert (log + more)[..|log| + n] == log + more[..n];
    } else {
      assert log + more == log;
      if log != [] {
        HistoryOfConcat(p, log[..|log| - 1], []);
      }
    }
  }

  /** Remote subscribing on the hosted application: the stream that a client subscribes to has a channel
      on the server from then on, and gets another one just for each reactive subscription created
      under its name, as long as the commands that follow succeed. */
  lemma {:induction false} SubscribedStreamOfApp(client: Maps, factories: IdMap, server: ServerTables, p: Setting,
      start: History, log: seq<Call>, s: bytes, more: seq<Call>)
    requires ValidApp(p.app) && Hosts(server, p)
    requires CallsOf(start) == [] && Lawful(start) && p.app.store == Run(p.types, OpsOf(start)).0
    requires Connected(client.types, server, CREATE_STREAM) && Fits(client.types, SYSTEM, CreateStreamMsg(s))
    requires s != [] && ValidUtf8(s)
    requires After(p, Remote(client.types, server, log, SYSTEM, CreateStreamMsg(s)).1 + more).1 == Result.Done
    ensures var calls := Remote(client.types, server, log, SYSTEM, CreateStreamMsg(s)).1;
            var before, after := Channels(After(p, calls).0.store, s), Channels(After(p, calls + more).0.store, s);
            && |calls| == |log| + 1 <= |HistoryOf(p, calls + more)|
            && before != []
            && |after| == |before| + Creations(OpsOf(HistoryOf(p, calls + more)[|calls|..]), s)
  {
    hide Remote, After, Run, Channels, OpsOf, CallsOf, HistoryOf, ValidApp, AppHandler, Connected, Fits;
    hide EnsuresItsStream;
    var calls := Remote(client.types, server, log, SYSTEM, CreateStreamMsg(s)).1;
    var ops := OpsOf(start);
    HistoryOfConcat(p, calls, more);
    HistoryOfConcat(p, calls + more, []);
    var h, all := HistoryOf(p, calls), HistoryOf(p, calls + more);
    var later := all[|calls|..];
    assert all == h + later;
    AppIsAServer(p, ops, calls);
    AppIsAServer(p, ops, calls + more);
    OpsOfConcat(start, h);
    OpsOfConcat(start, all);
    CallsOfConcat(start, h);
    assert start + h + later == start + all && [] + calls == calls;
    assert Lawful(start + h) by {
      assert forall i | 0 <= i < |h| :: h[i] == all[i];
    }
    RemoteSubscribeCreatesStream(client, factories, server, log, s, start + h, later);
  }
}
