/** The example server's properties: setter commands, the monitor that publishes changes, and
    reactive subscriptions; and how far the event log mirrors the state. */
module Monitor {
  import opened Wire
  import opened Codec
  import opened Registry
  import opened Cqrs
  import opened Events
  import opened EventStores
  import opened StoreRuns

  /** Element name, property name, value type and value data, in both messages. */
  const PROPERTY_FIELDS: Table := [Field(1, Text), Field(2, Text), Field(3, Int32), Field(4, Raw)]

  const SETTER_COMMAND := MsgType("example.SetterCommand", PROPERTY_FIELDS)
  const PROPERTY_CHANGED := MsgType("example.PropertyChangedEvent", PROPERTY_FIELDS)

  /** ValueType::INT */
  const INT_VALUE := 2

  type int32 = i: int | -0x8000_0000 <= i < 0x8000_0000

  datatype Key = Key(element: bytes, property: bytes)

  type Values = map<Key, int32>

  function ChangedMsg(key: Key, v: int32): Message
  {
    RawMessage(PROPERTY_CHANGED, [Data(key.element), Data(key.property), Num(INT_VALUE), Data(Le32(FromInt32(v)))])
  }

  // ---------- Ordered sets of stream names ----------

  /** The order of std::string: byte by byte, a proper prefix first. */
  predicate Less(a: bytes, b: bytes)
  {
    b != [] && (a == [] || a[0] < b[0] || (a[0] == b[0] && Less(a[1..], b[1..])))
  }

  ghost predicate Ascending(s: seq<bytes>)
  {
    forall i, j | 0 <= i < j < |s| :: Less(s[i], s[j])
  }

  /** std::set::insert on the names in order. */
  function Insert(s: seq<bytes>, name: bytes): seq<bytes>
  {
    if s == [] then [name]
    else if s[0] == name then s
    else if Less(name, s[0]) then [name] + s
    else [s[0]] + Insert(s[1..], name)
  }

  lemma {:induction false} LessIsIrreflexive(a: bytes)
    ensures !Less(a, a)
  {
    if a != [] {
      LessIsIrreflexive(a[1..]);
    }
  }

  lemma {:induction false} LessIsTransitive(a: bytes, b: bytes, c: bytes)
    requires Less(a, b) && Less(b, c)
    ensures Less(a, c)
  {
    if a != [] && a[0] == b[0] == c[0] {
      LessIsTransitive(a[1..], b[1..], c[1..]);
    }
  }

  lemma {:induction false} LessIsTotal(a: bytes, b: bytes)
    ensures a == b || Less(a, b) || Less(b, a)
  {
    if a != [] && b != [] && a[0] == b[0] {
      LessIsTotal(a[1..], b[1..]);
      assert a == [a[0]] + a[1..] && b == [b[0]] + b[1..];
    }
  }

  /** The order, in terms of the first place where two names differ. */
  lemma {:induction false} LessIsLexicographic(a: bytes, b: bytes)
    ensures Less(a, b) <==> exists i :: 0 <= i <= |a| && i < |b| && a[..i] == b[..i] && (i == |a| || a[i] < b[i])
  {
    if Less(a, b) {
      var i := FirstDifference(a, b);
    }
    forall i | 0 <= i <= |a| && i < |b| && a[..i] == b[..i] && (i == |a| || a[i] < b[i]) ensures Less(a, b) {
      LessFromDifference(a, b, i);
    }
  }

  lemma {:induction false} FirstDifference(a: bytes, b: bytes) returns (i: nat)
    requires Less(a, b)
    ensures i <= |a| && i < |b| && a[..i] == b[..i] && (i == |a| || a[i] < b[i])
  {
    i := 0;
    if a != [] && a[0] == b[0] {
      var k := FirstDifference(a[1..], b[1..]);
      i := k + 1;
      PrefixCons(a, k);
      PrefixCons(b, k);
    }
  }

  lemma {:induction false} PrefixCons(s: bytes, k: nat)
    requires k < |s|
    ensures s[..k + 1] == [s[0]] + s[1..][..k]
  {
  }

  lemma {:induction false} LessFromDifference(a: bytes, b: bytes, i: nat)
    requires i <= |a| && i < |b| && a[..i] == b[..i] && (i == |a| || a[i] < b[i])
    ensures Less(a, b)
  {
    if i > 0 {
      var front, rest, more := a[..i], a[1..], b[1..];
      assert front == b[..i];
      assert a[0] == front[0] && b[0] == front[0];
      assert rest[..i - 1] == front[1..] && more[..i - 1] == front[1..];
      LessFromDifference(rest, more, i - 1);
    }
  }

  /** Inserting keeps the order, and with it each name unique, and adds just the name. */
  lemma {:induction false} InsertKeepsAscending(s: seq<bytes>, name: bytes)
    requires Ascending(s)
    ensures Ascending(Insert(s, name)) && forall x :: x in Insert(s, name) <==> x == name || x in s
  {
    hide Less;
    if s != [] && s[0] != name {
      LessIsTotal(name, s[0]);
      if Less(name, s[0]) {
        forall j | 0 <= j < |s| ensures Less(name, s[j]) {
          if j > 0 {
            LessIsTransitive(name, s[0], s[j]);
          }
        }
      } else {
        var rest := Insert(s[1..], name);
        InsertKeepsAscending(s[1..], name);
        forall j | 0 <= j < |rest| ensures Less(s[0], rest[j]) {
          assert rest[j] in rest;
        }
        assert s == [s[0]] + s[1..];
      }
    }
  }

  ghost predicate DistinctStreams(s: seq<bytes>)
  {
    forall i, j | 0 <= i < j < |s| :: s[i] != s[j]
  }

  lemma {:induction false} AscendingIsDistinct(s: seq<bytes>)
    requires Ascending(s)
    ensures DistinctStreams(s)
  {
    forall i, j | 0 <= i < j < |s| ensures s[i] != s[j] {
      LessIsIrreflexive(s[i]);
    }
  }

  // ---------- The two messages on the wire ----------

  lemma {:induction false} EncodeFour(fs: Table, r: Record)
    requires Typed(fs, r) && |fs| == 4
    ensures Encode(fs, r)
         == EncodeField(fs[0], r[0]) + EncodeField(fs[1], r[1]) + EncodeField(fs[2], r[2]) + EncodeField(fs[3], r[3])
  {
    hide EncodeField;
    assert EncodeFrom(fs, r, 4) == [];
    assert EncodeFrom(fs, r, 3) == EncodeField(fs[3], r[3]);
    assert EncodeFrom(fs, r, 2) == EncodeField(fs[2], r[2]) + EncodeField(fs[3], r[3]);
    assert EncodeFrom(fs, r, 1) == EncodeField(fs[1], r[1]) + (EncodeField(fs[2], r[2]) + EncodeField(fs[3], r[3]));
  }

  /** A change event in bytes: the two names, value type 2, and the four bytes of the value. */
  lemma {:induction false} ChangedLayout(key: Key, v: int32)
    ensures Bytes(ChangedMsg(key, v))
         == StringOnWire(10, key.element) + StringOnWire(18, key.property) + [24, 2]
            + [34, 4] + Le32(if v < 0 then 0x1_0000_0000 + v else v)
  {
    hide Encode, EncodeField, StringOnWire, NumberOnWire, Le32;
    var m := ChangedMsg(key, v);
    var fs := m.ty.fields;
    EncodeFour(fs, m.rec);
    StringFieldOnWire(fs[0], key.element);
    StringFieldOnWire(fs[1], key.property);
    SignedFieldOnWire(fs[2], 2);
    StringFieldOnWire(fs[3], Le32(FromInt32(v)));
    TypeAndData(Le32(FromInt32(v)));
  }

  lemma {:induction false} TypeAndData(data: bytes)
    requires |data| == 4
    ensures NumberOnWire(24, 2) == [24, 2] && StringOnWire(34, data) == [34, 4] + data
  {
  }

  /** A setter command in bytes. */
  lemma {:induction false} SetterLayout(key: Key, valueType: int32, data: bytes)
    ensures Bytes(SetterMsg(key, valueType, data))
         == StringOnWire(10, key.element) + StringOnWire(18, key.property)
            + NumberOnWire(24, if valueType < 0 then 0x1_0000_0000_0000_0000 + valueType else valueType)
            + StringOnWire(34, data)
  {
    hide Encode, EncodeField, StringOnWire, NumberOnWire;
    var m := SetterMsg(key, valueType, data);
    var fs := m.ty.fields;
    EncodeFour(fs, m.rec);
    StringFieldOnWire(fs[0], key.element);
    StringFieldOnWire(fs[1], key.property);
    SignedFieldOnWire(fs[2], valueType);
    StringFieldOnWire(fs[3], data);
  }

  // ---------- The state, on values ----------

  /** Each property's value and number of connected slots, the properties that may be written, the
      monitor's own list of connections, its reactive streams in order, and the event store. */
  datatype App = App(
    values: Values,
    writable: set<Key>,
    slots: map<Key, nat>,
    monitored: set<Key>,
    reactive: seq<bytes>,
    store: Store)

  /** A command may be refused before it changes anything, or fail while its change is published. */
  datatype Result = Done | Refused | PublishFailed

  /** One slot's work: publish to the first n reactive streams, up to the first failure. */
  function PublishAll(st: Store, types: TypeMap, streams: seq<bytes>, n: nat, evt: Message,
      now: uint64): (r: (Store, bool))
    requires ValidStore(st) && n <= |streams|
    ensures ValidStore(r.0)
  {
    if n == 0 then (st, true)
    else
      var (before, ok) := PublishAll(st, types, streams, n - 1, evt, now);
      StepKeepsValid(types, before, Publish(streams[n - 1], evt, now));
      if ok then PublishTo(before, types, streams[n - 1], evt, now) else (before, false)
  }

  /** Firing the first n slots of a property; each of them publishes to every stream. */
  function Fire(st: Store, types: TypeMap, streams: seq<bytes>, n: nat, evt: Message, now: uint64): (r: (Store, bool))
    requires ValidStore(st)
    ensures ValidStore(r.0)
  {
    if n == 0 then (st, true)
    else
      var (before, ok) := Fire(st, types, streams, n - 1, evt, now);
      if ok then PublishAll(before, types, streams, |streams|, evt, now) else (before, false)
  }

  function AfterSet(app: App, types: TypeMap, key: Key, v: int32, now: uint64): (App, Result)
    requires ValidStore(app.store) && key in app.values && key in app.slots
  {
    if key !in app.writable then (app, Refused)
    else
      var app' := app.(values := app.values[key := v]);
      if app.values[key] == v then (app', Done)
      else
        var (store, ok) := Fire(app.store, types, app.reactive, app.slots[key], ChangedMsg(key, v), now);
        (app'.(store := store), if ok then Done else PublishFailed)
  }

  /** The property and value that a setter command names, unless it is refused: the property must
      exist, the value be declared an int, and its data hold at least four bytes. */
  function Target(values: Values, cmd: Message): Option<(Key, int32)>
    requires cmd.ty == SETTER_COMMAND
  {
    var key, data := Key(cmd.rec[0].b, cmd.rec[1].b), cmd.rec[3].b;
    if key in values && cmd.rec[2].n == INT_VALUE && |data| >= 4 then Some((key, AsInt32(UnLe32(data)))) else None
  }

  function SetterMsg(key: Key, valueType: int32, data: bytes): Message
  {
    RawMessage(SETTER_COMMAND, [Data(key.element), Data(key.property), Num(valueType), Data(data)])
  }

  /** A setter command built from an int names just that property and value. Bytes behind the int
      are ignored, and any other declared type is refused. */
  lemma {:induction false} SetterNamesItsValue(values: Values, key: Key, valueType: int32, v: int32, more: bytes)
    ensures Target(values, SetterMsg(key, valueType, Le32(FromInt32(v)) + more))
         == if key in values && valueType == INT_VALUE then Some((key, v)) else None
  {
    UnLe32UndoesLe32(FromInt32(v), more);
  }

  /** Are these four bytes or more, whose first four hold the low bits of v, least significant first? */
  predicate HoldsInt(data: bytes, v: int32)
  {
    && |data| >= 4
    && (data[0] + 0x100 * data[1] + 0x1_0000 * data[2] + 0x100_0000 * data[3] - v) % 0x1_0000_0000 == 0
  }

  /** Over all setter commands: one names a property and a value exactly if it names a known property, declares
      value type 2 and holds at least four bytes, and the value is the int whose low bits are in the
      first four of them, least significant first. */
  lemma {:induction false} TargetExactly(values: Values, cmd: Message, key: Key, v: int32)
    requires cmd.ty == SETTER_COMMAND
    ensures Target(values, cmd) == Some((key, v)) <==>
            && cmd.rec[0] == Data(key.element) && cmd.rec[1] == Data(key.property) && key in values
            && cmd.rec[2] == Num(2) && HoldsInt(cmd.rec[3].b, v)
    ensures Target(values, cmd) == None <==>
            Key(cmd.rec[0].b, cmd.rec[1].b) !in values || cmd.rec[2].n != 2 || |cmd.rec[3].b| < 4
  {
  }

  function AfterSetter(app: App, types: TypeMap, cmd: Message, now: uint64): (App, Result)
    requires ValidStore(app.store) && app.slots.Keys == app.values.Keys && cmd.ty == SETTER_COMMAND
  {
    match Target(app.values, cmd)
    case None => (app, Refused)
    case Some((key, v)) => AfterSet(app, types, key, v, now)
  }

  function AfterMonitor(app: App, key: Key): App
    requires key in app.slots
  {
    if key in app.monitored then app
    else app.(slots := app.slots[key := app.slots[key] + 1], monitored := app.monitored + {key})
  }

  /** Unknown selectors are passed over. */
  function AfterMonitorAll(app: App, selectors: seq<Key>): (r: App)
    requires app.slots.Keys == app.values.Keys
    ensures r.slots.Keys == r.values.Keys
  {
    if selectors == [] then app
    else
      var before := AfterMonitorAll(app, selectors[..|selectors| - 1]);
      var key := selectors[|selectors| - 1];
      if key in before.values then AfterMonitor(before, key) else before
  }

  function AfterCreateReactive(app: App, name: bytes, selectors: seq<Key>): App
    requires app.slots.Keys == app.values.Keys
  {
    AfterMonitorAll(app.(store := AddChannel(app.store, name), reactive := Insert(app.reactive, name)), selectors)
  }

  // ---------- Runs ----------

  /** The commands of the example, and the library's own CreateStream, which ensures its stream. */
  datatype Command =
    | Set(cmd: Message, now: uint64)
    | CreateReactive(name: bytes, selectors: seq<Key>)
    | StartReactive(name: bytes)
    | Ensure(name: bytes)

  /** Enough for every command to be carried out: the properties are the ones that have slots. */
  ghost predicate Steppable(app: App)
  {
    ValidStore(app.store) && app.slots.Keys == app.values.Keys
  }

  /** A monitored property has one connected slot and any other none; the reactive streams are in
      order, and each has a channel. */
  ghost predicate ValidApp(app: App)
  {
    && Steppable(app) && app.monitored <= app.values.Keys
    && (forall k | k in app.slots :: app.slots[k] == if k in app.monitored then 1 else 0)
    && Ascending(app.reactive)
    && (forall s | s in app.reactive :: Channels(app.store, s) != [])
  }

  function AppStep(app: App, types: TypeMap, c: Command): (App, Result)
    requires Steppable(app)
  {
    match c
    case Set(cmd, now) => if cmd.ty == SETTER_COMMAND then AfterSetter(app, types, cmd, now) else (app, Refused)
    case CreateReactive(name, selectors) => (AfterCreateReactive(app, name, selectors), Done)
    case StartReactive(_) => (app, Done)
    case Ensure(name) => (app.(store := EnsureChannel(app.store, name)), Done)
  }

  lemma {:induction false} MonitorAllEffect(app: App, selectors: seq<Key>)
    requires ValidApp(app)
    ensures var r := AfterMonitorAll(app, selectors);
            && ValidApp(r) && r.values == app.values && r.writable == app.writable
            && r.reactive == app.reactive && r.store == app.store
            && r.monitored == app.monitored + set k | k in selectors && k in app.values
  {
    hide Ascending, Channels, ValidStore;
    if selectors != [] {
      var n := |selectors| - 1;
      MonitorAllEffect(app, selectors[..n]);
      assert selectors == selectors[..n] + [selectors[n]];
    }
  }

  lemma {:induction false} CreateReactiveEffect(app: App, name: bytes, selectors: seq<Key>)
    requires ValidApp(app)
    ensures var r := AfterCreateReactive(app, name, selectors);
            && ValidApp(r) && r.values == app.values && r.writable == app.writable
            && (forall s :: s in r.reactive <==> s == name || s in app.reactive)
            && (forall s :: var was := Channels(app.store, s);
                            Channels(r.store, s) == if s == name then was + [[]] else was)
            && r.monitored == app.monitored + set k | k in selectors && k in app.values
  {
    hide Insert, Ascending;
    InsertKeepsAscending(app.reactive, name);
    var next := app.(store := AddChannel(app.store, name), reactive := Insert(app.reactive, name));
    StepKeepsValid(map[], app.store, CreateStream(name));
    assert ValidApp(next);
    MonitorAllEffect(next, selectors);
  }

  /** A completed round of publishing puts one frame on every channel of every listed stream. */
  lemma {:induction false} PublishAllEffect(st: Store, types: TypeMap, streams: seq<bytes>, n: nat, evt: Message,
      now: uint64, s: bytes)
    requires ValidStore(st) && n <= |streams| && DistinctStreams(streams)
    requires PublishAll(st, types, streams, n, evt, now).1
    ensures var chans := Channels(st, s);
            Channels(PublishAll(st, types, streams, n, evt, now).0, s) ==
            if s in streams[..n] && chans != [] && EventFrame(types, evt, now).Some?
            then Send(chans, |chans|, EventFrame(types, evt, now).value) else chans
    ensures s in streams[..n] && Channels(st, s) != [] ==> EventFrame(types, evt, now).Some?
  {
    hide EventFrame, PublishTo;
    if n > 0 {
      PublishAllEffect(st, types, streams, n - 1, evt, now, s);
      ChannelsStep(types, PublishAll(st, types, streams, n - 1, evt, now).0, Publish(streams[n - 1], evt, now), s);
      assert streams[..n] == streams[..n - 1] + [streams[n - 1]];
      assert streams[n - 1] !in streams[..n - 1];
    }
  }

  /** The change that a command makes the monitor publish: that of a monitored property whose value
      becomes another one, and no other. */
  function ChangeOf(app: App, c: Command): Option<(Key, int32)>
  {
    if c.Set? && c.cmd.ty == SETTER_COMMAND then
      match Target(app.values, c.cmd)
      case None => None
      case Some((key, v)) =>
        if key in app.writable && key in app.monitored && app.values[key] != v then Some((key, v)) else None
    else None
  }

  /** The channels of stream s after a command: as before, plus one frame on each for the command's
      change event, plus a new channel if the command creates the stream, or ensures it and it had none. */
  ghost predicate ChannelsFollow(types: TypeMap, app: App, c: Command, s: bytes, chans: seq<seq<bytes>>)
  {
    var was := Channels(app.store, s);
    match c
    case CreateReactive(name, _) => chans == if s == name then was + [[]] else was
    case StartReactive(_) => chans == was
    case Ensure(name) => chans == if s == name && was == [] then [[]] else was
    case Set(_, now) =>
      if s in app.reactive && ChangeOf(app, c).Some? then
        var (key, v) := ChangeOf(app, c).value;
        var f := EventFrame(types, ChangedMsg(key, v), now);
        f.Some? && chans == Send(was, |was|, f.value)
      else chans == was
  }

  lemma {:induction false} EnsureEffect(app: App, name: bytes)
    requires ValidApp(app)
    ensures ValidApp(app.(store := EnsureChannel(app.store, name)))
    ensures forall s :: var was := Channels(app.store, s);
              Channels(EnsureChannel(app.store, name), s) == if s == name && was == [] then [[]] else was
  {
    StepKeepsValid(map[], app.store, EnsureStream(name));
  }

  /** One command, exactly: a property keeps at most one slot, however often it is selected; a value
      changes only by an accepted setter; and each change of a monitored property is published once
      to each reactive stream, that is, as one frame on each of the stream's channels. */
  lemma {:induction false} CommandEffect(app: App, types: TypeMap, c: Command)
    requires ValidApp(app) && AppStep(app, types, c).1 != PublishFailed
    ensures var app' := AppStep(app, types, c).0;
            && ValidApp(app') && app.monitored <= app'.monitored && app'.writable == app.writable
            && (forall s :: s in app.reactive ==> s in app'.reactive)
            && (forall s :: ChannelsFollow(types, app, c, s, Channels(app'.store, s)))
            && app'.values.Keys == app.values.Keys
            && forall k | k in app.monitored :: var change := ChangeOf(app, c);
                 k in app'.values && app'.values[k] ==
                   if change.Some? && change.value.0 == k then change.value.1 else app.values[k]
  {
    hide Ascending, Channels, EnsureChannel, AfterSet, AfterCreateReactive, EventFrame, ChangedMsg;
    match c
    case StartReactive(_) =>
    case Ensure(name) => EnsureEffect(app, name);
    case CreateReactive(name, selectors) => CreateReactiveEffect(app, name, selectors);
    case Set(cmd, now) =>
      if cmd.ty == SETTER_COMMAND && Target(app.values, cmd).Some? {
        var (key, v) := Target(app.values, cmd).value;
        SetValueEffect(app, types, key, v, now);
      }
  }

  lemma {:induction false} SetValueEffect(app: App, types: TypeMap, key: Key, v: int32, now: uint64)
    requires ValidApp(app) && key in app.values && AfterSet(app, types, key, v, now).1 != PublishFailed
    ensures var app' := AfterSet(app, types, key, v, now).0;
            && ValidApp(app') && app'.monitored == app.monitored && app'.reactive == app.reactive
            && app'.writable == app.writable
            && app'.values == (if key in app.writable then app.values[key := v] else app.values)
            && forall s :: var chans := Channels(app.store, s); var f := EventFrame(types, ChangedMsg(key, v), now);
                 if s in app.reactive && key in app.writable && key in app.monitored && app.values[key] != v
                 then f.Some? && Channels(app'.store, s) == Send(chans, |chans|, f.value)
                 else Channels(app'.store, s) == chans
  {
    hide EventFrame, ChangedMsg;
    var streams, evt := app.reactive, ChangedMsg(key, v);
    if key in app.writable && app.values[key] != v && key in app.monitored {
      assert Fire(app.store, types, streams, 0, evt, now) == (app.store, true);
      assert streams[..|streams|] == streams;
      AscendingIsDistinct(streams);
      forall s {
        PublishAllEffect(app.store, types, streams, |streams|, evt, now, s);
      }
    }
  }

  /** A command that sets a property to the value it has publishes nothing. */
  lemma {:induction false} NoOpSetIsSilent(app: App, types: TypeMap, cmd: Message, now: uint64)
    requires ValidApp(app) && cmd.ty == SETTER_COMMAND && Target(app.values, cmd).Some?
    requires app.values[Target(app.values, cmd).value.0] == Target(app.values, cmd).value.1
    ensures AppStep(app, types, Command.Set(cmd, now)).0 == app
  {
    var (key, v) := Target(app.values, cmd).value;
    assert app.values[key := v] == app.values;
  }

  // ---------- When commands fail ----------

  lemma {:induction false} DeliverElsewhere(dispatchers: seq<EventDispatcher>, received: seq<seq<Delivery>>,
      subs: seq<nat>, n: nat, d: Delivery, k: nat)
    requires n <= |subs| && |dispatchers| == |received| && forall j | j in subs :: j < |received|
    requires k < |received| && k !in subs
    ensures Deliver(dispatchers, received, subs, n, d).0[k] == received[k]
  {
    if n > 0 {
      assert subs[n - 1] in subs;
      DeliverElsewhere(dispatchers, received, subs, n - 1, d, k);
    }
  }

  /** Publishing to one stream, successfully or not, has no part in whether another can be published to. */
  lemma {:induction false} PublishElsewhere(st: Store, types: TypeMap, stream: bytes, s: bytes, evt: Message,
      now: uint64)
    requires ValidStore(st) && s != stream
    ensures var after := PublishTo(st, types, stream, evt, now).0;
            ValidStore(after) && (Publishable(after, types, s, evt, now) <==> Publishable(st, types, s, evt, now))
  {
    hide EventFrame;
    StepKeepsValid(types, st, Publish(stream, evt, now));
    if evt.ty in types {
      var subs, d := Locals(st, stream), Delivery(Metadata(stream, now), types[evt.ty], Some(evt));
      forall k | k in Locals(st, s)
        ensures k < |st.received| && Deliver(st.dispatchers, st.received, subs, |subs|, d).0[k] == st.received[k]
      {
        DeliverElsewhere(st.dispatchers, st.received, subs, |subs|, d, k);
      }
    }
  }

  lemma {:induction false} PublishAllElsewhere(st: Store, types: TypeMap, streams: seq<bytes>, n: nat, s: bytes,
      evt: Message, now: uint64)
    requires ValidStore(st) && n <= |streams| && s !in streams[..n]
    ensures Publishable(PublishAll(st, types, streams, n, evt, now).0, types, s, evt, now)
       <==> Publishable(st, types, s, evt, now)
  {
    hide Publishable, PublishTo;
    if n > 0 {
      assert streams[..n] == streams[..n - 1] + [streams[n - 1]];
      PublishAllElsewhere(st, types, streams, n - 1, s, evt, now);
      PublishElsewhere(PublishAll(st, types, streams, n - 1, evt, now).0, types, streams[n - 1], s, evt, now);
    }
  }

  /** A round of publishing completes exactly when every stream could be published to at its start. */
  lemma {:induction false} PublishAllSucceedsExactly(st: Store, types: TypeMap, streams: seq<bytes>, n: nat,
      evt: Message, now: uint64)
    requires ValidStore(st) && n <= |streams| && DistinctStreams(streams)
    ensures PublishAll(st, types, streams, n, evt, now).1
       <==> forall i | 0 <= i < n :: Publishable(st, types, streams[i], evt, now)
  {
    hide Publishable, PublishTo;
    if n > 0 {
      PublishAllSucceedsExactly(st, types, streams, n - 1, evt, now);
      PublishAllElsewhere(st, types, streams, n - 1, streams[n - 1], evt, now);
      PublishSucceedsExactly(PublishAll(st, types, streams, n - 1, evt, now).0, types, streams[n - 1], evt, now);
    }
  }

  /** A command is refused exactly when it is not an acceptable setter, and fails in publishing exactly
      when it changes a monitored property and some reactive stream cannot be published to. */
  lemma {:induction false} CommandFailsExactly(app: App, types: TypeMap, c: Command)
    requires ValidApp(app)
    ensures var r, change := AppStep(app, types, c).1, ChangeOf(app, c);
            && (r == Refused <==> c.Set? && (c.cmd.ty == SETTER_COMMAND ==>
                  var key := Key(c.cmd.rec[0].b, c.cmd.rec[1].b);
                  key !in app.values || key !in app.writable || c.cmd.rec[2].n != 2 || |c.cmd.rec[3].b| < 4))
            && (r == PublishFailed <==> change.Some? && var (k, v) := change.value;
                  exists s | s in app.reactive :: !Publishable(app.store, types, s, ChangedMsg(k, v), c.now))
  {
    hide Publishable, ChangedMsg, Fire, ValidStore;
    if c.Set? && c.cmd.ty == SETTER_COMMAND && Target(app.values, c.cmd).Some? {
      var (k, v) := Target(app.values, c.cmd).value;
      FireSucceedsExactly(app, types, k, v, c.now);
    }
  }

  lemma {:induction false} FireSucceedsExactly(app: App, types: TypeMap, k: Key, v: int32, now: uint64)
    requires ValidApp(app) && k in app.slots
    ensures ValidStore(app.store)
    ensures Fire(app.store, types, app.reactive, app.slots[k], ChangedMsg(k, v), now).1
       <==> k !in app.monitored
            || forall s | s in app.reactive :: Publishable(app.store, types, s, ChangedMsg(k, v), now)
  {
    hide Publishable, PublishAll, ChangedMsg, Ascending;
    var streams, evt := app.reactive, ChangedMsg(k, v);
    assert Fire(app.store, types, streams, 0, evt, now) == (app.store, true);
    if k in app.monitored {
      AscendingIsDistinct(streams);
      PublishAllSucceedsExactly(app.store, types, streams, |streams|, evt, now);
      assert Fire(app.store, types, streams, 1, evt, now) == PublishAll(app.store, types, streams, |streams|, evt, now);
    }
  }

  /** The values after any command, whatever becomes of it: an acceptable setter's value is in place even if
      its publishing fails, and no other command changes a value. */
  lemma {:induction false} ValuesAfterExactly(app: App, types: TypeMap, c: Command)
    requires Steppable(app)
    ensures var (after, r) := AppStep(app, types, c);
            && after.writable == app.writable
            && if c.Set? && r != Refused then
                 var key, data := Key(c.cmd.rec[0].b, c.cmd.rec[1].b), c.cmd.rec[3].b;
                 && key in app.values && key in app.writable && c.cmd.rec[2].n == 2
                 && exists v: int32 :: HoldsInt(data, v) && after.values == app.values[key := v]
               else after.values == app.values
  {
    hide Fire, AddChannel, EnsureChannel, ChangedMsg, Insert;
    match c
    case Set(cmd, _) =>
      if cmd.ty == SETTER_COMMAND && Target(app.values, cmd).Some? {
        var (key, v) := Target(app.values, cmd).value;
        TargetExactly(app.values, cmd, key, v);
      }
    case StartReactive(_) =>
    case Ensure(_) =>
    case CreateReactive(name, selectors) =>
      MonitorKeepsStore(app.(store := AddChannel(app.store, name), reactive := Insert(app.reactive, name)), selectors);
  }

  /** How far a round of publishing gets, in every outcome: each stream before which, and on which, none fails
      gains the frame on each of its channels, and no other stream gains anything. */
  lemma {:induction false} PublishAllReachesExactly(st: Store, types: TypeMap, streams: seq<bytes>, n: nat, i: nat,
      evt: Message, now: uint64)
    requires ValidStore(st) && n <= |streams| && i < |streams| && DistinctStreams(streams)
    ensures var was := Channels(st, streams[i]);
            var next := Channels(PublishAll(st, types, streams, n, evt, now).0, streams[i]);
            if i < n && was != [] && forall j | 0 <= j <= i :: Publishable(st, types, streams[j], evt, now)
            then EventFrame(types, evt, now).Some? && next == Send(was, |was|, EventFrame(types, evt, now).value)
            else next == was
  {
    hide EventFrame, PublishTo, Publishable, Channels;
    if n > 0 {
      var before := PublishAll(st, types, streams, n - 1, evt, now).0;
      PublishAllReachesExactly(st, types, streams, n - 1, i, evt, now);
      PublishAllSucceedsExactly(st, types, streams, n - 1, evt, now);
      PublishAllElsewhere(st, types, streams, n - 1, streams[n - 1], evt, now);
      PublishSucceedsExactly(before, types, streams[n - 1], evt, now);
      ChannelsStep(types, before, Op.Publish(streams[n - 1], evt, now), streams[i]);
    }
  }

  // ---------- A property replaced while monitored ----------

  /** The property is on the monitor's list without a slot, as after it was replaced by a new one. */
  predicate Lost(app: App, key: Key)
  {
    key in app.monitored && key in app.slots && app.slots[key] == 0
  }

  predicate NamesProperty(c: Command, key: Key)
  {
    c.Set? && c.cmd.ty == SETTER_COMMAND && Key(c.cmd.rec[0].b, c.cmd.rec[1].b) == key
  }

  lemma {:induction false} StepKeepsSteppable(app: App, types: TypeMap, c: Command)
    requires Steppable(app)
    ensures Steppable(AppStep(app, types, c).0)
  {
    match c
    case Set(_, _) =>
    case StartReactive(_) =>
    case Ensure(name) => StepKeepsValid(types, app.store, EnsureStream(name));
    case CreateReactive(name, selectors) =>
      StepKeepsValid(types, app.store, CreateStream(name));
      MonitorKeepsStore(app.(store := AddChannel(app.store, name), reactive := Insert(app.reactive, name)), selectors);
  }

  lemma {:induction false} MonitorKeepsStore(app: App, selectors: seq<Key>)
    requires app.slots.Keys == app.values.Keys
    ensures var r := AfterMonitorAll(app, selectors);
            r.store == app.store && r.values == app.values && r.writable == app.writable
  {
    if selectors != [] {
      MonitorKeepsStore(app, selectors[..|selectors| - 1]);
    }
  }

  /** No command connects a lost property again, and setting it publishes nothing at all. */
  lemma {:induction false} LostStaysLost(app: App, types: TypeMap, c: Command, key: Key)
    requires Steppable(app) && Lost(app, key)
    ensures Lost(AppStep(app, types, c).0, key)
    ensures NamesProperty(c, key) ==> AppStep(app, types, c).0.store == app.store
  {
    if c.CreateReactive? {
      var next := app.(store := AddChannel(app.store, c.name), reactive := Insert(app.reactive, c.name));
      MonitorAllLeavesLost(next, c.selectors, key);
    }
  }

  lemma {:induction false} MonitorAllLeavesLost(app: App, selectors: seq<Key>, key: Key)
    requires app.slots.Keys == app.values.Keys && Lost(app, key)
    ensures Lost(AfterMonitorAll(app, selectors), key)
  {
    if selectors != [] {
      MonitorAllLeavesLost(app, selectors[..|selectors| - 1], key);
    }
  }

  // ---------- The server object ----------

  lemma {:induction false} PublishAllStopped(st: Store, types: TypeMap, streams: seq<bytes>, n: nat, evt: Message,
      now: uint64)
    requires ValidStore(st) && n <= |streams| && !PublishAll(st, types, streams, n, evt, now).1
    ensures PublishAll(st, types, streams, |streams|, evt, now) == PublishAll(st, types, streams, n, evt, now)
    decreases |streams| - n
  {
    hide PublishTo;
    if n < |streams| {
      PublishAllStopped(st, types, streams, n + 1, evt, now);
    }
  }

  lemma {:induction false} FireStopped(st: Store, types: TypeMap, streams: seq<bytes>, n: nat, all: nat, evt: Message,
      now: uint64)
    requires ValidStore(st) && n <= all && !Fire(st, types, streams, n, evt, now).1
    ensures Fire(st, types, streams, all, evt, now) == Fire(st, types, streams, n, evt, now)
    decreases all - n
  {
    hide PublishAll;
    if n < all {
      FireStopped(st, types, streams, n + 1, all, evt, now);
    }
  }

  /** The registry of properties, the property monitor and the two command handlers around it. */
  class PropertyServer {
    const store: EventStore
    var values: Values
    var writable: set<Key>
    var slots: map<Key, nat>
    var connections: set<Key>
    var reactiveSubscriptions: seq<bytes>

    function Value(): App reads this, store
    {
      App(values, writable, slots, connections, reactiveSubscriptions, store.Value())
    }

    constructor (s: EventStore)
      ensures store == s && values == map[] && Value().store == s.Value()
      ensures ValidStore(s.Value()) ==> ValidApp(Value())
    {
      store := s;
      values, writable, slots, connections, reactiveSubscriptions := map[], {}, map[], {}, [];
    }

    /** AddProperty: a new property starts at zero, without a slot. It takes the place of an earlier one
        of that name, which the monitor goes on listing if it was monitored: then, and only then, the
        new property is listed without being connected. */
    method AddProperty(key: Key, isWritable: bool)
      modifies this
      ensures old(ValidApp(Value())) ==> (ValidApp(Value()) <==> key !in connections)
      ensures values == old(values)[key := 0] && slots == old(slots)[key := 0] && connections == old(connections)
      ensures writable == if isWritable then old(writable) + {key} else old(writable) - {key}
      ensures reactiveSubscriptions == old(reactiveSubscriptions)
    {
      values := values[key := 0];
      slots := slots[key := 0];
      writable := if isWritable then writable + {key} else writable - {key};
    }

    /** PropertyInfoImpl::SetValue: the value is overwritten first, and then the slots are fired. */
    method SetValue(key: Key, v: int32, now: uint64) returns (r: Result)
      requires key in values && key in slots && ValidStore(store.Value())
      modifies this`values, store`received, store`publishedStreams
      ensures r == Refused <==> key !in writable
      ensures values == if key in writable then old(values)[key := v] else old(values)
      ensures old(values)[key] == v ==> r != PublishFailed && store.Value() == old(store.Value())
      ensures (Value(), r) == AfterSet(old(Value()), store.serializer.typeIdMap, key, v, now)
    {
      hide PublishAll, ValidStore, ChangedMsg;
      if key !in writable {
        return Refused;
      }
      var oldValue := values[key];
      values := values[key := v];
      if oldValue == v {
        return Done;
      }
      ghost var st, types := store.Value(), store.serializer.typeIdMap;
      ghost var streams, evt := reactiveSubscriptions, ChangedMsg(key, v);
      var i := 0;
      while i < slots[key]
        invariant i <= slots[key] && ValidStore(store.Value())
        invariant values == old(values)[key := v]
        invariant (store.Value(), true) == Fire(st, types, streams, i, evt, now)
      {
        var ok := OnPropertyChanged(key, v, now);
        i := i + 1;
        if !ok {
          FireStopped(st, types, streams, i, slots[key], evt, now);
          return PublishFailed;
        }
      }
      r := Done;
    }

    /** Publishes the change to every reactive stream. */
    method OnPropertyChanged(key: Key, v: int32, now: uint64) returns (ok: bool)
      requires ValidStore(store.Value())
      modifies store`received, store`publishedStreams
      ensures (store.Value(), ok)
           == PublishAll(old(store.Value()), store.serializer.typeIdMap, reactiveSubscriptions,
                         |reactiveSubscriptions|, ChangedMsg(key, v), now)
      ensures ValidStore(store.Value())
    {
      hide PublishTo, ValidStore, ChangedMsg;
      var evt := ChangedMsg(key, v);
      ghost var st, types, streams := store.Value(), store.serializer.typeIdMap, reactiveSubscriptions;
      var i := 0;
      while i < |reactiveSubscriptions|
        invariant i <= |reactiveSubscriptions| && ValidStore(store.Value())
        invariant (store.Value(), true) == PublishAll(st, types, streams, i, evt, now)
      {
        ok := store.Publish(reactiveSubscriptions[i], evt, now);
        i := i + 1;
        assert (store.Value(), ok) == PublishAll(st, types, streams, i, evt, now);
        if !ok {
          PublishAllStopped(st, types, streams, i, evt, now);
          return false;
        }
      }
      ok := true;
    }

    /** SetterCommandHandler::Handle. */
    method HandleSetter(cmd: Message, now: uint64) returns (r: Result)
      requires cmd.ty == SETTER_COMMAND && slots.Keys == values.Keys && ValidStore(store.Value())
      modifies this`values, store`received, store`publishedStreams
      ensures (Value(), r) == AfterSetter(old(Value()), store.serializer.typeIdMap, cmd, now)
    {
      hide AfterSet;
      var key, data := Key(cmd.rec[0].b, cmd.rec[1].b), cmd.rec[3].b;
      if key !in values {
        return Refused;
      }
      if cmd.rec[2].n != INT_VALUE {
        return Refused;
      }
      if |data| < 4 {
        return Refused;
      }
      r := SetValue(key, AsInt32(UnLe32(data)), now);
    }

    /** PropertyMonitorService::MonitorProperty. */
    method MonitorProperty(key: Key)
      requires key in slots
      modifies this`slots, this`connections
      ensures Value() == AfterMonitor(old(Value()), key)
    {
      if key in connections {
        return;
      }
      slots := slots[key := slots[key] + 1];
      connections := connections + {key};
    }

    /** CreateReactiveSubscriptionHandler::Handle. */
    method HandleCreateReactive(name: bytes, selectors: seq<Key>)
      requires slots.Keys == values.Keys
      modifies this`slots, this`connections, this`reactiveSubscriptions, store`publishedStreams
      ensures Value() == AfterCreateReactive(old(Value()), name, selectors)
    {
      store.CreateStream(name);
      reactiveSubscriptions := Insert(reactiveSubscriptions, name);
      ghost var next := Value();
      var i := 0;
      while i < |selectors|
        invariant i <= |selectors| && slots.Keys == values.Keys
        invariant Value() == AfterMonitorAll(next, selectors[..i])
      {
        assert selectors[..i + 1][..i] == selectors[..i];
        if selectors[i] in values {
          MonitorProperty(selectors[i]);
        }
        i := i + 1;
      }
      assert selectors[..i] == selectors;
    }
  }
}
