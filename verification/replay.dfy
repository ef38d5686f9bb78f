/** The event log against the state it mirrors: replaying what a subscriber dispatches reconstructs
    the monitored properties. */
module Replay {
  import opened Wire
  import opened Codec
  import opened Registry
  import opened Events
  import opened EventStores
  import opened Subscriber
  import opened Monitor

  /** The server after a sequence of commands; the first one that throws stops it. */
  ghost function AppRun(app: App, types: TypeMap, cmds: seq<Command>): (r: (App, Result))
    requires Steppable(app)
    ensures Steppable(r.0)
  {
    if cmds == [] then (app, Done)
    else
      var n := |cmds| - 1;
      var (a, r) := AppRun(app, types, cmds[..n]);
      if r != Done then (a, r)
      else
        StepKeepsSteppable(a, types, cmds[n]);
        AppStep(a, types, cmds[n])
  }

  /** Commands that are refused, or whose publishes succeed, keep the application valid. */
  lemma {:induction false} RunKeepsValid(app: App, types: TypeMap, cmds: seq<Command>)
    requires ValidApp(app) && AppRun(app, types, cmds).1 != PublishFailed
    ensures ValidApp(AppRun(app, types, cmds).0)
  {
    hide AppStep, ValidApp;
    ValidIsSteppable(app);
    if cmds != [] {
      var n := |cmds| - 1;
      var (a, r) := AppRun(app, types, cmds[..n]);
      RunKeepsValid(app, types, cmds[..n]);
      if r == Done {
        CommandEffect(a, types, cmds[n]);
      }
    }
  }

  lemma {:induction false} ValidIsSteppable(app: App)
    requires ValidApp(app)
    ensures Steppable(app)
  {
  }

  /** A monitored property that was replaced by a new one of its name is lost for good: over every run of
      commands it stays on the monitor's list without a slot, and no command that sets it publishes
      anything on any stream. */
  lemma {:induction false} LostForGood(app: App, types: TypeMap, cmds: seq<Command>, key: Key)
    requires Steppable(app) && Lost(app, key)
    ensures Lost(AppRun(app, types, cmds).0, key)
    ensures forall i | 0 <= i < |cmds| && NamesProperty(cmds[i], key) ::
              AppRun(app, types, cmds[..i + 1]).0.store == AppRun(app, types, cmds[..i]).0.store
  {
    hide AppStep, Lost, Steppable;
    if cmds != [] {
      var n := |cmds| - 1;
      var (a, r) := AppRun(app, types, cmds[..n]);
      LostForGood(app, types, cmds[..n], key);
      if r == Done {
        LostStaysLost(a, types, cmds[n], key);
      }
      assert cmds[..n + 1] == cmds;
      forall i | 0 <= i < |cmds| && NamesProperty(cmds[i], key)
        ensures AppRun(app, types, cmds[..i + 1]).0.store == AppRun(app, types, cmds[..i]).0.store
      {
        if i < n {
          assert cmds[..n][..i + 1] == cmds[..i + 1] && cmds[..n][..i] == cmds[..i];
          assert NamesProperty(cmds[..n][i], key);
        }
      }
    }
  }

  /** The property and value carried by a delivery, if it is a change event. */
  function Carried(d: Delivery): Option<(Key, int32)>
  {
    if d.event.Some? && d.event.value.ty == PROPERTY_CHANGED then
      var rec := d.event.value.rec;
      if rec[2].n == INT_VALUE && |rec[3].b| >= 4
      then Some((Key(rec[0].b, rec[1].b), AsInt32(UnLe32(rec[3].b)))) else None
    else None
  }

  /** Replaying deliveries over a snapshot, last write wins. */
  function Replayed(view: Values, ds: seq<Delivery>): Values
  {
    if ds == [] then view
    else
      var before := Replayed(view, ds[..|ds| - 1]);
      match Carried(ds[|ds| - 1])
      case None => before
      case Some((k, v)) => before[k := v]
  }

  lemma {:induction false} ChangeIsCarried(meta: Metadata, id: uint32, k: Key, v: int32)
    ensures Carried(Delivery(meta, id, Some(ChangedMsg(k, v)))) == Some((k, v))
  {
    var n := FromInt32(v);
    UnLe32UndoesLe32(n, []);
    assert Le32(n) + [] == Le32(n);
  }

  /** Each replayed event for one of these properties differs from the value it replaces. */
  ghost predicate EveryEventChanges(view: Values, ds: seq<Delivery>, keys: set<Key>)
  {
    forall i | 0 <= i < |ds| :: ChangesValue(Replayed(view, ds[..i]), Carried(ds[i]), keys)
  }

  predicate ChangesValue(view: Values, change: Option<(Key, int32)>, keys: set<Key>)
  {
    change.Some? && change.value.0 in keys ==> change.value.0 in view && view[change.value.0] != change.value.1
  }

  /** Names that string fields can carry; AddProperty takes any. */
  predicate GoodName(k: Key)
  {
    Readable(Text, Data(k.element)) && Readable(Text, Data(k.property))
  }

  /** What the subscriber's view and the server's state have in common after some frames: the view holds
      the current value of every property that was monitored, but for those whose name no string field
      can carry, which it holds as they were. */
  ghost predicate Mirrors(ids: IdMap, s: bytes, app: App, app': App, gained: seq<bytes>)
  {
    var ds := DeliveriesOf(ids, s, gained);
    var view := Replayed(app.values, ds);
    && (forall k | k in app.monitored :: k in app.values && k in app'.values && k in view
          && view[k] == if GoodName(k) then app'.values[k] else app.values[k])
    && EveryEventChanges(app.values, ds, app.monitored)
  }

  lemma {:induction false} MirrorsOneMore(types: TypeMap, ids: IdMap, s: bytes, app: App, before: App, after: App,
      frames: seq<bytes>, k: Key, v: int32, now: uint64)
    requires Mirrors(ids, s, app, before, frames) && GoodName(k)
    requires Receivable(types, ids, ChangedMsg(k, v)) && EventFrame(types, ChangedMsg(k, v), now).Some?
    requires k in before.values && before.values[k] != v
    requires forall j | j in app.monitored :: j in after.values
    requires forall j | j in app.monitored && j in before.values ::
               after.values[j] == if j == k then v else before.values[j]
    ensures Mirrors(ids, s, app, after, frames + [EventFrame(types, ChangedMsg(k, v), now).value])
  {
    hide EventFrame, Receivable, Unambiguous, DeliveryOf, ChangedMsg, Carried, EveryEventChanges, GoodName;
    var f := EventFrame(types, ChangedMsg(k, v), now).value;
    var ds, d := DeliveriesOf(ids, s, frames), Arrival(types, s, (ChangedMsg(k, v), now));
    ReceivableIsUnambiguous(types, ids, ChangedMsg(k, v));
    FrameArrives(types, ids, s, ChangedMsg(k, v), now);
    ChangeIsCarried(d.meta, d.id, k, v);
    assert (frames + [f])[..|frames|] == frames;
    assert DeliveriesOf(ids, s, frames + [f]) == ds + [d];
    ReplayOneMore(app.values, ds, d, app.monitored);
  }

  /** A change of a property whose name cannot be read back is dispatched as nothing. */
  lemma {:induction false} MirrorsUnreadable(types: TypeMap, ids: IdMap, s: bytes, app: App, before: App, after: App,
      frames: seq<bytes>, k: Key, v: int32, now: uint64)
    requires Mirrors(ids, s, app, before, frames) && !GoodName(k)
    requires Unambiguous(types, ids, ChangedMsg(k, v)) && !Receivable(types, ids, ChangedMsg(k, v))
    requires EventFrame(types, ChangedMsg(k, v), now).Some?
    requires forall j | j in app.monitored :: j in after.values
    requires forall j | j in app.monitored && j in before.values && j != k :: after.values[j] == before.values[j]
    ensures Mirrors(ids, s, app, after, frames + [EventFrame(types, ChangedMsg(k, v), now).value])
  {
    hide EventFrame, Receivable, Unambiguous, DeliveryOf, ChangedMsg, Carried, EveryEventChanges, GoodName;
    var f := EventFrame(types, ChangedMsg(k, v), now).value;
    FrameArrives(types, ids, s, ChangedMsg(k, v), now);
    assert (frames + [f])[..|frames|] == frames;
    assert DeliveriesOf(ids, s, frames + [f]) == DeliveriesOf(ids, s, frames);
  }

  lemma {:induction false} ReplayOneMore(view: Values, ds: seq<Delivery>, d: Delivery, keys: set<Key>)
    requires EveryEventChanges(view, ds, keys) && ChangesValue(Replayed(view, ds), Carried(d), keys)
    ensures Replayed(view, ds + [d]) ==
            match Carried(d) case None => Replayed(view, ds) case Some((k, v)) => Replayed(view, ds)[k := v]
    ensures EveryEventChanges(view, ds + [d], keys)
  {
    hide Carried, ChangesValue;
    var all := ds + [d];
    assert all[..|ds|] == ds;
    forall i | 0 <= i < |all| ensures ChangesValue(Replayed(view, all[..i]), Carried(all[i]), keys) {
      if i < |ds| {
        assert all[..i] == ds[..i];
      }
    }
  }

  /** The state app' agrees with the snapshot app on channel c of stream s: nothing has gone away,
      and the frames that the channel gained mirror what happened to the monitored properties. */
  ghost predicate Agrees(ids: IdMap, app: App, app': App, s: bytes, c: nat)
    requires c < |Channels(app.store, s)|
  {
    var was := Channels(app.store, s)[c];
    && app'.values.Keys == app.values.Keys && app.monitored <= app'.monitored && s in app'.reactive
    && c < |Channels(app'.store, s)| && was <= Channels(app'.store, s)[c]
    && Mirrors(ids, s, app, app', Channels(app'.store, s)[c][|was|..])
  }

  /** The reader ties the change event's id to its type, if the server has an id for it at all. */
  predicate KnowsChanges(types: TypeMap, ids: IdMap)
  {
    PROPERTY_CHANGED in types ==>
      var id := types[PROPERTY_CHANGED]; id != 0 && id in ids && ids[id] == PROPERTY_CHANGED
  }

  /** A change that can be framed reaches such a reader exactly if the property's name can be read back. */
  lemma {:induction false} ChangeIsReceivableExactly(types: TypeMap, ids: IdMap, k: Key, v: int32, now: uint64)
    requires KnowsChanges(types, ids) && EventFrame(types, ChangedMsg(k, v), now).Some?
    ensures Unambiguous(types, ids, ChangedMsg(k, v))
    ensures Receivable(types, ids, ChangedMsg(k, v)) <==> GoodName(k)
  {
    hide EncodeField, Readable, AllReadable;
    var m := ChangedMsg(k, v);
    EmptyEncodingIsDefault(m.ty.fields, m.rec, 0);
    assert m.rec[2] != Default(m.ty.fields[2].kind);
    ReadableOfFour(m.ty.fields, m.rec);
    ShortDataIsReadable(Le32(FromInt32(v)));
  }

  lemma {:induction false} ReadableOfFour(fs: Table, r: Record)
    requires Typed(fs, r) && |fs| == 4 && r[2].Num?
    ensures AllReadable(fs, r)
       <==> Readable(fs[0].kind, r[0]) && Readable(fs[1].kind, r[1]) && Readable(fs[3].kind, r[3])
  {
    assert Readable(fs[2].kind, r[2]);
    hide Readable;
  }

  lemma {:induction false} ShortDataIsReadable(b: bytes)
    requires |b| <= 4
    ensures Readable(Raw, Data(b))
  {
  }

  /** CommandEffect, as seen on one channel of a reactive stream. */
  lemma {:induction false} CommandOnChannel(a: App, types: TypeMap, cmd: Command, s: bytes, c: nat)
    requires ValidApp(a) && s in a.reactive && c < |Channels(a.store, s)|
    requires AppStep(a, types, cmd).1 != PublishFailed
    ensures var a' := AppStep(a, types, cmd).0; var change := ChangeOf(a, cmd);
            && a'.values.Keys == a.values.Keys && a.monitored <= a'.monitored && s in a'.reactive
            && c < |Channels(a'.store, s)|
            && (change == None ==> Channels(a'.store, s)[c] == Channels(a.store, s)[c])
            && (change.Some? ==>
                  cmd.Set? && var (k, v) := change.value; var f := EventFrame(types, ChangedMsg(k, v), cmd.now);
                  && k in a.values && a.values[k] != v && f.Some?
                  && Channels(a'.store, s)[c] == Channels(a.store, s)[c] + [f.value])
            && forall k | k in a.monitored :: k in a'.values && a'.values[k] ==
                 if change.Some? && change.value.0 == k then change.value.1 else a.values[k]
  {
    CommandEffect(a, types, cmd);
    hide AppStep, ValidApp, EventFrame, ChangedMsg;
    assert ChannelsFollow(types, a, cmd, s, Channels(AppStep(a, types, cmd).0.store, s));
  }

  lemma {:induction false} AgreesStep(app: App, types: TypeMap, ids: IdMap, a: App, cmd: Command, s: bytes, c: nat)
    requires ValidApp(a) && KnowsChanges(types, ids)
    requires c < |Channels(app.store, s)| && Agrees(ids, app, a, s, c)
    requires AppStep(a, types, cmd).1 != PublishFailed
    ensures Agrees(ids, app, AppStep(a, types, cmd).0, s, c)
  {
    hide AppStep, ValidApp, Mirrors, EventFrame, Receivable, Unambiguous, ChangeOf, Channels, ChangedMsg, GoodName;
    hide KnowsChanges;
    ValidIsSteppable(a);
    CommandOnChannel(a, types, cmd, s, c);
    var a' := AppStep(a, types, cmd).0;
    var was, frames := |Channels(app.store, s)[c]|, Channels(a.store, s)[c];
    if ChangeOf(a, cmd).Some? {
      var (k, v) := ChangeOf(a, cmd).value;
      ChangeIsReceivableExactly(types, ids, k, v, cmd.now);
      if GoodName(k) {
        MirrorsOneMore(types, ids, s, app, a, a', frames[was..], k, v, cmd.now);
      } else {
        MirrorsUnreadable(types, ids, s, app, a, a', frames[was..], k, v, cmd.now);
      }
      var f := EventFrame(types, ChangedMsg(k, v), cmd.now).value;
      assert (frames + [f])[was..] == frames[was..] + [f];
    } else {
      MirrorsUnchanged(ids, s, app, a, a', frames[was..]);
    }
  }

  /** The event log agrees with the state. Take a snapshot of the properties at any moment. Whatever
      commands follow, as long as no publish fails, every channel that a reactive stream had at the
      snapshot has only gained frames, and a subscriber that dispatches those and replays them over
      the snapshot, last write wins, holds the current value of every property monitored at the
      snapshot whose name can be read back, and the snapshot's value of the others. Each of those
      events changes its property's replayed value. */
  lemma {:induction false} ReplayReconstructsState(app: App, types: TypeMap, ids: IdMap, cmds: seq<Command>, s: bytes,
      c: nat)
    requires ValidApp(app) && KnowsChanges(types, ids)
    requires s in app.reactive && c < |Channels(app.store, s)|
    requires AppRun(app, types, cmds).1 != PublishFailed
    ensures Agrees(ids, app, AppRun(app, types, cmds).0, s, c)
  {
    hide AppStep, ValidApp, Mirrors;
    ValidIsSteppable(app);
    if cmds == [] {
      MirrorsAtStart(ids, s, app);
      var was := Channels(app.store, s)[c];
      assert was[|was|..] == [];
    } else {
      var n := |cmds| - 1;
      ReplayReconstructsState(app, types, ids, cmds[..n], s, c);
      var (a, r) := AppRun(app, types, cmds[..n]);
      if r == Done {
        RunKeepsValid(app, types, cmds[..n]);
        AgreesStep(app, types, ids, a, cmds[n], s, c);
      }
    }
  }

  lemma {:induction false} MirrorsAtStart(ids: IdMap, s: bytes, app: App)
    requires ValidApp(app)
    ensures Mirrors(ids, s, app, app, [])
  {
  }

  lemma {:induction false} MirrorsUnchanged(ids: IdMap, s: bytes, app: App, before: App, after: App, frames: seq<bytes>)
    requires Mirrors(ids, s, app, before, frames)
    requires forall k | k in app.monitored ::
               k in after.values && (k in before.values ==> after.values[k] == before.values[k])
    ensures Mirrors(ids, s, app, after, frames)
  {
  }
}
