/** Every run of the event store: who hears what, and what goes out on each channel. */
module StoreRuns {
  import opened Wire
  import opened Codec
  import opened Registry
  import opened Events
  import opened EventStores

  // ---------- Local subscriptions ----------

  /** How many subscriptions a run has made; the next one gets this number. */
  function Made(ops: seq<Op>): nat
  {
    if ops == [] then 0 else Made(ops[..|ops| - 1]) + if ops[|ops| - 1].Subscribe? then 1 else 0
  }

  /** At the end of the run, is subscription k one for stream s that has not been unsubscribed? */
  ghost predicate Listens(ops: seq<Op>, k: nat, s: bytes)
  {
    exists i | 0 <= i < |ops| :: MadeAt(ops, i, k, s) && forall j | i < j < |ops| :: !Drops(ops[j], k)
  }

  predicate MadeAt(ops: seq<Op>, i: nat, k: nat, s: bytes)
    requires i < |ops|
  {
    ops[i].Subscribe? && ops[i].stream == s && Made(ops[..i]) == k
  }

  predicate Drops(op: Op, k: nat) { op.Unsubscribe? && op.k == k }

  lemma {:induction false} MadeAtInPrefix(ops: seq<Op>, n: nat, i: nat, k: nat, s: bytes)
    requires i < n <= |ops|
    ensures MadeAt(ops, i, k, s) == MadeAt(ops[..n], i, k, s)
  {
    assert ops[..n][..i] == ops[..i];
  }

  lemma {:induction false} ListensStep(ops: seq<Op>, k: nat, s: bytes)
    requires ops != []
    ensures var n := |ops| - 1;
            Listens(ops, k, s) <==> MadeAt(ops, n, k, s) || (Listens(ops[..n], k, s) && !Drops(ops[n], k))
  {
    hide MadeAt, Drops;
    var n := |ops| - 1;
    if Listens(ops, k, s) && !MadeAt(ops, n, k, s) {
      var i :| 0 <= i < |ops| && MadeAt(ops, i, k, s) && forall j | i < j < |ops| :: !Drops(ops[j], k);
      MadeAtInPrefix(ops, n, i, k, s);
      assert !Drops(ops[n], k);
    }
    if Listens(ops[..n], k, s) && !Drops(ops[n], k) {
      var i :| 0 <= i < n && MadeAt(ops[..n], i, k, s) && forall j | i < j < n :: !Drops(ops[..n][j], k);
      MadeAtInPrefix(ops, n, i, k, s);
      forall j | i < j < |ops| ensures !Drops(ops[j], k) {
        if j < n {
          assert ops[..n][j] == ops[j];
        }
      }
    }
  }

  /** The subscriptions in the store's range for a stream are exactly those still listening to it. */
  lemma {:induction false} LocalsAreListeners(types: TypeMap, ops: seq<Op>)
    ensures var st := Run(types, ops).0;
            && |st.received| == Made(ops)
            && forall k, s :: k in Locals(st, s) <==> Listens(ops, k, s)
  {
    if ops != [] {
      var n := |ops| - 1;
      LocalsAreListeners(types, ops[..n]);
      var st, st' := Run(types, ops[..n]).0, Run(types, ops).0;
      forall k, s ensures k in Locals(st', s) <==> Listens(ops, k, s) {
        ListensStep(ops, k, s);
        LocalsStep(types, st, ops[n], k, s);
      }
    }
  }

  lemma {:induction false} LocalsStep(types: TypeMap, st: Store, op: Op, k: nat, s: bytes)
    requires ValidStore(st)
    ensures var st' := Step(types, st, op).0;
            && (k in Locals(st', s) <==>
                  (op.Subscribe? && op.stream == s && k == |st.received|) || (k in Locals(st, s) && !Drops(op, k)))
            && |st'.received| == |st.received| + if op.Subscribe? then 1 else 0
  {
    if op.Unsubscribe? && op.k < |st.streamOf| {
      RemoveFromDistinct(Locals(st, st.streamOf[op.k]), op.k);
    }
  }

  /** What subscription k ought to have heard: the events published to a stream while it listened. */
  ghost function Heard(types: TypeMap, ops: seq<Op>, k: nat): seq<Delivery>
  {
    if ops == [] then []
    else
      var n := |ops| - 1;
      var before := Heard(types, ops[..n], k);
      match ops[n]
      case Publish(s, evt, now) =>
        if Listens(ops[..n], k, s) && evt.ty in types
        then before + [Delivery(Metadata(s, now), types[evt.ty], Some(evt))] else before
      case _ => before
  }

  /** A delivery loop that is not cut short reaches each subscription in its range once. */
  lemma {:induction false} DeliverReachesEachOnce(dispatchers: seq<EventDispatcher>, received: seq<seq<Delivery>>,
      subs: seq<nat>, n: nat, d: Delivery, k: nat)
    requires n <= |subs| && |dispatchers| == |received| && Distinct(subs) && forall k | k in subs :: k < |received|
    requires k < |received| && Deliver(dispatchers, received, subs, n, d).1
    ensures Deliver(dispatchers, received, subs, n, d).0[k] == if k in subs[..n] then received[k] + [d] else received[k]
  {
    if n > 0 {
      DeliverReachesEachOnce(dispatchers, received, subs, n - 1, d, k);
      assert subs[..n] == subs[..n - 1] + [subs[n - 1]];
      assert subs[n - 1] !in subs[..n - 1];
    }
  }

  lemma {:induction false} DeliverCompletesExactly(dispatchers: seq<EventDispatcher>, received: seq<seq<Delivery>>,
      subs: seq<nat>, n: nat, d: Delivery)
    requires n <= |subs| && |dispatchers| == |received| && Distinct(subs) && forall k | k in subs :: k < |received|
    ensures Deliver(dispatchers, received, subs, n, d).1
       <==> forall k | k in subs[..n] && k < |received| :: !dispatchers[k](received[k], d)
  {
    if n > 0 {
      DeliverCompletesExactly(dispatchers, received, subs, n - 1, d);
      assert subs[..n] == subs[..n - 1] + [subs[n - 1]];
      assert subs[n - 1] in subs && subs[n - 1] !in subs[..n - 1];
      if Deliver(dispatchers, received, subs, n - 1, d).1 {
        DeliverReachesEachOnce(dispatchers, received, subs, n - 1, d, subs[n - 1]);
      }
    }
  }

  /** Nobody is there to tell; or the type has an id, no local dispatcher throws on the event, and
      the frame fits if there is a channel. */
  ghost predicate Publishable(st: Store, types: TypeMap, s: bytes, evt: Message, now: uint64)
    requires ValidStore(st)
  {
    || (Locals(st, s) == [] && Channels(st, s) == [])
    || (&& evt.ty in types
        && (forall k | k in Locals(st, s) ::
              !st.dispatchers[k](st.received[k], Delivery(Metadata(s, now), types[evt.ty], Some(evt))))
        && (Channels(st, s) != [] ==> EventFrame(types, evt, now).Some?))
  }

  /** A publish succeeds exactly when there is nobody to tell, or the type has an id, no local
      dispatcher throws, and the frame fits if there is a channel. A failing one reaches no channel. */
  lemma {:induction false} PublishSucceedsExactly(st: Store, types: TypeMap, s: bytes, evt: Message, now: uint64)
    requires ValidStore(st)
    ensures var (st', ok) := PublishTo(st, types, s, evt, now);
            && (ok <==> Publishable(st, types, s, evt, now))
            && (!ok ==> st'.channels == st.channels)
  {
    hide EventFrame;
    if evt.ty in types {
      var subs := Locals(st, s);
      var d := Delivery(Metadata(s, now), types[evt.ty], Some(evt));
      DeliverCompletesExactly(st.dispatchers, st.received, subs, |subs|, d);
      assert subs[..|subs|] == subs;
    }
  }

  /** Whole-run delivery: after any interleaving of subscribing, unsubscribing and successful
      publishing, each subscription has received exactly the events published to its stream while
      it was subscribed, once each and in order. */
  lemma {:induction false} EachSubscriptionHearsItsStream(types: TypeMap, ops: seq<Op>, k: nat)
    requires Run(types, ops).1 && k < Made(ops)
    ensures k < |Run(types, ops).0.received| && Run(types, ops).0.received[k] == Heard(types, ops, k)
  {
    var n := |ops| - 1;
    var st := Run(types, ops[..n]).0;
    LocalsAreListeners(types, ops[..n]);
    LocalsAreListeners(types, ops);
    if k == Made(ops[..n]) {
      NobodyHearsBeforeSubscribing(types, ops[..n], k);
    } else {
      EachSubscriptionHearsItsStream(types, ops[..n], k);
      PublishReachesLocals(types, st, ops[n], k);
    }
  }

  lemma {:induction false} PublishReachesLocals(types: TypeMap, st: Store, op: Op, k: nat)
    requires ValidStore(st) && Step(types, st, op).1 && k < |st.received|
    ensures k < |Step(types, st, op).0.received|
    ensures Step(types, st, op).0.received[k] ==
            if op.Publish? && k in Locals(st, op.stream) && op.evt.ty in types
            then st.received[k] + [Delivery(Metadata(op.stream, op.now), types[op.evt.ty], Some(op.evt))]
            else st.received[k]
  {
    if op.Publish? && op.evt.ty in types {
      var subs := Locals(st, op.stream);
      var d := Delivery(Metadata(op.stream, op.now), types[op.evt.ty], Some(op.evt));
      DeliverReachesEachOnce(st.dispatchers, st.received, subs, |subs|, d, k);
      assert subs[..|subs|] == subs;
    }
  }

  lemma {:induction false} NobodyHearsBeforeSubscribing(types: TypeMap, ops: seq<Op>, k: nat)
    requires k >= Made(ops)
    ensures Heard(types, ops, k) == [] && forall s :: !Listens(ops, k, s)
  {
    if ops != [] {
      var n := |ops| - 1;
      NobodyHearsBeforeSubscribing(types, ops[..n], k);
      forall s ensures !Listens(ops, k, s) { ListensStep(ops, k, s); }
    }
  }

  // ---------- Runs in which publishes fail ----------

  predicate Increasing(s: seq<nat>)
  {
    forall i, j | 0 <= i < j < |s| :: s[i] < s[j]
  }

  /** Removing takes out one position, if any. */
  lemma {:induction false} RemovedPosition(s: seq<nat>, k: nat) returns (i: nat)
    ensures i <= |s| && Remove(s, k) == if i < |s| then s[..i] + s[i + 1..] else s
  {
    i := 0;
    while i < |s| && s[i] != k
      invariant i <= |s| && k !in s[..i]
    {
      i := i + 1;
    }
    RemoveAt(s, i, k);
  }

  lemma {:induction false} RemoveKeepsIncreasing(s: seq<nat>, k: nat)
    requires Increasing(s)
    ensures Increasing(Remove(s, k))
  {
    hide Remove;
    var i := RemovedPosition(s, k);
  }

  /** A stream's range lists its subscriptions in the order in which they were made. */
  lemma {:induction false} LocalsIncrease(types: TypeMap, ops: seq<Op>, s: bytes)
    ensures Increasing(Locals(Run(types, ops).0, s))
  {
    hide Step, Locals, Increasing;
    if ops == [] {
      NoLocalsYet(s);
    } else {
      var n := |ops| - 1;
      var st := Run(types, ops[..n]).0;
      LocalsIncrease(types, ops[..n], s);
      ChangedLocals(types, st, ops[n], s);
      if ops[n].Unsubscribe? {
        RemoveKeepsIncreasing(Locals(st, s), ops[n].k);
      } else if ops[n].Subscribe? {
        IncreasingGrows(st, s);
      }
    }
  }

  lemma {:induction false} NoLocalsYet(s: bytes)
    ensures Increasing(Locals(EMPTY_STORE, s))
  {
  }

  lemma {:induction false} IncreasingGrows(st: Store, s: bytes)
    requires ValidStore(st) && Increasing(Locals(st, s))
    ensures Increasing(Locals(st, s) + [|st.received|])
  {
    var subs := Locals(st, s);
    assert forall i | 0 <= i < |subs| :: subs[i] in subs;
  }

  lemma {:induction false} ChangedLocals(types: TypeMap, st: Store, op: Op, s: bytes)
    requires ValidStore(st)
    ensures var was, next := Locals(st, s), Locals(Step(types, st, op).0, s);
            match op
            case Subscribe(stream, _) => next == if stream == s then was + [|st.received|] else was
            case Unsubscribe(k) => next == was || next == Remove(was, k)
            case _ => next == was
  {
  }

  /** The dispatchers of the subscriptions made, by number. */
  function Dispatchers(ops: seq<Op>): (ds: seq<EventDispatcher>)
    ensures |ds| == Made(ops)
  {
    if ops == [] then []
    else
      var before, last := Dispatchers(ops[..|ops| - 1]), ops[|ops| - 1];
      if last.Subscribe? then before + [last.dispatcher] else before
  }

  /** What reaches subscription k, whatever fails: each registered event published to its stream while
      it listens, unless the dispatcher of an earlier subscription to the stream throws on it. */
  ghost function Reaching(types: TypeMap, ops: seq<Op>, k: nat): seq<Delivery>
    decreases |ops|
  {
    if ops == [] then []
    else
      var n := |ops| - 1;
      var before := Reaching(types, ops[..n], k);
      match ops[n]
      case Publish(s, evt, now) =>
        if evt.ty in types && Listens(ops[..n], k, s) then
          var d := Delivery(Metadata(s, now), types[evt.ty], Some(evt));
          if forall j | 0 <= j < k && j < Made(ops[..n]) && Listens(ops[..n], j, s) ::
               !Dispatchers(ops[..n])[j](Reaching(types, ops[..n], j), d)
          then before + [d] else before
        else before
      case _ => before
  }

  lemma {:induction false} RunKeepsDispatchers(types: TypeMap, ops: seq<Op>)
    ensures Run(types, ops).0.dispatchers == Dispatchers(ops)
  {
    hide Step;
    if ops != [] {
      var n := |ops| - 1;
      RunKeepsDispatchers(types, ops[..n]);
      StepDispatchers(types, Run(types, ops[..n]).0, ops[n]);
    }
  }

  lemma {:induction false} StepDispatchers(types: TypeMap, st: Store, op: Op)
    requires ValidStore(st)
    ensures Step(types, st, op).0.dispatchers
         == if op.Subscribe? then st.dispatchers + [op.dispatcher] else st.dispatchers
  {
    hide Deliver, EventFrame;
  }

  /** Does none of these dispatchers with a number below k throw? */
  ghost predicate NoneBelowThrows(dispatchers: seq<EventDispatcher>, received: seq<seq<Delivery>>, subs: seq<nat>,
      d: Delivery, k: nat)
    requires |dispatchers| == |received|
  {
    forall j | j in subs && j < k && j < |received| :: !dispatchers[j](received[j], d)
  }

  /** How far a delivery loop gets: to each subscription in its range before which none throws. */
  lemma {:induction false} DeliverReachesExactly(dispatchers: seq<EventDispatcher>, received: seq<seq<Delivery>>,
      subs: seq<nat>, n: nat, d: Delivery, k: nat)
    requires n <= |subs| && |dispatchers| == |received| && Increasing(subs) && forall k | k in subs :: k < |received|
    requires k < |received|
    ensures Deliver(dispatchers, received, subs, n, d).0[k]
         == if k in subs[..n] && NoneBelowThrows(dispatchers, received, subs[..n], d, k)
            then received[k] + [d] else received[k]
  {
    if n > 0 {
      var front, last := subs[..n - 1], subs[n - 1];
      assert last in subs;
      assert subs[..n] == front + [last];
      assert forall j | j in front :: j < last;
      DeliverReachesExactly(dispatchers, received, subs, n - 1, d, k);
      DeliverReachesExactly(dispatchers, received, subs, n - 1, d, last);
      DeliverCompletesExactly(dispatchers, received, subs, n - 1, d);
      assert k in front ==> (NoneBelowThrows(dispatchers, received, subs[..n], d, k)
                             <==> NoneBelowThrows(dispatchers, received, front, d, k));
    }
  }

  lemma {:induction false} StepReachesExactly(types: TypeMap, st: Store, op: Op, k: nat)
    requires ValidStore(st) && k < |st.received| && (op.Publish? ==> Increasing(Locals(st, op.stream)))
    ensures k < |Step(types, st, op).0.received|
    ensures var after := Step(types, st, op).0.received[k];
            if op.Publish? && op.evt.ty in types && k in Locals(st, op.stream) then
              var d := Delivery(Metadata(op.stream, op.now), types[op.evt.ty], Some(op.evt));
              after == if NoneBelowThrows(st.dispatchers, st.received, Locals(st, op.stream), d, k)
                       then st.received[k] + [d] else st.received[k]
            else after == st.received[k]
  {
    hide EventFrame, NoneBelowThrows, Deliver;
    if op.Publish? && op.evt.ty in types {
      var subs := Locals(st, op.stream);
      var d := Delivery(Metadata(op.stream, op.now), types[op.evt.ty], Some(op.evt));
      DeliverReachesExactly(st.dispatchers, st.received, subs, |subs|, d, k);
      assert subs[..|subs|] == subs;
    }
  }

  /** Whole-run delivery without any condition: in every run, failing publishes included, each subscription
      has received exactly the registered events published to its stream while it was subscribed on
      which no earlier subscription to the stream threw, once each and in order. */
  lemma {:induction false} EachSubscriptionIsReached(types: TypeMap, ops: seq<Op>, k: nat)
    requires k < Made(ops)
    ensures k < |Run(types, ops).0.received| && Run(types, ops).0.received[k] == Reaching(types, ops, k)
    decreases |ops|
  {
    hide Step, Listens, Deliver, Increasing;
    var n := |ops| - 1;
    var st := Run(types, ops[..n]).0;
    LocalsAreListeners(types, ops[..n]);
    LocalsAreListeners(types, ops);
    if k == Made(ops[..n]) {
      NobodyIsReachedBeforeSubscribing(types, ops[..n], k);
      NewSubscriptionIsEmpty(types, st, ops[n]);
    } else {
      forall j: nat | j < Made(ops[..n]) ensures st.received[j] == Reaching(types, ops[..n], j) {
        EachSubscriptionIsReached(types, ops[..n], j);
      }
      RunKeepsDispatchers(types, ops[..n]);
      if ops[n].Publish? {
        LocalsIncrease(types, ops[..n], ops[n].stream);
      }
      StepReachesExactly(types, st, ops[n], k);
    }
  }

  lemma {:induction false} NewSubscriptionIsEmpty(types: TypeMap, st: Store, op: Op)
    requires ValidStore(st) && op.Subscribe?
    ensures Step(types, st, op).0.received == st.received + [[]]
  {
  }

  lemma {:induction false} NobodyIsReachedBeforeSubscribing(types: TypeMap, ops: seq<Op>, k: nat)
    requires k >= Made(ops)
    ensures Reaching(types, ops, k) == []
  {
    if ops != [] {
      NobodyHearsBeforeSubscribing(types, ops[..|ops| - 1], k);
      NobodyIsReachedBeforeSubscribing(types, ops[..|ops| - 1], k);
    }
  }

  // ---------- Channels ----------

  /** Creating a stream adds a channel to it every time; ensuring it adds only the first. */
  function ChannelCount(ops: seq<Op>, s: bytes): nat
  {
    if ops == [] then 0
    else
      var n := |ops| - 1;
      var before := ChannelCount(ops[..n], s);
      match ops[n]
      case CreateStream(stream) => if stream == s then before + 1 else before
      case EnsureStream(stream) => if stream == s && before == 0 then 1 else before
      case _ => before
  }

  /** The events announced on channel c of stream s: those published since it was created, leaving
      out the ones whose publish failed. */
  ghost function Announced(types: TypeMap, ops: seq<Op>, s: bytes, c: nat): seq<(Message, uint64)>
  {
    if ops == [] then []
    else
      var n := |ops| - 1;
      var before := Announced(types, ops[..n], s, c);
      match ops[n]
      case Publish(stream, evt, now) =>
        if stream == s && c < ChannelCount(ops[..n], s) && Publishable(Run(types, ops[..n]).0, types, s, evt, now)
        then before + [(evt, now)] else before
      case _ => before
  }

  /** The frame for each announced event. */
  ghost predicate FramesFor(types: TypeMap, events: seq<(Message, uint64)>, frames: seq<bytes>)
  {
    && |frames| == |events|
    && forall i | 0 <= i < |frames| :: EventFrame(types, events[i].0, events[i].1) == Some(frames[i])
  }

  lemma {:induction false} ChannelsStep(types: TypeMap, st: Store, op: Op, s: bytes)
    requires ValidStore(st)
    ensures var was, next := Channels(st, s), Channels(Step(types, st, op).0, s);
            match op
            case CreateStream(stream) => next == if stream == s then was + [[]] else was
            case EnsureStream(stream) => next == if stream == s && was == [] then [[]] else was
            case Publish(stream, evt, now) =>
              if stream == s && was != [] && Step(types, st, op).1
              then EventFrame(types, evt, now).Some? && next == Send(was, |was|, EventFrame(types, evt, now).value)
              else next == was
            case _ => next == was
  {
    hide EventFrame, Deliver;
  }

  /** In every run a stream has as many channels as were created for it, whatever publishes fail. */
  lemma {:induction false} ChannelsAreCounted(types: TypeMap, ops: seq<Op>, s: bytes)
    ensures |Channels(Run(types, ops).0, s)| == ChannelCount(ops, s)
  {
    hide Step, EventFrame, Channels;
    if ops == [] {
      NoChannelsYet(s);
    } else {
      var n := |ops| - 1;
      ChannelsAreCounted(types, ops[..n], s);
      ChannelsStep(types, Run(types, ops[..n]).0, ops[n], s);
    }
  }

  lemma {:induction false} NoChannelsYet(s: bytes)
    ensures Channels(EMPTY_STORE, s) == []
  {
  }

  /** In every run each channel of a stream has sent exactly one frame for every event published to
      the stream since the channel was created, in order; a publish that fails sends nothing. */
  lemma {:induction false} EachChannelCarriesItsStream(types: TypeMap, ops: seq<Op>, s: bytes)
    ensures var chans := Channels(Run(types, ops).0, s);
            && |chans| == ChannelCount(ops, s)
            && forall c | 0 <= c < |chans| :: FramesFor(types, Announced(types, ops, s, c), chans[c])
  {
    hide Step, EventFrame, FramesFor, Publishable;
    NoFramesYet(types);
    ChannelsAreCounted(types, ops, s);
    if ops != [] {
      var n := |ops| - 1;
      var st := Run(types, ops[..n]).0;
      EachChannelCarriesItsStream(types, ops[..n], s);
      ChannelsStep(types, st, ops[n], s);
      var chans, after := Channels(st, s), Channels(Run(types, ops).0, s);
      if |chans| < |after| {
        NothingAnnouncedBeforeCreation(types, ops[..n], s, |chans|);
      }
      forall c | 0 <= c < |after| ensures FramesFor(types, Announced(types, ops, s, c), after[c]) {
        if c < |chans| && ops[n].Publish? && ops[n].stream == s {
          StepPublishes(types, st, ops[n]);
          if Step(types, st, ops[n]).1 {
            FramesForGrow(types, Announced(types, ops[..n], s, c), chans[c], ops[n].evt, ops[n].now);
          }
        }
      }
    }
  }

  lemma {:induction false} StepPublishes(types: TypeMap, st: Store, op: Op)
    requires ValidStore(st) && op.Publish?
    ensures Step(types, st, op).1 <==> Publishable(st, types, op.stream, op.evt, op.now)
  {
    hide Publishable;
    PublishSucceedsExactly(st, types, op.stream, op.evt, op.now);
  }

  lemma {:induction false} NoFramesYet(types: TypeMap)
    ensures FramesFor(types, [], [])
  {
  }

  lemma {:induction false} FramesForGrow(types: TypeMap, events: seq<(Message, uint64)>, frames: seq<bytes>,
      evt: Message, now: uint64)
    requires FramesFor(types, events, frames) && EventFrame(types, evt, now).Some?
    ensures FramesFor(types, events + [(evt, now)], frames + [EventFrame(types, evt, now).value])
  {
    hide EventFrame;
  }

  lemma {:induction false} NothingAnnouncedBeforeCreation(types: TypeMap, ops: seq<Op>, s: bytes, c: nat)
    requires c >= ChannelCount(ops, s)
    ensures Announced(types, ops, s, c) == []
  {
    if ops != [] {
      NothingAnnouncedBeforeCreation(types, ops[..|ops| - 1], s, c);
    }
  }

  function Creations(ops: seq<Op>, s: bytes): nat
  {
    if ops == [] then 0
    else Creations(ops[..|ops| - 1], s) + if ops[|ops| - 1].CreateStream? && ops[|ops| - 1].stream == s then 1 else 0
  }

  /** Whatever else happens, a stream that no CreateStream names has one channel if it was ever
      ensured, and none otherwise. */
  lemma {:induction false} EnsuringGivesOneChannel(types: TypeMap, ops: seq<Op>, s: bytes)
    requires Creations(ops, s) == 0
    ensures |Channels(Run(types, ops).0, s)| == if exists i | 0 <= i < |ops| :: ops[i] == EnsureStream(s) then 1 else 0
  {
    hide Run, Channels;
    ChannelsAreCounted(types, ops, s);
    if ops != [] {
      var n := |ops| - 1;
      EnsuringGivesOneChannel(types, ops[..n], s);
      ChannelsAreCounted(types, ops[..n], s);
      if i :| 0 <= i < n && ops[i] == EnsureStream(s) {
        assert ops[..n][i] == EnsureStream(s);
      }
    }
  }

  /** No later step takes a channel away or undoes a frame that it has sent, and each creation adds
      a channel. */
  lemma {:induction false} ChannelsOnlyGrow(types: TypeMap, ops: seq<Op>, more: seq<Op>, s: bytes)
    ensures var before, after := Channels(Run(types, ops).0, s), Channels(Run(types, ops + more).0, s);
            |after| >= |before| + Creations(more, s) && forall c | 0 <= c < |before| :: before[c] <= after[c]
  {
    hide Step, EventFrame, Channels;
    if more == [] {
      assert ops + more == ops;
    } else {
      var n := |more| - 1;
      ChannelsOnlyGrow(types, ops, more[..n], s);
      assert (ops + more)[..|ops| + n] == ops + more[..n];
      ChannelsStep(types, Run(types, ops + more[..n]).0, more[n], s);
    }
  }

  /** Once a stream has a channel, its channels grow by exactly the later creations. */
  lemma {:induction false} LaterCreationsAddExactlyOne(types: TypeMap, ops: seq<Op>, more: seq<Op>, s: bytes)
    requires Channels(Run(types, ops).0, s) != []
    ensures |Channels(Run(types, ops + more).0, s)| == |Channels(Run(types, ops).0, s)| + Creations(more, s)
  {
    hide Step, EventFrame, Channels;
    if more == [] {
      assert ops + more == ops;
    } else {
      var n := |more| - 1;
      LaterCreationsAddExactlyOne(types, ops, more[..n], s);
      assert (ops + more)[..|ops| + n] == ops + more[..n];
      ChannelsStep(types, Run(types, ops + more[..n]).0, more[n], s);
    }
  }
}
