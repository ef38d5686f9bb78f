/** The event store: local subscriptions and published channels, by stream name. */
module EventStores {
  import opened Wire
  import opened Codec
  import opened Registry
  import opened Events

  /** Subscriptions are numbered in the order they are made; local lists those still subscribed to
      each stream, and channels holds the frames sent on each channel of each stream. */
  datatype Store = Store(
    dispatchers: seq<EventDispatcher>,
    streamOf: seq<bytes>,
    received: seq<seq<Delivery>>,
    local: map<bytes, seq<nat>>,
    channels: map<bytes, seq<seq<bytes>>>)

  const EMPTY_STORE := Store([], [], [], map[], map[])

  function Locals(st: Store, stream: bytes): seq<nat>
  {
    if stream in st.local then st.local[stream] else []
  }

  function Channels(st: Store, stream: bytes): seq<seq<bytes>>
  {
    if stream in st.channels then st.channels[stream] else []
  }

  predicate Distinct(s: seq<nat>)
  {
    forall i, j | 0 <= i < j < |s| :: s[i] != s[j]
  }

  ghost predicate ValidStore(st: Store)
  {
    && |st.dispatchers| == |st.streamOf| == |st.received|
    && forall s :: Distinct(Locals(st, s)) && forall k | k in Locals(st, s) :: k < |st.received| && st.streamOf[k] == s
  }

  function AddSubscription(st: Store, stream: bytes, d: EventDispatcher): Store
  {
    Store(st.dispatchers + [d], st.streamOf + [stream], st.received + [[]],
          st.local[stream := Locals(st, stream) + [|st.received|]], st.channels)
  }

  /** Erases the first occurrence. */
  function Remove(s: seq<nat>, k: nat): seq<nat>
  {
    if s == [] then [] else if s[0] == k then s[1..] else [s[0]] + Remove(s[1..], k)
  }

  lemma {:induction false} RemoveFromDistinct(s: seq<nat>, k: nat)
    requires Distinct(s)
    ensures Distinct(Remove(s, k)) && forall n :: n in Remove(s, k) <==> n in s && n != k
  {
    if s != [] {
      assert s == [s[0]] + s[1..];
      assert s[0] !in s[1..];
      RemoveFromDistinct(s[1..], k);
    }
  }

  lemma {:induction false} RemoveAt(s: seq<nat>, i: nat, k: nat)
    requires i <= |s| && k !in s[..i] && (i < |s| ==> s[i] == k)
    ensures Remove(s, k) == if i < |s| then s[..i] + s[i + 1..] else s
  {
    if 0 < i {
      assert s[1..][..i - 1] == s[..i][1..];
      assert s[0] == s[..i][0];
      RemoveAt(s[1..], i - 1, k);
    }
  }

  /** Unsubscribing again, or an unknown subscription, changes nothing. */
  function DropSubscription(st: Store, k: nat): Store
  {
    if k >= |st.streamOf| then st
    else var s := st.streamOf[k];
      if s in st.local then st.(local := st.local[s := Remove(st.local[s], k)]) else st
  }

  function AddChannel(st: Store, stream: bytes): Store
  {
    st.(channels := st.channels[stream := Channels(st, stream) + [[]]])
  }

  function EnsureChannel(st: Store, stream: bytes): Store
  {
    if Channels(st, stream) != [] then st else AddChannel(st, stream)
  }

  function Receive(received: seq<seq<Delivery>>, k: nat, d: Delivery): seq<seq<Delivery>>
    requires k < |received|
  {
    received[k := received[k] + [d]]
  }

  /** The first loop of Publish, over the first n subscriptions in range: it ends early, with false,
      when a dispatcher throws. */
  function Deliver(dispatchers: seq<EventDispatcher>, received: seq<seq<Delivery>>, subs: seq<nat>, n: nat,
      d: Delivery): (r: (seq<seq<Delivery>>, bool))
    requires n <= |subs| && |dispatchers| == |received| && forall k | k in subs :: k < |received|
    ensures |r.0| == |received|
  {
    if n == 0 then (received, true)
    else
      var (before, ok) := Deliver(dispatchers, received, subs, n - 1, d);
      var k := subs[n - 1];
      assert k in subs;
      if !ok then (before, false)
      else (Receive(before, k, d), !dispatchers[k](before[k], d))
  }

  /** The second loop of Publish, over the first n channels. */
  function Send(frames: seq<seq<bytes>>, n: nat, f: bytes): (r: seq<seq<bytes>>)
    requires n <= |frames|
    ensures |r| == |frames|
  {
    seq(|frames|, i requires 0 <= i < |frames| => if i < n then frames[i] + [f] else frames[i])
  }

  /** Publish: first every local subscription, then every channel. A type without an id, a frame
      that does not fit and a throwing dispatcher each end it with false; with nobody to tell,
      even an unregistered event is published without complaint. */
  function PublishTo(st: Store, types: TypeMap, stream: bytes, evt: Message, now: uint64): (r: (Store, bool))
    requires ValidStore(st)
  {
    var subs, chans := Locals(st, stream), Channels(st, stream);
    if evt.ty !in types then (st, subs == [] && chans == [])
    else
      var d := Delivery(Metadata(stream, now), types[evt.ty], Some(evt));
      var (received, ok) := Deliver(st.dispatchers, st.received, subs, |subs|, d);
      var st' := st.(received := received);
      if !ok || chans == [] then (st', ok)
      else match EventFrame(types, evt, now)
        case None => (st', false)
        case Some(f) => (st'.(channels := st.channels[stream := Send(chans, |chans|, f)]), true)
  }

  // ---------- The store object ----------

  class EventStore {
    const serializer: MessageSerializer
    var dispatchers: seq<EventDispatcher>
    var streamOf: seq<bytes>
    var received: seq<seq<Delivery>>
    var localSubscribers: map<bytes, seq<nat>>
    var publishedStreams: map<bytes, seq<seq<bytes>>>

    function Value(): Store reads this { Store(dispatchers, streamOf, received, localSubscribers, publishedStreams) }

    constructor (s: MessageSerializer)
      ensures serializer == s && Value() == EMPTY_STORE
    {
      serializer := s;
      dispatchers, streamOf, received, localSubscribers, publishedStreams := [], [], [], map[], map[];
    }

    method Subscribe(stream: bytes, d: EventDispatcher) returns (k: nat)
      modifies this
      ensures k == |old(received)| && Value() == AddSubscription(old(Value()), stream, d)
    {
      k := |received|;
      localSubscribers := localSubscribers[stream := Locals(Value(), stream) + [k]];
      dispatchers, streamOf, received := dispatchers + [d], streamOf + [stream], received + [[]];
    }

    method Unsubscribe(k: nat)
      modifies this`localSubscribers
      ensures Value() == DropSubscription(old(Value()), k)
    {
      if k < |streamOf| && streamOf[k] in localSubscribers {
        var range := localSubscribers[streamOf[k]];
        var i := 0;
        while i < |range| && range[i] != k
          invariant i <= |range| && k !in range[..i]
        {
          i := i + 1;
        }
        RemoveAt(range, i, k);
        if i < |range| {
          localSubscribers := localSubscribers[streamOf[k] := range[..i] + range[i + 1..]];
        } else {
          localSubscribers := localSubscribers[streamOf[k] := range];
        }
      }
    }

    method StreamExists(stream: bytes) returns (yes: bool)
      ensures yes <==> Channels(Value(), stream) != []
    {
      yes := Channels(Value(), stream) != [];
    }

    method CreateStream(stream: bytes)
      modifies this`publishedStreams
      ensures Value() == AddChannel(old(Value()), stream)
    {
      publishedStreams := publishedStreams[stream := Channels(Value(), stream) + [[]]];
    }

    method EnsureStreamCreated(stream: bytes)
      modifies this`publishedStreams
      ensures Value() == EnsureChannel(old(Value()), stream)
    {
      var found := StreamExists(stream);
      if found {
        return;
      }
      CreateStream(stream);
    }

    /** Publish: the loop over the local subscriptions, then the loop over the channels. */
    method Publish(stream: bytes, evt: Message, now: uint64) returns (ok: bool)
      requires ValidStore(Value())
      modifies this`received, this`publishedStreams
      ensures (Value(), ok) == PublishTo(old(Value()), serializer.typeIdMap, stream, evt, now)
    {
      var subs, chans := Locals(Value(), stream), Channels(Value(), stream);
      ok := PublishLocally(subs, stream, evt, now);
      if ok && chans != [] {
        ok := PublishOnChannels(chans, stream, EventFrame(serializer.typeIdMap, evt, now));
      }
    }

    method PublishLocally(subs: seq<nat>, stream: bytes, evt: Message, now: uint64) returns (ok: bool)
      requires |dispatchers| == |received| && forall k | k in subs :: k < |received|
      modifies this`received
      ensures if evt.ty in serializer.typeIdMap
              then var d := Delivery(Metadata(stream, now), serializer.typeIdMap[evt.ty], Some(evt));
                (received, ok) == Deliver(dispatchers, old(received), subs, |subs|, d)
              else received == old(received) && ok == (subs == [])
    {
      var i := 0;
      while i < |subs|
        invariant i <= |subs| && |received| == |old(received)|
        invariant evt.ty in serializer.typeIdMap ==>
                    var d := Delivery(Metadata(stream, now), serializer.typeIdMap[evt.ty], Some(evt));
                    (received, true) == Deliver(dispatchers, old(received), subs, i, d)
        invariant evt.ty !in serializer.typeIdMap ==> i == 0 && received == old(received)
      {
        var id := serializer.GetMessageId(evt.ty);
        if id == None {
          return false;
        }
        var d := Delivery(Metadata(stream, now), id.value, Some(evt));
        assert subs[i] in subs;
        var threw := dispatchers[subs[i]](received[subs[i]], d);
        received := Receive(received, subs[i], d);
        i := i + 1;
        if threw {
          DeliverStopped(dispatchers, old(received), subs, i, d);
          return false;
        }
      }
      ok := true;
    }

    method PublishOnChannels(chans: seq<seq<bytes>>, stream: bytes, frame: Option<bytes>) returns (ok: bool)
      requires chans != []
      modifies this`publishedStreams
      ensures ok == frame.Some?
      ensures ok ==> publishedStreams == old(publishedStreams)[stream := Send(chans, |chans|, frame.value)]
      ensures !ok ==> publishedStreams == old(publishedStreams)
    {
      if frame == None {
        return false;
      }
      var sent, j := chans, 0;
      assert Send(chans, 0, frame.value) == chans;
      while j < |chans|
        invariant j <= |chans| && sent == Send(chans, j, frame.value)
        invariant j == 0 ==> publishedStreams == old(publishedStreams)
        invariant j > 0 ==> publishedStreams == old(publishedStreams)[stream := sent]
      {
        var next := sent[j := sent[j] + [frame.value]];
        assert next == Send(chans, j + 1, frame.value);
        publishedStreams := publishedStreams[stream := next];
        sent, j := next, j + 1;
      }
      ok := true;
    }
  }

  /** Once a dispatcher has thrown, nothing more is delivered. */
  lemma {:induction false} DeliverStopped(dispatchers: seq<EventDispatcher>, received: seq<seq<Delivery>>,
      subs: seq<nat>, n: nat, d: Delivery)
    requires n <= |subs| && |dispatchers| == |received| && forall k | k in subs :: k < |received|
    requires !Deliver(dispatchers, received, subs, n, d).1
    ensures Deliver(dispatchers, received, subs, |subs|, d) == Deliver(dispatchers, received, subs, n, d)
    decreases |subs| - n
  {
    if n < |subs| {
      DeliverStopped(dispatchers, received, subs, n + 1, d);
    }
  }

  // ---------- Every run ----------

  datatype Op =
    | Subscribe(stream: bytes, dispatcher: EventDispatcher) | Unsubscribe(k: nat)
    | Publish(stream: bytes, evt: Message, now: uint64)
    | EnsureStream(stream: bytes) | CreateStream(stream: bytes)

  function Step(types: TypeMap, st: Store, op: Op): (Store, bool)
    requires ValidStore(st)
  {
    match op
    case Subscribe(s, d) => (AddSubscription(st, s, d), true)
    case Unsubscribe(k) => (DropSubscription(st, k), true)
    case Publish(s, evt, now) => PublishTo(st, types, s, evt, now)
    case EnsureStream(s) => (EnsureChannel(st, s), true)
    case CreateStream(s) => (AddChannel(st, s), true)
  }

  lemma {:induction false} StepKeepsValid(types: TypeMap, st: Store, op: Op)
    requires ValidStore(st)
    ensures ValidStore(Step(types, st, op).0)
  {
    var st' := Step(types, st, op).0;
    if op.Unsubscribe? && op.k < |st.streamOf| {
      RemoveFromDistinct(Locals(st, st.streamOf[op.k]), op.k);
    }
    forall s
      ensures Distinct(Locals(st', s)) && forall k | k in Locals(st', s) :: k < |st'.received| && st'.streamOf[k] == s
    {
      var before := Locals(st, s);
      assert Distinct(before) && forall k | k in before :: k < |st.received| && st.streamOf[k] == s;
      if op.Subscribe? && op.stream == s {
        forall i | 0 <= i < |before| ensures before[i] < |st.received| { assert before[i] in before; }
      }
    }
  }

  /** The store after a run, and whether every publish in it succeeded. */
  function Run(types: TypeMap, ops: seq<Op>): (r: (Store, bool))
    ensures ValidStore(r.0)
  {
    if ops == [] then (EMPTY_STORE, true)
    else
      var n := |ops| - 1;
      var (st, ok) := Run(types, ops[..n]);
      StepKeepsValid(types, st, ops[n]);
      var (st', ok') := Step(types, st, ops[n]);
      (st', ok && ok')
  }
}
