/** The probe and consumer tasks as sequential code, and the actions of the interleaved machine run without interruption:
    both describe the same effect. */
module Tasks {
  import opened Prelude
  import opened Events
  import opened Metrics
  import opened Aggregation
  import opened Mapping
  import opened Osc
  import opened Pipeline

  // ---------- Probes ----------

  /** An item found in the ring buffer, and the clock when it was taken out. */
  datatype Item = Item(bytes: seq<U8>, nowNs: U64)

  /** The events the items decode to; items too short for the probe's record are skipped. */
  function Decoded(probe: ProbeId, items: seq<Item>): (events: seq<RawEvent>)
    ensures |events| <= |items|
    ensures forall e :: e in events ==> e.probe == probe == e.payload.Probe()
  {
    if items == [] then []
    else
      var n := |items| - 1;
      var payload := FromBytes(probe, items[n].bytes);
      Decoded(probe, items[..n]) + if payload.Some? then [RawEvent(probe, items[n].nowNs, payload.value)] else []
  }

  /** The event of each item that is long enough, with the time it was taken out, after those of the items before it. */
  lemma {:induction false} DecodedAt(probe: ProbeId, items: seq<Item>, i: nat)
    requires i < |items| && |items[i].bytes| >= RecordSize(probe)
    ensures |Decoded(probe, items[..i])| < |Decoded(probe, items)|
    ensures Decoded(probe, items)[|Decoded(probe, items[..i])|]
         == RawEvent(probe, items[i].nowNs, FromBytes(probe, items[i].bytes).value)
  {
    var n := |items| - 1;
    if i == n {
    } else {
      DecodedAt(probe, items[..n], i);
      assert items[..n][..i] == items[..i];
    }
  }

  function LongEnough(probe: ProbeId): Item -> nat {
    (item: Item) => if |item.bytes| >= RecordSize(probe) then 1 else 0
  }

  /** There are no other events. */
  lemma {:induction false} DecodedSize(probe: ProbeId, items: seq<Item>)
    ensures |Decoded(probe, items)| == Sum(items, LongEnough(probe))
  {
    if items == [] {
    } else {
      DecodedSize(probe, items[..|items| - 1]);
    }
  }

  function Min(a: nat, b: nat): nat {
    if a < b then a else b
  }

  /** What sending an event reads and writes: the raw queue, the probe's counters, the shared loss counter. */
  datatype ProbeView = ProbeView(queue: seq<RawEvent>, eventsTotal: nat, eventsLost: nat, lastEventUs: nat,
                                 cumulativeLost: nat)

  /** Sending one event: queued and counted with its time, or counted as lost twice. */
  function Sending(v: ProbeView, e: RawEvent): ProbeView {
    if |v.queue| < RAW_CAPACITY then
      v.(queue := v.queue + [e], eventsTotal := v.eventsTotal + 1, lastEventUs := e.timestampNs / 1000)
    else v.(eventsLost := v.eventsLost + 1, cumulativeLost := v.cumulativeLost + 1)
  }

  class ProbeTask {
    const probeId: ProbeId
    var queue: seq<RawEvent>  // the raw event channel
    var eventsTotal: nat
    var eventsLost: nat
    var lastEventUs: nat
    var cumulativeLost: nat

    constructor (probeId: ProbeId)
      ensures this.probeId == probeId && View() == ProbeView([], 0, 0, 0, 0)
    {
      this.probeId := probeId;
      queue := [];
      eventsTotal, eventsLost, lastEventUs, cumulativeLost := 0, 0, 0, 0;
    }

    function View(): ProbeView
      reads this
    {
      ProbeView(queue, eventsTotal, eventsLost, lastEventUs, cumulativeLost)
    }

    method Publish(event: RawEvent)
      modifies this
      ensures View() == Sending(old(View()), event)
    {
      if |queue| < RAW_CAPACITY {
        queue := queue + [event];
        eventsTotal := eventsTotal + 1;
        lastEventUs := event.timestampNs / 1000;
      } else {
        eventsLost := eventsLost + 1;
        cumulativeLost := cumulativeLost + 1;
      }
    }

    /** Draining the ring buffer with nobody else at the queue: every decodable event is sent. */
    method Drain(items: seq<Item>)
      modifies this
      ensures View() == SendingAll(old(View()), Decoded(probeId, items))
    {
      for i := 0 to |items|
        invariant View() == SendingAll(old(View()), Decoded(probeId, items[..i]))
      {
        SendingOneMore(old(View()), probeId, items, i);
        var payload := FromBytes(probeId, items[i].bytes);
        if payload.Some? {
          var event := RawEvent(probeId, items[i].nowNs, payload.value);
          Publish(event);
        }
      }
      assert items[..|items|] == items;
    }
  }

  function SendingAll(v: ProbeView, events: seq<RawEvent>): ProbeView {
    if events == [] then v else Sending(SendingAll(v, events[..|events| - 1]), events[|events| - 1])
  }

  lemma SendingOneMore(v: ProbeView, probe: ProbeId, items: seq<Item>, i: nat)
    requires i < |items|
    ensures var payload := FromBytes(probe, items[i].bytes); var before := SendingAll(v, Decoded(probe, items[..i]));
      SendingAll(v, Decoded(probe, items[..i + 1]))
      == if payload.None? then before else Sending(before, RawEvent(probe, items[i].nowNs, payload.value))
  {
    var payload, sent := FromBytes(probe, items[i].bytes), Decoded(probe, items[..i]);
    assert items[..i + 1][..i] == items[..i];
    if payload.None? {
      assert Decoded(probe, items[..i + 1]) == sent;
    } else {
      var event := RawEvent(probe, items[i].nowNs, payload.value);
      assert Decoded(probe, items[..i + 1]) == sent + [event];
      assert (sent + [event])[..|sent|] == sent;
    }
  }

  /** Of events sent in a row, as many as fit are queued, in order, and exactly the rest is counted as lost. */
  lemma {:induction false} SendingAllExact(v: ProbeView, events: seq<RawEvent>)
    requires |v.queue| <= RAW_CAPACITY
    ensures var w := SendingAll(v, events); var fit := Min(RAW_CAPACITY - |v.queue|, |events|);
      && w.queue == v.queue + events[..fit]
      && w.eventsTotal == v.eventsTotal + fit
      && w.eventsLost == v.eventsLost + |events| - fit
      && w.cumulativeLost == v.cumulativeLost + |events| - fit
      && w.lastEventUs == if fit == 0 then v.lastEventUs else events[fit - 1].timestampNs / 1000
  {
    if events == [] {
    } else {
      var n := |events| - 1;
      SendingAllExact(v, events[..n]);
      var fit := Min(RAW_CAPACITY - |v.queue|, |events|);
      if fit == n + 1 {
        assert events[..fit] == events[..n][..n] + [events[n]];
      } else {
        assert events[..fit] == events[..n][..fit];
      }
    }
  }

  function ProbeViewOf(s: State, i: nat): ProbeView
    requires i < |s.probes|
  {
    var p := s.probes[i];
    ProbeView(s.rawQueue, p.eventsTotal, p.eventsLost, p.lastEventUs, s.cumulativeLost)
  }

  /** A probe's three actions in a row have the effect of ProbeTask.Publish, and leave the other probes alone. */
  lemma PublishUninterrupted(s: State, i: nat, e: RawEvent)
    requires i < |s.probes| && s.probes[i].phase.Ready?
    ensures var t := AdvanceProbe(AdvanceProbe(OfferEvent(s, i, e), i), i);
      && |t.probes| == |s.probes| && t.probes == s.probes[i := t.probes[i]] && t.probes[i].phase.Ready?
      && ProbeViewOf(t, i) == Sending(ProbeViewOf(s, i), e)
  {
    var t1 := OfferEvent(s, i, e);
    var t2 := AdvanceProbe(t1, i);
    assert t2.probes == s.probes[i := t2.probes[i]];
    assert AdvanceProbe(t2, i).probes == s.probes[i := AdvanceProbe(t2, i).probes[i]];
  }

  // ---------- Consumer ----------

  /** The two queues of the consumer, and the insertions handed to the runtime. */
  datatype ConsumerView = ConsumerView(rx: seq<RawEvent>, tx: seq<RawEvent>, spawned: seq<RawEvent>)

  /** Handling one event: its insertion is spawned, and it is forwarded or dropped. */
  function Handled(v: ConsumerView): ConsumerView
    requires v.rx != []
  {
    ConsumerView(v.rx[1..], Offered(v.tx, AGG_CAPACITY, v.rx[0]), v.spawned + [v.rx[0]])
  }

  class RingbufConsumer {
    var rx: seq<RawEvent>
    var aggregatorTx: seq<RawEvent>
    var spawned: seq<RawEvent>  // insertions handed to the runtime

    constructor ()
      ensures rx == [] && aggregatorTx == [] && spawned == []
    {
      rx, aggregatorTx, spawned := [], [], [];
    }

    function View(): ConsumerView
      reads this
    {
      ConsumerView(rx, aggregatorTx, spawned)
    }

    method HandleOne()
      requires rx != []
      modifies this
      ensures View() == Handled(old(View()))
    {
      var event := rx[0];
      rx := rx[1..];
      spawned := spawned + [event];
      if |aggregatorTx| < AGG_CAPACITY {
        aggregatorTx := aggregatorTx + [event];
      }
    }

    /** Emptying the raw queue with nobody else at either queue: the first events fit, the others are dropped; the
        database is offered all of them. */
    method DrainAll()
      requires |aggregatorTx| <= AGG_CAPACITY
      modifies this
      ensures rx == [] && spawned == old(spawned) + old(rx)
      ensures aggregatorTx == old(aggregatorTx) + old(rx)[..Min(AGG_CAPACITY - |old(aggregatorTx)|, |old(rx)|)]
    {
      ghost var taken := 0;
      ghost var room := AGG_CAPACITY - |aggregatorTx|;
      while rx != []
        invariant 0 <= taken <= |old(rx)| && rx == old(rx)[taken..]
        invariant spawned == old(spawned) + old(rx)[..taken]
        invariant aggregatorTx == old(aggregatorTx) + old(rx)[..Min(room, taken)]
        decreases |rx|
      {
        ghost var before := View();
        HandleOne();
        assert View() == Handled(before);
        taken := taken + 1;
      }
    }
  }

  function ConsumerViewOf(s: State): ConsumerView {
    ConsumerView(s.rawQueue, s.aggQueue, if s.database.Some? then s.database.value.insertTasks else [])
  }

  /** The consumer's two actions in a row have the effect of RingbufConsumer.HandleOne; without a database nothing is
      spawned. */
  lemma ForwardUninterrupted(s: State)
    requires s.consumer.None? && s.rawQueue != []
    ensures var t := AdvanceConsumer(AdvanceConsumer(s)); var v := Handled(ConsumerViewOf(s));
      && t.consumer.None? && t.database.Some? == s.database.Some?
      && ConsumerViewOf(t) == if s.database.Some? then v else v.(spawned := [])
  {
  }

  // ---------- Aggregator ----------

  /** The aggregator takes an event whenever it is between ticks and one is waiting: the oldest, to the end of the window. */
  lemma ReceiveExactly(s: State)
    ensures var t := ReceiveEvent(s);
      && t.aggQueue == (if s.tick.Collecting? && |s.aggQueue| > 0 then s.aggQueue[1..] else s.aggQueue)
      && t.window == s.window + (if s.tick.Collecting? && |s.aggQueue| > 0 then [s.aggQueue[0]] else [])
  {
  }

  function Untagged(queue: seq<Tagged>): seq<StateSnapshot> {
    seq(|queue|, i requires 0 <= i < |queue| => queue[i].snapshot)
  }

  function TickViewOf(s: State): TickView {
    TickView(s.filter, s.window, s.cumulativeLost, s.snapshotTimestampUs, s.shared, Untagged(s.snapshotQueue),
             if s.database.Some? then Some(s.database.value.snapshotQueue) else None)
  }

  lemma UntaggedOffered(queue: seq<Tagged>, t: Tagged)
    ensures Untagged(Offered(queue, SNAPSHOT_CAPACITY, t)) == Offered(Untagged(queue), SNAPSHOT_CAPACITY, t.snapshot)
  {
    assert Untagged(queue + [t]) == Untagged(queue) + [t.snapshot];
  }

  /** The aggregator's five tick actions in a row have the effect of Aggregator.Tick. */
  lemma TickUninterrupted(s: State)
    requires s.tick.Collecting?
    ensures var t := AdvanceTick(AdvanceTick(AdvanceTick(AdvanceTick(AdvanceTick(s)))));
      t.tick.Collecting? && TickViewOf(t) == Ticked(TickViewOf(s), s.windowMs, ClockUs(s))
  {
    var t3 := AdvanceTick(AdvanceTick(AdvanceTick(s)));
    assert t3 == s.(snapshotTimestampUs := ClockUs(s), cumulativeLost := 0, tick := Swapped(ClockUs(s), s.cumulativeLost));
    var snapshot := SnapshotOf(Close(s.filter, s.window), ClockUs(s), s.windowMs, s.cumulativeLost);
    UntaggedOffered(s.snapshotQueue, Tagged(|s.log.built|, snapshot));
  }

  // ---------- Mapping engine and dispatcher ----------

  function ParamsOf(frames: seq<Frame>): seq<seq<MappedParam>> {
    seq(|frames|, i requires 0 <= i < |frames| => frames[i].params)
  }

  function MapperViewOf(s: State): MapperView {
    MapperView(Untagged(s.snapshotQueue), ParamsOf(s.frameQueue))
  }

  lemma ParamsOffered(frames: seq<Frame>, f: Frame)
    ensures ParamsOf(Offered(frames, FRAME_CAPACITY, f)) == Offered(ParamsOf(frames), FRAME_CAPACITY, f.params)
  {
    assert ParamsOf(frames + [f]) == ParamsOf(frames) + [f.params];
  }

  /** The mapper's actions for one snapshot in a row have the effect of MappingEngine.ProcessNext: two of them if the
      rules lock is poisoned, three otherwise. */
  lemma MapUninterrupted(math: MathLibrary, s: State)
    requires s.mapper.MapperIdle? && s.snapshotQueue != []
    ensures var t2 := AdvanceMapper(math, AdvanceMapper(math, s));
      var t := if s.rules.None? then t2 else AdvanceMapper(math, t2);
      t.mapper.MapperIdle? && MapperViewOf(t) == MappedOne(math, MapperViewOf(s), s.rules)
  {
    var t1 := AdvanceMapper(math, s);
    var head := s.snapshotQueue[0];
    assert t1 == s.(snapshotQueue := s.snapshotQueue[1..], mapper := MapperHolds(head));
    assert Untagged(s.snapshotQueue)[1..] == Untagged(s.snapshotQueue[1..]);
    if s.rules.Some? {
      var f := Frame(head.no, s.rules.value, MapParams(math, s.rules.value, head.snapshot.metrics));
      assert AdvanceMapper(math, t1) == t1.(mapper := MapperReady(f));
      ParamsOffered(s.frameQueue, f);
    }
  }

  /** What the dispatcher adds to the log for one frame. */
  function PacketOf(f: Frame, effect: Effect): seq<Dispatch> {
    match effect.packet
    case None => []
    case Some((bundle, targets)) => [Dispatch(f, bundle, targets)]
  }

  /** The dispatcher's actions for one frame in a row have the effect of OscDispatcher.Process: two of them if the frame
      is skipped, four otherwise. */
  lemma DispatchUninterrupted(s: State, encodes: bool)
    requires s.dispatcher.DispatcherIdle? && s.frameQueue != []
    ensures var f := s.frameQueue[0];
      var effect := DispatchEffect(f.params, s.backends, encodes, s.clockNs, ClockUs(s), s.snapshotTimestampUs);
      var t2 := AdvanceDispatcher(AdvanceDispatcher(s, encodes), encodes);
      var t := if effect.packet.None? then t2 else AdvanceDispatcher(AdvanceDispatcher(t2, encodes), encodes);
      && t.dispatcher.DispatcherIdle? && t.frameQueue == s.frameQueue[1..]
      && t.log.dispatched == s.log.dispatched + PacketOf(f, effect)
      && (effect.latencyUs.None? ==> t.log.samples == s.log.samples)
      && (effect.latencyUs.Some? ==>
            var sample := Sample(f.no, ClockUs(s), s.snapshotTimestampUs, Latest(s, f.no));
            t.log.samples == s.log.samples + [sample] && sample.nowUs - sample.startUs == effect.latencyUs.value)
  {
    var t1 := AdvanceDispatcher(s, encodes);
    var f := s.frameQueue[0];
    assert t1 == s.(frameQueue := s.frameQueue[1..], dispatcher := DispatcherHolds(f));
    if f.params != [] && s.backends.Some? && encodes {
      var t2 := AdvanceDispatcher(t1, encodes);
      assert t2.dispatcher == DispatcherSent(f.no) && t2.log.samples == s.log.samples;
      assert AdvanceDispatcher(t2, encodes) == t2.(dispatcher := DispatcherTimed(f.no, ClockUs(s)));
    }
  }
}
