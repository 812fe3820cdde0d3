/**
 * The telemetry channel over whole runs: Core 1 emits two records every fifth tick (core1/mod.rs), the
 * guest may push too (core0/abi.rs), `push_telemetry` drops the new packet when the 32 slots are taken
 * (telemetry.rs), and the radio task drains the front (core0/espnow.rs). The two pushes of a tick are steps
 * of their own, which pushes of the guest and the drain can fall between.
 */
module TelemetryChannel {
  import opened Bytes
  import opened Codec

  const CAPACITY := 32
  const DECIMATION := 5
  /** `MAX_TELEMETRY_DRAIN_PER_ITER`. */
  const DRAIN_LIMIT := 8
  /** The tick counter is a `u64`, the sequence numbers are `u32`. */
  const TICK_WRAP := 0x1_0000_0000_0000_0000
  const SEQ_WRAP := 0x1_0000_0000

  datatype Source = Core1 | Guest
  datatype Item = Item(source: Source, packet: Packet)

  /** One push, and whether there was room for it. */
  datatype Entry = Entry(item: Item, accepted: bool)

  /** Where Core 1 is: between ticks, or in one with its odometry record still to push. */
  datatype TickPc = BetweenTicks | OdometryDue(nowUs: u64, loopUs: u32, left: i16, right: i16)

  datatype Channel = Channel(
    queue: seq<Item>, core: TickPc, tickCount: u64, imuSeq: u32, odomSeq: u32,
    // History: ticks done, items sent, and every push in order.
    ticks: nat, sent: seq<Item>, log: seq<Entry>)

  function Boot(): Channel { Channel([], BetweenTicks, 0, 0, 0, 0, [], []) }

  datatype Event =
    | Tick(nowUs: u64, loopUs: u32, pitch: i32, roll: i32, left: i16, right: i16)
    | TickOdometry
    | GuestPush(packet: Packet)
    | Drain

  function Push(c: Channel, item: Item): Channel {
    if |c.queue| < CAPACITY then c.(queue := c.queue + [item], log := c.log + [Entry(item, true)])
    else c.(log := c.log + [Entry(item, false)])
  }

  function ImuItem(c: Channel, e: Event): Item
    requires e.Tick?
  {
    Item(Core1, ImuPacket(Imu(c.imuSeq, e.nowUs, e.loopUs, e.pitch, e.roll, 0, 0, 0)))
  }

  function OdometryItem(c: Channel): Item
    requires c.core.OdometryDue?
  {
    Item(Core1, OdometryPacket(Odometry(c.odomSeq, c.core.nowUs, c.core.loopUs, c.core.left, c.core.right)))
  }

  function EndTick(c: Channel): Channel {
    c.(core := BetweenTicks, tickCount := (c.tickCount + 1) % TICK_WRAP, ticks := c.ticks + 1)
  }

  /** A step of Core 1 that is not its next one changes nothing. */
  function Step(c: Channel, e: Event): Channel {
    match e
    case Tick(nowUs, loopUs, _, _, left, right) =>
      if c.core.OdometryDue? then c
      else if c.tickCount % DECIMATION == 0 then
        Push(c, ImuItem(c, e)).(imuSeq := (c.imuSeq + 1) % SEQ_WRAP, core := OdometryDue(nowUs, loopUs, left, right))
      else EndTick(c)
    case TickOdometry =>
      if c.core.OdometryDue? then EndTick(Push(c, OdometryItem(c)).(odomSeq := (c.odomSeq + 1) % SEQ_WRAP)) else c
    case GuestPush(packet) => Push(c, Item(Guest, packet))
    case Drain => if c.queue == [] then c else c.(queue := c.queue[1..], sent := c.sent + [c.queue[0]])
  }

  function After(es: seq<Event>, n: nat): Channel
    requires n <= |es|
  {
    if n == 0 then Boot() else Step(After(es, n - 1), es[n - 1])
  }

  // ── The tasks on the channel ──────────────────────────────────────────────

  /** The shared channel, Core 1's counters, and the history. */
  class TelemetryTasks {
    var queue: seq<Item>
    var tickCount: u64
    var imuSeq: u32
    var odomSeq: u32
    ghost var ticks: nat
    ghost var sent: seq<Item>
    ghost var log: seq<Entry>

    ghost function Value(): Channel
      reads this
    {
      Channel(queue, BetweenTicks, tickCount, imuSeq, odomSeq, ticks, sent, log)
    }

    constructor ()
      ensures Value() == Boot()
    {
      queue, tickCount, imuSeq, odomSeq := [], 0, 0, 0;
      ticks, sent, log := 0, [], [];
    }

    /** `push_telemetry`: `try_send`, which refuses the new packet when the slots are taken. */
    method PushTelemetry(item: Item) returns (ok: bool)
      modifies this
      ensures ok == (|old(queue)| < 32)
      ensures Value() == Push(old(Value()), item)
    {
      ok := |queue| < CAPACITY;
      if ok {
        queue := queue + [item];
      }
      log := log + [Entry(item, ok)];
    }

    /** The telemetry of one `realtime_task` tick, as its steps run without interruption. */
    method EmitTelemetry(nowUs: u64, loopUs: u32, pitch: i32, roll: i32, left: i16, right: i16)
      modifies this
      ensures Value() == Step(Step(old(Value()), Tick(nowUs, loopUs, pitch, roll, left, right)), TickOdometry)
    {
      if tickCount % DECIMATION == 0 {
        var imu := Imu(imuSeq, nowUs, loopUs, pitch, roll, 0, 0, 0);
        var _ := PushTelemetry(Item(Core1, ImuPacket(imu)));
        imuSeq := (imuSeq + 1) % SEQ_WRAP;
        var odom := Odometry(odomSeq, nowUs, loopUs, left, right);
        var _ := PushTelemetry(Item(Core1, OdometryPacket(odom)));
        odomSeq := (odomSeq + 1) % SEQ_WRAP;
      }
      tickCount := (tickCount + 1) % TICK_WRAP;
      ticks := ticks + 1;
    }

    /** What the radio task drains at the start of an iteration: eight packets at most. */
    method DrainIteration()
      modifies this
      ensures Value() == old(Value()).(
        queue := old(queue)[Lesser(8, |old(queue)|)..],
        sent := old(sent) + old(queue)[..Lesser(8, |old(queue)|)])
    {
      ghost var before, sentBefore := queue, sent;
      var k := 0;
      while k < DRAIN_LIMIT && queue != []
        invariant k <= DRAIN_LIMIT && k <= |before|
        invariant queue == before[k..] && sent == sentBefore + before[..k]
        invariant tickCount == old(tickCount) && imuSeq == old(imuSeq) && odomSeq == old(odomSeq)
        invariant ticks == old(ticks) && log == old(log)
        decreases DRAIN_LIMIT - k
      {
        DrainOne();
        k := k + 1;
      }
    }

    /** One `try_receive` of the radio task. */
    method DrainOne()
      modifies this
      ensures Value() == Step(old(Value()), Drain)
    {
      if queue != [] {
        sent := sent + [queue[0]];
        queue := queue[1..];
      }
    }
  }

  // ── Conservation ──────────────────────────────────────────────────────────

  /** The accepted items, in order. */
  function Accepted(log: seq<Entry>): seq<Item> {
    if log == [] then []
    else Accepted(log[..|log| - 1]) + if log[|log| - 1].accepted then [log[|log| - 1].item] else []
  }

  function Dropped(log: seq<Entry>): nat {
    if log == [] then 0 else Dropped(log[..|log| - 1]) + if log[|log| - 1].accepted then 0 else 1
  }

  lemma {:induction false} AcceptedOrDropped(log: seq<Entry>)
    ensures |log| == |Accepted(log)| + Dropped(log)
  {
    if log != [] {
      AcceptedOrDropped(log[..|log| - 1]);
    }
  }

  ghost predicate Conserves(c: Channel) { Accepted(c.log) == c.sent + c.queue && |c.queue| <= CAPACITY }

  lemma PushConserves(c: Channel, item: Item)
    requires Conserves(c)
    ensures Conserves(Push(c, item))
  {}

  lemma StepConserves(c: Channel, e: Event)
    requires Conserves(c)
    ensures Conserves(Step(c, e))
  {
    match e
    case Tick(_, _, _, _, _, _) => PushConserves(c, ImuItem(c, e));
    case TickOdometry => if c.core.OdometryDue? { PushConserves(c, OdometryItem(c)); }
    case GuestPush(packet) => PushConserves(c, Item(Guest, packet));
    case Drain =>
  }

  /**
   * In every run, with Core 1 and the guest as producers: what was accepted is what was sent followed by
   * what is queued, in order, and every push is sent, queued or dropped.
   */
  lemma {:induction false} Conservation(es: seq<Event>, n: nat)
    requires n <= |es|
    ensures Conserves(After(es, n))
    ensures |After(es, n).log| == |After(es, n).sent| + |After(es, n).queue| + Dropped(After(es, n).log)
  {
    if n > 0 {
      Conservation(es, n - 1);
      StepConserves(After(es, n - 1), es[n - 1]);
    }
    AcceptedOrDropped(After(es, n).log);
  }

  // ── Sequence numbers ──────────────────────────────────────────────────────

  datatype Kind = ImuKind | OdometryKind

  /** An emission of Core 1 of the given kind. */
  predicate IsEmission(item: Item, kind: Kind) { item.source == Core1 && item.packet.ImuPacket? == kind.ImuKind? }

  function SequenceOf(p: Packet): u32 { if p.ImuPacket? then p.imu.sequence else p.odom.sequence }

  function Emissions(log: seq<Entry>, kind: Kind): nat {
    if log == [] then 0
    else Emissions(log[..|log| - 1], kind) + if IsEmission(log[|log| - 1].item, kind) then 1 else 0
  }

  function Drops(log: seq<Entry>, kind: Kind): nat {
    if log == [] then 0
    else
      var e := log[|log| - 1];
      Drops(log[..|log| - 1], kind) + if IsEmission(e.item, kind) && !e.accepted then 1 else 0
  }

  /** An accepted emission, with the number of emissions of its kind dropped before it. */
  datatype Delivery = Delivery(item: Item, dropsBefore: nat)

  function Deliveries(log: seq<Entry>, kind: Kind): seq<Delivery> {
    if log == [] then []
    else
      var prefix, e := log[..|log| - 1], log[|log| - 1];
      Deliveries(prefix, kind)
        + if IsEmission(e.item, kind) && e.accepted then [Delivery(e.item, Drops(prefix, kind))] else []
  }

  /** The emissions of a kind among some items. */
  function OfKind(items: seq<Item>, kind: Kind): seq<Item> {
    if items == [] then []
    else
      OfKind(items[..|items| - 1], kind)
        + if IsEmission(items[|items| - 1], kind) then [items[|items| - 1]] else []
  }

  function ItemsOf(ds: seq<Delivery>): (items: seq<Item>)
    ensures |items| == |ds| && forall k :: 0 <= k < |ds| ==> items[k] == ds[k].item
  {
    seq(|ds|, k requires 0 <= k < |ds| => ds[k].item)
  }

  /** The deliveries are the accepted items of the kind. */
  lemma {:induction false} DeliveriesAreAccepted(log: seq<Entry>, kind: Kind)
    ensures ItemsOf(Deliveries(log, kind)) == OfKind(Accepted(log), kind)
  {
    if log != [] {
      var prefix, e := log[..|log| - 1], log[|log| - 1];
      DeliveriesAreAccepted(prefix, kind);
      var before := Deliveries(prefix, kind);
      if e.accepted {
        assert (Accepted(prefix) + [e.item])[..|Accepted(prefix)|] == Accepted(prefix);
        if IsEmission(e.item, kind) {
          var d := Delivery(e.item, Drops(prefix, kind));
          assert Deliveries(log, kind) == before + [d];
          assert ItemsOf(before + [d]) == ItemsOf(before) + [e.item];
        } else {
          assert Deliveries(log, kind) == before;
        }
      } else {
        assert Deliveries(log, kind) == before;
        assert Accepted(log) == Accepted(prefix);
      }
    }
  }

  /** Every emission carries the number of emissions of its kind before it, in 32 bits. */
  ghost predicate Numbered(log: seq<Entry>, kind: Kind) {
    log == [] ||
    (var prefix, e := log[..|log| - 1], log[|log| - 1];
     Numbered(prefix, kind)
     && (IsEmission(e.item, kind) ==> SequenceOf(e.item.packet) == Emissions(prefix, kind) % SEQ_WRAP))
  }

  lemma {:induction false} EmissionsSplit(log: seq<Entry>, kind: Kind)
    ensures Emissions(log, kind) == |Deliveries(log, kind)| + Drops(log, kind)
  {
    if log != [] {
      EmissionsSplit(log[..|log| - 1], kind);
    }
  }

  lemma {:induction false} NumberIsIndexPlusDrops(log: seq<Entry>, kind: Kind, k: nat)
    requires Numbered(log, kind) && k < |Deliveries(log, kind)|
    ensures
      var d := Deliveries(log, kind)[k];
      SequenceOf(d.item.packet) == (k + d.dropsBefore) % SEQ_WRAP
  {
    var prefix := log[..|log| - 1];
    if k < |Deliveries(prefix, kind)| {
      NumberIsIndexPlusDrops(prefix, kind, k);
    } else {
      EmissionsSplit(prefix, kind);
    }
  }

  // ── The counters ──────────────────────────────────────────────────────────

  predicate Emits(k: nat, wrap: nat)
    requires wrap > 0
  {
    k % wrap % DECIMATION == 0
  }

  /** How many of the first `k` ticks emit, with a counter that wraps at `wrap`. */
  function EmittingTicks(k: nat, wrap: nat): nat
    requires wrap > 0
  {
    if k == 0 then 0 else EmittingTicks(k - 1, wrap) + if Emits(k - 1, wrap) then 1 else 0
  }

  /** Every fifth of each lap of the counter, the first of the lap included. */
  function EveryFifthOfEachLap(k: nat, wrap: nat): nat
    requires wrap > 0
  {
    LapTicks(k / wrap, k % wrap, (wrap + 4) / 5)
  }

  function LapTicks(laps: nat, rest: nat, perLap: nat): nat { laps * perLap + (rest + 4) / 5 }

  lemma {:induction false} EmittingTicksClosedForm(k: nat, wrap: nat)
    requires wrap > 0
    ensures EmittingTicks(k, wrap) == EveryFifthOfEachLap(k, wrap)
  {
    if k == 0 {
      DivMod(0, wrap, 0, 0);
    } else {
      EmittingTicksClosedForm(k - 1, wrap);
      NextOfEachLap(k - 1, wrap);
    }
  }

  lemma NextOfEachLap(k: nat, wrap: nat)
    requires wrap > 0
    ensures EveryFifthOfEachLap(k + 1, wrap) == EveryFifthOfEachLap(k, wrap) + if Emits(k, wrap) then 1 else 0
  {
    NextDivMod(k, wrap);
    LapsAdvance(k / wrap, k % wrap, (k + 1) / wrap, (k + 1) % wrap, (wrap + 4) / 5, wrap);
  }

  lemma LapsAdvance(q: nat, r: nat, q': nat, r': nat, perLap: nat, wrap: nat)
    requires perLap == (wrap + 4) / 5 && r < wrap
    requires if r + 1 < wrap then q' == q && r' == r + 1 else q' == q + 1 && r' == 0
    ensures LapTicks(q', r', perLap) == LapTicks(q, r, perLap) + if r % 5 == 0 then 1 else 0
  {
    LapEnds(q, r, perLap, wrap);
  }

  lemma NextDivMod(k: nat, wrap: nat)
    requires wrap > 0
    ensures
      if k % wrap + 1 < wrap then (k + 1) / wrap == k / wrap && (k + 1) % wrap == k % wrap + 1
      else (k + 1) / wrap == k / wrap + 1 && (k + 1) % wrap == 0
  {
    var q, r := k / wrap, k % wrap;
    if r + 1 < wrap {
      DivMod(k + 1, wrap, q, r + 1);
    } else {
      MultipleStep(q, wrap);
      DivMod(k + 1, wrap, q + 1, 0);
    }
  }

  lemma MultipleStep(q: nat, wrap: nat)
    ensures (q + 1) * wrap == q * wrap + wrap
  {}

  lemma LapEnds(q: nat, r: nat, perLap: nat, wrap: nat)
    requires perLap == (wrap + 4) / 5 && r < wrap
    ensures LapTicks(q, r + 1, perLap) == LapTicks(q, r, perLap) + if r % 5 == 0 then 1 else 0
    ensures r + 1 == wrap ==> LapTicks(q + 1, 0, perLap) == LapTicks(q, r + 1, perLap)
  {}

  lemma DivMod(x: nat, wrap: nat, q: nat, r: nat)
    requires r < wrap && x == q * wrap + r
    ensures x / wrap == q && x % wrap == r
  {
    var d := q - x / wrap;
    assert d * wrap == x % wrap - r;
    MultipleGrows(d, wrap);
  }

  lemma MultipleGrows(d: int, wrap: nat)
    ensures d >= 1 ==> d * wrap >= wrap
    ensures d <= -1 ==> d * wrap <= -1 * wrap
  {}

  /**
   * The counters after `ticks` ticks and so many emissions of each kind; inside an emitting tick, between its
   * two pushes, the IMU side is one ahead.
   */
  predicate CountersMatch(c: Channel, imus: nat, odoms: nat) {
    && odoms == EmittingTicks(c.ticks, TICK_WRAP)
    && imus == odoms + (if c.core.OdometryDue? then 1 else 0)
    && c.imuSeq == imus % SEQ_WRAP && c.odomSeq == odoms % SEQ_WRAP && c.tickCount == c.ticks % TICK_WRAP
    && (c.core.OdometryDue? ==> c.tickCount % DECIMATION == 0)
  }

  ghost predicate Counts(c: Channel) {
    && Numbered(c.log, ImuKind) && Numbered(c.log, OdometryKind)
    && CountersMatch(c, Emissions(c.log, ImuKind), Emissions(c.log, OdometryKind))
  }

  lemma PushCounts(log: seq<Entry>, e: Entry, kind: Kind)
    requires Numbered(log, kind)
    requires IsEmission(e.item, kind) ==> SequenceOf(e.item.packet) == Emissions(log, kind) % SEQ_WRAP
    ensures Numbered(log + [e], kind)
    ensures Emissions(log + [e], kind) == Emissions(log, kind) + if IsEmission(e.item, kind) then 1 else 0
  {}

  lemma BothCount(log: seq<Entry>, e: Entry)
    requires Numbered(log, ImuKind) && Numbered(log, OdometryKind)
    requires forall kind :: IsEmission(e.item, kind) ==> SequenceOf(e.item.packet) == Emissions(log, kind) % SEQ_WRAP
    ensures Numbered(log + [e], ImuKind) && Numbered(log + [e], OdometryKind)
    ensures forall kind ::
      Emissions(log + [e], kind) == Emissions(log, kind) + if IsEmission(e.item, kind) then 1 else 0
  {
    PushCounts(log, e, ImuKind);
    PushCounts(log, e, OdometryKind);
  }

  lemma WrapOnce(x: nat, y: nat, wrap: nat)
    requires wrap > 0 && y == x % wrap
    ensures (y + 1) % wrap == (x + 1) % wrap
  {
    DivMod(x, wrap, x / wrap, x % wrap);
    if y + 1 < wrap {
      DivMod(x + 1, wrap, x / wrap, y + 1);
      DivMod(y + 1, wrap, 0, y + 1);
    } else {
      DivMod(x + 1, wrap, x / wrap + 1, 0);
      DivMod(y + 1, wrap, 1, 0);
    }
  }

  lemma FirstPushCounts(c: Channel, e: Event)
    requires Counts(c) && e.Tick? && c.core.BetweenTicks? && c.tickCount % DECIMATION == 0
    ensures Counts(Step(c, e))
  {
    WrapOnce(Emissions(c.log, ImuKind), c.imuSeq, SEQ_WRAP);
    BothCount(c.log, Entry(ImuItem(c, e), |c.queue| < CAPACITY));
  }

  lemma SilentTickCounts(c: Channel, e: Event)
    requires Counts(c) && e.Tick? && c.core.BetweenTicks? && c.tickCount % DECIMATION != 0
    ensures Counts(Step(c, e))
  {
    WrapOnce(c.ticks, c.tickCount, TICK_WRAP);
  }

  lemma TickCounts(c: Channel, e: Event)
    requires Counts(c) && e.Tick?
    ensures Counts(Step(c, e))
  {
    if c.core.BetweenTicks? {
      if c.tickCount % DECIMATION == 0 {
        FirstPushCounts(c, e);
      } else {
        SilentTickCounts(c, e);
      }
    }
  }

  /** The end of an emitting tick, in numbers. */
  lemma EmittingTickEnds(ticks: nat, tickCount: u64)
    requires tickCount == ticks % TICK_WRAP && tickCount % DECIMATION == 0
    ensures EmittingTicks(ticks + 1, TICK_WRAP) == EmittingTicks(ticks, TICK_WRAP) + 1
    ensures (tickCount + 1) % TICK_WRAP == (ticks + 1) % TICK_WRAP
  {
    WrapOnce(ticks, tickCount, TICK_WRAP);
  }

  lemma SecondPushMatches(c: Channel, d: Channel, imus: nat, odoms: nat)
    requires CountersMatch(c, imus, odoms) && c.core.OdometryDue? && d.core.BetweenTicks?
    requires d.ticks == c.ticks + 1 && d.tickCount == (c.tickCount + 1) % TICK_WRAP
    requires d.imuSeq == c.imuSeq && d.odomSeq == (c.odomSeq + 1) % SEQ_WRAP
    ensures CountersMatch(d, imus, odoms + 1)
  {
    EmittingTickEnds(c.ticks, c.tickCount);
    WrapOnce(odoms, c.odomSeq, SEQ_WRAP);
  }

  lemma OdometryCounts(c: Channel)
    requires Counts(c)
    ensures Counts(Step(c, TickOdometry))
  {
    if c.core.OdometryDue? {
      BothCount(c.log, Entry(OdometryItem(c), |c.queue| < CAPACITY));
      SecondPushMatches(c, Step(c, TickOdometry), Emissions(c.log, ImuKind), Emissions(c.log, OdometryKind));
    }
  }

  lemma StepCounts(c: Channel, e: Event)
    requires Counts(c)
    ensures Counts(Step(c, e))
  {
    match e
    case Tick(_, _, _, _, _, _) => TickCounts(c, e);
    case TickOdometry => OdometryCounts(c);
    case GuestPush(packet) => BothCount(c.log, Entry(Item(Guest, packet), |c.queue| < CAPACITY));
    case Drain =>
  }

  lemma BootCounts()
    ensures Counts(Boot())
  {}

  lemma {:induction false} RunCounts(es: seq<Event>, n: nat)
    requires n <= |es|
    ensures Counts(After(es, n))
  {
    BootCounts();
    if n > 0 {
      RunCounts(es, n - 1);
      StepCounts(After(es, n - 1), es[n - 1]);
    }
  }

  /**
   * After `k` ticks both sequence counters are the number of emitting ticks in 32 bits, the IMU one ahead
   * inside an emitting tick; until the tick counter wraps that is ceil(k / 5), and at the first tick after it
   * no longer is.
   */
  lemma CountersAreCeil(es: seq<Event>, n: nat)
    requires n <= |es|
    ensures
      var c := After(es, n);
      var emitting := EmittingTicks(c.ticks, TICK_WRAP);
      && c.odomSeq == emitting % SEQ_WRAP
      && c.imuSeq == (emitting + if c.core.OdometryDue? then 1 else 0) % SEQ_WRAP
      && (c.ticks <= TICK_WRAP ==> emitting == (c.ticks + 4) / 5)
      && (c.ticks == TICK_WRAP + 1 ==> emitting == (c.ticks + 4) / 5 + 1)
  {
    RunCounts(es, n);
    CeilUntilWrap(After(es, n).ticks, TICK_WRAP);
  }

  lemma FewLaps(laps: nat, rest: nat, perLap: nat)
    ensures laps == 0 ==> LapTicks(laps, rest, perLap) == (rest + 4) / 5
    ensures laps == 1 ==> LapTicks(laps, rest, perLap) == perLap + (rest + 4) / 5
    ensures laps == 2 ==> LapTicks(laps, rest, perLap) == 2 * perLap + (rest + 4) / 5
  {}

  /** The quotient and remainder of the first ticks, up to the one after the wrap. */
  lemma FirstLap(k: nat, wrap: nat)
    requires 1 < wrap && k <= wrap + 1
    ensures k < wrap ==> k / wrap == 0 && k % wrap == k
    ensures k >= wrap ==> k / wrap == 1 && k % wrap == k - wrap
  {
    if k < wrap {
      DivMod(k, wrap, 0, k);
    } else {
      DivMod(k, wrap, 1, k - wrap);
    }
  }

  lemma CeilUntilWrap(k: nat, wrap: nat)
    requires wrap % 5 == 1 && wrap > 1
    ensures k <= wrap ==> EmittingTicks(k, wrap) == (k + 4) / 5
    ensures k == wrap + 1 ==> EmittingTicks(k, wrap) == (k + 4) / 5 + 1
  {
    EmittingTicksClosedForm(k, wrap);
    if k <= wrap + 1 {
      FirstLap(k, wrap);
      FewLaps(k / wrap, k % wrap, (wrap + 4) / 5);
    }
  }

  /**
   * The Core 1 packets of a kind among `items` are numbered by their position among them plus the emissions
   * dropped before them, so the gaps a receiver sees are exactly the drops.
   */
  ghost predicate GapsAreDrops(items: seq<Item>, ds: seq<Delivery>, kind: Kind) {
    && ItemsOf(ds) == OfKind(items, kind)
    && (forall k :: 0 <= k < |ds| ==> NumberedAt(ds, k))
    && (forall k :: 0 <= k < |ds| - 1 ==> GapAt(ds, k))
  }

  ghost predicate NumberedAt(ds: seq<Delivery>, k: nat)
    requires k < |ds|
  {
    SequenceOf(ds[k].item.packet) == (k + ds[k].dropsBefore) % SEQ_WRAP
  }

  ghost predicate GapAt(ds: seq<Delivery>, k: nat)
    requires k + 1 < |ds|
  {
    (SequenceOf(ds[k + 1].item.packet) - SequenceOf(ds[k].item.packet) - 1) % SEQ_WRAP
      == (ds[k + 1].dropsBefore - ds[k].dropsBefore) % SEQ_WRAP
  }

  lemma GapFromNumbers(ds: seq<Delivery>, k: nat)
    requires k + 1 < |ds| && NumberedAt(ds, k) && NumberedAt(ds, k + 1)
    ensures GapAt(ds, k)
  {}

  lemma NumberedGaps(log: seq<Entry>, items: seq<Item>, kind: Kind)
    requires Numbered(log, kind) && Accepted(log) == items
    ensures GapsAreDrops(items, Deliveries(log, kind), kind)
  {
    var ds := Deliveries(log, kind);
    DeliveriesAreAccepted(log, kind);
    forall k | 0 <= k < |ds|
      ensures NumberedAt(ds, k)
    {
      NumberIsIndexPlusDrops(log, kind, k);
    }
    forall k | 0 <= k < |ds| - 1
      ensures GapAt(ds, k)
    {
      GapFromNumbers(ds, k);
    }
  }

  /** In every run, for either kind, of the packets sent and queued. */
  lemma ReceiverSeesDrops(es: seq<Event>, n: nat, kind: Kind)
    requires n <= |es|
    ensures GapsAreDrops(After(es, n).sent + After(es, n).queue, Deliveries(After(es, n).log, kind), kind)
  {
    Conservation(es, n);
    RunCounts(es, n);
    NumberedGaps(After(es, n).log, After(es, n).sent + After(es, n).queue, kind);
  }

  // ── What the records say ──────────────────────────────────────────────────

  type TickEvent = e: Event | e.Tick? witness Tick(0, 0, 0, 0, 0, 0)

  /** Core 1 by the events alone: the ticks ended, those that emitted, and whether the last still owes its odometry. */
  datatype Trace = Trace(done: nat, emitters: seq<TickEvent>, due: bool)

  function TraceStep(t: Trace, e: Event): Trace {
    match e
    case Tick(_, _, _, _, _, _) =>
      if t.due then t
      else if t.done % 0x1_0000_0000_0000_0000 % 5 == 0 then t.(emitters := t.emitters + [e], due := true)
      else t.(done := t.done + 1)
    case TickOdometry => if t.due then t.(done := t.done + 1, due := false) else t
    case GuestPush(_) => t
    case Drain => t
  }

  function Traced(es: seq<Event>, n: nat): Trace
    requires n <= |es|
  {
    if n == 0 then Trace(0, [], false) else TraceStep(Traced(es, n - 1), es[n - 1])
  }

  /** `item` is the IMU record of emission `k`, with the readings of `tick`. */
  predicate IsImuOf(item: Item, tick: TickEvent, k: nat) {
    && item.source == Core1 && item.packet.ImuPacket?
    && (var r := item.packet.imu;
        && r.sequence == k % 0x1_0000_0000 && r.timestampUs == tick.nowUs && r.loopTimeUs == tick.loopUs
        && r.pitch == tick.pitch && r.roll == tick.roll && r.yawRate == 0 && r.accelX == 0 && r.accelY == 0)
  }

  predicate IsOdometryOf(item: Item, tick: TickEvent, k: nat) {
    && item.source == Core1 && item.packet.OdometryPacket?
    && (var r := item.packet.odom;
        && r.sequence == k % 0x1_0000_0000 && r.timestampUs == tick.nowUs && r.loopTimeUs == tick.loopUs
        && r.leftSpeed == tick.left && r.rightSpeed == tick.right)
  }

  predicate IsRecordOf(item: Item, tick: TickEvent, k: nat, kind: Kind) {
    if kind.ImuKind? then IsImuOf(item, tick, k) else IsOdometryOf(item, tick, k)
  }

  /** The emissions of Core 1 of a kind, dropped or not. */
  function Records(log: seq<Entry>, kind: Kind): (rs: seq<Item>)
    ensures |rs| == Emissions(log, kind)
  {
    if log == [] then []
    else
      var item := log[|log| - 1].item;
      Records(log[..|log| - 1], kind) + if IsEmission(item, kind) then [item] else []
  }

  lemma PushRecords(log: seq<Entry>, e: Entry, kind: Kind)
    ensures Records(log + [e], kind) == Records(log, kind) + if IsEmission(e.item, kind) then [e.item] else []
  {
    assert (log + [e])[..|log|] == log;
  }

  /** Record `k` of the kind is that of emitting tick `k`, and there are no others. */
  ghost predicate RecordsTell(rs: seq<Item>, ticks: seq<TickEvent>, kind: Kind) {
    |rs| == |ticks| && forall k :: 0 <= k < |rs| ==> IsRecordOf(rs[k], ticks[k], k, kind)
  }

  lemma OneMoreTells(rs: seq<Item>, ticks: seq<TickEvent>, kind: Kind, item: Item, tick: TickEvent)
    requires RecordsTell(rs, ticks, kind) && IsRecordOf(item, tick, |rs|, kind)
    ensures RecordsTell(rs + [item], ticks + [tick], kind)
  {}

  /** The emitting ticks that have pushed a record of the kind. */
  function Pushed(t: Trace, kind: Kind): seq<TickEvent> {
    if kind.OdometryKind? && t.due && t.emitters != [] then t.emitters[..|t.emitters| - 1] else t.emitters
  }

  ghost predicate Tells(log: seq<Entry>, t: Trace) {
    && RecordsTell(Records(log, ImuKind), Pushed(t, ImuKind), ImuKind)
    && RecordsTell(Records(log, OdometryKind), Pushed(t, OdometryKind), OdometryKind)
  }

  /** The channel and the trace agree on where Core 1 is. */
  predicate SamePlace(c: Channel, t: Trace) {
    && c.ticks == t.done && c.core.OdometryDue? == t.due
    && (t.due ==>
          && t.emitters != []
          && (var tick := t.emitters[|t.emitters| - 1];
              c.core == OdometryDue(tick.nowUs, tick.loopUs, tick.left, tick.right)))
  }

  lemma ImuPushTells(c: Channel, t: Trace, e: TickEvent, log: seq<Entry>)
    requires Counts(c) && SamePlace(c, t) && Tells(c.log, t) && !t.due
    requires exists ok :: log == c.log + [Entry(ImuItem(c, e), ok)]
    ensures Tells(log, t.(emitters := t.emitters + [e], due := true))
  {
    var ok :| log == c.log + [Entry(ImuItem(c, e), ok)];
    PushRecords(c.log, Entry(ImuItem(c, e), ok), ImuKind);
    PushRecords(c.log, Entry(ImuItem(c, e), ok), OdometryKind);
    OneMoreTells(Records(c.log, ImuKind), t.emitters, ImuKind, ImuItem(c, e), e);
    assert (t.emitters + [e])[..|t.emitters|] == t.emitters;
  }

  lemma OdometryPushTells(c: Channel, t: Trace, log: seq<Entry>)
    requires Counts(c) && SamePlace(c, t) && Tells(c.log, t) && t.due
    requires exists ok :: log == c.log + [Entry(OdometryItem(c), ok)]
    ensures Tells(log, t.(done := t.done + 1, due := false))
  {
    var ok :| log == c.log + [Entry(OdometryItem(c), ok)];
    PushRecords(c.log, Entry(OdometryItem(c), ok), ImuKind);
    PushRecords(c.log, Entry(OdometryItem(c), ok), OdometryKind);
    var before, tick := Pushed(t, OdometryKind), t.emitters[|t.emitters| - 1];
    OneMoreTells(Records(c.log, OdometryKind), before, OdometryKind, OdometryItem(c), tick);
    assert before + [tick] == t.emitters;
  }

  lemma GuestPushTells(log: seq<Entry>, t: Trace, e: Entry)
    requires Tells(log, t) && e.item.source == Guest
    ensures Tells(log + [e], t)
  {
    PushRecords(log, e, ImuKind);
    PushRecords(log, e, OdometryKind);
  }

  lemma StepTells(c: Channel, t: Trace, e: Event)
    requires Counts(c) && SamePlace(c, t) && Tells(c.log, t)
    ensures SamePlace(Step(c, e), TraceStep(t, e)) && Tells(Step(c, e).log, TraceStep(t, e))
  {
    match e
    case Tick(_, _, _, _, _, _) =>
      if !t.due && c.tickCount % DECIMATION == 0 {
        assert Step(c, e).log == c.log + [Entry(ImuItem(c, e), |c.queue| < CAPACITY)];
        ImuPushTells(c, t, e, Step(c, e).log);
      }
    case TickOdometry =>
      if t.due {
        assert Step(c, e).log == c.log + [Entry(OdometryItem(c), |c.queue| < CAPACITY)];
        OdometryPushTells(c, t, Step(c, e).log);
      }
    case GuestPush(packet) => GuestPushTells(c.log, t, Entry(Item(Guest, packet), |c.queue| < CAPACITY));
    case Drain =>
  }

  /**
   * In every run record `k` of a kind carries the number `k`, the times and the readings of emitting tick
   * `k`; each emitting tick pushes both records, the last its odometry once it has ended.
   */
  lemma {:induction false} RecordsOfTicks(es: seq<Event>, n: nat)
    requires n <= |es|
    ensures Tells(After(es, n).log, Traced(es, n)) && SamePlace(After(es, n), Traced(es, n))
  {
    if n > 0 {
      RecordsOfTicks(es, n - 1);
      RunCounts(es, n - 1);
      StepTells(After(es, n - 1), Traced(es, n - 1), es[n - 1]);
    }
  }

  /** An accepted emission is the record numbered by its place among them plus the drops before it. */
  lemma {:induction false} DeliveryIsRecord(log: seq<Entry>, kind: Kind, k: nat)
    requires k < |Deliveries(log, kind)|
    ensures
      var d := Deliveries(log, kind)[k];
      k + d.dropsBefore < |Records(log, kind)| && d.item == Records(log, kind)[k + d.dropsBefore]
  {
    var prefix := log[..|log| - 1];
    if k < |Deliveries(prefix, kind)| {
      DeliveryIsRecord(prefix, kind, k);
    } else {
      EmissionsSplit(prefix, kind);
    }
  }

  /** What went out is what the ticks measured: packet `k` of a kind tells of the tick that many emissions on. */
  ghost predicate DeliveredTell(items: seq<Item>, ds: seq<Delivery>, ticks: seq<TickEvent>, kind: Kind) {
    && ItemsOf(ds) == OfKind(items, kind)
    && forall k :: 0 <= k < |ds| ==> DeliveredTells(ds, k, ticks, kind)
  }

  ghost predicate DeliveredTells(ds: seq<Delivery>, k: nat, ticks: seq<TickEvent>, kind: Kind)
    requires k < |ds|
  {
    var place := k + ds[k].dropsBefore;
    place < |ticks| && IsRecordOf(ds[k].item, ticks[place], place, kind)
  }

  lemma DeliveriesTell(log: seq<Entry>, items: seq<Item>, ticks: seq<TickEvent>, kind: Kind)
    requires Accepted(log) == items && RecordsTell(Records(log, kind), ticks, kind)
    ensures DeliveredTell(items, Deliveries(log, kind), ticks, kind)
  {
    var ds := Deliveries(log, kind);
    DeliveriesAreAccepted(log, kind);
    forall k | 0 <= k < |ds|
      ensures DeliveredTells(ds, k, ticks, kind)
    {
      DeliveryIsRecord(log, kind, k);
    }
  }

  /** In every run, for either kind, of the packets sent and queued. */
  lemma PacketsTellTicks(es: seq<Event>, n: nat, kind: Kind)
    requires n <= |es|
    ensures DeliveredTell(
      After(es, n).sent + After(es, n).queue, Deliveries(After(es, n).log, kind), Pushed(Traced(es, n), kind), kind)
  {
    Conservation(es, n);
    RecordsOfTicks(es, n);
    DeliveriesTell(After(es, n).log, After(es, n).sent + After(es, n).queue, Pushed(Traced(es, n), kind), kind);
  }

  /** The packets the guest offers, by the events and by the log. */
  function Offered(es: seq<Event>, n: nat): seq<Packet>
    requires n <= |es|
  {
    if n == 0 then [] else Offered(es, n - 1) + if es[n - 1].GuestPush? then [es[n - 1].packet] else []
  }

  function GuestPackets(log: seq<Entry>): seq<Packet> {
    if log == [] then []
    else
      var item := log[|log| - 1].item;
      GuestPackets(log[..|log| - 1]) + if item.source == Guest then [item.packet] else []
  }

  lemma PushGuestPackets(log: seq<Entry>, e: Entry)
    ensures GuestPackets(log + [e]) == GuestPackets(log) + if e.item.source == Guest then [e.item.packet] else []
  {
    assert (log + [e])[..|log|] == log;
  }

  lemma StepGuestPackets(c: Channel, e: Event)
    ensures GuestPackets(Step(c, e).log) == GuestPackets(c.log) + if e.GuestPush? then [e.packet] else []
  {
    var ok := |c.queue| < CAPACITY;
    match e
    case Tick(_, _, _, _, _, _) => PushGuestPackets(c.log, Entry(ImuItem(c, e), ok));
    case TickOdometry => if c.core.OdometryDue? { PushGuestPackets(c.log, Entry(OdometryItem(c), ok)); }
    case GuestPush(packet) => PushGuestPackets(c.log, Entry(Item(Guest, packet), ok));
    case Drain =>
  }

  lemma {:induction false} GuestPacketsAsOffered(es: seq<Event>, n: nat)
    requires n <= |es|
    ensures GuestPackets(After(es, n).log) == Offered(es, n)
  {
    if n > 0 {
      GuestPacketsAsOffered(es, n - 1);
      StepGuestPackets(After(es, n - 1), es[n - 1]);
    }
  }

  // ── How long the queue lasts ──────────────────────────────────────────────

  predicate FromCore1(e: Event) { e.Tick? || e.TickOdometry? }

  /** Core 1 alone: nothing is sent, and the queue fills up with all there is. */
  ghost predicate Undrained(c: Channel) {
    && c.sent == [] && |c.queue| == Lesser(CAPACITY, |c.log|)
    && |c.log| == Emissions(c.log, ImuKind) + Emissions(c.log, OdometryKind)
  }

  function Lesser(a: nat, b: nat): nat { if a <= b then a else b }

  lemma EmissionsOfPush(log: seq<Entry>, e: Entry, kind: Kind)
    ensures Emissions(log + [e], kind) == Emissions(log, kind) + if IsEmission(e.item, kind) then 1 else 0
  {}

  lemma PushUndrained(c: Channel, item: Item)
    requires Undrained(c) && item.source == Core1
    ensures Undrained(Push(c, item))
  {
    var e := Entry(item, |c.queue| < CAPACITY);
    EmissionsOfPush(c.log, e, ImuKind);
    EmissionsOfPush(c.log, e, OdometryKind);
  }

  lemma StepUndrained(c: Channel, e: Event)
    requires Undrained(c) && FromCore1(e)
    ensures Undrained(Step(c, e))
  {
    if e.Tick? {
      PushUndrained(c, ImuItem(c, e));
    } else if c.core.OdometryDue? {
      PushUndrained(c, OdometryItem(c));
    }
  }

  lemma {:induction false} RunUndrained(es: seq<Event>, n: nat)
    requires n <= |es| && forall i :: 0 <= i < n ==> FromCore1(es[i])
    ensures Undrained(After(es, n))
  {
    if n > 0 {
      RunUndrained(es, n - 1);
      StepUndrained(After(es, n - 1), es[n - 1]);
    }
  }

  /**
   * While nothing is drained and the guest is silent, the 32 slots last for exactly 80 ticks of 2 ms: two
   * records every fifth tick.
   */
  lemma QueueLasts(es: seq<Event>, n: nat)
    requires n <= |es| && forall i :: 0 <= i < n ==> FromCore1(es[i])
    requires After(es, n).core.BetweenTicks? && After(es, n).ticks <= TICK_WRAP
    ensures Dropped(After(es, n).log) == 0 <==> After(es, n).ticks <= 80
  {
    RunUndrained(es, n);
    Conservation(es, n);
    RunCounts(es, n);
    CountersAreCeil(es, n);
    SlotsAndTicks(|After(es, n).log|, Dropped(After(es, n).log), After(es, n).ticks);
  }

  lemma SlotsAndTicks(pushes: nat, dropped: nat, ticks: nat)
    requires pushes == 2 * ((ticks + 4) / 5) && pushes == Lesser(CAPACITY, pushes) + dropped
    ensures dropped == 0 <==> ticks <= 80
  {}

  /** How many of the first `n` events drain. */
  function Drains(es: seq<Event>, n: nat): nat
    requires n <= |es|
  {
    if n == 0 then 0 else Drains(es, n - 1) + if es[n - 1].Drain? then 1 else 0
  }

  lemma {:induction false} SentAtMost(es: seq<Event>, n: nat)
    requires n <= |es|
    ensures |After(es, n).sent| <= Drains(es, n)
  {
    if n > 0 {
      SentAtMost(es, n - 1);
    }
  }

  /** In every run, whatever the guest does: what neither the slots hold nor a drain takes is lost. */
  lemma LostAtLeast(es: seq<Event>, n: nat)
    requires n <= |es|
    ensures Dropped(After(es, n).log) + 32 + Drains(es, n) >= |After(es, n).log|
    ensures |After(es, n).log| >= 2 * EmittingTicks(After(es, n).ticks, TICK_WRAP)
  {
    Conservation(es, n);
    SentAtMost(es, n);
    RunCounts(es, n);
    KindsAtMost(After(es, n).log);
  }

  lemma {:induction false} KindsAtMost(log: seq<Entry>)
    ensures Emissions(log, ImuKind) + Emissions(log, OdometryKind) <= |log|
  {
    if log != [] {
      KindsAtMost(log[..|log| - 1]);
    }
  }

  // ── A torn tick ───────────────────────────────────────────────────────────

  /** `k` guest pushes since boot, all accepted. */
  ghost predicate Filled(c: Channel, k: nat) {
    && |c.queue| == k && c.core.BetweenTicks? && c.tickCount == 0
    && Drops(c.log, ImuKind) == 0 && Drops(c.log, OdometryKind) == 0
  }

  lemma DropsOfPush(log: seq<Entry>, e: Entry, kind: Kind)
    ensures Drops(log + [e], kind) == Drops(log, kind) + if IsEmission(e.item, kind) && !e.accepted then 1 else 0
  {}

  lemma FillStep(c: Channel, e: Event, k: nat)
    requires Filled(c, k) && k < CAPACITY && e.GuestPush?
    ensures Filled(Step(c, e), k + 1)
  {
    DropsOfPush(c.log, Entry(Item(Guest, e.packet), true), ImuKind);
    DropsOfPush(c.log, Entry(Item(Guest, e.packet), true), OdometryKind);
  }

  lemma {:induction false} GuestFills(es: seq<Event>, k: nat)
    requires k <= CAPACITY && k <= |es| && forall i :: 0 <= i < k ==> es[i].GuestPush?
    ensures Filled(After(es, k), k)
  {
    if k > 0 {
      GuestFills(es, k - 1);
      FillStep(After(es, k - 1), es[k - 1], k - 1);
    }
  }

  /**
   * A drain between the two pushes of a tick can tear it: with the queue full, the IMU record is dropped and
   * the odometry record of the same tick is not.
   */
  lemma TornTick(es: seq<Event>)
    requires |es| == CAPACITY + 3 && forall i :: 0 <= i < CAPACITY ==> es[i].GuestPush?
    requires es[CAPACITY].Tick? && es[CAPACITY + 1].Drain? && es[CAPACITY + 2].TickOdometry?
    ensures Drops(After(es, |es|).log, ImuKind) == 1 && Drops(After(es, |es|).log, OdometryKind) == 0
  {
    GuestFills(es, CAPACITY);
    var c := After(es, CAPACITY);
    var d := Step(c, es[CAPACITY]);
    assert After(es, CAPACITY + 1) == d;
    assert After(es, CAPACITY + 2) == Step(d, es[CAPACITY + 1]);
    var imu, odom := Entry(ImuItem(c, es[CAPACITY]), false), Entry(OdometryItem(d), true);
    assert After(es, |es|).log == c.log + [imu] + [odom];
    DropsOfPush(c.log, imu, ImuKind);
    DropsOfPush(c.log, imu, OdometryKind);
    DropsOfPush(c.log + [imu], odom, ImuKind);
    DropsOfPush(c.log + [imu], odom, OdometryKind);
  }
}
