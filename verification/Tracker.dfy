/** How many packets may be inside the hardware queue, judged from counters that are polled lazily. */
module Tracker {
  import opened Arithmetic

  const HW_QUEUE_SIZE: nat := 128
  const HW_QUEUE_SIZE_PAD: nat := 20
  const BE_QUEUE_SIZE: nat := HW_QUEUE_SIZE - 20
  const TSN_QUEUE_SIZE: nat := HW_QUEUE_SIZE - 2

  // ----- extending the 32-bit hardware counters -----

  /** The five statistics of the device: as registers they are 32 bits wide, as sums 64 bits. */
  datatype Stats = Stats(tx: nat, txDrop: nat, normalTimeout: nat, overflowPopped: nat, overflowTimeout: nat)
  {
    predicate Below(bound: nat) {
      && tx < bound && txDrop < bound && normalTimeout < bound
      && overflowPopped < bound && overflowTimeout < bound
    }

    predicate AtMost(later: Stats) {
      && tx <= later.tx && txDrop <= later.txDrop && normalTimeout <= later.normalTimeout
      && overflowPopped <= later.overflowPopped && overflowTimeout <= later.overflowTimeout
    }

    /** Each statistic advances by less than 2^32. */
    predicate Near(later: Stats) {
      && later.tx - tx < U32 && later.txDrop - txDrop < U32
      && later.normalTimeout - normalTimeout < U32
      && later.overflowPopped - overflowPopped < U32
      && later.overflowTimeout - overflowTimeout < U32
    }

    function Sum(): nat {
      (tx + txDrop + normalTimeout + overflowPopped + overflowTimeout) % U64
    }

    /** The same without a width. */
    function Count(): nat { tx + txDrop + normalTimeout + overflowPopped + overflowTimeout }
  }

  /** Extends a 64-bit sum by a free-running 32-bit counter. */
  function AddU32Counter(sum: nat, value: nat): nat {
    (sum + (value - sum % U32) % U32) % U64
  }

  /** Adds a 32-bit counter that reading clears. */
  function AddCleared(sum: nat, value: nat): nat {
    (sum + value) % U64
  }

  function Absorb(sums: Stats, regs: Stats): Stats {
    Stats(AddCleared(sums.tx, regs.tx),
          AddCleared(sums.txDrop, regs.txDrop),
          AddU32Counter(sums.normalTimeout, regs.normalTimeout),
          AddU32Counter(sums.overflowPopped, regs.overflowPopped),
          AddU32Counter(sums.overflowTimeout, regs.overflowTimeout))
  }

  /** What the registers show when the true totals are `now` and were `before` at the last read. */
  function Registers(before: Stats, now: Stats): Stats
    requires before.AtMost(now)
  {
    Stats((now.tx - before.tx) % U32, (now.txDrop - before.txDrop) % U32,
          now.normalTimeout % U32, now.overflowPopped % U32, now.overflowTimeout % U32)
  }

  /** A read brings exact sums to the new exact totals exactly when no statistic advanced by 2^32. */
  lemma ReadIsExact(before: Stats, now: Stats)
    requires before.AtMost(now) && now.Below(U64)
    ensures Absorb(before, Registers(before, now)) == now <==> before.Near(now)
  {
    FreeRunningExact(before.normalTimeout, now.normalTimeout);
    FreeRunningExact(before.overflowPopped, now.overflowPopped);
    FreeRunningExact(before.overflowTimeout, now.overflowTimeout);
    ClearedExact(before.tx, now.tx);
    ClearedExact(before.txDrop, now.txDrop);
  }

  lemma FreeRunningExact(before: nat, now: nat)
    requires before <= now < U64
    ensures AddU32Counter(before, now % U32) == now <==> now - before < U32
  {
    var diff := (now % U32 - before % U32) % U32;
    assert diff == (now - before) % U32;
  }

  lemma ClearedExact(before: nat, now: nat)
    requires before <= now < U64
    ensures AddCleared(before, (now - before) % U32) == now <==> now - before < U32
  {
  }

  /** The sums after reading at each of the given totals in turn. */
  function ReadAll(before: Stats, sums: Stats, totals: seq<Stats>): seq<Stats>
    requires Growing(before, totals)
    decreases |totals|
  {
    if totals == [] then []
    else
      var next := Absorb(sums, Registers(before, totals[0]));
      [next] + ReadAll(totals[0], next, totals[1..])
  }

  predicate Growing(before: Stats, totals: seq<Stats>)
    decreases |totals|
  {
    totals == [] || (before.AtMost(totals[0]) && totals[0].Below(U64) && Growing(totals[0], totals[1..]))
  }

  predicate Dense(before: Stats, totals: seq<Stats>)
    decreases |totals|
  {
    totals == [] || (before.Near(totals[0]) && Dense(totals[0], totals[1..]))
  }

  /** Over any history, the sums are right after every read exactly when the reads come often enough. */
  lemma {:induction false} SumsExactIffDense(before: Stats, totals: seq<Stats>)
    requires Growing(before, totals)
    ensures ReadAll(before, before, totals) == totals <==> Dense(before, totals)
    decreases |totals|
  {
    if totals != [] {
      ReadIsExact(before, totals[0]);
      var next := Absorb(before, Registers(before, totals[0]));
      if next == totals[0] {
        SumsExactIffDense(totals[0], totals[1..]);
        assert totals == [totals[0]] + totals[1..];
      }
    }
  }

  // ----- the tracker -----

  /** The tracker as a value. */
  datatype Track = Track(pending: nat, last: nat) {
    function Append(): Track {
      if pending >= HW_QUEUE_SIZE then this else this.(pending := pending + 1)
    }

    predicate Polls() { pending >= HW_QUEUE_SIZE - HW_QUEUE_SIZE_PAD }

    function Update(count: nat): Track {
      if !Polls() then this
      else Track(pending - Min((count - last) % U64, pending), count)
    }
  }

  /** The driver's sums, as fields of the network device. */
  class TxCounters {
    var totalTx: nat
    var totalTxDrop: nat
    var lastNormalTimeout: nat
    var lastOverflowPopped: nat
    var lastOverflowTimeout: nat

    constructor ()
      ensures View() == Stats(0, 0, 0, 0, 0)
    {
      totalTx, totalTxDrop := 0, 0;
      lastNormalTimeout, lastOverflowPopped, lastOverflowTimeout := 0, 0, 0;
    }

    function View(): Stats
      reads this
    {
      Stats(totalTx, totalTxDrop, lastNormalTimeout, lastOverflowPopped, lastOverflowTimeout)
    }

    method GetTxPackets(regs: Stats) returns (count: nat)
      modifies `totalTx
      ensures totalTx == AddCleared(old(totalTx), regs.tx) && count == totalTx
    {
      totalTx := (totalTx + regs.tx) % U64;
      count := totalTx;
    }

    method GetTotalTxDropPackets(regs: Stats) returns (count: nat)
      modifies this
      ensures View() == Absorb(old(View()), regs).(tx := old(totalTx))
      ensures count == View().(tx := 0).Sum()
    {
      totalTxDrop := (totalTxDrop + regs.txDrop) % U64;
      lastNormalTimeout := AddU32Counter(lastNormalTimeout, regs.normalTimeout);
      lastOverflowPopped := AddU32Counter(lastOverflowPopped, regs.overflowPopped);
      lastOverflowTimeout := AddU32Counter(lastOverflowTimeout, regs.overflowTimeout);
      count := (totalTxDrop + lastNormalTimeout + lastOverflowPopped + lastOverflowTimeout) % U64;
    }
  }

  class BufferTracker {
    var pendingPackets: nat
    var lastTxCount: nat

    constructor ()
      ensures View() == Track(0, 0)
    {
      pendingPackets, lastTxCount := 0, 0;
    }

    function View(): Track
      reads this
    {
      Track(pendingPackets, lastTxCount)
    }

    method Append() returns (ok: bool)
      modifies this
      ensures View() == old(View()).Append()
      ensures ok <==> old(pendingPackets) < HW_QUEUE_SIZE
    {
      if pendingPackets >= HW_QUEUE_SIZE {
        return false;
      }
      pendingPackets := pendingPackets + 1;
      return true;
    }

    /** Reads the counters, unless the queue is far from full. */
    method Update(counters: TxCounters, regs: Stats)
      modifies this, counters
      ensures old(View()).Polls() ==>
        && counters.View() == Absorb(old(counters.View()), regs)
        && View() == old(View()).Update(counters.View().Sum())
      ensures !old(View()).Polls() ==>
        counters.View() == old(counters.View()) && View() == old(View())
    {
      if pendingPackets < HW_QUEUE_SIZE - HW_QUEUE_SIZE_PAD {
        return;
      }
      var sent := counters.GetTxPackets(regs);
      var dropped := counters.GetTotalTxDropPackets(regs);
      var txCount := (sent + dropped) % U64;
      ModAbsorb(sent, counters.totalTxDrop + counters.lastNormalTimeout
                      + counters.lastOverflowPopped + counters.lastOverflowTimeout, U64);
      var popCount := (txCount - lastTxCount) % U64;
      lastTxCount := txCount;
      popCount := Min(popCount, pendingPackets);
      pendingPackets := pendingPackets - popCount;
    }
  }

  // ----- whole runs -----

  /** The driver appends a packet, or comes to the point where it may poll while the hardware's count
      of finished packets is `count`. */
  datatype Event = Appended | MayPoll(count: nat)

  /** The hardware's count only grows. */
  predicate Monotone(events: seq<Event>, count: nat) {
    count < U64 &&
    (events == [] ||
     match events[0]
     case Appended => Monotone(events[1..], count)
     case MayPoll(c) => count <= c && Monotone(events[1..], c))
  }

  /** The tracker, the number of packets accepted so far, and the hardware's count so far. */
  datatype World = World(track: Track, accepted: nat, finished: nat) {
    function Step(event: Event): World {
      match event
      case Appended =>
        World(track.Append(), accepted + (if track.pending < HW_QUEUE_SIZE then 1 else 0), finished)
      case MayPoll(c) =>
        World(track.Update(c), accepted, c)
    }

    ghost predicate Safe() {
      && track.pending <= HW_QUEUE_SIZE
      && track.last <= finished < U64
      && accepted - track.last <= track.pending
    }

    /** The packets that the hardware still holds are all accounted for. */
    predicate Exact() {
      track.last <= accepted && track.pending == accepted - track.last
    }
  }

  function Run(world: World, events: seq<Event>): World
    decreases |events|
  {
    if events == [] then world else Run(world.Step(events[0]), events[1..])
  }

  /** The hardware never reports more packets than the driver has given it. */
  predicate Honest(world: World, events: seq<Event>)
    decreases |events|
  {
    events == [] ||
    ((events[0].MayPoll? ==> events[0].count <= world.accepted) && Honest(world.Step(events[0]), events[1..]))
  }

  /** At every poll the hardware has finished at most the packets that were pending. */
  predicate NeverTruncates(world: World, events: seq<Event>)
    decreases |events|
  {
    events == [] ||
    (&& (events[0].MayPoll? && world.track.Polls() ==>
           (events[0].count - world.track.last) % U64 <= world.track.pending)
     && NeverTruncates(world.Step(events[0]), events[1..]))
  }

  /** Over every run the tracker never underestimates: at most 128 packets are pending, and at least as
      many as the hardware still holds. So the hardware never holds more than its queue. */
  lemma {:induction false} TrackerIsSafe(world: World, events: seq<Event>)
    requires world.Safe() && Monotone(events, world.finished)
    ensures var w := Run(world, events);
      && w.Safe()
      && w.accepted - w.finished <= w.track.pending <= HW_QUEUE_SIZE
    decreases |events|
  {
    if events != [] {
      TrackerIsSafe(world.Step(events[0]), events[1..]);
    }
  }

  /** While the hardware reports no more packets than it was given, the tracker is exact, and taking the
      minimum never matters. */
  lemma {:induction false} TrackerIsExact(world: World, events: seq<Event>)
    requires world.Safe() && world.Exact() && Monotone(events, world.finished) && Honest(world, events)
    ensures Run(world, events).Exact() && NeverTruncates(world, events)
    decreases |events|
  {
    if events != [] {
      TrackerIsExact(world.Step(events[0]), events[1..]);
    }
  }

  // ----- whole runs, from the registers up -----

  /** The tracker together with the sums it polls: `seen` are the true totals at the last poll. */
  datatype Polling = Polling(track: Track, sums: Stats, seen: Stats, accepted: nat)
  {
    /** Only an actual poll reads the registers. */
    function Step(event: Occasion): Polling
      requires event.Arrived? ==> seen.AtMost(event.totals)
    {
      match event
      case Taken => Polling(track.Append(), sums, seen, accepted + (if track.pending < HW_QUEUE_SIZE then 1 else 0))
      case Arrived(totals) =>
        if !track.Polls() then this
        else
          var next := Absorb(sums, Registers(seen, totals));
          Polling(track.Update(next.Sum()), next, totals, accepted)
    }

    /** The sums are the totals at the last poll, and what the hardware has not reported since is pending. */
    ghost predicate Accounted() {
      && sums == seen && seen.Below(U64) && seen.Count() < U64 && track.last == seen.Count()
      && accepted - seen.Count() <= track.pending <= HW_QUEUE_SIZE
    }

    /** Nothing but that is pending. */
    predicate Precise() { track.pending == accepted - seen.Count() }
  }

  /** A packet is accepted, or a frame arrives while the true totals are `totals`. */
  datatype Occasion = Taken | Arrived(totals: Stats)

  /** The true totals only grow. */
  predicate Advancing(events: seq<Occasion>, now: Stats) {
    events == [] ||
    match events[0]
    case Taken => Advancing(events[1..], now)
    case Arrived(totals) => now.AtMost(totals) && totals.Count() < U64 && Advancing(events[1..], totals)
  }

  function Poll(p: Polling, events: seq<Occasion>, now: Stats): Polling
    requires p.seen.AtMost(now) && Advancing(events, now)
    decreases |events|
  {
    if events == [] then p
    else Poll(p.Step(events[0]), events[1..], if events[0].Arrived? then events[0].totals else now)
  }

  /** Between two polls each statistic advances by less than 2^32. */
  predicate PolledInTime(p: Polling, events: seq<Occasion>, now: Stats)
    requires p.seen.AtMost(now) && Advancing(events, now)
    decreases |events|
  {
    events == [] ||
    (&& (events[0].Arrived? && p.track.Polls() ==> p.seen.Near(events[0].totals))
     && PolledInTime(p.Step(events[0]), events[1..], if events[0].Arrived? then events[0].totals else now))
  }

  /** The hardware never finishes more packets than it was given. */
  predicate Truthful(p: Polling, events: seq<Occasion>, now: Stats)
    requires p.seen.AtMost(now) && Advancing(events, now)
    decreases |events|
  {
    events == [] ||
    (&& (events[0].Arrived? ==> events[0].totals.Count() <= p.accepted)
     && Truthful(p.Step(events[0]), events[1..], if events[0].Arrived? then events[0].totals else now))
  }

  lemma PollIsExact(p: Polling, totals: Stats)
    requires p.sums == p.seen && p.seen.AtMost(totals) && p.seen.Near(totals) && totals.Count() < U64
    ensures Absorb(p.sums, Registers(p.seen, totals)) == totals && totals.Sum() == totals.Count()
    ensures p.seen.Count() <= totals.Count()
  {
    ReadIsExact(p.seen, totals);
  }

  /** One occasion keeps the account. */
  lemma StepIsExact(p: Polling, event: Occasion)
    requires p.Accounted()
    requires event.Arrived? ==> p.seen.AtMost(event.totals) && event.totals.Count() < U64
    requires event.Arrived? && p.track.Polls() ==> p.seen.Near(event.totals)
    ensures p.Step(event).Accounted()
    ensures p.Precise() && (event.Arrived? ==> event.totals.Count() <= p.accepted) ==> p.Step(event).Precise()
  {
    if event.Arrived? && p.track.Polls() {
      var totals := event.totals;
      PollIsExact(p, totals);
      assert p.Step(event) == Polling(p.track.Update(totals.Count()), totals, totals, p.accepted);
      hide Absorb, Registers, Stats.Sum, Stats.Count, Stats.Near, Stats.AtMost, Track.Update;
      BelowCount(totals);
      UpdateCounts(p.track, totals.Count(), p.accepted);
    }
  }

  lemma BelowCount(totals: Stats)
    requires totals.Count() < U64
    ensures totals.Below(U64)
  {
  }

  /** A poll of the true count. */
  lemma UpdateCounts(track: Track, count: nat, accepted: int)
    requires track.Polls() && track.last <= count < U64 && accepted - track.last <= track.pending <= HW_QUEUE_SIZE
    ensures var next := track.Update(count);
      && next.last == count && accepted - count <= next.pending <= HW_QUEUE_SIZE
      && (track.pending == accepted - track.last && count <= accepted ==> next.pending == accepted - count)
  {
    assert (count - track.last) % U64 == count - track.last;
  }

  lemma StepSeen(p: Polling, event: Occasion)
    requires event.Arrived? ==> p.seen.AtMost(event.totals)
    ensures p.Step(event).seen == if event.Arrived? && p.track.Polls() then event.totals else p.seen
  {
  }

  /** Over every run in which polls come in time, from 32-bit registers to the number of pending packets: the
      sums are the true totals, no more than 128 packets are pending and at least as many as the hardware
      still holds; and exactly as many as it held at the last poll, if it never reports more than it was given. */
  lemma {:induction false} PolledTrackerIsExact(p: Polling, events: seq<Occasion>, now: Stats)
    requires p.Accounted() && p.seen.AtMost(now) && Advancing(events, now) && PolledInTime(p, events, now)
    ensures Poll(p, events, now).Accounted()
    ensures p.Precise() && Truthful(p, events, now) ==> Poll(p, events, now).Precise()
    decreases |events|
  {
    if events != [] {
      var event := events[0];
      StepSeen(p, event);
      StepIsExact(p, event);
      hide Polling.Step, Polling.Accounted, Polling.Precise;
      PolledTrackerIsExact(p.Step(event), events[1..], if event.Arrived? then event.totals else now);
    }
  }

  /** After every actual poll the sums are the true totals. */
  predicate SumsTrue(p: Polling, events: seq<Occasion>, now: Stats)
    requires p.seen.AtMost(now) && Advancing(events, now)
    decreases |events|
  {
    events == [] ||
    (&& (events[0].Arrived? && p.track.Polls() ==> p.Step(events[0]).sums == events[0].totals)
     && SumsTrue(p.Step(events[0]), events[1..], if events[0].Arrived? then events[0].totals else now))
  }

  /** The sums are the true totals after every poll of a run exactly when its polls come in time. */
  lemma {:induction false} SumsTrueIffInTime(p: Polling, events: seq<Occasion>, now: Stats)
    requires p.Accounted() && p.seen.AtMost(now) && Advancing(events, now)
    ensures SumsTrue(p, events, now) <==> PolledInTime(p, events, now)
    decreases |events|
  {
    if events != [] {
      var event := events[0];
      StepSeen(p, event);
      if event.Arrived? && p.track.Polls() {
        BelowCount(event.totals);
        ReadIsExact(p.seen, event.totals);
      }
      if event.Arrived? && p.track.Polls() ==> p.seen.Near(event.totals) {
        StepIsExact(p, event);
        hide Polling.Step, Polling.Accounted, Polling.Precise;
        SumsTrueIffInTime(p.Step(event), events[1..], if event.Arrived? then event.totals else now);
      }
    }
  }

  /** Polls are always in time while the hardware finishes no more packets than it was given: the driver polls before
      so many can be on their way. */
  lemma {:induction false} TruthfulIsInTime(p: Polling, events: seq<Occasion>, now: Stats)
    requires p.Accounted() && p.seen.AtMost(now) && Advancing(events, now) && Truthful(p, events, now)
    ensures PolledInTime(p, events, now)
    decreases |events|
  {
    if events != [] {
      var event := events[0];
      StepSeen(p, event);
      if event.Arrived? && p.track.Polls() {
        FewAreNear(p.seen, event.totals);
      }
      StepIsExact(p, event);
      hide Polling.Step, Polling.Accounted, Polling.Precise;
      TruthfulIsInTime(p.Step(event), events[1..], if event.Arrived? then event.totals else now);
    }
  }

  lemma FewAreNear(before: Stats, now: Stats)
    requires before.AtMost(now) && now.Count() - before.Count() <= HW_QUEUE_SIZE
    ensures before.Near(now)
  {
  }
}
