/** The driver's transmit-scheduling state and the operations on it. */
module TsnDriver {
  import opened Arithmetic
  import opened Schedule
  import opened Planner
  import opened Shaper
  import opened Tracker
  import opened Windows
  import opened Admission
  import opened Errors
  import opened GateMask
  import opened Requested

  const DEFAULT_TO_MARGIN: nat := 50_000

  datatype FailPolicy = Drop | Retry

  /** What can go wrong while a frame is charged, where C leaves open what comes then. */
  datatype Fault = NoFault | DivisionByZero | OutOfBounds

  datatype Metadata = Metadata(ts: Timestamps, priority: Priority, failPolicy: FailPolicy)

  /** The metadata of a frame when no schedule is in force: a shaped one may be sent at any time from `from` on,
      any other gets a fixed margin from the time the link is expected to be free. */
  ghost predicate WithoutSchedule(shaped: bool, from: nat, freeAt: nat, metadata: Metadata) {
    if shaped then
      && metadata.ts == Timestamps(from, from - 1, from, from - 1)
      && metadata.failPolicy == (if metadata.priority == BestEffort then Drop else Retry)
    else
      metadata.ts.from == freeAt && metadata.ts.to == freeAt + 50_000 && metadata.failPolicy == Drop
  }

  /** A schedule that the kernel lets through: not empty, and without empty slots. */
  predicate Permitted(entries: seq<OffloadEntry>) {
    entries != [] && forall i :: 0 <= i < |entries| ==> entries[i].interval > 0
  }

  const ALL_CLOSED := GateEntry(0, seq(TC_COUNT, _ => false))
  const ALL_OPEN := GateEntry(1_000_000_000, seq(TC_COUNT, _ => true))

  class TsnConfig {
    var qbvEnabled: bool
    var qbvStart: nat
    var slotCount: nat
    var cycleNs: nat
    var totalAvailableAt: nat
    const slots: array<GateEntry>
    const bakedSlots: array2<Slot>
    const bakedCount: array<nat>
    const qav: seq<QavState>
    const queueAvailableAt: array<nat>
    const tracker: BufferTracker
    const counters: TxCounters

    /** The object owns its parts and the fixed-size tables have their sizes. */
    ghost predicate Valid()
      reads this, slots
    {
      && slots.Length == MAX_QBV_SLOTS
      && bakedSlots.Length0 == TC_COUNT && bakedSlots.Length1 == MAX_QBV_SLOTS
      && bakedCount.Length == TC_COUNT && queueAvailableAt.Length == TC_COUNT
      && bakedCount != queueAvailableAt
      && |qav| == TC_COUNT
      && (forall i, j :: 0 <= i < j < TC_COUNT ==> qav[i] != qav[j])
      && slotCount <= MAX_QBV_SLOTS
      && forall i :: 0 <= i < MAX_QBV_SLOTS ==> |slots[i].gates| == TC_COUNT
    }

    /** The configured schedule. */
    function Entries(): (entries: seq<GateEntry>)
      reads this, slots
      requires slotCount <= slots.Length
    {
      slots[..slotCount]
    }

    /** What admission depends on. */
    function View(): State
      reads this, qav, queueAvailableAt, tracker, counters
    {
      State(qbvEnabled, seq(|qav|, i requires 0 <= i < |qav| reads qav => qav[i].View()), totalAvailableAt,
            queueAvailableAt[..], tracker.View(), counters.View())
    }

    /** Configured and baked. */
    ghost predicate Deployed()
      reads this, slots, bakedSlots, bakedCount
    {
      Valid() && Baked() && (qbvEnabled ==> Schedulable())
    }

    /** And its shapers can release every frame in order. */
    ghost predicate Operable()
      reads this, slots, bakedSlots, bakedCount, qav, queueAvailableAt, tracker, counters
    {
      Deployed() && View().Sound()
    }

    /** The baked list of a class. */
    function Row(tc: nat): (row: seq<Slot>)
      reads bakedSlots, bakedCount
      requires tc < bakedCount.Length && tc < bakedSlots.Length0 && bakedCount[tc] <= bakedSlots.Length1
    {
      RowOf(bakedSlots, tc, bakedCount[tc])
    }

    /** The class's row holds the given list. */
    ghost predicate RowIs(tc: nat, row: seq<Slot>)
      reads bakedSlots, bakedCount
      requires tc < bakedCount.Length && tc < bakedSlots.Length0
    {
      bakedCount[tc] <= bakedSlots.Length1 && Row(tc) == row
    }

    /** Every class's row holds the first `n` entries, run-length encoded. */
    ghost predicate RunsBaked(all: seq<GateEntry>, n: nat)
      reads this, slots, bakedSlots, bakedCount
      requires Valid() && all == slots[..] && n <= MAX_QBV_SLOTS
    {
      forall t :: 0 <= t < TC_COUNT ==> RowIs(t, Runs(all, t, n))
    }

    /** The baked tables are those of the configured schedule. */
    ghost predicate Baked()
      reads this, slots, bakedSlots, bakedCount
      requires Valid()
    {
      && cycleNs == Duration(Entries())
      && forall tc :: 0 <= tc < TC_COUNT ==> RowIs(tc, Pad(Runs(slots[..], tc, slotCount)))
    }

    /** All fields zero. */
    constructor ()
      ensures Valid() && View().Sound() && !qbvEnabled && totalAvailableAt == 0 && slotCount == 0
      ensures forall i :: 0 <= i < TC_COUNT ==> qav[i].View() == Credit(false, 0, 0, 0, 0, 0, 0, 0)
      ensures queueAvailableAt[..] == seq(TC_COUNT, _ => 0) && counters.View() == Stats(0, 0, 0, 0, 0)
      ensures fresh(slots) && fresh(bakedSlots) && fresh(bakedCount) && fresh(queueAvailableAt)
      ensures fresh(tracker) && fresh(counters)
      ensures forall i :: 0 <= i < TC_COUNT ==> fresh(qav[i])
      ensures tracker.View() == Track(0, 0)
    {
      var states: seq<QavState> := [];
      for i := 0 to TC_COUNT
        invariant |states| == i
        invariant forall k :: 0 <= k < i ==>
          fresh(states[k]) && states[k].View() == Credit(false, 0, 0, 0, 0, 0, 0, 0)
        invariant forall k, l :: 0 <= k < l < i ==> states[k] != states[l]
      {
        var state := new QavState();
        states := states + [state];
      }
      qav := states;
      qbvEnabled, qbvStart, slotCount, cycleNs, totalAvailableAt := false, 0, 0, 0, 0;
      slots := new GateEntry[MAX_QBV_SLOTS](_ => ALL_CLOSED);
      bakedSlots := new Slot[TC_COUNT, MAX_QBV_SLOTS]((_, _) => Slot(0, false));
      bakedCount := new nat[TC_COUNT](_ => 0);
      queueAvailableAt := new nat[TC_COUNT](_ => 0);
      tracker := new BufferTracker();
      counters := new TxCounters();
    }

    /** `tsn_init_configs`: no configuration yet, so everything is open. */
    method InitConfigs()
      requires Valid() && !qbvEnabled && forall i :: 0 <= i < TC_COUNT ==> !qav[i].enabled
      modifies this, slots, bakedSlots, bakedCount
      ensures Valid() && Baked() && qbvEnabled && qbvStart == 0 && OpenToAll() && Schedulable()
      ensures old(View().Sound()) ==> Operable()
    {
      BakeQosConfig();
    }

    /** Appends one raw slot to a class's row: a longer last run, or a new run. */
    method AddToRow(tc: nat, slot: Slot)
      requires Valid() && tc < TC_COUNT && 0 < bakedCount[tc] <= MAX_QBV_SLOTS
      requires Row(tc)[bakedCount[tc] - 1].isOpen != slot.isOpen ==> bakedCount[tc] < MAX_QBV_SLOTS
      modifies bakedSlots, bakedCount
      ensures Valid() && RowIs(tc, AddSlot(old(Row(tc)), slot))
      ensures forall t, row :: 0 <= t < TC_COUNT && t != tc && old(RowIs(t, row)) ==> RowIs(t, row)
    {
      var last := bakedSlots[tc, bakedCount[tc] - 1];
      if last.isOpen == slot.isOpen {
        bakedSlots[tc, bakedCount[tc] - 1] := Slot(last.duration + slot.duration, last.isOpen);
      } else {
        bakedSlots[tc, bakedCount[tc]] := slot;
        bakedCount[tc] := bakedCount[tc] + 1;
      }
      assert Row(tc) == AddSlot(old(Row(tc)), slot);
    }

    /** Turns the schedule into one list per class; without any configuration, a schedule that is
        always open is put in place first. */
    method BakeQosConfig()
      requires Valid()
      modifies this, slots, bakedSlots, bakedCount
      ensures Valid() && Baked()
      ensures totalAvailableAt == old(totalAvailableAt)
      ensures var defaulted := !old(qbvEnabled) && forall i :: 0 <= i < TC_COUNT ==> !old(qav[i].enabled);
        if defaulted then qbvEnabled && qbvStart == 0 && OpenToAll() && Schedulable()
        else qbvEnabled == old(qbvEnabled) && qbvStart == old(qbvStart) && Entries() == old(Entries())
      ensures View() == old(View()).Rebaked()
    {
      ghost var start := View();
      assert forall i :: 0 <= i < TC_COUNT ==> start.shapers[i].enabled == qav[i].enabled;
      if !qbvEnabled {
        var qavDisabled := true;
        for tc := 0 to TC_COUNT
          invariant qavDisabled <==> forall i :: 0 <= i < tc ==> !qav[i].enabled
        {
          if qav[tc].enabled {
            qavDisabled := false;
            break;
          }
        }
        if qavDisabled {
          qbvEnabled, qbvStart, slotCount := true, 0, 1;
          slots[0] := ALL_OPEN;
          assert Entries() == [ALL_OPEN];
          DefaultNeverCloses(qbvStart);
          assert Schedulable();
        }
      }
      ghost var entries := Entries();
      BakeRows();
      assert Entries() == entries;
      assert View().shapers == start.shapers;
    }

    method BakeRows()
      requires Valid()
      modifies this`cycleNs, bakedSlots, bakedCount
      ensures Valid() && Baked()
    {
      ghost var all := slots[..];
      cycleNs := 0;
      StartRows(all);
      assert all[..0] == [];
      for slotId := 0 to slotCount
        invariant Valid() && all == slots[..]
        invariant cycleNs == Duration(all[..slotId])
        invariant RunsBaked(all, slotId)
      {
        assert all[..slotId + 1][..slotId] == all[..slotId];
        cycleNs := cycleNs + slots[slotId].duration;
        AddEntry(all, slotId);
      }
      PadRows(all);
    }

    /** Every class starts with one empty run that has its first gate. */
    method StartRows(ghost all: seq<GateEntry>)
      requires Valid() && all == slots[..]
      modifies bakedSlots, bakedCount
      ensures Valid() && RunsBaked(all, 0)
    {
      for tc := 0 to TC_COUNT
        invariant Valid()
        invariant forall t :: 0 <= t < tc ==> RowIs(t, Runs(all, t, 0))
      {
        bakedCount[tc] := 1;
        bakedSlots[tc, 0] := Slot(0, slots[0].gates[tc]);
      }
    }

    /** Adds one schedule entry to every class. */
    method AddEntry(ghost all: seq<GateEntry>, slotId: nat)
      requires Valid() && all == slots[..] && slotId < slotCount && RunsBaked(all, slotId)
      modifies bakedSlots, bakedCount
      ensures Valid() && RunsBaked(all, slotId + 1)
    {
      ghost var next := slotId + 1;
      for tc := 0 to TC_COUNT
        invariant Valid()
        invariant forall t :: 0 <= t < tc ==> RowIs(t, Runs(all, t, next))
        invariant forall t :: tc <= t < TC_COUNT ==> RowIs(t, Runs(all, t, slotId))
      {
        RunsNext(all, tc, slotId);
        AddToRow(tc, Slot(slots[slotId].duration, slots[slotId].gates[tc]));
      }
    }

    /** An open slot and a closed one make a pair, so an odd list gets a slot of zero length. */
    method PadRows(ghost all: seq<GateEntry>)
      requires Valid() && all == slots[..] && RunsBaked(all, slotCount)
      modifies bakedSlots, bakedCount
      ensures Valid() && forall t :: 0 <= t < TC_COUNT ==> RowIs(t, Pad(Runs(all, t, slotCount)))
    {
      for tc := 0 to TC_COUNT
        invariant Valid()
        invariant forall t :: 0 <= t < tc ==> RowIs(t, Pad(Runs(all, t, slotCount)))
        invariant forall t :: tc <= t < TC_COUNT ==> RowIs(t, Runs(all, t, slotCount))
      {
        RunsBound(all, tc, slotCount);
        PadRow(tc, Runs(all, tc, slotCount));
      }
    }

    method PadRow(tc: nat, ghost row: seq<Slot>)
      requires Valid() && tc < TC_COUNT && row != [] && RowIs(tc, row)
      modifies bakedSlots, bakedCount
      ensures Valid() && RowIs(tc, Pad(row))
      ensures forall t, other :: 0 <= t < TC_COUNT && t != tc && old(RowIs(t, other)) ==> RowIs(t, other)
    {
      if bakedCount[tc] % 2 == 1 {
        AddToRow(tc, Slot(0, !bakedSlots[tc, bakedCount[tc] - 1].isOpen));
      }
    }

    /** `tsn_set_qbv`: installs a schedule, or switches scheduling off, and bakes. */
    method SetQbv(command: Command, baseTime: nat, entries: seq<OffloadEntry>) returns (error: int)
      requires Valid()
      modifies this, slots, bakedSlots, bakedCount
      ensures Valid() && totalAvailableAt == old(totalAvailableAt)
      ensures error ==
        if |entries| > MAX_QBV_SLOTS then -EINVAL else if command == Statistics then -EOPNOTSUPP else 0
      ensures error != 0 ==> unchanged(this) && unchanged(slots) && unchanged(bakedSlots) && unchanged(bakedCount)
      ensures error == 0 ==> Baked()
      ensures error == 0 && command == Replace ==>
        && qbvEnabled && qbvStart == baseTime && |Entries()| == |entries|
        && (forall i :: 0 <= i < |entries| ==> Entries()[i] == Decode(entries[i]))
        && (Elapsed(entries, |entries|) > 0 ==> Follows(entries, baseTime))
      // Switching the schedule off leaves it in place, unless no shaper is on either.
      ensures error == 0 && command == Destroy ==>
        if forall i :: 0 <= i < TC_COUNT ==> !old(qav[i].enabled)
        then qbvEnabled && qbvStart == 0 && OpenToAll() && Schedulable()
        else !qbvEnabled && qbvStart == old(qbvStart) && Entries() == old(Entries())
      ensures View() == old(View()).Next(Operation.SetQbv(command, |entries|))
      // A schedule that the kernel lets through keeps the driver ready for frames.
      ensures old(Deployed()) && (command == Replace ==> Permitted(entries)) ==> Deployed()
      ensures old(Operable()) && (command == Replace ==> Permitted(entries)) ==> Operable()
    {
      ghost var start := View();
      if |entries| > MAX_QBV_SLOTS {
        return -EINVAL;
      }
      match command {
        case Replace =>
          qbvEnabled := true;
          qbvStart := baseTime;
          slotCount := |entries|;
          for i := 0 to slotCount
            invariant Valid() && qbvEnabled && qbvStart == baseTime && slotCount == |entries|
            invariant totalAvailableAt == old(totalAvailableAt) && cycleNs == old(cycleNs)
            invariant forall k :: 0 <= k < i ==> slots[k] == Decode(entries[k])
          {
            slots[i] := Decode(entries[i]);
          }
        case Destroy => qbvEnabled := false;
        case Statistics => return -EOPNOTSUPP;
      }
      assert View().shapers == start.shapers;
      BakeQosConfig();
      if command == Replace && Elapsed(entries, |entries|) > 0 {
        assert Entries() == Decoded(entries);
        DecodedIsAsked(entries, baseTime);
      }
      return 0;
    }

    /** The configured schedule is one that the kernel lets through. */
    ghost predicate Schedulable()
      reads this, slots
      requires slotCount <= slots.Length
    {
      Entries() != [] && forall i :: 0 <= i < |Entries()| ==> Entries()[i].duration > 0
    }

    /** The configured schedule as one class sees it. */
    ghost function ClassLane(tc: nat): seq<Slot>
      reads this, slots
      requires Valid() && tc < TC_COUNT
    {
      Lane(Entries(), tc)
    }

    /** Every class may send at any time, past or future. */
    ghost predicate OpenToAll()
      reads this, slots
      requires Valid()
    {
      NeverCloses(Entries(), qbvStart)
    }

    /** Every class may send exactly when the request lets it, in cycles that start at `base`. */
    ghost predicate Follows(request: seq<OffloadEntry>, base: int)
      reads this, slots
      requires Valid()
    {
      IsAsked(Entries(), qbvStart, request, base)
    }

    lemma OpenToOne(tc: nat, from: nat, sending: nat, delay: bool)
      requires Valid() && tc < TC_COUNT && OpenToAll() && ValidLane(ClassLane(tc))
      ensures Total(Windows.Baked(ClassLane(tc))) > 0
      ensures var marker := (from - 1) % U64;
        Plan64(Windows.Baked(ClassLane(tc)), qbvStart, from, sending, delay) ==
        Planned(true, Timestamps(from, marker, if delay then from else 0, if delay then marker else 0))
    {
      assert forall t: int :: Open(Lane(Entries(), tc), qbvStart, t);
      NeverClosedIsMarked(ClassLane(tc), qbvStart, from, sending, delay);
    }

    /** The row of a class, and what the planner may rely on. */
    lemma RowMeaning(tc: nat)
      requires Valid() && Baked() && Schedulable() && tc < TC_COUNT
      ensures ValidLane(ClassLane(tc))
      ensures RowIs(tc, Windows.Baked(ClassLane(tc)))
      ensures WellBaked(Row(tc)) && Total(Row(tc)) == cycleNs > 0
    {
      assert slots[..][..slotCount] == Entries();
      assert forall i :: 0 <= i < slotCount ==> slots[..][i] == Entries()[i];
      assert RowIs(tc, Pad(Runs(slots[..], tc, slotCount)));
      RunsMeaning(slots[..], tc, slotCount);
    }

    /** `get_timestamps`: the windows of a frame that is ready at `from`. */
    method GetTimestamps(from: nat, tc: nat, bytes: nat, considerDelay: bool) returns (planned: Planned)
      requires Valid() && tc < TC_COUNT && Baked()
      requires qbvEnabled ==> Schedulable()
      ensures !qbvEnabled ==>
        planned == Planned(true, Timestamps(from, from - 1, from, from - 1))
      // While no gate ever closes, neither does any window.
      ensures qbvEnabled && OpenToAll() ==>
        var marker := (from - 1) % U64;
        planned == Planned(true, Timestamps(from, marker, if considerDelay then from else 0,
                                            if considerDelay then marker else 0))
      ensures qbvEnabled ==>
        && ValidLane(ClassLane(tc)) && Total(Windows.Baked(ClassLane(tc))) > 0
        && planned == Plan64(Windows.Baked(ClassLane(tc)), qbvStart, from, BytesToNs(bytes), considerDelay)
    {
      if !qbvEnabled {
        return Planned(true, Timestamps(from, AlwaysOpen(from), from, AlwaysOpen(from)));
      }
      RowMeaning(tc);
      if OpenToAll() {
        OpenToOne(tc, from, BytesToNs(bytes), considerDelay);
      }
      planned := GetWindows(Row(tc), cycleNs, qbvStart, from, BytesToNs(bytes), considerDelay);
    }

    // ----- admission -----

    /** The assignments of `tsn_set_qav`. */
    static method Configure(state: QavState, enable: bool, hiCredit: int, loCredit: int, idleSlope: int, sendSlope: int)
      modifies state
      ensures state.View() == Reconfigured(old(state.View()), enable, hiCredit, loCredit, idleSlope, sendSlope)
    {
      state.enabled := enable;
      state.hiCredit := Int32(hiCredit * 1000);
      state.loCredit := Int32(loCredit * 1000);
      state.idleSlope := TowardZero(idleSlope);
      state.sendSlope := TowardZero(sendSlope);
    }

    /** `tsn_set_qav`: configures one class's shaper and bakes. The running credit and times are kept. */
    method SetQav(queue: int, enable: bool, hiCredit: int, loCredit: int, idleSlope: int, sendSlope: int)
      returns (error: int)
      requires Valid()
      modifies this, slots, bakedSlots, bakedCount, qav
      ensures Valid() && totalAvailableAt == old(totalAvailableAt)
      ensures error == if queue < 0 || queue >= TC_COUNT then -EINVAL else 0
      ensures error != 0 ==> unchanged(this) && unchanged(slots) && unchanged(bakedSlots) && unchanged(bakedCount)
      ensures error != 0 ==> unchanged(qav)
      ensures error == 0 ==> Baked()
      ensures error == 0 ==> forall i :: 0 <= i < TC_COUNT ==>
        qav[i].View() ==
          if i != queue then old(qav[i].View())
          else Reconfigured(old(qav[i].View()), enable, hiCredit, loCredit, idleSlope, sendSlope)
      ensures error == 0 ==>
        if !old(qbvEnabled) && !enable && forall i :: 0 <= i < TC_COUNT && i != queue ==> !old(qav[i].enabled)
        then qbvEnabled && qbvStart == 0 && OpenToAll() && Schedulable()
        else qbvEnabled == old(qbvEnabled) && qbvStart == old(qbvStart) && Entries() == old(Entries())
      ensures View() == old(View()).Next(Operation.SetQav(queue, enable, hiCredit, loCredit, idleSlope, sendSlope))
      ensures old(Deployed()) ==> Deployed()
      // A shaper that can release every frame keeps the driver ready for frames, whatever its credit was before.
      ensures var op := Operation.SetQav(queue, enable, hiCredit, loCredit, idleSlope, sendSlope);
        old(Operable()) && op.Sensible() ==> Operable()
    {
      if queue < 0 || queue >= TC_COUNT {
        return -EINVAL;
      }
      ghost var start := View();
      Configure(qav[queue], enable, hiCredit, loCredit, idleSlope, sendSlope);
      ghost var next := Reconfigured(start.shapers[queue], enable, hiCredit, loCredit, idleSlope, sendSlope);
      assert View().shapers == start.shapers[queue := next];
      BakeQosConfig();
      return 0;
    }

    /** The metadata carries the windows of the configured schedule for a frame ready at `from`. */
    ghost predicate PlannedFor(tc: nat, from: nat, frameLength: nat, metadata: Metadata)
      reads this, slots
      requires Valid() && tc < TC_COUNT
    {
      var lane, delay := ClassLane(tc), metadata.priority != BestEffort;
      && metadata.failPolicy == (if delay then Retry else Drop)
      && ValidLane(lane) && Total(Windows.Baked(lane)) > 0
      && metadata.ts == Plan64(Windows.Baked(lane), qbvStart, from, BytesToNs(frameLength), delay).ts
    }

    /** `tsn_fill_metadata`: decides on a frame of class `tc`, charges it, and sets its windows. The class comes from
        mqprio, which `tsn_set_mqprio` lets have up to 15 classes; from the ninth on the driver reads past its shapers.
        The other fault, which a sound state rules out, is that charging divides by zero. */
    method FillMetadata(now: nat, vlanPrio: nat, tc: nat, isGptp: bool, frameLength: nat, regs: Stats)
      returns (ok: bool, fault: Fault, metadata: Metadata, ghost from: nat)
      requires Deployed()
      modifies this`totalAvailableAt, if tc < TC_COUNT then {qav[tc]} else {}, queueAvailableAt, tracker, counters
      ensures metadata.priority == if isGptp then Gptp else if vlanPrio > 0 then Vlan else BestEffort
      ensures Deployed() && (old(View().Sound()) ==> Operable())
      ensures fault == OutOfBounds <==> tc >= TC_COUNT
      ensures tc < TC_COUNT ==>
        (fault == DivisionByZero <==> old(View()).Traps(Transmit(now, tc, metadata.priority, frameLength, regs)))
      ensures old(View().Sound()) ==> fault != DivisionByZero
      // Admission: exactly while fewer packets are pending than the class of traffic may see.
      ensures fault == NoFault ==> (ok <==> old(View()).Polled(regs).Admits(tc, metadata.priority))
      // The whole new state, of an admitted and of a refused frame.
      ensures fault == NoFault ==> View() == old(View()).Next(Transmit(now, tc, metadata.priority, frameLength, regs))
      // The windows are those of the class's schedule from the earliest time on at which the frame may be sent.
      ensures ok ==> fault == NoFault
      ensures ok ==>
        && old(View()).EarliestFor(now, tc, metadata.priority == BestEffort, from)
        && if qbvEnabled then PlannedFor(tc, from, frameLength, metadata)
           else WithoutSchedule(qav[tc].enabled, from, old(totalAvailableAt), metadata)
    {
      ghost var start := View();
      tracker.Update(counters, regs);
      assert View().shapers == start.shapers && View() == start.Polled(regs);
      var priority := if isGptp then Gptp else if vlanPrio > 0 then Vlan else BestEffort;
      if tc >= TC_COUNT {
        return false, OutOfBounds, Metadata(NO_TIMESTAMPS, priority, Drop), 0;
      }
      TransmitParts(start, Transmit(now, tc, priority, frameLength, regs));
      hide State.Next, State.Traps, State.Polled, State.Decide, State.DecisionTraps, State.ReadyAt, State.Admits;
      hide State.Sound, PlannedFor, WithoutSchedule;
      from := start.ReadyAt(now, tc, priority == BestEffort);
      ReadyIsEarliest(start, now, tc, priority == BestEffort);
      hide State.EarliestFor;
      var trapped;
      ok, trapped, metadata := DecideFrame(now, tc, priority, frameLength);
      fault := if trapped then DivisionByZero else NoFault;
    }

    /** What follows once the tracker had its chance to poll. */
    method DecideFrame(now: nat, tc: nat, priority: Priority, frameLength: nat)
      returns (ok: bool, trapped: bool, metadata: Metadata)
      requires Deployed() && tc < TC_COUNT
      modifies this`totalAvailableAt, qav[tc], queueAvailableAt, tracker
      ensures Deployed() && metadata.priority == priority
      ensures (trapped <==> old(View()).DecisionTraps(now, tc, priority, frameLength)) && (ok ==> !trapped)
      ensures !trapped ==> (ok <==> old(View()).Admits(tc, priority))
      ensures !trapped ==> View() == old(View()).Decide(now, tc, priority, frameLength)
      ensures ok && !trapped && qbvEnabled ==>
        PlannedFor(tc, old(View()).ReadyAt(now, tc, priority == BestEffort), frameLength, metadata)
      ensures ok && !trapped && !qbvEnabled ==>
        WithoutSchedule(qav[tc].enabled, old(View()).ReadyAt(now, tc, priority == BestEffort),
                        old(totalAvailableAt), metadata)
    {
      ghost var start := View();
      assert start.shapers[tc] == qav[tc].View();
      var admitted, from;
      admitted, from, metadata := PlanFrame(now, tc, priority, frameLength);
      if !admitted {
        return false, false, metadata;
      }
      ok, trapped := Charge(tc, priority, from, frameLength);
      if trapped {
        return false, true, metadata;
      }
      assert View().shapers[tc].enabled == qav[tc].enabled;
      if start.Unscheduled(tc) {
        ghost var ready := start.ReadyAt(now, tc, priority == BestEffort);
        ChargeUnshaped(start, tc, priority, from, ready, BytesToNs(frameLength));
      }
    }

    /** The decision before anything is charged: whether there is room, when the frame is ready, and its
        windows. */
    method PlanFrame(now: nat, tc: nat, priority: Priority, frameLength: nat)
      returns (admitted: bool, from: nat, metadata: Metadata)
      requires Deployed() && tc < TC_COUNT
      ensures metadata.priority == priority
      ensures admitted <==> View().Unscheduled(tc) || View().Admits(tc, priority)
      ensures admitted && !View().Unscheduled(tc) ==> from == View().ReadyAt(now, tc, priority == BestEffort)
      ensures admitted && qbvEnabled ==> PlannedFor(tc, from, frameLength, metadata)
      ensures admitted && !qbvEnabled ==> WithoutSchedule(qav[tc].enabled, from, totalAvailableAt, metadata)
    {
      if !qbvEnabled && !qav[tc].enabled {
        // The driver leaves the retry window of this path unset.
        var delayFrom: int, delayTo: int := *, *;
        var ts := Timestamps(totalAvailableAt, totalAvailableAt + DEFAULT_TO_MARGIN, delayFrom, delayTo);
        return true, now + H2C_LATENCY_NS, Metadata(ts, priority, Drop);
      }
      admitted, from := Admit(now, tc, priority);
      if !admitted {
        return false, from, Metadata(NO_TIMESTAMPS, priority, Drop);
      }
      // As in the driver, whether the gate ever opens is not looked at.
      var considerDelay := priority != BestEffort;
      var planned := GetTimestamps(from, tc, frameLength, considerDelay);
      metadata := Metadata(planned.ts, priority, if considerDelay then Retry else Drop);
    }

    /** Checks the queue and finds the time the frame is ready, on a class that is scheduled. */
    method Admit(now: nat, tc: nat, priority: Priority) returns (admitted: bool, from: nat)
      requires tc < |qav| && !View().Unscheduled(tc)
      ensures admitted <==> View().Admits(tc, priority)
      ensures admitted ==> from == View().ReadyAt(now, tc, priority == BestEffort)
      // Once it has reached the card, its class has recovered, and for best effort the link is free...
      ensures admitted ==>
        && from >= now + 30_000 && (qav[tc].enabled ==> from >= qav[tc].availableAt)
        && (priority == BestEffort ==> from >= totalAvailableAt)
      // ... and not a moment later.
      ensures admitted ==>
        || from == now + 30_000 || (qav[tc].enabled && from == qav[tc].availableAt)
        || (priority == BestEffort && from == totalAvailableAt)
    {
      from := now + H2C_LATENCY_NS;
      if qav[tc].enabled && qav[tc].availableAt > from {
        from := qav[tc].availableAt;
      }
      if priority != BestEffort {
        if tracker.pendingPackets >= TSN_QUEUE_SIZE {
          return false, from;
        }
      } else {
        if tracker.pendingPackets >= BE_QUEUE_SIZE {
          return false, from;
        }
        from := Max(from, totalAvailableAt);
      }
      admitted := true;
    }

    /** Charges the class's shaper and the clocks, and takes a place in the hardware queue. */
    method Charge(tc: nat, priority: Priority, from: nat, frameLength: nat) returns (ok: bool, trapped: bool)
      requires Valid() && tc < TC_COUNT
      modifies this`totalAvailableAt, qav[tc], queueAvailableAt, tracker
      ensures Valid()
      ensures trapped <==> old(qav[tc].View()).Traps(from, BytesToNs(frameLength))
      ensures !trapped ==> (ok <==> old(tracker.pendingPackets) < HW_QUEUE_SIZE)
      ensures !trapped ==> View() == old(View()).Charge(tc, priority, from, BytesToNs(frameLength))
    {
      ghost var start := View();
      var duration := BytesToNs(frameLength);
      assert start.shapers[tc] == qav[tc].View();
      trapped := qav[tc].SpendCredit(from, frameLength);
      if trapped {
        return false, true;
      }
      queueAvailableAt[priority.Id()] := queueAvailableAt[priority.Id()] + duration;
      totalAvailableAt := totalAvailableAt + duration;
      ok := tracker.Append();
      assert View().shapers == start.shapers[tc := start.shapers[tc].Spend(from, duration)];
    }
  }

  /** The schedule that is put in place without a configuration never closes a gate. */
  lemma DefaultNeverCloses(start: int)
    ensures NeverCloses([ALL_OPEN], start)
  {
    forall tc | 0 <= tc < TC_COUNT ensures Lane([ALL_OPEN], tc) == [Slot(1_000_000_000, true)] {
    }
    assert [Slot(1_000_000_000, true)][..0] == [] && Total([Slot(1_000_000_000, true)]) == Total([]) + 1_000_000_000;
  }

  lemma {:induction false} LaneDuration(entries: seq<GateEntry>, tc: nat)
    requires tc < TC_COUNT && forall i :: 0 <= i < |entries| ==> |entries[i].gates| == TC_COUNT
    ensures Total(Lane(entries, tc)) == Duration(entries)
  {
    if entries != [] {
      var init := entries[..|entries| - 1];
      LaneDuration(init, tc);
      assert Lane(entries, tc)[..|init|] == Lane(init, tc);
    }
  }

  function RowOf(table: array2<Slot>, tc: nat, n: nat): (row: seq<Slot>)
    reads table
    requires tc < table.Length0 && n <= table.Length1
    ensures |row| == n
    ensures forall i :: 0 <= i < n ==> row[i] == table[tc, i]
  {
    seq(n, i requires 0 <= i < n reads table => table[tc, i])
  }

  function Duration(entries: seq<GateEntry>): nat {
    if entries == [] then 0 else Duration(entries[..|entries| - 1]) + entries[|entries| - 1].duration
  }

  ghost predicate Table(all: seq<GateEntry>) {
    |all| == MAX_QBV_SLOTS && forall i :: 0 <= i < |all| ==> |all[i].gates| == TC_COUNT
  }

  /** The first `n` entries as one class sees them, run-length encoded. */
  ghost function Runs(all: seq<GateEntry>, tc: nat, n: nat): seq<Slot>
    requires Table(all) && tc < TC_COUNT && n <= MAX_QBV_SLOTS
  {
    Compress(all[0].gates[tc], Lane(all[..n], tc))
  }

  /** What a class's row means once all `n` entries are in it. */
  lemma RunsMeaning(all: seq<GateEntry>, tc: nat, n: nat)
    requires Table(all) && tc < TC_COUNT && 0 < n <= MAX_QBV_SLOTS
    requires forall i :: 0 <= i < n ==> all[i].duration > 0
    ensures ValidLane(Lane(all[..n], tc))
    ensures Pad(Runs(all, tc, n)) == Windows.Baked(Lane(all[..n], tc))
    ensures WellBaked(Pad(Runs(all, tc, n)))
    ensures Total(Pad(Runs(all, tc, n))) == Duration(all[..n]) > 0
  {
    var lane := Lane(all[..n], tc);
    assert lane[0] == Slot(all[0].duration, all[0].gates[tc]);
    BakedMeaning(lane);
    LaneDuration(all[..n], tc);
  }

  lemma RunsNext(all: seq<GateEntry>, tc: nat, n: nat)
    requires Table(all) && tc < TC_COUNT && n < MAX_QBV_SLOTS
    ensures Runs(all, tc, n + 1) == AddSlot(Runs(all, tc, n), Slot(all[n].duration, all[n].gates[tc]))
    ensures |Runs(all, tc, n + 1)| <= MAX_QBV_SLOTS
  {
    var longer := Lane(all[..n + 1], tc);
    assert longer[..n] == Lane(all[..n], tc);
    RunsBound(all, tc, n + 1);
  }

  lemma RunsBound(all: seq<GateEntry>, tc: nat, n: nat)
    requires Table(all) && tc < TC_COUNT && n <= MAX_QBV_SLOTS
    ensures |Runs(all, tc, n)| <= Max(1, n) <= MAX_QBV_SLOTS
  {
    CompressShape(all[0].gates[tc], Lane(all[..n], tc));
  }

  /** The request opens the class at some time and closes it at some other. */
  ghost predicate Switches(request: seq<OffloadEntry>, base: int, tc: nat)
    requires tc < TC_COUNT && Elapsed(request, |request|) > 0
  {
    (exists u: int :: AsksAt(request, base, tc, u)) && (exists u: int :: !AsksAt(request, base, tc, u))
  }

  /** From a request to the wire: while a requested schedule is in force, a frame that starts at any time in the window
      or the retry window that the driver writes for it is on the wire only while the request opens its class, from its
      first bit to its last at 1 Gbit/s. */
  lemma {:induction false} SentAsAsked(entries: seq<GateEntry>, request: seq<OffloadEntry>, base: nat, tc: nat,
                                       from: nat, bytes: nat, delay: bool, t: int)
    requires Wide(entries) && tc < TC_COUNT && ValidLane(Lane(entries, tc))
    requires IsAsked(entries, base, request, base) && Switches(request, base, tc)
    requires base <= from && 0 < from && 8 * Max(bytes, 60) <= from && from + 3 * Elapsed(request, |request|) < U64
    requires Total(Windows.Baked(Lane(entries, tc))) > 0
    requires var ts := Plan64(Windows.Baked(Lane(entries, tc)), base, from, BytesToNs(bytes), delay).ts;
      InWindow(ts, t) || (delay && InRetryWindow(ts, t))
    ensures forall u :: t <= u < t + 8 * Max(bytes, 60) ==> AsksAt(request, base, tc, u)
  {
    var lane, sending := Lane(entries, tc), BytesToNs(bytes);
    SwitchingChanges(entries, request, base, tc);
    WireTime(bytes);
    hide Plan64, Windows.Baked, Open, AsksAt, Changes, ValidLane, InWindow, InRetryWindow, Total, BytesToNs;
    NarrowWindowsAreSound(lane, base, from, sending, delay, t);
    forall u | t <= u < t + 8 * Max(bytes, 60) ensures AsksAt(request, base, tc, u) {
      assert Open(lane, base, u);
    }
  }

  /** A frame takes one nanosecond a bit, and the shortest one 480. */
  lemma WireTime(bytes: nat)
    ensures BytesToNs(bytes) == 8 * Max(bytes, 60)
  {
  }

  lemma {:induction false} SwitchingChanges(entries: seq<GateEntry>, request: seq<OffloadEntry>, base: nat, tc: nat)
    requires Wide(entries) && tc < TC_COUNT && ValidLane(Lane(entries, tc))
    requires IsAsked(entries, base, request, base) && Switches(request, base, tc)
    ensures Changes(Lane(entries, tc))
  {
    var lane := Lane(entries, tc);
    BakedMeaning(lane);
    if !Changes(lane) {
      var u: int :| AsksAt(request, base, tc, u);
      var v: int :| !AsksAt(request, base, tc, v);
      OpenAgrees(lane, base, u);
      OpenAgrees(lane, base, v);
      OpenWhenConstant(Windows.Baked(lane), base, u);
      OpenWhenConstant(Windows.Baked(lane), base, v);
    }
  }
}
