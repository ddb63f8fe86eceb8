/** What the planned windows mean against the gate schedule that was configured. */
module Windows {
  import opened Arithmetic
  import opened Schedule
  import opened Planner

  /** The configured schedule of one class, baked as the driver bakes it. */
  function Baked(lane: seq<Slot>): seq<Slot>
    requires lane != []
  {
    Bake(lane[0].isOpen, lane)
  }

  ghost predicate ValidLane(lane: seq<Slot>) {
    0 < |lane| <= MAX_QBV_SLOTS && AllPositive(lane)
  }

  /** The gate of the class changes at least once in the cycle. */
  ghost predicate Changes(lane: seq<Slot>)
    requires lane != []
  {
    exists i :: 0 <= i < |lane| && lane[i].isOpen != lane[0].isOpen
  }

  /** Every open stretch that the list names is long enough for the frame. */
  predicate Fits(baked: seq<Slot>, sending: nat) {
    forall i :: 0 <= i < |baked| && baked[i].isOpen ==> sending <= baked[i].duration
  }

  // ----- from the baked list to the configured schedule -----

  lemma BakedMeaning(lane: seq<Slot>)
    requires ValidLane(lane)
    ensures WellBaked(Baked(lane)) && Total(Baked(lane)) == Total(lane) > 0
    ensures Constant(Baked(lane)) <==> !Changes(lane)
    ensures Padded(Baked(lane)) <==> lane[0].isOpen == lane[|lane| - 1].isOpen
    ensures Baked(lane)[0].isOpen == lane[0].isOpen
  {
    BakedShape(lane);
    BakingPreservesGates(lane[0].isOpen, lane);
    ConstantGate(lane);
    CompressPositive(lane);
  }

  /** At every instant the baked list and the configured schedule agree. */
  lemma OpenAgrees(lane: seq<Slot>, start: int, t: int)
    requires ValidLane(lane)
    ensures Total(Baked(lane)) == Total(lane) > 0
    ensures Open(Baked(lane), start, t) == Open(lane, start, t)
  {
    BakedMeaning(lane);
    BakingPreservesGates(lane[0].isOpen, lane);
  }

  lemma FeasibleAgrees(lane: seq<Slot>, start: int, t: int, sending: nat)
    requires ValidLane(lane)
    ensures Total(Baked(lane)) == Total(lane) > 0
    ensures Feasible(Baked(lane), start, t, sending) <==> Feasible(lane, start, t, sending)
  {
    BakedMeaning(lane);
    forall u: int ensures Open(Baked(lane), start, u) == Open(lane, start, u) {
      OpenAgrees(lane, start, u);
    }
  }

  // ----- slots of the repeated list -----

  lemma NextGate(baked: seq<Slot>, i: nat)
    requires WellBaked(baked)
    ensures SlotAt(baked, i + 1).isOpen != SlotAt(baked, i).isOpen
  {
    WrapNext(i, |baked|);
    AlternatingParity(baked, |baked| - 1);
  }

  /** The instant at which the current cycle began. */
  function CycleBase(baked: seq<Slot>, start: int, from: int): int
    requires Total(baked) > 0
  {
    from - Phase(from, start, Total(baked))
  }

  lemma CycleBaseStarts(baked: seq<Slot>, start: nat, from: nat)
    requires Total(baked) > 0 && start <= from < U64
    ensures CycleStart(CycleBase(baked, start, from), start, Total(baked))
  {
    PhaseExact(from, start, Total(baked));
    RemToMultiple(from - start, Total(baked));
  }

  /** The planner always aims for an open slot... */
  lemma TargetOpen(baked: seq<Slot>, phase: nat, sending: nat)
    requires WellBaked(baked) && phase < Total(baked)
    ensures SlotAt(baked, Target(baked, phase, sending)).isOpen
  {
    var k := FindSlot(baked, phase, 0);
    NextGate(baked, k);
    NextGate(baked, k + 1);
  }

  /** ... and for the current one only if enough of it is left. */
  lemma TargetTiming(baked: seq<Slot>, phase: nat, sending: nat)
    requires WellBaked(baked) && phase < Total(baked)
    ensures var s := Target(baked, phase, sending);
      phase <= Begin(baked, s) || phase + sending <= Begin(baked, s + 1)
  {
  }

  /** An open slot offers every start that leaves room for the frame. */
  lemma FeasibleInSlot(baked: seq<Slot>, start: int, base: int, s: nat, t: int, sending: nat)
    requires baked != [] && Total(baked) > 0 && CycleStart(base, start, Total(baked))
    requires SlotAt(baked, s).isOpen
    requires base + Begin(baked, s) <= t && t + sending <= base + Begin(baked, s + 1)
    ensures Feasible(baked, start, t, sending)
  {
    forall u | t <= u < t + sending
      ensures Open(baked, start, u)
    {
      OpenInSlot(baked, start, base, s, u);
    }
  }

  /** A frame whose transmission touches a closed slot does not fit. */
  lemma InfeasibleAcross(baked: seq<Slot>, start: int, base: int, s: nat, t: int, sending: nat)
    requires baked != [] && Total(baked) > 0 && CycleStart(base, start, Total(baked))
    requires !SlotAt(baked, s).isOpen && SlotAt(baked, s).duration > 0 && sending > 0
    requires t < base + Begin(baked, s + 1) && base + Begin(baked, s) < t + sending
    ensures !Feasible(baked, start, t, sending)
  {
    var u := Max(t, base + Begin(baked, s));
    OpenInSlot(baked, start, base, s, u);
    assert t <= u < t + sending;
  }

  // ----- soundness -----

  /** Every start in the windows of a cycle that began at `from - phase` is feasible. */
  lemma SoundAt(baked: seq<Slot>, start: int, phase: nat, from: int, sending: nat, delay: bool, t: int)
    requires WellBaked(baked) && phase < Total(baked) && CycleStart(from - phase, start, Total(baked))
    requires var ts := WindowsAt(baked, phase, from, sending, delay);
      InWindow(ts, t) || (delay && InRetryWindow(ts, t))
    ensures Feasible(baked, start, t, sending)
  {
    var base, s := from - phase, Target(baked, phase, sending);
    TargetOpen(baked, phase, sending);
    if InWindow(WindowsAt(baked, phase, from, sending, delay), t) {
      FeasibleInSlot(baked, start, base, s, t, sending);
    } else {
      OpenAfterNext(baked, s);
      FeasibleInSlot(baked, start, base, s + 2, t, sending);
    }
  }

  /** The slot after the next has the same gate. */
  lemma OpenAfterNext(baked: seq<Slot>, s: nat)
    requires WellBaked(baked)
    ensures SlotAt(baked, s + 2).isOpen == SlotAt(baked, s).isOpen
  {
    NextGate(baked, s);
    NextGate(baked, s + 1);
  }

  /** Every start in a planned window keeps the whole frame inside open time of the configured
      schedule, and so does every start in the retry window. */
  lemma WindowsAreSound(lane: seq<Slot>, start: nat, from: nat, sending: nat, delay: bool, t: int)
    requires ValidLane(lane) && Changes(lane) && start <= from < U64
    requires Total(Baked(lane)) > 0
    requires var ts := Plan(Baked(lane), start, from, sending, delay).ts;
      InWindow(ts, t) || (delay && InRetryWindow(ts, t))
    ensures Total(lane) > 0 && Feasible(lane, start, t, sending)
  {
    BakedMeaning(lane);
    CycleBaseStarts(Baked(lane), start, from);
    SoundAt(Baked(lane), start, Phase(from, start, Total(lane)), from, sending, delay, t);
    FeasibleAgrees(lane, start, t, sending);
  }

  lemma {:induction false} RemAtMost(x: nat, n: nat)
    requires n > 0
    ensures Rem(x, n) <= x
    decreases x
  {
    if x >= n {
      RemAtMost(x - n, n);
    }
  }

  /** The same of the windows that the driver computes in 64 bits. */
  lemma NarrowWindowsAreSound(lane: seq<Slot>, start: nat, from: nat, sending: nat, delay: bool, t: int)
    requires ValidLane(lane) && Changes(lane) && start <= from && 0 < from && sending <= from
    requires from + 3 * Total(lane) < U64 && Total(Baked(lane)) > 0
    requires var ts := Plan64(Baked(lane), start, from, sending, delay).ts;
      InWindow(ts, t) || (delay && InRetryWindow(ts, t))
    ensures Total(lane) > 0 && Feasible(lane, start, t, sending)
  {
    BakedMeaning(lane);
    var baked := Baked(lane);
    RemAtMost(from - start, Total(baked));
    assert (from - start) % U64 == from - start;
    hide Plan64, Plan, Baked, Total, Changes, Feasible, ValidLane, InWindow, InRetryWindow;
    WidthSuffices(baked, start, from, sending, delay);
    WindowsAreSound(lane, start, from, sending, delay, t);
  }

  /** No windows are planned exactly when the gate never opens; a gate that never closes gets the
      marker for it. */
  lemma ConstantGates(lane: seq<Slot>, start: nat, from: nat, sending: nat, delay: bool)
    requires ValidLane(lane)
    ensures Total(lane) > 0 && Total(Baked(lane)) > 0
    ensures !Plan(Baked(lane), start, from, sending, delay).ok <==> forall t: int :: !Open(lane, start, t)
    ensures (forall t: int :: Open(lane, start, t)) ==>
      var ts := Plan(Baked(lane), start, from, sending, delay).ts;
      ts.from == from && ts.to == AlwaysOpen(from)
  {
    var baked := Baked(lane);
    BakedMeaning(lane);
    var cycle := Total(lane);
    if Changes(lane) {
      var i :| 0 <= i < |lane| && lane[i].isOpen != lane[0].isOpen;
      LaneGate(lane, start, 0, start);
      LaneGate(lane, start, i, start + Begin(lane, i));
    } else {
      forall t: int
        ensures Open(lane, start, t) == lane[0].isOpen
      {
        OpenAgrees(lane, start, t);
        OpenWhenConstant(baked, start, t);
      }
      hide Open, Baked, Total, WindowsAt, Phase;
      assert Open(lane, start, start) == lane[0].isOpen;
    }
  }

  /** A frame of a class that never closes may be sent at any time from the one on at which it is ready: that time and
      the one before it, in 64 bits, are what the driver writes. */
  lemma NeverClosedIsMarked(lane: seq<Slot>, start: int, from: int, sending: nat, delay: bool)
    requires ValidLane(lane) && Total(lane) > 0 && forall t: int :: Open(lane, start, t)
    ensures Total(Baked(lane)) > 0
    ensures var marker := (from - 1) % U64;
      Plan64(Baked(lane), start, from, sending, delay) ==
      Planned(true, Timestamps(from, marker, if delay then from else 0, if delay then marker else 0))
  {
    BakedMeaning(lane);
    assert Open(lane, start, start);
    if Changes(lane) {
      var i :| 0 <= i < |lane| && lane[i].isOpen != lane[0].isOpen;
      LaneGate(lane, start, 0, start);
      LaneGate(lane, start, i, start + Begin(lane, i));
    } else {
      OpenAgrees(lane, start, start);
      OpenWhenConstant(Baked(lane), start, start);
    }
  }

  /** No window starts before the frame is ready, unless there is none. */
  lemma StartsWhenReady(lane: seq<Slot>, start: int, from: int, sending: nat, delay: bool)
    requires ValidLane(lane) && Total(Baked(lane)) > 0
    ensures var planned := Plan64(Baked(lane), start, from, sending, delay); planned.ok ==> planned.ts.from >= from
  {
  }

  lemma LaneGate(lane: seq<Slot>, start: int, i: nat, t: int)
    requires ValidLane(lane) && i < |lane| && t == start + Begin(lane, i)
    ensures Total(lane) > 0 && Open(lane, start, t) == lane[i].isOpen
  {
    assert Begin(lane, i + 1) == Begin(lane, i) + lane[i].duration;
    BeginMonotone(lane, i + 1, |lane|);
    CycleIsTotal(lane);
    OpenInSlot(lane, start, start, i, t);
  }

  lemma OpenWhenConstant(baked: seq<Slot>, start: int, t: int)
    requires Constant(baked) && Total(baked) > 0
    ensures Open(baked, start, t) == baked[0].isOpen
  {
    var offset := Rem(t - start, Total(baked));
    CycleIsTotal(baked);
    GateInSlot(baked, 0, offset);
  }

  // ----- exactness: the windows are all there is -----

  lemma ExactAt(baked: seq<Slot>, start: int, phase: nat, from: int, sending: nat, t: int)
    requires WellBaked(baked) && !Padded(baked) && sending > 0
    requires phase < Total(baked) && CycleStart(from - phase, start, Total(baked))
    requires from <= t <= WindowsAt(baked, phase, from, sending, true).delayTo
    ensures var ts := WindowsAt(baked, phase, from, sending, true);
      Feasible(baked, start, t, sending) <==> InWindow(ts, t) || InRetryWindow(ts, t)
  {
    var ts := WindowsAt(baked, phase, from, sending, true);
    if InWindow(ts, t) || InRetryWindow(ts, t) {
      SoundAt(baked, start, phase, from, sending, true, t);
    } else {
      OutsideIsInfeasible(baked, start, phase, from, sending, t);
    }
  }

  /** When the class's first and last gates differ, the feasible starts from `from` up to the end of
      the retry window are exactly those in the two windows. */
  lemma WindowsAreExact(lane: seq<Slot>, start: nat, from: nat, sending: nat, t: int)
    requires ValidLane(lane) && lane[0].isOpen != lane[|lane| - 1].isOpen
    requires start <= from < U64 && sending > 0
    requires Total(Baked(lane)) > 0
    requires from <= t <= Plan(Baked(lane), start, from, sending, true).ts.delayTo
    ensures Total(lane) > 0
    ensures var ts := Plan(Baked(lane), start, from, sending, true).ts;
      Feasible(lane, start, t, sending) <==> InWindow(ts, t) || InRetryWindow(ts, t)
  {
    BakedMeaning(lane);
    assert lane[|lane| - 1].isOpen != lane[0].isOpen;
    BakedExact(Baked(lane), start, from, sending, t);
    FeasibleAgrees(lane, start, t, sending);
  }

  lemma BakedExact(baked: seq<Slot>, start: nat, from: nat, sending: nat, t: int)
    requires WellBaked(baked) && !Padded(baked) && !Constant(baked) && Total(baked) > 0
    requires start <= from < U64 && sending > 0
    requires from <= t <= Plan(baked, start, from, sending, true).ts.delayTo
    ensures var ts := Plan(baked, start, from, sending, true).ts;
      Feasible(baked, start, t, sending) <==> InWindow(ts, t) || InRetryWindow(ts, t)
  {
    CycleBaseStarts(baked, start, from);
    ExactAt(baked, start, Phase(from, start, Total(baked)), from, sending, t);
  }

  lemma OutsideIsInfeasible(baked: seq<Slot>, start: int, phase: nat, from: int, sending: nat, t: int)
    requires WellBaked(baked) && !Padded(baked) && sending > 0
    requires phase < Total(baked) && CycleStart(from - phase, start, Total(baked))
    requires var ts := WindowsAt(baked, phase, from, sending, true);
      from <= t <= ts.delayTo && !InWindow(ts, t) && !InRetryWindow(ts, t)
    ensures !Feasible(baked, start, t, sending)
  {
    var base := from - phase;
    var k := FindSlot(baked, phase, 0);
    var s := Target(baked, phase, sending);
    var closed :=
      if base + Begin(baked, s + 1) - sending < t then s + 1 else if s == k + 1 then k else k + 1;
    assert !SlotAt(baked, closed).isOpen by {
      NextGate(baked, k);
      NextGate(baked, k + 1);
      NextGate(baked, s);
    }
    InfeasibleAcross(baked, start, base, closed, t, sending);
  }

  // ----- when the windows are in order -----

  predicate Ordered(ts: Timestamps, from: int) {
    from <= ts.from <= ts.to < ts.delayFrom <= ts.delayTo
  }

  lemma {:induction false} SlotFits(baked: seq<Slot>, sending: nat, i: nat)
    requires baked != [] && Fits(baked, sending) && SlotAt(baked, i).isOpen
    ensures sending <= SlotAt(baked, i).duration
  {
    assert SlotAt(baked, i) == baked[Wrap(i, |baked|)];
  }

  lemma FittingIsOrdered(baked: seq<Slot>, start: nat, from: nat, sending: nat)
    requires WellBaked(baked) && !Constant(baked) && Total(baked) > 0
    requires Fits(baked, sending) && sending > 0
    ensures Ordered(Plan(baked, start, from, sending, true).ts, from)
  {
    var phase := Phase(from, start, Total(baked));
    var s := Target(baked, phase, sending);
    TargetOpen(baked, phase, sending);
    TargetTiming(baked, phase, sending);
    NextGate(baked, s);
    NextGate(baked, s + 1);
    SlotFits(baked, sending, s);
    SlotFits(baked, sending, s + 2);
  }

  lemma FindSlotUnique(baked: seq<Slot>, phase: nat, m: nat)
    requires m < |baked| && phase < Total(baked)
    requires phase <= Begin(baked, m + 1) && (m > 0 ==> Begin(baked, m) < phase)
    ensures FindSlot(baked, phase, 0) == m
  {
    var j := FindSlot(baked, phase, 0);
    if j < m {
      BeginMonotone(baked, j + 1, m);
    } else if m < j {
      BeginMonotone(baked, m + 1, j);
    }
  }

  lemma PhaseFromStart(baked: seq<Slot>, start: nat, phase: nat)
    requires phase < Total(baked) && start + Total(baked) <= U64
    ensures Phase(start + phase, start, Total(baked)) == phase
  {
    PhaseExact(start + phase, start, Total(baked));
  }

  /** The slot whose last nanosecond precedes slot `i`. */
  function Before(baked: seq<Slot>, i: nat): nat
    requires WellBaked(baked) && i < |baked|
  {
    if i > 0 then i - 1 else if baked[|baked| - 1].duration > 0 then |baked| - 1 else |baked| - 2
  }

  /** A frame that becomes ready one nanosecond before slot `i` begins... */
  function JustBefore(baked: seq<Slot>, i: nat): (phase: nat)
    requires WellBaked(baked) && i < |baked|
  {
    var m := Before(baked, i);
    Begin(baked, m) + baked[m].duration - 1
  }

  lemma JustBeforeInCycle(baked: seq<Slot>, i: nat)
    requires WellBaked(baked) && i < |baked|
    ensures JustBefore(baked, i) < Total(baked)
    ensures i == 0 ==> JustBefore(baked, i) == Total(baked) - 1
  {
    BeginMonotone(baked, Before(baked, i) + 1, |baked|);
    CycleIsTotal(baked);
  }

  /** ... is sent to slot `i`, or to a slot of a single nanosecond before it. */
  lemma TargetJustBefore(baked: seq<Slot>, sending: nat, i: nat)
    requires WellBaked(baked) && !Constant(baked) && sending > 1
    requires i < |baked| && baked[i].isOpen
    ensures JustBefore(baked, i) < Total(baked)
    ensures var s := Target(baked, JustBefore(baked, i), sending);
      SlotAt(baked, s) == baked[i] || SlotAt(baked, s).duration < sending
  {
    var n, m, phase := |baked|, Before(baked, i), JustBefore(baked, i);
    JustBeforeInCycle(baked, i);
    AlternatingParity(baked, i);
    AlternatingParity(baked, m);
    var k := if m == 0 || baked[m].duration >= 2 then m else m - 1;
    FindSlotUnique(baked, phase, k);
    AlternatingParity(baked, k);
    assert SlotAt(baked, n) == baked[0];
  }

  lemma ShortSlotBreaksOrder(baked: seq<Slot>, start: nat, sending: nat, i: nat)
    requires WellBaked(baked) && !Constant(baked) && sending > 1
    requires i < |baked| && baked[i].isOpen && baked[i].duration < sending
    requires start + Total(baked) <= U64
    ensures Total(baked) > JustBefore(baked, i)
    ensures !Ordered(Plan(baked, start, start + JustBefore(baked, i), sending, true).ts,
                     start + JustBefore(baked, i))
  {
    TargetJustBefore(baked, sending, i);
    PhaseFromStart(baked, start, JustBefore(baked, i));
  }

  /** The windows come out in order, whenever the frame becomes ready, exactly when every open
      stretch of the baked list has room for the frame. In particular an open padding slot, which a
      schedule gets by opening an even number of times and closing at both ends, always breaks it. */
  lemma OrderedIffFits(lane: seq<Slot>, start: nat, sending: nat)
    requires ValidLane(lane) && Changes(lane) && sending > 1
    requires start + Total(lane) <= U64
    ensures Total(Baked(lane)) > 0
    ensures (forall from: nat :: start <= from < U64 ==>
               Ordered(Plan(Baked(lane), start, from, sending, true).ts, from))
            <==> Fits(Baked(lane), sending)
  {
    var baked := Baked(lane);
    BakedMeaning(lane);
    if Fits(baked, sending) {
      forall from: nat | start <= from < U64
        ensures Ordered(Plan(baked, start, from, sending, true).ts, from)
      {
        FittingIsOrdered(baked, start, from, sending);
      }
    } else {
      var i :| 0 <= i < |baked| && baked[i].isOpen && sending > baked[i].duration;
      ShortSlotBreaksOrder(baked, start, sending, i);
    }
  }

  /** When the frame fits, `to` is the always-open marker only for a gate that never closes. */
  lemma MarkerIffAlwaysOpen(lane: seq<Slot>, start: nat, from: nat, sending: nat)
    requires ValidLane(lane) && Fits(Baked(lane), sending) && sending > 0
    ensures Total(lane) > 0 && Total(Baked(lane)) > 0
    ensures var p := Plan(Baked(lane), start, from, sending, true);
      p.ok && p.ts.to == AlwaysOpen(p.ts.from) <==> forall t: int :: Open(lane, start, t)
  {
    var baked := Baked(lane);
    BakedMeaning(lane);
    ConstantGates(lane, start, from, sending, true);
    if Changes(lane) {
      FittingIsOrdered(baked, start, from, sending);
      var i :| 0 <= i < |lane| && lane[i].isOpen != lane[0].isOpen;
      LaneGate(lane, start, 0, start);
      LaneGate(lane, start, i, start + Begin(lane, i));
    } else {
      OpenWhenConstant(baked, start, start);
      if baked[0].isOpen {
        forall t: int ensures Open(lane, start, t) {
          OpenAgrees(lane, start, t);
          OpenWhenConstant(baked, start, t);
        }
      }
    }
  }

  // ----- when the planner is early -----

  /** No start from `from` up to the planned one would have let the frame fit. */
  ghost predicate NothingEarlier(lane: seq<Slot>, start: nat, from: nat, sending: nat)
    requires ValidLane(lane) && Total(lane) > 0 && Total(Baked(lane)) > 0
  {
    forall t :: from <= t < Plan(Baked(lane), start, from, sending, true).ts.from ==>
      !Feasible(lane, start, t, sending)
  }

  lemma FeasibleOverWrap(baked: seq<Slot>, start: nat, from: nat, sending: nat)
    requires WellBaked(baked) && Padded(baked) && |baked| > 2 && baked[0].isOpen
    requires sending <= baked[0].duration && from == start + Total(baked) - 1
    ensures Total(baked) > 0 && Feasible(baked, start, from, sending)
  {
    var n := |baked|;
    CycleIsTotal(baked);
    AlternatingParity(baked, n - 2);
    assert SlotAt(baked, n) == baked[0];
    forall u | from <= u < from + sending
      ensures Open(baked, start, u)
    {
      OpenInSlot(baked, start, start, if u == from then n - 2 else n, u);
    }
  }

  lemma PlanOverWrap(baked: seq<Slot>, start: nat, from: nat, sending: nat)
    requires WellBaked(baked) && Padded(baked) && |baked| > 2 && baked[0].isOpen
    requires 1 < sending <= baked[|baked| - 2].duration && start + Total(baked) <= U64
    requires from == start + Total(baked) - 1
    ensures Total(baked) > 0 && Plan(baked, start, from, sending, true).ts.from == from + 1
  {
    var n, phase := |baked|, JustBefore(baked, 0);
    JustBeforeInCycle(baked, 0);
    PhaseFromStart(baked, start, phase);
    AlternatingParity(baked, n - 2);
    FindSlotUnique(baked, phase, n - 2);
    CycleIsTotal(baked);
    assert Target(baked, phase, sending) == n;
  }

  /** A frame ready in the last nanosecond of a cycle that ends and begins open could start at once,
      but is made to wait for the next cycle. */
  lemma LateAtTheWrap(lane: seq<Slot>, start: nat, from: nat, sending: nat)
    requires ValidLane(lane) && Changes(lane) && sending > 1
    requires lane[0].isOpen == lane[|lane| - 1].isOpen
    requires Fits(Baked(lane), sending) && start + Total(lane) <= U64
    requires from == start + Total(lane) - 1
    ensures Total(lane) > 0 && Total(Baked(lane)) > 0
    ensures Feasible(lane, start, from, sending)
    ensures Plan(Baked(lane), start, from, sending, true).ts.from == from + 1
  {
    var baked := Baked(lane);
    BakedMeaning(lane);
    FirstAndLastFit(baked, sending);
    FeasibleOverWrap(baked, start, from, sending);
    PlanOverWrap(baked, start, from, sending);
    FeasibleAgrees(lane, start, from, sending);
  }

  lemma FirstAndLastFit(baked: seq<Slot>, sending: nat)
    requires WellBaked(baked) && Padded(baked) && !Constant(baked) && Fits(baked, sending) && sending > 0
    ensures |baked| > 2 && baked[0].isOpen
    ensures sending <= baked[0].duration && sending <= baked[|baked| - 2].duration
  {
    AlternatingParity(baked, |baked| - 1);
    AlternatingParity(baked, |baked| - 2);
  }

  lemma TotalPositive(lane: seq<Slot>)
    requires ValidLane(lane)
    ensures Total(lane) > 0
  {
    BakedMeaning(lane);
  }

  lemma NotEarliestAtTheWrap(lane: seq<Slot>, start: nat, sending: nat)
    requires ValidLane(lane) && Changes(lane) && sending > 1
    requires lane[0].isOpen == lane[|lane| - 1].isOpen
    requires Fits(Baked(lane), sending) && start + Total(lane) <= U64
    ensures Total(lane) > 0 && Total(Baked(lane)) > 0
    ensures exists from: nat :: start <= from < U64 && !NothingEarlier(lane, start, from, sending)
  {
    TotalPositive(lane);
    var from := start + Total(lane) - 1;
    LateAtTheWrap(lane, start, from, sending);
    assert !NothingEarlier(lane, start, from, sending);
  }

  /** Among schedules whose open stretches have room for the frame, the planner always picks the
      earliest feasible start exactly when the class's first and last gates differ. */
  lemma EarliestIffNoWrap(lane: seq<Slot>, start: nat, sending: nat)
    requires ValidLane(lane) && Changes(lane) && sending > 1
    requires Fits(Baked(lane), sending) && start + Total(lane) <= U64
    ensures Total(Baked(lane)) == Total(lane) > 0
    ensures (forall from: nat :: start <= from < U64 ==> NothingEarlier(lane, start, from, sending))
            <==> lane[0].isOpen != lane[|lane| - 1].isOpen
  {
    BakedMeaning(lane);
    if lane[0].isOpen == lane[|lane| - 1].isOpen {
      NotEarliestAtTheWrap(lane, start, sending);
    } else {
      forall from: nat | start <= from < U64
        ensures NothingEarlier(lane, start, from, sending)
      {
        EarliestWithoutWrap(lane, start, from, sending);
      }
    }
  }

  lemma EarliestWithoutWrap(lane: seq<Slot>, start: nat, from: nat, sending: nat)
    requires ValidLane(lane) && lane[0].isOpen != lane[|lane| - 1].isOpen && sending > 0
    requires Fits(Baked(lane), sending) && start <= from < U64
    ensures Total(Baked(lane)) == Total(lane) > 0
    ensures NothingEarlier(lane, start, from, sending)
  {
    BakedMeaning(lane);
    FittingIsOrdered(Baked(lane), start, from, sending);
    var ts := Plan(Baked(lane), start, from, sending, true).ts;
    forall t | from <= t < ts.from
      ensures !Feasible(lane, start, t, sending)
    {
      WindowsAreExact(lane, start, from, sending, t);
    }
  }
}
