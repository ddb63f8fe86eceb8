/** Where a frame may start: the windows that `get_timestamps` derives from a class's baked list. */
module Planner {
  import opened Arithmetic
  import opened Schedule

  const ETH_ZLEN: nat := 60
  const NS_IN_1S: nat := 1_000_000_000
  const LINK_SPEED: nat := 1_000_000_000

  datatype Timestamps = Timestamps(from: int, to: int, delayFrom: int, delayTo: int)

  /** The result of planning: `ok` is false when the gate never opens. */
  datatype Planned = Planned(ok: bool, ts: Timestamps)

  const NO_TIMESTAMPS := Timestamps(0, 0, 0, 0)

  function BytesToNs(bytes: nat): nat {
    Max(bytes, ETH_ZLEN) * 8 * NS_IN_1S / LINK_SPEED
  }

  /** The marker that the driver puts in `to` when the window never closes. */
  function AlwaysOpen(from: int): int { from - 1 }

  // ----- the schedule as time goes by -----

  /** The gate at an instant of the schedule that starts at `start` and repeats for ever. */
  predicate Open(slots: seq<Slot>, start: int, t: int)
    requires Total(slots) > 0
  {
    GateAt(slots, Rem(t - start, Total(slots)))
  }

  /** A frame sent at `t` stays inside open time. */
  ghost predicate Feasible(slots: seq<Slot>, start: int, t: int, sending: nat)
    requires Total(slots) > 0
  {
    forall u :: t <= u < t + sending ==> Open(slots, start, u)
  }

  /** `i % n` by repeated subtraction. */
  function Wrap(i: nat, n: nat): (w: nat)
    requires n > 0
    ensures w < n
    ensures i < n ==> w == i
  {
    if i < n then i else Wrap(i - n, n)
  }

  /** Slot `i` when the list is repeated without end. */
  function SlotAt(slots: seq<Slot>, i: nat): Slot
    requires slots != []
  {
    slots[Wrap(i, |slots|)]
  }

  /** Where slot `i` begins when the list is repeated without end. */
  function Begin(slots: seq<Slot>, i: nat): nat
    requires slots != []
  {
    if i == 0 then 0 else Begin(slots, i - 1) + SlotAt(slots, i - 1).duration
  }

  lemma {:induction false} BeginIsTotal(slots: seq<Slot>, i: nat)
    requires slots != [] && i <= |slots|
    ensures Begin(slots, i) == Total(slots[..i])
  {
    if i > 0 {
      BeginIsTotal(slots, i - 1);
      assert slots[..i][..i - 1] == slots[..i - 1];
    }
  }

  lemma CycleIsTotal(slots: seq<Slot>)
    requires slots != []
    ensures Begin(slots, |slots|) == Total(slots)
  {
    BeginIsTotal(slots, |slots|);
    assert slots[..|slots|] == slots;
  }

  lemma {:induction false} BeginMonotone(slots: seq<Slot>, i: nat, j: nat)
    requires slots != [] && i <= j
    ensures Begin(slots, i) <= Begin(slots, j)
    decreases j
  {
    if i < j {
      BeginMonotone(slots, i, j - 1);
    }
  }

  lemma {:induction false} BeginPeriodic(slots: seq<Slot>, i: nat)
    requires slots != []
    ensures Begin(slots, i + |slots|) == Begin(slots, i) + Total(slots)
  {
    if i == 0 {
      CycleIsTotal(slots);
    } else {
      BeginPeriodic(slots, i - 1);
    }
  }

  lemma {:induction false} GateInSlot(slots: seq<Slot>, i: nat, offset: nat)
    requires i < |slots|
    requires Begin(slots, i) <= offset < Begin(slots, i + 1)
    ensures offset < Total(slots) && GateAt(slots, offset) == slots[i].isOpen
  {
    var n := |slots| - 1;
    BeginIsTotal(slots, i);
    BeginIsTotal(slots, i + 1);
    if i == n {
      assert slots[..i + 1] == slots;
    } else {
      var init := slots[..n];
      assert init[..i] == slots[..i] && init[..i + 1] == slots[..i + 1];
      BeginIsTotal(init, i);
      BeginIsTotal(init, i + 1);
      GateInSlot(init, i, offset);
    }
  }

  /** `base` is the beginning of a repetition of the cycle. */
  ghost predicate CycleStart(base: int, start: int, cycle: nat)
    requires cycle > 0
  {
    Rem(base - start, cycle) == 0
  }

  /** During (unrolled) slot `i` after the start of a cycle, the gate is that slot's gate. */
  lemma {:induction false} OpenInSlot(slots: seq<Slot>, start: int, base: int, i: nat, t: int)
    requires slots != [] && Total(slots) > 0 && CycleStart(base, start, Total(slots))
    requires base + Begin(slots, i) <= t < base + Begin(slots, i + 1)
    ensures Open(slots, start, t) == SlotAt(slots, i).isOpen
    decreases i
  {
    var cycle := Total(slots);
    if i < |slots| {
      GateInSlot(slots, i, t - base);
      RemFromMultiple(base - start, t - base, cycle);
    } else {
      BeginPeriodic(slots, i - |slots|);
      BeginPeriodic(slots, i + 1 - |slots|);
      RemShift(base - start, cycle);
      hide Begin, Total, GateAt;
      OpenInSlot(slots, start, base + cycle, i - |slots|, t);
    }
  }

  // ----- the planner -----

  /** Position in the cycle, in 64-bit unsigned arithmetic as the driver computes it. */
  function Phase(from: int, start: int, cycle: nat): (phase: nat)
    requires cycle > 0
    ensures phase < cycle
  {
    Rem((from - start) % U64, cycle)
  }

  /** The first slot whose end is not before the offset. An offset on a boundary belongs to the slot
      that ends there. */
  function FindSlot(baked: seq<Slot>, phase: nat, k: nat): (slot: nat)
    requires k < |baked| && phase < Total(baked)
    requires Begin(baked, k) <= phase && (k > 0 ==> Begin(baked, k) < phase)
    ensures k <= slot < |baked|
    ensures Begin(baked, slot) <= phase <= Begin(baked, slot + 1)
    ensures slot > 0 ==> Begin(baked, slot) < phase
    decreases |baked| - k
  {
    CycleIsTotal(baked);
    if phase - Begin(baked, k) > baked[k].duration then FindSlot(baked, phase, k + 1) else k
  }

  /** The (unrolled) slot that the planner aims for. */
  function Target(baked: seq<Slot>, phase: nat, sending: nat): (target: nat)
    requires |baked| > 0 && phase < Total(baked)
  {
    var k := FindSlot(baked, phase, 0);
    if !baked[k].isOpen then k + 1
    else if Begin(baked, k + 1) - phase < sending then k + 2
    else k
  }

  predicate Constant(baked: seq<Slot>) {
    |baked| == 2 && baked[1].duration == 0
  }

  /** The windows of a frame that is ready at `from`, which is `phase` into the cycle, when the gate
      does change. */
  function WindowsAt(baked: seq<Slot>, phase: nat, from: int, sending: nat, delay: bool): Timestamps
    requires |baked| > 0 && phase < Total(baked)
  {
    var base := from - phase;
    var s := Target(baked, phase, sending);
    Timestamps(
      Max(base + Begin(baked, s), from),
      base + Begin(baked, s + 1) - sending,
      if delay then base + Begin(baked, s + 2) else 0,
      if delay then base + Begin(baked, s + 3) - sending else 0)
  }

  /** The windows of a frame that is ready at `from` and takes `sending` nanoseconds. */
  function Plan(baked: seq<Slot>, start: int, from: int, sending: nat, delay: bool): Planned
    requires |baked| > 0 && Total(baked) > 0
  {
    if Constant(baked) then
      if !baked[0].isOpen then Planned(false, NO_TIMESTAMPS)
      else
        Planned(true, Timestamps(from, AlwaysOpen(from),
                                 if delay then from else 0, if delay then AlwaysOpen(from) else 0))
    else
      Planned(true, WindowsAt(baked, Phase(from, start, Total(baked)), from, sending, delay))
  }

  /** What a 64-bit unsigned variable holds. */
  function Unsigned(x: int): nat { x % U64 }

  /** The same in 64-bit unsigned arithmetic, as the driver computes it. */
  function Windows64(baked: seq<Slot>, phase: nat, from: int, sending: nat, delay: bool): Timestamps
    requires |baked| > 0 && phase < Total(baked)
  {
    var base := from - phase;
    var s := Target(baked, phase, sending);
    Timestamps(
      Max(Unsigned(base + Begin(baked, s)), from),
      Unsigned(base + Begin(baked, s + 1) - sending),
      if delay then Unsigned(base + Begin(baked, s + 2)) else 0,
      if delay then Unsigned(base + Begin(baked, s + 3) - sending) else 0)
  }

  function Plan64(baked: seq<Slot>, start: int, from: int, sending: nat, delay: bool): Planned
    requires |baked| > 0 && Total(baked) > 0
  {
    if Constant(baked) then
      if !baked[0].isOpen then Planned(false, NO_TIMESTAMPS)
      else
        var open := Unsigned(AlwaysOpen(from));
        Planned(true, Timestamps(from, open, if delay then from else 0, if delay then open else 0))
    else
      Planned(true, Windows64(baked, Phase(from, start, Total(baked)), from, sending, delay))
  }

  predicate InWindow(ts: Timestamps, t: int) { ts.from <= t <= ts.to }

  predicate InRetryWindow(ts: Timestamps, t: int) { ts.delayFrom <= t <= ts.delayTo }

  // ----- the planner as the driver computes it -----

  lemma {:induction false} WrapNext(i: nat, n: nat)
    requires n > 0
    ensures Wrap(i + 1, n) == if Wrap(i, n) + 1 == n then 0 else Wrap(i, n) + 1
  {
    if i >= n {
      WrapNext(i - n, n);
    }
  }

  /** The next index modulo the length is the index of the next slot of the repeated list. */
  lemma NextSlot(baked: seq<Slot>, i: nat)
    requires baked != []
    ensures (Wrap(i, |baked|) + 1) % |baked| == Wrap(i + 1, |baked|)
  {
    WrapNext(i, |baked|);
    var w := Wrap(i, |baked|);
    if w + 1 == |baked| {
      ModUnique(w + 1, 1, 0, |baked|);
    } else {
      ModUnique(w + 1, 0, w + 1, |baked|);
    }
  }

  /** Walks the list to the slot that covers the given position. */
  method CurrentSlot(baked: seq<Slot>, phase: nat) returns (slotId: nat, remainder: nat)
    requires baked != [] && phase < Total(baked)
    ensures slotId == FindSlot(baked, phase, 0)
    ensures remainder == phase - Begin(baked, slotId)
  {
    slotId, remainder := 0, phase;
    while remainder > baked[slotId].duration
      invariant slotId < |baked| && remainder == phase - Begin(baked, slotId)
      invariant slotId > 0 ==> remainder > 0
      invariant FindSlot(baked, phase, slotId) == FindSlot(baked, phase, 0)
      decreases |baked| - slotId
    {
      CycleIsTotal(baked);
      remainder := remainder - baked[slotId].duration;
      slotId := slotId + 1;
    }
  }

  /** The index after `slotId`, which is that of slot `i` of the repeated list. */
  method Advance(baked: seq<Slot>, slotId: nat, ghost i: nat) returns (next: nat)
    requires baked != [] && slotId == Wrap(i, |baked|)
    ensures next == Wrap(i + 1, |baked|)
  {
    NextSlot(baked, i);
    next := (slotId + 1) % |baked|;
  }

  /** Chooses the slot to send in: where it begins, and its index. */
  method ChooseSlot(baked: seq<Slot>, phase: nat, from: int, sending: nat) returns (begin: int, slotId: nat)
    requires baked != [] && phase < Total(baked)
    ensures var target := Target(baked, phase, sending);
      && slotId == Wrap(target, |baked|)
      && begin == from - phase + Begin(baked, target)
  {
    var remainder: nat;
    slotId, remainder := CurrentSlot(baked, phase);
    ghost var k := slotId;
    if baked[slotId].isOpen {
      if baked[slotId].duration - remainder < sending {
        // Not enough of the slot is left: skip it and the closed one after it.
        begin := from - remainder + baked[slotId].duration;
        slotId := Advance(baked, slotId, k);
        begin := begin + baked[slotId].duration;
        slotId := Advance(baked, slotId, k + 1);
      } else {
        begin := from - remainder;
      }
    } else {
      begin := from - remainder + baked[slotId].duration;
      slotId := Advance(baked, slotId, k);
    }
  }

  /** The body of `get_timestamps` once the schedule is known to be in force. Slot indices wrap around
      the list; the result is the 64-bit plan, in which the list is repeated. */
  method GetWindows(baked: seq<Slot>, cycleNs: nat, start: nat, from: nat, sending: nat, considerDelay: bool)
    returns (planned: Planned)
    requires |baked| >= 2 && cycleNs == Total(baked) > 0
    ensures planned == Plan64(baked, start, from, sending, considerDelay)
  {
    if |baked| == 2 && baked[1].duration == 0 {
      if !baked[0].isOpen {
        return Planned(false, NO_TIMESTAMPS);
      }
      var open := Unsigned(AlwaysOpen(from));
      return Planned(true, Timestamps(from, open,
                                      if considerDelay then from else 0, if considerDelay then open else 0));
    }
    var ts := FindWindows(baked, Phase(from, start, cycleNs), from, sending, considerDelay);
    return Planned(true, ts);
  }

  /** Sums and differences wrap around only once they are complete, which makes no difference to the result. */
  method FindWindows(baked: seq<Slot>, phase: nat, from: nat, sending: nat, considerDelay: bool)
    returns (ts: Timestamps)
    requires baked != [] && phase < Total(baked)
    ensures ts == Windows64(baked, phase, from, sending, considerDelay)
  {
    ghost var target := Target(baked, phase, sending);
    var begin, slotId := ChooseSlot(baked, phase, from, sending);
    var to := begin + baked[slotId].duration;
    var delayFrom: int, delayTo: int := 0, 0;
    if considerDelay {
      delayFrom := begin + baked[slotId].duration;
      slotId := Advance(baked, slotId, target);
      delayFrom := delayFrom + baked[slotId].duration;
      slotId := Advance(baked, slotId, target + 1);
      delayTo := Unsigned(delayFrom + baked[slotId].duration - sending);
      delayFrom := Unsigned(delayFrom);
    }
    return Timestamps(Max(Unsigned(begin), from), Unsigned(to - sending), delayFrom, delayTo);
  }

  // ----- before the schedule starts -----

  /** The 64-bit position is the schedule's own position exactly from the start on; before the start
      the subtraction wraps around, which is harmless only if the cycle divides 2^64. */
  lemma PhaseExact(from: nat, start: nat, cycle: nat)
    requires from < U64 && start < U64 && cycle > 0
    ensures Phase(from, start, cycle) == Rem(from - start, cycle) <==> from >= start || Rem(U64, cycle) == 0
  {
    if from < start {
      ModUnique(from - start, -1, from - start + U64, U64);
      ModShift(from - start, U64, cycle);
      RemIsMod(from - start, cycle);
      RemIsMod(from - start + U64, cycle);
      RemIsMod(U64, cycle);
    }
  }

  // ----- when 64 bits are enough -----

  /** Where the unrolled slots around the target lie: it ends after the given position, and three slots later at most
      three cycles have begun. */
  lemma TargetWithin(baked: seq<Slot>, phase: nat, sending: nat)
    requires |baked| >= 2 && phase < Total(baked)
    ensures var s := Target(baked, phase, sending);
      phase <= Begin(baked, s + 1) && Begin(baked, s + 3) <= 3 * Total(baked)
  {
    var n, k, s := |baked|, FindSlot(baked, phase, 0), Target(baked, phase, sending);
    assert k < n && phase <= Begin(baked, k + 1) && k <= s <= k + 2;
    CycleIsTotal(baked);
    BeginPeriodic(baked, n);
    BeginPeriodic(baked, n + n);
    hide Begin, Target, Total, FindSlot;
    BeginMonotone(baked, k + 1, s + 1);
    BeginMonotone(baked, s + 3, n + n + n);
  }

  /** None of the four times leaves the width. */
  lemma TimesInWidth(baked: seq<Slot>, phase: nat, from: int, sending: nat, s: nat)
    requires |baked| >= 2 && phase < Total(baked) && s == Target(baked, phase, sending)
    requires sending <= from && phase <= from && from + 3 * Total(baked) < U64
    ensures 0 <= from - phase + Begin(baked, s) < U64 && 0 <= from - phase + Begin(baked, s + 1) - sending < U64
    ensures 0 <= from - phase + Begin(baked, s + 2) < U64 && 0 <= from - phase + Begin(baked, s + 3) - sending < U64
  {
    TargetWithin(baked, phase, sending);
    hide Begin, Target, Total;
    BeginMonotone(baked, s, s + 1);
    BeginMonotone(baked, s + 1, s + 2);
    BeginMonotone(baked, s + 2, s + 3);
  }

  lemma InWidth(x: int)
    requires 0 <= x < U64
    ensures Unsigned(x) == x
  {
  }

  lemma WindowsAgree(baked: seq<Slot>, phase: nat, from: int, sending: nat, delay: bool)
    requires |baked| >= 2 && phase < Total(baked)
    requires sending <= from && phase <= from && from + 3 * Total(baked) < U64
    ensures Windows64(baked, phase, from, sending, delay) == WindowsAt(baked, phase, from, sending, delay)
  {
    var s := Target(baked, phase, sending);
    TimesInWidth(baked, phase, from, sending, s);
    hide Begin, Target, Total, Unsigned;
    InWidth(from - phase + Begin(baked, s));
    InWidth(from - phase + Begin(baked, s + 1) - sending);
    InWidth(from - phase + Begin(baked, s + 2));
    InWidth(from - phase + Begin(baked, s + 3) - sending);
  }

  /** The 64-bit plan is the plan without a width whenever the frame is ready no earlier than it takes to send it and
      than it is into the cycle, and three cycles from then are still in 64 bits. */
  lemma WidthSuffices(baked: seq<Slot>, start: int, from: int, sending: nat, delay: bool)
    requires |baked| >= 2 && Total(baked) > 0
    requires sending <= from && 0 < from && Phase(from, start, Total(baked)) <= from
    requires from + 3 * Total(baked) < U64
    ensures Plan64(baked, start, from, sending, delay) == Plan(baked, start, from, sending, delay)
  {
    WindowsAgree(baked, Phase(from, start, Total(baked)), from, sending, delay);
    hide Windows64, WindowsAt, Phase, Total;
  }
}
