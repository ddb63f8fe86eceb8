/** The clocks of the link over a run of the driver: how long it will be busy, in all and for each priority. */
module LinkClock {
  import opened Arithmetic
  import opened Schedule
  import opened Planner
  import opened Admission
  import opened Windows

  /** The bits of a frame on the wire; at 1 Gbit/s each takes a nanosecond. */
  function Bits(op: Operation): nat
    requires op.Transmit?
  {
    8 * Max(op.bytes, 60)
  }

  /** The frame moves the clocks: always without a schedule, and otherwise when it is admitted. */
  predicate Sends(s: State, op: Operation)
    requires s.Formed() && op.Named()
  {
    op.Transmit? &&
    (s.Polled(op.regs).Unscheduled(op.tc) || s.Polled(op.regs).Admits(op.tc, op.priority))
  }

  /** The bits of all frames of a run that move the clocks, and of those of one priority. */
  function AllBits(s: State, ops: seq<Operation>): nat
    requires s.Sound() && AllSensible(ops)
    decreases |ops|
  {
    if ops == [] then 0
    else
      NextKeepsSound(s, ops[0]);
      (if Sends(s, ops[0]) then Bits(ops[0]) else 0) + AllBits(s.Next(ops[0]), ops[1..])
  }

  function BitsOf(s: State, ops: seq<Operation>, priority: Priority): nat
    requires s.Sound() && AllSensible(ops)
    decreases |ops|
  {
    if ops == [] then 0
    else
      NextKeepsSound(s, ops[0]);
      (if Sends(s, ops[0]) && ops[0].priority == priority then Bits(ops[0]) else 0)
      + BitsOf(s.Next(ops[0]), ops[1..], priority)
  }

  /** One operation moves the clock of the link, and that of the frame's priority, by the frame's bits. */
  lemma OneClocked(s: State, op: Operation)
    requires s.Formed() && op.Named()
    ensures var next := s.Next(op);
      && next.freeAt == s.freeAt + (if Sends(s, op) then Bits(op) else 0)
      && next.queueFreeAt[3] == s.queueFreeAt[3] + (if Sends(s, op) && op.priority == Gptp then Bits(op) else 0)
      && next.queueFreeAt[5] == s.queueFreeAt[5] + (if Sends(s, op) && op.priority == Vlan then Bits(op) else 0)
      && next.queueFreeAt[7] == s.queueFreeAt[7] + (if Sends(s, op) && op.priority == BestEffort then Bits(op) else 0)
      && forall i :: 0 <= i < 8 && i != 3 && i != 5 && i != 7 ==> next.queueFreeAt[i] == s.queueFreeAt[i]
  {
    if op.Transmit? {
      var p := s.Polled(op.regs);
      assert p.queueFreeAt == s.queueFreeAt && p.freeAt == s.freeAt;
      assert BytesToNs(op.bytes) == Bits(op);
    }
  }

  /** Over every run the clocks count the bits of all frames sent, and of those of each priority. */
  lemma {:induction false} ClocksCountBits(s: State, ops: seq<Operation>)
    requires s.Sound() && AllSensible(ops)
    ensures var end := Run(s, ops);
      && end.freeAt == s.freeAt + AllBits(s, ops)
      && end.queueFreeAt[3] == s.queueFreeAt[3] + BitsOf(s, ops, Gptp)
      && end.queueFreeAt[5] == s.queueFreeAt[5] + BitsOf(s, ops, Vlan)
      && end.queueFreeAt[7] == s.queueFreeAt[7] + BitsOf(s, ops, BestEffort)
    decreases |ops|
  {
    if ops != [] {
      NextKeepsSound(s, ops[0]);
      OneClocked(s, ops[0]);
      hide State.Next, Sends;
      ClocksCountBits(s.Next(ops[0]), ops[1..]);
    }
  }

  /** After every run, the window of a best-effort frame on a scheduled class begins when it has reached the card, its
      class has recovered, and all bits sent so far are through; with windows at all, none begins earlier. */
  lemma BestEffortWaitsForAll(s: State, ops: seq<Operation>, now: nat, tc: nat, ready: nat, lane: seq<Slot>, start: int,
                              sending: nat)
    requires s.Sound() && AllSensible(ops) && tc < TC_COUNT
    requires Run(s, ops).EarliestFor(now, tc, true, ready)
    requires ValidLane(lane) && Total(Baked(lane)) > 0
    ensures ready >= s.freeAt + AllBits(s, ops) && ready >= now + 30_000
    ensures var planned := Plan64(Baked(lane), start, ready, sending, false);
      planned.ok ==> planned.ts.from >= s.freeAt + AllBits(s, ops)
  {
    ClocksCountBits(s, ops);
    hide AllBits, Run;
    StartsWhenReady(lane, start, ready, sending, false);
  }

  /** A frame that is charged to its shaper is charged for its bits, at the earliest time at which it may be sent. */
  lemma ChargedForItsBits(s: State, op: Operation, tc: nat)
    requires s.Formed() && op.Named() && tc < TC_COUNT && s.Charged(op, tc) != []
    ensures var frame := s.Charged(op, tc)[0];
      && op.Transmit? && frame.duration == Bits(op)
      && s.EarliestFor(op.now, tc, op.priority == BestEffort, frame.at)
  {
    ReadyIsEarliest(s, op.now, tc, op.priority == BestEffort);
  }
}
