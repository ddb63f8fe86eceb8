/** Admission as a state machine: what decides on frames, through any run of configuration and transmission. */
module Admission {
  import opened Arithmetic
  import opened Schedule
  import opened Planner
  import opened Shaper
  import opened Tracker

  const H2C_LATENCY_NS: nat := 30_000

  datatype Priority = Gptp | Vlan | BestEffort {
    /** The number that the hardware and the queue clocks use. */
    function Id(): nat {
      match this
      case Gptp => 3
      case Vlan => 5
      case BestEffort => 7
    }
  }

  /** C's division by 1000. */
  function TowardZero(x: int): int {
    if x < 0 then -(-x / 1000) else x / 1000
  }

  /** What a 32-bit signed variable holds. */
  function Int32(x: int): int { (x + U32 / 2) % U32 - U32 / 2 }

  /** A shaper once `tsn_set_qav` has configured it. Its running credit and times are kept. */
  function Reconfigured(q: Credit, enable: bool, hiCredit: int, loCredit: int, idleSlope: int, sendSlope: int): Credit {
    q.(enabled := enable, idleSlope := TowardZero(idleSlope), sendSlope := TowardZero(sendSlope),
    hi := Int32(hiCredit * 1000), lo := Int32(loCredit * 1000))
  }

  /** What the kernel asks of the schedule. */
  datatype Command = Replace | Destroy | Statistics

  /** A request to configure the schedule or a shaper, or a frame to transmit; `regs` are the counter registers
      at that moment. */
  datatype Operation =
    | SetQbv(command: Command, count: nat)
    | SetQav(queue: int, enable: bool, hiCredit: int, loCredit: int, idleSlope: int, sendSlope: int)
    | Transmit(now: nat, tc: nat, priority: Priority, bytes: nat, regs: Stats)
  {
    /** The frame is of an existing class. */
    predicate Named() {
      Transmit? ==> tc < TC_COUNT
    }

    /** The request does not switch on a shaper that cannot release every frame in order. */
    predicate Sensible() {
      match this
      case SetQbv(_, _) => true
      case SetQav(queue, enable, hiCredit, loCredit, idleSlope, sendSlope) =>
        0 <= queue < TC_COUNT ==> Reconfigured(OFF, enable, hiCredit, loCredit, idleSlope, sendSlope).Releasable()
      case Transmit(_, _, _, _, _) => Named()
    }
  }

  const OFF := Credit(false, 0, 0, 0, 0, 0, 0, 0)

  datatype State = State(
    scheduled: bool,
    shapers: seq<Credit>,
    freeAt: nat,
    queueFreeAt: seq<nat>,
    track: Track,
    sums: Stats)
  {
    predicate Formed() { |shapers| == TC_COUNT && |queueFreeAt| == TC_COUNT }

    /** What every sensible operation keeps. Credits may be anything. */
    predicate Sound() {
      Formed() && forall i :: 0 <= i < TC_COUNT ==> shapers[i].Sound()
    }

    /** With neither a schedule nor a shaper, baking puts an open schedule in place. */
    function Rebaked(): State {
      this.(scheduled := scheduled || forall i :: 0 <= i < |shapers| ==> !shapers[i].enabled)
    }

    /** A frame's arrival gives the tracker the chance to poll. */
    function Polled(regs: Stats): State {
      if track.Polls() then
        var next := Absorb(sums, regs);
        this.(track := track.Update(next.Sum()), sums := next)
      else this
    }

    /** Neither a schedule nor this class's shaper is in force. */
    predicate Unscheduled(tc: nat)
      requires tc < |shapers|
    {
      !scheduled && !shapers[tc].enabled
    }

    /** When a frame is ready to be sent, before the windows are considered. */
    function ReadyAt(now: nat, tc: nat, bestEffort: bool): nat
      requires tc < |shapers|
    {
      var ready := now + H2C_LATENCY_NS;
      var shaped := if shapers[tc].enabled && shapers[tc].availableAt > ready then shapers[tc].availableAt else ready;
      if bestEffort then Max(shaped, freeAt) else shaped
    }

    /** A frame that comes at `now` may be sent at `t`: it has been brought to the card by then, its class has
        recovered its credit, and a best-effort frame finds the link free. */
    predicate MaySendAt(now: nat, tc: nat, bestEffort: bool, t: nat)
      requires tc < |shapers|
    {
      && t >= now + 30_000
      && (shapers[tc].enabled ==> t >= shapers[tc].availableAt)
      && (bestEffort ==> t >= freeAt)
    }

    /** No earlier time will do. */
    ghost predicate EarliestFor(now: nat, tc: nat, bestEffort: bool, t: nat)
      requires tc < |shapers|
    {
      MaySendAt(now, tc, bestEffort, t) && forall u: nat :: MaySendAt(now, tc, bestEffort, u) ==> t <= u
    }

    /** How many pending packets make the driver refuse a frame. */
    function Threshold(tc: nat, priority: Priority): nat
      requires tc < |shapers|
    {
      if Unscheduled(tc) then HW_QUEUE_SIZE else if priority == BestEffort then BE_QUEUE_SIZE else TSN_QUEUE_SIZE
    }

    predicate Admits(tc: nat, priority: Priority)
      requires tc < |shapers|
    {
      track.pending < Threshold(tc, priority)
    }

    /** Charging a frame: the class's shaper, the clocks and the queue move on. */
    function Charge(tc: nat, priority: Priority, at: nat, duration: nat): State
      requires Formed() && tc < TC_COUNT
    {
      this.(shapers := shapers[tc := shapers[tc].Spend(at, duration)],
      freeAt := freeAt + duration,
      queueFreeAt := queueFreeAt[priority.Id() := queueFreeAt[priority.Id()] + duration],
      track := track.Append())
    }

    /** Without a schedule the clocks move on even when the queue is full. */
    function Decide(now: nat, tc: nat, priority: Priority, bytes: nat): State
      requires Formed() && tc < TC_COUNT
    {
      if Unscheduled(tc) || Admits(tc, priority) then
        Charge(tc, priority, ReadyAt(now, tc, priority == BestEffort), BytesToNs(bytes))
      else this
    }

    predicate DecisionTraps(now: nat, tc: nat, priority: Priority, bytes: nat)
      requires Formed() && tc < TC_COUNT
    {
      && shapers[tc].enabled && Admits(tc, priority)
      && shapers[tc].Traps(ReadyAt(now, tc, priority == BestEffort), BytesToNs(bytes))
    }

    function Next(op: Operation): State
      requires Formed() && op.Named()
    {
      match op
      case SetQbv(command, count) =>
        if count > MAX_QBV_SLOTS || command == Statistics then this
        else this.(scheduled := command == Replace).Rebaked()
      case SetQav(queue, enable, hiCredit, loCredit, idleSlope, sendSlope) =>
        if queue < 0 || queue >= TC_COUNT then this
        else
          var q := Reconfigured(shapers[queue], enable, hiCredit, loCredit, idleSlope, sendSlope);
          this.(shapers := shapers[queue := q]).Rebaked()
      case Transmit(now, tc, priority, bytes, regs) => Polled(regs).Decide(now, tc, priority, bytes)
    }

    /** The frame that an operation charges to the shaper of a class, if it charges one. */
    function Charged(op: Operation, tc: nat): seq<Frame>
      requires Formed() && op.Named() && tc < TC_COUNT
    {
      if op.Transmit? && op.tc == tc && shapers[tc].enabled && Polled(op.regs).Admits(tc, op.priority) then
        [Frame(ReadyAt(op.now, tc, op.priority == BestEffort), BytesToNs(op.bytes))]
      else []
    }

    /** Charging divides by zero. */
    predicate Traps(op: Operation)
      requires Formed() && op.Named()
    {
      op.Transmit? && Polled(op.regs).DecisionTraps(op.now, op.tc, op.priority, op.bytes)
    }

    /** Charging finds that the frame starts before the shaper is ready for it: "Invalid timestamp". */
    predicate Invalid(op: Operation)
      requires Formed() && op.Named()
    {
      op.Transmit? && Charged(op, op.tc) != [] && !shapers[op.tc].Accepts(Charged(op, op.tc)[0].at)
    }
  }

  // ----- one operation -----

  /** A frame is ready at the earliest time at which it may be sent. */
  lemma ReadyIsEarliest(s: State, now: nat, tc: nat, bestEffort: bool)
    requires tc < |s.shapers|
    ensures s.EarliestFor(now, tc, bestEffort, s.ReadyAt(now, tc, bestEffort))
    ensures forall t: nat :: s.EarliestFor(now, tc, bestEffort, t) ==> t == s.ReadyAt(now, tc, bestEffort)
  {
    var ready := s.ReadyAt(now, tc, bestEffort);
    assert s.MaySendAt(now, tc, bestEffort, ready);
  }

  lemma ChargeKeepsSound(s: State, tc: nat, priority: Priority, at: nat, duration: nat)
    requires s.Sound() && tc < TC_COUNT
    ensures s.Charge(tc, priority, at, duration).Sound()
  {
    var q := s.shapers[tc];
    if q.enabled && q.Accepts(at) {
      SpendFromSound(q, at, duration);
    }
  }

  /** With the shaper off it does not matter at what time a frame is charged. */
  lemma ChargeUnshaped(s: State, tc: nat, priority: Priority, at: nat, other: nat, duration: nat)
    requires s.Formed() && tc < TC_COUNT && !s.shapers[tc].enabled
    ensures s.Charge(tc, priority, at, duration) == s.Charge(tc, priority, other, duration)
  {
  }

  lemma NextKeepsSound(s: State, op: Operation)
    requires s.Sound() && op.Sensible()
    ensures s.Next(op).Sound()
  {
    if op.SetQav? && 0 <= op.queue < TC_COUNT {
      var q := Reconfigured(OFF, op.enable, op.hiCredit, op.loCredit, op.idleSlope, op.sendSlope);
      assert q.Releasable();
    }
    if op.Transmit? {
      var p := s.Polled(op.regs);
      ChargeKeepsSound(p, op.tc, op.priority, p.ReadyAt(op.now, op.tc, op.priority == BestEffort), BytesToNs(op.bytes));
      hide State.Charge;
    }
  }

  /** Admission is all or nothing. On a scheduled class an admitted frame takes its place in the queue, whose
      last check cannot fail, and moves the clocks; a refused one changes no shaper, no clock and no place. A
      frame without a schedule moves the clocks even when refused, but no shaper. */
  lemma AdmissionIsAtomic(s: State, op: Operation)
    requires s.Formed() && op.Named() && op.Transmit?
    ensures var p, next, duration := s.Polled(op.regs), s.Next(op), BytesToNs(op.bytes);
      && (p.Admits(op.tc, op.priority) <==> next.track.pending == p.track.pending + 1)
      && (!p.Admits(op.tc, op.priority) <==> next.track == p.track)
      && (!p.Unscheduled(op.tc) && !p.Admits(op.tc, op.priority) ==> next == p)
      && (p.Unscheduled(op.tc) ==> next.shapers == s.shapers)
      && (next.freeAt == s.freeAt + duration <==> p.Unscheduled(op.tc) || p.Admits(op.tc, op.priority))
      && (forall i :: 0 <= i < TC_COUNT && i != op.tc ==> next.shapers[i] == s.shapers[i])
  {
    assert BytesToNs(op.bytes) > 0;
    var p := s.Polled(op.regs);
    assert p.shapers[op.tc := p.shapers[op.tc]] == p.shapers;
  }

  /** A charged frame is accepted by its shaper and does not trap: the check inside `spend_qav_credit` never fails,
      nor does its division. */
  lemma ChargedIsAccepted(s: State, op: Operation, tc: nat)
    requires s.Sound() && op.Sensible() && tc < TC_COUNT && s.Charged(op, tc) != []
    ensures var frame := s.Charged(op, tc)[0];
      && s.shapers[tc].Accepts(frame.at) && !s.shapers[tc].Traps(frame.at, frame.duration)
      && s.Next(op).shapers[tc] == s.shapers[tc].Spend(frame.at, frame.duration)
      && s.Next(op).shapers[tc].availableAt >= frame.at + frame.duration
  {
    var frame := s.Charged(op, tc)[0];
    SpendFromSound(s.shapers[tc], frame.at, frame.duration);
  }

  /** What a frame does, in terms of the state after the poll; from a sound state it does not trap. */
  lemma TransmitParts(s: State, op: Operation)
    requires s.Formed() && op.Named() && op.Transmit?
    ensures var p := s.Polled(op.regs);
      && p.Formed() && s.Next(op) == p.Decide(op.now, op.tc, op.priority, op.bytes)
      && (s.Traps(op) <==> p.DecisionTraps(op.now, op.tc, op.priority, op.bytes))
      && p.ReadyAt(op.now, op.tc, op.priority == BestEffort) == s.ReadyAt(op.now, op.tc, op.priority == BestEffort)
    ensures s.Sound() ==> !s.Traps(op) && s.Next(op).Sound()
  {
    if s.Sound() {
      NextKeepsSound(s, op);
      if s.Charged(op, op.tc) != [] {
        ChargedIsAccepted(s, op, op.tc);
      }
    }
  }

  /** Whatever else happens to a class, its release is never taken back. */
  lemma ReleaseIsKept(s: State, op: Operation, tc: nat)
    requires s.Sound() && op.Sensible() && tc < TC_COUNT
    ensures s.Next(op).Sound()
    ensures s.Next(op).shapers[tc].availableAt >= s.shapers[tc].availableAt
    ensures s.Charged(op, tc) == [] && !(op.SetQav? && op.queue == tc) ==> s.Next(op).shapers[tc] == s.shapers[tc]
  {
    NextKeepsSound(s, op);
    if s.Charged(op, tc) != [] {
      ChargedIsAccepted(s, op, tc);
    }
  }

  // ----- whole runs -----

  predicate AllSensible(ops: seq<Operation>) {
    forall i :: 0 <= i < |ops| ==> ops[i].Sensible()
  }

  function Run(s: State, ops: seq<Operation>): (end: State)
    requires s.Sound() && AllSensible(ops)
    ensures end.Sound()
    decreases |ops|
  {
    if ops == [] then s
    else
      NextKeepsSound(s, ops[0]);
      Run(s.Next(ops[0]), ops[1..])
  }

  /** The frames charged to the shaper of a class, in order. */
  function AllCharged(s: State, ops: seq<Operation>, tc: nat): seq<Frame>
    requires s.Sound() && AllSensible(ops) && tc < TC_COUNT
    decreases |ops|
  {
    if ops == [] then []
    else
      NextKeepsSound(s, ops[0]);
      s.Charged(ops[0], tc) + AllCharged(s.Next(ops[0]), ops[1..], tc)
  }

  /** No frame of the run traps, and none is invalid. */
  predicate RunsWell(s: State, ops: seq<Operation>)
    requires s.Formed() && forall i :: 0 <= i < |ops| ==> ops[i].Named()
    decreases |ops|
  {
    ops == [] || (!s.Traps(ops[0]) && !s.Invalid(ops[0]) && RunsWell(s.Next(ops[0]), ops[1..]))
  }

  /** Over every run of schedule changes, sensible shaper changes and frames, from any sound state: the state stays
      sound, the queue never overflows, nothing divides by zero, and the "Invalid timestamp" branch is never taken. */
  lemma {:induction false} RunIsSafe(s: State, ops: seq<Operation>)
    requires s.Sound() && AllSensible(ops)
    ensures RunsWell(s, ops)
    ensures s.track.pending <= HW_QUEUE_SIZE ==> Run(s, ops).track.pending <= HW_QUEUE_SIZE
    decreases |ops|
  {
    if ops != [] {
      var op := ops[0];
      NextKeepsSound(s, op);
      if op.Transmit? && s.Charged(op, op.tc) != [] {
        ChargedIsAccepted(s, op, op.tc);
      }
      RunIsSafe(s.Next(op), ops[1..]);
    }
  }

  // ----- requests that are not sensible -----

  /** A state in which one class's shaper, still off, is in the given state. */
  function Idle(queue: nat, q: Credit): State
    requires queue < TC_COUNT
  {
    State(false, seq(TC_COUNT, i requires 0 <= i => if i == queue then q.(enabled := false) else OFF), 0,
          seq(TC_COUNT, _ => 0), Track(0, 0), Stats(0, 0, 0, 0, 0))
  }

  /** The shortest frame of the class, at the earliest time. */
  function Shortest(queue: nat): Operation { Transmit(0, queue, Vlan, 0, Stats(0, 0, 0, 0, 0)) }

  /** A shaper that cannot release every frame in order, once it is on, goes wrong with the first frame or the
      second. */
  lemma UnreleasableGoesWrong(q: Credit, queue: nat, s: State)
    requires queue < TC_COUNT && q.enabled && !q.Releasable()
    requires s.Formed() && s.shapers[queue] == Lowest(q, BytesToNs(0))
    requires s.track == Track(0, 0) && !s.scheduled
    ensures !RunsWell(s, [Shortest(queue), Shortest(queue)])
  {
    var op, low, duration := Shortest(queue), Lowest(q, BytesToNs(0)), BytesToNs(0);
    LowestGoesWrong(q, duration);
    var frame := s.Charged(op, queue)[0];
    assert frame == Frame(low.lastUpdate, duration);
    if !s.Traps(op) {
      var next := s.Next(op);
      assert next.shapers[queue] == low.Spend(low.lastUpdate, duration);
      assert next.Charged(op, queue)[0].at == Max(H2C_LATENCY_NS, next.shapers[queue].availableAt);
      assert next.Invalid(op);
      assert [op, op][1..] == [op];
    }
  }

  ghost predicate AlwaysRunsWell(op: Operation)
    requires op.Named()
  {
    forall s: State, rest: seq<Operation> :: s.Sound() && AllSensible(rest) ==> RunsWell(s, [op] + rest)
  }

  /** Whatever the state and whatever sensible operations follow, an operation leads to no trap and to no invalid
      frame, exactly when it is sensible. */
  lemma SensibleExact(op: Operation)
    requires op.Named()
    ensures AlwaysRunsWell(op) <==> op.Sensible()
  {
    if op.Sensible() {
      forall s: State, rest: seq<Operation> | s.Sound() && AllSensible(rest) ensures RunsWell(s, [op] + rest) {
        RunIsSafe(s, [op] + rest);
      }
    } else {
      var queue, q := op.queue, Reconfigured(OFF, op.enable, op.hiCredit, op.loCredit, op.idleSlope, op.sendSlope);
      var rest := [Shortest(queue), Shortest(queue)];
      var s := Idle(queue, Lowest(q, BytesToNs(0)));
      assert s.Next(op).shapers[queue] == Lowest(q, BytesToNs(0));
      UnreleasableGoesWrong(q, queue, s.Next(op));
      assert ([op] + rest)[1..] == rest;
      assert s.Sound() && !RunsWell(s, [op] + rest);
    }
  }

  /** The state at start-up. */
  function Initial(): State { Idle(0, OFF) }

  /** The library asks for an idle slope of 500 for a class with 500 kbit/s and frames of 512 bytes, which the driver
      rounds to none: its first frame divides by zero. */
  lemma SlowClassTraps(op: Operation, frame: Operation)
    requires op == SetQav(0, true, 3, -4093, 500, -999500)
    requires frame.Transmit? && frame.tc == 0 && frame.regs == Stats(0, 0, 0, 0, 0)
    ensures Initial().Next(op).Traps(frame)
  {
    var s := Initial().Next(op);
    assert s.shapers[0] == Credit(true, 0, -999, 3000, -4_093_000, 0, 0, 0);
  }

  /** With a negative slope the first frame is released before it ends, and the second is invalid. */
  lemma NegativeSlopeInvalid(op: Operation)
    requires op == SetQav(0, true, 0, -1000, -1000, -1000)
    ensures !RunsWell(Initial(), [op, Shortest(0), Shortest(0)])
  {
    var s, frame := Initial().Next(op), Shortest(0);
    assert s.shapers[0] == Credit(true, -1, -1, 0, -1_000_000, 0, 0, 0);
    var next := s.Next(frame);
    assert next.shapers[0] == Credit(true, -1, -1, 0, -1_000_000, -30_480, 30_480, 0);
    assert [op, frame, frame][1..] == [frame, frame] && [frame, frame][1..] == [frame];
    assert next.Invalid(frame) && !RunsWell(next, [frame]);
    assert !RunsWell(s, [frame, frame]);
  }

  // ----- what is charged -----

  lemma {:induction false} ChargedAfterRelease(s: State, ops: seq<Operation>, tc: nat, k: nat)
    requires s.Sound() && AllSensible(ops) && tc < TC_COUNT && k < |AllCharged(s, ops, tc)|
    ensures AllCharged(s, ops, tc)[k].at >= s.shapers[tc].availableAt
    decreases |ops|
  {
    var op := ops[0];
    var first := s.Charged(op, tc);
    ReleaseIsKept(s, op, tc);
    if k < |first| {
      ChargedIsAccepted(s, op, tc);
    } else {
      ChargedAfterRelease(s.Next(op), ops[1..], tc, k - |first|);
    }
  }

  /** Over every sensible run, whatever is reconfigured in between, the charged starts of a class are at least a frame
      duration apart. */
  lemma {:induction false} ChargedApart(s: State, ops: seq<Operation>, tc: nat, j: nat, k: nat)
    requires s.Sound() && AllSensible(ops) && tc < TC_COUNT && j < k < |AllCharged(s, ops, tc)|
    ensures var frames := AllCharged(s, ops, tc);
      frames[j].at + frames[j].duration <= frames[k].at
    decreases |ops|
  {
    var op := ops[0];
    var first := s.Charged(op, tc);
    ReleaseIsKept(s, op, tc);
    assert |first| <= 1;
    if j < |first| {
      ChargedIsAccepted(s, op, tc);
      hide State.Charged, State.Next, State.Sound, Credit.Spend;
      ChargedAfterRelease(s.Next(op), ops[1..], tc, k - |first|);
    } else {
      hide State.Charged, State.Next, State.Sound, Credit.Spend;
      ChargedApart(s.Next(op), ops[1..], tc, j - |first|, k - |first|);
    }
  }

  predicate LeftAlone(ops: seq<Operation>, tc: nat) {
    forall i :: 0 <= i < |ops| ==> !(ops[i].SetQav? && ops[i].queue == tc)
  }

  /** An accepted frame before an accepted run. */
  lemma FrameBefore(q: Credit, q1: Credit, frame: Frame, rest: seq<Frame>)
    requires q.Configured() && q1.Configured()
    requires q.Accepts(frame.at) && q1 == q.Spend(frame.at, frame.duration) && Accepted(q1, rest)
    ensures Accepted(q, [frame] + rest) && After(q, [frame] + rest) == After(q1, rest)
  {
    assert ([frame] + rest)[1..] == rest;
    hide Credit.Spend;
  }

  /** One operation on a class whose shaper is left alone. */
  lemma ChargedStep(s: State, op: Operation, tc: nat)
    requires s.Sound() && op.Sensible() && tc < TC_COUNT && !(op.SetQav? && op.queue == tc)
    requires s.shapers[tc].enabled && s.shapers[tc].Valid()
    ensures var first, q, q1 := s.Charged(op, tc), s.shapers[tc], s.Next(op).shapers[tc];
      && s.Next(op).Sound() && q1.enabled && q1.Valid()
      && (first == [] ==> q1 == q)
      && (first != [] ==>
            |first| == 1 && q.Accepts(first[0].at) && q1 == q.Spend(first[0].at, first[0].duration))
  {
    ReleaseIsKept(s, op, tc);
    if s.Charged(op, tc) != [] {
      ChargedIsAccepted(s, op, tc);
      var frame := s.Charged(op, tc)[0];
      SpendKeepsValid(s.shapers[tc], frame.at, frame.duration);
    }
  }

  /** As long as a class's shaper is not reconfigured, its charged frames are an accepted run of that shaper, so
      that what holds of such runs, the bandwidth bound in particular, holds of the driver. */
  lemma {:induction false} ChargedIsAcceptedRun(s: State, ops: seq<Operation>, tc: nat)
    requires s.Sound() && AllSensible(ops) && tc < TC_COUNT && LeftAlone(ops, tc)
    requires s.shapers[tc].enabled && s.shapers[tc].Valid()
    ensures Accepted(s.shapers[tc], AllCharged(s, ops, tc))
    ensures After(s.shapers[tc], AllCharged(s, ops, tc)) == Run(s, ops).shapers[tc]
    decreases |ops|
  {
    if ops != [] {
      var op := ops[0];
      assert !(op.SetQav? && op.queue == tc);
      ChargedStep(s, op, tc);
      var first, rest := s.Charged(op, tc), AllCharged(s.Next(op), ops[1..], tc);
      ChargedIsAcceptedRun(s.Next(op), ops[1..], tc);
      hide State.Next, State.Charged, Credit.Spend, Accepted, After;
      if first == [] {
        assert first + rest == rest;
      } else {
        assert first == [first[0]];
        FrameBefore(s.shapers[tc], s.Next(op).shapers[tc], first[0], rest);
      }
    }
  }
}
