/** What the hardware queue holds over a run of the driver: the tracker's runs and the driver's are the same. */
module HardwareQueue {
  import opened Arithmetic
  import opened Schedule
  import opened Tracker
  import opened Admission

  /** An operation, and the true totals of the hardware at that moment. */
  datatype Moment = Moment(op: Operation, totals: Stats)

  function Ops(moments: seq<Moment>): (ops: seq<Operation>)
    ensures |ops| == |moments| && forall i :: 0 <= i < |ops| ==> ops[i] == moments[i].op
  {
    seq(|moments|, i requires 0 <= i < |moments| => moments[i].op)
  }

  /** What an operation is to the tracker: a frame arrives, and is taken if it is admitted. */
  function Occasions(s: State, m: Moment): seq<Occasion>
    requires s.Formed() && m.op.Named()
  {
    if !m.op.Transmit? then []
    else if s.Polled(m.op.regs).Admits(m.op.tc, m.op.priority) then [Arrived(m.totals), Taken]
    else [Arrived(m.totals)]
  }

  function AllOccasions(s: State, moments: seq<Moment>): seq<Occasion>
    requires s.Formed() && forall i :: 0 <= i < |moments| ==> moments[i].op.Named()
    decreases |moments|
  {
    if moments == [] then []
    else Occasions(s, moments[0]) + AllOccasions(s.Next(moments[0].op), moments[1..])
  }

  /** The totals when a frame arrives are at least the ones before, and the driver reads the registers that go with
      them; `seen` are the totals at the last poll. */
  predicate Witnessed(s: State, seen: Stats, now: Stats, moments: seq<Moment>)
    requires s.Formed() && (forall i :: 0 <= i < |moments| ==> moments[i].op.Named()) && seen.AtMost(now)
    decreases |moments|
  {
    moments == [] ||
    var op, totals := moments[0].op, moments[0].totals;
    if !op.Transmit? then Witnessed(s.Next(op), seen, now, moments[1..])
    else
      && now.AtMost(totals) && totals.Count() < U64
      && (s.track.Polls() ==> op.regs == Registers(seen, totals))
      && Witnessed(s.Next(op), if s.track.Polls() then totals else seen, totals, moments[1..])
  }

  /** The tracker's account of a driver state. */
  predicate Accounts(p: Polling, s: State) { p.track == s.track && p.sums == s.sums }

  /** A frame is an arrival, and one packet more if it is admitted. */
  lemma OneFrame(s: State, p: Polling, m: Moment)
    requires s.Formed() && m.op.Named() && m.op.Transmit? && Accounts(p, s) && p.seen.AtMost(m.totals)
    requires s.track.Polls() ==> m.op.regs == Registers(p.seen, m.totals)
    ensures var arrived := p.Step(Arrived(m.totals));
      && arrived.seen == (if s.track.Polls() then m.totals else p.seen)
      && if s.Polled(m.op.regs).Admits(m.op.tc, m.op.priority) then
           Accounts(arrived.Step(Taken), s.Next(m.op)) && arrived.Step(Taken).seen == arrived.seen
         else Accounts(arrived, s.Next(m.op))
  {
    var arrived, polled := p.Step(Arrived(m.totals)), s.Polled(m.op.regs);
    assert Accounts(arrived, polled);
    hide State.Polled, Polling.Step, Absorb, Registers, Track.Update;
    DecideTracks(polled, m.op.now, m.op.tc, m.op.priority, m.op.bytes);
    TakenTracks(arrived);
  }

  lemma DecideTracks(s: State, now: nat, tc: nat, priority: Priority, bytes: nat)
    requires s.Formed() && tc < TC_COUNT
    ensures var next := s.Decide(now, tc, priority, bytes);
      next.sums == s.sums && next.track == if s.Admits(tc, priority) then s.track.Append() else s.track
  {
  }

  lemma TakenTracks(p: Polling)
    ensures var q := p.Step(Taken); q.track == p.track.Append() && q.sums == p.sums && q.seen == p.seen
  {
  }

  lemma ConfigurationTracks(s: State, op: Operation)
    requires s.Formed() && op.Named() && !op.Transmit?
    ensures s.Next(op).track == s.track && s.Next(op).sums == s.sums
  {
  }

  /** One event at the front of a run of the tracker. */
  lemma PollStep(p: Polling, event: Occasion, rest: seq<Occasion>, now: Stats)
    requires p.seen.AtMost(now) && (event.Arrived? ==> now.AtMost(event.totals) && event.totals.Count() < U64)
    requires Advancing(rest, if event.Arrived? then event.totals else now)
    ensures var next := if event.Arrived? then event.totals else now;
      && Advancing([event] + rest, now) && p.Step(event).seen.AtMost(next)
      && Poll(p, [event] + rest, now) == Poll(p.Step(event), rest, next)
  {
    StepSeen(p, event);
    assert ([event] + rest)[1..] == rest;
  }

  function Latest(moments: seq<Moment>, now: Stats): Stats {
    if moments == [] then now
    else Latest(moments[1..], if moments[0].op.Transmit? then moments[0].totals else now)
  }

  lemma OpsRest(moments: seq<Moment>)
    requires moments != []
    ensures Ops(moments)[0] == moments[0].op && Ops(moments)[1..] == Ops(moments[1..])
  {
  }

  /** Any run of the driver is a run of the tracker: the queue and the sums it ends with are those of the tracker. */
  lemma {:induction false} DriverRunIsTrackerRun(s: State, p: Polling, now: Stats, moments: seq<Moment>)
    requires s.Sound() && AllSensible(Ops(moments)) && Accounts(p, s) && p.seen.AtMost(now)
    requires (forall i :: 0 <= i < |moments| ==> moments[i].op.Named()) && Witnessed(s, p.seen, now, moments)
    ensures var events := AllOccasions(s, moments);
      && Advancing(events, now) && Accounts(Poll(p, events, now), Admission.Run(s, Ops(moments)))
      && Poll(p, events, now).seen.AtMost(Latest(moments, now))
    decreases |moments|
  {
    if moments != [] {
      var m := moments[0];
      OpsRest(moments);
      assert Ops(moments)[0].Sensible();
      NextKeepsSound(s, m.op);
      var next, rest := s.Next(m.op), AllOccasions(s.Next(m.op), moments[1..]);
      assert Admission.Run(s, Ops(moments)) == Admission.Run(next, Ops(moments[1..]));
      if m.op.Transmit? {
        OneFrame(s, p, m);
        var arrived := p.Step(Arrived(m.totals));
        var admitted := s.Polled(m.op.regs).Admits(m.op.tc, m.op.priority);
        var q := if admitted then arrived.Step(Taken) else arrived;
        hide Polling.Step, State.Next, State.Polled, Poll, Admission.Run;
        DriverRunIsTrackerRun(next, q, m.totals, moments[1..]);
        if admitted {
          PollStep(arrived, Taken, rest, m.totals);
          PollStep(p, Arrived(m.totals), [Taken] + rest, now);
          assert [Arrived(m.totals), Taken] + rest == [Arrived(m.totals)] + ([Taken] + rest);
        } else {
          PollStep(p, Arrived(m.totals), rest, now);
        }
      } else {
        ConfigurationTracks(s, m.op);
        DriverRunIsTrackerRun(next, p, now, moments[1..]);
        assert [] + rest == rest;
      }
    }
  }

  /** Over any run of the driver in which the hardware finishes no more packets than it was given, polls come in time,
      so that the driver's sums are the true totals of its last poll; and what the hardware holds at any time is no more
      than what is pending, which is no more than its queue. */
  lemma QueueNeverOverflows(s: State, p: Polling, now: Stats, moments: seq<Moment>)
    requires s.Sound() && AllSensible(Ops(moments)) && Accounts(p, s) && p.seen.AtMost(now) && p.Accounted()
    requires (forall i :: 0 <= i < |moments| ==> moments[i].op.Named()) && Witnessed(s, p.seen, now, moments)
    requires Advancing(AllOccasions(s, moments), now) && Truthful(p, AllOccasions(s, moments), now)
    ensures var end, q := Admission.Run(s, Ops(moments)), Poll(p, AllOccasions(s, moments), now);
      && PolledInTime(p, AllOccasions(s, moments), now)
      && end.sums == q.seen && end.track == q.track
      && q.accepted - Latest(moments, now).Count() <= end.track.pending <= HW_QUEUE_SIZE
      && (p.Precise() ==> end.track.pending == q.accepted - q.seen.Count())
  {
    var events := AllOccasions(s, moments);
    DriverRunIsTrackerRun(s, p, now, moments);
    TruthfulIsInTime(p, events, now);
    PolledTrackerIsExact(p, events, now);
  }

  /** How many packets the queue must hold for the frame to be refused. */
  function Fill(s: State, op: Operation): nat
    requires s.Formed() && op.Named() && op.Transmit?
  {
    if !s.scheduled && !s.shapers[op.tc].enabled then 128 else if op.priority == BestEffort then 108 else 126
  }

  /** A frame is refused exactly when so many are pending, and then after a poll: the driver knows the counts of that
      moment. */
  lemma RefusedAfterPoll(s: State, op: Operation)
    requires s.Formed() && op.Named() && op.Transmit?
    ensures var p := s.Polled(op.regs);
      && (p.Admits(op.tc, op.priority) <==> p.track.pending < Fill(s, op))
      && (!p.Admits(op.tc, op.priority) ==> p.sums == Absorb(s.sums, op.regs) && p.track.last == p.sums.Sum())
  {
  }

  /** A frame is refused exactly when the hardware really is that full: with 108 packets or more for best effort, 126
      for any other, and 128 on a class without a schedule. */
  lemma OneRefusedWhenFull(s: State, p: Polling, m: Moment)
    requires s.Formed() && m.op.Named() && m.op.Transmit? && Accounts(p, s) && p.Accounted() && p.Precise()
    requires p.seen.AtMost(m.totals) && m.totals.Count() < U64 && m.totals.Count() <= p.accepted
    requires s.track.Polls() ==> m.op.regs == Registers(p.seen, m.totals)
    ensures !s.Polled(m.op.regs).Admits(m.op.tc, m.op.priority) <==> p.accepted - m.totals.Count() >= Fill(s, m.op)
  {
    RefusedAfterPoll(s, m.op);
    FewAreNear(p.seen, m.totals);
    StepIsExact(p, Arrived(m.totals));
    OneFrame(s, p, m);
  }

  /** The same of the next frame after any run of the driver against hardware that finishes no more than it was given:
      none is refused for counts that the driver has not read, and none is admitted past its limit. */
  lemma RefusedExactlyWhenFull(s: State, p: Polling, now: Stats, moments: seq<Moment>, m: Moment)
    requires s.Sound() && AllSensible(Ops(moments)) && Accounts(p, s) && p.seen.AtMost(now)
    requires p.Accounted() && p.Precise()
    requires (forall i :: 0 <= i < |moments| ==> moments[i].op.Named()) && Witnessed(s, p.seen, now, moments)
    requires Advancing(AllOccasions(s, moments), now) && Truthful(p, AllOccasions(s, moments), now)
    requires var end, q := Admission.Run(s, Ops(moments)), Poll(p, AllOccasions(s, moments), now);
      && m.op.Named() && m.op.Transmit? && q.seen.AtMost(m.totals)
      && m.totals.Count() < U64 && m.totals.Count() <= q.accepted
      && (end.track.Polls() ==> m.op.regs == Registers(q.seen, m.totals))
    ensures var end, q := Admission.Run(s, Ops(moments)), Poll(p, AllOccasions(s, moments), now);
      !end.Polled(m.op.regs).Admits(m.op.tc, m.op.priority) <==> q.accepted - m.totals.Count() >= Fill(end, m.op)
  {
    var events := AllOccasions(s, moments);
    DriverRunIsTrackerRun(s, p, now, moments);
    TruthfulIsInTime(p, events, now);
    PolledTrackerIsExact(p, events, now);
    OneRefusedWhenFull(Admission.Run(s, Ops(moments)), Poll(p, events, now), m);
  }
}
