/** Several reports of one run of the hardware: the engine stays busy, and its register counts all descriptors completed
    since it was started. */
module HardwareRun {
  import opened Arithmetic
  import opened Transfers
  import opened TransferQueue

  /** How many transfers a report takes off. */
  function TakenBy(nums: seq<nat>, count: nat): (taken: nat)
    ensures taken <= |nums|
    ensures forall i :: 0 <= i < |nums| ==> (i < taken <==> TakenOff(nums, count, i))
  {
    if nums == [] then 0
    else
      var n := |nums| - 1;
      TakenOfPrefix(nums, count, n);
      if TakenOff(nums, count, n) then
        TakenBefore(nums, count, n);
        |nums|
      else TakenBy(nums[..n], count)
  }

  lemma TakenOfPrefix(nums: seq<nat>, count: nat, n: nat)
    requires n <= |nums|
    ensures forall i :: 0 <= i < n ==> (TakenOff(nums[..n], count, i) <==> TakenOff(nums, count, i))
  {
    forall i | 0 <= i < n ensures TakenOff(nums[..n], count, i) <==> TakenOff(nums, count, i) {
      BeforeOfPrefix(nums, n, i);
    }
  }

  lemma {:induction false} BeforeOfPrefix(nums: seq<nat>, n: nat, i: nat)
    requires i <= n <= |nums|
    ensures Before(nums[..n], i) == Before(nums, i)
  {
    if i > 0 {
      BeforeOfPrefix(nums, n, i - 1);
    }
  }

  lemma TakenBefore(nums: seq<nat>, count: nat, n: nat)
    requires n < |nums| && TakenOff(nums, count, n)
    ensures forall i :: 0 <= i < n ==> TakenOff(nums, count, i)
  {
    forall i | 0 <= i < n ensures TakenOff(nums, count, i) {
      TakenOffIsPrefix(nums, count, false, i, n);
    }
  }

  /** The transfers that were queued when the run began, by their numbers of descriptors, and how far they are
      settled. */
  datatype Progress = Progress(nums: seq<nat>, states: seq<TransferState>, taken: nat)
  {
    predicate Sound() { taken <= |nums| == |states| }

    /** What is left of a count after what this run has settled, in 32 bits. */
    function Left(count: nat): nat
      requires Sound()
    {
      (count - Before(nums, taken)) % U32
    }

    /** One service call while the hardware is busy. With an empty queue the engine no longer runs, and nothing
        happens. */
    function Serve(count: nat): (next: Progress)
      requires Sound()
      ensures next.Sound() && next.nums == nums && next.taken >= taken
    {
      var n := TakenBy(nums[taken..], Left(count));
      Progress(nums,
               seq(|states|, i requires 0 <= i < |states| =>
                 if taken <= i < taken + n then Verdict(nums[taken..], Left(count), false, i - taken) else states[i]),
               taken + n)
    }
  }

  function Start(nums: seq<nat>, states: seq<TransferState>): Progress {
    Progress(nums, states, 0)
  }

  function ServeAll(nums: seq<nat>, states: seq<TransferState>, counts: seq<nat>): (end: Progress)
    requires |nums| == |states|
    ensures end.Sound() && end.nums == nums
  {
    if counts == [] then Start(nums, states)
    else ServeAll(nums, states, counts[..|counts| - 1]).Serve(counts[|counts| - 1])
  }

  /** Exactly the transfers that the count reaches into are settled: completed if it reaches their end. */
  predicate AsCounted(p: Progress, before: seq<TransferState>, count: nat) {
    && p.Sound() && |before| == |p.nums|
    && forall i :: 0 <= i < |p.nums| ==>
         && (i < p.taken <==> Before(p.nums, i) < count)
         && p.states[i] == if Before(p.nums, i) >= count then before[i]
                           else if Before(p.nums, i + 1) <= count then Completed else Failed
  }

  /** The count stands at the end of a transfer. */
  ghost predicate AtAnEnd(nums: seq<nat>, count: nat) {
    exists k :: 0 <= k <= |nums| && Before(nums, k) == count
  }

  /** A later count changes nothing about what the earlier one settled, and goes on from there. */
  ghost predicate FollowsOn(nums: seq<nat>, earlier: nat, later: nat) {
    if nums == [] then true
    else if Before(nums, |nums| - 1) < earlier then Before(nums, |nums|) <= earlier || later < Before(nums, |nums|)
    else AtAnEnd(nums, earlier) && earlier < later
  }

  predicate AllPositive(nums: seq<nat>) {
    forall i :: 0 <= i < |nums| ==> nums[i] > 0
  }

  lemma {:induction false} StrictlyBefore(nums: seq<nat>, i: nat, j: nat)
    requires AllPositive(nums) && i < j <= |nums|
    ensures Before(nums, i) < Before(nums, j)
    decreases j
  {
    if i < j - 1 {
      StrictlyBefore(nums, i, j - 1);
    }
  }

  /** What one report does, when it goes beyond what is settled. */
  lemma ServeBeyond(p: Progress, count: nat, i: nat)
    requires p.Sound() && i < |p.nums| && p.taken < |p.nums|
    requires Before(p.nums, p.taken) < count < U32
    ensures p.Serve(count).taken > p.taken
    ensures i >= p.taken ==> (i < p.Serve(count).taken <==> Before(p.nums, i) < count)
    ensures p.taken <= i < p.Serve(count).taken ==>
      p.Serve(count).states[i] == if Before(p.nums, i + 1) <= count then Completed else Failed
    ensures i < p.taken || i >= p.Serve(count).taken ==> p.Serve(count).states[i] == p.states[i]
  {
    var rest, left := p.nums[p.taken..], p.Left(count);
    assert left == count - Before(p.nums, p.taken);
    assert TakenOff(rest, left, 0);
    if i > p.taken {
      ReportsCompose(p.nums, p.taken, count, false, i);
      assert i - p.taken < TakenBy(rest, left) <==> TakenOff(rest, left, i - p.taken);
    } else if i == p.taken {
      assert Before(rest, 0) == 0 && Before(rest, 1) == Before(rest, 0) + rest[0];
      assert Verdict(rest, left, false, 0) == if rest[0] <= left then Completed else Failed;
      assert Before(p.nums, i + 1) == Before(p.nums, i) + p.nums[i];
    }
  }

  /** The first report of a run. */
  lemma FirstAsCounted(nums: seq<nat>, states: seq<TransferState>, count: nat)
    requires |nums| == |states| && 0 < count < U32
    ensures AsCounted(Start(nums, states).Serve(count), states, count)
  {
    assert Before(nums, 0) == 0;
    forall i | 0 <= i < |nums|
      ensures i < Start(nums, states).Serve(count).taken <==> Before(nums, i) < count
      ensures Start(nums, states).Serve(count).states[i] ==
              if Before(nums, i) >= count then states[i] else if Before(nums, i + 1) <= count then Completed else Failed
    {
      ServeBeyond(Start(nums, states), count, i);
    }
  }

  /** A report with nothing in it takes the head off all the same. */
  lemma ServeTakesHead(p: Progress, count: nat)
    requires p.Sound() && p.taken < |p.nums|
    ensures p.Serve(count).taken > p.taken
    ensures forall i :: 0 <= i < p.taken ==> p.Serve(count).states[i] == p.states[i]
  {
    assert TakenOff(p.nums[p.taken..], p.Left(count), 0);
  }

  /** With everything taken off, nothing is left to settle. */
  lemma ServeNone(p: Progress, count: nat)
    requires p.Sound() && p.taken == |p.nums|
    ensures p.Serve(count) == p
  {
  }

  /** Where the first transfer that is left begins. */
  lemma NextBegins(p: Progress, before: seq<TransferState>, count: nat)
    requires AllPositive(p.nums) && AsCounted(p, before, count) && 0 < count && p.nums != []
    ensures p.taken == |p.nums| <==> Before(p.nums, |p.nums| - 1) < count
    ensures 0 < p.taken && Before(p.nums, p.taken - 1) < count
    ensures p.taken < |p.nums| ==> Before(p.nums, p.taken) >= count
    ensures p.taken < |p.nums| ==> (AtAnEnd(p.nums, count) <==> Before(p.nums, p.taken) == count)
  {
    assert Before(p.nums, 0) == 0;
    assert 0 < p.taken;
    if p.taken < |p.nums| && AtAnEnd(p.nums, count) {
      var k :| 0 <= k <= |p.nums| && Before(p.nums, k) == count;
      if k >= p.taken {
        BeforeMonotone(p.nums, p.taken, k);
      }
    }
  }

  lemma OnceAllAreTaken(p: Progress, before: seq<TransferState>, earlier: nat, later: nat)
    requires AllPositive(p.nums) && AsCounted(p, before, earlier) && 0 < earlier <= later && p.nums != []
    requires p.taken == |p.nums|
    ensures AsCounted(p, before, later) <==> Before(p.nums, |p.nums|) <= earlier || later < Before(p.nums, |p.nums|)
  {
    var last := |p.nums| - 1;
    NextBegins(p, before, earlier);
    forall i | 0 <= i <= last ensures Before(p.nums, i) < earlier {
      BeforeMonotone(p.nums, i, last);
    }
  }

  lemma AfterAnEnd(p: Progress, before: seq<TransferState>, earlier: nat, later: nat)
    requires AllPositive(p.nums) && AsCounted(p, before, earlier) && 0 < earlier < later < U32 && p.nums != []
    requires p.taken < |p.nums| && Before(p.nums, p.taken) == earlier
    ensures AsCounted(p.Serve(later), before, later)
  {
    var next := p.Serve(later);
    forall i | 0 <= i < |p.nums|
      ensures i < next.taken <==> Before(p.nums, i) < later
      ensures next.states[i] == if Before(p.nums, i) >= later then before[i]
                                else if Before(p.nums, i + 1) <= later then Completed else Failed
    {
      ServeBeyond(p, later, i);
      if i < p.taken {
        BeforeMonotone(p.nums, i, p.taken);
        BeforeMonotone(p.nums, i + 1, p.taken);
      }
    }
  }

  lemma InsideATransfer(p: Progress, before: seq<TransferState>, earlier: nat, later: nat)
    requires AllPositive(p.nums) && AsCounted(p, before, earlier) && 0 < earlier <= later && p.nums != []
    requires p.taken < |p.nums| && (Before(p.nums, p.taken) > earlier || later == earlier)
    ensures !AsCounted(p.Serve(later), before, later)
  {
    NextBegins(p, before, earlier);
    ServeTakesHead(p, later);
    var i := p.taken - 1;
    assert Before(p.nums, i) < earlier;
    if Before(p.nums, p.taken) <= later && Before(p.nums, p.taken) > earlier {
      assert p.Serve(later).states[i] == p.states[i] == Failed;
    }
  }

  /** If what is settled is what an earlier count says, then after the next report it is what the later count says,
      exactly when that follows on. */
  lemma StepExact(p: Progress, before: seq<TransferState>, earlier: nat, later: nat)
    requires AllPositive(p.nums) && AsCounted(p, before, earlier) && 0 < earlier <= later < U32
    ensures AsCounted(p.Serve(later), before, later) <==> FollowsOn(p.nums, earlier, later)
  {
    if p.nums != [] {
      NextBegins(p, before, earlier);
      hide AsCounted, AtAnEnd, Progress.Serve;
      if p.taken == |p.nums| {
        ServeNone(p, later);
        OnceAllAreTaken(p, before, earlier, later);
      } else if Before(p.nums, p.taken) == earlier && earlier < later {
        AfterAnEnd(p, before, earlier, later);
      } else {
        InsideATransfer(p, before, earlier, later);
      }
    }
  }

  // ----- whole runs -----

  predicate Counting(counts: seq<nat>) {
    && (forall j :: 0 <= j < |counts| ==> 0 < counts[j] < U32)
    && forall j :: 0 < j < |counts| ==> counts[j - 1] <= counts[j]
  }

  ghost predicate AllFollowOn(nums: seq<nat>, counts: seq<nat>) {
    |counts| <= 1 ||
    (AllFollowOn(nums, counts[..|counts| - 1]) && FollowsOn(nums, counts[|counts| - 2], counts[|counts| - 1]))
  }

  /** After every report, exactly the transfers that its count reaches into are settled. */
  ghost predicate AlwaysAsCounted(nums: seq<nat>, states: seq<TransferState>, counts: seq<nat>)
    requires |nums| == |states|
  {
    counts == [] ||
    (&& AlwaysAsCounted(nums, states, counts[..|counts| - 1])
     && AsCounted(ServeAll(nums, states, counts), states, counts[|counts| - 1]))
  }

  /** Over every run of reports of a hardware that only counts up: each transfer of the original queue is settled once,
      by the first report that reaches into it, and after every report what is settled is what that report says of the
      original queue, exactly when each report but the last stands at the end of a transfer and each later one goes
      beyond it. */
  lemma {:induction false} RunExact(nums: seq<nat>, states: seq<TransferState>, counts: seq<nat>)
    requires |nums| == |states| && AllPositive(nums) && Counting(counts)
    ensures AlwaysAsCounted(nums, states, counts) <==> AllFollowOn(nums, counts)
    decreases |counts|
  {
    if counts != [] {
      var n := |counts| - 1;
      var init, last := counts[..n], counts[n];
      RunExact(nums, states, init);
      if n == 0 {
        FirstAsCounted(nums, states, last);
      } else if AlwaysAsCounted(nums, states, init) {
        hide FollowsOn, AsCounted, Progress.Serve;
        StepExact(ServeAll(nums, states, init), states, init[n - 1], last);
      }
    }
  }

  // ----- what goes wrong otherwise -----

  /** A report that says nothing new, once the last one stood at the end of a transfer, fails the next one, in which
      nothing has gone wrong. */
  lemma RepeatFailsNext(p: Progress, count: nat)
    requires p.Sound() && AllPositive(p.nums) && p.taken < |p.nums| && Before(p.nums, p.taken) == count < U32
    ensures p.Serve(count).taken == p.taken + 1 && p.Serve(count).states[p.taken] == Failed
  {
    var rest := p.nums[p.taken..];
    assert p.Left(count) == 0;
    assert Before(rest, 0) == 0 && Before(rest, 1) == rest[0] > 0;
    assert TakenOff(rest, 0, 0) && (|rest| > 1 ==> !TakenOff(rest, 0, 1));
    assert Verdict(rest, 0, false, 0) == Failed;
  }

  /** After a report inside a transfer, which counts as a whole, saying nothing new wraps around and completes
      everything that is left, none of which the hardware has done. */
  lemma WrapCompletesRest(p: Progress, count: nat, i: nat)
    requires p.Sound() && count < Before(p.nums, p.taken) && p.taken <= i < |p.nums|
    requires Before(p.nums, |p.nums|) - count < U32
    ensures p.Serve(count).taken == |p.nums| && p.Serve(count).states[i] == Completed
  {
    var rest, left := p.nums[p.taken..], p.Left(count);
    assert left == count - Before(p.nums, p.taken) + U32 by {
      BeforeMonotone(p.nums, p.taken, |p.nums|);
      ModUnique(count - Before(p.nums, p.taken), -1, count - Before(p.nums, p.taken) + U32, U32);
    }
    var last := |rest| - 1;
    BeforeSuffix(p.nums, p.taken, |p.nums| - 1);
    BeforeSuffix(p.nums, p.taken, i + 1);
    BeforeMonotone(p.nums, |p.nums| - 1, |p.nums|);
    BeforeMonotone(p.nums, i + 1, |p.nums|);
    assert TakenOff(rest, left, last);
    assert Verdict(rest, left, false, i - p.taken) == Completed;
  }

  // ----- the service call is such a step -----

  /** The engine is in the middle of a run: the transfers in `done` are settled, the others are queued. */
  ghost predicate During(engine: Engine, done: seq<Transfer>, p: Progress)
    reads engine, done, engine.transferList
  {
    && engine.Valid() && Different(done + engine.transferList)
    && p == Progress(Nums(done) + Nums(engine.transferList), States(done) + States(engine.transferList), |done|)
    && engine.descDequeued == Before(p.nums, |done|)
    && (engine.running <==> engine.transferList != [])
  }

  lemma TakenIsUnique(nums: seq<nat>, count: nat, n: nat)
    requires n <= |nums| && forall i :: 0 <= i < |nums| ==> (i < n <==> TakenOff(nums, count, i))
    ensures n == TakenBy(nums, count)
  {
    var m := TakenBy(nums, count);
    hide TakenOff;
    assert n < |nums| ==> !TakenOff(nums, count, n);
    assert m < |nums| ==> !TakenOff(nums, count, m);
  }

  /** What a call settles of the queue that is left is the step. */
  lemma SettledIsServed(p: Progress, rest: seq<nat>, left: nat, count: nat, after: seq<TransferState>, n: nat)
    requires p.Sound() && p.taken < |p.nums| && |after| == |p.states|
    requires rest == p.nums[p.taken..] && left == p.Left(count)
    requires Settled(rest, p.states[p.taken..], after[p.taken..], n, left, false)
    requires after[..p.taken] == p.states[..p.taken]
    ensures Progress(p.nums, after, p.taken + n) == p.Serve(count)
    ensures Before(p.nums, p.taken + n) == Before(p.nums, p.taken) + Before(rest, n)
  {
    TakenIsUnique(rest, left, n);
    BeforeSuffix(p.nums, p.taken, p.taken + n);
    hide TakenOff, Verdict, Before, TakenBy, Progress.Left;
    forall i | 0 <= i < |after|
      ensures after[i] == if p.taken <= i < p.taken + n then Verdict(rest, left, false, i - p.taken) else p.states[i]
    {
      if i < p.taken {
        assert after[..p.taken][i] == p.states[..p.taken][i];
      } else {
        assert after[p.taken..][i - p.taken] == after[i] && p.states[p.taken..][i - p.taken] == p.states[i];
      }
    }
  }

  /** The same with the settled transfers and the others apart. */
  lemma ServedApart(p: Progress, nums: seq<nat>, rest: seq<nat>, states: seq<TransferState>, before: seq<TransferState>,
                    after: seq<TransferState>, count: nat, n: nat)
    requires p == Progress(nums + rest, states + before, |nums|) && |nums| == |states|
    requires rest != [] && |rest| == |before| == |after|
    requires Settled(rest, before, after, n, p.Left(count), false)
    ensures p.Serve(count) == Progress(nums + rest, states + after, |nums| + n)
    ensures Before(nums + rest, |nums| + n) == Before(nums + rest, |nums|) + Before(rest, n)
  {
    var all := states + after;
    assert p.nums[|nums|..] == rest && p.states[|nums|..] == before && all[|nums|..] == after;
    assert all[..|nums|] == states && p.states[..|nums|] == states;
    hide Settled, Before, Progress.Left, Progress.Serve;
    SettledIsServed(p, rest, p.Left(count), count, all, n);
  }

  lemma OfBoth(a: seq<Transfer>, b: seq<Transfer>)
    ensures Nums(a + b) == Nums(a) + Nums(b) && States(a + b) == States(a) + States(b)
  {
  }

  lemma NotAmongTheRest(done: seq<Transfer>, rest: seq<Transfer>)
    requires Different(done + rest)
    ensures forall i :: 0 <= i < |done| ==> done[i] !in rest
  {
    var all := done + rest;
    forall i, j | 0 <= i < |done| && 0 <= j < |rest| ensures done[i] != rest[j] {
      assert all[i] == done[i] && all[|done| + j] == rest[j];
    }
  }

  /** The call, in terms of the queue that it finds, and of the transfers that are off it. */
  method ServiceBusy(engine: Engine, register: nat, ghost done: seq<Transfer>, ghost rest: seq<Transfer>,
                     ghost nums: seq<nat>, ghost states: seq<TransferState>, ghost left: nat) returns (ghost n: nat)
    requires engine.Valid() && engine.running && engine.transferList == rest != [] && 0 < register < U32
    requires nums == Nums(rest) && states == States(rest) && left == (register - engine.descDequeued) % U32
    requires forall i :: 0 <= i < |done| ==> done[i] !in rest
    modifies engine, rest`state, rest`descCmpl
    ensures engine.Valid() && n <= |rest| && engine.transferList == rest[n..]
    ensures engine.running <==> engine.transferList != []
    ensures Settled(nums, states, States(rest), n, left, false)
    ensures engine.descDequeued == old(engine.descDequeued) + Before(nums, n)
    ensures States(done) == old(States(done))
  {
    hide Settled, Nums, States, Before;
    var _ := engine.Service(0, false, register, Status(true, false));
    n := |rest| - |engine.transferList|;
    SameStates(done, old(States(done)));
  }

  lemma SameStates(done: seq<Transfer>, states: seq<TransferState>)
    requires |done| == |states| && forall i :: 0 <= i < |done| ==> done[i].state == states[i]
    ensures States(done) == states
  {
  }

  /** Then the run is one step further. */
  lemma RunGoesOn(engine: Engine, done: seq<Transfer>, rest: seq<Transfer>, gone: seq<Transfer>, next: Progress)
    requires engine.Valid() && Different(done + rest) && gone + engine.transferList == rest
    requires engine.running <==> engine.transferList != []
    requires next == Progress(Nums(done) + Nums(rest), States(done) + States(rest), |done| + |gone|)
    requires next.Sound() && engine.descDequeued == Before(next.nums, next.taken)
    ensures During(engine, done + gone, next)
  {
    var queued := engine.transferList;
    OfBoth(done, gone);
    OfBoth(gone, queued);
    hide Nums, States, Before, Different;
    Regroup(done, gone, queued);
    Regroup(Nums(done), Nums(gone), Nums(queued));
    Regroup(States(done), States(gone), States(queued));
  }

  lemma Regroup<T>(a: seq<T>, b: seq<T>, c: seq<T>)
    ensures (a + b) + c == a + (b + c)
  {
  }

  lemma RunOpened(engine: Engine, done: seq<Transfer>, p: Progress, count: nat)
    requires During(engine, done, p) && engine.transferList != []
    ensures engine.Valid() && engine.running && engine.descDequeued == Before(p.nums, p.taken) && p.Sound()
    ensures p == Progress(Nums(done) + Nums(engine.transferList), States(done) + States(engine.transferList), |done|)
    ensures p.Left(count) == (count - engine.descDequeued) % U32
    ensures Different(done + engine.transferList)
    ensures forall i :: 0 <= i < |done| ==> done[i] !in engine.transferList
  {
    hide Nums, States, Before, Different, Engine.Valid;
    NotAmongTheRest(done, engine.transferList);
  }

  lemma RunClosed(engine: Engine, done: seq<Transfer>, rest: seq<Transfer>, p: Progress,
                  before: seq<TransferState>, count: nat, n: nat)
    requires engine.Valid() && Different(done + rest) && n <= |rest| == |before| && rest != []
    requires engine.transferList == rest[n..] && (engine.running <==> engine.transferList != [])
    requires p == Progress(Nums(done) + Nums(rest), States(done) + before, |done|) && p.Sound()
    requires Settled(Nums(rest), before, States(rest), n, p.Left(count), false)
    requires engine.descDequeued == Before(p.nums, p.taken) + Before(Nums(rest), n)
    ensures During(engine, done + rest[..n], p.Serve(count))
  {
    hide *;
    ServedApart(p, Nums(done), Nums(rest), States(done), before, States(rest), count, n);
    TakeAndRest(rest, n);
    RunGoesOn(engine, done, rest, rest[..n], p.Serve(count));
  }

  lemma TakeAndRest(rest: seq<Transfer>, n: nat)
    requires n <= |rest|
    ensures rest[..n] + rest[n..] == rest && |rest[..n]| == n
  {
  }

  /** `engine_service_work`, from an interrupt while the hardware is busy: the register reports a count. */
  method ServiceWork(engine: Engine, register: nat, ghost done: seq<Transfer>, ghost p: Progress)
    returns (ghost next: Progress, ghost gone: seq<Transfer>)
    requires During(engine, done, p) && engine.transferList != [] && 0 < register < U32
    modifies engine, engine.transferList`state, engine.transferList`descCmpl
    ensures next == p.Serve(register) && During(engine, done + gone, next)
  {
    RunOpened(engine, done, p, register);
    hide *;
    ghost var rest, before := engine.transferList, States(engine.transferList);
    ghost var n := ServiceBusy(engine, register, done, rest, Nums(rest), before, p.Left(register));
    RunClosed(engine, done, rest, p, before, register, n);
    next, gone := p.Serve(register), rest[..n];
  }
}
