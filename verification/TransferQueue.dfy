/** The queue of transfers of one engine: starting it, and settling accounts when the hardware reports
    how many descriptors it has completed. */
module TransferQueue {
  import opened Arithmetic
  import opened Transfers
  import opened DescriptorRing
  import opened Errors

  /** The number of descriptors of the first `i` transfers. */
  function Before(nums: seq<nat>, i: nat): nat
    requires i <= |nums|
  {
    if i == 0 then 0 else Before(nums, i - 1) + nums[i - 1]
  }

  /** A report of `count` descriptors takes transfer `i` off the queue: the head always, and any other
      transfer once the report goes beyond everything before it. */
  predicate TakenOff(nums: seq<nat>, count: nat, i: nat)
    requires i < |nums|
  {
    i == 0 || Before(nums, i) < count
  }

  /** How a transfer that is taken off ends: well if the report reaches its end. A hardware error makes
      the transfer that the report stops in fail in any case. */
  function Verdict(nums: seq<nat>, count: nat, error: bool, i: nat): TransferState
    requires i < |nums|
  {
    var end := Before(nums, i + 1);
    if end < count || (end == count && !error) then Completed else Failed
  }

  /** What a report does to a queue: which transfers it takes off, and how they end. */
  ghost predicate Settled(nums: seq<nat>, before: seq<TransferState>, after: seq<TransferState>,
                          taken: nat, count: nat, error: bool) {
    && |nums| == |before| == |after| && taken <= |nums|
    && (forall i :: 0 <= i < |nums| ==> (i < taken <==> TakenOff(nums, count, i)))
    && (forall i :: 0 <= i < taken ==> after[i] == Verdict(nums, count, error, i))
    && (forall i :: taken <= i < |nums| ==> after[i] == before[i])
  }

  lemma {:induction false} BeforeMonotone(nums: seq<nat>, i: nat, j: nat)
    requires i <= j <= |nums|
    ensures Before(nums, i) <= Before(nums, j)
    decreases j
  {
    if i < j {
      BeforeMonotone(nums, i, j - 1);
    }
  }

  /** The transfers that a report takes off are a prefix of the queue, and all of them but the last end
      well. */
  lemma TakenOffIsPrefix(nums: seq<nat>, count: nat, error: bool, i: nat, j: nat)
    requires i < j < |nums| && TakenOff(nums, count, j)
    ensures TakenOff(nums, count, i) && Verdict(nums, count, error, i) == Completed
  {
    BeforeMonotone(nums, i, i + 1);
    BeforeMonotone(nums, i + 1, j);
  }

  lemma {:induction false} BeforeSuffix(nums: seq<nat>, taken: nat, i: nat)
    requires taken <= i <= |nums|
    ensures Before(nums[taken..], i - taken) == Before(nums, i) - Before(nums, taken)
    decreases i
  {
    if i > taken {
      BeforeSuffix(nums, taken, i - 1);
    }
  }

  /** Within one run, counting what is already settled as done makes every later report speak about the
      whole run: the queue that is left settles as it would in the original queue. */
  lemma ReportsCompose(nums: seq<nat>, taken: nat, total: nat, error: bool, i: nat)
    requires taken < i < |nums| && Before(nums, taken) <= total
    ensures var rest, report := nums[taken..], total - Before(nums, taken);
      && (TakenOff(rest, report, i - taken) <==> TakenOff(nums, total, i))
      && Verdict(rest, report, error, i - taken) == Verdict(nums, total, error, i)
  {
    BeforeSuffix(nums, taken, i);
    BeforeSuffix(nums, taken, i + 1);
  }

  /** A report that goes beyond exactly the first `k` transfers settles those and the next one. */
  lemma SettledByStop(nums: seq<nat>, before: seq<TransferState>, after: seq<TransferState>,
                      k: nat, count: nat, error: bool)
    requires |nums| == |before| == |after| && k <= |nums|
    requires (k > 0 ==> Before(nums, k) < count) && (k < |nums| ==> count <= Before(nums, k + 1))
    requires forall i :: 0 <= i < k ==> after[i] == Completed
    requires k < |nums| ==>
      after[k] == if error || count < Before(nums, k + 1) then Failed else Completed
    requires forall i :: k < i < |nums| ==> after[i] == before[i]
    ensures Settled(nums, before, after, if k < |nums| then k + 1 else k, count, error)
  {
    forall i | 0 <= i < |nums|
      ensures i <= k <==> TakenOff(nums, count, i)
      ensures i <= k ==> after[i] == Verdict(nums, count, error, i)
    {
      if i < k {
        BeforeMonotone(nums, i, k);
        BeforeMonotone(nums, i + 1, k);
      } else if i > k {
        BeforeMonotone(nums, k + 1, i);
      }
    }
  }

  /** The states once the first `k` transfers are completed. */
  function FirstCompleted(before: seq<TransferState>, k: nat): (after: seq<TransferState>)
    ensures |after| == |before|
  {
    seq(|before|, i requires 0 <= i < |before| => if i < k then Completed else before[i])
  }

  lemma FirstCompletedNone(before: seq<TransferState>, nums: seq<nat>)
    ensures FirstCompleted(before, 0) == before && Before(nums, 0) == 0
  {
  }

  lemma FirstCompletedNext(before: seq<TransferState>, nums: seq<nat>, k: nat)
    requires k < |before| == |nums|
    ensures FirstCompleted(before, k + 1) == FirstCompleted(before, k)[k := Completed]
    ensures Before(nums, k + 1) == Before(nums, k) + nums[k]
  {
  }

  /** The two steps together, in terms of the states. */
  lemma SettledInSteps(nums: seq<nat>, before: seq<TransferState>, after: seq<TransferState>,
                       k: nat, count: nat, error: bool, left: nat)
    requires |nums| == |before| && k <= |nums| && left + Before(nums, k) == count
    requires (k > 0 ==> Before(nums, k) < count) && (k < |nums| ==> count <= Before(nums, k + 1))
    requires after == if k == |nums| then FirstCompleted(before, k)
                      else FirstCompleted(before, k)[k := if error || left < nums[k] then Failed else Completed]
    ensures Settled(nums, before, after, if k < |nums| then k + 1 else k, count, error)
  {
    if k < |nums| {
      FirstCompletedNext(before, nums, k);
    }
    hide Before, Settled;
    SettledByStop(nums, before, after, k, count, error);
  }

  predicate Different(queue: seq<Transfer>) {
    forall i, j :: 0 <= i < j < |queue| ==> queue[i] != queue[j]
  }

  ghost function Nums(queue: seq<Transfer>): (nums: seq<nat>)
    reads queue`descNum
    ensures |nums| == |queue|
    ensures forall i :: 0 <= i < |queue| ==> nums[i] == queue[i].descNum
  {
    if queue == [] then [] else Nums(queue[..|queue| - 1]) + [queue[|queue| - 1].descNum]
  }

  ghost function States(queue: seq<Transfer>): (states: seq<TransferState>)
    reads queue`state
    ensures |states| == |queue|
    ensures forall i :: 0 <= i < |queue| ==> states[i] == queue[i].state
  {
    if queue == [] then [] else States(queue[..|queue| - 1]) + [queue[|queue| - 1].state]
  }

  /** What is known of the hardware when the engine is serviced. */
  datatype Status = Status(busy: bool, error: bool)

  class Engine {
    var transferList: seq<Transfer>
    var running: bool
    var descDequeued: nat
    var status: Status
    var shutdownRequested: bool
    var shutdownIdle: bool
    // The registers that tell the hardware where to start.
    var firstDesc: nat
    var firstDescAdjacent: nat

    constructor ()
      ensures Valid() && transferList == [] && !running && !shutdownRequested
    {
      transferList, running, descDequeued, status := [], false, 0, Status(false, false);
      shutdownRequested, shutdownIdle, firstDesc, firstDescAdjacent := false, false, 0, 0;
    }

    /** The transfers are different objects, and none of them is cyclic. */
    ghost predicate Valid()
      reads this`transferList, transferList`cyclic
    {
      && Different(transferList)
      && forall i :: 0 <= i < |transferList| ==> !transferList[i].cyclic
    }

    /** The hardware was told to start with this transfer, and nothing counts as done in this run. */
    predicate StartedOn(head: Transfer)
      reads this, head
    {
      && running && descDequeued == 0
      && firstDesc == head.descBus && firstDescAdjacent == NextAdj(head.descAdjacent, head.descBus)
    }

    /** `engine_start`: starts an idle engine with the first transfer of the queue. */
    method Start() returns (ok: bool)
      requires Valid()
      modifies this
      ensures Valid() && transferList == old(transferList) && status == old(status)
      ensures ok <==> !old(running) && transferList != []
      ensures ok ==> StartedOn(transferList[0]) && !shutdownRequested && !shutdownIdle
      ensures !ok ==> unchanged(this)
    {
      if running {
        return false;
      }
      if |transferList| == 0 {
        return false;
      }
      var transfer := transferList[0];
      shutdownRequested, shutdownIdle := false, false;
      descDequeued := 0;
      firstDesc := transfer.descBus;
      firstDescAdjacent := NextAdj(transfer.descAdjacent, transfer.descBus);
      running := true;
      return true;
    }

    /** `transfer_queue`: puts a transfer at the end of the queue, and starts an idle engine. */
    method Queue(transfer: Transfer, offline: bool) returns (error: int)
      requires Valid() && transfer !in transferList && !transfer.cyclic
      modifies this, transfer`state
      ensures Valid()
      ensures error == if offline || old(shutdownRequested) then -EBUSY else 0
      ensures error != 0 ==> unchanged(this) && unchanged(transfer)
      ensures error == 0 ==>
        && transferList == old(transferList) + [transfer] && transfer.state == Submitted && running
        && (!old(running) ==> StartedOn(transferList[0]))
        && (old(running) ==> descDequeued == old(descDequeued))
    {
      if offline {
        return -EBUSY;
      }
      if shutdownRequested {
        return -EBUSY;
      }
      transfer.state := Submitted;
      transferList := transferList + [transfer];
      if !running {
        var _ := Start();
      }
      return 0;
    }

    /** Completes the head of the queue, which is number `k` of `queue`. */
    method TakeHead(ghost queue: seq<Transfer>, ghost k: nat)
      requires Valid() && k < |queue| && transferList == queue[k..] && Different(queue)
      modifies this`transferList, this`descDequeued, queue`state
      ensures Valid() && transferList == queue[k + 1..]
      ensures descDequeued == old(descDequeued) + queue[k].descNum
      ensures States(queue) == old(States(queue))[k := Completed]
    {
      var transfer := transferList[0];
      transferList := transferList[1..];
      descDequeued := descDequeued + transfer.descNum;
      transfer.state := Completed;
    }

    /** `engine_service_transfer_list`: takes off the transfers that the report goes beyond. What is left
        of the report concerns the new head. */
    method ServiceTransferList(count: nat) returns (left: nat, ghost k: nat)
      requires Valid()
      modifies this`transferList, this`descDequeued, transferList`state
      ensures Valid() && k <= |old(transferList)| && transferList == old(transferList)[k..]
      ensures States(old(transferList)) == FirstCompleted(old(States(transferList)), k)
      ensures left + Before(Nums(old(transferList)), k) == count
      ensures descDequeued == old(descDequeued) + Before(Nums(old(transferList)), k)
      ensures k > 0 ==> Before(Nums(old(transferList)), k) < count
      ensures k < |old(transferList)| ==> count <= Before(Nums(old(transferList)), k + 1)
    {
      ghost var queue, nums, before := transferList, Nums(transferList), States(transferList);
      left, k := count, 0;
      FirstCompletedNone(before, nums);
      hide States, Nums, Before, FirstCompleted;
      while |transferList| > 0 && !transferList[0].cyclic && left > transferList[0].descNum
        invariant Valid() && k <= |queue| && transferList == queue[k..] && nums == Nums(queue)
        invariant States(queue) == FirstCompleted(before, k)
        invariant descDequeued == old(descDequeued) + Before(nums, k)
        invariant left + Before(nums, k) == count
        invariant k > 0 ==> Before(nums, k) < count
        decreases |transferList|
      {
        assert transferList[0] == queue[k];
        FirstCompletedNext(before, nums, k);
        left := left - transferList[0].descNum;
        TakeHead(queue, k);
        k := k + 1;
      }
      if k < |queue| {
        assert transferList[0] == queue[k];
        FirstCompletedNext(before, nums, k);
      }
    }

    /** `engine_service_final_transfer`: settles the transfer that the hardware stopped in, which is number `k` of
        `queue`. After a hardware error the engine is stopped. */
    method ServiceFinalTransfer(left: nat, ghost queue: seq<Transfer>, ghost k: nat)
      requires Valid() && k <= |queue| && transferList == queue[k..] && Different(queue)
      modifies this`transferList, this`descDequeued, this`running, queue`state, queue`descCmpl
      ensures Valid() && running == (old(running) && !(status.error && k < |queue|))
      ensures k == |queue| ==>
        transferList == [] && descDequeued == old(descDequeued) && States(queue) == old(States(queue))
      ensures k < |queue| ==>
        && transferList == queue[k + 1..]
        && States(queue) ==
             old(States(queue))[k := if status.error || left < queue[k].descNum then Failed else Completed]
        && queue[k].descCmpl == (if status.error then old(queue[k].descCmpl) else Min(left, queue[k].descNum))
        && descDequeued == old(descDequeued) + (if status.error then 0 else queue[k].descNum)
    {
      if |transferList| == 0 {
        return;
      }
      var transfer := transferList[0];
      if status.error {
        transfer.state := Failed;
        running := false;
      } else if left < transfer.descNum {
        transfer.state := Failed;
        descDequeued := descDequeued + transfer.descNum;
        transfer.descCmpl := left;
      } else {
        transfer.state := Completed;
        transfer.descCmpl := transfer.descNum;
        descDequeued := descDequeued + transfer.descNum;
      }
      transferList := transferList[1..];
    }

    /** `engine_service_resume`: restarts a stopped engine that has work, and stops one that has none. */
    method ServiceResume()
      requires Valid()
      modifies this
      ensures Valid() && transferList == old(transferList) && status == old(status)
      ensures running <==> transferList != []
      ensures !old(running) && transferList != [] ==> StartedOn(transferList[0])
      ensures old(running) || transferList == [] ==> descDequeued == old(descDequeued)
      ensures shutdownIdle ==
        if old(running) then old(shutdownIdle)
        else transferList == [] && (old(shutdownIdle) || old(shutdownRequested))
    {
      if !running {
        if |transferList| > 0 {
          var _ := Start();
        } else if shutdownRequested {
          shutdownIdle := true;
        }
      } else if |transferList| == 0 {
        running := false;
      }
    }

    /** The two steps that settle a report; `nums` and `before` describe the queue at the call. */
    method Settle(count: nat, ghost queue: seq<Transfer>, ghost nums: seq<nat>, ghost before: seq<TransferState>)
      requires Valid() && queue == transferList && nums == Nums(queue) && before == States(queue)
      modifies this`transferList, this`descDequeued, this`running, transferList`state, transferList`descCmpl
      ensures running == old(running) || (status.error && !running)
      ensures status.error && transferList != [] ==> !running
      ensures Valid() && |transferList| <= |queue| && transferList == queue[|queue| - |transferList|..]
      ensures Settled(nums, before, States(queue), |queue| - |transferList|, count, status.error)
      ensures !status.error ==> descDequeued == old(descDequeued) + Before(nums, |queue| - |transferList|)
    {
      hide Settled, Nums, States, Before, FirstCompleted;
      var left, k := ServiceTransferList(count);
      assert Nums(queue) == nums;
      ServiceFinalTransfer(left, queue, k);
      if k < |queue| {
        FirstCompletedNext(before, nums, k);
      }
      SettledInSteps(nums, before, States(queue), k, count, status.error, left);
    }

    /** The engine has gone through this queue's report: `nums` and `before` describe the queue at the
        call, and the engine goes on with what is left. */
    ghost predicate Serviced(queue: seq<Transfer>, nums: seq<nat>, before: seq<TransferState>, report: nat)
      reads this, queue`state, transferList
    {
      && |transferList| <= |queue| && transferList == queue[|queue| - |transferList|..]
      && Settled(nums, before, States(queue), |queue| - |transferList|, report, status.error)
      && (running <==> transferList != [])
    }

    method SettleAndResume(count: nat, ghost queue: seq<Transfer>, ghost nums: seq<nat>,
                           ghost before: seq<TransferState>)
      requires Valid() && queue == transferList && nums == Nums(queue) && before == States(queue)
      modifies this, transferList`state, transferList`descCmpl
      ensures Valid() && status == old(status)
      ensures Serviced(queue, nums, before, count)
      ensures transferList != [] && (status.error || !old(running)) ==> StartedOn(transferList[0])
      ensures old(running) && !status.error ==>
        descDequeued == old(descDequeued) + Before(nums, |queue| - |transferList|)
    {
      hide Settled, StartedOn, Before, Nums, States;
      Settle(count, queue, nums, before);
      ghost var after := States(queue);
      ServiceResume();
      assert States(queue) == after;
    }

    method ServiceRunning(writeback: nat, errorFlag: bool, register: nat, observed: Status,
                          ghost queue: seq<Transfer>, ghost nums: seq<nat>, ghost before: seq<TransferState>)
      requires Valid() && running
      requires queue == transferList && nums == Nums(queue) && before == States(queue)
      modifies this, transferList`state, transferList`descCmpl
      ensures Valid()
      ensures status == if writeback == 0 || errorFlag then observed else old(status)
      ensures writeback == 0 && register == 0 ==> transferList == queue && States(queue) == before
      ensures writeback != 0 ==> Serviced(queue, nums, before, (writeback - old(descDequeued)) % U32)
      ensures writeback == 0 && register != 0 ==>
        Serviced(queue, nums, before, (register - old(descDequeued)) % U32)
      ensures writeback != 0 || register != 0 ==>
        && (transferList != [] && (writeback != 0 || !status.busy || status.error) ==> StartedOn(transferList[0]))
        && (writeback == 0 && status.busy && !status.error ==>
              descDequeued == old(descDequeued) + Before(nums, |queue| - |transferList|))
    {
      hide Serviced, StartedOn, Before, Nums, States;
      var count := Observe(writeback, errorFlag, register, observed);
      if count == 0 {
        return;
      }
      SettleAndResume((count - descDequeued) % U32, queue, nums, before);
    }

    /** Reads the status if need be, lets the engine count as stopped if it is, and finds the count. */
    method Observe(writeback: nat, errorFlag: bool, register: nat, observed: Status) returns (count: nat)
      modifies `status, `running
      ensures status == if writeback == 0 || errorFlag then observed else old(status)
      ensures running <==> old(running) && status.busy && writeback == 0
      ensures count == if writeback != 0 then writeback else register
    {
      if writeback == 0 || errorFlag {
        status := observed;
      }
      if (running && !status.busy) || writeback != 0 {
        running := false;
      }
      count := writeback;
      if count == 0 {
        count := register;
      }
    }

    /** `engine_service`: `writeback` is the count in the write-back word (0 from an interrupt), `register`
        the count register, and `observed` the status register. */
    method Service(writeback: nat, errorFlag: bool, register: nat, observed: Status) returns (error: int)
      requires Valid() && writeback < 0x100_0000 && register < U32
      modifies this, transferList`state, transferList`descCmpl
      ensures Valid()
      ensures error == if old(running) && errorFlag then -1 else 0
      ensures status == if !old(running) || writeback == 0 || errorFlag then observed else old(status)
      ensures !old(running) ==> transferList == old(transferList) && !running && status == observed
      // No descriptor reported: nothing is settled.
      ensures old(running) && writeback == 0 && register == 0 ==>
        transferList == old(transferList) && States(transferList) == old(States(transferList))
      // What the write-back word reports or, without one, the register, less what this run has settled already, settles
      // the transfers that it reaches...
      ensures old(running) && writeback != 0 ==>
        Serviced(old(transferList), old(Nums(transferList)), old(States(transferList)),
                 (writeback - old(descDequeued)) % U32)
      ensures old(running) && writeback == 0 && register != 0 ==>
        Serviced(old(transferList), old(Nums(transferList)), old(States(transferList)),
                 (register - old(descDequeued)) % U32)
      // ... and the engine goes on with what is left.
      ensures old(running) && (writeback != 0 || register != 0) ==>
        (transferList != [] && (writeback != 0 || !status.busy || status.error) ==> StartedOn(transferList[0]))
      // While the hardware is still busy the run goes on, and what was settled counts as done.
      ensures old(running) && writeback == 0 && register != 0 && status.busy && !status.error ==>
        descDequeued == old(descDequeued)
                        + Before(old(Nums(transferList)), |old(transferList)| - |transferList|)
    {
      hide Serviced, StartedOn, Before, Nums, States;
      if !running {
        status := observed;
        return 0;
      }
      ServiceRunning(writeback, errorFlag, register, observed,
                     transferList, Nums(transferList), States(transferList));
      return if errorFlag then -1 else 0;
    }
  }
}
