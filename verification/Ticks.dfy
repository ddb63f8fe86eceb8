/** Rebuilding 64-bit clock deadlines from the 29 bits that fit into the frame metadata. */
module Ticks {
  import opened Arithmetic

  const BLOCK: nat := 0x2000_0000
  const BLOCKS: nat := U64 / BLOCK
  const TX_WORK_OVERFLOW_MARGIN: nat := 100
  const TSN_TIMESTAMP_ID_MAX: nat := 5

  /** The 29 bits of a clock value that the metadata keeps. */
  function Tick(deadline: nat): (tick: nat)
    ensures tick < BLOCK
  {
    deadline % BLOCK
  }

  /** The deadline that the driver makes of a tick, given the clock. */
  function Rebuild(sysCount: nat, tick: nat): nat {
    var lower := sysCount % BLOCK;
    var value := sysCount - lower + tick;
    if lower > tick && lower - tick > TX_WORK_OVERFLOW_MARGIN then (value + BLOCK) % U64 else value
  }

  /** The deadline lies in the block of the clock and at most the margin before it, or in the next block and
      more than the margin short of a full block ahead. */
  predicate InReach(sysCount: nat, deadline: nat) {
    var lower, tick := sysCount % BLOCK, Tick(deadline);
    || (deadline / BLOCK == sysCount / BLOCK && lower <= tick + TX_WORK_OVERFLOW_MARGIN)
    || (deadline / BLOCK == (sysCount / BLOCK + 1) % BLOCKS && lower > tick + TX_WORK_OVERFLOW_MARGIN)
  }

  /** The next block after the last one is the first. */
  lemma NextBlock(block: nat, tick: nat)
    requires block < BLOCKS && tick < BLOCK
    ensures ((block + 1) * BLOCK + tick) % U64 == (block + 1) % BLOCKS * BLOCK + tick
  {
    var value := (block + 1) * BLOCK + tick;
    if block + 1 < BLOCKS {
      ModUnique(block + 1, 0, block + 1, BLOCKS);
      ModUnique(value, 0, value, U64);
    } else {
      ModUnique(block + 1, 1, 0, BLOCKS);
      ModUnique(value, 1, tick, U64);
    }
  }

  /** Where a rebuilt deadline lies. */
  lemma RebuildSplit(sysCount: nat, tick: nat)
    requires sysCount < U64 && tick < BLOCK
    ensures Rebuild(sysCount, tick) % BLOCK == tick
    ensures Rebuild(sysCount, tick) / BLOCK ==
            if sysCount % BLOCK > tick + TX_WORK_OVERFLOW_MARGIN then (sysCount / BLOCK + 1) % BLOCKS
            else sysCount / BLOCK
  {
    var block := sysCount / BLOCK;
    var late := sysCount % BLOCK > tick + TX_WORK_OVERFLOW_MARGIN;
    var target := if late then (block + 1) % BLOCKS else block;
    assert Rebuild(sysCount, tick) == target * BLOCK + tick by {
      NextBlock(block, tick);
    }
    ModUnique(target * BLOCK + tick, target, tick, BLOCK);
  }

  /** Rebuilding gives back the true deadline exactly when that is in reach. */
  lemma RebuildExact(sysCount: nat, deadline: nat)
    requires sysCount < U64 && deadline < U64
    ensures Rebuild(sysCount, Tick(deadline)) == deadline <==> InReach(sysCount, deadline)
  {
    RebuildSplit(sysCount, Tick(deadline));
    var rebuilt := Rebuild(sysCount, Tick(deadline));
    assert rebuilt == deadline <==> rebuilt / BLOCK == deadline / BLOCK;
  }

  /** Every deadline from the clock on, up to the margin short of a full block, is in reach. */
  lemma AheadIsInReach(sysCount: nat, deadline: nat)
    requires sysCount <= deadline < sysCount + BLOCK - TX_WORK_OVERFLOW_MARGIN && deadline < U64
    ensures Rebuild(sysCount, Tick(deadline)) == deadline
  {
    var block := sysCount / BLOCK;
    if deadline < (block + 1) * BLOCK {
      ModUnique(deadline, block, deadline - block * BLOCK, BLOCK);
    } else {
      ModUnique(deadline, block + 1, deadline - (block + 1) * BLOCK, BLOCK);
      assert block + 1 < BLOCKS;
    }
    RebuildExact(sysCount, deadline);
  }

  /** A deadline behind the clock, by no more than the margin, is rebuilt exactly when it lies in the block of
      the clock; otherwise the result is one whole block late. */
  lemma BehindWithinMargin(sysCount: nat, deadline: nat)
    requires deadline < sysCount <= deadline + TX_WORK_OVERFLOW_MARGIN && sysCount < U64
    ensures Rebuild(sysCount, Tick(deadline)) ==
            if deadline / BLOCK == sysCount / BLOCK then deadline else deadline + BLOCK
  {
    var block := sysCount / BLOCK;
    if deadline >= block * BLOCK {
      ModUnique(deadline, block, deadline - block * BLOCK, BLOCK);
    } else {
      ModUnique(deadline, block - 1, deadline - (block - 1) * BLOCK, BLOCK);
    }
    RebuildSplit(sysCount, Tick(deadline));
  }

  /** The per-timestamp deadlines of the transmit work. */
  class TxWork {
    const startAfter: array<nat>
    const waitUntil: array<nat>

    constructor ()
      ensures Valid() && fresh(startAfter) && fresh(waitUntil)
    {
      startAfter := new nat[TSN_TIMESTAMP_ID_MAX](_ => 0);
      waitUntil := new nat[TSN_TIMESTAMP_ID_MAX](_ => 0);
    }

    predicate Valid() {
      startAfter != waitUntil && startAfter.Length == TSN_TIMESTAMP_ID_MAX && waitUntil.Length == TSN_TIMESTAMP_ID_MAX
    }

    /** The part of `xdma_netdev_start_xmit` that notes when to look for a timestamp and how long to wait. */
    method Schedule(id: nat, sysCount: nat, from: nat, to: nat, delayTo: nat, retry: bool)
      requires Valid() && id < TSN_TIMESTAMP_ID_MAX && sysCount < U64
      requires from < U64 && to < U64 && delayTo < U64
      modifies startAfter, waitUntil
      ensures startAfter[id] == Rebuild(sysCount, Tick(from))
      ensures waitUntil[id] == Rebuild(sysCount, Tick(if retry then delayTo else to))
      ensures InReach(sysCount, from) <==> startAfter[id] == from
      ensures InReach(sysCount, if retry then delayTo else to) <==> waitUntil[id] == (if retry then delayTo else to)
      ensures forall k :: 0 <= k < TSN_TIMESTAMP_ID_MAX && k != id ==>
        startAfter[k] == old(startAfter[k]) && waitUntil[k] == old(waitUntil[k])
    {
      var fromTick, toTick, delayToTick := Tick(from), Tick(to), Tick(delayTo);
      var lower := sysCount % BLOCK;
      var upper := sysCount - lower;
      startAfter[id] := upper + fromTick;
      if lower > fromTick && lower - fromTick > TX_WORK_OVERFLOW_MARGIN {
        startAfter[id] := (startAfter[id] + BLOCK) % U64;
      }
      var toValue := if retry then delayToTick else toTick;
      waitUntil[id] := upper + toValue;
      if lower > toValue && lower - toValue > TX_WORK_OVERFLOW_MARGIN {
        waitUntil[id] := (waitUntil[id] + BLOCK) % U64;
      }
      RebuildExact(sysCount, from);
      RebuildExact(sysCount, if retry then delayTo else to);
    }
  }
}
