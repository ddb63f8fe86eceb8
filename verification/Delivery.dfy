/** From a submitted request to what the hardware fetches. */
module Delivery {
  import opened Request
  import opened Transfers
  import opened DescriptorRing
  import opened Prefetch
  import opened Submit
  import TransferQueue

  /** What the hardware fetches once it was started: every descriptor of the transfer exactly once, in order, never
      across an aligned group, and stopping at the last one alone. */
  ghost predicate Fetched(layout: Layout, ring: seq<Desc>, firstDesc: nat, firstDescAdjacent: nat) {
    var end := layout.start + |layout.pieces|;
    && end <= |ring|
    && (forall i :: layout.start <= i < end ==> (ring[i].stopped <==> i + 1 == end))
    && forall fuel: nat :: fuel >= |layout.pieces| ==>
      FetchedWithin(layout, Fetch(ring, layout.bus, firstDesc, firstDescAdjacent, fuel))
  }

  predicate FetchedWithin(layout: Layout, blocks: seq<Block>) {
    && Slots(blocks) == Range(layout.start, layout.start + |layout.pieces|)
    && AllAligned(layout.bus, blocks)
  }

  /** An engine that was started on a recorded transfer fetches that transfer. */
  lemma StartedIsFetched(engine: TransferQueue.Engine, xfer: Transfer, layout: Layout, ring: seq<Desc>)
    requires engine.StartedOn(xfer) && Recorded(xfer, layout) && layout.In(ring)
    requires layout.pieces != [] && layout.bus % DESC_SIZE == 0
    ensures Fetched(layout, ring, engine.firstDesc, engine.firstDescAdjacent)
  {
    StopsAtEnd(layout, ring);
    var address, adjacent := engine.firstDesc, engine.firstDescAdjacent;
    forall fuel: nat | fuel >= |layout.pieces|
      ensures FetchedWithin(layout, Fetch(ring, layout.bus, address, adjacent, fuel))
    {
      PrefetchVisitsTransfer(layout, ring, address, adjacent, Fetch(ring, layout.bus, address, adjacent, fuel), fuel);
    }
  }

  /** The part of a submit loop up to the wait: builds the next transfer of a request and queues it. If the engine
      was idle with nothing queued, the hardware now fetches exactly this transfer. */
  method BuildAndQueue(ring: Ring, req: RequestCb, xfer: Transfer, engine: TransferQueue.Engine, offline: bool,
                       ghost pieces: seq<Piece>, ghost layouts: seq<Layout>, ghost t: nat) returns (error: int)
    requires Progress(ring, req, pieces, layouts, t) && req.swDescIdx < req.swDescCnt
    requires ring.descBus % DESC_SIZE == 0
    requires engine.Valid() && xfer !in engine.transferList
    modifies ring, ring.desc, req, xfer, engine
    ensures t < |layouts| && Progress(ring, req, pieces, layouts, t + 1)
    ensures layouts[t].In(ring.desc[..]) && Recorded(xfer, layouts[t])
    ensures engine.Valid()
    ensures error == 0 ==> engine.transferList == old(engine.transferList) + [xfer] && xfer.state == Submitted
    ensures error == 0 && !old(engine.running) && old(engine.transferList) == [] ==>
      Fetched(layouts[t], ring.desc[..], engine.firstDesc, engine.firstDescAdjacent)
  {
    IssueNext(ring, req, xfer, pieces, layouts, t);
    error := engine.Queue(xfer, offline);
    hide Fetched;
    if error == 0 && !old(engine.running) && old(engine.transferList) == [] {
      assert engine.transferList[0] == xfer;
      StartedIsFetched(engine, xfer, layouts[t], ring.desc[..]);
    }
  }
}
