/** The hardware fetches descriptors in blocks, led only by the adjacent counts and the last `next`
    pointer of each block. What it sees must be the transfer. */
module Prefetch {
  import opened Arithmetic
  import opened DescriptorRing

  /** One fetch: `count` ring slots from `first` on. */
  datatype Block = Block(first: nat, count: nat)

  function SlotOf(bus: nat, address: nat): int { (address - bus) / DESC_SIZE }

  predicate OnRing(ring: seq<Desc>, bus: nat, address: nat, adjacent: nat) {
    && address >= bus && address == bus + DESC_SIZE * SlotOf(bus, address)
    && SlotOf(bus, address) + adjacent < |ring|
  }

  /** The fetches from an address on, until a descriptor that stops the engine. A fetch that would leave
      the ring ends the list early; so does running out of `fuel`. */
  function Fetch(ring: seq<Desc>, bus: nat, address: nat, adjacent: nat, fuel: nat): seq<Block>
    decreases fuel
  {
    if fuel == 0 || !OnRing(ring, bus, address, adjacent) then []
    else
      var first := SlotOf(bus, address);
      var last := ring[first + adjacent];
      [Block(first, adjacent + 1)]
      + if last.stopped then [] else Fetch(ring, bus, last.next, last.adjacent, fuel - 1)
  }

  function Range(from: nat, to: nat): (slots: seq<nat>)
    requires from <= to
    ensures |slots| == to - from
  {
    seq(to - from, i requires 0 <= i => from + i)
  }

  /** The slots of all blocks, in the order they are fetched. */
  function Slots(blocks: seq<Block>): seq<nat> {
    if blocks == [] then []
    else Range(blocks[0].first, blocks[0].first + blocks[0].count) + Slots(blocks[1..])
  }

  /** A block lies inside one aligned group of 64 descriptors. */
  predicate Aligned(bus: nat, block: Block) {
    && 0 < block.count <= MAX_ADJ_BLOCK_SIZE
    && (bus + DESC_SIZE * block.first) / (DESC_SIZE * MAX_ADJ_BLOCK_SIZE)
       == (bus + DESC_SIZE * (block.first + block.count - 1)) / (DESC_SIZE * MAX_ADJ_BLOCK_SIZE)
  }

  /** Slot `s` of memory is entry `s % 64` of its group. */
  lemma NextIndex(s: nat)
    ensures DESC_SIZE * s % XDMA_PAGE_SIZE / DESC_SIZE % MAX_ADJ_BLOCK_SIZE == s % MAX_ADJ_BLOCK_SIZE
  {
    var q, r := s / 128, s % 128;
    assert DESC_SIZE * s == q * XDMA_PAGE_SIZE + DESC_SIZE * r;
    ModUnique(DESC_SIZE * s, q, DESC_SIZE * r, XDMA_PAGE_SIZE);
    ModUnique(DESC_SIZE * r, r, 0, DESC_SIZE);
    assert s == 64 * (2 * q + r / 64) + r % 64;
  }

  lemma AlignedBlock(bus: nat, first: nat, remaining: nat)
    requires bus % DESC_SIZE == 0 && remaining > 0
    ensures Aligned(bus, Block(first, NextAdj(remaining, bus + DESC_SIZE * first) + 1))
  {
    var s := bus / DESC_SIZE + first;
    var adjacent := NextAdj(remaining, bus + DESC_SIZE * first);
    assert bus + DESC_SIZE * first == DESC_SIZE * s;
    NextIndex(s);
    var group, index := s / MAX_ADJ_BLOCK_SIZE, s % MAX_ADJ_BLOCK_SIZE;
    assert adjacent <= MAX_ADJ_BLOCK_SIZE - index - 1;
    InGroup(group, index);
    InGroup(group, index + adjacent);
  }

  /** Nor could it be larger: it ends with the transfer, or the next descriptor is in the next group. */
  lemma LargestBlock(bus: nat, first: nat, remaining: nat)
    requires bus % DESC_SIZE == 0 && remaining > 0
    ensures var adjacent := NextAdj(remaining, bus + DESC_SIZE * first);
      adjacent + 1 == remaining || !Aligned(bus, Block(first, adjacent + 2))
  {
    var s := bus / DESC_SIZE + first;
    var adjacent := NextAdj(remaining, bus + DESC_SIZE * first);
    assert bus + DESC_SIZE * first == DESC_SIZE * s;
    NextIndex(s);
    var group, index := s / MAX_ADJ_BLOCK_SIZE, s % MAX_ADJ_BLOCK_SIZE;
    if adjacent + 1 != remaining {
      assert index + adjacent + 1 == MAX_ADJ_BLOCK_SIZE;
      InGroup(group, index);
      InGroup(group + 1, 0);
    }
  }

  lemma InGroup(group: nat, index: nat)
    requires index < MAX_ADJ_BLOCK_SIZE
    ensures DESC_SIZE * (MAX_ADJ_BLOCK_SIZE * group + index) / (DESC_SIZE * MAX_ADJ_BLOCK_SIZE) == group
  {
    ModUnique(DESC_SIZE * (MAX_ADJ_BLOCK_SIZE * group + index), group, DESC_SIZE * index,
              DESC_SIZE * MAX_ADJ_BLOCK_SIZE);
  }

  /** Slot `j` of a chain that ends before `end`: how many more a fetch takes along, and what the
      descriptor says about the next fetch. */
  predicate Link(desc: Desc, bus: nat, j: nat, counts: seq<nat>) {
    var end := |counts|;
    && j < end && counts[j] < end - j
    && (desc.stopped <==> j + 1 == end)
    && (j + 1 < end ==> desc.next == bus + DESC_SIZE * (j + 1) && desc.adjacent == counts[j + 1])
  }

  predicate Chain(ring: seq<Desc>, bus: nat, start: nat, counts: seq<nat>) {
    && start <= |counts| <= |ring|
    && forall j :: start <= j < |counts| ==> Link(ring[j], bus, j, counts)
  }

  predicate Counted(block: Block, counts: seq<nat>) {
    block.first < |counts| && block.count == counts[block.first] + 1
  }

  predicate AllCounted(blocks: seq<Block>, counts: seq<nat>) {
    forall b :: 0 <= b < |blocks| ==> Counted(blocks[b], counts)
  }

  lemma SlotOfSlot(bus: nat, i: nat)
    ensures SlotOf(bus, bus + DESC_SIZE * i) == i
  {
  }

  /** One fetch, as the function describes it. */
  lemma FetchStep(ring: seq<Desc>, bus: nat, i: nat, address: nat, adjacent: nat, fuel: nat, last: nat)
    requires address == bus + DESC_SIZE * i && last == i + adjacent < |ring| && fuel > 0
    ensures Fetch(ring, bus, address, adjacent, fuel) ==
            [Block(i, adjacent + 1)] + (if ring[last].stopped then []
                                        else Fetch(ring, bus, ring[last].next, ring[last].adjacent, fuel - 1))
  {
    SlotOfSlot(bus, i);
  }

  /** One fetch from slot `i` of a chain takes the slots up to `last`, and goes on right after that. */
  lemma FetchOne(ring: seq<Desc>, bus: nat, i: nat, counts: seq<nat>,
                 address: nat, adjacent: nat, fuel: nat, last: nat)
    requires Chain(ring, bus, i, counts) && i < |counts| && fuel > 0
    requires address == bus + DESC_SIZE * i && adjacent == counts[i] && last == i + adjacent
    ensures last < |counts| <= |ring|
    ensures Fetch(ring, bus, address, adjacent, fuel) ==
            [Block(i, adjacent + 1)] + (if last + 1 == |counts| then []
                                        else Fetch(ring, bus, ring[last].next, ring[last].adjacent, fuel - 1))
    ensures last + 1 < |counts| ==>
      && ring[last].next == bus + DESC_SIZE * (last + 1) && ring[last].adjacent == counts[last + 1]
      && Chain(ring, bus, last + 1, counts)
  {
    hide Fetch;
    assert Link(ring[i], bus, i, counts);
    assert Link(ring[last], bus, last, counts);
    hide Link;
    FetchStep(ring, bus, i, address, adjacent, fuel, last);
  }

  /** A block followed by the slots after it. */
  lemma SlotsSplit(blocks: seq<Block>, i: nat, next: nat, end: nat)
    requires i < next <= end && blocks != [] && blocks[0] == Block(i, next - i)
    requires Slots(blocks[1..]) == Range(next, end)
    ensures Slots(blocks) == Range(i, end)
  {
    assert Range(i, end) == Range(i, next) + Range(next, end);
  }

  /** Fetching from slot `i` of a chain visits the rest of it. */
  lemma {:induction false} FetchChain(ring: seq<Desc>, bus: nat, i: nat, counts: seq<nat>,
                                      address: nat, adjacent: nat, blocks: seq<Block>, fuel: nat)
    requires Chain(ring, bus, i, counts) && i < |counts| <= i + fuel
    requires address == bus + DESC_SIZE * i && adjacent == counts[i]
    requires blocks == Fetch(ring, bus, address, adjacent, fuel)
    ensures Slots(blocks) == Range(i, |counts|)
    ensures AllCounted(blocks, counts)
    decreases fuel
  {
    hide Fetch, Chain, Slots, Range;
    var last := i + adjacent;
    FetchOne(ring, bus, i, counts, address, adjacent, fuel, last);
    var rest := blocks[1..];
    if last + 1 < |counts| {
      FetchChain(ring, bus, last + 1, counts, ring[last].next, ring[last].adjacent, rest, fuel - 1);
    } else {
      NoSlots(|counts|);
      assert rest == [];
    }
    SlotsSplit(blocks, i, last + 1, |counts|);
    assert blocks == [blocks[0]] + rest;
  }

  lemma NoSlots(end: nat)
    ensures Slots([]) == Range(end, end)
  {
  }

  /** The counts that belong to the first `n` slots of a list that ends before `end`. */
  function Counts(bus: nat, end: nat, n: nat): (counts: seq<nat>)
    requires n <= end
    ensures |counts| == n
  {
    if n == 0 then [] else Counts(bus, end, n - 1) + [NextAdj(end - n + 1, bus + DESC_SIZE * (n - 1))]
  }

  lemma {:induction false} CountsAt(bus: nat, end: nat, n: nat, j: nat)
    requires j < n <= end
    ensures Counts(bus, end, n)[j] == NextAdj(end - j, bus + DESC_SIZE * j)
  {
    if j < n - 1 {
      CountsAt(bus, end, n - 1, j);
    }
  }

  lemma LayoutLink(layout: Layout, j: nat, counts: seq<nat>)
    requires layout.start <= j < layout.start + |layout.pieces| == |counts|
    requires counts == Counts(layout.bus, |counts|, |counts|)
    ensures Link(layout.At(j), layout.bus, j, counts)
  {
    CountsAt(layout.bus, |counts|, |counts|, j);
    if j + 1 < |counts| {
      CountsAt(layout.bus, |counts|, |counts|, j + 1);
    }
  }

  lemma LayoutIsChain(layout: Layout, ring: seq<Desc>)
    requires layout.In(ring)
    ensures var end := layout.start + |layout.pieces|;
      Chain(ring, layout.bus, layout.start, Counts(layout.bus, end, end))
  {
    var end := layout.start + |layout.pieces|;
    var counts := Counts(layout.bus, end, end);
    forall j | layout.start <= j < |counts|
      ensures Link(ring[j], layout.bus, j, counts)
    {
      LayoutLink(layout, j, counts);
    }
  }

  predicate AllAligned(bus: nat, blocks: seq<Block>) {
    forall b :: 0 <= b < |blocks| ==> Aligned(bus, blocks[b])
  }

  lemma CountedAreAligned(bus: nat, end: nat, blocks: seq<Block>)
    requires bus % DESC_SIZE == 0
    requires AllCounted(blocks, Counts(bus, end, end))
    ensures AllAligned(bus, blocks)
  {
    forall b | 0 <= b < |blocks| ensures Aligned(bus, blocks[b]) {
      CountsAt(bus, end, end, blocks[b].first);
      AlignedBlock(bus, blocks[b].first, end - blocks[b].first);
    }
  }

  lemma StopsAtEnd(layout: Layout, ring: seq<Desc>)
    requires layout.In(ring)
    ensures forall i :: layout.start <= i < layout.start + |layout.pieces| ==>
      (ring[i].stopped <==> i + 1 == layout.start + |layout.pieces|)
  {
    var end := layout.start + |layout.pieces|;
    forall i | layout.start <= i < end ensures ring[i].stopped <==> i + 1 == end {
      LayoutLink(layout, i, Counts(layout.bus, end, end));
    }
  }

  /** The chain that a laid-out transfer is. */
  lemma StartsOnChain(layout: Layout, ring: seq<Desc>, address: nat, counts: seq<nat>)
    requires layout.In(ring) && layout.pieces != [] && address == layout.bus + DESC_SIZE * layout.start
    requires counts == Counts(layout.bus, layout.start + |layout.pieces|, layout.start + |layout.pieces|)
    ensures Chain(ring, layout.bus, layout.start, counts)
    ensures NextAdj(|layout.pieces|, address) == counts[layout.start]
  {
    LayoutIsChain(layout, ring);
    CountsAt(layout.bus, |counts|, |counts|, layout.start);
  }

  /** The block-wise view refines the linked list: starting from the address and the count that the
      driver writes when it starts the engine, the hardware fetches every descriptor of the transfer
      exactly once and in order, never across an aligned group of 64, and only the last one stops it. */
  lemma PrefetchVisitsTransfer(layout: Layout, ring: seq<Desc>, address: nat, adjacent: nat,
                               blocks: seq<Block>, fuel: nat)
    requires layout.In(ring) && layout.pieces != [] && layout.bus % DESC_SIZE == 0
    requires address == layout.bus + DESC_SIZE * layout.start
    requires adjacent == NextAdj(|layout.pieces|, address)
    requires fuel >= |layout.pieces| && blocks == Fetch(ring, layout.bus, address, adjacent, fuel)
    ensures Slots(blocks) == Range(layout.start, layout.start + |layout.pieces|)
    ensures AllAligned(layout.bus, blocks)
    ensures forall i :: layout.start <= i < layout.start + |layout.pieces| ==>
      (ring[i].stopped <==> i + 1 == layout.start + |layout.pieces|)
  {
    var end := layout.start + |layout.pieces|;
    var counts := Counts(layout.bus, end, end);
    StopsAtEnd(layout, ring);
    StartsOnChain(layout, ring, address, counts);
    hide *;
    FetchChain(ring, layout.bus, layout.start, counts, address, adjacent, blocks, fuel);
    CountedAreAligned(layout.bus, end, blocks);
  }
}
