/** The ring of hardware descriptors: placing a transfer in it, and what the hardware makes of it. */
module DescriptorRing {
  import opened Arithmetic
  import opened Request
  import opened Transfers

  const DESC_SIZE: nat := 32
  const RESULT_SIZE: nat := 32
  const MAX_ADJ_BLOCK_SIZE: nat := 64
  const XDMA_PAGE_SIZE: nat := 0x1000

  /** A hardware descriptor; `next` is a bus address, 0 at the end of the list. */
  datatype Desc = Desc(src: nat, dst: nat, bytes: nat, next: nat, adjacent: nat,
                       stopped: bool, completed: bool, eop: bool)

  const BLANK := Desc(0, 0, 0, 0, 0, false, false, false)

  /** How many descriptors the hardware may fetch along with the one at `nextLo`, of `remaining` in all,
      so that a fetch stays inside an aligned block of 64. */
  function NextAdj(remaining: nat, nextLo: nat): (adj: nat)
    ensures remaining > 0 ==> adj < remaining
  {
    if remaining <= 1 then 0
    else
      var nextIndex := nextLo % XDMA_PAGE_SIZE / DESC_SIZE % MAX_ADJ_BLOCK_SIZE;
      Min(MAX_ADJ_BLOCK_SIZE - nextIndex - 1, remaining - 1)
  }

  /** How many of the remaining descriptors fit before the end of the ring. */
  function Chunk(descMax: nat, descIdx: nat, remaining: nat): nat
    requires descIdx < descMax
  {
    Min(remaining, descMax - descIdx)
  }

  /** The endpoint address once the given pieces are behind. */
  function EpAfter(ep: nat, pieces: seq<Piece>, nonIncr: bool): nat {
    if nonIncr then ep else ep + TotalLen(pieces)
  }

  /** What does not change about an engine: its direction, whether the endpoint address moves, and for a streaming
      engine where the hardware writes the results of what it receives. */
  datatype Mode = Mode(toDevice: bool, nonIncr: bool, streaming: bool, resultBus: nat)
  {
    /** The hardware reports how much it received. */
    predicate Results() { streaming && !toDevice }
  }

  /** How a transfer is laid out: where in the ring it starts, and the data it carries. */
  datatype Layout = Layout(bus: nat, start: nat, pieces: seq<Piece>, ep: nat, mode: Mode)
  {
    /** The descriptor in ring slot `i`. */
    function At(i: nat): Desc
      requires start <= i < start + |pieces|
    {
      var k := i - start;
      Marked(Filled(Chained(BLANK, bus, i, k == |pieces| - 1), pieces[k], EpAt(i), i, mode),
             |pieces| - k - 1, mode.toDevice)
    }

    /** The endpoint address of the descriptor in slot `i`. */
    function EpAt(i: nat): nat
      requires start <= i <= start + |pieces|
    {
      EpAfter(ep, pieces[..i - start], mode.nonIncr)
    }

    /** The ring once addresses and lengths are filled in before slot `i`. */
    function FilledTo(ring: seq<Desc>, i: nat): (after: seq<Desc>)
      requires start <= i <= start + |pieces| <= |ring|
      ensures |after| == |ring|
    {
      seq(|ring|, j requires 0 <= j < |ring| =>
        if start <= j < i then Filled(ring[j], pieces[j - start], EpAt(j), j, mode) else ring[j])
    }

    /** The ring holds this transfer. */
    predicate In(ring: seq<Desc>) {
      && start + |pieces| <= |ring|
      && forall i :: start <= i < start + |pieces| ==> ring[i] == At(i)
    }

    /** The ring after this transfer is written to it, whatever was there before. */
    function Written(ring: seq<Desc>): (after: seq<Desc>)
      ensures |after| == |ring|
      ensures start + |pieces| <= |ring| ==> In(after)
    {
      seq(|ring|, i requires 0 <= i < |ring| => if start <= i < start + |pieces| then At(i) else ring[i])
    }

    /** The ring after this transfer's descriptors are cleared. */
    function Erased(ring: seq<Desc>): (after: seq<Desc>)
      ensures |after| == |ring|
    {
      seq(|ring|, i requires 0 <= i < |ring| => if start <= i < start + |pieces| then BLANK else ring[i])
    }
  }

  lemma IsWritten(layout: Layout, before: seq<Desc>, after: seq<Desc>)
    requires layout.In(after) && |after| == |before|
    requires forall i :: 0 <= i < |before| && !(layout.start <= i < layout.start + |layout.pieces|) ==>
      after[i] == before[i]
    ensures after == layout.Written(before)
  {
  }

  /** The addresses and lengths before the first piece and after the last... */
  lemma EpBounds(layout: Layout)
    ensures layout.EpAt(layout.start) == layout.ep && TotalLen(layout.pieces[..0]) == 0
    ensures layout.EpAt(layout.start + |layout.pieces|) == EpAfter(layout.ep, layout.pieces, layout.mode.nonIncr)
    ensures TotalLen(layout.pieces[..|layout.pieces|]) == TotalLen(layout.pieces)
  {
    assert layout.pieces[..|layout.pieces|] == layout.pieces;
  }

  /** ... and from one piece to the next. */
  lemma EpStep(layout: Layout, i: nat)
    requires layout.start <= i < layout.start + |layout.pieces|
    ensures var piece := layout.pieces[i - layout.start];
      && layout.EpAt(i + 1) == layout.EpAt(i) + (if layout.mode.nonIncr then 0 else piece.len)
      && TotalLen(layout.pieces[..i + 1 - layout.start]) == TotalLen(layout.pieces[..i - layout.start]) + piece.len
  {
    var k := i - layout.start;
    assert layout.pieces[..k + 1][..k] == layout.pieces[..k];
  }

  lemma FilledNone(layout: Layout, ring: seq<Desc>)
    requires layout.start + |layout.pieces| <= |ring|
    ensures layout.FilledTo(ring, layout.start) == ring
  {
  }

  lemma FilledStep(layout: Layout, ring: seq<Desc>, i: nat)
    requires layout.start <= i < layout.start + |layout.pieces| <= |ring|
    ensures layout.FilledTo(ring, i)[i] == ring[i]
    ensures var filled := Filled(ring[i], layout.pieces[i - layout.start], layout.EpAt(i), i, layout.mode);
      layout.FilledTo(ring, i + 1) == layout.FilledTo(ring, i)[i := filled]
  {
  }

  /** A descriptor in slot `i`, chained to the next slot or ended, with everything else cleared but the
      addresses. */
  function Chained(d: Desc, bus: nat, i: nat, last: bool): Desc {
    BLANK.(src := d.src, dst := d.dst, next := if last then 0 else bus + DESC_SIZE * (i + 1))
  }

  /** A descriptor with the addresses and length of a piece. */
  function Addressed(d: Desc, piece: Piece, epAddr: nat, toDevice: bool): Desc {
    d.(src := if toDevice then piece.addr else epAddr,
       dst := if toDevice then epAddr else piece.addr,
       bytes := piece.len)
  }

  /** The descriptor in slot `i` that carries a piece. One that receives a stream names its result instead of an
      endpoint address. */
  function Filled(d: Desc, piece: Piece, epAddr: nat, i: nat, mode: Mode): Desc {
    var addressed := Addressed(d, piece, epAddr, mode.toDevice);
    if mode.Results() then addressed.(src := mode.resultBus + RESULT_SIZE * i) else addressed
  }

  /** A descriptor with its control flags; `remaining` descriptors come after it. */
  function Marked(d: Desc, remaining: nat, toDevice: bool): Desc {
    var last := remaining == 0;
    d.(adjacent := NextAdj(remaining, d.next), stopped := last, completed := last, eop := last || toDevice)
  }

  /** What the hardware reads in the descriptor of piece `k` of a transfer. Data goes from the source to the destination
      address: to the card, from the piece to the endpoint address, which moves on by the pieces before it unless it
      stays; from the card the other way round, except that a received stream has no endpoint address and names the
      place of its result instead. Only the last descriptor ends the list, stops the engine and is reported. */
  lemma DescFields(layout: Layout, ring: seq<Desc>, k: nat)
    requires layout.In(ring) && k < |layout.pieces|
    ensures var d, piece, mode := ring[layout.start + k], layout.pieces[k], layout.mode;
      var card := layout.ep + (if mode.nonIncr then 0 else TotalLen(layout.pieces[..k]));
      && d.bytes == piece.len
      && (mode.toDevice ==> d.src == piece.addr && d.dst == card)
      && (!mode.toDevice ==>
            d.dst == piece.addr && d.src == if mode.streaming then mode.resultBus + 32 * (layout.start + k) else card)
    ensures var d, last := ring[layout.start + k], k + 1 == |layout.pieces|;
      && d.next == (if last then 0 else layout.bus + 32 * (layout.start + k + 1))
      && (d.stopped <==> last) && (d.completed <==> last) && (d.eop <==> last || layout.mode.toDevice)
  {
    assert ring[layout.start + k] == layout.At(layout.start + k);
  }

  class Ring {
    const descMax: nat
    const descBus: nat
    const mode: Mode
    const desc: array<Desc>
    var descIdx: nat
    var descUsed: int

    constructor (descMax: nat, descBus: nat, mode: Mode)
      requires descMax > 0
      ensures Valid() && fresh(desc)
      ensures this.descMax == descMax && this.descBus == descBus && this.mode == mode
    {
      this.descMax, this.descBus, this.mode := descMax, descBus, mode;
      desc := new Desc[descMax](_ => BLANK);
      descIdx, descUsed := 0, 0;
    }

    ghost predicate Valid()
      reads `descIdx
    {
      desc.Length == descMax > 0 && descIdx < descMax
    }

    /** `transfer_desc_init`: chains `count` descriptors from `start` on, and clears their contents. */
    method ChainDescs(start: nat, count: nat)
      requires Valid() && count > 0 && start + count <= descMax
      modifies desc
      ensures forall i :: start <= i < start + count ==>
        desc[i] == Chained(old(desc[i]), descBus, i, i == start + count - 1)
      ensures forall i :: 0 <= i < start || start + count <= i < descMax ==> desc[i] == old(desc[i])
    {
      var bus := descBus + DESC_SIZE * start;
      for i := start to start + count - 1
        invariant bus == descBus + DESC_SIZE * i
        invariant forall j :: start <= j < i ==> desc[j] == Chained(old(desc[j]), descBus, j, false)
        invariant forall j :: 0 <= j < start || i <= j < descMax ==> desc[j] == old(desc[j])
      {
        bus := bus + DESC_SIZE;
        desc[i] := BLANK.(src := desc[i].src, dst := desc[i].dst, next := bus);
      }
      var last := start + count - 1;
      desc[last] := BLANK.(src := desc[last].src, dst := desc[last].dst);
    }

    /** `xdma_desc_set`: addresses and length of one descriptor. */
    method DescSet(i: nat, piece: Piece, epAddr: nat)
      requires Valid() && i < descMax
      modifies desc
      ensures desc[i] == Addressed(old(desc[i]), piece, epAddr, mode.toDevice)
      ensures forall j :: 0 <= j < descMax && j != i ==> desc[j] == old(desc[j])
    {
      if mode.toDevice {
        desc[i] := desc[i].(src := piece.addr, dst := epAddr, bytes := piece.len);
      } else {
        desc[i] := desc[i].(src := epAddr, dst := piece.addr, bytes := piece.len);
      }
    }

    /** The body of the loop in `transfer_build`, as far as descriptors go. `bus` is where the result of slot `i`
        will be written. */
    method FillDesc(i: nat, piece: Piece, epAddr: nat, bus: nat)
      requires Valid() && i < descMax && bus == mode.resultBus + RESULT_SIZE * i
      modifies desc
      ensures desc[..] == old(desc[..])[i := Filled(old(desc[i]), piece, epAddr, i, mode)]
    {
      DescSet(i, piece, epAddr);
      if mode.streaming && !mode.toDevice {
        desc[i] := desc[i].(src := bus);
      }
    }

    /** The state of the loop in `transfer_build` before slot `i`, from the ring and the length at its start. */
    ghost predicate Building(req: RequestCb, xfer: Transfer, layout: Layout, was: seq<Desc>, len: nat, i: nat)
      requires layout.start <= i <= layout.start + |layout.pieces| <= |was|
      reads desc, req, xfer`len
    {
      && req.epAddr == layout.EpAt(i)
      && xfer.len == len + TotalLen(layout.pieces[..i - layout.start])
      && desc[..] == layout.FilledTo(was, i)
    }

    /** The body of that loop. */
    method BuildDesc(req: RequestCb, xfer: Transfer, i: nat, piece: Piece, bus: nat,
                     ghost layout: Layout, ghost was: seq<Desc>, ghost len: nat)
      requires Valid() && layout.start <= i < layout.start + |layout.pieces| <= descMax == |was|
      requires layout.mode == mode && bus == mode.resultBus + RESULT_SIZE * i
      requires piece == layout.pieces[i - layout.start] && Building(req, xfer, layout, was, len, i)
      modifies desc, req`epAddr, xfer`len
      ensures Building(req, xfer, layout, was, len, i + 1)
    {
      EpStep(layout, i);
      FilledStep(layout, was, i);
      hide Filled, Layout.EpAt, Layout.FilledTo, TotalLen;
      FillDesc(i, piece, req.epAddr, bus);
      xfer.len := xfer.len + piece.len;
      if !mode.nonIncr {
        req.epAddr := req.epAddr + piece.len;
      }
    }

    /** `transfer_build`: fills in addresses and lengths, and moves the request on. */
    method BuildTransfer(req: RequestCb, xfer: Transfer, ghost layout: Layout)
      requires Valid() && layout.start + |layout.pieces| <= descMax
      requires req.swDescIdx + |layout.pieces| <= req.swDescCnt <= req.sdesc.Length
      requires layout.pieces == req.sdesc[req.swDescIdx..req.swDescIdx + |layout.pieces|]
      requires layout.ep == req.epAddr && layout.mode == mode
      requires xfer.descIndex == layout.start && xfer.descNum == |layout.pieces|
      modifies desc, req, xfer`len
      ensures req.swDescIdx == old(req.swDescIdx) + |layout.pieces|
      ensures req.epAddr == EpAfter(layout.ep, layout.pieces, mode.nonIncr)
      ensures xfer.len == old(xfer.len) + TotalLen(layout.pieces)
      ensures desc[..] == layout.FilledTo(old(desc[..]), layout.start + |layout.pieces|)
    {
      var start, count := xfer.descIndex, xfer.descNum;
      var bus := mode.resultBus + RESULT_SIZE * start;
      ghost var was, len := desc[..], xfer.len;
      EpBounds(layout);
      FilledNone(layout, was);
      hide Filled, Layout.EpAt, Layout.FilledTo, TotalLen, EpAfter;
      for i := start to start + count
        invariant bus == mode.resultBus + RESULT_SIZE * i
        invariant req.swDescIdx == old(req.swDescIdx)
        invariant Building(req, xfer, layout, was, len, i)
      {
        hide Building;
        BuildDesc(req, xfer, i, req.sdesc[req.swDescIdx + (i - start)], bus, layout, was, len);
        bus := bus + RESULT_SIZE;
      }
      req.swDescIdx := req.swDescIdx + count;
    }

    /** The rest of `transfer_init`: control flags, and the adjacent counts. */
    method MarkDescs(start: nat, count: nat)
      requires Valid() && count > 0 && start + count <= descMax
      requires forall i :: start <= i < start + count ==>
        !desc[i].stopped && !desc[i].completed && !desc[i].eop
      modifies desc
      ensures forall i :: start <= i < start + count ==>
        desc[i] == Marked(old(desc[i]), start + count - i - 1, mode.toDevice)
      ensures forall i :: 0 <= i < start || start + count <= i < descMax ==> desc[i] == old(desc[i])
    {
      var last := start + count - 1;
      desc[last] := desc[last].(stopped := true, completed := true, eop := true);
      if mode.toDevice {
        for i := start to last
          invariant forall j :: start <= j < i ==> desc[j] == old(desc[j]).(eop := true)
          invariant forall j :: 0 <= j < start || i <= j < last || last < j < descMax ==>
            desc[j] == old(desc[j])
          invariant desc[last] == old(desc[last]).(stopped := true, completed := true, eop := true)
        {
          desc[i] := desc[i].(stopped := false, completed := false, eop := true);
        }
      }
      for i := start to start + count
        invariant forall j :: start <= j < i ==>
          desc[j] == Marked(old(desc[j]), start + count - j - 1, mode.toDevice)
        invariant forall j :: i <= j < start + count ==>
          desc[j].(adjacent := 0) == Marked(old(desc[j]), start + count - j - 1, mode.toDevice).(adjacent := 0)
        invariant forall j :: 0 <= j < start || start + count <= j < descMax ==> desc[j] == old(desc[j])
      {
        desc[i] := desc[i].(adjacent := NextAdj(start + count - i - 1, desc[i].next));
      }
    }

    /** The start of `transfer_init`: a blank record for `num` descriptors from the next free slot on. */
    method ClearTransfer(xfer: Transfer, num: nat)
      requires Valid()
      modifies xfer
      ensures xfer.descIndex == descIdx && xfer.descBus == descBus + DESC_SIZE * descIdx
      ensures xfer.descNum == num && xfer.descAdjacent == num && xfer.descCmpl == 0 && xfer.len == 0
      ensures xfer.state == New && !xfer.cyclic && !xfer.lastInRequest
    {
      xfer.descIndex := descIdx;
      xfer.descBus := descBus + DESC_SIZE * descIdx;
      xfer.descCmpl, xfer.len := 0, 0;
      xfer.state, xfer.cyclic, xfer.lastInRequest := New, false, false;
      xfer.descAdjacent := num;
      xfer.descNum := num;
    }

    /** `transfer_init`: takes as many of the request's remaining pieces as fit before the end of the ring,
        and lays them out as one transfer. */
    method TransferInit(req: RequestCb, xfer: Transfer)
      requires Valid() && req.swDescIdx < req.swDescCnt <= req.sdesc.Length
      modifies `descIdx, `descUsed, desc, req, xfer
      ensures Valid()
      ensures var num := Chunk(descMax, old(descIdx), req.swDescCnt - old(req.swDescIdx));
        && num > 0
        && req.swDescIdx == old(req.swDescIdx) + num
        && descIdx == (if old(descIdx) + num == descMax then 0 else old(descIdx) + num)
        && descUsed == old(descUsed) + num
        && xfer.descNum == num && xfer.descAdjacent == num
      ensures xfer.descIndex == old(descIdx) && xfer.descBus == descBus + DESC_SIZE * old(descIdx)
      ensures !xfer.cyclic && !xfer.lastInRequest && xfer.descCmpl == 0 && xfer.state == New
      ensures var pieces := req.sdesc[old(req.swDescIdx)..req.swDescIdx];
        && xfer.len == TotalLen(pieces)
        && req.epAddr == EpAfter(old(req.epAddr), pieces, mode.nonIncr)
        && desc[..] == Layout(descBus, old(descIdx), pieces, old(req.epAddr), mode).Written(old(desc[..]))
    {
      var num := Min(req.swDescCnt - req.swDescIdx, descMax);
      if descIdx + num >= descMax {
        num := descMax - descIdx;
      }
      ClearTransfer(xfer, num);
      ghost var layout := Layout(descBus, descIdx, req.sdesc[req.swDescIdx..req.swDescIdx + num], req.epAddr,
                                 mode);
      hide Layout.In, Layout.Written, TotalLen, EpAfter;
      LayOut(req, xfer, layout);
      RingSuccessor(descIdx, num, descMax);
      descIdx := (descIdx + num) % descMax;
      descUsed := descUsed + num;
    }

    /** Writes the transfer's descriptors. */
    method LayOut(req: RequestCb, xfer: Transfer, ghost layout: Layout)
      requires Valid() && layout.pieces != [] && layout.start + |layout.pieces| <= descMax
      requires req.swDescIdx + |layout.pieces| <= req.swDescCnt <= req.sdesc.Length
      requires layout.pieces == req.sdesc[req.swDescIdx..req.swDescIdx + |layout.pieces|]
      requires layout.ep == req.epAddr && layout.mode == mode
      requires layout.bus == descBus && xfer.descIndex == layout.start && xfer.descNum == |layout.pieces|
      modifies desc, req, xfer`len
      ensures req.swDescIdx == old(req.swDescIdx) + |layout.pieces|
      ensures req.epAddr == EpAfter(layout.ep, layout.pieces, mode.nonIncr)
      ensures xfer.len == old(xfer.len) + TotalLen(layout.pieces)
      ensures desc[..] == layout.Written(old(desc[..]))
    {
      ChainDescs(xfer.descIndex, xfer.descNum);
      BuildTransfer(req, xfer, layout);
      MarkDescs(xfer.descIndex, xfer.descNum);
      IsWritten(layout, old(desc[..]), desc[..]);
    }
  }

  lemma RingSuccessor(idx: nat, num: nat, max: nat)
    requires idx < max && idx + num <= max
    ensures (idx + num) % max == if idx + num == max then 0 else idx + num
  {
    if idx + num == max {
      ModUnique(idx + num, 1, 0, max);
    } else {
      ModUnique(idx + num, 0, idx + num, max);
    }
  }
}
