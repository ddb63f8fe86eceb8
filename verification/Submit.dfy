/** Submitting a request: one transfer after another until every software descriptor has been issued. */
module Submit {
  import opened Arithmetic
  import opened Request
  import opened Transfers
  import opened DescriptorRing
  import opened Errors

  /** How a transfer ends: the driver waits for the completion service to say so, or gives up; or the queue does not
      take the transfer. */
  datatype Outcome = Done | HalfWay | TimedOut | Refused {
    function Error(): int
    {
      match this
      case Done => 0
      case HalfWay => -EIO
      case TimedOut => -ERESTARTSYS
      case Refused => -EBUSY
    }
  }

  /** What does not change while a request is submitted. */
  datatype Shape = Shape(descMax: nat, bus: nat, mode: Mode)

  function Successor(descMax: nat, idx: nat, num: nat): nat {
    if idx + num == descMax then 0 else idx + num
  }

  /** The ring slot of descriptor `k` of a request that starts at slot `idx`. */
  function SlotFor(idx: nat, k: nat, descMax: nat): nat
    requires descMax > 0
  {
    Rem(idx + k, descMax)
  }

  lemma SlotForNone(idx: nat, descMax: nat)
    requires idx < descMax
    ensures SlotFor(idx, 0, descMax) == idx
  {
  }

  /** Counting on in the ring, as far as its end. */
  lemma SlotForNext(idx: nat, k: nat, num: nat, descMax: nat)
    requires descMax > 0 && SlotFor(idx, k, descMax) + num <= descMax
    ensures SlotFor(idx, k + num, descMax) == Successor(descMax, SlotFor(idx, k, descMax), num)
  {
    RemOn(idx + k, num, descMax);
  }

  lemma {:induction false} RemOn(x: nat, num: nat, n: nat)
    requires n > 0 && Rem(x, n) + num <= n
    ensures Rem(x + num, n) == if Rem(x, n) + num == n then 0 else Rem(x, n) + num
    decreases x
  {
    if x >= n {
      RemOn(x - n, num, n);
    }
  }

  /** The transfers that a request becomes when the next free ring slot is `idx`. */
  function Layouts(shape: Shape, idx: nat, pieces: seq<Piece>, ep: nat): (layouts: seq<Layout>)
    requires idx < shape.descMax
    decreases |pieces|
  {
    if pieces == [] then []
    else
      var num := Chunk(shape.descMax, idx, |pieces|);
      [Layout(shape.bus, idx, pieces[..num], ep, shape.mode)]
      + Layouts(shape, Successor(shape.descMax, idx, num), pieces[num..],
                EpAfter(ep, pieces[..num], shape.mode.nonIncr))
  }

  function AllPieces(layouts: seq<Layout>): seq<Piece> {
    if layouts == [] then [] else layouts[0].pieces + AllPieces(layouts[1..])
  }

  // ----- what the transfers amount to -----

  /** The transfers carry the request's pieces, in order... */
  lemma {:induction false} LayoutsTile(shape: Shape, idx: nat, pieces: seq<Piece>, ep: nat)
    requires idx < shape.descMax
    ensures AllPieces(Layouts(shape, idx, pieces, ep)) == pieces
    decreases |pieces|
  {
    if pieces != [] {
      var num := Chunk(shape.descMax, idx, |pieces|);
      var ep1 := EpAfter(ep, pieces[..num], shape.mode.nonIncr);
      var idx1 := Successor(shape.descMax, idx, num);
      LayoutsTile(shape, idx1, pieces[num..], ep1);
      assert Layouts(shape, idx, pieces, ep)[1..] == Layouts(shape, idx1, pieces[num..], ep1);
    }
  }

  /** ... each transfer in one stretch of the ring. */
  lemma {:induction false} LayoutsFit(shape: Shape, idx: nat, pieces: seq<Piece>, ep: nat, t: nat)
    requires idx < shape.descMax && t < |Layouts(shape, idx, pieces, ep)|
    ensures var layout := Layouts(shape, idx, pieces, ep)[t];
      && layout.pieces != [] && layout.start + |layout.pieces| <= shape.descMax
      && layout.bus == shape.bus && layout.mode == shape.mode
    decreases t
  {
    if t > 0 {
      var num := Chunk(shape.descMax, idx, |pieces|);
      LayoutsFit(shape, Successor(shape.descMax, idx, num), pieces[num..],
                 EpAfter(ep, pieces[..num], shape.mode.nonIncr), t - 1);
    }
  }

  lemma LayoutsMode(shape: Shape, idx: nat, pieces: seq<Piece>, ep: nat, layouts: seq<Layout>)
    requires idx < shape.descMax && layouts == Layouts(shape, idx, pieces, ep)
    ensures forall t :: 0 <= t < |layouts| ==> layouts[t].mode == shape.mode
  {
    forall t | 0 <= t < |layouts| ensures layouts[t].mode == shape.mode {
      LayoutsFit(shape, idx, pieces, ep, t);
    }
  }

  /** The bytes that a completed transfer counts for: its length, or what the hardware says it received. */
  function BytesDone(layout: Layout, received: nat): nat {
    if layout.mode.Results() then received else TotalLen(layout.pieces)
  }

  /** The bytes of the first `t` transfers. */
  function SentBy(layouts: seq<Layout>, received: nat -> nat, t: nat): nat
    requires t <= |layouts|
  {
    if t == 0 then 0 else SentBy(layouts, received, t - 1) + BytesDone(layouts[t - 1], received(t - 1))
  }

  lemma {:induction false} AllPiecesSnoc(layouts: seq<Layout>, last: Layout)
    ensures AllPieces(layouts + [last]) == AllPieces(layouts) + last.pieces
  {
    if layouts == [] {
      assert [last][1..] == [] && last.pieces + [] == last.pieces && layouts + [last] == [last];
    } else {
      AllPiecesSnoc(layouts[1..], last);
      assert (layouts + [last])[1..] == layouts[1..] + [last];
      var first, rest := layouts[0].pieces, AllPieces(layouts[1..]);
      assert first + (rest + last.pieces) == first + rest + last.pieces;
    }
  }

  /** Where nothing is received in results, the bytes are those of the pieces. */
  lemma {:induction false} SentByPieces(layouts: seq<Layout>, received: nat -> nat, t: nat)
    requires t <= |layouts| && forall i :: 0 <= i < |layouts| ==> !layouts[i].mode.Results()
    ensures SentBy(layouts, received, t) == TotalLen(AllPieces(layouts[..t]))
  {
    if t > 0 {
      SentByPieces(layouts, received, t - 1);
      assert layouts[..t] == layouts[..t - 1] + [layouts[t - 1]];
      AllPiecesSnoc(layouts[..t - 1], layouts[t - 1]);
      CoverConcat(AllPieces(layouts[..t - 1]), layouts[t - 1].pieces);
    }
  }

  /** The transfer and ring slot that carry piece `k`. */
  function Locate(layouts: seq<Layout>, k: nat): (nat, nat) {
    if layouts == [] then (0, 0)
    else if k < |layouts[0].pieces| then (0, layouts[0].start + k)
    else
      var (t, slot) := Locate(layouts[1..], k - |layouts[0].pieces|);
      (t + 1, slot)
  }

  lemma {:induction false} EpConcat(ep: nat, a: seq<Piece>, b: seq<Piece>, nonIncr: bool)
    ensures EpAfter(EpAfter(ep, a, nonIncr), b, nonIncr) == EpAfter(ep, a + b, nonIncr)
  {
    CoverConcat(a, b);
  }

  /** Past the first transfer, the rest of the request starts over at slot 0. */
  lemma LocateRest(shape: Shape, idx: nat, pieces: seq<Piece>, ep: nat, k: nat)
    requires idx < shape.descMax && Chunk(shape.descMax, idx, |pieces|) <= k < |pieces|
    ensures var num := Chunk(shape.descMax, idx, |pieces|);
      var layouts := Layouts(shape, idx, pieces, ep);
      var rest := Layouts(shape, 0, pieces[num..], EpAfter(ep, pieces[..num], shape.mode.nonIncr));
      var (t, slot) := Locate(rest, k - num);
      && idx + num == shape.descMax && layouts[1..] == rest && layouts != []
      && Locate(layouts, k) == (t + 1, slot)
  {
  }

  /** Piece `k` of the request sits `k` slots further around the ring. */
  lemma {:induction false} PieceIsPlaced(shape: Shape, idx: nat, pieces: seq<Piece>, ep: nat, k: nat)
    requires idx < shape.descMax && k < |pieces|
    ensures var layouts := Layouts(shape, idx, pieces, ep);
      var (t, slot) := Locate(layouts, k);
      && t < |layouts| && layouts[t].start <= slot < layouts[t].start + |layouts[t].pieces|
      && slot == SlotFor(idx, k, shape.descMax)
      && layouts[t].pieces[slot - layouts[t].start] == pieces[k]
    decreases |pieces|
  {
    var num := Chunk(shape.descMax, idx, |pieces|);
    if k >= num {
      var next := EpAfter(ep, pieces[..num], shape.mode.nonIncr);
      RemShift(k - num, shape.descMax);
      LocateRest(shape, idx, pieces, ep, k);
      PieceIsPlaced(shape, 0, pieces[num..], next, k - num);
    }
  }

  lemma PrefixSplit(s: seq<Piece>, num: nat, k: nat)
    requires num <= k <= |s|
    ensures s[..k] == s[..num] + s[num..][..k - num]
  {
  }

  /** The endpoint address of the descriptor that carries piece `k`. */
  ghost predicate AddressedAt(layouts: seq<Layout>, k: nat, ep: nat) {
    var (t, slot) := Locate(layouts, k);
    && t < |layouts| && layouts[t].start <= slot < layouts[t].start + |layouts[t].pieces|
    && layouts[t].EpAt(slot) == ep
  }

  /** A piece in the first transfer... */
  lemma AddressedFirst(layouts: seq<Layout>, pieces: seq<Piece>, num: nat, k: nat)
    requires k < num <= |pieces| && layouts != [] && layouts[0].pieces == pieces[..num]
    ensures AddressedAt(layouts, k, EpAfter(layouts[0].ep, pieces[..k], layouts[0].mode.nonIncr))
  {
    assert pieces[..num][..k] == pieces[..k];
    assert Locate(layouts, k) == (0, layouts[0].start + k);
  }

  /** ... and one in a later transfer. */
  lemma AddressedLater(layouts: seq<Layout>, num: nat, k: nat, ep: nat)
    requires layouts != [] && |layouts[0].pieces| == num <= k && AddressedAt(layouts[1..], k - num, ep)
    ensures AddressedAt(layouts, k, ep)
  {
    hide Layout.EpAt;
    var (t, slot) := Locate(layouts[1..], k - num);
    assert Locate(layouts, k) == (t + 1, slot) && layouts[t + 1] == layouts[1..][t];
  }

  /** Its endpoint address is the request's start plus the lengths of the pieces before it (or the start
      itself, when the address does not move). */
  lemma {:induction false} PieceIsAddressed(shape: Shape, idx: nat, pieces: seq<Piece>, ep: nat, k: nat)
    requires idx < shape.descMax && k < |pieces|
    ensures AddressedAt(Layouts(shape, idx, pieces, ep), k, EpAfter(ep, pieces[..k], shape.mode.nonIncr))
    decreases |pieces|
  {
    var num, nonIncr := Chunk(shape.descMax, idx, |pieces|), shape.mode.nonIncr;
    var layouts := Layouts(shape, idx, pieces, ep);
    if k < num {
      AddressedFirst(layouts, pieces, num, k);
    } else {
      var head, rest := pieces[..num], pieces[num..];
      var before := rest[..k - num];
      LocateRest(shape, idx, pieces, ep, k);
      PieceIsAddressed(shape, 0, rest, EpAfter(ep, head, nonIncr), k - num);
      hide AddressedAt, EpAfter, Locate;
      PrefixSplit(pieces, num, k);
      EpConcat(ep, head, before, nonIncr);
      AddressedLater(layouts, num, k, EpAfter(ep, pieces[..k], nonIncr));
    }
  }

  /** At most two transfers are needed exactly when the request fits the rest of the ring plus one more
      round; in particular whenever it has no more descriptors than the ring. */
  lemma TwoTransfersSuffice(shape: Shape, idx: nat, pieces: seq<Piece>, ep: nat)
    requires idx < shape.descMax
    ensures |Layouts(shape, idx, pieces, ep)| <= 2 <==> |pieces| <= (shape.descMax - idx) + shape.descMax
  {
    if pieces != [] {
      var num := Chunk(shape.descMax, idx, |pieces|);
      var ep1 := EpAfter(ep, pieces[..num], shape.mode.nonIncr);
      var idx1, rest := Successor(shape.descMax, idx, num), pieces[num..];
      if rest != [] {
        var num1 := Chunk(shape.descMax, idx1, |rest|);
        assert idx1 == 0;
        assert Layouts(shape, idx1, rest, ep1)[1..]
            == Layouts(shape, Successor(shape.descMax, idx1, num1), rest[num1..],
                       EpAfter(ep1, rest[..num1], shape.mode.nonIncr));
      }
    }
  }

  // ----- the submit loop -----

  /** A transfer as it was handed to the hardware, with the ring at that moment. */
  datatype Issue = Issue(layout: Layout, ring: seq<Desc>)

  ghost predicate Issued(issues: seq<Issue>, layouts: seq<Layout>) {
    && |issues| <= |layouts|
    && forall t :: 0 <= t < |issues| ==> issues[t].layout == layouts[t] && layouts[t].In(issues[t].ring)
  }

  /** How many transfers are issued: up to and including the first that does not complete. */
  function Attempts(outcome: nat -> Outcome, t: nat, n: nat): (attempts: nat)
    requires t <= n
    ensures t <= attempts <= n
    decreases n - t
  {
    if t == n then n else if outcome(t) == Done then Attempts(outcome, t + 1, n) else t + 1
  }

  ghost function ShapeOf(ring: Ring): Shape {
    Shape(ring.descMax, ring.descBus, ring.mode)
  }

  /** Gives the transfer's descriptors back: `transfer_destroy` clears them. */
  method Retire(ring: Ring, xfer: Transfer)
    requires ring.Valid() && xfer.descIndex + xfer.descNum <= ring.descMax
    modifies ring`descUsed, ring.desc
    ensures ring.descUsed == old(ring.descUsed) - xfer.descNum
    ensures forall layout: Layout :: layout.start == xfer.descIndex && |layout.pieces| == xfer.descNum ==>
      ring.desc[..] == layout.Erased(old(ring.desc[..]))
  {
    ring.descUsed := ring.descUsed - xfer.descNum;
    forall i | xfer.descIndex <= i < xfer.descIndex + xfer.descNum {
      ring.desc[i] := BLANK;
    }
  }

  /** The request's state after `t` transfers: what is left becomes the remaining transfers. */
  ghost predicate Progress(ring: Ring, req: RequestCb, pieces: seq<Piece>, layouts: seq<Layout>, t: nat)
    reads ring`descIdx, req, req.sdesc
  {
    && ring.Valid() && req.swDescIdx <= req.swDescCnt <= req.sdesc.Length && pieces == req.sdesc[..req.swDescCnt]
    && t <= |layouts|
    && layouts[t..] == Layouts(ShapeOf(ring), ring.descIdx, pieces[req.swDescIdx..], req.epAddr)
  }

  lemma ProgressStarts(ring: Ring, req: RequestCb, pieces: seq<Piece>, layouts: seq<Layout>)
    requires ring.Valid() && req.swDescIdx == 0 && req.swDescCnt <= req.sdesc.Length
    requires pieces == req.sdesc[..req.swDescCnt]
    requires layouts == Layouts(ShapeOf(ring), ring.descIdx, pieces, req.epAddr)
    ensures Progress(ring, req, pieces, layouts, 0)
  {
    assert pieces[0..] == pieces && layouts[0..] == layouts;
  }

  /** What the loops need to know of it; at the end, all transfers are done. */
  lemma ProgressFacts(ring: Ring, req: RequestCb, pieces: seq<Piece>, layouts: seq<Layout>, t: nat)
    requires Progress(ring, req, pieces, layouts, t)
    ensures ring.Valid() && req.swDescIdx <= req.swDescCnt <= req.sdesc.Length && pieces == req.sdesc[..req.swDescCnt]
    ensures t <= |layouts| && (req.swDescIdx == req.swDescCnt <==> t == |layouts|)
  {
  }

  /** The record of a transfer: where it is, how the hardware finds it, and what it carries. */
  ghost predicate Recorded(xfer: Transfer, layout: Layout)
    reads xfer`descIndex, xfer`descNum, xfer`descBus, xfer`descAdjacent, xfer`len
  {
    && xfer.descIndex == layout.start && xfer.descNum == xfer.descAdjacent == |layout.pieces|
    && xfer.descBus == layout.bus + DESC_SIZE * layout.start
    && xfer.len == TotalLen(layout.pieces)
  }

  lemma SliceOfRest(s: seq<Piece>, cnt: nat, from: nat, to: nat)
    requires from <= to <= cnt <= |s|
    ensures s[from..to] == s[..cnt][from..][..to - from] && s[..cnt][from..][to - from..] == s[..cnt][to..]
  {
  }

  /** The next transfer of the request, built and recorded. */
  method IssueNext(ring: Ring, req: RequestCb, xfer: Transfer,
                   ghost pieces: seq<Piece>, ghost layouts: seq<Layout>, ghost t: nat)
    requires Progress(ring, req, pieces, layouts, t) && req.swDescIdx < req.swDescCnt
    modifies ring, ring.desc, req, xfer
    ensures t < |layouts| && Progress(ring, req, pieces, layouts, t + 1)
    ensures layouts[t].In(ring.desc[..])
    ensures Recorded(xfer, layouts[t]) && xfer.state == New && !xfer.lastInRequest && !xfer.cyclic
    ensures xfer.len == TotalLen(layouts[t].pieces)
    ensures xfer.descIndex == layouts[t].start && xfer.descNum == |layouts[t].pieces| > 0
    ensures layouts[t].bus == ring.descBus
    ensures req.swDescIdx == old(req.swDescIdx) + xfer.descNum
    ensures ring.descUsed == old(ring.descUsed) + xfer.descNum
    ensures xfer.descIndex == old(ring.descIdx) && xfer.descIndex + xfer.descNum <= ring.descMax
    ensures ring.descIdx == Successor(ring.descMax, xfer.descIndex, xfer.descNum)
    ensures ring.desc[..] == layouts[t].Written(old(ring.desc[..]))
  {
    ghost var from := req.swDescIdx;
    ring.TransferInit(req, xfer);
    ghost var num := req.swDescIdx - from;
    assert layouts[t] == layouts[t..][0];
    SliceOfRest(req.sdesc[..], req.swDescCnt, from, req.swDescIdx);
    assert layouts[t + 1..] == layouts[t..][1..];
  }

  /** All transfers before `t` are issued and complete. */
  ghost predicate AllDone(issues: seq<Issue>, layouts: seq<Layout>, outcome: nat -> Outcome, t: nat)
    requires t <= |layouts|
  {
    && Issued(issues, layouts) && |issues| == t
    && Attempts(outcome, 0, |layouts|) == Attempts(outcome, t, |layouts|)
    && (t > 0 ==> outcome(t - 1) == Done)
  }

  /** What `xdma_xfer_submit` promises: the transfers that were built, and the result. */
  ghost predicate Promised(issues: seq<Issue>, layouts: seq<Layout>, outcome: nat -> Outcome, received: nat -> nat,
                           result: int) {
    var n := Attempts(outcome, 0, |layouts|);
    && Issued(issues, layouts) && |issues| == n
    && if n == 0 || outcome(n - 1) == Done then
         n == |layouts| && result == SentBy(layouts, received, n)
       else
         var done := SentBy(layouts, received, n - 1);
         result == if done > 0 then done else outcome(n - 1).Error()
  }

  /** The descriptors of a transfer that the queue refuses are not given back. */
  ghost function Kept(layouts: seq<Layout>, outcome: nat -> Outcome): nat {
    var n := Attempts(outcome, 0, |layouts|);
    if n > 0 && outcome(n - 1) == Refused then |layouts[n - 1].pieces| else 0
  }

  lemma OneMoreDone(issues: seq<Issue>, layouts: seq<Layout>, outcome: nat -> Outcome, received: nat -> nat,
                    t: nat, ring: seq<Desc>)
    requires t < |layouts| && AllDone(issues, layouts, outcome, t) && layouts[t].In(ring)
    ensures var mode := layouts[t].mode;
      SentBy(layouts, received, t + 1) == SentBy(layouts, received, t)
        + (if mode.streaming && !mode.toDevice then received(t) else TotalLen(layouts[t].pieces))
    ensures outcome(t) == Done ==> AllDone(issues + [Issue(layouts[t], ring)], layouts, outcome, t + 1)
    ensures outcome(t) != Done ==>
      && Kept(layouts, outcome) == (if outcome(t) == Refused then |layouts[t].pieces| else 0)
      && var done := SentBy(layouts, received, t);
         Promised(issues + [Issue(layouts[t], ring)], layouts, outcome, received,
                  if done > 0 then done else outcome(t).Error())
  {
  }

  /** Before the first transfer, and after the last. */
  lemma NoneAndAllDone(issues: seq<Issue>, layouts: seq<Layout>, outcome: nat -> Outcome, received: nat -> nat)
    ensures AllDone([], layouts, outcome, 0) && SentBy(layouts, received, 0) == 0
    ensures AllDone(issues, layouts, outcome, |layouts|) ==>
      && Kept(layouts, outcome) == 0
      && Promised(issues, layouts, outcome, received, SentBy(layouts, received, |layouts|))
  {
  }

  /** The state of the loop after `t` transfers that all completed, with `used` descriptors in use as at the start. */
  ghost predicate Through(ring: Ring, req: RequestCb, pieces: seq<Piece>, layouts: seq<Layout>, outcome: nat -> Outcome,
                          received: nat -> nat, t: nat, used: int, done: nat, issues: seq<Issue>)
    reads ring, req, req.sdesc
  {
    && Progress(ring, req, pieces, layouts, t) && AllDone(issues, layouts, outcome, t)
    && done == SentBy(layouts, received, t) && ring.descUsed == used
    && forall k :: 0 <= k < |layouts| ==> layouts[k].mode == ring.mode
  }

  /** The state when the loop has returned a result. */
  ghost predicate Over(ring: Ring, layouts: seq<Layout>, outcome: nat -> Outcome, received: nat -> nat, used: int,
                       result: int, issues: seq<Issue>)
    reads ring
  {
    && ring.Valid() && Promised(issues, layouts, outcome, received, result)
    && ring.descUsed == used + Kept(layouts, outcome)
  }

  /** One round of the loop: builds the next transfer, hands it over, and once it is over gives its descriptors back. */
  method SubmitOne(ring: Ring, req: RequestCb, xfer: Transfer, outcome: nat -> Outcome, received: nat -> nat,
                   nents: nat, t: nat, done: nat, ghost issues: seq<Issue>,
                   ghost pieces: seq<Piece>, ghost layouts: seq<Layout>, ghost used: int)
    returns (left: nat, sum: nat, ghost issued: seq<Issue>)
    requires Through(ring, req, pieces, layouts, outcome, received, t, used, done, issues)
    requires 0 < nents == req.swDescCnt - req.swDescIdx
    modifies ring, ring.desc, req, xfer
    ensures req.swDescIdx <= req.swDescCnt && left == req.swDescCnt - req.swDescIdx < nents
    ensures outcome(t) == Done ==> Through(ring, req, pieces, layouts, outcome, received, t + 1, used, sum, issued)
    ensures outcome(t) != Done ==>
      Over(ring, layouts, outcome, received, used, if done > 0 then done else outcome(t).Error(), issued)
  {
    left, issued := RunOne(ring, req, xfer, nents, outcome(t), issues, pieces, layouts, t);
    ProgressFacts(ring, req, pieces, layouts, t + 1);
    OneMoreDone(issues, layouts, outcome, received, t, issued[t].ring);
    sum := done + (if ring.mode.streaming && !ring.mode.toDevice then received(t) else xfer.len);
    hide Progress, AllDone, Promised, SentBy, Kept, Layouts, Layout.In, TotalLen;
  }

  method RunOne(ring: Ring, req: RequestCb, xfer: Transfer, nents: nat, end: Outcome, ghost issues: seq<Issue>,
                ghost pieces: seq<Piece>, ghost layouts: seq<Layout>, ghost t: nat)
    returns (left: nat, ghost issued: seq<Issue>)
    requires Progress(ring, req, pieces, layouts, t) && |issues| == t && 0 < nents == req.swDescCnt - req.swDescIdx
    modifies ring, ring.desc, req, xfer
    ensures t < |layouts| && Progress(ring, req, pieces, layouts, t + 1)
    ensures |issued| == t + 1 && issued == issues + [Issue(layouts[t], issued[t].ring)]
    ensures layouts[t].In(issued[t].ring)
    ensures left == req.swDescCnt - req.swDescIdx < nents && xfer.len == TotalLen(layouts[t].pieces)
    ensures ring.descUsed == old(ring.descUsed) + (if end == Refused then |layouts[t].pieces| else 0)
  {
    IssueNext(ring, req, xfer, pieces, layouts, t);
    hide Recorded, Layout.In, TotalLen;
    ProgressFacts(ring, req, pieces, layouts, t + 1);
    hide Progress;
    issued := issues + [Issue(layouts[t], ring.desc[..])];
    left := nents - xfer.descNum;
    if left == 0 {
      xfer.lastInRequest := true;
    }
    if end != Refused {
      xfer.state := Submitted;
      Retire(ring, xfer);
    }
  }

  /** `xdma_xfer_submit`, from the built request on: one transfer at a time, until all are through or one
      does not complete. `outcome(t)` is how transfer `t` ends, and `received(t)` what the hardware says it received.
      The result is the number of bytes of the completed transfers, or the error if there are none. */
  method XferSubmit(ring: Ring, req: RequestCb, xfer: Transfer, outcome: nat -> Outcome, received: nat -> nat)
    returns (result: int, ghost issues: seq<Issue>)
    requires ring.Valid() && req.swDescIdx == 0 && req.swDescCnt <= req.sdesc.Length
    modifies ring, ring.desc, req, xfer
    ensures var layouts := Layouts(ShapeOf(ring), old(ring.descIdx), req.sdesc[..req.swDescCnt], old(req.epAddr));
      Over(ring, layouts, outcome, received, old(ring.descUsed), result, issues)
  {
    ghost var pieces, used := req.sdesc[..req.swDescCnt], ring.descUsed;
    ghost var layouts := Layouts(ShapeOf(ring), ring.descIdx, pieces, req.epAddr);
    ProgressStarts(ring, req, pieces, layouts);
    LayoutsMode(ShapeOf(ring), ring.descIdx, pieces, req.epAddr, layouts);
    issues := [];
    NoneAndAllDone(issues, layouts, outcome, received);
    hide *;
    var done: nat, t: nat := 0, 0;
    var nents := req.swDescCnt;
    while nents > 0
      invariant nents == req.swDescCnt - req.swDescIdx >= 0
      invariant Through(ring, req, pieces, layouts, outcome, received, t, used, done, issues)
      decreases nents
    {
      ghost var issued;
      var sum;
      nents, sum, issued :=
        SubmitOne(ring, req, xfer, outcome, received, nents, t, done, issues, pieces, layouts, used);
      if outcome(t) != Done {
        return if done > 0 then done else outcome(t).Error(), issued;
      }
      done, issues, t := sum, issued, t + 1;
    }
    NothingLeft(ring, req, pieces, layouts, outcome, received, t, used, done, issues);
    return done, issues;
  }

  lemma NothingLeft(ring: Ring, req: RequestCb, pieces: seq<Piece>, layouts: seq<Layout>, outcome: nat -> Outcome,
                    received: nat -> nat, t: nat, used: int, done: nat, issues: seq<Issue>)
    requires Through(ring, req, pieces, layouts, outcome, received, t, used, done, issues)
    requires req.swDescIdx == req.swDescCnt
    ensures Over(ring, layouts, outcome, received, used, done, issues)
  {
    ProgressFacts(ring, req, pieces, layouts, t);
    NoneAndAllDone(issues, layouts, outcome, received);
  }

  /** The ring after the first `t` transfers are written to it, one over the other. */
  function WrittenAll(layouts: seq<Layout>, t: nat, ring: seq<Desc>): (after: seq<Desc>)
    requires t <= |layouts|
    ensures |after| == |ring|
  {
    if t == 0 then ring else layouts[t - 1].Written(WrittenAll(layouts, t - 1, ring))
  }

  /** How many transfer records a request has. */
  const RECORDS: nat := 2

  /** The records of the first transfers. */
  ghost predicate AllRecorded(records: seq<Transfer>, layouts: seq<Layout>)
    reads records
  {
    && |records| <= |layouts|
    && forall k :: 0 <= k < |records| ==>
         && Recorded(records[k], layouts[k]) && records[k].state == Submitted
         && (records[k].lastInRequest <==> k == |layouts| - 1)
  }

  /** The free slot, the descriptors in use and the ring's contents. */
  datatype RingState = RingState(idx: nat, used: int, desc: seq<Desc>)

  /** The state of the loop of `xdma_xfer_submit_nowait` after `t` transfers, from the ring as the call found it. */
  ghost predicate Sent(ring: Ring, req: RequestCb, tfer: seq<Transfer>, pieces: seq<Piece>, layouts: seq<Layout>,
                       t: nat, was: RingState)
    reads ring, ring.desc, req, req.sdesc, tfer
  {
    && Progress(ring, req, pieces, layouts, t) && t <= |tfer| && AllRecorded(tfer[..t], layouts)
    && ring.descUsed == was.used + req.swDescIdx
    && ring.descIdx == SlotFor(was.idx, req.swDescIdx, ring.descMax)
    && ring.desc[..] == WrittenAll(layouts, t, was.desc)
  }

  lemma SentStarts(ring: Ring, req: RequestCb, tfer: seq<Transfer>, pieces: seq<Piece>, layouts: seq<Layout>,
                   was: RingState)
    requires ring.Valid() && req.swDescIdx == 0 && req.swDescCnt <= req.sdesc.Length
    requires pieces == req.sdesc[..req.swDescCnt] && was == RingState(ring.descIdx, ring.descUsed, ring.desc[..])
    requires layouts == Layouts(ShapeOf(ring), ring.descIdx, pieces, req.epAddr)
    ensures Sent(ring, req, tfer, pieces, layouts, 0, was)
  {
    ProgressStarts(ring, req, pieces, layouts);
    SlotForNone(ring.descIdx, ring.descMax);
  }

  /** Marks a built transfer as queued, and as the last of its request if nothing is left to issue. */
  method HandOver(xfer: Transfer, left: nat)
    modifies xfer`lastInRequest, xfer`state
    ensures xfer.state == Submitted && xfer.lastInRequest == (old(xfer.lastInRequest) || left == 0)
  {
    if left == 0 {
      xfer.lastInRequest := true;
    }
    xfer.state := Submitted;
  }

  /** One round of the loop of `xdma_xfer_submit_nowait`: builds the next transfer and hands it over. */
  method SubmitNext(ring: Ring, req: RequestCb, tfer: seq<Transfer>, t: nat, nents: nat,
                    ghost pieces: seq<Piece>, ghost layouts: seq<Layout>, ghost was: RingState) returns (left: nat)
    requires Sent(ring, req, tfer, pieces, layouts, t, was)
    requires 0 < nents == req.swDescCnt - req.swDescIdx
    requires t < |tfer| && forall k :: 0 <= k < t ==> tfer[k] != tfer[t]
    modifies ring, ring.desc, req, tfer[t]
    ensures Sent(ring, req, tfer, pieces, layouts, t + 1, was)
    ensures left == req.swDescCnt - req.swDescIdx < nents
  {
    var xfer := tfer[t];
    ghost var before, done := tfer[..t], req.swDescIdx;
    assert xfer !in before;
    SentOpened(ring, req, tfer, pieces, layouts, t, was);
    hide *;
    IssueNext(ring, req, xfer, pieces, layouts, t);
    left := nents - xfer.descNum;
    HandOver(xfer, left);
    SentClosed(ring, req, tfer, pieces, layouts, t, was, done);
  }

  lemma SentOpened(ring: Ring, req: RequestCb, tfer: seq<Transfer>, pieces: seq<Piece>, layouts: seq<Layout>, t: nat,
                   was: RingState)
    requires Sent(ring, req, tfer, pieces, layouts, t, was)
    ensures Progress(ring, req, pieces, layouts, t) && t <= |layouts| && t <= |tfer| && AllRecorded(tfer[..t], layouts)
    ensures ring.Valid() && req.swDescIdx <= req.swDescCnt <= req.sdesc.Length
    ensures ring.descUsed == was.used + req.swDescIdx
    ensures ring.descMax > 0 && ring.descIdx == SlotFor(was.idx, req.swDescIdx, ring.descMax)
    ensures ring.desc[..] == WrittenAll(layouts, t, was.desc)
  {
    hide Layouts, SlotFor, WrittenAll, AllRecorded;
    ProgressFacts(ring, req, pieces, layouts, t);
  }

  /** What the round leaves behind. */
  lemma SentClosed(ring: Ring, req: RequestCb, tfer: seq<Transfer>, pieces: seq<Piece>, layouts: seq<Layout>, t: nat,
                   was: RingState, done: nat)
    requires t < |tfer| && t < |layouts| && Progress(ring, req, pieces, layouts, t + 1)
    requires AllRecorded(tfer[..t], layouts) && Recorded(tfer[t], layouts[t]) && tfer[t].state == Submitted
    requires !tfer[t].lastInRequest <==> req.swDescIdx < req.swDescCnt
    requires ring.descUsed == was.used + req.swDescIdx && req.swDescIdx == done + |layouts[t].pieces|
    requires ring.descMax > 0 && SlotFor(was.idx, done, ring.descMax) + |layouts[t].pieces| <= ring.descMax
    requires ring.descIdx == Successor(ring.descMax, SlotFor(was.idx, done, ring.descMax), |layouts[t].pieces|)
    requires ring.desc[..] == layouts[t].Written(WrittenAll(layouts, t, was.desc))
    ensures Sent(ring, req, tfer, pieces, layouts, t + 1, was)
  {
    ProgressFacts(ring, req, pieces, layouts, t + 1);
    hide Progress, Recorded, SlotFor, Successor, Layouts, WrittenAll, Layout.Written;
    OneMoreYet(layouts, t, was.idx, done, was.desc, ring.descMax);
    RecordedNext(tfer, layouts, t);
    hide AllRecorded;
  }

  lemma RecordedNext(tfer: seq<Transfer>, layouts: seq<Layout>, t: nat)
    requires t < |tfer| && t < |layouts| && AllRecorded(tfer[..t], layouts)
    requires Recorded(tfer[t], layouts[t]) && tfer[t].state == Submitted
    requires tfer[t].lastInRequest <==> t == |layouts| - 1
    ensures AllRecorded(tfer[..t + 1], layouts)
  {
    hide Recorded;
    assert tfer[..t + 1] == tfer[..t] + [tfer[t]];
  }

  lemma OneMoreYet(layouts: seq<Layout>, t: nat, idx: nat, k: nat, ring: seq<Desc>, descMax: nat)
    requires t < |layouts| && descMax > 0 && SlotFor(idx, k, descMax) + |layouts[t].pieces| <= descMax
    ensures WrittenAll(layouts, t + 1, ring) == layouts[t].Written(WrittenAll(layouts, t, ring))
    ensures SlotFor(idx, k + |layouts[t].pieces|, descMax)
            == Successor(descMax, SlotFor(idx, k, descMax), |layouts[t].pieces|)
  {
    SlotForNext(idx, k, |layouts[t].pieces|, descMax);
  }

  /** `xdma_xfer_submit_nowait`, from the built request on: every transfer is handed over at once, each in a transfer
      record of its own. The request has two of them, and the driver does not check that two are enough: a third
      transfer overruns them, and the model stops there. */
  method XferSubmitNowait(ring: Ring, req: RequestCb, tfer: seq<Transfer>) returns (overrun: bool)
    requires ring.Valid() && req.swDescIdx == 0 && req.swDescCnt <= req.sdesc.Length
    requires |tfer| == RECORDS && tfer[0] != tfer[1]
    modifies ring, ring.desc, req, tfer
    ensures ring.Valid() && req.swDescIdx <= req.swDescCnt
    ensures overrun <==> req.swDescCnt > (ring.descMax - old(ring.descIdx)) + ring.descMax
    ensures overrun <==> req.swDescIdx < req.swDescCnt
    ensures ring.descUsed == old(ring.descUsed) + req.swDescIdx
    ensures ring.descIdx == SlotFor(old(ring.descIdx), req.swDescIdx, ring.descMax)
    ensures var layouts := Layouts(ShapeOf(ring), old(ring.descIdx), req.sdesc[..req.swDescCnt], old(req.epAddr));
      var n := if overrun then RECORDS else |layouts|;
      && n <= RECORDS && n <= |layouts| && AllRecorded(tfer[..n], layouts)
      && ring.desc[..] == WrittenAll(layouts, n, old(ring.desc[..]))
  {
    ghost var pieces, was := req.sdesc[..req.swDescCnt], RingState(ring.descIdx, ring.descUsed, ring.desc[..]);
    ghost var layouts := Layouts(ShapeOf(ring), ring.descIdx, pieces, req.epAddr);
    SentStarts(ring, req, tfer, pieces, layouts, was);
    TwoTransfersSuffice(ShapeOf(ring), ring.descIdx, pieces, req.epAddr);
    hide *;
    var nents, t: nat := req.swDescCnt, 0;
    while nents > 0 && t < RECORDS
      invariant nents == req.swDescCnt - req.swDescIdx >= 0 && t <= RECORDS
      invariant Sent(ring, req, tfer, pieces, layouts, t, was)
      decreases nents
    {
      nents := SubmitNext(ring, req, tfer, t, nents, pieces, layouts, was);
      t := t + 1;
    }
    AllSent(ring, req, tfer, pieces, layouts, t, was);
    overrun := nents > 0;
  }

  lemma AllSent(ring: Ring, req: RequestCb, tfer: seq<Transfer>, pieces: seq<Piece>, layouts: seq<Layout>, t: nat,
                was: RingState)
    requires Sent(ring, req, tfer, pieces, layouts, t, was)
    ensures ring.Valid() && t <= |layouts| && req.swDescCnt == |pieces| && req.swDescIdx <= req.swDescCnt
    ensures req.swDescIdx == req.swDescCnt <==> t == |layouts|
    ensures ring.descUsed == was.used + req.swDescIdx
    ensures ring.descIdx == SlotFor(was.idx, req.swDescIdx, ring.descMax)
    ensures t <= |tfer| && AllRecorded(tfer[..t], layouts) && ring.desc[..] == WrittenAll(layouts, t, was.desc)
  {
    hide Layouts, SlotFor, WrittenAll, AllRecorded;
    ProgressFacts(ring, req, pieces, layouts, t);
  }

  /** A request whose transfers all complete returns its total length, unless it receives a stream. */
  lemma CompleteSubmission(shape: Shape, idx: nat, pieces: seq<Piece>, ep: nat, issues: seq<Issue>,
                           outcome: nat -> Outcome, received: nat -> nat, result: int)
    requires idx < shape.descMax && (!shape.mode.streaming || shape.mode.toDevice) && (forall t :: outcome(t) == Done)
    requires Promised(issues, Layouts(shape, idx, pieces, ep), outcome, received, result)
    ensures |issues| == |Layouts(shape, idx, pieces, ep)| && result == TotalLen(pieces)
  {
    var layouts := Layouts(shape, idx, pieces, ep);
    LayoutsTile(shape, idx, pieces, ep);
    LayoutsMode(shape, idx, pieces, ep, layouts);
    assert layouts[..|layouts|] == layouts;
    SentByPieces(layouts, received, |layouts|);
  }

  /** Up to the first transfer that does not complete, all are issued. */
  lemma {:induction false} AttemptsUpTo(outcome: nat -> Outcome, t: nat, n: nat, first: nat)
    requires t <= first < n && outcome(first) != Done && forall i :: t <= i < first ==> outcome(i) == Done
    ensures Attempts(outcome, t, n) == first + 1
    decreases first - t
  {
    if t < first {
      AttemptsUpTo(outcome, t + 1, n, first);
    }
  }

  /** When a transfer does not complete, nothing after it is issued. The result is the number of bytes of the transfers
      before it or, if there are none, the error: I/O error for one that stopped half-way, interrupted for one that
      timed out, busy for one that the queue refused, which alone keeps its descriptors. */
  lemma FirstFailureStops(layouts: seq<Layout>, issues: seq<Issue>, outcome: nat -> Outcome, received: nat -> nat,
                          result: int, first: nat)
    requires first < |layouts| && outcome(first) != Done && forall i :: 0 <= i < first ==> outcome(i) == Done
    requires Promised(issues, layouts, outcome, received, result)
    requires forall i :: 0 <= i < |layouts| ==> !layouts[i].mode.streaming || layouts[i].mode.toDevice
    ensures |issues| == first + 1
    ensures var bytes := TotalLen(AllPieces(layouts[..first]));
      result == if bytes > 0 then bytes
                else match outcome(first) case HalfWay => -5 case TimedOut => -512 case Refused => -16
    ensures Kept(layouts, outcome) == if outcome(first) == Refused then |layouts[first].pieces| else 0
  {
    AttemptsUpTo(outcome, 0, |layouts|, first);
    SentByPieces(layouts, received, first);
  }

  /** What the hardware says it received, of the first `t` transfers. */
  function Received(received: nat -> nat, t: nat): nat {
    if t == 0 then 0 else Received(received, t - 1) + received(t - 1)
  }

  lemma {:induction false} SentByReceived(layouts: seq<Layout>, received: nat -> nat, t: nat)
    requires t <= |layouts| && forall i :: 0 <= i < |layouts| ==> layouts[i].mode.streaming && !layouts[i].mode.toDevice
    ensures SentBy(layouts, received, t) == Received(received, t)
  {
    if t > 0 {
      SentByReceived(layouts, received, t - 1);
    }
  }

  /** A request that receives a stream and whose transfers all complete returns what was received. */
  lemma CompleteReception(shape: Shape, idx: nat, pieces: seq<Piece>, ep: nat, issues: seq<Issue>,
                          outcome: nat -> Outcome, received: nat -> nat, result: int)
    requires idx < shape.descMax && shape.mode.streaming && !shape.mode.toDevice && (forall t :: outcome(t) == Done)
    requires Promised(issues, Layouts(shape, idx, pieces, ep), outcome, received, result)
    ensures |issues| == |Layouts(shape, idx, pieces, ep)| && result == Received(received, |issues|)
  {
    var layouts := Layouts(shape, idx, pieces, ep);
    LayoutsMode(shape, idx, pieces, ep, layouts);
    SentByReceived(layouts, received, |layouts|);
  }

  /** The descriptors of a request stay in the ring together exactly when there are no more of them than
      the ring has: then no later transfer is laid over an earlier one. */
  lemma SlotsDistinct(descMax: nat, idx: nat, count: nat)
    requires idx < descMax
    ensures (forall j, k :: 0 <= j < k < count ==> SlotFor(idx, j, descMax) != SlotFor(idx, k, descMax))
            <==> count <= descMax
  {
    if count <= descMax {
      forall j, k | 0 <= j < k < count ensures SlotFor(idx, j, descMax) != SlotFor(idx, k, descMax) {
        RemSmall(idx + j, descMax);
        RemSmall(idx + k, descMax);
      }
    } else {
      RemSmall(idx + descMax, descMax);
      assert SlotFor(idx, 0, descMax) == SlotFor(idx, descMax, descMax);
    }
  }

  lemma RemSmall(x: nat, n: nat)
    requires n > 0 && x < 2 * n
    ensures Rem(x, n) == if x < n then x else x - n
  {
  }
}
