/** What the hardware copies, byte by byte, when it goes through the descriptors of a request. */
module Copying {
  import opened Arithmetic
  import opened Request
  import opened DescriptorRing
  import opened Prefetch
  import opened Submit

  /** One byte on its way. */
  datatype Move = Move(from: nat, to: nat) {
    /** Its address in the memory of the host, and on the card. */
    function Host(toDevice: bool): nat { if toDevice then from else to }

    function Card(toDevice: bool): nat { if toDevice then to else from }
  }

  /** A descriptor copies its bytes from the source address on to the destination address on. */
  function MovesOf(d: Desc): (moves: seq<Move>)
    ensures |moves| == d.bytes
  {
    seq(d.bytes, i requires 0 <= i => Move(d.src + i, d.dst + i))
  }

  /** What is copied as the listed slots are processed in order. */
  function Moves(ring: seq<Desc>, slots: seq<nat>): seq<Move>
    requires forall i :: 0 <= i < |slots| ==> slots[i] < |ring|
  {
    if slots == [] then []
    else Moves(ring, slots[..|slots| - 1]) + MovesOf(ring[slots[|slots| - 1]])
  }

  function Hosts(moves: seq<Move>, toDevice: bool): (addresses: seq<nat>)
    ensures |addresses| == |moves|
  {
    seq(|moves|, i requires 0 <= i < |moves| => moves[i].Host(toDevice))
  }

  function Cards(moves: seq<Move>, toDevice: bool): (addresses: seq<nat>)
    ensures |addresses| == |moves|
  {
    seq(|moves|, i requires 0 <= i < |moves| => moves[i].Card(toDevice))
  }

  /** The addresses on the card of all bytes of a list of pieces: one piece after the other, or each from the same
      address on. */
  function OnCard(ep: nat, pieces: seq<Piece>, nonIncr: bool): seq<nat> {
    if pieces == [] then []
    else
      var init, last := pieces[..|pieces| - 1], pieces[|pieces| - 1];
      OnCard(ep, init, nonIncr) + Span(Piece(if nonIncr then ep else ep + TotalLen(init), last.len))
  }

  /** If the address moves, they are consecutive. */
  lemma {:induction false} OnCardConsecutive(ep: nat, pieces: seq<Piece>)
    ensures OnCard(ep, pieces, false) == Span(Piece(ep, TotalLen(pieces)))
  {
    if pieces != [] {
      var init, last := pieces[..|pieces| - 1], pieces[|pieces| - 1];
      OnCardConsecutive(ep, init);
      SpanSplit(ep, TotalLen(init), last.len);
    }
  }

  lemma {:induction false} OnCardConcat(ep: nat, a: seq<Piece>, b: seq<Piece>, nonIncr: bool)
    ensures OnCard(ep, a + b, nonIncr) == OnCard(ep, a, nonIncr) + OnCard(EpAfter(ep, a, nonIncr), b, nonIncr)
    decreases |b|
  {
    if b == [] {
      assert a + b == a;
    } else {
      var init, last := b[..|b| - 1], b[|b| - 1];
      OnCardConcat(ep, a, init, nonIncr);
      assert (a + b)[..|a + b| - 1] == a + init;
      CoverConcat(a, init);
      var next := EpAfter(ep, a, nonIncr);
      Associative(OnCard(ep, a, nonIncr), OnCard(next, init, nonIncr),
                  Span(Piece(if nonIncr then next else next + TotalLen(init), last.len)));
    }
  }

  lemma SidesConcat(a: seq<Move>, b: seq<Move>, toDevice: bool)
    ensures Hosts(a + b, toDevice) == Hosts(a, toDevice) + Hosts(b, toDevice)
    ensures Cards(a + b, toDevice) == Cards(a, toDevice) + Cards(b, toDevice)
  {
  }

  /** The bytes on the host are those of the pieces, in order, and the bytes on the card those from the endpoint address
      on. A received stream comes from no address of the card. */
  predicate Copies(moves: seq<Move>, pieces: seq<Piece>, ep: nat, mode: Mode) {
    && Hosts(moves, mode.toDevice) == Cover(pieces)
    && (mode.toDevice || !mode.streaming ==> Cards(moves, mode.toDevice) == OnCard(ep, pieces, mode.nonIncr))
  }

  lemma CopiesConcat(a: seq<Move>, b: seq<Move>, p: seq<Piece>, q: seq<Piece>, ep: nat, mode: Mode)
    requires Copies(a, p, ep, mode) && Copies(b, q, EpAfter(ep, p, mode.nonIncr), mode)
    ensures Copies(a + b, p + q, ep, mode)
  {
    hide Hosts, Cards, Cover, OnCard, EpAfter;
    SidesConcat(a, b, mode.toDevice);
    CoverConcat(p, q);
    OnCardConcat(ep, p, q, mode.nonIncr);
  }

  /** One descriptor of a transfer copies its piece. */
  lemma PieceCopied(layout: Layout, ring: seq<Desc>, k: nat)
    requires layout.In(ring) && k < |layout.pieces|
    ensures Copies(MovesOf(ring[layout.start + k]), [layout.pieces[k]],
                   EpAfter(layout.ep, layout.pieces[..k], layout.mode.nonIncr), layout.mode)
  {
    var d, piece, mode := ring[layout.start + k], layout.pieces[k], layout.mode;
    var card := EpAfter(layout.ep, layout.pieces[..k], mode.nonIncr);
    DescFields(layout, ring, k);
    hide Layout.In, EpAfter;
    CoverOne(piece);
    OnCardOne(card, piece, mode.nonIncr);
    SidesOf(d, mode.toDevice);
  }

  lemma OnCardOne(ep: nat, piece: Piece, nonIncr: bool)
    ensures OnCard(ep, [piece], nonIncr) == Span(Piece(ep, piece.len))
  {
    assert [piece][..0] == [];
  }

  lemma SidesOf(d: Desc, toDevice: bool)
    ensures Hosts(MovesOf(d), toDevice) == Span(Piece(if toDevice then d.src else d.dst, d.bytes))
    ensures Cards(MovesOf(d), toDevice) == Span(Piece(if toDevice then d.dst else d.src, d.bytes))
  {
  }

  lemma MovesNext(ring: seq<Desc>, start: nat, n: nat)
    requires 0 < n && start + n <= |ring|
    ensures Moves(ring, Range(start, start + n))
            == Moves(ring, Range(start, start + n - 1)) + MovesOf(ring[start + n - 1])
  {
    var slots := Range(start, start + n);
    assert slots[..n - 1] == Range(start, start + n - 1);
  }

  /** The first `n` descriptors of a transfer copy its first pieces. */
  lemma {:induction false} PiecesCopied(layout: Layout, ring: seq<Desc>, n: nat)
    requires layout.In(ring) && n <= |layout.pieces|
    ensures Copies(Moves(ring, Range(layout.start, layout.start + n)), layout.pieces[..n], layout.ep, layout.mode)
  {
    if n > 0 {
      var k, pieces := n - 1, layout.pieces;
      PiecesCopied(layout, ring, k);
      PieceCopied(layout, ring, k);
      MovesNext(ring, layout.start, n);
      assert pieces[..n] == pieces[..k] + [pieces[k]];
      hide *;
      CopiesConcat(Moves(ring, Range(layout.start, layout.start + k)), MovesOf(ring[layout.start + k]),
                   pieces[..k], [pieces[k]], layout.ep, layout.mode);
    }
  }

  /** A started engine copies the transfer, whatever blocks it fetches. */
  lemma TransferCopied(layout: Layout, ring: seq<Desc>, blocks: seq<Block>, address: nat, adjacent: nat, fuel: nat)
    requires layout.In(ring) && layout.pieces != [] && layout.bus % DESC_SIZE == 0
    requires address == layout.bus + DESC_SIZE * layout.start && adjacent == NextAdj(|layout.pieces|, address)
    requires fuel >= |layout.pieces| && blocks == Fetch(ring, layout.bus, address, adjacent, fuel)
    ensures Slots(blocks) == Range(layout.start, layout.start + |layout.pieces|)
    ensures Copies(Moves(ring, Range(layout.start, layout.start + |layout.pieces|)), layout.pieces, layout.ep,
                   layout.mode)
  {
    assert layout.pieces[..|layout.pieces|] == layout.pieces;
    assert layout.start + |layout.pieces| <= |ring|;
    hide *;
    PrefetchVisitsTransfer(layout, ring, address, adjacent, blocks, fuel);
    PiecesCopied(layout, ring, |layout.pieces|);
  }

  // ----- whole requests -----

  /** Each transfer is in the ring when the hardware goes through it. */
  predicate Shown(layouts: seq<Layout>, rings: seq<seq<Desc>>) {
    |rings| == |layouts| && forall t :: 0 <= t < |layouts| ==> layouts[t].In(rings[t])
  }

  /** What is copied for one transfer after the other. */
  function AllMoves(layouts: seq<Layout>, rings: seq<seq<Desc>>): seq<Move>
    requires Shown(layouts, rings)
  {
    if layouts == [] then []
    else
      var first := layouts[0];
      Moves(rings[0], Range(first.start, first.start + |first.pieces|)) + AllMoves(layouts[1..], rings[1..])
  }

  lemma {:induction false} RequestCopied(shape: Shape, idx: nat, pieces: seq<Piece>, ep: nat, rings: seq<seq<Desc>>)
    requires idx < shape.descMax && Shown(Layouts(shape, idx, pieces, ep), rings)
    ensures Copies(AllMoves(Layouts(shape, idx, pieces, ep), rings), pieces, ep, shape.mode)
    decreases |pieces|
  {
    if pieces != [] {
      var layouts, mode := Layouts(shape, idx, pieces, ep), shape.mode;
      var num := Chunk(shape.descMax, idx, |pieces|);
      var head, rest := pieces[..num], pieces[num..];
      var ep1, idx1 := EpAfter(ep, head, mode.nonIncr), Successor(shape.descMax, idx, num);
      assert layouts[0] == Layout(shape.bus, idx, head, ep, mode) && layouts[1..] == Layouts(shape, idx1, rest, ep1);
      assert head[..num] == head && pieces == head + rest;
      RequestCopied(shape, idx1, rest, ep1, rings[1..]);
      PiecesCopied(layouts[0], rings[0], num);
      hide Copies, Layouts, Layout.In, EpAfter, Moves, Range;
      CopiesConcat(Moves(rings[0], Range(idx, idx + num)), AllMoves(layouts[1..], rings[1..]), head, rest, ep, mode);
    }
  }

  /** From the scatter list to the card and back: byte `i` of the list is exchanged with the byte at the endpoint
      address plus `i`, in the direction of the engine, however the list is split, placed and transferred. */
  lemma ListCopied(shape: Shape, idx: nat, entries: seq<Piece>, max: nat, ep: nat, rings: seq<seq<Desc>>)
    requires max > 0 && idx < shape.descMax && Shown(Layouts(shape, idx, Split(entries, max), ep), rings)
    requires !shape.mode.nonIncr && (shape.mode.toDevice || !shape.mode.streaming)
    ensures var moves := AllMoves(Layouts(shape, idx, Split(entries, max), ep), rings);
      && |moves| == TotalLen(entries) == |Cover(entries)|
      && forall i :: 0 <= i < |moves| ==>
           moves[i] == if shape.mode.toDevice then Move(Cover(entries)[i], ep + i) else Move(ep + i, Cover(entries)[i])
  {
    var pieces, toDevice := Split(entries, max), shape.mode.toDevice;
    var moves := AllMoves(Layouts(shape, idx, pieces, ep), rings);
    RequestCopied(shape, idx, pieces, ep, rings);
    SplitPreservesBytes(entries, max);
    OnCardConsecutive(ep, pieces);
    hide AllMoves, Layouts, Cover, TotalLen, OnCard, Split;
    forall i | 0 <= i < |moves|
      ensures moves[i].Host(toDevice) == Cover(entries)[i] && moves[i].Card(toDevice) == ep + i
    {
      assert Hosts(moves, toDevice)[i] == Cover(entries)[i];
      assert Cards(moves, toDevice)[i] == Span(Piece(ep, TotalLen(entries)))[i];
    }
  }

  /** The rings that the transfers of a submission were handed over with. */
  function Rings(issues: seq<Issue>): (rings: seq<seq<Desc>>)
    ensures |rings| == |issues|
  {
    seq(|issues|, t requires 0 <= t < |issues| => issues[t].ring)
  }

  /** A submission whose transfers all complete returns the length of the list, and has copied just the list. */
  lemma SubmissionCopies(shape: Shape, idx: nat, entries: seq<Piece>, max: nat, ep: nat, issues: seq<Issue>,
                         outcome: nat -> Outcome, received: nat -> nat, result: int)
    requires max > 0 && idx < shape.descMax && forall t :: outcome(t) == Done
    requires Promised(issues, Layouts(shape, idx, Split(entries, max), ep), outcome, received, result)
    requires !shape.mode.nonIncr && (shape.mode.toDevice || !shape.mode.streaming)
    ensures Shown(Layouts(shape, idx, Split(entries, max), ep), Rings(issues))
    ensures var moves := AllMoves(Layouts(shape, idx, Split(entries, max), ep), Rings(issues));
      && result == |moves| == |Cover(entries)|
      && forall i :: 0 <= i < |moves| ==>
           moves[i] == if shape.mode.toDevice then Move(Cover(entries)[i], ep + i) else Move(ep + i, Cover(entries)[i])
  {
    var pieces := Split(entries, max);
    CompleteSubmission(shape, idx, pieces, ep, issues, outcome, received, result);
    SplitPreservesBytes(entries, max);
    hide Layouts, Split, Layout.In;
    ListCopied(shape, idx, entries, max, ep, Rings(issues));
  }
}
