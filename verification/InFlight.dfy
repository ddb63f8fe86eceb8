/** The transfers of an engine that are in flight at the same time: the submit call that does not wait returns while its
    transfers are still in the ring. */
module InFlight {
  import opened Arithmetic
  import opened Request
  import opened Transfers
  import opened DescriptorRing
  import opened Submit

  /** An engine's ring with the transfers in flight, oldest first. */
  datatype State = State(shape: Shape, ring: RingState, flights: seq<Layout>)
  {
    /** The slot of the oldest descriptor in use. */
    function First(): nat {
      if flights == [] then ring.idx else flights[0].start
    }

    /** The transfers lie end to end around the ring, none over another, and the ring holds all of them. */
    ghost predicate Sound() {
      && ring.idx < shape.descMax == |ring.desc| && Placed(flights, First(), ring.idx, shape.descMax)
      && ring.used == Sum(flights) <= shape.descMax
      && AllIn(flights, ring.desc)
    }

    /** A request's transfers are built and queued, as `xdma_xfer_submit_nowait` does it... */
    function Submitted(pieces: seq<Piece>, ep: nat): State
      requires ring.idx < shape.descMax
    {
      var layouts := Layouts(shape, ring.idx, pieces, ep);
      State(shape, RingState(SlotFor(ring.idx, |pieces|, shape.descMax), ring.used + |pieces|,
                             WrittenAll(layouts, |layouts|, ring.desc)), flights + layouts)
    }

    /** ... and the oldest transfer is given back. */
    function Retired(): State {
      if flights == [] then this
      else
        var oldest := flights[0];
        State(shape, RingState(ring.idx, ring.used - |oldest.pieces|, oldest.Erased(ring.desc)), flights[1..])
    }
  }

  predicate AllIn(flights: seq<Layout>, ring: seq<Desc>) {
    forall t :: 0 <= t < |flights| ==> flights[t].In(ring)
  }

  /** Transfers laid end to end around the ring, from slot `first` to before slot `idx`. */
  predicate Placed(flights: seq<Layout>, first: nat, idx: nat, descMax: nat) {
    if flights == [] then first == idx
    else
      && flights[0].start == first && flights[0].pieces != [] && first + |flights[0].pieces| <= descMax
      && Placed(flights[1..], Successor(descMax, first, |flights[0].pieces|), idx, descMax)
  }

  /** How many descriptors the transfers have. */
  function Sum(flights: seq<Layout>): nat {
    if flights == [] then 0 else |flights[0].pieces| + Sum(flights[1..])
  }

  // ----- where the transfers are -----

  /** Transfer `t` starts as many slots after the first as the transfers before it have descriptors. */
  lemma {:induction false} StartsAt(flights: seq<Layout>, first: nat, idx: nat, descMax: nat, t: nat)
    requires Placed(flights, first, idx, descMax) && first < descMax && t < |flights|
    ensures flights[t].start == SlotFor(first, Sum(flights[..t]), descMax)
    ensures flights[t].start + |flights[t].pieces| <= descMax
    decreases t
  {
    if t == 0 {
      SlotForNone(first, descMax);
    } else {
      var len := |flights[0].pieces|;
      var next := Successor(descMax, first, len);
      StartsAt(flights[1..], next, idx, descMax, t - 1);
      assert flights[..t][1..] == flights[1..][..t - 1];
      SlotForRound(first, len, Sum(flights[1..][..t - 1]), descMax);
    }
  }

  /** Counting from the slot after a transfer. */
  lemma SlotForRound(first: nat, len: nat, k: nat, descMax: nat)
    requires first < descMax && first + len <= descMax
    ensures SlotFor(Successor(descMax, first, len), k, descMax) == SlotFor(first, len + k, descMax)
  {
    if first + len == descMax {
      RemShift(k, descMax);
    }
  }

  lemma {:induction false} PlacedConcat(a: seq<Layout>, b: seq<Layout>, first: nat, mid: nat, idx: nat, descMax: nat)
    requires Placed(a, first, mid, descMax) && Placed(b, mid, idx, descMax)
    ensures Placed(a + b, first, idx, descMax) && Sum(a + b) == Sum(a) + Sum(b)
  {
    if a == [] {
      assert a + b == b;
    } else {
      PlacedConcat(a[1..], b, Successor(descMax, first, |a[0].pieces|), mid, idx, descMax);
      assert (a + b)[1..] == a[1..] + b;
    }
  }

  /** A request's transfers lie end to end from the next free slot on. */
  lemma {:induction false} LayoutsPlaced(shape: Shape, idx: nat, pieces: seq<Piece>, ep: nat)
    requires idx < shape.descMax
    ensures Placed(Layouts(shape, idx, pieces, ep), idx, SlotFor(idx, |pieces|, shape.descMax), shape.descMax)
    ensures Sum(Layouts(shape, idx, pieces, ep)) == |pieces|
    decreases |pieces|
  {
    if pieces == [] {
      SlotForNone(idx, shape.descMax);
    } else {
      var num := Chunk(shape.descMax, idx, |pieces|);
      var next := Successor(shape.descMax, idx, num);
      var ep1 := EpAfter(ep, pieces[..num], shape.mode.nonIncr);
      LayoutsPlaced(shape, next, pieces[num..], ep1);
      SlotForRound(idx, num, |pieces| - num, shape.descMax);
      assert Layouts(shape, idx, pieces, ep)[1..] == Layouts(shape, next, pieces[num..], ep1);
    }
  }

  lemma {:induction false} SumSplit(flights: seq<Layout>, t: nat)
    requires t <= |flights|
    ensures Sum(flights) == Sum(flights[..t]) + Sum(flights[t..])
    decreases t
  {
    if t == 0 {
      assert flights[0..] == flights;
    } else {
      SumSplit(flights[1..], t - 1);
      assert flights[..t][1..] == flights[1..][..t - 1] && flights[t..] == flights[1..][t - 1..];
    }
  }

  /** What two transfers have before them. */
  lemma SumBefore(flights: seq<Layout>, t: nat, u: nat)
    requires t < u < |flights|
    ensures Sum(flights[..t]) + |flights[t].pieces| <= Sum(flights[..u])
    ensures Sum(flights[..u]) + |flights[u].pieces| <= Sum(flights)
  {
    SumSplit(flights[..u], t);
    assert flights[..u][..t] == flights[..t] && flights[..u][t..][0] == flights[t];
    SumSplit(flights, u);
    assert flights[u..][0] == flights[u];
  }

  predicate Apart(a: Layout, b: Layout) {
    a.start + |a.pieces| <= b.start || b.start + |b.pieces| <= a.start
  }

  /** Positions less than a round apart are in different slots. */
  lemma RoundApart(first: nat, j: nat, k: nat, descMax: nat)
    requires first < descMax && j < k < descMax
    ensures SlotFor(first, j, descMax) != SlotFor(first, k, descMax)
  {
    SlotsDistinct(descMax, first, descMax);
  }

  /** Two stretches that follow each other within a round do not meet. */
  lemma StretchesApart(first: nat, j: nat, m: nat, k: nat, n: nat, descMax: nat)
    requires first < descMax && 0 < m && 0 < n && j + m <= k && k + n <= descMax
    requires SlotFor(first, j, descMax) + m <= descMax && SlotFor(first, k, descMax) + n <= descMax
    ensures var a, b := SlotFor(first, j, descMax), SlotFor(first, k, descMax); a + m <= b || b + n <= a
  {
    RemSmall(first + j, descMax);
    RemSmall(first + k, descMax);
  }

  /** Transfers laid end to end do not meet unless they have more descriptors than the ring. */
  lemma TransfersApart(flights: seq<Layout>, first: nat, idx: nat, descMax: nat, t: nat, u: nat)
    requires Placed(flights, first, idx, descMax) && first < descMax && Sum(flights) <= descMax && t < u < |flights|
    ensures Apart(flights[t], flights[u])
  {
    StartsAt(flights, first, idx, descMax, t);
    StartsAt(flights, first, idx, descMax, u);
    SumBefore(flights, t, u);
    PlacedNonEmpty(flights, first, idx, descMax, t);
    PlacedNonEmpty(flights, first, idx, descMax, u);
    StretchesApart(first, Sum(flights[..t]), |flights[t].pieces|, Sum(flights[..u]), |flights[u].pieces|, descMax);
  }

  lemma {:induction false} PlacedNonEmpty(flights: seq<Layout>, first: nat, idx: nat, descMax: nat, t: nat)
    requires Placed(flights, first, idx, descMax) && t < |flights|
    ensures flights[t].pieces != []
    decreases t
  {
    if t > 0 {
      PlacedNonEmpty(flights[1..], Successor(descMax, first, |flights[0].pieces|), idx, descMax, t - 1);
    }
  }

  // ----- what writing and erasing leave -----

  lemma WrittenKeeps(layout: Layout, other: Layout, ring: seq<Desc>)
    requires other.In(ring) && Apart(other, layout)
    ensures other.In(layout.Written(ring)) && other.In(layout.Erased(ring))
  {
  }

  /** Writing transfers that do not meet leaves all of them, and those already there, in the ring. */
  lemma {:induction false} AllWritten(flights: seq<Layout>, layouts: seq<Layout>, t: nat, first: nat, idx: nat,
                                      descMax: nat, ring: seq<Desc>)
    requires Placed(flights + layouts, first, idx, descMax) && first < descMax && Sum(flights + layouts) <= descMax
    requires AllIn(flights, ring) && |ring| == descMax && t <= |layouts|
    ensures AllIn(flights + layouts[..t], WrittenAll(layouts, t, ring))
    decreases t
  {
    var all := flights + layouts;
    if t == 0 {
      assert flights + layouts[..0] == flights;
    } else {
      AllWritten(flights, layouts, t - 1, first, idx, descMax, ring);
      var before, last := WrittenAll(layouts, t - 1, ring), |flights| + t - 1;
      assert all[last] == layouts[t - 1];
      StartsAt(all, first, idx, descMax, last);
      forall k | 0 <= k < |flights| + t ensures (flights + layouts[..t])[k].In(layouts[t - 1].Written(before)) {
        if k < last {
          assert (flights + layouts[..t - 1])[k] == all[k];
          TransfersApart(all, first, idx, descMax, k, last);
          WrittenKeeps(layouts[t - 1], all[k], before);
        }
      }
    }
  }

  // ----- a request fits, or it is written over something -----

  /** A request that fits leaves every transfer in flight in the ring, and is there itself. */
  lemma FittingIsSound(s: State, pieces: seq<Piece>, ep: nat)
    requires s.Sound() && s.ring.used + |pieces| <= s.shape.descMax
    ensures s.Submitted(pieces, ep).Sound()
  {
    var descMax, idx := s.shape.descMax, s.ring.idx;
    var layouts := Layouts(s.shape, idx, pieces, ep);
    var end := SlotFor(idx, |pieces|, descMax);
    LayoutsPlaced(s.shape, idx, pieces, ep);
    PlacedConcat(s.flights, layouts, s.First(), idx, end, descMax);
    FirstInRing(s);
    AllWritten(s.flights, layouts, |layouts|, s.First(), end, descMax, s.ring.desc);
    assert layouts[..|layouts|] == layouts;
    FirstStays(s, pieces, ep);
  }

  lemma FirstInRing(s: State)
    requires s.Sound()
    ensures s.First() < s.shape.descMax
  {
  }

  lemma FirstStays(s: State, pieces: seq<Piece>, ep: nat)
    requires s.Sound()
    ensures s.flights != [] || pieces != [] ==> s.Submitted(pieces, ep).First() == s.First()
    ensures s.flights == [] && pieces == [] ==> s.Submitted(pieces, ep) == s
  {
    if pieces == [] {
      SlotForNone(s.ring.idx, s.shape.descMax);
      assert s.flights + [] == s.flights;
    }
  }

  lemma PlacedRest(flights: seq<Layout>, first: nat, idx: nat, descMax: nat)
    requires Placed(flights, first, idx, descMax) && flights != []
    ensures var rest := flights[1..];
      Placed(rest, if rest == [] then idx else rest[0].start, idx, descMax)
  {
    var rest, next := flights[1..], Successor(descMax, first, |flights[0].pieces|);
    assert Placed(rest, next, idx, descMax);
  }

  /** Giving the oldest transfer back leaves the others alone. */
  lemma RetiringIsSound(s: State)
    requires s.Sound()
    ensures s.Retired().Sound()
  {
    if s.flights != [] {
      var rest, descMax := s.flights[1..], s.shape.descMax;
      forall t | 0 <= t < |rest| ensures rest[t].In(s.flights[0].Erased(s.ring.desc)) {
        TransfersApart(s.flights, s.First(), s.ring.idx, descMax, 0, t + 1);
        WrittenKeeps(s.flights[0], rest[t], s.ring.desc);
      }
      PlacedRest(s.flights, s.First(), s.ring.idx, descMax);
    }
  }

  /** A slot that some transfer of equal pieces writes holds such a piece in the end, if those after it are alike. */
  lemma {:induction false} LastWriter(layouts: seq<Layout>, n: nat, t: nat, slot: nat, len: nat, ring: seq<Desc>)
    requires t < n <= |layouts| && layouts[t].start <= slot < layouts[t].start + |layouts[t].pieces| && slot < |ring|
    requires forall u, k :: t <= u < n && 0 <= k < |layouts[u].pieces| ==> layouts[u].pieces[k].len == len
    ensures WrittenAll(layouts, n, ring)[slot].bytes == len
    decreases n
  {
    if !(layouts[n - 1].start <= slot < layouts[n - 1].start + |layouts[n - 1].pieces|) {
      LastWriter(layouts, n - 1, t, slot, len, ring);
    }
  }

  /** Equal pieces make transfers of equal pieces. */
  lemma {:induction false} LayoutsAlike(shape: Shape, idx: nat, pieces: seq<Piece>, ep: nat, len: nat, t: nat)
    requires idx < shape.descMax && forall k :: 0 <= k < |pieces| ==> pieces[k].len == len
    requires t < |Layouts(shape, idx, pieces, ep)|
    ensures forall k :: 0 <= k < |Layouts(shape, idx, pieces, ep)[t].pieces| ==>
      Layouts(shape, idx, pieces, ep)[t].pieces[k].len == len
    decreases t
  {
    if t > 0 {
      var num := Chunk(shape.descMax, idx, |pieces|);
      var rest, ep1 := pieces[num..], EpAfter(ep, pieces[..num], shape.mode.nonIncr);
      LayoutsAlike(shape, Successor(shape.descMax, idx, num), rest, ep1, len, t - 1);
    }
  }

  /** All requests of so many descriptors leave all transfers in flight, and their own, in the ring. */
  ghost predicate KeepsAll(s: State, count: nat)
    requires s.ring.idx < s.shape.descMax
  {
    forall pieces: seq<Piece>, ep: nat :: |pieces| == count ==>
      AllIn(s.Submitted(pieces, ep).flights, s.Submitted(pieces, ep).ring.desc)
  }

  /** The position `descMax - used` of a request is in the slot of the oldest descriptor in use. */
  lemma BackAtFirst(s: State)
    requires s.Sound()
    ensures SlotFor(s.ring.idx, s.shape.descMax - s.ring.used, s.shape.descMax) == s.First()
  {
    var descMax, first, used := s.shape.descMax, s.First(), Sum(s.flights);
    PlacedEnd(s.flights, first, s.ring.idx, descMax);
    RemSmall(first + used, descMax);
    RemSmall(s.ring.idx + descMax - used, descMax);
  }

  lemma {:induction false} PlacedEnd(flights: seq<Layout>, first: nat, idx: nat, descMax: nat)
    requires Placed(flights, first, idx, descMax) && first < descMax
    ensures idx == SlotFor(first, Sum(flights), descMax)
  {
    if flights == [] {
      SlotForNone(first, descMax);
    } else {
      var len := |flights[0].pieces|;
      PlacedEnd(flights[1..], Successor(descMax, first, len), idx, descMax);
      SlotForRound(first, len, Sum(flights[1..]), descMax);
    }
  }

  lemma FirstBytes(layout: Layout, ring: seq<Desc>)
    requires layout.pieces != [] && layout.In(ring)
    ensures ring[layout.start].bytes == layout.pieces[0].len
  {
    assert ring[layout.start] == layout.At(layout.start);
  }

  /** With transfers in flight, a request of longer pieces that does not fit is written over the oldest of them. */
  lemma OverOldest(s: State, pieces: seq<Piece>, len: nat)
    requires s.Sound() && s.flights != [] && s.ring.used + |pieces| > s.shape.descMax
    requires forall k :: 0 <= k < |pieces| ==> pieces[k].len == len
    requires len != s.flights[0].pieces[0].len
    ensures !s.flights[0].In(s.Submitted(pieces, 0).ring.desc)
  {
    var k := s.shape.descMax - s.ring.used;
    var layouts := Layouts(s.shape, s.ring.idx, pieces, 0);
    BackAtFirst(s);
    PieceIsPlaced(s.shape, s.ring.idx, pieces, 0, k);
    var (t, slot) := Locate(layouts, k);
    forall u | 0 <= u < |layouts|
      ensures forall j :: 0 <= j < |layouts[u].pieces| ==> layouts[u].pieces[j].len == len
    {
      LayoutsAlike(s.shape, s.ring.idx, pieces, 0, len, u);
    }
    LastWriter(layouts, |layouts|, t, slot, len, s.ring.desc);
    var after := s.Submitted(pieces, 0).ring.desc;
    if s.flights[0].In(after) {
      FirstBytes(s.flights[0], after);
    }
  }

  /** With none in flight, a request that does not fit is written over its own beginning. */
  lemma OverItself(s: State, pieces: seq<Piece>, len: nat)
    requires s.Sound() && s.flights == [] && |pieces| > s.shape.descMax
    requires (forall k :: 0 < k < |pieces| ==> pieces[k].len == len) && len != pieces[0].len
    ensures var layouts := Layouts(s.shape, s.ring.idx, pieces, 0);
      layouts != [] && !layouts[0].In(s.Submitted(pieces, 0).ring.desc)
  {
    var descMax, idx := s.shape.descMax, s.ring.idx;
    var layouts := Layouts(s.shape, idx, pieces, 0);
    BackAtFirst(s);
    PieceIsPlaced(s.shape, idx, pieces, 0, descMax);
    LocateRest(s.shape, idx, pieces, 0, descMax);
    var (t, slot) := Locate(layouts, descMax);
    var num := Chunk(descMax, idx, |pieces|);
    var ep1 := EpAfter(0, pieces[..num], s.shape.mode.nonIncr);
    hide Placed, Sum, AllIn, Locate, WrittenAll, Layout.In, EpAfter, Chunk, SlotFor;
    forall u | 1 <= u < |layouts|
      ensures forall j :: 0 <= j < |layouts[u].pieces| ==> layouts[u].pieces[j].len == len
    {
      assert layouts[u] == layouts[1..][u - 1];
      LayoutsAlike(s.shape, 0, pieces[num..], ep1, len, u - 1);
    }
    LastWriter(layouts, |layouts|, t, slot, len, s.ring.desc);
    var after := s.Submitted(pieces, 0).ring.desc;
    if layouts[0].In(after) {
      FirstBytes(layouts[0], after);
    }
  }

  /** A request leaves every transfer in flight, and its own, in the ring exactly when its descriptors and those in use
      are no more than the ring has. */
  lemma FitsExactly(s: State, count: nat)
    requires s.Sound()
    ensures KeepsAll(s, count) <==> s.ring.used + count <= s.shape.descMax
  {
    if s.ring.used + count <= s.shape.descMax {
      forall pieces: seq<Piece>, ep: nat | |pieces| == count
        ensures AllIn(s.Submitted(pieces, ep).flights, s.Submitted(pieces, ep).ring.desc)
      {
        FittingIsSound(s, pieces, ep);
      }
    } else if s.flights != [] {
      var len := s.flights[0].pieces[0].len + 1;
      var pieces := seq(count, k => Piece(0, len));
      OverOldest(s, pieces, len);
      assert s.Submitted(pieces, 0).flights[0] == s.flights[0];
    } else {
      var pieces := seq(count, k => Piece(0, if k == 0 then 1 else 2));
      OverItself(s, pieces, 2);
      assert s.Submitted(pieces, 0).flights[0] == Layouts(s.shape, s.ring.idx, pieces, 0)[0];
    }
  }

  // ----- runs -----

  datatype Step = Request(pieces: seq<Piece>, ep: nat) | GiveBack

  function Next(s: State, step: Step): (next: State)
    requires s.ring.idx < s.shape.descMax
    ensures next.ring.idx < next.shape.descMax == s.shape.descMax
  {
    match step
    case Request(pieces, ep) => s.Submitted(pieces, ep)
    case GiveBack => s.Retired()
  }

  function Run(s: State, steps: seq<Step>): (end: State)
    requires s.ring.idx < s.shape.descMax
    ensures end.ring.idx < end.shape.descMax == s.shape.descMax
    decreases |steps|
  {
    if steps == [] then s else Run(Next(s, steps[0]), steps[1..])
  }

  /** Every request of the run fits when it comes. */
  predicate AllFit(s: State, steps: seq<Step>)
    requires s.ring.idx < s.shape.descMax
    decreases |steps|
  {
    steps != [] ==>
      && (steps[0].Request? ==> s.ring.used + |steps[0].pieces| <= s.shape.descMax)
      && AllFit(Next(s, steps[0]), steps[1..])
  }

  /** However submissions that fit and retirements follow each other, every transfer in flight is in the ring; and from
      there, again, exactly the requests that fit leave it so. */
  lemma {:induction false} RunKeepsFlights(s: State, steps: seq<Step>, count: nat)
    requires s.Sound() && AllFit(s, steps)
    ensures Run(s, steps).Sound()
    ensures KeepsAll(Run(s, steps), count) <==> Run(s, steps).ring.used + count <= s.shape.descMax
    decreases |steps|
  {
    if steps == [] {
      FitsExactly(s, count);
    } else {
      match steps[0] {
        case Request(pieces, ep) => FittingIsSound(s, pieces, ep);
        case GiveBack => RetiringIsSound(s);
      }
      RunKeepsFlights(Next(s, steps[0]), steps[1..], count);
    }
  }

  // ----- the driver's calls are these steps -----

  ghost predicate Represents(ring: Ring, s: State)
    reads ring, ring.desc
  {
    s.shape == ShapeOf(ring) && s.ring == RingState(ring.descIdx, ring.descUsed, ring.desc[..])
  }

  /** A submission that does not wait. If it fits, nothing in flight is touched. */
  method SubmitNowait(ring: Ring, req: RequestCb, tfer: seq<Transfer>, ghost s: State)
    returns (overrun: bool, ghost after: State)
    requires ring.Valid() && req.swDescIdx == 0 && req.swDescCnt <= req.sdesc.Length && Represents(ring, s)
    requires |tfer| == RECORDS && tfer[0] != tfer[1]
    modifies ring, ring.desc, req, tfer
    ensures ring.Valid()
    ensures !overrun ==>
      after == s.Submitted(req.sdesc[..req.swDescCnt], old(req.epAddr)) && Represents(ring, after)
    ensures s.Sound() && s.ring.used + req.swDescCnt <= s.shape.descMax ==> !overrun && after.Sound()
  {
    ghost var pieces, ep := req.sdesc[..req.swDescCnt], req.epAddr;
    after := s.Submitted(pieces, ep);
    if s.Sound() && s.ring.used + |pieces| <= s.shape.descMax {
      FittingIsSound(s, pieces, ep);
    }
    overrun := XferSubmitNowait(ring, req, tfer);
  }

  /** Giving the oldest transfer back. */
  method RetireOldest(ring: Ring, xfer: Transfer, ghost s: State) returns (ghost after: State)
    requires ring.Valid() && Represents(ring, s) && s.Sound() && s.flights != [] && Recorded(xfer, s.flights[0])
    modifies ring`descUsed, ring.desc
    ensures after == s.Retired() && Represents(ring, after) && after.Sound()
    ensures forall i :: s.flights[0].start <= i < s.flights[0].start + |s.flights[0].pieces| ==>
      ring.desc[i] == Desc(0, 0, 0, 0, 0, false, false, false)
  {
    after := s.Retired();
    RetiringIsSound(s);
    Retire(ring, xfer);
  }
}
