/** Splitting a scatter list into software descriptors that one DMA descriptor can carry. */
module Request {
  import opened Arithmetic

  /** A contiguous piece of DMA memory: an entry of the scatter list, or a software descriptor. */
  datatype Piece = Piece(addr: nat, len: nat)

  /** The addresses of a piece's bytes, in order. */
  function Span(piece: Piece): (bytes: seq<nat>)
    ensures |bytes| == piece.len
  {
    seq(piece.len, i requires 0 <= i => piece.addr + i)
  }

  /** The addresses of all bytes of a list of pieces, in order. */
  function Cover(pieces: seq<Piece>): seq<nat> {
    if pieces == [] then [] else Cover(pieces[..|pieces| - 1]) + Span(pieces[|pieces| - 1])
  }

  function TotalLen(pieces: seq<Piece>): nat {
    if pieces == [] then 0 else TotalLen(pieces[..|pieces| - 1]) + pieces[|pieces| - 1].len
  }

  /** One entry, cut into pieces of at most `max` bytes. */
  function Cut(addr: nat, len: nat, max: nat): seq<Piece>
    requires max > 0
    decreases len
  {
    if len == 0 then []
    else if len > max then [Piece(addr, max)] + Cut(addr + max, len - max, max)
    else [Piece(addr, len)]
  }

  function Split(entries: seq<Piece>, max: nat): seq<Piece>
    requires max > 0
  {
    if entries == [] then []
    else
      var last := entries[|entries| - 1];
      Split(entries[..|entries| - 1], max) + Cut(last.addr, last.len, max)
  }

  // ----- the split covers the same bytes in the same order -----

  lemma CoverSnoc(pieces: seq<Piece>, p: Piece)
    ensures Cover(pieces + [p]) == Cover(pieces) + Span(p)
    ensures TotalLen(pieces + [p]) == TotalLen(pieces) + p.len
  {
    assert (pieces + [p])[..|pieces|] == pieces;
  }

  lemma CoverOne(p: Piece)
    ensures Cover([p]) == Span(p) && TotalLen([p]) == p.len
  {
    CoverSnoc([], p);
    assert [] + [p] == [p] && [] + Span(p) == Span(p);
  }

  lemma {:induction false} CoverConcat(a: seq<Piece>, b: seq<Piece>)
    ensures Cover(a + b) == Cover(a) + Cover(b)
    ensures TotalLen(a + b) == TotalLen(a) + TotalLen(b)
  {
    if b == [] {
      assert a + b == a;
    } else {
      var init, last := b[..|b| - 1], b[|b| - 1];
      CoverConcat(a, init);
      assert (a + b)[..|a + b| - 1] == a + init;
      Associative(Cover(a), Cover(init), Span(last));
    }
  }

  lemma Associative(a: seq<nat>, b: seq<nat>, c: seq<nat>)
    ensures (a + b) + c == a + (b + c)
  {
  }

  lemma SpanSplit(addr: nat, first: nat, rest: nat)
    ensures Span(Piece(addr, first + rest)) == Span(Piece(addr, first)) + Span(Piece(addr + first, rest))
  {
  }

  predicate Sized(pieces: seq<Piece>, max: nat) {
    forall i :: 0 <= i < |pieces| ==> 0 < pieces[i].len <= max
  }

  lemma {:induction false} CutCovers(addr: nat, len: nat, max: nat)
    requires max > 0
    ensures Cover(Cut(addr, len, max)) == Span(Piece(addr, len))
    ensures TotalLen(Cut(addr, len, max)) == len
    ensures Sized(Cut(addr, len, max), max)
    decreases len
  {
    if len > max {
      var rest := Cut(addr + max, len - max, max);
      CutCovers(addr + max, len - max, max);
      CoverConcat([Piece(addr, max)], rest);
      CoverOne(Piece(addr, max));
      SpanSplit(addr, max, len - max);
    } else if len > 0 {
      CoverOne(Piece(addr, len));
    }
  }

  /** The software descriptors name exactly the bytes of the scatter list, in order, and each can be
      carried by one DMA descriptor. */
  lemma {:induction false} SplitPreservesBytes(entries: seq<Piece>, max: nat)
    requires max > 0
    ensures Cover(Split(entries, max)) == Cover(entries)
    ensures TotalLen(Split(entries, max)) == TotalLen(entries)
    ensures Sized(Split(entries, max), max)
  {
    if entries != [] {
      var init, last := entries[..|entries| - 1], entries[|entries| - 1];
      SplitPreservesBytes(init, max);
      CutCovers(last.addr, last.len, max);
      CoverConcat(Split(init, max), Cut(last.addr, last.len, max));
    }
  }

  // ----- the space set aside -----

  /** The number of software descriptors that the driver sets aside for an entry: one, and for a long
      entry as many more as its rounded-up quotient, computed in 32 bits. */
  function Reserved(len: nat, max: nat): nat
    requires max > 0
  {
    1 + if len > max then (len + max - 1) % U32 / max else 0
  }

  function TotalReserved(entries: seq<Piece>, max: nat): nat
    requires max > 0
  {
    if entries == [] then 0
    else TotalReserved(entries[..|entries| - 1], max) + Reserved(entries[|entries| - 1].len, max)
  }

  lemma {:induction false} CutCount(addr: nat, len: nat, max: nat)
    requires max > 0
    ensures |Cut(addr, len, max)| == (len + max - 1) / max
    decreases len
  {
    if len > max {
      CutCount(addr + max, len - max, max);
      var q := (len - 1) / max;
      ModUnique(len + max - 1, q + 1, (len - 1) % max, max);
      Distribute(max, q, 1);
    } else if len > 0 {
      ModUnique(len + max - 1, 1, len - 1, max);
    } else {
      ModUnique(max - 1, 0, max - 1, max);
    }
  }

  /** An entry gets enough space exactly when the rounding does not overflow 32 bits. */
  lemma ReservedSuffices(addr: nat, len: nat, max: nat)
    requires 0 < max <= len < U32
    ensures |Cut(addr, len, max)| <= Reserved(len, max) <==> len == max || len + max - 1 < U32
  {
    CutCount(addr, len, max);
    if len == max {
      ModUnique(len + max - 1, 1, max - 1, max);
    } else if len + max - 1 >= U32 {
      var wrapped := len + max - 1 - U32;
      ModUnique(len + max - 1, 1, wrapped, U32);
      ModUnique(wrapped, 0, wrapped, max);
      ModUnique(len + max - 1, (len + max - 1) / max, (len + max - 1) % max, max);
      assert |Cut(addr, len, max)| == 1 + |Cut(addr + max, len - max, max)| >= 2;
    }
  }

  /** Rounding the length up to a multiple of `max` overflows 32 bits. */
  predicate Overflows(len: nat, max: nat) { len > max && len + max - 1 >= U32 }

  /** The descriptors that the entries leave over: one for each entry that is empty, and one for each that is
      longer than `max` without overflowing. */
  function Spare(entries: seq<Piece>, max: nat): nat {
    if entries == [] then 0
    else
      var len := entries[|entries| - 1].len;
      Spare(entries[..|entries| - 1], max) + (if len == 0 || (len > max && !Overflows(len, max)) then 1 else 0)
  }

  /** The descriptors that overflowing entries are short of. */
  function Lacking(entries: seq<Piece>, max: nat): nat
    requires max > 0
  {
    if entries == [] then 0
    else
      var len := entries[|entries| - 1].len;
      Lacking(entries[..|entries| - 1], max) + (if Overflows(len, max) then (len - 1) / max else 0)
  }

  /** The lengths are 32-bit numbers. */
  predicate Narrow(entries: seq<Piece>) {
    forall i :: 0 <= i < |entries| ==> entries[i].len < U32
  }

  /** The space that an entry leaves over or is short of. */
  lemma EntryBalance(addr: nat, len: nat, max: nat)
    requires 0 < max && len < U32
    ensures |Cut(addr, len, max)| + (if len == 0 || (len > max && !Overflows(len, max)) then 1 else 0)
            == Reserved(len, max) + (if Overflows(len, max) then (len - 1) / max else 0)
  {
    CutCount(addr, len, max);
    if len == 0 {
      ModUnique(max - 1, 0, max - 1, max);
    } else if len <= max {
      ModUnique(len + max - 1, 1, len - 1, max);
    } else if Overflows(len, max) {
      var wrapped := len + max - 1 - U32;
      ModUnique(len + max - 1, 1, wrapped, U32);
      ModUnique(wrapped, 0, wrapped, max);
      var q := (len - 1) / max;
      Distribute(max, q, 1);
      ModUnique(len + max - 1, q + 1, (len - 1) % max, max);
    }
  }

  lemma {:induction false} ListBalance(entries: seq<Piece>, max: nat)
    requires max > 0 && Narrow(entries)
    ensures |Split(entries, max)| + Spare(entries, max) == TotalReserved(entries, max) + Lacking(entries, max)
  {
    if entries != [] {
      var last := entries[|entries| - 1];
      ListBalance(entries[..|entries| - 1], max);
      EntryBalance(last.addr, last.len, max);
      hide Reserved, Cut, Overflows;
    }
  }

  /** For any scatter list the allocation suffices exactly when what overflowing entries are short of is covered
      by what the others leave over. */
  lemma AllReservedSuffices(entries: seq<Piece>, max: nat)
    requires max > 0 && Narrow(entries)
    ensures |Split(entries, max)| <= TotalReserved(entries, max) <==> Lacking(entries, max) <= Spare(entries, max)
  {
    ListBalance(entries, max);
  }

  /** In particular when no entry overflows. */
  lemma {:induction false} NothingLacking(entries: seq<Piece>, max: nat)
    requires max > 0 && forall i :: 0 <= i < |entries| ==> !Overflows(entries[i].len, max)
    ensures Lacking(entries, max) == 0
  {
    if entries != [] {
      NothingLacking(entries[..|entries| - 1], max);
    }
  }

  lemma {:induction false} SplitMonotone(entries: seq<Piece>, i: nat, max: nat)
    requires max > 0 && i <= |entries|
    ensures |Split(entries[..i], max)| <= |Split(entries, max)|
    decreases |entries| - i
  {
    if i < |entries| {
      assert entries[..i + 1][..i] == entries[..i];
      SplitMonotone(entries, i + 1, max);
    } else {
      assert entries[..i] == entries;
    }
  }

  /** The request that the driver builds. */
  class RequestCb {
    const sdesc: array<Piece>
    const swDescCnt: nat
    const totalLen: nat
    var swDescIdx: nat
    var epAddr: nat

    constructor (sdesc: array<Piece>, swDescCnt: nat, totalLen: nat, epAddr: nat)
      ensures this.sdesc == sdesc && this.swDescCnt == swDescCnt && this.totalLen == totalLen
      ensures swDescIdx == 0 && this.epAddr == epAddr
    {
      this.sdesc, this.swDescCnt, this.totalLen, this.epAddr := sdesc, swDescCnt, totalLen, epAddr;
      swDescIdx := 0;
    }
  }

  /** The first loop of `xdma_init_request`: the number of software descriptors to allocate. */
  method CountReserved(entries: seq<Piece>, max: nat) returns (count: nat)
    requires max > 0
    ensures count == TotalReserved(entries, max)
  {
    var extra := 0;
    for i := 0 to |entries|
      invariant i + extra == TotalReserved(entries[..i], max)
    {
      assert entries[..i + 1][..i] == entries[..i];
      var len := entries[i].len;
      if len > max {
        extra := extra + (len + max - 1) % U32 / max;
      }
    }
    assert entries[..|entries|] == entries;
    count := |entries| + extra;
  }

  /** 32-bit addition keeps a sum modulo 2^32. */
  method Add32(total: nat, len: nat, ghost sum: nat) returns (next: nat)
    requires total == sum % U32
    ensures next == (sum + len) % U32
  {
    ModAbsorb(len, sum, U32);
    next := (total + len) % U32;
  }

  /** One round of the loop over an entry, on values: the next piece, and what is left. */
  lemma CutStep(addr: nat, tlen: nat, max: nat, all: seq<Piece>, m: nat)
    requires 0 < max && 0 < tlen && m <= |all| && Cut(addr, tlen, max) == all[m..]
    ensures m < |all| && all[m] == Piece(addr, Min(tlen, max))
    ensures tlen > max ==> Cut(addr + max, tlen - max, max) == all[m + 1..]
    ensures tlen <= max ==> m + 1 == |all| && Cut(addr, 0, max) == all[m + 1..]
  {
    assert all[m..][1..] == all[m + 1..];
  }

  lemma OneMore(before: seq<Piece>, all: seq<Piece>, m: nat)
    requires m < |all|
    ensures before + all[..m] + [all[m]] == before + all[..m + 1]
  {
  }

  method PutPiece(sdesc: array<Piece>, j: nat, piece: Piece)
    requires j < sdesc.Length
    modifies sdesc
    ensures sdesc[..j + 1] == old(sdesc[..j]) + [piece]
  {
    sdesc[j] := piece;
  }

  /** The loop over one entry: writes its pieces from position `j` on. The model stops where the driver would write
      past the array. */
  method FillPieces(sdesc: array<Piece>, j: nat, entry: Piece, max: nat) returns (next: nat, overrun: bool)
    requires max > 0 && j <= sdesc.Length
    modifies sdesc
    ensures overrun <==> j + |Cut(entry.addr, entry.len, max)| > sdesc.Length
    ensures next == if overrun then sdesc.Length else j + |Cut(entry.addr, entry.len, max)|
    ensures sdesc[..next] == old(sdesc[..j]) + Cut(entry.addr, entry.len, max)[..next - j]
  {
    ghost var all, before := Cut(entry.addr, entry.len, max), sdesc[..j];
    var tlen: nat, addr: nat := entry.len, entry.addr;
    next := j;
    while tlen > 0
      invariant j <= next <= j + |all| && Cut(addr, tlen, max) == all[next - j..] && next <= sdesc.Length
      invariant sdesc[..next] == before + all[..next - j]
      decreases tlen
    {
      ghost var m := next - j;
      CutStep(addr, tlen, max, all, m);
      hide Cut;
      if next == sdesc.Length {
        return next, true;
      }
      OneMore(before, all, m);
      if tlen > max {
        PutPiece(sdesc, next, Piece(addr, max));
        addr := addr + max;
        tlen := tlen - max;
      } else {
        PutPiece(sdesc, next, Piece(addr, tlen));
        tlen := 0;
      }
      next := next + 1;
    }
    overrun := false;
  }

  /** The state of the loop over the entries, before entry `i`. */
  ghost predicate FilledTo(sdesc: array<Piece>, entries: seq<Piece>, max: nat, i: nat, j: nat, total: nat)
    requires max > 0
    reads sdesc
  {
    && i <= |entries| && j <= sdesc.Length == TotalReserved(entries, max)
    && sdesc[..j] == Split(entries[..i], max) && total == TotalLen(entries[..i]) % U32
  }

  /** The loop body for one entry. */
  method FillEntry(sdesc: array<Piece>, entries: seq<Piece>, max: nat, i: nat, j: nat, total: nat)
    returns (next: nat, sum: nat, overrun: bool)
    requires max > 0 && i < |entries| && FilledTo(sdesc, entries, max, i, j, total)
    modifies sdesc
    ensures !overrun ==> FilledTo(sdesc, entries, max, i + 1, next, sum)
    ensures overrun ==> |Split(entries, max)| > TotalReserved(entries, max)
  {
    assert entries[..i + 1][..i] == entries[..i];
    SplitMonotone(entries, i + 1, max);
    sum := Add32(total, entries[i].len, TotalLen(entries[..i]));
    next, overrun := FillPieces(sdesc, j, entries[i], max);
    hide Cut, TotalReserved;
  }

  /** `xdma_init_request`: fills the software descriptors. Exactly when the allocation does not suffice, writes leave
      it; the driver's check for that afterwards then fires, and there is no request. */
  method InitRequest(entries: seq<Piece>, epAddr: nat, max: nat) returns (overrun: bool, req: RequestCb?)
    requires max > 0 && Narrow(entries)
    ensures overrun <==> Lacking(entries, max) > Spare(entries, max)
    ensures overrun <==> req == null
    ensures req != null ==>
      && fresh(req) && fresh(req.sdesc) && req.swDescIdx == 0 && req.epAddr == epAddr
      && req.swDescCnt <= req.sdesc.Length
      && req.sdesc[..req.swDescCnt] == Split(entries, max)
      && req.totalLen == TotalLen(entries) % U32
  {
    var count := CountReserved(entries, max);
    AllReservedSuffices(entries, max);
    var sdesc := new Piece[count](_ => Piece(0, 0));
    NothingFilled(sdesc, entries, max);
    hide FilledTo;
    var j: nat, total: nat := 0, 0;
    for i := 0 to |entries|
      invariant fresh(sdesc) && FilledTo(sdesc, entries, max, i, j, total)
    {
      j, total, overrun := FillEntry(sdesc, entries, max, i, j, total);
      if overrun {
        return true, null;
      }
    }
    AllFilled(sdesc, entries, max, j, total);
    req := new RequestCb(sdesc, j, total, epAddr);
    overrun := false;
  }

  lemma NothingFilled(sdesc: array<Piece>, entries: seq<Piece>, max: nat)
    requires max > 0 && sdesc.Length == TotalReserved(entries, max)
    ensures FilledTo(sdesc, entries, max, 0, 0, 0)
  {
  }

  lemma AllFilled(sdesc: array<Piece>, entries: seq<Piece>, max: nat, j: nat, total: nat)
    requires max > 0 && FilledTo(sdesc, entries, max, |entries|, j, total)
    ensures j <= sdesc.Length == TotalReserved(entries, max)
    ensures sdesc[..j] == Split(entries, max) && total == TotalLen(entries) % U32
  {
    assert entries[..|entries|] == entries;
  }
}
