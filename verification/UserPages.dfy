/** Splitting a user buffer into the pages it touches. */
module UserPages {
  import opened Arithmetic
  import opened Errors

  const PAGE_SIZE: nat := 4096

  /** One scatterlist entry: a part of one pinned page. */
  datatype Chunk = Chunk(page: nat, offset: nat, length: nat)

  /** The page count as the driver computes it, with 64-bit addresses and a 32-bit result. */
  function PagesNr(buf: nat, len: nat): nat {
    ((buf + len + PAGE_SIZE - 1) % U64 - (buf - buf % PAGE_SIZE)) % U64 / PAGE_SIZE % U32
  }

  /** Where the part of the buffer in its k-th page starts ... */
  function Start(buf: nat, k: nat): nat {
    if k == 0 then buf else (buf / PAGE_SIZE + k) * PAGE_SIZE
  }

  /** ... and ends. */
  function End(buf: nat, len: nat, k: nat): int {
    Min((buf / PAGE_SIZE + k + 1) * PAGE_SIZE, buf + len)
  }

  /** The parts of the buffer in its first pages. */
  ghost predicate IsPieces(buf: nat, len: nat, pages: seq<nat>, chunks: seq<Chunk>) {
    && |chunks| <= |pages|
    && forall k :: 0 <= k < |chunks| ==>
      && chunks[k].page == pages[k]
      && chunks[k].offset == Start(buf, k) % PAGE_SIZE
      && chunks[k].length == End(buf, len, k) - Start(buf, k)
  }

  function TotalLength(chunks: seq<Chunk>): nat {
    if chunks == [] then 0 else TotalLength(chunks[..|chunks| - 1]) + chunks[|chunks| - 1].length
  }

  /** Below 4 GiB neither the addresses nor the page count overflow. */
  lemma CountExact(buf: nat, len: nat)
    requires len < U32 && buf + len <= U64
    ensures PagesNr(buf, len) == (buf % PAGE_SIZE + len + PAGE_SIZE - 1) / PAGE_SIZE
  {
    var aligned, wide := buf - buf % PAGE_SIZE, buf + len + PAGE_SIZE - 1;
    var count := wide - aligned;
    assert (wide % U64 - aligned) % U64 == count by {
      if wide >= U64 {
        ModUnique(wide, 1, wide - U64, U64);
        ModUnique(wide - U64 - aligned, -1, count, U64);
      }
    }
  }

  /** A non-empty buffer below 4 GiB gets exactly the pages that its bytes lie in. */
  lemma PagesNrExact(buf: nat, len: nat)
    requires 0 < len < U32 && buf + len <= U64
    ensures PagesNr(buf, len) == (buf + len - 1) / PAGE_SIZE - buf / PAGE_SIZE + 1
  {
    CountExact(buf, len);
  }

  /** The length of the next chunk: the driver takes the minimum in 32 bits. */
  function NextBytes(offset: nat, len: nat): nat
    requires offset < PAGE_SIZE
  {
    if PAGE_SIZE - offset < len % U32 then PAGE_SIZE - offset else len % U32
  }

  /** What the loop has done after some pages. */
  ghost predicate Progress(buf: nat, len: nat, pages: seq<nat>, chunks: seq<Chunk>, at: nat, rest: nat) {
    && at + rest == buf + len && IsPieces(buf, len, pages, chunks) && TotalLength(chunks) == len - rest
    && at == (if rest == 0 then buf + len else Start(buf, |chunks|))
    && (rest == 0 <==> |chunks| >= PagesNr(buf, len))
  }

  lemma OneMorePage(buf: nat, len: nat, pages: seq<nat>, chunks: seq<Chunk>, at: nat, rest: nat)
    requires 0 < len < U32 && buf + len <= U64
    requires |chunks| < |pages| == PagesNr(buf, len) && Progress(buf, len, pages, chunks, at, rest)
    ensures var n := NextBytes(at % PAGE_SIZE, rest);
      && 0 < n <= rest
      && Progress(buf, len, pages, chunks + [Chunk(pages[|chunks|], at % PAGE_SIZE, n)], at + n, rest - n)
  {
    PagesNrExact(buf, len);
    var k, n := |chunks|, NextBytes(at % PAGE_SIZE, rest);
    var more := chunks + [Chunk(pages[k], at % PAGE_SIZE, n)];
    assert more[..k] == chunks;
    PageOf(buf, k);
    assert at + n == End(buf, len, k);
    PageOf(buf, k + 1);
  }

  lemma PageOf(buf: nat, k: nat)
    ensures Start(buf, k) / PAGE_SIZE == buf / PAGE_SIZE + k
    ensures k > 0 ==> Start(buf, k) % PAGE_SIZE == 0
  {
  }

  /** The loop over the pages. Below 4 GiB it cuts the buffer at its page boundaries and uses it up; from
      4 GiB on it never does, whatever the pages. */
  method Split(buf: nat, len: nat, pages: seq<nat>) returns (chunks: seq<Chunk>, rest: nat)
    requires buf + len <= U64
    ensures len < U32 && 0 < len && |pages| == PagesNr(buf, len) ==>
      rest == 0 && |chunks| == |pages| && IsPieces(buf, len, pages, chunks) && TotalLength(chunks) == len
    ensures len == 0 ==> rest == 0
    ensures len >= U32 ==> rest >= U32
  {
    hide Progress, IsPieces, TotalLength, PagesNr, Start, End;
    chunks, rest := [], len;
    var at: nat := buf;
    ghost var exact := 0 < len < U32 && |pages| == PagesNr(buf, len);
    if exact {
      NothingDone(buf, len, pages);
    }
    for i: nat := 0 to |pages|
      invariant |chunks| == i && rest <= len && rest / U32 == len / U32
      invariant exact ==> Progress(buf, len, pages, chunks, at, rest)
    {
      var offset := at % PAGE_SIZE;
      var nbytes := NextBytes(offset, rest);
      if exact {
        OneMorePage(buf, len, pages, chunks, at, rest);
      }
      chunks := chunks + [Chunk(pages[i], offset, nbytes)];
      at := at + nbytes;
      rest := rest - nbytes;
    }
    if exact {
      AllDone(buf, len, pages, chunks, at, rest);
    }
  }

  lemma NothingDone(buf: nat, len: nat, pages: seq<nat>)
    requires 0 < len < U32 && buf + len <= U64
    ensures Progress(buf, len, pages, [], buf, len)
  {
    PagesNrExact(buf, len);
  }

  lemma AllDone(buf: nat, len: nat, pages: seq<nat>, chunks: seq<Chunk>, at: nat, rest: nat)
    requires Progress(buf, len, pages, chunks, at, rest) && |chunks| == |pages| == PagesNr(buf, len)
    ensures rest == 0 && IsPieces(buf, len, pages, chunks) && TotalLength(chunks) == len
  {
  }

  // ----- what the pieces are -----

  /** Every piece is a positive part of one page, the pieces follow each other, and every byte of the buffer
      lies in the piece of its own page. */
  lemma PiecesTile(buf: nat, len: nat, pages: seq<nat>, chunks: seq<Chunk>, k: nat)
    requires 0 < len < U32 && buf + len <= U64 && |chunks| == PagesNr(buf, len)
    requires IsPieces(buf, len, pages, chunks) && k < |chunks|
    ensures chunks[k].length > 0 && chunks[k].offset + chunks[k].length <= PAGE_SIZE
    ensures Start(buf, 0) == buf && End(buf, len, |chunks| - 1) == buf + len
    ensures k + 1 < |chunks| ==> End(buf, len, k) == Start(buf, k + 1)
    ensures forall a :: buf <= a < buf + len ==>
      (Start(buf, k) <= a < End(buf, len, k) <==> a / PAGE_SIZE == buf / PAGE_SIZE + k)
  {
    PagesNrExact(buf, len);
    PageOf(buf, k);
    var base := (buf / PAGE_SIZE + k) * PAGE_SIZE;
    forall a | buf <= a < buf + len
      ensures Start(buf, k) <= a < End(buf, len, k) <==> a / PAGE_SIZE == buf / PAGE_SIZE + k
    {
      assert a / PAGE_SIZE == buf / PAGE_SIZE + k <==> base <= a < base + PAGE_SIZE;
    }
  }

  /** No page is counted exactly when the buffer is empty and starts on a page boundary, for a buffer below 4 GiB. */
  lemma NoPages(buf: nat, len: nat)
    requires len < U32 && buf + len <= U64
    ensures PagesNr(buf, len) == 0 <==> len == 0 && buf % PAGE_SIZE == 0
  {
    CountExact(buf, len);
  }

  // ----- the whole call -----

  predicate Repeats(pages: seq<nat>) {
    exists i :: 1 <= i < |pages| && pages[i - 1] == pages[i]
  }

  class IoBuffer {
    const buf: nat
    const len: nat
    var pagesNr: int
    var sgl: seq<Chunk>

    constructor (buf: nat, len: nat)
      ensures this.buf == buf && this.len == len && pagesNr == 0 && sgl == []
    {
      this.buf, this.len, pagesNr, sgl := buf, len, 0, [];
    }

    /** `char_sgdma_map_user_buf_to_sgl`. The kernel supplies the memory, the result of pinning and the pages. */
    method Map(memoryOk: bool, pinned: int, pages: seq<nat>) returns (rv: int)
      requires buf + len <= U64
      requires |pages| == PagesNr(buf, len)
      modifies this
      ensures var n := PagesNr(buf, len);
        if n == 0 then rv == -EINVAL
        else if !memoryOk then rv == -ENOMEM
        else if pinned < 0 then rv == pinned
        else if pinned != n then rv == -EFAULT && pagesNr == pinned
        else if Repeats(pages) then rv == -EFAULT && pagesNr == n
        else if len >= U32 then rv == -EINVAL
        else (rv == 0 && pagesNr == n &&
              (len > 0 ==> |sgl| == n && IsPieces(buf, len, pages, sgl) && TotalLength(sgl) == len))
    {
      var n := PagesNr(buf, len);
      hide PagesNr, IsPieces, TotalLength;
      if n == 0 {
        return -EINVAL;
      }
      if !memoryOk {
        return -ENOMEM;
      }
      if pinned < 0 {
        return pinned;
      }
      if pinned != n {
        pagesNr := pinned;
        return -EFAULT;
      }
      for i := 1 to n
        invariant forall k :: 1 <= k < i ==> pages[k - 1] != pages[k]
      {
        if pages[i - 1] == pages[i] {
          pagesNr := n;
          return -EFAULT;
        }
      }
      var rest: nat;
      sgl, rest := Split(buf, len, pages);
      if rest != 0 {
        return -EINVAL;
      }
      pagesNr := n;
      return 0;
    }
  }
}
