/** The gates that the kernel asks for in a schedule request, instant by instant. */
module Requested {
  import opened Arithmetic
  import opened Schedule
  import opened Planner
  import opened GateMask

  /** The number of nanoseconds before entry `i` of the request. */
  function Elapsed(entries: seq<OffloadEntry>, i: nat): nat
    requires i <= |entries|
  {
    if i == 0 then 0 else Elapsed(entries, i - 1) + entries[i - 1].interval
  }

  /** The bit of a traffic class in a gate mask. */
  predicate HasBit(mask: nat, tc: nat)
    requires tc < TC_COUNT
  {
    mask / [1, 2, 4, 8, 16, 32, 64, 128][tc] % 2 == 1
  }

  /** Some entry covers this offset into the cycle and opens the class. */
  ghost predicate AsksFor(entries: seq<OffloadEntry>, tc: nat, offset: nat)
    requires tc < TC_COUNT
  {
    exists i :: 0 <= i < |entries| && Elapsed(entries, i) <= offset < Elapsed(entries, i + 1)
                && HasBit(entries[i].gateMask, tc)
  }

  /** The request opens the class at an instant, when its cycle starts at `base` and repeats for ever. */
  ghost predicate AsksAt(entries: seq<OffloadEntry>, base: int, tc: nat, t: int)
    requires tc < TC_COUNT && Elapsed(entries, |entries|) > 0
  {
    AsksFor(entries, tc, Rem(t - base, Elapsed(entries, |entries|)))
  }

  /** The request as the driver reads it. */
  function Decoded(entries: seq<OffloadEntry>): (decoded: seq<GateEntry>)
    ensures |decoded| == |entries| && forall i :: 0 <= i < |entries| ==> decoded[i] == Decode(entries[i])
    ensures forall i :: 0 <= i < |entries| ==> |decoded[i].gates| == TC_COUNT
  {
    seq(|entries|, i requires 0 <= i < |entries| => Decode(entries[i]))
  }

  lemma Halves(mask: nat, d: nat)
    requires d > 0
    ensures mask / (2 * d) == mask / 2 / d
  {
    var q, r := mask / 2 / d, mask / 2 % d;
    assert mask == 2 * (mask / 2) + mask % 2;
    Distribute(2, q * d, r);
    assert 2 * (q * d) == q * (2 * d);
    ModUnique(mask, q, 2 * r + mask % 2, 2 * d);
  }

  lemma BitIsBit(mask: nat, tc: nat)
    requires tc < TC_COUNT
    ensures Bit(mask, tc) <==> HasBit(mask, tc)
    decreases tc
  {
    if tc > 0 {
      BitIsBit(mask / 2, tc - 1);
      Halves(mask, [1, 2, 4, 8, 16, 32, 64, 128][tc - 1]);
    }
  }

  lemma {:induction false} ElapsedMonotone(entries: seq<OffloadEntry>, i: nat, j: nat)
    requires i <= j <= |entries|
    ensures Elapsed(entries, i) <= Elapsed(entries, j)
    decreases j
  {
    if i < j {
      ElapsedMonotone(entries, i, j - 1);
    }
  }

  lemma {:induction false} ElapsedPrefix(entries: seq<OffloadEntry>, n: nat, i: nat)
    requires i <= n <= |entries|
    ensures Elapsed(entries[..n], i) == Elapsed(entries, i)
    decreases i
  {
    if i > 0 {
      ElapsedPrefix(entries, n, i - 1);
    }
  }

  /** The class's lane is as long as the request. */
  lemma {:induction false} LaneLasts(entries: seq<OffloadEntry>, tc: nat)
    requires tc < TC_COUNT
    ensures Total(Lane(Decoded(entries), tc)) == Elapsed(entries, |entries|)
  {
    if entries != [] {
      var n := |entries| - 1;
      LaneLasts(entries[..n], tc);
      ElapsedPrefix(entries, n, n);
      assert Lane(Decoded(entries), tc)[..n] == Lane(Decoded(entries[..n]), tc);
    }
  }

  /** The last entry decides where the ones before it have ended. */
  lemma AsksLast(entries: seq<OffloadEntry>, tc: nat, offset: nat)
    requires tc < TC_COUNT && entries != [] && offset < Elapsed(entries, |entries|)
    ensures var n := |entries| - 1;
      AsksFor(entries, tc, offset) <==>
        if offset < Elapsed(entries, n) then AsksFor(entries[..n], tc, offset) else HasBit(entries[n].gateMask, tc)
  {
    var n := |entries| - 1;
    forall i | 0 <= i <= n ensures Elapsed(entries[..n], i) == Elapsed(entries, i) <= Elapsed(entries, n) {
      ElapsedPrefix(entries, n, i);
      ElapsedMonotone(entries, i, n);
    }
    if AsksFor(entries, tc, offset) && offset < Elapsed(entries, n) {
      var i :| 0 <= i < |entries| && Elapsed(entries, i) <= offset < Elapsed(entries, i + 1)
               && HasBit(entries[i].gateMask, tc);
      assert i != n;
      hide Elapsed;
      assert entries[..n][i] == entries[i];
      assert Elapsed(entries[..n], i) <= offset < Elapsed(entries[..n], i + 1);
    }
    if AsksFor(entries[..n], tc, offset) {
      var i :| 0 <= i < n && Elapsed(entries[..n], i) <= offset < Elapsed(entries[..n], i + 1)
               && HasBit(entries[..n][i].gateMask, tc);
      assert Elapsed(entries, i) <= offset < Elapsed(entries, i + 1) && HasBit(entries[i].gateMask, tc);
    }
  }

  lemma {:induction false} GateIsAsked(entries: seq<OffloadEntry>, tc: nat, offset: nat)
    requires tc < TC_COUNT && offset < Total(Lane(Decoded(entries), tc))
    ensures GateAt(Lane(Decoded(entries), tc), offset) <==> AsksFor(entries, tc, offset)
  {
    LaneLasts(entries, tc);
    var n := |entries| - 1;
    var lane := Lane(Decoded(entries), tc);
    assert lane[..n] == Lane(Decoded(entries[..n]), tc);
    assert lane[n].isOpen == Bit(entries[n].gateMask, tc);
    LaneLasts(entries[..n], tc);
    ElapsedPrefix(entries, n, n);
    AsksLast(entries, tc, offset);
    hide Elapsed, AsksFor, HasBit, Bit, Decode, Lane, Decoded;
    if offset < Elapsed(entries, n) {
      GateIsAsked(entries[..n], tc, offset);
    } else {
      BitIsBit(entries[n].gateMask, tc);
    }
  }

  /** At every instant, past or future, a class's gate is what the request asks for. */
  lemma OpensAsAsked(entries: seq<OffloadEntry>, base: int, tc: nat, t: int)
    requires tc < TC_COUNT && Elapsed(entries, |entries|) > 0
    ensures Total(Lane(Decoded(entries), tc)) == Elapsed(entries, |entries|)
    ensures Open(Lane(Decoded(entries), tc), base, t) <==> AsksAt(entries, base, tc, t)
  {
    LaneLasts(entries, tc);
    GateIsAsked(entries, tc, Rem(t - base, Elapsed(entries, |entries|)));
  }

  // ----- installed schedules -----

  predicate Wide(entries: seq<GateEntry>) {
    forall i :: 0 <= i < |entries| ==> |entries[i].gates| == TC_COUNT
  }

  /** With this schedule in force every class may send at any time, past or future. */
  ghost predicate NeverCloses(entries: seq<GateEntry>, start: int)
    requires Wide(entries)
  {
    && (forall tc :: 0 <= tc < TC_COUNT ==> Total(Lane(entries, tc)) > 0)
    && forall tc, t: int :: 0 <= tc < TC_COUNT ==> Open(Lane(entries, tc), start, t)
  }

  /** With this schedule in force every class may send exactly when the request lets it, in cycles that start at
      `base`. */
  ghost predicate IsAsked(entries: seq<GateEntry>, start: int, request: seq<OffloadEntry>, base: int)
    requires Wide(entries)
  {
    && Elapsed(request, |request|) > 0
    && (forall tc :: 0 <= tc < TC_COUNT ==> Total(Lane(entries, tc)) == Elapsed(request, |request|))
    && forall tc, t: int :: 0 <= tc < TC_COUNT ==>
         (Open(Lane(entries, tc), start, t) <==> AsksAt(request, base, tc, t))
  }

  lemma {:induction false} DecodedIsAsked(request: seq<OffloadEntry>, base: int)
    requires Elapsed(request, |request|) > 0
    ensures IsAsked(Decoded(request), base, request, base)
  {
    forall tc | 0 <= tc < TC_COUNT ensures Total(Lane(Decoded(request), tc)) == Elapsed(request, |request|) {
      LaneLasts(request, tc);
    }
    forall tc, t: int | 0 <= tc < TC_COUNT
      ensures Open(Lane(Decoded(request), tc), base, t) <==> AsksAt(request, base, tc, t)
    {
      OpensAsAsked(request, base, tc, t);
    }
  }
}
