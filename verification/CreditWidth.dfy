/** The shaper's credit as a 32-bit number: the driver computes in floating point and converts the result back. */
module CreditWidth {
  import opened Arithmetic
  import opened Shaper

  const LARGEST: int := U32 / 2 - 1
  const SMALLEST: int := -(U32 / 2)

  predicate InWidth(x: int) { SMALLEST <= x <= LARGEST }

  /** The conversion to 32 bits; `outside` is what it gives for a number that does not fit, which C leaves open. */
  function Convert(x: int, outside: int -> int): int {
    if InWidth(x) then x else outside(x)
  }

  /** Credit at `at`, and once the frame is charged, with the driver's conversions. */
  function Earned32(q: Credit, at: int, outside: int -> int): int {
    Min(Convert(q.credit + (at - q.lastUpdate) * q.idleSlope, outside), q.hi)
  }

  function Charged32(q: Credit, at: int, duration: nat, outside: int -> int): int {
    Max(Convert(Earned32(q, at, outside) + duration * q.sendSlope, outside), q.lo)
  }

  function Spend32(q: Credit, at: nat, duration: nat, outside: int -> int): Credit
    requires q.Releasable()
  {
    if !q.enabled || !q.Accepts(at) then q
    else
      var c, sendEnd := Charged32(q, at, duration, outside), at + duration;
      WaitIsNatural(c, q);
      q.(credit := c, lastUpdate := sendEnd, availableAt := Release(sendEnd, Wait(c, q.idleSlope)))
  }

  /** Whatever the conversions give, frames are released in order: what admission needs of a shaper does not depend on
      the width of its credit. */
  lemma WidthKeepsSound(q: Credit, at: nat, duration: nat, outside: int -> int)
    requires q.Sound() && q.enabled && q.Accepts(at)
    ensures var q' := Spend32(q, at, duration, outside);
      q'.Sound() && q'.lastUpdate == at + duration <= q'.availableAt
  {
    WaitIsNatural(Charged32(q, at, duration, outside), q);
  }

  /** Both conversions are of numbers that fit. */
  predicate Fits(q: Credit, at: int, duration: nat) {
    InWidth(q.credit + (at - q.lastUpdate) * q.idleSlope) && InWidth(q.Earned(at) + duration * q.sendSlope)
  }

  /** The bounds are 32-bit numbers themselves. */
  predicate Narrow(q: Credit) { InWidth(q.hi) && InWidth(q.lo) }

  /** With the driver's conversions both credits come out as without a width. */
  predicate Agrees(q: Credit, at: int, duration: nat, outside: int -> int) {
    Earned32(q, at, outside) == q.Earned(at) && Charged32(q, at, duration, outside) == q.Charged(at, duration)
  }

  ghost predicate AlwaysAgrees(q: Credit, at: int, duration: nat) {
    forall outside: int -> int :: Agrees(q, at, duration, outside)
  }

  /** Whatever a conversion that does not fit may give, the 32-bit credit is the unbounded one exactly when both
      conversions fit. */
  lemma AgreesExactly(q: Credit, at: nat, duration: nat)
    requires q.Valid() && Narrow(q) && q.Accepts(at)
    ensures AlwaysAgrees(q, at, duration) <==> Fits(q, at, duration)
  {
    MulNonnegative(at - q.lastUpdate, q.idleSlope);
    MulNonnegative(duration, -q.sendSlope);
    Negate(q.sendSlope, duration);
    Commute(duration, q.sendSlope);
    Commute(duration, -q.sendSlope);
    if !Fits(q, at, duration) {
      if !InWidth(q.credit + (at - q.lastUpdate) * q.idleSlope) {
        assert !Agrees(q, at, duration, _ => SMALLEST);
      } else {
        assert !Agrees(q, at, duration, _ => LARGEST);
      }
    }
  }

  // ----- whole runs -----

  predicate AllFit(q: Credit, run: seq<Frame>)
    requires q.Configured()
    decreases |run|
  {
    run == [] || (Fits(q, run[0].at, run[0].duration) && AllFit(q.Spend(run[0].at, run[0].duration), run[1..]))
  }

  function After32(q: Credit, run: seq<Frame>, outside: int -> int): Credit
    requires q.Configured()
    decreases |run|
  {
    if run == [] then q else After32(Spend32(q, run[0].at, run[0].duration, outside), run[1..], outside)
  }

  /** At every frame of the 32-bit run, both credits come out as without a width. */
  predicate AgreesThroughout(q: Credit, run: seq<Frame>, outside: int -> int)
    requires q.Configured()
    decreases |run|
  {
    run == [] ||
    (&& Agrees(q, run[0].at, run[0].duration, outside)
     && AgreesThroughout(Spend32(q, run[0].at, run[0].duration, outside), run[1..], outside))
  }

  ghost predicate AlwaysAgreesThroughout(q: Credit, run: seq<Frame>)
    requires q.Configured()
  {
    forall outside: int -> int :: AgreesThroughout(q, run, outside)
  }

  /** Over every accepted run, the driver's credit is the unbounded one throughout, exactly when every conversion
      fits. */
  lemma {:induction false} RunAgreesExactly(q: Credit, run: seq<Frame>)
    requires q.Valid() && Narrow(q) && q.enabled && Accepted(q, run)
    ensures AlwaysAgreesThroughout(q, run) <==> AllFit(q, run)
    ensures AllFit(q, run) ==> forall outside: int -> int :: After32(q, run, outside) == After(q, run)
    decreases |run|
  {
    if run != [] {
      var at, duration, rest := run[0].at, run[0].duration, run[1..];
      var next := q.Spend(at, duration);
      AgreesExactly(q, at, duration);
      SpendKeepsValid(q, at, duration);
      RunAgreesExactly(next, rest);
      hide Fits, Accepted, Agrees, Spend32, Credit.Spend;
      if Fits(q, at, duration) {
        forall outside: int -> int
          ensures AgreesThroughout(q, run, outside) <==> AgreesThroughout(next, rest, outside)
          ensures After32(q, run, outside) == After32(next, rest, outside)
        {
          assert Agrees(q, at, duration, outside);
          SpendAgrees(q, at, duration, outside);
        }
      } else {
        var outside: int -> int :| !Agrees(q, at, duration, outside);
        assert !AgreesThroughout(q, run, outside);
      }
    }
  }

  lemma SpendAgrees(q: Credit, at: nat, duration: nat, outside: int -> int)
    requires q.Valid() && q.enabled && q.Accepts(at) && Agrees(q, at, duration, outside)
    ensures Spend32(q, at, duration, outside) == q.Spend(at, duration)
  {
  }

  /** So the conservation of credit holds of the driver's 32-bit credit over every run in which conversions fit. */
  lemma NarrowConservation(q: Credit, run: seq<Frame>, outside: int -> int)
    requires q.Valid() && Narrow(q) && q.enabled && Accepted(q, run) && AllFit(q, run)
    ensures var end := After32(q, run, outside);
      && q.lo <= end.credit <= q.hi
      && end.credit == q.credit + q.idleSlope * GapTime(q, run) + q.sendSlope * SendingTime(run)
                       - TotalForgone(q, run) + TotalForgiven(q, run)
  {
    RunAgreesExactly(q, run);
    CreditConservation(q, run);
  }

  // ----- when they fit -----

  /** No gap earns more than the width leaves above the upper bound. */
  predicate ShortGaps(q: Credit, run: seq<Frame>)
    requires q.Configured()
    decreases |run|
  {
    run == [] ||
    (&& (run[0].at - q.lastUpdate) * q.idleSlope <= LARGEST - q.hi
     && ShortGaps(q.Spend(run[0].at, run[0].duration), run[1..]))
  }

  /** Bounds on gaps and frames that a caller can check are enough. */
  lemma {:induction false} ShortGapsFit(q: Credit, run: seq<Frame>, longest: nat)
    requires q.Valid() && Narrow(q) && q.enabled && Accepted(q, run)
    requires ShortGaps(q, run) && UpTo(run, longest) && SMALLEST <= q.lo + longest * q.sendSlope
    ensures AllFit(q, run)
    decreases |run|
  {
    if run != [] {
      var at, duration := run[0].at, run[0].duration;
      SpendKeepsValid(q, at, duration);
      MulNonnegative(at - q.lastUpdate, q.idleSlope);
      CostGrows(duration, longest, q.sendSlope);
      ShortGapsFit(q.Spend(at, duration), run[1..], longest);
      MulNonnegative(duration, -q.sendSlope);
      Negate(q.sendSlope, duration);
      Commute(duration, q.sendSlope);
      Commute(duration, -q.sendSlope);
    }
  }

  /** After a longer silence the credit is lost: where a conversion that does not fit gives the smallest number, as on
      x86, the next frame leaves the class at its lower bound, while without a width it would have started from the
      upper one. With half of a 1 Gbit/s link reserved this takes a silence of 4.3 ms. */
  lemma LongSilenceLosesCredit(q: Credit, at: nat, duration: nat, outside: int -> int)
    requires q.Valid() && Narrow(q) && q.enabled && q.Accepts(at) && (forall x :: outside(x) == SMALLEST)
    requires (at - q.lastUpdate) * q.idleSlope > LARGEST - q.credit
    ensures Spend32(q, at, duration, outside).credit == q.lo
    ensures q.Earned(at) == q.hi && q.Spend(at, duration).credit == Max(q.hi + duration * q.sendSlope, q.lo)
  {
    MulNonnegative(duration, -q.sendSlope);
    Negate(q.sendSlope, duration);
    Commute(duration, q.sendSlope);
    Commute(duration, -q.sendSlope);
  }
}
