/** The credit-based shaper: how sending a frame spends a class's credit and delays its next one. */
module Shaper {
  import opened Arithmetic
  import opened Planner

  /** C's quotient, which is truncated towards zero. */
  function Quotient(a: int, b: int): int
    requires b != 0
  {
    var magnitude := (if a < 0 then -a else a) / (if b < 0 then -b else b);
    if (a < 0) == (b < 0) then magnitude else -magnitude
  }

  /** What the driver adds to the end of a frame for the credit to recover. With a negative slope that is negative. */
  function Wait(credit: int, idleSlope: int): (wait: int)
    requires credit < 0 ==> idleSlope != 0
    ensures idleSlope > 0 ==> wait == if credit < 0 then -credit / idleSlope else 0
  {
    if credit < 0 then -Quotient(credit, idleSlope) else 0
  }

  /** The release time as a 64-bit number. */
  function Release(sendEnd: nat, wait: int): nat {
    if sendEnd + wait >= 0 then sendEnd + wait else (sendEnd + wait) % U64
  }

  /** The state of one class's shaper, as a value. */
  datatype Credit = Credit(
    enabled: bool,
    idleSlope: int,
    sendSlope: int,
    hi: int,
    lo: int,
    credit: int,
    lastUpdate: nat,
    availableAt: nat)
  {
    /** The configuration that the shaper needs. */
    predicate Configured() {
      idleSlope > 0 && sendSlope < 0 && lo <= 0 <= hi
    }

    /** What every step keeps. */
    predicate Valid() {
      && Configured()
      && lo <= credit <= hi
      && lastUpdate <= availableAt
      && availableAt == lastUpdate + Wait(credit, idleSlope)
    }

    /** The configuration lets every frame be released, and not before it ends. This can be seen when the shaper is
        configured: it is off, or it earns credit, or its credit cannot stay negative, or not as much as one
        nanosecond's loss. */
    predicate Releasable() {
      !enabled || idleSlope > 0 || lo >= 0 || (idleSlope < 0 && lo > idleSlope)
    }

    /** All that admission needs. Any credit will do, such as that of a shaper whose bounds were changed while it
        ran. */
    predicate Sound() {
      Releasable() && lastUpdate <= availableAt
    }

    predicate Accepts(at: nat) { at >= lastUpdate && at >= availableAt }

    /** Credit at `at`, before the frame is charged. */
    function Earned(at: int): int {
      Min(credit + (at - lastUpdate) * idleSlope, hi)
    }

    function Charged(at: int, duration: nat): int {
      Max(Earned(at) + duration * sendSlope, lo)
    }

    /** Charging this frame divides by zero. */
    predicate Traps(at: nat, duration: nat) {
      enabled && Accepts(at) && idleSlope == 0 && Charged(at, duration) < 0
    }

    /** Spending for a frame that lasts `duration`. Where the driver traps there is no next state; the function stays
        put. */
    function Spend(at: nat, duration: nat): Credit {
      if !enabled || !Accepts(at) || Traps(at, duration) then this
      else
        var c := Charged(at, duration);
        var sendEnd := at + duration;
        this.(credit := c,
              lastUpdate := sendEnd,
              availableAt := Release(sendEnd, Wait(c, idleSlope)))
    }

    /** Credit forgone at the upper bound. */
    function Forgone(at: int): nat {
      Max(credit + (at - lastUpdate) * idleSlope - hi, 0)
    }

    /** Credit given away by the lower bound. */
    function Forgiven(at: int, duration: nat): nat {
      Max(lo - (Earned(at) + duration * sendSlope), 0)
    }
  }

  /** The shaper as the driver keeps it. */
  class QavState {
    var enabled: bool
    var idleSlope: int
    var sendSlope: int
    var hiCredit: int
    var loCredit: int
    var credit: int
    var lastUpdate: nat
    var availableAt: nat

    constructor ()
      ensures View() == Credit(false, 0, 0, 0, 0, 0, 0, 0)
    {
      enabled := false;
      idleSlope, sendSlope, hiCredit, loCredit, credit := 0, 0, 0, 0, 0;
      lastUpdate, availableAt := 0, 0;
    }

    function View(): Credit
      reads this
    {
      Credit(enabled, idleSlope, sendSlope, hiCredit, loCredit, credit, lastUpdate, availableAt)
    }

    /** Charges a frame of `bytes` bytes sent at `at`. `trapped` says that this divides by zero. */
    method SpendCredit(at: nat, bytes: nat) returns (trapped: bool)
      modifies this
      ensures trapped <==> old(View()).Traps(at, BytesToNs(bytes))
      ensures !trapped ==> View() == old(View()).Spend(at, BytesToNs(bytes))
    {
      if !enabled {
        return false;
      }
      if at < lastUpdate || at < availableAt {
        return false;
      }
      var elapsed := at - lastUpdate;
      credit := credit + elapsed * idleSlope;
      if credit > hiCredit {
        credit := hiCredit;
      }
      assert credit == old(View()).Earned(at);
      var sendingDuration := BytesToNs(bytes);
      credit := credit + sendingDuration * sendSlope;
      if credit < loCredit {
        credit := loCredit;
      }
      assert credit == old(View()).Charged(at, sendingDuration);
      var sendEnd := at + sendingDuration;
      lastUpdate := sendEnd;
      if credit < 0 {
        if idleSlope == 0 {
          return true;
        }
        availableAt := Release(sendEnd, -Quotient(credit, idleSlope));
      } else {
        availableAt := sendEnd;
      }
      return false;
    }
  }

  // ----- one step -----

  /** At the release time the credit has recovered to within one nanosecond of zero: it is above
      minus the idle slope, and it would not have been one nanosecond earlier unless never negative. */
  lemma RecoveredAtRelease(q: Credit, at: nat)
    requires q.Valid() && at >= q.availableAt
    ensures q.Earned(at) > -q.idleSlope
    ensures q.credit < 0 && q.availableAt > q.lastUpdate ==> q.Earned(q.availableAt - 1) <= -q.idleSlope
  {
    if q.credit < 0 {
      var wait := q.availableAt - q.lastUpdate;
      var r := -q.credit % q.idleSlope;
      assert -q.credit == wait * q.idleSlope + r;
      var more := at - q.availableAt;
      MulNonnegative(more, q.idleSlope);
      assert (wait + more) * q.idleSlope == wait * q.idleSlope + more * q.idleSlope;
      assert (wait - 1) * q.idleSlope == wait * q.idleSlope - q.idleSlope;
    } else {
      MulNonnegative(at - q.lastUpdate, q.idleSlope);
    }
  }

  /** Every accepted frame keeps the invariant, and the next one starts after it ends. */
  lemma SpendKeepsValid(q: Credit, at: nat, duration: nat)
    requires q.Valid() && q.enabled && q.Accepts(at)
    ensures var q' := q.Spend(at, duration);
      && q'.Valid() && q'.availableAt >= at + duration
      && q'.enabled && q'.idleSlope == q.idleSlope && q'.sendSlope == q.sendSlope
      && q'.hi == q.hi && q'.lo == q.lo
  {
    SpendFromSound(q, at, duration);
  }

  /** A releasable shaper never waits a negative time, and never divides by zero. */
  lemma WaitIsNatural(credit: int, q: Credit)
    requires q.enabled && q.Releasable() && credit >= q.lo
    ensures credit < 0 ==> q.idleSlope != 0
    ensures Wait(credit, q.idleSlope) >= 0
  {
  }

  /** From any sound state, whatever its credit, an accepted frame does not trap and leads to a sound state that is
      released no earlier than the frame ends; with sensible bounds, it is one that obeys them. */
  lemma SpendFromSound(q: Credit, at: nat, duration: nat)
    requires q.Sound() && q.enabled && q.Accepts(at)
    ensures !q.Traps(at, duration)
    ensures var q' := q.Spend(at, duration);
      && q'.Sound() && q'.lastUpdate == at + duration
      && q'.enabled && q'.idleSlope == q.idleSlope && q'.sendSlope == q.sendSlope
      && q'.hi == q.hi && q'.lo == q.lo
      && (q.Configured() ==> q'.Valid())
  {
    WaitIsNatural(q.Charged(at, duration), q);
    if q.Configured() {
      SpendKeepsBounds(q, at, duration);
    }
  }

  lemma SpendKeepsBounds(q: Credit, at: nat, duration: nat)
    requires q.Configured()
    ensures q.lo <= q.Charged(at, duration) <= q.hi
  {
    MulNonnegative(duration, -q.sendSlope);
    assert duration * q.sendSlope == -(duration * -q.sendSlope);
  }

  /** The shaper in another state. */
  function InState(q: Credit, credit: int, last: nat, available: nat): Credit {
    q.(credit := credit, lastUpdate := last, availableAt := available)
  }

  /** Charging the frame does not trap, and the release is no earlier than the end of the frame. */
  predicate ReleasedInOrder(q: Credit, at: nat, duration: nat) {
    !q.Traps(at, duration) && q.Spend(at, duration).availableAt >= q.Spend(at, duration).lastUpdate
  }

  ghost predicate AlwaysReleasedInOrder(q: Credit) {
    forall credit: int, last: nat, available: nat, at: nat, duration: nat ::
      last <= available <= at ==> ReleasedInOrder(InState(q, credit, last, available), at, duration)
  }

  /** A state from which an unreleasable shaper comes out at its lower bound, with so late a start that the release
      is not below zero. */
  function Lowest(q: Credit, duration: nat): Credit {
    var credit := q.lo - Max(0, duration * q.sendSlope);
    var last := 100_000 + Max(0, -q.lo);
    InState(q, credit, last, last)
  }

  lemma LowestGoesWrong(q: Credit, duration: nat)
    requires !q.Releasable()
    ensures var s := Lowest(q, duration);
      && s.Accepts(s.lastUpdate) && s.Charged(s.lastUpdate, duration) == q.lo
      && (q.idleSlope == 0 ==> s.Traps(s.lastUpdate, duration))
      && (q.idleSlope < 0 ==> s.Spend(s.lastUpdate, duration).availableAt < s.lastUpdate + duration)
  {
    var s := Lowest(q, duration);
    var at := s.lastUpdate;
    assert (at - s.lastUpdate) * q.idleSlope == 0;
    if q.idleSlope < 0 {
      QuotientPositive(-q.lo, -q.idleSlope);
    }
  }

  lemma QuotientPositive(a: nat, b: nat)
    requires 0 < b <= a
    ensures 1 <= a / b <= a
  {
    ModUnique(a, a / b, a % b, b);
    MulNonnegative(b - 1, a / b);
    Distribute(a / b, b - 1, 1);
  }

  /** Frames are released in order from every state and for every frame exactly when the configuration is
      releasable. */
  lemma ReleasableExact(q: Credit)
    requires q.enabled
    ensures AlwaysReleasedInOrder(q) <==> q.Releasable()
  {
    if q.Releasable() {
      forall credit: int, last: nat, available: nat, at: nat, duration: nat | last <= available <= at
        ensures ReleasedInOrder(InState(q, credit, last, available), at, duration)
      {
        SpendFromSound(InState(q, credit, last, available), at, duration);
      }
    } else {
      LowestGoesWrong(q, 480);
      var s := Lowest(q, 480);
      assert !ReleasedInOrder(InState(q, s.credit, s.lastUpdate, s.lastUpdate), s.lastUpdate, 480);
    }
  }

  // ----- whole runs -----

  datatype Frame = Frame(at: nat, duration: nat)

  /** Every frame of the run is sent no earlier than its release time. */
  predicate Accepted(q: Credit, run: seq<Frame>)
    requires q.Configured()
    decreases |run|
  {
    run == [] || (q.Accepts(run[0].at) && Accepted(q.Spend(run[0].at, run[0].duration), run[1..]))
  }

  function After(q: Credit, run: seq<Frame>): Credit
    requires q.Configured()
    decreases |run|
  {
    if run == [] then q else After(q.Spend(run[0].at, run[0].duration), run[1..])
  }

  function SendingTime(run: seq<Frame>): nat {
    if run == [] then 0 else run[0].duration + SendingTime(run[1..])
  }

  /** Time spent not sending, counted from the state's last update. */
  function GapTime(q: Credit, run: seq<Frame>): int
    requires q.Configured()
    decreases |run|
  {
    if run == [] then 0
    else run[0].at - q.lastUpdate + GapTime(q.Spend(run[0].at, run[0].duration), run[1..])
  }

  function TotalForgone(q: Credit, run: seq<Frame>): nat
    requires q.Configured()
    decreases |run|
  {
    if run == [] then 0
    else q.Forgone(run[0].at) + TotalForgone(q.Spend(run[0].at, run[0].duration), run[1..])
  }

  function TotalForgiven(q: Credit, run: seq<Frame>): nat
    requires q.Configured()
    decreases |run|
  {
    if run == [] then 0
    else q.Forgiven(run[0].at, run[0].duration)
         + TotalForgiven(q.Spend(run[0].at, run[0].duration), run[1..])
  }

  /** One step's account. */
  lemma SpendAccount(q: Credit, at: nat, duration: nat)
    requires q.Valid() && q.enabled && q.Accepts(at)
    ensures q.Spend(at, duration).credit
            == q.credit + q.idleSlope * (at - q.lastUpdate) + q.sendSlope * duration
               - q.Forgone(at) + q.Forgiven(at, duration)
  {
    Commute(at - q.lastUpdate, q.idleSlope);
    Commute(duration, q.sendSlope);
  }

  /** Conservation of credit: over any accepted run, the final credit is the initial one plus what the
      gaps earned and the lower bound forgave, minus what sending cost and the upper bound cut. */
  lemma {:induction false} CreditConservation(q: Credit, run: seq<Frame>)
    requires q.Valid() && q.enabled && Accepted(q, run)
    ensures var end := After(q, run);
      && end.Valid() && end.hi == q.hi && end.lo == q.lo
      && end.credit == q.credit + q.idleSlope * GapTime(q, run) + q.sendSlope * SendingTime(run)
                       - TotalForgone(q, run) + TotalForgiven(q, run)
      && end.lastUpdate == q.lastUpdate + GapTime(q, run) + SendingTime(run)
    decreases |run|
  {
    if run != [] {
      var at, duration := run[0].at, run[0].duration;
      SpendKeepsValid(q, at, duration);
      SpendAccount(q, at, duration);
      var q1 := q.Spend(at, duration);
      CreditConservation(q1, run[1..]);
      Distribute(q.idleSlope, at - q.lastUpdate, GapTime(q1, run[1..]));
      Distribute(q.sendSlope, duration, SendingTime(run[1..]));
    }
  }

  /** The lower bound is low enough for frames of up to `longest` nanoseconds. */
  predicate Deep(q: Credit, longest: nat) {
    q.lo <= 1 - q.idleSlope + longest * q.sendSlope
  }

  predicate UpTo(run: seq<Frame>, longest: nat) {
    forall i :: 0 <= i < |run| ==> run[i].duration <= longest
  }

  lemma DeepForgivesNothing(q: Credit, at: nat, duration: nat, longest: nat)
    requires q.Valid() && q.Accepts(at) && duration <= longest && Deep(q, longest)
    ensures q.Forgiven(at, duration) == 0
  {
    RecoveredAtRelease(q, at);
    CostGrows(duration, longest, q.sendSlope);
  }

  lemma CostGrows(duration: nat, longest: nat, sendSlope: int)
    requires duration <= longest && sendSlope < 0
    ensures longest * sendSlope <= duration * sendSlope
  {
    MulNonnegative(longest - duration, -sendSlope);
    Distribute(sendSlope, longest - duration, duration);
    Negate(sendSlope, longest - duration);
  }

  lemma {:induction false} NothingForgiven(q: Credit, run: seq<Frame>, longest: nat)
    requires q.Valid() && q.enabled && Accepted(q, run) && UpTo(run, longest) && Deep(q, longest)
    ensures TotalForgiven(q, run) == 0
    decreases |run|
  {
    if run != [] {
      var at, duration := run[0].at, run[0].duration;
      DeepForgivesNothing(q, at, duration, longest);
      SpendKeepsValid(q, at, duration);
      NothingForgiven(q.Spend(at, duration), run[1..], longest);
    }
  }

  /** The bandwidth bound of the shaper, for every accepted run of frames for which the lower bound is
      deep enough: what sending costs never exceeds the credit range plus what the gaps earn. In terms
      of the share of the link, the second form relates sending time to the time that went by. */
  lemma BandwidthBound(q: Credit, run: seq<Frame>, longest: nat)
    requires q.Valid() && q.enabled && Accepted(q, run) && UpTo(run, longest) && Deep(q, longest)
    ensures -q.sendSlope * SendingTime(run) <= q.hi - q.lo + q.idleSlope * GapTime(q, run)
    ensures (q.idleSlope - q.sendSlope) * SendingTime(run)
            <= q.hi - q.lo + q.idleSlope * (After(q, run).lastUpdate - q.lastUpdate)
  {
    CreditConservation(q, run);
    NothingForgiven(q, run, longest);
    var sent, gap := SendingTime(run), GapTime(q, run);
    Negate(q.sendSlope, sent);
    assert -q.sendSlope * sent <= q.hi - q.lo + q.idleSlope * gap;
    assert (q.idleSlope - q.sendSlope) * sent == q.idleSlope * sent + -q.sendSlope * sent by {
      Distribute(sent, q.idleSlope, -q.sendSlope);
    }
    Distribute(q.idleSlope, gap, sent);
  }

  /** Charged starts of one class are at least a frame apart. */
  lemma {:induction false} StartsApart(q: Credit, run: seq<Frame>, i: nat)
    requires q.Valid() && q.enabled && Accepted(q, run) && i + 1 < |run|
    ensures run[i].at + run[i].duration <= run[i + 1].at
    decreases i
  {
    var q1 := q.Spend(run[0].at, run[0].duration);
    SpendKeepsValid(q, run[0].at, run[0].duration);
    if i > 0 {
      StartsApart(q1, run[1..], i - 1);
    }
  }

  /** The state with the same configuration and the given credit, last updated at `last`. */
  function Having(q: Credit, credit: int, last: nat): Credit
    requires q.Configured()
  {
    q.(credit := credit,
       lastUpdate := last,
       availableAt := last + Wait(credit, q.idleSlope))
  }

  ghost predicate NeverForgives(q: Credit, longest: nat)
    requires q.Configured()
  {
    forall c: int, last: nat, at: nat, d: nat ::
      Having(q, c, last).Valid() && Having(q, c, last).Accepts(at) && d <= longest ==>
      Having(q, c, last).Forgiven(at, d) == 0
  }

  /** From no valid state does the lower bound forgive credit, for any frame of at most `longest`
      nanoseconds, exactly when it is deep enough. */
  lemma DeepIffNeverForgives(q: Credit, longest: nat)
    requires q.Configured() && q.enabled && longest > 0
    ensures NeverForgives(q, longest) <==> Deep(q, longest)
  {
    if Deep(q, longest) {
      forall c: int, last: nat, at: nat, d: nat |
        Having(q, c, last).Valid() && Having(q, c, last).Accepts(at) && d <= longest
        ensures Having(q, c, last).Forgiven(at, d) == 0
      {
        DeepForgivesNothing(Having(q, c, last), at, d, longest);
      }
    } else {
      ShallowForgives(q, longest);
    }
  }

  lemma ShallowForgives(q: Credit, longest: nat)
    requires q.Configured() && q.enabled && longest > 0 && !Deep(q, longest)
    ensures !NeverForgives(q, longest)
  {
    var c := Max(q.lo, 1 - q.idleSlope);
    var s := Having(q, c, 0);
    assert s.Earned(0) == c;
    CostGrows(1, longest, q.sendSlope);
    assert s.Valid() && s.Accepts(0) && s.Forgiven(0, longest) > 0;
  }

  /** `n` frames of `duration`, back to back. */
  function BackToBack(at: nat, duration: nat, n: nat): (run: seq<Frame>)
    ensures |run| == n
    decreases n
  {
    if n == 0 then [] else [Frame(at, duration)] + BackToBack(at + duration, duration, n - 1)
  }

  lemma ShallowReleasesAtOnce(q: Credit)
    requires q.Valid() && q.lo > -q.idleSlope
    ensures q.availableAt == q.lastUpdate
  {
  }

  /** With a lower bound above minus the idle slope the shaper holds nothing back: any number of frames
      is accepted without a gap, so no bound on the sending time survives. */
  lemma {:induction false} ShallowNeverWaits(q: Credit, duration: nat, n: nat)
    requires q.Valid() && q.enabled && q.lo > -q.idleSlope
    ensures var run := BackToBack(q.lastUpdate, duration, n);
      && Accepted(q, run) && GapTime(q, run) == 0 && SendingTime(run) == n * duration
      && (duration > 0 && n > q.hi - q.lo ==>
            -q.sendSlope * SendingTime(run) > q.hi - q.lo + q.idleSlope * GapTime(q, run))
    decreases n
  {
    ShallowReleasesAtOnce(q);
    if duration > 0 {
      MulNonnegative(-q.sendSlope - 1, n * duration);
      MulNonnegative(duration - 1, n);
      assert -q.sendSlope * (n * duration) == (-q.sendSlope - 1) * (n * duration) + n * duration;
      assert n * duration == (duration - 1) * n + n;
    }
    if n > 0 {
      var q1 := q.Spend(q.lastUpdate, duration);
      SpendKeepsValid(q, q.lastUpdate, duration);
      ShallowNeverWaits(q1, duration, n - 1);
      var rest := BackToBack(q1.lastUpdate, duration, n - 1);
      assert BackToBack(q.lastUpdate, duration, n)[1..] == rest;
      Distribute(duration, n - 1, 1);
    }
  }
}
