/** Exactly when the shaper's bandwidth bound holds. Where the lower clamp bites, credit is forgiven; whether
    that breaks the bound depends on how the slopes divide the range of the credit. */
module Bandwidth {
  import opened Arithmetic
  import opened Admission
  import opened Planner
  import opened Schedule
  import opened Shaper

  // ----- greatest common divisors -----

  function Gcd(a: nat, b: nat): (g: nat)
    requires a > 0 && b > 0
    ensures 0 < g <= a && g <= b
    decreases a + b
  {
    if a == b then a else if a < b then Gcd(a, b - a) else Gcd(a - b, b)
  }

  lemma {:induction false} GcdDivides(a: nat, b: nat) returns (x: nat, y: nat)
    requires a > 0 && b > 0
    ensures a == x * Gcd(a, b) && b == y * Gcd(a, b)
    decreases a + b
  {
    var g := Gcd(a, b);
    if a == b {
      x, y := 1, 1;
    } else if a < b {
      x, y := GcdDivides(a, b - a);
      hide Gcd;
      Distribute(g, x, y);
      y := x + y;
    } else {
      x, y := GcdDivides(a - b, b);
      hide Gcd;
      Distribute(g, x, y);
      x := x + y;
    }
  }

  lemma {:induction false} Bezout(a: nat, b: nat) returns (x: int, y: int)
    requires a > 0 && b > 0
    ensures a * x + b * y == Gcd(a, b)
    decreases a + b
  {
    if a == b {
      x, y := 1, 0;
    } else if a < b {
      x, y := Bezout(a, b - a);
      assert a * (x - y) + b * y == a * x + (b - a) * y;
      x := x - y;
    } else {
      x, y := Bezout(a - b, b);
      assert a * x + b * (y - x) == (a - b) * x + b * y;
      y := y - x;
    }
  }

  // ----- the bound -----

  /** The frames of a class: from `shortest` to `longest` units, each of which takes `unit` nanoseconds. */
  datatype Sizes = Sizes(unit: nat, shortest: nat, longest: nat)
  {
    predicate Sensible() { unit > 0 && 0 < shortest <= longest }

    predicate Fits(size: nat) { shortest <= size <= longest }

    ghost predicate Allows(duration: nat) {
      exists size: nat :: Fits(size) && duration == unit * size
    }

    /** All frames of the same size can only be told apart by their number. */
    function Stride(): nat { if shortest < longest then 1 else longest }
  }

  ghost predicate Allowed(run: seq<Frame>, sizes: Sizes) {
    forall i :: 0 <= i < |run| ==> sizes.Allows(run[i].duration)
  }

  /** What sending costs never exceeds the credit range plus what the gaps earn. */
  predicate Bounded(q: Credit, run: seq<Frame>)
    requires q.Configured()
  {
    -q.sendSlope * SendingTime(run) <= q.hi - q.lo + q.idleSlope * GapTime(q, run)
  }

  /** The bound holds for every run from every valid state with this configuration. */
  ghost predicate AlwaysBounded(q: Credit, sizes: Sizes)
    requires q.Configured()
  {
    forall credit: int, last: nat, run: seq<Frame> ::
      var start := Having(q, credit, last);
      start.Valid() && Accepted(start, run) && Allowed(run, sizes) ==> Bounded(start, run)
  }

  /** What a frame of one unit costs. */
  function UnitCost(q: Credit, sizes: Sizes): (cost: int)
    requires q.Configured() && sizes.Sensible()
    ensures cost > 0
  {
    MulNonnegative(-q.sendSlope - 1, sizes.unit);
    assert -q.sendSlope * sizes.unit == (-q.sendSlope - 1) * sizes.unit + sizes.unit;
    -q.sendSlope * sizes.unit
  }

  /** The grid on which credit moves while no clamp bites. */
  function Grid(q: Credit, sizes: Sizes): (g: nat)
    requires q.Configured() && sizes.Sensible()
    ensures 0 < g <= q.idleSlope
  {
    var cost := UnitCost(q, sizes);
    MulNonnegative(cost - 1, sizes.Stride());
    assert cost * sizes.Stride() == (cost - 1) * sizes.Stride() + sizes.Stride();
    Gcd(q.idleSlope, cost * sizes.Stride())
  }

  /** How far below the lower bound a frame can take the credit. */
  function Overhang(q: Credit, sizes: Sizes): int
    requires q.Configured() && sizes.Sensible()
  {
    q.lo - 1 + q.idleSlope + UnitCost(q, sizes) * sizes.longest
  }

  /** The overhang and what the range leaves on the grid stay below one grid step. */
  predicate Tight(q: Credit, sizes: Sizes)
    requires q.Configured() && sizes.Sensible()
  {
    Overhang(q, sizes) + (q.hi - q.lo) % Grid(q, sizes) < Grid(q, sizes)
  }

  // ----- where the bound holds -----

  lemma DivMonotone(x: int, y: int, g: nat)
    requires g > 0 && x <= y
    ensures x / g <= y / g
  {
    var d := x / g - y / g;
    Distribute(g, d - 1, 1);
    Distribute(g, y / g, d);
    if d > 0 {
      MulNonnegative(d - 1, g);
    }
  }

  lemma DivShift(x: int, k: int, y: int, g: nat)
    requires g > 0 && y == x + k * g
    ensures y / g == x / g + k
  {
    assert y == (x / g + k) * g + x % g;
    ModUnique(y, x / g + k, x % g, g);
  }

  /** The cell of the grid that a credit lies in. */
  function Cell(credit: int, floor: int, g: nat): int
    requires g > 0
  {
    (credit - floor) / g
  }

  /** One step: the cell of the credit moves by what was earned and spent, or loses at the upper clamp. The lower
      clamp stays inside the lowest cell. */
  lemma CellStep(q: Credit, at: nat, duration: nat, g: nat, floor: int, earned: int, spent: int)
    requires q.Valid() && q.enabled && q.Accepts(at) && g > 0
    requires (at - q.lastUpdate) * q.idleSlope == earned * g && duration * q.sendSlope == -spent * g
    requires floor <= q.lo < floor + g && q.Earned(at) + duration * q.sendSlope >= floor
    ensures Cell(q.Spend(at, duration).credit, floor, g) <= Cell(q.credit, floor, g) + earned - spent
  {
    var c1, e := q.credit + earned * g, q.Earned(at);
    var c2 := e + -spent * g;
    DivShift(q.credit - floor, earned, c1 - floor, g);
    DivMonotone(e - floor, c1 - floor, g);
    DivShift(e - floor, -spent, c2 - floor, g);
    var c := q.Spend(at, duration).credit;
    if c2 < q.lo {
      ModUnique(c2 - floor, 0, c2 - floor, g);
      ModUnique(c - floor, 0, c - floor, g);
    }
  }

  lemma Swap(a: int, b: int, c: int)
    ensures a * b * c == a * c * b
  {
  }

  /** The cost of every allowed size is on the grid. */
  lemma SizeOnGrid(sizes: Sizes, cost: nat, size: nat, g: nat, strides: nat) returns (spent: nat)
    requires sizes.Sensible() && sizes.Fits(size) && cost * sizes.Stride() == strides * g
    ensures cost * size == spent * g
  {
    if sizes.shortest < sizes.longest {
      spent := strides * size;
      Swap(strides, g, size);
    } else {
      spent := strides;
    }
  }

  /** What sending for `duration` costs is on the grid, and no more than the most costly frame. */
  predicate Gridded(duration: nat, sendSlope: int, g: nat, most: int)
    requires g > 0
  {
    duration * sendSlope >= -most && duration * sendSlope % g == 0
  }

  /** The slopes are on the grid. */
  lemma OnGrid(q: Credit, sizes: Sizes) returns (idle: nat, strides: nat)
    requires q.Configured() && sizes.Sensible()
    ensures q.idleSlope == idle * Grid(q, sizes)
    ensures UnitCost(q, sizes) * sizes.Stride() == strides * Grid(q, sizes)
  {
    var cost := UnitCost(q, sizes);
    MulNonnegative(cost - 1, sizes.Stride());
    Distribute(sizes.Stride(), cost - 1, 1);
    idle, strides := GcdDivides(q.idleSlope, cost * sizes.Stride());
  }

  lemma DurationOnGrid(q: Credit, sizes: Sizes, duration: nat)
    requires q.Configured() && sizes.Sensible() && sizes.Allows(duration)
    ensures Gridded(duration, q.sendSlope, Grid(q, sizes), UnitCost(q, sizes) * sizes.longest)
  {
    var size: nat :| sizes.Fits(size) && duration == sizes.unit * size;
    var g, cost := Grid(q, sizes), UnitCost(q, sizes);
    var _, strides := OnGrid(q, sizes);
    FrameCost(q, sizes, size);
    hide Grid, UnitCost;
    var spent: int := SizeOnGrid(sizes, cost, size, g, strides);
    Negate(spent, g);
    ModUnique(-(cost * size), -spent, 0, g);
    Commute(cost, size);
    Commute(cost, sizes.longest);
    ScaleAtMost(size, sizes.longest, cost);
  }

  /** What one frame does to the credit's cell. */
  lemma FrameAccount(q: Credit, at: nat, duration: nat, g: nat, idle: nat, floor: int, most: int, earned: int,
                     spent: int)
    requires q.Valid() && q.enabled && q.Accepts(at) && g > 0
    requires q.idleSlope == idle * g && floor <= q.lo < floor + g && floor == 1 - q.idleSlope - most
    requires Gridded(duration, q.sendSlope, g, most)
    requires earned == (at - q.lastUpdate) * idle && spent == -(duration * q.sendSlope / g)
    ensures (at - q.lastUpdate) * q.idleSlope == earned * g && duration * q.sendSlope == -spent * g
    ensures Cell(q.Spend(at, duration).credit, floor, g) <= Cell(q.credit, floor, g) + earned - spent
  {
    RecoveredAtRelease(q, at);
    Regroup(at - q.lastUpdate, idle, g);
    var cost := duration * q.sendSlope;
    assert cost == cost / g * g;
    CellStep(q, at, duration, g, floor, earned, spent);
  }

  lemma {:induction false} CellAccount(q: Credit, run: seq<Frame>, g: nat, idle: nat, floor: int, most: int)
    requires q.Valid() && q.enabled && Accepted(q, run) && g > 0
    requires q.idleSlope == idle * g && floor <= q.lo < floor + g && floor == 1 - q.idleSlope - most
    requires forall i :: 0 <= i < |run| ==> Gridded(run[i].duration, q.sendSlope, g, most)
    ensures var end := After(q, run);
      && end.Valid() && end.hi == q.hi && end.lo == q.lo
      && -q.sendSlope * SendingTime(run) - q.idleSlope * GapTime(q, run)
         <= (Cell(q.credit, floor, g) - Cell(end.credit, floor, g)) * g
    decreases |run|
  {
    hide Cell, Gridded;
    if run != [] {
      var at, duration := run[0].at, run[0].duration;
      var gap, cost := at - q.lastUpdate, duration * q.sendSlope;
      var earned, spent := gap * idle, -(cost / g);
      assert Gridded(duration, q.sendSlope, g, most);
      SpendKeepsValid(q, at, duration);
      FrameAccount(q, at, duration, g, idle, floor, most, earned, spent);
      var q1, end := q.Spend(at, duration), After(q, run);
      CellAccount(q1, run[1..], g, idle, floor, most);
      var d, d1, d2 := Cell(q.credit, floor, g), Cell(q1.credit, floor, g), Cell(end.credit, floor, g);
      CellSums(q, q1, run, gap, cost, earned, spent, d, d1, d2, g);
    }
  }

  lemma CellSums(q: Credit, q1: Credit, run: seq<Frame>, gap: int, cost: int, earned: int, spent: int,
                 d: int, d1: int, d2: int, g: nat)
    requires q.Configured() && (q.enabled ==> q.idleSlope > 0) && run != []
    requires q1 == q.Spend(run[0].at, run[0].duration) && gap == run[0].at - q.lastUpdate
    requires cost == run[0].duration * q.sendSlope == -spent * g && gap * q.idleSlope == earned * g
    requires -q.sendSlope * SendingTime(run[1..]) - q.idleSlope * GapTime(q1, run[1..]) <= (d1 - d2) * g
    requires d1 <= d + earned - spent
    ensures -q.sendSlope * SendingTime(run) - q.idleSlope * GapTime(q, run) <= (d - d2) * g
  {
    Negate(spent, g);
    RunCost(q, q1, run, gap, cost, spent * g - earned * g, (d1 - d2) * g);
    CellSum(d, d1, d2, earned, spent, g);
  }

  lemma Regroup(gap: nat, idle: nat, g: nat)
    ensures gap * (idle * g) == gap * idle * g
  {
  }

  /** Cost of the first frame and of the rest. */
  lemma RunCost(q: Credit, q1: Credit, run: seq<Frame>, gap: int, cost: int, first: int, rest: int)
    requires q.Configured() && (q.enabled ==> q.idleSlope > 0) && run != []
    requires q1 == q.Spend(run[0].at, run[0].duration) && gap == run[0].at - q.lastUpdate
    requires cost == run[0].duration * q.sendSlope && first == -cost - gap * q.idleSlope
    requires -q.sendSlope * SendingTime(run[1..]) - q.idleSlope * GapTime(q1, run[1..]) <= rest
    ensures -q.sendSlope * SendingTime(run) - q.idleSlope * GapTime(q, run) <= first + rest
  {
    var sent, gaps := SendingTime(run[1..]), GapTime(q1, run[1..]);
    Distribute(-q.sendSlope, run[0].duration, sent);
    Distribute(q.idleSlope, gap, gaps);
    Negate(q.sendSlope, run[0].duration);
    Commute(q.sendSlope, run[0].duration);
    Commute(q.idleSlope, gap);
  }

  lemma CellSum(d: int, d1: int, d2: int, earned: int, spent: int, g: nat)
    requires d1 <= d + earned - spent
    ensures spent * g - earned * g + (d1 - d2) * g <= (d - d2) * g
  {
    ScaleAtMost(d1 - d2 + spent - earned, d - d2, g);
    Distribute(g, d1 - d2, spent - earned);
    Distribute(g, spent, -earned);
    Negate(earned, g);
  }

  lemma ScaleAtMost(x: int, y: int, g: nat)
    requires x <= y
    ensures x * g <= y * g
  {
    MulNonnegative(y - x, g);
    Distribute(g, x, y - x);
  }

  lemma TightIsBounded(q: Credit, sizes: Sizes, run: seq<Frame>)
    requires q.Valid() && q.enabled && sizes.Sensible() && Tight(q, sizes)
    requires Accepted(q, run) && Allowed(run, sizes)
    ensures Bounded(q, run)
  {
    if Overhang(q, sizes) <= 0 {
      DeepIsBounded(q, sizes, run);
    } else {
      var g, most := Grid(q, sizes), UnitCost(q, sizes) * sizes.longest;
      var idle, _ := OnGrid(q, sizes);
      forall i | 0 <= i < |run| ensures Gridded(run[i].duration, q.sendSlope, g, most) {
        assert sizes.Allows(run[i].duration);
        DurationOnGrid(q, sizes, run[i].duration);
      }
      var range := q.hi - q.lo;
      ModUnique(range % g, 0, range % g, g);
      assert Overhang(q, sizes) == q.lo - 1 + q.idleSlope + most < g;
      hide Grid, UnitCost, Overhang, Tight, Gridded;
      GridIsBounded(q, run, g, idle, 1 - q.idleSlope - most, most);
    }
  }

  lemma DeepIsBounded(q: Credit, sizes: Sizes, run: seq<Frame>)
    requires q.Valid() && q.enabled && sizes.Sensible() && Overhang(q, sizes) <= 0
    requires Accepted(q, run) && Allowed(run, sizes)
    ensures Bounded(q, run)
  {
    var longest := sizes.unit * sizes.longest;
    forall i | 0 <= i < |run| ensures run[i].duration <= longest {
      assert sizes.Allows(run[i].duration);
      var size: nat :| sizes.Fits(size) && run[i].duration == sizes.unit * size;
      Commute(sizes.unit, size);
      Commute(sizes.unit, sizes.longest);
      ScaleAtMost(size, sizes.longest, sizes.unit);
    }
    FrameCost(q, sizes, sizes.longest);
    BandwidthBound(q, run, longest);
  }

  lemma GridIsBounded(q: Credit, run: seq<Frame>, g: nat, idle: nat, floor: int, most: int)
    requires q.Valid() && q.enabled && Accepted(q, run) && g > 0
    requires q.idleSlope == idle * g && floor <= q.lo < floor + g && floor == 1 - q.idleSlope - most
    requires forall i :: 0 <= i < |run| ==> Gridded(run[i].duration, q.sendSlope, g, most)
    requires q.lo - floor + (q.hi - q.lo) % g < g
    ensures Bounded(q, run)
  {
    CellAccount(q, run, g, idle, floor, most);
    var range, end := q.hi - q.lo, After(q, run).credit;
    CellsOfRange(q.credit, end, q.lo, q.hi, floor, g);
    hide Cell;
    ScaleAtMost(Cell(q.credit, floor, g) - Cell(end, floor, g), range / g, g);
  }

  /** Between two credits in the range there are no more cells than the range has whole grid steps. */
  lemma CellsOfRange(top: int, bottom: int, lo: int, hi: int, floor: int, g: nat)
    requires g > 0 && floor <= lo <= bottom && top <= hi && lo <= hi
    requires lo - floor + (hi - lo) % g < g
    ensures Cell(top, floor, g) - Cell(bottom, floor, g) <= (hi - lo) / g
    ensures (hi - lo) / g * g <= hi - lo
  {
    var range := hi - lo;
    DivMonotone(lo - floor, bottom - floor, g);
    DivMonotone(top - floor, hi - floor, g);
    assert range == range / g * g + range % g;
    ModUnique(lo - floor, 0, lo - floor, g);
    ModUnique(hi - floor, range / g, range % g + (lo - floor), g);
  }

  // ----- where it fails -----

  /** The credit at the release that follows a credit of `u`. */
  function Settle(u: int, idle: nat): int
    requires idle > 0
  {
    if u < 0 then -(-u % idle) else u
  }

  lemma SettledAtRelease(q: Credit)
    requires q.Valid()
    ensures q.Earned(q.availableAt) == Settle(q.credit, q.idleSlope)
    ensures (q.availableAt - q.lastUpdate) * q.idleSlope == Settle(q.credit, q.idleSlope) - q.credit
  {
    if q.credit < 0 {
      var debt := -q.credit;
      assert debt == debt / q.idleSlope * q.idleSlope + debt % q.idleSlope;
    }
  }

  /** Settling in between makes no difference to where the credit settles in the end. */
  lemma SettleTwice(u: int, spent: nat, idle: nat)
    requires idle > 0
    ensures Settle(Settle(u, idle) - spent, idle) == Settle(u - spent, idle)
  {
    if u < 0 {
      var debt := -u;
      var q, r := debt / idle, debt % idle;
      assert debt + spent == q * idle + (r + spent);
      var q2, r2 := (r + spent) / idle, (r + spent) % idle;
      assert debt + spent == (q + q2) * idle + r2;
      ModUnique(debt + spent, q + q2, r2, idle);
    }
  }

  function Sum(path: seq<nat>): nat {
    if path == [] then 0 else path[0] + Sum(path[1..])
  }

  predicate AllFit(path: seq<nat>, sizes: Sizes) {
    forall i :: 0 <= i < |path| ==> sizes.Fits(path[i])
  }

  /** A frame of the given size, sent at the release time. */
  function Next(q: Credit, sizes: Sizes, size: nat): Frame {
    Frame(q.availableAt, sizes.unit * size)
  }

  lemma FrameCost(q: Credit, sizes: Sizes, size: nat)
    requires q.Configured() && sizes.Sensible() && sizes.Fits(size)
    ensures sizes.Allows(sizes.unit * size)
    ensures (sizes.unit * size) * q.sendSlope == -(UnitCost(q, sizes) * size)
    ensures -q.sendSlope * (sizes.unit * size) == UnitCost(q, sizes) * size
  {
    assert UnitCost(q, sizes) * size == -q.sendSlope * sizes.unit * size;
    Negate(q.sendSlope, sizes.unit * size);
  }

  /** A run whose cost goes beyond what the credit can fall. */
  ghost predicate Breaks(q: Credit, sizes: Sizes, run: seq<Frame>)
    requires q.Configured()
  {
    && Accepted(q, run) && Allowed(run, sizes)
    && -q.sendSlope * SendingTime(run) - q.idleSlope * GapTime(q, run) > q.credit - q.lo
  }

  /** A frame that would take the credit below its lower bound breaks it at once. */
  lemma BreakNow(q: Credit, sizes: Sizes, size: nat) returns (run: seq<Frame>)
    requires q.Valid() && q.enabled && sizes.Sensible() && sizes.Fits(size)
    requires Settle(q.credit, q.idleSlope) - UnitCost(q, sizes) * size < q.lo
    ensures Breaks(q, sizes, run)
  {
    var frame := Next(q, sizes, size);
    run := [frame];
    SettledAtRelease(q);
    FrameCost(q, sizes, size);
    assert run[1..] == [];
    assert SendingTime(run) == frame.duration && GapTime(q, run) == q.availableAt - q.lastUpdate;
    Commute(q.idleSlope, q.availableAt - q.lastUpdate);
  }

  /** Otherwise the rest of the run goes on from the new credit. */
  lemma BreakLater(q: Credit, sizes: Sizes, size: nat, rest: seq<Frame>) returns (run: seq<Frame>)
    requires q.Valid() && q.enabled && sizes.Sensible() && sizes.Fits(size)
    requires Settle(q.credit, q.idleSlope) - UnitCost(q, sizes) * size >= q.lo
    requires var frame := Next(q, sizes, size); Breaks(q.Spend(frame.at, frame.duration), sizes, rest)
    ensures Breaks(q, sizes, run)
  {
    var frame := Next(q, sizes, size);
    var q1 := q.Spend(frame.at, frame.duration);
    run := [frame] + rest;
    SettledAtRelease(q);
    FrameCost(q, sizes, size);
    assert run[1..] == rest;
    var gap := q.availableAt - q.lastUpdate;
    Distribute(-q.sendSlope, frame.duration, SendingTime(rest));
    Distribute(q.idleSlope, gap, GapTime(q1, rest));
    Commute(q.idleSlope, gap);
    assert Allowed(run, sizes) by {
      forall i | 0 <= i < |run| ensures sizes.Allows(run[i].duration) {
        assert i > 0 ==> run[i] == rest[i - 1];
      }
    }
  }

  /** A path after which a longest frame would take the credit below its lower bound breaks the bound, there or
      before. */
  lemma {:induction false} PathBreaks(q: Credit, sizes: Sizes, path: seq<nat>) returns (run: seq<Frame>)
    requires q.Valid() && q.enabled && sizes.Sensible() && AllFit(path, sizes)
    requires var cost := UnitCost(q, sizes);
      Settle(q.credit - cost * Sum(path), q.idleSlope) - cost * sizes.longest < q.lo
    ensures Breaks(q, sizes, run)
    decreases |path|
  {
    var cost := UnitCost(q, sizes);
    if path == [] {
      run := BreakNow(q, sizes, sizes.longest);
    } else {
      var size := path[0];
      assert sizes.Fits(size);
      if Settle(q.credit, q.idleSlope) - cost * size < q.lo {
        run := BreakNow(q, sizes, size);
      } else {
        var frame := Next(q, sizes, size);
        SettledAtRelease(q);
        FrameCost(q, sizes, size);
        SpendKeepsValid(q, frame.at, frame.duration);
        var q1 := q.Spend(frame.at, frame.duration);
        MulNonnegative(cost, size);
        MulNonnegative(cost, Sum(path));
        MulNonnegative(cost, Sum(path[1..]));
        Distribute(cost, size, Sum(path[1..]));
        SettleTwice(q.credit, cost * size, q.idleSlope);
        SettleTwice(Settle(q.credit, q.idleSlope) - cost * size, cost * Sum(path[1..]), q.idleSlope);
        SettleTwice(q.credit, cost * Sum(path), q.idleSlope);
        var rest := PathBreaks(q1, sizes, path[1..]);
        run := BreakLater(q, sizes, size, rest);
      }
    }
  }

  /** `n` frames of one size. */
  function Copies(size: nat, n: nat): (path: seq<nat>)
    ensures |path| == n && forall i :: 0 <= i < n ==> path[i] == size
  {
    seq(n, _ => size)
  }

  lemma {:induction false} SumCopies(size: nat, n: nat, rest: seq<nat>)
    ensures Sum(Copies(size, n) + rest) == size * n + Sum(rest)
    decreases n
  {
    var path := Copies(size, n) + rest;
    if n == 0 {
      assert path == rest;
    } else {
      SumCopies(size, n - 1, rest);
      assert path[1..] == Copies(size, n - 1) + rest;
      Distribute(size, n - 1, 1);
    }
  }

  /** A number beyond the square of `m` is a sum of that many `m` and `m + 1`. */
  lemma ShortAndLong(m: nat, n: nat) returns (short: nat, long: nat)
    requires m > 0 && n >= m * m
    ensures m * short + (m + 1) * long == n
  {
    var a, r := n / m, n % m;
    DivMonotone(m * m, n, m);
    ModUnique(m * m, m, 0, m);
    short, long := a - r, r;
    Distribute(m, a - r, r);
    Distribute(r, m, 1);
    Commute(a, m);
  }

  /** Every large enough total, or every multiple of the only size, is a total of frames. */
  lemma PathOf(sizes: Sizes, n: nat) returns (path: seq<nat>)
    requires sizes.Sensible() && n >= sizes.shortest * sizes.shortest
    ensures AllFit(path, sizes) && Sum(path) == n * sizes.Stride()
  {
    hide Sum, Copies;
    var m := sizes.shortest;
    NoSum();
    if m < sizes.longest {
      var short, long := ShortAndLong(m, n);
      var rest := Copies(m, short);
      SumCopies(m, short, []);
      assert rest + [] == rest;
      SumCopies(m + 1, long, rest);
      path := Copies(m + 1, long) + rest;
    } else {
      path := Copies(m, n);
      SumCopies(m, n, []);
      assert path + [] == path;
      Commute(m, n);
    }
  }

  lemma NoSum()
    ensures Sum([]) == 0
  {
  }

  /** A number of strides that costs the top credit and, on the idle grid, any residue on the common grid. */
  lemma Reach(idle: nat, cost: nat, hi: nat, residue: nat, m: int, least: nat) returns (n: nat)
    requires idle > 0 && cost > 0 && residue < idle && residue + hi == m * Gcd(idle, cost)
    ensures n >= least && cost * n >= hi && (cost * n - hi) % idle == residue
  {
    var g := Gcd(idle, cost);
    var x, y := Bezout(idle, cost);
    var k := (if y * m < 0 then -(y * m) else 0) + least + hi;
    MulNonnegative(idle - 1, k);
    assert idle * k == (idle - 1) * k + k;
    n := y * m + idle * k;
    MulNonnegative(cost - 1, n);
    assert cost * n == (cost - 1) * n + n;
    var q := cost * k - x * m;
    Reached(idle, cost, g, x, y, m, k);
    assert cost * n - hi == q * idle + residue;
    ModUnique(cost * n - hi, q, residue, idle);
  }

  lemma Reached(idle: nat, cost: nat, g: nat, x: int, y: int, m: int, k: int)
    requires idle * x + cost * y == g
    ensures cost * (y * m + idle * k) == m * g + (cost * k - x * m) * idle
  {
    assert m * g == m * (idle * x) + m * (cost * y);
    assert cost * (y * m + idle * k) == cost * (y * m) + cost * (idle * k);
    assert (cost * k - x * m) * idle == cost * k * idle - x * m * idle;
    assert cost * (y * m) == m * (cost * y) && cost * (idle * k) == cost * k * idle;
    assert m * (idle * x) == x * m * idle;
  }

  /** Off a tight configuration, the residue of the top credit lies under the overhang. */
  lemma ResidueUnder(lo: int, hi: nat, over: int, g: nat, idle: int, spent: int)
    requires g > 0 && over == lo - 1 + idle * g + spent * g && over + (hi - lo) % g >= g && lo <= hi
    ensures (hi - 1) % g < over
  {
    var share, r := (hi - lo) / g, (hi - lo) % g;
    if over < g {
      var k := share + 1 - idle - spent;
      Distribute(g, share, 1);
      Distribute(g, share + 1, -idle - spent);
      Distribute(g, -idle, -spent);
      Negate(idle, g);
      Negate(spent, g);
      ModUnique(hi - 1, k, r + over - g, g);
    }
  }

  lemma LooseBreaks(q: Credit, sizes: Sizes) returns (run: seq<Frame>)
    requires q.Configured() && q.enabled && sizes.Sensible() && !Tight(q, sizes)
    ensures Having(q, q.hi, 0).Valid() && Breaks(Having(q, q.hi, 0), sizes, run)
  {
    var g, over, cost, stride := Grid(q, sizes), Overhang(q, sizes), UnitCost(q, sizes), sizes.Stride();
    var idle, strides := OnGrid(q, sizes);
    assert g == Gcd(q.idleSlope, cost * stride) && cost * stride > 0;
    assert over == q.lo - 1 + q.idleSlope + cost * sizes.longest;
    assert over + (q.hi - q.lo) % g >= g;
    var start := Having(q, q.hi, 0);
    assert UnitCost(start, sizes) == cost;
    hide Grid, Overhang, UnitCost, Tight, Gcd;
    var spent := SizeOnGrid(sizes, cost, sizes.longest, g, strides);
    ResidueUnder(q.lo, q.hi, over, g, idle, spent);
    var path := LoosePath(q.idleSlope, cost, sizes, q.hi, g, idle);
    run := PathBreaks(start, sizes, path);
  }

  /** A path from the top credit to the least residue on the grid. */
  lemma LoosePath(idleSlope: nat, cost: nat, sizes: Sizes, hi: nat, g: nat, idle: nat) returns (path: seq<nat>)
    requires sizes.Sensible() && idleSlope > 0 && cost > 0 && cost * sizes.Stride() > 0
    requires g == Gcd(idleSlope, cost * sizes.Stride()) && idleSlope == idle * g
    ensures AllFit(path, sizes) && Settle(hi - cost * Sum(path), idleSlope) == 1 - idleSlope + (hi - 1) % g
  {
    hide Gcd, Sum, Settle;
    var stride, least := sizes.Stride(), sizes.shortest * sizes.shortest;
    var step := cost * stride;
    var residue, m := LeastResidue(idleSlope, idle, hi, g);
    var n := Reach(idleSlope, step, hi, residue, m, least);
    path := PathOf(sizes, n);
    Reorder(cost, stride, n);
    SettleAt(hi, step * n, idleSlope, residue);
  }

  lemma LeastResidue(idleSlope: nat, idle: nat, hi: nat, g: nat) returns (residue: nat, m: int)
    requires 0 < g <= idleSlope == idle * g
    ensures residue == idleSlope - 1 - (hi - 1) % g && residue + hi == m * g
  {
    var share := (hi - 1) / g;
    residue, m := idleSlope - 1 - (hi - 1) % g, idle + share;
    Distribute(g, idle, share);
    assert hi - 1 == share * g + (hi - 1) % g;
  }

  lemma SettleAt(hi: nat, spent: nat, idle: nat, residue: int)
    requires idle > 0 && spent >= hi && (spent - hi) % idle == residue
    ensures Settle(hi - spent, idle) == -residue
  {
  }

  lemma Reorder(a: int, b: int, c: int)
    ensures a * b * c == a * (c * b)
  {
  }

  /** The bandwidth bound holds for all runs exactly when the configuration is tight on its grid. */
  lemma BoundedIffTight(q: Credit, sizes: Sizes)
    requires q.Configured() && q.enabled && sizes.Sensible()
    ensures AlwaysBounded(q, sizes) <==> Tight(q, sizes)
  {
    if Tight(q, sizes) {
      forall credit: int, last: nat, run: seq<Frame> |
        var start := Having(q, credit, last);
        start.Valid() && Accepted(start, run) && Allowed(run, sizes)
        ensures Bounded(Having(q, credit, last), run)
      {
        TightIsBounded(Having(q, credit, last), sizes, run);
      }
    } else {
      var run := LooseBreaks(q, sizes);
      assert !Bounded(Having(q, q.hi, 0), run);
    }
  }

  // ----- Ethernet frames -----

  /** The frames of up to `maxBytes` bytes, a byte being eight nanoseconds and the shortest frame 60 bytes. */
  function FramesUpTo(maxBytes: nat): Sizes { Sizes(8, ETH_ZLEN, Max(maxBytes, ETH_ZLEN)) }

  ghost predicate AllFrames(run: seq<Frame>, maxBytes: nat) {
    forall i :: 0 <= i < |run| ==> IsFrame(run[i].duration, maxBytes)
  }

  ghost predicate IsFrame(duration: nat, maxBytes: nat) {
    exists bytes: nat :: bytes <= maxBytes && duration == BytesToNs(bytes)
  }

  lemma FrameSizes(duration: nat, maxBytes: nat)
    ensures IsFrame(duration, maxBytes) <==> FramesUpTo(maxBytes).Allows(duration)
  {
    var sizes := FramesUpTo(maxBytes);
    if IsFrame(duration, maxBytes) {
      var bytes: nat :| bytes <= maxBytes && duration == BytesToNs(bytes);
      assert sizes.Fits(Max(bytes, ETH_ZLEN)) && duration == sizes.unit * Max(bytes, ETH_ZLEN);
    }
    if sizes.Allows(duration) {
      var size: nat :| sizes.Fits(size) && duration == sizes.unit * size;
      assert duration == BytesToNs(if size <= maxBytes then size else maxBytes);
    }
  }

  /** For the frames that the driver charges, the bound holds for all runs, from every valid state, exactly when
      the configuration is tight on its grid. */
  lemma EthernetBoundedIffTight(q: Credit, maxBytes: nat)
    requires q.Configured() && q.enabled
    ensures (forall credit: int, last: nat, run: seq<Frame> ::
               var start := Having(q, credit, last);
               start.Valid() && Accepted(start, run) && AllFrames(run, maxBytes) ==> Bounded(start, run))
            <==> Tight(q, FramesUpTo(maxBytes))
  {
    var sizes := FramesUpTo(maxBytes);
    BoundedIffTight(q, sizes);
    hide Tight, Bounded, Accepted, Credit.Valid, Having;
    forall run: seq<Frame> ensures AllFrames(run, maxBytes) <==> Allowed(run, sizes) {
      forall i | 0 <= i < |run| ensures IsFrame(run[i].duration, maxBytes) <==> sizes.Allows(run[i].duration) {
        FrameSizes(run[i].duration, maxBytes);
      }
    }
  }

  predicate FramesBelow(ops: seq<Operation>, maxBytes: nat) {
    forall i :: 0 <= i < |ops| && ops[i].Transmit? ==> ops[i].bytes <= maxBytes
  }

  lemma {:induction false} ChargedAreFrames(s: State, ops: seq<Operation>, tc: nat, maxBytes: nat)
    requires s.Sound() && AllSensible(ops) && tc < TC_COUNT && FramesBelow(ops, maxBytes)
    ensures AllFrames(AllCharged(s, ops, tc), maxBytes)
    decreases |ops|
  {
    if ops != [] {
      NextKeepsSound(s, ops[0]);
      var first, rest := s.Charged(ops[0], tc), AllCharged(s.Next(ops[0]), ops[1..], tc);
      ChargedAreFrames(s.Next(ops[0]), ops[1..], tc, maxBytes);
      assert first != [] ==> IsFrame(first[0].duration, maxBytes);
      forall i | 0 <= i < |first + rest| ensures IsFrame((first + rest)[i].duration, maxBytes) {
      }
    }
  }

  /** The bound for the driver itself: over every run that leaves the class's shaper alone, whatever is scheduled
      and sent, the frames charged to it stay within the bound if its configuration is tight. */
  lemma DriverStaysBounded(s: State, ops: seq<Operation>, tc: nat, maxBytes: nat)
    requires s.Sound() && AllSensible(ops) && tc < TC_COUNT && LeftAlone(ops, tc) && FramesBelow(ops, maxBytes)
    requires s.shapers[tc].enabled && s.shapers[tc].Valid() && Tight(s.shapers[tc], FramesUpTo(maxBytes))
    ensures Bounded(s.shapers[tc], AllCharged(s, ops, tc))
  {
    var q, run, sizes := s.shapers[tc], AllCharged(s, ops, tc), FramesUpTo(maxBytes);
    ChargedIsAcceptedRun(s, ops, tc);
    ChargedAreFrames(s, ops, tc, maxBytes);
    hide AllCharged, Tight, Accepted, Bounded;
    forall i | 0 <= i < |run| ensures sizes.Allows(run[i].duration) {
      FrameSizes(run[i].duration, maxBytes);
    }
    TightIsBounded(q, sizes, run);
  }

  /** A deep lower bound is enough, but not needed: here the clamp bites and the bound holds all the same. */
  lemma TightWithoutDeep(q: Credit, sizes: Sizes)
    requires q == Credit(true, 10, -90, 0, -95, 0, 0, 0) && sizes == Sizes(1, 1, 1)
    ensures !Deep(q, 1) && AlwaysBounded(q, sizes)
  {
    GcdOfMultiple(10, 9);
    assert UnitCost(q, sizes) == 90;
    hide Gcd, UnitCost;
    assert Grid(q, sizes) == 10;
    assert Tight(q, sizes);
    hide Tight, AlwaysBounded;
    BoundedIffTight(q, sizes);
  }

  lemma {:induction false} GcdOfMultiple(a: nat, n: nat)
    requires a > 0 && n > 0
    ensures n * a > 0 && Gcd(a, n * a) == a
    decreases n
  {
    if n > 1 {
      Distribute(a, n - 1, 1);
      GcdOfMultiple(a, n - 1);
    }
  }

  // ----- in the units of the kernel's request -----

  /** The bits on the wire of frames of these sizes in bytes. */
  function WireBits(sizes: seq<nat>): nat {
    if sizes == [] then 0 else 8 * Max(sizes[0], 60) + WireBits(sizes[1..])
  }

  /** The run sends frames of these sizes. */
  predicate Carries(run: seq<Frame>, sizes: seq<nat>) {
    |run| == |sizes| && forall i :: 0 <= i < |run| ==> run[i].duration == BytesToNs(sizes[i])
  }

  lemma {:induction false} CarriedBits(run: seq<Frame>, sizes: seq<nat>)
    requires Carries(run, sizes)
    ensures SendingTime(run) == WireBits(sizes)
  {
    if run != [] {
      CarriedBits(run[1..], sizes[1..]);
    }
  }

  /** A request to switch a shaper on for a whole number of Mbit/s on a 1 Gbit/s link, with bounds that fit 32 bits once
      they are scaled. */
  predicate WellRequested(op: Operation, share: nat) {
    && op.SetQav? && op.enable && 0 < share < 1000
    && op.idleSlope == 1000 * share && op.sendSlope == op.idleSlope - 1_000_000
    && -2_147_483 <= op.loCredit <= 0 <= op.hiCredit <= 2_147_483
  }

  lemma RequestedUnits(op: Operation, share: nat, q: Credit)
    requires WellRequested(op, share)
    ensures var r := Reconfigured(q, op.enable, op.hiCredit, op.loCredit, op.idleSlope, op.sendSlope);
      r.enabled && r.idleSlope == share && r.sendSlope == share - 1000
      && r.hi == 1000 * op.hiCredit && r.lo == 1000 * op.loCredit
  {
    assert TowardZero(1000 * share) == share;
    assert TowardZero(-(1000 * (1000 - share))) == -(1000 - share);
    Int32Fits(op.hiCredit * 1000);
    Int32Fits(op.loCredit * 1000);
  }

  lemma Int32Fits(x: int)
    requires -0x8000_0000 <= x < 0x8000_0000
    ensures Int32(x) == x
  {
  }

  /** What a request promises in its own units: over every accepted run of a shaper that it configured, the bits sent
      are at most the range between its two credit bounds plus the reserved rate times the time that went by, as long as
      the lower bound leaves room for the longest frame. So the driver takes the bounds as bits. */
  lemma RequestedRate(op: Operation, share: nat, before: Credit, q: Credit, run: seq<Frame>, sizes: seq<nat>,
                      longest: nat)
    requires WellRequested(op, share)
    requires q == InState(Reconfigured(before, op.enable, op.hiCredit, op.loCredit, op.idleSlope, op.sendSlope),
                          q.credit, q.lastUpdate, q.availableAt)
    requires q.Valid() && Accepted(q, run) && Carries(run, sizes) && UpTo(run, longest)
    requires 1000 * op.loCredit <= 1 - share - longest * (1000 - share)
    ensures 1_000_000 * WireBits(sizes)
            <= 1_000_000 * (op.hiCredit - op.loCredit)
               + op.idleSlope * (After(q, run).lastUpdate - q.lastUpdate)
  {
    RequestedUnits(op, share, before);
    CarriedBits(run, sizes);
    Commute(longest, q.sendSlope);
    Commute(longest, 1000 - share);
    Negate(1000 - share, longest);
    hide Reconfigured, WireBits, Accepted, After;
    BandwidthBound(q, run, longest);
    RateInBits(share, op.hiCredit, op.loCredit, SendingTime(run), After(q, run).lastUpdate - q.lastUpdate);
  }

  lemma RateInBits(share: nat, hi: int, lo: int, bits: nat, elapsed: int)
    requires (share - (share - 1000)) * bits <= 1000 * hi - 1000 * lo + share * elapsed
    ensures 1_000_000 * bits <= 1_000_000 * (hi - lo) + 1000 * share * elapsed
  {
    assert 1000 * share * elapsed == 1000 * (share * elapsed);
  }
}
