/** The pool of packet buffers: one stack of ordinary buffers, one of reserved ones, told apart by address. */
module BufferPool {
  import opened Arithmetic
  import opened Lists
  import QuickSort

  const BUFFER_LENGTH: nat := 0x1000
  const NUMBER_OF_BUFFER: nat := 2048
  const NUMBER_OF_RESERVED_BUFFER: nat := 4
  const NUMBER_OF_POOL_BUFFER: nat := NUMBER_OF_BUFFER + 1
  const MAX_BD_NUMBER: nat := 8
  const EMPTY_ELEMENT: nat := 0

  /** The buffer that an address points into. */
  function Mask(element: nat): nat { element - element % BUFFER_LENGTH }

  /** An address inside a buffer gives that buffer. */
  lemma InsideABuffer(b: nat, element: nat)
    requires b % 0x1000 == 0 && b <= element < b + 0x1000
    ensures Mask(element) == b
  {
    ModUnique(element, b / 0x1000, element - b, 0x1000);
  }

  /** The addresses lie inside these buffers, in order. */
  predicate Inside(buffers: seq<nat>, addresses: seq<nat>) {
    |buffers| == |addresses| && forall i :: 0 <= i < |buffers| ==> buffers[i] <= addresses[i] < buffers[i] + 0x1000
  }

  lemma InsideBuffers(buffers: seq<nat>, addresses: seq<nat>)
    requires Inside(buffers, addresses) && forall i :: 0 <= i < |buffers| ==> buffers[i] % 0x1000 == 0
    ensures Masked(addresses) == buffers
  {
    forall i | 0 <= i < |buffers| ensures Mask(addresses[i]) == buffers[i] {
      InsideABuffer(buffers[i], addresses[i]);
    }
  }

  /** The buffers that the listed addresses point into. */
  function Masked(list: seq<nat>): (buffers: seq<nat>)
    ensures |buffers| == |list| && forall i :: 0 <= i < |list| ==> buffers[i] == Mask(list[i])
  {
    seq(|list|, i requires 0 <= i < |list| => Mask(list[i]))
  }

  function Reverse(s: seq<nat>): seq<nat> {
    if s == [] then [] else [s[|s| - 1]] + Reverse(s[..|s| - 1])
  }

  /** The listed buffers came off the end of `start`, the last one first, none of them was lent out before, and
      all of them are now. */
  ghost predicate Taken(start: seq<nat>, rest: seq<nat>, listed: seq<nat>, lent: set<nat>, outstanding: set<nat>) {
    rest + Reverse(listed) == start && Elements(listed) !! lent && outstanding == lent + Elements(listed)
  }

  lemma NothingTaken(start: seq<nat>, lent: set<nat>)
    ensures Taken(start, start, [], lent, lent)
  {
    assert start + [] == start;
  }

  lemma OneMoreTaken(start: seq<nat>, rest: seq<nat>, listed: seq<nat>, lent: set<nat>, outstanding: set<nat>)
    requires Taken(start, rest, listed, lent, outstanding) && rest != [] && rest[|rest| - 1] !in outstanding
    ensures var b := rest[|rest| - 1];
      Taken(start, rest[..|rest| - 1], listed + [b], lent, outstanding + {b})
  {
    var last := rest[|rest| - 1];
    assert (listed + [last])[..|listed|] == listed;
    assert rest == rest[..|rest| - 1] + [last];
    assert rest[..|rest| - 1] + ([last] + Reverse(listed)) == start;
  }

  /** The listed buffers below the boundary, in order. */
  function Below(list: seq<nat>, base: nat): seq<nat> {
    if list == [] then []
    else
      var init, last := list[..|list| - 1], list[|list| - 1];
      Below(init, base) + (if last < base then [last] else [])
  }

  /** The listed buffers from the boundary on, in order. */
  function From(list: seq<nat>, base: nat): seq<nat> {
    if list == [] then []
    else
      var init, last := list[..|list| - 1], list[|list| - 1];
      From(init, base) + (if last >= base then [last] else [])
  }

  /** The two stacks, ordinary and reserved. */
  datatype Stacks = Stacks(free: seq<nat>, kept: seq<nat>)

  /** A buffer added to its stack. */
  function Added(s: Stacks, b: nat, base: nat): Stacks {
    if b >= base then s.(kept := s.kept + [b]) else s.(free := s.free + [b])
  }

  /** The same, if there is room. */
  function GiveBack(s: Stacks, b: nat, base: nat): Stacks {
    if b >= base then (if |s.kept| == NUMBER_OF_RESERVED_BUFFER then s else Added(s, b, base))
    else (if |s.free| == NUMBER_OF_POOL_BUFFER then s else Added(s, b, base))
  }

  function GiveAllBack(s: Stacks, list: seq<nat>, base: nat): Stacks {
    if list == [] then s
    else GiveBack(GiveAllBack(s, list[..|list| - 1], base), list[|list| - 1], base)
  }

  function AddedAll(s: Stacks, list: seq<nat>, base: nat): Stacks {
    Stacks(s.free + Below(list, base), s.kept + From(list, base))
  }

  lemma GiveBackChanges(s: Stacks, b: nat, base: nat)
    ensures GiveBack(s, b, base) == s <==>
            if b >= base then |s.kept| == NUMBER_OF_RESERVED_BUFFER else |s.free| == NUMBER_OF_POOL_BUFFER
  {
    assert |s.kept + [b]| != |s.kept| && |s.free + [b]| != |s.free|;
  }

  lemma MaskTwice(element: nat)
    ensures Mask(Mask(element)) == Mask(element)
  {
  }

  /** Different buffers, all of them lent out. */
  ghost predicate Returnable(list: seq<nat>, lent: set<nat>) {
    Distinct(list) && Elements(list) <= lent
  }

  /** None of the listed buffers is lent out any more. */
  ghost predicate Given(lent: set<nat>, outstanding: set<nat>, list: seq<nat>) {
    outstanding == lent - Elements(list)
  }

  lemma NothingGiven(s: Stacks, lent: set<nat>, base: nat)
    ensures Given(lent, lent, []) && GiveAllBack(s, [], base) == s && AddedAll(s, [], base) == s
  {
  }

  lemma GiveNext(s: Stacks, lent: set<nat>, outstanding: set<nat>, list: seq<nat>, k: nat, base: nat)
    requires k < |list| && Given(lent, outstanding, list[..k])
    ensures var b, done, next := list[k], list[..k], list[..k + 1];
      && (Returnable(list, lent) ==> b in outstanding)
      && Given(lent, outstanding - {b}, next)
      && GiveAllBack(s, next, base) == GiveBack(GiveAllBack(s, done, base), b, base)
      && AddedAll(s, next, base) == Added(AddedAll(s, done, base), b, base)
  {
    var b, done, next := list[k], list[..k], list[..k + 1];
    assert next[..k] == done && next == done + [b];
    assert b in Elements(list);
    assert s.free + (Below(done, base) + [b]) == s.free + Below(done, base) + [b];
    assert s.kept + (From(done, base) + [b]) == s.kept + From(done, base) + [b];
    assert s.free + (Below(done, base) + []) == s.free + Below(done, base);
    assert s.kept + (From(done, base) + []) == s.kept + From(done, base);
  }

  // ----- counting distinct elements -----

  lemma SubsetCount(a: set<nat>, b: set<nat>)
    requires a <= b
    ensures |a| <= |b|
  {
    assert b == a + (b - a);
  }

  lemma {:induction false} DistinctOnce(s: seq<nat>, x: nat)
    requires Distinct(s)
    ensures multiset(s)[x] <= 1
  {
    if s != [] {
      var init, last := s[..|s| - 1], s[|s| - 1];
      DistinctOnce(init, x);
      assert s == init + [last];
      if x == last {
        assert x !in init;
      }
    }
  }

  lemma TwiceCounts(t: seq<nat>, i: nat, j: nat)
    requires i < j < |t|
    ensures t[i] == t[j] ==> multiset(t)[t[i]] >= 2
  {
    var low, high := t[..j], t[j..];
    assert t == low + high;
    assert low[i] == t[i] && low[i] in multiset(low) && high[0] == t[j] && high[0] in multiset(high);
  }

  lemma SameElementsDistinct(s: seq<nat>, t: seq<nat>)
    requires Distinct(s) && multiset(s) == multiset(t)
    ensures Distinct(t)
  {
    forall i, j | 0 <= i < j < |t| ensures t[i] != t[j] {
      TwiceCounts(t, i, j);
      DistinctOnce(s, t[i]);
    }
  }

  // ----- the stacks -----

  /** A stack of buffer addresses in an array. */
  class BufferStack {
    const elements: array<nat>
    var top: int

    constructor (capacity: nat)
      ensures Valid() && fresh(elements) && elements.Length == capacity && Contents() == []
    {
      elements := new nat[capacity](_ => 0);
      top := -1;
    }

    predicate Valid()
      reads this
    {
      -1 <= top < elements.Length
    }

    function Contents(): (contents: seq<nat>)
      reads this, elements
      requires Valid()
    {
      elements[..top + 1]
    }

    method Pop() returns (element: nat)
      requires Valid() && top >= 0
      modifies `top
      ensures Valid() && Contents() == old(Contents())[..|old(Contents())| - 1]
      ensures element == old(Contents())[|old(Contents())| - 1]
    {
      element := elements[top];
      top := top - 1;
    }

    method Push(element: nat)
      requires Valid() && top < elements.Length - 1
      modifies `top, elements
      ensures Valid() && Contents() == old(Contents()) + [element]
    {
      top := top + 1;
      elements[top] := element;
    }
  }

  // ----- the pool -----

  /** What holds of any set of buffers and any split of it between the stacks and the users. */
  ghost predicate Balanced(all: set<nat>, base: nat, free: seq<nat>, reserved: seq<nat>, outstanding: set<nat>) {
    && (forall b :: b in all ==> b % BUFFER_LENGTH == 0 && b > 0)
    && base % BUFFER_LENGTH == 0
    && |Ordinary(all, base)| == NUMBER_OF_BUFFER && |Reserved(all, base)| == NUMBER_OF_RESERVED_BUFFER
    && Distinct(free) && Distinct(reserved)
    && (forall b :: b in free ==> b < base) && (forall b :: b in reserved ==> b >= base)
    && Elements(free) !! outstanding && Elements(reserved) !! outstanding
    && Elements(free) + Elements(reserved) + outstanding == all
  }

  /** The buffers below the boundary, which are the ordinary ones. */
  ghost function Ordinary(all: set<nat>, base: nat): (part: set<nat>)
    ensures forall b :: b in part <==> b in all && b < base
  {
    set b | b in all && b < base
  }

  /** The buffers from the boundary on, which are the reserved ones. */
  ghost function Reserved(all: set<nat>, base: nat): (part: set<nat>)
    ensures forall b :: b in part <==> b in all && b >= base
  {
    set b | b in all && b >= base
  }

  /** The stack that an outstanding buffer came from has room for it. */
  lemma RoomForOutstanding(all: set<nat>, base: nat, free: seq<nat>, reserved: seq<nat>, outstanding: set<nat>, b: nat)
    requires Balanced(all, base, free, reserved, outstanding) && b in outstanding
    ensures b < base ==> |free| < NUMBER_OF_BUFFER
    ensures b >= base ==> |reserved| < NUMBER_OF_RESERVED_BUFFER
  {
    DistinctCount(free);
    DistinctCount(reserved);
    if b < base {
      SubsetCount(Elements(free), Ordinary(all, base) - {b});
    } else {
      SubsetCount(Elements(reserved), Reserved(all, base) - {b});
    }
  }

  /** No buffer is ever lost or made: what is free and what is lent out of each kind always add up. */
  lemma Conserved(all: set<nat>, base: nat, free: seq<nat>, reserved: seq<nat>, outstanding: set<nat>)
    requires Balanced(all, base, free, reserved, outstanding)
    ensures |free| + |Ordinary(outstanding, base)| == NUMBER_OF_BUFFER
    ensures |reserved| + |Reserved(outstanding, base)| == NUMBER_OF_RESERVED_BUFFER
  {
    DistinctCount(free);
    DistinctCount(reserved);
    DisjointCount(Elements(free), Ordinary(outstanding, base), Ordinary(all, base));
    DisjointCount(Elements(reserved), Reserved(outstanding, base), Reserved(all, base));
  }

  lemma DisjointCount(a: set<nat>, b: set<nat>, whole: set<nat>)
    requires a !! b && forall x :: x in whole <==> x in a || x in b
    ensures |a| + |b| == |whole|
  {
    assert whole == a + b;
  }

  lemma BalancedTake(all: set<nat>, base: nat, free: seq<nat>, reserved: seq<nat>, outstanding: set<nat>)
    requires Balanced(all, base, free, reserved, outstanding) && free != []
    ensures var b := free[|free| - 1];
      && b in all && b !in outstanding
      && Balanced(all, base, free[..|free| - 1], reserved, outstanding + {b})
  {
    var init, b := free[..|free| - 1], free[|free| - 1];
    assert free == init + [b] && b !in init;
    assert b in Elements(free) && b !in reserved;
    assert Elements(free) == Elements(init) + {b};
  }

  lemma BalancedTakeReserved(all: set<nat>, base: nat, free: seq<nat>, reserved: seq<nat>, outstanding: set<nat>)
    requires Balanced(all, base, free, reserved, outstanding) && reserved != []
    ensures var b := reserved[|reserved| - 1];
      && b in all && b !in outstanding
      && Balanced(all, base, free, reserved[..|reserved| - 1], outstanding + {b})
  {
    var init, b := reserved[..|reserved| - 1], reserved[|reserved| - 1];
    assert reserved == init + [b] && b !in init;
    assert b in Elements(reserved) && b !in free;
    assert Elements(reserved) == Elements(init) + {b};
  }

  lemma BalancedGive(all: set<nat>, base: nat, free: seq<nat>, reserved: seq<nat>, outstanding: set<nat>, b: nat)
    requires Balanced(all, base, free, reserved, outstanding) && b in outstanding
    ensures b < base ==> Balanced(all, base, free + [b], reserved, outstanding - {b})
    ensures b >= base ==> Balanced(all, base, free, reserved + [b], outstanding - {b})
  {
  }

  /** A buffer that was lent out goes back on its stack. */
  lemma LentGoesBack(all: set<nat>, base: nat, s: Stacks, outstanding: set<nat>, b: nat)
    requires Balanced(all, base, s.free, s.kept, outstanding) && b in outstanding
    ensures var next := GiveBack(s, b, base);
      next == Added(s, b, base) != s && Balanced(all, base, next.free, next.kept, outstanding - {b})
  {
    RoomForOutstanding(all, base, s.free, s.kept, outstanding, b);
    BalancedGive(all, base, s.free, s.kept, outstanding, b);
    hide Balanced;
    GiveBackChanges(s, b, base);
  }

  /** Giving a buffer back keeps the pool balanced exactly when the buffer was lent out, or finds its stack full. */
  lemma GiveBackExact(all: set<nat>, base: nat, s: Stacks, outstanding: set<nat>, b: nat)
    requires Balanced(all, base, s.free, s.kept, outstanding)
    ensures var next := GiveBack(s, b, base);
      Balanced(all, base, next.free, next.kept, outstanding - {b}) <==> b in outstanding || next == s
  {
    var next := GiveBack(s, b, base);
    if b in outstanding {
      LentGoesBack(all, base, s, outstanding, b);
    } else if next == s {
      assert outstanding - {b} == outstanding;
    } else {
      GiveBackChanges(s, b, base);
      NotLent(all, base, s, outstanding, b);
    }
  }

  /** A buffer that was not lent out is on a stack already, or none of the pool's. */
  lemma NotLent(all: set<nat>, base: nat, s: Stacks, outstanding: set<nat>, b: nat)
    requires Balanced(all, base, s.free, s.kept, outstanding) && b !in outstanding
    ensures var next := Added(s, b, base); !Balanced(all, base, next.free, next.kept, outstanding - {b})
  {
    var next := Added(s, b, base);
    if b in all {
      if b < base {
        assert b in Elements(s.free);
        var i :| 0 <= i < |s.free| && s.free[i] == b;
        assert next.free[i] == next.free[|s.free|];
      } else {
        assert b in Elements(s.kept);
        var i :| 0 <= i < |s.kept| && s.kept[i] == b;
        assert next.kept[i] == next.kept[|s.kept|];
      }
    } else {
      assert b in Elements(next.free) + Elements(next.kept);
    }
  }

  /** An address inside an outstanding buffer lies on the same side of the boundary as the buffer. */
  lemma InteriorSide(element: nat, base: nat)
    requires base % BUFFER_LENGTH == 0
    ensures element >= base <==> Mask(element) >= base
  {
    var q, r := element / BUFFER_LENGTH, element % BUFFER_LENGTH;
    var p := base / BUFFER_LENGTH;
    assert element == q * BUFFER_LENGTH + r && base == p * BUFFER_LENGTH;
  }

  lemma ElementsTail(s: seq<nat>, i: nat)
    requires i < |s| && Distinct(s)
    ensures s[i] in Elements(s[i..]) && Elements(s[i + 1..]) == Elements(s[i..]) - {s[i]}
  {
    assert s[i..] == [s[i]] + s[i + 1..];
    assert forall k :: i < k < |s| ==> s[k] != s[i];
  }

  lemma MaskOfBuffer(all: set<nat>, base: nat, free: seq<nat>, reserved: seq<nat>, outstanding: set<nat>, b: nat)
    requires Balanced(all, base, free, reserved, outstanding) && b in outstanding
    ensures Mask(b) == b
  {
    assert b in all;
  }

  // ----- whole runs -----

  /** The pool as a value. */
  datatype State = State(all: set<nat>, base: nat, stacks: Stacks, outstanding: set<nat>)
  {
    ghost predicate Sound() { Balanced(all, base, stacks.free, stacks.kept, outstanding) }
  }

  datatype Step = Take | TakeReserved | GiveBackAt(address: nat)

  function Next(s: State, step: Step): State {
    match step
    case Take =>
      var free := s.stacks.free;
      if free == [] then s
      else s.(stacks := s.stacks.(free := free[..|free| - 1]), outstanding := s.outstanding + {free[|free| - 1]})
    case TakeReserved =>
      var kept := s.stacks.kept;
      if kept == [] then s
      else s.(stacks := s.stacks.(kept := kept[..|kept| - 1]), outstanding := s.outstanding + {kept[|kept| - 1]})
    case GiveBackAt(address) =>
      s.(stacks := GiveBack(s.stacks, Mask(address), s.base), outstanding := s.outstanding - {Mask(address)})
  }

  /** What is given back is an address inside a buffer that is lent out, or falls on the full stack of reserved
      buffers. */
  ghost predicate Proper(s: State, step: Step) {
    step.GiveBackAt? ==>
      || (exists b :: b in s.outstanding && b <= step.address < b + 0x1000)
      || (step.address >= s.base && |s.stacks.kept| == 4)
  }

  /** The address gives a buffer that is lent out exactly when it lies inside one. */
  lemma LentInside(s: State, address: nat)
    requires s.Sound()
    ensures Mask(address) in s.outstanding <==> exists b :: b in s.outstanding && b <= address < b + 0x1000
  {
    forall b | b in s.outstanding && b <= address < b + 0x1000 ensures Mask(address) == b {
      InsideABuffer(b, address);
    }
    assert Mask(address) <= address < Mask(address) + 0x1000;
  }

  /** One step keeps the pool balanced exactly when it is proper. */
  lemma StepExact(s: State, step: Step)
    requires s.Sound()
    ensures Next(s, step).Sound() <==> Proper(s, step)
  {
    match step {
      case Take =>
        if s.stacks.free != [] {
          BalancedTake(s.all, s.base, s.stacks.free, s.stacks.kept, s.outstanding);
        }
      case TakeReserved =>
        if s.stacks.kept != [] {
          BalancedTakeReserved(s.all, s.base, s.stacks.free, s.stacks.kept, s.outstanding);
        }
      case GiveBackAt(address) =>
        InteriorSide(address, s.base);
        Conserved(s.all, s.base, s.stacks.free, s.stacks.kept, s.outstanding);
        LentInside(s, address);
        hide Balanced, Mask;
        GiveBackChanges(s.stacks, Mask(address), s.base);
        GiveBackExact(s.all, s.base, s.stacks, s.outstanding, Mask(address));
    }
  }

  function Run(s: State, steps: seq<Step>): State
    decreases |steps|
  {
    if steps == [] then s else Run(Next(s, steps[0]), steps[1..])
  }

  ghost predicate AlwaysSound(s: State, steps: seq<Step>)
    decreases |steps|
  {
    s.Sound() && (steps == [] || AlwaysSound(Next(s, steps[0]), steps[1..]))
  }

  ghost predicate AlwaysProper(s: State, steps: seq<Step>)
    decreases |steps|
  {
    steps == [] || (Proper(s, steps[0]) && AlwaysProper(Next(s, steps[0]), steps[1..]))
  }

  /** Over every run of allocations and returns no buffer is lost or doubled exactly when every return is proper; and
      then, once nothing is lent out any more, all buffers are free again. */
  lemma {:induction false} RunExact(s: State, steps: seq<Step>)
    requires s.Sound()
    ensures AlwaysSound(s, steps) <==> AlwaysProper(s, steps)
    ensures AlwaysProper(s, steps) && Run(s, steps).outstanding == {} ==>
      |Run(s, steps).stacks.free| == 2048 && |Run(s, steps).stacks.kept| == 4
    decreases |steps|
  {
    if steps == [] {
      Conserved(s.all, s.base, s.stacks.free, s.stacks.kept, s.outstanding);
      assert s.outstanding == {} ==> Ordinary(s.outstanding, s.base) == {} && Reserved(s.outstanding, s.base) == {};
    } else {
      StepExact(s, steps[0]);
      hide Next, Proper, State.Sound;
      if Proper(s, steps[0]) {
        RunExact(Next(s, steps[0]), steps[1..]);
      }
    }
  }

  /** The descriptor list of a multi-buffer call. */
  class MultiRequest {
    var bdNum: nat
    const bd: array<nat>

    constructor ()
      ensures bdNum == 0 && bd.Length == MAX_BD_NUMBER && fresh(bd)
    {
      bdNum := 0;
      bd := new nat[MAX_BD_NUMBER](_ => 0);
    }

    /** The addresses listed. */
    function Buffers(): seq<nat>
      requires bdNum <= bd.Length
      reads this, bd
    {
      bd[..bdNum]
    }
  }

  class Pool {
    const pool: BufferStack
    const reserved: BufferStack
    var reservedBase: nat
    ghost var all: set<nat>
    ghost var outstanding: set<nat>

    /** The stacks are separate and have their sizes. */
    predicate Intact()
      reads this, pool, reserved
    {
      && pool != reserved && pool.elements != reserved.elements
      && pool.Valid() && reserved.Valid()
      && pool.elements.Length == NUMBER_OF_POOL_BUFFER
      && reserved.elements.Length == NUMBER_OF_RESERVED_BUFFER
      && reservedBase % BUFFER_LENGTH == 0
    }

    function Both(): Stacks
      requires pool.Valid() && reserved.Valid()
      reads pool, reserved, pool.elements, reserved.elements
    {
      Stacks(pool.Contents(), reserved.Contents())
    }

    /** The pool as a value. */
    ghost function View(): State
      requires pool.Valid() && reserved.Valid()
      reads this, pool, reserved, pool.elements, reserved.elements
    {
      State(all, reservedBase, Both(), outstanding)
    }

    ghost predicate Valid()
      reads this, pool, reserved, pool.elements, reserved.elements
    {
      && Intact()
      && Balanced(all, reservedBase, pool.Contents(), reserved.Contents(), outstanding)
    }

    /** `initialize_buffer_allocation`, from the allocated buffers on: sorts them by address, makes the
        four highest the reserved ones, and frees them all into their stacks. */
    constructor (buffers: array<nat>)
      requires buffers.Length == NUMBER_OF_BUFFER + NUMBER_OF_RESERVED_BUFFER
      requires Distinct(buffers[..])
      requires forall i :: 0 <= i < buffers.Length ==> buffers[i] % BUFFER_LENGTH == 0 && buffers[i] > 0
      modifies buffers
      ensures Valid() && outstanding == {} && all == Elements(old(buffers[..]))
      ensures |pool.Contents()| == NUMBER_OF_BUFFER && |reserved.Contents()| == NUMBER_OF_RESERVED_BUFFER
      ensures fresh(pool) && fresh(reserved) && fresh(pool.elements) && fresh(reserved.elements)
    {
      pool := new BufferStack(NUMBER_OF_POOL_BUFFER);
      reserved := new BufferStack(NUMBER_OF_RESERVED_BUFFER);
      reservedBase := 0;
      all := Elements(buffers[..]);
      outstanding := all;
      new;
      ghost var start := buffers[..];
      QuickSort.QuickSort(buffers, 0, buffers.Length - 1);
      ghost var sorted := buffers[..];
      AllOutstanding(start, sorted);
      reservedBase := buffers[NUMBER_OF_BUFFER];
      FreeAll(buffers);
    }

    /** Frees every buffer of the sorted list into its stack. */
    method FreeAll(buffers: array<nat>)
      requires Valid() && buffers.Length == NUMBER_OF_BUFFER + NUMBER_OF_RESERVED_BUFFER
      requires Distinct(buffers[..]) && QuickSort.SortedFrom(buffers[..], 0, buffers.Length)
      requires outstanding == all == Elements(buffers[..]) && reservedBase == buffers[NUMBER_OF_BUFFER]
      requires buffers != pool.elements && buffers != reserved.elements
      requires pool.Contents() == [] && reserved.Contents() == []
      modifies this`outstanding, pool`top, reserved`top, pool.elements, reserved.elements
      ensures Valid() && outstanding == {}
      ensures |pool.Contents()| == NUMBER_OF_BUFFER && |reserved.Contents()| == NUMBER_OF_RESERVED_BUFFER
    {
      hide Balanced;
      ghost var sorted := buffers[..];
      for id := 0 to buffers.Length
        invariant Valid() && buffers[..] == sorted
        invariant outstanding == Elements(sorted[id..])
        invariant |pool.Contents()| == Min(id, NUMBER_OF_BUFFER)
        invariant |reserved.Contents()| == Max(id - NUMBER_OF_BUFFER, 0)
      {
        ElementsTail(sorted, id);
        MaskOfBuffer(all, reservedBase, pool.Contents(), reserved.Contents(), outstanding, buffers[id]);
        assert buffers[id] < reservedBase <==> id < NUMBER_OF_BUFFER;
        var _ := Free(buffers[id]);
      }
    }

    /** `buffer_pool_alloc`: the top of the ordinary stack, or nothing when that is empty. */
    method Alloc() returns (element: nat)
      requires Valid()
      modifies this`outstanding, pool`top
      ensures Valid()
      ensures old(pool.Contents()) == [] ==> element == EMPTY_ELEMENT && outstanding == old(outstanding)
      ensures old(pool.Contents()) != [] ==>
        && element in all && element !in old(outstanding) && element < reservedBase
        && outstanding == old(outstanding) + {element}
        && pool.Contents() + [element] == old(pool.Contents())
      ensures View() == Next(old(View()), Take)
    {
      if pool.top == -1 {
        return EMPTY_ELEMENT;
      }
      BalancedTake(all, reservedBase, pool.Contents(), reserved.Contents(), outstanding);
      element := pool.Pop();
      outstanding := outstanding + {element};
    }

    /** `get_reserved_tx_buffer`: the same from the reserved stack. */
    method GetReserved() returns (element: nat)
      requires Valid()
      modifies this`outstanding, reserved`top
      ensures Valid()
      ensures old(reserved.Contents()) == [] ==> element == EMPTY_ELEMENT && outstanding == old(outstanding)
      ensures old(reserved.Contents()) != [] ==>
        && element in all && element !in old(outstanding) && element >= reservedBase
        && outstanding == old(outstanding) + {element}
        && reserved.Contents() + [element] == old(reserved.Contents())
      ensures View() == Next(old(View()), TakeReserved)
    {
      if reserved.top == -1 {
        return EMPTY_ELEMENT;
      }
      BalancedTakeReserved(all, reservedBase, pool.Contents(), reserved.Contents(), outstanding);
      element := reserved.Pop();
      outstanding := outstanding + {element};
    }

    /** `buffer_pool_free`: puts the buffer that an address points into on its stack, unless that is full. A buffer
        that was lent out always finds room. */
    method Free(element: nat) returns (result: int)
      requires Intact()
      modifies this`outstanding, pool`top, reserved`top, pool.elements, reserved.elements
      ensures Intact() && outstanding == old(outstanding) - {Mask(element)}
      ensures Both() == GiveBack(old(Both()), Mask(element), reservedBase)
      ensures result == if Both() == old(Both()) then -1 else 0
      ensures old(Valid()) && Mask(element) in old(outstanding) ==>
        Valid() && result == 0 && Both() == Added(old(Both()), Mask(element), reservedBase)
      // Any address inside a buffer that was lent out gives it back, to the stack that it came from.
      ensures forall b :: old(Valid()) && b in old(outstanding) && b <= element < b + 0x1000 ==>
        && Valid() && result == 0 && outstanding == old(outstanding) - {b}
        && pool.Contents() == old(pool.Contents()) + (if b < reservedBase then [b] else [])
        && reserved.Contents() == old(reserved.Contents()) + (if b < reservedBase then [] else [b])
      ensures View() == Next(old(View()), GiveBackAt(element))
    {
      forall b | Valid() && b in outstanding && b <= element < b + 0x1000 ensures Mask(element) == b {
        InsideABuffer(b, element);
      }
      InteriorSide(element, reservedBase);
      GiveBackChanges(Both(), Mask(element), reservedBase);
      if Valid() && Mask(element) in outstanding {
        LentGoesBack(all, reservedBase, Both(), outstanding, Mask(element));
      }
      hide Balanced;
      outstanding := outstanding - {Mask(element)};
      if element >= reservedBase {
        if reserved.top == NUMBER_OF_RESERVED_BUFFER - 1 {
          return -1;
        }
        reserved.Push(Mask(element));
      } else {
        if pool.top == NUMBER_OF_POOL_BUFFER - 1 {
          return -1;
        }
        pool.Push(Mask(element));
      }
      return 0;
    }

    /** `multi_buffer_pool_alloc`: up to eight buffers off the top of the ordinary stack at once. */
    method MultiAlloc(request: MultiRequest) returns (result: int)
      requires Valid() && request.bd.Length == MAX_BD_NUMBER
      requires request.bd != pool.elements && request.bd != reserved.elements
      modifies this`outstanding, pool`top, request`bdNum, request.bd
      ensures Valid()
      ensures var start := old(pool.Contents()); var n := Min(|start|, MAX_BD_NUMBER);
        && request.bdNum == n && result == (if n == 0 then -1 else n)
        && Taken(start, pool.Contents(), request.Buffers(), old(outstanding), outstanding)
    {
      hide Balanced, Taken;
      if pool.top == -1 {
        request.bdNum := 0;
        NothingTaken(pool.Contents(), outstanding);
        assert request.Buffers() == [];
        return -1;
      }
      ghost var start, lent := pool.Contents(), outstanding;
      var cnt: nat := 0;
      NothingTaken(start, lent);
      assert request.bd[..0] == [];
      while cnt < MAX_BD_NUMBER && pool.top >= 0
        invariant Valid() && cnt <= MAX_BD_NUMBER && cnt + pool.top + 1 == |start|
        invariant Taken(start, pool.Contents(), request.bd[..cnt], lent, outstanding)
        decreases MAX_BD_NUMBER - cnt
      {
        ghost var before, listed := pool.Contents(), request.bd[..cnt];
        BalancedTake(all, reservedBase, before, reserved.Contents(), outstanding);
        OneMoreTaken(start, before, listed, lent, outstanding);
        var element := pool.Pop();
        request.bd[cnt] := element;
        outstanding := outstanding + {element};
        cnt := cnt + 1;
        assert request.bd[..cnt] == listed + [element];
      }
      request.bdNum := cnt;
      return cnt;
    }

    /** `multi_buffer_pool_free`: puts all the listed buffers on their stacks, in the listed order; one that finds its
        stack full is passed over. Different buffers that were lent out are never passed over. */
    method MultiFree(request: MultiRequest) returns (result: int)
      requires Intact() && request.bd.Length == MAX_BD_NUMBER
      requires request.bd != pool.elements && request.bd != reserved.elements
      requires request.bdNum <= MAX_BD_NUMBER
      modifies this`outstanding, pool`top, reserved`top, pool.elements, reserved.elements
      ensures Intact() && result == 0
      ensures Both() == GiveAllBack(old(Both()), Masked(request.Buffers()), reservedBase)
      ensures Given(old(outstanding), outstanding, Masked(request.Buffers()))
      ensures old(Valid()) && Returnable(Masked(request.Buffers()), old(outstanding)) ==>
        && Valid()
        && pool.Contents() == old(pool.Contents()) + Below(Masked(request.Buffers()), reservedBase)
        && reserved.Contents() == old(reserved.Contents()) + From(Masked(request.Buffers()), reservedBase)
      // Addresses inside different buffers that were lent out give all of these back, in order.
      ensures forall buffers: seq<nat> ::
        old(Valid()) && Returnable(buffers, old(outstanding)) && Inside(buffers, request.Buffers()) ==>
        && Valid() && outstanding == old(outstanding) - Elements(buffers)
        && pool.Contents() == old(pool.Contents()) + Below(buffers, reservedBase)
        && reserved.Contents() == old(reserved.Contents()) + From(buffers, reservedBase)
    {
      forall buffers: seq<nat> |
        Valid() && Returnable(buffers, outstanding) && Inside(buffers, request.Buffers())
        ensures Masked(request.Buffers()) == buffers
      {
        assert forall i :: 0 <= i < |buffers| ==> buffers[i] in Elements(buffers);
        InsideBuffers(buffers, request.Buffers());
      }
      hide Balanced, Below, From, Given, GiveBack, GiveAllBack, Returnable;
      ghost var list, lent, start := Masked(request.Buffers()), outstanding, Both();
      ghost var regular := Valid() && Returnable(list, lent);
      NothingGiven(start, lent, reservedBase);
      assert list[..0] == [];
      for cnt: nat := 0 to request.bdNum
        invariant Intact() && request.bdNum == |list| && Masked(request.Buffers()) == list
        invariant Given(lent, outstanding, list[..cnt])
        invariant Both() == GiveAllBack(start, list[..cnt], reservedBase)
        invariant regular ==> Valid() && Both() == AddedAll(start, list[..cnt], reservedBase)
      {
        var element := Mask(request.bd[cnt]);
        assert element == list[cnt];
        MaskTwice(request.bd[cnt]);
        GiveNext(start, lent, outstanding, list, cnt, reservedBase);
        var _ := Free(element);
      }
      assert list[..|list|] == list;
      return 0;
    }
  }

  /** In sorted order, the elements below element `n` are those before it. */
  lemma SplitBelow(sorted: seq<nat>, n: nat)
    requires n < |sorted| && Distinct(sorted) && QuickSort.SortedFrom(sorted, 0, |sorted|)
    ensures |Ordinary(Elements(sorted), sorted[n])| == n
    ensures |Reserved(Elements(sorted), sorted[n])| == |sorted| - n
  {
    forall k | 0 <= k < |sorted| ensures sorted[k] < sorted[n] <==> k < n {
    }
    var low, high := sorted[..n], sorted[n..];
    assert forall k :: 0 <= k < n ==> low[k] == sorted[k];
    assert forall k :: n <= k < |sorted| ==> high[k - n] == sorted[k];
    assert Ordinary(Elements(sorted), sorted[n]) == Elements(low);
    assert Reserved(Elements(sorted), sorted[n]) == Elements(high);
    DistinctCount(low);
    DistinctCount(high);
  }

  lemma SortingKeepsElements(start: seq<nat>, sorted: seq<nat>)
    requires Distinct(start) && QuickSort.Rearranged(start, sorted, 0, |start|)
    ensures Elements(start) == Elements(sorted) && Distinct(sorted)
  {
    assert start[0..|start|] == start && sorted[0..|start|] == sorted;
    SameElementsDistinct(start, sorted);
    forall x ensures x in start <==> x in sorted {
      assert x in multiset(start) <==> x in multiset(sorted);
    }
  }

  /** Before anything is freed, all buffers count as outstanding. */
  lemma AllOutstanding(start: seq<nat>, sorted: seq<nat>)
    requires |start| == NUMBER_OF_BUFFER + NUMBER_OF_RESERVED_BUFFER && Distinct(start)
    requires forall i :: 0 <= i < |start| ==> start[i] % BUFFER_LENGTH == 0 && start[i] > 0
    requires QuickSort.Rearranged(start, sorted, 0, |start|) && QuickSort.SortedFrom(sorted, 0, |start|)
    ensures Elements(sorted) == Elements(start) && Distinct(sorted)
    ensures Balanced(Elements(start), sorted[NUMBER_OF_BUFFER], [], [], Elements(start))
  {
    hide Balanced;
    SortingKeepsElements(start, sorted);
    SplitBelow(sorted, NUMBER_OF_BUFFER);
    assert sorted[NUMBER_OF_BUFFER] in Elements(sorted);
    hide Distinct, QuickSort.Rearranged, QuickSort.SortedFrom;
    assert forall b :: b in Elements(start) ==> b % BUFFER_LENGTH == 0 && b > 0;
    BalancedStart(Elements(start), sorted[NUMBER_OF_BUFFER]);
  }

  lemma BalancedStart(all: set<nat>, base: nat)
    requires forall b :: b in all ==> b % BUFFER_LENGTH == 0 && b > 0
    requires base in all
    requires |Ordinary(all, base)| == NUMBER_OF_BUFFER && |Reserved(all, base)| == NUMBER_OF_RESERVED_BUFFER
    ensures Balanced(all, base, [], [], all)
  {
  }
}
