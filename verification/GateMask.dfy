/** Gate masks: bits, the classes they stand for, and how the library numbers classes and adds masks. */
module GateMask {
  import opened Arithmetic
  import opened Lists
  import opened Schedule

  function Pow2(n: nat): nat {
    if n == 0 then 1 else 2 * Pow2(n - 1)
  }

  /** Whether bit `j` of the mask is set. */
  predicate Bit(mask: nat, j: nat)
    decreases j
  {
    if j == 0 then mask % 2 == 1 else Bit(mask / 2, j - 1)
  }

  /** The sum of `1 << c` over the classes. */
  function MaskSum(classes: seq<nat>): nat {
    if classes == [] then 0 else MaskSum(classes[..|classes| - 1]) + Pow2(classes[|classes| - 1])
  }

  /** Reading every bit of the summed mask gives back exactly the classes. */
  ghost predicate ReadsBack(classes: seq<nat>) {
    forall j: nat :: Bit(MaskSum(classes), j) <==> j in classes
  }

  /** An entry of the kernel's schedule request. */
  datatype OffloadEntry = OffloadEntry(interval: nat, gateMask: nat)

  /** The entry as the driver reads it: one bit for each of its eight classes. */
  function Decode(entry: OffloadEntry): (decoded: GateEntry)
    ensures |decoded.gates| == TC_COUNT
  {
    GateEntry(entry.interval, seq(TC_COUNT, j requires 0 <= j < TC_COUNT => Bit(entry.gateMask, j)))
  }

  // ----- distinct classes read back -----

  /** How often class 0 occurs, and the other classes moved down by one. */
  function Zeros(classes: seq<nat>): nat {
    if classes == [] then 0
    else Zeros(classes[..|classes| - 1]) + (if classes[|classes| - 1] == 0 then 1 else 0)
  }

  function Lowered(classes: seq<nat>): seq<nat> {
    if classes == [] then []
    else
      var rest, c := Lowered(classes[..|classes| - 1]), classes[|classes| - 1];
      if c == 0 then rest else rest + [c - 1]
  }

  lemma {:induction false} MaskSplits(classes: seq<nat>)
    ensures MaskSum(classes) == Zeros(classes) + 2 * MaskSum(Lowered(classes))
  {
    if classes != [] {
      var init, c := classes[..|classes| - 1], classes[|classes| - 1];
      MaskSplits(init);
      if c > 0 {
        assert Lowered(classes)[..|Lowered(init)|] == Lowered(init);
      }
    }
  }

  lemma {:induction false} LoweredMember(classes: seq<nat>, j: nat)
    ensures j in Lowered(classes) <==> j + 1 in classes
    ensures Zeros(classes) > 0 <==> 0 in classes
  {
    if classes != [] {
      var init, c := classes[..|classes| - 1], classes[|classes| - 1];
      LoweredMember(init, j);
      assert classes == init + [c];
    }
  }

  lemma {:induction false} LoweredDistinct(classes: seq<nat>)
    requires Distinct(classes)
    ensures Zeros(classes) <= 1 && Distinct(Lowered(classes))
  {
    if classes != [] {
      var init, c := classes[..|classes| - 1], classes[|classes| - 1];
      LoweredDistinct(init);
      assert c !in init;
      if c > 0 {
        LoweredMember(init, c - 1);
      } else {
        LoweredMember(init, 0);
      }
    }
  }

  /** Bit 0 says whether class 0 is there, and the other bits are those of the lowered classes. */
  lemma DistinctHalves(classes: seq<nat>)
    requires Distinct(classes)
    ensures Distinct(Lowered(classes))
    ensures MaskSum(classes) % 2 == (if 0 in classes then 1 else 0)
    ensures MaskSum(classes) / 2 == MaskSum(Lowered(classes))
  {
    hide MaskSum, Lowered, Zeros, Distinct;
    MaskSplits(classes);
    LoweredDistinct(classes);
    LoweredMember(classes, 0);
    Halves(Zeros(classes), MaskSum(Lowered(classes)));
  }

  lemma Halves(bit: nat, half: nat)
    requires bit <= 1
    ensures (bit + 2 * half) % 2 == bit && (bit + 2 * half) / 2 == half
  {
  }

  lemma {:induction false} DistinctBit(classes: seq<nat>, j: nat)
    requires Distinct(classes)
    ensures Bit(MaskSum(classes), j) <==> j in classes
    decreases j
  {
    DistinctHalves(classes);
    if j > 0 {
      LoweredMember(classes, j - 1);
      DistinctBit(Lowered(classes), j - 1);
    }
  }

  // ----- repeated classes do not -----

  lemma {:induction false} BitsDetermine(a: nat, b: nat)
    requires forall j: nat :: Bit(a, j) == Bit(b, j)
    ensures a == b
    decreases a + b
  {
    if a + b > 0 {
      assert Bit(a, 0) == Bit(b, 0);
      forall j: nat ensures Bit(a / 2, j) == Bit(b / 2, j) {
        assert Bit(a, j + 1) == Bit(b, j + 1);
      }
      BitsDetermine(a / 2, b / 2);
    }
  }

  function Dedup(classes: seq<nat>): seq<nat> {
    if classes == [] then []
    else
      var init, c := classes[..|classes| - 1], classes[|classes| - 1];
      if c in init then Dedup(init) else Dedup(init) + [c]
  }

  lemma {:induction false} Pow2Positive(n: nat)
    ensures Pow2(n) > 0
  {
    if n > 0 {
      Pow2Positive(n - 1);
    }
  }

  lemma {:induction false} DedupShrinks(classes: seq<nat>)
    ensures Distinct(Dedup(classes))
    ensures forall c :: c in Dedup(classes) <==> c in classes
    ensures MaskSum(Dedup(classes)) <= MaskSum(classes)
    ensures !Distinct(classes) ==> MaskSum(Dedup(classes)) < MaskSum(classes)
  {
    if classes != [] {
      var init, c := classes[..|classes| - 1], classes[|classes| - 1];
      DedupShrinks(init);
      Pow2Positive(c);
      assert classes == init + [c];
      assert (Dedup(init) + [c])[..|Dedup(init)|] == Dedup(init);
    }
  }

  /** The mask, read at every bit, gives back the classes that were added exactly when none was added twice. */
  lemma ReadsBackIffDistinct(classes: seq<nat>)
    ensures ReadsBack(classes) <==> Distinct(classes)
  {
    if Distinct(classes) {
      forall j: nat ensures Bit(MaskSum(classes), j) <==> j in classes {
        DistinctBit(classes, j);
      }
    } else if ReadsBack(classes) {
      DedupShrinks(classes);
      forall j: nat ensures Bit(MaskSum(classes), j) == Bit(MaskSum(Dedup(classes)), j) {
        DistinctBit(Dedup(classes), j);
      }
      BitsDetermine(MaskSum(classes), MaskSum(Dedup(classes)));
    }
  }

  // ----- the bits that the driver reads -----

  /** The listings of a class after its first. */
  function Repeated(classes: seq<nat>): seq<nat> {
    if classes == [] then []
    else
      var init, c := classes[..|classes| - 1], classes[|classes| - 1];
      if c in init then Repeated(init) + [c] else Repeated(init)
  }

  lemma SumSnoc(classes: seq<nat>, c: nat)
    ensures MaskSum(classes + [c]) == MaskSum(classes) + Pow2(c)
  {
    assert (classes + [c])[..|classes|] == classes;
  }

  lemma FirstOrRepeated(init: seq<nat>, c: nat)
    ensures Dedup(init + [c]) == if c in init then Dedup(init) else Dedup(init) + [c]
    ensures Repeated(init + [c]) == if c in init then Repeated(init) + [c] else Repeated(init)
  {
    assert (init + [c])[..|init|] == init;
  }

  lemma {:induction false} RepeatedSum(classes: seq<nat>)
    ensures MaskSum(classes) == MaskSum(Dedup(classes)) + MaskSum(Repeated(classes))
  {
    if classes != [] {
      var init, c := classes[..|classes| - 1], classes[|classes| - 1];
      RepeatedSum(init);
      hide MaskSum, Dedup, Repeated;
      assert classes == init + [c];
      FirstOrRepeated(init, c);
      SumSnoc(init, c);
      SumSnoc(Dedup(init), c);
      SumSnoc(Repeated(init), c);
    }
  }

  lemma {:induction false} NoneRepeated(classes: seq<nat>)
    requires Distinct(classes)
    ensures Repeated(classes) == []
  {
    if classes != [] {
      NoneRepeated(classes[..|classes| - 1]);
    }
  }

  predicate SameBits(a: nat, b: nat, width: nat) {
    forall j :: 0 <= j < width ==> Bit(a, j) == Bit(b, j)
  }

  /** The low bits of two masks agree exactly when the masks differ by a multiple of the next power of two. */
  lemma {:induction false} LowBits(a: nat, b: nat, width: nat)
    ensures Pow2(width) > 0
    ensures SameBits(a, b, width) <==> (a - b) % Pow2(width) == 0
    decreases width
  {
    Pow2Positive(width);
    if width > 0 {
      var half, d := Pow2(width - 1), a / 2 - b / 2;
      LowBits(a / 2, b / 2, width - 1);
      assert a - b == 2 * d + (a % 2 - b % 2);
      ShiftBits(a, b, width);
      hide SameBits;
      if a % 2 == b % 2 {
        DoubleDivides(d, half);
      } else {
        OddDoesNot(a - b, half);
      }
    }
  }

  lemma BitStep(mask: nat, j: nat)
    ensures Bit(mask, j) == if j == 0 then mask % 2 == 1 else Bit(mask / 2, j - 1)
  {
  }

  lemma ShiftBits(a: nat, b: nat, width: nat)
    requires width > 0
    ensures SameBits(a, b, width) <==> a % 2 == b % 2 && SameBits(a / 2, b / 2, width - 1)
  {
    hide Bit;
    BitStep(a, 0);
    BitStep(b, 0);
    if SameBits(a, b, width) {
      assert Bit(a, 0) == Bit(b, 0);
      forall j | 0 <= j < width - 1 ensures Bit(a / 2, j) == Bit(b / 2, j) {
        BitStep(a, j + 1);
        BitStep(b, j + 1);
        assert Bit(a, j + 1) == Bit(b, j + 1);
      }
    }
    if a % 2 == b % 2 && SameBits(a / 2, b / 2, width - 1) {
      forall j | 0 <= j < width ensures Bit(a, j) == Bit(b, j) {
        BitStep(a, j);
        BitStep(b, j);
        assert j > 0 ==> Bit(a / 2, j - 1) == Bit(b / 2, j - 1);
      }
    }
  }

  lemma DoubleDivides(d: int, n: nat)
    requires n > 0
    ensures 2 * d % (2 * n) == 0 <==> d % n == 0
  {
    var q, r := d / n, d % n;
    assert 2 * d == q * (2 * n) + 2 * r;
    ModUnique(2 * d, q, 2 * r, 2 * n);
  }

  lemma OddDoesNot(x: int, n: nat)
    requires n > 0 && x % 2 == 1
    ensures x % (2 * n) != 0
  {
    var q := x / (2 * n);
    assert x == 2 * (q * n) + x % (2 * n);
  }

  /** The gates that the driver reads from the mask are open for exactly these classes. */
  ghost predicate Opens(mask: nat, time: nat, classes: seq<nat>) {
    forall c: nat :: OpensAt(mask, time, c) <==> c in classes
  }

  /** The driver opens the gate of class `c`. */
  predicate OpensAt(mask: nat, time: nat, c: nat) {
    c < TC_COUNT && Decode(OffloadEntry(time, mask)).gates[c]
  }

  predicate BelowWidth(classes: seq<nat>) {
    forall i :: 0 <= i < |classes| ==> classes[i] < TC_COUNT
  }

  /** What makes the driver's eight bits come out right: every class has a bit, and what repeated listings add
      lies beyond the bits. */
  predicate Encodable(classes: seq<nat>) {
    BelowWidth(classes) && MaskSum(Repeated(classes)) % 256 == 0
  }

  /** The driver opens exactly the classes that were added, if and only if they are encodable. */
  lemma OpensIffEncodable(classes: seq<nat>, time: nat)
    ensures Opens(MaskSum(classes), time, classes) <==> Encodable(classes)
  {
    var mask, once := MaskSum(classes), MaskSum(Dedup(classes));
    RepeatedSum(classes);
    LowBits(mask, once, TC_COUNT);
    Pow2Of8();
    hide MaskSum, Repeated, Pow2, SameBits;
    OpensIffLowBits(mask, once, classes, time);
  }

  lemma Pow2Of8()
    ensures Pow2(7) == 128 && Pow2(8) == 256
  {
    assert Pow2(4) == 2 * Pow2(3) == 4 * Pow2(2) == 16;
    assert Pow2(7) == 2 * Pow2(6) == 4 * Pow2(5) == 8 * Pow2(4);
  }

  lemma OpensIffLowBits(mask: nat, once: nat, classes: seq<nat>, time: nat)
    requires once == MaskSum(Dedup(classes))
    ensures Opens(mask, time, classes) <==> BelowWidth(classes) && SameBits(mask, once, TC_COUNT)
  {
    hide MaskSum, Dedup, Decode, Opens, SameBits, BelowWidth, Bit;
    forall c: nat | c < TC_COUNT ensures OpensAt(mask, time, c) == Bit(mask, c) && (Bit(once, c) <==> c in classes) {
      OpensAtBit(mask, time, c);
      DedupShrinks(classes);
      DistinctBit(Dedup(classes), c);
    }
    if Opens(mask, time, classes) {
      LowBitsFromOpens(mask, once, classes, time);
    }
    if BelowWidth(classes) && SameBits(mask, once, TC_COUNT) {
      OpensFromLowBits(mask, once, classes, time);
    }
  }

  lemma OpensAtBit(mask: nat, time: nat, c: nat)
    requires c < TC_COUNT
    ensures OpensAt(mask, time, c) == Bit(mask, c)
  {
  }

  lemma LowBitsFromOpens(mask: nat, once: nat, classes: seq<nat>, time: nat)
    requires Opens(mask, time, classes)
    requires forall c: nat | c < TC_COUNT :: OpensAt(mask, time, c) == Bit(mask, c) && (Bit(once, c) <==> c in classes)
    ensures BelowWidth(classes) && SameBits(mask, once, TC_COUNT)
  {
    hide Bit, OpensAt;
    forall i | 0 <= i < |classes| ensures classes[i] < TC_COUNT {
      assert classes[i] in classes;
      BeyondWidth(mask, time, classes[i]);
    }
    forall c: nat | c < TC_COUNT ensures Bit(mask, c) == Bit(once, c) {
      assert OpensAt(mask, time, c) == Bit(mask, c);
    }
  }

  lemma BeyondWidth(mask: nat, time: nat, c: nat)
    ensures c >= TC_COUNT ==> !OpensAt(mask, time, c)
  {
  }

  lemma OpensFromLowBits(mask: nat, once: nat, classes: seq<nat>, time: nat)
    requires BelowWidth(classes) && SameBits(mask, once, TC_COUNT)
    requires forall c: nat | c < TC_COUNT :: OpensAt(mask, time, c) == Bit(mask, c) && (Bit(once, c) <==> c in classes)
    ensures Opens(mask, time, classes)
  {
    hide Bit, OpensAt;
    forall c: nat ensures OpensAt(mask, time, c) <==> c in classes {
      if c < TC_COUNT {
        assert OpensAt(mask, time, c) == Bit(mask, c) == Bit(once, c);
      } else {
        BeyondWidth(mask, time, c);
      }
    }
  }

  // ----- numbering the classes -----

  const BEST_EFFORT: int := -1

  predicate Used(tcMap: map<int, nat>, c: nat) {
    exists p :: p in tcMap && tcMap[p] == c
  }

  /** The classes are numbered 0, 1, ... without gap or repetition. */
  ghost predicate Numbered(tcMap: map<int, nat>) {
    && (forall p :: p in tcMap ==> tcMap[p] < |tcMap|)
    && (forall p, q :: p in tcMap && q in tcMap && tcMap[p] == tcMap[q] ==> p == q)
    && (forall c :: 0 <= c < |tcMap| ==> Used(tcMap, c))
  }

  lemma NumberedInsert(tcMap: map<int, nat>, p: int)
    requires Numbered(tcMap) && p !in tcMap
    ensures Numbered(tcMap[p := |tcMap|])
  {
    var next := tcMap[p := |tcMap|];
    assert |next| == |tcMap| + 1;
    forall c | 0 <= c < |next| ensures Used(next, c) {
      if c == |tcMap| {
        assert p in next && next[p] == c;
      } else {
        assert Used(tcMap, c);
        var q :| q in tcMap && tcMap[q] == c;
        assert q in next && next[q] == c;
      }
    }
  }

  /** A time slice of the configured schedule and the priorities it opens. */
  datatype Slice = Slice(time: int, prios: seq<int>)

  /** A priority that the mask sums can look up. */
  predicate Known(p: int) { p > 0 || p == BEST_EFFORT }

  ghost predicate Listed(schedule: seq<Slice>, p: int) {
    exists i, j :: 0 <= i < |schedule| && 0 <= j < |schedule[i].prios| && schedule[i].prios[j] == p
  }

  function Classes(tcMap: map<int, nat>, prios: seq<int>): (classes: seq<nat>)
    requires forall i :: 0 <= i < |prios| ==> prios[i] in tcMap
    ensures |classes| == |prios|
    ensures forall i :: 0 <= i < |prios| ==> classes[i] == tcMap[prios[i]]
  {
    if prios == [] then []
    else Classes(tcMap, prios[..|prios| - 1]) + [tcMap[prios[|prios| - 1]]]
  }

  /** What goes to the kernel: the map from socket priorities to classes, how many hardware queues each class has and
      where they start, the base time and the gate masks. `tcMap` numbers the listed priorities. */
  datatype Config = Config(tcMap: map<int, nat>, skbMap: map<int, nat>, numTc: nat, queues: seq<(nat, nat)>,
                           baseTime: int, masks: seq<nat>)

  /** Every positive priority of the schedule has a number, and best effort the last one. */
  ghost predicate NumberedFor(schedule: seq<Slice>, tcMap: map<int, nat>) {
    && Numbered(tcMap)
    && BEST_EFFORT in tcMap && tcMap[BEST_EFFORT] == |tcMap| - 1
    && forall p :: p in tcMap <==> p == BEST_EFFORT || (p > 0 && Listed(schedule, p))
  }

  /** What normalising a schedule promises. */
  ghost predicate Normalised(schedule: seq<Slice>, config: Config) {
    && NumberedFor(schedule, config.tcMap)
    && config.numTc == |config.tcMap| == |config.queues|
    && (forall c :: 0 <= c < config.numTc ==> config.queues[c] == (1, c))
    && config.baseTime == 0
    && (forall i :: i in config.skbMap <==> 0 <= i < 16)
    && (forall i :: 0 <= i < 16 ==>
          config.skbMap[i] == config.tcMap[if i in config.tcMap then i else BEST_EFFORT])
    && |config.masks| == |schedule|
    && forall i :: 0 <= i < |schedule| ==>
         && (forall j :: 0 <= j < |schedule[i].prios| ==> schedule[i].prios[j] in config.tcMap)
         && config.masks[i] == MaskSum(Classes(config.tcMap, schedule[i].prios))
  }

  /** The positive priorities of the first slices, and the first of the next, are numbered. */
  ghost predicate NumberedTo(schedule: seq<Slice>, i: nat, j: nat, tcMap: map<int, nat>)
    requires i < |schedule| && j <= |schedule[i].prios|
  {
    && Numbered(tcMap)
    && forall p :: p in tcMap <==> p > 0 && (Listed(schedule[..i], p) || p in schedule[i].prios[..j])
  }

  lemma NumberedStep(schedule: seq<Slice>, i: nat, j: nat, tcMap: map<int, nat>)
    requires i < |schedule| && j < |schedule[i].prios| && NumberedTo(schedule, i, j, tcMap)
    ensures var p := schedule[i].prios[j];
      NumberedTo(schedule, i, j + 1, if p > 0 && p !in tcMap then tcMap[p := |tcMap|] else tcMap)
  {
    var prios := schedule[i].prios;
    assert prios[..j + 1] == prios[..j] + [prios[j]];
    if prios[j] > 0 && prios[j] !in tcMap {
      NumberedInsert(tcMap, prios[j]);
    }
    hide Listed, Numbered;
  }

  /** The loop over the priorities of one slice. */
  method NumberSlice(schedule: seq<Slice>, i: nat, given: map<int, nat>) returns (tcMap: map<int, nat>)
    requires i < |schedule| && Numbered(given) && forall p :: p in given <==> p > 0 && Listed(schedule[..i], p)
    ensures Numbered(tcMap) && forall p :: p in tcMap <==> p > 0 && Listed(schedule[..i + 1], p)
  {
    tcMap := given;
    var prios := schedule[i].prios;
    hide Listed, Numbered;
    for j := 0 to |prios|
      invariant NumberedTo(schedule, i, j, tcMap)
    {
      NumberedStep(schedule, i, j, tcMap);
      hide NumberedTo;
      var p := prios[j];
      if p > 0 && p !in tcMap {
        tcMap := tcMap[p := |tcMap|];
      }
    }
    ListedNext(schedule, i);
    assert prios[..|prios|] == prios;
  }

  /** Numbers the classes: every positive priority in the order of first mention, then best effort. */
  method NumberClasses(schedule: seq<Slice>) returns (tcMap: map<int, nat>)
    ensures NumberedFor(schedule, tcMap)
  {
    tcMap := map[];
    for i := 0 to |schedule|
      invariant Numbered(tcMap) && forall p :: p in tcMap <==> p > 0 && Listed(schedule[..i], p)
    {
      tcMap := NumberSlice(schedule, i, tcMap);
    }
    assert schedule[..|schedule|] == schedule;
    NumberedInsert(tcMap, BEST_EFFORT);
    hide Listed, Numbered;
    tcMap := tcMap[BEST_EFFORT := |tcMap|];
  }

  lemma SumNext(tcMap: map<int, nat>, prios: seq<int>, j: nat)
    requires j < |prios| && forall k :: 0 <= k <= j ==> prios[k] in tcMap
    ensures MaskSum(Classes(tcMap, prios[..j + 1])) == MaskSum(Classes(tcMap, prios[..j])) + Pow2(tcMap[prios[j]])
  {
    assert prios[..j + 1][..j] == prios[..j];
    assert Classes(tcMap, prios[..j + 1])[..j] == Classes(tcMap, prios[..j]);
  }

  /** A mask of 2^31 and more is not the sum that the library's 32-bit arithmetic gives. */
  const MASK_LIMIT: nat := 0x8000_0000

  /** The priorities of a slice have classes, and their mask fits. */
  ghost predicate Summable(tcMap: map<int, nat>, prios: seq<int>) {
    (forall j :: 0 <= j < |prios| ==> prios[j] in tcMap) && MaskSum(Classes(tcMap, prios)) < MASK_LIMIT
  }

  /** If the first priorities of a slice are too many, all of them are. */
  lemma {:induction false} SummablePrefix(tcMap: map<int, nat>, prios: seq<int>, j: nat)
    requires j <= |prios| && Summable(tcMap, prios)
    ensures Summable(tcMap, prios[..j])
    decreases |prios|
  {
    if j == |prios| {
      assert prios[..j] == prios;
    } else {
      var n := |prios| - 1;
      SumNext(tcMap, prios, n);
      assert prios[..n + 1] == prios && prios[..n][..j] == prios[..j];
      SummablePrefix(tcMap, prios[..n], j);
    }
  }

  /** One round of the loop over the priorities of a slice. */
  lemma SumStep(tcMap: map<int, nat>, prios: seq<int>, j: nat)
    requires j < |prios| && Summable(tcMap, prios[..j])
    ensures prios[j] !in tcMap ==> !Summable(tcMap, prios)
    ensures prios[j] in tcMap ==>
      var next := MaskSum(Classes(tcMap, prios[..j])) + Pow2(tcMap[prios[j]]);
      if next < MASK_LIMIT then Summable(tcMap, prios[..j + 1]) && next == MaskSum(Classes(tcMap, prios[..j + 1]))
      else !Summable(tcMap, prios)
  {
    if Summable(tcMap, prios) {
      SummablePrefix(tcMap, prios, j + 1);
    }
    if prios[j] in tcMap {
      SumNext(tcMap, prios, j);
    }
    hide MaskSum, Pow2, Classes;
  }

  /** The mask of one slice. It fails when a priority has no class, on which the library panics, and when the mask does
      not fit, on which its sum overflows. */
  method SumMask(tcMap: map<int, nat>, prios: seq<int>) returns (ok: bool, sum: nat)
    ensures ok <==> Summable(tcMap, prios)
    ensures ok ==> sum == MaskSum(Classes(tcMap, prios))
  {
    sum := 0;
    for j := 0 to |prios|
      invariant Summable(tcMap, prios[..j]) && sum == MaskSum(Classes(tcMap, prios[..j]))
    {
      SumStep(tcMap, prios, j);
      hide MaskSum, Pow2, Classes, Summable;
      if prios[j] !in tcMap {
        return false, 0;
      }
      sum := sum + Pow2(tcMap[prios[j]]);
      if sum >= MASK_LIMIT {
        return false, 0;
      }
    }
    assert prios[..|prios|] == prios;
    ok := true;
  }

  /** The class of every socket priority: its own, or the one for best effort. */
  ghost predicate MapsSockets(tcMap: map<int, nat>, skbMap: map<int, nat>, n: nat) {
    && (forall k :: k in skbMap <==> 0 <= k < n)
    && forall k :: 0 <= k < n ==> var c := if k in tcMap then k else BEST_EFFORT; c in tcMap && skbMap[k] == tcMap[c]
  }

  /** Maps each of the 16 socket priorities to a class. */
  method MapPriorities(tcMap: map<int, nat>) returns (skbMap: map<int, nat>)
    requires BEST_EFFORT in tcMap
    ensures MapsSockets(tcMap, skbMap, 16)
  {
    skbMap := map[];
    for i := 0 to 16
      invariant MapsSockets(tcMap, skbMap, i)
    {
      skbMap := skbMap[i := tcMap[if i in tcMap then i else BEST_EFFORT]];
    }
  }

  /** The masks of the first `n` slices. */
  ghost predicate Masked(tcMap: map<int, nat>, schedule: seq<Slice>, masks: seq<nat>, n: nat) {
    && n == |masks| <= |schedule|
    && forall i :: 0 <= i < n ==>
         Summable(tcMap, schedule[i].prios) && masks[i] == MaskSum(Classes(tcMap, schedule[i].prios))
  }

  lemma MaskedNext(tcMap: map<int, nat>, schedule: seq<Slice>, masks: seq<nat>, n: nat, mask: nat)
    requires Masked(tcMap, schedule, masks, n) && n < |schedule|
    requires Summable(tcMap, schedule[n].prios) && mask == MaskSum(Classes(tcMap, schedule[n].prios))
    ensures Masked(tcMap, schedule, masks + [mask], n + 1)
  {
    hide MaskSum;
  }

  /** The masks of all slices. */
  method SumMasks(tcMap: map<int, nat>, schedule: seq<Slice>) returns (ok: bool, masks: seq<nat>)
    ensures ok <==> forall i :: 0 <= i < |schedule| ==> Summable(tcMap, schedule[i].prios)
    ensures ok ==> Masked(tcMap, schedule, masks, |schedule|)
  {
    masks := [];
    for i := 0 to |schedule|
      invariant Masked(tcMap, schedule, masks, i)
    {
      var summed, sum := SumMask(tcMap, schedule[i].prios);
      if !summed {
        return false, masks;
      }
      MaskedNext(tcMap, schedule, masks, i, sum);
      masks := masks + [sum];
    }
    ok := true;
  }

  /** One queue for each class. */
  method OneQueueEach(n: nat) returns (queues: seq<(nat, nat)>)
    ensures |queues| == n && forall c :: 0 <= c < n ==> queues[c] == (1, c)
  {
    queues := [];
    for c := 0 to n
      invariant |queues| == c && forall k :: 0 <= k < c ==> queues[k] == (1, k)
    {
      queues := queues + [(1, c)];
    }
  }

  /** Numbers the classes and computes the gate masks. It fails exactly when the schedule lists a priority that is
      neither positive nor best effort (the library panics), or one of its masks does not fit. */
  method NormaliseTas(schedule: seq<Slice>) returns (ok: bool, config: Config)
    ensures NumberedFor(schedule, config.tcMap)
    ensures ok <==>
      && (forall p :: Listed(schedule, p) ==> Known(p))
      && forall i :: 0 <= i < |schedule| ==> Summable(config.tcMap, schedule[i].prios)
    ensures ok ==> Normalised(schedule, config)
  {
    var tcMap := NumberClasses(schedule);
    var skbMap := MapPriorities(tcMap);
    var queues := OneQueueEach(|tcMap|);
    var masks;
    ok, masks := SumMasks(tcMap, schedule);
    if ok {
      SummableIsKnown(schedule, tcMap);
    }
    hide Numbered, MaskSum, Listed, Known;
    return ok, Config(tcMap, skbMap, |tcMap|, queues, 0, masks);
  }

  lemma SummableIsKnown(schedule: seq<Slice>, tcMap: map<int, nat>)
    requires NumberedFor(schedule, tcMap)
    requires forall i :: 0 <= i < |schedule| ==> Summable(tcMap, schedule[i].prios)
    ensures forall p :: Listed(schedule, p) ==> Known(p)
  {
    hide Numbered, MaskSum;
    forall p | Listed(schedule, p) ensures Known(p) {
      var i, j :| 0 <= i < |schedule| && 0 <= j < |schedule[i].prios| && schedule[i].prios[j] == p;
      assert Summable(tcMap, schedule[i].prios);
    }
  }

  lemma ListedNext(schedule: seq<Slice>, i: nat)
    requires i < |schedule|
    ensures forall p :: Listed(schedule[..i + 1], p) <==> Listed(schedule[..i], p) || p in schedule[i].prios
  {
    forall p ensures Listed(schedule[..i + 1], p) <==> Listed(schedule[..i], p) || p in schedule[i].prios {
      if Listed(schedule[..i], p) {
        var a, b :| 0 <= a < i && 0 <= b < |schedule[a].prios| && schedule[a].prios[b] == p;
        assert schedule[..i + 1][a].prios[b] == p;
      }
      if p in schedule[i].prios {
        var b :| 0 <= b < |schedule[i].prios| && schedule[i].prios[b] == p;
        assert schedule[..i + 1][i].prios[b] == p;
      }
      if Listed(schedule[..i + 1], p) {
        var a, b :| 0 <= a < i + 1 && 0 <= b < |schedule[a].prios| && schedule[a].prios[b] == p;
        if a < i {
          assert schedule[..i][a].prios[b] == p;
        }
      }
    }
  }

  predicate Maps(tcMap: map<int, nat>, prios: seq<int>, c: nat) {
    exists i :: 0 <= i < |prios| && prios[i] in tcMap && tcMap[prios[i]] == c
  }

  /** The classes of a slice, as the driver opens them. */
  ghost predicate RoundTrips(schedule: seq<Slice>, config: Config, i: nat, time: nat)
    requires i < |schedule| && i < |config.masks|
  {
    forall c: nat :: OpensAt(config.masks[i], time, c) <==> Maps(config.tcMap, schedule[i].prios, c)
  }

  lemma MapsClasses(tcMap: map<int, nat>, prios: seq<int>)
    requires forall k :: 0 <= k < |prios| ==> prios[k] in tcMap
    ensures forall c: nat :: c in Classes(tcMap, prios) <==> Maps(tcMap, prios, c)
  {
    var classes := Classes(tcMap, prios);
    forall c: nat ensures c in classes <==> Maps(tcMap, prios, c) {
      if Maps(tcMap, prios, c) {
        var k :| 0 <= k < |prios| && prios[k] in tcMap && tcMap[prios[k]] == c;
        assert classes[k] == c;
      }
    }
  }

  /** The encoding round trip: the mask computed for a slice, decoded by the driver, opens exactly the classes of
      the slice's priorities if and only if those classes are encodable. */
  lemma SliceRoundTrip(schedule: seq<Slice>, config: Config, i: nat, time: nat)
    requires Normalised(schedule, config) && i < |schedule|
    ensures RoundTrips(schedule, config, i, time) <==> Encodable(Classes(config.tcMap, schedule[i].prios))
  {
    var prios := schedule[i].prios;
    var classes := Classes(config.tcMap, prios);
    MapsClasses(config.tcMap, prios);
    OpensIffEncodable(classes, time);
    hide OpensAt, Encodable, Maps, MaskSum, Classes;
    assert config.masks[i] == MaskSum(classes);
  }

  /** In particular it does when there are no more than eight classes and no slice lists a priority twice. */
  lemma FewClassesRoundTrip(schedule: seq<Slice>, config: Config, i: nat, time: nat)
    requires Normalised(schedule, config) && i < |schedule|
    requires config.numTc <= TC_COUNT && Distinct(schedule[i].prios)
    ensures RoundTrips(schedule, config, i, time)
  {
    var prios := schedule[i].prios;
    var classes := Classes(config.tcMap, prios);
    assert Numbered(config.tcMap) && forall j :: 0 <= j < |prios| ==> prios[j] in config.tcMap;
    hide Normalised, NumberedFor, RoundTrips, Encodable, MaskSum;
    DifferentClasses(config.tcMap, prios);
    NoneRepeated(classes);
    FewEncodable(classes);
    SliceRoundTrip(schedule, config, i, time);
  }

  /** Different priorities have different classes. */
  lemma DifferentClasses(tcMap: map<int, nat>, prios: seq<int>)
    requires Numbered(tcMap) && Distinct(prios) && |tcMap| <= TC_COUNT
    requires forall j :: 0 <= j < |prios| ==> prios[j] in tcMap
    ensures Distinct(Classes(tcMap, prios)) && BelowWidth(Classes(tcMap, prios))
  {
    var classes := Classes(tcMap, prios);
    hide Classes, Numbered;
    forall a, b | 0 <= a < b < |prios| ensures classes[a] != classes[b] {
      NumbersDiffer(tcMap, prios[a], prios[b]);
    }
    forall a | 0 <= a < |prios| ensures classes[a] < TC_COUNT {
      NumbersDiffer(tcMap, prios[a], prios[a]);
    }
  }

  lemma NumbersDiffer(tcMap: map<int, nat>, p: int, q: int)
    requires Numbered(tcMap) && p in tcMap && q in tcMap
    ensures tcMap[p] < |tcMap| && (p != q ==> tcMap[p] != tcMap[q])
  {
    hide Used;
  }

  lemma FewEncodable(classes: seq<nat>)
    requires BelowWidth(classes) && Repeated(classes) == []
    ensures Encodable(classes)
  {
    assert MaskSum([]) == 0;
  }

  lemma ListedInTwo(a: Slice, b: Slice, p: int)
    ensures Listed([a, b], p) <==> p in a.prios || p in b.prios
  {
    var schedule := [a, b];
    if p in a.prios {
      var j :| 0 <= j < |a.prios| && a.prios[j] == p;
      assert schedule[0].prios[j] == p;
    }
    if p in b.prios {
      var j :| 0 <= j < |b.prios| && b.prios[j] == p;
      assert schedule[1].prios[j] == p;
    }
  }

  /** A slice of distinct positive priorities, and one of best effort alone. */
  predicate BestEffortApart(a: Slice, b: Slice) {
    && Distinct(a.prios) && (forall j :: 0 <= j < |a.prios| ==> a.prios[j] > 0)
    && forall j :: 0 <= j < |b.prios| ==> b.prios[j] == BEST_EFFORT
  }

  lemma CountClasses(a: Slice, b: Slice, config: Config)
    requires BestEffortApart(a, b) && Normalised([a, b], config)
    ensures config.numTc == |a.prios| + 1
  {
    DistinctCount(a.prios);
    forall p ensures p in config.tcMap.Keys <==> p in Elements(a.prios) + {BEST_EFFORT} {
      ListedInTwo(a, b, p);
    }
    assert config.tcMap.Keys == Elements(a.prios) + {BEST_EFFORT};
  }

  /** With eight positive priorities there are nine classes, and a slice for best effort opens nothing although it
      lists nothing twice. */
  lemma NinthClassIsLost(a: Slice, b: Slice, config: Config, time: nat)
    requires BestEffortApart(a, b) && Normalised([a, b], config)
    requires |a.prios| == TC_COUNT && b.prios == [BEST_EFFORT]
    ensures forall c: nat :: !OpensAt(config.masks[1], time, c)
    ensures Distinct(b.prios) && !RoundTrips([a, b], config, 1, time)
  {
    CountClasses(a, b, config);
    var classes := Classes(config.tcMap, [a, b][1].prios);
    assert classes == [8];
    forall c: nat ensures !OpensAt(config.masks[1], time, c) {
      DistinctBit(classes, c);
    }
    SliceRoundTrip([a, b], config, 1, time);
  }

  /** With seven there are eight classes, and listing best effort three times opens exactly its class. */
  lemma ThreeTimesTheLast(a: Slice, b: Slice, config: Config, time: nat)
    requires BestEffortApart(a, b) && Normalised([a, b], config)
    requires |a.prios| == TC_COUNT - 1 && b.prios == [BEST_EFFORT, BEST_EFFORT, BEST_EFFORT]
    ensures !Distinct(b.prios) && RoundTrips([a, b], config, 1, time)
  {
    CountClasses(a, b, config);
    SliceRoundTrip([a, b], config, 1, time);
    hide RoundTrips, Normalised;
    var classes := Classes(config.tcMap, [a, b][1].prios);
    assert classes == [7, 7, 7] by {
      hide *;
      ThreeClasses(config.tcMap, b.prios);
    }
    ThreeSevens(classes);
  }

  lemma ThreeClasses(tcMap: map<int, nat>, prios: seq<int>)
    requires prios == [BEST_EFFORT, BEST_EFFORT, BEST_EFFORT] && BEST_EFFORT in tcMap
    ensures Classes(tcMap, prios) == [tcMap[BEST_EFFORT], tcMap[BEST_EFFORT], tcMap[BEST_EFFORT]]
  {
  }

  lemma ThreeSevens(classes: seq<nat>)
    requires classes == [7, 7, 7]
    ensures Encodable(classes)
  {
    Pow2Of8();
    assert classes[..2] == [7, 7] && classes[..2][..1] == [7];
    assert Repeated([7]) == [];
    assert Repeated([7, 7]) == [7];
    assert Repeated(classes) == [7] + [7];
    SumSnoc([], 7);
    SumSnoc([7], 7);
    assert [] + [7] == [7];
  }
}
