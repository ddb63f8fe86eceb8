/** Qbv gate schedules, and the per-class open/close lists that the driver bakes from them. */
module Schedule {

  const TC_COUNT: nat := 8
  const MAX_QBV_SLOTS: nat := 20

  /** One entry of a gate schedule: how long it lasts and which classes may send. */
  datatype GateEntry = GateEntry(duration: nat, gates: seq<bool>)

  /** One entry of a single class's list. */
  datatype Slot = Slot(duration: nat, isOpen: bool)

  /** The schedule as one class sees it. */
  function Lane(entries: seq<GateEntry>, tc: nat): (lane: seq<Slot>)
    requires tc < TC_COUNT
    requires forall i :: 0 <= i < |entries| ==> |entries[i].gates| == TC_COUNT
    ensures |lane| == |entries|
  {
    seq(|entries|, i requires 0 <= i < |entries| => Slot(entries[i].duration, entries[i].gates[tc]))
  }

  function Total(slots: seq<Slot>): nat {
    if slots == [] then 0 else Total(slots[..|slots| - 1]) + slots[|slots| - 1].duration
  }

  /** The gate `offset` nanoseconds into the cycle: that of the slot covering the offset. */
  predicate GateAt(slots: seq<Slot>, offset: nat)
    requires offset < Total(slots)
  {
    var init, last := slots[..|slots| - 1], slots[|slots| - 1];
    if offset < Total(init) then GateAt(init, offset) else last.isOpen
  }

  /** Extends the last run, or starts a new one when the gate changes. */
  function AddSlot(runs: seq<Slot>, slot: Slot): seq<Slot>
    requires runs != []
  {
    var last := runs[|runs| - 1];
    if last.isOpen == slot.isOpen then
      runs[|runs| - 1 := Slot(last.duration + slot.duration, last.isOpen)]
    else
      runs + [slot]
  }

  /** Run-length encoding; `first` is the gate the first run starts with. */
  function Compress(first: bool, lane: seq<Slot>): (runs: seq<Slot>)
    ensures runs != []
  {
    if lane == [] then [Slot(0, first)]
    else AddSlot(Compress(first, lane[..|lane| - 1]), lane[|lane| - 1])
  }

  /** An odd list gets a closing slot of zero length. */
  function Pad(runs: seq<Slot>): seq<Slot>
    requires runs != []
  {
    if |runs| % 2 == 1 then runs + [Slot(0, !runs[|runs| - 1].isOpen)] else runs
  }

  function Bake(first: bool, lane: seq<Slot>): seq<Slot> {
    Pad(Compress(first, lane))
  }

  predicate Alternating(slots: seq<Slot>) {
    forall i :: 0 < i < |slots| ==> slots[i].isOpen != slots[i - 1].isOpen
  }

  predicate AllPositive(slots: seq<Slot>) {
    forall i :: 0 <= i < |slots| ==> slots[i].duration > 0
  }

  // ----- sums and gates of lists that grow at the end -----

  lemma TotalSnoc(slots: seq<Slot>, x: Slot)
    ensures Total(slots + [x]) == Total(slots) + x.duration
  {
    assert (slots + [x])[..|slots|] == slots;
  }

  lemma GateSnoc(slots: seq<Slot>, x: Slot, offset: nat)
    requires offset < Total(slots) + x.duration
    ensures Total(slots + [x]) == Total(slots) + x.duration
    ensures GateAt(slots + [x], offset) == if offset < Total(slots) then GateAt(slots, offset) else x.isOpen
  {
    assert (slots + [x])[..|slots|] == slots;
  }

  /** Adding a slot to the runs means the same as appending it. */
  lemma AddSlotMeaning(runs: seq<Slot>, x: Slot)
    requires runs != []
    ensures Total(AddSlot(runs, x)) == Total(runs) + x.duration
    ensures forall p: nat :: p < Total(runs) + x.duration ==>
      GateAt(AddSlot(runs, x), p) == if p < Total(runs) then GateAt(runs, p) else x.isOpen
  {
    var init, last := runs[..|runs| - 1], runs[|runs| - 1];
    var merged := Slot(last.duration + x.duration, last.isOpen);
    var added := AddSlot(runs, x);
    if last.isOpen == x.isOpen {
      assert added == init + [merged];
      TotalSnoc(init, merged);
      forall p: nat | p < Total(runs) + x.duration
        ensures GateAt(added, p) == if p < Total(runs) then GateAt(runs, p) else x.isOpen
      {
        GateSnoc(init, merged, p);
      }
    } else {
      TotalSnoc(runs, x);
      forall p: nat | p < Total(runs) + x.duration
        ensures GateAt(added, p) == if p < Total(runs) then GateAt(runs, p) else x.isOpen
      {
        GateSnoc(runs, x, p);
      }
    }
  }

  lemma {:induction false} CompressMeaning(first: bool, lane: seq<Slot>)
    ensures Total(Compress(first, lane)) == Total(lane)
    ensures forall p: nat :: p < Total(lane) ==> GateAt(Compress(first, lane), p) == GateAt(lane, p)
  {
    if lane == [] {
      assert [Slot(0, first)][..0] == [];
    } else {
      var init, last := lane[..|lane| - 1], lane[|lane| - 1];
      CompressMeaning(first, init);
      AddSlotMeaning(Compress(first, init), last);
    }
  }

  /** The shape of the runs: they alternate, start with the given gate, and never outnumber the entries. */
  lemma {:induction false} CompressShape(first: bool, lane: seq<Slot>)
    ensures Alternating(Compress(first, lane))
    ensures Compress(first, lane)[0].isOpen == first
    ensures |Compress(first, lane)| <= 1 + |lane|
    ensures lane != [] && lane[0].isOpen == first ==> |Compress(first, lane)| <= |lane|
    ensures lane != [] ==>
      Compress(first, lane)[|Compress(first, lane)| - 1].isOpen == lane[|lane| - 1].isOpen
  {
    if lane != [] {
      CompressShape(first, lane[..|lane| - 1]);
    }
  }

  lemma {:induction false} CompressPositive(lane: seq<Slot>)
    requires lane != [] && AllPositive(lane)
    ensures AllPositive(Compress(lane[0].isOpen, lane))
  {
    var init := lane[..|lane| - 1];
    if init == [] {
      assert Compress(lane[0].isOpen, init) == [Slot(0, lane[0].isOpen)];
    } else {
      CompressPositive(init);
    }
  }

  /** Baking keeps the meaning of the schedule at every instant of the cycle. */
  lemma BakingPreservesGates(first: bool, lane: seq<Slot>)
    ensures Total(Bake(first, lane)) == Total(lane)
    ensures forall p: nat :: p < Total(lane) ==> GateAt(Bake(first, lane), p) == GateAt(lane, p)
  {
    CompressMeaning(first, lane);
    var runs := Compress(first, lane);
    var pad := Slot(0, !runs[|runs| - 1].isOpen);
    TotalSnoc(runs, pad);
    forall p: nat | p < Total(lane)
      ensures GateAt(Bake(first, lane), p) == GateAt(lane, p)
    {
      GateSnoc(runs, pad, p);
    }
  }

  /** What `get_timestamps` relies on: open/close pairs, in which only a padding slot is empty. */
  predicate WellBaked(baked: seq<Slot>) {
    && |baked| >= 2 && |baked| % 2 == 0
    && Alternating(baked)
    && forall i :: 0 <= i < |baked| - 1 ==> baked[i].duration > 0
  }

  /** A baked list ends in a padding slot exactly when the class's gate ends the cycle as it began it. */
  predicate Padded(baked: seq<Slot>)
    requires baked != []
  {
    baked[|baked| - 1].duration == 0
  }

  lemma {:induction false} AlternatingParity(slots: seq<Slot>, i: nat)
    requires Alternating(slots) && i < |slots|
    ensures slots[i].isOpen == (slots[0].isOpen == (i % 2 == 0))
  {
    if i > 0 {
      AlternatingParity(slots, i - 1);
    }
  }

  /** The baked list is well formed, never outgrows its 20-entry array, even with padding, and is
      padded exactly when the lane's first and last gates agree. */
  lemma BakedShape(lane: seq<Slot>)
    requires 0 < |lane| <= MAX_QBV_SLOTS && AllPositive(lane)
    ensures var baked := Bake(lane[0].isOpen, lane);
      && WellBaked(baked)
      && |baked| <= MAX_QBV_SLOTS
      && baked[0].isOpen == lane[0].isOpen
      && (Padded(baked) <==> lane[0].isOpen == lane[|lane| - 1].isOpen)
  {
    var runs := Compress(lane[0].isOpen, lane);
    CompressShape(lane[0].isOpen, lane);
    CompressPositive(lane);
    AlternatingParity(runs, |runs| - 1);
  }

  /** Two baked slots, the second empty, stand for a gate that never changes. */
  lemma {:induction false} ConstantGate(lane: seq<Slot>)
    requires lane != [] && AllPositive(lane)
    ensures var runs := Compress(lane[0].isOpen, lane);
      |runs| == 1 <==> forall i :: 0 <= i < |lane| ==> lane[i].isOpen == lane[0].isOpen
  {
    var init := lane[..|lane| - 1];
    if init == [] {
      assert Compress(lane[0].isOpen, init) == [Slot(0, lane[0].isOpen)];
    } else {
      ConstantGate(init);
      CompressShape(lane[0].isOpen, init);
      assert forall i :: 0 <= i < |init| ==> init[i] == lane[i];
    }
  }
}
