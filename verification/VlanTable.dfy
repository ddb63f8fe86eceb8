/** Sharing one VLAN between processes: who uses it is a table of process ids in shared memory. */
module VlanTable {

  const SLOTS: nat := 32
  const PAGE_WORDS: nat := 1024

  // ----- the table as values -----

  /** The words of the table that are in use, in order. */
  function Entries(words: seq<nat>): (entries: seq<nat>)
    ensures forall k :: 0 <= k < |entries| ==> entries[k] != 0
    ensures |entries| <= |words|
  {
    if words == [] then []
    else
      var init, last := words[..|words| - 1], words[|words| - 1];
      Entries(init) + (if last == 0 then [] else [last])
  }

  /** Writing a list over the start of the table. What does not fit lands beyond the table. */
  function Overwrite(words: seq<nat>, input: seq<nat>): (written: seq<nat>)
    ensures |written| == |words|
  {
    if |input| <= |words| then input + words[|input|..] else input[..|words|]
  }

  function Zeros(n: nat): (zeros: seq<nat>)
    ensures |zeros| == n
  {
    seq(n, _ => 0)
  }

  function Padded(entries: seq<nat>): seq<nat>
    requires |entries| <= SLOTS
  {
    entries + Zeros(SLOTS - |entries|)
  }

  /** The entries fill a prefix of the table and everything after them is zero. */
  predicate Compact(words: seq<nat>) {
    |words| == SLOTS && words == Padded(Entries(words))
  }

  function RemoveFirst(entries: seq<nat>, pid: nat): (rest: seq<nat>)
    ensures |rest| <= |entries|
    ensures forall k :: 0 <= k < |rest| ==> rest[k] in entries
  {
    if entries == [] then []
    else if entries[0] == pid then entries[1..]
    else [entries[0]] + RemoveFirst(entries[1..], pid)
  }

  function Living(entries: seq<nat>, live: set<nat>): (rest: seq<nat>)
    ensures |rest| <= |entries|
    ensures forall k :: 0 <= k < |rest| ==> rest[k] in entries && rest[k] in live
  {
    if entries == [] then []
    else (if entries[0] in live then [entries[0]] else []) + Living(entries[1..], live)
  }

  /** The table after `create_vlan` by a process. */
  function AfterCreate(words: seq<nat>, pid: nat): seq<nat> {
    Overwrite(words, Entries(words) + [pid])
  }

  /** The entries that `delete_vlan` by a process leaves. */
  function Remaining(words: seq<nat>, pid: nat, live: set<nat>): (rest: seq<nat>)
    ensures |rest| <= |words|
  {
    Living(RemoveFirst(Entries(words), pid), live)
  }

  /** Reading back a list that was written to a clear table returns exactly that list. */
  lemma {:induction false} ReadAfterWrite(entries: seq<nat>, zeros: nat)
    requires forall k :: 0 <= k < |entries| ==> entries[k] != 0
    ensures Entries(entries + Zeros(zeros)) == entries
    decreases zeros, |entries|
  {
    var words := entries + Zeros(zeros);
    if zeros > 0 {
      ReadAfterWrite(entries, zeros - 1);
      assert words[..|words| - 1] == entries + Zeros(zeros - 1);
    } else if entries != [] {
      ReadAfterWrite(entries[..|entries| - 1], 0);
      assert words == entries;
      assert entries[..|entries| - 1] + Zeros(0) == entries[..|entries| - 1];
    }
  }

  /** A create adds its entry after the others, unless the table is full; then it leaves the table as it was. */
  lemma CreateAppends(words: seq<nat>, pid: nat)
    requires Compact(words) && pid != 0
    ensures Compact(AfterCreate(words, pid))
    ensures Entries(AfterCreate(words, pid)) ==
            if |Entries(words)| < SLOTS then Entries(words) + [pid] else Entries(words)
  {
    hide Entries;
    var entries := Entries(words);
    if |entries| < SLOTS {
      var longer := entries + [pid];
      ReadAfterWrite(longer, SLOTS - |longer|);
      assert AfterCreate(words, pid) == Padded(longer);
    } else {
      assert Zeros(0) == [] && words == entries;
      assert AfterCreate(words, pid) == words;
    }
  }

  // ----- the table in shared memory -----

  lemma RemoveFirstStep(entries: seq<nat>, i: nat, pid: nat)
    requires i < |entries|
    ensures entries[..i] + RemoveFirst(entries[i..], pid) ==
            if entries[i] == pid then entries[..i] + entries[i + 1..]
            else entries[..i + 1] + RemoveFirst(entries[i + 1..], pid)
  {
    var rest, after := entries[i..], entries[i + 1..];
    assert rest[1..] == after && rest[0] == entries[i];
    assert entries[..i + 1] == entries[..i] + [entries[i]];
    assert entries[..i] + ([entries[i]] + RemoveFirst(after, pid)) == entries[..i + 1] + RemoveFirst(after, pid);
  }

  /** The loop that takes the caller's first entry out. */
  method RemoveOne(entries: seq<nat>, pid: nat) returns (vec: seq<nat>)
    ensures vec == RemoveFirst(entries, pid)
  {
    vec := entries;
    assert entries[|entries|..] == [] && entries[0..] == entries;
    assert RemoveFirst(entries[|entries|..], pid) == [];
    hide RemoveFirst;
    var i: nat := 0;
    while i < |vec|
      invariant i <= |vec| && vec == entries
      invariant RemoveFirst(entries, pid) == entries[..i] + RemoveFirst(entries[i..], pid)
    {
      RemoveFirstStep(entries, i, pid);
      if vec[i] == pid {
        vec := vec[..i] + vec[i + 1..];
        return;
      }
      i := i + 1;
    }
  }

  /** The page that holds the table; only its first words belong to the table. */
  class SharedTable {
    const page: array<nat>

    constructor ()
      ensures fresh(page) && page.Length == PAGE_WORDS && Compact(Words())
    {
      page := new nat[PAGE_WORDS](_ => 0);
      new;
      ReadAfterWrite([], SLOTS);
      assert page[..SLOTS] == [] + Zeros(SLOTS);
    }

    function Words(): seq<nat>
      requires page.Length == PAGE_WORDS
      reads this, page
    {
      page[..SLOTS]
    }

    /** `read_shmem`: the non-zero words of the table, in order. */
    method Read() returns (entries: seq<nat>)
      requires page.Length == PAGE_WORDS
      ensures entries == Entries(Words())
    {
      entries := [];
      for i: nat := 0 to SLOTS
        invariant entries == Entries(page[..i])
      {
        assert page[..i + 1][..i] == page[..i];
        if page[i] != 0 {
          entries := entries + [page[i]];
        }
      }
    }

    /** `write_shmem`: writes the list from the start of the page and nothing behind it. */
    method Write(input: seq<nat>)
      requires page.Length == PAGE_WORDS && |input| <= PAGE_WORDS
      modifies page
      ensures Words() == Overwrite(old(Words()), input)
    {
      ghost var start := page[..];
      for i: nat := 0 to |input|
        invariant page[..i] == input[..i]
        invariant forall k :: i <= k < PAGE_WORDS ==> page[k] == start[k]
      {
        page[i] := input[i];
      }
      assert forall k :: 0 <= k < |input| ==> page[k] == page[..|input|][k] == input[k];
    }

    /** `create_vlan`, as one step: the first user creates the VLAN, and every caller is entered, even one
        whose create command failed. */
    method CreateVlan(pid: nat, commandOk: bool, vlan: bool) returns (ok: bool, exists_: bool)
      requires page.Length == PAGE_WORDS
      modifies page
      ensures Words() == AfterCreate(old(Words()), pid)
      ensures ok <==> Entries(old(Words())) != [] || commandOk
      ensures exists_ == (vlan || (Entries(old(Words())) == [] && commandOk))
    {
      var vec := Read();
      ok, exists_ := true, vlan;
      if vec == [] {
        ok := commandOk;
        if commandOk {
          exists_ := true;
        }
      }
      vec := vec + [pid];
      Write(vec);
    }

    /** `delete_vlan`, as one step: takes out one entry of the caller and all entries of dead processes, and
        deletes the VLAN when none is left. */
    method DeleteVlan(pid: nat, live: set<nat>, unlinkOk: bool, commandOk: bool, vlan: bool)
      returns (ok: bool, exists_: bool)
      requires page.Length == PAGE_WORDS
      modifies page
      ensures Words() == Padded(Remaining(old(Words()), pid, live))
      ensures var last := Remaining(old(Words()), pid, live) == [];
        && (ok <==> (last ==> unlinkOk && commandOk))
        && exists_ == (vlan && !(last && unlinkOk && commandOk))
    {
      var vec := Read();
      vec := RemoveOne(vec, pid);
      vec := Living(vec, live);
      var exitFlag := vec == [];
      Write(vec + Zeros(SLOTS - |vec|));
      ok, exists_ := true, vlan;
      if exitFlag {
        if !unlinkOk {
          ok := false;
        } else {
          ok := commandOk;
          exists_ := vlan && !commandOk;
        }
      }
    }
  }

  // ----- the protocol -----

  datatype State = State(words: seq<nat>, vlan: bool, live: set<nat>, sockets: map<nat, nat>)
  {
    /** How many open sockets on the VLAN a process has. */
    function Sockets(pid: nat): nat {
      if pid in sockets then sockets[pid] else 0
    }
  }

  /** The flags say whether the external command, the unlinking and the socket calls succeed. */
  datatype Step =
    | Open(pid: nat, commandOk: bool, socketOk: bool)
    | Close(pid: nat, unlinkOk: bool, commandOk: bool)
    | Crash(pid: nat)
    | Spawn(pid: nat)

  predicate Enabled(s: State, step: Step) {
    match step
    case Open(pid, _, _) => pid in s.live
    case Close(pid, _, _) => pid in s.live && s.Sockets(pid) > 0
    case Crash(pid) => pid in s.live
    case Spawn(pid) => pid != 0 && pid !in s.live
  }

  function Next(s: State, step: Step): State
    requires |s.words| == SLOTS && Enabled(s, step)
  {
    match step
    case Open(pid, commandOk, socketOk) =>
      var first := Entries(s.words) == [];
      var vlan := s.vlan || (first && commandOk);
      // Looking the interface up fails when the VLAN is missing.
      var opens := (!first || commandOk) && vlan && socketOk;
      s.(words := AfterCreate(s.words, pid), vlan := vlan,
      sockets := if opens then s.sockets[pid := s.Sockets(pid) + 1] else s.sockets)
    case Close(pid, unlinkOk, commandOk) =>
      var rest := Remaining(s.words, pid, s.live);
      var done := unlinkOk && commandOk;
      s.(words := Padded(rest), vlan := s.vlan && !(rest == [] && done),
      sockets := if rest == [] && !done then s.sockets else s.sockets[pid := s.Sockets(pid) - 1])
    case Crash(pid) => s.(live := s.live - {pid}, sockets := s.sockets[pid := 0])
    case Spawn(pid) => s.(live := s.live + {pid}, sockets := s.sockets[pid := 0])
  }

  /** The table is compact, the VLAN exists exactly while the table has entries, and every process is entered
      at least as often as it has sockets open. */
  ghost predicate Inv(s: State) {
    && Compact(s.words) && 0 !in s.live
    && (s.vlan <==> Entries(s.words) != [])
    && Owned(s) && Entered(s)
  }

  /** Only live processes have sockets. */
  ghost predicate Owned(s: State) {
    forall p :: s.Sockets(p) > 0 ==> p in s.live
  }

  /** Every process is entered at least as often as it has sockets. */
  ghost predicate Entered(s: State) {
    forall p :: s.Sockets(p) <= multiset(Entries(s.words))[p]
  }

  /** No command that this step issues fails, and a process it gives a socket gets an entry or has one to spare. */
  predicate Good(s: State, step: Step)
    requires |s.words| == SLOTS
  {
    match step
    case Open(pid, commandOk, socketOk) =>
      && (Entries(s.words) == [] ==> commandOk)
      && (|Entries(s.words)| == SLOTS && socketOk ==> s.Sockets(pid) < multiset(Entries(s.words))[pid])
    case Close(pid, unlinkOk, commandOk) =>
      Remaining(s.words, pid, s.live) == [] ==> unlinkOk && commandOk
    case Crash(_) => true
    case Spawn(_) => true
  }

  lemma {:induction false} RemoveFirstCounts(entries: seq<nat>, pid: nat, p: nat)
    ensures multiset(RemoveFirst(entries, pid))[p] ==
            multiset(entries)[p] - (if p == pid && pid in entries then 1 else 0)
  {
    if entries != [] {
      assert entries == [entries[0]] + entries[1..];
      if entries[0] != pid {
        RemoveFirstCounts(entries[1..], pid, p);
      }
    }
  }

  lemma {:induction false} LivingCounts(entries: seq<nat>, live: set<nat>, p: nat)
    ensures multiset(Living(entries, live))[p] == if p in live then multiset(entries)[p] else 0
  {
    if entries != [] {
      assert entries == [entries[0]] + entries[1..];
      LivingCounts(entries[1..], live, p);
    }
  }

  /** A close takes out exactly one entry of the closing process and every entry of the dead ones. */
  lemma RemainingCounts(words: seq<nat>, pid: nat, live: set<nat>, p: nat)
    requires pid in Entries(words)
    ensures multiset(Remaining(words, pid, live))[p] ==
            if p !in live then 0 else multiset(Entries(words))[p] - (if p == pid then 1 else 0)
  {
    hide Entries, RemoveFirst, Living;
    RemoveFirstCounts(Entries(words), pid, p);
    LivingCounts(RemoveFirst(Entries(words), pid), live, p);
  }

  lemma OpenExact(s: State, step: Step)
    requires Inv(s) && step.Open? && Enabled(s, step)
    ensures Inv(Next(s, step)) <==> Good(s, step)
  {
    CreateAppends(s.words, step.pid);
    if |Entries(s.words)| < SLOTS {
      OpenWithRoom(s, step);
    } else {
      OpenWhenFull(s, step);
    }
  }

  lemma OpenWithRoom(s: State, step: Step)
    requires Inv(s) && step.Open? && Enabled(s, step) && |Entries(s.words)| < SLOTS
    ensures Inv(Next(s, step)) <==> Good(s, step)
  {
    var pid, next, entries := step.pid, Next(s, step), Entries(s.words);
    CreateAppends(s.words, pid);
    hide Entries, Compact, AfterCreate, Owned, Entered;
    EnteredWithRoom(s, next, pid);
    OwnedAfterOpen(s, next, pid);
  }

  lemma OpenWhenFull(s: State, step: Step)
    requires Inv(s) && step.Open? && Enabled(s, step) && |Entries(s.words)| == SLOTS
    ensures Inv(Next(s, step)) <==> Good(s, step)
  {
    var pid, next, entries := step.pid, Next(s, step), Entries(s.words);
    CreateAppends(s.words, pid);
    hide Entries, Compact, AfterCreate, Owned, Entered;
    EnteredWhenFull(s, next, pid);
    OwnedAfterOpen(s, next, pid);
  }

  lemma EnteredWithRoom(s: State, next: State, pid: nat)
    requires Entered(s) && Entries(next.words) == Entries(s.words) + [pid]
    requires next.sockets == s.sockets || next.sockets == s.sockets[pid := s.Sockets(pid) + 1]
    ensures Entered(next)
  {
    hide Entries;
    forall p ensures next.Sockets(p) <= multiset(Entries(s.words) + [pid])[p] {
      assert s.Sockets(p) <= multiset(Entries(s.words))[p];
    }
  }

  lemma EnteredWhenFull(s: State, next: State, pid: nat)
    requires Entered(s) && Entries(next.words) == Entries(s.words)
    requires next.sockets == s.sockets || next.sockets == s.sockets[pid := s.Sockets(pid) + 1]
    ensures Entered(next) <==> (next.sockets == s.sockets || s.Sockets(pid) < multiset(Entries(s.words))[pid])
  {
    hide Entries;
    forall p ensures next.Sockets(p) == s.Sockets(p) || (p == pid && next.Sockets(p) == s.Sockets(p) + 1) {
    }
    forall p | p != pid || next.sockets == s.sockets ensures next.Sockets(p) <= multiset(Entries(s.words))[p] {
      assert s.Sockets(p) <= multiset(Entries(s.words))[p];
    }
    if next.sockets != s.sockets {
      assert next.Sockets(pid) == s.Sockets(pid) + 1;
    }
  }

  lemma OwnedAfterOpen(s: State, next: State, pid: nat)
    requires Owned(s) && pid in s.live && next.live == s.live
    requires next.sockets == s.sockets || next.sockets == s.sockets[pid := s.Sockets(pid) + 1]
    ensures Owned(next)
  {
    forall p | next.Sockets(p) > 0 ensures p in next.live {
      assert s.Sockets(p) > 0 || p == pid;
    }
  }

  lemma CloseExact(s: State, step: Step)
    requires Inv(s) && step.Close? && Enabled(s, step)
    ensures Inv(Next(s, step)) <==> Good(s, step)
  {
    hide Entries, Remaining;
    var pid, rest := step.pid, Remaining(s.words, step.pid, s.live);
    var next := Next(s, step);
    assert 0 < s.Sockets(pid) <= multiset(Entries(s.words))[pid];
    RemainingNonzero(s.words, pid, s.live);
    ReadAfterWrite(rest, SLOTS - |rest|);
    assert Entries(next.words) == rest;
    if Good(s, step) {
      forall p ensures next.Sockets(p) <= multiset(rest)[p] {
        RemainingCounts(s.words, pid, s.live, p);
        assert s.Sockets(p) <= multiset(Entries(s.words))[p];
      }
    }
  }

  lemma RemainingNonzero(words: seq<nat>, pid: nat, live: set<nat>)
    ensures forall k :: 0 <= k < |Remaining(words, pid, live)| ==> Remaining(words, pid, live)[k] != 0
  {
    var entries := Entries(words);
    var rest := RemoveFirst(entries, pid);
    forall k | 0 <= k < |Living(rest, live)| ensures Living(rest, live)[k] != 0 {
      assert Living(rest, live)[k] in rest;
    }
  }

  /** A step keeps the invariant exactly when the commands it issues succeed and the table has room for it. */
  lemma StepExact(s: State, step: Step)
    requires Inv(s) && Enabled(s, step)
    ensures Inv(Next(s, step)) <==> Good(s, step)
  {
    hide Entries, Compact, Next;
    if step.Open? {
      OpenExact(s, step);
    } else if step.Close? {
      CloseExact(s, step);
    } else {
      OtherExact(s, step);
    }
  }

  lemma OtherExact(s: State, step: Step)
    requires Inv(s) && (step.Crash? || step.Spawn?) && Enabled(s, step)
    ensures Inv(Next(s, step))
  {
    var next := Next(s, step);
    hide Entries, Compact, Owned, Entered;
    OwnedWithout(s, next, step.pid);
    EnteredWithout(s, next, step.pid);
  }

  lemma OwnedWithout(s: State, next: State, pid: nat)
    requires Owned(s) && s.live - {pid} <= next.live && next.sockets == s.sockets[pid := 0]
    ensures Owned(next)
  {
    forall p | next.Sockets(p) > 0 ensures p in next.live {
      assert p != pid && s.Sockets(p) > 0;
    }
  }

  lemma EnteredWithout(s: State, next: State, pid: nat)
    requires Entered(s) && next.words == s.words && next.sockets == s.sockets[pid := 0]
    ensures Entered(next)
  {
    hide Entries;
    forall p ensures next.Sockets(p) <= multiset(Entries(next.words))[p] {
      assert s.Sockets(p) <= multiset(Entries(s.words))[p];
    }
  }

  // ----- whole runs -----

  predicate Runs(s: State, steps: seq<Step>)
    requires |s.words| == SLOTS
    decreases |steps|
  {
    steps == [] || (Enabled(s, steps[0]) && Runs(Next(s, steps[0]), steps[1..]))
  }

  function After(s: State, steps: seq<Step>): (end: State)
    requires |s.words| == SLOTS && Runs(s, steps)
    ensures |end.words| == SLOTS
    decreases |steps|
  {
    if steps == [] then s else After(Next(s, steps[0]), steps[1..])
  }

  ghost predicate AlwaysInv(s: State, steps: seq<Step>)
    requires |s.words| == SLOTS && Runs(s, steps)
    decreases |steps|
  {
    Inv(s) && (steps == [] || AlwaysInv(Next(s, steps[0]), steps[1..]))
  }

  predicate AlwaysGood(s: State, steps: seq<Step>)
    requires |s.words| == SLOTS && Runs(s, steps)
    decreases |steps|
  {
    steps == [] || (Good(s, steps[0]) && AlwaysGood(Next(s, steps[0]), steps[1..]))
  }

  function Initial(): State {
    State(Zeros(SLOTS), false, {}, map[])
  }

  /** Over every run of opens, closes, crashes and new processes, the invariant holds throughout exactly when
      every step was good. */
  lemma {:induction false} RunExact(s: State, steps: seq<Step>)
    requires Inv(s) && Runs(s, steps)
    ensures AlwaysInv(s, steps) <==> AlwaysGood(s, steps)
    decreases |steps|
  {
    if steps != [] {
      StepExact(s, steps[0]);
      if Good(s, steps[0]) {
        RunExact(Next(s, steps[0]), steps[1..]);
      }
    }
  }

  lemma InitialInv()
    ensures Inv(Initial())
  {
    NoEntries();
    hide Zeros, Entries;
  }

  lemma NoEntries()
    ensures Entries(Zeros(SLOTS)) == [] && Compact(Zeros(SLOTS))
  {
    ReadAfterWrite([], SLOTS);
    assert [] + Zeros(SLOTS) == Zeros(SLOTS);
  }

  lemma {:induction false} GoodRunEndsWell(s: State, steps: seq<Step>)
    requires Inv(s) && Runs(s, steps) && AlwaysGood(s, steps)
    ensures Inv(After(s, steps))
    decreases |steps|
  {
    if steps != [] {
      StepExact(s, steps[0]);
      GoodRunEndsWell(Next(s, steps[0]), steps[1..]);
    }
  }

  /** After any good run the VLAN is there for everyone with an open socket, and a good step that deletes it
      leaves no open socket anywhere. */
  lemma NeverDeletedUnderUser(steps: seq<Step>, step: Step)
    requires Runs(Initial(), steps) && AlwaysGood(Initial(), steps)
    requires Enabled(After(Initial(), steps), step) && Good(After(Initial(), steps), step)
    ensures var s := After(Initial(), steps);
      && (forall p :: s.Sockets(p) > 0 ==> s.vlan)
      && (s.vlan && !Next(s, step).vlan ==> forall p :: Next(s, step).Sockets(p) == 0)
  {
    InitialInv();
    GoodRunEndsWell(Initial(), steps);
    var s := After(Initial(), steps);
    StepExact(s, step);
    hide Next, Good, Enabled, After, Entries, Initial;
  }

  // ----- a failed create command -----

  /** The table has entries but the VLAN does not exist, and nobody has a socket. */
  ghost predicate Stuck(s: State) {
    Compact(s.words) && 0 !in s.live && !s.vlan && Entries(s.words) != [] && forall p :: s.Sockets(p) == 0
  }

  /** When the first user's create command fails, its process id stays in the table ... */
  lemma FailedCreateSticks(s: State, step: Step)
    requires Inv(s) && Enabled(s, step)
    requires step.Open? && Entries(s.words) == [] && !step.commandOk
    ensures Stuck(Next(s, step))
  {
    CreateAppends(s.words, step.pid);
    forall p ensures Next(s, step).Sockets(p) == 0 {
      assert s.Sockets(p) <= multiset(Entries(s.words))[p];
    }
  }

  /** ... and from then on no run, however its commands succeed, ever creates the VLAN or opens a socket. */
  lemma {:induction false} StuckForever(s: State, steps: seq<Step>)
    requires Stuck(s) && Runs(s, steps)
    ensures Stuck(After(s, steps))
    decreases |steps|
  {
    if steps != [] {
      var next := Next(s, steps[0]);
      if steps[0].Open? {
        CreateAppends(s.words, steps[0].pid);
        assert next.sockets == s.sockets;
      }
      forall p ensures next.Sockets(p) == 0 {
        assert s.Sockets(p) == 0;
      }
      StuckForever(next, steps[1..]);
    }
  }
}
