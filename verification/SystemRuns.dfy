/** Runs of the memory system: any sequence of kernel calls, of single steps of a map between which other cores
    may allocate, and of writes by the holders of buffers.  Maps may fail. */
module SystemRuns {
  import opened Bits
  import opened Common
  import opened MmSpec
  import opened MmLaws
  import opened ReallocLaws
  import opened VmmSpec
  import opened TreeLaws
  import opened MemorySystem
  import opened UnmapLaws
  import opened DeadLinks

  datatype Op =
    | Map(phys: u64, virt: u64, flags: u64)         // vmm_map_page returning true
    | FailedMap(phys: u64, virt: u64, flags: u64)   // and returning false
    | Unmap(virt: u64)
    | Kmalloc(len: u64)
    | Kfree(buf: u64)
    | Krealloc(buf: u64, newLen: u64)
    | MapLevel(virt: u64, d: nat)                   // one `get_next_level` of a map
    | FailedLevel(virt: u64, d: nat)                // the one a map fails at
    | MapEntry(phys: u64, virt: u64, flags: u64)    // its last assignment
    | Write(word: nat, value: u64)  // a 64-bit store by a caller, at byte address 8 * word

  /** A byte address that kmalloc returned for a buffer its caller still holds. */
  ghost predicate IsBuffer(s: Sys, buf: u64) {
    buf % 4096 == 0 && IsClient(s, buf / 4096)
  }

  ghost predicate InBuffer(s: Sys, word: nat) {
    exists a: nat :: IsClient(s, a) && a * WORDS_PER_PAGE <= word < (a + s.live[a]) * WORDS_PER_PAGE
  }

  /** What the code relies on and does not check: growing reallocations find their pages, callers free, reallocate
      and write only buffers they hold, and those freed or reallocated still have their records.  A map is
      recorded with its outcome, and in every state one of the two is enabled; see MapOrFail.
      A kmalloc or a map may wrap the counter of records; see RunLaws.  While a map holds the pagemap lock only
      it can go on in the tables, but other calls can take and release the allocator's lock in between. */
  ghost predicate Enabled(s: Sys, op: Op) {
    match op
    case Map(_, virt, _) => s.path.Idle? && CanMap(s, Vpn(virt))
    case FailedMap(_, virt, _) => s.path.Idle? && !CanMap(s, Vpn(virt))
    case Unmap(_) => s.path.Idle?
    case MapLevel(virt, d) => d < 3 && AtDepth(s, Vpn(virt), d) && HasNext(s, Vpn(virt), d)
    case FailedLevel(virt, d) => d < 3 && AtDepth(s, Vpn(virt), d) && !HasNext(s, Vpn(virt), d)
    case MapEntry(_, virt, _) => AtDepth(s, Vpn(virt), 3)
    case Kmalloc(_) => true
    case Kfree(buf) => IsBuffer(s, buf) && Recorded(s.m.mm, buf / 4096)
    case Krealloc(buf, newLen) =>
      var f := FirstFit(s.m.mm, PagesFor(newLen));
      buf == 0 ||
      (&& IsBuffer(s, buf) && Recorded(s.m.mm, buf / 4096)
       && (PagesFor(newLen) <= s.live[buf / 4096] % U16 || (f.Some? && !Wraps(s.m.mm.recs, f.value))))
    case Write(word, _) => InBuffer(s, word)
  }

  ghost function AfterMalloc(s: Sys, len: u64): Sys {
    var (mm, addr) := Malloc(s.m.mm, len);
    var n := PagesFor(len);
    s.(m := s.m.(mm := mm), live := if addr == 0 || n == 0 then s.live else s.live[addr / 4096 := n])
  }

  ghost function AfterRealloc(s: Sys, buf: u64, newLen: u64): Sys
    requires MmInv(s.m.mm) && |s.m.mem| == s.m.mm.limit * WORDS_PER_PAGE
  {
    var a := buf / 4096;
    var n := PagesFor(newLen);
    var r := MmSpec.Krealloc(s.m, buf, newLen);
    if buf == 0 then AfterMalloc(s, newLen)
    else if !r.Returned? || (a in s.live && n <= s.live[a] % U16) then s
    else s.(m := r.value.0, live := (s.live - {a})[r.value.1 / 4096 := n])
  }

  /** The kernel state after a call is what the call's specification says; see StepIsTheCall. */
  ghost function Step(s: Sys, op: Op): Sys
    requires MmInv(s.m.mm) && |s.m.mem| == s.m.mm.limit * WORDS_PER_PAGE
  {
    match op
    case Map(phys, virt, flags) => AfterMap(s, phys, virt, flags)
    case Unmap(virt) => AfterUnmap(s, virt)
    case FailedMap(_, virt, _) => AfterFailedMap(s, virt)
    case MapLevel(virt, d) => AfterLevel(s, virt, d)
    case FailedLevel(virt, d) => GiveUp(s, Vpn(virt), d)
    case MapEntry(phys, virt, flags) => AfterEntry(s, phys, virt, flags)
    case Kmalloc(len) => AfterMalloc(s, len)
    case Kfree(buf) =>
      var r := Free(s.m.mm, buf / 4096);
      if r.Panicked? then s else s.(m := s.m.(mm := r.value), live := s.live - {buf / 4096})
    case Krealloc(buf, newLen) => AfterRealloc(s, buf, newLen)
    case Write(word, value) => s.(m := s.m.(mem := if word < |s.m.mem| then s.m.mem[word := value] else s.m.mem))
  }

  /** The machine state of Step is that of the call itself. */
  lemma StepIsTheCall(s: Sys, op: Op)
    requires SysInv(s) && Enabled(s, op)
    ensures match op
            case Map(phys, virt, flags) => MapPage(s.m, s.root, phys, virt, flags) == (Step(s, op).m, true)
            case FailedMap(phys, virt, flags) => MapPage(s.m, s.root, phys, virt, flags) == (Step(s, op).m, false)
            case Unmap(virt) => UnmapPage(s.m, s.root, virt).0 == Step(s, op).m
            case MapLevel(virt, d) =>
              var from, to := NodeAt(Vpn(virt), d), NodeAt(Vpn(virt), d + 1);
              && from in s.nodes && to in Step(s, op).nodes
              && NextLevel(s.m, s.nodes[from] * 4096, Index(virt, Shift(d)), true) ==
                 (Step(s, op).m, Step(s, op).nodes[to] * 4096)
            case FailedLevel(virt, d) =>
              var from := NodeAt(Vpn(virt), d);
              && from in s.nodes
              && NextLevel(s.m, s.nodes[from] * 4096, Index(virt, Shift(d)), true) == (Step(s, op).m, 0)
            case MapEntry(phys, virt, flags) =>
              var table := NodeAt(Vpn(virt), 3);
              && table in s.nodes
              && Step(s, op).m ==
                 s.m.(mem := Store(s.m.mem, s.nodes[table] * 4096, Index(virt, 12), Word(Or(phys, flags))))
            case Kmalloc(len) => MmSpec.Kmalloc(s.m, len).0 == Step(s, op).m
            case Kfree(buf) => Free(s.m.mm, buf / 4096) == Returned(Step(s, op).m.mm) && Step(s, op).m.mem == s.m.mem
            case Krealloc(buf, newLen) =>
              MmSpec.Krealloc(s.m, buf, newLen).Returned? && MmSpec.Krealloc(s.m, buf, newLen).value.0 == Step(s, op).m
            case Write(word, value) => word < |s.m.mem| && Step(s, op).m == s.m.(mem := s.m.mem[word := value])
  {
    hide MapPage, UnmapPage, AfterMap, AfterUnmap, AfterLevel, AfterEntry, NextLevel, Store, NodeAt, Malloc, MmInv,
         TreeInv, IsLive, FreePages, Translates, Accounted, AtDepth, CanMap, AfterFailedMap, GiveUp, HasNext, Index,
         Slot;
    match op
    case Map(phys, virt, flags) => MapIs(s, phys, virt, flags);
    case Unmap(virt) => UnmapIs(s, virt);
    case FailedMap(phys, virt, flags) => FailedMapIs(s, phys, virt, flags);
    case MapLevel(virt, d) => LevelKeepsInv(s, virt, d);
    case FailedLevel(virt, d) => SlotIsIndex(virt, d); GiveUpKeepsInv(s, Vpn(virt), d);
    case MapEntry(phys, virt, flags) => EntryKeepsInv(s, phys, virt, flags);
    case Kmalloc(len) =>
    case Kfree(buf) => FreeKeepsLive(s.m.mm, buf / 4096, s.live);
    case Krealloc(buf, newLen) => ReallocIsTheCall(s, buf, newLen);
    case Write(word, value) => StoreInBounds(s, word);
  }

  lemma StoreInBounds(s: Sys, word: nat)
    requires Consistent(s) && InBuffer(s, word)
    ensures word < |s.m.mem|
  {
    hide MmInv, TreeInv, IsLive;
    var a: nat :| IsClient(s, a) && a * WORDS_PER_PAGE <= word < (a + s.live[a]) * WORDS_PER_PAGE;
    LiveInBounds(s.m.mm, s.live, a);
  }

  lemma LiveInBounds(mm: Mm, live: map<nat, nat>, a: nat)
    requires LiveInv(mm, live) && a in live
    ensures 0 < a && a + live[a] < mm.limit
  {
    assert IsLive(mm, a, live[a]);
  }

  lemma ReallocIsTheCall(s: Sys, buf: u64, newLen: u64)
    requires Consistent(s) && Enabled(s, Krealloc(buf, newLen))
    ensures MmSpec.Krealloc(s.m, buf, newLen).Returned?
    ensures MmSpec.Krealloc(s.m, buf, newLen).value.0 == AfterRealloc(s, buf, newLen).m
  {
    hide MmInv, LiveInv, TreeInv, IsLive, FirstFit, PagesFor, Recorded, Wraps;
    if buf == 0 {
      NullRealloc(s, newLen);
    } else {
      var a := buf / 4096;
      if PagesFor(newLen) <= s.live[a] % U16 {
        KreallocStays(s.m, a, newLen, s.live);
      } else {
        KreallocMoves(s.m, a, newLen, s.live);
      }
    }
  }

  lemma NullRealloc(s: Sys, newLen: u64)
    requires MmInv(s.m.mm) && |s.m.mem| == s.m.mm.limit * WORDS_PER_PAGE
    ensures MmSpec.Krealloc(s.m, 0, newLen) == Returned(MmSpec.Kmalloc(s.m, newLen))
    ensures AfterRealloc(s, 0, newLen) == AfterMalloc(s, newLen)
    ensures MmSpec.Kmalloc(s.m, newLen).0 == AfterMalloc(s, newLen).m
  {
  }

  // ---------------------------------------------------------------- every step keeps the invariant

  /** The tables and what they translate do not change while every word of every table page stays. */
  lemma TablesUntouched(s: Sys, t: Sys)
    requires SysInv(s)
    requires t.root == s.root && t.nodes == s.nodes && t.mapped == s.mapped && t.flat == s.flat && t.path == s.path
    requires t.dead == s.dead && t.stubs == s.stubs && SamePages(s.m.mem, 0, t.m.mem, 0, 1)
    requires Wired(t.m, t.live) && |t.m.mem| == |s.m.mem|
    requires forall n :: n in s.nodes ==> s.nodes[n] in t.live && t.live[s.nodes[n]] == 1
    requires forall n :: n in s.nodes ==> SamePages(s.m.mem, s.nodes[n], t.m.mem, s.nodes[n], 1)
    ensures SysInv(t)
  {
    hide MmInv, LiveInv, TreeInv, Leaf, Accounted, Entry, SamePages;
    forall n, i: nat | n in s.nodes && i < 512 ensures Entry(t.m.mem, s.nodes[n], i) == Entry(s.m.mem, s.nodes[n], i) {
      SameEntry(s.m.mem, t.m.mem, s.nodes[n], i);
    }
    forall j: nat | j < 512 ensures Load(t.m.mem, 0, j) == Load(s.m.mem, 0, j) {
      SameZero(s.m.mem, t.m.mem, j);
    }
    WriteOutside(s.m.mem, t.m.mem, s.root, s.nodes, s.dead);
    AccountedElsewhere(s, t);
  }

  lemma SameZero(before: seq<u64>, after: seq<u64>, j: nat)
    requires SamePages(before, 0, after, 0, 1) && j < 512
    ensures Load(after, 0, j) == Load(before, 0, j)
  {
    assert before[0 * WORDS_PER_PAGE..1 * WORDS_PER_PAGE][j] == after[0 * WORDS_PER_PAGE..1 * WORDS_PER_PAGE][j];
  }

  lemma SameEntry(before: seq<u64>, after: seq<u64>, p: nat, i: nat)
    requires SamePages(before, p, after, p, 1) && i < 512
    ensures Entry(after, p, i) == Entry(before, p, i)
  {
    var b := before[p * WORDS_PER_PAGE..(p + 1) * WORDS_PER_PAGE];
    var a := after[p * WORDS_PER_PAGE..(p + 1) * WORDS_PER_PAGE];
    assert a[i] == b[i];
  }

  lemma SamePagesItself(mem: seq<u64>, p: nat, n: nat)
    requires (p + n) * WORDS_PER_PAGE <= |mem|
    ensures SamePages(mem, p, mem, p, n)
  {
  }

  lemma TablesInBounds(s: Sys)
    requires Consistent(s)
    ensures forall n :: n in s.nodes ==> (s.nodes[n] + 1) * WORDS_PER_PAGE <= |s.m.mem|
    ensures WORDS_PER_PAGE <= |s.m.mem|
  {
    hide MmInv, LiveInv;
    assert NodeOk(s.m.mem, s.nodes, s.dead, ROOT);
    forall n | n in s.nodes ensures (s.nodes[n] + 1) * WORDS_PER_PAGE <= |s.m.mem| {
      assert NodeOk(s.m.mem, s.nodes, s.dead, n);
    }
  }

  lemma MallocKeeps(s: Sys, len: u64)
    requires SysInv(s)
    ensures SysInv(AfterMalloc(s, len))
  {
    hide MmInv, LiveInv, TreeInv, Leaf, Accounted, Translates, PagesFor, FirstFit, Malloc, SamePages;
    MallocKeepsInv(s.m.mm, len);
    MallocKeepsLimit(s.m.mm, len);
    MallocKeepsLive(s.m.mm, len, s.live);
    TablesInBounds(s);
    SamePagesItself(s.m.mem, 0, 1);
    forall n | n in s.nodes ensures SamePages(s.m.mem, s.nodes[n], s.m.mem, s.nodes[n], 1) {
      SamePagesItself(s.m.mem, s.nodes[n], 1);
    }
    TablesUntouched(s, AfterMalloc(s, len));
  }

  lemma MallocKeepsLimit(mm: Mm, len: u64)
    ensures Malloc(mm, len).0.limit == mm.limit
  {
  }

  lemma FreeKeeps(s: Sys, a: nat)
    requires SysInv(s) && IsClient(s, a) && Recorded(s.m.mm, a)
    ensures Free(s.m.mm, a).Returned?
    ensures SysInv(s.(m := s.m.(mm := Free(s.m.mm, a).value), live := s.live - {a}))
  {
    hide MmInv, LiveInv, TreeInv, Leaf, Accounted, Translates, SamePages;
    FreeKeepsLive(s.m.mm, a, s.live);
    TablesInBounds(s);
    SamePagesItself(s.m.mem, 0, 1);
    forall n | n in s.nodes ensures SamePages(s.m.mem, s.nodes[n], s.m.mem, s.nodes[n], 1) && s.nodes[n] != a {
      SamePagesItself(s.m.mem, s.nodes[n], 1);
      assert s.nodes[n] in s.nodes.Values;
    }
    TablesUntouched(s, s.(m := s.m.(mm := Free(s.m.mm, a).value), live := s.live - {a}));
  }

  lemma WriteKeeps(s: Sys, word: nat, value: u64)
    requires SysInv(s) && InBuffer(s, word)
    ensures word < |s.m.mem| && SysInv(s.(m := s.m.(mem := s.m.mem[word := value])))
  {
    hide MmInv, TreeInv, Leaf, Accounted, Translates, IsLive;
    var a: nat :| IsClient(s, a) && a * WORDS_PER_PAGE <= word < (a + s.live[a]) * WORDS_PER_PAGE;
    LiveInBounds(s.m.mm, s.live, a);
    TablesInBounds(s);
    forall n | n in s.nodes ensures SamePages(s.m.mem, s.nodes[n], s.m.mem[word := value], s.nodes[n], 1) {
      assert s.nodes[n] in s.nodes.Values;
      assert Apart(a, s.live[a], s.nodes[n], 1);
    }
    ZeroPageSame(s.m.mem, word, value);
    TablesUntouched(s, s.(m := s.m.(mem := s.m.mem[word := value])));
  }

  lemma ZeroPageSame(mem: seq<u64>, word: nat, value: u64)
    requires WORDS_PER_PAGE <= word < |mem|
    ensures SamePages(mem, 0, mem[word := value], 0, 1)
  {
    assert mem[0 * WORDS_PER_PAGE..1 * WORDS_PER_PAGE] == mem[word := value][0 * WORDS_PER_PAGE..1 * WORDS_PER_PAGE];
  }

  lemma ZeroPageNotCopied(before: seq<u64>, after: seq<u64>, dst: nat, src: nat, n: nat)
    requires PagesCopied(before, after, dst, src, n) && dst > 0 && WORDS_PER_PAGE <= |before|
    ensures SamePages(before, 0, after, 0, 1)
  {
    assert before[0 * WORDS_PER_PAGE..1 * WORDS_PER_PAGE] == after[0 * WORDS_PER_PAGE..1 * WORDS_PER_PAGE];
  }

  lemma ReallocKeeps(s: Sys, a: nat, newLen: u64)
    requires SysInv(s) && IsClient(s, a) && a * 4096 < U64 && Recorded(s.m.mm, a)
    requires var f := FirstFit(s.m.mm, PagesFor(newLen));
             PagesFor(newLen) > s.live[a] % U16 && f.Some? && !Wraps(s.m.mm.recs, f.value)
    ensures MmSpec.Krealloc(s.m, a * 4096, newLen).Returned?
    ensures var r := MmSpec.Krealloc(s.m, a * 4096, newLen).value;
            SysInv(s.(m := r.0, live := (s.live - {a})[r.1 / 4096 := PagesFor(newLen)]))
  {
    hide MmInv, LiveInv, TreeInv, Leaf, Accounted, Translates, SamePages, MmSpec.Krealloc, PagesFor, FirstFit,
         Recorded, Wraps;
    KreallocMoves(s.m, a, newLen, s.live);
    var r := MmSpec.Krealloc(s.m, a * 4096, newLen).value;
    KreallocKeepsLimit(s.m, a, newLen, s.live);
    forall n | n in s.nodes
      ensures SamePages(s.m.mem, s.nodes[n], r.0.mem, s.nodes[n], 1) && s.nodes[n] != a && s.nodes[n] != r.1 / 4096
    {
      assert s.nodes[n] in s.nodes.Values;
      KreallocKeepsBuffers(s.m, a, newLen, s.live, s.nodes[n]);
    }
    TablesInBounds(s);
    ZeroPageNotCopied(s.m.mem, r.0.mem, FirstFit(s.m.mm, PagesFor(newLen)).value, a, s.live[a] % U16);
    TablesUntouched(s, s.(m := r.0, live := (s.live - {a})[r.1 / 4096 := PagesFor(newLen)]));
  }

  lemma KreallocKeepsLimit(m: Machine, a: nat, newLen: u64, live: map<nat, nat>)
    requires Wired(m, live) && a in live && a * 4096 < U64 && Recorded(m.mm, a)
    requires MmSpec.Krealloc(m, a * 4096, newLen).Returned?
    ensures var after := MmSpec.Krealloc(m, a * 4096, newLen).value.0.mm;
            after.limit == m.mm.limit && after.table == m.mm.table && after.tablePages == m.mm.tablePages
    ensures |MmSpec.Krealloc(m, a * 4096, newLen).value.0.mem| == |m.mem|
  {
    hide MmInv, FindRec, FreeRun, SetRange, Assign, CopyForward;
  }

  /** Every enabled call keeps the invariant. */
  lemma StepKeepsInv(s: Sys, op: Op)
    requires SysInv(s) && Enabled(s, op)
    ensures SysInv(Step(s, op))
  {
    hide Consistent, Accounted, Translates, MmInv, LiveInv, AfterMap, AfterUnmap, AfterLevel, AfterEntry,
         AfterMalloc, Malloc, FreePages, PagesFor, FirstFit, AtDepth, CanMap, AfterFailedMap, GiveUp, HasNext, Frame,
         NextLevel, Slot;
    SysParts(s);
    match op
    case Map(phys, virt, flags) => MapKeepsInv(s, phys, virt, flags);
    case Unmap(virt) => UnmapKeepsInv(s, virt);
    case FailedMap(phys, virt, flags) => FailedMapIs(s, phys, virt, flags);
    case MapLevel(virt, d) => LevelKeepsInv(s, virt, d);
    case FailedLevel(virt, d) => GiveUpKeepsInv(s, Vpn(virt), d);
    case MapEntry(phys, virt, flags) => EntryKeepsInv(s, phys, virt, flags);
    case Kmalloc(len) => MallocKeeps(s, len);
    case Kfree(buf) => FreeKeeps(s, buf / 4096);
    case Krealloc(buf, newLen) =>
      if buf == 0 {
        NullRealloc(s, newLen);
        MallocKeeps(s, newLen);
      } else if PagesFor(newLen) > s.live[buf / 4096] % U16 {
        ReallocKeeps(s, buf / 4096, newLen);
      }
    case Write(word, value) => WriteKeeps(s, word, value);
  }

  lemma SysParts(s: Sys)
    requires SysInv(s)
    ensures MmInv(s.m.mm) && |s.m.mem| == s.m.mm.limit * WORDS_PER_PAGE
  {
  }

  // ---------------------------------------------------------------- runs

  ghost predicate CanRun(s: Sys, ops: seq<Op>)
    requires SysInv(s)
    decreases |ops|
  {
    SysParts(s);
    ops == [] || (Enabled(s, ops[0]) && (StepKeepsInv(s, ops[0]); CanRun(Step(s, ops[0]), ops[1..])))
  }

  ghost function Run(s: Sys, ops: seq<Op>): Sys
    requires SysInv(s) && CanRun(s, ops)
    decreases |ops|
  {
    SysParts(s);
    if ops == [] then s
    else (StepKeepsInv(s, ops[0]); Run(Step(s, ops[0]), ops[1..]))
  }

  /** The flat map of page numbers to entries that a run of calls describes. */
  function FlatMap(flat: map<nat, u64>, ops: seq<Op>): map<nat, u64>
    decreases |ops|
  {
    if ops == [] then flat
    else match ops[0]
      case Map(phys, virt, flags) => FlatMap(flat[Vpn(virt) := Word(Or(phys, flags))], ops[1..])
      case MapEntry(phys, virt, flags) => FlatMap(flat[Vpn(virt) := Word(Or(phys, flags))], ops[1..])
      case Unmap(virt) => FlatMap(flat[Vpn(virt) := 0], ops[1..])
      case _ => FlatMap(flat, ops[1..])
  }

  function Translation(flat: map<nat, u64>, vpn: nat): u64 {
    if vpn in flat then flat[vpn] else 0
  }

  ghost predicate Agree(flat: map<nat, u64>, other: map<nat, u64>) {
    forall vpn :: 0 <= vpn < VPNS ==> Translation(flat, vpn) == Translation(other, vpn)
  }

  lemma StepAgrees(s: Sys, op: Op, flat: map<nat, u64>)
    requires SysInv(s) && Enabled(s, op) && Agree(s.flat, flat)
    ensures Agree(Step(s, op).flat, FlatMap(flat, [op]))
  {
    hide Consistent, Accounted, MmInv, LiveInv, TreeInv, Malloc, FirstFit, CanMap, FreePages, MmSpec.Krealloc,
         PagesFor, NodeAt, Leaf, AtDepth, AfterFailedMap, GiveUp, HasNext, Frame, NextLevel, Slot;
    SysParts(s);
    FlatMapOne(flat, op);
    if op.Unmap? && NodeAt(Vpn(op.virt), 3) !in s.nodes {
      UnservedLeaf(s.m.mem, s.nodes, Vpn(op.virt));
      assert Translation(s.flat, Vpn(op.virt)) == 0;
    }
    if op.FailedMap? { FailedMapIs(s, op.phys, op.virt, op.flags); }
    if op.FailedLevel? { GiveUpKeepsInv(s, Vpn(op.virt), op.d); }
    var after, other := Step(s, op).flat, FlatMap(flat, [op]);
    forall vpn | 0 <= vpn < VPNS ensures Translation(after, vpn) == Translation(other, vpn) {
      assert Translation(s.flat, vpn) == Translation(flat, vpn);
    }
  }

  /** A map returns true in exactly one of the two ways in which a run can record it. */
  lemma MapOrFail(s: Sys, phys: u64, virt: u64, flags: u64)
    requires SysInv(s) && s.path.Idle?
    ensures MapPage(s.m, s.root, phys, virt, flags).1 <==> Enabled(s, Map(phys, virt, flags))
    ensures !MapPage(s.m, s.root, phys, virt, flags).1 <==> Enabled(s, FailedMap(phys, virt, flags))
  {
    hide Accounted, Translates, Wired, TreeInv, MapPage, CanMap, Vpn;
    MapSucceedsIff(s, phys, virt, flags);
  }

  lemma FlatMapOne(flat: map<nat, u64>, op: Op)
    ensures FlatMap(flat, [op]) == match op
      case Map(phys, virt, flags) => flat[Vpn(virt) := Word(Or(phys, flags))]
      case MapEntry(phys, virt, flags) => flat[Vpn(virt) := Word(Or(phys, flags))]
      case Unmap(virt) => flat[Vpn(virt) := 0]
      case _ => flat
  {
    assert [op][1..] == [];
  }

  lemma {:induction false} FlatMapSplits(flat: map<nat, u64>, ops: seq<Op>)
    requires ops != []
    ensures FlatMap(flat, ops) == FlatMap(FlatMap(flat, [ops[0]]), ops[1..])
  {
    assert [ops[0]][1..] == [];
  }

  /** Every run of enabled calls keeps the invariant, and its effect on the page tables is that of the flat map. */
  lemma {:induction false} RunIs(s: Sys, ops: seq<Op>, flat: map<nat, u64>)
    requires SysInv(s) && CanRun(s, ops) && Agree(s.flat, flat)
    ensures SysInv(Run(s, ops)) && Run(s, ops).root == s.root
    ensures Agree(Run(s, ops).flat, FlatMap(flat, ops))
    decreases |ops|
  {
    if ops != [] {
      hide SysInv, Agree, Enabled, Step, FlatMap;
      OneStep(s, ops, flat);
      RunIs(Step(s, ops[0]), ops[1..], FlatMap(flat, [ops[0]]));
      FlatMapSplits(flat, ops);
    } else {
      hide SysInv;
    }
  }

  lemma OneStep(s: Sys, ops: seq<Op>, flat: map<nat, u64>)
    requires SysInv(s) && CanRun(s, ops) && Agree(s.flat, flat) && ops != []
    ensures MmInv(s.m.mm) && |s.m.mem| == s.m.mm.limit * WORDS_PER_PAGE
    ensures SysInv(Step(s, ops[0])) && Step(s, ops[0]).root == s.root
    ensures CanRun(Step(s, ops[0]), ops[1..]) && Run(s, ops) == Run(Step(s, ops[0]), ops[1..])
    ensures Agree(Step(s, ops[0]).flat, FlatMap(flat, [ops[0]]))
  {
    hide SysInv, Agree, Enabled, AfterMap, FlatMap;
    SysParts(s);
    StepKeepsInv(s, ops[0]);
    StepAgrees(s, ops[0], flat);
    RootStays(s, ops[0]);
  }

  lemma RootStays(s: Sys, op: Op)
    requires MmInv(s.m.mm) && |s.m.mem| == s.m.mm.limit * WORDS_PER_PAGE
    ensures Step(s, op).root == s.root
  {
    hide MmInv, MmSpec.Krealloc, Malloc, NextLevel, HasNext, NodeAt, Slot, Killed, Vpn;
    if op.Map? { assert ExtendAll(s, Vpn(op.virt)).root == s.root; }
  }

  /** After any run the hardware walk of the tables in memory reads the flat map: mapping an address sets
      the entry of the addresses that agree with it on bits 12 to 47, unmapping clears it, and no allocation,
      release, reallocation or write by a caller changes any translation. */
  lemma RunRefinesFlatMap(s: Sys, ops: seq<Op>, virt: u64)
    requires SysInv(s) && CanRun(s, ops)
    ensures Effective(Run(s, ops).m.mem, s.root, virt) == Translation(FlatMap(s.flat, ops), Vpn(virt))
  {
    hide MmInv, LiveInv, TreeInv, Enabled, Step, FlatMap, Run, CanRun, Walk, NodeAt, Leaf, Vpn;
    RunIs(s, ops, s.flat);
    WalkIs(Run(s, ops).m.mem, s.root, Run(s, ops).nodes, Run(s, ops).dead, virt);
    if NodeAt(Vpn(virt), 3) !in Run(s, ops).nodes {
      UnservedLeaf(Run(s, ops).m.mem, Run(s, ops).nodes, Vpn(virt));
    }
  }

  /** After any run every table is a live page of its own, apart from every caller's buffer, and the next
      kmalloc returns pages apart from all of them. */
  lemma RunKeepsTablesApart(s: Sys, ops: seq<Op>, len: u64)
    requires SysInv(s) && CanRun(s, ops)
    ensures var t := Run(s, ops);
            && (forall n, k :: n in t.nodes && k in t.nodes && n != k ==> t.nodes[n] != t.nodes[k])
            && (forall n :: n in t.nodes ==> IsLive(t.m.mm, t.nodes[n], 1))
            && (forall n, a :: n in t.nodes && IsClient(t, a) ==> Apart(t.nodes[n], 1, a, t.live[a]))
            && var (_, addr) := Malloc(t.m.mm, len);
               addr != 0 && PagesFor(len) > 0 ==>
                 forall a :: a in t.live ==> a != addr / 4096 && Apart(a, t.live[a], addr / 4096, PagesFor(len))
  {
    hide SysInv, Enabled, Step, FlatMap, Run, CanRun, PagesFor, Malloc, IsLive;
    RunIs(s, ops, s.flat);
    TablesApart(Run(s, ops), len);
  }

  lemma ConsistentParts(t: Sys)
    requires Consistent(t)
    ensures MmInv(t.m.mm) && LiveInv(t.m.mm, t.live)
  {
  }

  lemma TablesApart(t: Sys, len: u64)
    requires SysInv(t)
    ensures forall n, k :: n in t.nodes && k in t.nodes && n != k ==> t.nodes[n] != t.nodes[k]
    ensures forall n :: n in t.nodes ==> IsLive(t.m.mm, t.nodes[n], 1)
    ensures forall n, a :: n in t.nodes && IsClient(t, a) ==> Apart(t.nodes[n], 1, a, t.live[a])
    ensures var (_, addr) := Malloc(t.m.mm, len);
            addr != 0 && PagesFor(len) > 0 ==>
              forall a :: a in t.live ==> a != addr / 4096 && Apart(a, t.live[a], addr / 4096, PagesFor(len))
  {
    hide MmInv, PagesFor, FirstFit, Malloc, IsLive, Apart, NodeOk, Translates, Accounted;
    ConsistentParts(t);
    NewBufferApart(t.m.mm, len, t.live);
    forall n, a | n in t.nodes && IsClient(t, a) ensures Apart(t.nodes[n], 1, a, t.live[a]) {
      assert t.nodes[n] in t.nodes.Values;
    }
  }

  lemma NewBufferApart(mm: Mm, len: u64, live: map<nat, nat>)
    requires MmInv(mm) && LiveInv(mm, live)
    ensures var (_, addr) := Malloc(mm, len);
            addr != 0 && PagesFor(len) > 0 ==>
              forall a :: a in live ==> a != addr / 4096 && Apart(a, live[a], addr / 4096, PagesFor(len))
  {
    hide MmInv, IsLive, FirstFit, Malloc, PagesFor, Apart;
    MallocKeepsLive(mm, len, live);
    var addr, n := Malloc(mm, len).1, PagesFor(len);
    if addr != 0 && n > 0 {
      var after := live[addr / 4096 := n];
      forall a | a in live ensures a != addr / 4096 && Apart(a, live[a], addr / 4096, n) {
        assert a in after && addr / 4096 in after && after[a] == live[a];
      }
    }
  }

  // ---------------------------------------------------------------- table accounting

  ghost function Prefixes(mapped: set<nat>, span: nat): set<nat>
    requires span > 0
  {
    set v | v in mapped :: v / span
  }

  ghost function NodesOf(depth: nat, prefixes: set<nat>): set<Node> {
    set p | p in prefixes :: Node(depth, p)
  }

  lemma {:induction false} NodesOfSize(depth: nat, prefixes: set<nat>)
    ensures |NodesOf(depth, prefixes)| == |prefixes|
  {
    if prefixes != {} {
      var p :| p in prefixes;
      NodesOfSize(depth, prefixes - {p});
      assert NodesOf(depth, prefixes) == NodesOf(depth, prefixes - {p}) + {Node(depth, p)};
    } else {
      assert NodesOf(depth, prefixes) == {};
    }
  }

  lemma PathNodesAre(mapped: set<nat>, n: Node)
    ensures OnSomePath(mapped, n) <==>
            || n in NodesOf(1, Prefixes(mapped, 0x800_0000))
            || n in NodesOf(2, Prefixes(mapped, 0x4_0000))
            || n in NodesOf(3, Prefixes(mapped, 0x200))
  {
    if OnSomePath(mapped, n) {
      var v :| v in mapped && n == NodeAt(v, n.depth);
      assert n.depth == 1 ==> v / 0x800_0000 in Prefixes(mapped, 0x800_0000);
      assert n.depth == 2 ==> v / 0x4_0000 in Prefixes(mapped, 0x4_0000);
      assert n.depth == 3 ==> v / 0x200 in Prefixes(mapped, 0x200);
    }
  }

  /** Tables that failed maps made and no page number mapped needs. */
  ghost function StubsAside(s: Sys): set<Node> {
    set n | n in s.stubs && !OnSomePath(s.mapped, n)
  }

  /** The number of table pages is 1 plus the numbers of distinct 9-, 18- and 27-bit prefixes of the page
      numbers ever mapped, plus the tables made for nothing. */
  lemma TableCount(s: Sys)
    requires SysInv(s) && s.path.Idle?
    ensures |s.nodes.Keys| == |StubsAside(s)| +
            1 + |Prefixes(s.mapped, 0x800_0000)| + |Prefixes(s.mapped, 0x4_0000)| + |Prefixes(s.mapped, 0x200)|
    ensures |s.nodes.Values| == |s.nodes.Keys|
  {
    hide Consistent, Translates, OnSomePath, Prefixes, NodesOf;
    var keys := s.nodes.Keys - StubsAside(s);
    CountNodes(keys, s.mapped) by {
      forall n ensures n in keys <==> n == ROOT || OnSomePath(s.mapped, n) {
        assert n in s.nodes <==> IsTable(s, n);
      }
    }
    assert keys + StubsAside(s) == s.nodes.Keys;
    Joined(keys, StubsAside(s));
    TablesDiffer(s);
    ImageSize(s.nodes.Keys, s.nodes, s.nodes.Values);
  }

  /** The page numbers that a list of calls maps. */
  function MappedBy(ops: seq<Op>): set<nat> {
    if ops == [] then {}
    else (if ops[0].Map? || ops[0].MapEntry? then {Vpn(ops[0].virt)} else {}) + MappedBy(ops[1..])
  }

  lemma StepMaps(s: Sys, op: Op)
    requires SysInv(s) && Enabled(s, op)
    ensures MmInv(s.m.mm) && |s.m.mem| == s.m.mm.limit * WORDS_PER_PAGE
    ensures Step(s, op).mapped == s.mapped + if op.Map? || op.MapEntry? then {Vpn(op.virt)} else {}
    ensures !op.FailedMap? && !op.FailedLevel? ==> Step(s, op).stubs == s.stubs
  {
    hide MmInv, LiveInv, TreeInv, Accounted, Translates, NextLevel, MmSpec.Krealloc, Malloc, NodeAt, FreePages,
         CanMap, HasNext, AfterFailedMap, GiveUp, Frame, Slot, Vpn, AtDepth, IsClient, Recorded, FirstFit, Wraps,
         AllRecorded, PagesFor, Extend;
    SysParts(s);
    if op.Map? { MapKeepsInv(s, op.phys, op.virt, op.flags); }
    if op.MapLevel? { LevelKeepsInv(s, op.virt, op.d); }
    if op.FailedMap? { FailedMapIs(s, op.phys, op.virt, op.flags); }
    if op.FailedLevel? { GiveUpKeepsInv(s, Vpn(op.virt), op.d); }
  }

  lemma {:induction false} RunMaps(s: Sys, ops: seq<Op>)
    requires SysInv(s) && CanRun(s, ops)
    ensures Run(s, ops).mapped == s.mapped + MappedBy(ops)
    ensures (forall i :: 0 <= i < |ops| ==> !ops[i].FailedMap? && !ops[i].FailedLevel?) ==> Run(s, ops).stubs == s.stubs
    decreases |ops|
  {
    hide SysInv, Enabled, Step;
    if ops != [] {
      SysParts(s);
      StepKeepsInv(s, ops[0]);
      StepMaps(s, ops[0]);
      RunMaps(Step(s, ops[0]), ops[1..]);
    }
  }

  /** After any run the number of table pages is 1 plus the numbers of distinct 9-, 18- and 27-bit prefixes of
      the page numbers mapped before it or in it, plus the tables that failed maps made for nothing: none if no map
      has failed. */
  lemma RunTableCount(s: Sys, ops: seq<Op>)
    requires SysInv(s) && CanRun(s, ops) && Run(s, ops).path.Idle?
    ensures var t, mapped := Run(s, ops), s.mapped + MappedBy(ops);
            && |t.nodes.Values| == |t.nodes.Keys|
            && |t.nodes.Values| == |StubsAside(t)| +
               1 + |Prefixes(mapped, 0x800_0000)| + |Prefixes(mapped, 0x4_0000)| + |Prefixes(mapped, 0x200)|
            && (s.stubs == {} && (forall i :: 0 <= i < |ops| ==> !ops[i].FailedMap? && !ops[i].FailedLevel?) ==>
                 StubsAside(t) == {})
  {
    hide SysInv, CanRun, Run, Prefixes, MappedBy;
    RunIs(s, ops, s.flat);
    RunMaps(s, ops);
    TableCount(Run(s, ops));
  }

  /** After any run an unmap returns true exactly when some page of the same 2 MiB region was mapped before the
      run or in it. */
  lemma RunUnmapTrueIff(s: Sys, ops: seq<Op>, virt: u64)
    requires SysInv(s) && CanRun(s, ops) && Run(s, ops).path.Idle?
    ensures UnmapPage(Run(s, ops).m, s.root, virt).1 <==>
            exists v :: v in s.mapped + MappedBy(ops) && v / 512 == Vpn(virt) / 512
  {
    hide SysInv, CanRun, Run, UnmapPage, MappedBy, Vpn;
    RunIs(s, ops, s.flat);
    RunMaps(s, ops);
    UnmapTrueIff(Run(s, ops), virt);
  }

  lemma TablesDiffer(s: Sys)
    requires Consistent(s)
    ensures forall n, k :: n in s.nodes && k in s.nodes && s.nodes[n] == s.nodes[k] ==> n == k
  {
    hide MmInv, LiveInv, NodeOk;
  }

  lemma CountNodes(keys: set<Node>, mapped: set<nat>)
    requires forall n :: n in keys <==> n == ROOT || OnSomePath(mapped, n)
    ensures |keys| == 1 + |Prefixes(mapped, 0x800_0000)| + |Prefixes(mapped, 0x4_0000)| + |Prefixes(mapped, 0x200)|
  {
    hide OnSomePath, Prefixes, NodesOf;
    var a := NodesOf(1, Prefixes(mapped, 0x800_0000));
    var b := NodesOf(2, Prefixes(mapped, 0x4_0000));
    var c := NodesOf(3, Prefixes(mapped, 0x200));
    NodesOfDepth(1, Prefixes(mapped, 0x800_0000));
    NodesOfDepth(2, Prefixes(mapped, 0x4_0000));
    NodesOfDepth(3, Prefixes(mapped, 0x200));
    forall n ensures n in keys <==> n in {ROOT} + a + b + c { PathNodesAre(mapped, n); }
    assert keys == {ROOT} + a + b + c;
    Joined({ROOT}, a);
    Joined({ROOT} + a, b);
    Joined({ROOT} + a + b, c);
  }

  lemma NodesOfDepth(depth: nat, prefixes: set<nat>)
    ensures forall n :: n in NodesOf(depth, prefixes) ==> n.depth == depth
    ensures |NodesOf(depth, prefixes)| == |prefixes|
  {
    NodesOfSize(depth, prefixes);
  }
}
