/** What runs keep besides the page tables: the contents of buffers, the allocator's own tables, and the records. */
module RunLaws {
  import opened Bits
  import opened Common
  import opened MmSpec
  import opened MmLaws
  import opened ReallocLaws
  import opened VmmSpec
  import opened TreeLaws
  import opened MemorySystem
  import opened UnmapLaws
  import opened DeadLinks
  import opened SystemRuns

  // ---------------------------------------------------------------- contents of memory

  /** Word k lies in the pages of the bitmap and the record table. */
  ghost predicate InAllocator(mm: Mm, k: nat) {
    mm.table * WORDS_PER_PAGE <= k < (mm.table + mm.tablePages) * WORDS_PER_PAGE
  }

  ghost predicate InClient(s: Sys, a: nat, k: nat) {
    IsClient(s, a) && a * WORDS_PER_PAGE <= k < (a + s.live[a]) * WORDS_PER_PAGE
  }

  /** A table is apart from the allocator and from every buffer of a caller. */
  lemma TableIsElsewhere(s: Sys, k: nat, a: nat)
    requires Consistent(s) && InTable(s, k)
    ensures !InAllocator(s.m.mm, k) && !InClient(s, a, k)
  {
    hide MmInv, TreeInv;
    var n :| n in s.nodes && s.nodes[n] * WORDS_PER_PAGE <= k < (s.nodes[n] + 1) * WORDS_PER_PAGE;
    assert IsLive(s.m.mm, s.nodes[n], 1) && s.nodes[n] in s.nodes.Values;
  }

  lemma ClientIsElsewhere(s: Sys, k: nat, a: nat)
    requires Consistent(s) && InClient(s, a, k)
    ensures !InAllocator(s.m.mm, k) && k < |s.m.mem|
  {
    hide MmInv, TreeInv;
    assert IsLive(s.m.mm, a, s.live[a]);
  }

  lemma PageZeroIsElsewhere(s: Sys, k: nat, a: nat)
    requires Consistent(s) && (InAllocator(s.m.mm, k) || InClient(s, a, k))
    ensures k >= WORDS_PER_PAGE
  {
    hide TreeInv;
    if InClient(s, a, k) { assert IsLive(s.m.mm, a, s.live[a]); }
  }

  /** A buffer whose words are a client's stays one where only tables were written. */
  lemma FrameKeepsWord(s: Sys, t: Sys, k: nat, a: nat)
    requires Consistent(t) && Frame(s, t) && k < |s.m.mem|
    requires InAllocator(s.m.mm, k) || InClient(s, a, k)
    ensures t.m.mem[k] == s.m.mem[k]
    ensures IsClient(s, a) ==> IsClient(t, a) && t.live[a] == s.live[a]
  {
    hide Consistent;
    if IsClient(s, a) {
      forall n | n in t.nodes ensures t.nodes[n] != a {
        if n in s.nodes { assert s.nodes[n] in s.nodes.Values; }
      }
    }
    PageZeroIsElsewhere(t, k, a);
    if InTable(t, k) { TableIsElsewhere(t, k, a); }
  }

  /** The operations that give up or move the buffer at page a. */
  predicate GivesUp(op: Op, a: nat) {
    (op.Kfree? && op.buf == a * 4096) || (op.Krealloc? && op.buf == a * 4096)
  }

  /** No step changes a word of the allocator's tables.  A step changes a word of a caller's buffer only by
      storing there, and leaves the buffer to its holder unless it is freed or reallocated. */
  lemma StepKeepsWord(s: Sys, op: Op, k: nat, a: nat)
    requires SysInv(s) && Enabled(s, op) && k < |s.m.mem|
    requires InAllocator(s.m.mm, k) || (InClient(s, a, k) && (op.Write? ==> op.word != k))
    ensures MmInv(s.m.mm) && |s.m.mem| == s.m.mm.limit * WORDS_PER_PAGE
    ensures var t := Step(s, op);
            && |t.m.mem| == |s.m.mem| && t.m.mem[k] == s.m.mem[k]
            && t.m.mm.table == s.m.mm.table && t.m.mm.tablePages == s.m.mm.tablePages
            && (IsClient(s, a) && !GivesUp(op, a) ==> IsClient(t, a) && t.live[a] == s.live[a])
  {
    hide Consistent, Accounted, Translates, MmInv, LiveInv, AfterMap, AfterUnmap, AfterMalloc, Malloc, Missing,
         FreePages, PagesFor, FirstFit, Frame, InAllocator, Recorded, Wraps, Free, AfterRealloc, AfterLevel,
         AfterEntry, AtDepth, CanMap, HasNext, AfterFailedMap, GiveUp, AllRecorded, NextLevel, Slot;
    SysParts(s);
    StepKeepsInv(s, op);
    match op
    case Map(phys, virt, flags) =>
      MapKeepsInv(s, phys, virt, flags);
      FrameParts(s, Step(s, op));
      FrameKeepsWord(s, Step(s, op), k, a);
    case Unmap(virt) =>
      UnmapFrame(s, virt);
      FrameParts(s, Step(s, op));
      FrameKeepsWord(s, Step(s, op), k, a);
    case FailedMap(phys, virt, flags) =>
      FailedMapIs(s, phys, virt, flags);
      FrameParts(s, Step(s, op));
      FrameKeepsWord(s, Step(s, op), k, a);
    case FailedLevel(virt, d) =>
      GiveUpKeepsInv(s, Vpn(virt), d);
      FrameParts(s, Step(s, op));
      FrameKeepsWord(s, Step(s, op), k, a);
    case MapLevel(virt, d) =>
      LevelKeepsInv(s, virt, d);
      FrameParts(s, Step(s, op));
      FrameKeepsWord(s, Step(s, op), k, a);
    case MapEntry(phys, virt, flags) =>
      EntryKeepsInv(s, phys, virt, flags);
      FrameParts(s, Step(s, op));
      FrameKeepsWord(s, Step(s, op), k, a);
    case Kmalloc(len) => MallocKeepsClient(s, len, a);
    case Kfree(buf) => FreeKeepsClient(s, buf / 4096, a);
    case Krealloc(buf, newLen) => ReallocKeepsWord(s, buf, newLen, k, a);
    case Write(word, value) => WriteElsewhere(s, word, value, k);
  }

  lemma FrameParts(s: Sys, t: Sys)
    requires Frame(s, t)
    ensures t.m.mm.table == s.m.mm.table && t.m.mm.tablePages == s.m.mm.tablePages && |t.m.mem| == |s.m.mem|
  {
  }

  lemma UnmapFrame(s: Sys, virt: u64)
    requires Consistent(s)
    ensures Frame(s, AfterUnmap(s, virt))
  {
    hide Consistent, Store, NodeAt, Slot;
    if NodeAt(Vpn(virt), 3) in s.nodes { WriteFrame(s, Vpn(virt), 0, AfterUnmap(s, virt)); }
  }

  lemma MallocKeepsClient(s: Sys, len: u64, a: nat)
    requires Consistent(s)
    ensures var t := AfterMalloc(s, len);
            && t.m.mem == s.m.mem && t.m.mm.table == s.m.mm.table && t.m.mm.tablePages == s.m.mm.tablePages
            && t.nodes == s.nodes
            && (IsClient(s, a) ==> IsClient(t, a) && t.live[a] == s.live[a])
  {
    hide MmInv, LiveInv, TreeInv, FirstFit, PagesFor, SetRange, Assign;
    MallocKeepsLive(s.m.mm, len, s.live);
  }

  lemma FreeKeepsClient(s: Sys, b: nat, a: nat)
    requires Recorded(s.m.mm, b)
    ensures Free(s.m.mm, b).Returned?
    ensures var t := s.(m := s.m.(mm := Free(s.m.mm, b).value), live := s.live - {b});
            && t.m.mm.table == s.m.mm.table && t.m.mm.tablePages == s.m.mm.tablePages
            && (IsClient(s, a) && a != b ==> IsClient(t, a) && t.live[a] == s.live[a])
  {
  }

  lemma WriteElsewhere(s: Sys, word: nat, value: u64, k: nat)
    requires Consistent(s) && InBuffer(s, word) && k < |s.m.mem|
    ensures word < |s.m.mem|
    ensures InAllocator(s.m.mm, k) || word != k ==> s.m.mem[word := value][k] == s.m.mem[k]
  {
    hide Consistent, InAllocator;
    var b: nat :| IsClient(s, b) && b * WORDS_PER_PAGE <= word < (b + s.live[b]) * WORDS_PER_PAGE;
    ClientIsElsewhere(s, word, b);
  }

  lemma ReallocKeepsWord(s: Sys, buf: u64, newLen: u64, k: nat, a: nat)
    requires Consistent(s) && Enabled(s, Krealloc(buf, newLen)) && k < |s.m.mem|
    requires MmInv(s.m.mm) && |s.m.mem| == s.m.mm.limit * WORDS_PER_PAGE
    requires InAllocator(s.m.mm, k) || InClient(s, a, k)
    ensures var t := AfterRealloc(s, buf, newLen);
            && |t.m.mem| == |s.m.mem| && t.m.mem[k] == s.m.mem[k]
            && t.m.mm.table == s.m.mm.table && t.m.mm.tablePages == s.m.mm.tablePages
            && (IsClient(s, a) && buf != a * 4096 ==> IsClient(t, a) && t.live[a] == s.live[a])
  {
    hide MmInv, TreeInv, IsLive, FirstFit, PagesFor, Recorded, Wraps, MmSpec.Krealloc, InAllocator, Copied,
         SamePages, AllRecorded, AfterMalloc;
    if buf == 0 {
      NullRealloc(s, newLen);
      MallocKeepsClient(s, newLen, a);
    } else if PagesFor(newLen) <= s.live[buf / 4096] % U16 {
      KreallocStays(s.m, buf / 4096, newLen, s.live);
    } else {
      var b := FirstFit(s.m.mm, PagesFor(newLen)).value;
      KreallocMoves(s.m, buf / 4096, newLen, s.live);
      KreallocKeepsLimit(s.m, buf / 4096, newLen, s.live);
      MoveMissesWord(s.m, s.live, buf / 4096, PagesFor(newLen), k, a);
      MovedWord(s.m.mem, AfterRealloc(s, buf, newLen).m.mem, b, buf / 4096, s.live[buf / 4096] % U16, k);
    }
  }

  /** The copy of a krealloc goes to pages that hold neither the allocator's tables nor a buffer. */
  lemma MoveMissesWord(m: Machine, live: map<nat, nat>, from: nat, n: nat, k: nat, a: nat)
    requires Wired(m, live) && from in live && FirstFit(m.mm, n).Some? && n > live[from] % U16
    requires InAllocator(m.mm, k) || (a in live && a * WORDS_PER_PAGE <= k < (a + live[a]) * WORDS_PER_PAGE)
    ensures var b := FirstFit(m.mm, n).value;
            !(b * WORDS_PER_PAGE <= k < b * WORDS_PER_PAGE + live[from] % U16 * WORDS_PER_PAGE)
  {
    hide MmInv, IsLive;
    var b := FirstFit(m.mm, n).value;
    FreeRunApart(m.mm, b, n);
    if a in live { ClaimKeepsOneLive(m.mm, b, n, a, live[a]); }
  }

  lemma MovedWord(before: seq<u64>, after: seq<u64>, dst: nat, src: nat, n: nat, k: nat)
    requires PagesCopied(before, after, dst, src, n) && k < |before|
    requires !(dst * WORDS_PER_PAGE <= k < dst * WORDS_PER_PAGE + n * WORDS_PER_PAGE)
    ensures after[k] == before[k]
  {
  }

  /** After any run the bitmap and the record table have been written by nobody but the allocator. */
  lemma {:induction false} RunKeepsAllocatorTables(s: Sys, ops: seq<Op>, k: nat)
    requires SysInv(s) && CanRun(s, ops) && k < |s.m.mem| && InAllocator(s.m.mm, k)
    ensures k < |Run(s, ops).m.mem| && Run(s, ops).m.mem[k] == s.m.mem[k]
    decreases |ops|
  {
    hide SysInv, Enabled, Step;
    if ops != [] {
      SysParts(s);
      StepKeepsInv(s, ops[0]);
      StepKeepsWord(s, ops[0], k, 0);
      RunKeepsAllocatorTables(Step(s, ops[0]), ops[1..], k);
    }
  }

  /** After any run a buffer that its holder neither freed nor reallocated is still held, and every word of it
      that the run did not store to is as it was. */
  lemma {:induction false} RunKeepsContents(s: Sys, ops: seq<Op>, a: nat, k: nat)
    requires SysInv(s) && CanRun(s, ops) && InClient(s, a, k)
    requires forall i :: 0 <= i < |ops| ==> !GivesUp(ops[i], a) && (ops[i].Write? ==> ops[i].word != k)
    ensures var t := Run(s, ops);
            k < |s.m.mem| && k < |t.m.mem| && InClient(t, a, k) && t.live[a] == s.live[a] && t.m.mem[k] == s.m.mem[k]
    decreases |ops|
  {
    hide Consistent, Accounted, Translates, Enabled, Step, IsClient, GivesUp;
    ClientIsElsewhere(s, k, a);
    if ops != [] {
      SysParts(s);
      StepKeepsInv(s, ops[0]);
      StepKeepsWord(s, ops[0], k, a);
      RunKeepsContents(Step(s, ops[0]), ops[1..], a, k);
    }
  }

  // ---------------------------------------------------------------- records

  /** A step takes at most three records, and while so many are left no buffer loses its own. */
  lemma StepKeepsRecords(s: Sys, op: Op)
    requires SysInv(s) && Enabled(s, op) && AllRecorded(s.m.mm, s.live) && |s.m.mm.recs| + 3 < U16
    ensures MmInv(s.m.mm) && |s.m.mem| == s.m.mm.limit * WORDS_PER_PAGE
    ensures AllRecorded(Step(s, op).m.mm, Step(s, op).live) && |Step(s, op).m.mm.recs| <= |s.m.mm.recs| + 3
  {
    hide Consistent, Accounted, Translates, MmInv, LiveInv, AfterMap, AfterUnmap, AfterMalloc, Malloc, Missing,
         FreePages, PagesFor, FirstFit, Frame, Recorded, Wraps, Free, AfterRealloc, AllRecorded, AfterLevel, AtDepth,
         CanMap, HasNext, AfterFailedMap, GiveUp, NextLevel, Slot;
    SysParts(s);
    match op
    case Map(phys, virt, flags) => MapKeepsInv(s, phys, virt, flags);
    case Unmap(virt) => UnmapKeepsRecords(s, virt);
    case FailedMap(phys, virt, flags) => FailedMapIs(s, phys, virt, flags);
    case MapLevel(virt, d) => LevelKeepsInv(s, virt, d);
    case FailedLevel(virt, d) => GiveUpKeepsInv(s, Vpn(virt), d);
    case MapEntry(phys, virt, flags) =>
    case Kmalloc(len) => MallocRecords(s, len);
    case Kfree(buf) => FreeRecords(s, buf / 4096);
    case Krealloc(buf, newLen) => ReallocRecords(s, buf, newLen);
    case Write(word, value) =>
  }

  lemma UnmapKeepsRecords(s: Sys, virt: u64)
    ensures AfterUnmap(s, virt).m.mm == s.m.mm && AfterUnmap(s, virt).live == s.live
  {
  }

  lemma MallocRecords(s: Sys, len: u64)
    requires Consistent(s) && AllRecorded(s.m.mm, s.live) && |s.m.mm.recs| + 1 < U16
    ensures var t := AfterMalloc(s, len); AllRecorded(t.m.mm, t.live) && |t.m.mm.recs| <= |s.m.mm.recs| + 1
  {
    hide MmInv, LiveInv, TreeInv, FirstFit, PagesFor, SetRange, Assign, FindRec;
    if FirstFit(s.m.mm, PagesFor(len)).Some? { MallocKeepsRecordsIff(s.m.mm, len, s.live); }
  }

  lemma FreeRecords(s: Sys, a: nat)
    requires Consistent(s) && a in s.live && AllRecorded(s.m.mm, s.live)
    ensures Free(s.m.mm, a).Returned?
    ensures AllRecorded(Free(s.m.mm, a).value, s.live - {a}) && |Free(s.m.mm, a).value.recs| == |s.m.mm.recs|
  {
    hide MmInv, LiveInv, TreeInv, SetRange, FindRec;
    FreeKeepsLive(s.m.mm, a, s.live);
  }

  lemma ReallocRecords(s: Sys, buf: u64, newLen: u64)
    requires Consistent(s) && Enabled(s, Krealloc(buf, newLen)) && AllRecorded(s.m.mm, s.live) &&
             |s.m.mm.recs| + 1 < U16
    requires MmInv(s.m.mm) && |s.m.mem| == s.m.mm.limit * WORDS_PER_PAGE
    ensures var t := AfterRealloc(s, buf, newLen); AllRecorded(t.m.mm, t.live) && |t.m.mm.recs| <= |s.m.mm.recs| + 1
  {
    hide MmInv, LiveInv, TreeInv, FirstFit, PagesFor, Recorded, Wraps, MmSpec.Krealloc, AllRecorded, AfterMalloc,
         Copied, SamePages;
    if buf == 0 {
      NullRealloc(s, newLen);
      MallocRecords(s, newLen);
    } else if PagesFor(newLen) <= s.live[buf / 4096] % U16 {
      KreallocStays(s.m, buf / 4096, newLen, s.live);
    } else {
      KreallocMoves(s.m, buf / 4096, newLen, s.live);
      ReallocTakesOne(s.m, buf, newLen);
    }
  }

  lemma ReallocTakesOne(m: Machine, buf: u64, newLen: u64)
    requires MmInv(m.mm) && |m.mem| == m.mm.limit * WORDS_PER_PAGE && MmSpec.Krealloc(m, buf, newLen).Returned?
    ensures |MmSpec.Krealloc(m, buf, newLen).value.0.mm.recs| <= |m.mm.recs| + 1
  {
    hide MmInv, FindRec, FreeRun, SetRange, CopyForward, Apart;
  }

  /** In a run of n calls that starts with every buffer on record and fewer than 65535 - 3n records, no buffer
      ever loses its record: kfree and krealloc find it. */
  lemma {:induction false} RunKeepsRecords(s: Sys, ops: seq<Op>)
    requires SysInv(s) && CanRun(s, ops) && AllRecorded(s.m.mm, s.live) && |s.m.mm.recs| + 3 * |ops| < U16
    ensures AllRecorded(Run(s, ops).m.mm, Run(s, ops).live)
    decreases |ops|
  {
    hide SysInv, Enabled, Step, AllRecorded;
    if ops != [] {
      SysParts(s);
      StepKeepsInv(s, ops[0]);
      StepKeepsRecords(s, ops[0]);
      RunKeepsRecords(Step(s, ops[0]), ops[1..]);
    }
  }
}
