/** Inputs at which the code does not do what its callers expect, one for each property that fails. */
module Witnesses {
  import opened Bits
  import opened Common
  import opened MmSpec
  import opened MmLaws
  import opened ReallocLaws
  import opened VmmSpec
  import opened TreeLaws
  import opened MemorySystem
  import opened DeadLinks
  import opened SystemRuns
  import opened BootTables
  import opened PrintfSpec
  import opened PrintfLaws
  import Panic

  // ---------------------------------------------------------------- the allocator

  /** Tables in pages 300 to 814, as all machines below have them. */
  function MachineOf(limit: nat, bits: seq<bool>, recs: seq<Record>): Mm {
    Mm(limit, bits, recs, 300, 515)
  }

  lemma FirstFitAt(s: Mm, n: nat, p: nat)
    requires FreeRun(s, p, n) && forall k: nat :: k < p && k < |s.bits| ==> s.bits[k]
    ensures FirstFit(s, n) == Some(p)
  {
    assert LeastFreeRun(s, p, n);
    FirstFitIs(s, n, p);
  }

  /** 65535 records, and one free page of which none is. */
  function CrowdedMm(): Mm {
    MachineOf(200000, seq(200000, p => p != 100001),
              seq(65535, i requires 0 <= i < 65535 => Record(i + 5000, 0, false)))
  }

  /** kmalloc of that page wraps the counter, and kfree of the new buffer panics. */
  lemma CounterWraps()
    ensures var s := CrowdedMm();
            var (t, addr) := Malloc(s, 4096);
            && MmInv(s) && Wraps(s.recs, 100001)
            && addr == 100001 * 4096 && LiveInv(t, map[100001 := 1])
            && Free(t, 100001) == Panicked
  {
    hide FindRec, FirstFit, PagesFor;
    var s := CrowdedMm();
    CrowdedInv();
    FirstFitAt(s, 1, 100001);
    OnePageFor();
    MallocKeepsLive(s, 4096, map[]);
    MallocKeepsRecordsIff(s, 4096, map[]);
    MallocKeepsInv(s, 4096);
    assert map[][100001 := 1] == map[100001 := 1];
    FreeKeepsLive(Malloc(s, 4096).0, 100001, map[100001 := 1]);
  }

  lemma OnePageFor()
    ensures PagesFor(4096) == 1
  {
  }

  lemma CrowdedInv()
    ensures MmInv(CrowdedMm()) && FreeRun(CrowdedMm(), 100001, 1) && Wraps(CrowdedMm().recs, 100001)
  {
    hide FindRec;
    var s := CrowdedMm();
    assert forall i :: 0 <= i < |s.recs| ==> s.recs[i] == Record(i + 5000, 0, false);
  }

  /** 70000 free pages in a row. */
  function WideMm(): Mm {
    MachineOf(100000, seq(100000, p => !(20000 <= p < 90000)), [])
  }

  /** kmalloc of 65536 pages and kfree of the result: not one of them is free again. */
  lemma PagesAreLost()
    ensures var s := WideMm();
            var (t, addr) := Malloc(s, 65536 * 4096);
            && MmInv(s) && addr == 20000 * 4096
            && Free(t, 20000).Returned?
            && forall p :: 20000 <= p < 85536 ==> !s.bits[p] && Free(t, 20000).value.bits[p]
  {
    hide FirstFit;
    var s := WideMm();
    assert FreeRun(s, 20000, 65536);
    FirstFitAt(s, 65536, 20000);
    assert PagesFor(65536 * 4096) == 65536;
  }

  /** A buffer of 70000 pages, whose record counts 4464, and room for a longer one. */
  function LongBufferMm(): Mm {
    MachineOf(200000, seq(200000, p => !(100000 <= p < 190000)), [Record(20000, 4464, true)])
  }

  /** It cannot grow and keep its contents: page 4464 of the new buffer is what was there before. */
  lemma LongBufferIsCut(mem: seq<u64>)
    requires |mem| == 200000 * WORDS_PER_PAGE
    ensures var m, live := Machine(LongBufferMm(), mem), map[20000 := 70000];
            && Wired(m, live) && AllRecorded(m.mm, live)
            && var r := MmSpec.Krealloc(m, 20000 * 4096, 70001 * 4096);
               r.Returned? && r.value.1 == 100000 * 4096 && SamePages(mem, 104464, r.value.0.mem, 104464, 1)
  {
    hide MmSpec.Krealloc, FirstFit, Copied, Recorded;
    var m, live := Machine(LongBufferMm(), mem), map[20000 := 70000];
    LongBufferInv();
    assert PagesFor(70001 * 4096) == 70001;
    assert FreeRun(m.mm, 100000, 70001);
    FirstFitAt(m.mm, 70001, 100000);
    KreallocMoves(m, 20000, 70001 * 4096, live);
    PageNotCopied(mem, MmSpec.Krealloc(m, 20000 * 4096, 70001 * 4096).value.0.mem);
  }

  lemma PageNotCopied(before: seq<u64>, after: seq<u64>)
    requires PagesCopied(before, after, 100000, 20000, 4464) && |before| == 200000 * WORDS_PER_PAGE
    ensures SamePages(before, 104464, after, 104464, 1)
  {
    assert before[104464 * WORDS_PER_PAGE..104465 * WORDS_PER_PAGE] ==
           after[104464 * WORDS_PER_PAGE..104465 * WORDS_PER_PAGE];
  }

  lemma LongBufferInv()
    ensures var s, live := LongBufferMm(), map[20000 := 70000];
            && MmInv(s) && LiveInv(s, live) && AllRecorded(s, live) && Recorded(s, 20000)
            && !Wraps(s.recs, 100000)
  {
    var s := LongBufferMm();
    assert s.recs[0] == Record(20000, 4464, true) && RecordOk(s.recs[0], s.limit, s.bits);
    assert IsLive(s, 20000, 70000);
  }

  /** The pages of a freed buffer have been handed out again in part. */
  function ReusedMm(): Mm {
    MachineOf(10000, seq(10000, _ => true), [Record(6000, 10, false), Record(6005, 3, true)])
  }

  /** A second kfree frees the pages of the other buffer. */
  lemma SecondFreeHarms()
    ensures var s, live := ReusedMm(), map[6005 := 3];
            && MmInv(s) && LiveInv(s, live)
            && Free(s, 6000).Returned?
            && !MmInv(Free(s, 6000).value) && !LiveInv(Free(s, 6000).value, live)
  {
    hide MmInv;
    var s, live := ReusedMm(), map[6005 := 3];
    ReusedInv();
    assert !RecordsApart(s.recs[0].(used := true), s.recs[1]);
    FreeKeepsInvIff(s, 6000);
    FreeKeepsOthersIff(s, 6000, live);
    assert !Apart(6000, 10, 6005, live[6005]);
  }

  lemma ReusedInv()
    ensures MmInv(ReusedMm()) && LiveInv(ReusedMm(), map[6005 := 3]) && FindRec(ReusedMm().recs, 6000) == 0
  {
    var s := ReusedMm();
    assert RecordOk(s.recs[0], s.limit, s.bits) && RecordOk(s.recs[1], s.limit, s.bits);
    assert IsLive(s, 6005, 3) by { assert s.recs[1].pageStart == 6005 && FindRec(s.recs, 6005) == 1; }
  }

  /** A buffer of 70000 pages, whose record counts 4464, over the pages of a freed one. */
  function UncountedMm(): Mm {
    MachineOf(200000, seq(200000, _ => true), [Record(20000, 4464, true), Record(30000, 5, false)])
  }

  /** There a second kfree harms the buffer although the allocator's own invariant is kept. */
  lemma SecondFreeHarmsUncounted()
    ensures var s, live := UncountedMm(), map[20000 := 70000];
            && MmInv(s) && LiveInv(s, live) && AllRecorded(s, live)
            && Free(s, 30000).Returned?
            && MmInv(Free(s, 30000).value) && !LiveInv(Free(s, 30000).value, live)
  {
    hide MmInv;
    var s, live := UncountedMm(), map[20000 := 70000];
    UncountedInv();
    FreeKeepsInvIff(s, 30000);
    FreeKeepsOthersIff(s, 30000, live);
    assert !Apart(30000, 5, 20000, live[20000]);
  }

  lemma UncountedInv()
    ensures var s := UncountedMm();
            && MmInv(s) && LiveInv(s, map[20000 := 70000]) && AllRecorded(s, map[20000 := 70000])
            && FindRec(s.recs, 30000) == 1
  {
    var s := UncountedMm();
    assert RecordOk(s.recs[0], s.limit, s.bits) && RecordOk(s.recs[1], s.limit, s.bits);
    assert s.recs[1].pageStart == 30000;
    assert IsLive(s, 20000, 70000);
  }

  /** One free page. */
  function LastPageMm(): Mm {
    MachineOf(10000, seq(10000, p => p != 5000), [])
  }

  lemma LastPageInv()
    ensures var s := LastPageMm();
            MmInv(s) && FirstFit(s, 0) == Some(5000) && FirstFit(s, 1) == Some(5000) && FreePages(s) == {5000}
  {
    hide FirstFit;
    var s := LastPageMm();
    assert FreeRun(s, 5000, 0) && FreeRun(s, 5000, 1);
    FirstFitAt(s, 0, 5000);
    FirstFitAt(s, 1, 5000);
    forall p: nat ensures p in FreePages(s) <==> p == 5000 {}
  }

  /** kmalloc(0) and krealloc of the result to one page: the caller gets a page that is free. */
  lemma EmptyBufferIsFreed(mem: seq<u64>)
    requires |mem| == 10000 * WORDS_PER_PAGE
    ensures var (m0, buf) := MmSpec.Kmalloc(Machine(LastPageMm(), mem), 0);
            && MmInv(m0.mm) && |m0.mem| == m0.mm.limit * WORDS_PER_PAGE && 0 < buf < U64
            && var r := MmSpec.Krealloc(m0, buf, 4096);
               r.Returned? && r.value.1 == 5000 * 4096 && 5000 < |r.value.0.mm.bits| && !r.value.0.mm.bits[5000]
  {
    hide MmInv, MmSpec.Krealloc, MmSpec.Kmalloc, PagesFor, FirstFit;
    var m := Machine(LastPageMm(), mem);
    LastPageInv();
    OnePageFor();
    KreallocOfEmptyIff(m, 4096);
    FitsAtFirstIff(m.mm, 1);
    NoWrapOfFew(m, mem);
  }

  lemma NoWrapOfFew(m: Machine, mem: seq<u64>)
    requires m == Machine(LastPageMm(), mem)
    ensures !Wraps(m.mm.recs, 5000) && !Wraps(MmSpec.Kmalloc(m, 0).0.mm.recs, 5000) && Sized(m.mm)
  {
    hide FirstFit;
  }

  // ---------------------------------------------------------------- a copy over a buffer

  /** A full machine with a long buffer and a short one below its tables. */
  function LowBufferMm(): Mm {
    Mm(20000, seq(20000, _ => true), [Record(10000, 6000, true), Record(5000, 1, true)], 17000, 515)
  }

  /** Growing the long buffer fails and puts one of its pages in the place of the short buffer. */
  lemma FailureOverwritesBuffer(mem: seq<u64>, newLen: u64)
    requires |mem| == 20000 * WORDS_PER_PAGE && 6000 < PagesFor(newLen)
    ensures var m, live := Machine(LowBufferMm(), mem), map[10000 := 6000, 5000 := 1];
            && Wired(m, live) && AllRecorded(m.mm, live)
            && var r := MmSpec.Krealloc(m, 10000 * 4096, newLen);
               r.Returned? && r.value.1 == 0 && SamePages(mem, 15000, r.value.0.mem, 5000, 1)
  {
    hide MmSpec.Krealloc, FirstFit, PagesFor, Copied;
    var m, live := Machine(LowBufferMm(), mem), map[10000 := 6000, 5000 := 1];
    LowBufferInv();
    assert FirstFit(m.mm, PagesFor(newLen)).None?;
    KreallocFails(m, 10000, newLen, live);
    OnePageOfCopy(mem, MmSpec.Krealloc(m, 10000 * 4096, newLen).value.0.mem);
  }

  lemma OnePageOfCopy(before: seq<u64>, after: seq<u64>)
    requires PagesCopied(before, after, 0, 10000, 6000) && |before| == 20000 * WORDS_PER_PAGE
    ensures SamePages(before, 15000, after, 5000, 1)
  {
    assert before[15000 * WORDS_PER_PAGE..15001 * WORDS_PER_PAGE] ==
           after[5000 * WORDS_PER_PAGE..5001 * WORDS_PER_PAGE];
  }

  lemma LowBufferInv()
    ensures var s, live := LowBufferMm(), map[10000 := 6000, 5000 := 1];
            MmInv(s) && LiveInv(s, live) && AllRecorded(s, live) && forall p :: 0 <= p < |s.bits| ==> s.bits[p]
  {
    var s := LowBufferMm();
    assert RecordOk(s.recs[0], s.limit, s.bits) && RecordOk(s.recs[1], s.limit, s.bits);
    assert s.recs[1].pageStart == 5000;
    assert IsLive(s, 10000, 6000) && IsLive(s, 5000, 1);
  }

  // ---------------------------------------------------------------- no page for a table

  /** A page map whose top level took the last page: nothing can be mapped in it. */
  lemma EveryMapFails(mem: seq<u64>, phys: u64, virt: u64, flags: u64)
    requires |mem| == 10000 * WORDS_PER_PAGE
    ensures var s := FirstSys(Machine(LastPageMm(), mem), map[]);
            SysInv(s) && !MapPage(s.m, s.root, phys, virt, flags).1
  {
    hide MmInv, SysInv, FirstFit, MapPage, FreePages, Missing, Malloc, Blocked;
    var m := Machine(LastPageMm(), mem);
    LastPageInv();
    FirstSysInv(m, map[]);
    var s := FirstSys(m, map[]);
    MissingAll(s.nodes, Vpn(virt));
    SysConsistent(s);
    MapSucceedsIff(s, phys, virt, flags);
  }

  lemma MissingAll(nodes: map<Node, nat>, vpn: nat)
    requires nodes.Keys == {ROOT}
    ensures Missing(nodes, vpn) == 3
  {
    PathNodes(nodes, vpn);
  }

  lemma SysConsistent(s: Sys)
    requires SysInv(s)
    ensures Consistent(s)
  {
  }

  // ---------------------------------------------------------------- printf

  /** `%#2x` of 0xab prints no digit of it. */
  lemma HashCutsAllDigits()
    ensures IntegerText('x', 0xab, IntLength, 0, 2, FlagsIn("#")) == "0x"
  {
    hide DigitsOf, FormatText;
    SomeDigits();
    assert FlagsIn("#") == Flags(false, false, false, false, true, false, false);
    HashCutsBoth();
  }

  lemma SomeDigits()
    ensures DigitsOf(0xab, 16, false, 32) == "ba"
    ensures DigitsOf(5, 10, false, 32) == "5" && DigitsOf(7, 10, false, 32) == "7" && DigitsOf(1, 10, false, 32) == "1"
  {
    assert DigitsOf(0xa, 16, false, 31) == "a";
  }

  lemma HashCutsBoth()
    ensures FormatText("ba", false, 16, 0, 2, Flags(false, false, false, false, true, false, false)) == "0x"
  {
    hide ZeroStage, HashStage, Field;
    HashStages();
    FieldOfPrefix();
  }

  lemma HashStages()
    ensures var fl := Flags(false, false, false, false, true, false, false);
            ZeroStage("ba", 0, 2, fl) == "ba" && HashStage("ba", 16, 0, 2, fl) == "x0"
  {
  }

  lemma FieldOfPrefix()
    ensures Field("x0", 2, Flags(false, false, false, false, true, false, false)) == "0x"
  {
  }

  /** `%.3d` of 5 prints 005, `%-.3d` prints 5. */
  lemma MinusDropsZeros()
    ensures var fl := FlagsIn("").(precision := true);
            && IntegerText('d', 5, IntLength, 3, 0, fl) == "005"
            && IntegerText('d', 5, IntLength, 3, 0, fl.(left := true)) == "5"
  {
    hide DigitsOf, FormatText, Reverse;
    var fl := FlagsIn("").(precision := true);
    SomeDigits();
    NoWidth("5", false, 10, 3, fl);
    NoWidth("5", false, 10, 3, fl.(left := true));
    OneDigit("5");
    assert Repeat('0', 2) == "00" && Repeat('0', 0) == "";
  }

  lemma OneDigit(s: string)
    requires |s| == 1
    ensures Reverse(s) == s
  {
  }

  /** `%040u` of 7 has 32 characters, and `%.32d` of -1 no sign. */
  lemma PaddingEndsAt32()
    ensures |IntegerText('u', 7, IntLength, 0, 40, FlagsIn("0"))| == 32
    ensures IntegerText('d', 0xffff_ffff, IntLength, 32, 0, FlagsIn("").(precision := true)) == Repeat('0', 31) + "1"
  {
    hide DigitsOf, FormatText, Reverse, Repeat;
    SomeDigits();
    NumberLayout("7", false, 10, 0, 40, FlagsIn("0"));
    NoWidth("1", true, 10, 32, FlagsIn("").(precision := true));
    OneDigit("1");
    assert "" + Repeat('0', 31) == Repeat('0', 31);
  }

  /** `%lb` of 2^32 prints zeros only. */
  lemma BinaryIsCut()
    ensures Eval(DigitsOf(0x1_0000_0000, 2, false, 32), 2) == 0
  {
    DigitRoundTrip(0x1_0000_0000, 2, false);
  }

  // ---------------------------------------------------------------- panic

  /** A core that panics inside panic: it holds the lock for ever, and neither core prints a banner. */
  lemma PanicWithinHangs()
    ensures var s := Panic.Run(Panic.Start(2), [(0, Panic.CallPanic), (0, Panic.Advance), (0, Panic.PanicWithin)]);
            Panic.PanicCalled(s) && Panic.Hung(s) && forall more :: Panic.Run(s, more).banners == 0
  {
    var s0 := Panic.Start(2);
    Panic.RunOne(s0, 0, Panic.CallPanic);
    var s1 := Panic.Step(s0, 0, Panic.CallPanic);
    Panic.RunOne(s1, 0, Panic.Advance);
    Panic.RunConcat(s0, [(0, Panic.CallPanic)], [(0, Panic.Advance)]);
    var s2 := Panic.Step(s1, 0, Panic.Advance);
    Panic.RunOne(s2, 0, Panic.PanicWithin);
    var two := [(0, Panic.CallPanic)] + [(0, Panic.Advance)];
    Panic.RunConcat(s0, two, [(0, Panic.PanicWithin)]);
    assert two + [(0, Panic.PanicWithin)] == [(0, Panic.CallPanic), (0, Panic.Advance), (0, Panic.PanicWithin)];
    Panic.RunKeepsInv(s0, two + [(0, Panic.PanicWithin)]);
    var s := Panic.Step(s2, 0, Panic.PanicWithin);
    assert s.cores[0].phase.Nested?;
    forall more ensures Panic.Run(s, more).banners == 0 { Panic.NoBanner(s, more); }
  }
}
