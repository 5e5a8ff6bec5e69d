/** A map and a growing krealloc release the allocator's lock on their way.  Each is the run of its locked
    sections, so what holds of every run holds with other calls in between. */
module LockSections {
  import opened Bits
  import opened Common
  import opened MmSpec
  import opened MmLaws
  import opened ReallocLaws
  import opened VmmSpec
  import opened TreeLaws
  import opened MemorySystem
  import opened DeadLinks
  import opened SystemRuns
  import opened RunLaws

  // ---------------------------------------------------------------- runs, put together

  lemma RunOfNone(s: Sys)
    requires SysInv(s)
    ensures CanRun(s, []) && Run(s, []) == s
  {
    hide SysInv;
  }

  lemma RunOfOne(s: Sys, op: Op)
    requires SysInv(s) && Enabled(s, op)
    ensures MmInv(s.m.mm) && |s.m.mem| == s.m.mm.limit * WORDS_PER_PAGE
    ensures SysInv(Step(s, op)) && CanRun(s, [op]) && Run(s, [op]) == Step(s, op)
  {
    hide SysInv, Enabled, Step;
    SysParts(s);
    StepKeepsInv(s, op);
    assert [op][1..] == [];
    RunOfNone(Step(s, op));
  }

  lemma {:induction false} RunOfBoth(s: Sys, a: seq<Op>, b: seq<Op>)
    requires SysInv(s) && CanRun(s, a) && SysInv(Run(s, a)) && CanRun(Run(s, a), b)
    ensures CanRun(s, a + b) && Run(s, a + b) == Run(Run(s, a), b)
    decreases |a|
  {
    hide SysInv, Enabled, Step;
    if a == [] {
      assert a + b == b;
    } else {
      SysParts(s);
      StepKeepsInv(s, a[0]);
      assert (a + b)[0] == a[0] && (a + b)[1..] == a[1..] + b;
      RunOfBoth(Step(s, a[0]), a[1..], b);
    }
  }

  lemma ThenOne(s: Sys, a: seq<Op>, op: Op)
    requires SysInv(s) && CanRun(s, a) && SysInv(Run(s, a)) && Enabled(Run(s, a), op)
    ensures var t := Run(s, a);
            && MmInv(t.m.mm) && |t.m.mem| == t.m.mm.limit * WORDS_PER_PAGE
            && CanRun(s, a + [op]) && SysInv(Run(s, a + [op])) && Run(s, a + [op]) == Step(t, op)
  {
    hide SysInv, Enabled, Step, Run, CanRun;
    RunOfOne(Run(s, a), op);
    RunOfBoth(s, a, [op]);
  }

  // ---------------------------------------------------------------- a map

  function MapSections(phys: u64, virt: u64, flags: u64): seq<Op> {
    [MapLevel(virt, 0), MapLevel(virt, 1), MapLevel(virt, 2), MapEntry(phys, virt, flags)]
  }

  /** vmm_map_page is the run of its three table lookups, each of which may lock and unlock the allocator, and of
      its last assignment. */
  lemma MapIsItsSections(s: Sys, phys: u64, virt: u64, flags: u64)
    requires SysInv(s) && Enabled(s, Map(phys, virt, flags))
    ensures MmInv(s.m.mm) && |s.m.mem| == s.m.mm.limit * WORDS_PER_PAGE
    ensures CanRun(s, MapSections(phys, virt, flags))
    ensures Run(s, MapSections(phys, virt, flags)) == Step(s, Map(phys, virt, flags))
  {
    hide SysInv, Run, CanRun, Enabled, Step;
    SysParts(s);
    MapBegins(s, phys, virt, flags);
    RunOfOne(s, MapLevel(virt, 0));
    var s1 := Step(s, MapLevel(virt, 0));
    ThenOne(s, [MapLevel(virt, 0)], MapLevel(virt, 1));
    var s2 := Step(s1, MapLevel(virt, 1));
    assert [MapLevel(virt, 0)] + [MapLevel(virt, 1)] == [MapLevel(virt, 0), MapLevel(virt, 1)];
    ThenOne(s, [MapLevel(virt, 0), MapLevel(virt, 1)], MapLevel(virt, 2));
    var three := [MapLevel(virt, 0), MapLevel(virt, 1), MapLevel(virt, 2)];
    assert [MapLevel(virt, 0), MapLevel(virt, 1)] + [MapLevel(virt, 2)] == three;
    ThenOne(s, three, MapEntry(phys, virt, flags));
    assert three + [MapEntry(phys, virt, flags)] == MapSections(phys, virt, flags);
  }

  /** Each section of a map that has enough pages is enabled, and the last leaves what the map leaves. */
  lemma MapBegins(s: Sys, phys: u64, virt: u64, flags: u64)
    requires SysInv(s) && Enabled(s, Map(phys, virt, flags))
    requires MmInv(s.m.mm) && |s.m.mem| == s.m.mm.limit * WORDS_PER_PAGE
    ensures Enabled(s, MapLevel(virt, 0))
    ensures var s1 := Step(s, MapLevel(virt, 0));
            && MmInv(s1.m.mm) && |s1.m.mem| == s1.m.mm.limit * WORDS_PER_PAGE && Enabled(s1, MapLevel(virt, 1))
            && var s2 := Step(s1, MapLevel(virt, 1));
               && MmInv(s2.m.mm) && |s2.m.mem| == s2.m.mm.limit * WORDS_PER_PAGE && Enabled(s2, MapLevel(virt, 2))
               && var s3 := Step(s2, MapLevel(virt, 2));
                  && MmInv(s3.m.mm) && |s3.m.mem| == s3.m.mm.limit * WORDS_PER_PAGE
                  && Enabled(s3, MapEntry(phys, virt, flags))
                  && Step(s3, MapEntry(phys, virt, flags)) == Step(s, Map(phys, virt, flags))
  {
    hide Accounted, Translates, MmInv, LiveInv, TreeInv, NextLevel, NodeAt, FreePages, Missing, Extends, Steps,
         Store, Slot, Or, Vpn;
    var vpn := Vpn(virt);
    ReadyAtRoot(s, vpn);
    ExtendAllIs(s, vpn);
    PathDoesNotMatter(s, Idle, vpn, 0);
    LevelRoom(s, vpn, 0);
    var e1 := Extend(s, vpn, 0);
    LevelRoom(e1, vpn, 1);
    PathDoesNotMatter(e1, Mapping(vpn, 1), vpn, 1);
    var e2 := Extend(e1, vpn, 1);
    LevelRoom(e2, vpn, 2);
    PathDoesNotMatter(e2, Mapping(vpn, 2), vpn, 2);
    ExtendsParts(s, e1, NodeAt(vpn, 1));
    ExtendsParts(e1, e2, NodeAt(vpn, 2));
    ExtendsParts(e2, ExtendAll(s, vpn), NodeAt(vpn, 3));
  }

  lemma ExtendsParts(s: Sys, t: Sys, c: Node)
    requires Extends(s, t, c)
    ensures t.path == s.path && t.mapped == s.mapped && t.flat == s.flat
    ensures MmInv(t.m.mm) && |t.m.mem| == t.m.mm.limit * WORDS_PER_PAGE
  {
  }

  /** The sections of a map that fails: it gives up at the first lookup that finds neither a table nor a page. */
  ghost function FailedMapSections(s: Sys, virt: u64): seq<Op> {
    if !HasNext(s, Vpn(virt), 0) then [FailedLevel(virt, 0)]
    else if !HasNext(AfterLevel(s, virt, 0), Vpn(virt), 1) then [MapLevel(virt, 0), FailedLevel(virt, 1)]
    else [MapLevel(virt, 0), MapLevel(virt, 1), FailedLevel(virt, 2)]
  }

  /** A map that fails is the run of its lookups, too. */
  lemma FailedMapIsItsSections(s: Sys, phys: u64, virt: u64, flags: u64)
    requires SysInv(s) && Enabled(s, FailedMap(phys, virt, flags))
    ensures MmInv(s.m.mm) && |s.m.mem| == s.m.mm.limit * WORDS_PER_PAGE
    ensures CanRun(s, FailedMapSections(s, virt))
    ensures Run(s, FailedMapSections(s, virt)) == Step(s, FailedMap(phys, virt, flags))
  {
    hide SysInv, Run, CanRun, HasNext, AfterLevel, GiveUp, CanMap, Vpn;
    SysParts(s);
    if !HasNext(s, Vpn(virt), 0) {
      RunOfOne(s, FailedLevel(virt, 0));
    } else {
      RunOfOne(s, MapLevel(virt, 0));
      LevelOpens(s, virt, 0);
      if !HasNext(AfterLevel(s, virt, 0), Vpn(virt), 1) {
        ThenOne(s, [MapLevel(virt, 0)], FailedLevel(virt, 1));
        assert [MapLevel(virt, 0)] + [FailedLevel(virt, 1)] == FailedMapSections(s, virt);
      } else {
        ThenOne(s, [MapLevel(virt, 0)], MapLevel(virt, 1));
        LevelOpens(AfterLevel(s, virt, 0), virt, 1);
        assert [MapLevel(virt, 0)] + [MapLevel(virt, 1)] == [MapLevel(virt, 0), MapLevel(virt, 1)];
        LastFails(s, virt);
        ThenOne(s, [MapLevel(virt, 0), MapLevel(virt, 1)], FailedLevel(virt, 2));
        assert [MapLevel(virt, 0), MapLevel(virt, 1)] + [FailedLevel(virt, 2)] == FailedMapSections(s, virt);
      }
    }
  }

  lemma LevelOpens(s: Sys, virt: u64, d: nat)
    ensures AtDepth(AfterLevel(s, virt, d), Vpn(virt), d + 1)
  {
  }

  /** A map that fails, but not at its first two lookups, fails at the third. */
  lemma LastFails(s: Sys, virt: u64)
    requires SysInv(s) && s.path.Idle? && !CanMap(s, Vpn(virt)) && HasNext(s, Vpn(virt), 0)
    requires HasNext(AfterLevel(s, virt, 0), Vpn(virt), 1)
    ensures !HasNext(AfterLevel(AfterLevel(s, virt, 0), virt, 1), Vpn(virt), 2)
  {
    hide Consistent, Accounted, Translates, Extend, MapPage, HasNext, CanMap, FailLevel, Vpn;
    var vpn := Vpn(virt);
    MapByLevels(s, 0, virt, 0);
    MapSucceedsIff(s, 0, virt, 0);
    PathDoesNotMatter(Extend(s, vpn, 0), Mapping(vpn, 1), vpn, 1);
    PathDoesNotMatter(Extend(Extend(s, vpn, 0), vpn, 1), Mapping(vpn, 2), vpn, 2);
  }

  // ---------------------------------------------------------------- a growing krealloc

  /** Stores of consecutive words. */
  function Stores(base: nat, values: seq<u64>): seq<Op> {
    seq(|values|, i requires 0 <= i < |values| => Write(base + i, values[i]))
  }

  function Stored(mem: seq<u64>, base: nat, values: seq<u64>): (r: seq<u64>)
    ensures |r| == |mem|
    ensures forall k {:trigger r[k]} :: 0 <= k < |mem| ==>
            r[k] == if base <= k < base + |values| then values[k - base] else mem[k]
  {
    seq(|mem|, k requires 0 <= k < |mem| => if base <= k < base + |values| then values[k - base] else mem[k])
  }

  lemma {:induction false} StoresRun(s: Sys, b: nat, base: nat, values: seq<u64>)
    requires SysInv(s) && IsClient(s, b)
    requires b * WORDS_PER_PAGE <= base && base + |values| <= (b + s.live[b]) * WORDS_PER_PAGE
    ensures CanRun(s, Stores(base, values))
    ensures Run(s, Stores(base, values)) == s.(m := s.m.(mem := Stored(s.m.mem, base, values)))
    decreases |values|
  {
    hide SysInv;
    if values == [] {
      assert Stored(s.m.mem, base, values) == s.m.mem;
      RunOfNone(s);
      assert Stores(base, values) == [];
    } else {
      hide Step, Enabled, Stored;
      StoreStep(s, b, base, values[0]);
      var t := Step(s, Write(base, values[0]));
      StoresRun(t, b, base + 1, values[1..]);
      assert Stores(base, values)[0] == Write(base, values[0]);
      assert Stores(base, values)[1..] == Stores(base + 1, values[1..]);
      StoredMore(s.m.mem, base, values);
    }
  }

  lemma StoreStep(s: Sys, b: nat, word: nat, value: u64)
    requires SysInv(s) && IsClient(s, b) && b * WORDS_PER_PAGE <= word < (b + s.live[b]) * WORDS_PER_PAGE
    ensures MmInv(s.m.mm) && |s.m.mem| == s.m.mm.limit * WORDS_PER_PAGE && word < |s.m.mem|
    ensures Enabled(s, Write(word, value)) && SysInv(Step(s, Write(word, value)))
    ensures Step(s, Write(word, value)) == s.(m := s.m.(mem := s.m.mem[word := value]))
  {
    hide SysInv;
    assert InBuffer(s, word);
    SysParts(s);
    StepKeepsInv(s, Write(word, value));
    StepIsTheCall(s, Write(word, value));
  }

  lemma StoredMore(mem: seq<u64>, base: nat, values: seq<u64>)
    requires values != [] && base < |mem|
    ensures Stored(mem[base := values[0]], base + 1, values[1..]) == Stored(mem, base, values)
  {
  }

  /** The words krealloc copies from the buffer at page a. */
  function OldWords(mem: seq<u64>, a: nat, count: nat): seq<u64> {
    if (a + count) * WORDS_PER_PAGE <= |mem| then mem[a * WORDS_PER_PAGE..(a + count) * WORDS_PER_PAGE] else []
  }

  /** A krealloc of the buffer at page a, which moves it to page b. */
  ghost predicate Moves(s: Sys, a: nat, b: nat, newLen: u64) {
    && a * 4096 < U64 && IsClient(s, a) && Recorded(s.m.mm, a)
    && PagesFor(newLen) > s.live[a] % U16
    && FirstFit(s.m.mm, PagesFor(newLen)) == Some(b) && !Wraps(s.m.mm.recs, b)
  }

  /** The copy, store by store. */
  ghost function CopyOps(s: Sys, a: nat, b: nat): seq<Op> {
    Stores(b * WORDS_PER_PAGE, OldWords(s.m.mem, a, if a in s.live then s.live[a] % U16 else 0))
  }

  ghost function KreallocSections(s: Sys, a: nat, b: nat, newLen: u64): seq<Op>
    requires a * 4096 < U64
  {
    [Kmalloc(newLen)] + CopyOps(s, a, b) + [Kfree(a * 4096)]
  }

  /** The memory system when the buffer at b has been allocated and filled. */
  ghost function BeforeFree(s: Sys, a: nat, b: nat, newLen: u64): Sys {
    s.(m := Machine(Malloc(s.m.mm, newLen).0,
                    Stored(s.m.mem, b * WORDS_PER_PAGE,
                           OldWords(s.m.mem, a, if a in s.live then s.live[a] % U16 else 0))),
       live := s.live[b := PagesFor(newLen)])
  }

  /** A krealloc that moves a buffer is a kmalloc, the stores of the copy, and a kfree. */
  lemma KreallocIsItsSections(s: Sys, a: nat, b: nat, newLen: u64)
    requires SysInv(s) && Moves(s, a, b, newLen)
    ensures MmInv(s.m.mm) && |s.m.mem| == s.m.mm.limit * WORDS_PER_PAGE
    ensures 0 < a && Enabled(s, Krealloc(a * 4096, newLen))
    ensures CanRun(s, KreallocSections(s, a, b, newLen))
    ensures Run(s, KreallocSections(s, a, b, newLen)) == Step(s, Krealloc(a * 4096, newLen))
  {
    hide SysInv, Run, CanRun, Enabled, Step, Moves, Stores, OldWords, BeforeFree;
    SysParts(s);
    ReallocBegins(s, a, b, newLen);
    RunOfOne(s, Kmalloc(newLen));
    var s1 := Step(s, Kmalloc(newLen));
    var copy := CopyOps(s, a, b);
    CopyRuns(s, s1, a, b, newLen);
    RunOfBoth(s, [Kmalloc(newLen)], copy);
    RunIs(s1, copy, s1.flat);
    ReallocEnds(s, a, b, newLen);
    ThenOne(s, [Kmalloc(newLen)] + copy, Kfree(a * 4096));
  }

  /** After its kmalloc the caller holds both buffers. */
  lemma ReallocBegins(s: Sys, a: nat, b: nat, newLen: u64)
    requires SysInv(s) && Moves(s, a, b, newLen)
    requires MmInv(s.m.mm) && |s.m.mem| == s.m.mm.limit * WORDS_PER_PAGE
    ensures 0 < a && a in s.live && Enabled(s, Kmalloc(newLen)) && Enabled(s, Krealloc(a * 4096, newLen))
    ensures (a + s.live[a] % U16) * WORDS_PER_PAGE <= |s.m.mem|
    ensures Step(s, Kmalloc(newLen)) ==
            s.(m := s.m.(mm := Malloc(s.m.mm, newLen).0), live := s.live[b := PagesFor(newLen)])
    ensures IsClient(Step(s, Kmalloc(newLen)), b)
  {
    hide Accounted, Translates, TreeInv, IsLive, FirstFit, PagesFor, Recorded, Wraps, Claim, AllRecorded, MmInv;
    MallocKeepsLive(s.m.mm, newLen, s.live);
    LiveInBounds(s.m.mm, s.live, a);
    forall n | n in s.nodes ensures s.nodes[n] != b {
      assert s.nodes[n] in s.live;
    }
  }

  lemma CopyRuns(s: Sys, s1: Sys, a: nat, b: nat, newLen: u64)
    requires Moves(s, a, b, newLen) && SysInv(s1) && IsClient(s1, b)
    requires (a + s.live[a] % U16) * WORDS_PER_PAGE <= |s.m.mem|
    requires s1 == s.(m := s.m.(mm := Malloc(s.m.mm, newLen).0), live := s.live[b := PagesFor(newLen)])
    ensures CanRun(s1, CopyOps(s, a, b)) && Run(s1, CopyOps(s, a, b)) == BeforeFree(s, a, b, newLen)
  {
    hide SysInv, Malloc, PagesFor, FirstFit, Recorded, Wraps, CanRun, Run;
    StoresRun(s1, b, b * WORDS_PER_PAGE, OldWords(s.m.mem, a, s.live[a] % U16));
  }

  /** After the copy kfree finds the old buffer's record, and leaves what krealloc leaves. */
  lemma ReallocEnds(s: Sys, a: nat, b: nat, newLen: u64)
    requires SysInv(s) && Moves(s, a, b, newLen) && 0 < a && SysInv(BeforeFree(s, a, b, newLen))
    requires MmInv(s.m.mm) && |s.m.mem| == s.m.mm.limit * WORDS_PER_PAGE
    requires (a + s.live[a] % U16) * WORDS_PER_PAGE <= |s.m.mem|
    ensures Enabled(BeforeFree(s, a, b, newLen), Kfree(a * 4096))
    ensures var t := BeforeFree(s, a, b, newLen);
            && MmInv(t.m.mm) && |t.m.mem| == t.m.mm.limit * WORDS_PER_PAGE
            && Step(t, Kfree(a * 4096)) == Step(s, Krealloc(a * 4096, newLen))
  {
    hide Accounted, Translates, TreeInv, IsLive, FirstFit, PagesFor, Recorded, Wraps, Claim, AllRecorded, MmInv,
         MmSpec.Krealloc, CopyForward, Malloc, OldWords, FindRec, Copied, SamePages, SetRange, Stored,
         LiveInv;
    SysParts(BeforeFree(s, a, b, newLen));
    MoveKeepsLive(s.m.mm, a, newLen, s.live);
    OldBufferStays(s, a, newLen);
    KreallocMoves(s.m, a, newLen, s.live);
    ReallocMm(s.m, a, newLen, s.live);
    var u := MmSpec.Krealloc(s.m, a * 4096, newLen).value.0;
    CopiedIsStored(s.m.mem, u.mem, b, a, s.live[a] % U16);
    assert s.live[b := PagesFor(newLen)] - {a} == (s.live - {a})[b := PagesFor(newLen)];
  }

  lemma OldBufferStays(s: Sys, a: nat, newLen: u64)
    requires Consistent(s) && IsClient(s, a) && Recorded(s.m.mm, a)
    requires var f := FirstFit(s.m.mm, PagesFor(newLen)); f.Some? && !Wraps(s.m.mm.recs, f.value)
    ensures Recorded(Malloc(s.m.mm, newLen).0, a)
  {
    hide MmInv, TreeInv, FindRec, FreeRun;
    assert IsLive(s.m.mm, a, s.live[a]);
    var b := FirstFit(s.m.mm, PagesFor(newLen)).value;
    ClaimKeepsOneLive(s.m.mm, b, PagesFor(newLen), a, s.live[a]);
    ClaimKeepsRecord(s.m.mm, b, PagesFor(newLen), a);
  }

  lemma ReallocMm(m: Machine, a: nat, newLen: u64, live: map<nat, nat>)
    requires Wired(m, live) && a in live && a * 4096 < U64 && Recorded(m.mm, a)
    requires PagesFor(newLen) > live[a] % U16 && FirstFit(m.mm, PagesFor(newLen)).Some?
    requires !Wraps(m.mm.recs, FirstFit(m.mm, PagesFor(newLen)).value)
    ensures MmSpec.Krealloc(m, a * 4096, newLen).Returned? && Free(Malloc(m.mm, newLen).0, a).Returned?
    ensures MmSpec.Krealloc(m, a * 4096, newLen).value.0.mm == Free(Malloc(m.mm, newLen).0, a).value
  {
    hide MmInv, FindRec, FreeRun, CopyForward, MmSpec.Krealloc, PagesFor, Free;
    assert IsLive(m.mm, a, live[a]);
    KreallocMoves(m, a, newLen, live);
    KreallocUnfolds(m, a, newLen);
  }

  lemma CopiedIsStored(before: seq<u64>, after: seq<u64>, dst: nat, src: nat, n: nat)
    requires PagesCopied(before, after, dst, src, n) && (src + n) * WORDS_PER_PAGE <= |before|
    ensures after == Stored(before, dst * WORDS_PER_PAGE, OldWords(before, src, n))
  {
  }
}
