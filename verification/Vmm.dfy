/** The page tables as vmm.c maintains them, in place in physical memory. */
module Vmm {
  import opened Bits
  import opened Common
  import opened MmSpec
  import opened MmLaws
  import opened ReallocLaws
  import opened BootSpec
  import opened PageAlloc
  import opened VmmSpec
  import opened TreeLaws
  import opened MemorySystem
  import opened UnmapLaws
  import opened DeadLinks
  import opened SystemRuns
  import opened BootTables

  /** A `pagemap_t` over the allocator.  The ghost argument `s` of a method is the memory system the
      page tables belong to; it says where every table is. */
  class PageMap {
    const mm: PageAllocator
    var topLevel: u64

    constructor (mm: PageAllocator)
      ensures this.mm == mm && topLevel == 0
    {
      this.mm := mm;
      topLevel := 0;
    }

    /** The allocator is in order and its memory is that of a consistent memory system. */
    ghost predicate Holds(s: Sys)
      reads this, mm, mm.pages, mm.allocs, mm.mem
    {
      mm.Valid() && mm.View() == s.m && Consistent(s) && s.root == topLevel
    }

    /** `memset(addr, 0, 4096)` */
    method ClearPage(addr: nat)
      requires mm.Shape() && addr / 8 + WORDS_PER_PAGE <= mm.mem.Length
      modifies mm.mem
      ensures mm.Shape() && mm.View() == old(mm.View()).(mem := ZeroPage(old(mm.mem[..]), addr))
    {
      var i := 0;
      while i < WORDS_PER_PAGE
        invariant 0 <= i <= WORDS_PER_PAGE && mm.Shape()
        invariant mm.State() == old(mm.State())
        invariant forall k :: 0 <= k < mm.mem.Length ==>
          mm.mem[k] == if addr / 8 <= k < addr / 8 + i then 0 else old(mm.mem[k])
      {
        mm.mem[addr / 8 + i] := 0;
        i := i + 1;
      }
      assert mm.mem[..] == ZeroPage(old(mm.mem[..]), addr);
    }

    /** `get_next_level`, statement for statement; 0 is NULL and the result of kmalloc is not tested. */
    method GetNextLevel(currLevel: u64, entry: nat, doAlloc: bool) returns (ret: u64)
      requires mm.Valid()
      requires currLevel / 8 + entry < mm.mem.Length
      modifies mm`allocCount, mm.pages, mm.allocs, mm.mem
      ensures mm.Valid()
      ensures (mm.View(), ret) == NextLevel(old(mm.View()), currLevel, entry, doAlloc)
    {
      hide And, Or, MmInv, FirstFit, BitsOf, Claim;
      var link := mm.mem[currLevel / 8 + entry];
      if And(link, 1) == 1 {
        ret := And(link, ADDRESS_MASK);
      } else if doAlloc {
        ghost var s := mm.State();
        MallocFits(s, 4096);
        ret := mm.Kmalloc(4096);
        ClearPage(ret);
        mm.mem[currLevel / 8 + entry] := Word(Or(ret, 7));
        assert mm.mem[..] == Store(ZeroPage(old(mm.mem[..]), ret), currLevel, entry, Word(Or(ret, 7)));
      } else {
        ret := 0;
      }
    }

    /** `vmm_map_page` of a pagemap that is not NULL. */
    method MapPage(phys: u64, virt: u64, flags: u64, ghost s: Sys) returns (ok: bool)
      requires Holds(s)
      modifies mm`allocCount, mm.pages, mm.allocs, mm.mem
      ensures mm.Valid()
      ensures (mm.View(), ok) == VmmSpec.MapPage(old(mm.View()), topLevel, phys, virt, flags)
    {
      hide MmInv, LiveInv, TreeInv, NodeAt, Slot, NextLevel, Index, Extend, FreePages, Store, Vpn, Or, And, Load,
           HasNext, FailLevel, Frame, Leaf, RecordsFollow;
      ghost var vpn := Vpn(virt);
      SlotIsIndex(virt, 0); SlotIsIndex(virt, 1); SlotIsIndex(virt, 2); SlotIsIndex(virt, 3);
      assert Shift(0) == 39 && Shift(1) == 30 && Shift(2) == 21 && Shift(3) == 12;
      ConsistentPath(s, vpn);
      MapFrom(s, vpn, 0);
      TableInBounds(s, vpn, 0);
      var level3 := GetNextLevel(topLevel, Index(virt, 39), true);
      if level3 == 0 {
        return false;
      }
      ghost var s1 := Extend(s, vpn, 0);
      MapFrom(s1, vpn, 1);
      TableInBounds(s1, vpn, 1);
      var level2 := GetNextLevel(level3, Index(virt, 30), true);
      if level2 == 0 {
        return false;
      }
      ghost var s2 := Extend(s1, vpn, 1);
      MapFrom(s2, vpn, 2);
      TableInBounds(s2, vpn, 2);
      var level1 := GetNextLevel(level2, Index(virt, 21), true);
      if level1 == 0 {
        return false;
      }
      ghost var s3 := Extend(s2, vpn, 2);
      TableInBounds(s3, vpn, 3);
      WriteEntry(level1, Index(virt, 12), Word(Or(phys, flags)));
      ok := true;
    }

    /** `level1[level1_entry] = value` */
    method WriteEntry(table: u64, entry: nat, value: u64)
      requires mm.Valid() && table / 8 + entry < mm.mem.Length
      modifies mm.mem
      ensures mm.Valid() && mm.View() == old(mm.View()).(mem := Store(old(mm.mem[..]), table, entry, value))
    {
      mm.mem[table / 8 + entry] := value;
      assert mm.mem[..] == Store(old(mm.mem[..]), table, entry, value);
    }

    /** The boot run has done its first k maps. */
    ghost predicate Booting(s0: Sys, ops: seq<Op>, k: nat)
      reads this, mm, mm.pages, mm.allocs, mm.mem
    {
      && SysInv(s0) && AllMaps(ops) && CanRun(s0, ops) && k <= |ops|
      && CanRun(s0, ops[..k]) && Holds(Run(s0, ops[..k]))
    }

    /** The k-th map of vmm_init, in a run that started at s0. */
    method BootMap(phys: u64, virt: u64, ghost s0: Sys, ghost ops: seq<Op>, ghost k: nat)
      requires Booting(s0, ops, k) && k < |ops| && ops[k] == Map(phys, virt, 0x3)
      modifies mm`allocCount, mm.pages, mm.allocs, mm.mem
      ensures Booting(s0, ops, k + 1)
    {
      hide MmInv, LiveInv, TreeInv, Run, CanRun, Step, TablesFor, FreePages, VmmSpec.MapPage, Enabled, Missing,
           Accounted, Translates;
      RunPrefix(s0, ops, k);
      ghost var s := Run(s0, ops[..k]);
      StepIsTheCall(s, ops[k]);
      StepKeepsInv(s, ops[k]);
      RootStays(s, ops[k]);
      var ok := MapPage(phys, virt, 0x3, s);
    }

    /** The loops of vmm_init over the kernel sections. */
    method MapSections(vs: seq<VmmEntry>, ghost ps: seq<PmmEntry>, ghost s0: Sys)
      requires Booting(s0, BootMaps(vs, ps), 0)
      modifies mm`allocCount, mm.pages, mm.allocs, mm.mem
      ensures Booting(s0, BootMaps(vs, ps), |SectionMaps(vs)|)
    {
      hide Booting, BootMaps, SectionMaps, EntryMaps;
      ghost var ops := BootMaps(vs, ps);
      ghost var k := 0;
      var i := 0;
      assert vs[..0] == [];
      NoMaps();
      while i < |vs|
        invariant 0 <= i <= |vs| && k == |SectionMaps(vs[..i])| && Booting(s0, ops, k)
      {
        var j := 0;
        while j < vs[i].pages
          invariant 0 <= j <= vs[i].pages && k == |SectionMaps(vs[..i])| + j && Booting(s0, ops, k)
        {
          var offset := j * 4096;
          SectionMapAt(vs, ps, i, j);
          BootMap(Word(vs[i].phys + offset), Word(vs[i].virt + offset), s0, ops, k);
          k := k + 1;
          j := j + 1;
        }
        SectionsGrow(vs, i);
        i := i + 1;
      }
      assert vs[..|vs|] == vs;
    }

    /** The loops of vmm_init over the boot memory entries. */
    method MapEntries(ghost vs: seq<VmmEntry>, ps: seq<PmmEntry>, ghost s0: Sys)
      requires Booting(s0, BootMaps(vs, ps), |SectionMaps(vs)|)
      modifies mm`allocCount, mm.pages, mm.allocs, mm.mem
      ensures Booting(s0, BootMaps(vs, ps), |SectionMaps(vs)| + |EntryMaps(ps)|)
    {
      hide Booting, BootMaps, SectionMaps, EntryMaps;
      ghost var ops := BootMaps(vs, ps);
      ghost var k := |SectionMaps(vs)|;
      var i := 0;
      assert ps[..0] == [];
      NoMaps();
      while i < |ps|
        invariant 0 <= i <= |ps| && k == |SectionMaps(vs)| + |EntryMaps(ps[..i])| && Booting(s0, ops, k)
      {
        var j := 0;
        while j < ps[i].pages
          invariant 0 <= j <= ps[i].pages && k == |SectionMaps(vs)| + |EntryMaps(ps[..i])| + j && Booting(s0, ops, k)
        {
          var offset := j * 4096;
          EntryMapAt(vs, ps, i, j);
          BootMap(Word(ps[i].start + offset), Word(ps[i].start + offset), s0, ops, k);
          k := k + 1;
          j := j + 1;
        }
        EntriesGrow(ps, i);
        i := i + 1;
      }
      assert ps[..|ps|] == ps;
    }

    /** The last loop of vmm_init. */
    method MapLowMemory(ghost vs: seq<VmmEntry>, ghost ps: seq<PmmEntry>, ghost s0: Sys)
      requires Booting(s0, BootMaps(vs, ps), |SectionMaps(vs)| + |EntryMaps(ps)|)
      modifies mm`allocCount, mm.pages, mm.allocs, mm.mem
      ensures Booting(s0, BootMaps(vs, ps), |BootMaps(vs, ps)|)
      ensures forall virt: u64 :: virt / 4096 % 0x10_0000_0000 * 4096 < 0x1000_0000 ==>
                Effective(mm.mem[..], topLevel, virt) == virt / 4096 % 0x10_0000_0000 * 4096 + 3
    {
      hide Booting, BootMaps, SectionMaps, EntryMaps, Effective;
      var i := 0;
      while i < 0x10000
        invariant 0 <= i <= 0x10000 && Booting(s0, BootMaps(vs, ps), |SectionMaps(vs)| + |EntryMaps(ps)| + i)
      {
        IdentityMapAt(vs, ps, i);
        var addr := i * 4096;
        BootMap(addr, addr, s0, BootMaps(vs, ps), |SectionMaps(vs)| + |EntryMaps(ps)| + i);
        i := i + 1;
      }
      BootMapsLength(vs, ps);
      BootedLow(s0, vs, ps);
    }

    /** What the whole boot run leaves of the first 256 MB. */
    lemma BootedLow(s0: Sys, vs: seq<VmmEntry>, ps: seq<PmmEntry>)
      requires Booting(s0, BootMaps(vs, ps), |BootMaps(vs, ps)|)
      ensures forall virt: u64 :: virt / 4096 % 0x10_0000_0000 * 4096 < 0x1000_0000 ==>
                Effective(mm.mem[..], topLevel, virt) == virt / 4096 % 0x10_0000_0000 * 4096 + 3
    {
      hide SysInv, CanRun, Run, BootMaps, AllMaps, Consistent, Effective, MmInv;
      var ops := BootMaps(vs, ps);
      assert ops[..|ops|] == ops;
      forall virt: u64 | virt / 4096 % 0x10_0000_0000 * 4096 < 0x1000_0000
        ensures Effective(mm.mem[..], topLevel, virt) == virt / 4096 % 0x10_0000_0000 * 4096 + 3
      {
        LowMemoryMapped(s0, vs, ps, virt);
      }
    }

    /** `vmm_init`: a top-level table, then the kernel sections, the boot memory entries and the first
        256 MB.  Page counts stay below 2^19 because the loops compute `j * 4096` in an `int`. */
    method Init(vs: seq<VmmEntry>, ps: seq<PmmEntry>, ghost live: map<nat, nat>)
      requires mm.Valid() && Wired(mm.View(), live) && BootTablesOk(vs, ps)
      requires 1 + |TablesFor(BootMaps(vs, ps)) - {ROOT}| <= |FreePages(mm.State())|
      modifies this, mm`allocCount, mm.pages, mm.allocs, mm.mem
      ensures mm.Valid()
      ensures (mm.View(), topLevel) == VmmInit(old(mm.View()), vs, ps)
    {
      hide MmInv, LiveInv, TreeInv, Run, CanRun, TablesFor, FreePages, BootMaps, SectionMaps, EntryMaps, MapAll,
           VmmInit, SysInv, Malloc;
      ghost var m := mm.View();
      ghost var s0 := FirstSys(m, live);
      ghost var ops := BootMaps(vs, ps);
      FirstSysInv(m, live);
      BootMapsAreMaps(vs, ps);
      assert s0.nodes.Keys == {ROOT};
      MapsCanRun(s0, ops);
      VmmInitIs(m, live, vs, ps);
      MallocFits(m.mm, 4096);
      topLevel := mm.Kmalloc(4096);
      ClearPage(topLevel);
      RunStarts(s0, ops);
      FirstIsConsistent(s0);
      MapSections(vs, ps, s0);
      MapEntries(vs, ps, s0);
      MapLowMemory(vs, ps, s0);
      assert ops[..|ops|] == ops;
    }

    /** `vmm_unmap_page` of a pagemap that is not NULL. */
    method UnmapPage(virt: u64, ghost s: Sys) returns (ok: bool)
      requires Holds(s)
      modifies mm`allocCount, mm.pages, mm.allocs, mm.mem
      ensures mm.Valid()
      ensures (mm.View(), ok) == VmmSpec.UnmapPage(old(mm.View()), topLevel, virt)
    {
      hide MmInv, LiveInv, TreeInv, NodeAt, Slot, Index, FreePages, Store, Vpn, Or, And, Load;
      ghost var vpn := Vpn(virt);
      SlotIsIndex(virt, 0); SlotIsIndex(virt, 1); SlotIsIndex(virt, 2); SlotIsIndex(virt, 3);
      assert Shift(0) == 39 && Shift(1) == 30 && Shift(2) == 21 && Shift(3) == 12;
      ConsistentPath(s, vpn);
      LookUp(s, vpn, 0);
      TableInBounds(s, vpn, 0);
      var level3 := GetNextLevel(topLevel, Index(virt, 39), false);
      if level3 == 0 {
        return false;
      }
      LookUp(s, vpn, 1);
      TableInBounds(s, vpn, 1);
      var level2 := GetNextLevel(level3, Index(virt, 30), false);
      if level2 == 0 {
        return false;
      }
      LookUp(s, vpn, 2);
      TableInBounds(s, vpn, 2);
      var level1 := GetNextLevel(level2, Index(virt, 21), false);
      if level1 == 0 {
        return false;
      }
      TableInBounds(s, vpn, 3);
      WriteEntry(level1, Index(virt, 12), 0);
      ok := true;
    }
  }

  lemma MallocFits(mm: Mm, len: u64)
    requires MmInv(mm)
    ensures Malloc(mm, len).1 / 8 + WORDS_PER_PAGE <= mm.limit * WORDS_PER_PAGE
  {
    var f := FirstFit(mm, PagesFor(len));
    if f.Some? { RunEndsBeforeLimit(mm, f.value, PagesFor(len)); }
  }

  lemma TableInBounds(s: Sys, vpn: nat, d: nat)
    requires Consistent(s) && vpn < VPNS && d <= 3 && NodeAt(vpn, d) in s.nodes
    ensures s.nodes[NodeAt(vpn, d)] * 4096 / 8 + Slot(vpn, d) < |s.m.mem|
  {
    hide MmInv, LiveInv, LinksOk, NodeAt, Slot;
    SlotIsSmall(vpn, d);
    assert NodeOk(s.m.mem, s.nodes, s.dead, NodeAt(vpn, d));
  }

  lemma SlotIsSmall(vpn: nat, d: nat)
    requires vpn < VPNS
    ensures Slot(vpn, d) < 512
  {
  }

  lemma RunStarts(s: Sys, ops: seq<Op>)
    requires SysInv(s)
    ensures CanRun(s, ops[..0]) && Run(s, ops[..0]) == s
  {
    hide SysInv;
    assert ops[..0] == [];
  }

  lemma FirstIsConsistent(s: Sys)
    requires SysInv(s)
    ensures Consistent(s)
  {
  }

  lemma NoMaps()
    ensures SectionMaps([]) == [] && EntryMaps([]) == []
  {
  }

  lemma SectionsGrow(vs: seq<VmmEntry>, i: nat)
    requires i < |vs|
    ensures |SectionMaps(vs[..i + 1])| == |SectionMaps(vs[..i])| + vs[i].pages
  {
    assert vs[..i + 1][..i] == vs[..i];
  }

  lemma EntriesGrow(ps: seq<PmmEntry>, i: nat)
    requires i < |ps|
    ensures |EntryMaps(ps[..i + 1])| == |EntryMaps(ps[..i])| + ps[i].pages
  {
    assert ps[..i + 1][..i] == ps[..i];
  }

  lemma IdentityMapAt(vs: seq<VmmEntry>, ps: seq<PmmEntry>, i: nat)
    requires i < IDENTITY_PAGES
    ensures var k := |SectionMaps(vs)| + |EntryMaps(ps)| + i;
            k < |BootMaps(vs, ps)| && BootMaps(vs, ps)[k] == Map(i * 4096, i * 4096, 3)
  {
  }

  lemma BootMapsLength(vs: seq<VmmEntry>, ps: seq<PmmEntry>)
    ensures |BootMaps(vs, ps)| == |SectionMaps(vs)| + |EntryMaps(ps)| + IDENTITY_PAGES
  {
  }
}
