/** The page tables as the processor reads them, in words and plain arithmetic (Intel SDM volume 3A, section 4.5). */
module WalkLaws {
  import opened Bits
  import opened Common
  import opened MmSpec
  import opened MmLaws
  import opened ReallocLaws
  import opened VmmSpec
  import opened TreeLaws
  import opened MemorySystem
  import opened UnmapLaws
  import opened DeadLinks
  import opened SystemRuns

  /** The word at a byte address. */
  function WordAt(mem: seq<u64>, addr: nat): u64 {
    if addr / 8 < |mem| then mem[addr / 8] else 0
  }

  /** From a table at `table`, slot i links the table at `next`, present, writable and open to users. */
  ghost predicate LinksTo(mem: seq<u64>, table: nat, i: nat, next: nat) {
    && next % 4096 == 0 && next != 0 && (table + 8 * i) / 8 < |mem|
    && WordAt(mem, table + 8 * i) == next + 7
  }

  /** Bits 39 to 47, 30 to 38, 21 to 29 of an address choose three links from the top level on, and bits 12 to 20 an
      entry in the last table. */
  ghost predicate ReadsAs(mem: seq<u64>, root: nat, virt: u64, entry: u64) {
    exists t3: nat, t2: nat, t1: nat ::
      && LinksTo(mem, root, virt / 0x80_0000_0000 % 512, t3)
      && LinksTo(mem, t3, virt / 0x4000_0000 % 512, t2)
      && LinksTo(mem, t2, virt / 0x20_0000 % 512, t1)
      && WordAt(mem, t1 + 8 * (virt / 0x1000 % 512)) == entry
  }

  lemma SlotInWords(virt: u64)
    ensures Slot(Vpn(virt), 0) == virt / 0x80_0000_0000 % 512 && Slot(Vpn(virt), 1) == virt / 0x4000_0000 % 512
    ensures Slot(Vpn(virt), 2) == virt / 0x20_0000 % 512 && Slot(Vpn(virt), 3) == virt / 0x1000 % 512
  {
    hide Pow2, Index, Slot;
    Pow2Values();
    SlotIsIndex(virt, 0); SlotIsIndex(virt, 1); SlotIsIndex(virt, 2); SlotIsIndex(virt, 3);
    assert Shift(0) == 39 && Shift(1) == 30 && Shift(2) == 21 && Shift(3) == 12;
    IndexIs(virt, 39, 0x80_0000_0000);
    IndexIs(virt, 30, 0x4000_0000);
    IndexIs(virt, 21, 0x20_0000);
    IndexIs(virt, 12, 0x1000);
  }

  lemma EntryIsWord(mem: seq<u64>, page: nat, i: nat)
    ensures Entry(mem, page, i) == WordAt(mem, page * 4096 + 8 * i)
    ensures (page * 4096 + 8 * i) / 8 == page * WORDS_PER_PAGE + i
  {
  }

  lemma StepInWords(s: Sys, vpn: nat, d: nat)
    requires Consistent(s) && vpn < VPNS && d < 3 && NodeAt(vpn, d) in s.nodes && NodeAt(vpn, d + 1) in s.nodes
    ensures LinksTo(s.m.mem, s.nodes[NodeAt(vpn, d)] * 4096, Slot(vpn, d), s.nodes[NodeAt(vpn, d + 1)] * 4096)
  {
    hide MmInv, LiveInv, NodeAt, Slot, Entry, DeadOk, WordAt;
    ChildOnPath(vpn, d);
    var n, c := NodeAt(vpn, d), NodeAt(vpn, d + 1);
    assert NodeOk(s.m.mem, s.nodes, s.dead, n) && NodeOk(s.m.mem, s.nodes, s.dead, c);
    EntryIsWord(s.m.mem, s.nodes[n], Slot(vpn, d));
    assert Entry(s.m.mem, s.nodes[n], Slot(vpn, d)) == LinkTo(s.nodes, s.dead, c);
  }

  /** Every page that was ever mapped is read through three tables that are there. */
  lemma MappedReadsAs(s: Sys, virt: u64)
    requires SysInv(s) && Vpn(virt) in s.mapped
    ensures ReadsAs(s.m.mem, s.root, virt, Translation(s.flat, Vpn(virt)))
  {
    hide MmInv, LiveInv, TreeInv, NodeAt, Slot, Vpn, LinksTo, Entry;
    var vpn := Vpn(virt);
    SlotInWords(virt);
    MappedHasTables(s, vpn);
    ConsistentPath(s, vpn);
    StepInWords(s, vpn, 0);
    StepInWords(s, vpn, 1);
    StepInWords(s, vpn, 2);
    EntryIsWord(s.m.mem, s.nodes[NodeAt(vpn, 3)], Slot(vpn, 3));
  }

  lemma MappedHasTables(s: Sys, vpn: nat)
    requires Accounted(s) && vpn in s.mapped
    ensures vpn < VPNS && NodeAt(vpn, 1) in s.nodes && NodeAt(vpn, 2) in s.nodes && NodeAt(vpn, 3) in s.nodes
  {
    forall d | 1 <= d <= 3 ensures NodeAt(vpn, d) in s.nodes {
      assert vpn in s.mapped && NodeAt(vpn, d) == NodeAt(vpn, NodeAt(vpn, d).depth);
      assert NodeAt(vpn, d) in s.nodes <==> IsTable(s, NodeAt(vpn, d));
    }
  }

  /** After any run the words of memory, read so, give every page mapped before it or in it what the maps and unmaps
      of the run say. */
  lemma RunReadsAs(s: Sys, ops: seq<Op>, virt: u64)
    requires SysInv(s) && CanRun(s, ops) && Vpn(virt) in s.mapped + MappedBy(ops)
    ensures ReadsAs(Run(s, ops).m.mem, s.root, virt, Translation(FlatMap(s.flat, ops), Vpn(virt)))
  {
    hide SysInv, CanRun, Run, MappedBy, FlatMap, ReadsAs, Vpn;
    RunIs(s, ops, s.flat);
    RunMaps(s, ops);
    MappedReadsAs(Run(s, ops), virt);
  }

  // ---------------------------------------------------------------- what a map writes

  /** After a map the processor finds at the page the bits of the address and of the flags, so their sum if the address
      is aligned, and at every other page what it found before. */
  lemma MapThenRead(s: Sys, phys: u64, virt: u64, flags: u64, other: u64)
    requires SysInv(s) && s.path.Idle? && CanMap(s, Vpn(virt))
    ensures var (m, ok) := MapPage(s.m, s.root, phys, virt, flags);
            && ok
            && (forall k: nat :: Bit(Effective(m.mem, s.root, virt), k) <==> Bit(phys, k) || Bit(flags, k))
            && (phys % 4096 == 0 && flags < 4096 ==> Effective(m.mem, s.root, virt) == phys + flags)
            && (virt / 4096 % 0x10_0000_0000 != other / 4096 % 0x10_0000_0000 ==>
                 Effective(m.mem, s.root, other) == Effective(s.m.mem, s.root, other))
  {
    hide Wired, TreeInv, Accounted, CanMap, MapPage, Effective, Or, NodeAt, Leaf, Frame, AllRecorded, FreePages;
    MapIs(s, phys, virt, flags);
    MapKeepsInv(s, phys, virt, flags);
    var t := AfterMap(s, phys, virt, flags);
    Reads(s, other);
    Reads(t, other);
    Reads(t, virt);
    MapRoot(s, phys, virt, flags);
    EntryInBits(phys, flags);
  }

  lemma MapRoot(s: Sys, phys: u64, virt: u64, flags: u64)
    ensures AfterMap(s, phys, virt, flags).root == s.root
    ensures AfterMap(s, phys, virt, flags).flat == s.flat[Vpn(virt) := Word(Or(phys, flags))]
  {
    hide NextLevel, NodeAt, Slot, Or, Vpn;
    assert ExtendAll(s, Vpn(virt)).root == s.root;
  }

  lemma Reads(s: Sys, virt: u64)
    requires SysInv(s)
    ensures Effective(s.m.mem, s.root, virt) == Translation(s.flat, Vpn(virt))
  {
    hide Wired, TreeInv, Accounted, Effective, Leaf;
    WalkIs(s.m.mem, s.root, s.nodes, s.dead, virt);
  }

  lemma EntryInBits(phys: u64, flags: u64)
    ensures forall k: nat :: Bit(Word(Or(phys, flags)), k) <==> Bit(phys, k) || Bit(flags, k)
    ensures phys % 4096 == 0 && flags < 4096 ==> Word(Or(phys, flags)) == phys + flags
  {
    hide Or, Bit, Pow2;
    Pow2Values();
    OrBound(phys, flags, 64);
    assert Word(Or(phys, flags)) == Or(phys, flags);
    forall k: nat ensures Bit(Or(phys, flags), k) <==> Bit(phys, k) || Bit(flags, k) { BitOfOr(phys, flags, k); }
    if phys % 4096 == 0 && flags < 4096 { PageFlags(phys / 4096, flags); }
  }

  /** After an unmap it finds nothing there. */
  lemma UnmapThenRead(s: Sys, virt: u64, other: u64)
    requires SysInv(s)
    ensures var m := UnmapPage(s.m, s.root, virt).0;
            && Effective(m.mem, s.root, virt) == 0
            && (virt / 4096 % 0x10_0000_0000 != other / 4096 % 0x10_0000_0000 ==>
                 Effective(m.mem, s.root, other) == Effective(s.m.mem, s.root, other))
  {
    hide Wired, TreeInv, Accounted, UnmapPage, Effective, NodeAt, Leaf, Slot, Store;
    UnmapIs(s, virt);
    UnmapKeepsInv(s, virt);
    var t := AfterUnmap(s, virt);
    if NodeAt(Vpn(virt), 3) !in s.nodes { UnservedLeaf(s.m.mem, s.nodes, Vpn(virt)); }
    Reads(s, other);
    Reads(t, other);
    Reads(t, virt);
  }
}
