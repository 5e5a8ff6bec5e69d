/** From the boot memory map on: the allocator and the page tables set up one after the other, then any run. */
module KernelRun {
  import opened Bits
  import opened Common
  import opened MmSpec
  import opened MmLaws
  import opened ReallocLaws
  import opened BootSpec
  import opened VmmSpec
  import opened TreeLaws
  import opened MemorySystem
  import opened SystemRuns
  import opened BootTables

  /** mm_init has left allocator state s over memory `mem`, and there are pages for the tables of vmm_init. */
  ghost predicate ReadyToBoot(es: seq<PmmEntry>, i: nat, s: Mm, mem: seq<u64>, vs: seq<VmmEntry>) {
    && BootMap(es) && HoldsTables(es, i) && IsBootState(es, es[i].start / 4096, s)
    && |mem| == s.limit * WORDS_PER_PAGE
    && BootTablesOk(vs, es)
    && 1 + |TablesFor(BootMaps(vs, es)) - {ROOT}| <= |FreePages(s)|
  }

  /** The memory system after vmm_init. */
  ghost function Booted(es: seq<PmmEntry>, i: nat, s: Mm, mem: seq<u64>, vs: seq<VmmEntry>): Sys
    requires ReadyToBoot(es, i, s, mem, vs)
  {
    BootCanRun(es, i, s, mem, vs);
    Run(FirstSys(Machine(s, mem), map[]), BootMaps(vs, es))
  }

  lemma BootCanRun(es: seq<PmmEntry>, i: nat, s: Mm, mem: seq<u64>, vs: seq<VmmEntry>)
    requires ReadyToBoot(es, i, s, mem, vs)
    ensures Wired(Machine(s, mem), map[])
    ensures var s0 := FirstSys(Machine(s, mem), map[]);
            SysInv(s0) && s0.root != 0 && s0.flat == map[] && CanRun(s0, BootMaps(vs, es))
  {
    hide MmInv, FreePages, TablesFor, BootMaps, CanRun, Malloc, SysInv, BootMap, HoldsTables, IsBootState,
         BootTablesOk;
    BootStateIsValid(es, i, s);
    var m := Machine(s, mem);
    FirstSysInv(m, map[]);
    BootMapsAreMaps(vs, es);
    assert FirstSys(m, map[]).nodes.Keys == {ROOT};
    MapsCanRun(FirstSys(m, map[]), BootMaps(vs, es));
  }

  /** vmm_init after mm_init leaves a memory system in order, whose translations are the overlay. */
  lemma BootedSystem(es: seq<PmmEntry>, i: nat, s: Mm, mem: seq<u64>, vs: seq<VmmEntry>)
    requires ReadyToBoot(es, i, s, mem, vs)
    ensures var sys := Booted(es, i, s, mem, vs);
            && SysInv(sys)
            && VmmInit(Machine(s, mem), vs, es) == (sys.m, sys.root)
            && forall vpn :: 0 <= vpn < VPNS ==> Translation(sys.flat, vpn) == Overlay(vs, es, vpn)
  {
    hide ReadyToBoot, FlatMap, SysInv, CanRun, Run, MapAll, Overlay, BootMaps, FirstSys, Translation;
    BootCanRun(es, i, s, mem, vs);
    var s0, ops := FirstSys(Machine(s, mem), map[]), BootMaps(vs, es);
    RunIs(s0, ops, s0.flat);
    BootIsVmmInit(es, i, s, mem, vs);
    forall vpn | 0 <= vpn < VPNS ensures Translation(Run(s0, ops).flat, vpn) == Overlay(vs, es, vpn) {
      OverlayAt(es, i, s, mem, vs, vpn);
    }
  }

  lemma OverlayAt(es: seq<PmmEntry>, i: nat, s: Mm, mem: seq<u64>, vs: seq<VmmEntry>, vpn: nat)
    requires ReadyToBoot(es, i, s, mem, vs) && vpn < VPNS
    ensures Translation(FlatMap(map[], BootMaps(vs, es)), vpn) == Overlay(vs, es, vpn)
  {
    BootMapsOverlay(vs, es, vpn);
  }

  lemma BootIsVmmInit(es: seq<PmmEntry>, i: nat, s: Mm, mem: seq<u64>, vs: seq<VmmEntry>)
    requires ReadyToBoot(es, i, s, mem, vs)
    ensures var sys := Booted(es, i, s, mem, vs); VmmInit(Machine(s, mem), vs, es) == (sys.m, sys.root)
  {
    hide ReadyToBoot, SysInv, CanRun, Run, MapAll, BootMaps, Malloc, MmInv, VmmInit, FirstSys;
    BootCanRun(es, i, s, mem, vs);
    BootMapsAreMaps(vs, es);
    VmmInitIs(Machine(s, mem), map[], vs, es);
  }

  /** The whole kernel life: after boot and any run of calls and stores, every address translates by the
      overlay with the run's own maps and unmaps applied to it, and tables and buffers stay apart. */
  lemma KernelTranslates(es: seq<PmmEntry>, i: nat, s: Mm, mem: seq<u64>, vs: seq<VmmEntry>, ops: seq<Op>,
                         overlay: map<nat, u64>, virt: u64)
    requires ReadyToBoot(es, i, s, mem, vs)
    requires forall vpn :: 0 <= vpn < VPNS ==> Translation(overlay, vpn) == Overlay(vs, es, vpn)
    requires SysInv(Booted(es, i, s, mem, vs)) && CanRun(Booted(es, i, s, mem, vs), ops)
    ensures var sys := Run(Booted(es, i, s, mem, vs), ops);
            SysInv(sys) && Effective(sys.m.mem, sys.root, virt) == Translation(FlatMap(overlay, ops), Vpn(virt))
  {
    hide ReadyToBoot, FlatMap, SysInv, CanRun, Run, Overlay, BootMaps, Translation, Effective, Vpn, Booted;
    var sys := Booted(es, i, s, mem, vs);
    BootedSystem(es, i, s, mem, vs);
    RunIs(sys, ops, overlay);
    RunIs(sys, ops, sys.flat);
    RunRefinesFlatMap(sys, ops, virt);
  }
}
