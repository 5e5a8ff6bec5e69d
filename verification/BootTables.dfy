/** The tables vmm_init builds: which page maps to what after boot. */
module BootTables {
  import opened Bits
  import opened Common
  import opened MmSpec
  import opened MmLaws
  import opened ReallocLaws
  import opened BootSpec
  import opened VmmSpec
  import opened TreeLaws
  import opened MemorySystem
  import opened UnmapLaws
  import opened DeadLinks
  import opened SystemRuns

  /** A kernel section. */
  datatype VmmEntry = VmmEntry(phys: u64, virt: u64, pages: u64)

  const IDENTITY_PAGES: nat := 0x1_0000  // 256 MB

  /** The maps of n consecutive pages, present and writable. */
  function MapsOf(phys: u64, virt: u64, n: nat): (ops: seq<Op>)
    ensures |ops| == n
    ensures forall j :: 0 <= j < n ==> ops[j] == Map(Word(phys + j * 4096), Word(virt + j * 4096), 3)
  {
    seq(n, j requires 0 <= j < n => Map(Word(phys + j * 4096), Word(virt + j * 4096), 3))
  }

  function SectionMaps(vs: seq<VmmEntry>): seq<Op> {
    if vs == [] then []
    else SectionMaps(vs[..|vs| - 1]) + MapsOf(vs[|vs| - 1].phys, vs[|vs| - 1].virt, vs[|vs| - 1].pages)
  }

  function EntryMaps(ps: seq<PmmEntry>): seq<Op> {
    if ps == [] then []
    else EntryMaps(ps[..|ps| - 1]) + MapsOf(ps[|ps| - 1].start, ps[|ps| - 1].start, ps[|ps| - 1].pages)
  }

  /** Every map vmm_init performs, in order. */
  function BootMaps(vs: seq<VmmEntry>, ps: seq<PmmEntry>): seq<Op> {
    SectionMaps(vs) + EntryMaps(ps) + MapsOf(0, 0, IDENTITY_PAGES)
  }

  // ---------------------------------------------------------------- the overlay

  /** The place of a page number in a run of pages starting at an address. */
  function Offset(virt: u64, vpn: nat): (j: nat)
    ensures j < VPNS
  {
    (vpn - virt / 4096) % VPNS
  }

  /** The entry from the last kernel section that covers the page, 0 if none does. */
  function LastSection(vs: seq<VmmEntry>, vpn: nat): u64 {
    if vs == [] then 0
    else
      var e := vs[|vs| - 1];
      if Offset(e.virt, vpn) < e.pages then Word(Or(Word(e.phys + Offset(e.virt, vpn) * 4096), 3))
      else LastSection(vs[..|vs| - 1], vpn)
  }

  ghost predicate InSomeEntry(ps: seq<PmmEntry>, vpn: nat) {
    exists i :: 0 <= i < |ps| && InEntry(ps[i], vpn)
  }

  /** Identity below 256 MB and on every boot memory entry, else the last section, else nothing. */
  ghost function Overlay(vs: seq<VmmEntry>, ps: seq<PmmEntry>, vpn: nat): u64 {
    if vpn * 4096 < 0x1000_0000 || InSomeEntry(ps, vpn) then Word(vpn * 4096 + 3) else LastSection(vs, vpn)
  }

  /** Page counts whose byte offset fits the `int` arithmetic of the loops, entries page aligned and
      below the 48-bit limit of translated addresses. */
  ghost predicate BootTablesOk(vs: seq<VmmEntry>, ps: seq<PmmEntry>) {
    && (forall i :: 0 <= i < |vs| ==> vs[i].pages < 0x8_0000)
    && (forall i :: 0 <= i < |ps| ==>
         ps[i].pages < 0x8_0000 && ps[i].start % 4096 == 0 && ps[i].start / 4096 + ps[i].pages <= VPNS)
  }

  lemma VpnOfOffset(virt: u64, j: nat)
    ensures Vpn(Word(virt + j * 4096)) == (virt / 4096 + j) % VPNS
  {
    var x := virt + j * 4096;
    assert x / 4096 == virt / 4096 + j;
    assert VPNS * 0x1_0000 == 0x10_0000_0000_0000;
    ModThenDiv(x, 4096, 0x10_0000_0000_0000);
    Split(x / 4096, VPNS, 0x1_0000);
    QuotientIs(x / 4096 % 0x10_0000_0000_0000, VPNS, x / 4096 / VPNS % 0x1_0000, x / 4096 % VPNS);
  }

  lemma OffsetIs(virt: u64, j: nat, vpn: nat)
    requires vpn < VPNS && j < VPNS
    ensures (virt / 4096 + j) % VPNS == vpn <==> Offset(virt, vpn) == j
  {
    var b := virt / 4096;
    var q := (b + j) / VPNS;
    if (b + j) % VPNS == vpn {
      QuotientIs(vpn - b, VPNS, -q, j);
    }
    var o := (vpn - b) % VPNS;
    if o == j {
      var k := (vpn - b) / VPNS;
      QuotientIs(b + j, VPNS, -k, vpn);
    }
  }

  lemma {:induction false} FlatMapConcat(flat: map<nat, u64>, a: seq<Op>, b: seq<Op>)
    ensures FlatMap(flat, a + b) == FlatMap(FlatMap(flat, a), b)
    decreases |a|
  {
    if a == [] {
      assert a + b == b;
    } else {
      assert (a + b)[1..] == a[1..] + b;
      FlatMapConcat(FlatMap(flat, [a[0]]), a[1..], b);
      FlatMapSplits(flat, a);
      FlatMapSplits(flat, a + b);
    }
  }

  /** A run of maps sets exactly its own pages. */
  lemma {:induction false} FlatMapOfRun(flat: map<nat, u64>, phys: u64, virt: u64, n: nat, vpn: nat)
    requires n <= VPNS && vpn < VPNS
    ensures Translation(FlatMap(flat, MapsOf(phys, virt, n)), vpn) ==
            if Offset(virt, vpn) < n then Word(Or(Word(phys + Offset(virt, vpn) * 4096), 3)) else Translation(flat, vpn)
  {
    hide Or, Word, Vpn, Offset, FlatMap;
    if n == 0 {
      assert MapsOf(phys, virt, n) == [];
      FlatMapNone(flat);
    } else {
      var front, last := MapsOf(phys, virt, n - 1), MapsOf(phys, virt, n)[n - 1];
      assert MapsOf(phys, virt, n) == front + [last];
      FlatMapConcat(flat, front, [last]);
      FlatMapOne(FlatMap(flat, front), last);
      FlatMapOfRun(flat, phys, virt, n - 1, vpn);
      VpnOfOffset(virt, n - 1);
      OffsetIs(virt, n - 1, vpn);
    }
  }

  lemma {:induction false} FlatMapOfSections(vs: seq<VmmEntry>, vpn: nat)
    requires vpn < VPNS && forall i :: 0 <= i < |vs| ==> vs[i].pages <= VPNS
    ensures Translation(FlatMap(map[], SectionMaps(vs)), vpn) == LastSection(vs, vpn)
  {
    if vs != [] {
      var front, e := vs[..|vs| - 1], vs[|vs| - 1];
      FlatMapOfSections(front, vpn);
      FlatMapConcat(map[], SectionMaps(front), MapsOf(e.phys, e.virt, e.pages));
      FlatMapOfRun(FlatMap(map[], SectionMaps(front)), e.phys, e.virt, e.pages, vpn);
    }
  }

  /** An aligned run below 2^48 mapped to itself. */
  lemma IdentityRun(start: u64, n: nat, vpn: nat)
    requires start % 4096 == 0 && start / 4096 + n <= VPNS && vpn < VPNS
    ensures Offset(start, vpn) < n <==> start / 4096 <= vpn < start / 4096 + n
    ensures Offset(start, vpn) < n ==> Word(Or(Word(start + Offset(start, vpn) * 4096), 3)) == Word(vpn * 4096 + 3)
  {
    hide Or, Word, Offset;
    OffsetFrom(start, vpn);
    PageFlags(vpn, 3);
    if vpn >= start / 4096 {
      SmallWord(vpn * 4096);
      assert start + Offset(start, vpn) * 4096 == vpn * 4096;
    }
  }

  lemma SmallWord(x: u64)
    ensures Word(x) == x
  {
  }

  lemma OffsetFrom(start: u64, vpn: nat)
    requires start / 4096 <= VPNS && vpn < VPNS
    ensures Offset(start, vpn) == if vpn >= start / 4096 then vpn - start / 4096 else vpn - start / 4096 + VPNS
  {
    var b := start / 4096;
    QuotientIs(vpn - b, VPNS, if vpn >= b then 0 else -1, if vpn >= b then vpn - b else vpn - b + VPNS);
  }

  lemma FlatMapNone(flat: map<nat, u64>)
    ensures FlatMap(flat, []) == flat
  {
  }

  lemma {:induction false} FlatMapOfEntries(flat: map<nat, u64>, ps: seq<PmmEntry>, vpn: nat)
    requires vpn < VPNS
    requires forall i :: 0 <= i < |ps| ==> ps[i].start % 4096 == 0 && ps[i].start / 4096 + ps[i].pages <= VPNS
    ensures Translation(FlatMap(flat, EntryMaps(ps)), vpn) ==
            if InSomeEntry(ps, vpn) then Word(vpn * 4096 + 3) else Translation(flat, vpn)
  {
    hide Or, Word, Offset, FlatMap, MapsOf, Translation;
    FlatMapNone(flat);
    if ps != [] {
      var front, e := ps[..|ps| - 1], ps[|ps| - 1];
      FlatMapOfEntries(flat, front, vpn);
      FlatMapConcat(flat, EntryMaps(front), MapsOf(e.start, e.start, e.pages));
      FlatMapOfRun(FlatMap(flat, EntryMaps(front)), e.start, e.start, e.pages, vpn);
      IdentityRun(e.start, e.pages, vpn);
      if i :| 0 <= i < |front| && InEntry(front[i], vpn) { assert InEntry(ps[i], vpn); }
      if i :| 0 <= i < |ps| && InEntry(ps[i], vpn) { assert i < |front| ==> InEntry(front[i], vpn); }
    }
  }

  /** The maps of vmm_init amount to the overlay. */
  lemma BootMapsOverlay(vs: seq<VmmEntry>, ps: seq<PmmEntry>, vpn: nat)
    requires BootTablesOk(vs, ps) && vpn < VPNS
    ensures Translation(FlatMap(map[], BootMaps(vs, ps)), vpn) == Overlay(vs, ps, vpn)
  {
    var sections := FlatMap(map[], SectionMaps(vs));
    FlatMapOfSections(vs, vpn);
    FlatMapConcat(map[], SectionMaps(vs), EntryMaps(ps));
    FlatMapOfEntries(sections, ps, vpn);
    FlatMapConcat(map[], SectionMaps(vs) + EntryMaps(ps), MapsOf(0, 0, IDENTITY_PAGES));
    FlatMapOfRun(FlatMap(sections, EntryMaps(ps)), 0, 0, IDENTITY_PAGES, vpn);
    IdentityRun(0, IDENTITY_PAGES, vpn);
  }

  // ---------------------------------------------------------------- enough pages for all tables

  ghost predicate AllMaps(ops: seq<Op>) {
    forall i :: 0 <= i < |ops| ==> ops[i].Map?
  }

  /** The tables below the top level that a list of maps needs. */
  function PathNodes3(vpn: nat): set<Node> {
    {NodeAt(vpn, 1), NodeAt(vpn, 2), NodeAt(vpn, 3)}
  }

  function TablesFor(ops: seq<Op>): set<Node> {
    if ops == [] then {} else (if ops[0].Map? then PathNodes3(Vpn(ops[0].virt)) else {}) + TablesFor(ops[1..])
  }

  lemma MissingIs(nodes: map<Node, nat>, vpn: nat)
    ensures Missing(nodes, vpn) == |PathNodes3(vpn) - nodes.Keys|
  {
    hide NodeAt, Missing;
    PathNodes(nodes, vpn);
    CountThree(NodeAt(vpn, 1), NodeAt(vpn, 2), NodeAt(vpn, 3), nodes.Keys);
  }

  lemma CountOne(a: Node, keys: set<Node>)
    ensures |{a} - keys| == if a in keys then 0 else 1
  {
    assert {a} - keys == if a in keys then {} else {a};
  }

  lemma CountThree(a: Node, b: Node, c: Node, keys: set<Node>)
    requires a != b && b != c && a != c
    ensures |{a, b, c} - keys| == (if a in keys then 0 else 1) + (if b in keys then 0
            else 1) + (if c in keys then 0 else 1)
  {
    CountOne(a, keys);
    CountOne(b, keys);
    CountOne(c, keys);
    var x, y, z := {a} - keys, {b} - keys, {c} - keys;
    Joined(x, y);
    Joined(x + y, z);
    EachLess(a, b, c, keys);
  }

  lemma EachLess(a: Node, b: Node, c: Node, keys: set<Node>)
    ensures {a, b, c} - keys == (({a} - keys) + ({b} - keys)) + ({c} - keys)
  {
  }

  /** Maps whose tables all find a free page succeed one after the other. */
  lemma {:induction false} MapsCanRun(s: Sys, ops: seq<Op>)
    requires SysInv(s) && s.path.Idle? && s.dead == {} && AllMaps(ops)
    requires |TablesFor(ops) - s.nodes.Keys| <= |FreePages(s.m.mm)|
    ensures CanRun(s, ops)
    decreases |ops|
  {
    hide SysInv, FreePages, PathNodes3, Missing, AfterMap, Vpn, Enabled, Step, CanRun;
    if ops == [] {
      CanRunNone(s, ops);
    } else {
      var op, rest := ops[0], ops[1..];
      var here := PathNodes3(Vpn(op.virt));
      MissingIs(s.nodes, Vpn(op.virt));
      SubsetSize(here - s.nodes.Keys, TablesFor(ops) - s.nodes.Keys);
      MapStep(s, op);
      BudgetStep(here, TablesFor(rest), s.nodes.Keys);
      MapsCanRun(Step(s, op), rest);
      CanRunMore(s, ops);
    }
  }

  lemma BudgetStep(here: set<Node>, more: set<Node>, keys: set<Node>)
    ensures |(here + more) - keys| == |here - keys| + |more - (keys + here)|
  {
    assert (here + more) - keys == (here - keys) + (more - (keys + here));
  }

  lemma CanRunNone(s: Sys, ops: seq<Op>)
    requires SysInv(s) && ops == []
    ensures CanRun(s, ops)
  {
  }

  lemma CanRunMore(s: Sys, ops: seq<Op>)
    requires SysInv(s) && ops != [] && Enabled(s, ops[0])
    requires MmInv(s.m.mm) && |s.m.mem| == s.m.mm.limit * WORDS_PER_PAGE
    requires SysInv(Step(s, ops[0])) && CanRun(Step(s, ops[0]), ops[1..])
    ensures CanRun(s, ops)
  {
    hide SysInv, Enabled, Step;
  }

  lemma MapStep(s: Sys, op: Op)
    requires SysInv(s) && s.path.Idle? && op.Map? && s.dead == {}
    requires Missing(s.nodes, Vpn(op.virt)) <= |FreePages(s.m.mm)|
    ensures MmInv(s.m.mm) && |s.m.mem| == s.m.mm.limit * WORDS_PER_PAGE
    ensures Enabled(s, op) && SysInv(Step(s, op)) && Step(s, op).path.Idle? && Step(s, op).dead == {}
    ensures Step(s, op).nodes.Keys == s.nodes.Keys + PathNodes3(Vpn(op.virt))
    ensures |FreePages(Step(s, op).m.mm)| == |FreePages(s.m.mm)| - Missing(s.nodes, Vpn(op.virt))
  {
    hide Consistent, Accounted, Translates, AfterMap, FreePages, Missing, NodeAt, Vpn, Frame, AllRecorded;
    SysParts(s);
    MapKeepsInv(s, op.phys, op.virt, op.flags);
  }

  // ---------------------------------------------------------------- vmm_init

  /** All maps, one after the other. */
  ghost function MapAll(m: Machine, root: nat, ops: seq<Op>): Machine {
    if ops == [] then m
    else
      var before := MapAll(m, root, ops[..|ops| - 1]);
      var op := ops[|ops| - 1];
      if op.Map? then MapPage(before, root, op.phys, op.virt, op.flags).0 else before
  }

  /** vmm_init: a zeroed top-level page, then all maps. */
  ghost function VmmInit(m: Machine, vs: seq<VmmEntry>, ps: seq<PmmEntry>): (Machine, nat) {
    var (m1, root) := MmSpec.Kmalloc(m, 4096);
    (MapAll(m1.(mem := ZeroPage(m1.mem, root)), root, BootMaps(vs, ps)), root)
  }

  /** The memory system when the top level has just been allocated. */
  ghost function FirstSys(m: Machine, live: map<nat, nat>): Sys {
    var (m1, root) := MmSpec.Kmalloc(m, 4096);
    Sys(m1.(mem := ZeroPage(m1.mem, root)), root, map[ROOT := root / 4096], live[root / 4096 := 1], {}, map[], Idle,
        {}, {})
  }

  lemma FirstSysInv(m: Machine, live: map<nat, nat>)
    requires Wired(m, live) && FreePages(m.mm) != {}
    ensures SysInv(FirstSys(m, live))
    ensures |FreePages(FirstSys(m, live).m.mm)| == |FreePages(m.mm)| - 1
    ensures FirstSys(m, live).root != 0 && FirstSys(m, live).dead == {}
  {
    hide MmInv, LiveInv, FirstFit, Malloc, FreePages;
    MallocOnePage(m.mm, live);
    var s := FirstSys(m, live);
    forall i: nat | i < 512 ensures Entry(s.m.mem, s.nodes[ROOT], i) == LinkTo(s.nodes, {}, Child(ROOT, i)) {
      assert Child(ROOT, i) != ROOT;
    }
    forall vpn | 0 <= vpn < VPNS ensures Leaf(s.m.mem, s.nodes, vpn) == 0 {
      assert NodeAt(vpn, 3) != ROOT;
    }
    assert NodeOk(s.m.mem, s.nodes, {}, ROOT);
  }

  lemma {:induction false} MapAllFromFront(m: Machine, root: nat, op: Op, rest: seq<Op>)
    requires op.Map?
    ensures MapAll(m, root, [op] + rest) == MapAll(MapPage(m, root, op.phys, op.virt, op.flags).0, root, rest)
  {
    var ops := [op] + rest;
    if rest == [] {
      assert ops[..|ops| - 1] == [];
    } else {
      var front := rest[..|rest| - 1];
      assert ops[..|ops| - 1] == [op] + front;
      assert ops[|ops| - 1] == rest[|rest| - 1];
      hide MapPage;
      MapAllFromFront(m, root, op, front);
    }
  }

  lemma {:induction false} RunIsMapAll(s: Sys, ops: seq<Op>)
    requires SysInv(s) && AllMaps(ops) && CanRun(s, ops)
    ensures Run(s, ops).m == MapAll(s.m, s.root, ops)
    decreases |ops|
  {
    hide SysInv, MapPage, AfterMap, Missing, FreePages, Vpn, Enabled, Step, CanRun, MapAll;
    if ops == [] {
      RunNone(s, ops);
    } else {
      RunMore(s, ops);
      RunIsMapAll(Step(s, ops[0]), ops[1..]);
      assert ops == [ops[0]] + ops[1..];
      MapAllFromFront(s.m, s.root, ops[0], ops[1..]);
    }
  }

  lemma RunNone(s: Sys, ops: seq<Op>)
    requires SysInv(s) && CanRun(s, ops) && ops == []
    ensures Run(s, ops).m == MapAll(s.m, s.root, ops)
  {
    hide SysInv;
  }

  lemma RunMore(s: Sys, ops: seq<Op>)
    requires SysInv(s) && CanRun(s, ops) && ops != [] && ops[0].Map?
    ensures MmInv(s.m.mm) && |s.m.mem| == s.m.mm.limit * WORDS_PER_PAGE
    ensures SysInv(Step(s, ops[0])) && CanRun(Step(s, ops[0]), ops[1..])
    ensures Run(s, ops) == Run(Step(s, ops[0]), ops[1..])
    ensures Step(s, ops[0]).root == s.root
    ensures Step(s, ops[0]).m == MapPage(s.m, s.root, ops[0].phys, ops[0].virt, ops[0].flags).0
  {
    hide SysInv, MapPage, AfterMap, Missing, FreePages, Vpn, Enabled, Step;
    SysParts(s);
    StepKeepsInv(s, ops[0]);
    StepIsTheCall(s, ops[0]);
    RootStays(s, ops[0]);
  }

  lemma VmmInitIs(m: Machine, live: map<nat, nat>, vs: seq<VmmEntry>, ps: seq<PmmEntry>)
    requires SysInv(FirstSys(m, live)) && AllMaps(BootMaps(vs, ps)) && CanRun(FirstSys(m, live), BootMaps(vs, ps))
    ensures VmmInit(m, vs, ps) == (Run(FirstSys(m, live), BootMaps(vs, ps)).m, FirstSys(m, live).root)
    ensures Run(FirstSys(m, live), BootMaps(vs, ps)).root == FirstSys(m, live).root
  {
    hide SysInv, Run, CanRun, MapAll, BootMaps;
    RunIsMapAll(FirstSys(m, live), BootMaps(vs, ps));
    RunIs(FirstSys(m, live), BootMaps(vs, ps), FirstSys(m, live).flat);
  }

  /** The state after the first k maps of a list that can run, and the step from there. */
  lemma {:induction false} RunPrefix(s: Sys, ops: seq<Op>, k: nat)
    requires SysInv(s) && AllMaps(ops) && CanRun(s, ops) && k < |ops|
    ensures CanRun(s, ops[..k]) && CanRun(s, ops[..k + 1])
    ensures var t := Run(s, ops[..k]);
            && SysInv(t) && MmInv(t.m.mm) && |t.m.mem| == t.m.mm.limit * WORDS_PER_PAGE
            && Enabled(t, ops[k]) && Run(s, ops[..k + 1]) == Step(t, ops[k])
    decreases k
  {
    hide SysInv, FreePages, PathNodes3, TablesFor, Missing, AfterMap, Vpn, Enabled, Step, CanRun, Run, MmInv;
    FirstStep(s, ops);
    var one := Step(s, ops[0]);
    if k == 0 {
      assert ops[..0] == [] && ops[..1] == [ops[0]] && [ops[0]][1..] == [];
      CanRunNone(s, ops[..0]);
      CanRunNone(one, []);
      CanRunMore(s, ops[..1]);
      RunUnfolds(s, ops[..0]);
      RunUnfolds(s, ops[..1]);
      RunUnfolds(one, []);
    } else {
      var rest := ops[1..];
      RunPrefix(one, rest, k - 1);
      assert ops[..k][1..] == rest[..k - 1] && ops[..k + 1][1..] == rest[..k] && ops[k] == rest[k - 1];
      CanRunMore(s, ops[..k]);
      CanRunMore(s, ops[..k + 1]);
      RunUnfolds(s, ops[..k]);
      RunUnfolds(s, ops[..k + 1]);
    }
  }

  lemma FirstStep(s: Sys, ops: seq<Op>)
    requires SysInv(s) && AllMaps(ops) && CanRun(s, ops) && ops != []
    ensures MmInv(s.m.mm) && |s.m.mem| == s.m.mm.limit * WORDS_PER_PAGE && Enabled(s, ops[0])
    ensures SysInv(Step(s, ops[0])) && CanRun(Step(s, ops[0]), ops[1..])
  {
    hide SysInv, Enabled, Step;
    SysParts(s);
    StepKeepsInv(s, ops[0]);
  }

  lemma RunUnfolds(s: Sys, ops: seq<Op>)
    requires SysInv(s) && CanRun(s, ops)
    requires ops != [] ==>
      && MmInv(s.m.mm) && |s.m.mem| == s.m.mm.limit * WORDS_PER_PAGE
      && SysInv(Step(s, ops[0])) && CanRun(Step(s, ops[0]), ops[1..])
    ensures Run(s, ops) == if ops == [] then s else Run(Step(s, ops[0]), ops[1..])
  {
    hide SysInv, Step, Enabled;
  }

  lemma BootMapsAreMaps(vs: seq<VmmEntry>, ps: seq<PmmEntry>)
    ensures AllMaps(BootMaps(vs, ps))
  {
    SectionsAreMaps(vs);
    EntriesAreMaps(ps);
  }

  lemma {:induction false} SectionsAreMaps(vs: seq<VmmEntry>)
    ensures AllMaps(SectionMaps(vs))
  {
    if vs != [] { SectionsAreMaps(vs[..|vs| - 1]); }
  }

  lemma {:induction false} EntriesAreMaps(ps: seq<PmmEntry>)
    ensures AllMaps(EntryMaps(ps))
  {
    if ps != [] { EntriesAreMaps(ps[..|ps| - 1]); }
  }

  /** After vmm_init, with pages for the tables, the hardware translates every address by the overlay. */
  lemma VmmInitOverlay(m: Machine, live: map<nat, nat>, vs: seq<VmmEntry>, ps: seq<PmmEntry>, virt: u64)
    requires Wired(m, live) && BootTablesOk(vs, ps)
    requires 1 + |TablesFor(BootMaps(vs, ps)) - {ROOT}| <= |FreePages(m.mm)|
    ensures var (after, root) := VmmInit(m, vs, ps);
            root != 0 && Effective(after.mem, root, virt) == Overlay(vs, ps, Vpn(virt))
  {
    hide Wired, FreePages, TablesFor, BootMaps, MapAll, Run, CanRun, SysInv, Effective, Overlay, Vpn, FlatMap,
         Translation, AllMaps;
    FirstSysInv(m, live);
    var s := FirstSys(m, live);
    var ops := BootMaps(vs, ps);
    BootMapsAreMaps(vs, ps);
    assert s.nodes.Keys == {ROOT};
    MapsCanRun(s, ops);
    RunRefinesFlatMap(s, ops, virt);
    RunIsMapAll(s, ops);
    BootMapsOverlay(vs, ps, Vpn(virt));
  }

  /** Page j of a kernel section has this page number. */
  ghost predicate InSection(e: VmmEntry, j: nat, vpn: nat) {
    j < e.pages && (e.virt / 4096 + j) % 0x10_0000_0000 == vpn
  }

  lemma {:induction false} NoSection(vs: seq<VmmEntry>, vpn: nat)
    requires vpn < VPNS && forall i, j: nat :: 0 <= i < |vs| ==> !InSection(vs[i], j, vpn)
    ensures LastSection(vs, vpn) == 0
  {
    hide Offset;
    if vs != [] {
      var last := |vs| - 1;
      OffsetIs(vs[last].virt, Offset(vs[last].virt, vpn), vpn);
      assert !InSection(vs[last], Offset(vs[last].virt, vpn), vpn);
      NoSection(vs[..last], vpn);
    }
  }

  /** The last section with the page decides. */
  lemma {:induction false} SectionWins(vs: seq<VmmEntry>, i: nat, j: nat, vpn: nat)
    requires i < |vs| && InSection(vs[i], j, vpn) && vs[i].pages <= VPNS
    requires forall k, l: nat :: i < k < |vs| ==> !InSection(vs[k], l, vpn)
    ensures LastSection(vs, vpn) == Word(Or(Word(vs[i].phys + j * 4096), 3))
  {
    hide Offset, Or, Word;
    var last := |vs| - 1;
    var o := Offset(vs[last].virt, vpn);
    OffsetIs(vs[last].virt, o, vpn);
    OffsetIs(vs[last].virt, j, vpn);
    if i < last {
      assert !InSection(vs[last], o, vpn);
      SectionWins(vs[..last], i, j, vpn);
    }
  }

  lemma AlignedFrame(phys: u64, j: nat)
    requires phys % 4096 == 0 && phys + j * 4096 < U64
    ensures Word(Or(Word(phys + j * 4096), 3)) == phys + j * 4096 + 3
  {
    hide Or;
    SmallWord(phys + j * 4096);
    PageFlags(phys / 4096 + j, 3);
  }

  /** Where each page leads after vmm_init: the first 256 MB and the pages of all memory entries to themselves, the
      pages of a section to the section's frames unless a later section has them, too, and nothing else anywhere. */
  lemma BootTranslates(m: Machine, live: map<nat, nat>, vs: seq<VmmEntry>, ps: seq<PmmEntry>, virt: u64)
    requires Wired(m, live) && BootTablesOk(vs, ps)
    requires 1 + |TablesFor(BootMaps(vs, ps)) - {ROOT}| <= |FreePages(m.mm)|
    ensures var (after, root) := VmmInit(m, vs, ps);
            var vpn := virt / 4096 % 0x10_0000_0000;
            var found := Effective(after.mem, root, virt);
            var identity :=
              || vpn * 4096 < 0x1000_0000
              || (exists i :: 0 <= i < |ps| && ps[i].start / 4096 <= vpn < ps[i].start / 4096 + ps[i].pages);
            && (identity ==> found == vpn * 4096 + 3)
            && (!identity && (forall i, j: nat :: 0 <= i < |vs| ==> !InSection(vs[i], j, vpn)) ==> found == 0)
            && (forall i: nat, j: nat ::
                 && !identity && i < |vs| && InSection(vs[i], j, vpn)
                 && (forall k, l: nat :: i < k < |vs| ==> !InSection(vs[k], l, vpn))
                 && vs[i].phys % 4096 == 0 && vs[i].phys + j * 4096 < 0x1_0000_0000_0000_0000 ==>
                   found == vs[i].phys + j * 4096 + 3)
  {
    hide Wired, FreePages, TablesFor, BootMaps, VmmInit, Effective, LastSection, Or, InSection;
    var vpn := virt / 4096 % 0x10_0000_0000;
    VmmInitOverlay(m, live, vs, ps, virt);
    SmallWord(vpn * 4096 + 3);
    assert InSomeEntry(ps, vpn) <==> exists i :: 0 <= i < |ps| && InEntry(ps[i], vpn);
    if forall i, j: nat :: 0 <= i < |vs| ==> !InSection(vs[i], j, vpn) { NoSection(vs, vpn); }
    forall i: nat, j: nat |
      && i < |vs| && InSection(vs[i], j, vpn)
      && (forall k, l: nat :: i < k < |vs| ==> !InSection(vs[k], l, vpn))
      && vs[i].phys % 4096 == 0 && vs[i].phys + j * 4096 < 0x1_0000_0000_0000_0000
      ensures LastSection(vs, vpn) == vs[i].phys + j * 4096 + 3
    {
      SectionWins(vs, i, j, vpn);
      AlignedFrame(vs[i].phys, j);
    }
  }

  /** Wherever the maps of vmm_init start, they leave the first 256 MB mapped to themselves. */
  lemma LowMemoryMapped(s: Sys, vs: seq<VmmEntry>, ps: seq<PmmEntry>, virt: u64)
    requires SysInv(s) && CanRun(s, BootMaps(vs, ps)) && virt / 4096 % 0x10_0000_0000 * 4096 < 0x1000_0000
    ensures Run(s, BootMaps(vs, ps)).root == s.root
    ensures Effective(Run(s, BootMaps(vs, ps)).m.mem, s.root, virt) == virt / 4096 % 0x10_0000_0000 * 4096 + 3
  {
    hide SysInv, CanRun, Run, Effective, Offset, Or, MapsOf, FlatMap;
    var ops, vpn := BootMaps(vs, ps), Vpn(virt);
    var others := SectionMaps(vs) + EntryMaps(ps);
    RunIs(s, ops, s.flat);
    RunRefinesFlatMap(s, ops, virt);
    FlatMapConcat(s.flat, others, MapsOf(0, 0, IDENTITY_PAGES));
    FlatMapOfRun(FlatMap(s.flat, others), 0, 0, IDENTITY_PAGES, vpn);
    IdentityRun(0, IDENTITY_PAGES, vpn);
    SmallWord(vpn * 4096 + 3);
  }

  // ---------------------------------------------------------------- where each map stands in the list

  lemma {:induction false} SectionsPrefix(vs: seq<VmmEntry>, i: nat)
    requires i <= |vs|
    ensures SectionMaps(vs[..i]) <= SectionMaps(vs)
  {
    if i < |vs| {
      SectionsPrefix(vs[..|vs| - 1], i);
      assert vs[..|vs| - 1][..i] == vs[..i];
    } else {
      assert vs[..i] == vs;
    }
  }

  lemma {:induction false} EntriesPrefix(ps: seq<PmmEntry>, i: nat)
    requires i <= |ps|
    ensures EntryMaps(ps[..i]) <= EntryMaps(ps)
  {
    if i < |ps| {
      EntriesPrefix(ps[..|ps| - 1], i);
      assert ps[..|ps| - 1][..i] == ps[..i];
    } else {
      assert ps[..i] == ps;
    }
  }

  lemma SectionMapAt(vs: seq<VmmEntry>, ps: seq<PmmEntry>, i: nat, j: nat)
    requires i < |vs| && j < vs[i].pages
    ensures |SectionMaps(vs[..i + 1])| == |SectionMaps(vs[..i])| + vs[i].pages
    ensures var k := |SectionMaps(vs[..i])| + j;
            && k < |BootMaps(vs, ps)|
            && BootMaps(vs, ps)[k] == Map(Word(vs[i].phys + j * 4096), Word(vs[i].virt + j * 4096), 3)
  {
    assert vs[..i + 1][..i] == vs[..i];
    SectionsPrefix(vs, i + 1);
    var k := |SectionMaps(vs[..i])| + j;
    assert SectionMaps(vs)[k] == SectionMaps(vs[..i + 1])[k];
  }

  lemma EntryMapAt(vs: seq<VmmEntry>, ps: seq<PmmEntry>, i: nat, j: nat)
    requires i < |ps| && j < ps[i].pages
    ensures |EntryMaps(ps[..i + 1])| == |EntryMaps(ps[..i])| + ps[i].pages
    ensures var k := |SectionMaps(vs)| + |EntryMaps(ps[..i])| + j;
            && k < |BootMaps(vs, ps)|
            && BootMaps(vs, ps)[k] == Map(Word(ps[i].start + j * 4096), Word(ps[i].start + j * 4096), 3)
  {
    assert ps[..i + 1][..i] == ps[..i];
    EntriesPrefix(ps, i + 1);
    var k := |EntryMaps(ps[..i])| + j;
    assert EntryMaps(ps)[k] == EntryMaps(ps[..i + 1])[k];
  }
}
