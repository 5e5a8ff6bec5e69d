/** The memory system as a whole, over any run of map, unmap, kmalloc, kfree, krealloc and writes by the
    holders of buffers: the page tables stay a tree of live allocations that nothing else touches, and
    the translation of every address is that of a flat map. */
module MemorySystem {
  import opened Bits
  import opened Common
  import opened MmSpec
  import opened MmLaws
  import opened ReallocLaws
  import opened VmmSpec
  import opened TreeLaws

  /** `m` and `root` are the kernel's state.  The rest is bookkeeping that follows each call: the page of
      every table, the live buffers (tables among them), the page numbers ever mapped, the flat map, how far a map
      that holds the pagemap lock has come, and what failed maps left: dead links, and tables for nothing. */
  datatype Sys = Sys(m: Machine, root: nat, nodes: map<Node, nat>, live: map<nat, nat>,
                     mapped: set<nat>, flat: map<nat, u64>, path: Path, dead: set<Node>, stubs: set<Node>)

  datatype Path = Idle | Mapping(vpn: nat, depth: nat)

  /** Tables are live one-page buffers and form a tree. */
  ghost predicate Consistent(s: Sys) {
    && Wired(s.m, s.live)
    && TreeInv(s.m.mem, s.root, s.nodes, s.dead)
    && (forall n :: n in s.nodes ==> s.nodes[n] in s.live && s.live[s.nodes[n]] == 1)
  }

  /** The tables are the top level, one for every prefix of a page number ever mapped or just being mapped, and
      the stubs, which are no leaf tables. */
  ghost predicate Accounted(s: Sys) {
    && (forall v :: v in s.mapped ==> v < VPNS)
    && (s.path.Mapping? ==> s.path.vpn < VPNS && 1 <= s.path.depth <= 3)
    && (forall n :: n in s.stubs ==> n in s.nodes && 1 <= n.depth <= 2)
    && (forall n :: n in s.nodes <==> IsTable(s, n))
  }

  ghost predicate IsTable(s: Sys, n: Node) {
    n == ROOT || OnSomePath(s.mapped, n) || OnOpenPath(s.path, n) || n in s.stubs
  }

  ghost predicate OnOpenPath(path: Path, n: Node) {
    path.Mapping? && 1 <= n.depth <= path.depth && n == NodeAt(path.vpn, n.depth)
  }

  ghost predicate OnSomePath(mapped: set<nat>, n: Node) {
    1 <= n.depth <= 3 && exists v :: v in mapped && n == NodeAt(v, n.depth)
  }

  ghost predicate Translates(s: Sys) {
    forall vpn :: 0 <= vpn < VPNS ==> Leaf(s.m.mem, s.nodes, vpn) == if vpn in s.flat then s.flat[vpn] else 0
  }

  ghost predicate SysInv(s: Sys) {
    Consistent(s) && Accounted(s) && Translates(s)
  }

  /** Buffers held by callers, as opposed to the page tables. */
  ghost predicate IsClient(s: Sys, a: nat) {
    a in s.live && a !in s.nodes.Values
  }

  ghost function FreePages(mm: Mm): set<nat> {
    set p: nat | p < mm.limit <= |mm.bits| && !mm.bits[p]
  }

  // ---------------------------------------------------------------- growing the tree by one level

  /** `get_next_level` with allocation, at depth d on the path to a page number. */
  ghost function Extend(s: Sys, vpn: nat, d: nat): Sys {
    var c := NodeAt(vpn, d + 1);
    if c in s.nodes || c in s.dead || NodeAt(vpn, d) !in s.nodes then s
    else
      var (m, addr) := NextLevel(s.m, s.nodes[NodeAt(vpn, d)] * 4096, Slot(vpn, d), true);
      s.(m := m, nodes := s.nodes[c := addr / 4096], live := s.live[addr / 4096 := 1])
  }

  lemma ClaimTakesPage(mm: Mm, p: nat)
    requires Sized(mm) && FreeRun(mm, p, 1)
    ensures p in FreePages(mm) && FreePages(Claim(mm, p, 1)) == FreePages(mm) - {p}
  {
  }

  /** What kmalloc(4096) does while a page is free. */
  lemma MallocOnePage(mm: Mm, live: map<nat, nat>)
    requires MmInv(mm) && LiveInv(mm, live) && FreePages(mm) != {}
    ensures var (after, addr) := Malloc(mm, 4096);
            var p := addr / 4096;
            && addr == p * 4096 && 0 < p < mm.limit == after.limit < 0x8000_0000 && p !in live
            && MmInv(after) && LiveInv(after, live[p := 1])
            && p in FreePages(mm) && FreePages(after) == FreePages(mm) - {p}
            && after.table == mm.table && after.tablePages == mm.tablePages
            && RecordsFollow(mm, live, after, live[p := 1])
  {
    hide MmInv, LiveInv, FreePages, FreeRun, FirstFit, FindRec, SetRange, Assign, Wraps, AllRecorded;
    MallocWithoutPages(mm);
    MallocKeepsInv(mm, 4096);
    MallocKeepsLive(mm, 4096, live);
    assert PagesFor(4096) == 1;
    var p := FirstFit(mm, 1).value;
    LeastIsFree(mm, p);
    ClaimTakesPage(mm, p);
    if AllRecorded(mm, live) {
      MallocKeepsRecordsIff(mm, 4096, live);
      OneMoreRecord(mm, p, live);
    }
  }

  lemma LeastIsFree(mm: Mm, p: nat)
    requires MmInv(mm) && FreeRun(mm, p, 1)
    ensures Sized(mm) && 0 < p < mm.limit
  {
    RunEndsBeforeLimit(mm, p, 1);
  }

  lemma OneMoreRecord(mm: Mm, p: nat, live: map<nat, nat>)
    ensures |mm.recs| + 1 < U16 ==> !Wraps(mm.recs, p)
    ensures Recorded(Claim(mm, p, 1), p) && AllRecorded(Claim(mm, p, 1), live) ==>
            AllRecorded(Claim(mm, p, 1), live[p := 1])
    ensures |Claim(mm, p, 1).recs| <= |mm.recs| + 1
  {
  }

  /** One kmalloc keeps a record for every live buffer while the counter of records is below its end. */
  ghost predicate RecordsFollow(mm: Mm, live: map<nat, nat>, after: Mm, grown: map<nat, nat>) {
    && |after.recs| <= |mm.recs| + 1
    && (AllRecorded(mm, live) && |mm.recs| + 1 < U16 ==> AllRecorded(after, grown))
  }

  /** Without a free page kmalloc returns NULL. */
  lemma MallocWithoutPages(mm: Mm)
    requires MmInv(mm)
    ensures FreePages(mm) == {} <==> FirstFit(mm, 1).None?
    ensures FreePages(mm) == {} ==> Malloc(mm, 4096) == (mm, 0)
  {
    assert PagesFor(4096) == 1;
    if p :| p in FreePages(mm) { assert FreeRun(mm, p, 1); }
    if FirstFit(mm, 1).Some? { assert FirstFit(mm, 1).value in FreePages(mm); }
  }

  /** The state after `get_next_level` linked a new table for c, holding page p, from slot i of table n. */
  ghost function Linked(s: Sys, n: Node, i: nat, p: nat, mm: Mm): Sys
    requires n in s.nodes
  {
    s.(m := Machine(mm, Grown(s.m.mem, s.nodes[n], i, p)), nodes := s.nodes[Child(n, i) := p], live := s.live[p := 1])
  }

  lemma LinkedIsConsistent(s: Sys, n: Node, i: nat, p: nat, mm: Mm)
    requires Consistent(s) && n in s.nodes && n.depth < 3 && i < 512
    requires Child(n, i) !in s.nodes && Child(n, i) !in s.dead
    requires MmInv(mm) && mm.limit == s.m.mm.limit < 0x8000_0000 && 0 < p < mm.limit && p !in s.live
    requires LiveInv(mm, s.live[p := 1])
    ensures Consistent(Linked(s, n, i, p, mm))
    ensures var t := Linked(s, n, i, p, mm);
            forall w :: 0 <= w < VPNS ==> Leaf(t.m.mem, t.nodes, w) == Leaf(s.m.mem, s.nodes, w)
  {
    hide MmInv, LiveInv, Leaf, TreeInv, ZeroPage, Store, Or;
    GrowTree(s.m.mem, s.root, s.nodes, s.dead, n, i, p);
    forall w | 0 <= w < VPNS
      ensures Leaf(Grown(s.m.mem, s.nodes[n], i, p), s.nodes[Child(n, i) := p], w) == Leaf(s.m.mem, s.nodes, w)
    {
      GrowKeepsLeaf(s.m.mem, s.root, s.nodes, s.dead, n, i, p, w);
    }
  }

  /** Word k of memory lies in a page table. */
  ghost predicate InTable(s: Sys, k: nat) {
    exists n :: n in s.nodes && s.nodes[n] * WORDS_PER_PAGE <= k < (s.nodes[n] + 1) * WORDS_PER_PAGE
  }

  /** Between s and t only page tables and page 0 were written, no buffer was given up, and no table took a live
      one. */
  ghost predicate Frame(s: Sys, t: Sys) {
    && t.m.mm.table == s.m.mm.table && t.m.mm.tablePages == s.m.mm.tablePages && |t.m.mem| == |s.m.mem|
    && (forall k :: 0 <= k < |s.m.mem| ==> t.m.mem[k] == s.m.mem[k] || InTable(t, k) || k < WORDS_PER_PAGE)
    && (forall a :: a in s.live ==> a in t.live && t.live[a] == s.live[a])
    && (forall n :: n in t.nodes ==> n in s.nodes || t.nodes[n] !in s.live)
    && (forall n :: n in s.nodes ==> n in t.nodes && t.nodes[n] == s.nodes[n])
  }

  lemma FrameThrough(s: Sys, t: Sys, u: Sys)
    requires Frame(s, t) && Frame(t, u)
    ensures Frame(s, u)
  {
    forall k | 0 <= k < |s.m.mem| ensures u.m.mem[k] == s.m.mem[k] || InTable(u, k) || k < WORDS_PER_PAGE {
      if InTable(t, k) {
        var n :| n in t.nodes && t.nodes[n] * WORDS_PER_PAGE <= k < (t.nodes[n] + 1) * WORDS_PER_PAGE;
        assert n in u.nodes && u.nodes[n] == t.nodes[n];
      }
    }
  }

  /** What one level of a map keeps and adds. */
  ghost predicate Extends(s: Sys, t: Sys, c: Node) {
    && Consistent(t) && t.root == s.root && t.mapped == s.mapped && t.flat == s.flat && t.path == s.path
    && t.dead == s.dead && t.stubs == s.stubs
    && t.nodes.Keys == s.nodes.Keys + {c}
    && Frame(s, t)
    && (forall w :: 0 <= w < VPNS ==> Leaf(t.m.mem, t.nodes, w) == Leaf(s.m.mem, s.nodes, w))
    && |FreePages(t.m.mm)| == |FreePages(s.m.mm)| - (if c in s.nodes then 0 else 1)
    && RecordsFollow(s.m.mm, s.live, t.m.mm, t.live)
  }

  lemma NextLevelFresh(m: Machine, page: nat, i: nat)
    requires And(Entry(m.mem, page, i), 1) == 0
    requires Malloc(m.mm, 4096).1 % 4096 == 0
    ensures var (mm, addr) := Malloc(m.mm, 4096);
            NextLevel(m, page * 4096, i, true) == (Machine(mm, Grown(m.mem, page, i, addr / 4096)), addr)
  {
    hide And, Or, Malloc, ZeroPage, Load, Store;
  }

  lemma LinkedExtends(s: Sys, n: Node, i: nat, p: nat, mm: Mm)
    requires Consistent(s) && n in s.nodes && n.depth < 3 && i < 512
    requires Child(n, i) !in s.nodes && Child(n, i) !in s.dead
    requires MmInv(mm) && mm.limit == s.m.mm.limit < 0x8000_0000 && 0 < p < mm.limit && p !in s.live
    requires LiveInv(mm, s.live[p := 1])
    requires p in FreePages(s.m.mm) && FreePages(mm) == FreePages(s.m.mm) - {p}
    requires mm.table == s.m.mm.table && mm.tablePages == s.m.mm.tablePages
    requires RecordsFollow(s.m.mm, s.live, mm, s.live[p := 1])
    ensures Extends(s, Linked(s, n, i, p, mm), Child(n, i))
  {
    hide MmInv, LiveInv, Leaf, FreePages, TreeInv, Grown, Consistent, RecordsFollow;
    LinkedIsConsistent(s, n, i, p, mm);
    LinkedFrame(s, n, i, p, mm);
  }

  lemma LinkedFrame(s: Sys, n: Node, i: nat, p: nat, mm: Mm)
    requires n in s.nodes && i < 512 && Child(n, i) !in s.nodes && p !in s.live
    requires mm.table == s.m.mm.table && mm.tablePages == s.m.mm.tablePages
    ensures Frame(s, Linked(s, n, i, p, mm))
  {
    hide Or;
    var t := Linked(s, n, i, p, mm);
    assert t.nodes[n] == s.nodes[n] && t.nodes[Child(n, i)] == p;
    forall k | 0 <= k < |s.m.mem| ensures t.m.mem[k] == s.m.mem[k] || InTable(t, k) || k < WORDS_PER_PAGE {
    }
  }

  lemma ExtendFresh(s: Sys, vpn: nat, d: nat)
    requires Consistent(s) && vpn < VPNS && d < 3 && NodeAt(vpn, d) in s.nodes
    requires NodeAt(vpn, d + 1) !in s.nodes && NodeAt(vpn, d + 1) !in s.dead && FreePages(s.m.mm) != {}
    ensures var t := Extend(s, vpn, d);
            var c := NodeAt(vpn, d + 1);
            && Extends(s, t, c) && c in t.nodes
            && t.nodes[c] != 0
            && NextLevel(s.m, s.nodes[NodeAt(vpn, d)] * 4096, Slot(vpn, d), true) == (t.m, t.nodes[c] * 4096)
  {
    hide MmInv, LiveInv, Leaf, NodeAt, Slot, And, Malloc, FreePages, Load, TreeInv, Grown, NextLevel, Extends,
         RecordsFollow;
    FollowIs(s.m.mem, s.root, s.nodes, s.dead, vpn, d);
    ChildOnPath(vpn, d);
    MallocOnePage(s.m.mm, s.live);
    var n := NodeAt(vpn, d);
    var (mm, addr) := Malloc(s.m.mm, 4096);
    NextLevelFresh(s.m, s.nodes[n], Slot(vpn, d));
    LinkedExtends(s, n, Slot(vpn, d), addr / 4096, mm);
    assert Extend(s, vpn, d) == Linked(s, n, Slot(vpn, d), addr / 4096, mm);
  }

  lemma ExtendIs(s: Sys, vpn: nat, d: nat)
    requires Consistent(s) && vpn < VPNS && d < 3 && NodeAt(vpn, d) in s.nodes
    requires HasNext(s, vpn, d)
    ensures var t := Extend(s, vpn, d);
            var c := NodeAt(vpn, d + 1);
            && Extends(s, t, c) && c in t.nodes
            && t.nodes[c] != 0
            && NextLevel(s.m, s.nodes[NodeAt(vpn, d)] * 4096, Slot(vpn, d), true) == (t.m, t.nodes[c] * 4096)
  {
    hide MmInv, LiveInv, TreeInv, NodeAt, And, Slot, Malloc;
    if NodeAt(vpn, d + 1) in s.nodes {
      FollowIs(s.m.mem, s.root, s.nodes, s.dead, vpn, d);
    } else {
      ExtendFresh(s, vpn, d);
    }
  }

  // ---------------------------------------------------------------- map and unmap

  /** How many tables below depth d are missing on the path to a page number. */
  function MissingBelow(nodes: map<Node, nat>, vpn: nat, d: nat): nat
    decreases 3 - d
  {
    if d >= 3 then 0 else (if NodeAt(vpn, d + 1) in nodes then 0 else 1) + MissingBelow(nodes, vpn, d + 1)
  }

  /** How many tables a map of this page number has to allocate: at most three. */
  function Missing(nodes: map<Node, nat>, vpn: nat): nat {
    MissingBelow(nodes, vpn, 0)
  }

  lemma {:induction false} MissingAfter(nodes: map<Node, nat>, after: map<Node, nat>, vpn: nat, d: nat, e: nat)
    requires d <= e && after.Keys == nodes.Keys + {NodeAt(vpn, d)}
    ensures MissingBelow(after, vpn, e) == MissingBelow(nodes, vpn, e)
    decreases 3 - e
  {
    if e < 3 { MissingAfter(nodes, after, vpn, d, e + 1); }
  }

  /** A dead link is on the path to the page. */
  ghost predicate Blocked(s: Sys, vpn: nat) {
    NodeAt(vpn, 1) in s.dead || NodeAt(vpn, 2) in s.dead || NodeAt(vpn, 3) in s.dead
  }

  /** A map of the page finds all tables, or pages for them. */
  ghost predicate CanMap(s: Sys, vpn: nat) {
    !Blocked(s, vpn) && Missing(s.nodes, vpn) <= |FreePages(s.m.mm)|
  }

  /** The walk has come to depth d, and there are pages for the tables still missing. */
  ghost predicate Ready(s: Sys, vpn: nat, d: nat) {
    && Consistent(s) && vpn < VPNS && NodeAt(vpn, d) in s.nodes
    && !Blocked(s, vpn) && MissingBelow(s.nodes, vpn, d) <= |FreePages(s.m.mm)|
  }

  /** One call of `get_next_level` on the way down. */
  ghost predicate Steps(s: Sys, t: Sys, vpn: nat, d: nat) {
    && NodeAt(vpn, d) in s.nodes && NodeAt(vpn, d + 1) in t.nodes && t.nodes[NodeAt(vpn, d + 1)] != 0
    && NextLevel(s.m, s.nodes[NodeAt(vpn, d)] * 4096, Slot(vpn, d), true) == (t.m, t.nodes[NodeAt(vpn, d + 1)] * 4096)
  }

  /** There is a table at the next depth, or a page for one. */
  ghost predicate HasNext(s: Sys, vpn: nat, d: nat) {
    var c := NodeAt(vpn, d + 1);
    c in s.nodes || (c !in s.dead && FreePages(s.m.mm) != {})
  }

  lemma LevelRoom(s: Sys, vpn: nat, d: nat)
    requires Ready(s, vpn, d) && d < 3
    ensures HasNext(s, vpn, d)
  {
    hide FreePages, NodeAt, Consistent;
  }

  lemma ExtendStep(s: Sys, vpn: nat, d: nat)
    requires Ready(s, vpn, d) && d < 3
    ensures var t := Extend(s, vpn, d);
            Ready(t, vpn, d + 1) && Steps(s, t, vpn, d) && Extends(s, t, NodeAt(vpn, d + 1))
  {
    hide Consistent, NextLevel, NodeAt, Slot, FreePages, Extend, Frame, RecordsFollow, Leaf, HasNext;
    LevelRoom(s, vpn, d);
    ExtendIs(s, vpn, d);
    MissingAfter(s.nodes, Extend(s, vpn, d).nodes, vpn, d + 1, d + 1);
  }

  ghost function ExtendAll(s: Sys, vpn: nat): Sys {
    Extend(Extend(Extend(s, vpn, 0), vpn, 1), vpn, 2)
  }

  ghost function AfterMap(s: Sys, phys: u64, virt: u64, flags: u64): Sys {
    var vpn := Vpn(virt);
    var t := ExtendAll(s, vpn);
    var level1 := if NodeAt(vpn, 3) in t.nodes then t.nodes[NodeAt(vpn, 3)] else 0;
    t.(m := t.m.(mem := Store(t.m.mem, level1 * 4096, Slot(vpn, 3), Word(Or(phys, flags)))),
       mapped := s.mapped + {vpn}, flat := s.flat[vpn := Word(Or(phys, flags))])
  }

  /** The three levels of a map, with enough pages for the tables that are missing. */
  lemma ExtendAllIs(s: Sys, vpn: nat)
    requires Ready(s, vpn, 0)
    ensures var s1 := Extend(s, vpn, 0);
            var s2 := Extend(s1, vpn, 1);
            var t := ExtendAll(s, vpn);
            && Steps(s, s1, vpn, 0) && Steps(s1, s2, vpn, 1) && Steps(s2, t, vpn, 2)
            && Extends(s, s1, NodeAt(vpn, 1)) && Extends(s1, s2, NodeAt(vpn, 2)) && Extends(s2, t, NodeAt(vpn, 3))
            && Ready(s1, vpn, 1) && Ready(s2, vpn, 2) && Ready(t, vpn, 3)
  {
    hide Ready, Steps, Extends, Extend, NodeAt;
    ExtendStep(s, vpn, 0);
    ExtendStep(Extend(s, vpn, 0), vpn, 1);
    ExtendStep(Extend(Extend(s, vpn, 0), vpn, 1), vpn, 2);
  }

  lemma ReadyAtRoot(s: Sys, vpn: nat)
    requires Consistent(s) && vpn < VPNS && CanMap(s, vpn)
    ensures Ready(s, vpn, 0) && s.root == s.nodes[NodeAt(vpn, 0)] * 4096
  {
  }

  lemma MapIs(s: Sys, phys: u64, virt: u64, flags: u64)
    requires Consistent(s) && CanMap(s, Vpn(virt))
    ensures MapPage(s.m, s.root, phys, virt, flags) == (AfterMap(s, phys, virt, flags).m, true)
  {
    hide Consistent, NextLevel, Extend, NodeAt, Slot, FreePages, Index, Vpn, Or, Extends, Missing, Store, Ready,
         Steps, MapPage;
    var vpn := Vpn(virt);
    SlotIsIndex(virt, 0); SlotIsIndex(virt, 1); SlotIsIndex(virt, 2); SlotIsIndex(virt, 3);
    ReadyAtRoot(s, vpn);
    ExtendAllIs(s, vpn);
    NextNode(Extend(Extend(s, vpn, 0), vpn, 1), ExtendAll(s, vpn), vpn, 2);
    MapFromSteps(s, Extend(s, vpn, 0), Extend(Extend(s, vpn, 0), vpn, 1), ExtendAll(s, vpn), phys, virt, flags);
  }

  lemma NextNode(s: Sys, t: Sys, vpn: nat, d: nat)
    requires Steps(s, t, vpn, d)
    ensures NodeAt(vpn, d + 1) in t.nodes
  {
  }

  lemma MapFromSteps(s: Sys, s1: Sys, s2: Sys, t: Sys, phys: u64, virt: u64, flags: u64)
    requires forall d :: 0 <= d <= 3 ==> Index(virt, Shift(d)) == Slot(Vpn(virt), d)
    requires Steps(s, s1, Vpn(virt), 0) && Steps(s1, s2, Vpn(virt), 1) && Steps(s2, t, Vpn(virt), 2)
    requires s.root == s.nodes[NodeAt(Vpn(virt), 0)] * 4096
    ensures MapPage(s.m, s.root, phys, virt, flags) ==
            (t.m.(mem := Store(t.m.mem, t.nodes[NodeAt(Vpn(virt), 3)] * 4096, Slot(Vpn(virt), 3),
                               Word(Or(phys, flags)))), true)
  {
    hide NextLevel, NodeAt, Slot, Index, Vpn, Or, Store;
    assert Index(virt, 39) == Slot(Vpn(virt), 0) by { assert Shift(0) == 39; }
    assert Index(virt, 30) == Slot(Vpn(virt), 1) by { assert Shift(1) == 30; }
    assert Index(virt, 21) == Slot(Vpn(virt), 2) by { assert Shift(2) == 21; }
    assert Index(virt, 12) == Slot(Vpn(virt), 3) by { assert Shift(3) == 12; }
  }

  lemma PathsWith(mapped: set<nat>, vpn: nat, n: Node)
    ensures OnSomePath(mapped + {vpn}, n) <==>
            OnSomePath(mapped, n) || n == NodeAt(vpn, 1) || n == NodeAt(vpn, 2) || n == NodeAt(vpn, 3)
  {
    if OnSomePath(mapped, n) {
      var v :| v in mapped && n == NodeAt(v, n.depth);
      assert v in mapped + {vpn};
    }
    if n == NodeAt(vpn, 1) || n == NodeAt(vpn, 2) || n == NodeAt(vpn, 3) {
      assert vpn in mapped + {vpn} && n == NodeAt(vpn, n.depth);
    }
  }

  lemma MapKeepsInv(s: Sys, phys: u64, virt: u64, flags: u64)
    requires SysInv(s) && s.path.Idle? && CanMap(s, Vpn(virt))
    ensures SysInv(AfterMap(s, phys, virt, flags)) && AfterMap(s, phys, virt, flags).path.Idle?
    ensures AfterMap(s, phys, virt, flags).dead == s.dead && AfterMap(s, phys, virt, flags).stubs == s.stubs
    ensures AfterMap(s, phys, virt, flags).nodes.Keys ==
            s.nodes.Keys + {NodeAt(Vpn(virt), 1), NodeAt(Vpn(virt), 2), NodeAt(Vpn(virt), 3)}
    ensures |FreePages(AfterMap(s, phys, virt, flags).m.mm)| == |FreePages(s.m.mm)| - Missing(s.nodes, Vpn(virt))
    ensures Frame(s, AfterMap(s, phys, virt, flags))
    ensures var t := AfterMap(s, phys, virt, flags);
            && |t.m.mm.recs| <= |s.m.mm.recs| + 3
            && (AllRecorded(s.m.mm, s.live) && |s.m.mm.recs| + 3 < U16 ==> AllRecorded(t.m.mm, t.live))
  {
    hide Consistent, Extend, ExtendAll, NodeAt, Slot, FreePages, Index, Vpn, Or, Extends, Missing, Store, Ready,
         Steps, Accounted, Translates, Leaf, Frame, AllRecorded;
    var vpn := Vpn(virt);
    ReadyAtRoot(s, vpn);
    ExtendAllIs(s, vpn);
    var t := ExtendAll(s, vpn);
    ExtendsThree(s, Extend(s, vpn, 0), Extend(Extend(s, vpn, 0), vpn, 1), t, vpn);
    AccountedWith(s, t, vpn);
    WriteKeepsInv(s, t, vpn, Word(Or(phys, flags)));
    WriteFrame(t, vpn, Word(Or(phys, flags)), AfterMap(s, phys, virt, flags));
    FrameThrough(s, t, AfterMap(s, phys, virt, flags));
  }

  lemma WriteFrame(t: Sys, vpn: nat, value: u64, u: Sys)
    requires vpn < VPNS && NodeAt(vpn, 3) in t.nodes
    requires u == t.(m := t.m.(mem := Store(t.m.mem, t.nodes[NodeAt(vpn, 3)] * 4096, Slot(vpn, 3), value)),
                     mapped := u.mapped, flat := u.flat, path := u.path)
    ensures Frame(t, u)
  {
    hide NodeAt;
    assert Slot(vpn, 3) < 512;
    forall k | 0 <= k < |t.m.mem| ensures u.m.mem[k] == t.m.mem[k] || InTable(u, k) || k < WORDS_PER_PAGE {
    }
  }

  lemma ExtendsThree(s: Sys, s1: Sys, s2: Sys, t: Sys, vpn: nat)
    requires Extends(s, s1, NodeAt(vpn, 1)) && Extends(s1, s2, NodeAt(vpn, 2)) && Extends(s2, t, NodeAt(vpn, 3))
    ensures Consistent(t) && t.root == s.root && t.mapped == s.mapped && t.flat == s.flat && t.path == s.path
    ensures t.dead == s.dead && t.stubs == s.stubs
    ensures t.nodes.Keys == s.nodes.Keys + {NodeAt(vpn, 1), NodeAt(vpn, 2), NodeAt(vpn, 3)}
    ensures forall w :: 0 <= w < VPNS ==> Leaf(t.m.mem, t.nodes, w) == Leaf(s.m.mem, s.nodes, w)
    ensures |FreePages(t.m.mm)| == |FreePages(s.m.mm)| - Missing(s.nodes, vpn)
    ensures Frame(s, t)
    ensures |t.m.mm.recs| <= |s.m.mm.recs| + 3
    ensures AllRecorded(s.m.mm, s.live) && |s.m.mm.recs| + 3 < U16 ==> AllRecorded(t.m.mm, t.live)
  {
    hide Consistent, Leaf, NodeAt, FreePages, Missing, Frame, AllRecorded;
    PathNodes(s.nodes, vpn);
    FrameThrough(s, s1, s2);
    FrameThrough(s, s2, t);
  }

  lemma PathNodes(nodes: map<Node, nat>, vpn: nat)
    ensures NodeAt(vpn, 1) != NodeAt(vpn, 2) && NodeAt(vpn, 1) != NodeAt(vpn, 3) && NodeAt(vpn, 2) != NodeAt(vpn, 3)
    ensures Missing(nodes, vpn) == (if NodeAt(vpn, 1) in nodes then 0 else 1)
              + (if NodeAt(vpn, 2) in nodes then 0 else 1) + (if NodeAt(vpn, 3) in nodes then 0 else 1)
  {
  }

  /** The tables of t are those for the page numbers mapped, the ones on the path to one more, and the stubs. */
  ghost predicate HasPath(t: Sys, vpn: nat) {
    && (forall n :: n in t.stubs ==> 1 <= n.depth <= 2)
    && forall n :: n in t.nodes <==>
         || n == ROOT || OnSomePath(t.mapped, n) || n in t.stubs
         || n == NodeAt(vpn, 1) || n == NodeAt(vpn, 2) || n == NodeAt(vpn, 3)
  }

  lemma AccountedWith(s: Sys, t: Sys, vpn: nat)
    requires Accounted(s) && s.path.Idle? && t.mapped == s.mapped && t.stubs == s.stubs
    requires t.nodes.Keys == s.nodes.Keys + {NodeAt(vpn, 1), NodeAt(vpn, 2), NodeAt(vpn, 3)}
    ensures HasPath(t, vpn)
  {
    hide NodeAt, OnSomePath;
    forall n ensures n in t.nodes <==>
      || n == ROOT || OnSomePath(t.mapped, n) || n in t.stubs
      || n == NodeAt(vpn, 1) || n == NodeAt(vpn, 2) || n == NodeAt(vpn, 3)
    {
      assert n in t.nodes <==> n in t.nodes.Keys;
      assert n in s.nodes <==> IsTable(s, n);
    }
  }

  /** Writing the level-1 entry once all tables are there. */
  lemma WriteKeepsInv(s: Sys, t: Sys, vpn: nat, value: u64)
    requires Accounted(s) && Translates(s) && vpn < VPNS
    requires Consistent(t) && t.root == s.root && t.mapped == s.mapped && t.flat == s.flat && HasPath(t, vpn)
    requires forall w :: 0 <= w < VPNS ==> Leaf(t.m.mem, t.nodes, w) == Leaf(s.m.mem, s.nodes, w)
    ensures NodeAt(vpn, 3) in t.nodes
    ensures SysInv(t.(m := t.m.(mem := Store(t.m.mem, t.nodes[NodeAt(vpn, 3)] * 4096, Slot(vpn, 3), value)),
                      mapped := s.mapped + {vpn}, flat := s.flat[vpn := value], path := Idle))
  {
    hide MmInv, LiveInv, Leaf, Slot, TreeInv, NodeAt, OnSomePath, Store;
    WriteLeaf(t.m.mem, t.root, t.nodes, t.dead, vpn, value);
    var u := t.(m := t.m.(mem := Store(t.m.mem, t.nodes[NodeAt(vpn, 3)] * 4096, Slot(vpn, 3), value)),
                mapped := s.mapped + {vpn}, flat := s.flat[vpn := value], path := Idle);
    forall n ensures n in u.nodes <==> IsTable(u, n) {
      PathsWith(s.mapped, vpn, n);
    }
  }

  // ---------------------------------------------------------------- a map one lock section at a time

  /** A map of the page has come to depth d: it holds the pagemap lock, or is about to take it. */
  ghost predicate AtDepth(s: Sys, vpn: nat, d: nat) {
    if d == 0 then s.path.Idle? else s.path == Mapping(vpn, d)
  }

  /** One `get_next_level` of a map. */
  ghost function AfterLevel(s: Sys, virt: u64, d: nat): Sys {
    Extend(s, Vpn(virt), d).(path := Mapping(Vpn(virt), d + 1))
  }

  /** The last assignment of a map, and the release of its lock. */
  ghost function AfterEntry(s: Sys, phys: u64, virt: u64, flags: u64): Sys {
    var vpn := Vpn(virt);
    var level1 := if NodeAt(vpn, 3) in s.nodes then s.nodes[NodeAt(vpn, 3)] else 0;
    s.(m := s.m.(mem := Store(s.m.mem, level1 * 4096, Slot(vpn, 3), Word(Or(phys, flags)))),
       mapped := s.mapped + {vpn}, flat := s.flat[vpn := Word(Or(phys, flags))], path := Idle)
  }

  lemma PathDoesNotMatter(s: Sys, path: Path, vpn: nat, d: nat)
    ensures Extend(s.(path := path), vpn, d) == Extend(s, vpn, d).(path := path)
    ensures HasNext(s.(path := path), vpn, d) == HasNext(s, vpn, d)
  {
    hide NextLevel, NodeAt, Slot;
  }

  lemma OpenPathGrows(vpn: nat, d: nat, n: Node)
    requires d < 3
    ensures OnOpenPath(Mapping(vpn, d + 1), n) <==> (d > 0 && OnOpenPath(Mapping(vpn, d), n)) || n == NodeAt(vpn, d + 1)
  {
  }

  lemma DepthHasNode(s: Sys, vpn: nat, d: nat)
    requires Consistent(s) && Accounted(s) && AtDepth(s, vpn, d)
    ensures d <= 3 && NodeAt(vpn, d) in s.nodes
  {
    hide Wired;
  }

  lemma LevelKeepsInv(s: Sys, virt: u64, d: nat)
    requires SysInv(s) && AtDepth(s, Vpn(virt), d) && d < 3 && HasNext(s, Vpn(virt), d)
    ensures var t := AfterLevel(s, virt, d);
            && SysInv(t) && Frame(s, t) && RecordsFollow(s.m.mm, s.live, t.m.mm, t.live) && t.flat == s.flat
            && t.dead == s.dead && t.stubs == s.stubs && t.root == s.root && t.mapped == s.mapped
            && NodeAt(Vpn(virt), d) in s.nodes
            && NodeAt(Vpn(virt), d + 1) in t.nodes && t.nodes[NodeAt(Vpn(virt), d + 1)] != 0
            && NextLevel(s.m, s.nodes[NodeAt(Vpn(virt), d)] * 4096, Index(virt, Shift(d)), true) ==
               (t.m, t.nodes[NodeAt(Vpn(virt), d + 1)] * 4096)
  {
    hide Wired, TreeInv, NodeAt, Slot, Index, Vpn, Extend, FreePages, NextLevel, Leaf, RecordsFollow, OnSomePath,
         OnOpenPath;
    var vpn := Vpn(virt);
    DepthHasNode(s, vpn, d);
    ExtendIs(s, vpn, d);
    SlotIsIndex(virt, d);
    var e, t := Extend(s, vpn, d), AfterLevel(s, virt, d);
    forall n ensures n in t.nodes <==> IsTable(t, n) {
      OpenPathGrows(vpn, d, n);
      NothingOpen(n);
      assert n in t.nodes <==> n in e.nodes.Keys;
      assert n in s.nodes <==> IsTable(s, n);
    }
    PathAside(s, e, t);
    ConsistentAside(e, t);
  }

  lemma NothingOpen(n: Node)
    ensures !OnOpenPath(Idle, n)
  {
  }

  lemma PathAside(s: Sys, e: Sys, t: Sys)
    requires Frame(s, e) && t == e.(path := t.path)
    ensures Frame(s, t)
  {
    forall k | 0 <= k < |s.m.mem| ensures t.m.mem[k] == s.m.mem[k] || InTable(t, k) || k < WORDS_PER_PAGE {
      if InTable(e, k) {
        var n :| n in e.nodes && e.nodes[n] * WORDS_PER_PAGE <= k < (e.nodes[n] + 1) * WORDS_PER_PAGE;
        assert n in t.nodes && t.nodes[n] == e.nodes[n];
      }
    }
  }

  lemma ConsistentAside(e: Sys, t: Sys)
    requires Consistent(e) && t == e.(path := t.path)
    ensures Consistent(t)
  {
  }

  lemma EntryKeepsInv(s: Sys, phys: u64, virt: u64, flags: u64)
    requires SysInv(s) && AtDepth(s, Vpn(virt), 3)
    ensures var t := AfterEntry(s, phys, virt, flags); SysInv(t) && Frame(s, t) && NodeAt(Vpn(virt), 3) in s.nodes
    ensures AfterEntry(s, phys, virt, flags).dead == s.dead && AfterEntry(s, phys, virt, flags).stubs == s.stubs
    ensures AfterEntry(s, phys, virt, flags).m ==
            s.m.(mem := Store(s.m.mem, s.nodes[NodeAt(Vpn(virt), 3)] * 4096, Index(virt, 12), Word(Or(phys, flags))))
  {
    hide Consistent, NodeAt, Slot, Index, Vpn, Or, Store, Leaf, OnSomePath, OnOpenPath;
    var vpn := Vpn(virt);
    SlotIsIndex(virt, 3);
    assert Shift(3) == 12;
    forall n ensures n in s.nodes <==>
      || n == ROOT || OnSomePath(s.mapped, n) || n in s.stubs
      || n == NodeAt(vpn, 1) || n == NodeAt(vpn, 2) || n == NodeAt(vpn, 3)
    {
      assert n in s.nodes <==> IsTable(s, n);
      OpenPathGrows(vpn, 0, n);
      OpenPathGrows(vpn, 1, n);
      OpenPathGrows(vpn, 2, n);
    }
    WriteKeepsInv(s, s, vpn, Word(Or(phys, flags)));
    WriteFrame(s, vpn, Word(Or(phys, flags)), AfterEntry(s, phys, virt, flags));
  }
}
