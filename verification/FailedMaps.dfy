/** What a map that fails leaves behind: the same translations, the same buffers, and a dead link for good. */
module FailedMaps {
  import opened Bits
  import opened Common
  import opened MmSpec
  import opened MmLaws
  import opened ReallocLaws
  import opened VmmSpec
  import opened TreeLaws
  import opened MemorySystem
  import opened UnmapLaws
  import opened DeadLinks
  import opened SystemRuns
  import opened RunLaws

  /** The memory system t that a failed map of s leaves has a dead link d + 1 levels below the top. */
  ghost predicate FailsInto(s: Sys, t: Sys, vpn: nat, d: nat) {
    && d < 3 && Consistent(t) && t.root == s.root && Frame(s, t) && SameLeaves(s, t) && NodeAt(vpn, d + 1) in t.dead
  }

  lemma FailsSomewhere(s: Sys, phys: u64, virt: u64, flags: u64) returns (t: Sys, d: nat)
    requires Consistent(s) && !CanMap(s, Vpn(virt))
    ensures MapPage(s.m, s.root, phys, virt, flags) == (t.m, false) && FailsInto(s, t, Vpn(virt), d)
  {
    hide Consistent, NextLevel, Extend, MapPage, HasNext, Vpn, FailLevel, Frame, CanMap, Leaf, Blocked, FreePages,
         RecordsFollow, NodeAt, Slot;
    var vpn := Vpn(virt);
    MapByLevels(s, phys, virt, flags);
    ConsistentPath(s, vpn);
    FrameOfSelf(s);
    FailHere(s, s, vpn, 0);
    if !HasNext(s, vpn, 0) { return FailLevel(s, vpn, 0), 0; }
    var s1 := Extend(s, vpn, 0);
    ExtendIs(s, vpn, 0);
    FailHere(s, s1, vpn, 1);
    if !HasNext(s1, vpn, 1) { return FailLevel(s1, vpn, 1), 1; }
    var s2 := Extend(s1, vpn, 1);
    ExtendIs(s1, vpn, 1);
    FrameThrough(s, s1, s2);
    FailHere(s, s2, vpn, 2);
    t, d := FailLevel(s2, vpn, 2), 2;
  }

  lemma FailHere(s: Sys, e: Sys, vpn: nat, d: nat)
    requires Consistent(e) && e.root == s.root && Frame(s, e) && SameLeaves(s, e) && vpn < VPNS && d < 3
    requires NodeAt(vpn, d) in e.nodes
    ensures !HasNext(e, vpn, d) ==> FailsInto(s, FailLevel(e, vpn, d), vpn, d)
  {
    hide Consistent, NextLevel, HasNext, Frame, Leaf, NodeAt, Slot, Killed;
    if !HasNext(e, vpn, d) {
      FailLevelIs(e, vpn, d);
      FrameThrough(s, e, FailLevel(e, vpn, d));
    }
  }

  // ---------------------------------------------------------------- what stays as it was

  /** A map that fails changes the translation of no address. */
  lemma FailedMapTranslatesSame(s: Sys, phys: u64, virt: u64, flags: u64, other: u64)
    requires Consistent(s) && !CanMap(s, Vpn(virt))
    ensures Effective(MapPage(s.m, s.root, phys, virt, flags).0.mem, s.root, other) == Effective(s.m.mem, s.root, other)
  {
    hide MmInv, LiveInv, TreeInv, CanMap, MapPage, Vpn, Leaf, Frame, NodeAt, Effective;
    var t, d := FailsSomewhere(s, phys, virt, flags);
    WalkIs(s.m.mem, s.root, s.nodes, s.dead, other);
    WalkIs(t.m.mem, t.root, t.nodes, t.dead, other);
  }

  /** Nor does it change a word of the allocator's tables or of a caller's buffer. */
  lemma FailedMapKeepsWords(s: Sys, phys: u64, virt: u64, flags: u64, k: nat, a: nat)
    requires Consistent(s) && !CanMap(s, Vpn(virt)) && k < |s.m.mem|
    requires InAllocator(s.m.mm, k) || InClient(s, a, k)
    ensures var m := MapPage(s.m, s.root, phys, virt, flags).0; k < |m.mem| && m.mem[k] == s.m.mem[k]
  {
    hide Consistent, CanMap, MapPage, Vpn, Leaf, Frame, NodeAt, InAllocator, InClient;
    var t, d := FailsSomewhere(s, phys, virt, flags);
    FrameParts(s, t);
    FrameKeepsWord(s, t, k, a);
  }

  // ---------------------------------------------------------------- the dead link is final

  /** The word of memory that holds the entry at depth e of the path to a page number. */
  ghost function PathWord(t: Sys, vpn: nat, e: nat): nat {
    if NodeAt(vpn, e) in t.nodes then t.nodes[NodeAt(vpn, e)] * WORDS_PER_PAGE + Slot(vpn, e) else 0
  }

  lemma SameSlot(v: nat, w: nat, d: nat, e: nat)
    requires v < VPNS && w < VPNS && e <= d < 3 && NodeAt(v, d + 1) == NodeAt(w, d + 1)
    ensures Slot(v, e) == Slot(w, e)
  {
    DivByProduct(v, 0x200, 0x200);
    DivByProduct(w, 0x200, 0x200);
    DivByProduct(v, 0x4_0000, 0x200);
    DivByProduct(w, 0x4_0000, 0x200);
  }

  /** All tables above a dead link are there. */
  lemma PathAbove(t: Sys, vpn: nat, d: nat, e: nat)
    requires Consistent(t) && vpn < VPNS && d < 3 && NodeAt(vpn, d + 1) in t.dead && e <= d
    ensures NodeAt(vpn, e) in t.nodes && NodeAt(vpn, d + 1) !in t.nodes
    ensures t.root == t.nodes[NodeAt(vpn, 0)] * 4096
    ensures PathWord(t, vpn, e) < |t.m.mem|
    ensures Entry(t.m.mem, t.nodes[NodeAt(vpn, e)], Slot(vpn, e)) == t.m.mem[PathWord(t, vpn, e)]
  {
    hide MmInv, LiveInv, LinksOk, NodeAt, Slot, DeadOk, Entry;
    ConsistentPath(t, vpn);
    ChildOnPath(vpn, e);
    assert NodeOk(t.m.mem, t.nodes, t.dead, NodeAt(vpn, e));
    EntryIsWord(t.m.mem, t.nodes[NodeAt(vpn, e)], Slot(vpn, e));
  }

  lemma EntryIsWord(mem: seq<u64>, page: nat, i: nat)
    requires (page + 1) * WORDS_PER_PAGE <= |mem| && i < 512
    ensures page * WORDS_PER_PAGE + i < |mem| && Entry(mem, page, i) == mem[page * WORDS_PER_PAGE + i]
  {
    assert page * 4096 / 8 == page * WORDS_PER_PAGE;
  }

  ghost predicate SameWords(m: Machine, m2: Machine, words: seq<nat>) {
    forall i :: 0 <= i < |words| ==> words[i] < |m.mem| && words[i] < |m2.mem| && m2.mem[words[i]] == m.mem[words[i]]
  }

  ghost function PathWords(t: Sys, vpn: nat, d: nat): seq<nat> {
    seq(d + 1, e requires 0 <= e < d + 1 => PathWord(t, vpn, e))
  }

  /** One lookup on the way to a dead link, in a machine that still has the links of the path. */
  lemma LookupAgain(t: Sys, m2: Machine, vpn: nat, d: nat, e: nat)
    requires Consistent(t) && vpn < VPNS && d < 3 && NodeAt(vpn, d + 1) in t.dead && e <= d
    requires SameWords(t.m, m2, PathWords(t, vpn, d))
    ensures NodeAt(vpn, e) in t.nodes && (e < d ==> NodeAt(vpn, e + 1) in t.nodes && t.nodes[NodeAt(vpn, e + 1)] != 0)
    ensures NextLevel(m2, t.nodes[NodeAt(vpn, e)] * 4096, Slot(vpn, e), true) ==
            (m2, if e < d then t.nodes[NodeAt(vpn, e + 1)] * 4096 else 0)
  {
    hide MmInv, LiveInv, TreeInv, NextLevel, NodeAt, Slot, And, PathWord;
    PathAbove(t, vpn, d, e);
    if e < d { PathAbove(t, vpn, d, e + 1); }
    FollowIs(t.m.mem, t.root, t.nodes, t.dead, vpn, e);
    assert PathWords(t, vpn, d)[e] == PathWord(t, vpn, e);
    SameEntryAt(t, m2, vpn, e);
    NextLevelPresent(m2, t.nodes[NodeAt(vpn, e)], Slot(vpn, e));
  }

  lemma SameEntryAt(t: Sys, m2: Machine, vpn: nat, e: nat)
    requires NodeAt(vpn, e) in t.nodes
    requires var k := PathWord(t, vpn, e); k < |t.m.mem| && k < |m2.mem| && m2.mem[k] == t.m.mem[k]
    ensures Entry(m2.mem, t.nodes[NodeAt(vpn, e)], Slot(vpn, e)) ==
            Entry(t.m.mem, t.nodes[NodeAt(vpn, e)], Slot(vpn, e))
  {
    hide NodeAt, Slot;
    assert PathWord(t, vpn, e) == t.nodes[NodeAt(vpn, e)] * 4096 / 8 + Slot(vpn, e);
  }

  lemma FailsAgain(t: Sys, m2: Machine, vpn: nat, d: nat, phys: u64, virt: u64, flags: u64)
    requires Consistent(t) && vpn < VPNS && d < 3 && NodeAt(vpn, d + 1) in t.dead
    requires SameWords(t.m, m2, PathWords(t, vpn, d))
    requires forall e :: 0 <= e <= d ==> Slot(Vpn(virt), e) == Slot(vpn, e)
    ensures MapPage(m2, t.root, phys, virt, flags) == (m2, false)
  {
    hide Consistent, NextLevel, NodeAt, Slot, Vpn, Index, Store, SameWords, PathWord;
    SlotIsIndex(virt, 0); SlotIsIndex(virt, 1); SlotIsIndex(virt, 2);
    assert Shift(0) == 39 && Shift(1) == 30 && Shift(2) == 21;
    PathAbove(t, vpn, d, 0);
    LookupAgain(t, m2, vpn, d, 0);
    if d >= 1 { LookupAgain(t, m2, vpn, d, 1); }
    if d >= 2 { LookupAgain(t, m2, vpn, d, 2); }
  }

  /** One failed map is final for its region.  It leaves a link to address 0, at most three links below the top;
      in every later state of the machine that still has these words, whatever was freed, mapped or stored in
      between, every map through the link fails and does nothing. */
  lemma FailedMapIsFinal(s: Sys, phys: u64, virt: u64, flags: u64) returns (d: nat, words: seq<nat>)
    requires Consistent(s) && !CanMap(s, Vpn(virt))
    ensures d < 3 && |words| == d + 1
    ensures var m := MapPage(s.m, s.root, phys, virt, flags).0;
            && (forall e :: 0 <= e <= d ==> words[e] < |m.mem|) && m.mem[words[d]] == 7
            && forall m2: Machine, phys2, virt2, flags2 ::
                 NodeAt(Vpn(virt2), d + 1) == NodeAt(Vpn(virt), d + 1) && SameWords(m, m2, words) ==>
                   MapPage(m2, s.root, phys2, virt2, flags2) == (m2, false)
  {
    hide Consistent, NextLevel, NodeAt, Slot, Vpn, MapPage, CanMap, PathWord, SameWords, Frame, Leaf;
    var t: Sys;
    t, d := FailsSomewhere(s, phys, virt, flags);
    var vpn := Vpn(virt);
    words := PathWords(t, vpn, d);
    forall e | 0 <= e <= d ensures words[e] < |t.m.mem| { PathAbove(t, vpn, d, e); }
    DeadWord(t, vpn, d);
    forall m2: Machine, phys2, virt2, flags2 |
      NodeAt(Vpn(virt2), d + 1) == NodeAt(vpn, d + 1) && SameWords(t.m, m2, words)
      ensures MapPage(m2, s.root, phys2, virt2, flags2) == (m2, false)
    {
      forall e | 0 <= e <= d ensures Slot(Vpn(virt2), e) == Slot(vpn, e) { SameSlot(vpn, Vpn(virt2), d, e); }
      FailsAgain(t, m2, vpn, d, phys2, virt2, flags2);
    }
  }

  lemma DeadWord(t: Sys, vpn: nat, d: nat)
    requires Consistent(t) && vpn < VPNS && d < 3 && NodeAt(vpn, d + 1) in t.dead
    ensures PathWord(t, vpn, d) < |t.m.mem| && t.m.mem[PathWord(t, vpn, d)] == 7
  {
    hide MmInv, LiveInv, TreeInv, NodeAt, Slot, PathWord, And;
    PathAbove(t, vpn, d, d);
    FollowIs(t.m.mem, t.root, t.nodes, t.dead, vpn, d);
  }

  // ---------------------------------------------------------------- in runs

  /** No step repairs a dead link, and only maps that fail make one. */
  lemma StepKeepsDead(s: Sys, op: Op)
    requires SysInv(s) && Enabled(s, op)
    ensures MmInv(s.m.mm) && |s.m.mem| == s.m.mm.limit * WORDS_PER_PAGE
    ensures s.dead <= Step(s, op).dead
    ensures !op.FailedMap? && !op.FailedLevel? ==> Step(s, op).dead == s.dead
  {
    hide Consistent, Accounted, Translates, MmInv, LiveInv, AfterMap, Malloc, Missing, FreePages, PagesFor, FirstFit,
         Frame, Recorded, Wraps, Free, AllRecorded, AfterLevel, AtDepth, CanMap, HasNext, AfterFailedMap, GiveUp,
         NextLevel, Slot, MmSpec.Krealloc;
    SysParts(s);
    match op
    case Map(phys, virt, flags) => MapKeepsInv(s, phys, virt, flags);
    case FailedMap(phys, virt, flags) => FailedMapIs(s, phys, virt, flags);
    case MapLevel(virt, d) => LevelKeepsInv(s, virt, d);
    case FailedLevel(virt, d) => GiveUpKeepsInv(s, Vpn(virt), d);
    case _ =>
  }

  lemma {:induction false} RunKeepsDead(s: Sys, ops: seq<Op>)
    requires SysInv(s) && CanRun(s, ops)
    ensures s.dead <= Run(s, ops).dead
    ensures (forall i :: 0 <= i < |ops| ==> !ops[i].FailedMap? && !ops[i].FailedLevel?) ==> Run(s, ops).dead == s.dead
    decreases |ops|
  {
    hide SysInv, Enabled, Step;
    if ops != [] {
      SysParts(s);
      StepKeepsInv(s, ops[0]);
      StepKeepsDead(s, ops[0]);
      RunKeepsDead(Step(s, ops[0]), ops[1..]);
    }
  }

  /** A map fails and does nothing, and the page has no translation. */
  ghost predicate FailsAt(u: Sys, phys: u64, virt: u64, flags: u64) {
    MapPage(u.m, u.root, phys, virt, flags) == (u.m, false) && Effective(u.m.mem, u.root, virt) == 0
  }

  /** So does every map of a page below c. */
  ghost predicate Unmappable(u: Sys, c: Node) {
    forall phys, virt, flags :: NodeAt(Vpn(virt), c.depth) == c ==> FailsAt(u, phys, virt, flags)
  }

  /** After any run that starts with a dead link nothing can be mapped below it, however many pages the run has
      freed. */
  lemma DeadLinkIsForGood(s: Sys, c: Node, ops: seq<Op>)
    requires SysInv(s) && c in s.dead && CanRun(s, ops)
    ensures Run(s, ops).root == s.root && Unmappable(Run(s, ops), c)
  {
    hide Wired, Accounted, Translates, CanRun, Run, MapPage, Vpn, Effective, NodeAt, TreeInv;
    DeadDepth(s, c);
    RunIs(s, ops, s.flat);
    RunKeepsDead(s, ops);
    var u := Run(s, ops);
    forall phys, virt, flags | NodeAt(Vpn(virt), c.depth) == c ensures FailsAt(u, phys, virt, flags) {
      DeadBlocks(u, Vpn(virt), c.depth - 1);
      BlockedMapDoesNothing(u, phys, virt, flags);
      BlockedReadsNothing(u, virt);
    }
  }

  lemma DeadDepth(s: Sys, c: Node)
    requires Consistent(s) && c in s.dead
    ensures 1 <= c.depth <= 3
  {
    hide Wired, NodeOk;
  }

  /** A map that fails leaves such a link on its path. */
  lemma FailedMapFailsInEveryRun(s: Sys, phys: u64, virt: u64, flags: u64, ops: seq<Op>) returns (d: nat)
    requires SysInv(s) && Enabled(s, FailedMap(phys, virt, flags))
    requires MmInv(s.m.mm) && |s.m.mem| == s.m.mm.limit * WORDS_PER_PAGE
    requires var t := Step(s, FailedMap(phys, virt, flags)); SysInv(t) && CanRun(t, ops)
    ensures d < 3
    ensures var u := Run(Step(s, FailedMap(phys, virt, flags)), ops);
            u.root == s.root && Unmappable(u, NodeAt(Vpn(virt), d + 1))
  {
    hide SysInv, CanRun, Run, CanMap, Vpn, Frame, AllRecorded, AfterFailedMap, Unmappable, NodeAt;
    FailedMapIs(s, phys, virt, flags);
    var t := Step(s, FailedMap(phys, virt, flags));
    d := BlockedAt(t, Vpn(virt));
    DeadLinkIsForGood(t, NodeAt(Vpn(virt), d + 1), ops);
  }

  lemma BlockedAt(t: Sys, vpn: nat) returns (d: nat)
    requires Blocked(t, vpn)
    ensures d < 3 && NodeAt(vpn, d + 1) in t.dead
  {
    hide NodeAt;
    d := if NodeAt(vpn, 1) in t.dead then 0 else if NodeAt(vpn, 2) in t.dead then 1 else 2;
  }

  lemma BlockedReadsNothing(s: Sys, virt: u64)
    requires Consistent(s) && Blocked(s, Vpn(virt))
    ensures Effective(s.m.mem, s.root, virt) == 0
  {
    hide MmInv, LiveInv, TreeInv, NodeAt, Vpn, Effective, Leaf;
    ConsistentPath(s, Vpn(virt));
    WalkIs(s.m.mem, s.root, s.nodes, s.dead, virt);
    UnservedLeaf(s.m.mem, s.nodes, Vpn(virt));
  }
}
