/** Maps that find no page for a table: the link to address 0 they leave, and what they do not touch. */
module DeadLinks {
  import opened Bits
  import opened Common
  import opened MmSpec
  import opened MmLaws
  import opened ReallocLaws
  import opened VmmSpec
  import opened TreeLaws
  import opened MemorySystem
  import opened UnmapLaws

  // ---------------------------------------------------------------- one level

  /** `get_next_level` at depth d when there is no table and no page for one: a dead link is left, if it was not
      there before. */
  ghost function FailLevel(s: Sys, vpn: nat, d: nat): Sys {
    var c := NodeAt(vpn, d + 1);
    if c in s.dead || NodeAt(vpn, d) !in s.nodes then s
    else s.(m := s.m.(mem := Killed(s.m.mem, s.nodes[NodeAt(vpn, d)], Slot(vpn, d))), dead := s.dead + {c})
  }

  lemma NextLevelFails(m: Machine, page: nat, i: nat)
    requires And(Entry(m.mem, page, i), 1) == 0
    requires Malloc(m.mm, 4096) == (m.mm, 0)
    ensures NextLevel(m, page * 4096, i, true) == (m.(mem := Killed(m.mem, page, i)), 0)
  {
    hide And, Malloc, ZeroPage, Load, Store;
    assert Or(0, 7) == 7;
  }

  /** `get_next_level` where the entry is present. */
  lemma NextLevelPresent(m: Machine, page: nat, i: nat)
    requires And(Entry(m.mem, page, i), 1) == 1
    ensures NextLevel(m, page * 4096, i, true) == (m, And(Entry(m.mem, page, i), ADDRESS_MASK))
  {
    hide And, Malloc, ZeroPage, Store;
  }

  ghost predicate SameLeaves(s: Sys, t: Sys) {
    forall w :: 0 <= w < VPNS ==> Leaf(t.m.mem, t.nodes, w) == Leaf(s.m.mem, s.nodes, w)
  }

  lemma FailLevelIs(s: Sys, vpn: nat, d: nat)
    requires Consistent(s) && vpn < VPNS && d < 3 && NodeAt(vpn, d) in s.nodes && !HasNext(s, vpn, d)
    ensures var t := FailLevel(s, vpn, d);
            && NextLevel(s.m, s.nodes[NodeAt(vpn, d)] * 4096, Slot(vpn, d), true) == (t.m, 0)
            && Consistent(t) && Frame(s, t) && SameLeaves(s, t) && NodeAt(vpn, d + 1) in t.dead
  {
    hide MmInv, LiveInv, TreeInv, NodeAt, Slot, And, Malloc, FreePages, NextLevel, Load, Store, Leaf, Killed, Frame;
    FollowIs(s.m.mem, s.root, s.nodes, s.dead, vpn, d);
    var n, c := NodeAt(vpn, d), NodeAt(vpn, d + 1);
    if c in s.dead {
      NextLevelPresent(s.m, s.nodes[n], Slot(vpn, d));
      FrameOfSelf(s);
    } else {
      MallocWithoutPages(s.m.mm);
      NextLevelFails(s.m, s.nodes[n], Slot(vpn, d));
      ChildOnPath(vpn, d);
      KillTree(s.m.mem, s.root, s.nodes, s.dead, n, Slot(vpn, d));
      KilledSize(s.m.mem, s.nodes[n], Slot(vpn, d));
      KilledFrame(s, vpn, d);
    }
  }

  lemma FrameOfSelf(s: Sys)
    ensures Frame(s, s)
  {
  }

  lemma KilledFrame(s: Sys, vpn: nat, d: nat)
    requires vpn < VPNS && d < 3 && NodeAt(vpn, d) in s.nodes
    ensures Frame(s, FailLevel(s, vpn, d))
  {
    hide NodeAt, Slot;
    ChildOnPath(vpn, d);
    var n, t := NodeAt(vpn, d), FailLevel(s, vpn, d);
    assert t.nodes[n] == s.nodes[n];
    forall k | 0 <= k < |s.m.mem| ensures t.m.mem[k] == s.m.mem[k] || InTable(t, k) || k < WORDS_PER_PAGE {
    }
  }

  // ---------------------------------------------------------------- the whole map, level by level

  /** One level of a map: it goes on, or it fails. */
  lemma MapFrom(s: Sys, vpn: nat, d: nat)
    requires Consistent(s) && vpn < VPNS && d < 3 && NodeAt(vpn, d) in s.nodes
    ensures HasNext(s, vpn, d) ==>
      var t := Extend(s, vpn, d);
      && Steps(s, t, vpn, d) && Extends(s, t, NodeAt(vpn, d + 1))
      && MissingBelow(t.nodes, vpn, d + 1) - |FreePages(t.m.mm)| == MissingBelow(s.nodes, vpn, d) - |FreePages(s.m.mm)|
    ensures !HasNext(s, vpn, d) ==>
      NextLevel(s.m, s.nodes[NodeAt(vpn, d)] * 4096, Slot(vpn, d), true) == (FailLevel(s, vpn, d).m, 0)
  {
    hide Consistent, NextLevel, NodeAt, Slot, FreePages, Extend, HasNext, Frame, RecordsFollow, Leaf, FailLevel;
    if HasNext(s, vpn, d) {
      ExtendIs(s, vpn, d);
      MissingAfter(s.nodes, Extend(s, vpn, d).nodes, vpn, d + 1, d + 1);
    } else {
      FailLevelIs(s, vpn, d);
    }
  }

  /** What vmm_map_page does when it fails at one of its three lookups. */
  lemma MapByLevels(s: Sys, phys: u64, virt: u64, flags: u64)
    requires Consistent(s)
    ensures var vpn, r := Vpn(virt), MapPage(s.m, s.root, phys, virt, flags);
            var s1 := Extend(s, vpn, 0);
            var s2 := Extend(s1, vpn, 1);
            if !HasNext(s, vpn, 0) then r == (FailLevel(s, vpn, 0).m, false)
            else if !HasNext(s1, vpn, 1) then r == (FailLevel(s1, vpn, 1).m, false)
            else if !HasNext(s2, vpn, 2) then r == (FailLevel(s2, vpn, 2).m, false)
            else r.1 && CanMap(s, vpn)
  {
    hide Consistent, NextLevel, NodeAt, Slot, FreePages, Extend, Vpn, HasNext, Index, Store, ZeroPage, Frame,
         RecordsFollow, Leaf, FailLevel, Blocked;
    var vpn := Vpn(virt);
    SlotIsIndex(virt, 0); SlotIsIndex(virt, 1); SlotIsIndex(virt, 2);
    assert Shift(0) == 39 && Shift(1) == 30 && Shift(2) == 21;
    ConsistentPath(s, vpn);
    MapFrom(s, vpn, 0);
    if HasNext(s, vpn, 0) {
      var s1 := Extend(s, vpn, 0);
      MapFrom(s1, vpn, 1);
      if HasNext(s1, vpn, 1) {
        var s2 := Extend(s1, vpn, 1);
        MapFrom(s2, vpn, 2);
        if HasNext(s2, vpn, 2) {
          assert MissingBelow(Extend(s2, vpn, 2).nodes, vpn, 3) == 0;
          NextNotDead(s, s, vpn, 0);
          NextNotDead(s1, s, vpn, 1);
          NextNotDead(s2, s, vpn, 2);
          NotBlocked(s, vpn);
        }
      }
    }
  }

  lemma NextNotDead(t: Sys, s: Sys, vpn: nat, d: nat)
    requires Consistent(t) && t.dead == s.dead && vpn < VPNS && d < 3 && HasNext(t, vpn, d)
    ensures NodeAt(vpn, d + 1) !in s.dead
  {
    hide NodeAt, FreePages;
    ConsistentPath(t, vpn);
  }

  lemma NotBlocked(s: Sys, vpn: nat)
    requires NodeAt(vpn, 1) !in s.dead && NodeAt(vpn, 2) !in s.dead && NodeAt(vpn, 3) !in s.dead
    ensures !Blocked(s, vpn)
  {
  }

  /** A map succeeds exactly when no dead link is on its path and there are as many free pages as tables missing. */
  lemma MapSucceedsIff(s: Sys, phys: u64, virt: u64, flags: u64)
    requires Consistent(s)
    ensures MapPage(s.m, s.root, phys, virt, flags).1 <==> CanMap(s, Vpn(virt))
  {
    hide Consistent, Extend, Vpn, MapPage, HasNext, FailLevel, CanMap;
    MapByLevels(s, phys, virt, flags);
    if CanMap(s, Vpn(virt)) { MapIs(s, phys, virt, flags); }
  }

  // ---------------------------------------------------------------- giving up

  /** The tables a map has passed when it comes to depth d, other than the top level. */
  function PathTo(vpn: nat, d: nat): set<Node> {
    if d == 0 then {} else if d == 1 then {NodeAt(vpn, 1)} else {NodeAt(vpn, 1), NodeAt(vpn, 2)}
  }

  /** A map that fails at depth d releases the pagemap lock; the tables it made stay. */
  ghost function GiveUp(s: Sys, vpn: nat, d: nat): Sys {
    FailLevel(s, vpn, d).(path := Idle, stubs := s.stubs + PathTo(vpn, d))
  }

  lemma PathToIs(vpn: nat, d: nat, n: Node)
    requires d < 3
    ensures n in PathTo(vpn, d) <==> d > 0 && OnOpenPath(Mapping(vpn, d), n)
  {
  }

  lemma GiveUpKeepsInv(s: Sys, vpn: nat, d: nat)
    requires SysInv(s) && vpn < VPNS && d < 3 && AtDepth(s, vpn, d) && !HasNext(s, vpn, d)
    ensures var t := GiveUp(s, vpn, d);
            && SysInv(t) && Frame(s, t) && t.flat == s.flat && t.mapped == s.mapped && t.root == s.root
            && t.path.Idle? && s.dead <= t.dead && NodeAt(vpn, d + 1) in t.dead
            && t.live == s.live && t.m.mm == s.m.mm
            && NodeAt(vpn, d) in s.nodes
            && NextLevel(s.m, s.nodes[NodeAt(vpn, d)] * 4096, Slot(vpn, d), true) == (t.m, 0)
  {
    hide Wired, TreeInv, NodeAt, Slot, HasNext, NextLevel, Leaf, Killed, OnSomePath, OnOpenPath, PathTo;
    DepthHasNode(s, vpn, d);
    FailLevelIs(s, vpn, d);
    var f, t := FailLevel(s, vpn, d), GiveUp(s, vpn, d);
    forall n ensures n in t.nodes <==> IsTable(t, n) {
      assert n in s.nodes <==> IsTable(s, n);
      PathToIs(vpn, d, n);
      NothingOpen(n);
    }
    forall n | n in t.stubs ensures n in t.nodes && 1 <= n.depth <= 2 {
      PathToIs(vpn, d, n);
      assert n in s.nodes <==> IsTable(s, n);
      OpenDepth(vpn, d, n);
    }
    FrameAside(s, f, t);
    ConsistentBesides(f, t);
  }

  lemma OpenDepth(vpn: nat, d: nat, n: Node)
    requires d < 3
    ensures OnOpenPath(Mapping(vpn, d), n) ==> 1 <= n.depth <= 2
  {
  }

  lemma FrameAside(s: Sys, e: Sys, t: Sys)
    requires Frame(s, e) && t == e.(path := t.path, stubs := t.stubs)
    ensures Frame(s, t)
  {
    forall k | 0 <= k < |s.m.mem| ensures t.m.mem[k] == s.m.mem[k] || InTable(t, k) || k < WORDS_PER_PAGE {
      if InTable(e, k) {
        var n :| n in e.nodes && e.nodes[n] * WORDS_PER_PAGE <= k < (e.nodes[n] + 1) * WORDS_PER_PAGE;
        assert n in t.nodes && t.nodes[n] == e.nodes[n];
      }
    }
  }

  lemma ConsistentBesides(e: Sys, t: Sys)
    requires Consistent(e) && t == e.(path := t.path, stubs := t.stubs)
    ensures Consistent(t)
  {
  }

  // ---------------------------------------------------------------- a map that fails

  /** vmm_map_page when it fails. */
  ghost function AfterFailedMap(s: Sys, virt: u64): Sys {
    var vpn := Vpn(virt);
    if !HasNext(s, vpn, 0) then GiveUp(s, vpn, 0)
    else
      var s1 := AfterLevel(s, virt, 0);
      if !HasNext(s1, vpn, 1) then GiveUp(s1, vpn, 1)
      else GiveUp(AfterLevel(s1, virt, 1), vpn, 2)
  }

  /** What a failed map keeps: everything but free pages, and records for the tables it made. */
  ghost predicate FailsFrom(s: Sys, t: Sys, vpn: nat) {
    && SysInv(t) && Frame(s, t) && t.flat == s.flat && t.mapped == s.mapped && t.root == s.root && t.path.Idle?
    && s.dead <= t.dead && Blocked(t, vpn)
    && |t.m.mm.recs| <= |s.m.mm.recs| + 2
    && (AllRecorded(s.m.mm, s.live) && |s.m.mm.recs| + 2 < U16 ==> AllRecorded(t.m.mm, t.live))
  }

  lemma FailedMapIs(s: Sys, phys: u64, virt: u64, flags: u64)
    requires SysInv(s) && s.path.Idle? && !CanMap(s, Vpn(virt))
    ensures MapPage(s.m, s.root, phys, virt, flags) == (AfterFailedMap(s, virt).m, false)
    ensures FailsFrom(s, AfterFailedMap(s, virt), Vpn(virt))
  {
    hide Wired, TreeInv, Accounted, Translates, NodeAt, Slot, NextLevel, Extend, MapPage, HasNext, Index, Vpn,
         FailLevel, Frame, AllRecorded, CanMap, Leaf, PathTo;
    var vpn := Vpn(virt);
    MapByLevels(s, phys, virt, flags);
    if !HasNext(s, vpn, 0) {
      GiveUpKeepsInv(s, vpn, 0);
      DeadBlocks(GiveUp(s, vpn, 0), vpn, 0);
    } else {
      LevelKeepsInv(s, virt, 0);
      var s1 := AfterLevel(s, virt, 0);
      PathDoesNotMatter(Extend(s, vpn, 0), Mapping(vpn, 1), vpn, 1);
      if !HasNext(s1, vpn, 1) {
        GiveUpKeepsInv(s1, vpn, 1);
        DeadBlocks(GiveUp(s1, vpn, 1), vpn, 1);
        FailPathDoesNotMatter(Extend(s, vpn, 0), Mapping(vpn, 1), vpn, 1);
        FrameThrough(s, s1, GiveUp(s1, vpn, 1));
      } else {
        LevelKeepsInv(s1, virt, 1);
        var s2 := AfterLevel(s1, virt, 1);
        PathDoesNotMatter(Extend(Extend(s, vpn, 0), vpn, 1), Mapping(vpn, 2), vpn, 2);
        FailPathDoesNotMatter(Extend(Extend(s, vpn, 0), vpn, 1), Mapping(vpn, 2), vpn, 2);
        assert !HasNext(s2, vpn, 2);
        GiveUpKeepsInv(s2, vpn, 2);
        DeadBlocks(GiveUp(s2, vpn, 2), vpn, 2);
        FrameThrough(s, s1, s2);
        FrameThrough(s, s2, GiveUp(s2, vpn, 2));
      }
    }
  }

  lemma DeadBlocks(s: Sys, vpn: nat, d: nat)
    requires d < 3 && NodeAt(vpn, d + 1) in s.dead
    ensures Blocked(s, vpn)
  {
  }

  lemma FailPathDoesNotMatter(s: Sys, path: Path, vpn: nat, d: nat)
    ensures FailLevel(s.(path := path), vpn, d).m == FailLevel(s, vpn, d).m
  {
    hide NodeAt, Slot, Killed;
  }

  /** A map through a dead link fails and does nothing. */
  lemma BlockedMapDoesNothing(s: Sys, phys: u64, virt: u64, flags: u64)
    requires Consistent(s) && Blocked(s, Vpn(virt))
    ensures MapPage(s.m, s.root, phys, virt, flags) == (s.m, false)
  {
    hide Consistent, NodeAt, Slot, NextLevel, MapPage, Vpn, FreePages, Killed;
    MapByLevels(s, phys, virt, flags);
    ConsistentPath(s, Vpn(virt));
  }
}
