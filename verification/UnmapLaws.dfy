/** Unmapping. */
module UnmapLaws {
  import opened Bits
  import opened Common
  import opened MmSpec
  import opened MmLaws
  import opened ReallocLaws
  import opened VmmSpec
  import opened TreeLaws
  import opened MemorySystem

  // ---------------------------------------------------------------- unmap

  lemma LookUp(s: Sys, vpn: nat, d: nat)
    requires Consistent(s) && vpn < VPNS && d < 3 && NodeAt(vpn, d) in s.nodes
    ensures var c := NodeAt(vpn, d + 1);
            && NextLevel(s.m, s.nodes[NodeAt(vpn, d)] * 4096, Slot(vpn, d), false) ==
               (s.m, if c in s.nodes then s.nodes[c] * 4096 else 0)
            && (c in s.nodes ==> s.nodes[c] != 0)
  {
    hide MmInv, LiveInv, TreeInv, NodeAt, Slot, And;
    FollowIs(s.m.mem, s.root, s.nodes, s.dead, vpn, d);
  }

  ghost function AfterUnmap(s: Sys, virt: u64): Sys {
    var n := NodeAt(Vpn(virt), 3);
    if n !in s.nodes then s
    else s.(m := s.m.(mem := Store(s.m.mem, s.nodes[n] * 4096, Slot(Vpn(virt), 3), 0)), flat := s.flat[Vpn(virt) := 0])
  }

  /** vmm_unmap_page returns true exactly when the leaf table exists; it allocates nothing. */
  lemma UnmapIs(s: Sys, virt: u64)
    requires Consistent(s)
    ensures UnmapPage(s.m, s.root, virt) == (AfterUnmap(s, virt).m, NodeAt(Vpn(virt), 3) in s.nodes)
  {
    hide Consistent, NextLevel, NodeAt, Slot, Index, Vpn, Store;
    var vpn := Vpn(virt);
    SlotIsIndex(virt, 0); SlotIsIndex(virt, 1); SlotIsIndex(virt, 2); SlotIsIndex(virt, 3);
    assert Shift(0) == 39 && Shift(1) == 30 && Shift(2) == 21 && Shift(3) == 12;
    ConsistentPath(s, vpn);
    LookUp(s, vpn, 0);
    if NodeAt(vpn, 1) in s.nodes {
      LookUp(s, vpn, 1);
      if NodeAt(vpn, 2) in s.nodes {
        LookUp(s, vpn, 2);
      }
    }
  }

  lemma ConsistentPath(s: Sys, vpn: nat)
    requires Consistent(s) && vpn < VPNS
    ensures NodeAt(vpn, 0) in s.nodes && s.root == s.nodes[NodeAt(vpn, 0)] * 4096
    ensures NodeAt(vpn, 2) in s.nodes || NodeAt(vpn, 2) in s.dead ==> NodeAt(vpn, 1) in s.nodes
    ensures NodeAt(vpn, 3) in s.nodes || NodeAt(vpn, 3) in s.dead ==> NodeAt(vpn, 2) in s.nodes
    ensures forall e :: 1 <= e <= 3 && NodeAt(vpn, e) in s.dead ==> NodeAt(vpn, e) !in s.nodes
  {
    hide MmInv, LiveInv;
    PathIsClosed(s.m.mem, s.root, s.nodes, s.dead, vpn);
  }

  lemma UnmapKeepsInv(s: Sys, virt: u64)
    requires SysInv(s)
    ensures SysInv(AfterUnmap(s, virt))
    ensures forall w :: 0 <= w < VPNS ==>
      Leaf(AfterUnmap(s, virt).m.mem, s.nodes, w) == if w == Vpn(virt) then 0 else Leaf(s.m.mem, s.nodes, w)
  {
    hide MmInv, LiveInv, Leaf, Slot, TreeInv, NodeAt, Accounted, Store;
    if NodeAt(Vpn(virt), 3) in s.nodes {
      WriteLeaf(s.m.mem, s.root, s.nodes, s.dead, Vpn(virt), 0);
      AccountedElsewhere(s, AfterUnmap(s, virt));
    } else {
      UnservedLeaf(s.m.mem, s.nodes, Vpn(virt));
    }
  }

  lemma AccountedElsewhere(s: Sys, t: Sys)
    requires Accounted(s) && t.nodes == s.nodes && t.mapped == s.mapped && t.path == s.path && t.stubs == s.stubs
    ensures Accounted(t)
  {
    hide OnSomePath, OnOpenPath;
    forall n ensures n in t.nodes <==> IsTable(t, n) {
      assert n in s.nodes <==> IsTable(s, n);
    }
  }

  lemma UnservedLeaf(mem: seq<u64>, nodes: map<Node, nat>, vpn: nat)
    requires NodeAt(vpn, 3) !in nodes
    ensures Leaf(mem, nodes, vpn) == 0
  {
  }

  /** It returns true exactly when some page in the same 2 MiB region was ever mapped. */
  lemma UnmapTrueIff(s: Sys, virt: u64)
    requires SysInv(s) && s.path.Idle?
    ensures UnmapPage(s.m, s.root, virt).1 <==> exists v :: v in s.mapped && v / 512 == Vpn(virt) / 512
  {
    hide MmInv, LiveInv, TreeInv, MapPage, UnmapPage, Leaf;
    UnmapIs(s, virt);
    var n := NodeAt(Vpn(virt), 3);
    assert n in s.nodes <==> IsTable(s, n);
    if v :| v in s.mapped && v / 512 == Vpn(virt) / 512 {
      assert n == NodeAt(v, n.depth);
    }
  }
}
