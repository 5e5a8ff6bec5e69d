/** The page tables in memory are a tree: which page holds which table, and what growing the tree
    or writing one leaf does to the translation of every address. */
module TreeLaws {
  import opened Bits
  import opened Common
  import opened MmSpec
  import opened VmmSpec

  const VPNS: nat := 0x10_0000_0000  // 36-bit page numbers

  /** Bits 12 to 47 of an address. */
  function Vpn(virt: u64): (r: nat)
    ensures r < VPNS
  {
    virt / 4096 % VPNS
  }

  /** A table, named by its depth below the top level and the page-number prefix it serves. */
  datatype Node = Node(depth: nat, prefix: nat)

  const ROOT := Node(0, 0)

  function Child(n: Node, i: nat): Node {
    Node(n.depth + 1, n.prefix * 512 + i)
  }

  function Parent(n: Node): Node
    requires n.depth > 0
  {
    Node(n.depth - 1, n.prefix / 512)
  }

  /** The table at depth d on the way to a page number, and the slot taken in it. */
  function NodeAt(vpn: nat, d: nat): Node {
    Node(d, if d == 0 then 0 else if d == 1 then vpn / 0x800_0000 else if d == 2 then vpn / 0x4_0000 else vpn / 0x200)
  }

  function Slot(vpn: nat, d: nat): nat {
    if d == 0 then vpn / 0x800_0000
    else if d == 1 then vpn / 0x4_0000 % 512
    else if d == 2 then vpn / 0x200 % 512
    else vpn % 512
  }

  function Shift(d: nat): nat
    requires d <= 3
  {
    39 - 9 * d
  }

  lemma SlotIsIndex(virt: u64, d: nat)
    requires d <= 3
    ensures Index(virt, Shift(d)) == Slot(Vpn(virt), d) < 512
  {
    hide Pow2, Index, And;
    Pow2Values();
    if d == 0 {
      IndexIs(virt, 39, 0x80_0000_0000);
      FieldOfPage(virt, 0x800_0000, 0x200);
    } else if d == 1 {
      IndexIs(virt, 30, 0x4000_0000);
      FieldOfPage(virt, 0x4_0000, 0x4_0000);
      Nested(virt / 4096 / 0x4_0000, 0x200);
    } else if d == 2 {
      IndexIs(virt, 21, 0x20_0000);
      FieldOfPage(virt, 0x200, 0x800_0000);
      Nested(virt / 4096 / 0x200, 0x4_0000);
    } else {
      IndexIs(virt, 12, 0x1000);
      Nested(virt / 4096, 0x800_0000);
    }
  }

  lemma IndexIs(virt: u64, k: nat, p: nat)
    requires Pow2(k) == p
    ensures Index(virt, k) == virt / p % 512
  {
    FieldIs(virt, k);
  }

  lemma Nested(x: nat, b: nat)
    requires b > 0
    ensures 512 * b > 0 && x % (512 * b) % 512 == x % 512
  {
    Split(x, 512, b);
    QuotientIs(x % (512 * b), 512, x / 512 % b, x % 512);
  }

  lemma FieldOfPage(virt: nat, a: nat, b: nat)
    requires a > 0 && b > 0 && a * b == VPNS
    ensures virt / (4096 * a) == virt / 4096 / a
    ensures virt / 4096 % VPNS / a == virt / 4096 / a % b
  {
    DivByProduct(virt, 4096, a);
    ModThenDiv(virt / 4096, a, b);
  }

  lemma Distribute(q: nat, b: nat, r: nat, a: nat)
    requires r < b
    ensures (q * b + r) * a == q * (a * b) + r * a
    ensures r * a + a <= a * b
  {
    assert (b - r) * a >= a by { MulAtLeast(b - r, a + 1); }
  }

  /** Dividing by a and then by b splits x into three digits. */
  lemma Split(x: nat, a: nat, b: nat)
    requires a > 0 && b > 0
    ensures a * b > 0
    ensures x / (a * b) == x / a / b
    ensures x % (a * b) == x / a % b * a + x % a
  {
    var q, r, s := x / a / b, x / a % b, x % a;
    assert x / a == q * b + r;
    assert x == x / a * a + s;
    Distribute(q, b, r, a);
    QuotientIs(x, a * b, q, r * a + s);
  }

  lemma DivByProduct(x: nat, a: nat, b: nat)
    requires a > 0 && b > 0
    ensures a * b > 0 && x / (a * b) == x / a / b
  {
    Split(x, a, b);
  }

  lemma ModThenDiv(x: nat, a: nat, b: nat)
    requires a > 0 && b > 0
    ensures a * b > 0 && x % (a * b) / a == x / a % b
  {
    Split(x, a, b);
    QuotientIs(x % (a * b), a, x / a % b, x % a);
  }

  lemma ChildOnPath(vpn: nat, d: nat)
    requires d < 3 && vpn < VPNS
    ensures Child(NodeAt(vpn, d), Slot(vpn, d)) == NodeAt(vpn, d + 1)
    ensures Slot(vpn, d) < 512 && NodeAt(vpn, d).depth == d
  {
    DivByProduct(vpn, 0x4_0000, 0x200);
    DivByProduct(vpn, 0x200, 0x200);
    TopSlot(vpn);
    LastDigit(vpn / 0x4_0000);
    LastDigit(vpn / 0x200);
  }

  lemma TopSlot(vpn: nat)
    requires vpn < VPNS
    ensures vpn / 0x800_0000 < 512
  {
  }

  lemma LastDigit(x: nat)
    ensures x == x / 0x200 * 512 + x % 512
  {
  }

  /** The four 9-bit indices determine the page number. */
  lemma SlotsDeterminePage(v: nat, w: nat)
    requires v < VPNS && w < VPNS
    requires NodeAt(v, 3) == NodeAt(w, 3) && Slot(v, 3) == Slot(w, 3)
    ensures v == w
  {
  }

  lemma ChildInjective(n: Node, i: nat, k: Node, j: nat)
    requires i < 512 && j < 512 && Child(n, i) == Child(k, j)
    ensures n == k && i == j
  {
  }

  function Entry(mem: seq<u64>, page: nat, i: nat): u64 {
    Load(mem, page * 4096, i)
  }

  /** The link to a child: the page of its table, or address 0 where a map found no page for it. */
  function LinkTo(nodes: map<Node, nat>, dead: set<Node>, c: Node): nat {
    if c in nodes then nodes[c] * 4096 + 7 else if c in dead then 7 else 0
  }

  ghost predicate LinksOk(mem: seq<u64>, nodes: map<Node, nat>, dead: set<Node>, n: Node)
    requires n in nodes
  {
    forall i: nat :: i < 512 ==> Entry(mem, nodes[n], i) == LinkTo(nodes, dead, Child(n, i))
  }

  /** Table n lies in one page of memory other than page 0, and its entries link exactly its children. */
  ghost predicate NodeOk(mem: seq<u64>, nodes: map<Node, nat>, dead: set<Node>, n: Node)
    requires n in nodes
  {
    && n.depth <= 3
    && 0 < nodes[n] < 0x8000_0000
    && (nodes[n] + 1) * WORDS_PER_PAGE <= |mem|
    && (n.depth < 3 ==> LinksOk(mem, nodes, dead, n))
  }

  /** Dead links stand for no table, and once there is one page 0, which they lead to, holds zeros. */
  ghost predicate DeadOk(mem: seq<u64>, nodes: map<Node, nat>, dead: set<Node>) {
    && (forall c :: c in dead ==> c !in nodes && 1 <= c.depth <= 3 && Parent(c) in nodes)
    && (dead != {} ==> forall j: nat :: j < 512 ==> Load(mem, 0, j) == 0)
  }

  /** `nodes` names the page of every table: a tree below the top level, no page serving twice.  `dead` are the
      tables that a map found no page for. */
  ghost predicate TreeInv(mem: seq<u64>, root: nat, nodes: map<Node, nat>, dead: set<Node>) {
    && ROOT in nodes && root == nodes[ROOT] * 4096
    && (forall n :: n in nodes ==> NodeOk(mem, nodes, dead, n))
    && (forall n :: n in nodes && n.depth > 0 ==> Parent(n) in nodes)
    && (forall n, k :: n in nodes && k in nodes && n != k ==> nodes[n] != nodes[k])
    && DeadOk(mem, nodes, dead)
  }

  /** The translation of a page number: its level-1 entry, 0 when no table serves it. */
  ghost function Leaf(mem: seq<u64>, nodes: map<Node, nat>, vpn: nat): u64 {
    if NodeAt(vpn, 3) in nodes then Entry(mem, nodes[NodeAt(vpn, 3)], Slot(vpn, 3)) else 0
  }

  lemma FollowIs(mem: seq<u64>, root: nat, nodes: map<Node, nat>, dead: set<Node>, vpn: nat, d: nat)
    requires TreeInv(mem, root, nodes, dead) && vpn < VPNS && d < 3 && NodeAt(vpn, d) in nodes
    ensures var e := Entry(mem, nodes[NodeAt(vpn, d)], Slot(vpn, d));
            var c := NodeAt(vpn, d + 1);
            && (c in nodes ==> And(e, 1) == 1 && And(e, ADDRESS_MASK) == nodes[c] * 4096 != 0)
            && (c in dead ==> c !in nodes && And(e, 1) == 1 && And(e, ADDRESS_MASK) == 0 && e == 7)
            && (c !in nodes && c !in dead ==> And(e, 1) == 0 && e == 0)
  {
    var n, c := NodeAt(vpn, d), NodeAt(vpn, d + 1);
    ChildOnPath(vpn, d);
    assert NodeOk(mem, nodes, dead, n) && LinksOk(mem, nodes, dead, n);
    DeadLink();
    if c in nodes {
      assert NodeOk(mem, nodes, dead, c);
      Pow2Values();
      LinkRoundTrip(nodes[c]);
    }
  }

  /** A link to address 0 is present, and leads to NULL. */
  lemma DeadLink()
    ensures And(7, 1) == 1 && And(7, ADDRESS_MASK) == 0
  {
    AddressMask(7);
  }

  lemma FollowStep(mem: seq<u64>, root: nat, nodes: map<Node, nat>, dead: set<Node>, vpn: nat, d: nat)
    requires TreeInv(mem, root, nodes, dead) && vpn < VPNS && d < 3 && NodeAt(vpn, d) in nodes
    ensures var c := NodeAt(vpn, d + 1);
            Follow(mem, Some(nodes[NodeAt(vpn, d)] * 4096), Slot(vpn, d)) ==
            if c in nodes then Some(nodes[c] * 4096) else if c in dead then Some(0) else None
  {
    hide And, NodeAt, Slot, TreeInv;
    FollowIs(mem, root, nodes, dead, vpn, d);
  }

  lemma FollowNone(mem: seq<u64>, entry: nat)
    ensures Follow(mem, None, entry) == None
  {
  }

  /** Behind a dead link the hardware finds nothing. */
  lemma FollowDead(mem: seq<u64>, nodes: map<Node, nat>, dead: set<Node>, c: Node, entry: nat)
    requires DeadOk(mem, nodes, dead) && c in dead && entry < 512
    ensures Follow(mem, Some(0), entry) == None && Load(mem, 0, entry) == 0
  {
    assert And(0, 1) == 0;
  }

  lemma ParentOnPath(vpn: nat, d: nat)
    requires d < 3 && vpn < VPNS
    ensures Parent(NodeAt(vpn, d + 1)) == NodeAt(vpn, d)
  {
  }

  /** The hardware walk reaches the leaf entry exactly when the tree has all tables on the path; else it finds no
      entry, or the zero that a dead link leads to. */
  lemma WalkIs(mem: seq<u64>, root: nat, nodes: map<Node, nat>, dead: set<Node>, virt: u64)
    requires TreeInv(mem, root, nodes, dead)
    ensures var walk, served := Walk(mem, root, virt), NodeAt(Vpn(virt), 3) in nodes;
            if served then walk == Some(Leaf(mem, nodes, Vpn(virt)))
            else walk == if NodeAt(Vpn(virt), 3) in dead then Some(0) else None
    ensures Effective(mem, root, virt) == Leaf(mem, nodes, Vpn(virt))
  {
    hide Index, Slot, Vpn, NodeAt, TreeInv, DeadOk, And, Follow, Load;
    SlotIsIndex(virt, 0); SlotIsIndex(virt, 1); SlotIsIndex(virt, 2); SlotIsIndex(virt, 3);
    assert Shift(0) == 39 && Shift(1) == 30 && Shift(2) == 21 && Shift(3) == 12;
    var vpn := Vpn(virt);
    PathIsClosed(mem, root, nodes, dead, vpn);
    FollowNone(mem, Slot(vpn, 1));
    FollowNone(mem, Slot(vpn, 2));
    FollowStep(mem, root, nodes, dead, vpn, 0);
    if NodeAt(vpn, 1) in dead { FollowDead(mem, nodes, dead, NodeAt(vpn, 1), Slot(vpn, 1)); }
    if NodeAt(vpn, 1) in nodes {
      FollowStep(mem, root, nodes, dead, vpn, 1);
      if NodeAt(vpn, 2) in dead { FollowDead(mem, nodes, dead, NodeAt(vpn, 2), Slot(vpn, 2)); }
      if NodeAt(vpn, 2) in nodes {
        FollowStep(mem, root, nodes, dead, vpn, 2);
        if NodeAt(vpn, 3) in dead { FollowDead(mem, nodes, dead, NodeAt(vpn, 3), Slot(vpn, 3)); }
      }
    }
  }

  lemma PathIsClosed(mem: seq<u64>, root: nat, nodes: map<Node, nat>, dead: set<Node>, vpn: nat)
    requires TreeInv(mem, root, nodes, dead) && vpn < VPNS
    ensures DeadOk(mem, nodes, dead)
    ensures NodeAt(vpn, 0) in nodes && root == nodes[NodeAt(vpn, 0)] * 4096
    ensures NodeAt(vpn, 2) in nodes || NodeAt(vpn, 2) in dead ==> NodeAt(vpn, 1) in nodes
    ensures NodeAt(vpn, 3) in nodes || NodeAt(vpn, 3) in dead ==> NodeAt(vpn, 2) in nodes
    ensures forall e :: 1 <= e <= 3 && NodeAt(vpn, e) in dead ==> NodeAt(vpn, e) !in nodes
  {
    ParentOnPath(vpn, 1);
    ParentOnPath(vpn, 2);
  }

  /** A fresh zeroed page p, linked from slot i of table n. */
  function Grown(mem: seq<u64>, page: nat, i: nat, p: nat): seq<u64> {
    Store(ZeroPage(mem, p * 4096), page * 4096, i, Word(Or(p * 4096, 7)))
  }

  lemma GrownEntry(mem: seq<u64>, page: nat, i: nat, p: nat, q: nat, j: nat)
    requires 0 < p < 0x8000_0000 && (p + 1) * WORDS_PER_PAGE <= |mem| && (page + 1) * WORDS_PER_PAGE <= |mem|
    requires page != p && i < 512 && j < 512
    ensures Entry(Grown(mem, page, i, p), q, j) ==
            if q == page && j == i then p * 4096 + 7 else if q == p then 0 else Entry(mem, q, j)
  {
    hide Pow2, And, Or;
    Pow2Values();
    LinkRoundTrip(p);
  }

  lemma GrowTree(mem: seq<u64>, root: nat, nodes: map<Node, nat>, dead: set<Node>, n: Node, i: nat, p: nat)
    requires TreeInv(mem, root, nodes, dead) && n in nodes && n.depth < 3 && i < 512
    requires Child(n, i) !in nodes && Child(n, i) !in dead
    requires p !in nodes.Values && 0 < p < 0x8000_0000 && (p + 1) * WORDS_PER_PAGE <= |mem|
    ensures TreeInv(Grown(mem, nodes[n], i, p), root, nodes[Child(n, i) := p], dead)
  {
    hide DeadOk;
    var c := Child(n, i);
    var after, grown := nodes[c := p], Grown(mem, nodes[n], i, p);
    assert nodes[n] in nodes.Values && NodeOk(mem, nodes, dead, n);
    assert Parent(c) == n;
    NoChildren(mem, nodes, dead, c);
    forall j: nat | j < 512 ensures Child(c, j) !in after {
      assert Parent(Child(c, j)) == c;
    }
    forall k | k in after ensures NodeOk(grown, after, dead, k) {
      if k != c { assert NodeOk(mem, nodes, dead, k) && nodes[k] in nodes.Values; }
      if k.depth < 3 {
        forall j: nat | j < 512 ensures Entry(grown, after[k], j) == LinkTo(after, dead, Child(k, j)) {
          GrownEntry(mem, nodes[n], i, p, after[k], j);
          if k != c {
            assert Entry(mem, nodes[k], j) == LinkTo(nodes, dead, Child(k, j));
            if Child(k, j) == c { ChildInjective(k, j, n, i); }
          }
        }
      }
    }
    forall k, l | k in after && l in after && k != l ensures after[k] != after[l] {
      if k != c { assert nodes[k] in nodes.Values; }
      if l != c { assert nodes[l] in nodes.Values; }
    }
    GrownDead(mem, nodes, dead, n, i, p);
  }

  lemma NoChildren(mem: seq<u64>, nodes: map<Node, nat>, dead: set<Node>, c: Node)
    requires DeadOk(mem, nodes, dead) && c !in nodes
    ensures forall j: nat :: j < 512 ==> Child(c, j) !in dead
  {
    forall j: nat | j < 512 ensures Child(c, j) !in dead {
      assert Parent(Child(c, j)) == c;
    }
  }

  lemma GrownDead(mem: seq<u64>, nodes: map<Node, nat>, dead: set<Node>, n: Node, i: nat, p: nat)
    requires DeadOk(mem, nodes, dead) && n in nodes && nodes[n] > 0 && i < 512 && p > 0 && Child(n, i) !in dead
    ensures DeadOk(Grown(mem, nodes[n], i, p), nodes[Child(n, i) := p], dead)
  {
    hide Or;
    var grown := Grown(mem, nodes[n], i, p);
    forall j: nat | j < 512 && dead != {} ensures Load(grown, 0, j) == 0 {
      assert Load(mem, 0, j) == 0;
    }
  }

  /** A link to address 0 from slot i of table n, page 0 cleared. */
  function Killed(mem: seq<u64>, page: nat, i: nat): seq<u64> {
    Store(ZeroPage(mem, 0), page * 4096, i, 7)
  }

  lemma KilledEntry(mem: seq<u64>, page: nat, i: nat, q: nat, j: nat)
    requires 0 < page && 0 < q && i < 512 && j < 512
    requires (page + 1) * WORDS_PER_PAGE <= |mem| && (q + 1) * WORDS_PER_PAGE <= |mem|
    ensures Entry(Killed(mem, page, i), q, j) == if q == page && j == i then 7 else Entry(mem, q, j)
  {
  }

  /** A dead link keeps the tree and changes no translation. */
  lemma KillTree(mem: seq<u64>, root: nat, nodes: map<Node, nat>, dead: set<Node>, n: Node, i: nat)
    requires TreeInv(mem, root, nodes, dead) && n in nodes && n.depth < 3 && i < 512
    requires Child(n, i) !in nodes && Child(n, i) !in dead
    ensures TreeInv(Killed(mem, nodes[n], i), root, nodes, dead + {Child(n, i)})
    ensures forall w :: 0 <= w < VPNS ==> Leaf(Killed(mem, nodes[n], i), nodes, w) == Leaf(mem, nodes, w)
  {
    hide DeadOk, Killed, Entry;
    var c, after := Child(n, i), Killed(mem, nodes[n], i);
    var more := dead + {c};
    assert NodeOk(mem, nodes, dead, n);
    KilledSize(mem, nodes[n], i);
    forall k | k in nodes ensures NodeOk(after, nodes, more, k) {
      assert NodeOk(mem, nodes, dead, k);
      if k.depth < 3 {
        forall j: nat | j < 512 ensures Entry(after, nodes[k], j) == LinkTo(nodes, more, Child(k, j)) {
          assert Entry(mem, nodes[k], j) == LinkTo(nodes, dead, Child(k, j));
          KilledEntry(mem, nodes[n], i, nodes[k], j);
          if Child(k, j) == c { ChildInjective(k, j, n, i); }
        }
      }
    }
    KilledDead(mem, nodes, dead, n, i);
    forall w | 0 <= w < VPNS ensures Leaf(after, nodes, w) == Leaf(mem, nodes, w) {
      KilledLeaf(mem, root, nodes, dead, n, i, w);
    }
  }

  lemma KilledSize(mem: seq<u64>, page: nat, i: nat)
    ensures |Killed(mem, page, i)| == |mem|
  {
  }

  lemma KilledDead(mem: seq<u64>, nodes: map<Node, nat>, dead: set<Node>, n: Node, i: nat)
    requires DeadOk(mem, nodes, dead) && n in nodes && nodes[n] > 0 && n.depth < 3 && i < 512 && Child(n, i) !in nodes
    ensures DeadOk(Killed(mem, nodes[n], i), nodes, dead + {Child(n, i)})
  {
    assert Parent(Child(n, i)) == n;
  }

  lemma KilledLeaf(mem: seq<u64>, root: nat, nodes: map<Node, nat>, dead: set<Node>, n: Node, i: nat, w: nat)
    requires TreeInv(mem, root, nodes, dead) && n in nodes && n.depth < 3 && i < 512 && w < VPNS
    ensures Leaf(Killed(mem, nodes[n], i), nodes, w) == Leaf(mem, nodes, w)
  {
    hide Killed, Entry, LinksOk, DeadOk;
    var k := NodeAt(w, 3);
    assert NodeOk(mem, nodes, dead, n) && Slot(w, 3) < 512;
    if k in nodes {
      assert NodeOk(mem, nodes, dead, k) && nodes[k] != nodes[n];
      KilledEntry(mem, nodes[n], i, nodes[k], Slot(w, 3));
    }
  }

  /** Growing the tree changes the translation of no address. */
  lemma GrowKeepsLeaf(mem: seq<u64>, root: nat, nodes: map<Node, nat>, dead: set<Node>, n: Node, i: nat, p: nat,
                      vpn: nat)
    requires TreeInv(mem, root, nodes, dead) && n in nodes && n.depth < 3 && i < 512 && Child(n, i) !in nodes
    requires p !in nodes.Values && 0 < p < 0x8000_0000 && (p + 1) * WORDS_PER_PAGE <= |mem|
    ensures Leaf(Grown(mem, nodes[n], i, p), nodes[Child(n, i) := p], vpn) == Leaf(mem, nodes, vpn)
  {
    hide DeadOk, LinksOk;
    var k, c := NodeAt(vpn, 3), Child(n, i);
    assert nodes[n] in nodes.Values && NodeOk(mem, nodes, dead, n);
    if k in nodes { assert nodes[k] in nodes.Values && NodeOk(mem, nodes, dead, k); }
    if k in nodes || k == c {
      GrownEntry(mem, nodes[n], i, p, if k == c then p else nodes[k], Slot(vpn, 3));
    }
  }

  /** Writing a level-1 entry keeps the tree and changes the translation of that page number only. */
  lemma WriteLeaf(mem: seq<u64>, root: nat, nodes: map<Node, nat>, dead: set<Node>, vpn: nat, value: u64)
    requires TreeInv(mem, root, nodes, dead) && vpn < VPNS && NodeAt(vpn, 3) in nodes
    ensures var after := Store(mem, nodes[NodeAt(vpn, 3)] * 4096, Slot(vpn, 3), value);
            && TreeInv(after, root, nodes, dead)
            && forall w :: 0 <= w < VPNS ==> Leaf(after, nodes, w) == if w == vpn then value else Leaf(mem, nodes, w)
  {
    hide TreeInv, Store, Leaf;
    WriteKeepsTree(mem, root, nodes, dead, NodeAt(vpn, 3), Slot(vpn, 3), value);
    forall w | 0 <= w < VPNS
      ensures Leaf(Store(mem, nodes[NodeAt(vpn, 3)] * 4096, Slot(vpn, 3), value), nodes, w) ==
              if w == vpn then value else Leaf(mem, nodes, w)
    {
      WriteChangesLeaf(mem, root, nodes, dead, vpn, value, w);
    }
  }

  lemma WrittenEntry(mem: seq<u64>, page: nat, i: nat, value: u64, q: nat, j: nat)
    requires (page + 1) * WORDS_PER_PAGE <= |mem| && i < 512 && j < 512
    ensures Entry(Store(mem, page * 4096, i, value), q, j) == if q == page && j == i then value else Entry(mem, q, j)
  {
  }

  lemma WrittenDead(mem: seq<u64>, nodes: map<Node, nat>, dead: set<Node>, n: Node, i: nat, value: u64)
    requires DeadOk(mem, nodes, dead) && n in nodes && nodes[n] > 0
    ensures DeadOk(Store(mem, nodes[n] * 4096, i, value), nodes, dead)
  {
    forall j: nat | j < 512 && dead != {} ensures Load(Store(mem, nodes[n] * 4096, i, value), 0, j) == 0 {
      assert Load(mem, 0, j) == 0;
    }
  }

  lemma WriteKeepsTree(mem: seq<u64>, root: nat, nodes: map<Node, nat>, dead: set<Node>, n: Node, i: nat, value: u64)
    requires TreeInv(mem, root, nodes, dead) && n in nodes && n.depth == 3 && i < 512
    ensures TreeInv(Store(mem, nodes[n] * 4096, i, value), root, nodes, dead)
  {
    hide Store, Entry, DeadOk;
    var after := Store(mem, nodes[n] * 4096, i, value);
    WrittenDead(mem, nodes, dead, n, i, value);
    assert NodeOk(mem, nodes, dead, n);
    forall k | k in nodes ensures NodeOk(after, nodes, dead, k) {
      assert NodeOk(mem, nodes, dead, k);
      if k.depth < 3 {
        forall j: nat | j < 512 ensures Entry(after, nodes[k], j) == LinkTo(nodes, dead, Child(k, j)) {
          assert Entry(mem, nodes[k], j) == LinkTo(nodes, dead, Child(k, j));
          WrittenEntry(mem, nodes[n], i, value, nodes[k], j);
        }
      }
    }
  }

  lemma WriteChangesLeaf(mem: seq<u64>, root: nat, nodes: map<Node, nat>, dead: set<Node>, vpn: nat, value: u64, w: nat)
    requires TreeInv(mem, root, nodes, dead) && vpn < VPNS && NodeAt(vpn, 3) in nodes && w < VPNS
    ensures Leaf(Store(mem, nodes[NodeAt(vpn, 3)] * 4096, Slot(vpn, 3), value), nodes, w) ==
            if w == vpn then value else Leaf(mem, nodes, w)
  {
    hide Store, Entry, LinksOk, NodeAt;
    var n := NodeAt(vpn, 3);
    assert NodeOk(mem, nodes, dead, n) && Slot(w, 3) < 512 && Slot(vpn, 3) < 512;
    if NodeAt(w, 3) in nodes {
      WrittenEntry(mem, nodes[n], Slot(vpn, 3), value, nodes[NodeAt(w, 3)], Slot(w, 3));
      if NodeAt(w, 3) == n && Slot(w, 3) == Slot(vpn, 3) { SlotsDeterminePage(w, vpn); }
    }
  }

  /** Writing anywhere outside the table pages changes neither the tree nor any translation. */
  lemma WriteOutside(mem: seq<u64>, after: seq<u64>, root: nat, nodes: map<Node, nat>, dead: set<Node>)
    requires TreeInv(mem, root, nodes, dead) && |after| == |mem|
    requires forall n, i: nat :: n in nodes && i < 512 ==> Entry(after, nodes[n], i) == Entry(mem, nodes[n], i)
    requires forall j: nat :: j < 512 ==> Load(after, 0, j) == Load(mem, 0, j)
    ensures TreeInv(after, root, nodes, dead)
    ensures forall vpn :: 0 <= vpn < VPNS ==> Leaf(after, nodes, vpn) == Leaf(mem, nodes, vpn)
  {
    forall n | n in nodes ensures NodeOk(after, nodes, dead, n) {
      assert NodeOk(mem, nodes, dead, n);
    }
  }
}
