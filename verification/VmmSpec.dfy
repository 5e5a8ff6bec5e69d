/** Four-level page tables in physical memory: what each call of vmm.c does, on values. */
module VmmSpec {
  import opened Bits
  import opened Common
  import opened MmSpec

  /** `table[entry]`, the table being at a byte address.  Memory beyond the machine reads as 0. */
  function Load(mem: seq<u64>, table: nat, entry: nat): u64 {
    if table / 8 + entry < |mem| then mem[table / 8 + entry] else 0
  }

  function Store(mem: seq<u64>, table: nat, entry: nat, value: u64): (r: seq<u64>)
    ensures |r| == |mem|
  {
    if table / 8 + entry < |mem| then mem[table / 8 + entry := value] else mem
  }

  /** `memset(addr, 0, 4096)` */
  function ZeroPage(mem: seq<u64>, addr: nat): (r: seq<u64>)
    ensures |r| == |mem|
    ensures forall i :: 0 <= i < |mem| ==> r[i] == if addr / 8 <= i < addr / 8 + WORDS_PER_PAGE then 0 else mem[i]
  {
    seq(|mem|, i requires 0 <= i < |mem| => if addr / 8 <= i < addr / 8 + WORDS_PER_PAGE then 0 else mem[i])
  }

  /** `(virt & (0x1ff << shift)) >> shift` */
  function Index(virt: u64, shift: nat): nat {
    Shr(And(virt, Shl(0x1ff, shift)), shift)
  }

  function Word(x: nat): u64 {
    x % U64
  }

  /** `get_next_level`; address 0 is its NULL. */
  ghost function NextLevel(m: Machine, table: nat, entry: nat, doAlloc: bool): (Machine, nat) {
    var e := Load(m.mem, table, entry);
    if And(e, 1) == 1 then (m, And(e, ADDRESS_MASK))
    else if doAlloc then
      var (m1, page) := Kmalloc(m, 4096);
      (m1.(mem := Store(ZeroPage(m1.mem, page), table, entry, Word(Or(page, 7)))), page)
    else (m, 0)
  }

  ghost function MapPage(m: Machine, root: nat, phys: u64, virt: u64, flags: u64): (Machine, bool) {
    var (m1, level3) := NextLevel(m, root, Index(virt, 39), true);
    if level3 == 0 then (m1, false) else
    var (m2, level2) := NextLevel(m1, level3, Index(virt, 30), true);
    if level2 == 0 then (m2, false) else
    var (m3, level1) := NextLevel(m2, level2, Index(virt, 21), true);
    if level1 == 0 then (m3, false) else
    (m3.(mem := Store(m3.mem, level1, Index(virt, 12), Word(Or(phys, flags)))), true)
  }

  ghost function UnmapPage(m: Machine, root: nat, virt: u64): (Machine, bool) {
    var (_, level3) := NextLevel(m, root, Index(virt, 39), false);
    if level3 == 0 then (m, false) else
    var (_, level2) := NextLevel(m, level3, Index(virt, 30), false);
    if level2 == 0 then (m, false) else
    var (_, level1) := NextLevel(m, level2, Index(virt, 21), false);
    if level1 == 0 then (m, false) else
    (m.(mem := Store(m.mem, level1, Index(virt, 12), 0)), true)
  }

  /** One step of the hardware's walk (Intel SDM volume 3A, section 4.5): None unless the entry is present. */
  function Follow(mem: seq<u64>, table: Option<nat>, entry: nat): Option<nat> {
    match table
    case None => None
    case Some(t) =>
      var e := Load(mem, t, entry);
      if And(e, 1) == 1 then Some(And(e, ADDRESS_MASK)) else None
  }

  /** The level-1 entry the hardware finds for an address, None when a table is missing. */
  function Walk(mem: seq<u64>, root: nat, virt: u64): Option<u64> {
    var level1 := Follow(mem, Follow(mem, Follow(mem, Some(root), Index(virt, 39)), Index(virt, 30)), Index(virt, 21));
    match level1
    case None => None
    case Some(t) => Some(Load(mem, t, Index(virt, 12)))
  }

  /** What the hardware finds at an address: the level-1 entry, or 0 when a table is missing. */
  function Effective(mem: seq<u64>, root: nat, virt: u64): u64 {
    match Walk(mem, root, virt)
    case None => 0
    case Some(e) => e
  }
}
