/** The page allocator on values: what each call of mm.c and init.c does to the bitmap,
    the allocation records and physical memory, and the laws all of them obey. */
module MmSpec {
  import opened Bits
  import opened Common

  const WORDS_PER_PAGE: nat := 512

  datatype Record = Record(pageStart: nat, pageCount: nat, used: bool)

  /** `bits[p]` is set when page p is in use; only the first `limit` of them stand for pages, the rest pad the
      last 32-bit word of the bitmap.  Bitmap and records lie in `tablePages` pages from page `table` on. */
  datatype Mm = Mm(limit: nat, bits: seq<bool>, recs: seq<Record>, table: nat, tablePages: nat)

  /** The allocator together with physical memory, in 64-bit words. */
  datatype Machine = Machine(mm: Mm, mem: seq<u64>)

  // ---------------------------------------------------------------- invariant

  /** A record that stands for pages in use. */
  ghost predicate Holds(r: Record) {
    r.used && r.pageCount > 0
  }

  ghost predicate RangeSet(bits: seq<bool>, lo: nat, n: nat) {
    forall p: nat :: lo <= p < lo + n ==> p < |bits| && bits[p]
  }

  /** Two page ranges have no page in common. */
  ghost predicate Apart(a: nat, n: nat, b: nat, m: nat) {
    a + n <= b || b + m <= a
  }

  ghost predicate RecordOk(r: Record, limit: nat, bits: seq<bool>) {
    && r.pageStart < limit && r.pageStart + r.pageCount <= limit && r.pageCount < U16
    && (Holds(r) ==> RangeSet(bits, r.pageStart, r.pageCount))
  }

  ghost predicate RecordsApart(r: Record, q: Record) {
    Holds(r) && Holds(q) ==> Apart(r.pageStart, r.pageCount, q.pageStart, q.pageCount)
  }

  ghost predicate UniqueStarts(recs: seq<Record>) {
    forall i, j :: 0 <= i < j < |recs| ==> recs[i].pageStart != recs[j].pageStart
  }

  ghost predicate Disjoint(recs: seq<Record>) {
    forall i, j :: 0 <= i < j < |recs| ==> RecordsApart(recs[i], recs[j])
  }

  /** Limits of the machine: page numbers fit the `int` loop counters, and neither the first
      nor the last page is ever free. */
  ghost predicate Sized(s: Mm) {
    && 0 < s.limit <= |s.bits|
    && s.limit < 0x8000_0000
    && s.bits[s.limit - 1]
    && s.bits[0]
  }

  /** The pages of the tables are in use, and no record stands for any of them. */
  ghost predicate TablesKept(s: Mm) {
    && 0 < s.table && 0 < s.tablePages && s.table + s.tablePages < s.limit
    && RangeSet(s.bits, s.table, s.tablePages)
    && forall i :: 0 <= i < |s.recs| ==> RecordApart(s, s.recs[i])
  }

  ghost predicate RecordApart(s: Mm, r: Record) {
    r.pageCount > 0 ==> Apart(r.pageStart, r.pageCount, s.table, s.tablePages)
  }

  ghost predicate MmInv(s: Mm) {
    && Sized(s)
    && TablesKept(s)
    && |s.recs| < U16
    && UniqueStarts(s.recs)
    && (forall i :: 0 <= i < |s.recs| ==> RecordOk(s.recs[i], s.limit, s.bits))
    && Disjoint(s.recs)
  }

  // ---------------------------------------------------------------- operations

  /** `(len + 4095) / 4096` in 64-bit arithmetic. */
  function PagesFor(len: u64): nat {
    (len + 4095) % U64 / 4096
  }

  /** n consecutive free pages start at i.  A run of length zero still needs page i to be free. */
  ghost predicate FreeRun(s: Mm, i: nat, n: nat) {
    && i < s.limit <= |s.bits|
    && !s.bits[i]
    && i + n <= |s.bits|
    && forall p: nat :: i < p < i + n ==> !s.bits[p]
  }

  ghost predicate LeastFreeRun(s: Mm, i: nat, n: nat) {
    FreeRun(s, i, n) && forall k: nat :: k < i ==> !FreeRun(s, k, n)
  }

  lemma {:induction false} LeastExists(s: Mm, n: nat, i: nat)
    requires FreeRun(s, i, n)
    ensures exists k: nat :: LeastFreeRun(s, k, n)
  {
    if k: nat :| k < i && FreeRun(s, k, n) {
      LeastExists(s, n, k);
    } else {
      assert LeastFreeRun(s, i, n);
    }
  }

  /** The page `_mm_find_page` answers with, None standing for its -1. */
  ghost function FirstFit(s: Mm, n: nat): (r: Option<nat>)
    ensures r.Some? ==> LeastFreeRun(s, r.value, n)
    ensures r.None? ==> forall i: nat :: !FreeRun(s, i, n)
  {
    if i: nat :| FreeRun(s, i, n) then
      LeastExists(s, n, i);
      var k: nat :| LeastFreeRun(s, k, n);
      Some(k)
    else None
  }

  lemma FirstFitIs(s: Mm, n: nat, i: nat)
    requires LeastFreeRun(s, i, n)
    ensures FirstFit(s, n) == Some(i)
  {
    var k := FirstFit(s, n).value;
    assert !(k < i) && !(i < k);
  }

  /** The index of the first record that starts at the page, or |recs|. */
  function FindRec(recs: seq<Record>, page: nat): (k: nat)
    ensures k <= |recs|
    ensures k < |recs| ==> recs[k].pageStart == page
    ensures forall i :: 0 <= i < k ==> recs[i].pageStart != page
  {
    if recs == [] then 0
    else if recs[0].pageStart == page then 0
    else
      var k := FindRec(recs[1..], page);
      assert forall i :: 0 < i < k + 1 ==> recs[i] == recs[1..][i - 1];
      k + 1
  }

  function SetRange(bits: seq<bool>, lo: nat, n: nat, v: bool): (r: seq<bool>)
    ensures |r| == |bits|
    ensures forall p :: 0 <= p < |bits| ==> r[p] == if lo <= p < lo + n then v else bits[p]
  {
    seq(|bits|, p requires 0 <= p < |bits| => if lo <= p < lo + n then v else bits[p])
  }

  /** The 16-bit counter of records is about to wrap to 0, after which no record is found any more. */
  predicate Wraps(recs: seq<Record>, page: nat) {
    FindRec(recs, page) == |recs| && |recs| + 1 == U16
  }

  /** Reuse the record of that start page if there is one, else append. */
  function Assign(recs: seq<Record>, r: Record): (out: seq<Record>)
    ensures |out| <= |recs| + 1
  {
    var k := FindRec(recs, r.pageStart);
    if k < |recs| then recs[k := r] else if |recs| + 1 == U16 then [] else recs + [r]
  }

  function Claim(s: Mm, page: nat, n: nat): Mm {
    s.(bits := SetRange(s.bits, page, n, true), recs := Assign(s.recs, Record(page, n % U16, true)))
  }

  ghost function Malloc(s: Mm, len: u64): (Mm, nat) {
    match FirstFit(s, PagesFor(len))
    case None => (s, 0)
    case Some(page) => (Claim(s, page, PagesFor(len)), page * 4096)
  }

  function Free(s: Mm, page: nat): (r: Outcome<Mm>)
    ensures r.Panicked? || r.Returned?
    ensures r.Panicked? <==> forall i :: 0 <= i < |s.recs| ==> s.recs[i].pageStart != page
  {
    var k := FindRec(s.recs, page);
    if k == |s.recs| then Panicked
    else
      Returned(s.(bits := SetRange(s.bits, page, s.recs[k].pageCount, false),
                  recs := s.recs[k := s.recs[k].(used := false)]))
  }

  ghost function Kmalloc(m: Machine, len: u64): (Machine, nat) {
    var (mm, addr) := Malloc(m.mm, len);
    (m.(mm := mm), addr)
  }

  /** `rep movsb`: a forward copy of n words. */
  function CopyForward(mem: seq<u64>, dst: nat, src: nat, n: nat): (r: seq<u64>)
    requires dst + n <= |mem| && src + n <= |mem|
    ensures |r| == |mem|
  {
    if n == 0 then mem
    else
      var before := CopyForward(mem, dst, src, n - 1);
      before[dst + n - 1 := before[src + n - 1]]
  }

  /** The page count krealloc reads from record k of m after `kmalloc` left m1: the same slot, even when the
      counter of records has wrapped. */
  function CountAfter(m: Mm, m1: Mm, k: nat): nat
    requires k < |m.recs|
  {
    if k < |m1.recs| then m1.recs[k].pageCount else m.recs[k].pageCount
  }

  /** Where growing a buffer can happen, the record read again after `kmalloc` still fits memory. */
  lemma GrowInBounds(m: Machine, page: nat, newLen: u64)
    requires MmInv(m.mm) && |m.mem| == m.mm.limit * WORDS_PER_PAGE
    requires FindRec(m.mm.recs, page) < |m.mm.recs|
    requires PagesFor(newLen) > m.mm.recs[FindRec(m.mm.recs, page)].pageCount
    ensures var (m1, addr) := Kmalloc(m, newLen);
            var k := FindRec(m.mm.recs, page);
            var count := CountAfter(m.mm, m1.mm, k);
            && (k < |m1.mm.recs| ==> m1.mm.recs[k].pageStart == page)
            && addr / 8 + count * WORDS_PER_PAGE <= |m.mem|
            && page * WORDS_PER_PAGE + count * WORDS_PER_PAGE <= |m.mem|
  {
    var n := PagesFor(newLen);
    var f := FirstFit(m.mm, n);
    if f.Some? {
      RunEndsBeforeLimit(m.mm, f.value, n);
    }
  }

  /** The copy goes to where `kmalloc` says, also when that is NULL: then it can reach the tables. */
  ghost function Krealloc(m: Machine, buf: u64, newLen: u64): Outcome<(Machine, nat)>
    requires MmInv(m.mm) && |m.mem| == m.mm.limit * WORDS_PER_PAGE
  {
    var page := buf / 4096;
    var k := FindRec(m.mm.recs, page);
    if buf == 0 then Returned(Kmalloc(m, newLen))
    else if k == |m.mm.recs| then Panicked
    else if PagesFor(newLen) <= m.mm.recs[k].pageCount then Returned((m, buf))
    else
      GrowInBounds(m, page, newLen);
      var (m1, addr) := Kmalloc(m, newLen);
      var count := CountAfter(m.mm, m1.mm, k);
      if !Apart(addr / 4096, count, m.mm.table, m.mm.tablePages) then TablesLost
      else
        var mem := CopyForward(m.mem, addr / 8, page * WORDS_PER_PAGE, count * WORDS_PER_PAGE);
        var freed := Free(m1.mm, page);
        if freed.Panicked? then Panicked else Returned((Machine(freed.value, mem), addr))
  }

  /** Growing a buffer, step by step. */
  lemma KreallocGrows(m: Machine, buf: u64, newLen: u64)
    requires MmInv(m.mm) && |m.mem| == m.mm.limit * WORDS_PER_PAGE
    requires var k := FindRec(m.mm.recs, buf / 4096);
             buf != 0 && k < |m.mm.recs| && PagesFor(newLen) > m.mm.recs[k].pageCount
    ensures var (m1, addr) := Kmalloc(m, newLen);
            var count := CountAfter(m.mm, m1.mm, FindRec(m.mm.recs, buf / 4096));
            var src, n := buf / 4096 * WORDS_PER_PAGE, count * WORDS_PER_PAGE;
            && addr / 8 + n <= |m.mem| && src + n <= |m.mem|
            && Krealloc(m, buf, newLen) ==
               if !Apart(addr / 4096, count, m.mm.table, m.mm.tablePages) then TablesLost
               else if Free(m1.mm, buf / 4096).Panicked? then Panicked
               else Returned((Machine(Free(m1.mm, buf / 4096).value, CopyForward(m.mem, addr / 8, src, n)), addr))
  {
    hide MmInv, FindRec, Free, Kmalloc, CopyForward;
    GrowInBounds(m, buf / 4096, newLen);
  }

  // ---------------------------------------------------------------- first fit

  /** The set last bit stops the inner loop before it leaves the bitmap. */
  lemma RunEndsBeforeLimit(s: Mm, i: nat, n: nat)
    requires Sized(s) && FreeRun(s, i, n)
    ensures i + n < s.limit && 0 < i
  {
    assert s.bits[s.limit - 1];
  }

  /** n pages from i on exist and are all free. */
  ghost predicate PagesFree(s: Mm, i: nat, n: nat) {
    i + n <= s.limit <= |s.bits| && forall p: nat :: i <= p < i + n ==> !s.bits[p]
  }

  /** First fit answers with the least start of n free pages, and fails only when there is none. */
  lemma FirstFitExact(s: Mm, n: nat)
    requires Sized(s) && n > 0
    ensures match FirstFit(s, n)
            case None => forall i: nat :: !PagesFree(s, i, n)
            case Some(f) => PagesFree(s, f, n) && forall i: nat :: i < f ==> !PagesFree(s, i, n)
  {
    forall i: nat ensures PagesFree(s, i, n) <==> FreeRun(s, i, n) {
      if FreeRun(s, i, n) { RunEndsBeforeLimit(s, i, n); }
    }
  }
}
