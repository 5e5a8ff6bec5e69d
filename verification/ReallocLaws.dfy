/** What krealloc keeps of a buffer, and exactly when it keeps it. */
module ReallocLaws {
  import opened Bits
  import opened Common
  import opened MmSpec
  import opened MmLaws

  /** The 64-bit rounding gives enough pages for every length except the last 4095, which wrap to none. */
  lemma PagesForSufficesIff(len: u64)
    ensures PagesFor(len) * 4096 >= len <==> len + 4095 < U64
    ensures len + 4095 < U64 ==> PagesFor(len) * 4096 < len + 4096
  {
  }

  /** `after` is `before` with n words at dst overwritten by those at src, and nothing else. */
  ghost predicate Copied(before: seq<u64>, after: seq<u64>, dst: nat, src: nat, n: nat) {
    && |after| == |before| && src + n <= |before|
    && forall i {:trigger after[i]} :: 0 <= i < |before| ==>
         after[i] == if dst <= i < dst + n then before[src + (i - dst)] else before[i]
  }

  lemma {:induction false} CopyForwardIs(mem: seq<u64>, dst: nat, src: nat, n: nat)
    requires dst + n <= |mem| && src + n <= |mem|
    requires dst <= src || src + n <= dst
    ensures Copied(mem, CopyForward(mem, dst, src, n), dst, src, n)
  {
    if n > 0 { CopyForwardIs(mem, dst, src, n - 1); }
  }

  ghost predicate PagesCopied(before: seq<u64>, after: seq<u64>, dst: nat, src: nat, n: nat) {
    Copied(before, after, dst * WORDS_PER_PAGE, src * WORDS_PER_PAGE, n * WORDS_PER_PAGE)
  }

  ghost predicate SamePages(mem1: seq<u64>, a: nat, mem2: seq<u64>, b: nat, n: nat) {
    && (a + n) * WORDS_PER_PAGE <= |mem1| && (b + n) * WORDS_PER_PAGE <= |mem2|
    && mem1[a * WORDS_PER_PAGE..(a + n) * WORDS_PER_PAGE] == mem2[b * WORDS_PER_PAGE..(b + n) * WORDS_PER_PAGE]
  }

  ghost predicate Wired(m: Machine, live: map<nat, nat>) {
    MmInv(m.mm) && |m.mem| == m.mm.limit * WORDS_PER_PAGE && LiveInv(m.mm, live)
  }

  /** What happens once krealloc has allocated: `mm` is what kmalloc left, `addr` what it returned. */
  lemma KreallocUnfolds(m: Machine, a: nat, newLen: u64)
    requires MmInv(m.mm) && |m.mem| == m.mm.limit * WORDS_PER_PAGE
    requires 0 < a && a * 4096 < U64 && Recorded(m.mm, a)
    requires PagesFor(newLen) > m.mm.recs[FindRec(m.mm.recs, a)].pageCount
    requires FirstFit(m.mm, PagesFor(newLen)) != Some(a)
    ensures var count := m.mm.recs[FindRec(m.mm.recs, a)].pageCount;
            var (mm, addr) := Malloc(m.mm, newLen);
            && addr / 8 + count * WORDS_PER_PAGE <= |m.mem|
            && a * WORDS_PER_PAGE + count * WORDS_PER_PAGE <= |m.mem|
            && Krealloc(m, a * 4096, newLen) ==
               if !Apart(addr / 4096, count, m.mm.table, m.mm.tablePages) then TablesLost
               else if Free(mm, a).Panicked? then Panicked
               else Returned((Machine(Free(mm, a).value,
                                      CopyForward(m.mem, addr / 8, a * WORDS_PER_PAGE, count * WORDS_PER_PAGE)), addr))
  {
    hide MmInv, FindRec, Free, FreeRun, CopyForward, SetRange, Krealloc;
    KreallocGrows(m, a * 4096, newLen);
    CountStays(m.mm, a, newLen);
  }

  lemma CountStays(s: Mm, a: nat, newLen: u64)
    requires Recorded(s, a) && FirstFit(s, PagesFor(newLen)) != Some(a)
    ensures CountAfter(s, Malloc(s, newLen).0, FindRec(s.recs, a)) == s.recs[FindRec(s.recs, a)].pageCount
  {
    hide FirstFit, FreeRun, SetRange;
    var n := PagesFor(newLen);
    var f := FirstFit(s, n);
    if f.Some? { AssignIs(s.recs, Record(f.value, n % U16, true)); }
  }

  lemma MoveKeepsLive(s: Mm, a: nat, newLen: u64, live: map<nat, nat>)
    requires MmInv(s) && LiveInv(s, live) && a in live && Recorded(s, a)
    requires FirstFit(s, PagesFor(newLen)).Some? && PagesFor(newLen) > 0
    ensures var n := PagesFor(newLen);
            var b := FirstFit(s, n).value;
            && 0 < b && b !in live && Apart(a, live[a], b, n) && Apart(b, n, s.table, s.tablePages)
            && var freed := Free(Malloc(s, newLen).0, a);
               && (freed.Returned? <==> !Wraps(s.recs, b))
               && (freed.Returned? ==>
                    && MmInv(freed.value) && LiveInv(freed.value, (live - {a})[b := n])
                    && forall p :: a <= p < a + live[a] % U16 ==> p < |freed.value.bits| && !freed.value.bits[p])
  {
    hide MmInv, IsLive, FindRec, SetRange, FreeRun, Wraps;
    var n := PagesFor(newLen);
    var b := FirstFit(s, n).value;
    MallocKeepsInv(s, newLen);
    MallocKeepsLive(s, newLen, live);
    ClaimKeepsOneLive(s, b, n, a, live[a]);
    ClaimKeepsRecord(s, b, n, a);
    FreeRunApart(s, b, n);
    FreeKeepsLive(Malloc(s, newLen).0, a, live[b := n]);
    assert live[b := n] - {a} == (live - {a})[b := n];
  }

  lemma MoveKeepsRecords(s: Mm, a: nat, newLen: u64, live: map<nat, nat>)
    requires MmInv(s) && LiveInv(s, live) && a in live && AllRecorded(s, live)
    requires FirstFit(s, PagesFor(newLen)).Some? && PagesFor(newLen) > 0
    ensures var n, b := PagesFor(newLen), FirstFit(s, PagesFor(newLen)).value;
            var freed := Free(Malloc(s, newLen).0, a);
            freed.Returned? && !Wraps(s.recs, b) ==> AllRecorded(freed.value, (live - {a})[b := n])
  {
    hide MmInv, IsLive, FindRec, SetRange, FreeRun, Wraps;
    var b := FirstFit(s, PagesFor(newLen)).value;
    MallocKeepsRecordsIff(s, newLen, live);
    MallocKeepsInv(s, newLen);
    StartsAreUnique(Malloc(s, newLen).0);
    if Recorded(Malloc(s, newLen).0, a) { FreeKeepsRecords(Malloc(s, newLen).0, a); }
  }

  lemma FreeRunApart(s: Mm, b: nat, n: nat)
    requires MmInv(s) && FreeRun(s, b, n)
    ensures 0 < b && Apart(b, n, s.table, s.tablePages)
  {
    RunApartFromTables(s, b, n);
  }

  /** krealloc of a live buffer that has to grow and finds room: the buffer moves with its contents, or kfree
      panics because the counter of records wrapped. */
  lemma KreallocMoves(m: Machine, a: nat, newLen: u64, live: map<nat, nat>)
    requires Wired(m, live) && a in live && a * 4096 < U64 && Recorded(m.mm, a)
    requires PagesFor(newLen) > live[a] % U16 && FirstFit(m.mm, PagesFor(newLen)).Some?
    ensures var n := PagesFor(newLen);
            var b := FirstFit(m.mm, n).value;
            var r := Krealloc(m, a * 4096, newLen);
            if Wraps(m.mm.recs, b) then r == Panicked
            else
              && r.Returned?
              && var (t, addr) := r.value;
                 && addr == b * 4096 && b != 0 && b !in live
                 && MmInv(t.mm) && LiveInv(t.mm, (live - {a})[b := n])
                 && (AllRecorded(m.mm, live) ==> AllRecorded(t.mm, (live - {a})[b := n]))
                 && PagesCopied(m.mem, t.mem, b, a, live[a] % U16)
                 && SamePages(m.mem, a, t.mem, b, live[a] % U16)
                 && forall p :: a <= p < a + live[a] % U16 ==> p < |t.mm.bits| && !t.mm.bits[p]
  {
    hide Krealloc, MmInv, FindRec, CopyForward, PagesFor, SetRange, FreeRun, AllRecorded, Wraps;
    var b, n, count := FirstFit(m.mm, PagesFor(newLen)).value, PagesFor(newLen), live[a] % U16;
    MoveKeepsLive(m.mm, a, newLen, live);
    if AllRecorded(m.mm, live) { MoveKeepsRecords(m.mm, a, newLen, live); }
    assert IsLive(m.mm, a, live[a]);
    KreallocUnfolds(m, a, newLen);
    FewerApart(b, n, count, m.mm.table, m.mm.tablePages);
    CopyForwardIs(m.mem, b * WORDS_PER_PAGE, a * WORDS_PER_PAGE, count * WORDS_PER_PAGE);
    if !Wraps(m.mm.recs, b) {
      PagesCopiedSame(m.mem, Krealloc(m, a * 4096, newLen).value.0.mem, b, a, count);
    }
  }

  /** Without room krealloc still copies and frees, as the result of kmalloc is not checked: the old pages are
      written over memory from address 0 on.  Where they do not end below the allocator's tables, those are lost.
      Else the buffer is gone and the caller gets NULL, unless the kernel's own code, stack or page tables were
      among what was overwritten; for other buffers see FailureKeepsBufferIff. */
  lemma KreallocFails(m: Machine, a: nat, newLen: u64, live: map<nat, nat>)
    requires Wired(m, live) && a in live && a * 4096 < U64 && Recorded(m.mm, a)
    requires PagesFor(newLen) > live[a] % U16 && FirstFit(m.mm, PagesFor(newLen)).None?
    ensures var r := Krealloc(m, a * 4096, newLen);
            if live[a] % U16 > m.mm.table then r == TablesLost
            else
              && r.Returned?
              && var (t, addr) := r.value;
                 && addr == 0
                 && MmInv(t.mm) && LiveInv(t.mm, live - {a})
                 && PagesCopied(m.mem, t.mem, 0, a, live[a] % U16)
  {
    hide MmInv, FindRec, CopyForward, Krealloc, FreeRun;
    assert IsLive(m.mm, a, live[a]);
    TablesAreSomewhere(m.mm);
    KreallocUnfolds(m, a, newLen);
    FreeKeepsLive(m.mm, a, live);
    CopyForwardIs(m.mem, 0, a * WORDS_PER_PAGE, live[a] % U16 * WORDS_PER_PAGE);
  }

  lemma TablesAreSomewhere(s: Mm)
    requires MmInv(s)
    ensures Sized(s)
    ensures s.limit < 0x8000_0000
    ensures 0 < s.table && 0 < s.tablePages && s.table + s.tablePages < s.limit
  {
  }

  /** The copy that loses the tables: their first word, which holds the bitmap of the first 64 pages, is a word
      of the buffer afterwards, and so is every further one the copy reaches. */
  lemma CopyOverTables(m: Machine, a: nat, newLen: u64, live: map<nat, nat>, k: nat)
    requires Wired(m, live) && a in live && a * 4096 < U64 && Recorded(m.mm, a)
    requires Krealloc(m, a * 4096, newLen) == TablesLost
    requires m.mm.table * WORDS_PER_PAGE + k < live[a] % U16 * WORDS_PER_PAGE
    ensures var n := live[a] % U16 * WORDS_PER_PAGE;
            && FirstFit(m.mm, PagesFor(newLen)).None? && n <= |m.mem| && a * WORDS_PER_PAGE + n <= |m.mem|
            && CopyForward(m.mem, 0, a * WORDS_PER_PAGE, n)[m.mm.table * WORDS_PER_PAGE + k] ==
               m.mem[(a + m.mm.table) * WORDS_PER_PAGE + k]
  {
    hide MmInv, FindRec, CopyForward, FreeRun, Krealloc;
    var n := live[a] % U16;
    assert IsLive(m.mm, a, live[a]);
    if PagesFor(newLen) <= n {
      KreallocStays(m, a, newLen, live);
    } else if FirstFit(m.mm, PagesFor(newLen)).Some? {
      KreallocMoves(m, a, newLen, live);
    } else {
      KreallocUnfolds(m, a, newLen);
      CopyForwardIs(m.mem, 0, a * WORDS_PER_PAGE, n * WORDS_PER_PAGE);
    }
  }

  /** A full machine of 4096 pages whose tables start at 1 MiB, and a buffer of 300 pages. */
  function FullMachine(mem: seq<u64>): Machine {
    Machine(Mm(4096, seq(4096, _ => true), [Record(2000, 300, true)], 256, 515), mem)
  }

  /** There the buffer cannot grow, and trying to loses the tables. */
  lemma TablesLostWitness(mem: seq<u64>, newLen: u64)
    requires |mem| == 4096 * WORDS_PER_PAGE && 300 < PagesFor(newLen)
    ensures var m, live := FullMachine(mem), map[2000 := 300];
            && Wired(m, live) && AllRecorded(m.mm, live)
            && Krealloc(m, 2000 * 4096, newLen) == TablesLost
  {
    hide Krealloc, FirstFit;
    var m, live := FullMachine(mem), map[2000 := 300];
    var r := Record(2000, 300, true);
    assert m.mm.recs[0] == r && RecordOk(r, m.mm.limit, m.mm.bits) && RecordApart(m.mm, r);
    assert IsLive(m.mm, 2000, 300);
    assert FirstFit(m.mm, PagesFor(newLen)).None?;
    KreallocFails(m, 2000, newLen, live);
  }

  /** A growing krealloc that moves a buffer changes no word of any live buffer. */
  lemma KreallocKeepsBuffers(m: Machine, a: nat, newLen: u64, live: map<nat, nat>, c: nat)
    requires Wired(m, live) && a in live && a * 4096 < U64 && c in live && Recorded(m.mm, a)
    requires PagesFor(newLen) > live[a] % U16 && FirstFit(m.mm, PagesFor(newLen)).Some?
    requires Krealloc(m, a * 4096, newLen).Returned?
    ensures SamePages(m.mem, c, Krealloc(m, a * 4096, newLen).value.0.mem, c, live[c])
  {
    hide Krealloc, MmInv, PagesFor, FindRec;
    KreallocMoves(m, a, newLen, live);
    assert IsLive(m.mm, c, live[c]);
    var n := PagesFor(newLen);
    assert live[a] % U16 < n;
    ClaimKeepsOneLive(m.mm, FirstFit(m.mm, n).value, n, c, live[c]);
  }

  /** A failed krealloc that spares the allocator's tables leaves another live buffer its contents exactly when
      each of its pages that the copy reached was equal to the page copied there.  So it does when the buffer
      lies behind the copy. */
  lemma FailureKeepsBufferIff(m: Machine, a: nat, newLen: u64, live: map<nat, nat>, c: nat)
    requires Wired(m, live) && a in live && a * 4096 < U64 && Recorded(m.mm, a) && c in live
    requires PagesFor(newLen) > live[a] % U16 && FirstFit(m.mm, PagesFor(newLen)).None? && live[a] % U16 <= m.mm.table
    ensures Krealloc(m, a * 4096, newLen).Returned?
    ensures var t := Krealloc(m, a * 4096, newLen).value.0;
            && (SamePages(m.mem, c, t.mem, c, live[c]) <==> CopyAgrees(m.mem, a, live[a] % U16, c, live[c]))
            && (live[a] % U16 <= c ==> SamePages(m.mem, c, t.mem, c, live[c]))
  {
    hide MmInv, Krealloc, FirstFit, PagesFor, Recorded;
    KreallocFails(m, a, newLen, live);
    assert IsLive(m.mm, c, live[c]);
    CopiedOver(m.mem, Krealloc(m, a * 4096, newLen).value.0.mem, a, live[a] % U16, c, live[c]);
  }

  /** The first `count` pages from a on agree with memory from address 0 on, as far as both are pages of c. */
  ghost predicate CopyAgrees(mem: seq<u64>, a: nat, count: nat, c: nat, n: nat) {
    forall k {:trigger mem[k]} :: c * WORDS_PER_PAGE <= k < (c + n) * WORDS_PER_PAGE && k < count * WORDS_PER_PAGE ==>
      k < |mem| && a * WORDS_PER_PAGE + k < |mem| && mem[k] == mem[a * WORDS_PER_PAGE + k]
  }

  lemma CopiedOver(before: seq<u64>, after: seq<u64>, a: nat, count: nat, c: nat, n: nat)
    requires PagesCopied(before, after, 0, a, count) && (c + n) * WORDS_PER_PAGE <= |before|
    ensures SamePages(before, c, after, c, n) <==> CopyAgrees(before, a, count, c, n)
    ensures count <= c ==> CopyAgrees(before, a, count, c, n)
  {
    var lo, hi := c * WORDS_PER_PAGE, (c + n) * WORDS_PER_PAGE;
    if SamePages(before, c, after, c, n) {
      forall k {:trigger before[k]} | lo <= k < hi && k < count * WORDS_PER_PAGE
        ensures k < |before| && a * WORDS_PER_PAGE + k < |before| && before[k] == before[a * WORDS_PER_PAGE + k]
      {
        assert before[lo..hi][k - lo] == after[lo..hi][k - lo];
        CopiedWord(before, after, a, count, k);
      }
    }
    if CopyAgrees(before, a, count, c, n) {
      forall k | lo <= k < hi ensures before[k] == after[k] {
        CopiedWord(before, after, a, count, k);
      }
    }
  }

  lemma CopiedWord(before: seq<u64>, after: seq<u64>, a: nat, count: nat, k: nat)
    requires PagesCopied(before, after, 0, a, count) && k < |before|
    ensures k < |after|
    ensures if k < count * WORDS_PER_PAGE
            then a * WORDS_PER_PAGE + k < |before| && after[k] == before[a * WORDS_PER_PAGE + k]
            else after[k] == before[k]
  {
    assert a * WORDS_PER_PAGE + (k - 0) == a * WORDS_PER_PAGE + k;
  }

  /** What a caller of krealloc relies on: the address returned is a live buffer of at least n pages, the only
      change to the set of live buffers, and it starts with the old contents, as many pages as it has. */
  ghost predicate Reallocated(m: Machine, a: nat, live: map<nat, nat>, t: Machine, addr: nat, n: nat) {
    && a in live
    && SamePages(m.mem, a, t.mem, addr / 4096, if addr / 4096 != a && n < live[a] then n else live[a])
    && exists after: map<nat, nat> :: LiveInv(t.mm, after) && Replaced(live, after, a, addr / 4096, n)
  }

  /** The buffer at a gave way to one at b of at least n pages. */
  ghost predicate Replaced(live: map<nat, nat>, after: map<nat, nat>, a: nat, b: nat, n: nat) {
    b in after && after[b] >= n && after - {b} == live - {a} - {b}
  }

  /** What a buffer has beyond the page count of its record, as far as n pages go, stands at page b already.  A
      buffer below 65536 pages has nothing there. */
  ghost predicate TailStands(mem: seq<u64>, a: nat, size: nat, b: nat, n: nat) {
    var kept := if n < size then n else size;
    kept > size % U16 ==> SamePages(mem, a + size % U16, mem, b + size % U16, kept - size % U16)
  }

  /** krealloc delivers that exactly when the buffer has a record and is already large enough for the page count
      in it, or a run of free pages exists, the counter of records does not wrap, and nothing is lost beyond that
      count.  It panics exactly when there is no record or the counter wraps, and loses the allocator's tables
      exactly when there is no room and the copy is longer than what lies below them; else the caller has lost
      the buffer or a part of it. */
  lemma KreallocSucceedsIff(m: Machine, a: nat, newLen: u64, live: map<nat, nat>)
    requires Wired(m, live) && a in live && a * 4096 < U64
    ensures var n, count := PagesFor(newLen), live[a] % U16;
            var f := FirstFit(m.mm, n);
            var r := Krealloc(m, a * 4096, newLen);
            && (r.Returned? && Reallocated(m, a, live, r.value.0, r.value.1, n) <==>
                && Recorded(m.mm, a)
                && (n <= count || (f.Some? && !Wraps(m.mm.recs, f.value) && TailStands(m.mem, a, live[a], f.value, n))))
            && (r == Panicked <==> !Recorded(m.mm, a) || (n > count && f.Some? && Wraps(m.mm.recs, f.value)))
            && (r == TablesLost <==> Recorded(m.mm, a) && n > count && f.None? && count > m.mm.table)
            && (live[a] < U16 && f.Some? ==> TailStands(m.mem, a, live[a], f.value, n))
  {
    hide Krealloc, Reallocated, MmInv, LiveInv, FindRec, Wraps, FreeRun, PagesFor;
    var n := PagesFor(newLen);
    if !Recorded(m.mm, a) {
      LiveStart(m, a, live);
      NoRecordPanics(m, a, newLen);
    } else if n <= live[a] % U16 {
      KreallocStays(m, a, newLen, live);
      StaysReallocated(m, a, live, n);
    } else if FirstFit(m.mm, n).Some? {
      ReallocatedIff(m, a, newLen, live);
    } else {
      LostWhenFull(m, a, newLen, live);
    }
  }

  lemma LiveStart(m: Machine, a: nat, live: map<nat, nat>)
    requires Wired(m, live) && a in live
    ensures 0 < a < m.mm.limit
  {
    assert IsLive(m.mm, a, live[a]);
  }

  lemma StaysReallocated(m: Machine, a: nat, live: map<nat, nat>, n: nat)
    requires Wired(m, live) && a in live && n <= live[a] % U16
    ensures Reallocated(m, a, live, m, a * 4096, n)
  {
    assert IsLive(m.mm, a, live[a]);
    assert Replaced(live, live, a, a, n);
  }

  lemma ReallocatedIff(m: Machine, a: nat, newLen: u64, live: map<nat, nat>)
    requires Wired(m, live) && a in live && a * 4096 < U64 && Recorded(m.mm, a)
    requires PagesFor(newLen) > live[a] % U16 && FirstFit(m.mm, PagesFor(newLen)).Some?
    ensures var r := Krealloc(m, a * 4096, newLen);
            var b := FirstFit(m.mm, PagesFor(newLen)).value;
            if Wraps(m.mm.recs, b) then r == Panicked
            else r.Returned? && (Reallocated(m, a, live, r.value.0, r.value.1, PagesFor(newLen)) <==>
                                 TailStands(m.mem, a, live[a], b, PagesFor(newLen)))
  {
    hide MmInv, LiveInv, Krealloc, FirstFit, PagesFor, Replaced, Wraps, Recorded, TailStands, SamePages, PagesCopied;
    KreallocMoves(m, a, newLen, live);
    var n := PagesFor(newLen);
    var b := FirstFit(m.mm, n).value;
    if !Wraps(m.mm.recs, b) {
      var t := Krealloc(m, a * 4096, newLen).value.0;
      ReplacedByUpdate(live, a, b, n);
      assert LiveInv(t.mm, (live - {a})[b := n]);
      MovedBounds(m, a, n, live);
      MovedIff(m.mem, t.mem, a, live[a], b, n);
    }
  }

  lemma MovedBounds(m: Machine, a: nat, n: nat, live: map<nat, nat>)
    requires Wired(m, live) && a in live && FirstFit(m.mm, n).Some? && n > 0
    ensures var b := FirstFit(m.mm, n).value;
            && b != a && (a + live[a]) * WORDS_PER_PAGE <= |m.mem| && (b + n) * WORDS_PER_PAGE <= |m.mem|
            && Apart(a, live[a], b, n)
  {
    hide MmInv;
    assert IsLive(m.mm, a, live[a]);
    var b := FirstFit(m.mm, n).value;
    ClaimKeepsOneLive(m.mm, b, n, a, live[a]);
    RunInBounds(m.mm, b, n);
  }

  lemma RunInBounds(s: Mm, b: nat, n: nat)
    requires MmInv(s) && FreeRun(s, b, n)
    ensures b + n < s.limit
  {
    RunEndsBeforeLimit(s, b, n);
  }

  /** The copy moves the counted pages; the rest is right exactly when it was there before. */
  lemma MovedIff(before: seq<u64>, after: seq<u64>, a: nat, size: nat, b: nat, n: nat)
    requires PagesCopied(before, after, b, a, size % U16) && size % U16 < n && b != a
    requires (a + size) * WORDS_PER_PAGE <= |before| && (b + n) * WORDS_PER_PAGE <= |before|
    ensures SamePages(before, a, after, b, if n < size then n else size) <==> TailStands(before, a, size, b, n)
  {
    hide Copied, SamePages;
    var kept, count := if n < size then n else size, size % U16;
    assert count <= size;
    CopiedHead(before, after, a, b, count);
    CopiedRest(before, after, a, b, count, kept - count);
    PagesSplit(before, a, after, b, count, kept - count);
  }

  lemma CopiedHead(before: seq<u64>, after: seq<u64>, a: nat, b: nat, count: nat)
    requires PagesCopied(before, after, b, a, count) && (b + count) * WORDS_PER_PAGE <= |before|
    ensures |after| == |before| && SamePages(before, a, after, b, count)
  {
    PagesCopiedSame(before, after, b, a, count);
  }

  /** Behind the copy memory is as it was. */
  lemma CopiedRest(before: seq<u64>, after: seq<u64>, a: nat, b: nat, count: nat, more: nat)
    requires PagesCopied(before, after, b, a, count)
    requires (a + count + more) * WORDS_PER_PAGE <= |before| && (b + count + more) * WORDS_PER_PAGE <= |before|
    ensures SamePages(before, a + count, after, b + count, more) <==>
            SamePages(before, a + count, before, b + count, more)
  {
    var y, z := (b + count) * WORDS_PER_PAGE, (b + count + more) * WORDS_PER_PAGE;
    assert before[y..z] == after[y..z];
  }

  lemma PagesSplit(mem1: seq<u64>, a: nat, mem2: seq<u64>, b: nat, n: nat, more: nat)
    requires (a + n + more) * WORDS_PER_PAGE <= |mem1| && (b + n + more) * WORDS_PER_PAGE <= |mem2|
    ensures SamePages(mem1, a, mem2, b, n + more) <==>
            SamePages(mem1, a, mem2, b, n) && SamePages(mem1, a + n, mem2, b + n, more)
  {
    var x, xm, xe := a * WORDS_PER_PAGE, (a + n) * WORDS_PER_PAGE, (a + n + more) * WORDS_PER_PAGE;
    var y, ym, ye := b * WORDS_PER_PAGE, (b + n) * WORDS_PER_PAGE, (b + n + more) * WORDS_PER_PAGE;
    SlicesSplit(mem1[x..xe], mem2[y..ye], n * WORDS_PER_PAGE);
    assert mem1[x..xe][..n * WORDS_PER_PAGE] == mem1[x..xm] && mem1[x..xe][n * WORDS_PER_PAGE..] == mem1[xm..xe];
    assert mem2[y..ye][..n * WORDS_PER_PAGE] == mem2[y..ym] && mem2[y..ye][n * WORDS_PER_PAGE..] == mem2[ym..ye];
  }

  lemma SlicesSplit<T>(s: seq<T>, t: seq<T>, k: nat)
    requires k <= |s| == |t|
    ensures s == t <==> s[..k] == t[..k] && s[k..] == t[k..]
  {
    assert s == s[..k] + s[k..] && t == t[..k] + t[k..];
  }

  lemma ReplacedByUpdate(live: map<nat, nat>, a: nat, b: nat, n: nat)
    ensures Replaced(live, (live - {a})[b := n], a, b, n)
  {
  }

  lemma LostWhenFull(m: Machine, a: nat, newLen: u64, live: map<nat, nat>)
    requires Wired(m, live) && a in live && a * 4096 < U64 && Recorded(m.mm, a)
    requires PagesFor(newLen) > live[a] % U16 && FirstFit(m.mm, PagesFor(newLen)).None?
    ensures var r := Krealloc(m, a * 4096, newLen);
            if live[a] % U16 > m.mm.table then r == TablesLost
            else r.Returned? && !Reallocated(m, a, live, r.value.0, r.value.1, PagesFor(newLen))
  {
    hide MmInv, IsLive, Krealloc, Copied, FindRec, LiveInv;
    KreallocFails(m, a, newLen, live);
    if live[a] % U16 <= m.mm.table {
      var t := Krealloc(m, a * 4096, newLen).value.0;
      forall after | LiveInv(t.mm, after) ensures 0 !in after {
        NoBufferAtZero(t.mm, after);
      }
    }
  }

  lemma KreallocStays(m: Machine, a: nat, newLen: u64, live: map<nat, nat>)
    requires Wired(m, live) && a in live && a * 4096 < U64 && Recorded(m.mm, a)
    requires PagesFor(newLen) <= live[a] % U16
    ensures Krealloc(m, a * 4096, newLen) == Returned((m, a * 4096))
    ensures (a + live[a]) * WORDS_PER_PAGE <= |m.mem|
  {
    assert IsLive(m.mm, a, live[a]);
  }

  lemma PagesCopiedSame(before: seq<u64>, after: seq<u64>, dst: nat, src: nat, n: nat)
    requires PagesCopied(before, after, dst, src, n) && (dst + n) * WORDS_PER_PAGE <= |before|
    ensures SamePages(before, src, after, dst, n)
  {
    var x := before[src * WORDS_PER_PAGE..(src + n) * WORDS_PER_PAGE];
    var y := after[dst * WORDS_PER_PAGE..(dst + n) * WORDS_PER_PAGE];
    forall i | 0 <= i < n * WORDS_PER_PAGE ensures x[i] == y[i] {
      assert after[dst * WORDS_PER_PAGE + i] == before[src * WORDS_PER_PAGE + i];
    }
  }

  lemma NoBufferAtZero(s: Mm, live: map<nat, nat>)
    requires LiveInv(s, live)
    ensures 0 !in live
  {
    forall a | a in live ensures a != 0 { assert IsLive(s, a, live[a]); }
  }

  /** kmalloc(0) changes no bit, so first fit answers as before. */
  lemma EmptyMalloc(m: Machine, n: nat)
    requires MmInv(m.mm) && FirstFit(m.mm, 0).Some?
    ensures var p := FirstFit(m.mm, 0).value;
            var (m0, buf) := Kmalloc(m, 0);
            && MmInv(m0.mm) && m0.mem == m.mem && m0.mm.limit == m.mm.limit && m0.mm.bits == m.mm.bits
            && buf == p * 4096 && 0 < p < m.mm.limit
            && FirstFit(m0.mm, n) == FirstFit(m.mm, n)
            && (Recorded(m0.mm, p) <==> !Wraps(m.mm.recs, p))
            && (Recorded(m0.mm, p) ==> m0.mm.recs[FindRec(m0.mm.recs, p)].pageCount == 0)
  {
    hide MmInv, FindRec, Claim, FreeRun, FirstFit, Wraps;
    var p := FirstFit(m.mm, 0).value;
    EmptyClaim(m.mm, p);
    SameBitsSameFit(m.mm, Claim(m.mm, p, 0), n);
  }

  lemma EmptyClaim(s: Mm, p: nat)
    requires MmInv(s) && FreeRun(s, p, 0)
    ensures var t := Claim(s, p, 0);
            && MmInv(t) && 0 < p < s.limit && t.limit == s.limit && t.bits == s.bits
            && (Recorded(t, p) <==> !Wraps(s.recs, p))
            && (Recorded(t, p) ==> t.recs[FindRec(t.recs, p)].pageCount == 0)
  {
    hide FindRec, TablesKept;
    RunEndsBeforeLimit(s, p, 0);
    ClaimKeepsInv(s, p, 0);
    AssignIs(s.recs, Record(p, 0, true));
    if !Wraps(s.recs, p) { FindRecUnique(Claim(s, p, 0).recs, FindRec(s.recs, p)); }
  }

  lemma SameBitsSameFit(s: Mm, t: Mm, n: nat)
    requires s.bits == t.bits && s.limit == t.limit
    ensures FirstFit(t, n) == FirstFit(s, n)
  {
    forall i: nat ensures FreeRun(s, i, n) <==> FreeRun(t, i, n) {}
    var f := FirstFit(s, n);
    if f.Some? {
      assert LeastFreeRun(t, f.value, n);
      FirstFitIs(t, n, f.value);
    }
  }

  lemma FreeForLess(s: Mm, k: nat, n: nat)
    ensures FreeRun(s, k, n) ==> FreeRun(s, k, 0)
  {
  }

  /** First fit for n pages finds the first free page again exactly when n pages are free from there on. */
  lemma FitsAtFirstIff(s: Mm, n: nat)
    requires Sized(s) && n > 0 && FirstFit(s, 0).Some?
    ensures var p := FirstFit(s, 0).value; FirstFit(s, n) == Some(p) <==> PagesFree(s, p, n)
  {
    var p := FirstFit(s, 0).value;
    if FirstFit(s, n) == Some(p) { RunEndsBeforeLimit(s, p, n); }
    if PagesFree(s, p, n) {
      forall k: nat | k < p ensures !FreeRun(s, k, n) {
        FreeForLess(s, k, n);
      }
      assert LeastFreeRun(s, p, n);
      FirstFitIs(s, n, p);
    }
  }

  /** A buffer from kmalloc(0) is a free page: growing it, unless one of the two kmallocs wraps the counter of
      records and so makes krealloc panic or there is no room, hands the same page back exactly when as many pages
      as it needs are free from there on, and then frees it, unless the 16-bit page count of its record is 0. */
  lemma KreallocOfEmptyIff(m: Machine, newLen: u64)
    requires MmInv(m.mm) && |m.mem| == m.mm.limit * WORDS_PER_PAGE
    requires FirstFit(m.mm, 0).Some? && 0 < PagesFor(newLen)
    ensures var p, n := FirstFit(m.mm, 0).value, PagesFor(newLen);
            var f := FirstFit(m.mm, n);
            var (m0, buf) := Kmalloc(m, 0);
            && MmInv(m0.mm) && |m0.mem| == m0.mm.limit * WORDS_PER_PAGE && 0 < buf < U64
            && var r := Krealloc(m0, buf, newLen);
               if Wraps(m.mm.recs, p) || (f.Some? && Wraps(m0.mm.recs, f.value)) then r == Panicked
               else r.Returned? && var (t, addr) := r.value;
                    if f.None? then addr == 0
                    else
                      && addr == f.value * 4096 != 0 && f.value < |t.mm.bits|
                      && (addr == buf <==> PagesFree(m.mm, p, n))
                      && (!t.mm.bits[f.value] <==> PagesFree(m.mm, p, n) && n % U16 != 0)
  {
    hide MmInv, Kmalloc, Krealloc, FindRec, FreeRun, FirstFit, PagesFree;
    EmptyMalloc(m, PagesFor(newLen));
    TablesAreSomewhere(m.mm);
    FitsAtFirstIff(m.mm, PagesFor(newLen));
    var m0 := Kmalloc(m, 0).0;
    var p := FirstFit(m.mm, 0).value;
    if Wraps(m.mm.recs, p) {
      NoRecordPanics(m0, p, newLen);
    } else if FirstFit(m.mm, PagesFor(newLen)).None? {
      EmptyBufferFails(m0, p, newLen);
    } else if FirstFit(m.mm, PagesFor(newLen)) == Some(p) {
      EmptyBufferComesBack(m0, p, newLen);
    } else {
      EmptyBufferMoves(m0, p, newLen);
    }
  }

  lemma NoRecordPanics(m: Machine, p: nat, newLen: u64)
    requires MmInv(m.mm) && |m.mem| == m.mm.limit * WORDS_PER_PAGE && 0 < p < m.mm.limit && !Recorded(m.mm, p)
    ensures Krealloc(m, p * 4096, newLen) == Panicked
  {
  }

  lemma EmptyBufferFails(m: Machine, p: nat, newLen: u64)
    requires MmInv(m.mm) && |m.mem| == m.mm.limit * WORDS_PER_PAGE && 0 < p < m.mm.limit
    requires Recorded(m.mm, p) && m.mm.recs[FindRec(m.mm.recs, p)].pageCount == 0
    requires FirstFit(m.mm, PagesFor(newLen)).None? && 0 < PagesFor(newLen)
    ensures var r := Krealloc(m, p * 4096, newLen); r.Returned? && r.value.1 == 0
  {
    hide Krealloc, FindRec, MmInv, CopyForward, PagesFor;
    TablesAreSomewhere(m.mm);
    KreallocUnfolds(m, p, newLen);
  }

  lemma EmptyBufferMoves(m: Machine, p: nat, newLen: u64)
    requires MmInv(m.mm) && |m.mem| == m.mm.limit * WORDS_PER_PAGE && 0 < p < m.mm.limit
    requires Recorded(m.mm, p) && m.mm.recs[FindRec(m.mm.recs, p)].pageCount == 0
    requires var f := FirstFit(m.mm, PagesFor(newLen)); f.Some? && f != Some(p)
    requires 0 < PagesFor(newLen)
    ensures var q := FirstFit(m.mm, PagesFor(newLen)).value;
            var r := Krealloc(m, p * 4096, newLen);
            if Wraps(m.mm.recs, q) then r == Panicked
            else r.Returned? && var (t, addr) := r.value;
                 addr == q * 4096 != 0 && q < |t.mm.bits| && t.mm.bits[q]
  {
    hide Krealloc, FindRec, MmInv, CopyForward, Apart, PagesFor;
    var n := PagesFor(newLen);
    var q := FirstFit(m.mm, n).value;
    TablesAreSomewhere(m.mm);
    KreallocUnfolds(m, p, newLen);
    FreeRunApart(m.mm, q, n);
    FewerApart(q, n, 0, m.mm.table, m.mm.tablePages);
    ClaimKeepsRecord(m.mm, q, n, p);
  }

  lemma EmptyBufferComesBack(m: Machine, p: nat, newLen: u64)
    requires MmInv(m.mm) && |m.mem| == m.mm.limit * WORDS_PER_PAGE && 0 < p < m.mm.limit
    requires Recorded(m.mm, p) && m.mm.recs[FindRec(m.mm.recs, p)].pageCount == 0
    requires 0 < PagesFor(newLen) && FirstFit(m.mm, PagesFor(newLen)) == Some(p)
    ensures var r := Krealloc(m, p * 4096, newLen);
            && !Wraps(m.mm.recs, p) && r.Returned?
            && var (t, addr) := r.value;
               addr == p * 4096 && p < |t.mm.bits| && (t.mm.bits[p] <==> PagesFor(newLen) % U16 == 0)
  {
    hide FindRec, MmInv, CopyForward, Apart, PagesFor, FirstFit;
    var n := PagesFor(newLen);
    GrowInBounds(m, p, newLen);
    FreeRunApart(m.mm, p, n);
    TablesAreSomewhere(m.mm);
    FewerApart(p, n, n % U16, m.mm.table, m.mm.tablePages);
    RecycledCount(m.mm, p, n);
  }

  /** kmalloc takes over the record of the page it finds. */
  lemma RecycledCount(s: Mm, p: nat, n: nat)
    requires MmInv(s) && FreeRun(s, p, n) && Recorded(s, p)
    ensures var t := Claim(s, p, n);
            var k := FindRec(s.recs, p);
            && FindRec(t.recs, p) == k < |t.recs| && t.recs[k].pageCount == n % U16 && CountAfter(s, t, k) == n % U16
  {
    hide FindRec, TablesKept;
    ClaimKeepsInv(s, p, n);
    AssignIs(s.recs, Record(p, n % U16, true));
    FindRecUnique(Claim(s, p, n).recs, FindRec(s.recs, p));
  }
}
