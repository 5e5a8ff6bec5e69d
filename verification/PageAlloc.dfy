/** The page allocator as mm.c and internal.c run it: a word-packed bitmap and a record table,
    updated in place, proved against MmSpec. */
module PageAlloc {
  import opened Bits
  import opened Common
  import opened MmSpec
  import opened MmLaws
  import opened BootSpec

  /** The bits of the bitmap words, bit p in word p / 32 at position p % 32. */
  ghost function BitsOf(words: seq<u32>): (r: seq<bool>)
    ensures |r| == 32 * |words|
    ensures forall p :: 0 <= p < |r| ==> r[p] == Bit(words[p / 32], p % 32)
  {
    seq(32 * |words|, p requires 0 <= p < 32 * |words| => Bit(words[p / 32], p % 32))
  }

  /** Bitmaps with the same bits are the same words. */
  lemma BitsDetermineWords(v: seq<u32>, w: seq<u32>)
    requires BitsOf(v) == BitsOf(w)
    ensures v == w
  {
    assert |BitsOf(v)| == |BitsOf(w)|;
    forall i | 0 <= i < |v| ensures v[i] == w[i] {
      Pow2Values();
      forall k: nat | k < 32 ensures Bit(v[i], k) == Bit(w[i], k) {
        var p := 32 * i + k;
        assert p / 32 == i && p % 32 == k;
        assert BitsOf(v)[p] == BitsOf(w)[p];
      }
      SameBitsSameWord(v[i], w[i], 32);
    }
  }

  /** `word | (1 << k)` and `word & ~(1 << k)`. */
  function WithBit(word: u32, k: nat): u32
    requires k < 32
  {
    MaskFits(k);
    Pow2Values();
    OrBound(word, Pow2(k), 32);
    Or(word, Pow2(k))
  }

  function WithoutBit(word: u32, k: nat): u32
    requires k < 32
  {
    MaskFits(k);
    Pow2Values();
    And(word, Not(Pow2(k), 32))
  }

  lemma {:induction false} MaskFits(k: nat)
    requires k < 32
    ensures Pow2(k) < Pow2(32)
  {
    Pow2Grows(k, 32);
  }

  lemma {:induction false} Pow2Grows(j: nat, k: nat)
    requires j < k
    ensures Pow2(j) < Pow2(k)
  {
    if j < k - 1 { Pow2Grows(j, k - 1); }
  }

  lemma WithBitIs(words: seq<u32>, p: nat, v: bool)
    requires p / 32 < |words|
    ensures var w := words[p / 32];
            BitsOf(words[p / 32 := if v then WithBit(w, p % 32) else WithoutBit(w, p % 32)]) == BitsOf(words)[p := v]
  {
    var w, k := words[p / 32], p % 32;
    var after := words[p / 32 := if v then WithBit(w, k) else WithoutBit(w, k)];
    forall q | 0 <= q < 32 * |words| ensures BitsOf(after)[q] == BitsOf(words)[p := v][q] {
      WordBits(w, k, q % 32);
    }
  }

  lemma WordBits(w: u32, k: nat, j: nat)
    requires k < 32 && j < 32
    ensures Bit(WithBit(w, k), j) <==> Bit(w, j) || j == k
    ensures Bit(WithoutBit(w, k), j) <==> Bit(w, j) && j != k
  {
    MaskFits(k);
    BitOfOr(w, Pow2(k), j);
    BitOfAnd(w, Not(Pow2(k), 32), j);
    BitOfNot(Pow2(k), 32, j);
    BitOfPow2(k, j);
  }

  class PageAllocator {
    var pages: array<u32>      // _mm_pages
    var pageCount: u64         // _mm_page_count: the bitmap's size in bytes
    var allocs: array<Record>  // _mm_allocs
    var allocCount: u16        // _mm_alloc_count
    var mem: array<u64>        // physical memory
    var table: nat             // the page _mm_pages points to; _mm_allocs follows behind the bitmap

    ghost predicate Shape()
      reads this, pages, allocs, mem
    {
      && pages as object != mem as object
      && pageCount <= 4 * pages.Length < pageCount + 4
      && 8 * pageCount < 0x8000_0000
      && allocCount <= allocs.Length
      && 8 * pageCount <= allocs.Length
      && pageCount + 11 * allocs.Length <= (3 + pageCount) * 4096
      && mem.Length == 8 * pageCount * WORDS_PER_PAGE
    }

    ghost function State(): Mm
      reads this, pages, allocs, mem
      requires Shape()
    {
      Mm(8 * pageCount, BitsOf(pages[..]), allocs[..allocCount], table, 3 + pageCount)
    }

    ghost function View(): Machine
      reads this, pages, allocs, mem
      requires Shape()
    {
      Machine(State(), mem[..])
    }

    ghost predicate Valid()
      reads this, pages, allocs, mem
    {
      Shape() && MmInv(State())
    }

    /** `_mm_get_page_bit` */
    predicate GetPageBit(page: nat)
      reads this, pages, allocs, mem
      requires Shape() && page < 32 * pages.Length
      ensures GetPageBit(page) == State().bits[page]
    {
      ShiftedBit(pages[page / 32], page % 32);
      And(Shr(pages[page / 32], page % 32), 1) == 1
    }

    /** `_mm_set_page_bit` */
    method SetPageBit(page: nat)
      requires Shape() && page < 32 * pages.Length
      modifies pages
      ensures Shape()
      ensures View() == old(View()).(mm := old(State()).(bits := old(State()).bits[page := true]))
    {
      WithBitIs(pages[..], page, true);
      ghost var before := pages[..];
      pages[page / 32] := WithBit(pages[page / 32], page % 32);
      assert pages[..] == before[page / 32 := WithBit(before[page / 32], page % 32)];
    }

    /** `_mm_clear_page_bit` */
    method ClearPageBit(page: nat)
      requires Shape() && page < 32 * pages.Length
      modifies pages
      ensures Shape()
      ensures View() == old(View()).(mm := old(State()).(bits := old(State()).bits[page := false]))
    {
      WithBitIs(pages[..], page, false);
      ghost var before := pages[..];
      pages[page / 32] := WithoutBit(pages[page / 32], page % 32);
      assert pages[..] == before[page / 32 := WithoutBit(before[page / 32], page % 32)];
    }

    /** The loops of kmalloc and kfree over the pages of one buffer. */
    method SetPageBits(page: nat, n: nat)
      requires Shape() && page + n <= 32 * pages.Length
      modifies pages
      ensures Shape()
      ensures View() == old(View()).(mm := old(State()).(bits := SetRange(old(State()).bits, page, n, true)))
    {
      var i := 0;
      while i < n
        invariant 0 <= i <= n && Shape()
        invariant View() == old(View()).(mm := old(State()).(bits := SetRange(old(State()).bits, page, i, true)))
      {
        SetPageBit(page + i);
        i := i + 1;
      }
    }

    method ClearPageBits(page: nat, n: nat)
      requires Shape() && page + n <= 32 * pages.Length
      modifies pages
      ensures Shape()
      ensures View() == old(View()).(mm := old(State()).(bits := SetRange(old(State()).bits, page, n, false)))
    {
      var i := 0;
      while i < n
        invariant 0 <= i <= n && Shape()
        invariant View() == old(View()).(mm := old(State()).(bits := SetRange(old(State()).bits, page, i, false)))
      {
        ClearPageBit(page + i);
        i := i + 1;
      }
    }

    /** `_mm_find_page`, with None for the -1 it returns. */
    method FindPage(len: nat) returns (r: Option<nat>)
      requires Shape() && Sized(State())
      ensures r == FirstFit(State(), len)
    {
      ghost var s := State();
      var i := 0;
      while i < pageCount * 8
        invariant 0 <= i <= s.limit
        invariant forall k: nat :: k < i ==> !FreeRun(s, k, len)
      {
        if !GetPageBit(i) {
          var isGood := true;
          var j := 1;
          while j < len
            invariant 1 <= j && (j <= len || j == 1)
            invariant i + j < s.limit
            invariant forall p: nat :: i < p < i + j ==> !s.bits[p]
            invariant isGood
          {
            if GetPageBit(i + j) {
              isGood := false;
              break;
            }
            assert i + j != s.limit - 1;
            j := j + 1;
          }
          if isGood {
            assert LeastFreeRun(s, i, len);
            FirstFitIs(s, len, i);
            return Some(i);
          }
        }
        i := i + 1;
      }
      return None;
    }

    /** `_mm_find_alloc`: the index of the record, or allocCount for NULL.  The argument is a uint32_t. */
    method FindAlloc(pageStart: u32) returns (k: nat)
      requires Shape()
      ensures k == FindRec(State().recs, pageStart)
    {
      ghost var recs := State().recs;
      k := 0;
      while k < allocCount
        invariant 0 <= k <= allocCount
        invariant forall i :: 0 <= i < k ==> recs[i].pageStart != pageStart
      {
        if allocs[k].pageStart == pageStart {
          return;
        }
        k := k + 1;
      }
    }

    /** kmalloc.  The 16-bit record counter can wrap, the records then staying where they are; table space is
        never the limit. */
    method Kmalloc(len: u64) returns (addr: u64)
      requires Valid()
      modifies this`allocCount, pages, allocs
      ensures Valid()
      ensures (View(), addr) == MmSpec.Kmalloc(old(View()), len)
      ensures allocCount < old(allocCount) ==> forall i :: 0 <= i < old(allocCount) ==> allocs[i] == old(allocs[i])
    {
      hide BitsOf, FreeRun, MmInv, Assign, SetRange;
      ghost var s := State();
      IsSized(s);
      var pagesNeeded := (len + 4095) % U64 / 4096;
      var found := FindPage(pagesNeeded);
      if found.None? {
        return 0;
      }
      var page := found.value;
      RunEndsBeforeLimit(s, page, pagesNeeded);
      ClaimKeepsInv(s, page, pagesNeeded);
      TakeRecord(page, pagesNeeded);
      SetPageBits(page, pagesNeeded);
      addr := page * 4096;
    }

    /** The middle of kmalloc: the record of that start page, or a new one. */
    method TakeRecord(page: nat, pagesNeeded: nat)
      requires Valid() && page < 8 * pageCount
      modifies this`allocCount, allocs
      ensures Shape()
      ensures View() == old(View()).(mm := old(State()).(recs :=
                Assign(old(State()).recs, MmSpec.Record(page, pagesNeeded % U16, true))))
      ensures allocCount < old(allocCount) ==> forall i :: 0 <= i < old(allocCount) ==> allocs[i] == old(allocs[i])
    {
      hide BitsOf, MmInv, Assign, FindRec;
      ghost var s := State();
      ghost var r := MmSpec.Record(page, pagesNeeded % U16, true);
      var alloc := FindAlloc(page);
      AssignIs(s.recs, r);
      if alloc == allocCount {
        NewRecordFits(s, page);
        allocCount := (allocCount + 1) % U16;
        allocs[alloc] := allocs[alloc].(pageStart := page);
      }
      allocs[alloc] := allocs[alloc].(pageCount := pagesNeeded % U16, used := true);
      assert allocs[..allocCount] == Assign(s.recs, r);
    }

    /** kfree; `ok` is false when it ends in panic. */
    method Kfree(buf: u64) returns (ok: bool)
      requires Valid() && buf / 4096 < 0x1_0000_0000
      modifies pages, allocs
      ensures Shape()
      ensures ok <==> Free(old(State()), buf / 4096).Returned?
      ensures View() == if ok then old(View()).(mm := Free(old(State()), buf / 4096).value) else old(View())
    {
      ghost var s := State();
      var page := buf / 4096;
      var alloc := FindAlloc(page);
      if alloc == allocCount {
        return false;
      }
      assert RecordOk(s.recs[alloc], s.limit, s.bits);
      allocs[alloc] := allocs[alloc].(used := false);
      assert allocs[..allocCount] == s.recs[alloc := s.recs[alloc].(used := false)];
      ClearPageBits(page, allocs[alloc].pageCount);
      ok := true;
    }

    /** `rep movsb` over whole words. */
    method Memcpy(dst: nat, src: nat, n: nat)
      requires Shape() && dst + n <= mem.Length && src + n <= mem.Length
      modifies mem
      ensures Shape()
      ensures View() == old(View()).(mem := CopyForward(old(mem[..]), dst, src, n))
    {
      var i := 0;
      while i < n
        invariant 0 <= i <= n && Shape()
        invariant View() == old(View()).(mem := CopyForward(old(mem[..]), dst, src, i))
      {
        mem[dst + i] := mem[src + i];
        i := i + 1;
      }
    }

    /** krealloc, statement for statement; the result of kmalloc is not checked.  Where the copy goes over the
        tables, nothing is said of them, and the method stops there. */
    method Krealloc(buf: u64, newLen: u64) returns (r: Outcome<u64>)
      requires Valid()
      requires buf % 4096 == 0 && buf / 4096 < 0x1_0000_0000
      modifies this`allocCount, pages, allocs, mem
      ensures Shape()
      ensures match MmSpec.Krealloc(old(View()), buf, newLen)
              case Returned((m, addr)) => r == Returned(addr) && View() == m
              case Panicked => r == Panicked
              case TablesLost => r == TablesLost
    {
      hide CopyForward, MmInv, FindRec, Free, MmSpec.Kmalloc, BitsOf, FreeRun, SetRange, Assign;
      ghost var m := View();
      if buf == 0 {
        var newBuf := Kmalloc(newLen);
        return Returned(newBuf);
      }
      var page := buf / 4096;
      var alloc := FindAlloc(page);
      if alloc == allocCount {
        return Panicked;
      }
      var pagesNeeded := (newLen + 4095) % U64 / 4096;
      if pagesNeeded <= allocs[alloc].pageCount {
        return Returned(buf);
      }
      KreallocGrows(m, buf, newLen);
      var newBuf := Kmalloc(newLen);
      var count := allocs[alloc].pageCount;
      assert count == CountAfter(m.mm, State(), alloc);
      Memcpy(newBuf / 8, buf / 8, count * WORDS_PER_PAGE);
      if newBuf / 4096 < table + (3 + pageCount) && table < newBuf / 4096 + count {
        return TablesLost;
      }
      var ok := Kfree(buf);
      r := if ok then Returned(newBuf) else Panicked;
    }

    /** `_mm_add_alloc` */
    method AddAlloc(e: PmmEntry)
      requires Shape() && allocCount < allocs.Length && allocCount < 0xffff
      modifies this`allocCount, allocs
      ensures Shape()
      ensures View() == old(View()).(mm := old(State()).(recs := old(State()).recs +
                [Record(e.start / 4096, e.pages % U16, e.kind != Available)]))
    {
      allocs[allocCount] := Record(e.start / 4096, e.pages % U16, e.kind != Available);
      allocCount := allocCount + 1;
      assert allocs[..allocCount] == old(allocs[..allocCount]) + [allocs[allocCount - 1]];
    }

    /** The loop of mm_init that sizes the bitmap. */
    method SizeBitmap(es: seq<PmmEntry>)
      requires BootMap(es) && pageCount == 0
      modifies this`pageCount
      ensures pageCount == BitmapBytes(es)
    {
      hide BootMap;
      TotalIsBounded(es);
      var i := 0;
      while i < |es|
        invariant 0 <= i <= |es|
        invariant pageCount == TotalPages(es[..i]) <= TotalPages(es)
      {
        assert es[..i + 1][..i] == es[..i];
        TotalGrows(es, i + 1);
        pageCount := pageCount + es[i].pages;
        i := i + 1;
      }
      assert es[..|es|] == es;
      pageCount := (pageCount + 7) / 8;
    }

    /** The loop of mm_init that looks for space; |es| when there is none. */
    method FindSpace(es: seq<PmmEntry>, totalNeeded: nat) returns (i: nat)
      requires totalNeeded == NeededPages(es)
      ensures i <= |es|
      ensures i < |es| ==> HoldsTables(es, i)
      ensures i == |es| ==> forall j: nat :: !HoldsTables(es, j)
    {
      i := 0;
      while i < |es| && !(es[i].pages >= totalNeeded && es[i].kind == Available)
        invariant 0 <= i <= |es|
        invariant forall j :: 0 <= j < i ==> !(es[j].kind == Available && es[j].pages >= NeededPages(es))
      {
        i := i + 1;
      }
    }

    /** The loop of mm_init that reads the memory map into the tables. */
    method ReadMap(es: seq<PmmEntry>)
      requires BootMap(es) && Shape() && allocCount == 0 && pageCount == BitmapBytes(es) && 128 <= allocs.Length
      requires forall p :: 0 <= p < State().limit ==> State().bits[p]
      modifies this`allocCount, pages, allocs
      ensures Shape()
      ensures State().recs == UsedRecords(es)
      ensures forall p: nat :: p < State().limit ==> (State().bits[p] <==> !IsFreeAtBoot(es, p))
    {
      hide IsFreeAtBoot, UsedRecords, MmInv, BitsOf;
      NothingRead(es);
      var i := 0;
      while i < |es|
        invariant 0 <= i <= |es|
        invariant Shape() && allocCount <= i
        invariant State().recs == UsedRecords(es[..i])
        invariant forall p: nat :: p < State().limit ==> (State().bits[p] <==> !IsFreeAtBoot(es[..i], p))
      {
        ghost var before := State();
        if es[i].kind == Available {
          ClearPageBits(es[i].start / 4096, es[i].pages);
        }
        if es[i].kind == Occupied {
          AddAlloc(es[i]);
        }
        ExtendBoot(es, i, before, State());
        i := i + 1;
      }
      assert es[..|es|] == es;
    }

    /** mm_init; `ok` is false when its assertion panics.  An entry at address 0 looks like no space. */
    method MmInit(es: seq<PmmEntry>) returns (ok: bool)
      requires BootMap(es)
      requires pageCount == 0 && allocCount == 0
      requires mem.Length == 8 * BitmapBytes(es) * WORDS_PER_PAGE
      modifies this
      ensures ok <==> exists i: nat :: HoldsTables(es, i) && es[i].start != 0
      ensures mem == old(mem)
      ensures ok ==> fresh(pages) && fresh(allocs) && Valid()
      ensures ok ==> exists i: nat :: HoldsTables(es, i) && IsBootState(es, es[i].start / 4096, State())
      ensures ok ==> exists i: nat :: HoldsTables(es, i) && forall p: nat :: p < State().limit ==>
                       (!State().bits[p] <==>
                         && (exists j :: 0 <= j < |es| && es[j].kind == Available &&
                              es[j].start / 4096 <= p < es[j].start / 4096 + es[j].pages)
                         && p * 4096 >= 16 * 1024 * 1024
                         && !(es[i].start / 4096 <= p < es[i].start / 4096 + 3 + (TotalPages(es) + 7) / 8))
    {
      hide MmInv, UsedRecords, IsFreeAtBoot, BitsOf, BootMap, IsBootState, InEntry, TotalPages;
      SizeBitmap(es);
      var totalNeeded := (11 * 1024 + 4095) / 4096 + pageCount;
      var table := FindSpace(es, totalNeeded);
      if table == |es| || es[table].start == 0 {
        return false;
      }
      FillTables(es, table, totalNeeded);
      BootStateIsValid(es, table, State());
      BootFreeSet(es, table, State());
      ok := true;
    }

    /** A bitmap of ones and an empty record table, of the sizes mm_init reserves. */
    method NewTables(page: nat)
      requires LOW_PAGES <= 8 * pageCount < 0x8000_0000 && allocCount == 0
      requires mem.Length == 8 * pageCount * WORDS_PER_PAGE
      modifies this`table, this`pages, this`allocs
      ensures table == page && fresh(pages) && fresh(allocs) && 128 <= allocs.Length
      ensures Shape() && State().recs == [] && forall p :: 0 <= p < State().limit ==> State().bits[p]
    {
      hide BitsOf;
      table := page;
      pages := new u32[(pageCount + 3) / 4](_ => 0xffff_ffff);
      allocs := new Record[((3 + pageCount) * 4096 - pageCount) / 11](_ => Record(0, 0, false));
      AllOnes(pages[..]);
    }

    /** The rest of mm_init, once entry i is to hold the tables. */
    method FillTables(es: seq<PmmEntry>, i: nat, totalNeeded: nat)
      requires BootMap(es) && HoldsTables(es, i) && es[i].start != 0 && totalNeeded == NeededPages(es)
      requires pageCount == BitmapBytes(es) && allocCount == 0
      requires mem.Length == 8 * BitmapBytes(es) * WORDS_PER_PAGE
      modifies this
      ensures mem == old(mem) && fresh(pages) && fresh(allocs)
      ensures Shape() && IsBootState(es, es[i].start / 4096, State())
    {
      hide MmInv, UsedRecords, IsFreeAtBoot, BitsOf, IsBootState, BootMap;
      BootFits(es, i);
      NewTables(es[i].start / 4096);
      ReadMap(es);
      ghost var read := State();
      SetPageBits(0, 16 * 1024 * 1024 / 4096);
      SetPageBits(es[i].start / 4096, totalNeeded);
      BootReached(es, i, read);
    }
  }

  /** The lower 16 MiB and the tables set, after the memory map is read. */
  lemma BootReached(es: seq<PmmEntry>, i: nat, s: Mm)
    requires BootMap(es) && HoldsTables(es, i) && es[i].start != 0
    requires s.limit == 8 * BitmapBytes(es) <= |s.bits| && s.recs == UsedRecords(es)
    requires s.table == es[i].start / 4096 && s.tablePages == NeededPages(es)
    requires forall p: nat :: p < s.limit ==> (s.bits[p] <==> !IsFreeAtBoot(es, p))
    ensures var low := SetRange(s.bits, 0, LOW_PAGES, true);
            IsBootState(es, s.table, s.(bits := SetRange(low, s.table, NeededPages(es), true)))
  {
    hide UsedRecords, IsFreeAtBoot;
  }

  lemma BootFits(es: seq<PmmEntry>, i: nat)
    requires BootMap(es) && HoldsTables(es, i)
    ensures es[i].start / 4096 + NeededPages(es) <= 8 * BitmapBytes(es)
    ensures LOW_PAGES <= 8 * BitmapBytes(es) < 0x8000_0000 && |es| <= 128
  {
  }

  lemma NothingRead(es: seq<PmmEntry>)
    ensures UsedRecords(es[..0]) == [] && forall p: nat :: !IsFreeAtBoot(es[..0], p)
  {
  }

  lemma IsSized(s: Mm)
    requires MmInv(s)
    ensures Sized(s)
  {
  }

  lemma AllOnes(words: seq<u32>)
    requires forall i :: 0 <= i < |words| ==> words[i] == 0xffff_ffff
    ensures forall p :: 0 <= p < 32 * |words| ==> BitsOf(words)[p]
  {
    forall p | 0 <= p < 32 * |words| ensures BitsOf(words)[p] {
      Pow2Values();
      BitOfNot(0, 32, p % 32);
      ZeroHasNoBits(p % 32);
    }
  }

  lemma {:induction false} TotalGrows(es: seq<PmmEntry>, i: nat)
    requires i <= |es|
    ensures TotalPages(es[..i]) <= TotalPages(es)
  {
    if i < |es| {
      var front := es[..|es| - 1];
      assert front[..i] == es[..i];
      TotalGrows(front, i);
    } else {
      assert es[..i] == es;
    }
  }

  lemma TotalIsBounded(es: seq<PmmEntry>)
    requires BootMap(es)
    ensures TotalPages(es) < 0x8000_0000
  {
  }

  /** One more boot entry: its pages turn free if it is free, its record is added if it is used. */
  lemma ExtendBoot(es: seq<PmmEntry>, i: nat, before: Mm, after: Mm)
    requires i < |es| && after.limit == before.limit <= |before.bits|
    requires before.recs == UsedRecords(es[..i])
    requires forall p: nat :: p < before.limit ==> (before.bits[p] <==> !IsFreeAtBoot(es[..i], p))
    requires after.bits == if es[i].kind == Available then SetRange(before.bits, es[i].start / 4096, es[i].pages, false)
                           else before.bits
    requires after.recs == before.recs +
               if es[i].kind == Occupied then [Record(es[i].start / 4096, es[i].pages % U16, true)] else []
    ensures after.recs == UsedRecords(es[..i + 1])
    ensures forall p: nat :: p < after.limit ==> (after.bits[p] <==> !IsFreeAtBoot(es[..i + 1], p))
  {
    var front, more := es[..i], es[..i + 1];
    assert more[..i] == front;
    forall p: nat
      ensures IsFreeAtBoot(more, p) <==> IsFreeAtBoot(front, p) || (es[i].kind == Available && InEntry(es[i], p))
    {
      if j :| 0 <= j < |front| && front[j].kind == Available && InEntry(front[j], p) { assert more[j] == front[j]; }
      if j :| 0 <= j < |more| && more[j].kind == Available && InEntry(more[j], p) {
        assert j < i ==> front[j] == more[j];
      }
      if es[i].kind == Available && InEntry(es[i], p) { assert more[i] == es[i]; }
    }
  }
}
