/** What the boot memory map says, and the allocator state mm_init has to build from it. */
module BootSpec {
  import opened Bits
  import opened Common
  import opened MmSpec
  import opened MmLaws

  datatype EntryType = Available | Occupied | Reserved  // free, used, reserved
  datatype PmmEntry = PmmEntry(kind: EntryType, start: u64, pages: u64)

  const TABLE_PAGES: nat := 3  // 1024 records of 11 bytes, in whole pages
  const LOW_PAGES: nat := 4096  // the lower 16 MiB

  function TotalPages(es: seq<PmmEntry>): nat {
    if es == [] then 0 else TotalPages(es[..|es| - 1]) + es[|es| - 1].pages
  }

  /** Size of the bitmap in bytes. */
  function BitmapBytes(es: seq<PmmEntry>): nat {
    (TotalPages(es) + 7) / 8
  }

  function NeededPages(es: seq<PmmEntry>): nat {
    TABLE_PAGES + BitmapBytes(es)
  }

  /** The first free entry with room for the tables. */
  predicate HoldsTables(es: seq<PmmEntry>, i: nat) {
    && i < |es| && es[i].kind == Available && es[i].pages >= NeededPages(es)
    && forall j :: 0 <= j < i ==> !(es[j].kind == Available && es[j].pages >= NeededPages(es))
  }

  ghost predicate InEntry(e: PmmEntry, p: nat) {
    e.start / 4096 <= p < e.start / 4096 + e.pages
  }

  ghost predicate IsFreeAtBoot(es: seq<PmmEntry>, p: nat) {
    exists i :: 0 <= i < |es| && es[i].kind == Available && InEntry(es[i], p)
  }

  /** One record per used entry, in order; the page count is cut to 16 bits. */
  function UsedRecords(es: seq<PmmEntry>): (recs: seq<Record>)
    ensures |recs| <= |es|
  {
    if es == [] then []
    else
      var e := es[|es| - 1];
      UsedRecords(es[..|es| - 1]) + if e.kind == Occupied then [Record(e.start / 4096, e.pages % U16, true)] else []
  }

  /** What the memory map must satisfy; the code checks none of it. */
  ghost predicate BootMap(es: seq<PmmEntry>) {
    var limit := 8 * BitmapBytes(es);
    && |es| <= 128
    && LOW_PAGES <= limit < 0x8000_0000
    && (forall i :: 0 <= i < |es| ==>
         es[i].start % 4096 == 0 && es[i].start / 4096 < limit && es[i].start / 4096 + es[i].pages <= limit)
    && (forall i, j :: 0 <= i < j < |es| ==>
         es[i].start != es[j].start && Apart(es[i].start / 4096, es[i].pages, es[j].start / 4096, es[j].pages))
    && !IsFreeAtBoot(es, limit - 1)
  }

  /** Page p is in use after mm_init, the tables starting at page `table`. */
  ghost predicate SetAtBoot(es: seq<PmmEntry>, table: nat, p: nat) {
    p < LOW_PAGES || table <= p < table + NeededPages(es) || !IsFreeAtBoot(es, p)
  }

  ghost predicate IsBootState(es: seq<PmmEntry>, table: nat, s: Mm) {
    && s.limit == 8 * BitmapBytes(es) <= |s.bits|
    && 0 < s.table == table && s.tablePages == NeededPages(es)
    && (forall p: nat :: p < s.limit ==> (s.bits[p] <==> SetAtBoot(es, table, p)))
    && s.recs == UsedRecords(es)
  }

  lemma {:induction false} UsedRecordsAre(es: seq<PmmEntry>)
    ensures forall k :: 0 <= k < |UsedRecords(es)| ==> FromEntry(es, UsedRecords(es)[k])
  {
    if es != [] {
      var front := es[..|es| - 1];
      UsedRecordsAre(front);
      forall k | 0 <= k < |UsedRecords(es)| ensures FromEntry(es, UsedRecords(es)[k]) {
        if k < |UsedRecords(front)| {
          var i :| 0 <= i < |front| && IsRecordOf(front[i], UsedRecords(front)[k]);
          assert IsRecordOf(es[i], UsedRecords(es)[k]);
        } else {
          assert IsRecordOf(es[|es| - 1], UsedRecords(es)[k]);
        }
      }
    }
  }

  ghost predicate IsRecordOf(e: PmmEntry, r: Record) {
    e.kind == Occupied && r == Record(e.start / 4096, e.pages % U16, true)
  }

  ghost predicate FromEntry(es: seq<PmmEntry>, r: Record) {
    exists i :: 0 <= i < |es| && IsRecordOf(es[i], r)
  }

  /** Distinct used entries give records with distinct starts and disjoint pages. */
  lemma {:induction false} UsedRecordsApart(es: seq<PmmEntry>)
    requires forall i :: 0 <= i < |es| ==> es[i].start % 4096 == 0
    requires forall i, j :: 0 <= i < j < |es| ==>
      es[i].start != es[j].start && Apart(es[i].start / 4096, es[i].pages, es[j].start / 4096, es[j].pages)
    ensures UniqueStarts(UsedRecords(es)) && Disjoint(UsedRecords(es))
  {
    hide Apart, RecordsApart, UniqueStarts, Disjoint;
    NoRecords();
    if es != [] {
      var last := |es| - 1;
      var front := es[..last];
      UsedRecordsApart(front);
      UsedRecordsAre(front);
      var r := Record(es[last].start / 4096, es[last].pages % U16, true);
      forall k | 0 <= k < |UsedRecords(front)|
        ensures UsedRecords(front)[k].pageStart != r.pageStart && RecordsApart(UsedRecords(front)[k], r)
      {
        var i :| 0 <= i < |front| && IsRecordOf(front[i], UsedRecords(front)[k]);
        assert front[i] == es[i];
        EntriesApart(es[i], es[last], UsedRecords(front)[k], r);
      }
      OneMoreApart(UsedRecords(front), r);
      assert UsedRecords(front) + [] == UsedRecords(front);
    }
  }

  lemma NoRecords()
    ensures UniqueStarts([]) && Disjoint([])
  {
  }

  lemma OneMoreApart(recs: seq<Record>, r: Record)
    requires UniqueStarts(recs) && Disjoint(recs)
    requires forall k :: 0 <= k < |recs| ==> recs[k].pageStart != r.pageStart && RecordsApart(recs[k], r)
    ensures UniqueStarts(recs + [r]) && Disjoint(recs + [r])
  {
    hide RecordsApart;
  }

  /** Records of entries that are apart, page counts cut to 16 bits. */
  lemma EntriesApart(e: PmmEntry, f: PmmEntry, r: Record, q: Record)
    requires e.start % 4096 == 0 && f.start % 4096 == 0 && e.start != f.start
    requires Apart(e.start / 4096, e.pages, f.start / 4096, f.pages)
    requires r == Record(e.start / 4096, e.pages % U16, true) && q == Record(f.start / 4096, f.pages % U16, true)
    ensures r.pageStart != q.pageStart && RecordsApart(r, q)
  {
  }

  /** mm_init establishes the allocator invariant. */
  lemma BootStateIsValid(es: seq<PmmEntry>, i: nat, s: Mm)
    requires BootMap(es) && HoldsTables(es, i) && IsBootState(es, es[i].start / 4096, s)
    ensures MmInv(s)
  {
    hide RecordOk, TablesKept;
    UsedRecordsAre(es);
    UsedRecordsApart(es);
    BootKeepsTables(es, i, s);
    forall k | 0 <= k < |s.recs| ensures RecordOk(s.recs[k], s.limit, s.bits) {
      var j :| 0 <= j < |es| && IsRecordOf(es[j], s.recs[k]);
      UsedPagesAreSet(es, i, s, j, s.recs[k]);
    }
  }

  /** No used entry meets the free entry the tables are in, which also does not hold the last page. */
  lemma BootKeepsTables(es: seq<PmmEntry>, i: nat, s: Mm)
    requires BootMap(es) && HoldsTables(es, i) && IsBootState(es, es[i].start / 4096, s)
    ensures TablesKept(s)
  {
    hide RecordOk, UniqueStarts, Disjoint, BootMap, UsedRecords, BitmapBytes, IsFreeAtBoot;
    UsedRecordsAre(es);
    forall k | 0 <= k < |s.recs| ensures RecordApart(s, s.recs[k]) {
      var j :| 0 <= j < |es| && IsRecordOf(es[j], s.recs[k]);
      MapEntriesApart(es, i, j);
    }
    EntryInMap(es, i);
    LastNotInFree(es, i);
    forall p: nat | s.table <= p < s.table + s.tablePages ensures p < |s.bits| && s.bits[p] {
      assert SetAtBoot(es, s.table, p);
    }
  }

  /** A page of a used entry belongs to no free one. */
  lemma UsedIsNotFree(es: seq<PmmEntry>, j: nat, p: nat)
    requires BootMap(es) && j < |es| && es[j].kind == Occupied && InEntry(es[j], p)
    ensures !IsFreeAtBoot(es, p) && p < 8 * BitmapBytes(es)
  {
    hide BitmapBytes;
    forall l | 0 <= l < |es| && es[l].kind == Available ensures !InEntry(es[l], p) {
      assert l != j;
    }
  }

  lemma UsedPagesAreSet(es: seq<PmmEntry>, i: nat, s: Mm, j: nat, r: Record)
    requires BootMap(es) && HoldsTables(es, i) && IsBootState(es, es[i].start / 4096, s)
    requires j < |es| && IsRecordOf(es[j], r)
    ensures RecordOk(r, s.limit, s.bits)
  {
    hide BootMap, IsFreeAtBoot, UsedRecords;
    EntryInMap(es, j);
    forall p: nat | r.pageStart <= p < r.pageStart + r.pageCount ensures p < |s.bits| && s.bits[p] {
      assert InEntry(es[j], p);
      UsedIsNotFree(es, j, p);
    }
  }

  lemma MapEntriesApart(es: seq<PmmEntry>, i: nat, j: nat)
    requires BootMap(es) && i < |es| && j < |es| && i != j
    ensures Apart(es[i].start / 4096, es[i].pages, es[j].start / 4096, es[j].pages)
  {
  }

  lemma LastNotInFree(es: seq<PmmEntry>, i: nat)
    requires BootMap(es) && i < |es| && es[i].kind == Available
    ensures es[i].pages > 0 ==> es[i].start / 4096 + es[i].pages < 8 * BitmapBytes(es)
  {
    hide BitmapBytes;
    assert !InEntry(es[i], 8 * BitmapBytes(es) - 1);
  }

  lemma EntryInMap(es: seq<PmmEntry>, j: nat)
    requires BootMap(es) && j < |es|
    ensures es[j].start / 4096 < 8 * BitmapBytes(es) && es[j].start / 4096 + es[j].pages <= 8 * BitmapBytes(es)
  {
  }

  /** The free pages are those of free entries at or above 16 MiB that are not among the pages of the tables: three
      for the records, and as many as the bitmap has bytes.  The tables lie inside one free entry, and bitmap and
      records fit in their pages. */
  lemma BootFreeSet(es: seq<PmmEntry>, i: nat, s: Mm)
    requires BootMap(es) && HoldsTables(es, i) && IsBootState(es, es[i].start / 4096, s)
    ensures var table := es[i].start / 4096;
            var needed := 3 + (TotalPages(es) + 7) / 8;
            && s.limit == 8 * ((TotalPages(es) + 7) / 8) && s.tablePages == needed
            && (forall p: nat :: p < s.limit && !s.bits[p] <==>
                 && (exists j :: 0 <= j < |es| && es[j].kind == Available &&
                      es[j].start / 4096 <= p < es[j].start / 4096 + es[j].pages)
                 && p * 4096 >= 16 * 1024 * 1024 && !(table <= p < table + needed))
            && (forall p: nat :: table <= p < table + needed ==> IsFreeAtBoot(es, p))
            && (TotalPages(es) + 7) / 8 + 11 * 1024 <= 4096 * needed
  {
    hide IsFreeAtBoot, UsedRecords, TotalPages, BootMap, InEntry;
    var table, needed := es[i].start / 4096, 3 + (TotalPages(es) + 7) / 8;
    forall p: nat
      ensures p < s.limit && !s.bits[p] <==>
              && (exists j :: 0 <= j < |es| && es[j].kind == Available &&
                   es[j].start / 4096 <= p < es[j].start / 4096 + es[j].pages)
              && p * 4096 >= 16 * 1024 * 1024 && !(table <= p < table + needed)
    {
      FreeEntries(es, p);
      if IsFreeAtBoot(es, p) { FreeIsInMap(es, p); }
    }
    forall p: nat | table <= p < table + needed ensures IsFreeAtBoot(es, p) {
      assert InEntry(es[i], p) by { InEntryIs(es[i], p); }
      FreeEntries(es, p);
    }
  }

  lemma InEntryIs(e: PmmEntry, p: nat)
    ensures InEntry(e, p) <==> e.start / 4096 <= p < e.start / 4096 + e.pages
  {
  }

  lemma FreeEntries(es: seq<PmmEntry>, p: nat)
    ensures IsFreeAtBoot(es, p) <==> exists j :: 0 <= j < |es| && es[j].kind == Available && InEntry(es[j], p)
    ensures IsFreeAtBoot(es, p) <==>
            exists j :: 0 <= j < |es| && es[j].kind == Available &&
              es[j].start / 4096 <= p < es[j].start / 4096 + es[j].pages
  {
  }

  lemma FreeIsInMap(es: seq<PmmEntry>, p: nat)
    requires BootMap(es) && IsFreeAtBoot(es, p)
    ensures p < 8 * BitmapBytes(es)
  {
    var j :| 0 <= j < |es| && es[j].kind == Available && InEntry(es[j], p);
    EntryInMap(es, j);
  }

  /** The records are those of the used entries, one for each. */
  lemma BootRecords(es: seq<PmmEntry>, i: nat, s: Mm)
    requires BootMap(es) && HoldsTables(es, i) && IsBootState(es, es[i].start / 4096, s)
    ensures UniqueStarts(s.recs)
    ensures forall r :: r in s.recs <==>
              exists j :: 0 <= j < |es| && es[j].kind == Occupied &&
                r == Record(es[j].start / 4096, es[j].pages % 0x1_0000, true)
  {
    hide UniqueStarts;
    UsedRecordsApart(es);
    UsedRecordsAre(es);
    AllUsedRecorded(es);
    forall r | r in s.recs
      ensures exists j :: 0 <= j < |es| && es[j].kind == Occupied &&
                r == Record(es[j].start / 4096, es[j].pages % 0x1_0000, true)
    {
      var k :| 0 <= k < |s.recs| && s.recs[k] == r;
      assert FromEntry(es, UsedRecords(es)[k]);
      var j :| 0 <= j < |es| && IsRecordOf(es[j], r);
    }
  }

  lemma {:induction false} AllUsedRecorded(es: seq<PmmEntry>)
    ensures forall j :: 0 <= j < |es| && es[j].kind == Occupied ==>
              Record(es[j].start / 4096, es[j].pages % U16, true) in UsedRecords(es)
  {
    if es != [] { AllUsedRecorded(es[..|es| - 1]); }
  }

  /** The bitmap reaches to the end of a memory map that starts at address 0 and has no holes, and less than one byte
      further. */
  lemma {:induction false} MapIsCovered(es: seq<PmmEntry>)
    requires es != [] && es[0].start == 0
    requires forall i :: 0 < i < |es| ==> es[i].start == es[i - 1].start + es[i - 1].pages * 4096
    ensures var last := es[|es| - 1];
            var end := last.start + last.pages * 4096;
            end == TotalPages(es) * 4096 <= BitmapBytes(es) * 8 * 4096 < end + 8 * 4096
  {
    if |es| > 1 {
      MapIsCovered(es[..|es| - 1]);
    } else {
      assert es[..0] == [];
    }
  }
}
