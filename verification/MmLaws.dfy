/** Laws of the allocator: the invariant every call keeps, what is conserved, when a buffer
    is safe from every later call, and where the calls do not do what their names promise. */
module MmLaws {
  import opened Bits
  import opened Common
  import opened MmSpec

  // ---------------------------------------------------------------- the record table

  lemma FindRecUnique(recs: seq<Record>, i: nat)
    requires UniqueStarts(recs) && i < |recs|
    ensures FindRec(recs, recs[i].pageStart) == i
  {
  }

  /** What `_mm_find_alloc` plus the append in kmalloc does to the table. */
  lemma AssignIs(recs: seq<Record>, r: Record)
    ensures var out := Assign(recs, r);
            var k := FindRec(recs, r.pageStart);
            if Wraps(recs, r.pageStart) then out == []
            else
              && k < |out| && out[k] == r && |recs| <= |out| && (|out| > |recs| <==> k == |recs|)
              && forall i :: 0 <= i < |recs| && i != k ==> out[i] == recs[i]
  {
  }

  /** The record kmalloc recycles never stands for pages in use: it is unused or has no pages. */
  lemma RecycledIsDead(s: Mm, page: nat)
    requires MmInv(s) && page < |s.bits| && !s.bits[page]
    ensures var k := FindRec(s.recs, page);
            k < |s.recs| ==> !s.recs[k].used || s.recs[k].pageCount == 0
  {
    var k := FindRec(s.recs, page);
    assert k < |s.recs| ==> RecordOk(s.recs[k], s.limit, s.bits);
  }

  lemma RunIsApart(s: Mm, page: nat, n: nat, m: nat, r: Record)
    requires Sized(s) && FreeRun(s, page, n) && m <= n && RecordOk(r, s.limit, s.bits)
    ensures RecordsApart(r, Record(page, m, true)) && RecordsApart(Record(page, m, true), r)
    ensures RecordOk(r, s.limit, SetRange(s.bits, page, n, true))
  {
    if Holds(r) && m > 0 {
      var p := if r.pageStart < page then page else r.pageStart;
      if page <= p < page + m { assert !s.bits[p]; }
    }
  }

  /** A free run does not meet the tables, as they are in use. */
  lemma RunApartFromTables(s: Mm, page: nat, n: nat)
    requires TablesKept(s) && FreeRun(s, page, n)
    ensures Apart(page, n, s.table, s.tablePages)
  {
    var p := if s.table < page then page else s.table;
    if s.table <= p < s.table + s.tablePages { assert s.bits[p]; }
    if page <= p < page + n { assert !s.bits[p]; }
  }

  lemma ClaimKeepsTables(s: Mm, page: nat, n: nat)
    requires TablesKept(s) && FreeRun(s, page, n)
    ensures TablesKept(Claim(s, page, n))
  {
    hide Apart;
    var r := Record(page, n % U16, true);
    AssignIs(s.recs, r);
    RunApartFromTables(s, page, n);
    assert RecordApart(s, r) by { FewerApart(page, n, n % U16, s.table, s.tablePages); }
  }

  lemma FewerApart(a: nat, n: nat, m: nat, b: nat, k: nat)
    requires m <= n && Apart(a, n, b, k)
    ensures Apart(a, m, b, k)
  {
  }

  lemma ClaimKeepsInv(s: Mm, page: nat, n: nat)
    requires MmInv(s) && FreeRun(s, page, n)
    ensures MmInv(Claim(s, page, n))
  {
    hide TablesKept;
    RunEndsBeforeLimit(s, page, n);
    ClaimKeepsTables(s, page, n);
    RecycledIsDead(s, page);
    var r := Record(page, n % U16, true);
    AssignIs(s.recs, r);
    assert n % U16 <= n;
    var t := Claim(s, page, n);
    forall i | 0 <= i < |s.recs|
      ensures RecordsApart(s.recs[i], r) && RecordsApart(r, s.recs[i]) && RecordOk(s.recs[i], t.limit, t.bits)
    {
      RunIsApart(s, page, n, n % U16, s.recs[i]);
    }
    assert RecordOk(r, t.limit, t.bits);
  }

  lemma MallocKeepsInv(s: Mm, len: u64)
    requires MmInv(s)
    ensures MmInv(Malloc(s, len).0)
  {
    var f := FirstFit(s, PagesFor(len));
    if f.Some? { ClaimKeepsInv(s, f.value, PagesFor(len)); }
  }

  /** kfree never frees the tables. */
  lemma FreeKeepsTables(s: Mm, page: nat)
    requires Sized(s) && TablesKept(s) && Free(s, page).Returned?
    ensures TablesKept(Free(s, page).value)
  {
    hide FindRec;
    var t := Free(s, page).value;
    var r := s.recs[FindRec(s.recs, page)];
    assert RecordApart(s, r) && r.pageStart == page;
    forall i | 0 <= i < |t.recs| ensures RecordApart(t, t.recs[i]) { assert RecordApart(s, s.recs[i]); }
    forall p: nat | s.table <= p < s.table + s.tablePages ensures p < |t.bits| && t.bits[p] {
      assert s.bits[p];
    }
  }

  /** Freeing the record at `page` does not disturb any record that is in use. */
  ghost predicate FreeIsClean(s: Mm, page: nat) {
    var k := FindRec(s.recs, page);
    k < |s.recs| && !s.recs[k].used ==>
      forall i :: 0 <= i < |s.recs| ==> RecordsApart(s.recs[k].(used := true), s.recs[i]) || i == k
  }

  lemma FreeKeepsInv(s: Mm, page: nat)
    requires MmInv(s) && Free(s, page).Returned? && FreeIsClean(s, page)
    requires var n := s.recs[FindRec(s.recs, page)].pageCount; n > 0 ==> 0 < page && page + n < s.limit
    ensures MmInv(Free(s, page).value)
  {
    hide TablesKept, FindRec;
    var k := FindRec(s.recs, page);
    var n := s.recs[k].pageCount;
    var t := Free(s, page).value;
    FreeKeepsTables(s, page);
    forall i | 0 <= i < |t.recs| ensures RecordOk(t.recs[i], t.limit, t.bits) {
      assert RecordOk(s.recs[i], s.limit, s.bits);
      if i != k && Holds(s.recs[i]) && n > 0 {
        assert RecordsApart(s.recs[k].(used := true), s.recs[i]) by {
          assert s.recs[k].used ==> s.recs[k].(used := true) == s.recs[k];
        }
      }
    }
  }

  /** kfree keeps the allocator's invariant exactly when the record is in use or no record in use counts one of
      its old pages, and page 0 and the last page are spared; the code checks none of it.  What other buffers keep
      is FreeKeepsOthersIff. */
  lemma FreeKeepsInvIff(s: Mm, page: nat)
    requires MmInv(s) && Free(s, page).Returned?
    ensures MmInv(Free(s, page).value) <==>
            && FreeIsClean(s, page)
            && var n := s.recs[FindRec(s.recs, page)].pageCount;
               n > 0 ==> 0 < page && page + n < s.limit
  {
    var k := FindRec(s.recs, page);
    var n := s.recs[k].pageCount;
    var t := Free(s, page).value;
    if !FreeIsClean(s, page) {
      var i :| 0 <= i < |s.recs| && !RecordsApart(s.recs[k].(used := true), s.recs[i]) && i != k;
      var p := if s.recs[i].pageStart < page then page else s.recs[i].pageStart;
      assert !t.bits[p] && t.recs[i] == s.recs[i];
      assert !RecordOk(t.recs[i], t.limit, t.bits);
    } else if n > 0 && (page == 0 || page + n >= s.limit) {
      assert !t.bits[0] || !t.bits[s.limit - 1];
    } else {
      FreeKeepsInv(s, page);
    }
  }

  // ---------------------------------------------------------------- conservation

  ghost function SetPages(s: Mm): set<nat> {
    set p: nat | p < |s.bits| && s.bits[p]
  }

  ghost predicate Covers(r: Record, p: nat) {
    r.used && r.pageStart <= p < r.pageStart + r.pageCount
  }

  /** The pages that records in use stand for, and how many the records count. */
  ghost function Owned(recs: seq<Record>): set<nat> {
    if recs == [] then {}
    else
      var r := recs[|recs| - 1];
      Owned(recs[..|recs| - 1]) + if r.used then Span(r.pageStart, r.pageCount) else {}
  }

  function CountOwned(recs: seq<Record>): nat {
    if recs == [] then 0
    else CountOwned(recs[..|recs| - 1]) + if recs[|recs| - 1].used then recs[|recs| - 1].pageCount else 0
  }

  lemma {:induction false} OwnedIsCovered(recs: seq<Record>, p: nat)
    ensures p in Owned(recs) <==> exists i :: 0 <= i < |recs| && Covers(recs[i], p)
  {
    if recs != [] {
      var last := |recs| - 1;
      OwnedIsCovered(recs[..last], p);
      if i :| 0 <= i < |recs| && Covers(recs[i], p) {
        assert i < last ==> recs[..last][i] == recs[i];
      }
    }
  }

  lemma {:induction false} OwnedSize(recs: seq<Record>)
    requires Disjoint(recs)
    ensures |Owned(recs)| == CountOwned(recs)
  {
    if recs != [] {
      var last := |recs| - 1;
      var r := recs[last];
      OwnedSize(recs[..last]);
      SpanSize(r.pageStart, r.pageCount);
      forall p | p in Owned(recs[..last]) && r.used ensures p !in Span(r.pageStart, r.pageCount) {
        OwnedIsCovered(recs[..last], p);
        var i :| 0 <= i < last && Covers(recs[..last][i], p);
        assert RecordsApart(recs[i], r);
      }
    }
  }

  lemma OwnedIsSet(s: Mm, p: nat)
    requires MmInv(s) && p in Owned(s.recs)
    ensures p < |s.bits| && s.bits[p]
  {
    OwnedIsCovered(s.recs, p);
    var i :| 0 <= i < |s.recs| && Covers(s.recs[i], p);
    assert RecordOk(s.recs[i], s.limit, s.bits);
  }

  /** Pages in use that no record in use stands for: reserved at boot, or lost. */
  ghost function Permanent(s: Mm): set<nat> {
    SetPages(s) - Owned(s.recs)
  }

  /** The number of set bits is the permanent pages plus the page counts of the records in use. */
  lemma Conservation(s: Mm)
    requires MmInv(s)
    ensures |SetPages(s)| == |Permanent(s)| + CountOwned(s.recs)
  {
    OwnedSize(s.recs);
    forall p | p in Owned(s.recs) ensures p in SetPages(s) {
      OwnedIsSet(s, p);
    }
    assert SetPages(s) == Permanent(s) + Owned(s.recs);
  }

  /** Overwriting a record that covers nothing, or appending one, adds just what the new one covers. */
  lemma OwnedAfterWrite(recs: seq<Record>, out: seq<Record>, k: nat, p: nat)
    requires k < |out| && |recs| <= |out| <= |recs| + 1 && (k < |recs| ==> |out| == |recs| && !Covers(recs[k], p))
    requires k <= |recs| && (|out| > |recs| ==> k == |recs|)
    requires forall i :: 0 <= i < |recs| && i != k ==> out[i] == recs[i]
    ensures p in Owned(out) <==> p in Owned(recs) || Covers(out[k], p)
  {
    OwnedIsCovered(recs, p);
    OwnedIsCovered(out, p);
    if i :| 0 <= i < |recs| && Covers(recs[i], p) { assert Covers(out[i], p); }
    if i :| 0 <= i < |out| && Covers(out[i], p) { assert i == k || Covers(recs[i], p); }
  }

  lemma OwnedAfterClaim(s: Mm, page: nat, n: nat)
    requires MmInv(s) && FreeRun(s, page, n) && !Wraps(s.recs, page)
    ensures Owned(Claim(s, page, n).recs) == Owned(s.recs) + Span(page, n % U16)
  {
    hide MmInv, Owned, Assign, FindRec;
    var out := Assign(s.recs, Record(page, n % U16, true));
    var k := FindRec(s.recs, page);
    RecycledIsDead(s, page);
    AssignIs(s.recs, Record(page, n % U16, true));
    forall p: nat ensures p in Owned(out) <==> p in Owned(s.recs) + Span(page, n % U16) {
      OwnedAfterWrite(s.recs, out, k, p);
    }
  }

  /** kmalloc loses exactly the pages beyond the 16-bit page count of its record, and every page in use when
      the 16-bit counter of records wraps. */
  lemma MallocConserves(s: Mm, len: u64)
    requires MmInv(s)
    ensures var n := PagesFor(len);
            Permanent(Malloc(s, len).0) == match FirstFit(s, n)
              case None => Permanent(s)
              case Some(page) =>
                if Wraps(s.recs, page) then SetPages(s) + Span(page, n)
                else Permanent(s) + Span(page + n % U16, n - n % U16)
  {
    var n := PagesFor(len);
    var f := FirstFit(s, n);
    if f.Some? {
      RunEndsBeforeLimit(s, f.value, n);
      if Wraps(s.recs, f.value) { ClaimForgets(s, f.value, n); } else { ClaimConserves(s, f.value, n); }
    }
  }

  lemma ClaimForgets(s: Mm, page: nat, n: nat)
    requires FreeRun(s, page, n) && Wraps(s.recs, page)
    ensures Permanent(Claim(s, page, n)) == SetPages(s) + Span(page, n)
  {
  }

  lemma ClaimConserves(s: Mm, page: nat, n: nat)
    requires MmInv(s) && FreeRun(s, page, n) && !Wraps(s.recs, page)
    ensures Permanent(Claim(s, page, n)) == Permanent(s) + Span(page + n % U16, n - n % U16)
  {
    hide MmInv, Owned;
    var t := Claim(s, page, n);
    OwnedAfterClaim(s, page, n);
    forall p: nat ensures p in Permanent(t) <==> p in Permanent(s) + Span(page + n % U16, n - n % U16) {
      if p in Owned(s.recs) { OwnedIsSet(s, p); }
      assert p in SetPages(t) <==> p in SetPages(s) || page <= p < page + n;
      assert page <= p < page + n ==> p !in SetPages(s) && p !in Owned(s.recs);
    }
  }

  /** kfree of a record in use moves its pages from owned to free and nothing else. */
  lemma FreeConserves(s: Mm, page: nat)
    requires MmInv(s) && Free(s, page).Returned? && s.recs[FindRec(s.recs, page)].used
    ensures Permanent(Free(s, page).value) == Permanent(s)
    ensures var n := s.recs[FindRec(s.recs, page)].pageCount;
            SetPages(Free(s, page).value) == SetPages(s) - Span(page, n)
  {
    hide MmInv, Owned, FindRec;
    var r := s.recs[FindRec(s.recs, page)];
    var t := Free(s, page).value;
    RecordIsOk(s, FindRec(s.recs, page));
    forall p: nat ensures p in Permanent(t) <==> p in Permanent(s) {
      OwnedAfterFree(s, page, p);
      OwnedIsCovered(s.recs, p);
      assert Covers(r, p) ==> p in Owned(s.recs);
    }
  }

  lemma RecordIsOk(s: Mm, k: nat)
    requires MmInv(s) && k < |s.recs|
    ensures RecordOk(s.recs[k], s.limit, s.bits) && s.limit <= |s.bits|
  {
  }

  lemma OwnedAfterFree(s: Mm, page: nat, p: nat)
    requires MmInv(s) && Free(s, page).Returned? && s.recs[FindRec(s.recs, page)].used
    ensures p in Owned(Free(s, page).value.recs) <==> p in Owned(s.recs) && !Covers(s.recs[FindRec(s.recs, page)], p)
  {
    hide TablesKept, Owned, FindRec;
    var k := FindRec(s.recs, page);
    var r := s.recs[k];
    var t := Free(s, page).value;
    OwnedIsCovered(s.recs, p);
    OwnedIsCovered(t.recs, p);
    if i :| 0 <= i < |s.recs| && Covers(s.recs[i], p) { assert i == k || Covers(t.recs[i], p); }
    if i :| 0 <= i < |t.recs| && Covers(t.recs[i], p) {
      assert i != k && t.recs[i] == s.recs[i] && RecordsApart(r, s.recs[i]) && RecordsApart(s.recs[i], r);
    }
  }

  /** A kmalloc followed by kfree of its result restores the bitmap exactly when the page count fits the
      record's 16 bits and the counter of records does not wrap. */
  lemma MallocThenFreeRestoresIff(s: Mm, len: u64)
    requires MmInv(s) && FirstFit(s, PagesFor(len)).Some?
    ensures var (t, addr) := Malloc(s, len);
            var freed := Free(t, addr / 4096);
            && (freed.Returned? <==> !Wraps(s.recs, addr / 4096))
            && (freed.Returned? && freed.value.bits == s.bits <==> PagesFor(len) < U16 && !Wraps(s.recs, addr / 4096))
  {
    var n := PagesFor(len);
    var page := FirstFit(s, n).value;
    RunEndsBeforeLimit(s, page, n);
    var r := Record(page, n % U16, true);
    AssignIs(s.recs, r);
    if !Wraps(s.recs, page) {
      ClaimKeepsInv(s, page, n);
      FindRecUnique(Assign(s.recs, r), FindRec(s.recs, page));
      RestoredBits(s, page, n);
    }
  }

  lemma RestoredBits(s: Mm, page: nat, n: nat)
    requires Sized(s) && FreeRun(s, page, n)
    ensures SetRange(SetRange(s.bits, page, n, true), page, n % U16, false) == s.bits <==> n < U16
  {
    RunEndsBeforeLimit(s, page, n);
    var bits := SetRange(SetRange(s.bits, page, n, true), page, n % U16, false);
    if n >= U16 {
      assert bits[page + n % U16] && !s.bits[page + n % U16];
    }
  }

  // ---------------------------------------------------------------- the table never overflows

  lemma {:induction false} StartsAreFew(recs: seq<Record>, limit: nat)
    requires UniqueStarts(recs) && forall i :: 0 <= i < |recs| ==> recs[i].pageStart < limit
    ensures |recs| <= limit
  {
    var starts := set i | 0 <= i < |recs| :: recs[i].pageStart;
    StartsSize(recs, starts);
    SpanSize(0, limit);
    SubsetSize(starts, Span(0, limit));
  }

  lemma {:induction false} StartsSize(recs: seq<Record>, starts: set<nat>)
    requires UniqueStarts(recs)
    requires starts == set i | 0 <= i < |recs| :: recs[i].pageStart
    ensures |starts| == |recs|
  {
    if recs != [] {
      var front, last := recs[..|recs| - 1], recs[|recs| - 1].pageStart;
      var rest := set i | 0 <= i < |front| :: front[i].pageStart;
      StartsSize(front, rest);
      assert starts == rest + {last} by {
        forall x | x in starts ensures x in rest + {last} {
          var i :| 0 <= i < |recs| && recs[i].pageStart == x;
          if i < |front| { assert front[i] == recs[i]; }
        }
        forall x | x in rest ensures x in starts {
          var i :| 0 <= i < |front| && front[i].pageStart == x;
          assert recs[i] == front[i];
        }
      }
      assert last !in rest;
    }
  }

  /** 11-byte records behind a B-byte bitmap: although no call checks MM_ALLOC_MAX_SIZE, the table
      never outgrows the 3 + B pages that mm_init reserves, because start pages are unique. */
  lemma RecordTableFits(s: Mm, bitmapBytes: nat)
    requires MmInv(s) && s.limit == 8 * bitmapBytes
    ensures |s.recs| <= s.limit
    ensures bitmapBytes + 11 * |s.recs| <= (3 + bitmapBytes) * 4096
  {
    StartsAreFew(s.recs, s.limit);
  }

  /** There is room for the record of one more start page. */
  lemma NewRecordFits(s: Mm, page: nat)
    requires MmInv(s) && page < s.limit && FindRec(s.recs, page) == |s.recs|
    ensures |s.recs| < s.limit
  {
    StartsAreFew(s.recs + [Record(page, 0, true)], s.limit);
  }

  // ---------------------------------------------------------------- live buffers

  /** `live` maps the start page of every buffer a caller holds to the number of pages it was given.  Buffers
      are in use, pairwise disjoint, and apart from the allocator's tables. */
  ghost predicate LiveInv(s: Mm, live: map<nat, nat>) {
    && (forall a :: a in live ==> IsLive(s, a, live[a]))
    && (forall a, b :: a in live && b in live && a != b ==> Apart(a, live[a], b, live[b]))
  }

  /** The record of a buffer, if one is found, is its own. */
  ghost predicate IsLive(s: Mm, a: nat, n: nat) {
    && 0 < a && 0 < n && a + n < s.limit <= |s.bits|
    && (forall p :: a <= p < a + n ==> s.bits[p])
    && Apart(a, n, s.table, s.tablePages)
    && (Recorded(s, a) ==> var r := s.recs[FindRec(s.recs, a)]; r.used && r.pageCount == n % U16)
  }

  /** kfree and krealloc find a record of the buffer. */
  predicate Recorded(s: Mm, a: nat) {
    FindRec(s.recs, a) < |s.recs|
  }

  ghost predicate AllRecorded(s: Mm, live: map<nat, nat>) {
    forall a :: a in live ==> Recorded(s, a)
  }

  /** A new buffer is disjoint from every buffer that is live, and all of those stay live. */
  lemma MallocKeepsLive(s: Mm, len: u64, live: map<nat, nat>)
    requires MmInv(s) && LiveInv(s, live)
    ensures var (t, addr) := Malloc(s, len);
            var n := PagesFor(len);
            && (addr == 0 <==> FirstFit(s, n).None?)
            && (addr == 0 ==> t == s)
            && (addr != 0 && n == 0 ==> t.bits == s.bits && LiveInv(t, live))
            && (addr != 0 && n > 0 ==> addr / 4096 !in live && LiveInv(t, live[addr / 4096 := n]))
  {
    hide MmInv, IsLive, FreeRun, Claim, PagesFor;
    var n := PagesFor(len);
    var f := FirstFit(s, n);
    if f.Some? {
      var page := f.value;
      RunStart(s, page, n);
      forall a | a in live ensures a != page && Apart(a, live[a], page, n) && IsLive(Claim(s, page, n), a, live[a]) {
        ClaimKeepsOneLive(s, page, n, a, live[a]);
      }
      if n > 0 { ClaimIsLive(s, page, n); } else { EmptyClaimBits(s, page); }
    }
  }

  lemma RunStart(s: Mm, page: nat, n: nat)
    requires MmInv(s) && FreeRun(s, page, n)
    ensures 0 < page
  {
  }

  lemma EmptyClaimBits(s: Mm, page: nat)
    ensures Claim(s, page, 0).bits == s.bits
  {
  }

  lemma ClaimIsLive(s: Mm, page: nat, n: nat)
    requires MmInv(s) && FreeRun(s, page, n) && n > 0
    ensures IsLive(Claim(s, page, n), page, n)
  {
    RunEndsBeforeLimit(s, page, n);
    RunApartFromTables(s, page, n);
    ClaimKeepsInv(s, page, n);
    AssignIs(s.recs, Record(page, n % U16, true));
    if !Wraps(s.recs, page) { FindRecUnique(Claim(s, page, n).recs, FindRec(s.recs, page)); }
  }

  lemma ClaimKeepsOneLive(s: Mm, page: nat, n: nat, a: nat, m: nat)
    requires MmInv(s) && FreeRun(s, page, n) && IsLive(s, a, m)
    ensures a != page && Apart(a, m, page, n) && IsLive(Claim(s, page, n), a, m)
  {
    RunEndsBeforeLimit(s, page, n);
    assert s.bits[a] && !s.bits[page];
    assert !(a <= page < a + m);
    ClaimKeepsRecord(s, page, n, a);
  }

  /** kmalloc leaves the record of another start page as it was, or the counter wraps. */
  lemma ClaimKeepsRecord(s: Mm, page: nat, n: nat, a: nat)
    requires MmInv(s) && FreeRun(s, page, n) && a != page
    ensures var t := Claim(s, page, n);
            && (Recorded(t, a) <==> Recorded(s, a) && !Wraps(s.recs, page))
            && (Recorded(t, a) ==> FindRec(t.recs, a) == FindRec(s.recs, a) &&
                                   t.recs[FindRec(t.recs, a)] == s.recs[FindRec(s.recs, a)])
  {
    hide MmInv, FreeRun, SetRange, FindRec;
    AssignIs(s.recs, Record(page, n % U16, true));
    ClaimKeepsInv(s, page, n);
    var t := Claim(s, page, n);
    StartsAreUnique(t);
    if !Wraps(s.recs, page) {
      if Recorded(s, a) { FindRecUnique(t.recs, FindRec(s.recs, a)); }
    }
  }

  lemma StartsAreUnique(s: Mm)
    requires MmInv(s)
    ensures UniqueStarts(s.recs)
  {
  }

  /** kmalloc leaves a record for the new buffer and for every live buffer that had one exactly when the
      counter of records does not wrap. */
  lemma MallocKeepsRecordsIff(s: Mm, len: u64, live: map<nat, nat>)
    requires MmInv(s) && LiveInv(s, live) && AllRecorded(s, live) && FirstFit(s, PagesFor(len)).Some?
    ensures var (t, addr) := Malloc(s, len);
            Recorded(t, addr / 4096) && AllRecorded(t, live) <==> !Wraps(s.recs, addr / 4096)
  {
    hide MmInv, FindRec, IsLive, FreeRun;
    var n := PagesFor(len);
    var page := FirstFit(s, n).value;
    AssignIs(s.recs, Record(page, n % U16, true));
    ClaimKeepsInv(s, page, n);
    var t := Claim(s, page, n);
    StartsAreUnique(t);
    if !Wraps(s.recs, page) { FindRecUnique(t.recs, FindRec(s.recs, page)); }
    forall a | a in live ensures a != page && (Recorded(t, a) <==> !Wraps(s.recs, page)) {
      ClaimKeepsOneLive(s, page, n, a, live[a]);
      ClaimKeepsRecord(s, page, n, a);
    }
  }

  /** kfree of a live buffer returns exactly when it finds a record; then it frees the pages, keeps the
      invariant and leaves every other buffer live. */
  lemma FreeKeepsLive(s: Mm, page: nat, live: map<nat, nat>)
    requires MmInv(s) && LiveInv(s, live) && page in live
    ensures Free(s, page).Returned? <==> Recorded(s, page)
    ensures Recorded(s, page) ==>
      var t := Free(s, page).value;
      && MmInv(t) && LiveInv(t, live - {page})
      && (forall p :: page <= p < page + live[page] % U16 ==> !t.bits[p])
      && (forall a :: Recorded(t, a) <==> Recorded(s, a))
  {
    if Recorded(s, page) {
      hide MmInv, FindRec, IsLive;
      FreedKeepsInv(s, page, live[page]);
      FreeKeepsRecords(s, page);
      FreedPages(s, page, live[page]);
      forall a | a in live && a != page ensures IsLive(Free(s, page).value, a, live[a]) {
        FreeKeepsOneLive(s, page, live, a);
      }
    }
  }

  lemma FreedPages(s: Mm, page: nat, size: nat)
    requires MmInv(s) && IsLive(s, page, size) && Recorded(s, page)
    ensures Free(s, page).Returned?
    ensures forall p :: page <= p < page + size % U16 ==> p < |Free(s, page).value.bits| && !Free(s, page).value.bits[p]
  {
    hide MmInv;
    StartsAreUnique(s);
  }

  lemma FreeKeepsOneLive(s: Mm, page: nat, live: map<nat, nat>, a: nat)
    requires MmInv(s) && LiveInv(s, live) && page in live && Recorded(s, page) && a in live && a != page
    ensures Free(s, page).Returned? && IsLive(Free(s, page).value, a, live[a])
  {
    hide MmInv;
    StartsAreUnique(s);
    FreeKeepsRecords(s, page);
    assert IsLive(s, page, live[page]) && IsLive(s, a, live[a]) && Apart(a, live[a], page, live[page]);
  }

  /** kfree at a page where no live buffer starts, such as a second kfree of the same buffer, leaves every live
      buffer intact exactly when the record has no pages or none of them has been handed out again. */
  lemma FreeKeepsOthersIff(s: Mm, page: nat, live: map<nat, nat>)
    requires MmInv(s) && LiveInv(s, live) && page !in live && Recorded(s, page)
    ensures Free(s, page).Returned?
    ensures var n := s.recs[FindRec(s.recs, page)].pageCount;
            LiveInv(Free(s, page).value, live) <==> n == 0 || forall a :: a in live ==> Apart(page, n, a, live[a])
  {
    hide MmInv, FindRec;
    var n := s.recs[FindRec(s.recs, page)].pageCount;
    var t := Free(s, page).value;
    StartsAreUnique(s);
    FreeKeepsRecords(s, page);
    if n > 0 && exists a :: a in live && !Apart(page, n, a, live[a]) {
      var a :| a in live && !Apart(page, n, a, live[a]);
      var p := if a < page then page else a;
      assert IsLive(s, a, live[a]) && !t.bits[p];
      assert !IsLive(t, a, live[a]);
    } else {
      forall a | a in live ensures IsLive(t, a, live[a]) { assert IsLive(s, a, live[a]); }
    }
  }

  lemma FreedKeepsInv(s: Mm, page: nat, n: nat)
    requires MmInv(s) && IsLive(s, page, n) && Recorded(s, page)
    ensures Free(s, page).Returned? && MmInv(Free(s, page).value)
  {
    FreeKeepsInv(s, page);
  }

  /** kfree changes the use flag of one record. */
  lemma FreeKeepsRecords(s: Mm, page: nat)
    requires UniqueStarts(s.recs) && Recorded(s, page)
    ensures Free(s, page).Returned?
    ensures var t := Free(s, page).value;
            forall a :: FindRec(t.recs, a) == FindRec(s.recs, a) && |t.recs| == |s.recs| &&
                        (a != page && Recorded(s, a) ==> t.recs[FindRec(t.recs, a)] == s.recs[FindRec(s.recs, a)])
  {
    hide FindRec;
    var t := Free(s, page).value;
    forall a ensures FindRec(t.recs, a) == FindRec(s.recs, a) { SameStarts(s.recs, t.recs, a); }
  }

  lemma SameStarts(recs: seq<Record>, out: seq<Record>, a: nat)
    requires |recs| == |out| && forall i :: 0 <= i < |recs| ==> recs[i].pageStart == out[i].pageStart
    ensures FindRec(out, a) == FindRec(recs, a)
  {
  }
}
