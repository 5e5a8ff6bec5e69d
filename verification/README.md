# Wheatley kernel: a Dafny model of its core

Wheatley is a small x86-64 operating system. This project models the hardest parts of its kernel in
Dafny 4.11 and proves properties of the model, over every input, every run or every interleaving:

- **The page allocator** (`mm.c`, `internal.c`, `init.c`). `MmSpec` says what each call does to the bitmap, the
  allocation records and physical memory; `PageAlloc.PageAllocator` is the allocator as the code runs it, over
  `uint32_t` words, 11-byte records and a 16-bit counter, each method proved against that specification.
  `MmLaws` and `ReallocLaws` prove the invariant, conservation of pages and what krealloc preserves; `BootSpec`
  proves what `mm_init` sets up. The wrap of the record counter and the place of the tables in memory are part of
  the model.
- **The page tables** (`vmm.c`). `VmmSpec` works on raw 64-bit words with packed links; `TreeLaws` shows that the
  tables form a radix tree; `MemorySystem` and `SystemRuns` prove, over every run of map, unmap, kmalloc, kfree,
  krealloc and stores by the holders of buffers, that the tables stay a tree of live allocations nothing else
  touches and that the hardware walk reads a flat map. `RunLaws` adds the contents of buffers, the allocator's own
  tables and the records; `LockSections` shows that a map and a krealloc are runs of their locked sections, so that
  other calls may come in between. Maps may run out of pages in a run: `DeadLinks` says what they leave, `FailedMaps`
  that it is for good. `WalkLaws` says in words and plain arithmetic what the processor reads. `BootTables` proves what
  `vmm_init` maps, `KernelRun` joins boot and runs. `Vmm.PageMap` is the code, on top of the allocator class.
- **The printf engine** (`printf.c`). `PrintfSpec` is a parser and a renderer; `Printf.Output` is the single-pass
  interpreter, proved against it; `PrintfLaws` has composition, round trips, layout and width laws. `FormatLaws` is a
  second, independent account of what a format prints, for conversions as they are written, and shows that the engine
  agrees with it; `ConversionLaws` draws the consequences for single conversions.
- **The framebuffer terminal** (`fbtty.c`, `efifb.c`). `TerminalSpec` is a grid of text and the frame of pixels that
  shows it; `Terminal.Fbtty` draws, wraps and scrolls in place, and always shows the grid. `ScreenLaws` says of every
  pixel what a text makes of it.
- **Locks and panic** (`spinlock.h`, `panic.c`). `Locks`, `LockRuns` and `Panic` are step models of N cores; `LockLaws`
  says which locks each call takes.

## Where the code and its callers or comments disagree

Where the code does not do what its callers or comments expect, the model keeps the code's behaviour. A lemma gives
the exact condition, and one in `Witnesses` (or named below) an input inside the invariants at which it fails:

- A request of 65536 pages or more loses pages for good, as the record's page count has 16 bits
  (`MmLaws.MallocThenFreeRestoresIff`, `MmLaws.MallocConserves`, `Witnesses.PagesAreLost`). For the same reason
  `krealloc` of such a buffer keeps its contents up to the page count modulo 65536 only
  (`ReallocLaws.KreallocMoves`, `ReallocLaws.KreallocSucceedsIff`, `Witnesses.LongBufferIsCut`).
- The counter of records has 16 bits too, and records are never removed. The 65536th start page wraps it to 0: the
  pages stay in use, but no buffer has a record any more, so that `kfree` of any of them panics
  (`MmLaws.MallocKeepsRecordsIff`, `MmLaws.FreeKeepsLive`, `Witnesses.CounterWraps`). Within 65535 records nothing is
  lost (`RunLaws.RunKeepsRecords`).
- `krealloc` does not test the result of `kmalloc`: without room it copies the buffer over memory from address 0
  and frees it, and when the buffer is longer than what lies below the allocator's tables it overwrites those
  (`ReallocLaws.KreallocFails`, `ReallocLaws.KreallocSucceedsIff`, `ReallocLaws.TablesLostWitness`). A shorter copy can
  overwrite other buffers (`ReallocLaws.FailureKeepsBufferIff`, `Witnesses.FailureOverwritesBuffer`), and whatever else
  is in memory there.
- A buffer from `kmalloc(0)` is a page that stays free; growing it can hand the same page back and free it
  (`ReallocLaws.KreallocOfEmptyIff`, `ReallocLaws.FitsAtFirstIff`, `Witnesses.EmptyBufferIsFreed`).
- `kfree` of a record that is no longer in use can free the pages of another buffer (`MmLaws.FreeKeepsOthersIff`,
  `Witnesses.SecondFreeHarms`). The allocator's invariant shows that only where a record counts these pages
  (`MmLaws.FreeKeepsInvIff`, `Witnesses.SecondFreeHarmsUncounted`).
- `get_next_level` links a table at address 0 when there is no page; the failed map is then final for its region,
  whatever is freed later (`DeadLinks.MapSucceedsIff`, `FailedMaps.FailedMapIsFinal`,
  `FailedMaps.FailedMapFailsInEveryRun`, `Witnesses.EveryMapFails`).
- `MM_ALLOC_MAX_SIZE` is never checked. The table could not outgrow the pages reserved for it, as start pages are
  unique (`MmLaws.RecordTableFits`); what the missing check costs is the wrap above.
- printf under `-` ignores the zeros of a precision (`PrintfLaws.LeftIgnoresPrecisionIff`,
  `Witnesses.MinusDropsZeros`), `#` can cut digits of the value (`PrintfLaws.HashKeepsDigitsIff`,
  `Witnesses.HashCutsAllDigits`), zero padding stops at 32 characters (`PrintfLaws.FieldWidthIff`) and then loses the
  sign (`PrintfLaws.NumberLayout`, `Witnesses.PaddingEndsAt32`), and base 2 prints the low 32 bits only
  (`PrintfLaws.DigitRoundTrip`, `Witnesses.BinaryIsCut`).
- A comment in `fbtty.c` (lines 57-60) suspects that the cursor can leave the screen. With the wrap conditions as they
  are it never does: they hold exactly when the cursor has left the cells, whose number they cut by the last column
  and the last line of pixels (`TerminalSpec.PutKeepsGrid`, `Terminal.PastCells`).
- `panic` says it reports a panic "within panic"; a core that panics inside panic spins on the lock it holds and
  reports nothing. A panic raised inside a printf hangs as well (`Panic.NothingReverts`, `Panic.PanicHaltsAllIff`,
  `Panic.PanicInPrintfHangs`, `Witnesses.PanicWithinHangs`).

## What callers must ensure

The code relies on the following without checking it; the model states it as preconditions. The boot memory map has
page-aligned, disjoint entries inside the bitmap and does not end in a free page, so that the scan of the bitmap stops
(`BootSpec.BootMap`, `MmSpec.Sized`). In a run, callers free, reallocate and write only buffers they hold, those freed
or reallocated still have their records, and growing reallocations find their pages (`SystemRuns.Enabled`);
what happens otherwise is stated by the lemmas above. Maps need not find theirs (`SystemRuns.MapOrFail`). Formats are
those whose every conversion is complete and not a floating-point one, with arguments of matching kinds. A character
given to the terminal has a glyph.

## Model

| member | source | states |
|---|---|---|
| PageAlloc.PageAllocator.GetPageBit | Kernel/src/mm/internal.c:12-17 | the packed bit of a page is membership in the set of used pages |
| PageAlloc.PageAllocator.SetPageBit | Kernel/src/mm/internal.c:19-24 | exactly that page becomes used, nothing else changes |
| PageAlloc.PageAllocator.ClearPageBit | Kernel/src/mm/internal.c:26-31 | exactly that page becomes free, nothing else changes |
| PageAlloc.BitsDetermineWords | Kernel/src/mm/internal.c:12-31 | bitmaps that agree on every page agree word for word |
| PageAlloc.PageAllocator.FindPage | Kernel/src/mm/mm.c:7-32 | the nested scan answers with first fit and never leaves the bitmap |
| MmSpec.FirstFitExact | Kernel/src/mm/mm.c:7-32 | first fit is the least start of n consecutive free pages, and fails only when no such run exists |
| PageAlloc.PageAllocator.FindAlloc | Kernel/src/mm/mm.c:34-43 | the first record of that start page, or none |
| PageAlloc.PageAllocator.Kmalloc | Kernel/src/mm/mm.c:45-80 | the code keeps the invariant and does what the specification of kmalloc says to bitmap and records, also when the 16-bit counter wraps |
| PageAlloc.PageAllocator.Kfree | Kernel/src/mm/mm.c:82-99 | likewise for kfree, which panics exactly when no record starts at the page |
| PageAlloc.PageAllocator.Krealloc | Kernel/src/mm/mm.c:101-129 | likewise for krealloc, memory contents included; nothing is promised of the tables when the copy goes over them |
| PageAlloc.PageAllocator.Memcpy | Kernel/src/string.asm:4-8 | a forward copy |
| PageAlloc.PageAllocator.AddAlloc | Kernel/src/mm/internal.c:3-10 | appends the record of a boot entry |
| MmLaws.RecycledIsDead | Kernel/src/mm/mm.c:59-66 | the record kmalloc recycles never stands for pages in use |
| MmLaws.MallocKeepsInv | Kernel/src/mm/mm.c:45-80 | unique start pages, disjoint ranges of used records, all their bits set: kept by kmalloc |
| MmLaws.FreeKeepsInvIff | Kernel/src/mm/mm.c:82-99 | kfree keeps the allocator's invariant if and only if the record is in use or no record in use counts one of its old pages, and page 0 and the last page are spared |
| MmLaws.FreeKeepsOthersIff | Kernel/src/mm/mm.c:82-99 | kfree where no live buffer starts, such as a second kfree, leaves all live buffers intact if and only if the record has no pages or they are apart from every live buffer |
| Witnesses.SecondFreeHarms | Kernel/src/mm/mm.c:82-99 | a second kfree that frees pages of another buffer and breaks the allocator's invariant |
| Witnesses.SecondFreeHarmsUncounted | Kernel/src/mm/mm.c:82-99 | one that does the former only, to a buffer of 70000 pages |
| MmLaws.Conservation | Kernel/src/mm/mm.c:68-98 | the number of set bits is the number of permanently reserved pages plus the page counts of all used records |
| MmLaws.MallocConserves | Kernel/src/mm/mm.c:63-75 | kmalloc adds to the permanent pages exactly those beyond the 16-bit page count, or every page in use when the counter wraps |
| MmLaws.FreeConserves | Kernel/src/mm/mm.c:93-97 | kfree of a used record frees exactly its pages and leaves the permanent ones |
| MmLaws.MallocThenFreeRestoresIff | Kernel/src/mm/mm.c:45-99 | kmalloc then kfree restores the bitmap if and only if the page count fits 16 bits and the counter does not wrap |
| Witnesses.PagesAreLost | Kernel/src/mm/mm.c:69-97 | a kmalloc of 65536 pages, none of which the kfree of it frees |
| MmLaws.RecordTableFits | Kernel/inc/mm/internal.h:22 | the unchecked record table never outgrows the pages mm_init reserves for it |
| MmLaws.MallocKeepsLive | Kernel/src/mm/mm.c:45-80 | a new buffer is disjoint from every live one and from the allocator's tables, and all of those stay live |
| MmLaws.MallocKeepsRecordsIff | Kernel/src/mm/mm.c:59-70 | kmalloc leaves a record for the new buffer and for every live one if and only if the 16-bit counter does not wrap |
| Witnesses.CounterWraps | Kernel/src/mm/mm.c:59-70 | a machine with 65535 records, where kmalloc of one page leaves a buffer whose kfree panics |
| MmLaws.FreeKeepsLive | Kernel/src/mm/mm.c:82-99 | kfree of a live buffer returns if and only if it has a record; then it frees its pages and leaves every other buffer live, with its record |
| ReallocLaws.PagesForSufficesIff | Kernel/src/mm/mm.c:48-48 | the rounded page count is large enough, by less than a page, unless the length wraps |
| ReallocLaws.KreallocMoves | Kernel/src/mm/mm.c:123-128 | a growing buffer moves to a fresh place with its old pages copied, and the old range is free; if the counter wraps, kfree panics |
| ReallocLaws.KreallocStays | Kernel/src/mm/mm.c:116-122 | a buffer that is large enough stays, and nothing changes |
| ReallocLaws.KreallocKeepsBuffers | Kernel/src/mm/mm.c:123-128 | no word of any live buffer changes |
| ReallocLaws.KreallocFails | Kernel/src/mm/mm.c:125-128 | without room the old pages are copied to address 0; when they are more than lie below the tables those are overwritten, else the buffer is gone, all others keep their pages and records, and NULL comes back |
| ReallocLaws.FailureKeepsBufferIff | Kernel/src/mm/mm.c:125-128 | in the second case another live buffer keeps its contents if and only if the copy does not reach it or brings there what was there |
| Witnesses.FailureOverwritesBuffer | Kernel/src/mm/mm.c:125-128 | a machine where it brings a page of the long buffer into a short one |
| ReallocLaws.CopyOverTables | Kernel/src/mm/mm.c:125-126 | in the latter case every word of the tables that the copy reaches is a word of the buffer afterwards |
| ReallocLaws.TablesLostWitness | Kernel/src/mm/mm.c:125-127 | a machine with tables at 1 MiB and no free page, where growing a buffer of 300 pages does that |
| ReallocLaws.KreallocSucceedsIff | Kernel/src/mm/mm.c:101-129 | the caller gets a live buffer of enough pages with the old contents, and only that changed, if and only if there is a record and the buffer was large enough by its 16-bit count, or a run of free pages exists, the counter does not wrap and nothing is lost beyond that count, as below 65536 pages nothing is; exactly when it panics; exactly when the tables are lost |
| Witnesses.LongBufferIsCut | Kernel/src/mm/mm.c:123-128 | a machine where growing a buffer of 70000 pages copies 4464 of them and leaves the next as it was |
| ReallocLaws.KreallocOfEmptyIff | Kernel/src/mm/mm.c:101-129 | growing a buffer of length 0 panics when a counter wrap leaves it without record, fails without room, and else returns the same page again if and only if enough pages are free from it on; the page returned is then free, unless 65536 divides the page count |
| ReallocLaws.FitsAtFirstIff | Kernel/src/mm/mm.c:7-32 | first fit for n pages answers the first free page if and only if n pages are free from it on |
| Witnesses.EmptyBufferIsFreed | Kernel/src/mm/mm.c:101-129 | a machine where kmalloc(0) and krealloc to one page return a page that is free |
| PageAlloc.PageAllocator.SizeBitmap | Kernel/src/mm/init.c:19-23 | one bit per page of all entries, rounded up to bytes |
| PageAlloc.PageAllocator.FindSpace | Kernel/src/mm/init.c:32-41 | the first free entry with room for the tables |
| PageAlloc.PageAllocator.ReadMap | Kernel/src/mm/init.c:52-64 | free exactly the pages of free entries, one record per used entry |
| PageAlloc.PageAllocator.MmInit | Kernel/src/mm/init.c:15-80 | succeeds exactly when a free entry with room exists and is not at address 0; then the tables are in that entry, the allocator invariant holds, and exactly the pages of free entries at or above 16 MiB outside the tables are free |
| BootSpec.BootStateIsValid | Kernel/src/mm/init.c:49-76 | what mm_init leaves satisfies the allocator invariant |
| BootSpec.BootFreeSet | Kernel/src/mm/init.c:15-80 | the free set is the pages of free entries at or above 16 MiB less the table range, which has three pages and as many as the bitmap has bytes; bitmap and records fit in it |
| BootSpec.BootRecords | Kernel/src/mm/init.c:52-64 | the records are those of the used entries, one for each, the page count modulo 65536 |
| BootSpec.MapIsCovered | Kernel/src/mm/init.c:19-23 | the bitmap covers a memory map without holes to its end, and less than a byte more |
| Bits.FieldIs | Kernel/src/mm/vmm.c:41-44 | mask and shift extract a 9-bit index |
| Bits.LinkRoundTrip | Kernel/src/mm/vmm.c:18-25 | a page address is recovered from the address with flags 0b111, which reads as present |
| TreeLaws.SlotIsIndex | Kernel/src/mm/vmm.c:41-44 | the four indices are the base-512 digits of the 36-bit page number |
| TreeLaws.SlotsDeterminePage | Kernel/src/mm/vmm.c:41-44 | four equal indices mean the same page number |
| TreeLaws.WalkIs | Kernel/src/mm/vmm.c:14-31 | the walk of raw memory reaches the leaf entry of the page number if its table exists, else nothing, or the zero behind a dead link |
| TreeLaws.GrowTree | Kernel/src/mm/vmm.c:21-25 | linking a zeroed page that is no table yet keeps the tables a tree |
| TreeLaws.KillTree | Kernel/src/mm/vmm.c:21-25 | so does the link to address 0 that is left when there is no page, and it changes no translation |
| TreeLaws.WriteLeaf | Kernel/src/mm/vmm.c:59-59 | writing one leaf entry keeps the tree and changes one translation |
| MemorySystem.ExtendIs | Kernel/src/mm/vmm.c:14-31 | with a page, or a table there, get_next_level finds the table or adds one live page, disjoint from every other buffer |
| MemorySystem.MapIs | Kernel/src/mm/vmm.c:33-64 | with pages enough and no dead link on its path vmm_map_page succeeds, and the memory system after it is the one the invariants speak about |
| MemorySystem.MapKeepsInv | Kernel/src/mm/vmm.c:33-64 | it keeps all invariants of the memory system, changes one translation, and allocates exactly the missing tables |
| WalkLaws.MapThenRead | Kernel/src/mm/vmm.c:59-60 | after a map that succeeds the processor finds the bits of address and flags at the page, and at every other page what it found before |
| WalkLaws.UnmapThenRead | Kernel/src/mm/vmm.c:91-92 | after an unmap it finds nothing there, and elsewhere what it found before |
| UnmapLaws.UnmapIs | Kernel/src/mm/vmm.c:66-96 | vmm_unmap_page clears at most one entry and allocates nothing |
| UnmapLaws.UnmapKeepsInv | Kernel/src/mm/vmm.c:66-96 | it clears the translation of its page number and of no other |
| SystemRuns.RunUnmapTrueIff | Kernel/src/mm/vmm.c:66-96 | after any run it returns true if and only if some page in the same 2 MiB region was mapped before the run or in it |
| DeadLinks.MapSucceedsIff | Kernel/src/mm/vmm.c:33-64 | a map succeeds if and only if no dead link is on its path and there are as many free pages as tables missing on it |
| DeadLinks.GiveUpKeepsInv | Kernel/src/mm/vmm.c:49-63 | the lookup at which a map fails, at any depth, keeps all invariants and translations, and leaves a dead link |
| DeadLinks.FailedMapIs | Kernel/src/mm/vmm.c:33-64 | a map that fails does that after at most two lookups that succeed; it keeps all invariants, writes to page tables and page 0 only, and leaves a dead link on its path |
| Witnesses.EveryMapFails | Kernel/src/mm/vmm.c:21-25 | a page map whose top level took the last page: every map in it fails |
| FailedMaps.FailedMapIsFinal | Kernel/src/mm/vmm.c:21-25 | a failed map leaves a link to address 0; in every later state that still has the at most three links down to it, whoever made that state, every map through it fails and does nothing |
| FailedMaps.StepKeepsDead | Kernel/src/mm/vmm.c:33-96 | no step repairs a dead link, and only lookups that fail make one |
| FailedMaps.DeadLinkIsForGood | Kernel/src/mm/vmm.c:33-96 | after any run every map of a page below a dead link fails and does nothing, and no such page has a translation |
| FailedMaps.FailedMapFailsInEveryRun | Kernel/src/mm/vmm.c:21-25 | so it is after a failed map and any run from there, for all pages that share its path to the link |
| FailedMaps.FailedMapTranslatesSame | Kernel/src/mm/vmm.c:21-25 | a failed map changes the translation of no address |
| FailedMaps.FailedMapKeepsWords | Kernel/src/mm/vmm.c:21-25 | nor a word of the allocator's tables or of any buffer |
| MemorySystem.LevelKeepsInv | Kernel/src/mm/vmm.c:49-57 | one lookup of a map, at any depth, keeps all invariants whatever other calls came before it under the allocator's lock |
| MemorySystem.EntryKeepsInv | Kernel/src/mm/vmm.c:59-60 | so does the last assignment of a map, which changes one translation |
| SystemRuns.StepIsTheCall | Kernel/src/mm/vmm.c:33-96 | each step of a run is the call itself, or the section of a map, in success and failure |
| SystemRuns.MapOrFail | Kernel/src/mm/vmm.c:33-64 | in every state of a run exactly one of the two outcomes of a map is possible, the one the call has |
| SystemRuns.StepKeepsInv | Kernel/src/mm/mm.c:45-129 | every call and every section of a map, failing ones among them, keeps tables a tree of live pages, every table accounted for, and memory equal to the flat map |
| SystemRuns.RunRefinesFlatMap | Kernel/src/mm/vmm.c:33-96 | after any run the walk of every address reads what the maps that succeeded and the unmaps put into a flat map; no failed map, allocation, release or store changes a translation |
| WalkLaws.RunReadsAs | Kernel/src/mm/vmm.c:14-64 | after any run three words of memory, chosen by address bits 39 to 47, 30 to 38 and 21 to 29, each the address of the next table plus 7, lead to the word with the page's entry |
| SystemRuns.RunKeepsTablesApart | Kernel/src/mm/vmm.c:14-31 | after any run tables are distinct live allocations, apart from every buffer and from the allocator's tables, and the next kmalloc returns none of them |
| RunLaws.StepKeepsWord | Kernel/src/mm/mm.c:45-129 | no step writes to the allocator's tables; a word of a buffer changes only by a store of its holder, who keeps the buffer unless it is freed or reallocated |
| RunLaws.RunKeepsAllocatorTables | Kernel/src/mm/mm.c:45-129 | over any run bitmap and record table are written by nobody but the allocator |
| RunLaws.RunKeepsContents | Kernel/src/mm/mm.c:45-129 | over any run a buffer keeps its holder, its size and every word not stored to |
| RunLaws.RunKeepsRecords | Kernel/src/mm/mm.c:59-70 | a run of n calls from r records, r + 3n below 65536, leaves every buffer its record |
| LockSections.MapIsItsSections | Kernel/src/mm/vmm.c:48-60 | a map is the run of its three lookups and its assignment, between which the allocator's lock is free |
| LockSections.FailedMapIsItsSections | Kernel/src/mm/vmm.c:48-63 | a map that fails is the run of its lookups, too |
| LockSections.KreallocIsItsSections | Kernel/src/mm/mm.c:123-128 | a krealloc that moves a buffer is the run of a kmalloc, the stores of the copy and a kfree |
| SystemRuns.RunTableCount | Kernel/src/mm/vmm.c:14-31 | after any run the number of tables is 1 plus the numbers of distinct 9-, 18- and 27-bit prefixes of the page numbers mapped before it or in it, plus the tables that failed maps made for nothing, of which there are none if none failed |
| BootTables.VmmInitOverlay | Kernel/src/mm/vmm.c:98-131 | after vmm_init every address translates by the overlay: identity below 256 MB and on memory entries, else the last section, else nothing |
| BootTables.BootTranslates | Kernel/src/mm/vmm.c:98-131 | after vmm_init the first 256 MB and the memory entries read as themselves plus 3, the pages of a section as its frames plus 3 unless a later section has them, and every other page as 0 |
| KernelRun.BootedSystem | Kernel/src/mm/vmm.c:98-131 | vmm_init on what mm_init leaves gives a memory system with all invariants and the overlay as its translations |
| KernelRun.KernelTranslates | Kernel/src/main.c:35-37 | after boot and any run of calls and stores, in which maps may fail, every address translates by the overlay with the run's maps and unmaps applied |
| Vmm.PageMap.GetNextLevel | Kernel/src/mm/vmm.c:14-31 | the code does what its specification says, also without a free page |
| Vmm.PageMap.MapPage | Kernel/src/mm/vmm.c:33-64 | likewise for vmm_map_page, whether it succeeds or not |
| Vmm.PageMap.UnmapPage | Kernel/src/mm/vmm.c:66-96 | likewise for vmm_unmap_page |
| Vmm.PageMap.MapSections | Kernel/src/mm/vmm.c:103-114 | the loops perform the maps of all sections, in order |
| Vmm.PageMap.MapEntries | Kernel/src/mm/vmm.c:116-125 | the loops perform the maps of all memory entries, in order |
| Vmm.PageMap.MapLowMemory | Kernel/src/mm/vmm.c:127-131 | the loop performs the 0x10000 identity maps, after which every address in the first 256 MB reads as its page plus 3 |
| Vmm.PageMap.Init | Kernel/src/mm/vmm.c:98-131 | with pages for the tables, vmm_init leaves memory and top level as specified, so BootTables.VmmInitOverlay applies |
| Printf.Output.Out | Kernel/src/printf.c:129-155 | a character goes to the buffer below the limit, to the console unless NUL, or nowhere |
| Printf.Output.OutRev | Kernel/src/printf.c:193-218 | the reversed buffer in a field |
| Printf.WriteZeros | Kernel/src/printf.c:225-238 | zeros up to the precision and the width, within 32 characters |
| Printf.WriteHash | Kernel/src/printf.c:240-261 | the prefix of `#`, after cutting as the code does |
| Printf.WriteSign | Kernel/src/printf.c:263-271 | the sign, if there is room |
| Printf.WriteDigits | Kernel/src/printf.c:281-298 | the digits, least significant first, at most 32 |
| Printf.Output.NtoaFormat | Kernel/src/printf.c:221-274 | emits the formatted number |
| Printf.Output.NtoaLong | Kernel/src/printf.c:277-332 | emits the number with its digits; both variants |
| Printf.Output.ConvertInteger | Kernel/src/printf.c:718-799 | the integer conversions with their flags and widths of type |
| Printf.Output.ConvertChar | Kernel/src/printf.c:824-842 | `%c` |
| Printf.Output.ConvertString | Kernel/src/printf.c:844-868 | `%s` |
| Printf.Output.Convert | Kernel/src/printf.c:716-900 | emits the text of the conversion and takes its argument |
| Printf.EvaluateFlags | Kernel/src/printf.c:614-647 | the flags of the longest run of flag characters |
| Printf.EvaluateSize | Kernel/src/printf.c:649-676 | a width or precision: numeral, `*` with its argument, or nothing |
| Printf.EvaluateLength | Kernel/src/printf.c:678-714 | the length modifier |
| Printf.Atoi | Kernel/src/printf.c:184-190 | the value of the digits modulo 2^32, the format advanced past them |
| Printf.Strnlen | Kernel/src/printf.c:172-177 | the length of the string up to a limit |
| Printf.Output.ConvertOne | Kernel/src/printf.c:614-900 | one conversion refines the parsed directive and takes its arguments in order |
| Printf.Output.Vsnprintf | Kernel/src/printf.c:592-908 | the single pass terminates inside the format, emits exactly the text of parse-then-render, returns its length and ends with a NUL below the limit |
| Printf.Snprintf | Kernel/src/printf.c:933-939 | the length does not depend on the limit; the buffer holds the text as far as it fits; NULL discards it |
| Printf.PrintfToConsole | Kernel/src/printf.c:914-923 | the console gets the text without its NUL characters |
| PrintfLaws.Compose | Kernel/src/printf.c:602-901 | the output of a format and its continuation is the output of the first, then of the second on the arguments left |
| FormatLaws.FormatIs | Kernel/src/printf.c:592-908 | every format of text and conversions prints, on any arguments, what the reference says of flags, sizes, types and letters, and has no text where the reference has none |
| FormatLaws.FormatIsField | Kernel/src/printf.c:193-274 | a number stands in its field as the reference says, for all flags together: zeros, prefix and what it overwrites, sign, spaces |
| FormatLaws.DigitsAreNumeral | Kernel/src/printf.c:290-298 | the digits are the numeral of the value, or its last 32 digits |
| ConversionLaws.NumeralIs | Kernel/src/printf.c:290-298 | a numeral evaluates to its value, in digits of its base and case, without leading zeros |
| ConversionLaws.UnsignedModifiers | Kernel/src/printf.c:678-800 | `%llx`, `%lx`, `%jx`, `%zx` and `%tx` print all 64 bits, `%x`, `%hx` and `%hhx` the low 32, 16 and 8 |
| ConversionLaws.SignedModifiers | Kernel/src/printf.c:678-776 | likewise `%lld`, `%ld`, `%d`, `%hd` and `%hhd` the value in two's complement, with a minus sign if negative |
| ConversionLaws.PointerFormat | Kernel/src/printf.c:870-889 | `%p` prints 16 upper-case digits that stand for the pointer |
| PrintfLaws.DigitRoundTrip | Kernel/src/printf.c:290-298 | in bases 8, 10 and 16 the 32 characters hold every 64-bit value and evaluate back to it, in base 2 to its low 32 bits, without leading zeros |
| PrintfLaws.DecimalRoundTrip | Kernel/src/printf.c:276-302 | the decimal text of a 64-bit value reads as that value |
| PrintfLaws.AtoiRoundTrip | Kernel/src/printf.c:184-190 | reading it back as a width or precision gives the value modulo 2^32 and stops behind it |
| PrintfLaws.SignedRoundTrip | Kernel/src/printf.c:752-776 | a signed value is a minus sign and its magnitude, the least 64-bit integer included |
| PrintfLaws.NumberLayout | Kernel/src/printf.c:221-274 | a number without `#` is spaces, sign, zeros, digits, or has the spaces last; the sign is lost when 32 characters are full |
| PrintfLaws.FieldWidthIff | Kernel/src/printf.c:193-274 | its length is the larger of width and content if and only if no zero padding beyond 32 is asked for |
| PrintfLaws.PaddingKeepsDigits | Kernel/src/printf.c:193-274 | no padding alters the digits |
| PrintfLaws.LeftIgnoresPrecisionIff | Kernel/src/printf.c:225-238 | `-` leaves an unpadded number as it is if and only if the precision asks for no zeros or 32 digits leave no room for any |
| Witnesses.MinusDropsZeros | Kernel/src/printf.c:225-238 | `%.3d` of 5 is 005, with `-` it is 5 |
| PrintfLaws.HashKeepsDigitsIff | Kernel/src/printf.c:240-261 | `#` keeps all digits of the value if and only if there is a precision, or they do not fill the width with less padding than the prefix cuts |
| ConversionLaws.HashAddsPrefix | Kernel/src/printf.c:240-261 | of a value other than 0, `#` puts 0x, 0X or 0 in front of what `%x`, `%X` and `%o` print, for every type |
| ConversionLaws.HashInBase2Iff | Kernel/src/printf.c:240-261 | `%#b` puts 0b in front of what `%b` prints if and only if the value has at most 30 digits |
| ConversionLaws.HashLayout | Kernel/src/printf.c:221-274 | a number with `#` that is not cut and fits 32 characters is spaces, sign, prefix, zeros, digits, or has the spaces last |
| Witnesses.HashCutsAllDigits | Kernel/src/printf.c:240-261 | `%#2x` of 0xab is 0x |
| Witnesses.PaddingEndsAt32 | Kernel/src/printf.c:225-271 | `%040u` of 7 has 32 characters, `%.32d` of -1 has no sign |
| Witnesses.BinaryIsCut | Kernel/src/printf.c:290-298 | the 32 digits of 2^32 in base 2 have the value 0 |
| PrintfLaws.StringField | Kernel/src/printf.c:844-868 | `%s` is the string or its prefix unaltered, and as long as the larger of width and content |
| PrintfLaws.CharField | Kernel/src/printf.c:824-842 | `%c` is the character in spaces, as long as the larger of width and 1 |
| PrintfLaws.BoundedOutput | Kernel/src/printf.c:903-907 | below the limit: the first min(length, count - 1) characters, a NUL, and the rest of the buffer untouched; nothing for count 0 |
| Terminal.Efifb.SetPixel | Kernel/src/drivers/fb/efifb.c:17-23 | one pixel in framebuffer and shadow buffer |
| Terminal.Efifb.ReadPixels | Kernel/src/drivers/fb/efifb.c:25-29 | copies a range of the shadow buffer |
| Terminal.Efifb.Memcpy | Kernel/src/drivers/fb/efifb.c:31-36 | copies into both buffers and nothing outside the range |
| Terminal.Efifb.PixSet | Kernel/src/drivers/fb/efifb.c:38-45 | fills a range of both buffers and nothing outside |
| Terminal.Fbtty.constructor | Kernel/src/drivers/tty/fbtty.c:98-113 | both buffers show an empty grid |
| Terminal.Fbtty.DrawGlyph | Kernel/src/drivers/tty/fbtty.c:47-53 | the set bits of the glyph are drawn in the cursor's cell, no other pixel changes |
| Terminal.Fbtty.Scroll | Kernel/src/drivers/tty/fbtty.c:67-73 | every pixel line moves up by one text line, the last is cleared, both buffers agree |
| Terminal.Fbtty.PutChar | Kernel/src/drivers/tty/fbtty.c:30-77 | after any character both buffers equal the frame of the grid with the character put, cursor included |
| Terminal.Fbtty.PutString | Kernel/src/drivers/tty/fbtty.c:30-77 | likewise after any string |
| TerminalLaws.DrawnIsFrame | Kernel/src/drivers/tty/fbtty.c:47-53 | skipping the zero bits of a glyph is right, because the cursor's cell shows nothing |
| TerminalLaws.ShiftIsScroll | Kernel/src/drivers/tty/fbtty.c:67-73 | moving the pixels is dropping the first row and appending a blank one |
| Terminal.PastCells | Kernel/src/drivers/tty/fbtty.c:61-67 | both wrap conditions hold if and only if the cursor is past the last cell that ends before the last pixel |
| TerminalSpec.PutKeepsGrid | Kernel/src/drivers/tty/fbtty.c:55-74 | the cursor stays in a cell, and nothing is in it or after it |
| TerminalSpec.PutAllShowsText | Kernel/src/drivers/tty/fbtty.c:30-77 | after any text the grid is the end of the text wrapped to the columns, the cursor behind it |
| ScreenLaws.CellShowsGlyph | Kernel/src/drivers/tty/fbtty.c:28-53 | column i, line j of a cell has color 0xf49445 if bit 7 - i of byte j of the character's glyph is set, else 0x180a0a |
| ScreenLaws.TextOnScreen | Kernel/src/drivers/tty/fbtty.c:30-77 | after any text from a blank screen every pixel of every cell shows the last (h - 1) / height lines of the text, wrapped at (w - 1) / width characters |
| ScreenLaws.MarginIsBlank | Kernel/src/drivers/tty/fbtty.c:98-113 | no pixel outside the cells is ever lit |
| ScreenLaws.WrapAtNewline | Kernel/src/drivers/tty/fbtty.c:41-45 | a newline ends a line, and what follows is wrapped on its own |
| ScreenLaws.WrapPlain | Kernel/src/drivers/tty/fbtty.c:55-64 | text without newlines fills lines one after the other, and loses no character |
| Locks.ProgramIsDisciplined | Kernel/src/mm/mm.c:45-129 | whatever of the modelled calls a core makes, it nests its locks in the order pagemap, mm, printf, fbtty, efifb, and the lock of the starting cores before printf |
| LockLaws.CallTakesLocks | Kernel/src/mm/mm.c:45-129 | each call takes the lock of its data once, a growing krealloc three times in a row, a map the page map's and under it the allocator's once for each table |
| LockLaws.CallIsInside | Kernel/src/mm/vmm.c:39-62 | all a call does, printing included, lies between its first lock and its last release |
| LockLaws.PrintfTakesLocks | Kernel/src/printf.c:914-923 | a printf takes its lock once, the terminal's once for each character shown, the framebuffer's once for each driver call, and emits each character once |
| LockRuns.StepKeepsInv | Kernel/inc/sys/spinlock.h:15-22 | a test-and-set, a clear or a character keeps: each taken lock has one holder, and the console is whole texts plus the holder's |
| LockRuns.SomeCoreSteps | Kernel/inc/sys/spinlock.h:15-18 | from any waiting core, following locks to their holders finds a core that does not wait |
| LockRuns.LocksAreSafe | Kernel/inc/sys/spinlock.h:15-22 | in every interleaving each lock has at most one holder and some core can step until all are done |
| LockRuns.PrintfsAreContiguous | Kernel/src/printf.c:914-923 | in every interleaving, finished or not, the console is whole texts one after the other and then what the holder of the lock has printed; each core's texts are there in its order, and at the end all of them |
| LockRuns.AllCallsCanFinish | Kernel/inc/sys/spinlock.h:15-22 | from every reachable state some schedule finishes all calls |
| Panic.StepKeepsInv | Kernel/src/panic.c:44-102 | the invariant of the panic protocol is kept by every step of every core |
| Panic.PanicIsOneShot | Kernel/src/panic.c:53-102 | in every interleaving at most one banner and one broadcast, by the core that set is_halting, no NMI is reported as unexpected, and the panic lock is taken exactly while one core is inside, unless an NMI has stopped a core there |
| Panic.NothingReverts | Kernel/src/panic.c:44-94 | is_halting never reverts, no panicking core runs again, a halted core stays as it is, a panic inside panic is never reported |
| Panic.PanicStepsBounded | Kernel/src/panic.c:47-102 | panics and NMIs make at most eleven steps for each core |
| Panic.RestIsHalted | Kernel/src/panic.c:47-102 | when nothing is left to step after a panic, every core is halted, unless the panic hangs |
| Panic.PanicHaltsAllIff | Kernel/src/panic.c:53-94 | all cores can come to a halt if and only if the broadcast is out, or no core panicked inside panic or inside a printf the report waits for |
| Panic.HaltedReports | Kernel/src/panic.c:53-94 | when all cores have halted the banner was printed and the broadcast sent, once each |
| Panic.PanicInPrintfHangs | Kernel/src/panic.c:53-63 | a concrete run: a core that panics inside a printf never prints its banner |
| Witnesses.PanicWithinHangs | Kernel/src/panic.c:53-63 | another: a core that panics inside panic hangs, and no banner is ever printed |

## Left out

- Floating-point conversions (`_ftoa`, `_etoa`): IEEE doubles, not faithful over reals; a format that uses one is outside the domain, as is one that ends inside a conversion, where the code reads past the NUL.
- PrintfSpec.ParseConv: gives no meaning to the two kinds of format just named.
- FormatLaws.FormatIs: a conversion whose letter could also be a flag, a digit, a star, a point or a length modifier, as in `%lll`, has its meaning from `PrintfSpec` only.
- Printf.Output.NtoaLong: one model for `_ntoa_long` and `_ntoa_long_long`, whose bodies and widths are the same here.
- `sprintf_`, `vprintf_`, `vsnprintf_`, `fctprintf`: wrappers of the same engine with another limit or output function.
- PageAlloc.PageAllocator.Memcpy: copies 64-bit words, not bytes; all buffers it is used on are page aligned.
- PageAlloc.PageAllocator.MmInit: the pages of the tables are part of the state, but what the bitmap and the records look like there is not; they are arrays of their own. That they fit there is `BootSpec.BootFreeSet` and `MmLaws.RecordTableFits`, and that nothing else is written there `RunLaws.RunKeepsAllocatorTables` and `FailedMaps.FailedMapKeepsWords`. The bits that pad the last 32-bit word are taken as set.
- PageAlloc.PageAllocator.Krealloc: where the copy overwrites the tables the model stops, as what the code does next depends on the bytes of the buffer.
- Vmm.PageMap.MapPage: NULL pagemaps, which return false, are not modelled; neither are the TLB and the CR3 switch.
- BootTables.VmmInitOverlay: needs pages for all tables; maps that fail are covered by the lemmas of `DeadLinks`.
- ReallocLaws.KreallocFails: memory holds data only. A copy to address 0 can hit the kernel's code, its stack or page tables as well, and then the return it promises, and the contents `ReallocLaws.FailureKeepsBufferIff` speaks of, need not come about.
- DeadLinks.FailedMapIs: page 0, which a failed map clears, holds nothing the model knows of.
- SystemRuns.Enabled: kfree, krealloc and a map's allocations are steps of their own, but what one does under the allocator's lock is not divided.
- MmLaws.MallocKeepsLive: a buffer of length 0 has no pages and is not tracked as live; `ReallocLaws.KreallocOfEmptyIff` shows what can happen to it.
- Terminal.Fbtty.PutChar: characters from 128 on, whose index is negative in a signed `char`, and fonts wider than 8 pixels are outside the domain.
- Terminal.Fbtty.constructor: takes a matching font, a driver and the scrollback memory as given; the messages and early returns of `fbtty_module_init` are not modelled.
- `efifb_module_init`: maps and clears the framebuffer once; no property beyond those of the loops it calls.
- The lock calls inside the classes: one call is one step there, and `Locks` and `LockRuns` model the locks on their own, without data.
- Locks.ProgramIsDisciplined: the calls modelled are printf, those of the allocator and of the page tables, `mm_init` and the start of the other cores; locks in code that is not shown here are not part of it.
- LockRuns.LocksAreSafe: no core panics, interrupts are ignored, and steps are sequentially consistent.
- Panic.PanicIsOneShot: each printf of the report is one step that needs the printf lock free; the texts, `find_symbol` and the backtrace are not modelled, the only NMIs are those of the broadcast, and other interrupts are ignored.
- The messages kernel code prints on its way (`MM_PRINT`, the progress lines of `vmm_init`) are not part of the state of the allocator and the page tables.
- The bootloader's own copies of printf and of the page-table walk, and its firmware calls and file loading: they would only repeat what is here.
- Drivers for APIC, HPET, PCI and serial lines, descriptor tables, ACPI walks and symbol lookup: register access and simple scans.
