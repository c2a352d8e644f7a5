# Physical pages, page tables, keys and numbers

A Dafny model of the memory management of a small x86-64 kernel, with three smaller parts of the same
repository, and proofs about it.

**Page tables** (`words`, `page_tables`, `processor`, `paging_steps`, `clone_steps`, `paging_laws`,
`unmap_laws`, `paging`, `paging_runs`). Physical memory is a sequence of frames of 512 words of 64 bits, in
the format of 4-level paging (section 4.5 of the Intel SDM, Volume 3A). The meaning of a tree of tables is a
partial function: `LeafAt` gives the word of the page at a place of the tree, and a place is the path of
indices that leads to it. Class `Paging` maps, unmaps, resolves and clones step by step, entry by entry, and
takes its tables from the page allocator. Clone keeps its path indices in fields, as the program keeps them in
static variables. The translation cache is ghost state of the processor, which may fill or drop entries
between any two steps; INVLPG (section 4.10.4.1) and the load of CR3 act on it. `processor` says, in plain
numbers and apart from the program's own helpers, which bits of an entry and of an address mean what
(`Translation`); what map, unmap, clone and resolve promise about addresses is said in these terms.

**The page allocator** (`bitmaps`, `pmm_region`, `pmm_layout`, `pmm`, `pmm_padding`, `pmm_runs`). Regions with
bitmaps on the heap, the rotating caches of the search as fields, the binary search with its wrapping `size_t`
bounds, and the initialization from a memory map. The abstract view is the set of free frames.

**Printing** (`printing`): `itoa`, `utoa`, `strlen` and `strrev` on character arrays.
**Keyboard** (`keyboard`, `ps2_decoder`, `ps2_modifiers`, `ps2_keyboard`): the scan code decoder with its 13
states, modifier tracking, and the ring buffer of events.
**Dump analysis** (`coalesce`): the grouping of dumped pages into blocks.

The main results:

- After a clone, the processor translates every address in the clone to the same level and the same 64-bit
  word as in the source, and the source is unchanged; a map inside clone fails only for a page that was in the
  clone from the start (`ClonePageTable`, `CloneTable`, `Copied`).
- A map adds exactly one page and the missing tables on the way; an unmap removes exactly one page and frees
  exactly the tables that became empty, and changes nothing but present bits; mapping and unmapping restores
  every translation, table, free frame and region counter (`MappedTranslates`, `UnmappedTranslates`,
  `UnmapFreesTables`, `UnmapOnlyClears`, `MapThenUnmap`).
- Seen from outside a page table is a map from places to words: over every sequence of maps and unmaps, of any
  length, each request succeeds or fails as that map says, and in the end exactly those pages are there that
  were mapped and not unmapped since (`Perform`, `LastRequestDecides`). Besides requests whose size fits what
  is mapped all it takes is that the tables for the pages of each moment fit into the frames there are, and no
  tree can do with less (`TablesFit`).
- Whatever is mapped and whatever the flags, a map takes nothing away: every page the tree had stays, word for
  word. Only where free frames run out must frame 0 not be one of its tables (`MapPage`, `PagesStay`).
- Over every run of maps and unmaps the tables stay a tree, no frame leaks and none is lost (`RunKeeps`,
  `NoLeak`).
- After every map, unmap and clone all cached translations are right (`Ready`, kept by every operation), and
  they stay right when the kernel clones the active tree and loads CR3 with the clone (`CloneAndSwitch`).
- The allocator hands out some free page whenever there is one, despite its caches (`Alloc`), and over every
  run, in which every request is answered, no page is handed out twice without a free in between (`Serve`,
  `NoDoubleHandout`).
- Every 64-bit number survives printing and parsing; every sequence of complete scan codes is decoded into its
  events in order; the blocks of a dump are the only maximal ones that map what the pages map.

Where the program falls short of what it documents, the model follows the program and says where the line is:

- A region lookup for an address in no region ends with "not found" only for at most two regions (and not
  always for two); otherwise the window runs empty, its bounds wrap and the search reads past the table. That
  is the outcome `Stray` of `FindRegion`, and `SearchEnds` says exactly when it does not happen.
- `pmm_check_page` returns the masked byte, so a used page reads as `PMM_PAGE_USED` only at every eighth page,
  and as `PMM_PAGE_NOT_FOUND` at the page after it (`CheckPage`).
- `pmm_region_mark_page_used` and `_free` accept the address just past the region (`Region.MarkPageUsed`).
- A region whose page count is neither a multiple of 8 nor less than 8 can make the allocator pick a page past
  its end: after all its pages are taken and page 0 is given back, the next pick is the page just past the
  region. `PageCountCondition` proves over all runs of takes and gives that exactly these regions do that.
- The allocator's own data can lie in pages it hands out. `HandedOutPagesAreSafe` proves that it never does,
  over all runs, exactly if no usable page behind the computed pages is reached by the data; that is so if all
  page counts are multiples of 8. If one is, wanting pages until none is left gets it (`InitAndServe`).
  `MetadataMaySpill` is a memory map where a free page does hold some.
- `paging_map_page` does not test for a larger page on the way: it follows the word of that page as a pointer
  (`FollowedFromLargerPage`), overwrites data there and reports success. A map that reports success makes its
  address translate to the new leaf if and only if no larger page lies on the way; otherwise the address still
  translates to the larger page (`MapSucceedsIff`, and `MapPage` for the code).
- `paging_unmap_page` does not test that the size fits. An unmap that reports success leaves the address
  unmapped and everything else as it was, without losing a table, if and only if no larger page lies on the
  way and no table hangs at the place (`UnmapIsExact`, and `UnmapPage` for the code). A table that hangs there
  is lost with all below it (`UnmapOfTableLeaks`, `TableIsLost`). Under a larger page the program clears a bit
  of the data, and either no page changes or the whole larger page is gone and its frame freed
  (`UnmapUnderLargerPage`).
- Clone does not zero the root it allocates. A clone into a root that shows a page the source lacks never gets
  the pages of the source, whatever maps it consists of, since that page stays (`StaleRootSpoilsClone`); into
  any other root it does (`ClonePageTable`). Pages that start out blank stay so whenever they are free
  (`RunKeeps`).
- The documentation of `paging_map_page` promises an error when memory runs out. The program adds the HHDM
  offset before it compares with NULL, so it never sees that: frame 0 is zeroed and hooked in as a table
  (`Follow`, `OutOfFramesGoesUnnoticed`).
- The release of Print Screen is lost: line 463 of the keyboard driver enters the state meant for its press.
  There is one event per code exactly if it does not occur (`OneEventEach`).
- The counters of Shift and Strg count a repeat like a press and are 8 bits wide. The flag is set exactly if a
  key was ever pressed and the counter has not been 0 since the last press (`PairCounts`, over every stream).
  Where keys are released only when they are down, the flag is right exactly in two cases. With no key held
  the repeats must be 0 modulo 256, or 255 with both keys released since the last press; with one held, either
  none was released since the last press or the repeats are not 255 modulo 256 (`PairIsHeld`). A key that
  repeats once before its release leaves the flag set (`RepeatedShiftSticks`); after 255 repeats the flag can
  be lost while a key is held (`HeldShiftLost`).
- The dump tool masks the word of a leaf instead of taking its address field; its physical address is right
  exactly if the bits between are clear (`DumpPhys4kB`, `DumpPhys2MB`).

## Model

| member | source | states |
|---|---|---|
| Words.NumberField | kernel/include/memory/paging.h:90 | no frame number is lost in the 28-bit base address of a pointer |
| Words.RecreateLeaf | kernel/src/memory/paging.c:99-176 | rebuilding a leaf from its own extracted flags and address gives the same 64 bits, for every word, at all three levels |
| Words.LeafEntry | kernel/src/memory/paging.c:99-137 | a new leaf has the present and size bits of its flags; it holds the given address if and only if that is page-aligned and below 2^40 |
| Words.PointerEntry | kernel/src/memory/paging.c:99-137 | a pointer made for a table is present, not a large page, and names that table |
| Words.SplitJoin | kernel/src/memory/paging.c:71-84 | splitting the address made from four indices gives the indices back |
| Words.JoinSplit | kernel/src/memory/paging.c:197-200 | joining the indices of an address gives it back if and only if it is canonical and page-aligned |
| Processor.Entries | kernel/include/memory/paging.h:77-209 | bit 0 of an entry says that it is present, bit 7 that it is a large page, and bits 39..12 are the number of the next frame |
| Processor.Indices | kernel/src/memory/paging.c:197-200 | the indices of an address are its bits 47..39, 38..30, 29..21 and 20..12, as numbers |
| Processor.JoinedAddress | kernel/src/memory/paging.c:71-84 | the address made from four indices, as a number, with bit 47 repeated above |
| Processor.PageNumbers | kernel/src/memory/paging.c:197-200 | the number of the 4 KB, 2 MB or 1 GB page an address lies in is made of its indices |
| Processor.LeafAddresses | kernel/src/memory/paging.c:322-343 | the address in a leaf is the number of its physical page times the page size, at each level |
| Processor.MadeLeaf | kernel/src/memory/paging.c:99-137 | a leaf made from an address and flags holds the address from the page size up to bit 39 and the flags in all other bits |
| Processor.FlagsTaken | kernel/src/memory/paging.c:151-176 | the flags taken from an entry are its word without the address |
| Processor.Pointers | kernel/src/memory/paging.c:216 | the entry of a table in frame f is the number 4096 f + 3 |
| Processor.PresentBit | kernel/src/memory/paging.c:593 | clearing the present bit takes bit 0 away and leaves all other bits |
| PageTables.TableIffLeafBelow | kernel/src/memory/paging.c:41-59 | in a tree without empty tables there is a table at a place exactly if some page lies below it |
| PageTables.WriteElsewhere | kernel/src/memory/paging.c:195-289 | memory that agrees on the tables of a tree holds the same tables and pages |
| PageTables.WriteLeaf | kernel/src/memory/paging.c:286 | writing a leaf changes the page at that one place and moves no table |
| PageTables.LinkTable | kernel/src/memory/paging.c:206-217 | hooking a blank unused frame into an empty entry adds that table, no page, and keeps a tree |
| PageTables.UnlinkTable | kernel/src/memory/paging.c:53-58 | clearing the entry of a blank table removes that table, no page, and keeps a tree |
| PagingSteps.WalkFindsPage | kernel/src/memory/paging.c:302-344 | the walk is the translation of the processor and ends at the page that contains the address, and at most one page does |
| PagingSteps.WalkIsTranslation | kernel/src/memory/paging.c:302-344 | the walk of the code is the translation that the processor makes of the bits |
| PagingSteps.SlotIsPage | kernel/src/memory/paging.c:197-200 | two addresses have the same place in the tree exactly if they lie in the same page of that size |
| PagingSteps.SameLeavesSameWalk | kernel/src/memory/paging.c:302-344 | trees with the same pages translate every address alike, wherever their tables lie |
| PagingSteps.MappingLink | kernel/src/memory/paging.c:235-246 | a map that adds a missing table uses one free frame for it and changes no page and no other tree |
| PagingSteps.MappingPlace | kernel/src/memory/paging.c:286 | writing the leaf completes a map: one page more, tables populated, frames conserved, at most three of them used |
| PagingSteps.MappingInUse | kernel/src/memory/paging.c:281-285 | the entry is in use exactly if a page or table was there before, and then nothing has been changed yet |
| PagingSteps.UnmappingStart | kernel/src/memory/paging.c:592-593 | clearing the entry of a page removes that page only; at most its table may be empty now |
| PagingSteps.UnmappingFree | kernel/src/memory/paging.c:53-58 | unhooking an empty table makes its frame free, which it was not, and keeps all other pages and tables |
| PagingSteps.UnmappingOthers | kernel/src/memory/paging.c:552-606 | while a page is being unmapped no tree gains a page, and trees apart change nothing |
| PagingSteps.PagesStay | kernel/src/memory/paging.c:195-289 | if memory has changed only in words without the present bit, or in frames that are no tables of the tree, every page of the tree is as it was, word for word |
| PagingSteps.NewPointer | kernel/src/memory/paging.c:216 | the entry of a table that a map hooks in has bits 0 and 1 set, present and writable, and names its frame |
| PagingSteps.OutOfFramesGoesUnnoticed | kernel/src/memory/paging.c:206-217 | with no frame left the missing table is frame 0: zeroed, hooked in, no error |
| CloneSteps.CloneStart | kernel/src/memory/paging.c:456-465 | a root whose pages the source has, too, is a clone of nothing so far |
| CloneSteps.BlankRoot | kernel/src/memory/paging.c:456-465 | a blank root is a tree of one table without pages |
| CloneSteps.SourceKept | kernel/src/memory/paging.c:467-532 | the source keeps all its tables and pages during a clone |
| CloneSteps.MirroredTable | kernel/src/memory/paging.c:467-532 | every table of the clone stands where the source has one |
| CloneSteps.MirrorCount | kernel/src/memory/paging.c:449-535 | the tables of the clone and those still missing for the next page are no more than the tables of the source |
| CloneSteps.PlaceIsFree | kernel/src/memory/paging.c:223-285 | no earlier map is in the way of the next page: its place is empty unless the page was there from the start, no table stands there, and no larger page lies on the way |
| CloneSteps.EnoughFrames | kernel/src/memory/paging.c:449-535 | so with as many free frames and tables of the clone as the source has tables there is always room for the next page |
| CloneSteps.EntryKind | kernel/src/memory/paging.c:470-497 | the tests of the walk tell exactly whether an entry is absent, a page or a pointer |
| CloneSteps.LeafVirtSlot | kernel/src/memory/paging.c:491 | the address made from the path indices belongs to the page at that path, at each level |
| CloneSteps.LeafCopy | kernel/src/memory/paging.c:490-493 | the flags taken from a page of the source can be mapped, and with its address they make the same word |
| CloneSteps.CloneMap | kernel/src/memory/paging.c:523-526 | mapping a page of the source at its own place copies that page and no other |
| CloneSteps.CloneHeld | kernel/src/memory/paging.c:281-285 | a page that the clone held from the start counts as copied |
| CloneSteps.Copied | kernel/src/memory/paging.c:493 | the map of a page not yet copied fails only if it was there from the start, and either way it is there after it |
| CloneSteps.OnlyTheEntry | kernel/src/memory/paging.c:470-473 | below an entry that is no pointer there is no page |
| CloneSteps.CloneComplete | kernel/src/memory/paging.c:449-535 | once all places are done the clone has exactly the pages of the source |
| PagingLaws.MappedTranslates | kernel/src/memory/paging.c:195-289 | after a map exactly the addresses with the same page number translate to the new leaf, which holds the address and the flags, and all others as before |
| PagingLaws.UnmappedTranslates | kernel/src/memory/paging.c:552-606 | after an unmap exactly the addresses with the same page number translate to nothing, all others as before |
| PagingLaws.PdprWords | kernel/src/memory/paging.c:316-325 | in a PDPR a word with bits 0 and 7 is a 1 GB page at its bits 39..30, and one with bit 0 only leads to the page directory its bits 39..12 name |
| PagingLaws.PdWords | kernel/src/memory/paging.c:327-334 | the same in a page directory, for a 2 MB page at bits 39..21 |
| PagingLaws.MapAddsTables | kernel/src/memory/paging.c:195-289 | a map adds a table exactly at the places on the way that had none |
| PagingLaws.UnmapFreesTables | kernel/src/memory/paging.c:595-601 | an unmap removes exactly the tables that hold no other page, and exactly their frames become free |
| PagingLaws.SamePlaces | kernel/src/memory/paging.c:41-59 | populated trees with the same pages have their tables at the same places |
| PagingLaws.SameSize | kernel/src/memory/paging.c:41-59 | and use equally many frames |
| PagingLaws.MapUnmapRestores | kernel/src/memory/paging.c:552-638 | mapping a fresh page and unmapping it restores every page, every table and the free frames |
| PagingLaws.FreshMapSucceeds | kernel/src/memory/paging.c:281-288 | a map at a free place succeeds, and leaves what an unmap of that page needs |
| PagingLaws.UnmapSucceeds | kernel/src/memory/paging.c:552-606 | the unmap of a page that is there succeeds |
| PagingLaws.OutcomesAreSteps | kernel/src/memory/paging.c:195-606 | whatever map and unmap come to, success or error, is a step of a run |
| PagingLaws.StepKeeps | kernel/src/memory/paging.c:195-606 | one step keeps a populated tree apart from the free frames and conserves all frames |
| PagingLaws.RunKeeps | kernel/src/memory/paging.c:195-606 | so does every run, and free frames that start out blank stay blank |
| PagingLaws.NoLeak | kernel/src/memory/paging.c:195-606 | whenever the same pages are mapped again as many frames are free again |
| PagingLaws.FollowedIsTable | kernel/src/memory/paging.c:206-279 | where no larger page lies on the way, following every entry as a pointer leads to the table of the page |
| PagingLaws.FollowedIntoPage | kernel/src/memory/paging.c:249 | the frame followed from the word of a large page lies in that page |
| PagingLaws.FollowedFromLargerPage | kernel/src/memory/paging.c:249 | right under a larger page it is the word of that page that is followed as a pointer |
| PagingLaws.MapSucceedsIff | kernel/src/memory/paging.c:195-289 | once a map has reported success the address translates to the new leaf if and only if no larger page lies on the way; otherwise it still translates as before |
| PagingLaws.UnmapOfTableLeaks | kernel/src/memory/paging.c:574-601 | unmapping a large page where a table hangs leaves that table and every table below it neither reachable nor free, whatever the checks for empty tables do after it |
| UnmapLaws.WayIsUnmapWay | kernel/src/memory/paging.c:562-592 | where the size fits, the frames followed are the tables of the page, and an error means that one of them, or the large page itself, is absent |
| UnmapLaws.RemovedIsUnmapped | kernel/src/memory/paging.c:592-601 | if no table hangs at the place, clearing the entry and the checks up to the root remove exactly that page and the tables that became empty |
| UnmapLaws.UnmappedBecomes | kernel/src/memory/paging.c:552-606 | where the size fits every address of the page translates to nothing afterwards, and all others as before |
| UnmapLaws.UnmapOnlyClears | kernel/src/memory/paging.c:552-606 | whatever is mapped and whatever the size, an unmap changes nothing in memory but bit 0 of words that have it set |
| UnmapLaws.TableIsLost | kernel/src/memory/paging.c:574-601 | if one hangs there it is neither part of the tree nor free afterwards |
| UnmapLaws.UnmapIsExact | kernel/src/memory/paging.c:552-606 | an unmap that reports success leaves the address unmapped, every other page as it was and no table lost, if and only if no larger page lies on the way and no table hangs at the place |
| UnmapLaws.UnmapUnderLargerPage | kernel/src/memory/paging.c:580-601 | right under a larger page: if no other word of the frame followed is odd, the whole larger page is gone and that frame is freed; otherwise no page changes |
| PagingLaws.StaleRootSpoilsClone | kernel/src/memory/paging.c:456-465 | over any maps, regular or not: a page the root shows and the source lacks stays, so the root never gets the pages of the source |
| Paging.Paging.constructor | kernel/src/memory/paging.c:451-454 | the path indices are 0 and nothing is cached |
| Paging.Paging.InvalidateTlb | kernel/src/memory/paging.c:21-29 | no translation of a page that contains the address stays cached, all others do |
| Paging.Paging.CoherentAfterMap | kernel/src/memory/paging.c:635 | after a map the cached translations are right even before INVLPG, in the mapped tree and in any other |
| Paging.Paging.Resolve | kernel/src/memory/paging.c:302-344 | the result is the address of the physical page that the processor translates to, as a number, or 0 |
| Paging.Paging.ZeroFrame | kernel/src/memory/paging.c:214 | one frame becomes zero and no other changes |
| Paging.Paging.Follow | kernel/src/memory/paging.c:206-221 | one level down, whatever is there: a present entry is followed and nothing changes; otherwise a free frame, or frame 0 if none is left, is zeroed and hooked in |
| Paging.Paging.Descend | kernel/src/memory/paging.c:206-221 | the same, and a new entry is 4096 times its frame plus 3; in a regular map what comes of it is the table there, old or new, with all pages and other frames unchanged |
| Paging.Paging.PlaceLeaf | kernel/src/memory/paging.c:281-288 | the leaf is written exactly if its entry is not present, and nothing else; in a regular map that is the outcome promised for the map |
| Paging.Paging.MapPageWithoutTlbInvalidation | kernel/src/memory/paging.c:195-289 | on any tree: replaces only words that are not present, outside the free frames, and just one where every entry followed is present; a regular map fails exactly if the place is in use, and then changes nothing, otherwise adds that page only, conserves frames and keeps the cache right |
| Paging.Paging.MapPage | kernel/src/memory/paging.c:626-638 | the same with INVLPG; after a regular map exactly the addresses of that page translate to the new leaf, which holds the address and the flags; on any tree all pages stay, and a success translates to the new leaf if and only if no larger page lies on the way |
| Paging.Paging.IsEmpty | kernel/src/memory/paging.c:43-51 | true exactly if no entry is present |
| Paging.Paging.FreeFrame | kernel/src/memory/paging.c:57 | exactly that frame becomes free |
| Paging.Paging.CheckForEmptyTable | kernel/src/memory/paging.c:41-59 | any frame without a present word is unhooked and freed, any other stays; where the size fits no page changes |
| Paging.Paging.ClearLeaf | kernel/src/memory/paging.c:593 | one bit is cleared; where the size fits that page is gone, no table moves, and only its own translation may be stale |
| Paging.Paging.FindPage | kernel/src/memory/paging.c:562-592 | the frames that the entries lead to, followed as pointers whatever they are, or an error at the first absent one |
| Paging.Paging.RemovePage | kernel/src/memory/paging.c:592-601 | the entry cleared and the checks from the bottom up, whatever is mapped; where the size fits the page and the tables that became empty are gone, never the root |
| Paging.Paging.FinishUnmap | kernel/src/memory/paging.c:603 | INVLPG drops the one translation that could be stale |
| Paging.Paging.UnmapPage | kernel/src/memory/paging.c:552-606 | on any tree: what it does to memory and free frames, no more than present bits cleared, nothing on an error, and success is exact if and only if the size fits; where it fits exactly the addresses of that page translate to nothing, the tables that became empty go, frames are conserved and no stale translation is left |
| Paging.Paging.MapThenUnmap | kernel/src/memory/paging.c:552-638 | restores every page, table and free frame, and the counter of every region |
| Paging.Paging.SetIndex | kernel/src/memory/paging.c:478-521 | storing the loop index keeps the static indices the path to the table and makes them the path to the entry |
| Paging.Paging.CloneLeaf | kernel/src/memory/paging.c:520-527 | the page at the path of the static indices is copied |
| Paging.Paging.CloneEntryOf | kernel/src/memory/paging.c:469-531 | one entry: everything at or below it is copied, and the static indices are the path to its table again |
| Paging.Paging.CloneTable | kernel/src/memory/paging.c:467-534 | a whole table, whatever the recursion below stores in the static indices |
| Paging.Paging.ClonePageTable | kernel/src/memory/paging.c:449-535 | the clone has exactly the pages of the source, word for word, for any root that shows no other page; the processor translates every address alike before and after, in both; frames are conserved |
| Paging.Paging.AllocateRoot | kernel/src/memory/paging.c:456-465 | the new root is a free page that nothing else uses |
| Paging.Paging.ClonePageTableFresh | kernel/src/memory/paging.c:449-535 | the same for a root that clone allocates |
| Paging.Paging.LoadCr3 | kernel/src/main.c:128 | loading CR3 with a tree of the same pages keeps every cached translation right |
| Paging.Paging.CloneAndSwitch | kernel/src/main.c:115-128 | the active tree is cloned and CR3 loaded with the clone: it is ready to work on, every address translates as before, and every cached translation is right |
| Bitmaps.MarkedBits | kernel/src/memory/pmm_region.c:26-28 | marking a page changes the bit of that page and of no other |
| Bitmaps.FullByte | kernel/src/memory/pmm.c:305 | a byte is 0xFF exactly if all its bits are set |
| Bitmaps.CountPositive | kernel/src/memory/pmm.c:286 | the count of clear bits is positive exactly if a page is free |
| Bitmaps.TakePage | kernel/src/memory/pmm_region.c:51-54 | marking a free page used takes that frame and lowers the count by one |
| Bitmaps.GivePage | kernel/src/memory/pmm_region.c:26-29 | marking a used page free gives that frame and raises the count by one |
| PmmRegion.TakeConsistent | kernel/src/memory/pmm_region.c:43-57 | for a free page the counter and bitmap stay in agreement and exactly that frame is taken |
| PmmRegion.GiveConsistent | kernel/src/memory/pmm_region.c:18-32 | for a used page of a usable region they stay in agreement and exactly that frame becomes free |
| PmmRegion.FreshRegion | kernel/src/memory/pmm_region.c:68-96 | a new region is consistent, with all pages free if usable and none otherwise |
| PmmRegion.Region.constructor | kernel/src/memory/pmm_region.c:68-96 | the struct and bitmap of a new region |
| PmmRegion.Region.MarkPageUsed | kernel/src/memory/pmm_region.c:43-57 | one bit is set and the counter goes down, wrapping at 0, for every address that passes the bound test; otherwise nothing changes |
| PmmRegion.Region.MarkPageFree | kernel/src/memory/pmm_region.c:18-32 | one bit is cleared and the counter goes up, wrapping, for every address that passes the bound test; otherwise nothing changes |
| PmmLayout.BitmapsDisjoint | kernel/src/memory/pmm.c:131-143 | the bitmaps start 48 bytes a region behind the base, lie in order, and do not overlap |
| PmmLayout.RequiredSize | kernel/src/memory/pmm.c:63-77 | 48 bytes a region and one bit a page, rounded up to bytes and then to pages |
| PmmLayout.BitmapExcess | kernel/src/memory/pmm.c:63-77 | rounding each bitmap up costs at most 7 bits a region, and nothing if the page counts are multiples of 8 |
| PmmLayout.MetadataSize | kernel/src/memory/pmm.c:63-77 | the data exceeds the computed bytes by less than one byte a region, and fits the computed pages if the page counts are multiples of 8 |
| PmmLayout.MetadataMaySpill | kernel/src/memory/pmm.c:117 | a memory map after whose init a free page holds some of the allocator's data |
| PmmLayout.FreePagesHoldNoMetadata | kernel/src/memory/pmm.c:156-169 | no free page holds the allocator's data if and only if the data reaches no usable page behind the computed ones |
| PmmLayout.FittingDataStays | kernel/src/memory/pmm.c:63-77 | it reaches none if it fits the computed pages |
| Pmm.TakeFromTable | kernel/src/memory/pmm.c:324 | taking a free page of one region takes exactly that frame from the allocator |
| Pmm.GiveToTable | kernel/src/memory/pmm.c:358 | giving a page back gives exactly that frame to the allocator |
| Pmm.FreeOfUsable | kernel/src/memory/pmm_region.c:85-95 | only frames of usable regions are ever free |
| Pmm.CountersFollowFrames | kernel/src/memory/pmm_region.c:18-57 | equal free frames mean equal counters, region by region |
| Pmm.ProbeInWindow | kernel/src/memory/pmm.c:202 | the probe lies in the middle of a window that is not empty, past the table for one that is, whatever wraps |
| Pmm.FindRegion | kernel/src/memory/pmm.c:188-228 | an address in a region is found, in at most floor(log2 n) + 1 probes; any other is not found, or the search runs past the table, exactly as SearchEnds says |
| Pmm.ScanNext | kernel/src/memory/pmm.c:283 | each step of a rotating scan looks at one more slot |
| Pmm.ScanAll | kernel/src/memory/pmm.c:275-283 | n steps see all n slots, from any cached position |
| Pmm.SomeByteNotFull | kernel/src/memory/pmm.c:286-308 | a positive counter means some byte is not 0xFF |
| Pmm.LowestClearIsPage | kernel/src/memory/pmm.c:314-319 | the lowest clear bit of any such byte is a free page of the region |
| PmmPadding.PageCountCondition | kernel/src/memory/pmm.c:302-319 | over every run of takes and gives from the fresh region on, the next page picked is one of the region's, if and only if the page count is a multiple of 8 or less than 8 |
| PmmPadding.TakesLowest | kernel/src/memory/pmm.c:295-327 | from the fresh region on pages are taken in order |
| PmmPadding.PastTheEndRun | kernel/src/memory/pmm.c:295-327 | in a region with padding, when all pages are taken and page 0 is given back, the next pick is the page just past the region |
| PmmPadding.TakeAnyPage | kernel/src/memory/pmm.c:294-327 | what alloc does in a region, with or without padding, is such a take |
| PmmPadding.GivePageBack | kernel/src/memory/pmm_region.c:18-32 | what free does to a taken page is such a give |
| Pmm.NothingFree | kernel/src/memory/pmm.c:333-334 | if every counter is 0 no frame is free |
| Pmm.Pmm.constructor | kernel/src/memory/pmm.c:11-16 | an allocator that manages nothing yet |
| Pmm.Pmm.FindClearBit | kernel/src/memory/pmm.c:314-316 | the lowest clear bit of a byte that has one |
| Pmm.Pmm.ScanBitmap | kernel/src/memory/pmm.c:295-319 | the scan stops at the first byte from the cached one on that is not 0xFF, caches it, and picks its lowest clear bit, for any bitmap |
| Pmm.Pmm.FindFreePage | kernel/src/memory/pmm.c:295-319 | in a region that is in order that is a free page of the region, for any cached byte |
| Pmm.Pmm.FindRegionWithFreePage | kernel/src/memory/pmm.c:275-292 | the first region from the cached one on that counts a free page, or none does |
| Pmm.Pmm.TakeFromRegion | kernel/src/memory/pmm.c:292-327 | a free page is taken, the one that the scan picks, and only that one |
| Pmm.Pmm.Alloc | kernel/src/memory/pmm.c:269-335 | NULL exactly if no frame is free; otherwise a free page, which is then the only one no longer free: the lowest clear bit of the first byte that is not full, from the cached one on, of the first region that counts a free page, from the cached one on |
| Pmm.Pmm.CheckPage | kernel/src/memory/pmm.c:241-254 | PMM_PAGE_FREE exactly if the frame is free, and otherwise 2 to the power of the page number modulo 8 |
| Pmm.Pmm.Free | kernel/src/memory/pmm.c:347-360 | exactly that frame becomes free; an address in no region changes nothing |
| Pmm.Pmm.DetectMemory | kernel/src/memory/pmm.c:40-54 | the number of entries and the pages of their total length |
| Pmm.Pmm.FindHost | kernel/src/memory/pmm.c:389-402 | the first usable entry large enough, or there is none |
| Pmm.Pmm.BuildRegions | kernel/src/memory/pmm.c:128-143 | one region for each entry, each with its own bitmap at its own place |
| Pmm.Pmm.MarkUsed | kernel/src/memory/pmm_region.c:43-57 | on a free page of the table: exactly that frame is no longer free |
| Pmm.Pmm.MarkMetadata | kernel/src/memory/pmm.c:158-169 | exactly the first required pages of the host region are no longer free |
| Pmm.Pmm.Install | kernel/src/memory/pmm.c:128-129 | the table built manages exactly the usable frames, all free |
| Pmm.Pmm.Init | kernel/src/memory/pmm.c:377-421 | succeeds exactly if some usable region is large enough; then exactly the usable frames but the first pages of the first such region are free |
| PmmRuns.ServiceConserves | kernel/src/memory/pmm.c:269-360 | free and held frames together stay the frames free at first, and none is both |
| PmmRuns.StaysHeld | kernel/src/memory/pmm.c:269-360 | a frame that is not freed stays held |
| PmmRuns.NoDoubleHandout | kernel/src/memory/pmm.c:269-360 | no page is handed out twice without a free in between |
| PmmRuns.HandedOutPagesAreFree | kernel/src/memory/pmm.c:269-421 | every page handed out after an init was free after it, so it is usable memory |
| PmmRuns.HandedOutPagesAreSafe | kernel/src/memory/pmm.c:269-421 | over all runs after an init no page handed out holds the allocator's data, if and only if that does not reach a usable page behind the computed ones |
| PmmRuns.EveryPageIsHandedOut | kernel/src/memory/pmm.c:269-335 | as many wishes for a page as there are free ones hand out every free page |
| PmmRuns.SpilledDataIsHandedOut | kernel/src/memory/pmm.c:269-421 | so where the allocator's data spills a page that holds some of it is handed out |
| PmmRuns.ServeOne | kernel/src/memory/pmm.c:269-360 | one request: a page wanted is handed out, or none is free; a page given back is free if it was held, and ignored otherwise |
| PmmRuns.Serve | kernel/src/memory/pmm.c:269-360 | any sequence of requests to the allocator is such a run, with the answer to each request |
| PmmRuns.InitAndServe | kernel/src/memory/pmm.c:269-421 | init and then any requests: every page handed out is usable memory, and holds none of the allocator's data if that does not spill; if it spills, wanting pages until none is left gets one that does |
| PagingRuns.LastRequestDecides | kernel/src/memory/paging.c:195-606 | in the end a page is there exactly if the last request that succeeded at its place was a map, with that word, or none did and it was there at first |
| PagingRuns.TablesFit | kernel/src/memory/paging.c:41-59 | the tables for the pages of a populated tree fit into as many frames as it has tables |
| PagingRuns.MapIsAfter | kernel/src/memory/paging.c:195-289 | a map succeeds, and changes the pages, as the map from places to words says |
| PagingRuns.UnmapIsAfter | kernel/src/memory/paging.c:552-606 | so does an unmap |
| PagingRuns.EnoughForMap | kernel/src/memory/paging.c:206-279 | where the tables for the pages with the new one fit into the frames there are, there is a free frame for each missing table |
| PagingRuns.PerformOne | kernel/src/memory/paging.c:195-638 | one request, performed on the tables; an unmap needs no free frame |
| PagingRuns.Perform | kernel/src/memory/paging.c:195-638 | any sequence of requests, of any length, whose tables fit at every moment: the answers and the pages are those of the map from places to words, the cache is right and frames are conserved |
| Printing.TruncatedDivision | libc/string/itoa.c:34-42 | quotient and remainder of a negative number are those of its absolute value, negated |
| Printing.DigitRoundTrip | libc/string/itoa.c:41 | the digits are 0 to 9 and a to z, in that order |
| Printing.ParseDigits | libc/string/utoa.c:26-33 | parsing the digits the loop produces, reversed, gives the number |
| Printing.PrintedNumber | libc/string/itoa.c:12-56 | for every 64-bit number and base 2 to 36 parsing the numeral gives it back, there is no leading zero, and 66 characters are enough |
| Printing.Strlen | libc/string/strlen.c:11-20 | the characters before the first NUL |
| Printing.Strrev | libc/string/strrev.c:8-24 | the string is reversed in place and nothing behind it changes |
| Printing.Utoa | libc/string/utoa.c:12-39 | the buffer holds the numeral of the number |
| Printing.Itoa | libc/string/itoa.c:12-56 | the buffer holds the signed numeral, for the smallest number, too |
| Keyboard.RecentRecent | kernel/src/drivers/keyboard.c:17-31 | dropping old events early or late leaves the same recent ones |
| Keyboard.KeyEventBuffer.constructor | kernel/src/drivers/keyboard.c:5-8 | an empty buffer |
| Keyboard.KeyEventBuffer.Append | kernel/src/drivers/keyboard.c:17-31 | the event comes last, and of 33 the oldest is dropped |
| Keyboard.KeyEventBuffer.Get | kernel/src/drivers/keyboard.c:43-56 | the oldest event is removed and returned; none exactly if the buffer is empty |
| Keyboard.KeyEventBuffer.Drain | kernel/src/cpu/interrupt_handler.c:81-85 | all events come out, first in, first out |
| Ps2Decoder.Concatenated | kernel/src/drivers/ps2_keyboard.c:401-588 | decoding two streams one after the other is decoding their concatenation |
| Ps2Decoder.OneCode | kernel/src/drivers/ps2_keyboard.c:401-588 | a complete scan code gives the stroke it stands for and ends in the normal state |
| Ps2Decoder.DecodesAll | kernel/src/drivers/ps2_keyboard.c:401-588 | so does every sequence of complete codes, in order |
| Ps2Decoder.OneEventEach | kernel/src/drivers/ps2_keyboard.c:460-464 | there is one event for each code if and only if Print Screen is never released |
| Ps2Decoder.NoCollisions | kernel/src/drivers/ps2_keyboard.c:193-206 | two codes go to the same place of the scan code table with the same direction only if they are the same, or a two-byte code ends like Print Screen or Pause |
| Ps2Decoder.AnyBytes | kernel/src/drivers/ps2_keyboard.c:401-588 | for any bytes: at most one event a byte, and the state for the release of Print Screen is never entered |
| Ps2Decoder.EveryByte | kernel/src/drivers/ps2_keyboard.c:401-553 | every byte in every state: it completes a code and gives its stroke, or a code goes on with it, or it gives nothing, and then the decoder is ready if a code should have ended and waits for the end of a long code otherwise; the only exception is 0xe0 0xb7 |
| Ps2Decoder.WaitsForEnd | kernel/src/drivers/ps2_keyboard.c:548-558 | while it waits no byte gives anything, until 0x37, 0xaa or 0xc5 |
| Ps2Decoder.Resynchronizes | kernel/src/drivers/ps2_keyboard.c:548-553 | two bytes bring the decoder back to the normal state from any state |
| Ps2Modifiers.FlagChanges | kernel/src/drivers/ps2_keyboard.c:320-340 | setting, clearing or toggling one flag changes no other |
| Ps2Modifiers.StrokeOnFlag | kernel/src/drivers/ps2_keyboard.c:223-345 | what one stroke does to one flag |
| Ps2Modifiers.FirstPress | kernel/src/drivers/ps2_keyboard.c:223-345 | the number that the first press of each key gives |
| Ps2Modifiers.LockIsParity | kernel/src/drivers/ps2_keyboard.c:320-325 | over every stream a lock flag is the parity of the presses of its key |
| Ps2Modifiers.SingleIsHeld | kernel/src/drivers/ps2_keyboard.c:331-340 | over every stream the flag of a single key is set exactly while the key is held |
| Ps2Modifiers.PairCounts | kernel/src/drivers/ps2_keyboard.c:250-292 | over every stream the counter is the presses less the releases, modulo 256, and the flag is set exactly if a key was ever pressed and the counter has not been 0 since the last press |
| Ps2Modifiers.OrderlyCounts | kernel/src/drivers/ps2_keyboard.c:250-292 | where keys are released only when they are down, presses less releases are the keys held plus all repeats |
| Ps2Modifiers.PairIsHeld | kernel/src/drivers/ps2_keyboard.c:250-292 | the flag tells whether a Shift (Strg) key is held if and only if: with none held, the repeats are 0 modulo 256, or 255 with both keys released since the last press; with one held, none was released since the last press or the repeats are not 255 modulo 256 |
| Ps2Modifiers.HeldShiftLost | kernel/src/drivers/ps2_keyboard.c:250-292 | both Shift keys held, 255 repeats, one released: the flag is cleared while the other key is held |
| Ps2Modifiers.RepeatedShiftSticks | kernel/src/drivers/ps2_keyboard.c:263-269 | press, press, release leaves the Shift flag set |
| Ps2Modifiers.FlagsAreNumber | kernel/src/drivers/ps2_keyboard.c:223-345 | over every stream the modifiers are the sum of 1, 2, 4, ..., 256 for the flags that the laws above say are set |
| Ps2Keyboard.EventsTrack | kernel/src/drivers/ps2_keyboard.c:567-584 | each event carries the modifiers tracked over all strokes up to it |
| Ps2Keyboard.EventsAreStamped | kernel/src/drivers/ps2_keyboard.c:567-584 | so each event carries that number for the strokes up to it |
| Ps2Keyboard.Driver.constructor | kernel/src/drivers/ps2_keyboard.c:225-228 | no modifiers, no keys counted, an empty buffer |
| Ps2Keyboard.Driver.CountKeys | kernel/src/drivers/ps2_keyboard.c:250-292 | the counter and flag of Shift or Strg after a stroke |
| Ps2Keyboard.Driver.SetModifiers | kernel/src/drivers/ps2_keyboard.c:223-345 | the static variables after a stroke, and the flags it returns |
| Ps2Keyboard.Driver.IrqCallback | kernel/src/drivers/ps2_keyboard.c:401-588 | one byte: the next state and modifiers, and the event it completes is appended |
| Ps2Keyboard.Driver.Receive | kernel/src/drivers/ps2_keyboard.c:401-588 | a stream of bytes: the buffer holds the 32 most recent of its events |
| Ps2Keyboard.Driver.TypeThenRead | kernel/src/cpu/interrupt_handler.c:79-90 | complete codes typed and then read give the 32 most recent of their events, in order, with the number of their modifiers |
| Coalesce.DumpPhys4kB | tools/paging/analyze_pt_dump.py:63-64 | the tool's physical address of a 4 KB page is the kernel's if and only if bit 11 is clear |
| Coalesce.DumpPhys2MB | tools/paging/analyze_pt_dump.py:63-64 | and of a 2 MB page if and only if bits 11 to 20 are clear |
| Coalesce.MapSize | tools/paging/analyze_pt_dump.py:142-150 | blocks map as many bytes as their sizes add up to |
| Coalesce.PagesHold | tools/paging/analyze_pt_dump.py:138 | the pages, each a block of 2^12 or 2^21 bytes, map exactly the address pairs that lie in them at the same offset |
| Coalesce.MaximalUnique | tools/paging/analyze_pt_dump.py:139-144 | there is only one way to divide a mapping into maximal blocks |
| Coalesce.GetMemoryBlocks | tools/paging/analyze_pt_dump.py:121-158 | the blocks map exactly what the pages hold, in the same order, their sizes add up to 2^12 for each 4 KB page and 2^21 for each 2 MB page, and no two neighbours could be joined |

## Left out

- Paging.Paging.MapPage: that success means the new translation only without a larger page on the way is stated for three free frames, flags with the present bit, and the size bit for large pages, which the program does not set. With fewer free frames than tables are missing the pages stay, but for a tree that uses frame 0; no more is said.
- Paging.Paging.UnmapPage: where the size does not fit, the frames found empty must be pages that were handed out; for anything else the program's counters and reads are off (see Free). For a 4 KB page it does not look whether the page is there, so success does not say that it was.
- UnmapLaws.UnmapUnderLargerPage: one size less than the larger page, and a frame in the page that is no table of the tree. For a 4 KB unmap under a 1 GB page, or where the data is a table, only that it is not exact (UnmapIsExact).
- Paging.Paging.MapThenUnmap: flags and sizes that fit, as for a map that keeps all its promises.
- PagingRuns.Perform: requests whose flags make a page of the size and whose size fits what is mapped.
- Paging.Paging.ClonePageTable: needs a root whose tree is in order, has no table in common with the source and shows no page that the source lacks, and enough frames. The root itself may be any frame that is not free. What the program's caller gets when frames run out halfway is not modelled.
- Paging.Paging.ClonePageTableFresh: needs all free pages to be blank, because the program does not zero the root and may be handed any of them.
- Paging.Paging.CloneAndSwitch: the same.
- PagingLaws.StaleRootSpoilsClone: only while no map of the run finds its frames exhausted and takes frame 0.
- PmmRegion.Region.MarkPageUsed: not for the address just past a region whose bitmap ends there; the program's write would go past the bitmap.
- PmmRegion.Region.MarkPageFree: the same.
- PmmPadding.PageCountCondition: one region by itself; that the cached byte may come from another region is covered, for regions in order, by Alloc.
- Pmm.Pmm.Free: callers free only pages that are handed out, or addresses in no region for which the lookup ends; for anything else the program's counters and reads are off.
- Pmm.Pmm.CheckPage: addresses in no region only where the lookup ends.
- Pmm.Pmm.Init: entries of the memory map are page-aligned, non-empty, above 0, sorted and disjoint, usable ones with a page count that is a multiple of 8 or less than 8, and their lengths add up to less than 2^64.
- Printing.Utoa: bases 2 to 36 and a buffer that is large enough, neither of which the program checks.
- Printing.Itoa: the same.
- Printing.Strrev: not for the empty string, for which the program's last index wraps; neither printer passes one.
- Ps2Modifiers.PairIsHeld: keys are released only when they are down; a release of a key that is up makes the counter wrap, and PairCounts says what the flag is then.
- The HHDM offset: it is added and subtracted at every access and cancels.
- Frame numbers of 2^28 and more, 5-level paging, several processors and the caches of the paging structures.
- Effective access rights through intermediate entries: clone rebuilds these as present and writable only; the claims are about the words of the leaves.
- The contents of free and of ordinary frames beyond their being blank or unchanged; the allocator's own data is on Dafny's heap, and only its addresses are modelled.
- `paging_dump_page_table`, `pmm_print_memmap`, logging, `printf`, the terminal and the framebuffer: output.
- GDT, IDT, PIC, PIT, serial port and PS/2 controller: hardware protocols.
- The names of keys: a key is its place in the scan code table, so the two places of Print Screen count as two; layouts and characters.
- The state before the keyboard driver is initialized is decoded as the program does, but its log message is not modelled.
- File handling, line parsing and the skipping of 1 GB pages in the dump tool.
