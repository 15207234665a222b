# PIVOS: page tables, frame allocator, process stack and UART

A model of the memory subsystem of the PIVOS kernel (AArch64) with proofs about it, and of the two
parts of the kernel that are stateful beside it: the process stack and the interrupt-driven UART.

- `Arithmetic`, `BitWord`: division facts, `ALIGN_UP`, 64-bit words with the most significant bit first.
- `FrameSet`, `Allocator`, `History`: the bitmap of page frames (`memory/allocator.c`) as an array of
  64-bit words, the set of claimed frames that it stands for, and whole histories of claims and frees.
- `Descriptor`, `PageTree`, `AddressSpace`: the VMSAv8-64 descriptors of the 4 KB granule (Arm Architecture
  Reference Manual, DDI 0487, "VMSAv8-64 translation table format descriptors"), the pointer tree of
  tables with the architectural walk over it, and what one edit may change in an address space.
- `InsertCalls`, `Teardown`, `MmuFacts`, `Mmu`: `memory/mmu.c`. Inserting a range is a sequence of unit
  maps; tearing a tree down is a recursive post-order walk that the explicit stack of the code has to
  reproduce.
- `Supply`: which frames a step takes from the allocator and what they are used for.
- `FarSplits`, `WrittenFacts`: what inserting as written does, and when it is right.
- `Departures`: concrete trees on which lines of `memory/mmu.c` go wrong.
- `Memory`: contexts, the two physical-space callbacks and `memory_init` over the boot tree.
- `Buffers`, `UartStream`, `Uart`: the slot stack, the byte ring, the byte streams of the UART.
- `ProcRun`, `Proc`: starting, suspending and ending processes.

`dafny verify dfyconfig.toml` checks the whole project.

## How the code is represented

- Code that changes memory is a class with methods (`Allocator`, `Mmu`, `Ring`, `Stack`, `Uart`,
  `Processes`), with the loops and branches of the source. Functions and lemmas describe what the
  methods have to achieve.
- `Mmu.mem` is physical memory as far as it holds tables: a map from frame number to 512 words. A table
  pointer is the number of its frame. A 64-bit descriptor is a natural number below 2^64 and a bit field
  of a C union is a quotient and a remainder; bitmap words are 64-bit vectors.
- A page number is an address divided by 4096. `Translate` is the flat map from virtual page to physical
  page and memory type that a tree stands for.
- `Space` is ghost state: the tables of an address space, each with its level, first page and the one slot
  that links it, and for each output page the virtual page that it backs. `Good` is the invariant of a space,
  `Advance(s, s', lo, hi, type, mode)` says what mapping the pages `lo..hi` may do: pages outside keep their
  translation, pages inside get the type and keep their physical page if they had one, frames newly
  claimed are exactly the new tables and the new outputs, memory of others is untouched.
  `AdvanceIn` says the same for any set of pages, and `Grows` where new tables may appear.
- `Supplied(s, s', lo, hi, ..)` says which frames: there is a list of claims, in increasing order of the pages they
  are for, each the first fit at its moment, that makes up the difference of the claimed sets; every claim is a new
  table, claimed for the first page of the range that it translates, or backs one page or one block that was
  unmapped, and every page that became mapped is backed by one of them.
- The source does not check the allocator's NULL at `mmu.c:79` and `mmu.c:513`. Methods return false or `None`
  there, and then `OutOfMemory` holds: no free page, or no free aligned run of 512 pages, was left. The space
  is well formed at that point and a prefix of the range, up to `reached`, is mapped.
- An insert as written ends with an `Outcome`: `Complete`, `NoFrame` (NULL), `NoSubtable` (the assertion of
  `mmu_get_subtable`), `Moves` (a block was split and its parts lead elsewhere) or `Overlaps` (a claim took frames
  that were claimed). The source goes on behind the last two; the model stops there. `last` is the state before
  such a step, in which exactly the pages `reached` are mapped.
- `mapped` and `released` are ghost records of the calls of `mmu_map_units` and `s_pages_dealloc`.

## Where the code departs from its intent

The plainly named method is the intended line. The line as written is modelled beside it, with the condition
under which it does what is intended.

| lines | as written | when it is right |
|---|---|---|
| `allocator.c:138` | `current_entry` has 32 bits, so the search does not see claims of pages 0..31 of a word | `NarrowSearchIff`: exactly when every aligned start before the first fit (every one, when nothing fits) is ruled out by a claim in the upper half of a word; otherwise claimed frames are handed out (`NarrowSearchOverlaps`, `ClaimSafeIff`); a claim of one page without alignment does not search. For the blocks of an insert, with tables and pages claimed between them: `Settled`, with as many free pages below every free block (`SpendsHarmless`, `InsertHarmless`); `OnePageSpoils` is a bitmap that one page makes harmful |
| `allocator.c:60-67` | `offset` is not reset after the first word | `FreedAsWrittenIff`, `FreeSafeIff`: exactly when the range starts a word or stays in one; every release of a teardown does (`TeardownTracked`) |
| `mmu.c:100` | `type & MMU_PAGE_ENTRY` also holds for a block | `LookupIff`, together with the next line |
| `mmu.c:348-366` | `mmu_find` has reduced the address already when it breaks out, so above level 3 it returns index 0 | `LookupIff`: exactly when the walk ends at level 3, or in an empty slot of a table whose slot 0 is empty too, or the page field of slot 0 names the page; in a space that owns its outputs the last means slot 0 itself; `LookupMisses` is a tree where it fails |
| `mmu.c:129-133` | the bytes up to the block boundary are used as a count of pages | `CallsIff`: exactly when `ByteCountHarmless`; the regions of the kernel and of a process are |
| `mmu.c:478-479` | the subtable is taken from `table_data.idx`, not `unit_number` | `InsertIff`: tables behind the first slot of a batch are forgotten, so exactly when their pages are mapped with the type already; `mmu_get_subtable` asserts (`mmu.c:233`) exactly when the first slot of such a batch holds no table (`Trips`); without such tables this line is right (`InsertHarmless`); `SubtableForgets` and `SubtableTrips` are trees where it fails |
| `mmu.c:429-434` | after a pop the index of the parent is not looked at | `StraysIff`, `TeardownStraysIff`: exactly when no table of level 1 or 2 has a table in slot 511; otherwise slot 512 is read (`DestroyTableAsWritten`); `TeardownStrays` is such a tree |
| `mmu.c:255-262` | the base address is shifted at the width of `int` | `SplitBlockEntryAsWritten`, `SplitPageIff`: no translation changes exactly when the block lies below 2 GB or in the last 2 GB of the 48-bit space; an insert splits such a block exactly when a page of the range is mapped by one above the level of its unit (`SplitsFar`, `TraverseAndAllocTablesAsWritten`); `SplitMoves` is a space where inserting one page does |

## Model

| member | source | states |
|---|---|---|
| BitWord.MaskBit | pivos/src/memory/allocator.c:12-15 | bit j, counted from the most significant one, of the mask for `number` pages at `offset` is set iff offset <= j < offset + number; a mask that runs over the end is cut off |
| BitWord.OrBit | pivos/src/memory/allocator.c:46-46 | `\|=` sets a page's bit iff the word or the mask had it |
| BitWord.AndNotBit | pivos/src/memory/allocator.c:63-63 | `&= ~mask` leaves a page's bit iff the word had it and the mask did not |
| BitWord.MaskedZero | pivos/src/memory/allocator.c:149-152 | word & mask is zero iff none of the masked bits is set |
| BitWord.LeadingZeros | pivos/src/memory/allocator.c:102-107 | counts to the first set bit: all bits before it are clear and it is set, or there is none |
| BitWord.Extensional | pivos/src/memory/allocator.c:8-10 | two bitmap words with the same bits are the same word |
| FrameSet.SameSetSameWords | pivos/src/memory/allocator.c:8-10 | a bitmap is determined by the set of frames it claims |
| FrameSet.ClaimWord | pivos/src/memory/allocator.c:44-46 | or-ing a mask into one word adds exactly the masked run of frames |
| FrameSet.FreeWord | pivos/src/memory/allocator.c:61-63 | masking one word removes exactly the masked run, cut off at the end of the word |
| FrameSet.FreedAsWrittenIff | pivos/src/memory/allocator.c:54-68 | freeing a claimed range as written removes exactly the range iff it starts a word or stays in one word |
| FrameSet.FreedAsWrittenLeaks | pivos/src/memory/allocator.c:54-68 | freeing 2 pages from page 63 leaves page 64 claimed; freeing 40 pages from page 33 leaves page 64 claimed and frees page 97, which is not in the range |
| FrameSet.FreedShifted | pivos/src/memory/allocator.c:54-68 | in every word after the first, the loop as written frees the pages of the range shifted by the offset of the first page, as far as they stay in the word |
| FrameSet.VisibleWords | pivos/src/memory/allocator.c:138-149 | cutting the words to 32 bits hides exactly the claims of pages 0..31 of each word |
| FrameSet.NarrowSearchIff | pivos/src/memory/allocator.c:138-152 | the 32-bit search gives the right answer, a run or NULL, iff every aligned start before the first fit (every one when nothing fits) has a claim in the upper half of a word |
| FrameSet.NarrowRun | pivos/src/memory/allocator.c:138-152 | the run it picks is the first fit under the same condition on the bitmap |
| FrameSet.NarrowBeforeFit | pivos/src/memory/allocator.c:138-152 | when something fits, the condition is about the starts before the first fit only |
| FrameSet.NarrowSearchOverlaps | pivos/src/memory/allocator.c:138-152 | with pages 0..31 claimed, a block claim of 512 pages as written gets page 0 |
| FrameSet.NarrowNoFit | pivos/src/memory/allocator.c:170-175 | when the 32-bit search reports failure, nothing fits, and the bitmap was harmless |
| FrameSet.ClaimedRun | pivos/src/memory/allocator.c:133-176 | the run that a claim as written picks, through the fast path or the 32-bit search, is the first fit, and is free, iff the claim is harmless |
| FrameSet.SettledHarmless | pivos/src/memory/allocator.c:138-152 | when every block of 512 pages that is claimed in part shows it in the upper half of a word, a block claim as written is right |
| FrameSet.PageClaimSettled | pivos/src/memory/allocator.c:89-115 | claiming the least free page keeps this while a free page is left below every free block |
| FrameSet.BlockClaimSettled | pivos/src/memory/allocator.c:133-176 | claiming the first free block keeps it |
| FrameSet.SpendsHarmless | pivos/src/memory/allocator.c:133-176 | after any claims of blocks and at most k claims of single pages a block claim as written is right, when k pages were free below every free block |
| FrameSet.OnePageSpoils | pivos/src/memory/allocator.c:138-152 | with exactly the first block claimed a block claim as written is right, and no longer after the claim of one page |
| FrameSet.LeastFreePage | pivos/src/memory/allocator.c:89-115 | the first fit for one page without alignment is the least free page |
| FrameSet.FirstFitUnique | pivos/src/memory/allocator.c:133-176 | there is at most one first fit |
| FrameSet.FastPathAgrees | pivos/src/memory/allocator.c:89-135 | the single-page fast path and the general search with number and align 1 pick the same page and leave the same words |
| FrameSet.FreeUndoesClaim | pivos/src/memory/allocator.c:37-68 | freeing a run after claiming it, when it was free before, restores every word of the bitmap |
| Allocator.Allocator.ClaimMultiplePages | pivos/src/memory/allocator.c:37-52 | adds exactly [page, page + number) to the claimed set, for any offset and across words |
| Allocator.Allocator.FreeMultiplePages | pivos/src/memory/allocator.c:54-68 | as written: removes exactly FreedAsWritten, which is the range when it starts a word or stays in one |
| Allocator.Allocator.FreeMultiplePagesReset | pivos/src/memory/allocator.c:54-68 | with the reset of offset: removes exactly [page, page + number) |
| Allocator.Allocator.ClaimSpecificPage | pivos/src/memory/allocator.c:25-29 | adds one page |
| Allocator.Allocator.FreeSpecificPage | pivos/src/memory/allocator.c:31-35 | removes one page |
| Allocator.Allocator.ClaimPage | pivos/src/memory/allocator.c:89-115 | claims the least free page, or returns NULL when every tracked page is claimed and changes nothing |
| Allocator.Allocator.SearchPages | pivos/src/memory/allocator.c:138-175 | claims exactly the run at the lowest multiple of align where number pages are free; NULL iff no such run fits; ends for every bitmap |
| Allocator.Allocator.ClaimPages | pivos/src/memory/allocator.c:133-176 | the same first fit through the fast path or the general search |
| Allocator.Allocator.SearchPagesAsWritten | pivos/src/memory/allocator.c:138-175 | as written: the first fit among what the 32-bit search sees; it overlaps frames that were claimed iff the bitmap was not harmless before the call; NULL only when nothing fits |
| Allocator.Allocator.ClaimPagesAsWritten | pivos/src/memory/allocator.c:133-176 | the same through the fast path, which is always right, or the search as written |
| Allocator.SearchedRun | pivos/src/memory/allocator.c:170-173 | the run that the search as written picks has a claimed page iff the bitmap was not harmless |
| Allocator.SearchSkips | pivos/src/memory/allocator.c:156-166 | the skip after a claimed page never jumps over a valid start and moves forward |
| Allocator.SearchBelow | pivos/src/memory/allocator.c:160-166 | with room for one more alignment below 2^32 the 32-bit arithmetic of the skip does not wrap |
| Allocator.SearchFits | pivos/src/memory/allocator.c:152-155 | a free word extends the free prefix of the candidate |
| Allocator.SearchEnds | pivos/src/memory/allocator.c:146-175 | when the loop ends, the candidate is the first fit, or nothing fits |
| Allocator.FreeInWord | pivos/src/memory/allocator.c:149-152 | the masked test of a word holds iff the run of frames is free |
| Allocator.FirstClear | pivos/src/memory/allocator.c:102-108 | the leading zeros of the negated word are the claimed pages before the first free one |
| Allocator.Allocator.ClaimRange | pivos/src/memory/allocator.c:117-131 | claims the pages from one address up to the other, one page when they are the same |
| Allocator.Allocator.FreePages | pivos/src/memory/allocator.c:201-206 | frees count pages from an address, with the loop as written |
| Allocator.Allocator.constructor | pivos/src/memory/allocator.c:72-87 | the new bitmap claims exactly the pages it lies in |
| History.AlwaysSafe | pivos/src/memory/allocator.c:37-206 | after any history of first-fit claims and of frees of any live allocation, as intended, live allocations are pairwise disjoint, disjoint from the reserved pages, and nothing else is claimed |
| History.HarmlessAlwaysSafe | pivos/src/memory/allocator.c:37-206 | the same for claims and frees as written, as long as each is harmless: every claim of one page, searches of harmless bitmaps, frees that start a word or stay in one |
| History.FreeKeepsSafe | pivos/src/memory/allocator.c:201-206 | freeing any live allocation keeps this |
| History.ClaimSafeIff | pivos/src/memory/allocator.c:133-176 | a claim as written keeps this iff it takes the fast path or the bitmap is harmless; otherwise a frame gets a second owner |
| History.ClaimKeepsSafe | pivos/src/memory/allocator.c:133-176 | a first-fit claim keeps this |
| History.FreeSafeIff | pivos/src/memory/allocator.c:54-68 | a free as written keeps this iff the allocation starts a word or stays in one; otherwise a page stays claimed that nobody owns |
| History.Claim | pivos/src/memory/allocator.c:133-176 | memory_allocator_claim_pages on the bitmap is a claim step of the history, or NULL |
| History.ClaimAsWritten | pivos/src/memory/allocator.c:133-176 | as written: a claim step as written, harmless iff it did not overlap, or NULL |
| History.FreeAsWritten | pivos/src/memory/allocator.c:201-206 | memory_allocator_free_pages of a live allocation is a free step as written, harmless when the range starts a word or stays in one |
| History.Free | pivos/src/memory/allocator.c:201-206 | with the reset of offset it is a free step for any live allocation |
| History.SizeAlignedFreesExactly | pivos/src/memory/mmu.c:450-453 | an allocation aligned to its power-of-two size, as the page-table manager requests them, is freed exactly |
| Descriptor.TableRoundTrip | pivos/src/memory/mmu.c:51-55 | a table descriptor decodes to the table it was built for, with or without the kernel-space bits in the pointer |
| Descriptor.PageRoundTrip | pivos/src/memory/mmu.c:214-228 | a page descriptor decodes to its page and memory type, for all pages below 2^48 bytes and types 0..7 |
| Descriptor.BlockRoundTrip | pivos/src/memory/mmu.c:180-212 | a block descriptor of level 1 or 2 decodes to its aligned page and memory type |
| Descriptor.OverrideKeepsAddress | pivos/src/memory/mmu.c:17-29 | overriding the memory type changes bits 2..4 only and the descriptor keeps kind and address |
| Descriptor.DecodeBounds | pivos/include/kernel/memory/mmu/reg.h:26-80 | decoded addresses are below 2^48 and aligned to the region of the level; no leaf at level 0, no table at level 3 |
| Descriptor.BlockFields | pivos/src/memory/mmu.c:31-44 | the block address is the page field with the bits below the block size dropped |
| Descriptor.SlotPagesIsRegionSize | pivos/include/kernel/memory/mmu/reg.h:82-85 | the pages of a slot are the region size of its level |
| Descriptor.WordsInNumbers | pivos/src/memory/mmu.c:164-228 | the words that the builders make, bit by bit: kind, AttrIndx, AP, access flag and address |
| Descriptor.DecodeInNumbers | pivos/include/kernel/memory/mmu/reg.h:26-80 | what any 64-bit word means at a level, in terms of its bits |
| Descriptor.SplitBaseIff | pivos/src/memory/mmu.c:251-263 | the uncast shift gives the base address of the block iff the address is below 2 GB |
| Descriptor.SplitPageIff | pivos/src/memory/mmu.c:251-263 | cut to the 48 bits of a descriptor, it leads to the block's pages iff the block lies below 2 GB or in the last 2 GB |
| Descriptor.HighBitsDropped | pivos/src/memory/mmu.c:193-225 | the builders drop the high 16 bits of an address |
| PageTree.WalkDown | pivos/src/memory/mmu.c:230-239 | the walk of any page of a table passes through that table |
| PageTree.TranslateFrame | pivos/src/memory/mmu.c:211-227 | rewriting one slot changes the translation of no page outside the slot |
| PageTree.WriteLeaf | pivos/src/memory/mmu.c:180-228 | a leaf or an empty word over one keeps the tree and gives exactly the pages of the slot their new mapping |
| PageTree.HangTable | pivos/src/memory/mmu.c:164-178 | linking a filled fresh table keeps the tree; the pages of the slot are translated by the slots of the new table, all others as before |
| AddressSpace.OverrideStep | pivos/src/memory/mmu.c:503-508 | retyping a leaf keeps every physical page and gives the pages of the slot the type |
| AddressSpace.KeepStep | pivos/src/memory/mmu.c:503-508 | a leaf that has the type already needs no edit |
| AddressSpace.CreateStep | pivos/src/memory/mmu.c:509-514 | a new leaf maps the pages of the slot to freshly claimed frames, or to themselves one to one, and changes nothing else |
| AddressSpace.TableStep | pivos/src/memory/mmu.c:306-313 | linking an empty table changes no translation and accounts for one claimed frame |
| AddressSpace.SplitStep | pivos/src/memory/mmu.c:241-286 | replacing a block by a table of its 512 parts changes no translation |
| AddressSpace.SplitInto | pivos/src/memory/mmu.c:265-283 | a block replaced by the parts of any run is translated to that run |
| AddressSpace.SkippingIff | pivos/src/memory/mmu.c:465-517 | skipping pages of a range does no harm iff they are mapped with the type already |
| AddressSpace.AdvanceThen | pivos/src/memory/mmu.c:455-521 | mapping adjacent ranges one after the other is mapping their union |
| AddressSpace.Undisturbed | pivos/src/proc.c:27-46 | a space keeps its invariant and all translations whatever happens to memory and bitmap outside its own frames |
| Supply.SuppliedTable | pivos/src/memory/mmu.c:306-329 | a new table in the first free frame is one first-fit claim for the page it was made for |
| Supply.SuppliedUnit | pivos/src/memory/mmu.c:509-514 | a unit backed by the first fit is one claim for its pages |
| Supply.SuppliedNone | pivos/src/memory/mmu.c:503-508 | without a claim no page becomes mapped |
| Supply.SuppliedThen | pivos/src/memory/mmu.c:455-521 | the claims of two steps, one after the other, are the claims of both together |
| Supply.NextTables | pivos/src/memory/mmu.c:299-331 | behind a page with a table of the level, new tables start at the next page or later |
| Supply.WholeThen | pivos/src/memory/mmu.c:136-143 | mapping blocks, or pages outside the whole blocks of a range, puts no new level-3 table among those blocks |
| InsertCalls.IntendedExact | pivos/src/memory/mmu.c:115-156 | the intended calls for a page-aligned range touch exactly its pages |
| InsertCalls.CallsIff | pivos/src/memory/mmu.c:115-156 | the calls as written, with 32-bit counts and 64-bit differences, touch exactly the range iff the byte count is harmless |
| InsertCalls.CallsExample | pivos/src/memory/mmu.c:129-133 | mapping 2 MB + 4 KB from one page below a block boundary starts with 4096 pages instead of one |
| FarSplits.FarArea | pivos/src/memory/mmu.c:299-331 | when one page of a table's range is mapped by a far block above the table's level, all are |
| FarSplits.FarLeaf | pivos/src/memory/mmu.c:321-329 | a block above the level is far iff its pages are, and splitting it is what such a page asks for |
| FarSplits.FarAfter | pivos/src/memory/mmu.c:455-521 | a page that would split a far block still would after other pages were mapped, unless one of those split it |
| Mmu.Mmu.CreateTable | pivos/src/memory/mmu.c:74-82 | claims the first free frame and clears all its 512 words |
| Mmu.Mmu.CreateTableEntry | pivos/src/memory/mmu.c:164-178 | writes one word: it decodes to the next table |
| Mmu.Mmu.CreateBlockEntry | pivos/src/memory/mmu.c:180-212 | writes one word: for an aligned address it decodes to that block and type |
| Mmu.Mmu.CreatePageEntry | pivos/src/memory/mmu.c:214-228 | writes one word: for an aligned address it decodes to that page and type |
| Mmu.Mmu.FillWithParts | pivos/src/memory/mmu.c:267-283 | fills a table with the 512 parts of a block, with its memory type |
| Mmu.Mmu.SplitBlockEntry | pivos/src/memory/mmu.c:241-286 | splits a block in place: no translation changes, the slot holds the new table |
| Mmu.Mmu.SplitBlockEntryAsWritten | pivos/src/memory/mmu.c:241-286 | as written: where every page of the block leads afterwards; no translation changes iff the block lies below 2 GB or in the last 2 GB, and then it is a split as intended |
| Mmu.Mmu.StepDown | pivos/src/memory/mmu.c:300-330 | one step down: to the table of the next level that covers the page, through a new table or a split if need be, without changing a translation |
| Mmu.Mmu.TraverseAndAllocTables | pivos/src/memory/mmu.c:288-337 | creates tables and splits blocks down to any level without changing a translation, even when a claim fails on the way, and returns the one slot that covers the address; new tables cover the address and lie in the first free frames |
| Mmu.Mmu.StepDownAsWritten | pivos/src/memory/mmu.c:300-330 | one step down with the split as written: to the table of the next level that covers the page without changing a translation, or a far block is split |
| Mmu.Mmu.TraverseAndAllocTablesAsWritten | pivos/src/memory/mmu.c:288-337 | as written: the same as intended, unless the page is mapped by a far block above the destination level; exactly then a split moves pages |
| Mmu.Mmu.GetPhysSpace | pivos/src/memory.c:14-23 | the first fit for aligned free frames, claimed, or the virtual address itself |
| Mmu.Mmu.GetPhysSpaceAsWritten | pivos/src/memory.c:14-23 | with the claim as written: the first fit among the claims it sees; it is the first fit, and the frames were free, iff the claim was harmless |
| Mmu.Mmu.CreateUnit | pivos/src/memory/mmu.c:509-514 | an empty slot becomes one leaf, backed by the first fit, or one to one |
| Mmu.Mmu.CreateUnitAsWritten | pivos/src/memory/mmu.c:509-514 | with the claim as written: the same, unless the unit is a claimed block and the bitmap is not harmless; exactly then the block overlaps claimed frames |
| Mmu.Mmu.RetypeEntry | pivos/src/memory/mmu.c:503-508 | a leaf ends with the requested type and keeps its frames; only bits 2..4 of its word change |
| Mmu.Mmu.FillTable | pivos/src/memory/mmu.c:476-502 | the holes of a level-3 table get the first free pages, one after another, its other pages the type |
| Mmu.Mmu.MapUnit | pivos/src/memory/mmu.c:465-517 | one unit is mapped, whichever branch it takes |
| Mmu.Mmu.MapUnits | pivos/src/memory/mmu.c:440-522 | any number of units is mapped, across tables, and nothing else changes; new tables and units take the first fits in the order of their pages; when a claim fails a prefix is mapped; new tables lie at the unit's level or above and cover pages of the range |
| Mmu.Mmu.MapBatch | pivos/src/memory/mmu.c:459-517 | the units of one table are mapped |
| Mmu.Mmu.MapTable | pivos/src/memory/mmu.c:455-521 | one iteration of the outer loop extends the units that are mapped |
| Mmu.Mmu.MapUnitAsWritten | pivos/src/memory/mmu.c:465-517 | as written: a later unit with a table is left as it is; the assertion of mmu_get_subtable fails iff the first slot of the batch holds no table then; an empty slot gets overlapping frames iff the block claim is not harmless |
| Mmu.Mmu.MapBatchAsWritten | pivos/src/memory/mmu.c:459-517 | the units of one table as written |
| Mmu.Mmu.MapTableAsWritten | pivos/src/memory/mmu.c:455-521 | one iteration of the outer loop as written extends the units that are done, or the call ends there |
| Mmu.Mmu.MapUnitsAsWritten | pivos/src/memory/mmu.c:440-522 | as written, with split, subtable and claims as written: all pages but those of forgotten tables are mapped, forgotten ones are untouched, the assertion fails iff the tables before the call say so, pages of a split block move iff a page of the range is mapped by a far block above the level, and a claim overlaps only when the bitmap is not harmless before it |
| Mmu.Mmu.MapMore | pivos/src/memory/mmu.c:130-134 | a guarded call for the next part of a range extends what is mapped |
| Mmu.Mmu.Insert | pivos/src/memory/mmu.c:115-156 | maps a page-aligned range: mapped pages keep their physical page, unmapped ones are backed by the first fits, claimed in the order of the pages with the tables on the way, all in the range get the type, none outside changes, the tree invariant and the account of claimed frames are kept, new tables cover pages of the range and none of level 3 lies among its whole blocks, and the calls are pages, blocks, pages; when a claim fails a prefix is mapped |
| Mmu.Mmu.InsertHead | pivos/src/memory/mmu.c:125-143 | the pages up to the block boundary and the blocks of such a range |
| Mmu.Mmu.InsertBlocks | pivos/src/memory/mmu.c:125-150 | the same for ranges with room for a block |
| Mmu.Mmu.InsertAsWritten | pivos/src/memory/mmu.c:115-156 | as written, on mmu_map_units as written, for a harmless byte count: all pages but the forgotten ones are mapped, through the calls as written; the assertion fails iff the tables before the call say so, a split moves pages iff the translations and tables before the call say so, a claim overlaps only when the bitmap is not harmless before it; until then tables and units take the first fits in the order of their pages |
| Mmu.Mmu.MapMoreAsWritten | pivos/src/memory/mmu.c:130-134 | a guarded call as written for the next part of a range extends what is mapped, or the insert ends there |
| Mmu.Mmu.InsertBlocksAsWritten | pivos/src/memory/mmu.c:125-150 | the insert as written for ranges with room for a block |
| WrittenFacts.InsertIff | pivos/src/memory/mmu.c:476-502 | an insert as written that comes to its end has mapped the range iff the pages of the forgotten tables were mapped with the type already |
| WrittenFacts.InsertHarmless | pivos/src/memory/mmu.c:115-156 | the insert as written maps the range unless memory runs out, when no level-3 table starts in the range except at its start or at the start of a level-2 table, no page is mapped by a far block above the level of its unit, and, when blocks are claimed, the bitmap is settled for the pages claimed beside them |
| WrittenFacts.BlocksPart | pivos/src/memory/mmu.c:136-143 | the blocks of the range, mapped as written, are its first part |
| WrittenFacts.PagesPart | pivos/src/memory/mmu.c:145-150 | mapping pages as written behind a part that is done extends it, and splits a far block iff it would have before the insert |
| WrittenFacts.ForgottenStays | pivos/src/memory/mmu.c:476-502 | a page of a forgotten table keeps its translation |
| MmuFacts.SubtableIff | pivos/src/memory/mmu.c:476-479 | two slots with tables never lead to the same one, so the subtable as written is right iff the unit is the first of the batch; for a first unit that is a block it is an output frame and no table |
| Mmu.Mmu.Find | pivos/src/memory/mmu.c:339-367 | ends in the slot in which the architectural walk of the page ends |
| Mmu.Mmu.FindAsWritten | pivos/src/memory/mmu.c:339-367 | as written: the right table and level, and index 0 above level 3 |
| Mmu.Mmu.VaToPa | pivos/src/memory/mmu.c:94-113 | the kernel pointer to what the architectural walk translates the address to: 0xFFFF_0000_0000_0000 + page * 4096 + the offset in the page, NULL when it is unmapped |
| Mmu.Mmu.VaToPaAsWritten | pivos/src/memory/mmu.c:94-113 | as written: the page field of slot 0 (of the slot itself at level 3) for any entry that is not empty; right iff that field names the page (or both slots are empty), for every space |
| MmuFacts.LookupIsWalk | pivos/src/memory/mmu.c:100-112 | decoding the found entry and adding the offset is the walk's answer |
| MmuFacts.LookupIff | pivos/src/memory/mmu.c:94-113 | what the entry at index 0 decodes to as written is the walk's answer iff this holds; in a space that owns its outputs iff slot 0 is the right slot and the page the first one its field names |
| Mmu.Mmu.Dealloc | pivos/src/memory/mmu.c:57-64 | one release: exactly these frames become free |
| Mmu.Mmu.VisitTop | pivos/src/memory/mmu.c:393-427 | one iteration skips, releases or pushes one slot, and what was released and what is pending stay the whole walk |
| Mmu.Mmu.PopTop | pivos/src/memory/mmu.c:429-434 | a complete table is released after everything below it |
| Mmu.Mmu.ReleaseSubtree | pivos/src/memory/mmu.c:384-435 | the stack loop releases exactly the recursive post-order walk, in its order, and ends |
| Mmu.Mmu.ReleaseSubtreeAsWritten | pivos/src/memory/mmu.c:384-435 | as written: the same, or it reads slot 512, exactly when Strays says so |
| Mmu.Mmu.DestroyEntry | pivos/src/memory/mmu.c:369-438 | releases what the entry owns and clears the entry |
| Mmu.Mmu.DestroyEntryAsWritten | pivos/src/memory/mmu.c:369-438 | as written: the same unless the stack loop strays |
| Mmu.Mmu.DestroyTable | pivos/src/memory/mmu.c:84-92 | releases every table and output of the space once, in post order, frees exactly these frames and touches no other memory |
| Mmu.Mmu.DestroyTableAsWritten | pivos/src/memory/mmu.c:84-92 | as written: it reads slot 512 of a table iff some table of level 1 or 2 has a table in slot 511, and otherwise does exactly the same |
| MmuFacts.StackDepth | pivos/src/memory/mmu.c:384-390 | the stack of tables never holds more than three entries |
| Teardown.TeardownExactly | pivos/src/memory/mmu.c:369-438 | the walk releases every table and every output of the space exactly once and nothing else |
| Teardown.ExactlyPages | pivos/src/memory/mmu.c:369-438 | releases that partition a set free that set |
| Teardown.TableAfterItsChildren | pivos/src/memory/mmu.c:429-433 | every table is released before the table that links it |
| Teardown.LeafBeforeItsTable | pivos/src/memory/mmu.c:398-427 | every page and block is released before the table that maps it |
| Teardown.TeardownTracked | pivos/src/memory/mmu.c:57-64 | every release of a teardown is a tracked range that the free loop as written frees exactly |
| Teardown.UniqueTable | pivos/src/memory/mmu.c:164-178 | two tables of a level that translate a common page are the same table |
| Teardown.StackNext | pivos/src/memory/mmu.c:398-407 | a slot without a table contributes its own release and one visit |
| Teardown.StackPush | pivos/src/memory/mmu.c:408-421 | pushing a table leaves the pending releases as they are and uses up one visit |
| Teardown.StraysIff | pivos/src/memory/mmu.c:429-434 | the loop as written strays below a table iff some table there, above level 3, has a table in slot 511 |
| Teardown.TeardownStraysIff | pivos/src/memory/mmu.c:84-92 | the whole teardown as written strays iff some table of level 1 or 2 has a table in slot 511 |
| Departures.TeardownStrays | pivos/src/memory/mmu.c:429-434 | an empty level-2 table in slot 511 of a level-1 table makes the teardown as written stray |
| Departures.LookupMisses | pivos/src/memory/mmu.c:348-366 | a block in slot 1 beside an empty slot 0 is looked up as NULL |
| Departures.SubtableTrips | pivos/src/memory/mmu.c:478-479 | with a block in slot 0 and a table of holes in slot 1, mapping both as written fails the assertion |
| Departures.SubtableForgets | pivos/src/memory/mmu.c:478-479 | with tables of holes in slots 0 and 1, mapping both as written leaves the second unmapped |
| Departures.SplitMoves | pivos/src/memory/mmu.c:255-262 | splitting a block at 2 GB as written moves its pages to the end of the 48-bit space, and inserting page 0 of that space splits it |
| Memory.CreateContext | pivos/src/memory.c:76-78 | a context starts as one cleared table in the first free frame and maps nothing |
| Memory.MapRegion | pivos/src/memory.c:84-89 | maps the region of a context through the callback of the map type, with the frames that Insert takes, or a prefix of it when a claim fails |
| Memory.MapRegionAsWritten | pivos/src/memory.c:84-89 | the region through the insert as written, with its exact outcomes |
| Memory.DestroyContext | pivos/src/memory.c:80-82 | frees exactly the frames that the context owns |
| Memory.Conservation | pivos/src/memory.c:76-89 | after creating a context and any sequence of maps, the context owns exactly the frames claimed since, and destroying it releases each once and restores the claimed set |
| Memory.BootTree | pivos/src/boot/mmu.S:148-171 | the boot tables are a well-formed tree that maps the first GB to itself |
| Memory.InitAllocator | pivos/src/memory.c:25-40 | exactly the frames below the end of the image and of the bitmap behind it, and 0xF_0000..0xF_FFFF, the peripherals, are reserved |
| Memory.ReservedIff | pivos/src/memory.c:36-40 | which frames memory_init reserves, in numbers |
| Memory.Init | pivos/src/memory.c:25-74 | through the insert as written, for every size of at least 4 GB that is a multiple of 2 MB: it succeeds when the image ends in the lower half of memory, and then every page below the size translates to itself, with AttrIndx 1 exactly in 0xF_0000..0xF_FFFF and 0 elsewhere, no other page is mapped, and the claimed frames are the reserved ones and the tables, which took the first free frames in the order of the pages |
| Memory.KernelStep | pivos/src/memory.c:64-71 | mapping one kernel region as written completes or runs out of memory: it cannot fail its assertion, splits no far block, makes no level-3 table and accounts for its tables |
| Memory.KernelSupplied | pivos/src/memory.c:64-71 | the tables of the next kernel region are the next first-fit claims |
| Memory.KernelHasRoom | pivos/src/memory.c:64-71 | with an image in the lower half of memory a page is free whatever tables were made |
| Memory.NewTablesBound | pivos/src/memory/mmu.c:306-313 | mapping whole blocks below n pages makes at most one level-1 table for 512 GB and one level-2 table for 1 GB, each begun |
| Memory.KernelMapped | pivos/src/memory.c:49-71 | the three regions over the boot tree compose to the kernel map |
| Memory.KernelRegionsHarmless | pivos/src/memory.c:49-71 | the byte count does no harm to the regions of the kernel |
| Buffers.Stack.constructor | pivos/include/kernel/buffer/stack.h:14-18 | an empty stack |
| Buffers.Stack.Full | pivos/include/kernel/buffer/stack.h:20-22 | full iff the length is the capacity |
| Buffers.Stack.Peek | pivos/include/kernel/buffer/stack.h:28-34 | the top slot, NULL when empty |
| Buffers.Stack.Alloc | pivos/include/kernel/buffer/stack.h:36-45 | the next slot, NULL when full |
| Buffers.Stack.Free | pivos/include/kernel/buffer/stack.h:47-51 | drops the top slot, nothing when empty |
| Buffers.Ring.constructor | pivos/include/kernel/buffer/ring.h:14-18 | an empty ring |
| Buffers.Ring.Write | pivos/include/kernel/buffer/ring.h:20-29 | appends the byte, or -1 and nothing when full |
| Buffers.Ring.Read | pivos/include/kernel/buffer/ring.h:31-40 | takes the oldest byte, or -1 when empty |
| Buffers.Ring.Free | pivos/include/kernel/buffer/ring.h:42-47 | drops the oldest bytes, as many as there are at most |
| Buffers.Ring.Available | pivos/include/kernel/buffer/ring.h:49-51 | the room that is left |
| Buffers.RingAppend | pivos/include/kernel/buffer/ring.h:25-27 | a byte written at the write index, which may have wrapped, is the last byte of the ring |
| Buffers.RingDrop | pivos/include/kernel/buffer/ring.h:36-45 | moving the read index, which may wrap, drops the oldest bytes |
| UartStream.StreamsAlways | pivos/src/dev/uart.c:11-95 | over every interleaving of calls, interrupts and hardware moves: sent + ring = accepted, delivered + ring + hardware FIFO = arrived, and what was handed over stays handed over |
| UartStream.MoveKeepsStreams | pivos/src/dev/uart.c:11-95 | each single move keeps both streams |
| UartStream.EmptyRings | pivos/src/dev/uart.c:45-81 | with an empty ring all accepted bytes were sent; with an empty hardware FIFO all arrived bytes are in the ring or delivered |
| Uart.Uart.constructor | pivos/src/dev/uart.c:123-131 | empty rings of 4096 bytes |
| Uart.Uart.HardwareMoves | pivos/src/dev/uart.c:45-81 | between two register accesses the hardware may drain and receive any number of bytes |
| Uart.Uart.SyncWrite | pivos/src/dev/uart.c:45-63 | moves bytes in order from the ring to the data register; 0: the ring is empty and the hardware FIFO has room, -1: the FIFO is full |
| Uart.Uart.SyncRead | pivos/src/dev/uart.c:65-81 | moves bytes in order to the ring; 0: the hardware FIFO is empty, -1: it is not and the ring is full; no byte is read without room for it |
| Uart.Uart.Queue | pivos/src/dev/uart.c:16-18 | one byte is accepted into the ring, or the ring is full |
| Uart.Uart.KdevWrite | pivos/src/dev/uart.c:11-24 | accepts a prefix of the bytes, all of them unless the ring is full, and leaves none unsent unless the hardware FIFO is full; with nothing to write or a full ring it does nothing |
| Uart.Uart.ReadNext | pivos/src/dev/uart.c:34-38 | one round: after a sync the oldest byte that was not delivered, or -1 when every arrived byte was |
| Uart.Uart.KdevRead | pivos/src/dev/uart.c:26-43 | stores the next delivered bytes in order and stops early only when every arrived byte was delivered; the hardware FIFO is then empty or the ring has room for one byte |
| Uart.Uart.KdevIsr | pivos/src/dev/uart.c:83-95 | syncs the directions that the interrupt status names and leaves the others alone: there is a moment after the transmit side at which its ring was empty or its FIFO full, and nothing was sent since |
| ProcRun.NestedRestores | pivos/src/proc.c:81-137 | a well-nested run from start to exit gives the parent its registers (x0 = 0), stack pointer, return address and address space back, and the claimed set is as it was before |
| ProcRun.RunKeepsSuspended | pivos/src/proc.c:81-137 | at every moment of such a run the suspended slots are untouched and every frame claimed since belongs to one running space |
| ProcRun.StartKeepsSuspended | pivos/src/proc.c:97-113 | a start keeps this |
| ProcRun.ExitKeepsSuspended | pivos/src/proc.c:126-137 | so does an exit |
| ProcRun.StepKeepsSuspended | pivos/src/proc.c:81-137 | each step of the running program, start or exit keeps this |
| ProcRun.StartRefused | pivos/src/proc.c:101-103 | a start is refused iff 16 processes run; then x0 gets the negative KSTATUS_PROC_STACK_FULL and nothing else changes |
| ProcRun.ExitRefused | pivos/src/proc.c:129-131 | an exit is refused iff it is the last process; then x0 gets the negative KSTATUS_PROC_LAST and nothing else changes |
| ProcRun.DepthBounded | pivos/src/proc.c:97-137 | over every run of steps there are between 1 and 16 processes |
| Proc.CreateMapped | pivos/src/proc.c:32-33 | a new mapped context maps exactly its region, to frames that were free and with its type, owns only such frames and disturbs no other space |
| Proc.ClaimsOfProcess | pivos/src/proc.c:32-34 | mapping the region of a process in an empty space claims two pages for tables and then one block |
| Proc.SpaceOfProcess | pivos/src/proc.c:32-34 | the level-0 table, the two tables and the block of a process are the first fits one after another; page v below 512 leads to page v of the block with AttrIndx 0, all others nowhere |
| Proc.ProcessRegionHarmless | pivos/src/proc.c:11-15 | the region of a process meets the guards on byte count and tables, and two pages are claimed beside its block |
| Proc.ProcessMappedAsWritten | pivos/src/proc.c:32-33 | the insert as written maps the region of a process in its empty space, to the frames of the intended line, unless memory runs out, when two free pages are left below every free block and blocks claimed in part show it |
| Proc.AllUndisturbed | pivos/src/proc.c:27-46 | all other spaces keep invariant and translations |
| Proc.DestroyedTop | pivos/src/proc.c:39-46 | destroying the top space leaves the spaces below as they were |
| Proc.Processes.constructor | pivos/src/proc.c:7-9 | no process |
| Proc.Processes.MemSwitch | pivos/src/proc.c:53-72 | the translation base is the table of the process with the number of processes as address-space number |
| Proc.Processes.SuspendProc | pivos/src/proc.c:81-87 | saves stack pointer, return address and registers in the slot |
| Proc.Processes.RestoreProc | pivos/src/proc.c:89-95 | restores them from the slot |
| Proc.Processes.InitProc | pivos/src/proc.c:74-79 | stack pointer and return address are the program offset |
| Proc.Processes.AllocProc | pivos/src/proc.c:27-37 | a slot and an address space of its own for a new process: its tables and its block are the first fits, it maps the first 2 MB to that block as normal memory and nothing else; or nothing when the stack is full |
| Proc.Processes.FreeProc | pivos/src/proc.c:39-47 | frees exactly the frames of the top process and returns its parent |
| Proc.Processes.Start | pivos/src/proc.c:97-113 | a start step of ProcRun: the parent's stack pointer, return address and registers are saved, x0 is 0, the child runs from 0x8_0000 in a space of its own that maps the first 2 MB to the first free block, the translations of all other processes stay; with 16 processes x0 is the error code and nothing else changes |
| Proc.Processes.Exit | pivos/src/proc.c:126-137 | an exit step of ProcRun: the parent gets registers, stack pointer, return address and space back and x0 is 0, the translations of all remaining processes stay; the last process gets the error code in x0 and nothing else changes |
| Proc.Processes.Exec | pivos/src/proc.c:115-122 | the first process: its own address space is current, maps the first 2 MB to the first free block, and it runs from 0x8_0000, which is mapped; processes below stay as they are |

## Left out

- Recovery after a NULL from the allocator: the source has none, so the methods of the model stop there.
- TLB and cache maintenance, barriers, several cores and walks during an edit; the interrupt status and enable registers.
- Access permissions, shareability and upper attributes: the builders write constants there, only address and memory type are followed.
- The `level` parameter of insert, traverse and find: the only value passed is 0.
- Bit fields wider than an `int` that are shifted without a cast (`mmu.c:46-55`, 36-bit fields): taken at 64 bits; the width is the compiler's choice.
- Allocator.Allocator.SearchPages: alignments that are not powers of two, for which `ALIGN_UP` is no rounding, and memories that end less than one alignment below 2^32 pages, where the 32-bit skip can wrap.
- Allocator.Allocator.ClaimPages: the same.
- Allocator.Allocator.SearchPagesAsWritten: the same.
- Allocator.Allocator.ClaimPagesAsWritten: the same.
- A claim that returns page 0 cannot be told from NULL in the source; the model tells them apart, and `memory_init` reserves page 0.
- Contents of data pages: the program number, the program table and the copy of the program in `kproc_init`, and the zeroing of memory other than tables.
- `memory_allocator_free_page` and `memory_allocator_free_range` beyond the loops they call, ring size and reset, `kproc_count`, `kproc_get`: one-line members.
- Spaces that mix both map types in one context: each operation is modelled for either type, the teardown only for spaces that own all their outputs.
- Mmu.Mmu.InsertAsWritten: says nothing about translations when the byte count is not harmless; CallsIff says which pages the calls touch then, and MapUnits what a call off a block boundary maps.
- Mmu.Mmu.MapUnitsAsWritten: ends where a split moves pages or a claim overlaps, and nothing is said about the units behind that; it also ends where the assertion of mmu_get_subtable fails, and what a kernel built without assertions writes to the frame of mapped data is not followed.
- Mmu.Mmu.CreateUnitAsWritten: says nothing about the space when its block overlaps frames that were claimed.
- WrittenFacts.InsertHarmless: the condition on block claims, Settled, is sufficient before the call; the exact one, NarrowHarmless, is stated for the bitmap at each claim (CreateUnitAsWritten), because it depends on the pages claimed in between.
- Mmu.Mmu.ReleaseSubtreeAsWritten: stops where the loop reads slot 512 of a table.
- UART initialisation, GIC, timer, `kdev_*` and `kcall_*` dispatch, `pool_in` and `pool_out`, the storage of debug assertions; calls and the ISR are atomic against each other because the calls hold the interrupt lock.
- The unlinked slots of the boot tables are taken to be zero: the clearing of that memory is not part of this model.
