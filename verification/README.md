# hukkaOS: verified models of the kernel's core

hukkaOS is a small x86_64 kernel. This project models, in Dafny, the parts of it that keep real invariants, and proves
what they promise or exactly when they do.

| part | modules |
|---|---|
| four-level page tables: translate, map, unmap, clone | `PageEntry`, `Paging`, `Mapping`, `Cloning`, `Isolation`, `PageTables`, `MappingCases`, `MappingLaws`, `DirtyTables`, `CloneSteps`, `MapEntries`, `SharedTables`, `SharedRuns`, `FramePool`, `Numbers`, `WordFields`, `PageNumbers`, `PagingLimits`, `CloneExample` |
| region allocator, its aligned wrapper, boot under the spinlock | `Bits`, `Regions`, `MemoryMap`, `Boot`, `PhysicalMemory` |
| bitmap page allocator | `BitWords`, `Bitmaps`, `BitmapNumbers`, `BitmapSetup`, `PageRuns`, `PageSafety`, `PageExhaustion`, `PageAllocator` |
| round-robin scheduler | `Scheduling`, `Scheduler` |
| snake game engine | `Snake`, `SnakeGame` |
| printers, memory copies, substring search | `Numerals`, `Conversion`, `MemoryBlocks` |

In each part a class or a set of methods follows the C code step by step (`PageTables`, `PhysicalMemory`,
`PageAllocator`, `Scheduler`, `SnakeGame`, `Conversion`, `MemoryBlocks`) and is proved against functions of the old
state; the properties over all states and runs are proved of those functions.

`dafny verify dfyconfig.toml` checks everything.

## How the code is modelled

- **Page tables.** Physical memory is identity mapped: a map from (frame, slot) to a 64-bit entry; a word never written
  reads 0. The root register is a parameter. Frames the allocator will hand out form a list, `pool`; `FreshPool` states
  what is assumed of them: the tables that their entries lead to are different, not in use, and without present words.
  An address need not be aligned: `create_or_get_table` asks `allocate_memory`, which need not return a frame
  (`FramePool.RawPageIsFrame`), and its entry leads to the frame below. That the tables are different is proved of every
  run of the region allocator (`FramePool.LivePagesAreDistinct`); the clone asks `aligned_alloc`, whose pages are frames
  (`FramePool.LivePagesAreGood`). `DirtyTables` drops the assumption about present words.
  `shape` records the one place of every table; it is bookkeeping of the proof and no result depends on it. The three
  nested loops of the clone are one recursive method with a loop, by level. A clone that follows a pointer with one of
  bits 52-63 set leaves the backed memory, which is the outcome `Fault`.
- **Constants.** `PAGE_LARGE` is 2 MB, bit 21, and unmapping tests it; translation tests bit 7. Both are kept.
- **Code against comments.** The comment above `clone_higher_half` says that it clears the lower half of the address
  space. The code copies all 512 entries, and so does the model.
- **Boot.** Each core's shared-memory accesses are separate steps (load and store of the total, the list slot, load and
  store of the counter), in any interleaving. The lock is one atomic test-and-set, and memory is sequentially
  consistent. Counters are 16 bits and the total 64 bits wide. The results need that N copies of both lists fit the
  12000-entry arrays.
- **Region allocator.** Addresses are 64 bits wide; headers are stored byte by byte. Blocks must be disjoint at the
  start: so they are after one boot pass (`MemoryMap.OneBootIsGood`) and never after two (`Boot.BootOverlaps`).
- **Bitmaps.** Page numbers pass through a 32-bit int, so a block has at most 2^31 pages (8 TiB). Page ranges of
  different blocks must be disjoint. They are when the regions of the memory map stay apart with their overruns
  (`BitmapSetup.SetupAllGood`), and for every sane map when all bitmaps fit (`PageSafety.FittingMapGood`).
- **Scheduler.** The process list is acyclic and starts at `process_table`; thread arrays and links are set up once.
- **Snake.** A play is a sequence of keys. Drawing and timing have no effect on the state.
- **Text.** `strstr` works on two terminated strings in one memory; copies on one memory with any overlap.

## Where the code departs from its intent

Each is a lemma with a concrete case, and where it limits a law, the law is proved with its exact condition.

- Unmapping clears a whole page table when the table's own address has bit 21 set, misses 2 MB pages whose entry has
  not, and never unmaps a 1 GB page (`PagingLimits.UnmapLosesNeighbour`, `PagingLimits.UnmapMissesMegaPage`; exact
  conditions: `Mapping.UnmapReaches`, `Mapping.UnmapExact`, `MappingLaws.UnmapUndoesMap`).
- The memory for a new page table need not be aligned: its entry then leads to the frame below, and when the address has
  bit 7 set it makes a huge page (`FramePool.NineteenPages`, `FramePool.TableAtNull`, `PagingLimits.MisalignedTableMaps`;
  exact conditions: `FramePool.RawPageIsFrame`, `FramePool.NextTable`, `MappingLaws.MapThenTranslate`).
- Mapping writes into the data of a covering huge page (`PagingLimits.MapUnderMegaPage`; exact condition:
  `MappingCases.MapUnderHugeExact`), uses uncleared tables (`PagingLimits.DirtyTableMaps`; exact condition:
  `DirtyTables.DirtyTableExact`), and goes on at address 0 when memory is out (`PagingLimits.MapWithoutMemory`; exact
  condition: `MappingLaws.MapMemoryExact`).
- The clone treats a 1 GB page as a table (`CloneExample.GigaSpaceClones`; exact condition: `Cloning.CloneExact`).
- All cores fill the block lists, so the free list overlaps (exact condition: `Boot.BootGood`).
- A bitmap is accounted for at the front of its pages but lies before them, so the last pages can run past the region
  and over the bitmap of the next (`PageSafety.PageCoversBitmap`; exact conditions: `PageSafety.FreePagesInside`,
  `PageExhaustion.BitmapsExact`).
- A huge request to `aligned_alloc` wraps around and yields too little memory (`Regions.WrappedRequest`; exact
  condition: `Regions.AlignedLayout`).
- The scheduler puts a killed current thread back to READY (`Scheduling.KilledThreadReturns`; exact condition:
  `Scheduling.KilledThreadStays`), and serves other processes only when the current one has no second READY thread
  (`Scheduling.OthersStarve`; exact conditions: `Scheduling.LeavesExact`, `Scheduling.OtherProcessRuns`).
- A leftover array entry can end a new snake game at its first move (`Snake.SecondGameEnds`; exact condition:
  `Snake.FirstMoveEnds`).

## Model

| member | source | states |
|---|---|---|
| `PageTables.AddressSpaces.Translate` | src/kernel/source/memory/paging.c:103-149 | the returned address is the four-level walk of `v` from the root, through 1 GB and 2 MB pages, 0 when some entry on the way is not present; as a number it is what a walk in arithmetic, without shifts and masks, reads |
| `PageTables.AddressSpaces.CreateOrGetTable` | src/kernel/source/memory/paging.c:188-198 | new memory, remaining pool and returned table are those of `CreateOrGet`: only a missing entry is filled, and no memory gives NULL and no change |
| `PageTables.AddressSpaces.Map4kbPage` | src/kernel/source/memory/paging.c:200-217 | the new state is `Map4kb` of the old one; from the invariant of all address spaces that invariant holds again and every address of the root reads what `AfterMap` computes; where the mapping takes effect the leaf holds `p` with all the flags, each new link is the allocated address, present and writable, and no other word is written |
| `PageTables.AddressSpaces.UnmapPage` | src/kernel/source/memory/paging.c:237-283 | the new memory is `Unmap` of the old one and every word that changes is 0; where no table lies in the data of a huge page, the invariant of all address spaces is kept, and `v` is untranslated exactly when its page is a 4 KB page or a 2 MB page whose entry has bit 21 set |
| `PageTables.AddressSpaces.FillTable` | src/kernel/source/memory/paging.c:325-367 | the nested copying loops compute `Fill`: memory, remaining pool, places of the new tables and outcome |
| `PageTables.AddressSpaces.CloneHigherHalf` | src/kernel/source/memory/paging.c:314-370 | the new state is that of the specification, NULL is returned exactly when the clone was given up, and otherwise every address outside 1 GB pages translates through the new root as it did through the original, with the flags of every entry on the way, and with the same leaf words |
| `PageEntry.SamePageIffIndices` | src/kernel/source/memory/paging.c:107-112 | two addresses lie in the same 4 KB page (bits 12-47) exactly when all four table indices agree |
| `PageEntry.RelinkFields` | src/kernel/source/memory/paging.c:334 | an entry rewritten to lead to a frame keeps its present and huge bits and leads to that frame |
| `PageEntry.PointerIsAddr` | src/kernel/source/memory/paging.c:327 | the pointer that the clone follows (only the low 12 bits masked) is the one the walk follows whenever it is a frame address |
| `PageEntry.PlainMappingTarget` | src/kernel/source/memory/paging.c:214 | a present flag, a frame address and flags that add no address bit give a present leaf that reads `p` plus the page offset |
| `PageEntry.TargetIsPlain` | src/kernel/source/memory/paging.c:214 | and only such arguments do: the converse |
| `PageNumbers.IndexNumber` | src/kernel/source/memory/paging.c:107-111 | in numbers: the index of level k is the address divided by 2^(12 + 9(k-1)), modulo 512 |
| `PageNumbers.AddrNumber` | src/kernel/source/memory/paging.c:75-78 | in numbers: the address in an entry is its value modulo 2^52, rounded down to a multiple of 4096 |
| `PageNumbers.SmallNumber` | src/kernel/source/memory/paging.c:148 | in numbers: a 4 KB page reads the frame's address plus the address modulo 4096 |
| `PageNumbers.MegaNumber` | src/kernel/source/memory/paging.c:138-140 | in numbers: a 2 MB page reads the entry's address rounded down to 2 MB plus the address modulo 2 MB |
| `PageNumbers.GigaNumber` | src/kernel/source/memory/paging.c:128-130 | in numbers: a 1 GB page reads the entry's address rounded down to 1 GB plus the address modulo 1 GB |
| `PageNumbers.RelinkNumber` | src/kernel/source/memory/paging.c:334 | in numbers: a rewritten entry is the frame's address plus the old entry modulo 4096 |
| `PageNumbers.LinkNumber` | src/kernel/source/memory/paging.c:195 | in numbers: the entry for a new table at a frame is its address plus 3 |
| `PageNumbers.WalkIsArithmetic` | src/kernel/source/memory/paging.c:103-149 | for every memory, root and address: the walk over words is the walk in arithmetic, with the same result or none |
| `PageNumbers.WalkEnds` | src/kernel/source/memory/paging.c:103-149 | a walk that ends at a present entry of level k reads the address in the entry, rounded down to the size of a page of that level, plus the address modulo that size; at an entry that is not present it reads nothing |
| `Paging.UniquePath` | src/kernel/source/memory/paging.c:114-148 | in a forest of tables, one table is reached from one root only and along one sequence of indices |
| `Paging.WalkFromTable` | src/kernel/source/memory/paging.c:114-148 | a walk can be resumed at the table it has reached at any level |
| `Paging.ReadersOfSlot` | src/kernel/source/memory/paging.c:114-148 | the walks that read the slot `v` uses at level k are exactly those from the same root with the same indices at level k and above |
| `Paging.StoreEffect` | src/kernel/source/memory/paging.c:213-214 | storing an entry that leads to no table changes the translations through its slot, as computed, and no other, in any address space |
| `Paging.StoreKeepsForest` | src/kernel/source/memory/paging.c:213-214 | such a store leaves every table with its one place |
| `Mapping.LinkKeepsWalk` | src/kernel/source/memory/paging.c:188-198 | linking a new table without present words changes no translation of any address space, unless its address makes a huge page |
| `Mapping.CreateOrGetStep` | src/kernel/source/memory/paging.c:188-198 | one step of the descent ends at the next table of the walk with all translations and the invariant kept, whether the table existed or had to be created, or at NULL with nothing changed |
| `Mapping.DescentReaches` | src/kernel/source/memory/paging.c:208-211 | the descent to any level reaches the table of the walk with all translations kept, takes exactly the addresses for the tables that were missing, and writes nothing that is not in use |
| `Mapping.MapResumes` | src/kernel/source/memory/paging.c:200-217 | mapping from any state of its own descent gives the same result |
| `Mapping.DescentEnds` | src/kernel/source/memory/paging.c:209-214 | after up to three new tables the leaf is written into the page table of the walk, all translations unchanged until then |
| `MapEntries.MapWrites` | src/kernel/source/memory/paging.c:188-217 | every word a mapping writes: the leaf of `v` is `p` with the flags (for plain arguments it leads to `p` and every other bit is that of the flags), each table that was missing is linked as its allocated address, present and writable, entries that led to tables are unchanged, and no other word of memory changes |
| `MapEntries.MapWritesExact` | src/kernel/source/memory/paging.c:200-217 | the same of every mapping that takes effect in its page, from the invariant |
| `MappingLaws.MapKeepsInv` | src/kernel/source/memory/paging.c:200-217 | every mapping keeps the forest of tables, the freshness of the pool, and all roots: with aligned addresses or not, over huge pages, and without memory |
| `MappingLaws.MapEffect` | src/kernel/source/memory/paging.c:200-217 | what every address of every address space translates to after any mapping: the new leaf in the page of `v`, or a 2 MB or 1 GB page around a table whose address has bit 7 set, or nothing new; all else as before |
| `MappingLaws.MapThenTranslate` | src/kernel/source/memory/paging.c:200-217 | every address of the page translates to `p` plus its offset if and only if a huge page is there already, or an address taken for a table makes a huge page that is there, or there is memory, the present bit is given, `p` is a frame address and the flags add no address bit |
| `Mapping.UnmapStores` | src/kernel/source/memory/paging.c:237-283 | for every memory: unmapping is at most one store of a zero entry, at the level that bit 21 of the directory entry selects, or changes the data of a huge page only |
| `MapEntries.UnmapWrites` | src/kernel/source/memory/paging.c:237-283 | for every memory: the entry that is cleared is 0 in all bits, every word that changes is 0, and no word changes but that entry or one in the data of a huge page |
| `Mapping.UnmapKeepsInv` | src/kernel/source/memory/paging.c:237-283 | unmapping keeps the invariant of all address spaces, also where a huge page is in the way |
| `Mapping.UnmapClears` | src/kernel/source/memory/paging.c:237-283 | exactly which addresses lose their translation, whatever the size of `v`'s page: with bit 21 of the directory entry all of its 2 MB, else a 4 KB page only; nothing else changes in this or another address space |
| `Mapping.UnmapReaches` | src/kernel/source/memory/paging.c:236-283 | `v` is untranslated afterwards if and only if its page is a 4 KB page or a 2 MB page whose entry has bit 21 set; otherwise no translation of any address space changes |
| `Mapping.UnmapExact` | src/kernel/source/memory/paging.c:236-283 | unmapping takes away exactly `v`'s page, 4 KB or 2 MB, if and only if bit 21 of the directory entry is set for a 2 MB page, and for a 4 KB page is clear or its page table has no other page; never for a 1 GB page |
| `Mapping.MapKeepsDirectory` | src/kernel/source/memory/paging.c:209-214 | mapping under an existing page table does not change how a later unmapping reads its directory entry |
| `Mapping.RegionWithoutTable` | src/kernel/source/memory/paging.c:271-274 | without a page table no address of the 2 MB region is mapped |
| `MappingLaws.UnmapUndoesMap` | src/kernel/source/memory/paging.c:200-283 | unmapping a page just mapped, and not mapped before, restores every translation of every address space if and only if: no address made a huge page, and the directory entry is not taken for a 2 MB page or its other pages were unmapped; or an address made a 2 MB page and has bit 21 set |
| `Cloning.FillTouches` | src/kernel/source/memory/paging.c:325-367 | a partial or complete copy writes only to its own table and to frames it took from the allocator, and gives places to taken frames only |
| `Cloning.FillShapes` | src/kernel/source/memory/paging.c:325-367 | every table of a complete copy is new and is reached by exactly one entry, even where the original shares tables |
| `Cloning.CopiedEntryKept` | src/kernel/source/memory/paging.c:327-334 | the entry rewritten to lead to a finished copy translates every address as the old entry did, whatever is copied later |
| `Cloning.FillWalks` | src/kernel/source/memory/paging.c:325-367 | after the loops every slot translates as the slot it was copied from |
| `Cloning.CloneKeepsForest` | src/kernel/source/memory/paging.c:314-370 | a complete clone is one more tree in the forest, disjoint from all other tables |
| `CloneSteps.CloneTakes` | src/kernel/source/memory/paging.c:314-370 | the clone takes a prefix of the pool and does the same whatever comes after it |
| `CloneSteps.CloneKeepsInv` | src/kernel/source/memory/paging.c:314-370 | complete or given up, a clone keeps the invariant and every translation of every existing root; a complete one is a new root; only the addresses it takes need to be aligned |
| `CloneSteps.CloneTranslates` | src/kernel/source/memory/paging.c:314-370 | outside 1 GB pages a complete clone translates as the original, whatever the rest of the pool |
| `Cloning.ClonePreserves` | src/kernel/source/memory/paging.c:314-370 | every address that is not under a 1 GB page translates through the clone as through the original; shared tables, 2 MB pages and any flags are allowed |
| `Cloning.CloneKeepsEntries` | src/kernel/source/memory/paging.c:327-361 | for every address and level at which the original's walk has a table, the clone's walk has one, and its entry has the same bits 0-11; it leads to a table, with bits 52-63 clear, where the old one does, and is the same word where it does not, but for 1 GB pages |
| `CloneSteps.CloneFlags` | src/kernel/source/memory/paging.c:314-370 | the same from the invariant, whatever the rest of the pool |
| `Cloning.CloneMovesGigaPage` | src/kernel/source/memory/paging.c:338-346 | an address in a 1 GB page reads the 1 GB page around the very frame that is taken for it, at a place in the pool counted from the tables before it |
| `Cloning.CloneExact` | src/kernel/source/memory/paging.c:314-370 | the clone translates all addresses as the original does if and only if the frame taken for each 1 GB page lies in the same 1 GB region as that page |
| `Cloning.CloneSparesOriginal` | src/kernel/source/memory/paging.c:314-370 | the original translates every address as before, shared tables or not, also when the clone fails half-way |
| `Cloning.FillCost` | src/kernel/source/memory/paging.c:325-367 | the copy of a table completes exactly when all pointers below are clean and the pool holds one frame per table; it takes exactly those |
| `Cloning.CloneCost` | src/kernel/source/memory/paging.c:314-370 | the clone completes if and only if every table pointer has bits 52-63 clear and the pool holds one frame for the root and one per path to a table; it then takes exactly that many; it is given up for want of memory only when the pool is used up, and with a fault only if some pointer is not clean |
| `Isolation.StepKeepsInv` | src/kernel/source/memory/paging.c:200-370 | each of map, unmap and clone keeps the invariant and all roots, with tables at aligned addresses or not |
| `Isolation.StepIsolated` | src/kernel/source/memory/paging.c:200-370 | a step changes translations of no root but the one it writes through |
| `Isolation.RunIsolated` | src/kernel/source/memory/paging.c:200-370 | over every run of maps, unmaps and clones, an address space that is not written through keeps every translation; the addresses that maps take need not be aligned |
| `Isolation.ForestOutsidePool` | src/kernel/source/memory/paging.c:315 | the invariant gives what the clone needs: no table it copies is one the allocator will hand out |
| `Isolation.CloneIsolated` | src/kernel/source/memory/paging.c:314-370 | a clone starts with the translations of the original; after any later run, maps with misaligned tables included, whichever of the two nothing was written through still has them |
| `CloneExample.GigaSpaceClones` | src/kernel/source/memory/paging.c:338-346 | a space with one 1 GB page is cloned, and translates alike if and only if that page is the first 1 GB, where the frame taken for it lies |
| `CloneExample.GigaPages` | src/kernel/source/memory/paging.c:338-346 | both cases occur |
| `CloneExample.SpaceClones` | src/kernel/source/memory/paging.c:314-370 | an address space that meets every condition of the laws about cloning: the clone completes, empties the pool and translates every address alike |
| `SharedTables.OriginalIsolated` | src/kernel/source/memory/paging.c:200-370 | an address space whose tables are shared in any way, apart from those of the state, keeps every translation over every run of table writes elsewhere |
| `SharedTables.SharedCloneIsolated` | src/kernel/source/memory/paging.c:314-370 | so does such an original against its clone; and the clone keeps its translations outside 1 GB pages over every run not written through it and under any change of memory outside the tables of the state |
| `SharedTables.OriginalUnmaps` | src/kernel/source/memory/paging.c:237-283 | unmapping through the original is such a change |
| `SharedTables.OriginalMaps` | src/kernel/source/memory/paging.c:200-217 | so is mapping through it, new tables included, aligned or not |
| `SharedRuns.PlayRuns` | src/kernel/source/memory/paging.c:200-370 | over every run that maps and unmaps through a sharing original in between table writes elsewhere, its tables hold what its own moves alone put there |
| `SharedRuns.SharedCloneRuns` | src/kernel/source/memory/paging.c:314-370 | hence after cloning an original shared within its levels, over every such run the clone keeps its translations outside 1 GB pages unless written through, and the original has those that the moves through it alone give |
| `FramePool.LivePagesAreGood` | src/kernel/source/memory/pmm.c:212-235 | over every run of the region allocator over blocks below 2^52, the pages of `aligned_alloc(4096, 4096)` are a pool as the clone needs it |
| `FramePool.LivePagesAreDistinct` | src/kernel/source/memory/pmm.c:164-235 | over every such run the tables that the addresses of live pages lead to are different, whether from `aligned_alloc` or `allocate_memory` |
| `FramePool.TableBelow` | src/kernel/source/memory/paging.c:76 | an entry leads to the frame at its address rounded down |
| `FramePool.RawPageIsFrame` | src/kernel/source/memory/paging.c:190 | `allocate_memory(4096)` gives a frame, and a table inside the allocation, if and only if the block taken from starts at a multiple of 4096 |
| `FramePool.NextTable` | src/kernel/source/memory/paging.c:190 | after n pages of `aligned_alloc(4096, 4096)` from a block at a multiple of 4096 the next table is asked for at base + 8199 n, a frame if and only if n is a multiple of 4096 |
| `FramePool.NineteenPages` | src/kernel/source/memory/paging.c:190-195 | after nineteen such pages from 1 MB that address is 0x126085, whose entry has bit 7 set |
| `FramePool.TableAtNull` | src/kernel/source/memory/pmm.c:107-110 | with a free region at address 0 the first table is asked for at 1, and its entry leads to frame 0 |
| `Numbers.FrameBelow` | src/kernel/source/memory/paging.c:76 | the address mask rounds a present and writable entry down to a multiple of 4096 |
| `Numbers.AlignedWord` | src/kernel/source/memory/paging.c:76 | a multiple of 4096 below 2^52 is unchanged by the address mask |
| `MappingCases.MapUnderHugePage` | src/kernel/source/memory/paging.c:200-217 | mapping a page that a 2 MB or 1 GB page covers changes no translation of any address space, when no table lies in the data taken for tables |
| `MappingCases.MapUnderHugeExact` | src/kernel/source/memory/paging.c:200-217 | hence the page reads `p` plus its offset if and only if the huge page mapped it there before |
| `MappingCases.HugeLinkStep` | src/kernel/source/memory/paging.c:190-197 | a link whose address has bit 7 set makes the addresses that go through it read a huge page around the table, and changes no other translation |
| `MappingCases.MapWithoutTables` | src/kernel/source/memory/paging.c:191-213 | with fewer frames than missing tables no translation changes and the mapping is stored in page 0 |
| `MappingLaws.MapMemoryExact` | src/kernel/source/memory/paging.c:188-217 | a plain mapping whose tables make no huge page takes effect if and only if the pool holds a frame for each table the walk lacks |
| `DirtyTables.AnyPageTable` | src/kernel/source/memory/paging.c:190-214 | with one missing table, whatever its frame holds and however it is aligned: the page of `v` reads the leaf, or a 2 MB page around the table if the address has bit 7 set |
| `DirtyTables.DirtyWalks` | src/kernel/source/memory/paging.c:190-214 | what every other address translates to when the frame of the new page table may hold anything |
| `DirtyTables.DirtyTableExact` | src/kernel/source/memory/paging.c:190-214 | with up to three missing tables, all but the last without present words, mapping changes no page but `v`'s if and only if no other word of the last frame has the present bit |
| `PagingLimits.UnmapLosesNeighbour` | src/kernel/include/memory/paging.h:75 | a page table at address 2 MB has bit 21 set: unmapping the page at 0 also unmaps the page at 0x1000 |
| `PagingLimits.UnmapMissesMegaPage` | src/kernel/source/memory/paging.c:264-281 | a 2 MB page marked by bit 7 at an address with bit 21 clear is still translated after unmapping |
| `PagingLimits.MapUnderMegaPage` | src/kernel/source/memory/paging.c:209-214 | mapping a page that a 2 MB page covers writes into that page's data and does not change the translation |
| `PagingLimits.DirtyTableMaps` | src/kernel/source/memory/paging.c:190-195 | a new table is not cleared: leftovers in its frame become translations |
| `PagingLimits.MisalignedTableMaps` | src/kernel/source/memory/paging.c:190-214 | a table at 0x126085: the mapped page reads 0x1000, wherever it was to go |
| `PagingLimits.LinkExact` | src/kernel/source/memory/paging.c:195-197 | the entry written for a new table leads to the allocated address if and only if that is a frame address |
| `PagingLimits.MapWithoutMemory` | src/kernel/source/memory/paging.c:191-194 | without memory for tables the mapping is stored in the table at address 0 |
| `Bits.LowBitTest` | src/kernel/source/memory/pmm.c:217 | `a & (a - 1)` is 0 exactly for 0 and the powers of two |
| `Bits.MaskRoundsDown` | src/kernel/source/memory/pmm.c:229 | masking with the complement of a power of two less one rounds down to a multiple of it |
| `Regions.FirstFit` | src/kernel/source/memory/pmm.c:165-166 | the index of the first block that is large enough, or the number of blocks when none is |
| `Regions.AllocateTakes` | src/kernel/source/memory/pmm.c:164-174 | a success takes exactly the requested bytes from the lower end of one block and leaves the others alone; 0 means no block is large enough |
| `Regions.AlignUpBounds` | src/kernel/source/memory/pmm.c:229 | the pointer is aligned, leaves room for the header and stays within the padding |
| `Regions.AlignedLayout` | src/kernel/source/memory/pmm.c:212-235 | header and payload lie inside the allocated interval if and only if the padded size does not wrap around in 64 bits |
| `Regions.WrappedRequest` | src/kernel/source/memory/pmm.c:223 | a request that wraps: alignment 8 and 2^64 - 8 bytes get 7 bytes, and the payload reaches beyond them |
| `Regions.AlignedAllocExact` | src/kernel/source/memory/pmm.c:212-235 | for a request that does not wrap: it fails exactly when the alignment, taken as 8 at least, is no power of two or no block has size + alignment + 7 bytes; otherwise the first such block loses those bytes at its lower end, and the pointer is the only multiple of the alignment in the alignment bytes from 8 behind that block's start on |
| `Regions.LoadStored` | src/kernel/source/memory/pmm.c:232-239 | the header reads back what was stored, byte by byte |
| `Regions.StoredByte` | src/kernel/source/memory/pmm.c:233 | byte i of a stored header is the pointer divided by 256^i, modulo 256: lowest byte first |
| `Regions.AllocKeepsInv` | src/kernel/source/memory/pmm.c:164-174 | a plain allocation keeps the invariant of the ledger |
| `Regions.AllocAlignedKeepsInv` | src/kernel/source/memory/pmm.c:212-235 | so does an aligned one: its new header meets no live allocation |
| `Regions.WriteKeepsInv` | src/kernel/source/memory/pmm.c:231-239 | a client that writes its own payload leaves every header intact |
| `Regions.RunKeepsInv` | src/kernel/source/memory/pmm.c:164-235 | every allowed run of allocations and client writes keeps the invariant |
| `Regions.RunSafe` | src/kernel/source/memory/pmm.c:164-241 | over every run from good blocks: live intervals are apart from each other and from all free memory, each lies in one original block, free plus live bytes are constant, and `aligned_free` would recover every original pointer |
| `Regions.PagesAreFrames` | src/kernel/source/memory/pmm.c:212-235 | over every run the pages of `aligned_alloc(4096, 4096)` are distinct, page-aligned and not 0, and no other header lies in them |
| `PhysicalMemory.Manager.AddEntry` | src/kernel/source/memory/pmm.c:105-122 | one memory-map entry joins exactly one list, with the rule for address 0 |
| `PhysicalMemory.Manager.InitBlocks` | src/kernel/source/memory/pmm.c:86-130 | on one core the loop appends the classification of the whole map to both lists, adds its size to the total in 64 bits and leaves the lock free; from empty lists and a sane map each list holds exactly the entries of its type, in order |
| `PhysicalMemory.Manager.AllocateMemory` | src/kernel/source/memory/pmm.c:164-174 | the search loop with early return refines the first-fit specification |
| `PhysicalMemory.Manager.AllocateAligned` | src/kernel/source/memory/pmm.c:212-235 | the wrapper refines its specification, stored header included; not a power of two or no memory gives 0 |
| `PhysicalMemory.Manager.AlignedFree` | src/kernel/source/memory/pmm.c:237-241 | which address is passed on: for a live aligned allocation with its header intact the start of its interval; nothing for NULL |
| `MemoryMap.OneBootIsGood` | src/kernel/source/memory/pmm.c:98-126 | one pass over a sane memory map leaves free blocks that are apart, in range and not at address 0, as the region allocator requires |
| `MemoryMap.ClassificationConserves` | src/kernel/source/memory/pmm.c:98-126 | free and used bytes add up to the size of the map, but for the byte kept away from address 0 |
| `MemoryMap.ClassificationExact` | src/kernel/source/memory/pmm.c:98-126 | entry by entry, for a sane map: an entry of type 1 has its block in the free list, all of it but a byte at address 0, linked to the block before, and every other entry has its region in the used list; in the order of the map, and nothing else is in the lists |
| `MemoryMap.ReservedIsUsed` | src/kernel/source/memory/pmm.c:105-122 | no block of the free list touches an entry of a type other than 1, and that entry is in the used list |
| `Boot.HolderStep` | src/kernel/source/memory/pmm.c:98-126 | each shared-memory access of the core in the loop keeps the record of what is already in the lists |
| `Boot.StepKeepsInv` | src/kernel/source/hardware/lock/spinlock.c:36-48 | every step of every core keeps: one core at most in the critical section, the lock set exactly while one is, the lists whole copies plus the part the holder has done |
| `Boot.DonePublished` | src/kernel/source/memory/pmm.c:128 | when all have finished, the lists and the total are as many copies as there are cores, and the start is set |
| `Boot.BootSerialisable` | src/kernel/source/memory/pmm.c:86-130 | for any number of cores and any interleaving: mutual exclusion in every reachable state, and at the end free and used lists are exactly N concatenated classifications, the total is N times the map's size in 64 bits, and the start is that of the first entry, but 1 for free memory at address 0 |
| `Boot.StepWorks` | src/kernel/source/hardware/lock/spinlock.c:38-42 | a step is a spin (or of a finished core) and changes nothing, or uses up one unit of a finite amount of work |
| `Boot.BootProgresses` | src/kernel/source/hardware/lock/spinlock.c:36-48 | no deadlock: in every reachable state that is not final some core can do work |
| `Boot.BootEnds` | src/kernel/source/memory/pmm.c:86-130 | termination: every schedule of enough pieces that each schedule all cores ends with all cores finished and the lists published |
| `Boot.BootOverlaps` | src/kernel/source/kernel.c:18 | with two or more cores and any free memory, the free list left behind has overlapping blocks |
| `Boot.BootGood` | src/kernel/source/kernel.c:18 | the free list is what the region allocator needs if and only if there is one core at most or no free memory |
| `Bitmaps.GiveTakenRun` | src/kernel/source/memory/phys.c:154-192 | freeing a run that was free before it was allocated restores every word of the bitmap |
| `Bitmaps.TakeRunOnly` | src/kernel/source/memory/phys.c:159-162 | marking a run clears exactly the bits of its pages, across word boundaries |
| `Bitmaps.GiveRunOnly` | src/kernel/source/memory/phys.c:182-185 | freeing a run sets exactly the bits of its pages |
| `BitmapNumbers.FreeNumber` | src/kernel/source/memory/phys.c:94 | in numbers: page i is free when word i / 64 divided by 2^(i % 64) is odd |
| `Bitmaps.PageOfExact` | src/kernel/source/memory/phys.c:117-121 | the page of an address is the one whose 4096 bytes it lies in, whether the address is its start or not |
| `Bitmaps.FirstFreeExact` | src/kernel/source/memory/phys.c:91-98 | the least free page, or -1 exactly when no page is free, also after the conversion to int |
| `Bitmaps.FirstRunExact` | src/kernel/source/memory/phys.c:137-150 | from any state of the scan the result is the least start of a run, or -1 exactly when there is none |
| `Bitmaps.ContiguousSearch` | src/kernel/source/memory/phys.c:137-150 | for n of at least 1 the least start of n consecutive free pages, -1 exactly when there is none; for n = 0 always -1 |
| `PageRuns.AllocatePageFinds` | src/kernel/source/memory/phys.c:101-114 | a page comes from the first block that has one, at its least free page; NULL means that no page of any block is free |
| `PageRuns.AllocatePagesFinds` | src/kernel/source/memory/phys.c:154-169 | the same for runs of n pages |
| `PageRuns.FreePageFinds` | src/kernel/source/memory/phys.c:117-131 | with disjoint blocks the address of a page leads back to exactly its block and bit |
| `PageRuns.FreePagesFinds` | src/kernel/source/memory/phys.c:172-192 | the same for runs of pages |
| `PageRuns.FreePageRestores` | src/kernel/source/memory/phys.c:101-131 | freeing a page at the address it was handed out at restores every bitmap of every block |
| `PageRuns.FreePagesRestores` | src/kernel/source/memory/phys.c:154-192 | the same for runs of pages |
| `PageRuns.CountTaken` | src/kernel/source/memory/phys.c:154-169 | allocating n free pages lowers the number of free pages by exactly n |
| `PageRuns.CountGiven` | src/kernel/source/memory/phys.c:172-192 | freeing n taken pages raises it by exactly n |
| `PageRuns.StepKeeps` | src/kernel/source/memory/phys.c:101-192 | each allocation or free of a live allocation keeps the refinement: free bits are the initially free pages that no live allocation covers |
| `PageRuns.RunSafe` | src/kernel/source/memory/phys.c:101-192 | over every run: live allocations are pairwise disjoint and consist of initially free pages, every other bit is as at the start, free plus live pages are constant |
| `BitmapSetup.SetupFree` | src/kernel/source/memory/phys.c:46-70 | after setup the free pages are exactly those from the number of pages the bitmap is taken to fill on |
| `BitmapSetup.SetupAllExact` | src/kernel/source/memory/phys.c:41-74 | one block for each entry of type 1, in the order of the map, and none for the others |
| `BitmapSetup.LayoutBound` | src/kernel/source/memory/phys.c:46-71 | page p lies inside its region exactly under a bound on p, and all but the last bitmap-size pages do, for every region size |
| `BitmapSetup.LayoutExact` | src/kernel/source/memory/phys.c:46-71 | all pages that can be handed out lie inside the region if and only if there are none or the bitmap fits what the region has beyond whole pages |
| `BitmapSetup.SetupAllGood` | src/kernel/source/memory/phys.c:41-74 | setup of a memory map whose regions' pages, overrun included, stay apart gives valid blocks with disjoint page ranges |
| `PageSafety.SetupRunSafe` | src/kernel/source/memory/phys.c:31-192 | over every run after setup of such a map no two live allocations share memory and none touches any bitmap |
| `PageSafety.FittingMapGood` | src/kernel/source/memory/phys.c:41-74 | setup of any sane map whose bitmaps fit gives valid blocks with disjoint page ranges, adjacent regions included |
| `PageSafety.FittingRunSafe` | src/kernel/source/memory/phys.c:31-192 | over every run after setup of such a map every live allocation lies inside one free region, apart from every region of another type, from every bitmap and every other allocation |
| `PageSafety.FreePagesInside` | src/kernel/source/memory/phys.c:46-71 | every page that is free after setup lies inside its region if and only if the bitmap fits |
| `PageSafety.TwoPagesOverrun` | src/kernel/source/memory/phys.c:46-71 | a region of 8192 bytes: its page 1 can be handed out and ends 8 bytes behind it |
| `PageSafety.PageCoversBitmap` | src/kernel/source/memory/phys.c:46-108 | two adjacent such regions: the first page that is handed out covers the bitmap of the second |
| `PageExhaustion.EveryPageComes` | src/kernel/source/memory/phys.c:101-114 | every page that is free is handed out by some later call |
| `PageExhaustion.OnlyFreePages` | src/kernel/source/memory/phys.c:101-114 | and no other is |
| `PageExhaustion.PageOutside` | src/kernel/source/memory/phys.c:31-114 | in every sane map, a region whose bitmap does not fit has a page outside it that some call hands out |
| `PageExhaustion.BitmapsExact` | src/kernel/source/memory/phys.c:31-114 | for every sane map, no call hands out a page that touches a bitmap if and only if the free pages of every region are apart from every bitmap |
| `PageAllocator.BitmapManager.Setup` | src/kernel/source/memory/phys.c:46-70 | the two loops build the bitmap of the specification |
| `PageAllocator.BitmapManager.FindFirstFreePage` | src/kernel/source/memory/phys.c:91-98 | the scan refines its specification |
| `PageAllocator.BitmapManager.FindContiguousFreePages` | src/kernel/source/memory/phys.c:137-150 | the counting scan refines its specification |
| `PageAllocator.BitmapManager.MarkTaken` | src/kernel/source/memory/phys.c:159-162 | the marking loop refines the run specification |
| `PageAllocator.BitmapManager.MarkFree` | src/kernel/source/memory/phys.c:182-185 | so does the freeing loop |
| `PageAllocator.Allocator.constructor` | src/kernel/source/memory/phys.c:31-78 | the loop over the memory map sets up exactly the free regions, with separate bitmaps |
| `PageAllocator.Allocator.AllocatePage` | src/kernel/source/memory/phys.c:101-114 | new bitmaps and returned address are those of the specification |
| `PageAllocator.Allocator.FreePage` | src/kernel/source/memory/phys.c:117-131 | new bitmaps and result are those of the specification |
| `PageAllocator.Allocator.AllocatePages` | src/kernel/source/memory/phys.c:154-169 | new bitmaps and returned address are those of the specification |
| `PageAllocator.Allocator.FreePages` | src/kernel/source/memory/phys.c:172-192 | new bitmaps and result are those of the specification |
| `Scheduling.NextReadyExact` | src/kernel/source/process/scheduler/scheduler.c:46-57 | the inner search finds the cyclically first READY sibling, none exactly when there is none |
| `Scheduling.NextProcessExact` | src/kernel/source/process/scheduler/scheduler.c:60-72 | the list search finds the first READY thread of the cyclically next process that has one, none exactly when there is none |
| `Scheduling.FirstProcessExact` | src/kernel/source/process/scheduler/scheduler.c:30-40 | the first scheduling takes the first READY thread of the first process that has one |
| `Scheduling.WorkConserving` | src/kernel/source/process/scheduler/scheduler.c:28-81 | a call leaves everything as it is exactly when no thread other than the current one is READY, in any process |
| `Scheduling.ChoiceExact` | src/kernel/source/process/scheduler/scheduler.c:42-72 | the cyclically next READY sibling if there is one; only otherwise the leader of the cyclically next process with a READY thread |
| `Scheduling.FirstChoiceExact` | src/kernel/source/process/scheduler/scheduler.c:30-40 | without a current thread: the leader of the first process on the list with a READY thread, none exactly when no process has one |
| `Scheduling.ScheduleEffect` | src/kernel/source/process/scheduler/scheduler.c:74-78 | the state of every thread after a call: the chosen one RUNNING, the replaced one READY, all others unchanged |
| `Scheduling.AtMostOneRunning` | src/kernel/source/process/scheduler/scheduler.c:28-81 | over every history of calls and state changes that start no thread, at most one thread is RUNNING and it is the current one |
| `Scheduling.CallComesCloser` | src/kernel/source/process/scheduler/scheduler.c:46-57 | one call strictly lowers the cyclic distance to a READY sibling or runs it |
| `Scheduling.BoundedWaiting` | src/kernel/source/process/scheduler/scheduler.c:46-57 | a thread that stays READY in the current process runs within as many calls as it is places ahead, however the other threads change state |
| `Scheduling.ReadySiblingRuns` | src/kernel/source/process/scheduler/scheduler.c:46-57 | hence within n - 1 calls in a process of n threads |
| `Scheduling.LeavesExact` | src/kernel/source/process/scheduler/scheduler.c:46-72 | a call leaves the process if and only if the process has no second READY thread and another process has a READY one |
| `Scheduling.ProcessComesCloser` | src/kernel/source/process/scheduler/scheduler.c:60-72 | such a call brings the current process strictly closer, in list order, to any process that has a READY thread |
| `Scheduling.ProcessReached` | src/kernel/source/process/scheduler/scheduler.c:60-72 | the process of a thread that waits, d places ahead, becomes the current one once d such calls have happened |
| `Scheduling.OtherProcessRuns` | src/kernel/source/process/scheduler/scheduler.c:46-72 | and the thread runs at most n - 1 calls later, in a process of n threads |
| `Scheduling.OthersStarve` | src/kernel/source/process/scheduler/scheduler.c:60-72 | while the current process has a second READY thread before each call, no thread of another process ever runs |
| `Scheduling.KilledThreadStays` | src/kernel/source/process/scheduler/scheduler.c:74-78 | a killed thread stays killed if and only if it is not the current one or no other thread is READY |
| `Scheduling.KilledThreadReturns` | src/kernel/source/process/scheduler/scheduler.c:75 | a machine where a killed current thread is put back to READY and runs again |
| `Scheduler.Process.FindNextReady` | src/kernel/source/process/scheduler/scheduler.c:48-56 | the modular loop, which terminates, refines the cyclic search |
| `Scheduler.Process.Find` | src/kernel/source/process/scheduler/scheduler.c:47-48 | the search by address finds the place of the current thread |
| `Scheduler.Process.FindReady` | src/kernel/source/process/scheduler/scheduler.c:63-68 | the inner loop finds the first READY thread |
| `Scheduler.Scheduler.FindFirst` | src/kernel/source/process/scheduler/scheduler.c:32-40 | the walk along the linked list refines the first search |
| `Scheduler.Scheduler.NextOf` | src/kernel/source/process/scheduler/scheduler.c:70 | the link, or the head of the list at its end, is the cyclic successor |
| `Scheduler.Scheduler.FindOther` | src/kernel/source/process/scheduler/scheduler.c:61-71 | the walk around the linked list terminates and refines the cyclic search over processes |
| `Scheduler.Scheduler.SetState` | src/kernel/source/process/scheduler/scheduler.c:75-76 | writing a thread object changes that thread in the view and no other |
| `Scheduler.Scheduler.ProcessScheduler` | src/kernel/source/process/scheduler/scheduler.c:28-81 | the object graph after a call is exactly the specified one and still well formed |
| `Snake.Pigeonhole` | src/kernel/source/logos/snake.c:24 | at most n different numbers lie below n |
| `Snake.FullBoardHits` | src/kernel/source/logos/snake.c:90-94 | 4800 different cells include every head on the board |
| `Snake.MoveFits` | src/kernel/source/logos/snake.c:97-100 | a move that does not end the game shifts inside the 4800-entry array |
| `Snake.AdvanceKeepsInv` | src/kernel/source/logos/snake.c:75-109 | a move keeps the shape: all entries on the board, all segments but the last a connected path without repetition, length at most 4801; and the second segment is behind the head |
| `Snake.AdvanceExact` | src/kernel/source/logos/snake.c:75-109 | a move takes the head one cell on and each segment to the place of the one before; the length grows by one, and seed and food change, exactly when the head lands on the food |
| `Snake.FoodCell` | src/kernel/source/logos/snake.c:26-37 | the next seed is the low 31 bits of product and sum, and the food's cell is the seed modulo 4800, row by row, always on the board |
| `Snake.KeyMoves` | src/kernel/source/logos/snake.c:75-84 | the cell that the head steps to after each key, in coordinates |
| `Snake.InitKeepsInv` | src/kernel/source/logos/snake.c:39-44 | a new game has the shape, whatever an earlier game left in the array |
| `Snake.PlayKeepsInv` | src/kernel/source/logos/snake.c:111-136 | the shape holds in every state of every play |
| `Snake.PlayStaysInArray` | src/kernel/source/logos/snake.c:97-100 | in every play each move is made with a length of at most 4800 |
| `Snake.PlayGrows` | src/kernel/source/logos/snake.c:101-106 | over every play the length is that at the start plus the number of moves that ended on the food of their moment |
| `Snake.NewGameGrows` | src/kernel/source/logos/snake.c:39-44 | from a new game, two plus the number of meals, and at most 4801 |
| `Snake.PlayKeepsNeck` | src/kernel/source/logos/snake.c:117-130 | after the first move the second segment is always opposite to the direction |
| `Snake.NoTurningBack` | src/kernel/source/logos/snake.c:117-130 | hence no key makes the snake step onto its neck after the first move |
| `Snake.FirstMoveEnds` | src/kernel/source/logos/snake.c:39-44 | before the first move it can: whatever the first key, the new game ends at once if and only if the leftover entry 1 is the cell stepped onto |
| `Snake.StaleNeckEndsGame` | src/kernel/source/logos/snake.c:39-44 | without a turn: if and only if entry 1 is the cell right of the start |
| `Snake.SecondGameEnds` | src/kernel/source/logos/snake.c:111-136 | from the initial array and seed, two moves to the right and quitting lead to such a game |
| `Snake.FullBoardEnds` | src/kernel/source/logos/snake.c:90-94 | a snake longer than the board cannot move |
| `SnakeGame.SnakeGame.SpawnNewFood` | src/kernel/source/logos/snake.c:31-37 | seed and food position of the specification; the food is on the board, the seed below 2^31 |
| `SnakeGame.SnakeGame.InitGame` | src/kernel/source/logos/snake.c:39-44 | the new state and its shape |
| `SnakeGame.SnakeGame.Meets` | src/kernel/source/logos/snake.c:90-94 | the scan over the whole length never leaves the array and finds exactly a hit |
| `SnakeGame.SnakeGame.Shift` | src/kernel/source/logos/snake.c:97-100 | the in-place backward loop shifts every segment by one and leaves the rest of the array |
| `SnakeGame.SnakeGame.UpdateGame` | src/kernel/source/logos/snake.c:75-109 | false and no change exactly at a collision; otherwise the next state, in shape: one longer if the new head is on the food, and with food and seed unchanged if not |
| `SnakeGame.SnakeGame.Input` | src/kernel/source/logos/snake.c:118-128 | the direction after a key, never the opposite one |
| `SnakeGame.SnakeGame.RunGame` | src/kernel/source/logos/snake.c:111-136 | the loop plays exactly the specified play for any sequence of keys and ends in shape |
| `Numerals.DecimalReads` | src/libc/conversion.c:40-54 | decoding a printed number gives the number; only digits, no leading zero |
| `Numerals.DecimalUnique` | src/libc/conversion.c:40-54 | the printed form is the only canonical numeral of its value |
| `Numerals.SignedReads` | src/libc/conversion.c:5-38 | decoding a printed int gives the int |
| `Numerals.SignedFits` | src/libc/conversion.c:8 | an int takes at most 11 characters, so 12 with its terminator |
| `Numerals.UnsignedFits` | src/libc/conversion.c:40-54 | an unsigned long takes at most 20 characters, so 21 with its terminator |
| `Numerals.HexIsNibbles` | src/libc/conversion.c:133-135 | each hexadecimal digit is the nibble obtained by shifting |
| `Numerals.PointerReads` | src/libc/conversion.c:128-137 | decoding a printed pointer gives the pointer |
| `Conversion.DigitStep` | src/libc/conversion.c:43-46 | one turn of the digit loop: digits still to print and reversed digits so far make up the numeral |
| `Conversion.PutDigits` | src/libc/conversion.c:20-23 | the digit loop writes the numeral in reverse and nothing behind it |
| `Conversion.IntToString` | src/libc/conversion.c:5-38 | the buffer holds the signed numeral and its terminator, and is unchanged behind; for non-negative ints the same text as `UnsignedLongToString` |
| `Conversion.CopyReversed` | src/libc/conversion.c:32-35 | the reversing copy |
| `Conversion.ReverseInPlace` | src/libc/conversion.c:49-53 | two pointers reverse the text in place and touch nothing behind it |
| `Conversion.UnsignedLongToString` | src/libc/conversion.c:40-54 | the buffer holds the numeral and its terminator, and is unchanged behind |
| `Conversion.PointerToHexString` | src/libc/conversion.c:128-137 | the buffer holds 0x, sixteen digits and the terminator, and is unchanged behind |
| `MemoryBlocks.ForwardIsCopied` | src/libc/string.c:71-73 | copying from the front gives the block as if copied at once when the destination does not lie behind the source within the block |
| `MemoryBlocks.ForwardRepeats` | src/libc/string.c:71-73 | otherwise it repeats the first bytes with period dest - src and changes nothing outside |
| `MemoryBlocks.Memcpy` | src/libc/string.c:67-76 | the memory after the loop, for every overlap; a true copy where the blocks allow it |
| `MemoryBlocks.Memmove` | src/libc/string.c:88-103 | for every overlap each byte of the destination is the old byte of the source, and nothing else changes (section 7.24.2.2 of ISO C11) |
| `MemoryBlocks.MatchLength` | src/libc/string.c:23-26 | the inner loop stops at the end of the needle or at the first difference, inside both strings |
| `MemoryBlocks.Strstr` | src/libc/string.c:14-33 | the least address where the needle occurs, NULL exactly when it occurs nowhere (section 7.24.5.7 of ISO C11) |

## Left out

- Isolation.RunIsolated: where a mapping or unmapping meets a huge page, no table lies in the data that the code takes for tables; where memory runs out, no table lies at address 0 and the page there has no present word. New tables have no present words.
- SharedTables.SharedCloneIsolated: a run writes tables only, since the data of a huge page might be a table of the original.
- SharedRuns.SharedCloneRuns: the original is shared within its levels and mapped into under tables that it has; across levels a leaf may be read as a link and lead anywhere.
- DirtyTables.DirtyTableExact: the frames of the upper new tables have no present word; with leftovers there, the walk goes on into whatever they lead to. No address makes a huge page.
- FramePool.LivePagesAreDistinct: says nothing about what the pages hold, which the code does not clear, nor about what else lies in the frame below a misaligned address.
- BitmapSetup.SetupAllGood: regions stay apart with their overruns; without that see `PageSafety.FittingMapGood` and `PageExhaustion.BitmapsExact`.
- Conversion.IntToString: does not take the least int, whose negation is undefined in C.
- Regions.RunSafe: block disjointness is a precondition and clients write only their own payloads.
- Boot.BootSerialisable: assumes that N copies of the lists fit the arrays; the code does not check it.
- Scheduling.BoundedWaiting: the waiting thread is in the current process; for other processes see `Scheduling.OtherProcessRuns`, whose bound counts only calls without a second READY thread.
- The three stores that fill one list slot in `init_blocks` are one step; the slot is private to the lock holder, so no other core sees them apart.
- TLB invalidation, CR3 loads, `keep_top_pml4_entry`, `new_paging` and the page-fault handler: hardware effects beyond the root parameter.
- `map_2mb_page`: it sets bit 21 instead of the page-size bit, so its result is walked as a table.
- `free_memory` and the merging of neighbours: allocations never enter the used list it searches.
- Freeing with `aligned_free` beyond the address it passes on.
- The 32-entry limit on free regions of the bitmap allocator, which the code does not check.
- Concurrent use of the allocators and the scheduler, which take no lock.
- Process and thread creation, `add_process`, context switches.
- Weak memory ordering: the acquire and release orders of the lock are modelled as sequential consistency.
- `double_to_string`, `long_to_string` (the same code as `int_to_string`), number formatting in logs.
- The remaining string functions, drawing, GUI, terminal, drivers, ACPI, APIC, interrupts, system calls and the file system.
