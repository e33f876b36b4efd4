# Verified models of an x86-64 kernel, its bootloader and its runtime

This project models the parts of the repository where a mistake is hardest to see, and proves what they
promise. Run `dafny verify dfyconfig.toml` to check all of it.

| directory | what it models |
|---|---|
| `paging/` | page-table entries, virtual addresses, `VirtualMap` and `VirtualMapBuilder` with both mappers, and the bootloader's mapping loops, against the four-level walk of section 4.5 of the Intel SDM, volume 3A |
| `buddy/` | the binary buddy allocator over an array of flags, and the carving of memory into such allocators |
| `racy/` | the lock-free initialisation of `LazyKey` and `OnceBox`, for any number of threads in any interleaving |
| `dwarf/` | LEB128 and packed numbers, encoded pointers, and the search of the call-site table |
| `regions/` | the bootloader's grouping and sorting of usable memory |
| `elf/` | the ELF reader, its two table iterators, and what the bootloader takes from the kernel's file |
| `common/` | a few definitions that several models share |

How the pieces fit:

- **Paging.** `Hardware.Walk` is the reference: it knows nothing of the program. `TableTree.IsTree` is the
  separation invariant (every table has one owner entry, no table is shared, the recursion slot is apart).
  `MapSpec.Map` is `map` with tables reached by child addresses; the class `VirtualMaps.VirtualMap` is the
  step-by-step code, which reaches tables through pointers: directly, or through addresses that the tables
  being edited translate. Both are proved to give the same memory and the same answer. `MappingRuns` then
  shows that the whole life of a map, `new`, `map`s, `finish`, `map`s, is that of one finite function from
  pages to frames in which the first mapping of a page wins. `RangeMapping` and `SegmentMapping` build the
  bootloader's two loops on it; their laws count bytes, and `MachineNumbers` has the natural numbers as words.
- **Buddy allocator.** `BuddySpec` is the allocator on an inductive tree of blocks, with its laws.
  `BuddyIndex` and `BuddyArray` relate the implicit array of flags to such a tree, and the class in
  `BuddyTree` is the code on the array, proved to be the specification. `BuddyRuns` has the statements
  about runs, `PagePool` the carving, and `PoolRuns` the statements across trees.
- **Racy cells.** Each protocol is a state machine whose steps are the atomic operations of the source;
  theorems are about every run. `Ownership` is the shared argument: everything that exists has one owner.
- **DWARF.** `Leb128` and `PackedWords` hold encoders and decoders as functions with round trips, the
  class `DwarfReader` the loops, and `EhActions` the search, proved to be a lookup.
- **ELF and regions.** The laws of the loops are lemmas about functions (`ElfTables`, `MemoryRegions`,
  `LongestRuns`), and the classes and methods are proved against those functions.

What the proofs found about the code:

- `create_trees_` never answers `Ok`: the recursion ends in the error of a region that is too small and
  hands it up, after placing every tree (`PagePool.PhysicalPageAllocator.CreateTrees`). A region whose size
  is a power of two is never carved, because the loop goes on comparing with the pages left over at first,
  and those are none (`PagePool.RegionFits`).
- A byte of a mapped range is where the caller asked exactly if its page was asked for at a page-aligned
  address below 2^52; the frame buffer's base is passed unrounded
  (`RangeMapping.KernelMapper.EveryByteAsAsked`).
- The loop over the segments steps from the first byte of a segment, so the last page of an unaligned
  segment may be left out; when exactly is `SegmentMapping.CoveredExactly`, and `SegmentMapping.HalfCovered`
  is such a segment. The kernel's own image is not affected: `kernel/src/linker.ld` (lines 15-44) aligns
  every section to 4 KiB.
- Nothing that `map` maps is user accessible, whatever flags it is given, because node entries never are
  (`MapSpec.MapGrants`, `MapSpec.Granted`).
- A run of usable memory that is too small, or that was itself shortened to fewer than eight pages, takes the
  memory-map entry after it with it, however large that is (`LongestRuns.EntryLost`; a concrete map is in
  `LongestRuns.LargeEntryLost`). `LongestRuns.LargeRunListedExactly` says of each run of at least eight pages
  when it is listed, in terms that can be computed from the memory map.
- A table stride that does not fit is ignored, so the same ELF header may be read again (`ElfTables.Stuck`);
  when exactly this shows is `ElfTables.YieldsOwnExactly`.

## Model

| member | source | states |
|---|---|---|
| `Entries.NodeRoundTrip` | bootinfo/src/vaddr/x86_64/phys.rs:64-76 | a node entry made from a frame address is that address with bits 0 and 1 set and no other: it gives the address back and is present, writable, supervisor and no leaf |
| `TableTree.NodeWord` | bootinfo/src/vaddr/x86_64/virt.rs:226-254 | in every tree of tables, so after every `map` and `finish`, the entry that refers to a table is the table's address with bits 0 and 1 set and no other |
| `Entries.PackSeparates` | bootinfo/src/vaddr/x86_64/phys.rs:64-71 | packing takes the address bits from one argument and all other bits, with PRESENT, from the other |
| `Entries.FlagsTranslate` | bootinfo/src/vaddr/x86_64/phys.rs:32-54 | each abstract flag sets its own entry bit and no flag sets another |
| `Entries.PageRoundTrip` | bootinfo/src/vaddr/x86_64/phys.rs:295-318 | a page entry gives back every page-aligned address below 2^52, keeps the five flags and GLOBAL, and sets no other bit |
| `Entries.PageWord` | bootinfo/src/vaddr/x86_64/phys.rs:295-318 | a page entry bit for bit: address bits 12 to 51, the five flags from bit 1 on, GLOBAL at bit 8, PRESENT, and nothing else |
| `Entries.PageRights` | bootinfo/src/vaddr/x86_64/virt.rs:264 | the leaf is present, writable exactly when WRITABLE was asked for and user accessible exactly when USER_MODE was |
| `Addresses.InfoOfFromInfo` | bootinfo/src/vaddr/x86_64/virt.rs:35-58 | splitting an address built from in-range fields gives the fields, and the address is canonical |
| `Addresses.FromInfoOfInfo` | bootinfo/src/vaddr/x86_64/virt.rs:35-58 | rebuilding a split address gives it back if and only if it is canonical (section 3.3.7.1 of the Intel SDM, volume 1) |
| `Addresses.SamePage` | bootinfo/src/vaddr/x86_64/virt.rs:35-43 | two addresses have the same four indices if and only if they lie in one 4 KiB page |
| `Addresses.IndicesArePage` | bootinfo/src/vaddr/x86_64/virt.rs:35-43 | the four indices, nine bits each from bit 39 down, are the page bits of the address |
| `TableTree.LinkKeepsTree` | bootinfo/src/vaddr/x86_64/virt.rs:226-254 | putting a fresh frame in place of an absent entry keeps the tables a tree in which no table is shared |
| `TableTree.LinkKeepsWalk` | bootinfo/src/vaddr/x86_64/virt.rs:226-254 | inserting an empty table changes no translation outside the recursion slot |
| `TableTree.LeafKeepsOtherWalks` | bootinfo/src/vaddr/x86_64/virt.rs:256-265 | writing a page entry changes the translation of no address of another page |
| `MapSpec.MapKeepsTree` | bootinfo/src/vaddr/x86_64/virt.rs:208-269 | every call, whatever its answer, keeps the tables a tree, moves none of them and leaves the recursion slot alone |
| `MapSpec.MapKeepsFresh` | bootinfo/src/vaddr/x86_64/virt.rs:208-269 | the frames a call did not take are still zeroed and unowned after it |
| `MapSpec.MapKeepsOtherWalks` | bootinfo/src/vaddr/x86_64/virt.rs:208-269 | a refused call, also after it inserted tables, and a successful one for another page change no translation |
| `MapSpec.MapAnswers` | bootinfo/src/vaddr/x86_64/virt.rs:215-268 | the answer is `AlreadyMapped` with the address the walk gives, and nothing written, exactly when the walk maps the address; otherwise `PageTable` exactly when fewer frames are left than tables are missing, and else `Ok` |
| `MapSpec.MapGrants` | bootinfo/src/vaddr/x86_64/virt.rs:219-268 | after `Ok` every address of the page translates to the frame asked for, writable exactly when asked for, never user accessible |
| `MapSpec.MapWritesWord` | bootinfo/src/vaddr/x86_64/virt.rs:256-265 | after `Ok` the entry that ends the walk of the page is, bit for bit, the word for the address and flags asked for |
| `MapSpec.MapChangesOnlyWay` | bootinfo/src/vaddr/x86_64/virt.rs:208-269 | a call, whatever its answer, changes no entry but absent ones that the walk of its address uses |
| `Mappers.AccessorsReach` | bootinfo/src/vaddr/x86_64/virt.rs:147-191 | the accessors of `LocalMapper` never meet a leaf on the way to a table of the tree, so `unreachable_unchecked` is not reached |
| `Mappers.RecursiveLands` | bootinfo/src/vaddr/x86_64/virt.rs:316-382 | after `finish`, each address that `RecursiveMapper` builds is canonical and the hardware walk takes all 512 entries behind it, for writing, to the table that following child addresses reaches |
| `Mappers.LocalLands` | bootinfo/src/vaddr/x86_64/virt.rs:147-191 | each pointer that `LocalMapper` makes is to that table as well |
| `Mappers.TableLands` | bootinfo/src/vaddr/x86_64/virt.rs:147-191 | in every state either mapper can meet, its pointer for a table of the tree reaches that table |
| `VirtualMaps.VirtualMap.EnsureTable` | bootinfo/src/vaddr/x86_64/virt.rs:227-254 | one table level: links a table, refuses with the right error, or goes on, on course for the specified end |
| `VirtualMaps.VirtualMap.EnterTable` | bootinfo/src/vaddr/x86_64/virt.rs:227-254 | the same through the accessor of whichever mapper is used |
| `VirtualMaps.VirtualMap.SetPage` | bootinfo/src/vaddr/x86_64/virt.rs:256-265 | the page-table level ends where the specification ends |
| `VirtualMaps.VirtualMap.Map` | bootinfo/src/vaddr/x86_64/virt.rs:208-269 | through either mapper the code gives the answer and leaves the memory of `MapSpec.Map`, though each write changes the tables being walked |
| `Builder.FinishIsRecursive` | bootinfo/src/vaddr/x86_64/virt.rs:117-136 | `finish` makes the tables a tree under a PML4 whose recursion slot refers to itself |
| `Builder.FinishKeepsWalk` | bootinfo/src/vaddr/x86_64/virt.rs:117-136 | `finish` preserves every translation outside the recursion slot |
| `Builder.VirtualMapBuilder.constructor` | bootinfo/src/vaddr/x86_64/virt.rs:99-110 | a new builder translates nothing |
| `Builder.VirtualMapBuilder.Map` | bootinfo/src/vaddr/x86_64/virt.rs:113-115 | the builder's `map` is `MapSpec.Map` and keeps the builder's invariant |
| `Builder.VirtualMapBuilder.Finish` | bootinfo/src/vaddr/x86_64/virt.rs:117-136 | fails only for want of a frame; the slot check never fires; the finished map is valid and translates as before |
| `MappingRuns.MapKeepsState` | bootinfo/src/vaddr/x86_64/virt.rs:208-269 | `map` keeps a builder's state a builder's and a finished state finished |
| `MappingRuns.MapRefines` | bootinfo/src/vaddr/x86_64/virt.rs:208-269 | one call is one step of a finite function from pages to frames: a point update on `Ok`, nothing otherwise |
| `MappingRuns.RunRefines` | bootinfo/src/vaddr/x86_64/virt.rs:200-270 | the same for every sequence of calls through either mapper |
| `MappingRuns.BootRefines` | bootinfo/src/vaddr/x86_64/virt.rs:90-137 | over `new`, any calls, `finish` and any calls, every answer is one that function allows and the hardware translates exactly as it says |
| `MappingRuns.MappedForever` | bootinfo/src/vaddr/x86_64/virt.rs:256-263 | a page once mapped keeps its frame through every run |
| `RangeMapping.PlaceAll` | bootloader/src/main.rs:219-233 | a range of newly mapped pages joins the earlier ranges: all still mapped, no page shared, no gap |
| `RangeMapping.RangeByteAsAsked` | bootloader/src/main.rs:223-230 | byte number `k` of a mapped range is found at `v + k`, writable exactly when asked for, through an entry that is, bit for bit, that of its page with GLOBAL and the flags asked for; it is at `p + k` if and only if its page was asked for at a page-aligned address below 2^52 |
| `RangeMapping.LedgerByteAsAsked` | bootloader/src/main.rs:219-233 | the same for every byte of every range in the ledger |
| `RangeMapping.KernelMapper.EveryByteAsAsked` | bootloader/src/main.rs:219-233 | at any time, this holds of every byte of every range handed out so far |
| `RangeMapping.KernelMapper.MapOne` | bootloader/src/main.rs:225-229 | one `map` of the builder, as a step on the pages mapped so far |
| `RangeMapping.KernelMapper.MapPageOf` | bootloader/src/main.rs:223-230 | one turn of the loop: the next page of the range is newly mapped as asked, or refused for a reason of `map` |
| `RangeMapping.KernelMapper.NextFreePage` | bootloader/src/main.rs:219-233 | on success the range is mapped at the next address, which moves on by its bytes; no page was added but those of the range, nothing mapped before has moved, and no page is shared with an earlier range; a panic is an answer of `map` to the call for page `i`, with its addresses and flags in numbers |
| `SegmentMapping.CoveredExactly` | bootloader/src/main.rs:201-209 | the pages asked for contain every byte of the segment if and only if its last byte is in the page where the last step starts, or the steps go around all of the address space |
| `SegmentMapping.ReachedExactly` | bootloader/src/main.rs:201-209 | the same of each byte by itself |
| `SegmentMapping.SegmentIsFound` | bootloader/src/main.rs:189-210 | every byte `n` of a mapped segment that the steps reach is found at `virtual_address + n`, writable as the segment's flags say, and at `kernel + (virtual_address - base) + n` if and only if that is below 2^52; the entry of its page has GLOBAL and no other flag |
| `SegmentMapping.SegmentByte` | bootloader/src/main.rs:201-209 | the same of a byte whose page was mapped, whatever the alignment of the segment |
| `SegmentMapping.HalfCovered` | bootloader/src/main.rs:201-209 | a segment of one page that starts in the middle of one, whose last byte is in no page asked for |
| `SegmentMapping.MapSegment` | bootloader/src/main.rs:201-209 | on success every byte that the steps reach is found so, no page was added but those of the steps, and nothing mapped before has moved; otherwise the call for a step's page was refused |
| `SegmentMapping.MapSegments` | bootloader/src/main.rs:189-210 | on success every byte that the steps reach of every segment to load is found so, no two steps have one page, no other page was added, and nothing mapped before has moved; otherwise the call for a page of one of them was refused |
| `BuddyIndex.IndexFormula` | kernel/src/page_alloc_tree.rs:26-38 | the start and size computed with `ilog2` are those found by descending from the root, and the size is a power of two |
| `BuddyIndex.NodeInArray` | kernel/src/page_alloc_tree.rs:26-58 | every node that covers a page has an index below `2 * pages - 1` |
| `BuddyTree.FlagsFitInMetadata` | kernel/src/page_alloc_tree.rs:63-67 | the metadata pages hold the flag byte of every node of the tree |
| `BuddyTree.RequiredIsLeast` | kernel/src/page_alloc_tree.rs:63-67 | the metadata is the least number of pages for a header of 24 bytes and one byte for each of `2 * pages - 1` nodes |
| `BuddySpec.LeavesPartition` | kernel/src/page_alloc_tree.rs:148-158 | the leaves cover every page of the region exactly once |
| `BuddySpec.LeavesDisjoint` | kernel/src/page_alloc_tree.rs:148-158 | two different leaves share no page |
| `BuddySpec.LeavesAligned` | kernel/src/page_alloc_tree.rs:26-38 | each block is a power of two in size and starts at a multiple of its size from the base |
| `BuddySpec.LeavesWithin` | kernel/src/page_alloc_tree.rs:26-38 | each leaf lies in its node's range, and none is both free and occupied |
| `BuddySpec.BestFit` | kernel/src/page_alloc_tree.rs:99-146 | the search finds the leftmost of the smallest free leaves that are large enough, in spite of the pruning bound, and fails exactly when there is none |
| `BuddySpec.CarveSplits` | kernel/src/page_alloc_tree.rs:235-244 | the splitting loop ends with one occupied block of size `s` with `s / 2 < pages <= s` |
| `BuddySpec.AllocAdds` | kernel/src/page_alloc_tree.rs:223-251 | a successful `alloc` adds exactly one block, large enough and less than twice as large, aligned, apart from all others, and keeps the tree canonical |
| `BuddySpec.AllocIsBestFit` | kernel/src/page_alloc_tree.rs:223-251 | the block starts where the leftmost of the smallest free leaves that are large enough does |
| `BuddySpec.BlocksDetermine` | kernel/src/page_alloc_tree.rs:192-218 | there is one canonical tree for a set of blocks, so that what an operation does to the blocks determines the tree after it |
| `BuddySpec.FreeRemoves` | kernel/src/page_alloc_tree.rs:256-279 | `free` succeeds exactly at the start of a live block and removes that block alone, keeping the tree canonical |
| `BuddySpec.FreeUndoesAlloc` | kernel/src/page_alloc_tree.rs:192-251 | freeing the block just allocated succeeds and restores exactly the tree before |
| `BuddySpec.EmptyIsFree` | kernel/src/page_alloc_tree.rs:192-218 | a canonical tree without blocks is the single free root |
| `BuddySpec.FreeRunInLeaf` | kernel/src/page_alloc_tree.rs:192-218 | an aligned run without an occupied page lies inside one free leaf of a canonical tree |
| `BuddySpec.FreeIsMergeUp` | kernel/src/page_alloc_tree.rs:192-218 | freeing is clearing a leaf and merging upwards from it |
| `BuddyRuns.AllocRoundsUp` | kernel/src/page_alloc_tree.rs:223-251 | the block handed out has the size of the request rounded up to a power of two |
| `BuddyRuns.AllocFailsExactly` | kernel/src/page_alloc_tree.rs:223-251 | `alloc` fails exactly when no aligned run of the rounded-up size is free |
| `BuddyRuns.ApplySound` | kernel/src/page_alloc_tree.rs:223-279 | one operation gives the one kind of answer that the blocks held justify (no block exactly when no aligned run of the rounded-up size is clear of them) and keeps the live blocks disjoint, aligned and inside |
| `BuddyRuns.RunsAreSound` | kernel/src/page_alloc_tree.rs:223-279 | the same over every run of `alloc` and `free` |
| `BuddyRuns.RunsOfNewAreSound` | kernel/src/page_alloc_tree.rs:76-97 | the same over every run from a new tree |
| `BuddyRuns.FreeAll` | kernel/src/page_alloc_tree.rs:192-218 | freeing all live blocks, in any order, succeeds and returns to the single free root |
| `BuddyArray.WriteReplaces` | kernel/src/page_alloc_tree.rs:40-58 | a write below a live node replaces the subtree at that node's block and nothing else |
| `BuddyArray.LiveSubtree` | kernel/src/page_alloc_tree.rs:160-190 | a node reached through split nodes is a node of the tree, with its own subtree at its block |
| `BuddyTree.FindsFit` | kernel/src/page_alloc_tree.rs:99-136 | the recursion over the flags answers what the search on the tree answers, and names a live free leaf |
| `BuddyTree.FindsNode` | kernel/src/page_alloc_tree.rs:160-190 | the lookup over the flags answers the live leaf that starts at the page, and freeing in the tree succeeds exactly if there is one and it is occupied |
| `BuddyTree.BinaryBuddyTree.SplitNode` | kernel/src/page_alloc_tree.rs:148-158 | the free leaf becomes two, and nothing else in the tree changes |
| `BuddyTree.BinaryBuddyTree.TryMerge` | kernel/src/page_alloc_tree.rs:192-218 | the flags become those of merging upwards on the tree |
| `BuddyTree.BinaryBuddyTree.SplitDown` | kernel/src/page_alloc_tree.rs:235-242 | one turn of the splitting loop leads to the left half, on course for the block specified |
| `BuddyTree.BinaryBuddyTree.Alloc` | kernel/src/page_alloc_tree.rs:223-251 | the code on the flags gives the address, the tree and the failures of the specification, of which `BuddySpec.AllocIsBestFit` and `BuddySpec.AllocAdds` say which block it takes |
| `BuddyTree.BinaryBuddyTree.Free` | kernel/src/page_alloc_tree.rs:256-279 | an address below the base is refused; from the base on the code on the flags gives the tree and the failures of the specification |
| `BuddyTree.NewTree` | kernel/src/page_alloc_tree.rs:76-97 | refused exactly for a size that is no power of two and for a misaligned place; otherwise one free leaf |
| `PagePool.RegionFits` | kernel/src/page_alloc.rs:40-60 | a tree and its metadata fit in the region, and none is carved exactly when the region is below four pages or a power of two |
| `PagePool.RegionIsLargest` | kernel/src/page_alloc.rs:45-58 | the tree is the largest power of two, of at least four pages, of which the metadata fits in the pages that the largest power of two in the region leaves over |
| `PagePool.CarvingIsSound` | kernel/src/page_alloc.rs:40-84 | all metadata and managed ranges of a carving lie inside the region and are pairwise disjoint, and each tree manages a power of two of at least four pages |
| `PagePool.CarvingIsTight` | kernel/src/page_alloc.rs:40-84 | no page is skipped: the places follow one another from the start of the region on, each tree is the one for the pages left there, and what is left behind the last is below four pages or a power of two |
| `PagePool.ChooseRegion` | kernel/src/page_alloc.rs:41-58 | the halving loop finds the size that `RegionFor` defines |
| `PagePool.PhysicalPageAllocator.CreateTrees` | kernel/src/page_alloc.rs:40-84 | adds one free tree for each placement of the carving, and never answers `Ok` |
| `PagePool.PoolAllocIsFirst` | kernel/src/page_alloc.rs:144-154 | the block comes from the first tree that has one, no other tree changes, and failure means that every tree fails |
| `PagePool.PhysicalPageAllocator.AllocIn` | kernel/src/page_alloc.rs:146-150 | one turn of the loop: this tree gives its block, or nothing changes |
| `PagePool.PhysicalPageAllocator.Alloc` | kernel/src/page_alloc.rs:144-154 | the loop over the trees gives the address and the trees of `PoolAlloc` |
| `PoolRuns.CarvedIsPool` | kernel/src/page_alloc.rs:40-84 | carving a region apart from all places so far adds free trees and keeps all metadata and managed ranges apart |
| `PoolRuns.LiveApart` | kernel/src/page_alloc.rs:144-154 | in every state, the memory of two live blocks, of one tree or of two, does not overlap, and none overlaps any metadata |
| `PoolRuns.RunGrants` | kernel/src/page_alloc.rs:144-159 | over every run, exactly what was live and what was given is live, and no block is given twice |
| `PoolRuns.RunIsApart` | kernel/src/page_alloc.rs:144-159 | over every run, the pieces of memory given do not overlap, lie inside what their trees manage, and are apart from all metadata |
| `PoolRuns.RunSizes` | kernel/src/page_alloc.rs:144-159 | each block given over a run has at least the pages asked for, and less than twice as many |
| `PoolRuns.RangesInBytes` | kernel/src/page_alloc.rs:144-159 | what it means for memory to be apart or inside, in bytes of addresses |
| `LazyKeys.NextInv` | std/sys-src/thread_local/key/racy.rs:41-79 | every step of every thread, and of other users of keys, keeps each live key with exactly one owner |
| `LazyKeys.CellIsStable` | std/sys-src/thread_local/key/racy.rs:69-77 | the cell, once set, never changes again |
| `LazyKeys.Agreement` | std/sys-src/thread_local/key/racy.rs:41-79 | in every interleaving all finished calls of `force` return one key, which is not the sentinel |
| `LazyKeys.ResultStaysLive` | std/sys-src/thread_local/key/racy.rs:69-77 | a key that was returned is never destroyed |
| `LazyKeys.NeverAborts` | std/sys-src/thread_local/key/racy.rs:59-68 | the assertion before the exchange never fails, also after `create` has answered the sentinel |
| `LazyKeys.NothingLeaks` | std/sys-src/thread_local/key/racy.rs:49-79 | when no call is under way, the published key is the only one left of all that were created |
| `LazyKeys.LateCallsReuse` | std/sys-src/thread_local/key/racy.rs:41-47 | a call that begins when the key is set creates none and returns it |
| `LazyKeys.Progress` | std/sys-src/thread_local/key/racy.rs:41-79 | every unfinished call has a next step, and every step brings the end nearer |
| `OnceBoxes.NextInv` | std/sys-src/sync/once_box.rs:47-73 | every step keeps each box with one owner and the count of boxes made, dropped, taken and held in balance |
| `OnceBoxes.PointerIsStable` | std/sys-src/sync/once_box.rs:62-73 | the pointer, once set, stays until it is taken |
| `OnceBoxes.Agreement` | std/sys-src/sync/once_box.rs:47-73 | all calls that finish without a `take` between them return one box, which exists for as long as it is not taken |
| `OnceBoxes.DropsAreSafe` | std/sys-src/sync/once_box.rs:66-71 | a losing thread frees a box that exists, that no one else holds and that no call returns |
| `OnceBoxes.BooksBalance` | std/sys-src/sync/once_box.rs:56-73 | when no call is under way, every box made was dropped by a loser, taken, or is the one in the cell, each exactly once |
| `OnceBoxes.LateCallsReuse` | std/sys-src/sync/once_box.rs:47-53 | a call that begins when the box is set makes none and returns it, as long as nothing is taken |
| `OnceBoxes.TakeEmpties` | std/sys-src/sync/once_box.rs:55-59 | `take` hands out what is in the box and leaves it empty |
| `OnceBoxes.Progress` | std/sys-src/sync/once_box.rs:47-73 | every unfinished call has a next step, and every step brings the end nearer |
| `Ownership.Exchange` | std/sys-src/sync/once_box.rs:62-73 | a step that replaces what a thread and the cell own by things no one else owns keeps owners apart |
| `Leb128.UnsignedRoundTrip` | std/sys-src/personality/dwarf/mod.rs:36-49 | every u64 comes back from its encoding by section 7.6 of DWARF 4, whatever follows, and its bytes are consumed exactly |
| `Leb128.SignedRoundTrip` | std/sys-src/personality/dwarf/mod.rs:51-68 | the same for every i64, also when it takes ten bytes |
| `DwarfReaders.DwarfReader.ReadUnsignedLeb` | std/sys-src/personality/dwarf/mod.rs:36-49 | the loop that shifts each byte into place reads the number the bytes stand for |
| `DwarfReaders.DwarfReader.ReadSignedLeb` | std/sys-src/personality/dwarf/mod.rs:51-68 | the same with the sign extension, which is skipped after ten bytes |
| `DwarfReaders.JoinedBelow` | std/sys-src/personality/dwarf/mod.rs:40-47 | taking seven bits in from below or shifting the rest up is the same number |
| `DwarfReaders.JoinedSigned` | std/sys-src/personality/dwarf/mod.rs:63-66 | the sign extension after the last byte gives that byte's sign to all bits above it |
| `PackedWords.WordRoundTrip` | std/sys-src/personality/dwarf/mod.rs:27-33 | a word that fits in the size comes back from its bytes |
| `PackedWords.SignedWordRoundTrip` | std/sys-src/personality/dwarf/mod.rs:27-33 | a signed word that fits in the size comes back from its bytes |
| `PackedWords.TwoBytes` | std/sys-src/personality/dwarf/mod.rs:27-33 | a word of two bytes in terms of the bytes, the lowest first, and with its sign extended |
| `PackedWords.FourBytes` | std/sys-src/personality/dwarf/mod.rs:27-33 | the same of four bytes |
| `EhActions.OffsetRoundTrip` | std/sys-src/personality/dwarf/eh.rs:191-211 | in every encoding, each offset it can hold is read back and its bytes are consumed exactly |
| `EhActions.OffsetRefusedExactly` | std/sys-src/personality/dwarf/eh.rs:191-211 | an offset is refused exactly in an encoding other than 0 to 4 and 9 to 12 |
| `EhActions.ReadEncodedOffset` | std/sys-src/personality/dwarf/eh.rs:191-211 | answers the offset that the round trip pins down, and the error exactly for the encodings that are refused |
| `EhActions.RoundUpIsLeast` | std/sys-src/personality/dwarf/eh.rs:174-177 | the result is the least multiple of the alignment that is not below the argument |
| `EhActions.RelativeRoundTrip` | std/sys-src/personality/dwarf/eh.rs:231-264 | a pointer relative to its own address, the function, the text or the data is its base plus the offset stored in any of the formats, modulo 2^64, and its bytes are consumed exactly |
| `EhActions.AbsoluteRoundTrip` | std/sys-src/personality/dwarf/eh.rs:231-261 | an absolute pointer is the word stored |
| `EhActions.AlignedRoundTrip` | std/sys-src/personality/dwarf/eh.rs:244-261 | an aligned pointer is the word stored at the next multiple of eight |
| `EhActions.FollowedRoundTrip` | std/sys-src/personality/dwarf/eh.rs:266-271 | an indirect pointer is the word stored where the pointer points |
| `EhActions.PointerRefusedExactly` | std/sys-src/personality/dwarf/eh.rs:230-261 | which pointers are refused, by encoding, base and format, in numbers |
| `EhActions.ReadEncodedPointer` | std/sys-src/personality/dwarf/eh.rs:225-271 | answers the pointer that the four round trips pin down, and the error exactly for those that are refused |
| `EhActions.ReadHeader` | std/sys-src/personality/dwarf/eh.rs:71-95 | reads the base of landing pads, the encoding of call sites and the end of their table |
| `EhActions.HeadRoundTrip` | std/sys-src/personality/dwarf/eh.rs:71-95 | a head is read back, with or without a base for landing pads and with or without a type table |
| `EhActions.SiteRoundTrip` | std/sys-src/personality/dwarf/eh.rs:101-105 | a call site is read back from its bytes |
| `EhActions.ReadSite` | std/sys-src/personality/dwarf/eh.rs:101-105 | answers the call site of `SiteAt` |
| `EhActions.InterpretAction` | std/sys-src/personality/dwarf/eh.rs:148-172 | cleanup without a record or for type index zero, catch for a positive one, filter for a negative one |
| `EhActions.RecordDecides` | std/sys-src/personality/dwarf/eh.rs:158-171 | the signed number written at byte `action_table + action - 1` decides: zero cleans up, a positive one catches, a negative one filters |
| `EhActions.SearchTable` | std/sys-src/personality/dwarf/eh.rs:98-122 | the loop with its early end answers what `Search` answers |
| `EhActions.SearchIsLookup` | std/sys-src/personality/dwarf/eh.rs:98-122 | for every table in order, in any encoding, the call site whose code contains `ip`, in numbers, decides: no landing pad is no action; no record cleans up; otherwise the number of the record, with the landing pad `lpad_base + lpad` modulo 2^64; and to terminate if no call site does |
| `EhActions.AreaIsLookedUp` | std/sys-src/personality/dwarf/eh.rs:66-122 | the same from the first byte of the data area, for every head that can be read |
| `EhActions.EmittedAreaIsLookedUp` | std/sys-src/personality/dwarf/eh.rs:66-122 | the same from the bytes of a head and a table as compilers emit them, whatever follows |
| `EhActions.SearchStopsThere` | std/sys-src/personality/dwarf/eh.rs:98-122 | on any table, in order or not: the first call site that `ip` is not past decides, by its action if it covers `ip`, and else to terminate |
| `EhActions.EmittedAreaStopsThere` | std/sys-src/personality/dwarf/eh.rs:66-122 | the same from the bytes of a head and a table |
| `EhActions.BaseDecides` | std/sys-src/personality/dwarf/eh.rs:66-82 | no area is no action; a base of landing pads that is refused is an error |
| `EhActions.BadEncodingIsInvalid` | std/sys-src/personality/dwarf/eh.rs:83-105 | a table that is not empty, in an encoding that no offset has, is an error |
| `EhActions.FindEhAction` | std/sys-src/personality/dwarf/eh.rs:66-122 | the program answers what `ActionAt` answers, which the laws above pin down, for every data area that can be read |
| `MemoryRegions.RegionsAreSound` | bootloader/src/main.rs:284-329 | for every memory map in order: at most 128 regions, apart and in order, each a run of usable entries without gaps, all but the last with at least eight pages |
| `MemoryRegions.PageIsUsable` | bootloader/src/main.rs:287-324 | every page of a region is a page of a usable entry |
| `MemoryRegions.UsableTypes` | bootloader/src/main.rs:287-295 | the entries taken are those of loader code and data, boot services code and data, and conventional memory, and no others |
| `MemoryRegions.UsableJoins` | bootloader/src/main.rs:287-295 | they are taken in their order |
| `MemoryRegions.RegionPageIsUsable` | bootloader/src/main.rs:284-329 | every page of every region is a page of an entry of one of those five types |
| `LongestRuns.RegionsExactly` | bootloader/src/main.rs:284-329 | for every memory map, the regions are what is left of its longest runs, in order, without the small ones before the last run, and no more than 128 |
| `LongestRuns.LargeRunListedExactly` | bootloader/src/main.rs:284-329 | for every memory map in order, a run of at least eight pages is a region if and only if it does not lose its first entry to a small rest of the run before it and there is room |
| `LongestRuns.LargeRunsListedExactly` | bootloader/src/main.rs:284-329 | all such runs are regions if and only if none of them is shortened and there is room |
| `LongestRuns.EntryLost` | bootloader/src/main.rs:319-321 | for every memory map in order, an entry that does not touch a current region of fewer than eight pages is in no region, whatever its size |
| `LongestRuns.LargeEntryLost` | bootloader/src/main.rs:319-321 | a map of two entries of which the large one is lost |
| `LongestRuns.CompleteExactly` | bootloader/src/main.rs:284-329 | the regions are all the longest runs, small ones too, if and only if there are at most 128 and only the last has fewer than eight pages |
| `MemoryRegions.SortedIsDescending` | bootloader/src/main.rs:331-332 | sorting is a permutation into descending size |
| `MemoryRegions.SortedRegionsAreSound` | bootloader/src/main.rs:284-332 | after any reordering the regions still do not overlap and are still runs of usable entries |
| `MemoryRegions.FillTable` | bootloader/src/main.rs:284-334 | the loop and the sort leave the sorted regions in the table and nothing else in it changed |
| `ElfTables.PositionIsStrides` | elf/src/lib.rs:203-207 | item `n` is read at `n` strides exactly if that many fit |
| `ElfTables.PositionIsPlace` | elf/src/lib.rs:203-207 | otherwise it is read at the last stride that fits |
| `ElfTables.YieldsAllExactly` | elf/src/lib.rs:203-237 | all declared items come, each from its own place, if and only if the table fits |
| `ElfTables.YieldsOwnExactly` | elf/src/lib.rs:203-237 | every item that comes is the entry of its own place if and only if all strides fit or what is left after the last one is shorter than a header |
| `ElfTables.Fused` | elf/src/lib.rs:203-207 | after the first call that yields nothing none does |
| `ElfTables.Stuck` | elf/src/lib.rs:207 | when the stride does not fit, the same header is read again |
| `ElfFiles.HeaderRoundTrip` | elf/src/sys/elf_header.rs:28-51 | a header written field by field as the format prescribes is read back |
| `ElfFiles.ProgramHeaderRoundTrip` | elf/src/sys/program_header.rs:4-23 | a program header written as the format prescribes is read back |
| `ElfFiles.SectionHeaderRoundTrip` | elf/src/sys/section_header.rs:4-27 | a section header written as the format prescribes is read back |
| `ElfFiles.SegmentOfHeader` | elf/src/lib.rs:209-236 | where a file holds a program header, its segment has the type of the header's number, the header's fields and the bytes it declares, or the error if they do not fit |
| `ElfFiles.SectionOfHeader` | elf/src/lib.rs:330-343 | the same for a section header |
| `ElfFiles.Elf64Programs.Next` | elf/src/lib.rs:203-237 | the iterator's call number `n` gives item `n` of the table's law, with the file's slice the header declares |
| `ElfFiles.Elf64Sections.Next` | elf/src/lib.rs:324-344 | the same for sections |
| `ElfFiles.ProgramsInOrder` | elf/src/lib.rs:203-237 | call `n` gives the header at offset plus `n` strides, for exactly the declared number, if and only if the table fits |
| `ElfFiles.SectionsInOrder` | elf/src/lib.rs:324-344 | the same for sections |
| `ElfFiles.ProgramsOwnExactly` | elf/src/lib.rs:203-237 | every program header that comes, also from a table that does not fit, is the entry of its own place, if and only if that condition holds |
| `ElfFiles.SectionsOwnExactly` | elf/src/lib.rs:324-344 | the same for sections |
| `ElfFiles.IteratorsAreFused` | elf/src/lib.rs:203-207 | once nothing was returned nothing ever is, also on a truncated table |
| `ElfFiles.StringTableInPlace` | elf/src/lib.rs:115-146 | a file that is read has its tables inside it and its string table is the section at the header's index |
| `ElfFiles.FileRoundTrip` | elf/src/lib.rs:90-146 | a file that starts with the magic number and class 2, with a header at byte 24, both tables inside it and a section header where the string table's is looked for, is read with that header, that string table, and tables with the header's starts, strides and counts |
| `ElfFiles.PrologueErrors` | elf/src/lib.rs:90-102 | a file below 24 bytes, of another magic number, of 32 bits, of another class, or below 64 bytes gives its own error, in that order, in bytes |
| `ElfFiles.HeaderErrors` | elf/src/lib.rs:115-139 | a table outside the file is an error, and the string table is missing exactly when its index is none or no header fits there |
| `ElfFiles.StringTableErrors` | elf/src/lib.rs:128-137 | a string table whose bytes are not in the file is an error |
| `ElfFiles.FindSection` | elf/src/lib.rs:128-137 | the loop that skips sections finds the one at the index, or none |
| `ElfFiles.FromBytes` | elf/src/lib.rs:90-102 | answers `FileOf`, of which the round trip and the three laws about errors say for every file what it is |
| `ElfFiles.Elf64FromBytes` | elf/src/lib.rs:115-146 | the part after the prologue answers `FileOf` |
| `ElfFiles.TakeSlice` | elf/src/lib.rs:210-215 | through readers, the part of the file that a header declares, or the error if it does not fit |
| `ElfFiles.Name` | elf/src/lib.rs:371-380 | the bytes from the name's offset to the first zero byte or the end of the string table |
| `KernelImage.KernelSegments` | bootloader/src/main.rs:29-50 | all program headers in order, each aligned to a page; otherwise the compilation ends at one that cannot be read or is not |
| `KernelImage.AllSegments` | bootloader/src/main.rs:29-50 | if the table fits there is a segment for each declared header, so that the array is filled |
| `KernelImage.BootInfoAddress` | bootloader/src/main.rs:52-76 | the least multiple of a page not below the address of the first section named `.bootinfo`; a panic means an earlier section cannot be read or named, there is none, or its address is zero or within a page of the end of 64 bits |
| `KernelImage.NameOfBootInfo` | bootloader/src/main.rs:60 | the name looked for, in letters |

## Left out

- UEFI calls, graphics modes, the assembly of the kernel switch, loading CR3, translation caches and interrupts.
- Memory orderings: the atomics of `LazyKey` and `OnceBox` are sequentially consistent steps; running out of keys or memory, which aborts, is a step that does not happen.
- The walk sets no accessed or dirty bits and has no reserved-bit faults, protection keys or execute-disable; that an address is canonical is stated apart from the walk.
- Frames that `new_page_table` gives are a supply of zeroed frames that nothing owns, as its safety contract demands; `page_table_ptr` is the identity on them.
- Concurrent calls of `map`, which its safety contract rules out for one page.
- MapSpec.MapGrants: says that a mapped page is never user accessible, since only leaves get USER_MODE; whether that is wanted is not decided here.
- `KERNEL_VIRTUAL_ADDRESSES` (its `continue` skips the increment) and the copying of segments (its zero fill starts at the wrong place) are not modelled.
- SegmentMapping.MapSegments: says where bytes are found for a kernel and a virtual base at page addresses, as the allocation and a check in the source make them.
- RangeMapping.KernelMapper.NextFreePage: does not cover a start address that is not page aligned; the virtual base is checked to be aligned.
- The mapping of the kernel switcher, which is one more call of `map`.
- BuddyTree.BinaryBuddyTree.Free: does not cover an address that is not page aligned, which the source asserts; a build with overflow checks panics below the base, where the subtraction comes before the comparison, and the model answers as one without.
- The pool's `free` changes nothing, so that a run of the pool is a run of `alloc`.
- The trees of `PagePool` keep their flags in arrays of their own; that these bytes lie in the metadata pages is stated by `BuddyTree.FlagsFitInMetadata` and `PoolRuns.CarvedIsPool`, but memory is not shared with the pages.
- `PhysicalPageAllocator::new`, which reads the firmware's memory map, and the pool's `free`, which is a stub. Both allocator files are commented out in the repository and modelled as written.
- Sums of addresses in the allocator, the bootloader's grouping and the ELF reader are natural numbers; the memory maps and files meant do not reach the end of the address space.
- EhActions.RoundUpIsLeast: the bits below a power of two are cleared by division and multiplication, and the sum is assumed not to wrap around.
- LEB128 numbers of more than ten bytes and reads beyond memory, which are undefined in the source, and the branch for setjmp/longjmp exceptions.
- MemoryRegions.FillTable: the library's `sort_unstable_by` is one that leaves equal sizes in some order; `MemoryRegions.SortedRegionsAreSound` is about every order.
- ELF files of 32 bits, which panic, and a section name that starts beyond the string table, which panics. The size of integers is that of the 64-bit target, so `int_fit` always fits.
- Font rendering, system calls, build scripts and the stubs of the standard library for unsupported platforms.
