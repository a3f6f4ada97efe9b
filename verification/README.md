# MankorOS in Dafny

This project models parts of the MankorOS kernel and proves what they promise. The models follow the
source's own form: objects that are changed in place are classes whose methods are proved against
functions on values, and what the source promises is then proved about those values over whole runs.

**User memory** (`Address` to `Refinement`, `Rights`, `UserSpace`, `Shm`, `AreaManager`, `RangeSplit`,
`Readiness`, `Failures`). An address space is an interval map of areas (`RangeMap`), a three-level Sv39 table
(`PageTable`; section 4.4 of the RISC-V Privileged Architecture) and references to counted frames
(`Frames`). `CowCopy` is the fork loop over three levels. `World` puts all spaces, all shared-memory
segments and the frame pool together; its labels are the operations and the stores of user code.
`WorldInv` shows that every step keeps exact counts, exclusive writers and covered pages. `Eager` is
the simple system that copies every private page at fork and knows no frames; `Refinement` shows that
over every run from boot both show the same. `Rights` bounds what a mapped page allows and says
what a page fault answers and achieves. `UserSpace` holds the code of page fault, fork, unmap,
attach, detach and drop, each proved to do the step on values; `Readiness` shows that their
preconditions, among them the source's assertions, hold in every world that the invariant admits.

**Page cache** (`PageCache`). Pages loaded on demand, written in three phases and read in a loop stand
for one flat byte array.

**FAT32** (`Shifts`, `FatTable`, `FatSectors`, `Fat`, `FatFile`; the FAT data structure of Microsoft's
FAT32 File System Specification). Chains, their cached lists, sector arithmetic, page reads and writes.

**Wake-ups** (`Pipe`, `SleepLock`). State machines over all interleavings of atomic steps.

**Smaller pieces** (`FpContext`, `InitStack`, `Path`). Lazy floating-point switching (the FS field,
section 3.1.6.6 of the Privileged Architecture), the initial user stack, the path parser and printer.

Where a promise does not hold of the code, the code is kept, the exact condition is proved, and an
input that fails it is given (`Failures` holds those that are runs of the whole system):

- a copy-on-write fault without memory loses one count (`OutOfMemoryExact`, `OutOfMemoryHappens`);
- a failed segment allocation keeps its frames (`ShmAllocFailExact`, `ShmAllocLoses`);
- a detach by the last holder panics (`DetachExact`, `DetachPanics`);
- a smaller heap break leaves pages mapped (`ShrinkCover`, `ShrinkUncovers`);
- an unmapping that ends inside a page and an area leaves an area that begins there (`RemovedAreasOk`,
  `UnmapCutsPage`);
- `find_free_range` does not find the gaps between ranges (`FindFreeRange`, `GapMissed`);
- `write_at` prepares its pages from the start of the first page and can forget the end of the last
  one (`WriteAt`, `WriteAtLoses`), and no write fills a page that it skips (`CachedWrite`, `HoleLost`);
- `attr_size` grows when a read goes beyond the end of the file (`AttrSize`, `SizeAfterRead`);
- the comment on `alloc_stack` promises `size` bytes below the stack pointer (`AllocStack`,
  `StackTooShort`);
- the calling convention wants the initial stack pointer 16-byte aligned (`InitStack`, `NoArguments`);
- `append` ignores `..` and the empty path (`AppendExact`, `AppendClimbs`, `AppendPrinted`,
  `AppendToEmpty`), and `without_prefix` keeps the flags (`AppendThenRemove`, `RemoveKeepsSlash`);
- a woken waiter of the sleep lock that is cancelled takes its wake along (`CancelExact`,
  `CancelStrands`); a waiter that polls without a wake or is cancelled while pending leaves an entry
  that wastes a wake (`SpuriousPollExact`, `CancelWaitingStrands`).

## Model

| member | source | states |
|---|---|---|
| `Address.VpnRangeMeets` | src/memory/address/virt.rs:146-164 | `iter_vpn` visits exactly the pages that share an address with the range |
| `Pte.EncodeDecode` | src/memory/pagetable/pte.rs:65-93 | a 56-bit page-aligned physical address and the ten flags come back from the 64-bit word they are encoded in |
| `Pte.BitUpdates` | src/memory/pagetable/pte.rs:165-181 | for every word, clearing W and setting SHARED change that one flag of the decoded entry and keep its frame and all other flags |
| `Pte.WordLayout` | src/memory/pagetable/pte.rs:65-93 | each flag is its own bit of the low ten, in the order of the Sv39 format, and the bits above are the page number |
| `UserAreas.SplitCells` | src/process/user_space/user_area.rs:333-359 | both parts of a split area show at every address what the whole showed: permission, file, translated file offset |
| `UserAreas.InsertedLookup` | src/process/user_space/range_map.rs:23-32 | an insertion changes what is shown inside the new range and nowhere else |
| `UserAreas.RemovedLookup` | src/process/user_space/range_map.rs:130-183 | removal is pointwise deletion: nothing is shown inside the range, every address outside keeps permission, file and translated offset |
| `UserAreas.RemovedWf` | src/process/user_space/range_map.rs:130-183 | after a removal the ranges are still non-empty, ordered and disjoint |
| `UserAreas.RemovedTwice` | src/process/user_space/range_map.rs:130-183 | removing a part of a range first makes no difference to removing the whole range |
| `RangeMaps.RangeMap.TryInsert` | src/process/user_space/range_map.rs:23-32 | fails if and only if the range overlaps one that is there; else adds exactly that range |
| `RangeMaps.RangeMap.Find` | src/process/user_space/range_map.rs:34-40 | finds the one range that holds the key, if there is one |
| `RangeMaps.RangeMap.RangeIsFree` | src/process/user_space/range_map.rs:84-97 | true if and only if the range is not empty and meets no other |
| `RangeMaps.RangeMap.FindFreeRange` | src/process/user_space/range_map.rs:49-78 | for every monotone `offset` that does not go backwards: the range is free and begins right behind everything that begins before the end of the window; none is returned if and only if there is no room there, whatever gaps are free before |
| `RangeMaps.RangeMap.ExtendBack` | src/process/user_space/range_map.rs:296-304 | succeeds if and only if the extension is not empty and free; then only the end moves |
| `RangeMaps.RangeMap.ReduceBack` | src/process/user_space/range_map.rs:309-322 | succeeds if and only if the new end lies in the range, and returns what was cut off; an emptied range is deleted |
| `RangeMaps.RangeMap.ForceRemoveOne` | src/process/user_space/range_map.rs:122-126 | removes that one range and returns its value |
| `RangeMaps.RangeMap.Remove` | src/process/user_space/range_map.rs:130-183 | the loop computes the pointwise deletion; the pieces it hands to `release` are disjoint, show what the map showed, and together are exactly the mapped part of the range |
| `RangeSplits.SplitAtMaybe` | src/process/user_space/range_map.rs:208-225 | splitting changes nothing that is shown, and afterwards no range reaches across the point |
| `RangeSplits.MergeExact` | src/process/user_space/range_map.rs:270-293 | merging a range with the next one changes nothing that is shown if and only if the second continues the first (same permission, both anonymous or the same file at the continued offset) |
| `RangeSplits.Merge` | src/process/user_space/range_map.rs:270-293 | for every test: merging with both neighbours changes nothing that is shown if and only if each pair that the test accepts belongs together |
| `AreaManagers.UserAreaManager.AllocStack` | src/process/user_space/user_area.rs:417-433 | the stack lies right behind all others, and none is had if and only if there is no room; it ends at the first page boundary after its bytes; the insertion after `find_free_range` never fails; the stack pointer is 16-byte aligned; the `size` bytes below it lie in the area if and only if the unrounded end leaves 16 bytes in its page |
| `AreaManagers.StackTooShort` | src/process/user_space/user_area.rs:417-433 | a first stack of 4088 bytes: the bytes promised below the stack pointer begin below the area |
| `AreaManagers.UserAreaManager.InsertMmap` | src/process/user_space/user_area.rs:468-535 | fails if and only if there is no room behind all mappings; the new area overlapped nothing and ends at the first page boundary that is not before its last byte; if what reaches into the window ends at page boundaries then the area begins at one, and this stays so |
| `AreaManagers.GapMissed` | src/process/user_space/range_map.rs:49-78 | with one mapping in the last page of the window, a mapping of one page fails although all the space before is free |
| `AreaManagers.UserAreaManager.ResetHeapBreak` | src/process/user_space/user_area.rs:450-465 | when the heap break can move, and to which single area it moves |
| `Frames.PhysMem.AllocFrame` | src/memory/frame.rs:69-89 | gives a frame that was free and now has count one; fails if and only if none is free |
| `Frames.PhysMem.DecreaseAndTryDealloc` | src/memory/frame_ref_cnt.rs:99-110 | one reference less; the frame is freed exactly when that was the last one |
| `Frames.PhysMem.DecreaseAndMustDealloc` | src/memory/frame_ref_cnt.rs:112-123 | frees a frame whose only reference is given up |
| `Frames.PhysMem.DecreaseCount` | src/memory/frame_ref_cnt.rs:94-97 | one reference less, nothing freed |
| `SharedMemory.AllocShm` | src/process/user_space/shm_mgr.rs:54-68 | distinct frames, all from the free ones, one reference each; it fails if and only if there are too few, and then keeps every frame that was free |
| `SharedMemory.Shm.DropShm` | src/process/user_space/shm_mgr.rs:89-95 | all frames of a segment without other references go back to the allocator |
| `PageTables.IndexInverse` | src/memory/pagetable/pagetable.rs:33-47 | the three indices recover the three parts of a page number |
| `PageTables.WriteLeafFlat` | src/memory/pagetable/pagetable.rs:145-167 | a write through the walk changes the flat map from page number to entry at that page only |
| `PageTables.AddMid` | src/memory/pagetable/pagetable.rs:337-352 | a new second-level table changes no walk and keeps the tree |
| `PageTables.AddLeaf` | src/memory/pagetable/pagetable.rs:337-352 | a new leaf table changes no walk and keeps the tree |
| `PageTables.SlotsDistinct` | src/memory/pagetable/pagetable.rs:318-352 | no two tables have the same place in the tree |
| `PageTables.HardwareReadsFlat` | src/memory/pagetable/pagetable.rs:33-47 | the Sv39 walk of section 4.4 of the Privileged Architecture, over the bits of the address, finds for every user address the entry that the flat map has for its page, and faults if there is none or it can be neither read nor executed |
| `PageTableCode.PageTable.constructor` | src/memory/pagetable/pagetable.rs:87-112 | a new table maps nothing, has the kernel half of the given root and uses one fresh frame |
| `PageTableCode.PageTable.GetEntryOrCreate` | src/memory/pagetable/pagetable.rs:378-386 | creates at most two tables, all from free frames, and changes no translation |
| `PageTableCode.PageTable.RemapPage` | src/memory/pagetable/pagetable.rs:145-159 | sets the entry of one page and no other, even when tables had to be created; tables of other spaces keep their contents |
| `PageTableCode.PageTable.UnmapPage` | src/memory/pagetable/pagetable.rs:161-168 | removes the entry of one page and no other, and returns its frame |
| `PageTableCode.PageTable.GetPte` | src/memory/pagetable/pagetable.rs:214-220 | the walk reads the flat map |
| `PageTableCode.PageTable.DropTables` | src/memory/pagetable/pagetable.rs:389-423 | the debug checks panic if and only if a table has another reference or an entry for a user page; else every table frame goes back to the allocator, once |
| `PageTableCode.CleanExact` | src/memory/pagetable/pagetable.rs:405-411 | no table has an entry for a user page if and only if neither the flat map nor the kernel half has one |
| `CowCopy.CopyTableAndMarkSelfCow` | src/memory/pagetable/pagetable.rs:225-288 | over three nested loops: parent and child get the same kernel half and the same flat map with every private user page write-protected and marked shared, every user reference is counted once more, nothing else changes, and no more frames are needed than the parent has tables |
| `CowMarks.CopyingPage` | src/memory/pagetable/pagetable.rs:262-282 | one page of the copy: the entry is marked in both tables and its frame gains one reference |
| `UserSpaceCode.UserSpace.PageFault` | src/process/user_space/user_area.rs:228-331 | panics if and only if an assertion fails, a shared page is missing, or the frame for a file page or a table cannot be had; else the code does what `FaultStep` says on values, for every branch: no area, wrong permission, already mapped, copy-on-write, demand paging, out of memory; tables of other spaces keep their contents |
| `UserSpaceCode.UserSpace.CopyOnWrite` | src/process/user_space/user_area.rs:262-289 | a shared frame is copied into a new one after giving up its reference, an unshared one is made writable in place |
| `UserSpaceCode.UserSpace.ReleaseRange` | src/process/user_space/user_area.rs:630-646 | every mapped page that meets the range loses its entry and its frame one reference, however often a frame occurs |
| `UserSpaceCode.UserSpace.UnmapRange` | src/process/user_space/user_area.rs:600-608 | areas and page table after the calls of `release` equal the deletion of the range and of its pages |
| `UserSpaceCode.UserSpace.CloneCow` | src/process/user_space/mod.rs:244-251 | the code does what `ForkStep` says: same areas, same marked pages, same kernel half, shared counts |
| `UserSpaceCode.UserSpace.AttachShm` | src/process/user_space/mod.rs:178-199 | fails exactly on overlap; else the segment is mapped page by page with one more reference each; a page-table frame can only be missing when fewer than two per page are free |
| `UserSpaceCode.UserSpace.DetachShm` | src/process/user_space/mod.rs:201-209 | fails exactly when no area is there; else exactly the pages of that area are unmapped and dereferenced |
| `UserSpaceCode.UserSpace.DropSpace` | src/process/user_space/mod.rs:262-279 | after all areas are released no user page is left, so the checks on the tables panic if and only if a table is referenced twice or the kernel half has a user page; else the pool is that of `DropStep` |
| `UserSpaceCode.OtherSpaceSame` | src/memory/pagetable/pagetable.rs:145-167 | an operation that keeps the tables of others, as every operation here is shown to do, changes nothing that another space maps |
| `Readiness.SpaceReady` | src/process/user_space/mod.rs:244-279 | in every world that satisfies the invariant the preconditions of fork, unmap and drop hold |
| `Readiness.FaultAsserts` | src/process/user_space/user_area.rs:262-266 | in every such world the three assertions on copy-on-write faults hold and a shared page is never demand-paged |
| `Readiness.FaultNeverPanics` | src/process/user_space/user_area.rs:228-331 | in every such world with three free frames no page fault panics |
| `Rights.MappedRights` | src/process/user_space/user_area.rs:55-69 | in every such world a mapped page lies in an area; its entry is valid and for users, readable and executable exactly as the area is, writable only if the area is, and in shared memory exactly then |
| `Rights.FaultAnswers` | src/process/user_space/user_area.rs:228-282 | a fault answers NoSegment if and only if no area holds the page, PermUnmatch if and only if one does that lacks the right to write or execute that the access needs, and KernelOOM if and only if the access is allowed, needs a new frame and gets none |
| `Rights.FaultProgress` | src/process/user_space/user_area.rs:253-331 | a fault that succeeds leaves the page mapped for users, writable after a write access and executable after a fetch, and every other entry as it was |
| `Rights.FaultOnce` | src/process/user_space/user_area.rs:253-261 | after a fault that succeeded the same fault would change nothing |
| `Spaces.DropTwice` | src/process/user_space/user_area.rs:630-646 | the order in which references are dropped does not matter |
| `WorldInvariant.StepInv` | src/process/user_space/mod.rs:178-279 | every step of every operation keeps all invariants: counts exact, references separate, writers exclusive, mapped pages covered, segments attached and held |
| `WorldInvariant.OneWriter` | src/memory/pagetable/pagetable.rs:266-282 | two writable private pages with one frame are the same page of the same space, and that frame has count one |
| `WorldInvariant.FaultInv` | src/process/user_space/user_area.rs:228-331 | a page fault keeps all invariants |
| `WorldInvariant.OutOfMemoryExact` | src/process/user_space/user_area.rs:270-282 | when no frame is left, a fault keeps the counts exact if and only if it is not the copy of a shared frame |
| `Failures.OutOfMemoryHappens` | src/process/user_space/user_area.rs:270-282 | a run from boot on seven frames after which a write finds no frame and leaves a wrong count: a page is written, the space is forked |
| `WorldInvariant.ShmAllocFailExact` | src/process/user_space/shm_mgr.rs:54-60 | a segment allocation that runs out of frames keeps the counts exact if and only if there was no frame to keep |
| `Failures.ShmAllocLoses` | src/process/user_space/shm_mgr.rs:54-60 | with one free frame, asking for two fails and the frame is gone |
| `WorldInvariant.ForkInv` | src/process/user_space/mod.rs:244-251 | a fork keeps all invariants |
| `WorldInvariant.UnmapInv` | src/process/user_space/user_area.rs:600-608 | unmapping keeps all invariants, for ranges that end at a page boundary or cut no area |
| `WorldInvariant.RemovedAreasOk` | src/syscall/memory.rs:163-176 | areas begin at page boundaries after an unmapping if and only if the range ends at one or cuts no area |
| `Failures.UnmapCutsPage` | src/syscall/memory.rs:163-176 | unmapping 0x10000 to 0x10800 of an area from 0x10000 to 0x12000 leaves one that begins at 0x10800 |
| `WorldInvariant.DetachInv` | src/process/user_space/mod.rs:201-209 | detaching keeps all invariants |
| `WorldInvariant.AttachedTwice` | src/process/user_space/mod.rs:201-209 | an attached frame has at least two references |
| `WorldInvariant.DetachExact` | src/process/user_space/mod.rs:201-209 | when the area is gone and its pages are not yet unmapped, every segment without a holder has count one on all its frames if and only if somebody else holds the detached one |
| `Failures.DetachPanics` | src/process/user_space/mod.rs:201-209 | a run from boot after which detaching must panic: create, attach, give up the handle |
| `WorldInvariant.AttachInv` | src/process/user_space/mod.rs:178-199 | attaching keeps all invariants |
| `WorldInvariant.DropInv` | src/process/user_space/mod.rs:262-279 | dropping a space keeps all invariants of the others |
| `WorldInvariant.DropCoversAll` | src/process/user_space/mod.rs:262-279 | every mapped page lies in an area, so releasing the areas leaves no user entry |
| `WorldInvariant.UnheldAlone` | src/process/user_space/shm_mgr.rs:89-95 | a segment without holders is the only reference to its frames, so its drop cannot panic |
| `WorldInvariant.ReapInv` | src/process/user_space/shm_mgr.rs:89-95 | dropping segments without holders keeps all invariants |
| `WorldInvariant.ShrinkCover` | src/process/user_space/user_area.rs:457-460 | shrinking the heap, to nothing included, keeps mapped pages covered if and only if no page is mapped in the part that is cut off |
| `Failures.ShrinkUncovers` | src/process/user_space/user_area.rs:457-460 | a heap of two pages with the second mapped; the break goes down by one page |
| `Refinement.LazyRefinesEager` | src/process/user_space/mod.rs:178-279 | over every run from boot, each space shows the pages, rights and contents it has in the system that copies all pages at every fork and fills new ones from the file at the place of the page or with zeros, and each segment its contents |
| `Refinement.EntriesPresent` | src/process/user_space/mod.rs:178-279 | over every run from boot, the frame behind every entry of every page table holds what the eager system has at that page, and the entry gives the rights of that page and no others |
| `Refinement.StepSim` | src/process/user_space/mod.rs:178-279 | one step of the lazy system is one step of the eager one |
| `Refinement.FaultSim` | src/process/user_space/user_area.rs:228-331 | a page fault changes what no space shows, its own included |
| `Refinement.StorePrivate` | src/process/user_space/user_area.rs:253-289 | a store through a writable private entry is one that the eager system allows, and changes what the writer shows and nobody else |
| `Refinement.StoreShared` | src/process/user_space/mod.rs:178-199 | a store through a writable shared entry is one that the eager system allows, and changes the segment, which all its users show |
| `Refinement.ForkSim` | src/memory/pagetable/pagetable.rs:225-288 | after a fork both spaces show what the parent showed |
| `Refinement.UnmapSim` | src/process/user_space/user_area.rs:600-608 | unmapping removes exactly the pages of the range from what the space shows |
| `Refinement.AttachSim` | src/process/user_space/mod.rs:178-199 | attaching adds exactly the pages of the segment |
| `Refinement.DetachSim` | src/process/user_space/mod.rs:201-209 | detaching removes exactly the pages of that attachment |
| `Refinement.AllReturned` | src/memory/frame.rs:90-94 | once all spaces and segments are gone every frame is back in the allocator |
| `PageCache.PageCacheFile.PerpareRange` | src/fs/new_vfs/page_cache.rs:170-206 | loading pages never changes the file that the cache stands for; afterwards every page of the range is cached or beyond the end; the returned number is that of the bytes in the loaded pages |
| `PageCache.PageCacheFile.CachedRead` | src/fs/new_vfs/page_cache.rs:222-277 | on a prepared range the loop returns exactly the bytes of the flat file, clipped at its end, and leaves the rest of the buffer alone |
| `PageCache.PageCacheFile.CachedWrite` | src/fs/new_vfs/page_cache.rs:285-313 | at every offset, the cache stands for the written file after the three phases if and only if every touched page was cached, or had nothing behind the write and only zeros before it, and no page between the end of the file and the write is skipped |
| `PageCache.PageCacheFile.ReadAt` | src/fs/new_vfs/page_cache.rs:79-94 | returns exactly the bytes from `offset` to the smaller of `offset + n` and the length, whatever is cached |
| `PageCache.PageCacheFile.WriteAt` | src/fs/new_vfs/page_cache.rs:96-113 | at every offset, the cache stands for the written file if and only if no page is skipped and the last page was cached or prepared, or nothing lies behind the write in it |
| `PageCache.WriteAtLoses` | src/fs/new_vfs/page_cache.rs:107-109 | a write of 200 bytes at 4000 into an uncached file of 5000 bytes is outside that condition |
| `PageCache.HoleLost` | src/fs/new_vfs/page_cache.rs:285-313 | a write of one byte at 8192 into a file of 10 bytes is outside of both conditions |
| `PageCache.PageCacheFile.PollWrite` | src/fs/new_vfs/page_cache.rs:127-147 | preparing from the true offset and then writing is right if and only if no page is skipped; an empty write is right if and only if it begins at a page boundary that is cached or not inside the file, or within a page and not beyond the end |
| `PageCache.PageCacheFile.AttrSize` | src/fs/new_vfs/page_cache.rs:45-58 | the reported size is never too small, and right if and only if no page beyond the end of the file is cached |
| `PageCache.SizeAfterRead` | src/fs/new_vfs/page_cache.rs:45-94 | a read beyond the end returns nothing and makes the reported size wrong |
| `PageCache.WriteThenRead` | src/fs/new_vfs/page_cache.rs:79-113 | what `write_at` wrote, where it loses nothing, is what `read_at` returns |
| `PageCache.Replay` | src/fs/new_vfs/page_cache.rs:79-147 | over every run of reads, writes and prepared writes the answers are those of one flat byte array, up to the first write that its condition excludes or the first allocation that fails |
| `FatTables.ChainDistinct` | src/fs/nfat32/fs.rs:303-312 | a chain that reaches an end mark has no cycle |
| `FatTables.SameRest` | src/fs/nfat32/fs.rs:294-312 | a table has at most one chain from a given cluster |
| `FatTables.CreateOk` | src/fs/nfat32/fs.rs:276-280 | a fresh cluster is a chain of its own, disjoint from all others |
| `FatTables.AppendOk` | src/fs/nfat32/dir.rs:672-676 | linking a fresh cluster behind the last one keeps all chains linked, disjoint and equal to their lists |
| `FatTables.DeleteOk` | src/fs/nfat32/tools.rs:183-189 | freeing a chain leaves all others as they are |
| `FatTables.Conservation` | src/fs/nfat32/fs.rs:232-247 | free clusters plus the lengths of all chains equal the table without its lost clusters |
| `FatTables.RunOk` | src/fs/nfat32/fs.rs:276-300 | over every run of creations, appends and deletions lists and chains agree, and free clusters plus chain lengths are constant |
| `FatTables.StepDoes` | src/fs/nfat32/fs.rs:239-300 | a new file gets the lowest free cluster, an appended one comes to the end of that file and no other, a deletion gives back exactly the clusters of the file; the first two fail if and only if nothing is free |
| `FatCode.FatTableManager.FindFirstFree` | src/fs/nfat32/fs.rs:239-247 | the first free entry, if there is one |
| `FatCode.FatTableManager.Chain` | src/fs/nfat32/fs.rs:303-312 | the loop ends and returns the linked list whenever the table has one that begins there |
| `FatCode.ClusterChain.FreeAll` | src/fs/nfat32/tools.rs:183-189 | exactly the entries of the chain become free |
| `FatCode.CreateFile` | src/fs/nfat32/file.rs:427-437 | allocating a cluster and reading its chain back is the create step |
| `FatCode.AppendCluster` | src/fs/nfat32/dir.rs:672-676 | `alloc_next` on the last cluster and `add` is the append step |
| `FatCode.DeleteFile` | src/fs/nfat32/file.rs:134-137 | `free_all` is the delete step |
| `FatSectors.NextIsNext` | src/fs/nfat32/fs.rs:180-192 | from sector k of a file `next_sector` goes to sector k+1, and to None exactly after the last |
| `FatSectors.WalkIsSector` | src/fs/nfat32/fs.rs:180-192 | k steps from the first sector reach sector k, and None exactly when there is none |
| `FatSectors.OffsetIsSector` | src/fs/nfat32/tools.rs:192-216 | the shift-and-mask lookup finds sector `off / 512` and the offset in it |
| `FatSectors.WalkIsOffset` | src/fs/nfat32/tools.rs:192-216 | walking k sectors and looking up byte 512 k agree |
| `FatSectors.SectorsDiffer` | src/fs/nfat32/fs.rs:166-178 | different places of a file, and places of files without a common cluster, are different sectors |
| `FatSectors.ClusterLayout` | src/fs/nfat32/fs.rs:166-178 | cluster 2 is the first of the data area, clusters follow each other without gaps, and every sector of a cluster is found to lie in it |
| `FatFiles.Fat32FS.ReadPageAt` | src/fs/nfat32/file.rs:317-354 | returns the flat file slice clipped to the size |
| `FatFiles.Fat32FS.WritePageAt` | src/fs/nfat32/file.rs:356-391 | puts the page over the flat file up to its size, partial last sector included, and changes no file without a common cluster |
| `FatFiles.RoundTrip` | src/fs/nfat32/file.rs:317-391 | what `write_page_at` wrote is what `read_page_at` returns |
| `FatFiles.Fat32FS.WriteSector` | src/fs/nfat32/fs.rs:205-215 | a short buffer is put over the start of the block, the rest of which stays |
| `Pipes.Pipe.PollRead` | src/fs/npipe.rs:158-176 | takes the smaller of what there is and what fits, oldest byte first, leaves the rest in order and hands out the writer's waker |
| `Pipes.Pipe.PollWrite` | src/fs/npipe.rs:254-274 | appends the smaller of what there is and what fits, in order, and hands out the reader's waker |
| `Pipes.Pipe.PollReadReady` | src/fs/npipe.rs:201-229 | ready if and only if there is data, broken if and only if there is none and the pipe is closed, else the waker is registered |
| `Pipes.Pipe.PollWriteReady` | src/fs/npipe.rs:295-318 | broken if and only if the pipe is closed, else ready with the space left, else the waker is registered |
| `Pipes.Pipe.DropReadEnd` | src/fs/npipe.rs:183-191 | closes the pipe and wakes the writer |
| `Pipes.Pipe.DropWriteEnd` | src/fs/npipe.rs:277-285 | closes the pipe and wakes the reader |
| `Pipes.StepInv` | src/fs/npipe.rs:129-318 | every atomic step, spurious wakes and signals included, keeps: bytes written equal bytes read and buffered, capacity, a blocked side has its waker in an open pipe that is empty or full, and the assertions before each transfer |
| `Pipes.RunSafe` | src/fs/npipe.rs:129-318 | over all interleavings of one reader and one writer; never are both blocked |
| `Pipes.EndOfFile` | src/fs/npipe.rs:204-211 | a read that finds the pipe broken has seen everything ever written |
| `Pipes.ReaderTakes` | src/fs/npipe.rs:158-176 | a ready reader gets exactly the oldest bytes, as many as there are or as it asked for, and at least one if it asked for any |
| `Pipes.WriterPuts` | src/fs/npipe.rs:254-274 | a ready writer gets rid of exactly its first bytes, as many as fit or as it has, and at least one if it has any |
| `Pipes.ReaderAnswered` | src/fs/npipe.rs:201-229 | a polling reader is ready if and only if there is data, gives up if and only if there is none and the writer is gone, and else waits |
| `Pipes.WriterAnswered` | src/fs/npipe.rs:295-318 | a polling writer is refused if and only if the reader is gone, ready if and only if there is room, and else waits |
| `Pipes.ReaderWoken` | src/fs/npipe.rs:254-285 | the write or close that ends a reader's wait wakes it |
| `Pipes.WriterWoken` | src/fs/npipe.rs:158-191 | the read or close that ends a writer's wait wakes it |
| `SleepLocks.SleepLock.Poll` | src/sync/sleep.rs:55-70 | takes the lock if it is free, else queues the waker behind all others |
| `SleepLocks.SleepLock.DropGuard` | src/sync/sleep.rs:76-88 | frees the lock and wakes the first in the queue |
| `SleepLocks.RunSafe` | src/sync/sleep.rs:55-88 | over every run of any number of tasks: at most one guard, `holding` says whether there is one, queued tasks always have a holder or a woken task before them, and each can be woken without any newcomer |
| `SleepLocks.MovesUp` | src/sync/sleep.rs:76-88 | a queued task moves up one place for every guard dropped, so it is woken after as many drops as there were tasks before it |
| `SleepLocks.CancelExact` | src/sync/sleep.rs:55-88 | after a woken task is cancelled with others in the queue, the first of them can be woken without a newcomer, and nobody is ever stranded later, if and only if the lock is held or some other task is about to poll |
| `SleepLocks.CancelStrands` | src/sync/sleep.rs:55-88 | three tasks come, the first drops its guard, the second is cancelled: the third is stranded |
| `SleepLocks.SpuriousPollExact` | src/sync/sleep.rs:57-69 | after one more poll nobody is ever stranded if and only if the task was not pending; a pending task that polls again leaves a stale entry, and some run strands a task |
| `SleepLocks.CancelWaitingStrands` | src/sync/sleep.rs:57-69 | cancelling a pending task always leaves a stale entry, and some run strands a task |
| `FpContexts.HartLocal.FpUserToKernel` | src/trap/fp_ctx.rs:33-43 | the context is marked if and only if FS is not Clean, and nothing else changes |
| `FpContexts.HartLocal.FpKernelToUser` | src/trap/fp_ctx.rs:45-83 | nothing is saved or loaded if the process owns the registers; else they are saved to their owner if and only if it is marked, and the context of the process is loaded |
| `FpContexts.StepSim` | src/trap/fp_ctx.rs:33-83 | one step of the lazy switch simulates saving and loading everything |
| `FpContexts.RunSame` | src/trap/fp_ctx.rs:33-83 | over every run on one hart the registers in user mode are those of the eager system |
| `FpContexts.LazyKeeps` | src/trap/fp_ctx.rs:33-83 | a process that enters user mode again finds exactly the registers it last left |
| `InitStacks.Stack.PushStr` | src/process/user_space/mod.rs:84-101 | a copy with a NUL below the stack pointer; nothing at or above it changes |
| `InitStacks.Stack.InitStack` | src/process/user_space/mod.rs:36-156 | reading upward from the returned pointer: argc, pointers to copies of the arguments in order, NULL, the same for the environment, then auxv and its terminator; nothing pushed is overwritten; the pointer is a multiple of 8, and of 16 if and only if the two counts add up to an odd number |
| `InitStacks.NoArguments` | src/process/user_space/mod.rs:36-156 | without arguments and environment the stack pointer is 8 modulo 16 |
| `InitStacks.LeRound` | src/process/user_space/mod.rs:134-140 | a 64-bit word is read back from its little-endian bytes |
| `InitStacks.WordBytes` | src/process/user_space/mod.rs:134-140 | a word in memory is read with the byte at the lowest address counting least |
| `Paths.FromString` | src/fs/new_vfs/path.rs:54-81 | the loop computes the parse function |
| `Paths.ToString` | src/fs/new_vfs/path.rs:18-31 | the loop computes the printed form |
| `Paths.StartsWith` | src/fs/new_vfs/path.rs:167-180 | true if and only if the components are a prefix |
| `Paths.WithoutPrefix` | src/fs/new_vfs/path.rs:156-165 | drops exactly the components of the prefix |
| `Paths.ParsePrint` | src/fs/new_vfs/path.rs:18-81 | reparsing the printed form of any parsed path gives the same path |
| `Paths.PrintedParts` | src/fs/new_vfs/path.rs:18-31 | between the slashes of the printed form stand exactly the components, after one empty part if the path is absolute; without components it is a slash or nothing |
| `Paths.AppendExact` | src/fs/new_vfs/path.rs:91-101 | for any two strings, appending their parses agrees with parsing them joined by a slash if and only if the first is not empty and the second does not climb out of it |
| `Paths.AppendClimbs` | src/fs/new_vfs/path.rs:91-101 | the strings "x" and ".." are outside of that condition |
| `Paths.AppendPrinted` | src/fs/new_vfs/path.rs:91-101 | for parsed paths and their printed forms they agree if and only if the first is absolute or has components |
| `Paths.AppendToEmpty` | src/fs/new_vfs/path.rs:91-101 | appending "b" to the empty path and parsing the printed forms differ |
| `Paths.AppendThenRemove` | src/fs/new_vfs/path.rs:91-180 | removing the prefix gives back the appended components with the flags of the prefix, and the appended path itself if and only if the two flags agree |
| `Paths.RemoveKeepsSlash` | src/fs/new_vfs/path.rs:91-180 | "b" appended to "/a" comes back as "/b" |

## Left out

- File contents are a fixed function of file and offset during a run of the memory model; the page cache and FAT models are separate from it.
- Counts are natural numbers: the wrap-around of the 32-bit atomics and the layout of the count array (src/memory/frame_ref_cnt.rs:15-62) are not modelled.
- A frame holds either bytes or page-table entries; physical memory as one byte array, TLB flushes, SUM and SIE bits and spin locks are not modelled.
- `remap_range` (mprotect), `clear_shared`, `become_unique`, huge pages of user programs, which no modelled operation makes, and the tables behind the kernel half of a root.
- CowCopy.CopyTableAndMarkSelfCow: in root entries 256 to 511 the source also walks the tables behind directories, which parent and child share; the model does not go into them.
- UserSpaceCode.UserSpace.PageFault: `get_page` fails only for want of a frame; an error of the file below it, also a panic, is not modelled.
- UserSpaceCode.UserSpace.AttachShm: the outcome NoTable, a panic in the source, has no described state.
- WorldInvariant.StepInv: the heap is grown by its own step; shrinking it is `ShrinkCover`; a copy-on-write fault on a shared frame is a step only when it obtains a frame.
- Refinement.StepSim: shared memory lies in the share segment and other areas outside of it, as the windows of the area manager arrange; a detach is a step only while somebody else holds the segment.
- AreaManagers.UserAreaManager.InsertMmap: sizes above zero, which the source's assertion in `try_insert` demands.
- RangeMap `replace`, `split_at_run`, `clear`, `fork` and the containment queries: easy members that no modelled path uses.
- Writing cached pages back, `truncate` and `get_page` of the page cache; device errors of the file below it.
- The FAT as it is loaded: the source sizes its array by bytes instead of entries, and the model takes any array whose first two entries are in use. Writing the table back to disk is not done by the source either.
- FatSectors.NextIsNext: entries are compared unmasked, as the source does; a table that names cluster 0 or 1 is outside of every chain.
- FAT directories, long names, `truncate`, `alloc_push` and `free_pop`; I/O errors; the block cache, which these paths bypass.
- Pipes.RunSafe: one reader and one writer; with more, a registered waker is replaced, as a comment in the source says.
- FpContexts.RunSame: one hart; moving a process to another hart, fork, exec and signal return change contexts outside of the protocol.
- InitStacks.Stack.InitStack: the stack must have room for everything that is pushed; strings are byte strings, and one with a NUL inside reads shorter as a C string.
- Drivers, boot, syscall dispatch, ELF loading, procfs, timers, descriptor tables and id pools: hardware, plumbing or easy claims.
