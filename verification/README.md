# TupleOS kernel model

A Dafny model of the parts of TupleOS, a 32-bit x86 kernel and its boot loader, that decide who owns
memory, what an address translates to, who runs next, what a resumed thread finds, and what the loader
leaves in memory. `dafny verify dfyconfig.toml` checks the whole project.

The operations are modelled in the form the source gives them: classes with mutable fields and arrays,
methods with loops, each proved against a specification on values; and lemmas over whole runs of those
specifications. Errors are results, not preconditions. 32-bit and 16-bit wrap-around is written out.

| file | what it models |
|---|---|
| `Words.dfy` | 32-bit arithmetic |
| `Pmm.dfy` | `kernel/pmm.c`: the frame bitmap and the allocator on it, alone and over runs |
| `MemoryMap.dfy` | `build_multiboot` in `boot/stage2.asm` and the walk of `pmm_init` over what it builds |
| `Paging.dfy` | two-level page tables as values (Intel SDM volume 3A, section 4.3): walks, directory sharing, the direct-map window |
| `KernelPaging.dfy` | `kernel/paging.c` in place, tied to a flat page map |
| `PageRanges.dfy` | what growing and releasing a range of pages does to frames, tables and translations |
| `FrameDemand.dfy` | how many frames and tables a range of pages takes, and when memory suffices for it |
| `Regions.dfy` | the region list of `kernel/vmm.c`: linked nodes in a pool, and the sorted list they stand for |
| `Vmm.dfy` | `vmm_init`, `vmm_map_region`, `vmm_unmap_region` on the kernel address space |
| `Ownership.dfy` | who owns each frame, over every run of heap growth, mapping, rollback and unmapping |
| `LostFrames.dfy` | frames that a failed growth of the heap leaves with no owner, for the rest of every run |
| `FreeRegions.dfy` | `vmm_find_free_region` |
| `HeapBlocks.dfy`, `Heap.dfy` | `kernel/kheap.c` as values: the block list, and runs of `kmalloc` and `kfree` |
| `HeapFaults.dfy` | `kernel/kheap.c`: headers that fall on pages that are not mapped |
| `KernelHeap.dfy` | `kernel/kheap.c` in place: headers in memory, growth through the page tables |
| `HeapExhaustion.dfy` | a boot with little memory, and the run on it that grows the heap over a page without a frame |
| `Scheduler.dfy` | the process table as a state machine: invariants, bounded waiting, round robin |
| `Processes.dfy` | `kernel/process.c` and `kernel/scheduler.c` in place |
| `ContextSwitch.dfy` | `boot/context_switch.asm` and the frame of `kthread_create`, under the scheduler |
| `Fat16.dfy` | `fat16_load_file` in `boot/stage2.asm` |
| `Elf.dfy` | `elf_load` in `boot/stage2.asm` |
| `BootLoad.dfy` | the two together |

## Where the code does not do what it is meant to

Each of these is a lemma with the exact condition and, in brackets, one at a concrete input.

- The frame search covers `total_frames / 8` bytes from frame 0, but `total_frames` counts only available frames: a
  clear frame is ever handed out if and only if it lies within that reach (`Pmm.HandedOutWithinReach`,
  [`MemoryMap.GapHidesMemory`]).
- A reserved frame stays out of the allocator if and only if nothing frees it (`Pmm.ReservedUntilReleased`); frame 0,
  once freed, reads as NULL ([`Pmm.FrameZeroReadsAsNull`]).
- `pmm_init` writes past the bitmap if and only if an available entry reaches frame 32784 or 32785
  (`MemoryMap.PastBitmap`, [`MemoryMap.BigMachineWritesPast`]).
- A 64-bit map entry frees exactly its usable frames if and only if cutting it to 32 bits changes nothing
  (`MemoryMap.FreesExactlyUsable`, `MemoryMap.BitmapIsUsable`, [`MemoryMap.HighMemoryAliasesLow`]).
- `total_frames` counts each frame once if and only if map entries share no frame (`MemoryMap.TotalCountsOnce`,
  [`MemoryMap.SharedFramesCountTwice`]).
- The direct-map window survives a run if and only if no call maps or unmaps a page of it (`PageTables.WindowForever`,
  [`PageTables.WindowLost`]); the boot region over it can be unmapped ([`Ownership.WindowUnprotected`]).
- Page 0xC0000, the direct map of frame 0, lies below the first boot region. A region may be mapped over it, and then
  neither rollback nor unmapping brings it back (`Ownership.FailedMapRestores`, `Ownership.EveryFailedMapRestores`,
  [`Ownership.RollbackLosesZeroPage`];
  `Ownership.UnmapUndoesMap`, [`Ownership.UnmapLosesZeroPage`]).
- Zero-size regions may share a base with another region; `vmm_unmap_region` finds the region just mapped if and
  only if the list did not already begin at its base (`Ownership.UnmapFindsMapped`, [`Ownership.EmptyRegionHides`]).
- The overlap check is exact if and only if the end of the range does not wrap, or wraps harmlessly
  (`Regions.CheckIsExact`, [`Regions.WholeTopPasses`]).
- `vmm_find_free_region` answers with a free range if and only if the walk never meets a gap too small for the request
  (`FreeRegions.FoundIsFree`, [`FreeRegions.SmallGapOverlaps`]); in runs that only place regions, if and only if the
  request would end below 4 GB on top of them (`FreeRegions.PlacedRangesAreFree`, [`FreeRegions.WholeTopWraps`]).
- A heap page whose table got no frame is not noticed; frame ownership survives that if and only if the page was not
  the last one asked for (`Ownership.TableMissingOwns`, [`HeapExhaustion.LastFrameWasted`], [`HeapExhaustion.HoleInPayload`]).
  If it was, `kmalloc` halts the kernel if and only if a header it writes falls on that page
  (`HeapFaults.MissingPageFaults`, [`HeapExhaustion.HeaderOnHole`]).
- A growth that runs out of frames keeps those of the pages it had mapped, and no run ever gives them back
  (`LostFrames.StuckGrowthLoses`, `LostFrames.LostForever`).
- The limit check of `heap_expand` is right if and only if its sum does not wrap to below the limit
  (`Heap.LimitCheckIsExact`, [`Heap.LimitCheckWraps`]).
- `kfree` keeps the heap invariant if and only if the pointer is NULL or a payload, or the words below it happen to be
  harmless (`Heap.KfreeKeeps`, [`Heap.FirstStackMiscounts`], [`Heap.LinkOverwritten`]). `process_free` hands it an
  aligned address, which is a payload if and only if the payload was aligned already (`Heap.AlignedFreeFindsBlock`);
  otherwise nothing is freed (`Heap.AlignedFree`).
- A block found for a request covers it if and only if rounding the size to 8 does not wrap (`Heap.FitCovers`,
  [`Heap.HugeRequestWraps`]); `kheap_get_free` counts headers as free (`HeapBlocks.FreeCountsHeaders`).
- PIDs stay unique if and only if the counter does not wrap (`Scheduler.CreateInv`, [`Scheduler.PidsWrap`]), although
  the comment in `kernel/process.c` says it never does.
- A thread that frees itself stops scheduling if and only if, from then on, no creation takes its slot and it does not
  exit (`Scheduler.FreeInv`, `Scheduler.FreedCurrentStops`, [`Scheduler.SelfFreed`]).
- A FAT16 chain is followed to its end if and only if it never comes back to a cluster (`Fat16.StopsUnlessRepeats`,
  [`Fat16.SelfLoopNeverStops`]).
- The loader goes on after a read error: it enters the kernel if and only if the header checks pass on what the file's
  first clusters left in memory (`BootLoad.LoadKernel`, [`BootLoad.EnteredCutShort`]).

## Model

| member | source | states |
|---|---|---|
| `FrameBitmap.SetTakes` | kernel/pmm.c:19-22 | setting a bit takes exactly that frame out of the clear set |
| `FrameBitmap.ClearGives` | kernel/pmm.c:24-26 | clearing a bit adds exactly that frame to the clear set |
| `Pmm.NextFrame` | kernel/pmm.c:34-46 | the search finds the lowest clear frame within reach, and fails only when every clear frame is out of reach |
| `Pmm.FrameAllocator.BitmapSet` | kernel/pmm.c:19-22 | on the byte array: one frame leaves the clear set, nothing else changes |
| `Pmm.FrameAllocator.BitmapClear` | kernel/pmm.c:24-26 | on the byte array: one frame joins the clear set, nothing else changes |
| `Pmm.FrameAllocator.MarkAllUsed` | kernel/pmm.c:48-52 | no frame is clear |
| `Pmm.FrameAllocator.FirstFree` | kernel/pmm.c:34-46 | the loop over bytes and bits finds `NextFrame`, or -1 |
| `Pmm.FrameAllocator.Alloc` | kernel/pmm.c:103-114 | returns the lowest clear frame within reach and takes it, or returns NULL and changes nothing |
| `Pmm.FrameAllocator.Free` | kernel/pmm.c:116-127 | gives the frame back and lowers the count unless its bit was clear already |
| `Pmm.FrameAllocator.GetFreeMemory` | kernel/pmm.c:132-134 | while the count is conserved, the bytes reported are those of the clear frames |
| `Pmm.StepConserves` | kernel/pmm.c:103-127 | one call keeps clear bits equal to `total_frames - used_frames`, modulo 2^32 |
| `Pmm.RunConserves` | kernel/pmm.c:103-127 | so does every run, whatever is freed |
| `Pmm.DisciplinedRun` | kernel/pmm.c:103-127 | in a run that frees only what it holds, every frame is clear, held or reserved since the start, and never two of these |
| `Pmm.ReservedNeverReturned` | kernel/pmm.c:103-127 | no frame reserved at the start of such a run is ever handed out |
| `Pmm.ReservedUntilReleased` | kernel/pmm.c:116-127 | in any run that stays inside the bitmap, a reserved frame stays out of the allocator if and only if no call frees it |
| `Pmm.FrameZeroReadsAsNull` | kernel/pmm.c:103-127 | witness: freeing frame 0 makes the next allocation answer NULL |
| `Pmm.HandedOutWithinReach` | kernel/pmm.c:34-46 | a clear frame is handed out by some run if and only if it lies within the reach of the search |
| `MemoryMap.ZeroInfo` | boot/stage2.asm:1216-1221 | the 22 words of the information block are zero and nothing else has changed |
| `MemoryMap.ConvertEntry` | boot/stage2.asm:1230-1279 | one E820 entry becomes one Multiboot record, and `mem_lower`, `mem_upper` are noted |
| `MemoryMap.ConvertAll` | boot/stage2.asm:1223-1282 | all entries are converted as the BIOS wrote them, although source and destination lie in one memory |
| `MemoryMap.BuildMultiboot` | boot/stage2.asm:1216-1299 | word for word from what the BIOS left: every record of the map is 20 and the five words of its E820 entry, `mem_lower` and `mem_upper` are the kilobytes of the last usable entry at 0 and at 1 MB, or 0; the information block describes the map, and no other word has changed |
| `MemoryMap.NotedIsLast` | boot/stage2.asm:1252-1275 | the sizes noted are those of the last usable entry that starts at 0 or at 1 MB, read from the words of the table |
| `MemoryMap.BuiltTable` | boot/stage2.asm:1223-1299 | walking the map by its size fields visits exactly the E820 entries, in order, and ends |
| `MemoryMap.FreeRange` | kernel/pmm.c:83-93 | the loop over one entry clears exactly the eligible frames and counts each once |
| `MemoryMap.WalkRecord` | kernel/pmm.c:70-98 | one record of the map is read and freed, and its size leads to the next |
| `MemoryMap.WalkMap` | kernel/pmm.c:66-98 | the walk visits every entry of the map and ends |
| `MemoryMap.PmmInit` | kernel/pmm.c:48-101 | the clear frames are those the available entries allow, above 1 MB and the kernel, and no others |
| `MemoryMap.InitConserves` | kernel/pmm.c:48-101 | for a map whose entries share no frame, the count is conserved from the start and every clear frame lies above 1 MB and the kernel |
| `MemoryMap.TotalCountsOnce` | kernel/pmm.c:70-98 | `total_frames` counts each frame once if and only if no two entries share one |
| `MemoryMap.FreesExactlyUsable` | kernel/pmm.c:71-94 | an available entry frees exactly the frames wholly inside it, above 1 MB and the kernel, if and only if truncation to 32 bits leaves its clipped bounds alone |
| `MemoryMap.BitmapIsUsable` | kernel/pmm.c:66-98 | for a map whose available entries truncation leaves alone, the frames cleared are exactly those wholly inside some available entry, above 1 MB and the kernel |
| `MemoryMap.Below4GB` | kernel/pmm.c:73-80 | every range that ends below 4 GB and does not start in its last page is freed exactly |
| `MemoryMap.HighMemoryAliasesLow` | kernel/pmm.c:73-80 | witness: 1 GB at 4 GB is freed as low memory |
| `MemoryMap.PastBitmap` | kernel/pmm.c:83-93 | the walk clears a bit past the bitmap if and only if some available entry reaches frame 32784 or 32785 |
| `MemoryMap.BigMachineWritesPast` | kernel/pmm.c:83-93 | witness: a machine with 256 MB |
| `MemoryMap.SharedFramesCountTwice` | kernel/pmm.c:83-93 | witness: a range listed twice |
| `MemoryMap.GapHidesMemory` | kernel/pmm.c:34-46 | witness: 16 MB at 1 MB and 16 MB at 64 MB, of which the upper is never handed out |
| `MemoryMap.HandOver` | boot/stage2.asm:1286-1299 | the map flag, byte address and byte length name the table of the E820 entries |
| `MemoryMap.InitFromE820` | kernel/pmm.c:48-101 | from the E820 table to the bitmap: the clear frames are those the entries of the BIOS allow |
| `MemoryMap.BitmapFromBios` | kernel/pmm.c:48-101 | from the words of a BIOS table below 4 GB: a frame is clear if and only if it lies wholly inside an entry of type 1, past 1 MB and the kernel, in the range of the loop |
| `PageTables.DecodeEncode` | kernel/paging.c:87-95 | an entry survives being written as a 32-bit word |
| `PageTables.EntryWords` | kernel/paging.c:87-95 | the words written for a table entry and a directory entry: frame, present bit and the flags kept |
| `PageTables.MapRefines` | kernel/paging.c:67-97 | mapping a page changes its translation and no other, new table or not |
| `PageTables.UnmapRefines` | kernel/paging.c:99-112 | unmapping a page removes its translation and no other |
| `PageTables.CreateRefines` | kernel/paging.c:138-162 | a new directory copies the upper half, has nothing below it, and leaves every other directory alone |
| `PageTables.ApplyKeeps` | kernel/paging.c:67-162 | every operation keeps present directory entries, keeps tables distinct, and leaves frames outside the directory alone |
| `PageTables.CreatedShares` | kernel/paging.c:138-162 | a new directory names the same tables as the kernel directory in the upper half |
| `PageTables.SharedForever` | kernel/paging.c:67-162 | an upper-half address whose table existed at creation is translated alike by both directories in every later state of every run |
| `PageTables.WindowAfter` | kernel/paging.c:67-112 | one operation keeps the direct-map window if and only if it spares its pages |
| `PageTables.WindowForever` | kernel/paging.c:46-112 | a whole run keeps it if and only if every operation does |
| `PageTables.WindowLost` | kernel/paging.c:99-112 | witness: unmapping page 0xC0001 |
| `Paging.KernelPaging.constructor` | kernel/paging.c:33-65 | after `paging_init` the tables translate 0xC0000000 to 0xC0FFFFFF to physical memory from 0, and nothing else |
| `Paging.KernelPaging.EnsureTable` | kernel/paging.c:67-88 | a missing table is allocated, cleared and entered; without a frame nothing changes |
| `Paging.KernelPaging.MapPage` | kernel/paging.c:67-97 | the tables in memory follow the flat map: one page changes, or none when there is no frame for a table; frame and flags of the entries written, and every other entry as it was; when mapped, the tables are `MapIn` of those before |
| `Paging.KernelPaging.UnmapPage` | kernel/paging.c:99-112 | one page leaves the flat map; its entry is cleared and every other entry is as it was; the tables are `UnmapIn` of those before |
| `Paging.KernelPaging.GetPhysical` | kernel/paging.c:114-131 | the frame of the flat map plus the offset, for every address in the page, or 0 |
| `Paging.KernelPaging.CreateDirectory` | kernel/paging.c:138-162 | a directory in a new frame as `CreateIn` describes it, or NULL; the tables still follow the flat map |
| `Paging.MapStepSane` | kernel/paging.c:67-97 | mapping outside the window keeps tables out of the clear set and the window intact |
| `Paging.UnmapStepSane` | kernel/paging.c:99-112 | so does unmapping |
| `Paging.TablesReached` | kernel/paging.c:90-111 | `PHYS_TO_VIRT` reaches every table in use, because the window is intact and tables lie in it |
| `Regions.InsertKeeps` | kernel/vmm.c:36-52 | inserting a region apart from all others keeps the list sorted, disjoint and aligned, and adds just that region |
| `Regions.WithoutKeeps` | kernel/vmm.c:54-73 | removing a region keeps the others, in order |
| `Regions.InsertedIsFound` | kernel/vmm.c:36-73 | a search by base right after an insertion finds the new region if and only if the list did not begin there; removing it gives the list back |
| `Regions.FoundIsUnique` | kernel/vmm.c:420-431 | the region found for an address is the only one that holds it |
| `Regions.FindIsExact` | kernel/vmm.c:420-431 | an address is found if and only if some region runs from at or below it to above it, and so does the one found |
| `Regions.CheckIsExact` | kernel/vmm.c:296-306 | the 32-bit overlap test tells overlap from disjointness if and only if the end of the range does not wrap, or wraps harmlessly |
| `Regions.WholeTopPasses` | kernel/vmm.c:296-306 | witness: 1 GB from 0xC0000000 passes the check against the heap region |
| `Regions.OutsideBoot` | kernel/vmm.c:166-199 | a region apart from the boot regions does not reach into 0xC0001000 to 0xC1400000 |
| `Regions.BootInv` | kernel/vmm.c:166-199 | the boot regions are sorted, disjoint and aligned |
| `Regions.RegionList.AllocRegion` | kernel/vmm.c:19-34 | the next slot of the pool, not in the list, or NULL when the pool is used up |
| `Regions.RegionList.FindPredecessor` | kernel/vmm.c:36-52 | the walk stops at the node after which the region belongs |
| `Regions.RegionList.InsertRegion` | kernel/vmm.c:36-52 | in place, the linked list becomes the sorted insertion; the nodes stay distinct and the count right |
| `Regions.RegionList.RemoveRegion` | kernel/vmm.c:54-73 | in place, the linked list loses exactly that region |
| `Regions.RegionList.RegisterExisting` | kernel/vmm.c:75-86 | a slot is taken and inserted, or nothing changes when the pool is used up |
| `Regions.RegionList.RegisterBoot` | kernel/vmm.c:166-199 | the registrations of `vmm_init` give the list of boot regions |
| `Regions.RegionList.FindRegion` | kernel/vmm.c:420-431 | the first region that holds the address, or NULL |
| `Regions.RegionList.FindAt` | kernel/vmm.c:352-365 | the first region that starts at the address, or NULL |
| `Regions.RegionList.Overlaps` | kernel/vmm.c:296-306 | true if and only if some region passes the overlap test |
| `FrameDemand.TakeLowers` | kernel/pmm.c:34-46 | below any bound that the scan reaches, an allocation leaves one clear frame fewer, if there was one |
| `FrameDemand.TablesAreSlots` | kernel/paging.c:71-85 | mapping a range makes one table for each directory slot of the range that has none |
| `FrameDemand.SufficesIsEnough` | kernel/vmm.c:308-332 | memory suffices page by page if and only if there is a frame in reach for every page and every missing table, and one below 4 MB for each table |
| `Vmm.RoundByCount` | kernel/vmm.c:309-325 | how one round ends, by the number of clear frames in reach, those below 4 MB, and whether the slot has a table |
| `Vmm.RoundsTally` | kernel/vmm.c:308-332 | rounds that succeed had their frames at the start, and those are gone |
| `Vmm.FailureCounted` | kernel/vmm.c:308-332 | where the first round fails, memory at the start did not suffice for one page more, and why: no frame, or one for the page and none for its table |
| `Vmm.RoundsGrow` | kernel/vmm.c:308-332 | rounds that succeed give each page a frame of its own and change no other translation |
| `Vmm.PageFlagBits` | kernel/vmm.c:159-164 | present, and writable and open to the user exactly as the region flags say |
| `PageTables.SetsMarks` | kernel/paging.c:67-97 | mapping a page gives its entry the flags, and leaves a mapped page that carries them as it is |
| `Vmm.MapFresh` | kernel/vmm.c:309-325 | a frame is allocated and mapped with the flags asked for, or exactly the reason why not, with memory as that reason leaves it |
| `Vmm.MapOnePage` | kernel/vmm.c:309-325 | the same as a step of the loop; when it fails, why, in terms of memory at the start |
| `Vmm.MapPages` | kernel/vmm.c:308-332 | the loop goes exactly as far as memory at the start suffices, gives every page done a distinct frame that was clear, changes no other translation, and says why it stopped |
| `Vmm.ReleaseOnePage` | kernel/vmm.c:315-319 | one page and its frame are released |
| `Vmm.ReleasePages` | kernel/vmm.c:315-319 | the rollback loop gives back every frame behind the range, and removes its translations |
| `Vmm.ReleaseOwned` | kernel/vmm.c:373-380 | the unmap loop does the same for a region whose frames are its own |
| `Vmm.KernelSpace.constructor` | kernel/vmm.c:166-207 | the kernel space starts with the boot regions |
| `Vmm.KernelSpace.MapAccepted` | kernel/vmm.c:308-350 | all pages and the region, or neither; how it ends follows from memory at the start and the pool |
| `Vmm.KernelSpace.MapRegion` | kernel/vmm.c:289-350 | refused if and only if misaligned or overlapping; otherwise all or nothing, with the reason in terms of memory at the start |
| `Vmm.MapSucceeds` | kernel/vmm.c:289-350 | decided before the call: it succeeds if and only if the range is aligned and clashes with no region, the region pool has a slot, and there are frames in reach for all pages and missing tables, the tables below 4 MB |
| `Vmm.UnmapSucceeds` | kernel/vmm.c:352-385 | succeeds if and only if the first region that starts at the address is of a kind above 5; exactly that region goes, with its pages and frames |
| `Vmm.KernelSpace.UnmapRegion` | kernel/vmm.c:352-385 | succeeds if and only if the first region at the address is not protected; then its pages, frames and entry are gone, and nothing else |
| `Ownership.AllocationIsEvent` | kernel/kheap.c:59-94 | what `kmalloc` does to memory, by outcome: nothing, one of the heap events, a growth over a page without a table, or a table that lies too high |
| `Ownership.MapIsEvent` | kernel/vmm.c:289-350 | what `vmm_map_region` does, by outcome: nothing, an event, or a stop for want of a table |
| `Ownership.UnmapIsEvent` | kernel/vmm.c:352-385 | what `vmm_unmap_region` does: nothing, or the event |
| `Ownership.TableMissingOwns` | kernel/kheap.c:66-94 | a heap page without a table costs its frame; the ownership invariant survives if and only if the heap does not grow over it |
| `Ownership.RollbackLosesZeroPage` | kernel/vmm.c:308-342 | witness: page 0xC0000 with the region pool used up |
| `Ownership.UnmapLosesZeroPage` | kernel/vmm.c:289-385 | witness: page 0xC0000 mapped and unmapped after boot |
| `Ownership.EmptyRegionHides` | kernel/vmm.c:352-365 | witness: an empty region at 0xB0000000 before a page there |
| `Ownership.WindowUnprotected` | kernel/vmm.c:366-371 | witness: the boot region at 0xC0001000 |
| `Ownership.EventOwns` | kernel/vmm.c:289-385 | every outcome of heap growth, mapping, rollback and unmapping keeps the ownership invariant |
| `Ownership.OneOwnerForever` | kernel/vmm.c:289-385 | in every state of every run, no frame is clear and also a table or behind a managed page, and no two managed pages share a frame |
| `Ownership.BootOwns` | kernel/vmm.c:166-207 | the invariant holds after `paging_init` and `vmm_init` |
| `Ownership.OnlyZeroPageLost` | kernel/vmm.c:289-350 | the only translation an accepted range can run into is page 0xC0000 |
| `Ownership.FailedMapRestores` | kernel/vmm.c:308-342 | a failed map restores regions and bitmap, but for frames kept as tables; translations if and only if page 0xC0000 was spared |
| `Ownership.EveryFailedMapRestores` | kernel/vmm.c:308-342 | every failed map of a region restores the translations if and only if the region leaves page 0xC0000 out or that page is not mapped; it can only be the last of the region |
| `LostFrames.StuckGrowthLoses` | kernel/kheap.c:66-72 | a growth that runs out of frames leaves the frame of each page it had mapped neither clear, nor a table, nor behind a managed page |
| `LostFrames.MissedTableLoses` | kernel/kheap.c:66-72 | so does a growth that misses a table with the frame of that page |
| `LostFrames.LostStays` | kernel/vmm.c:289-385 | no event gives a lost frame back |
| `LostFrames.LostForever` | kernel/vmm.c:289-385 | it is lost for the rest of every run |
| `Ownership.UnmapFindsMapped` | kernel/vmm.c:352-365 | unmapping finds the region just mapped if and only if the list did not already begin at its base |
| `Ownership.UnmapUndoesMap` | kernel/vmm.c:289-385 | unmapping undoes mapping on regions and bitmap, but for frames kept as tables; on translations if and only if page 0xC0000 was spared |
| `Ownership.UnmapIsSafe` | kernel/vmm.c:352-385 | what unmapping relies on, that the region owns its frames and spares the window, holds in every owned state |
| `FreeRegions.SearchExact` | kernel/vmm.c:396-412 | past the first region, the range found is free if and only if the walk never stalls at a gap that is too small |
| `FreeRegions.FoundIsFree` | kernel/vmm.c:387-418 | the range found is free if and only if it fits below the first region or the walk never stalls |
| `FreeRegions.SearchAnswers` | kernel/vmm.c:387-418 | the search answers whenever the request would end below the top after the hint and after every region |
| `FreeRegions.SearchCandidates` | kernel/vmm.c:387-418 | the answer is the hint or the end of a region |
| `FreeRegions.SmallGapOverlaps` | kernel/vmm.c:396-412 | witness: two pages mapped one page apart above the boot regions and a request for two pages |
| `FreeRegions.PlacedRangesAreFree` | kernel/vmm.c:387-418 | in every run that only places regions found from the default hint, an answer is none or a free range below 4 GB if and only if the request would end below 4 GB on top of the regions placed; and it is the top itself if the request ends in time |
| `FreeRegions.WholeTopWraps` | kernel/vmm.c:396-412 | witness: 768 MB after boot |
| `FreeRegions.FindFreeRegion` | kernel/vmm.c:387-418 | the loop over the nodes computes that search |
| `HeapBlocks.FirstFit` | kernel/kheap.c:97-108 | the first free block that is large enough |
| `HeapBlocks.AllocateKeeps` | kernel/kheap.c:110-150 | splitting and marking keeps the span of the list and counts what was given |
| `HeapBlocks.AllocateSeparates` | kernel/kheap.c:110-150 | and never leaves two free neighbours |
| `HeapBlocks.MergeKeeps` | kernel/kheap.c:177-190 | merging keeps span and allocated bytes and leaves no two free neighbours |
| `HeapBlocks.MergeLive` | kernel/kheap.c:177-190 | merging moves no live payload |
| `HeapBlocks.RoundTrip` | kernel/kheap.c:110-208 | releasing and merging what was just allocated gives the very list back |
| `HeapBlocks.ExtendKeeps` | kernel/kheap.c:74-94 | growing adds exactly the new bytes at the end |
| `HeapBlocks.ExtendFits` | kernel/kheap.c:59-94 | after growing by a block and its header, the second search always succeeds |
| `HeapBlocks.AllFreeIsOne` | kernel/kheap.c:177-190 | with nothing allocated there is one block |
| `HeapBlocks.LiveApart` | kernel/kheap.c:110-150 | live payloads never overlap, and a header lies between any two |
| `HeapBlocks.FreeCountsHeaders` | kernel/kheap.c:214-216 | what is reported as free counts 12 bytes for every block |
| `Heap.MallocFailsOnly` | kernel/kheap.c:124-150 | `kmalloc` fails if and only if the size is 0, or nothing fits and the heap cannot grow; then nothing changes |
| `Heap.MallocInv` | kernel/kheap.c:124-150 | a success adds one payload of at least the size asked, apart from all others, which stay; the heap invariant is kept |
| `Heap.FreeInv` | kernel/kheap.c:192-208 | freeing a payload takes out exactly that payload and keeps the heap invariant; so does NULL |
| `Heap.KfreeKeeps` | kernel/kheap.c:192-208 | for any word address, `kfree` keeps the heap invariant if and only if it is NULL, a payload, or the words taken for a header say free or, outside the list, name no size |
| `Heap.RunKeeps` | kernel/kheap.c:124-208 | a run keeps the heap invariant at every step if and only if each `kfree` is harmless where it happens |
| `Heap.HeapInvForever` | kernel/kheap.c:33-208 | in every run from boot, every state is one where blocks tile the heap exactly, no two neighbours are free, the counter equals the allocated bytes, the end does not pass the limit and payloads are apart, if and only if each `kfree` is harmless where it happens |
| `Heap.PayloadStays` | kernel/kheap.c:124-208 | no run of harmless calls moves or resizes a payload it does not free |
| `Heap.FreeUndoesMalloc` | kernel/kheap.c:124-208 | `kfree(kmalloc(n))` gives the very heap back, or the heap as growing alone leaves it |
| `Heap.AllFreed` | kernel/kheap.c:177-208 | once every payload is freed, the heap is one free block of everything but its header |
| `Heap.AlignedInside` | kernel/kheap.c:152-160 | an aligned range lies inside its own payload |
| `Heap.AlignedRangesDisjoint` | kernel/kheap.c:152-160 | so kernel stacks of different processes are disjoint |
| `Heap.AlignedFreeFindsBlock` | kernel/process.c:152-154 | freeing an aligned pointer finds a block if and only if the payload was aligned to begin with |
| `Heap.WordsBelow` | kernel/process.c:152-154 | whether a free of an address inside a live payload is harmless, by its distance from the payload |
| `Heap.AlignedFree` | kernel/process.c:152-154 | freeing an aligned address that is no payload frees nothing; by its distance from the payload, the heap invariant is kept if and only if the flag word is not 0 or the size word is, the first payload word is not 0 or the block is the last, or the block is not the last |
| `Heap.FirstStackMiscounts` | kernel/process.c:152-154 | witness: the first kernel stack, with an 8 below its address |
| `Heap.LinkOverwritten` | kernel/kheap.c:192-208 | witness: the pointer 4 bytes past the payload after boot |
| `Heap.FitCovers` | kernel/kheap.c:124-130 | a block found for a 32-bit size covers it if and only if rounding to 8 does not wrap |
| `Heap.HugeRequestWraps` | kernel/kheap.c:124-130 | witness: 0xFFFFFFFF bytes are answered with the first free block |
| `Heap.LimitCheckIsExact` | kernel/kheap.c:62-64 | the limit check agrees with the unbounded sum if and only if the 32-bit sum does not wrap, or wraps to above the limit |
| `Heap.LimitCheckWraps` | kernel/kheap.c:62-64 | witness: a request for 0x3FAFFFF0 bytes after boot |
| `HeapFaults.MappedAllocate` | kernel/kheap.c:109-120 | a split writes one new header; if it is mapped, all are |
| `HeapFaults.MappedExtend` | kernel/kheap.c:80-90 | a growth writes at most one new header; if it is mapped, all are |
| `HeapFaults.FreeMapped` | kernel/kheap.c:192-208 | `kfree` leaves headers where they are, so they stay mapped |
| `HeapFaults.WholeNeverFaults` | kernel/kheap.c:124-150 | on a heap with all its pages mapped, grown or not, `kmalloc` never writes a header where nothing is mapped |
| `HeapFaults.FitAfterExtend` | kernel/kheap.c:80-90 | which block a growth makes fit, its size and where it lies |
| `HeapFaults.MissingPageFaults` | kernel/kheap.c:75-120 | when the last page of a growth is missing, `kmalloc` faults if and only if that is the only page and the last block was allocated, or the block is split with the second header on the page: in terms of sizes alone |
| `KernelHeap.BlockList.constructor` | kernel/kheap.c:47-55 | one free block over the first megabyte |
| `KernelHeap.BlockList.FindFreeBlock` | kernel/kheap.c:97-108 | the walk over the headers finds the first fit |
| `KernelHeap.BlockList.LastBlock` | kernel/kheap.c:75-78 | the walk ends at the last block |
| `KernelHeap.BlockList.ExtendList` | kernel/kheap.c:74-94 | the headers in memory follow `Grow` |
| `KernelHeap.AllocateSlices` | kernel/kheap.c:109-120 | the list after a split: the part before, a block of the size asked and a free one of the rest less a header, or the whole block, and the part after |
| `KernelHeap.BlockList.TakeBlock` | kernel/kheap.c:110-150 | the headers in memory follow the split, and the counter the size given |
| `KernelHeap.BlockList.MergeFreeBlocks` | kernel/kheap.c:177-190 | the loop that joins neighbours in place computes `Merge` |
| `KernelHeap.BlockList.Kfree` | kernel/kheap.c:192-208 | the headers and the counter follow `FreeAt` for every word address but the last link; the list stays laid out, and the heap invariant is kept if and only if the call is harmless |
| `KernelHeap.BlockList.GetFree` | kernel/kheap.c:214-216 | free bytes and 12 for every header |
| `KernelHeap.GrowOnePage` | kernel/kheap.c:66-72 | one round of the growth loop while every page got its table: the page gets a frame, or the reason why not |
| `KernelHeap.GrowRound` | kernel/kheap.c:66-72 | one round of the growth loop, and how the growth ends if it ends there; after a page without a table no frame is left |
| `KernelHeap.GrowPages` | kernel/kheap.c:66-72 | every page gets a frame and a table if and only if memory suffices at the start; every page grown has a distinct frame that was clear, and the loop ends as the next round decides: no frame, no table for the last page or for an earlier one, or a table too high |
| `KernelHeap.BlockList.LastIsFree` | kernel/kheap.c:75-80 | walks to the last block and reads its flag |
| `KernelHeap.KernelHeap.Unmapped` | kernel/kheap.c:84-88 | walking the page tables for the bytes of a header tells whether its write faults |
| `KernelHeap.KernelHeap.HeapExpand` | kernel/kheap.c:59-94 | refused if and only if past the limit; the list grows if and only if the loop went through and no header falls on a missing page, which it halts on; with the reason |
| `KernelHeap.KernelHeap.AppendBlock` | kernel/kheap.c:75-93 | the last block is extended or a new one linked; faults if and only if the new header is not mapped |
| `KernelHeap.KernelHeap.TakeFound` | kernel/kheap.c:109-150 | the block found is split and given; faults if and only if the second header is not mapped |
| `KernelHeap.KernelHeap.GrowAndTake` | kernel/kheap.c:132-150 | the growth and what follows it are those of `Malloc`, or a fault exactly as `Faults` says |
| `KernelHeap.KernelHeap.TakeGrown` | kernel/kheap.c:138-150 | after the heap has grown, the second search finds a block, and it is taken |
| `KernelHeap.KernelHeap.Kmalloc` | kernel/kheap.c:124-150 | halts if and only if a header is to be written where no page is mapped; otherwise list and pointer are those of `Malloc`, every header is mapped, and memory changes only by the growth |
| `KernelHeap.KernelHeap.Kfree` | kernel/kheap.c:192-208 | the list follows `FreeAt`, and headers stay mapped |
| `KernelHeap.KernelHeap.KmallocAligned` | kernel/kheap.c:152-160 | a page-aligned range of the size asked, inside the payload allocated for it, or NULL |
| `HeapExhaustion.BootFrames` | kernel/pmm.c:66-98 | what `pmm_init` makes of one range from 1 MB to frame 4111: 3592 frames, the scan reaching those below 3592 |
| `HeapExhaustion.HeapRun` | kernel/kheap.c:59-94 | from that boot two growths bring the heap to 0xC0FFF000 with every frame still owned once |
| `HeapExhaustion.LastFrameWasted` | kernel/kheap.c:66-94 | witness: in that run, from the map on, growing by two pages more ends the ownership invariant |
| `HeapExhaustion.SecondAllocation` | kernel/kheap.c:124-150 | the two requests after boot that leave the heap there, full |
| `HeapExhaustion.HoleInPayload` | kernel/kheap.c:124-150 | witness: `kmalloc(8170)` then succeeds, with the missing page in its payload |
| `HeapExhaustion.HeaderOnHole` | kernel/kheap.c:82-88 | witness: `kmalloc(100)` with the heap at 0xC1000000 faults on its header |
| `Scheduler.Scan` | kernel/scheduler.c:32-40 | the cyclic scan finds the nearest ready slot, the current one first |
| `Scheduler.FirstUnused` | kernel/process.c:82-95 | the lowest unused slot |
| `Scheduler.ScheduleLands` | kernel/scheduler.c:32-53 | `schedule` lands on the nearest ready slot, no later than on any other |
| `Scheduler.ExitInv` | kernel/process.c:192-206 | an exiting thread always gives up the CPU and is left a zombie |
| `Scheduler.CreateInv` | kernel/process.c:82-136 | allocation keeps the invariant if and only if the table is full or the PID counter does not wrap |
| `Scheduler.FreeInv` | kernel/process.c:138-167 | freeing keeps the invariant if and only if the slot is not the running one, or is refused as PID 0 |
| `Scheduler.ScheduleIdles` | kernel/scheduler.c:17-43 | `schedule` changes nothing if and only if the current slot has been freed or no slot is ready |
| `Scheduler.FreedCurrentStops` | kernel/scheduler.c:17-30 | over any run after a thread has freed itself, every `schedule` leaves the table as it is, if and only if no creation takes the slot and the thread does not exit |
| `Scheduler.SchedulingResumes` | kernel/scheduler.c:17-53 | once a creation takes the slot, the next `schedule` switches again |
| `Scheduler.SelfFreed` | kernel/process.c:138-167 | witness: the first thread created at boot |
| `Scheduler.PidsWrap` | kernel/process.c:102-104 | witness: a run from boot that reaches the last PID, after which PID 0 is given out again |
| `Scheduler.StepInv` | kernel/process.c:82-206 | every step keeps: one process runs and is the current one, PID 0 can run, live PIDs differ and are below the counter |
| `Scheduler.StepConcerned` | kernel/process.c:82-160 | what a creation, an exit and a freeing make of the slot they are about: the lowest unused one, the running one, the one named |
| `Scheduler.StepSpares` | kernel/process.c:82-160 | every other slot is as it was, but that a tick and an exit pass the CPU on among those that can run |
| `Scheduler.StepCounts` | kernel/process.c:82-110 | the PID counter moves by one exactly for a creation that finds a slot |
| `Scheduler.BootRuns` | kernel/process.c:47-206 | so does every state of every run from `process_init` |
| `Scheduler.ZombieStays` | kernel/process.c:192-206 | an exited thread never runs again: its slot stays as it is until it is freed |
| `Scheduler.PidNeverReused` | kernel/process.c:82-167 | a PID names one slot, without interruption, in the whole run: it is never given out twice |
| `Scheduler.WaitFalls` | kernel/scheduler.c:32-53 | while a slot waits, every call of `schedule` brings the running slot closer to it |
| `Scheduler.BoundedWait` | kernel/scheduler.c:17-65 | no runnable thread waits through 63 calls of `schedule`, whatever is created, exits or is freed |
| `Scheduler.StaysRunnable` | kernel/scheduler.c:17-65 | a thread that can run still can, with its PID, in every later state of every run until it exits or is freed |
| `Scheduler.GetsTheCpu` | kernel/scheduler.c:17-65 | so it gets the CPU within 63 calls of `schedule`, whatever else is created, exits or is freed |
| `Scheduler.RoundRobin` | kernel/scheduler.c:17-65 | with N runnable threads, N at least 2, each is dispatched exactly once in N ticks, and the last tick comes back to the first |
| `Processes.ProcessTable.constructor` | kernel/process.c:47-80 | PID 0 runs in slot 0, every other slot is unused |
| `Processes.ProcessTable.Enable` | kernel/scheduler.c:12-15 | nothing changes but that scheduling is on |
| `Processes.ProcessTable.CurrentSlot` | kernel/scheduler.c:23-30 | the slot of the current process, or none when it has been freed |
| `Processes.ProcessTable.NextSlot` | kernel/scheduler.c:32-43 | the loop finds the slot of `Scan`, or none |
| `Processes.ProcessTable.Schedule` | kernel/scheduler.c:17-53 | the table in place follows `Schedule`; before scheduling is on, nothing changes |
| `Processes.ProcessTable.Allocate` | kernel/process.c:82-136 | a slot is given if and only if one is unused and a stack was allocated; a PID is used up even when the stack was not |
| `Processes.ProcessTable.Release` | kernel/process.c:138-167 | the slot is unused again, but for PID 0 |
| `Processes.ProcessTable.Find` | kernel/process.c:169-176 | a live slot with that PID, the only one in every reachable state, or none |
| `Processes.ProcessTable.ExitThread` | kernel/process.c:192-206 | the thread becomes a zombie and the next one runs |
| `ContextSwitch.Cpu.SaveRegisters` | boot/context_switch.asm:40-44 | the four pushes |
| `ContextSwitch.Cpu.LoadRegisters` | boot/context_switch.asm:55-64 | the four pops and the return |
| `ContextSwitch.Cpu.SwitchStacks` | boot/context_switch.asm:35-64 | the instructions park the caller on its stack and in its cell, and load what the new stack holds |
| `ContextSwitch.Cpu.BuildFrame` | kernel/process.c:233-243 | six words at the top of a new stack |
| `ContextSwitch.ParkUnpacks` | boot/context_switch.asm:35-64 | what parking leaves unpacks to what the call is to return with |
| `ContextSwitch.ParkSpares` | boot/context_switch.asm:35-64 | parking writes only four words below esp and the caller's cell |
| `ContextSwitch.CallSwitches` | kernel/scheduler.c:45-64 | a call that switches parks the caller with what it is to return with, and gives the next thread what it had saved |
| `ContextSwitch.SpawnParks` | kernel/process.c:223-247 | a new thread is parked so that its first resume reaches the trampoline with its entry in ebx |
| `ContextSwitch.NextKeeps` | kernel/scheduler.c:45-64 | no step touches the stack or the saved registers of a thread that is not running, unless it frees that thread |
| `ContextSwitch.NextOk` | kernel/scheduler.c:45-64 | every step keeps stacks disjoint and every waiting thread resumable |
| `ContextSwitch.BootOk` | kernel/process.c:47-80 | that holds after `process_init` |
| `ContextSwitch.OkForever` | kernel/scheduler.c:17-65 | and in every state of every run |
| `ContextSwitch.ParkedForever` | boot/context_switch.asm:35-64 | while a thread is away, nothing touches its stack and its saved registers |
| `ContextSwitch.ThreadResumes` | boot/context_switch.asm:35-64 | a thread that loses the CPU and gets it back finds esp, ebp, ebx, esi, edi and return address of its call, and its stack as it left it, whatever the others did |
| `ContextSwitch.NewThreadStarts` | boot/context_switch.asm:64-82 | a new thread's first dispatch reaches the trampoline with its entry in ebx, on its own stack |
| `Fat16.ClusterPlace` | boot/stage2.asm:857-867 | below the 16-bit limits a cluster lies where the FAT specification puts it |
| `Fat16.ImageByte` | boot/stage2.asm:857-875 | the file, from the disk: byte k of sector j of the i-th cluster is byte k of sector dataStart + (chain[i] - 2) * spc + j |
| `Fat16.ChainFromFat` | boot/stage2.asm:883-897 | a chain is what the 16-bit entries of the FAT at 0x1000 say |
| `Fat16.LoadedByte` | boot/stage2.asm:853-897 | what the load leaves at each address from 64 KB on, from the sectors of the disk |
| `Fat16.ChainIsAcyclic` | boot/stage2.asm:887-897 | a chain that ends visits no cluster twice |
| `Fat16.CycleNeverStops` | boot/stage2.asm:887-897 | a chain that comes back to a cluster never ends |
| `Fat16.StopsUnlessRepeats` | boot/stage2.asm:857-897 | the walk ends if and only if it never comes back to a cluster, and then within 65536 steps |
| `Fat16.SelfLoopNeverStops` | boot/stage2.asm:887-897 | witness: cluster 2 names itself |
| `Fat16.StopsHasChain` | boot/stage2.asm:857-897 | a walk that ends has followed a chain |
| `Fat16.Loader.ReadSector` | boot/stage2.asm:630-647 | one more sector of a read, if the disk gives it; otherwise memory is as it was |
| `Fat16.Loader.ReadSectors` | boot/stage2.asm:630-647 | all sectors are read in order, or an error after some of them; memory outside the buffer is untouched |
| `Fat16.Loader.LoadCluster` | boot/stage2.asm:857-894 | one cluster is read to the load segment, the segment moves past it, and the FAT gives the next |
| `Fat16.Loader.LoadFile` | boot/stage2.asm:853-907 | succeeds if and only if every sector of the chain is readable; memory from 64 KB is then the clusters in chain order, and after an error those before it; nothing else changes |
| `Elf.ElfLoader.CheckHeader` | boot/stage2.asm:1068-1089 | the five header checks |
| `Elf.ElfLoader.MoveBytes` | boot/stage2.asm:1127-1137 | the copy, byte by byte with wrapping addresses |
| `Elf.ElfLoader.ClearBytes` | boot/stage2.asm:1142-1147 | the zero-fill |
| `Elf.ElfLoader.PlaceSegment` | boot/stage2.asm:1121-1147 | one program header, with its sizes read again after the copy |
| `Elf.ElfLoader.PlaceSegments` | boot/stage2.asm:1105-1157 | all headers in order, each from the memory the ones before it left |
| `Elf.ElfLoader.Load` | boot/stage2.asm:1068-1195 | halts if and only if a check fails, with memory untouched; otherwise the entry point and the placed headers |
| `Elf.PlaceAt` | boot/stage2.asm:1121-1147 | one header changes exactly the bytes of its segment |
| `Elf.PlacesExpected` | boot/stage2.asm:1105-1157 | every byte of memory is what the headers say, for segments that are disjoint and lie outside the file |
| `Elf.SegmentLoaded` | boot/stage2.asm:1105-1157 | byte k of a loadable segment is byte k of its file part, or zero past it |
| `Elf.RestUnchanged` | boot/stage2.asm:1105-1157 | memory outside every loadable segment is as it was |
| `Elf.HeaderFields` | boot/stage2.asm:1121-1143 | which bytes of the file the fields of a program header are: type at 0, offset at 4, physical address at 12, sizes at 16 and 20 |
| `Elf.HeaderAt` | boot/stage2.asm:1105-1157 | header i lies i header sizes after the first |
| `Elf.HeaderChecks` | boot/stage2.asm:1068-1089 | the header checks pass if and only if ten bytes have their values |
| `BootLoad.LoadKernel` | boot/stage2.asm:159-164 | `fat16_load_file`, then `elf_load` whatever became of it: the kernel is entered if and only if the header checks pass on the memory between the two, which holds the whole chain if every cluster can be read, and otherwise the clusters before the first that cannot |
| `BootLoad.KernelInPlace` | boot/stage2.asm:1105-1157 | byte k of segment i is byte offset + k of the clusters in chain order, or zero |
| `BootLoad.PlaceAlike` | boot/stage2.asm:1114-1147 | placing a segment is not affected by what the loader has on its stack, in its variables and on the screen |
| `BootLoad.AmidstAlike` | boot/stage2.asm:1105-1157 | nor is `elf_load`, with any writes to that memory between its steps |
| `BootLoad.KernelInPlaceAmidst` | boot/stage2.asm:954-1157 | so byte k of segment i is right whatever the loader wrote to its own memory meanwhile |
| `BootLoad.ImageHeader` | boot/stage2.asm:1091-1112 | entry point, table offset, header size and count are bytes 24, 28, 42 and 44 of the file |
| `BootLoad.KernelFromFile` | boot/stage2.asm:1105-1157 | from the bytes of the file alone: a program header at offset h with type 1 puts the bytes from the offset at h + 4 to the physical address at h + 12, as many as stand at h + 16, and zeros up to the size at h + 20 |
| `BootLoad.EnteredCutShort` | boot/stage2.asm:904-976 | witness: cluster 3 cannot be read, and the header in cluster 2 passes the checks |

## Conditions the theorems are stated under

- Frames stay below 32784, the number of bits the bitmap really has; the largest frame number in the source is two more.
- Requests to the heap are at most 0x3E000000 bytes, and regions end below 4 GB, so that sums do not wrap; past that `FitCovers`, `LimitCheckIsExact` and `CheckIsExact` tell which checks still hold, and no more is claimed.
- Pointers handed to `kfree` are multiples of 4. What the words below a pointer hold, where they are in no header, is part of the call.
- Page tables and directories come from frames below 4 MB, where the direct map reaches them. A higher frame is an
  outcome of its own (`HighTable`, `Stopped`) after which nothing is claimed.
- A page without a table faults when `vmm_map_region` clears it, which halts the machine (`Halted`); `heap_expand` does not notice (`TableMissing`), and
  `kmalloc` faults if a header falls on the page (`faulted`), after which nothing is claimed.
- The region at 0xC0001000 is never unmapped: its kind, `REGION_MMIO`, is not protected.
- The kernel image ends, page aligned, between 0xC0100000 and 0xC0400000.
- The boot regions are registered before the heap's first growth in the model and after it in the source; the two steps touch different state.
- `kthread_create` is one step, as at boot, where it comes before `scheduler_init`; interrupts-off sections are one step.
- The PID counter does not wrap during a run, and nobody frees the running process; beyond that `CreateInv` and `FreeInv` tell.
- A thread writes to its own stack and to memory that is neither another thread's stack nor the process table, and
  calls `context_switch` with room for four words. Addresses of words are multiples of 4.
- A file fits between 64 KB and 1 MB, and for the two loaders together below 0x8F000, where the loader's stack begins;
  the volume has 1 to 255 sectors per cluster. Loadable segments are disjoint and lie outside the file and, for the two
  loaders together, above 1 MB, so outside the loader's own memory: below 64 KB, and from 0x8F000 to 1 MB.

## Left out

- Port I/O, interrupt controller, timer, keyboard, serial and screen code, `kprintf` and the shell.
- GDT and IDT set-up, TLB flushes and CR3 loads; interrupt flags, except that sections with interrupts off are single steps.
- The page fault handler: it prints and halts.
- BIOS calls, stage 1, the A20 gate, E820 and E801 probing: the disk is a map from sector number to bytes and the E820 table is input.
- `fat16_init` and `fat16_find_file`: the geometry and the first cluster are input.
- `vmm_create_address_space`, `vmm_destroy_address_space` and `vmm_switch_address_space`: region claims are for the kernel space, the only one `paging_map_page` edits.
- `kcalloc`, process names, parents, priorities and exit codes.
- The zero bytes `vmm_map_region` writes to a page it has mapped. That a page carries the flags of its region is stated for the page as it is mapped (`MapFresh`) and kept by mapping others (`SetsMarks`), not for the region as a whole.
- `kthread_trampoline` after its first instruction is reached; segment registers and flags across a switch.
- What the loader writes to its own variables, stack and the screen: `KernelInPlaceAmidst` lets it be anything.
- Paging.KernelPaging.MapPage: states nothing about the tables once a table frame at or above 4 MB has been used, because the source then writes through an address that maps elsewhere.
- KernelHeap.KernelHeap.constructor: takes the outcome in which all 256 first pages were mapped; a `kheap_init` that ran out of frames leaves no heap to speak of.
- KernelHeap.BlockList.Kfree: is not stated for the address 4 bytes past the last payload, where the source overwrites the last link and walks to address 1.
- Processes.ProcessTable.Release: leaves out the freeing of the stack, which `Heap.AlignedFree` describes.
