# Verified model of the kernel's memory management and concurrency protocols

A Dafny model of the core of an ARM64 kernel, with proofs of what that core promises: the buddy page
allocator, the four-level translation tables and their copy, private process mappings, the kernel heap,
the boot memory map, the xHCI transfer and event rings, the cooperative scheduler with blocking
channels and input files, the linked list and ring buffer under them, and the path index of the file
table.

`dafny verify dfyconfig.toml` checks everything.

## How it is organised

Each subsystem is specified on values (functions over sequences and maps, with the theorems about all
inputs, all runs and all interleavings) and then in place (a class whose methods have the loops, the
in-place updates and the branches of the C code). Every method's contract equates the new state with
the value-level function, so the theorems hold of the methods.

| files | subsystem |
|---|---|
| `Bits`, `Sequences` | powers of two, bitwise and, exclusive or; optional values, and the address sequences that linked lists follow |
| `Buddy`, `PageAlloc` | page allocator: blocks and free lists; list links and the page bitmap in arrays |
| `Translation`, `Mmu`, `PageMapping`, `BlockMapping`, `Vmap`, `TableCopy` | translation tables, the processor's own walk through them (VMSAv8-64, Arm Architecture Reference Manual DDI 0487, section D8.3), the page mapping as written, where a block can be mapped, the map operations in place, the deep copy |
| `ProcessMmap`, `FrameSupply` | private mappings of many processes over one pool of frames; the pool as the page allocator's answers |
| `Heap`, `BlockAllocator`, `KernelHeap` | kernel heap: blocks in address order; headers with two lists threaded through them; the heap with its pages and their frames |
| `MemoryMap`, `UsableMemory` | reserving two regions and building the kernel's memory map; what the page allocator is given of it |
| `TransferRing`, `EventRing` | xHCI rings with the controller as the other party (xHCI specification, sections 4.9.2, 4.9.4 and 6.4.4.1) |
| `Scheduler`, `Ipc`, `Channel`, `InputFile` | run queue and thread states; queues with waiters; channels and their message objects; input files |
| `LinkedList`, `RingBuffer` | what those are built of: the run queue, the queues and the waiter lists are linked lists, the events of an input file a ring buffer |
| `HashTable`, `FileTable` | chained hash table; handle table and path index |

What the tables mean is said twice: by the kernel's code (`Translation.Translate`) and, written from the
architecture, by the processor's walk (`Mmu.Hardware`), which gives the physical address and the
attributes that an access meets. The map operations state their effect in both.

Methods that stand for C functions with asserts either return `None` where the assert stops the kernel
or record the failed assert in a `failed` or `faulted` field, and the theorems say that it never
happens.

## Where the code does not do what it should

The model follows the code, and the exact condition under which the code works is proved:

- `page_alloc_free` never advances its walk over the free list (kernel/page_alloc.c:206-217).
  `Buddy.FreeBlock` and `PageAlloc` unlink as the comment on line 205 says;
  `Buddy.FreeAsWrittenExactly` shows that the walk as written returns if and only if each buddy it
  merges is the second node of its list, and `Buddy.ReleaseAfterSplitNeverReturns` that releasing a
  block right after an allocation that split never returns.
- Initialisation adds each usable range by itself and merges nothing across ranges that touch. Free
  buddies are left unmerged if and only if two ranges meet at a page that separates two buddies, and
  both ranges reach a whole block of that order from there (`Buddy.InitCoalescedExactly`, and over all
  runs `Buddy.AlwaysCoalescedExactly`).
- `vmap_virtual_to_physical` looks at the second type bit of no page entry, so it answers for a reserved
  entry at which the processor faults; everywhere else the two agree (`Mmu.TranslatesExactly`). No map
  operation writes such an entry (`Translation.LeafWordBits`).
- `vmap_map_page` does not look for a block entry over the address: it follows the block as if it were
  a table. As long as the memory under the block leads to no table, it reports success and no
  translation moves, in any address space (`PageMapping.MapUnderBlockIsLost`), so that a success means
  the page is mapped if and only if no block covers it (`PageMapping.MapTakesEffectExactly`). Where a
  word of a 1 GiB block's memory does lead to a table, the page is entered there, and another address
  is remapped (`PageMapping.StrayWordRemaps`). `Vmap.MapPage` states both parts, without a precondition.
- Heap growth adds size and header in 64 bits; `Heap.GrowthFitsExactly` gives the exact bound, a
  precondition of `BlockAllocator.BlockAllocator.Allocate`. Beyond it the code asks for at most one
  page and goes on.
- `find_free_address_space` stops the kernel after a mapping of length 0
  (`ProcessMmap.FreeAddressExactly`).
- A message object is queued at every endpoint and freed by its first reader
  (kernel/process/channel.c:423, 377-378); `Channel.NeverFaultsExactly` shows that this is safe if and
  only if the channel has at most two endpoints. The size that is read after the free (line 384) is
  returned as the size.
- Adding a thread to the run queue needs a list node, and the callers ignore its failure: the thread is
  lost exactly then, in a yield, a wake-up or a start (`Scheduler.YieldKeepsExactly`, `WakeKeepsExactly`,
  `BeginKeepsExactly`). Elsewhere nodes can be had.
- Once the idle thread is dispatched nothing ever runs again (`Ipc.IdleStays`).
- `hash_table_remove` follows the link in front of a bucket's head untested
  (kernel/utils/hash_table.c:174); the guarded form is modelled, and `HashTable.RemoveFaultsExactly`
  says when the code as written faults.
- A path that is opened twice is lost to both files when either is closed
  (`FileTable.ReopenedPathIsLost`, `FileTable.OpenKeepsExactly`).
- A usable descriptor at physical address 0 makes the map's allocator look unused;
  `MemoryMap.RightExactly` gives the exact condition under which the built map is wrong, and
  `UsableMemory.RegionsStayOutExactly` the same for the pages the page allocator gets.

One condition the code meets: the ring initialisations clear no memory, and every run of a ring is right
if and only if its memory was clear before (`TransferRing.ConsumesInOrderExactly`,
`EventRing.ReadsInOrderExactly`); every caller clears the page first (kernel/drivers/pci/xhci.c:652, 693,
841, 1019).

## Model

| member | source | states |
|---|---|---|
| Buddy.BuddyIsOtherHalf | kernel/page_alloc.c:31-33 | the exclusive-or buddy of an aligned block is the other half of the aligned block of twice its size |
| Buddy.SplitTiles | kernel/page_alloc.c:162-170 | halving a block keeps a packed tiling of the same pages, and the halves are new |
| Buddy.MergeTiles | kernel/page_alloc.c:219-225 | joining two buddies keeps a packed tiling of the same pages |
| Buddy.AllocKeeps | kernel/page_alloc.c:141-180 | an allocation moves exactly one block of the requested order, aligned to its size, from the free to the live blocks, and leaves no new pair of free buddies |
| Buddy.FreeKeeps | kernel/page_alloc.c:182-230 | a release gives back exactly the block's pages and leaves no free buddies unmerged |
| Buddy.AllocFailsOnlyWhenEmpty | kernel/page_alloc.c:145-158 | allocation fails if and only if every free block is smaller than the request |
| Buddy.AllocTakesSmallest | kernel/page_alloc.c:145-170 | the block is the head of the list of the smallest order that has one, an exact fit is taken whole, a split leaves one upper half on each list passed, and no other list changes |
| Buddy.AllocSucceedsExactly | kernel/page_alloc.c:141-180 | with maximal coalescing, allocation succeeds if and only if some aligned run of pages of the size is wholly free |
| Buddy.WhollyFreeIsOneBlock | kernel/page_alloc.c:187-226 | in a coalesced set of blocks an aligned free region lies inside one free block |
| Buddy.CoalescedIsCanonical | kernel/page_alloc.c:187-226 | two coalesced sets of free blocks over the same pages are equal |
| Buddy.AllocThenFree | kernel/page_alloc.c:141-230 | allocating and releasing a block restores the exact set of free blocks |
| Buddy.InitTiles | kernel/page_alloc.c:85-135 | after initialisation the lists hold exactly the usable pages, packed and aligned |
| Buddy.FirstBlock | kernel/page_alloc.c:111-131 | a range large enough begins with the block of the largest order its start allows |
| Buddy.LastBlock | kernel/page_alloc.c:111-131 | and ends with the block of the largest order its end allows |
| Buddy.InitCoalesced | kernel/page_alloc.c:111-131 | if no two usable ranges meet between buddies that both reach, no two buddies are both free after initialisation |
| Buddy.InitCoalescedExactly | kernel/page_alloc.c:97-132 | for disjoint ranges that condition is exact |
| Buddy.Conservation | kernel/page_alloc.c:85-230 | at every point of every run the free and the live blocks partition exactly the usable pages |
| Buddy.AlwaysCoalesced | kernel/page_alloc.c:85-230 | in every run over such ranges, no two buddies below the largest order are both free |
| Buddy.AlwaysCoalescedExactly | kernel/page_alloc.c:85-230 | no run over disjoint ranges ever leaves free buddies unmerged if and only if no two ranges meet between buddies that both reach |
| Buddy.WalkResultIsExact | kernel/page_alloc.c:206-217 | the list the walk as written leaves, and exactly when it leaves its loop |
| Buddy.FreeAsWrittenExactly | kernel/page_alloc.c:182-230 | the release as written returns if and only if each merged buddy is second on its list, and then does what its comment says |
| Buddy.ReleaseAfterSplitNeverReturns | kernel/page_alloc.c:206-217 | releasing a block right after an allocation that split never returns as written |
| PageAlloc.MarksExclusive | kernel/page_alloc.c:187-199 | no page is on two free lists |
| PageAlloc.UnlinkChained | kernel/page_alloc.c:205-217 | bypassing a node relinks exactly its list |
| PageAlloc.PageAllocator.constructor | kernel/page_alloc.c:21-26 | the static state: arrays of their full size, empty lists, a clear bitmap, which agree |
| PageAlloc.PageAllocator.FreeListPush | kernel/page_alloc.c:35-60 | pushes onto exactly one list, and bitmap, links and lists still agree |
| PageAlloc.PageAllocator.FreeListPop | kernel/page_alloc.c:62-83 | pops the head of exactly one list, and bitmap, links and lists still agree |
| PageAlloc.PageAllocator.UnlinkBuddy | kernel/page_alloc.c:205-221 | takes the buddy off its list wherever it stands and clears its free mark |
| PageAlloc.PageAllocator.AllocateBlock | kernel/page_alloc.c:141-180 | allocates as the specification does; bitmap, links and lists still agree, and free and live blocks still partition the usable pages |
| PageAlloc.PageAllocator.MergeOnce | kernel/page_alloc.c:187-226 | one pass of the merge loop, decided by the bitmap alone: the block joined with its buddy, or nothing when the buddy is not free |
| PageAlloc.PageAllocator.Free | kernel/page_alloc.c:182-230 | releases as the specification does; bitmap, links and lists still agree, and free and live blocks still partition the usable pages |
| PageAlloc.PageAllocator.Init | kernel/page_alloc.c:85-135 | the lists hold exactly the pages of the usable descriptors, nothing is live, and the bitmap agrees |
| Translation.SelectedParts | kernel/vmap.c:8-11 | the address bits that select an entry are those of its table followed by its nine-bit index |
| Translation.LeafWordBits | kernel/vmap.c:89-95 | the two low bits of a written entry are 3 for a page and 1 for a block, and it reads back its address, whatever the flags |
| Translation.LeafAttributes | kernel/vmap.c:326-332 | the attribute bits of a written entry are those of the flags, with the access flag set |
| Translation.TableWordBits | kernel/vmap.c:282-286 | an entry for a new table is valid, leads to it, and sets no attribute |
| Translation.AddTableKeepsWalk | kernel/vmap.c:276-288 | hanging a zeroed table under an invalid entry changes no walk in any address space |
| Translation.AddTableKeepsTree | kernel/vmap.c:276-288 | and every table still hangs in exactly one place |
| Translation.PutLeafEffect | kernel/vmap.c:324-332 | a leaf write sets the entry of exactly its page or block, in exactly its address space |
| Translation.NewRoot | kernel/vmap.c:263-270 | a zeroed page is the root of an address space in which nothing translates |
| Translation.MappedTranslates | kernel/vmap.c:401-456 | a mapped address translates to the physical page or block plus its offset |
| Translation.TogetherIsInterval | kernel/vmap.c:235-255 | the addresses of one entry are an aligned interval |
| Translation.RangeStep | kernel/vmap.c:235-255 | one more page or block at the end of a mapped range |
| Translation.RangeTranslates | kernel/vmap.c:235-255 | every address of a mapped range translates to the physical start plus its offset |
| Mmu.HardwareSees | kernel/vmap.c:8-11 | what the processor's walk makes of an address is what the leaf entry of the kernel's walk says, a reserved page entry being a fault |
| Mmu.EntryDelivers | kernel/vmap.c:326-332 | a written entry lets the processor through to the memory asked for, with exactly the flags asked for and the access flag |
| Mmu.TranslatesExactly | kernel/vmap.c:401-456 | the translation by software fails if and only if no entry maps the address, and is the processor's but for reserved page entries |
| Mmu.MappedMeans | kernel/vmap.c:257-335 | for processor and software alike, a map operation that succeeds adds exactly its page or block, and one that fails changes nothing |
| Mmu.RangeMappedMeans | kernel/vmap.c:235-255 | and a range operation adds exactly the part it mapped |
| PageMapping.MapEffect | kernel/vmap.c:257-335 | where no block covers the address, the operation as written enters exactly the page on success and nothing on failure, and takes at most four pages |
| PageMapping.MapUnderBlockIsLost | kernel/vmap.c:307-332 | under a block of either size whose memory leads to no table, no translation moves, and exactly when success is reported all the same |
| PageMapping.MapTakesEffectExactly | kernel/vmap.c:257-335 | a reported success means that the page is mapped if and only if no block covers the address |
| PageMapping.StrayWordRemaps | kernel/vmap.c:307-332 | under a 1 GiB block whose memory holds a word that leads to a level 3 table, another address is remapped |
| BlockMapping.AddTableEnds | kernel/vmap.c:65-77 | a table hung above the level of a block changes for no address whether a block can be mapped there |
| BlockMapping.FreeExactly | kernel/vmap.c:85-99 | below a table at its level, a block's place is free if and only if the entry is invalid |
| Vmap.PhysicalMemory.AllocPage | kernel/process/address_space.c:6-19 | the next page of the pool, zeroed, or null, moving no translation |
| Vmap.Vmap.EnsureRoot | kernel/vmap.c:263-272 | a root table on first use, with no entry changed |
| Vmap.Vmap.NextTable | kernel/vmap.c:274-288 | follows or creates one table on the way, with no translation moved |
| Vmap.Vmap.PutPage | kernel/vmap.c:257-335 | the loop follows every valid entry and computes the operation as written, blocks in the way or not |
| Vmap.Vmap.MapPage | kernel/vmap.c:257-335 | the operation as written; and where no block covers the address, on success exactly the page's entry is new and the processor meets its memory with the given flags there, on failure nothing changes, in every address space, at most four pages become tables, and four usable pages suffice |
| Vmap.Vmap.MapBlock | kernel/vmap.c:37-211 | with pages for its tables, an aligned 1 GiB or 2 MiB block is mapped if and only if nothing is mapped and no table hangs at its place; the processor then meets its memory there with the given flags, and nothing else changes |
| Vmap.Vmap.MapRange | kernel/vmap.c:103-255 | with pages for its tables, a range of pages is mapped up to its end, and a range of blocks if and only if both addresses are aligned and every place is free; on failure exactly a prefix is; the processor meets the memory and flags asked for there, and everything outside is unchanged |
| Vmap.Vmap.VirtualToPhysical | kernel/vmap.c:401-456 | fails if and only if no entry maps the address, and otherwise answers as the processor does, but at a reserved page entry, where it answers all the same |
| TableCopy.RedirectedBits | kernel/mmap.c:426-429 | a copied table entry keeps its attribute bits and leads to the new table |
| TableCopy.CopyEntry | kernel/mmap.c:409-434 | each entry copied extends the agreement of copy and source by that entry |
| TableCopy.RecursiveCopy | kernel/mmap.c:401-438 | the copy terminates, and succeeds if and only if there are as many pages as the source has tables, which are what it takes; every address reaches the same leaf through equal attributes; no word of the source changes; all tables of the copy are new |
| TableCopy.RegionFlags | kernel/mmap.c:458-462 | the region of physical memory is for the kernel alone, writable, never executable, normal inner sharable memory |
| TableCopy.BuildKernelTables | kernel/mmap.c:440-469 | with pages enough, building succeeds if and only if the loader leaves the 16 GiB region free; then the processor meets physical memory there, from the kernel's base on and with the region's flags, and everywhere else what it met under the loader's tables, which are unchanged |
| ProcessMmap.MmapFlags | kernel/process/process_mmap.c:65-72 | a mapping is open to user mode if and only if it may be read or written, read-only unless it may be written, and normal inner-sharable memory; no other flag is set |
| ProcessMmap.PagesCover | kernel/process/process_mmap.c:60-63 | the pages of a mapping cover its length with less than a page to spare |
| ProcessMmap.FitsExactly | kernel/process/process_mmap.c:51-58 | a request passes the asserts if and only if its address, or the free one when it names none, is on a page and every byte from there lies in the heap |
| ProcessMmap.FreeAddressExactly | kernel/process/process_mmap.c:20-40 | the search for a free range stops the kernel if and only if ranges are recorded and none ends above the base |
| ProcessMmap.Process.FindFreeAddressSpace | kernel/process/process_mmap.c:20-40 | the end of the range that ends last |
| ProcessMmap.RangeAfter | kernel/process/process_mmap.c:20-58 | a range at the free address lies beyond all ranges recorded before |
| ProcessMmap.FreeAfterRange | kernel/process/process_mmap.c:20-40 | after a mapping of non-zero length the next free address is its end |
| ProcessMmap.LedgerAfterMap | kernel/process/process_mmap.c:95-100 | mapping a fresh page keeps one use for each frame |
| ProcessMmap.NoSharing | kernel/process/process_mmap.c:95-100 | no frame backs two pages of any processes, or is both data page and page table |
| ProcessMmap.StartProcesses | kernel/process/address_space.c:29-34 | any number of processes with address spaces of their own satisfies what the runs start from |
| ProcessMmap.Process.Mmap | kernel/process/process_mmap.c:43-114 | exactly the pages of the range are mapped anew, each leading the processor to a fresh frame with the flags of the request; it succeeds whenever the asserts on the range hold and frames suffice |
| ProcessMmap.NextCall | kernel/process/process_mmap.c:43-114 | a call keeps what the calls after it need: room in each heap and frames enough |
| ProcessMmap.RunCalls | kernel/process/process_mmap.c:43-114 | over any sequence of calls on any processes the recorded ranges only grow and each new one lies beyond all before it, every earlier page keeps its translation and every frame its single use; with non-zero lengths, room and frames enough, no call stops the kernel |
| FrameSupply.SupplyIsUnused | kernel/page_alloc.c:141-180 | the frames of successive single-page requests are usable, distinct and in no live block |
| FrameSupply.SupplyIsAll | kernel/page_alloc.c:141-180 | and the requests go on being granted until every free page has been handed out |
| FrameSupply.SupplyIsReady | kernel/process/address_space.c:6-19 | so the page allocator's answers are what the table code requires of its pool |
| Heap.PayloadsApart | kernel/block_allocator.c:14-23 | live payloads are disjoint and reach no header and no end of the heap |
| Heap.GrowthFitsExactly | kernel/block_allocator.c:152-155 | growth makes room if and only if request and header fit in 64 bits, then with as few pages as possible, and asks for at most one page otherwise |
| Heap.GrowthKeeps | kernel/block_allocator.c:144-198 | growth appends one free block of whole pages and keeps the heap tiled and listed |
| Heap.TakeKeeps | kernel/block_allocator.c:201-248 | taking a block, split or whole, keeps the heap tiled, exactly listed and free of free neighbours, and takes at most a header too much |
| Heap.FitIsFirst | kernel/block_allocator.c:71-82 | the fit is the first on the free list: all listed before it are too small, and without a fit all are |
| Heap.FirstFitFinds | kernel/block_allocator.c:71-82 | a fit is found whenever some free block is large enough |
| Heap.AllocatesFirstFit | kernel/block_allocator.c:138-248 | an allocation succeeds if and only if some free block is large enough or the pages can be had; it takes the first such block on the free list, and only without one grows the heap, by as few pages as hold the request |
| Heap.ReleaseKeeps | kernel/block_allocator.c:251-306 | a release, through all merges, keeps the heap tiled, exactly listed and coalesced |
| Heap.AllocateKeeps | kernel/block_allocator.c:231-248 | an allocation keeps every live block and yields a new one, large enough and at most a header larger, or changes nothing |
| Heap.ReleaseStateKeeps | kernel/block_allocator.c:251-306 | a release takes exactly the released block from the live ones |
| Heap.AlwaysSound | kernel/block_allocator.c:95-306 | in every run the heap tiles whole pages, the free list is exact, and no two neighbours are both free |
| BlockAllocator.PushRepresents | kernel/block_allocator.c:25-33 | a push relinks the free list and nothing else |
| BlockAllocator.PullRepresents | kernel/block_allocator.c:35-51 | a removal relinks the free list and nothing else, head included |
| BlockAllocator.UnlinkRepresents | kernel/block_allocator.c:53-69 | unlinking a block relinks the block list and nothing else, head included |
| BlockAllocator.InsertRepresents | kernel/block_allocator.c:213-224 | a header written behind a block is linked in there |
| BlockAllocator.EarlyLinkIsOverwritten | kernel/block_allocator.c:273-281 | the next link written before unlinking has no effect of its own |
| BlockAllocator.BlockAllocator.constructor | kernel/block_allocator.c:95-136 | one free block of 4 MiB, mapped |
| BlockAllocator.BlockAllocator.FindFreeBlock | kernel/block_allocator.c:71-82 | the first block on the free list that fits, or null when none does |
| BlockAllocator.BlockAllocator.GetLastBlockHeader | kernel/block_allocator.c:84-93 | the block that ends the heap |
| BlockAllocator.BlockAllocator.Grow | kernel/block_allocator.c:144-198 | maps exactly the next pages behind the heap and makes them one free block, or leaves the heap as it was |
| BlockAllocator.BlockAllocator.FindOrCreateFreeBlock | kernel/block_allocator.c:138-199 | grows only when no free block is large enough |
| BlockAllocator.BlockAllocator.SplitBlock | kernel/block_allocator.c:201-228 | what is left beyond a header becomes a free block, first on the free list |
| BlockAllocator.BlockAllocator.Allocate | kernel/block_allocator.c:231-248 | allocates as the specification does: the payload address, and tiled, exactly listed, coalesced blocks in the headers afterwards |
| BlockAllocator.BlockAllocator.JoinBoth | kernel/block_allocator.c:271-281 | a block between two free ones: all three become one |
| BlockAllocator.BlockAllocator.JoinPrevious | kernel/block_allocator.c:282-288 | a block behind a free one is taken in by it |
| BlockAllocator.BlockAllocator.JoinNext | kernel/block_allocator.c:289-300 | a block before a free one takes it in and is listed |
| BlockAllocator.BlockAllocator.Free | kernel/block_allocator.c:251-306 | releases as the specification does, with the right neighbours merged; null and a block that is free already change nothing |
| KernelHeap.MapPages | kernel/block_allocator.c:157-178 | the loop maps as many pages as can be had, each on a frame of its own from the pool, and nothing else; five pages for each are enough |
| KernelHeap.BackedGrows | kernel/block_allocator.c:157-178 | pages mapped behind the heap join it, and no address it had is moved |
| KernelHeap.PhysicallyApart | kernel/kmalloc.c:13-24 | two addresses of the heap never share a byte of physical memory |
| KernelHeap.HeapMeans | kernel/block_allocator.c:165-170 | the processor meets every address of the heap, whenever it was grown, on its frame with exactly the heap's flags |
| KernelHeap.HeapFlags | kernel/kmalloc.c:8-9 | the kernel heap is for the kernel alone, writable, never executable, normal memory |
| KernelHeap.InitHeap | kernel/block_allocator.c:95-136 | 4 MiB on one block of the page allocator, every address mapped with the given flags on a frame of its own; the heap keeps those flags for its growth |
| KernelHeap.InitKernelHeap | kernel/kmalloc.c:14-25 | at its own base and with its own flags, which the processor meets at every address |
| KernelHeap.MappedHeap.Kmalloc | kernel/block_allocator.c:138-248 | allocates as the specification does; every heap address, grown or not, stays mapped with the heap's flags, on frames that are no tables and not in the pool; no heap address is moved; five pages for each page of growth are enough |
| KernelHeap.MappedHeap.Kfree | kernel/block_allocator.c:251-306 | releases as the specification does, with every heap address still mapped |
| MemoryMap.ReservedAt | kernel/mmap.c:205-273 | which descriptors the two regions are cut from, and where |
| MemoryMap.KindsExactly | kernel/efi_memory_map.c:5-13 | of the UEFI memory types each is usable or in other use, and none both |
| MemoryMap.ReservesExactly | kernel/mmap.c:205-273 | reserving succeeds if and only if some usable descriptor of 256 pages does not start at 0 and some usable descriptor has 2048 pages beyond what the map takes of it; each region is cut from the first such descriptor |
| MemoryMap.EntriesInAll | kernel/mmap.c:299-367 | the map has one entry for each descriptor and one more for each region |
| MemoryMap.PiecesTile | kernel/mmap.c:308-363 | the entries made for one descriptor tile it |
| MemoryMap.PiecesUsable | kernel/mmap.c:314-357 | the usable entry of a descriptor is exactly what the regions leave of it |
| MemoryMap.BuiltTiles | kernel/mmap.c:299-367 | the entries cover exactly the firmware's pages and are disjoint when the firmware's are |
| MemoryMap.ZeroSplitIsWrong | kernel/bump_allocator.c:11-13 | a first large descriptor at address 0 that holds the page tables too hands out part of their region |
| MemoryMap.RightExactly | kernel/mmap.c:205-367 | the map covers exactly the firmware's pages, both regions are reserved, and usable is exactly what the firmware gave as usable outside them, if and only if there is no such descriptor |
| UsableMemory.FramesExactly | kernel/page_alloc.c:97-132 | the page allocator's pages are exactly those at whose addresses the map is usable |
| UsableMemory.RegionsStayOutExactly | kernel/mmap.c:205-367 | for firmware memory in disjoint whole pages the allocator gets disjoint ranges, and no page of the two reserved regions if and only if there is no such descriptor |
| UsableMemory.AllocatorGetsExactly | kernel/page_alloc.c:97-132 | without such a descriptor the allocator gets exactly the firmware's usable pages outside the two regions |
| UsableMemory.RegionsAreNeverHandedOut | kernel/page_alloc.c:85-230 | then no run of the allocator hands out a page of the map or of the page table region, or one the firmware did not give |
| UsableMemory.OtherUseIsLeftAlone | kernel/efi_memory_map.c:5-13 | no run of the allocator ever hands out memory of runtime services, ACPI or devices, or what is reserved, whatever the descriptors |
| MemoryMap.KernelMemoryMap.ReserveMemory | kernel/mmap.c:205-273 | the reserving loop, with its early exit, computes the reservation, and succeeds exactly on those descriptors |
| MemoryMap.KernelMemoryMap.NewEntry | kernel/mmap.c:275-297 | an entry is appended if and only if 24 more bytes fit the map's region |
| MemoryMap.KernelMemoryMap.MakeMap | kernel/mmap.c:299-367 | building succeeds if and only if the descriptors allow both regions and two entries more than there are descriptors fit the map's region; the map is then right under the exact condition |
| TransferRing.FetchKeeps | kernel/drivers/pci/xhci.c:489-496 | a controller step keeps driver and controller in step, across the toggling Link TRB too |
| TransferRing.TurnKeeps | kernel/drivers/pci/xhci.c:502-514 | the controller may run between the write of the Link TRB and that of the new TRB |
| TransferRing.OutstandingIsConsumed | kernel/drivers/pci/xhci.c:501-528 | while a TRB is outstanding the controller is not stalled and consumes the oldest within two steps |
| TransferRing.EnqueueKeepsExactly | kernel/drivers/pci/xhci.c:501-528 | an enqueue keeps the ring sound if and only if fewer TRBs are outstanding than it has slots beside the Link |
| TransferRing.OverfullStalls | kernel/drivers/pci/xhci.c:501-528 | one TRB too many stalls the controller with TRBs unread |
| TransferRing.ConsumesInOrder | kernel/drivers/pci/xhci.c:481-528 | over any number of laps the controller has consumed a prefix of what was sent, and all of it whenever it stalls |
| TransferRing.StaleSlotBreaksRun | kernel/drivers/pci/xhci.c:481-499 | whichever slot was not clear, a run of the first lap consumes what nobody sent or stalls with TRBs unread |
| TransferRing.ConsumesInOrderExactly | kernel/drivers/pci/xhci.c:481-528 | all runs from a new ring consume in order if and only if its memory was clear |
| TransferRing.Producer.constructor | kernel/drivers/pci/xhci.c:481-499 | writes only the Link TRB |
| TransferRing.Producer.EnqueueTrb | kernel/drivers/pci/xhci.c:501-528 | writes the two slots and moves pointer, count and cycle bit so that the ring is the one the run theorems speak of |
| EventRing.SeenExactly | kernel/drivers/pci/xhci.c:549-580 | an event is seen if and only if one is unread, and a dequeue then returns the oldest: full and empty differ |
| EventRing.PostKeepsExactly | kernel/drivers/pci/xhci.c:540-580 | a post keeps the ring sound if and only if not every slot holds an unread event |
| EventRing.OverfullIsUnseen | kernel/drivers/pci/xhci.c:549-552 | one event too many hides all unread ones |
| EventRing.ReadsInOrder | kernel/drivers/pci/xhci.c:540-580 | over any number of laps each event is read once, in order |
| EventRing.ReadsInOrderExactly | kernel/drivers/pci/xhci.c:540-580 | all runs from a new ring read each event once and in order if and only if its memory was clear |
| EventRing.Consumer.HasValidTrb | kernel/drivers/pci/xhci.c:549-552 | whether an event is there, by the cycle bit alone |
| EventRing.Consumer.DequeueEvent | kernel/drivers/pci/xhci.c:554-580 | returns the event and moves pointer, count and cycle bit so that the ring is the one the run theorems speak of |
| Scheduler.RunDispatches | kernel/scheduler/scheduler.c:91-119 | a run dispatches the head of the run queue, and the idle thread only if the queue is empty |
| Scheduler.RunKeeps | kernel/scheduler/scheduler.c:91-119 | and keeps the run queue exact |
| Scheduler.YieldKeeps | kernel/scheduler/scheduler.c:121-144 | a yield puts the running thread behind all others and dispatches the first |
| Scheduler.YieldKeepsExactly | kernel/scheduler/scheduler.c:51-61 | the run queue stays exact if and only if a list node can be had |
| Scheduler.SetAsideRuns | kernel/scheduler/scheduler.S:106-114 | blocking or terminating the running thread leaves it in no queue and dispatches the first |
| Scheduler.WakeKeeps | kernel/scheduler/scheduler.c:150-158 | a wake-up of a blocked thread fails no assertion and queues it last |
| Scheduler.WakeFailsExactly | kernel/scheduler/scheduler.c:150-151 | a wake-up fails its assertion if and only if the thread is not blocked |
| Scheduler.WakeKeepsExactly | kernel/scheduler/scheduler.c:150-158 | a wake-up of a blocked thread keeps the run queue exact if and only if a list node can be had |
| Scheduler.BeginKeepsExactly | kernel/scheduler/thread.c:45-47 | and so does the start of a thread |
| Scheduler.BeginKeeps | kernel/scheduler/thread.c:8-47 | a started thread is queued last |
| Scheduler.StepKeeps | kernel/scheduler/scheduler.c:51-169 | every operation keeps the run queue exact, fails no assertion, and moves the queue up by one place exactly when it dispatches |
| Scheduler.MatchedRemove | kernel/scheduler/scheduler.c:63-68 | the node at the head is the one its thread knows, and taking it off leaves every other thread its own |
| Scheduler.Scheduler.Add | kernel/scheduler/scheduler.c:51-61 | the thread gets a node of its own, last in the run queue; an assertion fails, or -1 is returned when no node can be had, and the queue stays as it is |
| Scheduler.Scheduler.Remove | kernel/scheduler/scheduler.c:63-68 | the thread at the head leaves the run queue by its own node |
| Scheduler.Scheduler.PickNext | kernel/scheduler/scheduler.c:91-112 | the loop passes over terminated threads, to the first other one or the idle thread |
| Scheduler.Scheduler.RunNext | kernel/scheduler/scheduler.c:91-119 | and dispatches it |
| Scheduler.Scheduler.YieldCurrent | kernel/scheduler/scheduler.c:121-144 | from a sound state, a sound state in which the first of the queued threads and the caller, in that order, runs and the rest are queued |
| Scheduler.Scheduler.BlockCurrent | kernel/scheduler/scheduler.S:106-114 | from a sound state, a sound state in which the caller is blocked and in no queue and the first queued thread runs |
| Scheduler.Scheduler.Wake | kernel/scheduler/scheduler.c:150-158 | from a sound state, a blocked thread is queued last, nothing else changes and no assertion fails |
| Scheduler.Scheduler.TerminateCurrent | kernel/scheduler/scheduler.c:160-169 | from a sound state, a sound state in which the caller is terminated and in no queue and the first queued thread runs |
| Scheduler.Scheduler.Start | kernel/scheduler/thread.c:8-47 | from a sound state, the new thread is queued last |
| Ipc.DeliverKeeps | kernel/process/channel.c:420-437 | a delivery leaves nobody waiting at the queue: all waiters are on the run queue, in order |
| Ipc.BroadcastKeeps | kernel/process/channel.c:410-440 | the fan-out to all other endpoints keeps every invariant |
| Ipc.BroadcastWakes | kernel/process/channel.c:410-440 | the fan-out reaches every other endpoint once and leaves all that waited there on the run queue |
| Ipc.EmitKeeps | kernel/process/input_file.c:22-50 | an event is appended and queues all waiters, in order, or is dropped when the buffer is full; nobody is left waiting |
| Ipc.WaitKeeps | kernel/process/channel.c:346-359 | a reader waits only where nothing is, in one place only |
| Ipc.ReceiveExactly | kernel/process/channel.c:330-385 | a read blocks its caller if and only if it may block and nothing is there, takes the first item if and only if there is one that fits, and leaves every other queue alone |
| Ipc.ActionKeeps | kernel/process/channel.c:330-443 | every action keeps all invariants |
| Ipc.AlwaysSound | kernel/scheduler/scheduler.c:51-169 | in every run no assertion fails, each blocked thread waits in exactly one place, ready and suspended threads are queued once, and nobody waits where there is something to take |
| Ipc.StartsSound | kernel/scheduler/scheduler.c:32-49 | the state after initialisation satisfies all invariants |
| Ipc.RoundRobin | kernel/scheduler/scheduler.c:91-158 | a thread with k threads ahead of it keeps its place through k switches, whatever comes between |
| Ipc.DispatchedInTurn | kernel/scheduler/scheduler.c:91-158 | and the next switch dispatches it |
| Ipc.IdleStays | kernel/scheduler/scheduler.c:26-30 | once the idle thread runs it is never left |
| Ipc.WakeWaiters | kernel/process/channel.c:422-437 | the loop empties the waiter list and queues its threads in order |
| Ipc.Mailboxes.Insert | kernel/process/channel.c:420-437 | delivers the item to exactly this queue and leaves every waiter of it on the run queue, in order; all other queues keep their lists |
| Ipc.Mailboxes.FanOut | kernel/process/channel.c:410-440 | the loop delivers to every endpoint but the sender's, in the order they were opened |
| Ipc.Mailboxes.Peek | kernel/process/channel.c:339-362 | one pass of the wait loop: the first item, or a wait, or for a non-blocking read nothing |
| Ipc.Mailboxes.WaitAt | kernel/process/channel.c:346-359 | the caller is last on the waiter list and blocked |
| Channel.BroadcastItems | kernel/process/channel.c:410-440 | the fan-out appends the message at every endpoint but the writer's, once, and nowhere else |
| Channel.NeverFaultsExactly | kernel/process/channel.c:371-384 | no run uses a freed message if and only if the channel has at most two endpoints |
| Channel.ThreeEndsFault | kernel/process/channel.c:371-423 | with three endpoints a write and two reads use a freed message |
| Channel.UnusedIsDelivered | kernel/process/channel.c:77-141 | a channel whose two endpoints have just been opened satisfies the delivery invariant |
| Channel.ReadAnswers | kernel/process/channel.c:330-385 | a read returns the oldest unread message of the other end; a refused one, too small a buffer included, consumes nothing |
| Channel.ReadExactly | kernel/process/channel.c:330-385 | a read waits if and only if it is blocking and nothing is unread, and answers if and only if the oldest unread message fits; otherwise it is refused and nothing changes |
| Channel.WaitBlocks | kernel/process/channel.c:345-360 | a read that waits leaves its caller blocked and last among the waiters of the endpoint, and dispatches the next thread |
| Channel.WriteExactly | kernel/process/channel.c:387-443 | a message is unread at every other endpoint, behind what was, and nowhere else |
| Channel.WriteWakes | kernel/process/channel.c:420-437 | whoever waits at an endpoint is on the run queue after the next write at another, with that message to read |
| Channel.ReaderIsWoken | kernel/process/channel.c:345-437 | no wake-up is lost: a reader blocked on an empty endpoint waits on, whatever else happens, until the other end writes, and that write leaves it on the run queue |
| Channel.ElsewhereSpares | kernel/process/channel.c:330-443 | what threads and devices do at other queues leaves the messages at an endpoint |
| Channel.AlwaysDelivered | kernel/process/channel.c:330-443 | over any interleaving on two endpoints, with any scheduling and any deliveries, reads and opens at other queues in between, what one has read followed by what is queued for it is what the other has written, and each message is freed at most once |
| Channel.ChannelFiles.FileWrite | kernel/process/channel.c:387-443 | queues one object at every other endpoint, and refuses an empty message |
| Channel.ChannelFiles.FileRead | kernel/process/channel.c:330-385 | one pass of a read: refused, waiting exactly if it is blocking and finds nothing, or the oldest message with its object freed |
| InputFile.EventFile.constructor | kernel/process/input_file.c:58-78 | an empty ring for 200 events and no waiters |
| InputFile.EventFile.Emit | kernel/process/input_file.c:22-50 | as one queue among any others: the event is the newest in the ring and all waiters are queued, in order, or it is dropped when 200 are held |
| InputFile.EventFile.Read | kernel/process/input_file.c:127-168 | one pass of a read: refused for a short buffer, the oldest event of the ring, or a wait, or for a non-blocking read nothing |
| LinkedList.List.InsertNode | kernel/utils/linked_list.c:37-52 | the node ends up last and all links follow the sequence |
| LinkedList.List.Insert | kernel/utils/linked_list.c:13-35 | a new node with the data is last |
| LinkedList.List.Remove | kernel/utils/linked_list.c:54-79 | exactly the node leaves the sequence, head and tail included, and points nowhere |
| RingBuffer.Advances | kernel/utils/ring_buffer.c:5-11 | an address wraps exactly behind the last element |
| RingBuffer.Ring.Enqueue | kernel/utils/ring_buffer.c:32-46 | the element becomes the newest, unless the buffer is full |
| RingBuffer.Ring.Dequeue | kernel/utils/ring_buffer.c:48-62 | the oldest element, if there is one, over any number of laps |
| HashTable.PowerOfTwoExactly | kernel/utils/hash_table.c:11-23 | the test of the bucket count passes exactly the powers of two |
| HashTable.InitTable | kernel/utils/hash_table.c:15-37 | an empty table, or none if and only if the bucket count is no power of two |
| HashTable.BucketInRange | kernel/utils/hash_table.c:75-85 | the masked hash is a bucket number: the remainder of the hash |
| HashTable.HashFunction | kernel/utils/hash_table.c:67-73 | the loop computes the 64-bit FNV-1a hash |
| HashTable.OneByteApart | kernel/utils/hash_table.c:67-73 | keys that differ in one byte never have the same hash |
| HashTable.KnownHashes | kernel/utils/hash_table.c:8-9 | two published values of FNV-1a |
| HashTable.PushKeeps | kernel/utils/hash_table.c:137-154 | a new node in front of its bucket adds its key to the map |
| HashTable.UnlinkKeeps | kernel/utils/hash_table.c:160-188 | unlinking a node removes its key from the map and leaves all buckets threaded |
| HashTable.RemoveFaultsExactly | kernel/utils/hash_table.c:171-174 | the removal as written faults if and only if the key is alone in its bucket |
| HashTable.Table.FindNode | kernel/utils/hash_table.c:94-113 | a node is found if and only if the map has the key, and holds its value |
| HashTable.Table.Get | kernel/utils/hash_table.c:115-127 | the value the map has for the key, or none |
| HashTable.Table.Contains | kernel/utils/hash_table.c:190-192 | whether the map has the key |
| HashTable.Table.Set | kernel/utils/hash_table.c:129-158 | the map with the key set, in place |
| HashTable.Table.Remove | kernel/utils/hash_table.c:160-188 | the map without the key, in place, guarded |
| FileTable.FoundExactly | kernel/files/file_table.c:95-102 | a path finds a file if and only if it is open under it, and its handle resolves to the same object |
| FileTable.OpensExactly | kernel/files/file_table.c:34-65 | an open gives the next handle to a file that is what was passed, and leaves every other file and handle as it was |
| FileTable.ClosesExactly | kernel/files/file_table.c:67-85 | a close takes away exactly the file of its handle |
| FileTable.OpenKeepsExactly | kernel/files/file_table.c:34-65 | an open keeps the index exact if and only if the path is fresh |
| FileTable.CloseKeeps | kernel/files/file_table.c:67-85 | a close keeps the index exact |
| FileTable.HandleKeepsFile | kernel/files/file_table.c:34-93 | over any run of opens with fresh paths and of closes of other handles, a handle resolves to its file, unchanged |
| FileTable.ReopenedPathIsLost | kernel/files/file_table.c:34-85 | opening an open path again hides the first file, and closing either loses the other, which stays open |
| FileTable.AlwaysFoundExactly | kernel/files/file_table.c:34-102 | over any run of opens with fresh paths and closes, a path finds exactly the file still open under it |
| FileTable.GlobalFileTable.OpenFile | kernel/files/file_table.c:34-65 | the file gets the next handle and its path, if any, is indexed |
| FileTable.GlobalFileTable.CloseFile | kernel/files/file_table.c:67-85 | the handle is emptied for good and the path leaves the index |
| FileTable.GlobalFileTable.GetFile | kernel/files/file_table.c:87-93 | a handle resolves to its object, or to null once it is closed |
| FileTable.GlobalFileTable.GetFileByPath | kernel/files/file_table.c:95-102 | the file indexed under the path |

## Left out

- Register access, barriers, TLB maintenance, applying tables, context-switch assembly and exception vectors: hardware effects.
- The rest of the xHCI driver, all other device drivers, ACPI, PCIe, the loader and the user programs: device and firmware I/O and user interface.
- The near copies of the heap and of the utilities in the user-space libraries.
- Shared mappings and the unimplemented paths for unmapping and closing channels and shared memory.
- File descriptor tables: sending a descriptor over a channel is covered as a delivery and a read of one more queue, not the duplication of the descriptor itself.
- The processor's permission checks and the bits that table entries pass down; new tables set none, and a copy keeps those of its source.
- ProcessMmap.Process.Mmap: requests whose address plus length wraps at 2^64.
- Physical addresses from 16 GiB up, which the kernel cannot convert to virtual ones and asserts against.
- Wrap-around of heap, ring buffer and firmware addresses at 2^64; the one place where the sum matters, the size of a growth, is exact.
- PageAlloc.PageAllocator.Free: unlinks as the source's comment says, not as its walk does; the walk is in `Buddy.FreeAsWritten`.
- BlockAllocator.BlockAllocator.Free: only for the payload of a block; a header that was merged away and any other address are the caller's error.
- BlockAllocator.BlockAllocator.Grow: how many pages can be allocated and mapped is a parameter, which `KernelHeap.MappedHeap.Kmalloc` supplies.
- BlockAllocator.BlockAllocator.constructor: the failures of its first allocation and mapping, which are in `KernelHeap.InitHeap`.
- KernelHeap.MappedHeap.Kmalloc: maps the pages of a growth and then has the heap grow over them; a frame whose entry cannot be written stays taken, as in the source.
- Vmap.Vmap.MapRange: ranges that leave the 2^48 addresses of their start; and page ranges that start inside a page or lie under a block, where `MapPage` says what each page does.
- Ipc.Mailboxes.Peek: is one pass of the source's loop; the other threads run between two passes, as the runs of `Ipc` describe.
- InputFile.EventFile.Read: is one pass of the source's loop likewise.
- Table words are naturals with their fields taken apart by division; joining disjoint fields bitwise is written as adding them.
- Headers, list nodes of the hash table, threads, file objects and message objects are map entries by address, so that aliasing is equality of addresses; the ring buffer's elements are stored whole at their address.
- HashTable.Table.Set: the kernel's node counter, which removal never decrements, and 64-bit integer keys.
- FileTable.GlobalFileTable.CloseFile: the path copy that is never freed.
- RingBuffer.Ring.Enqueue: elements shorter than the ring's element size.
- Failures of small heap allocations, but for the list node of the run queue.
