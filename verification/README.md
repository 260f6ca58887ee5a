# NeoastrenOS memory manager: model and proofs

This project models the memory manager of the NeoastrenOS kernel together with the boot
loader code that creates the state it starts from, and proves properties of the model
with Dafny 4.11. `dafny verify dfyconfig.toml` checks everything.

The layers, bottom to top:

- **Words and formats** (`Bits`, `PageFormat`, `MemoryMap`). Machine words are natural
  numbers below 2^64. Masks and shifts are defined on binary digits and proved equal, once,
  to the division and remainder forms that the other modules use. Page-table entries
  follow section 4.5 of the Intel 64 and IA-32 Architectures Software Developer's Manual,
  Volume 3A.
- **Physical frames** (`FrameAllocation`, `FrameInit`). The bitmap is an array; its
  meaning is a set of free frame numbers. Initialisation works from an untrusted map.
- **Page tables** (`PageTables`, `AddressSpace`, `VirtualMemory`, `HardwareWalk`). Physical memory below
  4 GiB is a sequence of words. A ghost labelling gives every table page the index path
  that leads to it; the labelling being closed under table entries is what makes the
  tables a tree, so that a write through one path cannot be seen through another. The
  abstract value is `View`: one mapping for each of the 2^36 pages that the low 48 address
  bits distinguish; `Access` is what the processor permits there, all levels of the walk
  taken together. `HardwareWalk` is the processor's own walk, bit by bit, and agrees with
  both.
- **Free list** (`FreeList`, `WrappingSearch`, `HeapLedger`, `IntrusiveList`). Nodes live at
  their own addresses in a word-addressed memory that methods update in place; the list
  refines a canonical decomposition of the set of free bytes. The search is modelled for
  builds with overflow checks and for builds without them. A ledger sorts every byte ever
  given to the allocator into free, live and lost.
- **Kernel heap** (`HeapSpace`, `KernelHeaps`, `HeapRuns`). Growth page by page, unwinding
  of partial growth, one retry, and the invariant that ties free list, page tables and
  frames together over every run. Stores through heap addresses reach the physical memory
  that holds the page tables.
- **Boot** (`BootPaging`, `KernelLoader`, `KernelImage`, `ExitBootServices`, `Startup`).
  The initial tables, placing the ELF image, leaving boot services (section 7.4 of the UEFI
  Specification 2.10), and the way from the kernel's file to a ready heap.
- **The whole system** (`SystemRuns`). What boot set up, over every run with the heap in it.
- **Locks** (`SpinLock`). An interleaving machine for any number of threads that lock, unlock
  and touch the data the locks protect.

State machines (`AddressSpace.Run`, `HeapLedger.Run`, `HeapRuns.HeapRun`,
`FrameAllocation.LoanRun`, `SpinLock.Run`) say what a step does from a state that satisfies
the invariant and nothing about other states, so that the invariant is established by
induction from the initial state and never presupposed.

## Where the code and its comments differ

- `kernel/src/mm/heap.rs:131` says that unwinding a partial growth frees the frames back.
  The code drops the frame that `unmap` returns (line 148). The model follows the code:
  `KernelHeaps.KernelHeap.Grow` names the frames that are lost, exactly those of the pages
  that had been mapped. `HeapRuns.LossExact` says, from what is known before the call, exactly
  when a failing growth loses frames: when the frames below 4 GiB, without the first one the
  allocator gives, are enough for the tables that the first page needs. `HeapRuns.LossAtBoot`
  is a family of calls that do lose frames.
- `kernel/src/mm/heap.rs:172-178` expects the retry after a growth to succeed and allows for
  large alignments. `HeapRuns.NullIffGrowthFailed` proves the expectation for alignments up to
  a page, `HeapRuns.NullExact` says exactly when it holds for any alignment up to 2^31, and
  `HeapRuns.RetryFailsAtBoot` is a call for which it fails.
- `kernel/src/mm/linked_list_allocator.rs:32-34` adds without a check. With overflow checks
  on, `addr + align` panics from 2^64 on, and that is how `alloc` is modelled
  (`FreeList.OverflowExact`). `kernel/README.md:8` builds with `--release`, where the sum wraps:
  `WrappingSearch.WrappingExactIff` proves that the search is then right if and only if it
  reaches no node whose rounding wraps, and that it takes such a node for a block at address
  0. `HeapRuns.BothBuildsAgree` shows that in the heap neither happens for alignments up to
  2^31, and `HeapRuns.OverflowAtBoot` is a request, aligned to 2^47, for which both do.
- `boot/kernel_loader.c:125-131` accepts any image above the kernel's virtual base, while
  `boot/paging.c` always maps from that base. `KernelImage.ReachedIffLowestIsBase` shows that
  an image is reached at its own addresses exactly when its lowest segment is at the base, and
  `KernelImage.EveryBaseAccepted` that files with any other base below 2^64 - 1 are accepted.
- `kernel/src/mm/memory_map.rs:95-103` takes the claimed size to cover the 32 bytes read at
  each descriptor. That holds from a stride of 32 on (`MemoryMap.WideStrideReadable`) and fails
  for a map with one descriptor of 8 bytes (`MemoryMap.ShortStrideUnreadable`); for shorter
  strides the model asks for the bytes that are read.
- `boot/memory_map.c:39-78` tests the stride of the size query for zero but divides by the one
  reported with the map that is handed over. `ExitBootServices.ExitBootServicesWithRetry` has
  an outcome for that division by zero, which a firmware that changes nothing of its own
  accord cannot cause.

## Model

| member | source | states |
|---|---|---|
| `Bits.AlignUpForm` | kernel/src/mm/linked_list_allocator.rs:32-34 | The mask expression of `align_up` equals the arithmetic rounding used in the model, for every power of two and every 64-bit input, wrapped sums included |
| `Bits.AlignUpExact` | kernel/src/mm/linked_list_allocator.rs:32-34 | Without overflow the result is the least multiple of the alignment that is not below the address |
| `Bits.AlignUpWraps` | kernel/src/mm/linked_list_allocator.rs:32-34 | Rounding up is correct if and only if the sum stays below 2^64; otherwise the result is 0 |
| `PageFormat.AccessorForms` | kernel/src/mm/page_table_entry.rs:70-102 | The mask tests of the accessors are the entry's binary digits, and the address mask keeps exactly bits 51 to 12 |
| `PageFormat.NewTablePointer` | kernel/src/mm/page_table_entry.rs:109-113 | A table pointer decodes to present, writable, not huge, executable, and the frame base of its address |
| `PageFormat.NewLeaf` | kernel/src/mm/page_table_entry.rs:115-129 | A leaf decodes to present, exactly the requested flags, and the frame base of the requested address |
| `PageFormat.TablePointerForm` | kernel/src/mm/page_table_entry.rs:109-113 | The OR of masked address and flags is the entry the model uses |
| `PageFormat.LeafForm` | kernel/src/mm/page_table_entry.rs:115-129 | The same for leaves, for every combination of flags |
| `PageFormat.NewHuge` | boot/paging.c:76-77 | A boot huge-page entry decodes to present, writable, executable, huge, and its 2 MiB-aligned address |
| `PageFormat.HugeForm` | boot/paging.c:76-77 | The OR expression of the boot loader is that entry |
| `PageFormat.IndexForms` | kernel/src/mm/virt_addr.rs:30-57 | Shift-and-mask index extraction equals division and remainder, for each of the five fields |
| `PageFormat.IndicesRecombine` | kernel/src/mm/virt_addr.rs:35-57 | The four indices and the offset recombine to the low 48 bits of the address |
| `PageFormat.PathIsPageNumber` | kernel/src/mm/virt_addr.rs:35-57 | Two addresses have the same index path if and only if they agree on bits 47 to 12 |
| `MemoryMap.MemoryMapEntry.EndAddr` | kernel/src/mm/memory_map.rs:47-52 | The checked end address is present exactly when neither product nor sum overflows, and is then exact |
| `MemoryMap.LittleEndianRoundTrip` | kernel/src/mm/memory_map.rs:87-116 | Little-endian decoding inverts encoding at every width |
| `MemoryMap.DecodeDescriptor` | kernel/src/mm/memory_map.rs:87-116 | Decoding recovers type, start and page count whatever the ignored bytes and however long the stride |
| `MemoryMap.ChunkAt` | kernel/src/mm/memory_map.rs:87-92 | In records one stride apart, record `k` is found `k` strides in |
| `MemoryMap.MapRoundTrip` | kernel/src/mm/memory_map.rs:87-116 | The map the kernel reads is the map the firmware wrote: for every number of descriptors, every stride of at least 32 bytes and whatever the ignored bytes and the rest of the buffer hold, entry `k` is the entry of descriptor `k` |
| `MemoryMap.WideStrideReadable` | kernel/src/mm/memory_map.rs:95-103 | With a stride of at least 32 bytes, the readable bytes the caller guarantees cover every read |
| `MemoryMap.ShortStrideUnreadable` | kernel/src/mm/memory_map.rs:95-103 | With a stride of 8 it does not: a consistent map of one descriptor whose read leaves the buffer |
| `MemoryMap.ReadEntry` | kernel/src/mm/memory_map.rs:104-115 | The three unaligned reads decode the descriptor at that offset |
| `MemoryMap.MemoryMapIter.Next` | kernel/src/mm/memory_map.rs:87-116 | Yields entry `index` of the map, which `MapRoundTrip` ties to the bytes, and advances, or `None` at the end without moving |
| `FrameAllocation.ByteUpdate` | kernel/src/mm/frame_allocator.rs:243-259 | Setting or clearing a bit of a bitmap byte changes that frame's state and no other's |
| `FrameAllocation.FrameAllocator.AllUsed` | kernel/src/mm/frame_allocator.rs:191-200 | The initial bitmap has no free frame |
| `FrameAllocation.FrameAllocator.MarkUsed` | kernel/src/mm/frame_allocator.rs:247-252 | Removes exactly one frame from the free set; the counter stays the size of the set |
| `FrameAllocation.FrameAllocator.MarkFree` | kernel/src/mm/frame_allocator.rs:254-259 | Adds exactly one frame; the counter stays the size of the set |
| `FrameAllocation.FrameAllocator.Allocate` | kernel/src/mm/frame_allocator.rs:265-279 | `None` if and only if no frame is free, equivalently the counter is zero, from any hint; otherwise the first free frame going round from the hint, and only it, becomes used |
| `FrameAllocation.FrameAllocator.Deallocate` | kernel/src/mm/frame_allocator.rs:282-292 | Out of range, double free and success exactly characterised; success frees that frame alone |
| `FrameAllocation.FrameAllocator.AllocateBelow` | kernel/src/mm/frame_allocator.rs:308-317 | `None` if and only if no frame below the limit is free; otherwise the lowest free frame |
| `FrameAllocation.CyclicOffset` | kernel/src/mm/frame_allocator.rs:270-271 | The wrap-around scan meets every frame within one round |
| `FrameAllocation.DivCeilExact` | kernel/src/mm/frame_allocator.rs:134-134 | The division for bitmap bytes and frames rounds up to the least sufficient number |
| `FrameAllocation.FirstFromMeans` | kernel/src/mm/frame_allocator.rs:265-279 | The scan takes the lowest free frame from the hint up, or, if there is none, the lowest of all |
| `FrameAllocation.FirstFromUnique` | kernel/src/mm/frame_allocator.rs:265-279 | The frame `allocate` gives is determined by the free set, the hint and the number of frames |
| `FrameAllocation.HeldFramesDistinct` | kernel/src/mm/frame_allocator.rs:265-317 | Over every run of calls, frames given back by nobody's holder included, frames held at once are distinct, none is free, and free, held and reserved frames are always all tracked frames |
| `FrameAllocation.DeallocateIsStep` | kernel/src/mm/frame_allocator.rs:282-292 | Every answer of `deallocate`, for any frame, is a step of those runs |
| `FrameInit.FindHighest` | kernel/src/mm/frame_allocator.rs:109-126 | Pass 1 computes the highest end of any trusted entry |
| `FrameInit.HighestEndBounds` | kernel/src/mm/frame_allocator.rs:109-131 | That end bounds every trusted entry and is attained by one; it is zero if and only if no entry is trusted |
| `FrameInit.FindHost` | kernel/src/mm/frame_allocator.rs:143-173 | Pass 2 finds the first conventional entry below 4 GiB that can hold the bitmap, or none exists |
| `FrameInit.FreeConventional` | kernel/src/mm/frame_allocator.rs:204-226 | Pass 3 frees exactly the frames of trusted conventional entries, overlapping or repeated ones included |
| `FrameInit.MarkEntryFree` | kernel/src/mm/frame_allocator.rs:218-225 | One entry's tracked frames become free in addition to those that were, and no others |
| `FrameInit.ReserveFrames` | kernel/src/mm/frame_allocator.rs:232-238 | The bitmap's own frames are taken out again, and only they |
| `FrameInit.Init` | kernel/src/mm/frame_allocator.rs:89-241 | For every map: each error and success exactly characterised; on success the free set is the conventional frames minus the bitmap's |
| `FrameInit.InitIffSuitable` | kernel/src/mm/frame_allocator.rs:89-185 | For every map the firmware writes: initialisation succeeds if and only if the bitmap up to the highest end of a sane entry has at most 64 MiB and fits an entry of type 7 below 4 GiB |
| `FrameInit.InitFromMap` | kernel/src/mm/frame_allocator.rs:89-241 | After success, in terms of the bytes the firmware described: frames are tracked up to the highest end, the bitmap is at the start of the first entry with room, and free are exactly the frames of type 7 outside it |
| `FrameInit.BitmapPlaced` | kernel/src/mm/frame_allocator.rs:139-185 | The bitmap's whole frames lie in one conventional entry below 4 GiB |
| `FrameInit.BitmapReserved` | kernel/src/mm/frame_allocator.rs:228-238 | No byte of the bitmap lies in a free frame |
| `FrameInit.TrackedFrame` | kernel/src/mm/frame_allocator.rs:133-137 | Every frame that can be handed out is tracked, below 2^41, and survives the address mask of a page-table entry |
| `PageTables.WalkFrame` | kernel/src/mm/vmm.rs:207-249 | Writes off a walk's route do not change where it leads |
| `PageTables.ResolveFrame` | kernel/src/mm/vmm.rs:363-402 | A lookup depends only on the entries along its path |
| `PageTables.InstallTable` | kernel/src/mm/vmm.rs:228-248 | Hooking a zeroed table into an absent slot changes no mapping anywhere; on every path through that slot one table fewer is missing |
| `PageTables.InstallTree` | kernel/src/mm/vmm.rs:228-248 | The tables are still a tree afterwards, the new page labelled by its path |
| `PageTables.SetLeaf` | kernel/src/mm/vmm.rs:283-293 | Writing a last-level entry changes one page's mapping, keeps the tree, and changes no other page |
| `PageTables.OpenRights` | kernel/src/mm/vmm.rs:228-248 | If every pointer from table to table is writable and executable, the processor permits what the last entry permits |
| `PageTables.InstallOpen` | kernel/src/mm/page_table_entry.rs:109-113 | A table hooked in by `map` keeps it so |
| `AddressSpace.Huge2MAddress` | kernel/src/mm/vmm.rs:388-393 | The mask expression for a 2 MiB page is base plus offset |
| `AddressSpace.Huge1GAddress` | kernel/src/mm/vmm.rs:376-381 | The same for a 1 GiB page |
| `AddressSpace.LeafAddress` | kernel/src/mm/vmm.rs:401-401 | The same for a 4 KiB page |
| `AddressSpace.MapIsPointUpdate` | kernel/src/mm/vmm.rs:261-296 | A successful `map` gives the requested frame and flags on that page and leaves `translate` and `flags_at` unchanged on every other low-48-bit page |
| `AddressSpace.MapTranslatesIff` | kernel/src/mm/vmm.rs:283-293 | After a successful `map` the page translates to the requested address if and only if that address is below 2^52 |
| `AddressSpace.FailedMapInvisible` | kernel/src/mm/vmm.rs:213-281 | Every error path leaves `translate` and `flags_at` unchanged at all addresses and uses exactly one frame per table added |
| `AddressSpace.RetryReusesTables` | kernel/src/mm/vmm.rs:228-248 | After an attempt that ran out of frames, a retry needs exactly as many fewer tables as were added, and succeeds if and only if that many low frames are free |
| `AddressSpace.OutOfFramesSpendsAll` | kernel/src/mm/vmm.rs:228-230 | `map` gives up for want of frames only after spending the last free frame below 4 GiB |
| `AddressSpace.SpentAreTables` | kernel/src/mm/vmm.rs:228-248 | Every frame that `map` uses up became a page table |
| `AddressSpace.TablesUntouched` | kernel/src/mm/vmm.rs:363-402 | A memory write outside all table pages changes no translation and keeps the tree |
| `AddressSpace.UnmapIffQueryable` | kernel/src/mm/vmm.rs:304-447 | `unmap` succeeds if and only if the address is aligned and `flags_at` answers |
| `AddressSpace.UnmapReturnsFrame` | kernel/src/mm/vmm.rs:304-402 | It returns what `translate` answered, after which `translate` answers nothing |
| `AddressSpace.UnmapUndoesMap` | kernel/src/mm/vmm.rs:261-354 | `unmap` after `map` restores the whole address space and returns the frame |
| `AddressSpace.MapAnswerMeans` | kernel/src/mm/vmm.rs:261-296 | Each answer of `map` in terms of the queries: refused for a 4 KiB page exactly where `flags_at` answers, for a huge page exactly where only `translate` answers, and otherwise there was no translation |
| `AddressSpace.UnmapAnswerMeans` | kernel/src/mm/vmm.rs:304-354 | The same for `unmap` |
| `AddressSpace.MapGivesAccess` | kernel/src/mm/vmm.rs:261-296 | A successful `map` makes the processor permit exactly the requested flags on its page, through all levels, and changes nothing elsewhere |
| `AddressSpace.UnmapTakesAccess` | kernel/src/mm/vmm.rs:304-354 | `unmap` takes the permissions of its page away and no others |
| `AddressSpace.RunKeepsOpen` | kernel/src/mm/vmm.rs:207-354 | No finite run makes a pointer to a table restrictive |
| `AddressSpace.StepKeepsHuge` | kernel/src/mm/vmm.rs:207-354 | No call and no frame traffic changes a huge page or breaks the tree |
| `AddressSpace.RunKeepsHuge` | kernel/src/mm/vmm.rs:207-354 | The same over every finite run |
| `VirtualMemory.PhysMemory.ZeroTable` | kernel/src/mm/vmm.rs:103-107 | All 512 entries of the table are zero and no other word changed |
| `VirtualMemory.Vmm.GetOrCreateTable` | kernel/src/mm/vmm.rs:207-249 | Stops with the right error and no change, follows the pointer, or hooks in one fresh table without changing any mapping |
| `VirtualMemory.Vmm.CreateTable` | kernel/src/mm/vmm.rs:228-248 | The new table is a free frame below 4 GiB, distinct from every table, used afterwards, and reached at its path |
| `VirtualMemory.Vmm.Map` | kernel/src/mm/vmm.rs:261-296 | The answer as a function of the state, the point update or unchanged view, and one used frame per added table; the tables stay a tree of used frames, and no pointer to a table becomes restrictive |
| `VirtualMemory.Vmm.WriteLeaf` | kernel/src/mm/vmm.rs:276-293 | The last level: unreachable, already mapped, or a point update, in terms of the state before the walk |
| `VirtualMemory.Vmm.Unmap` | kernel/src/mm/vmm.rs:304-354 | Each answer exactly characterised by the mapping there; success removes that mapping alone |
| `VirtualMemory.Vmm.FindPageTable` | kernel/src/mm/vmm.rs:309-337 | The walk reaches the page table that the path leads to, or stops with the error the mapping there calls for |
| `VirtualMemory.Vmm.UnmapLeaf` | kernel/src/mm/vmm.rs:337-353 | The last level: unreachable, absent without change, or exactly that mapping removed and its frame returned |
| `VirtualMemory.Vmm.Translate` | kernel/src/mm/vmm.rs:363-402 | The hand-written walk agrees with the reference lookup at every address |
| `VirtualMemory.Vmm.QueryFlags` | kernel/src/mm/vmm.rs:412-447 | So does `flags_at`, answering for 4 KiB leaves only |
| `HardwareWalk.HardwareAgrees` | kernel/src/mm/vmm.rs:363-402 | The walk of the processor, written with masks and shifts on raw memory words, reaches the address that `translate` must answer, with the writable bits of all levels and-ed and the no-execute bits or-ed, and faults where there is none |
| `FreeList.NodeIsMaximal` | kernel/src/mm/linked_list_allocator.rs:71-76 | Each node of a well-formed list is a maximal interval of free bytes |
| `FreeList.Canonical` | kernel/src/mm/linked_list_allocator.rs:71-76 | Two well-formed lists with the same free bytes are equal |
| `FreeList.InsertCorrect` | kernel/src/mm/linked_list_allocator.rs:95-150 | Adding a region keeps the list sorted, disjoint, never adjacent and aligned, and adds exactly its bytes |
| `FreeList.FirstFitExact` | kernel/src/mm/linked_list_allocator.rs:170-206 | The search finds the lowest aligned address at which the bytes are free, and nothing only when there is none |
| `FreeList.OverflowExact` | kernel/src/mm/linked_list_allocator.rs:170-176 | With overflow checks the search panics if and only if no node has room and some node has `start + align` at 2^64 or above |
| `WrappingSearch.ExactFitLowest` | kernel/src/mm/linked_list_allocator.rs:170-206 | The search in unbounded arithmetic finds the lowest aligned address at which the bytes are free |
| `WrappingSearch.WrappingExactIff` | kernel/src/mm/linked_list_allocator.rs:32-34 | Without overflow checks the search agrees with the one in unbounded arithmetic if and only if it reaches no node whose rounding wraps; if it reaches one, it answers address 0 |
| `WrappingSearch.CheckedExact` | kernel/src/mm/linked_list_allocator.rs:32-34 | With overflow checks it agrees whenever it does not panic |
| `WrappingSearch.WrappingAgreesWithChecked` | kernel/src/mm/linked_list_allocator.rs:32-34 | The two builds agree whenever the checked one does not panic |
| `WrappingSearch.WrappedGap` | kernel/src/mm/linked_list_allocator.rs:184-195 | The gap that a wrapped answer leaves before the block is large enough for a node and reaches the last byte of the address space, which was not free |
| `FreeList.CarveCovers` | kernel/src/mm/linked_list_allocator.rs:178-197 | Taking a block removes its bytes and the lost gaps from the free bytes, and nothing else |
| `FreeList.CarveByInserts` | kernel/src/mm/linked_list_allocator.rs:181-195 | Unlinking the node and adding both leftovers back gives exactly the carved list |
| `HeapLedger.Adjusted` | kernel/src/mm/linked_list_allocator.rs:43-50 | Panics exactly when padding leaves `isize`; otherwise the alignment is the larger of the request's and 8, and the size is the least multiple of it that covers the request, or 16 if that is less |
| `HeapLedger.FreeOrderIrrelevant` | kernel/src/mm/linked_list_allocator.rs:329-376 | Freeing the same blocks in any two orders gives the same list |
| `HeapLedger.FreeUndoesAlloc` | kernel/src/mm/linked_list_allocator.rs:184-221 | Freeing straight after allocating restores the list if and only if neither gap was lost |
| `HeapLedger.GrownBalanced` | kernel/src/mm/linked_list_allocator.rs:95-150 | Adding a fresh region keeps bytes given = free + live + lost and all of them apart |
| `HeapLedger.TakenBalanced` | kernel/src/mm/linked_list_allocator.rs:163-206 | So does allocating |
| `HeapLedger.ReleasedBalanced` | kernel/src/mm/linked_list_allocator.rs:218-221 | So does freeing a live block |
| `HeapLedger.RunBalanced` | kernel/src/mm/linked_list_allocator.rs:95-221 | Conservation, separation of live blocks and canonical form over every history |
| `HeapLedger.LossPerCall` | kernel/src/mm/linked_list_allocator.rs:184-197 | In every history over regions of whole 8-byte units, each `alloc` loses 0, 8 or 16 bytes and no other call loses any |
| `IntrusiveList.LinkedListAllocator.constructor` | kernel/src/mm/linked_list_allocator.rs:62-69 | A new allocator has an empty list |
| `IntrusiveList.LinkedListAllocator.FindPosition` | kernel/src/mm/linked_list_allocator.rs:111-115 | The walk stops at the last node below the address |
| `IntrusiveList.LinkedListAllocator.AddFreeRegion` | kernel/src/mm/linked_list_allocator.rs:95-150 | The in-memory list becomes the list with the region inserted and merged on either side; the assertions fail exactly on misaligned or undersized regions; memory outside free bytes is untouched |
| `IntrusiveList.LinkedListAllocator.Link` | kernel/src/mm/linked_list_allocator.rs:115-149 | Whichever neighbours it touches, the nodes in memory are the merged list |
| `IntrusiveList.LinkedListAllocator.Extend` | kernel/src/mm/linked_list_allocator.rs:122-131 | Growing the node before, with or without absorbing the one after, writes exactly the merged node |
| `IntrusiveList.LinkedListAllocator.InsertNode` | kernel/src/mm/linked_list_allocator.rs:132-148 | Writing a node at the region, with or without absorbing the one after, and linking it from the one before |
| `IntrusiveList.LinkedListAllocator.Alloc` | kernel/src/mm/linked_list_allocator.rs:163-206 | With overflow checks: refines the first-fit search and carve on the list, writing only inside bytes that were free; no change on null or panic |
| `IntrusiveList.LinkedListAllocator.FindWrapping` | kernel/src/mm/linked_list_allocator.rs:168-206 | Without overflow checks: the loop over the nodes in memory finds what the wrapping search finds on the list |
| `IntrusiveList.LinkedListAllocator.Take` | kernel/src/mm/linked_list_allocator.rs:178-197 | Unlinking and re-adding the leftovers in place gives the carved list |
| `IntrusiveList.LinkedListAllocator.Unlink` | kernel/src/mm/linked_list_allocator.rs:181-182 | Bypassing a node gives the list without it |
| `IntrusiveList.LinkedListAllocator.KeepLeftover` | kernel/src/mm/linked_list_allocator.rs:184-195 | A leftover is added back if it can hold a node and is lost otherwise |
| `IntrusiveList.LinkedListAllocator.Dealloc` | kernel/src/mm/linked_list_allocator.rs:218-221 | Inserts the block with the size that `alloc` reserved for that layout |
| `IntrusiveList.StoreKeepsLinks` | kernel/src/mm/linked_list_allocator.rs:26-30 | Headers are aligned words inside free memory, so a write to any aligned word that is not free leaves the list intact |
| `IntrusiveList.AllocExact` | kernel/src/mm/linked_list_allocator.rs:163-206 | Null if and only if the adjusted request can be placed nowhere; otherwise the lowest address where it can |
| `IntrusiveList.AllocPanics` | kernel/src/mm/linked_list_allocator.rs:32-50 | With overflow checks `alloc` panics if and only if padding overflows, or no node has room and some node has `start + align` at 2^64 or above |
| `HeapSpace.PageMapped` | kernel/src/mm/heap.rs:101-116 | One page of growth extends the region's backing by one distinct used frame |
| `HeapSpace.PageFailed` | kernel/src/mm/heap.rs:107-114 | A failed page changes no mapping; only frames that became tables are missing |
| `HeapSpace.PageUnwound` | kernel/src/mm/heap.rs:139-150 | Unwinding a page succeeds, unmaps it, and leaves its frame used |
| `KernelHeaps.GrowthPages` | kernel/src/mm/heap.rs:79-81 | At least 16 pages, at least the bytes requested, and no page more than either needs |
| `KernelHeaps.KernelHeap.constructor` | kernel/src/mm/heap.rs:62-69 | A new heap is valid before the globals are populated |
| `KernelHeaps.KernelHeap.Populate` | kernel/src/main.rs:521-522 | Publishing allocator and manager gives a ready, empty heap |
| `KernelHeaps.KernelHeap.MapPages` | kernel/src/mm/heap.rs:100-116 | All pages become backed by distinct frames, or every translation is as before and exactly the frames of the pages mapped and of the tables added are gone; whether any page had been mapped is known from the low frames and the first frame the allocator gives |
| `KernelHeaps.KernelHeap.MapNextPage` | kernel/src/mm/heap.rs:101-115 | One turn of the loop, with the first frame taken since the growth began |
| `KernelHeaps.KernelHeap.MapOnePage` | kernel/src/mm/heap.rs:102-115 | One page more is backed by a frame of its own, or nothing but added tables changed and memory is used up; frames in use stay used, old tables stay, memory changes in tables only |
| `KernelHeaps.KernelHeap.GiveBack` | kernel/src/mm/heap.rs:111-111 | The frame of a failed page is free again |
| `KernelHeaps.KernelHeap.UnwindPartialGrowth` | kernel/src/mm/heap.rs:139-150 | Every translation is back to what it was before the growth; no frame is returned |
| `KernelHeaps.KernelHeap.TakeBack` | kernel/src/mm/heap.rs:103-113 | After a failed page, the pages mapped so far are unmapped and their frames are neither free nor tables |
| `KernelHeaps.KernelHeap.Grow` | kernel/src/mm/heap.rs:78-129 | Success hands the region past the cursor to the free list and changes no other page; failure leaves list, cursor and every translation unchanged. Either way exactly the frames of the pages mapped and of new tables left the free set, and no other frame, table or word changed. The frames a failure drops are those mapped at its peak: distinct, free before, neither free nor tables after. It fails only if the region is too small or the low frames are used up, and whether it drops any frame is decided by the first page |
| `KernelHeaps.KernelHeap.MapAndExtend` | kernel/src/mm/heap.rs:96-128 | The part of `grow` behind its checks, with the same outcome; no word of a live block changes |
| `KernelHeaps.KernelHeap.Extend` | kernel/src/mm/heap.rs:118-128 | The mapped region goes to the free list and the cursor passes it |
| `KernelHeaps.KernelHeap.Alloc` | kernel/src/mm/heap.rs:160-180 | Growth is tried exactly when the first attempt finds nothing, at most once, and the second attempt runs in the grown heap; the invariant is kept and no word of a live block changes |
| `KernelHeaps.KernelHeap.GrowAndRetry` | kernel/src/mm/heap.rs:168-179 | The second half of `alloc`, from a heap in which nothing fits |
| `KernelHeaps.KernelHeap.Retry` | kernel/src/mm/heap.rs:179-179 | The second attempt if the heap has grown, null otherwise; live words are untouched since before the growth |
| `KernelHeaps.KernelHeap.Dealloc` | kernel/src/mm/heap.rs:182-184 | The live block becomes free, nothing else changes, and no word of another live block changes |
| `KernelHeaps.KernelHeap.Store` | kernel/src/mm/linked_list_allocator.rs:243-256 | Writing an aligned word of a live block leaves the list and the heap's state intact |
| `KernelHeaps.LiveWordWhole` | kernel/src/mm/linked_list_allocator.rs:26-50 | An aligned word with one live byte lies inside one live block and outside the free bytes, so aligned words of different owners never overlap |
| `KernelHeaps.GrowthIsFresh` | kernel/src/mm/heap.rs:119-127 | The region past the cursor has never been given to the allocator |
| `HeapRuns.HeapNeverRoundsOver` | kernel/src/mm/linked_list_allocator.rs:32-34 | In the heap region no alignment up to 2^31 makes rounding overflow |
| `HeapRuns.PlaceableAfterGrowth` | kernel/src/mm/heap.rs:172-179 | After a growth the request fits at the start of the new region, merged backward or not |
| `HeapRuns.NullIffGrowthFailed` | kernel/src/mm/heap.rs:160-180 | For alignments up to a page, `alloc` returns null if and only if `grow` failed, and grows if and only if the request fits nowhere |
| `HeapRuns.NullMeansExhausted` | kernel/src/mm/heap.rs:160-180 | Such a null answer means that the heap region or the frames below 4 GiB are used up |
| `HeapRuns.RetryExact` | kernel/src/mm/heap.rs:172-179 | For every alignment up to 2^31, after a successful growth the answer is null if and only if the request, aligned up from the free tail before the cursor, ends past the new region |
| `HeapRuns.NullExact` | kernel/src/mm/heap.rs:160-180 | For every alignment up to 2^31, null means exactly that growth failed or that the retry did not fit; "null if and only if growth failed" holds of a call if and only if it fits there or growth did not succeed |
| `HeapRuns.EnoughFramesToGrow` | kernel/src/mm/heap.rs:96-117 | With room in the region and more than four free low frames per page, growth succeeds |
| `HeapRuns.RetryFailsAtBoot` | kernel/src/mm/heap.rs:172-179 | One byte aligned to 128 KiB in a freshly booted heap: growth succeeds and the answer is null |
| `HeapRuns.LossExact` | kernel/src/mm/heap.rs:103-150 | A failed growth with room in the region loses frames if and only if the low frames, without the first frame given, are enough for the tables its first page needs; settled by their number alone except when it equals that need |
| `HeapRuns.TooFewFramesToGrow` | kernel/src/mm/heap.rs:100-116 | With fewer free frames than pages to map, growth fails |
| `HeapRuns.LossAtBoot` | kernel/src/mm/heap.rs:131-150 | In every freshly booted heap with five low frames but fewer than sixteen free ones, growth for up to 64 KiB fails and loses frames that were free |
| `HeapRuns.BothBuildsAgree` | kernel/src/mm/linked_list_allocator.rs:32-34 | In the heap, for alignments up to 2^31, the search gives the same answer with and without overflow checks, the one of unbounded arithmetic |
| `HeapRuns.OverflowAtBoot` | kernel/src/mm/linked_list_allocator.rs:32-34 | One byte aligned to 2^47 in a freshly booted heap: the heap grows, a build with overflow checks panics, one without takes the new node for a block at address 0 |
| `HeapRuns.HeapByteMapped` | kernel/src/mm/heap.rs:96-127 | Every free or live byte lies in the region from 0xFFFF_8800_0000_0000 up to the cursor and is mapped to the used frame of its own page, which is no table; its entry and the processor permit writing and execution |
| `HeapRuns.HeapBytesDistinct` | kernel/src/mm/heap.rs:96-127 | No two heap bytes share a physical byte |
| `HeapRuns.HeapByteForever` | kernel/src/mm/heap.rs:78-184 | Over every run, a heap byte once mapped stays mapped, writable, to the same physical byte |
| `HeapRuns.StoreNeverFaults` | kernel/src/mm/heap.rs:108-108 | Every word of the heap can be written at any time: the store step, which needs a writable translation through all levels, is always possible |
| `HeapRuns.LiveWordForever` | kernel/src/mm/heap.rs:160-184 | Over every run of calls and of aligned writes by owners, a word of a block that stays live keeps its value until its owner writes to it |
| `HeapRuns.StoredOk` | kernel/src/mm/heap.rs:96-127 | A word written to physical memory through any heap address changes no page-table entry, no translation, and keeps the heap-wide invariant |
| `HeapRuns.StoredWord` | kernel/src/mm/heap.rs:96-127 | It changes the physical word behind its own address and behind no other aligned heap address |
| `HeapRuns.PhysicalWordForever` | kernel/src/mm/heap.rs:78-184 | Over every run, the physical word behind an aligned heap address in a frame below 4 GiB holds what was last stored through that address, or its initial content; growth, unwinding and page-table writes never touch it, and it never moves |
| `HeapRuns.LiveWordInMemory` | kernel/src/mm/heap.rs:160-184 | Over every run, the word of a block that stays live and the physical word behind it agree |
| `HeapRuns.GrowthNeverMeetsMapping` | kernel/src/mm/heap.rs:101-114 | Mapping a page past the cursor never meets an existing mapping, also after failed growths |
| `HeapRuns.OthersKeepHeap` | kernel/src/mm/heap.rs:31-41 | Mapping outside the region and frame traffic of others keep the heap's invariant |
| `HeapRuns.StepKeepsHeap` | kernel/src/mm/heap.rs:78-184 | So do every call and every store through a heap address |
| `HeapRuns.HeapOkForever` | kernel/src/mm/heap.rs:78-184 | The heap-wide invariant over every run from boot |
| `BootPaging.AllocateZeroedPage` | boot/paging.c:33-46 | The granted page is an empty table, if it is in modelled memory, and nothing else changed |
| `BootPaging.FillHugePages` | boot/paging.c:75-78 | Entry by entry: the OR expression of the loader for the first `count` consecutive 2 MiB pages, zero for the rest |
| `BootPaging.BuildIdentityPd` | boot/paging.c:70-80 | Fails exactly if the page was not granted; otherwise, with tables below 4 GiB, one GiB more of the identity map is complete and hooked up |
| `BootPaging.BuildKernelHalf` | boot/paging.c:83-124 | Fails exactly on a missing page or an image beyond one directory; otherwise, with tables below 4 GiB, the kernel's tables are exact and the identity map is kept |
| `BootPaging.BuildKernelPageTables` | boot/paging.c:48-125 | Wherever the pages lie, succeeds if and only if every page was granted and the image fits one directory, and memory outside them is untouched; if they are below 4 GiB, all eight tables are then exact |
| `BootPaging.BootTree` | boot/paging.c:48-125 | The eight tables are a tree, and every pointer in it is writable and executable |
| `BootPaging.BootSpace` | boot/paging.c:59-118 | The initial mapping of every page: identity below 4 GiB, the kernel's pages, nothing else |
| `BootPaging.BootTranslation` | boot/paging.c:59-118 | The initial address space by the low 48 bits of an address: identity below 4 GiB, the kernel's pages from 0xFFFF_8000_0000, nothing else; whatever is mapped is writable and executable |
| `BootPaging.IdentityMapForever` | boot/paging.c:59-81 | Every finite run of `map`, `unmap` and frame traffic keeps every address below 4 GiB mapped to itself, writable and executable |
| `BootPaging.KernelMapForever` | boot/paging.c:83-118 | The same for every byte of the higher-half kernel mapping |
| `KernelLoader.HeaderRoundTrip` | boot/include/elf.h:54-69 | Reading an ELF header recovers every field used, whatever the others hold |
| `KernelLoader.SegmentRoundTrip` | boot/include/elf.h:71-83 | The same for program headers |
| `KernelLoader.FileRoundTrip` | boot/kernel_loader.c:114-120 | The loader sees the program headers that the linker wrote: any number of them, at any stride, wherever they start and whatever the other bytes hold |
| `KernelLoader.AcceptedHeader` | boot/kernel_loader.c:17-40 | A header passes if and only if its bytes hold the ELF magic, 64-bit little-endian, type 2, machine 62 and a number and a size of program headers |
| `KernelLoader.AcceptedIff` | boot/kernel_loader.c:98-160 | For segments that do not wrap: the file is accepted if and only if its header passes, something is loaded, all of it from the kernel's base up and within 1 GiB, and the entry point lies between its first and last byte |
| `KernelLoader.FindSpan` | boot/kernel_loader.c:114-146 | Rejects exactly the files with a segment below the base or no segment; otherwise returns lowest start and highest end |
| `KernelLoader.SpanExact` | boot/kernel_loader.c:114-141 | Those two are bounds on all segments and are attained |
| `KernelLoader.MakePlan` | boot/kernel_loader.c:98-160 | Accepts exactly the files that pass every test, with lowest address, rounded size and entry point |
| `KernelLoader.PlanExact` | boot/kernel_loader.c:148-160 | An accepted image is the fewest whole 2 MiB pages from the lowest segment to the highest end, at most 1 GiB, and its entry point is the one in the file's header, inside the image |
| `KernelLoader.PlanHoldsImage` | boot/kernel_loader.c:148-160 | If the file is well formed, the image holds every segment, and every copy reads inside the file and writes inside the image |
| `KernelLoader.RoundedBaseFits` | boot/kernel_loader.c:167-175 | The rounded-up base plus the image always fits the over-allocation |
| `KernelLoader.ZeroBytes` | boot/kernel_loader.c:182-185 | The destination is zero and nothing else changed |
| `KernelLoader.CopyBytes` | boot/kernel_loader.c:194-200 | The destination holds the file's bytes and nothing else changed |
| `KernelLoader.PlaceSegments` | boot/kernel_loader.c:182-203 | Every byte of the image is the last segment's file byte there or zero; memory outside the image is untouched |
| `KernelLoader.PlaceSegment` | boot/kernel_loader.c:187-203 | One segment more is in place, over those before it |
| `KernelLoader.LoadKernelElf` | boot/kernel_loader.c:97-222 | Succeeds if and only if the file is accepted and the allocation granted; then base, size, entry and every image byte are exact; otherwise memory is untouched |
| `KernelLoader.ImageByteOfSegment` | boot/kernel_loader.c:187-203 | With disjoint segments, byte `b` of a segment is its file byte, or zero past the file's part |
| `KernelImage.WholeImageMapped` | boot/paging.c:97-115 | For every accepted file the page count of the tables is exactly the image's number of 2 MiB pages |
| `KernelImage.ReachedIffLowestIsBase` | boot/paging.c:97-118 | For every accepted file and wherever it was loaded, each byte of its image is reached at its virtual address if and only if the file's lowest segment is at the kernel's virtual base |
| `KernelImage.EveryBaseAccepted` | boot/kernel_loader.c:125-160 | For every address from the base up to 2^64 - 2 there is a well-formed file that the loader accepts with its lowest segment there |
| `KernelImage.RamByteOf` | boot/kernel_loader.c:182-200 | Bytes written to memory are the bytes of its words |
| `KernelImage.LoadedInRam` | boot/kernel_loader.c:177-203 | What the loader wrote is the image in the memory the page tables refer to |
| `KernelImage.TablesSpareImage` | boot/paging.c:48-125 | Building the page tables leaves the image's bytes alone |
| `KernelImage.StepSparesImage` | kernel/src/mm/vmm.rs:207-354 | No call of the manager and no frame traffic that spares the kernel's frames touches its image |
| `SystemRuns.HeapStepKeepsHuge` | kernel/src/mm/heap.rs:78-150 | No heap call, successful or failing, no store through a heap address and nobody else changes a huge page |
| `SystemRuns.IdentityMapWithHeap` | boot/paging.c:59-81 | The identity map of the first 4 GiB, writable and executable, over every run from boot that includes heap growth and stores |
| `SystemRuns.KernelMapWithHeap` | boot/paging.c:83-118 | The same for every byte of the kernel mapping |
| `SystemRuns.RunSparesImage` | kernel/src/mm/heap.rs:78-184 | Over every run in which nobody frees the frames of a range reserved at boot, such as the kernel's image or the bitmap, its words stay, and no free frame, table or heap page ever lies in it |
| `SystemRuns.HeapBytesApart` | kernel/src/mm/heap.rs:96-127 | After any run from boot, every heap byte is mapped to a physical byte outside the page tables, the free frames and the reserved range |
| `SystemRuns.StoreSparesImage` | kernel/src/mm/heap.rs:96-127 | A store through a heap address changes no word of the reserved range |
| `SystemRuns.SegmentByteForever` | boot/kernel_loader.c:177-203 | From the loader's answer: after any run from boot, reading a segment's byte through its virtual address gives the file's byte or zero |
| `ExitBootServices.PlanBuffer` | boot/memory_map.c:43-51 | The size asked for is the map and eight descriptors more; any granted buffer holds it; a size whose rounding wraps asks for no page |
| `ExitBootServices.TryExit` | boot/memory_map.c:29-87 | One attempt: hands over the current map with its stride, or frees its buffer, or gives up exactly without descriptors or buffer, or has left with a stride of zero to divide by |
| `ExitBootServices.ExitWithBuffer` | boot/memory_map.c:59-87 | The attempt from the granted buffer on: stale exactly if services are still active, and then the buffer is freed |
| `ExitBootServices.ExitBootServicesWithRetry` | boot/memory_map.c:20-91 | Against every firmware whose map, key and stride change together: success means services ended with the map current at that moment, in exactly one additional buffer below 4 GiB that holds it; failure means services active and every buffer freed, because no descriptors were reported, a buffer was refused or five attempts were stale; a division by zero means services ended with a stride of zero; at most five exit calls; a calm firmware is left at the first |
| `SpinLock.StepExclusive` | kernel/src/sync/spinlock.rs:46-94 | Every step keeps each flag set exactly while one thread has the guard |
| `SpinLock.SomeoneAdvances` | kernel/src/sync/spinlock.rs:46-61 | If all programs take locks in increasing order, an unfinished thread implies a thread that can advance |
| `SpinLock.CanFinish` | kernel/src/sync/spinlock.rs:46-94 | From every such state some schedule finishes every thread |
| `SpinLock.ProgramOrdered` | kernel/src/mm/heap.rs:89-184 | Every call of the memory manager, whichever way it goes, takes its locks in the order heap, frame allocator, manager, touches data only under its lock, and drops them all |
| `SpinLock.ProgramEffects` | kernel/src/mm/heap.rs:78-184 | Which data each call touches, access by access, and that it takes a lock if and only if it touches what the lock protects |
| `SpinLock.NeverRaces` | kernel/src/mm/heap.rs:153-184 | For any number of threads making any calls, in every interleaving a thread about to touch the free list, the frames or the tables has the guard of its lock, and no other thread has it or is about to touch them |
| `SpinLock.NeverDeadlocked` | kernel/src/mm/heap.rs:89-184 | For any number of threads making any calls, every interleaving keeps at most one guard per lock and never deadlocks |
| `SpinLock.AlwaysCompletable` | kernel/src/mm/heap.rs:89-184 | Every interleaving can still be completed |
| `Startup.Start` | kernel/src/main.rs:463-522 | Frame allocator, manager and heap compose on the boot tables: the heap is ready if and only if the map can be initialised from, in the state every run starts from; the image is reserved, and the bitmap's frames are neither free nor tables nor the image's |
| `Startup.Boot` | boot/main.c:175-261 | The whole way from the kernel's file to a ready heap in the loader's order: the heap is ready if and only if the file loads, all table pages were granted, and boot services ended with a map that can be started from; the memory then holds the file's image, mapped and reserved, with the bitmap apart |
| `Startup.HandOff` | boot/memory_map.c:73-83 | The map handed over is consistent with its size, and readable from a stride of 32 bytes |
| `Startup.BitmapKeptApart` | kernel/src/mm/frame_allocator.rs:228-238 | The whole frames under the bitmap lie below 4 GiB and are not free, no page tables and no part of the image |
| `Startup.StartLoaded` | kernel/src/main.rs:463-522 | The kernel's side of it, from the map that was handed over, keeps the loaded image |
| `Startup.Publish` | kernel/src/main.rs:503-522 | Adopting the tables in force and publishing manager and allocator gives a ready, empty heap on exactly that state |

## Left out

- TLB invalidation, CR3, EFER and the trampoline: hardware behaviour; table writes take effect at once.
- Header writes of the allocator: in the runs that reach physical memory they are stores of their own through heap addresses, not part of the `alloc` or `dealloc` step; words in frames at or above 4 GiB are in no modelled memory.
- FrameInit.Init: the bitmap is an array of its own rather than part of the modelled physical memory; that no free frame, table, heap page or image frame ever overlaps its place is proved. The bytes the iterator reads must be readable.
- MemoryMap.MemoryMapIter.Next: the bytes it reads must be readable, as it does not test them.
- The memory-map buffer: it is a byte sequence that lasts; its own frames are not tracked.
- UEFI file and pool calls: loading starts from the bytes of the file, and the firmware's page allocator appears as a function or a nondeterministic object.
- BootPaging.AllocateZeroedPage: what is written to a page granted at or above 4 GiB is not modelled, as the modelled memory ends there; the kernel could not reach such a table.
- BootPaging.BuildIdentityPd: likewise, so the tables' contents are stated for pages below 4 GiB.
- BootPaging.BuildKernelHalf: likewise.
- BootPaging.BuildKernelPageTables: likewise.
- KernelLoader.FindSpan: program headers must lie in the file, as the loader reads them without a test.
- KernelLoader.MakePlan: the same, once the ELF header has passed its tests.
- KernelLoader.LoadKernelElf: the same, and for an accepted file every copy must read inside the file and write inside the image, as the loader copies without a test; the acceptance tests themselves are modelled for wrapped sums too.
- KernelLoader.AcceptedIff: speaks of segments whose ends do not wrap around the address space; for the others `PlanOf` follows the 64-bit sums of the loader.
- SpinLock.ProgramEffects: the frame that `map` takes for a new table is not an access of its own; both guards are held then.
- IntrusiveList.LinkedListAllocator.Alloc: the whole call is modelled with overflow checks on. For a build without them the search is modelled (`FindWrapping`) and the first gap it leaves (`WrappedGap`); what a call that took a wrapped answer then does to memory is not, and `HeapRuns.BothBuildsAgree` shows that no such call arises in the heap for alignments up to 2^31.
- IntrusiveList.AllocPanics: speaks of a build with overflow checks; `WrappingSearch` covers the other.
- Startup.Boot: the pages for BootInfo and the stack, whose refusal also stops the loader, are not modelled; the table pages are below 4 GiB, and the firmware keeps its promises: every map it can still report has descriptors of at least 32 bytes, and lists no memory it granted to the loader as conventional.
- Startup.Start: likewise; it starts from the tables that `BootPaging.BuildKernelPageTables` builds.
- The spin loop as code: waiting is a step of the interleaving machine that may repeat, so nothing is said about fairness, and memory orderings weaker than sequential consistency are not modelled.
- The read-only test page of the boot self-test: it maps inside the heap region, which the heap's runs exclude for others.
- Boot self-tests, serial output, GDT, IDT, exception handlers and BootInfo checks: they would only add device I/O, fixed tables and single-branch checks.
- The scheduler: a design document without code.
