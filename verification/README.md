# piggyOS: a verified model of its memory stack and smaller cores

piggyOS is an i686 kernel. This project models the parts of it whose correctness is not visible from
one function at a time, and proves properties of every call, every run or every reachable state.

**The memory stack.** A boundary-tag heap (`kernel/memory/kheap.c`) grows through `ksbrk`, which maps
pages (`kernel/memory/vmm.c`), which takes frames from a bitmap allocator (`kernel/memory/pmm.c`) and,
when a page table is missing, allocates it from the very heap that is being grown. The model keeps
one flat memory of 2^32 bytes holding headers, trailers, free-list links and payloads, the page
directory in both of its forms (hardware entries and the kernel's pointers beside them), the bitmap and
the two heap boundaries. The main results:

- Every `malloc`, `free` and `realloc` keeps the heap well formed: blocks tile
  [heap_start, heap_curr), trailers equal headers, the doubly linked free list holds exactly the
  free blocks once each, head and tail are the first and the last block, no two neighbours are free,
  sizes are positive multiples of 16 (`Heap.dfy`, `HeapSteps.dfy`, `Kernel.dfy`).
- `ksbrk` returns fresh, fully mapped memory even when `allocate_page` re-enters `malloc` and `ksbrk`
  for a page table, and pages already mapped keep their frames (`Kernel.Ksbrk`). Each restart leaves
  fewer absent page tables.
- `malloc` does not always return: in a stuck state it nests requests for page tables without end.
  Every method of the stack takes the number of nested requests the caller allows for and answers
  `Deep` when it is used up. A stuck state gives `Deep` for every number, any other state never does
  once one nested request is allowed, so malloc returns if and only if the state before the call is
  not stuck (`Hangs`). `WouldHang` decides that in advance and `HangAfterBoot` gets there from
  power-on with one allocation.
- When growing the heap succeeds is decided by the state before: exactly, if no page table has to be
  allocated (`CanGrow`, `TableServes`), and sufficiently otherwise (`Plenty`), from two laws of growth:
  every frame taken maps a page of the heap window, and the boundary moves by no more than the request
  and the page tables added.
- Any run of allocations, releases, resizes and writes behaves as a plain map from pointers to byte
  strings would (`HeapRun.Run`): live payloads are disjoint, keep their bytes across operations on
  other pointers, every exit of `realloc` keeps the common prefix, and memory is denied only where
  the state before does not guarantee it.
- The kernel's lookup `virt2phys` and the processor's page walk agree at every address in every valid
  state; after `vmm_init` the first 12 MiB of the kernel translate by va - KERN_BASE. Over any run of
  allocate_page and free_page with the heap on, distinct owned pages have distinct frames and a bitmap
  bit is set exactly for an owned frame; allocating a region and freeing it restores the bitmap
  exactly when no heap page had to be mapped for page tables (`Paging.dfy`, `Vmm.dfy`, `PageRun.dfy`,
  `HeapRun.Boot`).
- Access rights, as the processor combines them from page and directory entry (`Paging.Access`): a page
  mapped anew is writable and open to user mode as asked for, as far as a table that was there before
  grants it, and no operation changes the rights of a page that is present. After `vmm_init` only
  the heap is writable and no page is open to user mode; over any run a page is open to user mode
  only if it was at the start or has been asked for as such, and the heap stays the kernel's.
- After `realloc` the blocks are those the state before determines, exit by exit (`Reshaped`): what a
  shrinking block gives up is free again, together with a free block behind it.
- `KernelRun.Run` puts all this together: over any run of heap and page operations, every moment
  satisfies all of these invariants.

**The scheduler** (`Scheduler.dfy` on the linked list of `List.dfy`): round robin with reaping. Over any
run of ticks, creations and exits the tasks made current are those of a reference, a ready task is
picked within 2n - 2 calls, a task leaves the list as a zombie only, and one that has exited is never
current again and is off the list within 2n - 2 further calls. Each task's time grows by the intervals
in which it was current, modulo 2^32, and the time of all tasks ever created is prev_ticks modulo 2^32.

**The device registry** (`Devfs.dfy`): any number of threads interleaved at single atomic steps under a
spinlock. Mutual exclusion, distinct names, every call equivalent to one atomic execution, in one
serial order, and a holder that finishes within a bounded number of its own steps.

**The generator** behind the random device (`Rand.dfy`), **the ramdisk reader** (`Tarfs.dfy`) and **the
number printer** (`Display.dfy`), each against an independent definition of what it computes: a
residue modulo 18782 * (2^32 - 1)^4096 + 1, a USTAR encoder, and a numeral parser.

Nothing was executed; the claims are what the verifier establishes about the model.

## Reading guide

`Memory`, `Blocks`, `Tags` and `HeapSteps` hold bytes and words, tilings, tags with free-list links, and
the pure effect of each heap step on them; `Heap` holds the operations in place. `Kernel.Valid` is the
invariant of the whole memory stack. `KernelState` has its state as one value, a `Snap`: `Keeps` and
`Quiet` say what an operation leaves alone, `NewBlock`, `Resized` and `Reshaped` what it adds, `RightsKept`
and `PageRights` which access rights are new, and `BrkOutcome`,
`MallocOutcome`, `PageOutcome` and `ReallocOutcome` which result it has when. `Fits`, `Covered`, `Roomy`
and `Wedged` say whether a request finds a free block, needs no page table, can get one, or cannot;
`Growth` says how far the heap grew and `Serves` when malloc is sure to be served.

## Where the C text departs from its intent

- Heap offsets are byte counts added to `uint32_t*` or `struct Block*`, which the compiler scales
  (kernel/memory/kheap.c:170-172, 182, 207, 243, 262, 349). Lines 321 and 333 show that bytes are
  meant; the model uses one byte layout with a 12-byte header and a 4-byte trailer.
- Shrinking the last block does not move `tail` to the split-off part
  (kernel/memory/kheap.c:365-371). The model keeps this: `Realloc` leaves a valid heap if and only if it
  did not cut the last block, `WouldCutTail` decides that in advance, and `CutTheLastBlock` is a
  concrete case.
- A NULL from `ksbrk` is dereferenced (kernel/memory/kheap.c:246-252), and a frame allocator that is
  out of frames answers 0, which is then used as a frame (kernel/memory/vmm.c:75). For pages of the
  heap the model stops at that point with `NoWindow` or `NoFrames`; for all other pages it follows the
  code and maps frame 0. If no page table has to be allocated, or none can be, the state before tells
  exactly when that happens (`BrkExact`, `PageExact`); if page tables are allocated on the way, `Plenty`
  of window and frames rules it out.
- `first_free_block` scans only whole bitmap words and answers 0 when it finds nothing
  (kernel/memory/pmm.c:26-36). `AllocBlock` states exactly when that goes wrong, and
  `WholeWordsNeverFallBack` that it cannot when the block count is a multiple of 32.
- Frame argument 0 means "ask the allocator" (kernel/memory/vmm.c:72-75), so the identity mapping of
  page 0 does not give frame 0 while frames are left. `RegionAllocated` says so.
- A directory entry has the rights of the page its table was first made for
  (kernel/memory/vmm.c:62-66), so a page asked for as user or writable is neither if that page was not:
  `Kernel.AllocatePage` says exactly when. `Rights.write` is what a write from user mode needs; the
  kernel's own writes need it only with CR0.WP set, and the kernel never sets it.
- `IS_ALIGN` never holds (kernel/include/memory/vmm.h:15), so an aligned address is moved up by a page.
- If a page table needs a page that itself lacks a table, `ksbrk`, `allocate_page` and `malloc` call
  each other without end (kernel/memory/vmm.c:53-57). `Hangs` is the exact condition.
- `malloc`'s rounding wraps above 0xfffffff0, and `ksbrk` takes its size as a signed word and adds it in
  32 bits. `RoundUpWraps` and `BoundaryExact` give the exact limits; the model stops there with `Wraps`,
  exactly when a sum wraps.
- `free_page` gives any frame back to the allocator and unmaps any page: the bitmap, its counter and the
  tables are in order afterwards if and only if the frame was the allocator's just when it was given
  back, and the page held no page table and was not part of the heap. `free_region` ignores its `free`
  argument (kernel/memory/vmm.c:122).
- The loops of `allocate_region` and `free_region` (kernel/memory/vmm.c:87, 121) end if and only if the
  range stops short of the last page of the address space; otherwise the cursor wraps and is never
  past the end (`RegionLoopEnds`).
- `list_insert_front` follows `head` before testing it (kernel/utils/dsa/list.c:30); the model tests
  first. `list_remove_front` leaves `tail` stale in an emptied list (kernel/utils/dsa/list.c:60-70), which
  the list invariant allows. `list_remove_back` on a single node leaves `head` on the freed node
  (kernel/utils/dsa/list.c:72-82); `RemoveBack` keeps the list valid exactly for other lengths.
- After `task_destroy(next)` the pick loop reads the freed node (kernel/sys/task.c:92-95); the model
  saves the successor first.
- `rand` yields the digit 2^32 - 1, whose complement is no digit, exactly when 18782 * q + c is a positive
  multiple of 2^32 - 1 (`TopDigit`); `StepDivides` and `RunDivides` carry the correction terms.
- `tar_parse` does not count an entry that ends beyond `end`, and writes past its table of 64 headers
  (kernel/fs/tarfs.c:19-36). `tarfs_init` inserts the previous node again, or NULL, for an entry that
  is not a regular file (kernel/fs/tarfs.c:117-144). A name of 100 bytes runs on into the mode field.
  `tarfs_read` ignores its offset when copying (kernel/fs/tarfs.c:48), and copies too much when
  offset + size wraps to less than the length (kernel/fs/tarfs.c:45). Each has an exact statement below.

## Model

| member | source | states |
|---|---|---|
| `Bits.SetBitWrites` | kernel/memory/pmm.c:12 | setting bit j of a word sets that bit and changes no other |
| `Bits.ClearBitWrites` | kernel/memory/pmm.c:17 | clearing bit j clears that bit and changes no other |
| `Bits.AllSetIsLargest` | kernel/memory/pmm.c:27 | a word with all 32 bits set is 0xffffffff, so the scan of any other word finds a clear bit |
| `FrameAllocator.Pigeonhole` | kernel/memory/pmm.c:40 | a set of block numbers below n has at most n members, and misses one if it has fewer |
| `FrameAllocator.Pmm.constructor` | kernel/memory/pmm.c:81-89 | a zeroed bitmap: no block taken and the counter exact |
| `FrameAllocator.Pmm.SetBlock` | kernel/memory/pmm.c:11-14 | exactly one block is added to the taken ones and the counter goes up |
| `FrameAllocator.Pmm.ClearBlock` | kernel/memory/pmm.c:16-19 | exactly one block is removed and the counter goes down, modulo 2^32 |
| `FrameAllocator.Pmm.FirstFree` | kernel/memory/pmm.c:25-37 | the lowest clear block of the whole words, or 0 when all of those are set |
| `FrameAllocator.Pmm.AllocBlock` | kernel/memory/pmm.c:39-49 | takes the lowest free block; the block is fresh and the counter stays exact if and only if block 0 or a scanned block was clear |
| `FrameAllocator.Pmm.WholeWordsNeverFallBack` | kernel/memory/pmm.c:26-36 | with a block count that is a multiple of 32 and a block left, the scan finds one |
| `FrameAllocator.Pmm.FreeBlock` | kernel/memory/pmm.c:51-54 | the block is released; the counter stays equal to the number of set bits if and only if the block was taken |
| `Memory.Put` | kernel/memory/kheap.c:208 | a stored 32-bit word reads back and leaves every other byte and every separate word alone |
| `Blocks.ExactCover` | kernel/memory/kheap.c:167-184 | blocks that tile a range cover each of its bytes exactly once |
| `Blocks.SplitTiles` | kernel/memory/kheap.c:196-237 | cutting a block in two keeps the range tiled |
| `Blocks.MergeTiles` | kernel/memory/kheap.c:266-293 | merging a block with its neighbour keeps the range tiled |
| `Tags.TagParts` | kernel/memory/kheap.c:100-124 | the size word gives back both the size and the free bit it was made from |
| `Tags.StampTags` | kernel/memory/kheap.c:204-208 | writing header and trailer of one block makes its tags right and keeps the tags of all separate blocks |
| `Tags.UnlinkRemoves` | kernel/memory/kheap.c:126-137 | unlinking leaves a correctly linked list of exactly the other nodes |
| `Tags.PushInserts` | kernel/memory/kheap.c:139-146 | pushing leaves a correctly linked list with the new node in front |
| `KernelHeap.Heap.constructor` | kernel/memory/kheap.c:91-98 | the empty heap is well formed |
| `KernelHeap.Heap.GetPrev` | kernel/memory/kheap.c:167-174 | the block that ends where this one starts, read from its trailer, or NULL for the first |
| `KernelHeap.Heap.GetNext` | kernel/memory/kheap.c:179-184 | the block that starts where this one ends, or NULL for the last |
| `KernelHeap.Heap.BestFit` | kernel/memory/kheap.c:148-161 | a smallest free block that is large enough, or NULL if and only if no free block is, although the compared words carry the free bit; of several as small the first in the list |
| `KernelHeap.Heap.RemoveNode` | kernel/memory/kheap.c:126-137 | the node leaves the list, and only words of list nodes change |
| `KernelHeap.Heap.AddNode` | kernel/memory/kheap.c:139-146 | the node heads the list, and only link words change |
| `KernelHeap.Heap.TakeBest` | kernel/memory/kheap.c:196-243 | the free block becomes a live one of at most 16 bytes more than the rounded size, the rest stays a free block, all live blocks keep their bytes; the merge with a free successor cannot happen |
| `KernelHeap.Heap.TakeAll` | kernel/memory/kheap.c:201-212 | without a split the whole block is handed out |
| `KernelHeap.Heap.TakePart` | kernel/memory/kheap.c:228-242 | the remainder is a free block of at least 16 bytes, and the tail if the block was |
| `KernelHeap.Heap.Free` | kernel/memory/kheap.c:261-294 | the block is no longer live, free neighbours are merged, all other live blocks keep their bytes |
| `KernelHeap.Heap.FreeBoth` | kernel/memory/kheap.c:266-272 | both neighbours free: three blocks become one |
| `KernelHeap.Heap.FreeIntoPrev` | kernel/memory/kheap.c:273-278 | the predecessor absorbs the block |
| `KernelHeap.Heap.FreeWithNext` | kernel/memory/kheap.c:279-287 | the block absorbs its successor |
| `KernelHeap.Heap.FreeAlone` | kernel/memory/kheap.c:288-293 | no free neighbour: the block alone joins the free list |
| `KernelHeap.Heap.Place` | kernel/memory/kheap.c:246-258 | a block over the new stretch of memory is live, last, and the heap is well formed up to the new boundary |
| `KernelHeap.Heap.CopyForward` | kernel/utils/string.c:25-28 | a byte-wise ascending copy delivers the old bytes also when the ranges overlap downwards, and writes nowhere else |
| `KernelHeap.Heap.GrowIntoNext` | kernel/memory/kheap.c:312-321 | the block takes over its free successor and keeps its bytes; no other block changes |
| `KernelHeap.Heap.GrowIntoPrev` | kernel/memory/kheap.c:322-333 | the block moves down into its free predecessor with all its bytes; no other block changes |
| `KernelHeap.Heap.ShrinkIntoNext` | kernel/memory/kheap.c:344-363 | the cut-off end and the free successor become one free block up to its old end, and the tail if the successor was |
| `KernelHeap.Heap.ShrinkAlone` | kernel/memory/kheap.c:344-371 | the cut-off end becomes a free block up to the old end; head and tail are right afterwards if and only if the block was not the last |
| `HeapSteps.Finish` | kernel/memory/kheap.c:186-294 | correct tags together with a correctly relinked free list make a well-formed heap |
| `HeapSteps.KeepLive` | kernel/memory/kheap.c:186-373 | writes confined to one stretch and to free-list links leave every live block outside as it was |
| `HeapSteps.OwnerWrites` | kernel/memory/kheap.c:332-336 | writing into a live payload disturbs neither tags, free list nor other live blocks |
| `Paging.SoftEqualsHard` | kernel/memory/vmm.c:23-42 | with coherent tables virt2phys equals the processor's translation at every address |
| `Paging.Virt2PhysFrame` | kernel/memory/vmm.c:23-42 | for an aligned kernel address, before and after paging, virt2phys gives the first byte of the frame behind it, which is what the directory entry needs |
| `Paging.PageAccess` | kernel/memory/vmm.c:62-79 | page and directory entry together: a page mapped anew has each right asked for if and only if its table is new or grants it too; a present page keeps its rights |
| `Paging.GrantedAccess` | kernel/memory/vmm.c:44-95 | the same for a range: pages that were present keep their rights, and only pages of the range are new |
| `Paging.InstallWalk` | kernel/memory/vmm.c:59-67 | entering a cleared table changes no translation and no rights |
| `Paging.InstallCoherent` | kernel/memory/vmm.c:59-67 | and keeps both views of the directory in step |
| `Paging.SetEntryWalk` | kernel/memory/vmm.c:76-79 | writing one entry changes the translation and the rights of that page only |
| `Paging.SetEntryCoherent` | kernel/memory/vmm.c:70-80 | mapping an absent page, or unmapping one that holds no page table, keeps the views in step |
| `Paging.EnableCoherent` | kernel/memory/vmm.c:204-205 | so does turning paging on when the tables' pages are mapped where boot put them |
| `VirtualMemory.AlignAfter` | kernel/include/memory/vmm.h:14 | the next page boundary, never the address itself |
| `VirtualMemory.AlignMoves` | kernel/memory/vmm.c:15-21 | whole pages move the aligned address by exactly themselves |
| `VirtualMemory.Vmm.constructor` | kernel/memory/vmm.c:186-190 | an empty directory with no frame taken is a valid state |
| `VirtualMemory.Vmm.DumbRun` | kernel/memory/vmm.c:15-21 | any run of aligned requests for whole pages gives aligned, pairwise disjoint memory |
| `VirtualMemory.Vmm.InstallTable` | kernel/memory/vmm.c:59-67 | enters the frame that virt2phys gives for the table in both views, keeps the invariant, all translations and all rights |
| `VirtualMemory.Vmm.StoreEntry` | kernel/memory/vmm.c:76-79 | the write through the kernel's pointer reaches the entry the processor reads, rights included |
| `VirtualMemory.Vmm.NextFrame` | kernel/memory/vmm.c:75 | the lowest free frame, or 0 when none is left |
| `VirtualMemory.Vmm.MapEntry` | kernel/memory/vmm.c:70-80 | a present page is left alone; an absent one gets the given frame, or the lowest free one, or 0 when all are in use, with the rights asked for; all other rights are unchanged |
| `VirtualMemory.Vmm.FreePage` | kernel/memory/vmm.c:97-116 | exactly that page becomes absent and, with free set, exactly its frame is released; tables, owners, bitmap and counter are in order afterwards if and only if the page was absent, or the frame was released just if it was the allocator's and no page table was in the page with paging on; no other page changes its rights; of its entry only the frame and the present bit are cleared |
| `VirtualMemory.Vmm.AllocatePage` | kernel/memory/vmm.c:44-81 | before the heap exists: as MapEntry, with a missing table taken from dumb_kmalloc, whose directory entry has the rights asked for |
| `VirtualMemory.Vmm.MapLinear` | kernel/memory/vmm.c:192-202 | each mapping loop maps page KERN_BASE/4096 + i to frame i, up to its limit, with the rights of that loop |
| `VirtualMemory.LinearNext` | kernel/memory/vmm.c:192-202 | lowest-first allocation gives the next page the next frame |
| `VirtualMemory.Vmm.AllocateRegion` | kernel/memory/vmm.c:83-95 | during boot: every absent page of the range is mapped, to itself or to a frame of its own (or frame 0 for page 0 when none is left); present ones and all others are unchanged; exactly the tables of the range are added; new pages and tables have the rights asked for |
| `VirtualMemory.Vmm.FreeRegion` | kernel/memory/vmm.c:118-125 | every page of the range is absent and no other walk changes; bitmap and counter are in order if and only if every page that was present had a frame of the allocator |
| `VirtualMemory.Vmm.AllocateThenFreeRegion` | kernel/memory/vmm.c:83-125 | during boot, over absent pages: the pair restores the taken frames, the counter and every translation |
| `VirtualMemory.RegionRestored` | kernel/memory/vmm.c:83-125 | the owners and translations after the pair are those before |
| `VirtualMemory.SameFrames` | kernel/memory/vmm.c:83-125 | the owners determine the set of taken frames |
| `VirtualMemory.RegionLoopEnds` | kernel/memory/vmm.c:84-94 | a region loop leaves its range if and only if the range stops short of the last page of the address space |
| `VirtualMemory.Vmm.Init` | kernel/memory/vmm.c:186-212 | from 3072 blocks on: the 12 MiB from KERN_BASE map to frames 0 to 3071 in order, pages 1 to 16 to themselves, page 0 to a frame of the allocator or, when that is full, to frame 0, nothing else is mapped, four page tables exist, both views agree, paging is on; every address of the 12 MiB translates as virt2phys did before; the first 4 MiB and the low region are read-only, the heap writable, and no page is open to user mode |
| `VirtualMemory.InitRights` | kernel/memory/vmm.c:192-202 | the rights of every page and heap table after the three mappings |
| `VirtualMemory.Linearly` | kernel/memory/vmm.c:23-25 | mapping the pages in frame order is the rule virt2phys follows before paging, address by address |
| `VirtualMemory.Vmm.TurnOn` | kernel/memory/vmm.c:204-205 | turning paging on keeps the invariant and every translation |
| `PageRun.Run` | kernel/memory/vmm.c:44-116 | with the heap on, over any run of allocate_page with frame 0 and free_page with free set for every page that can be released, heap growth for page tables included: each step maps or unmaps exactly its page or fails as the state before decides, and at every moment distinct owned pages have distinct frames, a bit is set exactly for an owned frame, and the counter is their number |
| `PageRun.OwnersAreExclusive` | kernel/memory/vmm.c:70-80 | owners with an inverse use their frames exclusively, and the taken frames are theirs |
| `PageRun.RunOne` | kernel/memory/vmm.c:44-116 | one step of the run |
| `PageRun.RunMap` | kernel/memory/vmm.c:44-81 | counting frames and absent heap pages tells which pages own a frame |
| `PageRun.AllocateRegion` | kernel/memory/vmm.c:83-95 | with the heap on: each page of the range was present or gets itself, the lowest free frame, or frame 0 when none is left; outside the range and the heap window nothing changes; if it stops, at which page, in which state and why; for a range under one directory entry it succeeds if and only if its table exists or can be had, and which heap pages get mapped; the rights of what is new |
| `PageRun.FreeRegion` | kernel/memory/vmm.c:118-125 | with the heap on: the range is unmapped; everything is in order if and only if all present pages were the allocator's and none was part of the heap |
| `PageRun.AllocateThenFreeRegion` | kernel/memory/vmm.c:83-125 | with the heap on, over absent pages outside the heap window: if allocating succeeds all translations there are restored, else where and why it stopped; everything is in order if and only if every page had got a frame of its own; the bitmap is restored if and only if no heap page was mapped meanwhile, for a range under one directory entry if and only if its table existed or the request for it reaches no absent page |
| `PageRun.RegionExact` | kernel/memory/vmm.c:87-94 | in a range under one directory entry only the first page can fail, and only for want of its table |
| `PageRun.Restored` | kernel/memory/vmm.c:83-125 | after the pair the taken frames are those before and those of newly mapped heap pages |
| `PageRun.RegionGrows` | kernel/memory/vmm.c:87-94 | one more page keeps what was placed before |
| `PageRun.RegionAccess` | kernel/memory/vmm.c:83-95 | with the heap on, page by page: outside the heap window new pages have the rights asked for as far as older tables grant them, and present pages keep theirs |
| `KernelState.RoundUp` | kernel/memory/kheap.c:189 | the least multiple of 16 that is large enough |
| `KernelState.RoundUpWraps` | kernel/memory/kheap.c:189 | in 32 bits the rounded size holds the request if and only if it is at most 0xfffffff0; above it is 0 |
| `KernelState.BoundaryExact` | kernel/memory/vmm.c:214-247 | with the size taken as a signed word and the sum in 32 bits, the boundary computed is heap_curr + size if and only if the sum does not wrap |
| `KernelState.FreshFrame` | kernel/memory/vmm.c:57-62 | a table placed in a live block of its own shares no frame with any table |
| `KernelState.FewerAbsent` | kernel/memory/vmm.c:235-237 | a new page table leaves fewer absent ones: the measure of the restart |
| `KernelState.ShortOfTable` | kernel/memory/vmm.c:229-234 | without room for a page table, the first page that lacks one is where both the request and the request for its table have to stop |
| `KernelState.WaitingEnd` | kernel/memory/vmm.c:229-234 | having mapped everything before that page, the state is wedged if and only if it was at the start |
| `KernelState.BrkFails` | kernel/memory/vmm.c:214-242 | when the mapping loop fails, the outcome is the one the state before the call determines |
| `KernelState.HangsHere` | kernel/memory/vmm.c:53-57 | the first page without a table, the free blocks and the frames left decide whether malloc returns |
| `KernelState.FreedKept` | kernel/memory/vmm.c:114-115 | after unmapping, the heap is still mapped if and only if the page was not part of it |
| `KernelState.BalancedPage` | kernel/memory/vmm.c:70-80 | mapping a page takes a frame exactly if it maps an absent page of the heap window or gives another page a frame of its own |
| `KernelState.PlentyLasts` | kernel/memory/vmm.c:214-242 | with plenty of window and frames before, neither runs out on the way, page tables included |
| `KernelState.BrkPlenty` | kernel/memory/vmm.c:214-242 | growing succeeds with plenty and room for one page table |
| `KernelState.MallocServes` | kernel/memory/kheap.c:186-259 | malloc is served if a free block fits, the boundary can be moved, or there is plenty and room for a page table |
| `KernelState.FrameExact` | kernel/memory/vmm.c:44-81 | whether a page can be mapped is decided by the state before: its table, a free block or room for one, and the frames |
| `KernelState.WayFailsExact` | kernel/memory/vmm.c:229-234 | the mapping loop runs out of frames exactly if they do not suffice up to the boundary, or up to the first page that cannot get a table |
| `KernelState.StepGrowth` | kernel/memory/vmm.c:231-234 | one page more moves the boundary by one page table at most |
| `KernelState.HeapAccess` | kernel/memory/vmm.c:229-234 | if page and directory entries of the heap window are as ksbrk makes them, every page there is writable and closed to user mode |
| `KernelState.HeapRightsKept` | kernel/memory/vmm.c:44-81 | every operation keeps that, unless a page of the window is mapped with other rights |
| `KernelState.ReshapedByMove` | kernel/memory/kheap.c:335-339 | a block that moves gets less than 32 bytes more than asked for, and neither neighbour would have sufficed |
| `KernelState.ReshapedPrev` | kernel/memory/kheap.c:322-333 | the predecessor is taken over with its whole size, and only if the successor does not suffice |
| `KernelMemory.Kernel.constructor` | kernel/kernel.c:90 | after vmm_init the empty heap over its first 8 MiB is a valid memory stack |
| `KernelMemory.Kernel.KmallocA` | kernel/memory/kheap.c:33-47 | the result is page-aligned and lies with its whole size inside the block malloc returned; it fails and hangs exactly as that malloc; it is the page boundary behind the block's first byte, never that byte itself |
| `KernelMemory.Kernel.Malloc` | kernel/memory/kheap.c:186-259 | for every size: NULL exactly for 0; otherwise one new block of size to size + 31 bytes and nothing else changes for callers, and mapped pages keep their frames; a smallest fitting free block is used whenever there is one and only otherwise does the boundary move; wraps exactly when a sum wraps; never returns exactly in a stuck state; runs out of window or frames exactly as the state before says when no page table is allocated, and never with plenty |
| `KernelMemory.Kernel.TakeFree` | kernel/memory/kheap.c:196-243 | a free block becomes the caller's |
| `KernelMemory.Kernel.Extend` | kernel/memory/kheap.c:244-258 | the new block ends at the new boundary and lies behind everything, page tables allocated on the way included; fails exactly as ksbrk |
| `KernelMemory.Kernel.Ksbrk` | kernel/memory/vmm.c:214-242 | returns the start of n fresh mapped bytes at the end of the heap, keeps heap_curr <= heap_end, every live block and every translation, through nested growth and restarts; returns if and only if the state before is not stuck; without page tables to allocate it succeeds if and only if the boundary stays mapped, or in the window with frames enough; the boundary moves by n and the page tables added, and every frame taken maps a heap page |
| `KernelMemory.Kernel.TryBrk` | kernel/memory/vmm.c:217-241 | one attempt: it is final, or a page table was added and everything starts again |
| `KernelMemory.Kernel.MapBrk` | kernel/memory/vmm.c:226-241 | the case where the boundary passes the mapped heap |
| `KernelMemory.Kernel.MapPages` | kernel/memory/vmm.c:229-234 | all pages up to the new boundary are mapped to frames of their own, exactly those if no table was missing, and then if and only if the frames suffice; the boundary moved only if a page table was added; does not return exactly if a wedged page lies before the boundary; what is mapped anew is writable and closed to user mode, tables included |
| `KernelMemory.Kernel.MapNext` | kernel/memory/vmm.c:231-234 | one round: the page is mapped, and there is still room for the next page table |
| `KernelMemory.Kernel.EnsureTable` | kernel/memory/vmm.c:51-68 | a missing table is allocated if and only if a free block holds it or the heap can be grown for it without another table, and lies in a live block of its own with exactly the heap pages mapped that the block needs; on failure nothing of heap and directory changes |
| `KernelMemory.Kernel.TakeTable` | kernel/memory/vmm.c:57-67 | the block that holds the table leaves the callers' blocks; its directory entry has the rights asked for |
| `KernelMemory.Kernel.EnsureFrame` | kernel/memory/vmm.c:70-80 | the page gets the frame asked for or the lowest free one, or frame 0 when none is left; a page of the heap then counts as failed; no other translation changes |
| `KernelMemory.Kernel.AllocatePage` | kernel/memory/vmm.c:44-81 | with the heap on: the state before decides whether the page is mapped; which frame it gets, which heap pages are mapped for its table, that every other translation outside the heap is unchanged and all mapped ones inside, and when it never returns; a new page has exactly the rights asked for in its entry, a new table too, and to the processor each right exactly if a table that was there before grants it as well; all present pages keep theirs |
| `KernelMemory.Kernel.Free` | kernel/memory/kheap.c:261-294 | exactly that block is gone, all others keep their bytes, the whole stack stays valid |
| `KernelMemory.Kernel.Realloc` | kernel/memory/kheap.c:296-373 | as malloc for NULL and free for size 0; otherwise the first min(old, new) bytes survive and no other block changes on any path; it fails or hangs only if the block has to move, and then as malloc; the heap is valid afterwards if and only if the last block was not cut; the blocks afterwards are exactly those the state before determines: a cut of 24 bytes or more leaves the rounded size and one free block up to the old end or the end of a free successor, a smaller one changes nothing, growth in place adds the whole neighbour, a move takes less than 32 bytes more |
| `KernelMemory.Kernel.Resize` | kernel/memory/kheap.c:303-372 | the same for a live block and a positive size, block structure included |
| `KernelMemory.Kernel.Grow` | kernel/memory/kheap.c:311-339 | the three growing exits, in place whenever a free neighbour is large enough, the one behind first |
| `KernelMemory.Kernel.Relocate` | kernel/memory/kheap.c:335-339 | the exit that moves: malloc, copy, free; fails or hangs exactly as that malloc |
| `KernelMemory.Kernel.GrowNext` | kernel/memory/kheap.c:312-321 | growing over the successor resizes in place to both sizes and 16, and no other block changes |
| `KernelMemory.Kernel.GrowPrev` | kernel/memory/kheap.c:322-333 | growing into the predecessor moves the contents; the new block has both sizes and 16, and no other block changes |
| `KernelMemory.Kernel.MoveOver` | kernel/memory/kheap.c:335-339 | copying to a new block and freeing the old one moves the contents |
| `KernelMemory.Kernel.Shrink` | kernel/memory/kheap.c:340-372 | both shrinking exits keep the prefix and free exactly the rest, merged with a free successor; valid afterwards if and only if the block was not the tail |
| `KernelMemory.Kernel.WouldHang` | kernel/memory/kheap.c:186-259 | decides before the call whether malloc would never return |
| `KernelMemory.Kernel.FreePage` | kernel/memory/vmm.c:97-116 | with the heap on: exactly that page and frame; everything is in order if and only if the page was absent, or the frame was released just if it was the allocator's and the page neither held a table nor was part of the heap |
| `KernelMemory.Kernel.WouldCutTail` | kernel/memory/kheap.c:340-371 | decides whether realloc would cut the last block |
| `KernelMemory.Kernel.TranslationsAgree` | kernel/memory/vmm.c:23-42 | in every valid state virt2phys equals the page walk |
| `KernelMemory.Kernel.HeapIsMapped` | kernel/memory/vmm.c:226-241 | every byte below heap_curr is mapped |
| `HeapRun.MallocRefines` | kernel/memory/kheap.c:186-259 | malloc adds a new pointer to the store and keeps all stored bytes |
| `HeapRun.FreeRefines` | kernel/memory/kheap.c:261-294 | free removes one pointer |
| `HeapRun.ReallocRefines` | kernel/memory/kheap.c:296-373 | realloc replaces one pointer, with the common prefix of its bytes |
| `HeapRun.WriteRefines` | kernel/memory/kheap.c:186-373 | a write by the owner changes that byte of the store only |
| `HeapRun.PayloadsApart` | kernel/memory/kheap.c:186-373 | no byte of a payload belongs to another payload, a header or a trailer |
| `HeapRun.NewPointer` | kernel/memory/kheap.c:296-373 | the pointer realloc returns is the old one or nobody else's |
| `HeapRun.Run` | kernel/memory/kheap.c:186-373 | any sequence of operations is explained step by step by a map from pointers to bytes, with the memory system in order and representing it at every step; a request is denied only in a state that does not guarantee it, and then because no page table was to be had or window or frames ran out; a resize leaves exactly the blocks that the state before determines |
| `HeapRun.RunOne` | kernel/memory/kheap.c:186-373 | the simulation of one operation |
| `HeapRun.DeniedBy` | kernel/memory/kheap.c:186-259 | what a refused malloc shows about the state before |
| `HeapRun.CutTheLastBlock` | kernel/memory/kheap.c:365-371 | on an empty heap malloc(64) gives the last block, and realloc to 16 resizes it and breaks the invariant |
| `HeapRun.HangAfterBoot` | kernel/memory/vmm.c:214-242 | from power-on, malloc(0x7fe000) gives a block and leaves a state in which malloc(8192) nests requests deeper than any given depth |
| `HeapRun.Boot` | kernel/kernel.c:88-90 | the three init calls give a valid memory stack in which [KERN_BASE, KERN_BASE + 12 MiB) translates by va - KERN_BASE, as virt2phys did before; only the heap is writable, no page is open to user mode |
| `KernelRun.Run` | kernel/memory/kheap.c:186-373 | any run of malloc, free, realloc, writes, allocate_page and free_page: at every moment the memory system is in order and represents the callers' store, owned pages use their frames exclusively and the taken frames are theirs, and virt2phys is the processor's walk; a page is open to user mode only if it was at the start or has been asked for as such, and the heap stays writable and closed to user mode unless a page of its window is asked for otherwise |
| `KernelRun.RunOne` | kernel/memory/kheap.c:186-373 | one operation, on the store or on a page without touching the store |
| `KernelRun.StepRights` | kernel/memory/vmm.c:44-116 | one operation opens no page to user mode but the one it is asked to, and leaves the heap's rights alone |
| `KernelRun.RunRights` | kernel/memory/vmm.c:44-116 | so over any run, at every moment |
| `KernelRun.SoundTranslates` | kernel/memory/vmm.c:23-42 | in a state that is in order virt2phys equals the processor's walk at every address |
| `LinkedList.List.constructor` | kernel/utils/dsa/list.c:3-6 | the empty list |
| `LinkedList.List.InsertFront` | kernel/utils/dsa/list.c:28-40 | the value is in front of the old ones, links and size are right |
| `LinkedList.List.RemoveFront` | kernel/utils/dsa/list.c:60-70 | the first value is gone |
| `LinkedList.List.RemoveBack` | kernel/utils/dsa/list.c:72-82 | the last value is gone; the list is valid afterwards if and only if it did not have exactly one node |
| `LinkedList.List.RemoveNode` | kernel/utils/dsa/list.c:13-26 | exactly that node's value is gone, from any position |
| `LinkedList.List.PeekFront` | kernel/utils/dsa/list.c:84-87 | the first value, or NULL for the empty list |
| `LinkedList.List.GetNode` | kernel/utils/dsa/list.c:116-125 | the node at the index, or NULL past the end |
| `Scheduling.SkipIsSuffix` | kernel/sys/task.c:83-96 | skipping drops zombies only and stops at a task that is none |
| `Scheduling.RoundRobin` | kernel/sys/task.c:79-96 | the task picked is the first behind the current one, around the end of the list, that is no zombie; exactly the zombies in between are gone and the others keep their order |
| `Scheduling.DropZombie` | kernel/sys/task.c:92-96 | reaping one zombie does not change which task is picked in the end |
| `Scheduling.NextApproaches` | kernel/sys/task.c:47-49 | any call, from a tick, a creation or an exit, picks a given waiting task or strictly lowers its rank |
| `Scheduling.LeavesAsZombie` | kernel/sys/task.c:92-96 | a task leaves the list as a zombie only |
| `Scheduling.NextZombies` | kernel/sys/task.c:62-69 | zombies stay zombies, only an exit makes one, of the current task, and only a creation lists a task |
| `Scheduling.NextCreates` | kernel/sys/task.c:47-49 | a new task is ready and in front of the list, whoever is picked |
| `Scheduling.NextDrops` | kernel/sys/task.c:92-96 | any call drops a given zombie from the list or strictly lowers its rank |
| `Scheduling.NeverPicked` | kernel/sys/task.c:62-96 | over any run a zombie is never made current again |
| `Scheduling.ZombieLeaves` | kernel/sys/task.c:62-96 | with n tasks a zombie has left the list after 2n - 2 calls, and never comes back |
| `Scheduling.WaitsRank` | kernel/sys/task.c:71-109 | a waiting task is picked within as many calls as its rank |
| `Scheduling.BoundedWaiting` | kernel/sys/task.c:71-109 | with n tasks, a ready task that is not current is picked within 2n - 2 calls, whatever is created or exits meanwhile |
| `Scheduling.Scheduler.constructor` | kernel/sys/task.c:111-118 | the idle task alone is a valid state |
| `Scheduling.Scheduler.Destroy` | kernel/sys/task.c:54-60 | exactly that zombie leaves the list for the destroyed tasks, and all used time stays accounted for |
| `Scheduling.Scheduler.PickNext` | kernel/sys/task.c:81-96 | ends, picks a task that is no zombie, destroys only zombies and never the current task |
| `Scheduling.Scheduler.ReapNext` | kernel/sys/task.c:92-96 | one zombie less and the same task in view |
| `Scheduling.Scheduler.Schedule` | kernel/sys/task.c:71-109 | the first task behind the current one that is no zombie runs on, the zombies before it are gone and nothing else of the list changes; no state changes; the task that was running gets ticks - prev_ticks modulo 2^32, and no other task any time |
| `Scheduling.Scheduler.Charge` | kernel/sys/task.c:101-104 | the current task's time grows by ticks - prev_ticks modulo 2^32 and nobody else's changes; the sum over all tasks ever created equals prev_ticks modulo 2^32 |
| `Scheduling.ChargedMore` | kernel/sys/task.c:101-104 | charging one task keeps that sum, in 32-bit arithmetic |
| `Scheduling.SpentParts` | kernel/sys/task.c:101-104 | who gets the interval, task by task |
| `Scheduling.Scheduler.OnTick` | kernel/sys/task.c:71-109 | one step of the reference; no task changes its state, the task that was running gets the interval and no other any time |
| `Scheduling.Scheduler.TaskCreate` | kernel/sys/task.c:13-52 | a new task number, ready, with no time used, in front of the list; no other state changes; then one step, and the creator gets the interval |
| `Scheduling.Scheduler.TaskExit` | kernel/sys/task.c:62-69 | the task that was running is a zombie, gets the interval, and is not current any more; no other state or time changes; then one step of the reference |
| `Scheduling.RunTasks` | kernel/sys/task.c:13-109 | over any run the views and the tasks made current are the reference's, event by event; every created task is listed or was a zombie; whoever is listed and ready at some time among n tasks is picked within 2n - 2 calls from then; whoever has exited is never picked again and is off the list within 2n - 2 further calls; each task's time grew by the intervals between causes in which it was current, modulo 2^32; the used time sums up to the last tick modulo 2^32 |
| `Scheduling.ExitedGone` | kernel/sys/task.c:62-96 | the part on tasks that have exited |
| `Scheduling.BilledMore` | kernel/sys/task.c:101-104 | one more cause: the interval before it goes to the task that was current in it |
| `DeviceRegistry.StepInv` | kernel/fs/devfs.c:7-60 | whichever thread moves: at most one is inside, names stay distinct, answers given stay correct |
| `DeviceRegistry.RunInv` | kernel/fs/devfs.c:7-60 | so in every state of every run |
| `DeviceRegistry.MutualExclusion` | kernel/sys/spinlock.c:3-9 | two threads inside the lock are the same thread, in every reachable state |
| `DeviceRegistry.LockHasHolder` | kernel/sys/spinlock.c:3-9 | the lock word is set if and only if some thread is inside |
| `DeviceRegistry.CallIsAtomic` | kernel/fs/devfs.c:7-60 | a finished call has the answer and effect of one uninterrupted execution when its lock was taken; finddir returns a node if and only if the name was registered then; registering a new name adds that device at the front and nothing else ever changes the registry |
| `DeviceRegistry.Serializable` | kernel/fs/devfs.c:7-60 | the order of releases is a serial order that explains the registry in every reachable state |
| `DeviceRegistry.SpinnerEnters` | kernel/sys/spinlock.c:3-5 | a thread that tries while nobody is inside gets the lock at that step and starts with the first of all nodes |
| `DeviceRegistry.HolderFinishes` | kernel/fs/devfs.c:7-60 | whatever the others do, a thread inside has finished its call after at most n + 3 of its own steps for n devices |
| `Random.Mix` | kernel/fs/devices/rand.c:21-29 | 18782 * q + c == c' * (2^32 - 1) + x exactly, with c' at most 18782 |
| `Random.MixExact` | kernel/fs/devices/rand.c:22-29 | folding the high word back divides by 2^32 - 1 |
| `Random.ValueShift` | kernel/fs/devices/rand.c:21-31 | replacing the oldest digit by a newest one, on the value of the window |
| `Random.StepDivides` | kernel/fs/devices/rand.c:16-32 | (2^32 - 1) * T' == T + p * y, less 2^32 exactly when x == 2^32 - 1 |
| `Random.TopDigit` | kernel/fs/devices/rand.c:22-29 | x == 2^32 - 1 if and only if 18782 * q + c is a positive multiple of 2^32 - 1 |
| `Random.TopDigitWitness` | kernel/fs/devices/rand.c:22-29 | it is for the largest word and no carry |
| `Random.RunDivides` | kernel/fs/devices/rand.c:16-32 | for any k steps (2^32 - 1)^k * T_k is T_0 plus a multiple of p, less 2^32 * (2^32 - 1)^j for each step j with the top digit |
| `Random.NoTops` | kernel/fs/devices/rand.c:16-32 | nothing is taken off if and only if no sum of the run is a positive multiple of 2^32 - 1 |
| `Random.WindowShift` | kernel/fs/devices/rand.c:21 | overwriting in the circular buffer shifts the window |
| `Random.Generator.Seed` | kernel/fs/devices/rand.c:7-14 | the first three words count up by 0x9e3779b9; each bit of every later word k is the parity of that bit of word k - 3, word k - 2, 0x9e3779b9 and k; and the first window is the buffer |
| `Random.SeedsDiffer` | kernel/fs/devices/rand.c:7-14 | any three neighbouring words determine the seed: the recurrence runs backwards |
| `Random.XorBit` | kernel/fs/devices/rand.c:13 | a bit of the exclusive or is set if and only if it differs in the two words |
| `Random.SeedBits` | kernel/fs/devices/rand.c:13 | every seeded word bit by bit |
| `Random.ParitiesSeed` | kernel/fs/devices/rand.c:7-14 | the parities and the first three words leave one buffer only |
| `Random.Generator.Next` | kernel/fs/devices/rand.c:16-32 | the buffer moves by exactly one step of the reference and the carry stays at most 18782 |
| `Random.Generator.Draw` | kernel/fs/devices/rand.c:16-32 | k calls multiply out to the congruence modulo p |
| `Ustar.EncodedArchive` | kernel/include/fs/tarfs.h:26-44 | what the encoder writes is an archive in the reader's sense |
| `Ustar.EntryInArchive` | kernel/fs/tarfs.c:30-32 | entry k lies where the sizes before it say |
| `Tarfs.GetSize` | kernel/fs/tarfs.c:7-16 | the field as octal digits, whatever its bytes, modulo 2^32 |
| `Tarfs.FieldOfOctal` | kernel/fs/tarfs.c:7-16 | reading back an octal field gives the encoded number |
| `Tarfs.SizeOfEntry` | kernel/fs/tarfs.c:26 | the reader sees the archived length |
| `Tarfs.ScanArchive` | kernel/fs/tarfs.c:18-37 | the recorded headers are exactly the positions of the entries that end by `end`; the table overflows if and only if entry number 64 begins by `end` |
| `Tarfs.NameOfEntry` | kernel/fs/tarfs.c:123 | the recorded name is the archived one if and only if it is shorter than 100 bytes or the mode field starts with a zero byte |
| `Tarfs.LatestIs` | kernel/fs/tarfs.c:116-144 | the node inserted for an entry belongs to the last regular file so far, or is NULL before the first |
| `Tarfs.LookupLast` | kernel/fs/tarfs.c:79-93 | lookup finds the last regular file of that name, with other kinds of entries in between too; a failing search meets a NULL node if and only if entry 1 is not regular |
| `Tarfs.Ramdisk.Parse` | kernel/fs/tarfs.c:18-37 | the header table holds the scanned positions; fails exactly when the scan leaves the memory or the table |
| `Tarfs.Ramdisk.Init` | kernel/fs/tarfs.c:95-147 | and the node list is built from them |
| `Tarfs.Ramdisk.FindDir` | kernel/fs/tarfs.c:79-93 | the first node of that name in list order |
| `Tarfs.Ramdisk.Read` | kernel/fs/tarfs.c:39-51 | copies from the start of the contents as many bytes as the 32-bit tests leave, and touches nothing else of the buffer |
| `Tarfs.ReadStaysInside` | kernel/fs/tarfs.c:42-46 | a read stays inside the file if and only if offset + size does not wrap to something inside it; otherwise it is min(size, length - offset) |
| `Tarfs.OffsetIgnored` | kernel/fs/tarfs.c:45-48 | for files of a given length reads are right if and only if the offset is 0 or nothing is read |
| `Tarfs.Mounted` | kernel/fs/tarfs.c:95-147 | every entry of an archive of at most 64 is recorded with its name, kind, length and contents |
| `Tarfs.ReadByName` | kernel/fs/tarfs.c:39-147 | mounting, finding and reading at offset 0 returns the contents of the last file archived under the name, cut to the requested size |
| `Display.Itoa` | kernel/utils/display.c:6-26 | "0" for 0 or a base above 16; otherwise the canonical numeral, which parses back to the value, zero-terminated, within 32 digits, and nothing else of the buffer changes |
| `Display.CollectDigits` | kernel/utils/display.c:17-21 | the digits in tbuf, least significant first, never past its end |
| `Display.CopyBack` | kernel/utils/display.c:22-25 | the digits in reading order and a zero byte, nothing else changes |
| `Display.NumeralReads` | kernel/utils/display.c:17-21 | repeated division gives a numeral without leading zero that parses back |
| `Display.UniqueNumeral` | kernel/utils/display.c:6-26 | a number has only one canonical numeral |
| `Display.AsciiDigit` | kernel/utils/display.c:1-4 | the digits of a base are the ASCII characters 0 to 9 and A to F, as many as the base |
| `Display.WordFits` | kernel/utils/display.c:3 | 32 digits are enough for any base, 10 from base ten on, 8 in base sixteen |
| `Display.ItoaSigned` | kernel/utils/display.c:28-35 | a sign and the magnitude, for all values but the minimum; a base above 16 writes nothing |
| `Display.SignedTextExact` | kernel/utils/display.c:28-35 | two numbers get the same text if and only if they are equal |

## Left out

- `copy_page_table` and `copy_page_directory`: they test an uninitialised table and pass an address where a frame is expected, so no meaning is fixed; task directories other than the kernel's are not modelled.
- `kfree` of pointers from `kmalloc_a`: they are not payload starts. Releasing a task's memory is abstract.
- KernelMemory.Kernel.Ksbrk: what the code does after `NoWindow`, `NoFrames` or `Wraps` is not followed; sizes of 0 and below are not modelled.
- KernelState.BrkPlenty: when page tables have to be allocated on the way, the condition for success is sufficient only; how the free blocks serve the tables one after the other is not followed beforehand.
- KernelMemory.Kernel.KmallocA: sizes within a page of 2^32, where the size itself wraps.
- KernelMemory.Kernel.AllocatePage: page table contents are kept per physical frame beside the flat memory, not as bytes inside their heap blocks; that the blocks holding them stay live and untouched by callers is proved. A page of the heap window is not mapped to a frame of the caller's choice.
- VirtualMemory.Vmm.FreePage: the early return for `boot_page_dir`, and frames without a bit in the bitmap.
- VirtualMemory.Vmm.FreeRegion: with paging on, ranges with a page that holds a page table, where the code may fault on a later page.
- HeapRun.Run: a resize that would cut the last block is not passed on, and a call that would never return is shown as denied.
- PageRun.AllocateRegion: a range that includes the last page of the address space, where the loop does not end (`RegionLoopEnds`); likewise for the variants during boot and for freeing.
- PageRun.AllocateThenFreeRegion: ranges inside the heap window, which belongs to the heap.
- VirtualMemory.Vmm.Init: the bitmap area and the first page tables have to end within the kernel's first 4 MiB, as `pmm_init` demands of the kernel image.
- `pmm_init`'s walk over the boot information: the number of blocks is a parameter.
- Scheduling.Scheduler.Schedule: a context switch is an assignment of the current task; stacks, registers and TSS are left out, as is the run before the first task.
- Scheduling.Scheduler.TaskExit: an exit of the idle task, which everything here takes to stay ready.
- `devfs_readdir`: one static directory entry is shared by all callers, so its contents may change after the lock is released; the model records what was written to it under the lock.
- Tarfs.Ramdisk.Read: a result of 2^31 or more is not shown as the negative `ssize_t` it becomes.
- Display.ItoaSigned: the minimum value, whose negation overflows.
- `kmalloc_int` before the heap exists, `kcalloc`, `kmalloc_p`: easy variants.
- `kernel/utils/dsa/tree.c`, `kernel/fs/rootfs.c`, the vfs wrappers, string helpers, `tarfs_readdir` and the rest of the list: easy or broken in ways that fix no meaning.
- Drivers, descriptor tables, interrupts, the ELF loader, usermode entry and system calls: hardware effects.
