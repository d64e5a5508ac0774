# Verified model of the Yonti-os kernel core

This project models five stateful components of the Yonti-os kernel in Dafny and proves what they keep
over every call and every run: the TLSF heap, the buddy frame allocator, the interrupt-to-task wake
protocol with its ring buffers, the in-memory filesystem, and the framebuffer text renderer.
`dafny verify dfyconfig.toml` checks the whole project. The model is not compiled into the kernel and
nothing in it was executed.

## How the model is laid out

| files | component |
|---|---|
| `Bits.dfy`, `Options.dfy`, `FreeLists.dfy` | machine-word bit operations on natural numbers, optional values, list neighbours |
| `TlsfMapping`, `TlsfMemory`, `TlsfHeap`, `TlsfIndex`, `TlsfHeaders`, `TlsfPayload`, `TlsfAllocator` | TLSF heap |
| `BuddyBlocks`, `BuddySeams`, `BuddyCarve`, `BuddyLists`, `BuddyBitmap`, `BuddyPool`, `BuddyRuns`, `BuddyAllocator`, `BuddyWitnesses` | buddy frame allocator |
| `ArrayQueue`, `WakeProtocol`, `WakeEvents`, `KernelMachine` | ring buffer, wake protocol, executor |
| `FsPath`, `FsNames`, `FsFlat`, `FsLaws`, `FsTree`, `FileSystem`, `FsWitnesses` | in-memory filesystem |
| `TextGrid`, `Framebuffer` | text terminal and pixel renderer |

**TLSF heap.** Memory is a map from word addresses to 8-byte words: a block header, a free-list link or
user data. The class `Tlsf.TlsfAllocator` has the allocator's own fields (bitmap words, second-level words,
list heads) and rewrites memory word by word. `Valid` says that three views agree: the chain of physical
blocks, the boundary tags in memory, and the index (lists, heads and both bitmap levels). `malloc` and `free`
are proved to be the transitions `Alloc` and `Release` of `TlsfHeap`, and the run theorems are about those.

**Buddy allocator.** The lists hold the maximal aligned runs of at most 1024 frames whose bitmap bits are all
set. Where usable regions touch, such a run can start out listed as its two halves; it is then a *seam*, until one
of its frames is allocated. `BuddyRuns` is the allocator as a machine on lists and bitmap, down to the order of
the lists, with its runs; the class changes the link words in memory and is proved to take the machine's steps.

**Wake protocol.** A transition system whose main-thread steps are the `without_interrupts` sections and whose
interrupt step may come between any two of them. `KernelMachine` runs the same steps on the real ring buffers
and the waker cell, is proved to take the protocol's transitions, and keeps the protocol's invariant on them.

**Filesystem.** The tree of inodes is proved to behave as a flat map from component lists to entries; round
trips, independence of unrelated paths and the limits are proved on the flat map for every run of calls.

**Framebuffer.** `TextGrid` is the terminal behind `write_byte`: a cursor on a grid of cells, the cells known to show
a glyph, the colors and the escape state. The class works on pixels in a byte buffer and is proved to show that
terminal after every byte.

## Where code and expectations differ

The model follows the code. Each difference comes with an input that shows it and with the exact condition under
which the code meets the expectation.

- `free` looks for the header at `ptr - 8`, but an allocation that needed front padding keeps its header at the
  block start (tlsf.rs:142, 279-288). `FreeableIffUnpadded`: a returned pointer is freeable if and only if the
  block's own payload start was already aligned, so always for alignments up to 8 (`SmallAlignFreeable`).
  `PaddedPointerWitness`: a 16-aligned request on the kernel's heap.
- The size classes are monotone for all sizes below a limit if and only if the limit is at most 16 MiB
  (`MappingMonotoneIff`). `FirstLevelSaturates`: the sizes just below and at 16 MiB.
- `BuddyAllocator::new` carves each region by itself, so its lists hold the maximal runs of all usable frames if and
  only if no aligned usable run crosses a region boundary (`CarvingIsCanonicalIff`), as in a map whose usable regions
  do not touch. The bitmap test of deallocation is more tolerant. On all runs, every buddy that passes it is in the
  list it is then removed from if and only if each half of every aligned usable run lies in one region
  (`AlwaysExactIff`). `CrossedAllocator` is a memory map on which it fails, `SeamAllocator` one whose regions touch and on
  which it does not.
- `free_frames` counts tracked frames that are not usable as free; it is exact if and only if every tracked frame is
  usable (`FreeFrames`). `HoleAllocator`: three frames reported with two free.
- The ring buffer is a FIFO on all runs if and only if its capacity divides 2^64 (`FifoOnAllRunsIff`). The kernel's
  queues have capacity 100, so they are FIFOs for the first 2^64 operations and not for ever (`KernelQueueFails`).
- The documented path depth is 16, but creation checks only the parent. `CreateThenLookup`: a created entry is found
  again if and only if its path has 1 to 16 components. `SeventeenthLevel` creates one that is not found, `EmptyName` a
  child with the empty name from a path of two slashes.
- `remove` of a non-empty directory decrements the inode counter by one only. `CounterExactIff`: over a run the
  counter equals the number of inodes if and only if no non-empty directory was removed. `CounterLeaks`: three calls
  after which the counter is 2 and only the root is left.

## Model

| member | source | states |
|---|---|---|
| TlsfMapping.AlignUpIsLeastMultiple | kernel/src/allocator.rs:103-106 | for a power of two, the mask expression is the least multiple of `align` not below `addr` |
| TlsfMapping.FirstLevelBounds | kernel/src/allocator/tlsf.rs:178-185 | a block of at least 32 bytes is at least the power of two its first level names, and below the next one except in the last level |
| TlsfMapping.HigherLevelIsLarger | kernel/src/allocator/tlsf.rs:207-213 | of two sizes of at least 32, the one with the higher first level is larger, at every heap size |
| TlsfMapping.TwiceIsHigher | kernel/src/allocator/tlsf.rs:178-185 | below 16 MiB a size at least twice another has a higher first level |
| TlsfMapping.BucketRange | kernel/src/allocator/tlsf.rs:178-185 | below 16 MiB, bucket (f, l) holds a size iff `2^(f+5) + l*2^f <= size < 2^(f+5) + (l+1)*2^f` |
| TlsfMapping.MappingMonotone | kernel/src/allocator/tlsf.rs:178-185 | below 16 MiB larger sizes never map to earlier buckets |
| TlsfMapping.MappingMonotoneIff | kernel/src/allocator/tlsf.rs:178-185 | the classes of all sizes of at least 32 and below a limit are monotone iff the limit is at most 16 MiB |
| TlsfMapping.FirstLevelSaturates | kernel/src/allocator/tlsf.rs:181-184 | the last size below 16 MiB maps to bucket (18, 31), and 16 MiB to (18, 0) |
| TlsfMemory.PackRoundTrip | kernel/src/allocator/tlsf.rs:28-43 | size and both flags are recovered from the packed header word, for every 4-aligned size below 4 GiB |
| TlsfMemory.PackValue | kernel/src/allocator/tlsf.rs:38-43 | the packed word is the size, plus 1 if free, plus 2 if the previous block is free |
| TlsfMemory.MarkOnPackedWord | kernel/src/allocator/tlsf.rs:44-57 | each mark operation changes its own flag of the packed word and nothing else |
| TlsfMemory.LinkFrontCorrect | kernel/src/allocator/tlsf.rs:294-304 | the link writes of `insert` put the block at the front of a list linked in both directions |
| TlsfMemory.UnlinkCorrect | kernel/src/allocator/tlsf.rs:320-344 | the link writes of `remove` take out the block at any position and leave both directions linked |
| TlsfHeap.TotalConsumedBounds | kernel/src/allocator/tlsf.rs:227-250 | the bytes taken from a block cover header, padding and payload, waste less than a word beyond the minimal block of 32, and never exceed `needed`, at every power-of-two alignment |
| TlsfHeap.NeededBounds | kernel/src/allocator/tlsf.rs:114-121 | the size searched for is the larger of 8 and the alignment plus the payload, rounded up to a word, or 32 |
| TlsfHeap.InitialInv | kernel/src/allocator/tlsf.rs:93-109 | the heap `init` builds satisfies the chain invariant |
| TlsfHeap.AllocKeepsInv | kernel/src/allocator/tlsf.rs:217-289 | serving a request keeps the chain: exact tiling, sizes of at least 32 and multiples of 8, no two adjacent free blocks, slack below 32 bytes |
| TlsfHeap.ReleaseKeepsInv | kernel/src/allocator/tlsf.rs:137-174 | freeing keeps the chain, whichever neighbours are free |
| TlsfHeap.BlocksTile | kernel/src/allocator/tlsf.rs:93-174 | every heap address lies in exactly one block |
| TlsfHeap.PayloadInsideBlock | kernel/src/allocator/tlsf.rs:227-237 | each live payload is aligned as requested and lies inside its own block behind the header |
| TlsfHeap.PayloadsDisjoint | kernel/src/allocator/tlsf.rs:217-289 | live payloads share no byte |
| TlsfHeap.AllocKeepsLive | kernel/src/allocator/tlsf.rs:217-289 | `malloc` leaves every live block as it was |
| TlsfHeap.ReleaseKeepsLive | kernel/src/allocator/tlsf.rs:137-174 | `free` leaves every other live block as it was |
| TlsfHeap.ReleaseUndoesAlloc | kernel/src/allocator/tlsf.rs:137-174 | freeing an unpadded allocation at once restores the heap exactly |
| TlsfHeap.FreeableIffUnpadded | kernel/src/allocator/tlsf.rs:142-142 | a returned pointer meets `free`'s contract iff its block needed no front padding |
| TlsfHeap.SmallAlignFreeable | kernel/src/allocator/tlsf.rs:142-142 | a pointer requested with alignment at most 8 can be freed, whichever block serves it |
| TlsfHeap.LayoutIsRequestable | kernel/src/allocator.rs:34-36 | every size and alignment of a valid `Layout` is within what `malloc` is modelled for |
| TlsfHeap.PaddedPointerWitness | kernel/src/allocator/tlsf.rs:279-288 | on the kernel's 1 MiB heap a 16-aligned request already returns a pointer whose header is not at `ptr - 8` |
| TlsfHeap.NothingLiveIsInitial | kernel/src/allocator/tlsf.rs:148-172 | a heap with nothing live is the single block it started as |
| TlsfHeap.StepKeepsInv | kernel/src/allocator/tlsf.rs:111-174 | any call keeps the invariant and the heap bounds |
| TlsfHeap.RunKeepsInv | kernel/src/allocator/tlsf.rs:93-174 | every state of every run of `malloc` and `free` satisfies the chain invariant |
| TlsfHeap.RunCoalescesFully | kernel/src/allocator/tlsf.rs:93-174 | any run that ends with nothing live ends in the heap it started from |
| TlsfIndex.InsertOk | kernel/src/allocator/tlsf.rs:291-308 | `insert` keeps lists, heads, links and both bitmap levels in agreement, with one more block filed |
| TlsfIndex.RemoveOk | kernel/src/allocator/tlsf.rs:316-346 | `remove` keeps them in agreement, with one block less, for all four neighbour cases |
| TlsfIndex.LowestFrom | kernel/src/allocator/tlsf.rs:191-193 | masking a bitmap word and counting trailing zeros finds its lowest set bit from a position on, or shows there is none |
| TlsfIndex.HigherLevels | kernel/src/allocator/tlsf.rs:207-213 | the bitmap search of higher levels finds the first non-empty bucket above, or there is none |
| TlsfIndex.PicksSmallestClass | kernel/src/allocator/tlsf.rs:187-215 | below 16 MiB, of all lists whose first block is large enough the search takes the one of the smallest class |
| TlsfIndex.SingleIndexUnique | kernel/src/allocator/tlsf.rs:291-308 | a valid index of one block is determined bit for bit |
| TlsfHeaders.CoalescedHeaders | kernel/src/allocator/tlsf.rs:153-170 | the tags `free` writes are right for the coalesced chain, up to and including the sentinel |
| TlsfHeaders.SplitHeaders | kernel/src/allocator/tlsf.rs:254-267 | the tags `alloc_from` writes are right for the split chain |
| TlsfHeaders.TakenHeaders | kernel/src/allocator/tlsf.rs:271-276 | the tags `alloc_from` writes are right for a block taken whole |
| TlsfHeaders.PrevTagFindsFreeBefore | kernel/src/allocator/tlsf.rs:157-159 | the previous-block tag is set iff a free block ends here, and locates it |
| TlsfHeaders.ReleaseIsCoalesced | kernel/src/allocator/tlsf.rs:148-165 | the region `free` coalesces is the abstract release |
| TlsfPayload.NothingFitsIsExhausted | kernel/src/allocator/tlsf.rs:187-215 | the search fails on the index iff every large enough free block of the chain is passed over |
| Tlsf.TlsfAllocator.constructor | kernel/src/allocator/tlsf.rs:81-89 | all bitmaps and lists are empty |
| Tlsf.TlsfAllocator.Init | kernel/src/allocator/tlsf.rs:93-109 | one free block spans the heap, followed by the sentinel, filed under its size; all views agree |
| Tlsf.TlsfAllocator.Insert | kernel/src/allocator/tlsf.rs:291-308 | files the block at the front of its bucket's list and writes only link words |
| Tlsf.TlsfAllocator.LinkNode | kernel/src/allocator/tlsf.rs:293-307 | the link words, list head and both bitmap words become those of the index with the block in front |
| Tlsf.TlsfAllocator.Remove | kernel/src/allocator/tlsf.rs:316-346 | takes the block out of its list and writes only link words |
| Tlsf.TlsfAllocator.UnlinkNode | kernel/src/allocator/tlsf.rs:320-345 | the case the node's own links select unlinks it and updates head and bitmaps as the index model says |
| Tlsf.TlsfAllocator.Pop | kernel/src/allocator/tlsf.rs:310-314 | removes and returns the head of a list |
| Tlsf.TlsfAllocator.FindBlock | kernel/src/allocator/tlsf.rs:187-215 | returns nothing iff nothing fits; otherwise the block is at least `needed` and is the one the search order names |
| Tlsf.TlsfAllocator.AllocFrom | kernel/src/allocator/tlsf.rs:217-289 | serves the request by the transition `Alloc`, or refiles the block and fails iff it is smaller than what the request consumes |
| Tlsf.TlsfAllocator.SplitOff | kernel/src/allocator/tlsf.rs:254-270 | the remainder becomes a free block of its own, filed, with all three views in agreement |
| Tlsf.TlsfAllocator.Malloc | kernel/src/allocator/tlsf.rs:111-131 | keeps all views in agreement; fails iff the search is exhausted, so on a fresh heap below 16 MiB iff the payload and the larger of 8 and the alignment do not fit it; the pointer is aligned, the heap changes by `Alloc` on the block the search names, and no live payload word changes |
| Tlsf.TlsfAllocator.MallocWindow | kernel/src/allocator/tlsf.rs:111-131 | in any state of a heap below 16 MiB a request fails if no free block holds alignment and payload, and succeeds if some free block is twice as large as they need |
| Tlsf.TlsfAllocator.CoalesceForward | kernel/src/allocator/tlsf.rs:148-154 | the region grows to the end of the next block iff that block is free, which leaves the index |
| Tlsf.TlsfAllocator.CoalesceBackward | kernel/src/allocator/tlsf.rs:156-165 | the region grows to the start of the free block before iff there is one, which leaves the index |
| Tlsf.TlsfAllocator.FileCoalesced | kernel/src/allocator/tlsf.rs:167-172 | the next block learns of the coalesced one, which is filed; all three views agree on the release |
| Tlsf.TlsfAllocator.Free | kernel/src/allocator/tlsf.rs:133-174 | keeps all views in agreement; the heap changes by `Release`; no other live payload word changes; null is a no-op |
| Tlsf.TlsfAllocator.NothingLiveIsAsInitialised | kernel/src/allocator/tlsf.rs:93-109 | with nothing live, bitmaps and list heads are those `init` left |
| Tlsf.TlsfAllocator.ExhaustedBelow16MiB | kernel/src/allocator/tlsf.rs:187-215 | below 16 MiB `malloc` fails iff every free block of at least `needed` bytes is in the bucket of `needed` behind a smaller head |
| BuddyBlocks.Nested | kernel/src/memory/buddy.rs:165-167 | aligned power-of-two runs are nested or disjoint |
| BuddyBlocks.ParentAndBuddy | kernel/src/memory/buddy.rs:286-296 | `idx ^ (1 << order)` is the other half of the parent run, and the smaller index is the parent's |
| BuddyBlocks.CanonicalDisjoint | kernel/src/memory/buddy.rs:84-113 | maximal free runs do not overlap |
| BuddyBlocks.CanonicalCover | kernel/src/memory/buddy.rs:243-257 | every aligned free run lies in a maximal free run of at least its order |
| BuddyBlocks.BuddyIsCanonical | kernel/src/memory/buddy.rs:285-293 | next to a run with no free frame, a buddy whose bits are all set is one maximal run of that order, and conversely |
| BuddyBlocks.TakeOut | kernel/src/memory/buddy.rs:188-201 | taking out a maximal run leaves the other maximal runs and creates none |
| BuddyBlocks.PutIn | kernel/src/memory/buddy.rs:259-264 | putting in a run whose buddy is not free adds exactly that run |
| BuddySeams.TakeOutListed | kernel/src/memory/buddy.rs:188-201 | taking out a listed run, be it half of a seam, unlists that run only; the other half of a seam becomes an ordinary run |
| BuddySeams.PutInListed | kernel/src/memory/buddy.rs:259-264 | putting in a run whose buddy is not free lists that run only |
| BuddyCarve.PickIsCanonical | kernel/src/memory/buddy.rs:99-112 | each run the carving loop picks is maximal in its region, and no aligned run straddles the next position |
| BuddyCarve.CarvingIsCanonicalIff | kernel/src/memory/buddy.rs:84-113 | carving gives the canonical decomposition of the usable frames iff no aligned usable run crosses a region boundary |
| BuddyCarve.GappedIsMergeFree | kernel/src/memory/buddy.rs:84-113 | regions of which no two non-empty ones touch meet that condition |
| BuddyCarve.CarvingIsListed | kernel/src/memory/buddy.rs:84-113 | when each half of every usable run lies in one region, carving lists the maximal usable runs, those that cross a boundary as their halves |
| BuddyCarve.MergeFreeHalves | kernel/src/memory/buddy.rs:84-113 | when no usable run crosses a boundary there are no seams |
| BuddyLists.PushOk | kernel/src/memory/buddy.rs:169-186 | `insert_free`'s writes keep all lists linked in both directions, with the run in front |
| BuddyLists.RemoveOk | kernel/src/memory/buddy.rs:203-225 | `remove_free`'s writes keep all lists linked in both directions, without the run |
| BuddyBitmap.MarkFreeOk | kernel/src/memory/buddy.rs:141-144 | setting a frame's bit changes no other frame |
| BuddyBitmap.MarkAllocatedOk | kernel/src/memory/buddy.rs:146-149 | clearing a frame's bit changes no other frame |
| BuddyPool.TakeOk | kernel/src/memory/buddy.rs:243-271 | allocation keeps live runs aligned, disjoint from each other and from free frames, and covering the rest |
| BuddyPool.GiveOk | kernel/src/memory/buddy.rs:273-300 | deallocation keeps the same |
| BuddyPool.GiveUndoesTake | kernel/src/memory/buddy.rs:273-300 | returning a run restores the pool it was taken from |
| BuddyPool.TakeCount | kernel/src/memory/buddy.rs:266-266 | allocation moves exactly `2^order` frames out of the free set |
| BuddyPool.GiveCount | kernel/src/memory/buddy.rs:278-278 | deallocation returns exactly `2^order` frames |
| BuddyPool.NothingLive | kernel/src/memory/buddy.rs:273-300 | with nothing live every usable frame is free |
| BuddyPool.RunKeepsPool | kernel/src/memory/buddy.rs:243-300 | over every run live runs stay disjoint runs of usable frames, and every usable frame is free or live |
| BuddyPool.RunRestores | kernel/src/memory/buddy.rs:243-300 | a run that returns everything, in any order, ends with the initial free set and so the same maximal free runs |
| BuddyPool.ListsComplete | kernel/src/memory/buddy.rs:248-255 | some list of order at least `order` is non-empty iff an aligned free run of that order exists that is not a seam |
| BuddyPool.BuddyListed | kernel/src/memory/buddy.rs:287-293 | a buddy passes the bitmap test iff it is in the list of its own order, seams or not |
| BuddyRuns.AllocateOk | kernel/src/memory/buddy.rs:243-271 | an allocation keeps the lists right, whatever list it splits from |
| BuddyRuns.DeallocateOk | kernel/src/memory/buddy.rs:273-300 | a deallocation keeps the lists right, and every buddy it removes is listed |
| BuddyRuns.RunOk | kernel/src/memory/buddy.rs:243-300 | every state of every run keeps the invariant |
| BuddyRuns.AlwaysExactIff | kernel/src/memory/buddy.rs:284-297 | on all runs of a new allocator every buddy that passes the bitmap test is listed at its order, iff each half of every aligned usable run lies in one region |
| BuddyFrames.BuddyAllocator.IsFree | kernel/src/memory/buddy.rs:124-127 | true iff the frame is free |
| BuddyFrames.BuddyAllocator.MarkFree | kernel/src/memory/buddy.rs:141-144 | adds one frame to the free set |
| BuddyFrames.BuddyAllocator.MarkAllocated | kernel/src/memory/buddy.rs:146-149 | takes one frame from the free set |
| BuddyFrames.BuddyAllocator.MarkRangeAllocated | kernel/src/memory/buddy.rs:151-155 | takes the range from the free set |
| BuddyFrames.BuddyAllocator.MarkRangeFree | kernel/src/memory/buddy.rs:157-161 | adds the range to the free set |
| BuddyFrames.BuddyAllocator.IsRangeFree | kernel/src/memory/buddy.rs:129-139 | true iff the range is tracked and all its bits are set |
| BuddyFrames.BuddyAllocator.InsertFree | kernel/src/memory/buddy.rs:169-186 | frees the run's frames and puts it at the front of its list |
| BuddyFrames.BuddyAllocator.PopFree | kernel/src/memory/buddy.rs:188-201 | takes the head of a list and marks its frames allocated |
| BuddyFrames.BuddyAllocator.RemoveFree | kernel/src/memory/buddy.rs:203-225 | unlinks a listed run from anywhere in its list and keeps the order of the rest |
| BuddyFrames.BuddyAllocator.FrameRoundTrip | kernel/src/memory/buddy.rs:229-235 | the index computed from the address of a frame is that frame |
| BuddyFrames.BuddyAllocator.SplitDown | kernel/src/memory/buddy.rs:259-264 | returning the upper halves leaves exactly the requested run out of the free set; the lists change as the machine says |
| BuddyFrames.BuddyAllocator.FindOrder | kernel/src/memory/buddy.rs:248-255 | the first non-empty list from the order upward |
| BuddyFrames.BuddyAllocator.AllocateFrameOrder | kernel/src/memory/buddy.rs:243-271 | `None` iff the order exceeds 10 or every aligned free run of it is a seam; otherwise lists, bitmap and live runs change as the machine says, frames are conserved and only free frames are written |
| BuddyFrames.BuddyAllocator.CoalesceUp | kernel/src/memory/buddy.rs:284-297 | absorbs free buddies, each out of its list, until the run is of the top order or its buddy is not free; the lists change as the machine says |
| BuddyFrames.BuddyAllocator.DeallocateFrameOrder | kernel/src/memory/buddy.rs:273-300 | returns the run, merging every free buddy; lists, bitmap and live runs change as the machine says, frames are conserved and only free or returned frames are written |
| BuddyFrames.BuddyAllocator.FreeFrames | kernel/src/memory/buddy.rs:306-308 | reports free frames plus tracked unusable ones; exact iff every tracked frame is usable |
| BuddyFrames.BuddyAllocator.ScanRegions | kernel/src/memory/buddy.rs:45-58 | finds the lowest start and the highest end of the usable regions, and whether there are any |
| BuddyFrames.BuddyAllocator.MarkUsable | kernel/src/memory/buddy.rs:70-82 | the free set becomes the tracked frames of the usable regions |
| BuddyFrames.BuddyAllocator.PickOrder | kernel/src/memory/buddy.rs:100-106 | the largest order that is aligned at the position and fits the region |
| BuddyFrames.BuddyAllocator.CarveRegion | kernel/src/memory/buddy.rs:89-112 | lists exactly the maximal runs of the region |
| BuddyFrames.BuddyAllocator.CarveAll | kernel/src/memory/buddy.rs:84-113 | the lists hold exactly the maximal runs of all regions |
| BuddyFrames.MapGappedIsGapped | kernel/src/memory/buddy.rs:70-113 | page-aligned gaps of the memory map remain gaps between the tracked frame ranges |
| BuddyWitnesses.CrossedAllocator | kernel/src/memory/buddy.rs:285-293 | a memory map of three touching regions from which some run fails a bitmap test |
| BuddyWitnesses.SeamAllocator | kernel/src/memory/buddy.rs:285-293 | a memory map of two touching regions with a seam, on which no run ever does |
| BuddyWitnesses.HoleAllocator | kernel/src/memory/buddy.rs:306-308 | a memory map on which `free_frames` reports 3 with 2 frames free |
| BuddyFrames.BuddyAllocator.New | kernel/src/memory/buddy.rs:35-116 | the base is the lowest usable start and the frame count the tracked part of the span; usable tracked frames are free; the lists hold the maximal runs of each region. The bitmap test is exact on all runs iff each half of every usable run lies in one region, and then the allocator is valid; the lists are canonical iff no usable run crosses a boundary |
| ArrayQueues.PushRefines | kernel/src/array_queue.rs:43-59 | while in step, `push` is a bounded FIFO's push, across counter wraparound |
| ArrayQueues.PopRefines | kernel/src/array_queue.rs:61-74 | `pop` is a FIFO's pop, wrapped counters or not |
| ArrayQueues.RunRefines | kernel/src/array_queue.rs:43-78 | after every run in step the ring holds what the FIFO holds |
| ArrayQueues.RunIsFaithful | kernel/src/array_queue.rs:43-78 | every outcome of every run in step is the FIFO's |
| ArrayQueues.OutOfStepFails | kernel/src/array_queue.rs:52-56 | for every capacity that does not divide 2^64 there is a run after which `pop` answers differently from the FIFO |
| ArrayQueues.FifoOnAllRunsIff | kernel/src/array_queue.rs:43-78 | FIFO on all runs iff the capacity divides 2^64 |
| ArrayQueues.KernelQueuesOutOfStep | kernel/src/task/executor.rs:9-9 | the kernel queue capacity 100 does not divide 2^64 |
| ArrayQueues.KernelQueueFails | kernel/src/array_queue.rs:43-74 | a queue of 100 slots has a run after which `pop` answers differently from a FIFO |
| ArrayQueues.ArrayQueue.constructor | kernel/src/array_queue.rs:28-41 | an empty FIFO of the given capacity |
| ArrayQueues.ArrayQueue.Push | kernel/src/array_queue.rs:43-59 | the ring's push, and the FIFO's push while in step |
| ArrayQueues.ArrayQueue.Pop | kernel/src/array_queue.rs:61-74 | the ring's pop, and the FIFO's pop |
| ArrayQueues.ArrayQueue.IsEmpty | kernel/src/array_queue.rs:76-78 | true iff nothing is queued |
| WakeProtocol.SpawnAllIff | kernel/src/task/executor.rs:32-40 | spawning succeeds iff there are at most 100 tasks with distinct ids, and queues them in order |
| WakeProtocol.InitInv | kernel/src/task/executor.rs:24-40 | the executor starts in the wake invariant |
| WakeProtocol.DroppedWakeIsHarmless | kernel/src/task/executor.rs:101-105 | when a wake finds the task queue full, the woken task is already queued |
| WakeProtocol.MainKeepsInv | kernel/src/task/keyboard.rs:73-91 | every main-thread step keeps the wake invariant |
| WakeProtocol.InterruptKeepsInv | kernel/src/task/keyboard.rs:19-29 | the interrupt handler keeps it at every point where it can run |
| WakeProtocol.RunKeepsInv | kernel/src/task/executor.rs:42-79 | every state of every interleaving satisfies it |
| WakeProtocol.NoLostWakeup | kernel/src/task/executor.rs:70-79 | the processor never halts with an undelivered scancode, and the waker is armed when it halts |
| WakeProtocol.DeliveredIsPrefix | kernel/src/task/keyboard.rs:73-91 | scancodes delivered are always a prefix of those accepted |
| WakeProtocol.EventuallyDelivered | kernel/src/task/executor.rs:42-79 | from any state of the invariant, once interrupts pause, the main thread halts with every accepted scancode delivered, whatever other tasks do |
| WakeProtocol.RunReachesHalt | kernel/src/task/executor.rs:63-79 | every run can be continued to an idle halt with everything it accepted delivered |
| WakeProtocol.RunsExist | kernel/src/task/executor.rs:24-40 | any list of at most 100 distinct tasks that has the keyboard task starts a run |
| WakeProtocol.MainProgress | kernel/src/task/executor.rs:42-79 | every main-thread step before a halt decreases queued tasks, then scancodes, then the distance to the halt |
| WakeEvents.AcceptedIffRoom | kernel/src/task/keyboard.rs:19-29 | an interrupt's scancode is accepted iff the stream exists and fewer than 100 accepted ones are waiting; otherwise nothing is |
| WakeEvents.HeardIsAccepted | kernel/src/task/keyboard.rs:19-29 | over every interleaving the scancodes accepted are exactly those sent once the stream exists and with fewer than 100 waiting, in order |
| WakeEvents.HeardIsDelivered | kernel/src/task/keyboard.rs:19-91 | and once interrupts pause the main thread halts with exactly those delivered, in order |
| WakeEvents.EveryTaskPolledOnce | kernel/src/task/executor.rs:42-62 | over every interleaving that ends in a halt each spawned task other than the keyboard task is polled exactly once, and is still a task iff that poll did not finish it |
| WakeEvents.OnePollPerWake | kernel/src/task/executor.rs:42-62 | the keyboard task is polled once to start it and once for every wake that reached the queue |
| WakeEvents.HaltingSchedule | kernel/src/task/executor.rs:63-79 | main-thread steps alone reach a halt from every start |
| KernelMachine.Machine.constructor | kernel/src/task/executor.rs:25-30 | the empty executor of the protocol |
| KernelMachine.Machine.Boot | kernel/src/task/executor.rs:32-40 | spawning all tasks succeeds iff there are at most 100 with distinct ids, and with the keyboard task among them establishes the wake invariant |
| KernelMachine.Machine.HaltedIsIdle | kernel/src/task/executor.rs:70-79 | no lost wakeup on the rings themselves: a halted machine has empty scancode and task rings and an armed waker, and has delivered all it accepted |
| KernelMachine.Machine.Wake | kernel/src/async_utils.rs:77-81 | the protocol's wake, on the waker cell and the task ring |
| KernelMachine.Machine.Spawn | kernel/src/task/executor.rs:32-40 | the protocol's spawn, failing where the kernel panics |
| KernelMachine.Machine.AddScancode | kernel/src/task/keyboard.rs:19-29 | the protocol's interrupt transition, on the scancode ring; the scancode is accepted iff the stream exists and fewer than 100 are waiting |
| KernelMachine.Machine.Interrupt | kernel/src/task/keyboard.rs:19-29 | the interrupt, which also ends a halt, is the protocol transition and keeps the wake invariant |
| KernelMachine.Machine.OtherInterrupt | kernel/src/task/executor.rs:74-76 | an interrupt that brings no scancode only ends a halt, and keeps the wake invariant |
| KernelMachine.Machine.ExecutorStep | kernel/src/task/executor.rs:42-79 | each step of the task loop and of the sleep decision is the protocol's and keeps the wake invariant |
| KernelMachine.Machine.StreamStep | kernel/src/task/keyboard.rs:55-91 | each step of the stream's creation and of `poll_next` is the protocol's and keeps the wake invariant |
| FsPath.SplitPathProper | kernel/src/fs/mod.rs:223-228 | components are non-empty and contain no slash |
| FsPath.SplitPathIsWords | kernel/src/fs/mod.rs:223-228 | trimming slashes first does not change the components |
| FsPath.ResolveAgrees | kernel/src/fs/mod.rs:200-221 | with components, `resolve_path` yields all but the last and the last of `split_path`, and rejects exactly "." and ".." as last name |
| FsPath.ResolveNoComponents | kernel/src/fs/mod.rs:200-221 | without components it rejects "" and "/" and resolves longer runs of slashes to the empty name |
| FsFlat.CreateKeepsOk | kernel/src/fs/mod.rs:65-107 | creation keeps the map prefix-closed and within all limits |
| FsFlat.WriteKeepsOk | kernel/src/fs/mod.rs:114-120 | writing keeps the invariant |
| FsFlat.AppendKeepsOk | kernel/src/fs/mod.rs:122-132 | appending keeps the invariant |
| FsFlat.ParentIsFront | kernel/src/fs/mod.rs:200-221 | creation and removal act on the path that lookups use, except for slashes without a component |
| FsFlat.RemoveKeepsOk | kernel/src/fs/mod.rs:146-152 | removal keeps the map prefix-closed and within all limits |
| FsFlat.RunKeepsLimits | kernel/src/fs/mod.rs:6-13 | over every run: files at most 64 KiB, at most 128 children, depth at most 17, inodes at most the counter, counter at most 512 |
| FsFlat.LeakStep | kernel/src/fs/mod.rs:146-152 | a call widens the gap between counter and inodes by the number of inodes below a directory it removes, so iff that is not empty |
| FsFlat.CounterExactIff | kernel/src/fs/mod.rs:146-152 | over a run the counter is exact iff no non-empty directory was removed |
| FsWitnesses.CounterLeaks | kernel/src/fs/mod.rs:146-152 | creating `/a` and `/a/b` and removing `/a` leaves one inode and a counter of 2 |
| FsFlat.CreateThenLookup | kernel/src/fs/mod.rs:65-85 | a created entry is found again iff its path has 1 to 16 components |
| FsWitnesses.SeventeenthLevel | kernel/src/fs/mod.rs:168-172 | a run of calls after which a file is created at a path of 17 components and every lookup of it is too deep |
| FsWitnesses.EmptyName | kernel/src/fs/mod.rs:200-221 | the path of two slashes creates a child with the empty name and reads as the root |
| FsFlat.WriteThenRead | kernel/src/fs/mod.rs:109-120 | what is written is read back |
| FsFlat.AppendThenRead | kernel/src/fs/mod.rs:122-132 | what is appended is read back after what was there |
| FsFlat.CreateWriteRead | kernel/src/fs/mod.rs:15-24 | create, write and read of a reachable path, for data up to 64 KiB and no more |
| FsFlat.CallsAreLocal | kernel/src/fs/mod.rs:65-152 | a call leaves every unrelated path as it was |
| FsFlat.RemoveIsExact | kernel/src/fs/mod.rs:146-152 | removal deletes exactly the path and its extensions |
| FsFlat.RemoveUndoesCreate | kernel/src/fs/mod.rs:146-152 | removing what was just created restores the filesystem |
| FsLaws.LookupsAgree | kernel/src/fs/mod.rs:109-144 | `exists`, `read_file` and `list_dir` agree on whether a path is a file, a directory, too deep or not there |
| FsLaws.ListedIffExists | kernel/src/fs/mod.rs:134-144 | a directory at depth below 16 lists exactly the non-empty slash-free names that exist in it |
| FsLaws.CreateOutcome | kernel/src/fs/mod.rs:65-107 | which error a creation gives, or that it succeeds, from the counter, the name and the parent's listing |
| FsLaws.RemoveOutcome | kernel/src/fs/mod.rs:146-152 | which error a removal gives, or that it succeeds, from the name and the parent's listing |
| FsLaws.WriteOutcome | kernel/src/fs/mod.rs:114-120 | a write succeeds iff the data is at most 64 KiB and the file can be read |
| FsLaws.AppendOutcome | kernel/src/fs/mod.rs:122-132 | an append succeeds iff the file can be read and is with the data at most 64 KiB |
| FsLaws.CreateListing | kernel/src/fs/mod.rs:65-107 | a creation adds its last component to its parent's listing and changes no other; a new directory lists nothing |
| FsLaws.RemoveListing | kernel/src/fs/mod.rs:146-152 | a removal takes its last component out of its parent's listing and changes no other listing outside what it removes |
| FsTree.SetKindView | kernel/src/fs/mod.rs:180-190 | changing the node at a path changes what is seen at and below it and nothing else |
| FsTree.ChildrenAreChildNames | kernel/src/fs/mod.rs:161-166 | a directory's children are the names the flat map lists |
| FsTree.SetFileOk | kernel/src/fs/inode.rs:48-66 | replacing file contents changes exactly that entry |
| FsTree.AddLeafOk | kernel/src/fs/mod.rs:77-84 | inserting a child adds exactly that entry, with its name equal to its key |
| FsTree.RemoveChildOk | kernel/src/fs/inode.rs:96-101 | removing a child removes exactly its subtree |
| FileSystems.FindInode | kernel/src/fs/mod.rs:168-178 | the loop finds the node at the path, or reports depth or absence |
| FileSystems.FindDir | kernel/src/fs/mod.rs:192-198 | the same for directories, rejecting files |
| FileSystems.FoundIsLocate | kernel/src/fs/mod.rs:168-178 | a tree lookup gives what the flat map says |
| FsNames.SortedIsAscending | kernel/src/fs/mod.rs:137-137 | the listing order is strictly ascending, with every name and nothing else |
| FsNames.BeforeIff | kernel/src/fs/mod.rs:137-137 | names are ordered by their first difference, a prefix before its extensions |
| FileSystems.FileSystem.constructor | kernel/src/fs/mod.rs:58-63 | only the root directory, counted once |
| FileSystems.FileSystem.CreateInode | kernel/src/fs/mod.rs:65-107 | `create_file` and `create_dir`: tree, counter and result change as the flat creation says, every error in its order |
| FileSystems.FileSystem.ReadFile | kernel/src/fs/mod.rs:109-112 | returns the contents, or the error, that the flat map gives for the path |
| FileSystems.FileSystem.WriteFile | kernel/src/fs/mod.rs:114-120 | replaces the contents of that one file, or fails as the flat map says, the size limit first |
| FileSystems.FileSystem.AppendFile | kernel/src/fs/mod.rs:122-132 | extends the contents of that one file, or fails as the flat map says, the size limit last |
| FileSystems.FileSystem.ListDir | kernel/src/fs/mod.rs:134-140 | lists the flat map's child names in ascending order, or fails as it says |
| FileSystems.FileSystem.PathExists | kernel/src/fs/mod.rs:142-144 | true iff the flat map has a reachable entry |
| FileSystems.FileSystem.RemovePath | kernel/src/fs/mod.rs:146-152 | removes the entry with its whole subtree and decrements the counter by one, or fails as the flat map says |
| Framebuffer.PixelsApart | kernel/src/framebuffer.rs:73-76 | different pixels occupy different bytes |
| Framebuffer.PaintedPixel | kernel/src/framebuffer.rs:69-94 | writing a pixel changes that pixel and no other |
| Framebuffer.ScrolledPixel | kernel/src/framebuffer.rs:133-146 | the byte move and fill shift every pixel up and blacken the bottom rows |
| Framebuffer.ScrolledShows | kernel/src/framebuffer.rs:133-146 | after scrolling each cell shows what the cell below it showed |
| Framebuffer.GlyphShown | kernel/src/framebuffer.rs:96-121 | a glyph drawn in one cell leaves what every other cell shows |
| Framebuffer.OffsetInBuffer | kernel/src/framebuffer.rs:73-76 | every on-screen pixel lies in a covering buffer |
| Framebuffer.OffsetSteps | kernel/src/framebuffer.rs:73-73 | pixels lie side by side from the start of the buffer, rows a stride apart |
| Framebuffer.PaintedBytes | kernel/src/framebuffer.rs:77-93 | a painted pixel's bytes are red, green, blue, reversed in a BGR buffer |
| Framebuffer.GlyphSpellsFont | kernel/src/framebuffer.rs:97-112 | a glyph row read from left to right spells the font byte of the character, or of the last glyph for bytes that are not printable |
| Framebuffer.FilterKeepsGlyph | kernel/src/framebuffer.rs:276-283 | printable and control bytes pass through; what is replaced shows the same glyph |
| Framebuffer.FrameBufferWriter.ReadPixel | kernel/src/framebuffer.rs:285-310 | returns nothing iff the pixel is off the screen or past the buffer; on a covering buffer, the color painted there |
| Framebuffer.FrameBufferWriter.WritePixel | kernel/src/framebuffer.rs:69-94 | the buffer with that pixel painted, unchanged off the screen or past the buffer |
| Framebuffer.FrameBufferWriter.FillBlock | kernel/src/framebuffer.rs:114-118 | every on-screen pixel of the block gets the color, all others keep theirs |
| Framebuffer.FrameBufferWriter.CopyDown | kernel/src/framebuffer.rs:142-142 | the overlapping move places the range at the front and keeps the rest |
| Framebuffer.FrameBufferWriter.FillZero | kernel/src/framebuffer.rs:145-145 | the range becomes zero and the rest stays |
| Framebuffer.FrameBufferWriter.DrawChar | kernel/src/framebuffer.rs:96-121 | each on-screen pixel of the scaled cell gets its glyph bit's color, all other pixels keep theirs |
| Framebuffer.FrameBufferWriter.ScrollUp | kernel/src/framebuffer.rs:133-146 | every pixel moves up one text row over a black bottom row; a screen of one row or less is unchanged |
| Framebuffer.FrameBufferWriter.NewLine | kernel/src/framebuffer.rs:148-157 | goes to the first column; moves down one text row if the next row fits, otherwise scrolls and stays; a cursor row on the screen stays on it |
| Framebuffer.FrameBufferWriter.PaintCursor | kernel/src/framebuffer.rs:199-214 | the lowest pixel rows of the cursor's cell get the color, and no pixel outside the cell changes |
| Framebuffer.FrameBufferWriter.WriteByte | kernel/src/framebuffer.rs:216-274 | after any byte the screen shows the terminal after that byte: cursor on its cell and its bar if shown, colors, escape state, and every known cell pixel by pixel |
| Framebuffer.FrameBufferWriter.WriteString | kernel/src/framebuffer.rs:276-283 | after any string the screen shows the terminal after its bytes, unprintable ones replaced |
| Framebuffer.FrameBufferWriter.CellSeen | kernel/src/framebuffer.rs:285-310 | a known cell's pixels on the screen are those of its glyph |
| TextGrid.CursorStaysOnGrid | kernel/src/framebuffer.rs:216-274 | over any bytes the cursor stays on the grid of cells, at most one column past its end |
| TextGrid.TextIsLaidOut | kernel/src/framebuffer.rs:220-243 | any text of printable bytes and newlines appears byte by byte from the cursor on, wrapped at the right edge and scrolled at the bottom, and the cursor ends after it |
| TextGrid.ColorSequence | kernel/src/framebuffer.rs:246-272 | an escape sequence of up to eight parameter bytes draws nothing, leaves the cursor, and sets the colors by its first parameter |
| TextGrid.ColorCodes | kernel/src/framebuffer.rs:159-180 | the decimal codes 30 to 37 and 40 to 47 set foreground and background, 0 restores grey on black, and every other code of up to eight digits does nothing |
| TextGrid.AnsiChannels | kernel/src/framebuffer.rs:11-20 | the bits of a color's number are its red, green and blue channels, except brown |
| TextGrid.EscapeIsInvisible | kernel/src/framebuffer.rs:246-272 | bytes of an escape sequence change nothing but the escape state, except colors at the final `m` |
| TextGrid.CursorShown | kernel/src/framebuffer.rs:222-243 | after every other byte the cursor is shown in the foreground color |
| TextGrid.BackspaceUndoes | kernel/src/framebuffer.rs:227-233 | a backspace after a byte returns the cursor to where it was and forgets only the two cells it stood on |
| TextGrid.BackspaceAtEdge | kernel/src/framebuffer.rs:227-233 | a backspace in the first column leaves the cursor there |
| TextGrid.BackspacesUndo | kernel/src/framebuffer.rs:227-233 | typing within a row and backspacing as often brings the cursor back |

## Left out

- `kernel/src/allocator/bump.rs` and `linked_list.rs`: reference allocators that are not the global one; they are not modelled.
- Tlsf.TlsfAllocator.Free: pointers with front padding are outside its contract, because their header is not at `ptr - 8`; `FreeableIffUnpadded` says exactly which.
- Tlsf.TlsfAllocator.Malloc: requests whose size plus alignment overflows a `usize` are excluded; no valid `Layout` is one (`LayoutIsRequestable`). An unchecked multiplication in `mapping` is modelled as wrapping.
- Tlsf.TlsfAllocator.Init: the heap is 8-aligned, at least 32 bytes and below 4 GiB; the source states only the last and relies on the caller for the rest.
- Header words are kept as records in the allocator; that the packed 32-bit form carries the same information is proved apart (`PackRoundTrip`, `MarkOnPackedWord`).
- BuddyFrames.BuddyAllocator.New: a memory map without usable regions, on which the kernel panics, and overlapping or unaligned usable regions are excluded.
- BuddyFrames.BuddyAllocator.AllocateFrameOrder: stated for allocators on which the bitmap test is exact; on the others a deallocation unlinks a run that is in no list, and what memory then holds is not modelled.
- BuddyFrames.BuddyAllocator.DeallocateFrameOrder: the same, and the frame was allocated with the same order and not yet returned.
- ArrayQueues.ArrayQueue.Push: beyond 2^64 pushes the FIFO claim is made only for capacities that divide 2^64, because it is false for the others.
- KernelMachine.Machine.AddScancode: stated while the ring counters have not wrapped, for the same reason.
- KernelMachine.Machine.Interrupt: the same.
- KernelMachine.Machine.Spawn: the same.
- KernelMachine.Machine.Wake: the same.
- `find_inode_mut` and `find_dir_mut` return references into the tree; the model finds the node and then replaces its contents along the same path.
- Framebuffer.FrameBufferWriter.DrawChar: pixel claims are made when the stride covers the width, a pixel has at least 3 bytes and the buffer covers the screen; otherwise pixels may overlap.
- Framebuffer.FrameBufferWriter.WriteByte: which glyph shows in a cell the cursor has been drawn on is not stated until it is drawn over, because the cursor erases part of it.
- `clear_screen`, `set_cursor` and changing the scale: they would add only easier members; the font is an arbitrary 1536-byte table.
- Framebuffer.FrameBufferWriter.ScrollUp: the buffer holds the whole screen; on a shorter one the kernel panics.
- Page tables, `init_heap`, APIC, PIC, UART, GDT, SSE, panic output, tracing and metrics: hardware access and counters with no state the model needs.
- The shell and keyboard decoding: user interface; the keyboard task is modelled up to the scancode it is handed.
- Weak memory orderings, several cores and real time: the source describes itself as single-core (kernel/src/async_utils.rs:54), so steps interleave atomically.
- Other tasks are modelled as finishing or suspending when polled, and never as sources of wakes.
