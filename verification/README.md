# kernel-r in Dafny

A model of the core of kernel-r, a small x86-64 kernel, with proofs of the
properties its data structures and protocols are built on.
`dafny verify dfyconfig.toml` verifies the whole project.

## What is modelled

**The run queue** (`PackedWord`, `RbShape`, `NodeStore`, `Rotation`,
`InsertFixup`, `RemoveFixup`, `RemoveSplice`, `EevdfWalk`, `EevdfTrace`,
`EevdfOptimal`, `RunTree`). A red-black tree with parent pointers that is
updated in place. The node memory is a map from addresses to records; the
methods of `RunTree` follow the C code statement by statement, and a ghost
zipper (a focused subtree and the path above it) says which tree the memory
holds at each point. Insertion, deletion with its non-textbook fixup loop, and
the EEVDF pick are proved on every valid tree.

**Physical memory** (`BuddyBlocks`, `BuddyGeometry`, `BuddyRuns`,
`BuddyBitmap`, `FreeList`, `BuddyCount`, `BuddyAllocator`, `FrameAllocator`,
`Boot`). The binary buddy allocator with doubly linked free lists inside the
free blocks and one bit per pair of buddies. Blocks are named by order and
index; `BuddyRuns` states what every run keeps on sets of blocks, and
`BuddyAllocator` keeps lists, bits and sets in agreement. `Boot` covers
reserved regions, the bump allocator and the feeding of usable memory.

**Address spaces** (`PageTree`, `PageRelease`, `AddressSpace`, `VirtualPages`,
`PageCost`, `Brk`). Four-level page tables (section 4.5 of the Intel SDM,
volume 3A) in a memory of 512-entry tables. The user half is a tree of frames;
its translation is a flat map from pages to frames and rights. `Brk` is
`sys_brk` with its rollback.

**Threads** (`SchedView`, `SchedPick`, `ThreadArena`, `Accounting`,
`Fairness`, `Scheduler`, `FairScheduler`, `Blocking`). The scheduler is a
class over the arena and the run tree; `SchedView` gives its state as a value,
with the invariant that says where every thread is. Each critical section
(interrupts are off, there is one core) is one method. `SchedPick` says which
thread runs next, and why. `Fairness` adds the accounting up over whole runs,
and `FairScheduler` carries it over to the scheduler.

**Protocols** (`Agents`, `Semaphore`, `Mutex`, `Mailbox`, `RingBuffer`). State
machines over the atomic steps of any number of agents: threads and interrupt
handlers. `Blocking` shows that the critical sections of semaphore and mutex,
on the real scheduler queues, are steps of these machines.

**The kernel heap** (`Slab`, `HeapLayout`, `HeapView`, `HeapService`, `Heap`).
Slab lists threaded through pages for small requests, the buddy allocator for
large ones.

Helper modules: `Options`, `Powers`, `Sequences`.

## Conventions

- Pointers and addresses are natural numbers, 0 is the null pointer.  The
  memory that the kernel reaches through raw pointers is a map or an array
  field of the owning class, and the methods rewrite it in the order of the
  source.
- 64-bit wrap-around is written out where it can matter: in the accounting.
- A panic is an outcome (`None`, `false`) where a caller can cause it, and is
  proved unreachable where the invariants exclude it: a corrupted free list in
  the arena, a tree node whose owner is not in the arena, a bit index outside
  the bitmap.
- Clocks, weights, layouts, memory maps and reserved regions are parameters.

## Where code and documentation differ

- The comments on the buddy bitmap speak of one bit per pair of order 0.  The
  code packs all orders into one bitmap, and the size it asks for reaches all
  of memory only between 2^16 and 2^27 bytes (`BitmapSizeSuffices`,
  `NoAliasIff`).
- The mailbox is documented to have a semaphore count that always equals the
  number of queued messages.  That holds exactly when no operation is half
  done (`CountIsLength`); `CountLags` is a reachable state in which it fails.
- A thread that slept is meant to have its virtual runtime raised to near the
  system clock.  The value is recomputed right afterwards, so waking leaves it
  as it was (`WakeAccounted`).
- A new thread's deadline is computed with an extra factor of 1024 that later
  updates do not have, so it starts out 1024 slices away instead of one
  (`NewThreadValues`).
- The pick is described as earliest deadline first among eligible threads.
  The walk takes one child and never turns back, so it is that exactly when
  nothing it bypassed is earlier (`PickIsEarliest`).  The subtree minima it
  relies on are never updated (`OwnHintsMiss`), but exact minima would not do
  either: a left child that promises anything better than the current node
  hides a still better right one (`ExactHintsMiss`,
  `TrustedPickIsEarliest`).
- Memory is documented to be fed in the largest possible blocks.  That holds
  within a region; a block is not joined with a free buddy that was fed before
  (`GrowKeeps`, `TouchingRegions`).

## Model

| member | source | states |
|---|---|---|
| `PackedWord.WithColor` | src/rbtree.c:48-50 | a written colour is read back and the parent pointer is untouched |
| `PackedWord.WithParent` | src/rbtree.c:53-56 | writing a parent keeps the colour, and the parent is read back if and only if the pointer is 4-byte aligned |
| `RbShape.HeightBound` | src/rbtree.c:153-216 | a red-black tree of n nodes is at most 2 log2(n + 1) deep (2^height <= (n + 1)^2) |
| `Rotation.RotLeftZipped` | src/rbtree.c:58-86 | the writes of a left rotation turn the store of any zipper into the store of the rotated tree: same in-order sequence, parent links right, nothing else touched |
| `Rotation.RotRightZipped` | src/rbtree.c:88-115 | the mirror image for a right rotation |
| `RunTree.RunTree.RotateLeft` | src/rbtree.c:58-86 | in place: the store holds the rotated tree under the same path, keys and foreign nodes untouched |
| `RunTree.RunTree.RotateRight` | src/rbtree.c:88-115 | in place: the mirror image |
| `InsertFixup.RecolorStep` | src/rbtree.c:163-168 | a red uncle: recolouring moves the only possible red-red edge two levels up |
| `InsertFixup.StraightenStep` | src/rbtree.c:170-175 | the triangle case keeps the invariant of the loop |
| `InsertFixup.LineStep` | src/rbtree.c:177-183 | the line case ends the loop: no red-red edge is left |
| `InsertFixup.InsertDone` | src/rbtree.c:213-215 | blackening the root after the loop leaves a red-black tree |
| `RunTree.RunTree.InsertFixup` | src/rbtree.c:153-216 | for every red-black tree with one red leaf hung in, the loop terminates in a red-black tree with the same sequence of nodes |
| `RunTree.RunTree.FindParent` | src/rbtree.c:128-138 | the descent ends at a node whose slot on the side of the key is free, with all keys not larger before the new place and all larger ones behind it |
| `RunTree.RunTree.Insert` | src/rbtree.c:117-151 | every valid tree and every detached node: a valid red-black tree, sorted by vruntime, with correct parent links, whose in-order sequence is the old one with exactly this node inserted after its equals; only links change |
| `RemoveFixup.RedSiblingStep` | src/rbtree.c:236-242 | case 1 keeps the black deficit at the same node and makes the sibling black |
| `RemoveFixup.PassUpStep` | src/rbtree.c:244-250 | case 2 moves the deficit one level up |
| `RemoveFixup.TurnStep` | src/rbtree.c:252-260 | case 3 keeps the deficit and makes the far nephew red |
| `RemoveFixup.AbsorbStep` | src/rbtree.c:262-269 | case 4 removes the deficit |
| `RemoveFixup.RemoveDone` | src/rbtree.c:307-310 | painting x black at the end of the loop leaves a red-black tree |
| `RunTree.RunTree.RemoveStep` | src/rbtree.c:232-304 | every round keeps the invariant, the sequence of nodes and the keys, and makes progress in a measure that also covers the rounds that loop again after cases 1 and 3; x may be NULL |
| `RunTree.RunTree.RemoveFixup` | src/rbtree.c:224-311 | from any tree short of one black node at the focus the loop terminates in a red-black tree with the same sequence of nodes |
| `RunTree.RunTree.Transplant` | src/rbtree.c:313-323 | exactly the two writes: the link above u and the parent of v |
| `RunTree.RunTree.Leftmost` | src/rbtree.c:365-372 | NULL for the empty tree, otherwise the node with nothing before it in order |
| `RunTree.RunTree.UnlinkTwo` | src/rbtree.c:338-360 | a node with two children is replaced by its successor, which keeps the colour of the place; x and x_parent are right in both the direct and the deep case |
| `RunTree.RunTree.Remove` | src/rbtree.c:325-364 | every valid tree and every node in it: a valid red-black tree with correct parent links whose in-order sequence is the old one without exactly this node; only links of tree nodes change |
| `EevdfWalk.CourseBest` | src/rbtree.c:374-401 | the node the walk ends with is eligible and has the earliest deadline of all eligible nodes looked at; the walk is no longer than the tree is high |
| `EevdfWalk.CourseFinds` | src/rbtree.c:396-400 | if any node of the tree is eligible the walk ends with one, whatever the min_deadline values are: an ineligible node has no eligible ones to its right |
| `EevdfWalk.CourseDescends` | src/rbtree.c:385-395 | the nodes looked at form a descent that goes right only from eligible nodes and stops where no child promises an earlier deadline |
| `EevdfTrace.CourseTraces` | src/rbtree.c:374-401 | told from the node fields alone: from an ineligible node the walk goes left; from an eligible one it goes left if and only if there is a left child whose min_deadline is strictly earlier than the best deadline so far, else right under the same test, else it ends; on ties the first node seen stays the best |
| `EevdfTrace.TraceUnique` | src/rbtree.c:374-401 | these rules leave one walk and one end for every tree |
| `RunTree.RunTree.Walk` | src/rbtree.c:375-401 | the loop over the real nodes looks at exactly the nodes of this course, in this order, and ends with its best one; every turn is the one the node fields call for |
| `EevdfOptimal.CourseCovers` | src/rbtree.c:374-401 | every eligible node is looked at or lies below an eligible visited node, in a subtree the walk does not enter |
| `EevdfOptimal.PickIsEarliest` | src/rbtree.c:374-401 | for arbitrary min_deadline values the walk ends with the earliest deadline of all eligible nodes if and only if no eligible bypassed node has an earlier one |
| `EevdfOptimal.TrustedPickIsEarliest` | src/rbtree.c:386-395 | if every min_deadline is at most the deadlines below it, the same holds with only the right subtrees left behind on a left turn from an eligible node |
| `EevdfOptimal.ExactHintsMiss` | src/rbtree.c:386-389 | three eligible nodes whose min_deadline values are the exact subtree minima, and the walk ends with deadline 9 although one has deadline 2 |
| `EevdfOptimal.OwnHintsMiss` | src/process/process.rs:365-377 | four eligible nodes whose min_deadline is their own deadline, as threads are created, and the walk ends with deadline 5 although one has deadline 1 |
| `RunTree.RunTree.Pick` | src/rbtree.c:374-405 | NULL if and only if the tree is empty; an eligible node whenever one exists, otherwise one of least vruntime, for arbitrary min_deadline values; of earliest deadline if and only if nothing bypassed is earlier; every turn follows from the node fields; the descent visits at most 2 log2(n + 1) nodes |
| `BuddyBlocks.SplitTiles` | src/mm/buddy.rs:221-236 | splitting a block keeps the blocks disjoint and the covered pages the same |
| `BuddyBlocks.MergeTiles` | src/mm/buddy.rs:305-311 | so does merging two buddies |
| `BuddyBlocks.CarveKeeps` | src/mm/buddy.rs:212-241 | taking a block and halving it down to the wanted order keeps the tiling, adds exactly the returned block to the live ones and keeps the free blocks coalesced |
| `BuddyBlocks.AbsorbKeeps` | src/mm/buddy.rs:297-320 | freeing a live block and merging as far as possible keeps the tiling, removes exactly that block from the live ones and keeps the free blocks coalesced |
| `BuddyBlocks.CanonicalForm` | src/mm/buddy.rs:164-189 | two coalesced families of blocks that cover the same pages are equal |
| `BuddyBlocks.FreeDeterminedByLive` | src/mm/buddy.rs:297-320 | what is free is determined by what was fed in and what is handed out, not by the order of the calls |
| `BuddyRuns.CutUnique` | src/mm/buddy.rs:164-189 | there is only one way to cut a region into blocks that could not be larger |
| `BuddyRuns.CuttingNext` | src/mm/buddy.rs:166-188 | each round carves the next block of that cut |
| `BuddyRuns.GrowKeeps` | src/mm/buddy.rs:164-189 | feeding new memory keeps the tiling, and leaves no two free buddies if and only if there were none before and no free block is the buddy of a piece |
| `BuddyRuns.IslandClean` | src/mm/buddy.rs:164-189 | which is so if the neighbouring pages are not managed |
| `BuddyRuns.TouchingRegions` | src/mm/buddy.rs:164-189 | and is not so for two pages fed one after the other: they remain two blocks |
| `BuddyRuns.RunKeeps` | src/mm/buddy.rs:164-320 | in every run of feeding, allocations and legal frees the free and live blocks are disjoint and cover exactly the fed pages, and buddies are never both free unless a piece was fed beside its free buddy |
| `BuddyRuns.RunRestores` | src/mm/buddy.rs:164-320 | whenever the same blocks of the same memory are handed out at two points of a run the same blocks are free: releasing everything in any order restores the start |
| `BuddyGeometry.BuddyAddr` | src/mm/buddy.rs:307-310 | addr ^ size is the address of the buddy and addr & !size that of the merged block |
| `BuddyGeometry.PairOfAddr` | src/mm/buddy.rs:259-260 | the shifted offset is the number of the buddy pair |
| `BuddyGeometry.LeftEndFirst` | src/mm/buddy.rs:221-241 | the block returned by a split starts where the split block starts |
| `BuddyGeometry.CarveBlock` | src/mm/buddy.rs:166-179 | the order chosen from size and alignment gives a block that starts at the address, fits, and cannot be doubled |
| `BuddyGeometry.FeedCoalesced` | src/mm/buddy.rs:164-189 | feeding a region whose neighbouring pages are not managed leaves no two free buddies |
| `BuddyBitmap.BitInPart` | src/mm/buddy.rs:262-276 | within reach a bit lies in the part of its own order and inside the bitmap: the out-of-bounds panic is unreachable |
| `BuddyBitmap.NoAliasIff` | src/mm/buddy.rs:258-283 | distinct (order, pair) combinations of orders 0 to 10 have distinct bits if and only if the memory is at most bitmap_size * 32768 bytes |
| `BuddyBitmap.Alias` | src/mm/buddy.rs:258-268 | the concrete clash just beyond: the first pair out of reach shares its bit with the first pair of order 1 |
| `BuddyBitmap.BitmapSizeSuffices` | src/mm/buddy.rs:100-106 | the computed bitmap is non-empty, whole pages and large enough if and only if the highest address lies between 2^16 and 2^27 |
| `BuddyBitmap.ToggledBits` | src/mm/buddy.rs:270-282 | toggling flips exactly one bit of the bitmap |
| `FreeList.PushLists` | src/mm/buddy.rs:326-338 | pushing keeps every list well linked both ways, puts the block first in its own list and changes no other |
| `FreeList.UnlinkLists` | src/mm/buddy.rs:345-356 | unlinking a block in any position keeps every list well linked and removes exactly that block |
| `BuddyAllocator.ParityToggled` | src/mm/buddy.rs:258-283 | toggling keeps each pair bit of orders 0 to 9 equal to the XOR of the two buddies being free |
| `BuddyAllocator.BuddyAllocator.constructor` | src/mm/buddy.rs:131-138 | an allocator over a zeroed bitmap manages nothing |
| `BuddyAllocator.BuddyAllocator.PushBlock` | src/mm/buddy.rs:326-338 | the block becomes the first of its list |
| `BuddyAllocator.BuddyAllocator.RemoveBlock` | src/mm/buddy.rs:345-356 | the block leaves its list |
| `BuddyAllocator.BuddyAllocator.ToggleBit` | src/mm/buddy.rs:258-283 | flips exactly the bit of the pair and reports whether it is now clear |
| `BuddyAllocator.BuddyAllocator.Alloc` | src/mm/buddy.rs:200-242 | None if and only if no free block is large enough; otherwise the lowest possible order is split, the left end is returned, and lists, bits and sets agree again |
| `BuddyAllocator.BuddyAllocator.ToggleLive` | src/mm/buddy.rs:303 | for a live block the toggled bit tells exactly whether the buddy is on the list of this order |
| `BuddyAllocator.BuddyAllocator.Free` | src/mm/buddy.rs:297-320 | every legal free merges with free buddies as far as possible, and only ever unlinks a buddy that is on that list |
| `BuddyAllocator.BuddyAllocator.AddFreeRegion` | src/mm/buddy.rs:164-189 | the region is cut into blocks that could not be larger, all of which become free, and nothing else changes; free blocks stay coalesced if and only if no piece has a free buddy |
| `BuddyAllocator.BuddyAllocator.CountFreeMemory` | src/mm/buddy.rs:360-379 | 4096 times the number of pages in free blocks |
| `FrameAllocator.AllocateFrame` | src/mm/memory.rs:206-211 | None if and only if no page is free; otherwise exactly one free page becomes live, however blocks are split |
| `FrameAllocator.ClearFrame` | src/mm/memory.rs:218-222 | exactly that page becomes free again |
| `Boot.HitsIsOverlap` | src/mm/memory.rs:109-110 | for every region and range: the comparison means that they share a byte, or that one of them is empty and lies strictly inside the other |
| `Boot.RegionTracker.Reserve` | src/mm/memory.rs:85-95 | appends the region, or reports the full table |
| `Boot.RegionTracker.IsReserved` | src/mm/memory.rs:103-115 | true if and only if some registered region is hit |
| `Boot.BumpAllocator.constructor` | src/mm/memory.rs:138-147 | starts at the first page boundary not below the end of the kernel |
| `Boot.BumpAllocator.Search` | src/mm/memory.rs:170-192 | finds the lowest aligned run of unreserved frames of one entry, or there is none: jumping past a reserved frame skips no candidate |
| `Boot.BumpAllocator.AllocateContiguousFrames` | src/mm/memory.rs:163-196 | returns the lowest run in the first usable entry that has one and moves the bump pointer behind it, so successive runs are disjoint; None only if no entry has room, and then nothing changes |
| `Boot.RunEnd` | src/mm/memory.rs:300-305 | the longest run of unreserved frames, and its length |
| `Boot.FeedEntry` | src/mm/memory.rs:291-310 | feeds exactly the unreserved pages of one entry, each once |
| `Boot.FedMeaning` | src/mm/memory.rs:289-312 | for every table: a page is managed if and only if it lies wholly inside a usable entry, shares no byte with a reserved region and has no empty region in its interior |
| `Boot.FeedAll` | src/mm/memory.rs:286-312 | over disjoint entries exactly the usable unreserved pages end up free, free_frames is their number, and the free blocks are coalesced if the entries do not touch |
| `Boot.BitmapReaches` | src/mm/memory.rs:264-269 | up to 128 MiB the bitmap describes every page of the map |
| `Boot.RoomApart` | src/mm/memory.rs:170-192 | a run that has room shares no byte with any reserved region |
| `Boot.PlaceBitmap` | src/mm/memory.rs:264-276 | fails if and only if the table is full or no usable entry has room above the bump pointer; otherwise the bitmap lies wholly in a usable entry, in frames no region hit before, and is registered as reserved |
| `Boot.InitPhysicalMemory` | src/mm/memory.rs:256-318 | an allocator if and only if the bitmap can be placed; it manages exactly the usable pages outside all reserved regions and outside its own bitmap, with free_frames equal to their number |
| `PageTree.WalkIsNode` | src/mm/paging.rs:244-298 | on a tree-shaped user half the hardware walk is a lookup in the tree, rights included |
| `PageTree.AddNode` | src/mm/paging.rs:62-77 | linking an unused frame under an unused entry keeps the tree shape |
| `PageTree.RaiseFlags` | src/mm/paging.rs:78-83 | raising the flags of an existing table entry changes nothing |
| `PageTree.RemoveLeaf` | src/mm/paging.rs:222-225 | clearing a leaf entry keeps the tree shape |
| `PageTree.TranslationStep` | src/mm/paging.rs:55-171 | if the trees agree on all other pages so do the translations |
| `AddressSpace.AddressSpace.NextTable` | src/mm/paging.rs:61-92 | the next table is found or allocated; None if and only if it is absent and the frames are exhausted |
| `AddressSpace.AddressSpace.MapTo` | src/mm/paging.rs:55-171 | for every frame: FrameAllocationFailed if and only if there are fewer free frames than tables missing on the way, else PageAlreadyMapped if and only if the page is mapped, else Ok; Ok changes the translation at exactly this page, the others nowhere even when tables were added; frames are conserved |
| `AddressSpace.AddressSpace.Unmap` | src/mm/paging.rs:183-233 | undoes a mapping: returns its frame, changes the translation at this page only, and reports None exactly when nothing was mapped |
| `AddressSpace.AddressSpace.Create` | src/mm/paging.rs:438-452 | an empty user half and the kernel half of the active table |
| `AddressSpace.AddressSpace.DestroyBelow` | src/mm/paging.rs:463-504 | frees every leaf frame and every table below one node exactly once and reads none of them afterwards |
| `AddressSpace.AddressSpace.Destroy` | src/mm/paging.rs:457-508 | every frame of the user half, and the root, is returned exactly once, its contents are gone from then on, and no other table is touched |
| `AddressSpace.AddressSpace.MapFresh` | src/process/syscall.rs:147-189 | allocates a frame and maps it; succeeds if and only if the page is free and there are frames for it and for the tables missing on the way; on failure the frame is given back and no translation changes |
| `AddressSpace.Lifetime` | src/mm/paging.rs:438-508 | create, any sequence of maps and unmaps, then destroy: each operation has the outcome its page calls for and a map fails on a free page only for want of frames, the tables before the end translate every page accordingly, and the pool of frames is what it was |
| `AddressSpace.AddressSpace.Apply` | src/mm/paging.rs:55-233 | any sequence of maps and unmaps: every page translates as the operations that took effect say, with the outcome of each |
| `PageRelease.ReleaseStep` | src/mm/paging.rs:463-504 | releasing one entry adds its frames to the pool and no frame twice |
| `PageRelease.BelowRoot` | src/mm/paging.rs:457-506 | the frames below the root and the root itself are all frames of the tree |
| `VirtualPages.PageOfInjective` | src/mm/paging.rs:247-250 | different page numbers have different table indices |
| `VirtualPages.PageOfDigits` | src/mm/paging.rs:247-250 | the four indices are the digits of the page number to the base 512, the PML4 index first |
| `VirtualPages.PageOfBits` | src/mm/paging.rs:247-250 | they are bits 39, 30, 21 and 12 onwards of the address, nine bits each |
| `VirtualPages.HugePageBytes` | src/mm/paging.rs:268-278 | a 2 MiB entry translates all its bytes to consecutive addresses |
| `VirtualPages.TranslateAddrIsTranslate` | src/mm/paging.rs:244-298 | translate_addr agrees with the hardware walk, byte for byte |
| `VirtualPages.Rollback` | src/process/syscall.rs:149-158 | unmapping what was newly mapped restores every translation |
| `Brk.Process.GrowRange` | src/process/syscall.rs:146-190 | succeeds if and only if no page of the range is mapped and there are frames for all pages and all missing tables; otherwise, after rollback, no translation changes |
| `Brk.Process.ReleaseRange` | src/process/syscall.rs:192-199 | unmaps and frees every page of the range |
| `PageCost.CostStep` | src/mm/paging.rs:55-171 | one more page of a range costs its frame and the tables its way still lacks |
| `Brk.Process.GrantedByFrames` | src/process/syscall.rs:125-207 | on a heap that is mapped exactly up to the break a request in range is refused only for want of frames |
| `Brk.Process.HeapBytes` | src/process/syscall.rs:125-207 | every byte between heap start and break is mapped, and no page behind the break is |
| `Brk.HeapRights` | src/process/syscall.rs:168-176 | heap pages are present, writable, accessible to the user and not executable |
| `Brk.Process.SysBrk` | src/process/syscall.rs:125-207 | with page ends rounded up: the break moves if and only if the request lies between heap start and guard page and does not grow, or grows into free pages that can be paid for; the heap stays exactly the pages below it, otherwise break and translations are unchanged; frames are conserved |
| `ThreadArena.ThreadArena.constructor` | src/process/process.rs:137-142 | an empty arena |
| `ThreadArena.ThreadArena.Insert` | src/process/process.rs:149-166 | the new id belongs to no live thread, all others keep theirs, and the vector grows only when every slot is taken; the corrupted-free-list panic is unreachable |
| `ThreadArena.ThreadArena.Remove` | src/process/process.rs:169-193 | returns the thread and frees its slot; nothing happens for an id that is not live |
| `ThreadArena.ThreadArena.Get` | src/process/process.rs:196-202 | the live thread with this id, if any |
| `SchedView.InOnePlace` | src/process/process.rs:338-558 | every thread but the idle one is in the run tree if and only if ready and not running, once in exactly one wait queue if and only if blocked, once in the graveyard if and only if dead and not running |
| `SchedView.PutBackKeeps` | src/process/process.rs:437-445 | a ready thread that is preempted enters the tree with up-to-date keys |
| `SchedView.LeaveKeeps` | src/process/process.rs:437-445 | a blocked, sleeping or idle thread just stops running |
| `SchedView.BuryKeeps` | src/process/process.rs:405-414 | a dead thread loses its node and enters the graveyard once |
| `SchedView.DispatchKeeps` | src/process/process.rs:470-483 | the owner of a tree node is a live thread, and running it keeps the invariant |
| `SchedView.ReapKeeps` | src/process/process.rs:338-358 | reaping never removes the running or the idle thread, nor one that somebody still joins |
| `SchedView.SpawnKeeps` | src/process/process.rs:360-389 | a new thread enters the tree |
| `SchedView.BlockOnKeeps` | src/sync/sync.rs:127-136 | a running thread that blocks is in exactly one queue, and joins only the living |
| `SchedView.WakeHeadKeeps` | src/sync/sync.rs:48-62 | the head of a queue is blocked and has a node outside the tree; waking it keeps the invariant, also when it is still running |
| `SchedView.WakeSleeperKeeps` | src/process/process.rs:536-558 | a sleeping thread may be woken without a queue |
| `SchedView.InstallKeeps` | src/process/process.rs:524-528 | installing an idle thread keeps the invariant if and only if there was none |
| `SchedView.SetStateKeeps` | src/process/process.rs:220-225 | a running thread may die or fall asleep in place |
| `SchedPick.NextUnique` | src/process/process.rs:449-484 | one run queue has one next thread |
| `SchedPick.NextMeaning` | src/process/process.rs:449-484 | if any ready thread is eligible so is the one that runs next; it has the earliest deadline of all those if and only if nothing the walk bypassed is earlier, and never a later one than any eligible node looked at, such as the root; otherwise one of least vruntime runs |
| `Accounting.NewThreadAccounted` | src/process/process.rs:602-637 | a new thread is accounted for and has a slice of at least 4 ms |
| `Accounting.NewThreadValues` | src/process/process.rs:602-618 | slice, lag and deadline of a new thread; the deadline is the one later updates would give only if it rounds to nothing |
| `Accounting.WeightUnpenalised` | src/process/process.rs:644-651 | the burst score stays below one millisecond, so the effective weight is the weight |
| `Accounting.ChargeAccounted` | src/process/process.rs:415-435 | a tick keeps the burst score below one millisecond and vruntime = floor(real_runtime * 2^20 / weight) in 64-bit words; deadline and lag follow |
| `Accounting.WakeAccounted` | src/process/process.rs:539-547 | waking leaves vruntime as it was: the sleeper clamp has no effect, and a woken thread is within a slice of the clock if and only if it was before |
| `Fairness.VruntimeMonotone` | src/process/process.rs:653-658 | a tick lowers vruntime if and only if the shifted real runtime wraps and had reached the weight; below 2^44 ns vruntime is the exact quotient |
| `Fairness.WeightedLagExact` | src/process/process.rs:399-435 | in every run of k ticks and any wake-ups over n threads of total weight W the weighted sum of (system_runtime - vruntime) is a whole number of words, counted from the wrap-arounds, plus something between -k(W - 1) and W - n |
| `Fairness.WeightedLagBounded` | src/process/process.rs:399-435 | while nothing can have wrapped the sum lies between -k(W - 1) and W - n |
| `Scheduler.StoppedKeeps` | src/process/process.rs:402-447 | stopping the running thread, whatever its state, keeps the invariant |
| `Scheduler.Scheduler.constructor` | src/process/process.rs:325-336 | no threads |
| `Scheduler.Scheduler.AddTask` | src/process/process.rs:360-389 | a fresh id, a fresh node with the thread's keys in the tree, the total weight updated, everything else unchanged |
| `Scheduler.Scheduler.SetIdleTask` | src/process/process.rs:524-528 | the idle thread is in the arena and has no node; the invariant holds again if and only if this is the first one |
| `Scheduler.Scheduler.ReapZombies` | src/process/process.rs:338-358 | exactly the threads in the graveyard leave the arena, and the graveyard is empty |
| `Scheduler.Scheduler.StopCurrent` | src/process/process.rs:399-447 | charges, requeues or buries the running thread according to its state, and advances the clock unless it is dead |
| `Scheduler.PickNode` | src/process/process.rs:449-450 | the node at the end of the EEVDF walk, else the first in order, else NULL |
| `Scheduler.Scheduler.Dispatch` | src/process/process.rs:449-521 | the node EEVDF picks leaves the tree and its owner, who is in the arena, runs; the idle thread runs if and only if the tree is empty |
| `Scheduler.Scheduler.Schedule` | src/process/process.rs:391-522 | from every valid state: reap, stop, pick; the next thread is ready and is the one EEVDF picks from the run queue at that moment, and every invariant holds again |
| `Scheduler.Scheduler.WakeTask` | src/process/process.rs:536-558 | a sleeping or blocked thread becomes ready and, unless it is running, enters the tree with fresh keys; any other id is ignored |
| `Scheduler.Scheduler.WakeSleeper` | src/process/process.rs:536-558 | waking a thread that is in no queue keeps every invariant: a sleeper becomes ready, any other id is ignored |
| `Scheduler.Scheduler.WakeOne` | src/sync/sync.rs:48-62 | exactly the oldest waiter is woken |
| `Scheduler.Scheduler.WakeAll` | src/sync/sync.rs:35-41 | exactly the waiters of this queue are woken, and it is empty afterwards |
| `Scheduler.Scheduler.Block` | src/sync/sync.rs:127-136 | the caller is blocked at the back of the queue |
| `Scheduler.Scheduler.Join` | src/process/process.rs:748-784 | waits in the target's queue, or returns at once for the caller itself and for threads that are dead or gone |
| `Scheduler.Scheduler.ExitThread` | src/process/process.rs:220-235 | the caller is dead, everyone who joined it is ready, and nobody is left waiting for a dead thread |
| `Scheduler.Scheduler.SleepCurrentTask` | src/process/process.rs:530-534 | the running thread is asleep |
| `FairScheduler.PreemptedIsCharged` | src/process/process.rs:399-447 | the thread that ran has one millisecond more real runtime, a vruntime and deadline to match, and is back in the tree under these keys if ready; the clock advances by its share; no other thread changes; a dead thread is buried instead |
| `FairScheduler.RunIsFair` | src/process/process.rs:391-558 | timer ticks and wake-ups of the scheduler are the events over which the lag is added up |
| `FairScheduler.SchedulerLag` | src/process/process.rs:391-558 | the weighted lag law for every run of the scheduler that keeps a set of threads alive |
| `Semaphore.NoneLostStep` | src/sync/sync.rs:204-249 | while anyone waits, the count is at most the number of woken threads that have not retried plus the releases between increment and wake-up; every step keeps this |
| `Semaphore.Always` | src/sync/sync.rs:204-249 | under every interleaving: permits are conserved, the queue holds exactly the sleepers once each, and no wake-up is lost |
| `Semaphore.Permits` | src/sync/sync.rs:204-249 | the count is the initial one plus the releases less the successful attempts so far |
| `Semaphore.Settles` | src/sync/sync.rs:204-249 | if no new operation begins, a bounded number of steps remains in any order |
| `Semaphore.QuietState` | src/sync/sync.rs:204-249 | and then nobody sleeps beside a permit |
| `Mutex.ExclusiveStep` | src/sync/sync.rs:106-144 | at most one guard exists, and one exactly while the lock word is set; every step keeps this |
| `Mutex.Always` | src/sync/sync.rs:106-176 | under every interleaving: mutual exclusion, and waiters imply a holder, an unfinished release or a woken thread about to retry |
| `Mutex.Settles` | src/sync/sync.rs:106-176 | if nobody locks anew or unlocks, a bounded number of steps remains in any order |
| `Mutex.QuietState` | src/sync/sync.rs:169-176 | and then a free lock has no waiters |
| `Blocking.CountingSemaphore.Attempt` | src/sync/sync.rs:206-240 | one attempt, on the real scheduler, is the Try step of the protocol: a permit or the back of the queue, and the agents asleep are again exactly the threads blocked there |
| `Blocking.CountingSemaphore.Increment` | src/sync/sync.rs:246-247 | the first half of release is the Post step |
| `Blocking.CountingSemaphore.WakeWaiter` | src/sync/sync.rs:248 | the second half of release is the Wake step, sleeping agents and blocked threads again the same |
| `Blocking.SleepingMutex.Attempt` | src/sync/sync.rs:108-142 | one attempt is the Try step of the protocol: the lock or the back of the queue, and the agents asleep are again exactly the threads blocked there |
| `Blocking.SleepingMutex.Unlock` | src/sync/sync.rs:171-173 | the store of a dropped guard is the Unlock step |
| `Blocking.SleepingMutex.WakeWaiter` | src/sync/sync.rs:174 | the wake-up of a dropped guard is the Wake step, sleeping agents and blocked threads again the same |
| `Blocking.SleepersKept` | src/sync/sync.rs:28-62 | whatever a valid scheduler does, sleeping agents and blocked threads agree as long as the queue is the same |
| `Blocking.CountingSemaphore.NobodyForgotten` | src/sync/sync.rs:204-249 | while a thread of the scheduler is blocked on the semaphore the count is covered by pending wake-ups and retries; at rest it is 0 |
| `Blocking.SleepingMutex.NobodyForgotten` | src/sync/sync.rs:106-176 | while a thread is blocked on the mutex someone holds it, is about to wake a waiter or is about to retry; at rest it is held |
| `Mailbox.InvStep` | src/sync/ipc.rs:41-54 | queue length = count + sends between push and increment + receives between acquire and pop; received messages followed by the queue are the sent ones in order; every step keeps both |
| `Mailbox.Always` | src/sync/ipc.rs:41-54 | both hold under every interleaving |
| `Mailbox.ReceiveNeverEmpty` | src/sync/ipc.rs:51-54 | a receive always returns a message: the oldest one not yet received |
| `Mailbox.FirstInFirstOut` | src/sync/ipc.rs:41-54 | under every interleaving the values returned by the receives so far are the first messages sent, in the order sent |
| `Mailbox.CountIsLength` | src/sync/ipc.rs:16-17 | the documented equality of count and length holds if and only if no operation is half done |
| `Mailbox.CountLags` | src/sync/ipc.rs:41-44 | and fails as soon as one sender is between its two steps |
| `Mailbox.NobodyStranded` | src/sync/ipc.rs:41-54 | a receiver asleep beside a message implies a step still to be taken |
| `RingBuffer.FailsIffFull` | src/sync/queue.rs:52-58 | push gives the item back if and only if the buffer was full when the tail was loaded, however stale that is by now |
| `RingBuffer.NothingIffEmpty` | src/sync/queue.rs:74-80 | pop returns nothing if and only if the buffer was empty when the head was loaded |
| `RingBuffer.RefinesQueue` | src/sync/queue.rs:51-88 | every step is a step of a first-in first-out queue of capacity N - 1 or leaves the queue alone |
| `RingBuffer.NeverSameSlot` | src/sync/queue.rs:59-84 | the two sides are never at the same slot, even with stale indices, and a write never drops an item |
| `RingBuffer.Always` | src/sync/queue.rs:51-88 | under every interleaving from the empty buffer: the popped items are a prefix of the pushed ones |
| `RingBuffer.FirstInFirstOut` | src/sync/queue.rs:51-88 | the values returned by the pops so far are the first items whose push got through, in order |
| `RingBuffer.Ring.Push` | src/sync/queue.rs:51-65 | in place, with the consumer stopped anywhere: full gives the item back, otherwise it is appended |
| `RingBuffer.Ring.Pop` | src/sync/queue.rs:73-88 | in place, with the producer stopped anywhere: the front item, or nothing if empty |
| `Slab.ListIndex` | src/mm/slab.rs:62-72 | the smallest class that fits, None if and only if the size exceeds 2048 |
| `Slab.SlabAllocator.Alloc` | src/mm/slab.rs:82-101 | pops the first block of the class, or reports a miss |
| `Slab.SlabAllocator.PopulateCache` | src/mm/slab.rs:121-147 | the list of the class becomes all blocks of the page but the first, in address order; no other list changes |
| `Slab.SlabAllocator.Free` | src/mm/slab.rs:158-176 | the block becomes the first of the list of its class |
| `HeapLayout.AlignTo` | src/mm/allocator.rs:173-175 | the least multiple of the alignment that is not below the address |
| `HeapLayout.AlignToCuts` | src/mm/allocator.rs:173-175 | the same as cutting addr + align - 1 down to a multiple, the closed form of the source |
| `HeapLayout.SizeToOrderFits` | src/mm/buddy.rs:83-92 | up to 4 MiB the order is the least whose block holds the size; beyond, and only beyond, it is too small |
| `HeapLayout.ExtentSuffices` | src/mm/allocator.rs:202-245 | the block set aside for a request holds it and is a multiple of its alignment |
| `HeapView.Fits` | src/mm/allocator.rs:202-245 | every live allocation is non-null, aligned to its layout and at least as large |
| `HeapView.Separate` | src/mm/allocator.rs:202-245 | live allocations never overlap, across both tiers |
| `HeapView.PageBlocksAre` | src/mm/slab.rs:121-147 | the blocks of a page are exactly the multiples of the block size in it |
| `HeapView.AllocatedKeeps` | src/mm/allocator.rs:202-245 | an allocation keeps every invariant: each block of each slab page is free in the list of its class or live for a request of that class |
| `HeapView.PushBlockKeeps` | src/mm/allocator.rs:257-264 | so does returning a small block |
| `HeapView.LargeFreeKeeps` | src/mm/allocator.rs:264-272 | so does returning a large block |
| `HeapView.AllocFreeRestores` | src/mm/allocator.rs:202-264 | freeing what was just taken from the cache undoes it |
| `HeapService.AllocatedServed` | src/mm/allocator.rs:202-245 | up to 2048 bytes after rounding to the alignment: the least class of 8 * 2^k bytes, from its cache or the next page of the window, null if and only if both are used up; above: a buddy block of the least order that holds the rounded pages, null if and only if they exceed 4 MiB or no free block is that large |
| `HeapService.DeallocatedReturned` | src/mm/allocator.rs:257-273 | the block goes back to that class or order |
| `Heap.HeapAllocator.constructor` | src/mm/allocator.rs:146-149 | an empty heap above all buddy memory |
| `Heap.HeapAllocator.AllocateVirtualPage` | src/mm/allocator.rs:156-165 | the next page of the window, None if and only if it is used up |
| `Heap.HeapAllocator.Alloc` | src/mm/allocator.rs:202-245 | null and no change, or a new live allocation from the cache, from a new page, or from the smallest sufficient buddy block, each exactly when the sizes in bytes say so; a page keeps its class for ever |
| `Heap.HeapAllocator.Dealloc` | src/mm/allocator.rs:257-273 | the block goes back to the list or the buddy order it came from, and nothing else changes |
| `AddressSpace.AddressSpace.UnmapRelease` | src/process/syscall.rs:192-199 | unmaps a page and frees its frame; no other page changes and frames are conserved |

## Left out

- The process table, CR3 reloads, file descriptors and the reaping of processes in `reap_zombies` and `SYS_WAIT`: threads only are modelled.
- `total_weight` as a sum over live threads: the code never decreases it; it is a plain counter here.
- Huge-page entries in `map_to` and `unmap`: the user half has no 2 MiB leaf; `translate_addr` models the huge-page branch.
- Zeroing of frames and the contents of mapped memory, TLB flushes, MSRs, APIC, GDT, IDT, port I/O and the assembly stubs: hardware effects.
- Memory-ordering weakness: atomics are sequentially consistent steps on one core.
- The red-black node's packed parent-and-colour word is two fields in `NodeStore`; `PackedWord` proves that the word behaves like two fields for aligned pointers.
- `align_to` and the other bit masks on addresses are stated as rounding to multiples, not as bit operations on 64-bit words.
- Overflow of addresses, sizes and of the semaphore count beyond 64 bits.
- Thread stacks and saved register contexts.
- Tar and Multiboot parsing, ELF loading, the virtual file system, drivers and the shell: shorter loops with easier claims.
- BuddyAllocator.BuddyAllocator.AddFreeRegion: page-aligned bounds only, as its one caller passes them, and only memory that was not fed before and lies within reach of the bitmap; feeding a page twice would hand it out twice.
- Boot.InitPhysicalMemory: for highest addresses between 2^16 and 2^27 only, since outside that range the bitmap is too small for the memory it describes.
- Fairness.WeightedLagBounded: for runs shorter than 2^44 ns in total, the span in which no shifted runtime wraps; WeightedLagExact has no such bound.
- AddressSpace.AddressSpace.Destroy: requires that no frame is mapped at two pages; the code would release such a frame twice.
- Scheduler.Scheduler.Schedule: requires that the idle thread is set once any thread exists; without it the code panics.
