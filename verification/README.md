# GPGMM allocator and residency model

GPGMM is a GPU memory manager. This project models the four parts of it whose correctness
depends on invariants that no single function shows, and proves those invariants, and what
they imply for callers, over every input and every run.

* **Buddy system.** A tree of blocks threaded by intrusive free lists, and an allocator that
  maps blocks to reference-counted memory objects. `BuddySystem` is the system as a value,
  `BuddyTheorems` what it guarantees, `BuddyExamples` a run with a surprising end, `BuddyBlocks`
  the linked objects with their split and merge loops, `BuddyPool` the memory objects that hold
  the blocks, over whole runs, and `BuddyMemory` the allocator with its objects.
* **Slab system.** Slabs that are copied between two stable lists while live blocks find them
  through a table, in caches by slab size, behind a reference-counted cache by block size.
  `StableLists`, `SlabBlocks`, `SlabSizing`, `SlabSpec`, `SlabOperations`, `SlabSystem`,
  `SlabAllocation`, `SlabTheorems`, `SlabServing`, `SizeCache` and `SizeCacheTheorems` hold the
  values and their laws; `SlabMemory` and `SlabCacheMemory` the objects that are updated in place.
* **Residency manager.** LRU caches of heaps, lock counts and a fence. `ResidencySpec` is the
  state machine, with a log of every call made to the device; `ResidencyInvariant`,
  `ResidencyOperations` and `ResidencySubmission` show what each step keeps,
  `ResidencyTheorems`, `ResidencyRuns`, `ResidencyLocks`, `ResidencyPaging`, `ResidencyTracking`
  and `ResidencyExact` what follows for calls and for whole runs, `ResidencyExamples` holds runs at
  the limits of these guarantees, and `Residency` the objects with the eviction, retry and
  submission loops.
* **Segmented pool.** Pools of memory in a sorted circular list. `MemoryPools`, `LinkedLists`,
  `SegmentedPool`, `SegmentedOperations`, `SegmentedTheorems` and, for the object with its
  search over linked nodes, `SegmentedMemory`.

`Math`, `Requests`, `Options` and `Sets` hold what the parts share: integer helpers, request
validation, missing values, totals of maps and distinctness.

## How the model relates to the code

Classes whose methods update fields are classes here; each method is proved equal to a function
on values, and the laws are proved about those functions. The free lists of the buddy and slab
block allocators and the list of segments are linked objects, as in the code. Slabs are values
in lists; a pointer to a slab is the place where it is stored. `StableLists.StableList` and
`SlabBlocks.SlabBlockAllocator` are verified on their own, against the slot sequences and block
records that `SlabMemory` holds in their place. Heaps are records in a map, keyed by an identity
that is never used again, and an LRU cache is the sequence of the heaps linked into it.

The environment is a parameter. The device may fail any attempt to page in; the GPU completes
any signaled fence value; the adapter reports any budget and usage. The next allocator in a
chain returns memory of exactly the size asked for, distinct from what it handed out before, or
nothing. Sizes are unbounded integers; where 64-bit wrap-around changes a result
(`bytesToRelease` in the segmented pool) it is written out, and `SlabSizing.NewSlabSizeFits`
says when slab sizes stay in range. The fragmentation limit and the growth factor are fractions.

Where a property one would expect does not hold, a lemma gives a concrete state or run in which it
fails, and another one says exactly when it holds:

* Only the heads of the buddy free lists are tested for alignment, so with an alignment above the
  request a free, aligned block can be missed: `AlignedBlockCanBeMissed`, in a state that
  `MissedBlockIsReachable` reaches by legal calls; exactly when is `AllocationNeedsAlignedHead`.
* The buddy level is computed by rounding down (`BlockCanBeTooSmall`), so a block covers its request
  exactly for powers of two (`BlockCoversRequestIff`); the memory allocator rounds up first.
* The GPU can still use a heap that is evicted: a submission skips locked heaps and does not record
  its fence value in them, so a heap that was locked when listed and is unlocked while the GPU runs
  can be evicted (`LockedHeapEvictedInUse`). A heap that was unlocked when listed, or that was
  unlocked after the submission completed, is evicted only after completion (`EvictedAfterUse`). In
  runs in which every submission signals its fence, the next eviction of a cached heap comes after a
  given fence value exactly if the GPU has reached that value, or a submission that signaled it or a
  later one found this heap unlocked, or one less recently used (`NextEvictionWaitsIff`).
* A heap created not resident enters the cache, so it can be evicted without ever having been made
  resident (`UnresidentHeapEvicted`; exactly then, `CreateExact`). A submission that has to page in
  heaps of both segments pages in only one of them and marks both resident, with the same effect
  (`OtherSegmentEvicted`; exactly then, `ExecuteExact` and `OneSegmentMeaning`). A submission that
  fails leaves a heap linked but not resident (`FailedSubmissionLeavesHeap`; always,
  `FailedSubmissionBreaks`). After a locked heap is destroyed it is still reported
  (`LockedHeapDestroyed`; exactly then, `DestroyStatsExact`).
* `EnsureInBudget` compares the evicted bytes with the request instead of with the shortfall, and
  so can refuse a request that fits after what was evicted (`EnsureInBudgetRefusesFittingRequest`).
  It does exactly when some least recently used heaps, before the first one in use, add up to the
  shortfall but not to the request (`RefusesFittingRequestIff`). With a usage above the budget it can
  also accept a request that does not fit (`EnsureInBudgetAcceptsTooMuch`); what it accepts fits
  exactly if the usage was within the budget or these heaps can cover the shortfall
  (`EnsureInBudgetMeaning`).
* With a fragmentation limit of one or more, a slab can be smaller than one block, which the block
  allocator of a slab asserts not to happen (`LimitOneIsTooHigh`); exactly when is `CarvableIff`.
* `ReleaseMemory` of the segmented allocator compares the total released with what is still to be
  released. It guarantees only half of what was asked for (`ReleaseMeaning`,
  `ReleaseCanStopAtHalf`), and all of it exactly when the segments that first hold half of it hold
  all of it, or are the last ones with memory (`ReleaseEnoughIff`). When a segment releases more
  than what is left to release, the difference wraps around and every later segment is emptied,
  while that segment keeps its rest (`OvershootEmptiesRest`, `ReleaseCanEmptyEverything`).
* Memory can return to the segment of another size (`ReturnsToAnotherSize`); it returns to its own
  exactly when the request and the pool round to the same size (`ReturnsToItsSizeIff`).

Two comments disagree with the code, and the code is modelled: `EvictInternal` evicts what is
needed to stay within the budget, not the number of bytes it is given
(src/gpgmm/d3d12/ResidencyManagerD3D12.cpp:580-581), and a list node that is in a list has
non-null links (src/gpgmm/utils/LinkedList.h:137-138).

## Model

| member | source | states |
|---|---|---|
| `Math.IsAlignedMeaning` | src/gpgmm/utils/Math.cpp:94-100 | both branches, mask and remainder, decide divisibility |
| `Math.AlignToMeaning` | src/gpgmm/utils/Math.h:40-48 | the mask form yields the least multiple not below the number |
| `Math.NextPowerOfTwoMeaning` | src/gpgmm/utils/Math.cpp:77-83 | the least power of two not below the number |
| `Math.PowerOfTwoMeaning` | src/gpgmm/utils/Math.cpp:90-92 | the mask test holds exactly of powers of two |
| `Requests.AcceptedFits` | src/gpgmm/common/MemoryAllocator.cpp:157-189 | an accepted request fits one memory object after rounding, and its alignment divides the memory size |
| `Requests.AcceptedIff` | src/gpgmm/common/MemoryAllocator.cpp:157-189 | accepted iff rounding stays in 64 bits, a multiple of the alignment covers the size within the memory, and the alignment divides that of the memory, unless that is 1 |
| `BuddySystem.TryAllocateInv` | src/gpgmm/common/BuddyBlockAllocator.cpp:147-209 | allocation keeps the tree, the exact free lists and eager coalescing, and adds exactly the returned block to the live ones |
| `BuddySystem.DeallocateInv` | src/gpgmm/common/BuddyBlockAllocator.cpp:211-247 | freeing keeps the same invariant and removes exactly that block from the live ones |
| `BuddyTheorems.Tiling` | src/gpgmm/common/BuddyBlockAllocator.cpp:106-247 | every byte lies in exactly one leaf of the tree, a naturally aligned power-of-two block |
| `BuddyTheorems.LiveDisjoint` | src/gpgmm/common/BuddyBlockAllocator.cpp:147-247 | no byte belongs to two live blocks |
| `BuddyTheorems.LiveInside` | src/gpgmm/common/BuddyBlockAllocator.cpp:147-209 | blocks lie inside the memory, have a power of two as size and start at a multiple of it |
| `BuddyTheorems.FreeWindowIsFreeBlock` | src/gpgmm/common/BuddyBlockAllocator.cpp:223-243 | a node all of whose bytes are free is one free block |
| `BuddyTheorems.RoomMeansSuccess` | src/gpgmm/common/BuddyBlockAllocator.cpp:67-100 | a free window as large as request and alignment makes the allocation succeed |
| `BuddyTheorems.SuccessMeansRoom` | src/gpgmm/common/BuddyBlockAllocator.cpp:147-209 | the block handed out was entirely free, aligned and of the rounded size |
| `BuddyTheorems.AllocationExact` | src/gpgmm/common/BuddyBlockAllocator.cpp:67-159 | with an alignment up to the request, success is equivalent to a free window of that size |
| `BuddyTheorems.AllocationNeedsAlignedHead` | src/gpgmm/common/BuddyBlockAllocator.cpp:92-98 | with any alignment, success is equivalent to an aligned head of some list at or above the level |
| `BuddyTheorems.NearestBlock` | src/gpgmm/common/BuddyBlockAllocator.cpp:67-209 | the block is the first part of the head of the nearest list that serves: no list of smaller sufficient blocks does; every other block, so every other free one, stays as it was |
| `BuddyTheorems.AlignedBlockCanBeMissed` | src/gpgmm/common/BuddyBlockAllocator.cpp:92-98 | in one given state an aligned free block exists and the allocation fails |
| `BuddyExamples.MissedBlockIsReachable` | src/gpgmm/common/BuddyBlockAllocator.cpp:67-247 | legal calls lead from the initial system to that state |
| `BuddyTheorems.BlockCoversRequestIff` | src/gpgmm/common/BuddyBlockAllocator.cpp:60-65 | the block covers the request iff that is a power of two |
| `BuddyTheorems.BlockCanBeTooSmall` | src/gpgmm/common/BuddyBlockAllocator.cpp:60-65 | a request of 3 bytes is given a block of 2 |
| `BuddyTheorems.RoundTrip` | src/gpgmm/common/BuddyBlockAllocator.cpp:161-247 | freeing the block just allocated restores the tree and every list as an exact sequence |
| `BuddyTheorems.Collapse` | src/gpgmm/common/BuddyBlockAllocator.cpp:211-247 | without live blocks the system is the initial one |
| `BuddyTheorems.FreeAllInAnyOrder` | src/gpgmm/common/BuddyBlockAllocator.cpp:211-247 | freeing all live blocks in any order yields one free root |
| `BuddyTheorems.ReachableInv` | src/gpgmm/common/BuddyBlockAllocator.cpp:147-247 | the invariant holds in every reachable state |
| `BuddyBlocks.BuddyBlockAllocator.InsertFreeBlock` | src/gpgmm/common/BuddyBlockAllocator.cpp:106-122 | links a block in front; the linked list represents the new sequence |
| `BuddyBlocks.BuddyBlockAllocator.RemoveFreeBlock` | src/gpgmm/common/BuddyBlockAllocator.cpp:124-145 | unlinks a block although the head's back link may be stale |
| `BuddyBlocks.BuddyBlockAllocator.GetNextFreeAlignedBlock` | src/gpgmm/common/BuddyBlockAllocator.cpp:67-100 | the loop over linked heads finds the level that NextFreeLevelIsNearest shows to be the nearest with an aligned head, or none |
| `BuddyTheorems.NextFreeLevelIsNearest` | src/gpgmm/common/BuddyBlockAllocator.cpp:67-100 | the head of that level is aligned and no head from there down to the level of the request is |
| `BuddyBlocks.BuddyBlockAllocator.SplitToLevel` | src/gpgmm/common/BuddyBlockAllocator.cpp:165-197 | the split loop over linked blocks acts as the abstract split |
| `BuddyBlocks.BuddyBlockAllocator.TryAllocateBlock` | src/gpgmm/common/BuddyBlockAllocator.cpp:147-209 | the linked blocks represent the abstract result; null exactly when that fails |
| `BuddyBlocks.BuddyBlockAllocator.MergeToTop` | src/gpgmm/common/BuddyBlockAllocator.cpp:223-243 | the merge loop acts as the abstract merge |
| `BuddyBlocks.BuddyBlockAllocator.DeallocateBlock` | src/gpgmm/common/BuddyBlockAllocator.cpp:211-247 | the linked blocks represent the system after freeing |
| `BuddyPool.BlockInsideMemory` | src/gpgmm/common/BuddyMemoryAllocator.cpp:39-42 | a block no larger than a memory object lies inside one |
| `BuddyPool.SubAllocationsDisjoint` | src/gpgmm/common/BuddyMemoryAllocator.cpp:44-98 | live blocks that map to the same slot share no byte of its memory |
| `BuddyPool.LiveApart` | src/gpgmm/common/BuddyMemoryAllocator.cpp:44-98 | live sub-allocations with the same memory object, by identity, share no byte of it |
| `BuddyPool.AllocateInOk` | src/gpgmm/common/BuddyMemoryAllocator.cpp:44-98 | served iff there is a block and memory for it, that of its slot or else new; one more live block; every other keeps its memory and offset |
| `BuddyPool.FreeInOk` | src/gpgmm/common/BuddyMemoryAllocator.cpp:100-125 | one live block less; its own memory goes back iff no other live block is in it; all others keep theirs |
| `BuddyPool.RunKeepsMemory` | src/gpgmm/common/BuddyMemoryAllocator.cpp:44-125 | over every run, a sub-allocation that is not freed keeps its memory object and its offset |
| `BuddyPool.RunSafety` | src/gpgmm/common/BuddyMemoryAllocator.cpp:44-125 | in every reachable state, also the empty one, a slot is occupied iff a live block maps to it, with as many references as such blocks |
| `BuddyPool.RunApart` | src/gpgmm/common/BuddyMemoryAllocator.cpp:44-125 | in every reachable state, no two live sub-allocations share a byte of one memory object |
| `BuddyPool.RelativeAlignment` | src/gpgmm/common/BuddyMemoryAllocator.cpp:92-93 | the offset inside the memory object is a multiple of the requested alignment |
| `BuddyMemory.BlockServes` | src/gpgmm/common/BuddyMemoryAllocator.cpp:44-98 | an allocated block has the rounded size and lies in one memory object, aligned there |
| `BuddyMemory.BuddyMemoryAllocator.AcquireFromPool` | src/gpgmm/common/IndexedMemoryPool.cpp:25-32 | growing the table keeps every slot and empties the one acquired |
| `BuddyMemory.BuddyMemoryAllocator.HoldMemory` | src/gpgmm/common/BuddyMemoryAllocator.cpp:62-86 | a slot gets memory only if it has none, and one reference more |
| `BuddyMemory.BuddyMemoryAllocator.DropMemory` | src/gpgmm/common/BuddyMemoryAllocator.cpp:108-124 | memory is given back exactly when its last reference goes |
| `BuddyMemory.BuddyMemoryAllocator.TrySubAllocateMemory` | src/gpgmm/common/MemoryAllocator.h:244-275 | block and memory together, or the buddy system exactly as before |
| `BuddyMemory.BuddyMemoryAllocator.TryAllocateMemory` | src/gpgmm/common/BuddyMemoryAllocator.cpp:44-98 | served iff the request is valid and there is a block and memory for it; the block is that of the buddy system; all live blocks keep node, memory and offset |
| `BuddyMemory.BuddyMemoryAllocator.DeallocateMemory` | src/gpgmm/common/BuddyMemoryAllocator.cpp:100-125 | exactly that block is freed; its own memory is given back iff it was the last there; all others keep node, memory and offset |
| `StableLists.EraseKeepsOthers` | src/gpgmm/utils/StableList.h:152-168 | erasing removes one element; every other keeps its value and index; the last slot stays occupied |
| `StableLists.StableList.PushBack` | src/gpgmm/utils/StableList.h:176-195 | the element gets the index that size() reported |
| `StableLists.StableList.ShrinkToFit` | src/gpgmm/utils/StableList.h:120-135 | the nested loops drop exactly the empty slots at the end and the chunks they empty |
| `StableLists.StableList.EraseAt` | src/gpgmm/utils/StableList.h:152-168 | empties one slot; an erased index is left alone; all chunks but the last stay full |
| `StableLists.StableList.PopBack` | src/gpgmm/utils/StableList.h:141-143 | erases the last element |
| `StableLists.StableList.Size` | src/gpgmm/utils/StableList.h:242-247 | the number of slots, computed from chunks, is the next index |
| `StableLists.StableList.Back` | src/gpgmm/utils/StableList.h:210-212 | the last slot, which is occupied |
| `StableLists.StableList.At` | src/gpgmm/utils/StableList.h:277-279 | chunk arithmetic reaches the slot of the index |
| `SlabBlocks.TakeBlockOk` | src/gpgmm/common/SlabBlockAllocator.cpp:68-91 | refuses iff all blocks are live; else exactly one free block becomes live |
| `SlabBlocks.ReturnBlockOk` | src/gpgmm/common/SlabBlockAllocator.cpp:93-102 | exactly the returned block becomes free |
| `SlabBlocks.ReturnAndTake` | src/gpgmm/common/SlabBlockAllocator.cpp:68-102 | a returned block is handed out next, and then the slab is as before |
| `SlabBlocks.LiveCount` | src/gpgmm/common/SlabBlockAllocator.cpp:25-102 | live and free blocks partition the carved ones; full iff the free list is empty |
| `SlabBlocks.SlabBlockAllocator.Copy` | src/gpgmm/common/SlabBlockAllocator.cpp:36-41 | the shallow copy of a full slab shares no free block |
| `SlabBlocks.SlabBlockAllocator.TryAllocateBlock` | src/gpgmm/common/SlabBlockAllocator.cpp:68-91 | pops the linked head and carves lazily, as specified; null for requests that do not fit a block |
| `SlabBlocks.SlabBlockAllocator.DeallocateBlock` | src/gpgmm/common/SlabBlockAllocator.cpp:93-102 | pushes the linked block back |
| `SlabSizing.DoubleUntilAcceptable` | src/gpgmm/common/SlabMemoryAllocator.cpp:129-138 | the doubling loop ends for every positive limit at the first acceptable size |
| `SlabSizing.DoubledMeaning` | src/gpgmm/common/SlabMemoryAllocator.cpp:129-138 | the size is the base doubled as often as is needed to be acceptable, and no more |
| `SlabSizing.NewSlabSizeMeaning` | src/gpgmm/common/SlabMemoryAllocator.cpp:124-140 | a power of two, at least the base, within the limit, a multiple of the slab alignment |
| `SlabSizing.NewSlabSizeLeast` | src/gpgmm/common/SlabMemoryAllocator.cpp:124-140 | from a power of two, the least acceptable one |
| `SlabSizing.NewSlabSizeFits` | src/gpgmm/common/SlabMemoryAllocator.cpp:137-140 | if 2^63 bytes are acceptable no doubling exceeds 64 bits, and the rounded result fits iff the doubling ends by 2^63 |
| `SlabSizing.SlabHoldsABlock` | src/gpgmm/common/SlabMemoryAllocator.cpp:502-512 | with a limit below one, a slab holds at least one block of the rounded request |
| `SlabSystem.ComputeSlabSizeMeaning` | src/gpgmm/common/SlabMemoryAllocator.cpp:124-156 | with memory available the result has all those properties |
| `SlabSystem.CarvableIff` | src/gpgmm/common/SlabMemoryAllocator.cpp:115-140 | the computed slab size, from any base, holds a block iff every power of two within the fragmentation limit does |
| `SlabSystem.RoundedIsCarvable` | src/gpgmm/common/SlabMemoryAllocator.cpp:502-512 | a block size that is the request rounded to its alignment meets that, with a limit below one |
| `SlabSystem.LimitOneIsTooHigh` | src/gpgmm/common/SlabMemoryAllocator.cpp:124-140 | with a limit of one, a slab of 32 bytes is made for a block of 64 |
| `SlabSystem.ComputeSlabSizeOk` | src/gpgmm/common/SlabMemoryAllocator.cpp:124-156 | also when a slab is reused, the size is a power of two that holds a block |
| `SlabSystem.FindFreeOk` | src/gpgmm/common/SlabMemoryAllocator.cpp:158-181 | a size to reuse is that of a cache with a free slab, at least what was asked |
| `SlabSpec.MoveSlabShape` | src/gpgmm/common/SlabMemoryAllocator.cpp:422-436 | a moved slab is found through its entry, every other entry leads where it led before |
| `SlabOperations.TakeFromOk` | src/gpgmm/common/SlabMemoryAllocator.cpp:245-366 | one free block of the last free slab, with memory, or nothing; a full slab changes lists |
| `SlabOperations.ReturnToOk` | src/gpgmm/common/SlabMemoryAllocator.cpp:391-420 | one block less; memory goes back exactly with the last block |
| `SlabAllocation.TryAllocateOk` | src/gpgmm/common/SlabMemoryAllocator.cpp:193-382 | one more live block, inside its slab, and all other memory in place; or nothing changes hands |
| `SlabAllocation.LookupIsHome` | src/gpgmm/common/SlabMemoryAllocator.cpp:183-191 | the cache looked up by memory size is the one the slab lives in |
| `SlabAllocation.DeallocateOk` | src/gpgmm/common/SlabMemoryAllocator.cpp:384-420 | exactly one block less in use, its slab's memory returned iff it was the last |
| `SlabTheorems.LiveBlockFindsItsSlab` | src/gpgmm/common/SlabMemoryAllocator.cpp:363-370 | a live block's table entry leads to the single current copy of its slab, which names its place |
| `SlabTheorems.StoredSlabOk` | src/gpgmm/common/SlabMemoryAllocator.cpp:245-254 | every stored slab is in the list that fits its state, has memory iff a block is used, and is indexed both ways |
| `SlabTheorems.LiveBlocksApart` | src/gpgmm/common/SlabMemoryAllocator.cpp:369-382 | two live blocks share no byte |
| `SlabTheorems.LiveBlockInside` | src/gpgmm/common/SlabMemoryAllocator.cpp:372-374 | a live block lies inside the bytes of its slab |
| `SlabTheorems.RefusedOnlyForSize` | src/gpgmm/common/SlabMemoryAllocator.cpp:193-262 | with memory available, served iff the block size is aligned as asked and the slab needed does not exceed the largest |
| `SlabServing.ServedIff` | src/gpgmm/common/SlabMemoryAllocator.cpp:123-382 | for any memory available and any next allocator: served iff a slab size is found and a free slab of it, or a new one, has memory; and from slabs of exactly that size |
| `SlabServing.ReuseServes` | src/gpgmm/common/SlabMemoryAllocator.cpp:142-181 | with too little memory for a new slab, served iff some last free slab has enough memory, from the first such cache, whatever the next allocator has |
| `SlabServing.GrowsIff` | src/gpgmm/common/SlabMemoryAllocator.cpp:217-250 | a larger slab is added exactly once as many slabs are full as fit into it |
| `SlabServing.FreeSlabServes` | src/gpgmm/common/SlabMemoryAllocator.cpp:208-216 | a free slab of the wanted size serves, with its own or new memory, and none is added |
| `SlabServing.FindFreeMeaning` | src/gpgmm/common/SlabMemoryAllocator.cpp:158-181 | the search finds the first cache, so the largest slabs, with a slab to use again, iff there is any |
| `SlabTheorems.SlabSizesGrow` | src/gpgmm/common/SlabMemoryAllocator.cpp:200-250 | with memory available, slab sizes never shrink from one served request to the next |
| `SlabTheorems.RunKeeps` | src/gpgmm/common/SlabMemoryAllocator.cpp:193-436 | over every run, a block not freed stays at the same bytes of the same memory |
| `SlabTheorems.NoLiveNoMemory` | src/gpgmm/common/SlabMemoryAllocator.cpp:415-419 | an allocator without live blocks holds no memory |
| `SlabMemory.SlabMemoryAllocator.ComputeSlabSize` | src/gpgmm/common/SlabMemoryAllocator.cpp:124-156 | the loop computes the specified size |
| `SlabMemory.SlabMemoryAllocator.FindNextFreeSlabOfSize` | src/gpgmm/common/SlabMemoryAllocator.cpp:158-181 | the loop finds the first reusable slab, larger ones first |
| `SlabMemory.SlabMemoryAllocator.MoveSlabInCache` | src/gpgmm/common/SlabMemoryAllocator.cpp:422-436 | copy, erase and redirect, as specified |
| `SlabMemory.SlabMemoryAllocator.PrepareSlab` | src/gpgmm/common/SlabMemoryAllocator.cpp:217-250 | a free slab to take from, grown only once enough slabs are full |
| `SlabMemory.SlabMemoryAllocator.TryAllocateMemory` | src/gpgmm/common/SlabMemoryAllocator.cpp:193-382 | keeps the invariant and acts as specified |
| `SlabMemory.SlabMemoryAllocator.DeallocateMemory` | src/gpgmm/common/SlabMemoryAllocator.cpp:384-420 | keeps the invariant and acts as specified |
| `SizeCache.AcquireOk` | src/gpgmm/common/MemoryCache.h:145-160 | an entry found or created is held by the call; nothing live changes |
| `SizeCache.ReleaseOk` | src/gpgmm/utils/RefCount.h:126-144 | the entry stays iff it has live allocations or is pinned |
| `SizeCacheTheorems.TryAllocateCachedOk` | src/gpgmm/common/SlabMemoryAllocator.cpp:494-527 | one more live block or none; references equal live allocations plus one if pinned |
| `SizeCacheTheorems.CachedServedIff` | src/gpgmm/common/SlabMemoryAllocator.cpp:494-527 | served iff the request is valid, its block not too large, and the slabs for its size, new ones if there is no entry, serve |
| `SizeCacheTheorems.CachedRefusedOnlyForSize` | src/gpgmm/common/SlabMemoryAllocator.cpp:494-527 | with memory available, served iff the request is valid and neither its block nor the slab it needs is too large |
| `SizeCacheTheorems.CachedEntry` | src/gpgmm/common/MemoryCache.h:145-160 | an entry stays if it was there, is pinned by the request that creates it, or serves; pinned or not is decided at creation; a lookup is a hit iff there was an entry; other entries stay |
| `SizeCacheTheorems.DeallocateCachedOk` | src/gpgmm/common/SlabMemoryAllocator.cpp:529-544 | always a hit; the entry goes iff it was the last allocation and not pinned, then without memory |
| `SizeCacheTheorems.RunSafety` | src/gpgmm/common/SlabMemoryAllocator.cpp:494-544 | in every reachable state an entry exists iff its block size is in use or pinned, with one reference for each live allocation and one if pinned |
| `SizeCacheTheorems.RunApart` | src/gpgmm/common/SlabMemoryAllocator.cpp:494-544 | in every reachable state live blocks are disjoint, within an entry and across entries |
| `SizeCacheTheorems.ClearEmpties` | src/gpgmm/common/MemoryCache.h:184-194 | clearing leaves nothing iff every entry has one reference, so after all allocations are returned |
| `SlabCacheMemory.SlabCacheAllocator.GetOrCreate` | src/gpgmm/common/MemoryCache.h:145-160 | finds or creates, counts the lookup, holds a reference |
| `SlabCacheMemory.SlabCacheAllocator.Unref` | src/gpgmm/utils/RefCount.h:126-144 | the last reference removes the entry |
| `SlabCacheMemory.SlabCacheAllocator.TryAllocateMemory` | src/gpgmm/common/SlabMemoryAllocator.cpp:494-527 | acts over the cached slab allocators as the function of which CachedServedIff and CachedEntry say when it serves and what it leaves |
| `SlabCacheMemory.SlabCacheAllocator.DeallocateMemory` | src/gpgmm/common/SlabMemoryAllocator.cpp:529-544 | keeps the invariant and acts as specified |
| `ResidencyTheorems.EvictsShortestPrefix` | src/gpgmm/d3d12/ResidencyManagerD3D12.cpp:582-676 | evicts the shortest LRU prefix that covers the shortfall, unless the cache ends or a heap in use is met |
| `ResidencyTheorems.EnsureInBudgetMeaning` | src/gpgmm/d3d12/ResidencyManagerD3D12.cpp:572-676 | after success the request fits the budget iff the usage was within it or the least recently used heaps can cover the shortfall; without a budget nothing is evicted |
| `ResidencyTheorems.EnsureInBudgetAcceptsTooMuch` | src/gpgmm/d3d12/ResidencyManagerD3D12.cpp:572-578 | a state in which a request that does not fit is accepted |
| `ResidencyTheorems.RefusesFittingRequestIff` | src/gpgmm/d3d12/ResidencyManagerD3D12.cpp:572-676 | a request that fits is refused iff some heaps at the least recently used end add up to the shortfall but not to the request |
| `ResidencyTheorems.EnsureInBudgetRefusesFittingRequest` | src/gpgmm/d3d12/ResidencyManagerD3D12.cpp:572-578 | a state in which a request that fits is refused |
| `ResidencyInvariant.EvictOk` | src/gpgmm/d3d12/ResidencyManagerD3D12.cpp:582-676 | eviction keeps the invariant, other caches, locked heaps and heaps of the current submission |
| `ResidencyInvariant.RetryOk` | src/gpgmm/d3d12/ResidencyManagerD3D12.cpp:822-831 | the retry loop ends for any device; what it leaves is in order |
| `ResidencyPaging.MakeResidentIff` | src/gpgmm/d3d12/ResidencyManagerD3D12.cpp:796-834 | after making room, paging in succeeds iff some attempt does before an eviction after a failed one takes nothing out; the state is that of the last attempt |
| `ResidencyPaging.EvictFrees` | src/gpgmm/d3d12/ResidencyManagerD3D12.cpp:582-676 | an eviction takes something out iff there is a budget, a shortfall and a least recently used heap not in use |
| `ResidencyInvariant.CountIsZeroOrOne` | src/gpgmm/d3d12/ResidencyManagerD3D12.cpp:649-664 | paging in and out alternate for every heap |
| `ResidencyOperations.CreateExact` | src/gpgmm/d3d12/HeapD3D12.cpp:89-110 | creation keeps the invariant iff the heap is not created unresident |
| `ResidencyOperations.CreatedLast` | src/gpgmm/d3d12/HeapD3D12.cpp:89-110 | a new heap enters its cache at the most recently used end, an untracked one none |
| `ResidencyExamples.UnresidentHeapEvicted` | src/gpgmm/d3d12/HeapD3D12.cpp:89-110 | a heap created unresident is evicted without having been made resident |
| `ResidencyOperations.DestroyOk` | src/gpgmm/d3d12/HeapD3D12.cpp:138-151 | destruction unlinks the heap and keeps the invariant |
| `ResidencyOperations.LockOk` | src/gpgmm/d3d12/ResidencyManagerD3D12.cpp:309-345 | locking keeps the invariant, also when paging in fails |
| `ResidencyLocks.LockCounts` | src/gpgmm/d3d12/ResidencyManagerD3D12.cpp:309-345 | a successful lock adds exactly one to the locks of that heap, takes it out of the cache and leaves it resident; only paging in can fail, and then no lock changes |
| `ResidencyPaging.LockSucceedsIff` | src/gpgmm/d3d12/ResidencyManagerD3D12.cpp:309-345 | it succeeds iff the heap is cached, locked already, or can be paged in with room for its size |
| `ResidencyOperations.UnlockOk` | src/gpgmm/d3d12/ResidencyManagerD3D12.cpp:349-380 | unlocking keeps the invariant |
| `ResidencyLocks.UnlockCounts` | src/gpgmm/d3d12/ResidencyManagerD3D12.cpp:349-380 | succeeds iff the heap is locked, takes exactly one lock away, and with the last one links the heap at the most recently used end |
| `ResidencyLocks.RunLocks` | src/gpgmm/d3d12/ResidencyManagerD3D12.cpp:309-380 | over every run a heap has as many locks as it was successfully locked more often than unlocked |
| `ResidencyLocks.NeverEvictsLocked` | src/gpgmm/d3d12/ResidencyManagerD3D12.cpp:309-380 | over every run a call evicts only heaps that were successfully unlocked as often as locked |
| `ResidencySubmission.ExecuteExact` | src/gpgmm/d3d12/ResidencyManagerD3D12.cpp:706-776 | a successful submission keeps the invariant iff one segment has heaps to page in |
| `ResidencySubmission.OneSegmentMeaning` | src/gpgmm/d3d12/ResidencyManagerD3D12.cpp:706-756 | that is, iff the listed heaps that need paging in are all of one segment |
| `ResidencyExamples.OtherSegmentEvicted` | src/gpgmm/d3d12/ResidencyManagerD3D12.cpp:747-776 | after a submission with heaps of both segments, one is evicted without having been made resident |
| `ResidencySubmission.FailedSubmissionBreaks` | src/gpgmm/d3d12/ResidencyManagerD3D12.cpp:747-770 | a failed submission always leaves a listed heap linked in the cache that is not resident, by its status and by the calls to the device |
| `ResidencyExamples.FailedSubmissionLeavesHeap` | src/gpgmm/d3d12/ResidencyManagerD3D12.cpp:747-770 | a reachable state and a submission that does |
| `ResidencySubmission.ExecuteGuarantee` | src/gpgmm/d3d12/ResidencyManagerD3D12.cpp:706-770 | every unlocked listed heap ends up cached and resident, and no eviction of the submission names it |
| `ResidencySubmission.SubmissionKeepsOwnHeaps` | src/gpgmm/d3d12/ResidencyManagerD3D12.cpp:621-770 | no submission, even a failed one, evicts a heap that it lists and finds unlocked |
| `ResidencyPaging.ExecuteSucceedsIff` | src/gpgmm/d3d12/ResidencyManagerD3D12.cpp:706-770 | a submission succeeds iff no listed heap needs paging in, or paging in does for the local ones, else the others, with room for their bytes, each counted once |
| `ResidencyTheorems.SubmittedHeapsAreLast` | src/gpgmm/d3d12/ResidencyManagerD3D12.cpp:706-745 | after a submission its heaps are last in their caches; all others keep their order, less the least recently used ones evicted |
| `ResidencyTheorems.LockKeepsOrder` | src/gpgmm/d3d12/ResidencyManagerD3D12.cpp:309-345 | locking takes a cached heap out and leaves all others in order; paging in takes out only the least recently used ones of its segment |
| `ResidencyTheorems.DestroyKeepsOrder` | src/gpgmm/d3d12/HeapD3D12.cpp:138-151 | destroying takes exactly that heap out, all others keep order and record |
| `ResidencyTheorems.SubmissionSignals` | src/gpgmm/d3d12/ResidencyManagerD3D12.cpp:777-781 | a signaling submission signals exactly the current value and is recorded with the heaps listed and those unlocked |
| `ResidencyPaging.ExecuteListsOutcome` | src/gpgmm/d3d12/ResidencyManagerD3D12.cpp:681-700 | no list is an invalid argument, more than one not implemented, both without effect |
| `ResidencyTheorems.SubmissionStopsShortOnlyAtOwnHeaps` | src/gpgmm/d3d12/ResidencyManagerD3D12.cpp:621-647 | eviction for a submission ends short only when all heaps left belong to it |
| `ResidencyRuns.GetStatsMeaning` | src/gpgmm/d3d12/ResidencyManagerD3D12.cpp:836-860 | the statistics are count and bytes of the resident heaps, each counted once, iff the manager's own account is that of the locked ones |
| `ResidencyRuns.RunSafety` | src/gpgmm/d3d12/ResidencyManagerD3D12.cpp:309-860 | over every run: a heap is evicted only resident, unlocked and with its last-used fence value reached, waits are for signaled values, residency counts match the status, statistics are exact |
| `ResidencyTracking.EvictedAfterUse` | src/gpgmm/d3d12/ResidencyManagerD3D12.cpp:617-742 | over every run: a heap listed by a submission that was signaled is evicted only after the GPU completed that, if it was unlocked when listed or unlocked after completion |
| `ResidencyExact.NextEvictionWaitsIff` | src/gpgmm/d3d12/ResidencyManagerD3D12.cpp:582-742 | over every run in which submissions signal: for every budget and GPU, the next eviction of a cached heap follows fence value v, iff v is completed or a submission of value v or later tracked this heap or one less recently used |
| `ResidencyExamples.LockedHeapEvictedInUse` | src/gpgmm/d3d12/ResidencyManagerD3D12.cpp:709-713 | a legal run that evicts a heap before the submission that listed it, locked, has completed |
| `ResidencyRuns.DestroyStatsExact` | src/gpgmm/d3d12/HeapD3D12.cpp:138-151 | after destroying a heap GetStats reports the resident heaps iff it was not locked |
| `ResidencyExamples.LockedHeapDestroyed` | src/gpgmm/d3d12/HeapD3D12.cpp:138-151 | a legal run after which destroying the only heap leaves a report of one |
| `ResidencyRuns.RunSettled` | src/gpgmm/d3d12/ResidencyManagerD3D12.cpp:777-781 | if every submission signals, no heap is left marked with an unsignaled value |
| `Residency.FenceObject.WaitFor` | src/gpgmm/d3d12/FenceD3D12.cpp:55-69 | waits only for values not completed and caches what was reached |
| `Residency.FenceObject.IsCompleted` | src/gpgmm/d3d12/FenceD3D12.cpp:71-81 | answers from the cached value, refreshing it only when needed |
| `Residency.FenceObject.Signal` | src/gpgmm/d3d12/FenceD3D12.cpp:83-89 | the current value becomes the last signaled one |
| `Residency.ResidencyManager.InsertHeapInternal` | src/gpgmm/d3d12/ResidencyManagerD3D12.cpp:392-410 | links at the most recently used end; a linked heap is refused |
| `Residency.ResidencyManager.EvictInternal` | src/gpgmm/d3d12/ResidencyManagerD3D12.cpp:582-676 | the loop takes exactly the specified victims and hands them to the device in one call |
| `Residency.ResidencyManager.EnsureInBudget` | src/gpgmm/d3d12/ResidencyManagerD3D12.cpp:572-578 | acts as specified |
| `Residency.ResidencyManager.MakeResident` | src/gpgmm/d3d12/ResidencyManagerD3D12.cpp:796-834 | the retry loop ends because each retry shrinks the cache, and acts as the function that MakeResidentIff characterises |
| `Residency.ResidencyManager.LockHeap` | src/gpgmm/d3d12/ResidencyManagerD3D12.cpp:309-345 | acts as the function of which LockCounts and LockSucceedsIff say what it does and when |
| `Residency.ResidencyManager.UnlockHeap` | src/gpgmm/d3d12/ResidencyManagerD3D12.cpp:349-380 | acts as specified, with both failures |
| `Residency.ResidencyManager.ExecuteCommandLists` | src/gpgmm/d3d12/ResidencyManagerD3D12.cpp:681-790 | one residency list, others are rejected untouched; the two loops act as the specified submission |
| `Residency.ResidencyManager.GetStats` | src/gpgmm/d3d12/ResidencyManagerD3D12.cpp:836-860 | the two loops sum the resident heaps of both caches |
| `MemoryPools.TrimMeaning` | src/gpgmm/common/MemoryPool.h:102-122 | the shortest non-empty prefix that reaches the target, or all |
| `LinkedLists.MemorySegment.AcquireFromPool` | src/gpgmm/common/LIFOMemoryPool.cpp:27-36 | the memory returned last, or none |
| `LinkedLists.MemorySegment.ReturnToPool` | src/gpgmm/common/LIFOMemoryPool.cpp:38-43 | memory goes to the front |
| `LinkedLists.MemorySegment.ReleasePool` | src/gpgmm/common/MemoryPool.h:102-122 | the loop releases exactly that prefix and reports its bytes |
| `LinkedLists.MemorySegment.InsertAfter` | src/gpgmm/utils/LinkedList.h:120-125 | the nodes form a ring with the new one in place, linked both ways |
| `LinkedLists.MemorySegment.InsertBefore` | src/gpgmm/utils/LinkedList.h:112-117 | the same, before a node |
| `LinkedLists.MemorySegment.RemoveFromList` | src/gpgmm/utils/LinkedList.h:134-141 | the others stay a ring; the node is in no list |
| `SegmentedPool.WithSegmentOk` | src/gpgmm/common/SegmentedMemoryAllocator.cpp:91-120 | sizes stay strictly ascending, with one segment for the size |
| `SegmentedOperations.TryAllocateOk` | src/gpgmm/common/SegmentedMemoryAllocator.cpp:122-151 | pooled or new memory, whatever its size, is in use once; all accounts stay exact; pooled sizes match iff the new memory has the rounded size |
| `SegmentedTheorems.TryAllocateMeaning` | src/gpgmm/common/SegmentedMemoryAllocator.cpp:122-151 | an accepted request gets the first of the pool for its rounded size, whatever the next allocator has, and only from an empty pool new memory; what leaves and enters each account; other pools stay |
| `SegmentedTheorems.ReturnAndReuse` | src/gpgmm/common/SegmentedMemoryAllocator.cpp:122-173 | the next accepted request of its size gets the memory just returned, and then everything is as before |
| `SegmentedTheorems.DeallocateMeaning` | src/gpgmm/common/SegmentedMemoryAllocator.cpp:153-173 | memory becomes the first of the pool for its size; all other pools stay |
| `SegmentedOperations.DeallocateOk` | src/gpgmm/common/SegmentedMemoryAllocator.cpp:153-173 | memory returns to the front of the pool of its size |
| `SegmentedOperations.ReleaseFromOk` | src/gpgmm/common/SegmentedMemoryAllocator.cpp:175-193 | exactly the reported bytes leave the free and the next allocator's account |
| `SegmentedTheorems.ReleaseMeaning` | src/gpgmm/common/SegmentedMemoryAllocator.cpp:175-193 | at least half of what was asked for is released, or everything; UINT64_MAX releases everything if less than half of it is pooled |
| `SegmentedTheorems.ReleaseEnoughIff` | src/gpgmm/common/SegmentedMemoryAllocator.cpp:175-193 | what was asked for is released, or everything, iff the first segments that hold half of it hold all of it or have no pooled memory after them |
| `SegmentedTheorems.OvershootEmptiesRest` | src/gpgmm/common/SegmentedMemoryAllocator.cpp:183-189 | after a segment that releases more than was left, all later segments are emptied, and that one keeps its rest |
| `SegmentedTheorems.ReleaseCanStopAtHalf` | src/gpgmm/common/SegmentedMemoryAllocator.cpp:183-189 | asked for 8 bytes with 12 pooled, 4 are released |
| `SegmentedTheorems.ReleaseCanEmptyEverything` | src/gpgmm/common/SegmentedMemoryAllocator.cpp:183-189 | asked for 6 bytes, all 16 are released |
| `SegmentedTheorems.ReturnsToItsSizeIff` | src/gpgmm/common/SegmentedMemoryAllocator.cpp:129-173 | memory of the size the next allocator rounds to returns to a segment of its size iff request and pool round alike |
| `SegmentedTheorems.ReturnsToAnotherSize` | src/gpgmm/common/SegmentedMemoryAllocator.cpp:129-173 | memory of 4 bytes returns to the segment for 64 |
| `SegmentedTheorems.RunSizes` | src/gpgmm/common/SegmentedMemoryAllocator.cpp:122-193 | over every run in which requests and pool round alike, pooled memory has the size of its segment |
| `SegmentedTheorems.RunSafety` | src/gpgmm/common/SegmentedMemoryAllocator.cpp:122-193 | over every run: free bytes are the pooled bytes, the next allocator's bytes are used plus free, every memory is in use or pooled once, segments ascend |
| `SegmentedMemory.GetMiddleSegment` | src/gpgmm/common/SegmentedMemoryAllocator.cpp:25-38 | slow and fast pointer find the lower middle node |
| `SegmentedMemory.FindSegment` | src/gpgmm/common/SegmentedMemoryAllocator.cpp:41-65 | the search ends and agrees with a linear lower bound, the end node as fallback |
| `SegmentedMemory.SegmentedMemoryAllocator.GetOrCreateFreeSegment` | src/gpgmm/common/SegmentedMemoryAllocator.cpp:91-120 | the one segment of the size, created in sorted place; the others stay in the list |
| `SegmentedMemory.SegmentedMemoryAllocator.TryAllocateMemory` | src/gpgmm/common/SegmentedMemoryAllocator.cpp:122-151 | acts as the function that TryAllocateMeaning characterises; every segment stays in the list and memory in use keeps its segment size |
| `SegmentedMemory.SegmentedMemoryAllocator.DeallocateMemory` | src/gpgmm/common/SegmentedMemoryAllocator.cpp:153-173 | keeps the invariant and acts as specified |
| `SegmentedMemory.SegmentedMemoryAllocator.ReleaseMemory` | src/gpgmm/common/SegmentedMemoryAllocator.cpp:175-193 | the loop over linked nodes acts as specified, with 64-bit wrap-around |

## Left out

- Device, adapter, COM and Vulkan calls: foreign code. Failures of the device's Evict, of fence waits, of QueryInterface and of budget queries are not modelled; a failing MakeResident is.
- Null arguments: the error for a null heap is not modelled.
- EnqueueMakeResident: the asynchronous branch is not modelled.
- Prefetching, worker threads and mutexes: each public call is one atomic step, and prefetching is disabled.
- Budget polling and percentages: budget and usage are values that the environment chooses at each eviction; their 64-bit sum is taken not to wrap around.
- Heap objects: heaps are records keyed by identity, with sizes above zero; destroying a heap assumes that it is not locked.
- Heap::CreateHeap: beyond the initial residency status and insertion into the cache nothing of it is modelled.
- StableList::reserve and the iterators: reserve adds empty chunks, and begin does not skip an erased first slot; the slab code relies on neither.
- IndexedMemoryPool::ReleasePool: not called by the buddy allocator.
- SlabBlockAllocator::ReleaseBlocks and destructors: freeing of C++ objects is not modelled.
- Statistics other than those named above (GetStats of the slab and buddy allocators, hits of prefetching): sums over fields.
- SlabMemory.SlabMemoryAllocator.TryAllocateMemory: requires that a slab of the size computed for the request holds a block, which the block allocator of a slab asserts; CarvableIff says exactly when. Slabs without blocks are not modelled.
- SlabCacheMemory.SlabCacheAllocator.TryAllocateMemory: requires the same of the request (Servable); a fragmentation limit below one ensures it (LowLimitServes). A limit of zero, with which sizing a slab need not end, is not modelled.
- LinkedLists.MemorySegment.ReturnToPool: the debug assertion that the memory has the size of the pool is not a precondition, because ReturnsToAnotherSize shows that the allocator does not establish it.
- ResidencyRuns.RunSafety: runs in which heaps are created resident or untracked and destroyed unlocked, and submissions page in one segment and succeed (a failed one ends the run); CreateExact, DestroyStatsExact, ExecuteExact and FailedSubmissionBreaks show that each limit is exact, for the invariant or the statistics. That a heap is evicted only after every submission that listed it is false (LockedHeapEvictedInUse) and not promised; EvictedAfterUse and NextEvictionWaitsIff say when it holds.
- ResidencyTracking.EvictedAfterUse: speaks of submissions that signal the fence, and is one-way; the exact condition is NextEvictionWaitsIff.
- ResidencyExact.NextEvictionWaitsIff: speaks of runs in which every submission signals; a submission that does not has no value to wait for.
- Floating point: SafeDivide followed by a conversion is the exact integer quotient, and limits and factors are exact fractions.
- Resource allocation strategy, size-class and heap-type tables, dedicated and standalone allocators, tracing, logging, JSON and capture replay: tables and wrappers.
