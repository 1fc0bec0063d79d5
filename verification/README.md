# LMCache, modelled and proved in Dafny

This project models the parts of LMCache whose correctness is hardest to see, and proves what they
promise for all inputs, all runs and all interleavings.

* **Memory allocator stack.** `Alignment` is the mask form of rounding on unbounded two's complement
  integers. `FreeList` is the explicit free list as a value: first fit, release with two-sided
  coalescing, growth. `AddressManager` is the class that updates such a list in place, and `HeapRuns`
  its whole runs. `Lifetime` is the reference/pin life of one object, `ObjectTable` and `BatchedFree`
  the sharing of the heap among objects, `Coalescing` the merging of a sorted batch, `TensorMemory` the
  allocator of reference-counted objects and the pin monitor, `ObjectRuns` its whole runs,
  `LazyExpansion` the background worker that pins and commits memory while clients allocate, and
  `PagedAllocator` the fixed-page variant.
* **Leased lock.** `TTLLock` is a transition system with one step per atomic load, store or
  compare-and-swap, any number of threads, and a clock that only moves forward.
* **Prefix index.** `TokenDatabase` cuts tokens into chunks with chained keys, `CacheEngine` stores and
  looks them up, `Prefetch` is what the storage tiers bring, and `AsyncRetrieve` hands it out.
* **Store completion.** `StoreCompletion` is the protocol by which the multi-process worker adapter
  decides which finished requests to return.
* **Slot mapping.** `SlotMapping` compresses slot lists into ranges, `SlotText` writes and parses their
  text, and `SlotGrammar` says by a grammar which texts are accepted.

Where the source updates an object in place, the model is a class whose methods are tied to functions
on values; where it loops, the model loops, with the loop proved equal to a recursive definition. The
theorems are about those functions and about runs of them. `Sound` and `Tabled` are invariants placed
behind two recursive steps so that proofs about clients do not unfold them; `SoundIsInv` and
`TabledIsConsistent` say what they mean.

Memory objects are entries of a table, and a key of the table stands for the identity of an object: two
references to one object are two uses of one key. A buffer is a range of byte addresses. Exceptions and
`None` results are `Option` values. The futures of the adapter, the hash function, the clock, the moment
at which memory runs out and the order of threads are parameters.

## Where code and documentation disagree

The code is modelled as it is.

* The lock header (`csrc/storage_manager/ttl_lock.h:33-40`) says every `lock` increments the counter
  unless the lease has expired. The two updates of `lock` are not one step: `LockLostAtExpiry` gives a
  run in which a lock taken inside a fresh lease is overwritten. `NothingLostIff` says exactly when none
  is, and `CounterConserved` how much is lost. It also says the lease is always refreshed from the current
  time; `LeaseMovedBack` gives a run in which it moves backwards, `LeaseMovesBackIff` the exact steps.
* Aligning is offered for any `align_bytes`. `AlignToExact` shows that the mask form rounds correctly
  exactly for powers of two. For other alignments a batch can take more bytes than its objects give
  back (`AlignmentThreeLeaks`); `NothingLeaksIffWhole` and `LeakFreeIffPow2` say exactly when.
* The lazy allocator accepts any `align_bytes`, but a commit is rounded up again by `sbrk`, so that the
  heap can outgrow the pinned memory (`WideAlignmentOvershoots`). `PinnedIffExact` gives the exact
  condition.
* The pin monitor collects expired objects and unpins them later without holding its lock. An object
  pinned again in between loses the new pin too (`YoungPinDropped`, `SweepHitsYoungIffRepinned`).
* Paged pages can be put back twice; the self check does not notice (`FreedTwiceHandedOutTwice`;
  the contract of `Free` has the exact condition).
* The adapter is documented to return a request only once its store is complete, and only once. The
  first holds for ids submitted alone; for batched ids it holds exactly until the engine reports a
  non-leading id of a pending batch (`PendingReturnedIffMergedReported`, `MergedIdReturnedTooEarly`). An
  id reported again after it was returned is returned again (`ReturnsWhenReportedAndComplete`,
  `ReportedAgainReturnedAgain`).
* Asynchronous retrieve is meant to give every prefetched object an owner. It does exactly when there is
  none, or no key was prefetched twice and the mask ends at a chunk boundary (`HandledOnceIff`,
  `DuplicateKeyLost`, `UnalignedMaskLosesAll`).
* Slot text is documented for integers; a run of three or more slots that starts below zero is refused
  (`TextRoundTrip`, `NegativeRunRefused`).

## Model

| member | source | states |
|---|---|---|
| `Alignment.AlignToBounds` | lmcache/v1/memory_management.py:944-954 | for every positive alignment, power of two or not, the mask form covers the request and exceeds it by less than one unit |
| `Alignment.AlignToLeast` | lmcache/v1/lazy_memory_allocator.py:49-60 | for a power of two the mask form is the least multiple not below the size |
| `Alignment.AlignToExact` | lmcache/v1/memory_management.py:944-954 | the mask form yields the least multiple for every size if and only if the alignment is a power of two |
| `Alignment.AlignToMultiple` | lmcache/v1/memory_management.py:944-954 | a size that is already a multiple is left alone |
| `Alignment.AlignToFixed` | lmcache/v1/memory_management.py:944-954 | for every alignment, the sizes left alone are those without the bits of the mask |
| `Alignment.AlignToTwice` | lmcache/v1/memory_management.py:944-954 | for every alignment, rounding twice is rounding once |
| `Alignment.UnitsRoundedAgain` | lmcache/v1/memory_management.py:1242-1250 | for every alignment that is no power of two, some whole number of rounded one-byte units is rounded up once more |
| `AddressSpace.AddressManager.ComputeAlignedSize` | lmcache/v1/memory_management.py:944-954 | the aligned size covers the request, wastes less than one unit, and is a multiple when the alignment is a power of two |
| `FreeList.RunInOneBlock` | lmcache/v1/memory_management.py:981-1001 | full coalescing: every run of free bytes, however long, lies inside a single block |
| `FreeList.AllocFindsLowestRun` | lmcache/v1/memory_management.py:1023-1050 | allocation fails exactly when no run of that many free bytes exists anywhere, and otherwise takes the lowest address at which one starts |
| `FreeList.AllocEffect` | lmcache/v1/memory_management.py:1023-1050 | exactly the bytes handed out leave the free list, which stays sorted, coalesced and without empty blocks inside the heap |
| `FreeList.ReleaseEffect` | lmcache/v1/memory_management.py:1054-1074 | exactly the released bytes join the free list, which stays sorted and coalesced on both sides |
| `FreeList.GrowEffect` | lmcache/v1/memory_management.py:1077-1093 | exactly the new bytes join the free list, the last block being extended when it reaches the old end |
| `FreeList.Canonical` | lmcache/v1/memory_management.py:969-1003 | the free list is a canonical form: two such lists with the same free bytes are the same list |
| `FreeList.AllocThenRelease` | lmcache/v1/memory_management.py:1005-1074 | freeing what was just allocated restores the very same list |
| `FreeList.ReleaseAllEffect` | lmcache/v1/memory_management.py:1054-1074 | a sequence of releases of disjoint pieces in use adds exactly their bytes and sizes |
| `FreeList.ReleaseOrderIrrelevant` | lmcache/v1/memory_management.py:1054-1074 | two ways of cutting the same bytes into pieces, released in any order, end in the same list |
| `AddressSpace.AddressManager.constructor` | lmcache/v1/memory_management.py:923-942 | the new address space is one free block, nothing is in use |
| `AddressSpace.AddressManager.Allocate` | lmcache/v1/memory_management.py:1005-1050 | fails, changing nothing, iff no free run of the aligned size exists; otherwise hands out the lowest one, disjoint from all bytes in use and inside the heap |
| `AddressSpace.AddressManager.FindBlock` | lmcache/v1/memory_management.py:1023-1027 | the scan finds the first block that is large enough |
| `AddressSpace.TakeFront` | lmcache/v1/memory_management.py:1038-1045 | removing the block and adding its remainder to the sorted list is the first-fit allocation of the free-list model |
| `AddressSpace.AddressManager.Coalesce` | lmcache/v1/memory_management.py:969-1003 | reports whether a neighbour was touched, and leaves the list with the block joined to whichever neighbours it touches |
| `AddressSpace.AddressManager.Free` | lmcache/v1/memory_management.py:1054-1074 | the list becomes the release of the given bytes, the bytes leave the set in use, the counter follows |
| `AddressSpace.AddressManager.Sbrk` | lmcache/v1/memory_management.py:1077-1093 | the heap grows by the aligned size, all of it free, and nothing in use changes |
| `AddressSpace.AddressManager.CheckConsistency` | lmcache/v1/memory_management.py:1113-1132 | in every state the operations can reach the self check answers true |
| `AddressSpace.AddressManager.GetFreeSize` | lmcache/v1/memory_management.py:1104-1111 | the counters give exactly the bytes in the free list |
| `AddressSpace.AllocSound` | lmcache/v1/memory_management.py:1005-1050 | allocation keeps the partition of the heap into free bytes and bytes in use, and the counter equal to the latter |
| `AddressSpace.ReleaseSound` | lmcache/v1/memory_management.py:1054-1074 | so does freeing bytes in use |
| `AddressSpace.GrowSound` | lmcache/v1/memory_management.py:1077-1093 | so does growing the heap |
| `HeapRuns.RunSound` | lmcache/v1/memory_management.py:969-1093 | after any sequence of allocations, releases of bytes in use and growth, the list is strictly sorted with no touching and no inner empty blocks, and its bytes with the bytes in use partition the heap |
| `HeapRuns.RunNoEmptyBlock` | lmcache/v1/memory_management.py:969-1093 | with positive sizes throughout, no block of the list is ever empty |
| `HeapRuns.RunAligned` | lmcache/v1/memory_management.py:1005-1093 | after any such sequence that gives back aligned pieces, every free block starts at a multiple of the alignment, and a heap of another size ends in a free block |
| `HeapRuns.HandedOutAligned` | lmcache/v1/memory_management.py:1005-1093 | every address handed out is a multiple of the power-of-two alignment, even when the initial size is not and across any growth |
| `Lifetime.LiveWhileHeld` | lmcache/v1/memory_management.py:512-584 | over any sequence of reference and pin operations, surplus ones included, an object is live iff it was held by a reference or a pin at every moment so far |
| `Lifetime.ReturnedOnceAtFirstUnheld` | lmcache/v1/memory_management.py:516-584 | operation k hands the object back iff both counts are zero after it and never were before |
| `Lifetime.ReturnedAtMostOnce` | lmcache/v1/memory_management.py:516-584 | the object is handed back exactly once if both counts ever reach zero together, and otherwise never |
| `TensorMemory.ScriptLife` | lmcache/v1/memory_management.py:512-584 | however operations on many objects interleave, each object keeps its address and size and lives the life its own operations give it |
| `ObjectTable.LiveObjectsDisjoint` | lmcache/v1/memory_management.py:1177-1304 | no two live objects share a byte, and all their bytes are in use |
| `ObjectRuns.LiveObjectSafe` | lmcache/v1/memory_management.py:1177-1304 | in every state of every run, for every alignment, a live object lies inside the heap and none of its bytes is free |
| `ObjectRuns.LiveObjectsApart` | lmcache/v1/memory_management.py:1177-1304 | no two live objects ever share a byte |
| `ObjectRuns.EveryByteAccounted` | lmcache/v1/memory_management.py:1177-1304 | in every state a byte of the heap is not free iff some live object spans it or it is lost to rounding, never both; the counters count the live objects and the bytes that are not free |
| `ObjectRuns.LostIffRounded` | lmcache/v1/memory_management.py:1242-1250 | a run loses bytes iff it takes a batch whose total, already made of rounded units, is rounded up again |
| `ObjectRuns.NothingLeaksIffWhole` | lmcache/v1/memory_management.py:1177-1304 | whenever no object is live, the allocated size is that of the lost bytes, and the free list is one block spanning the heap iff no batch total was rounded up |
| `ObjectRuns.LeakFreeIffPow2` | lmcache/v1/memory_management.py:1228-1304 | no run of any heap ever loses a byte iff the alignment is a power of two |
| `ObjectRuns.AlignmentThreeLeaks` | lmcache/v1/memory_management.py:1242-1250 | with alignment 3, a batch of two one-byte objects loses two bytes |
| `ObjectRuns.ObjectsAligned` | lmcache/v1/memory_management.py:1177-1287 | in every run every object, also one cut from a batch, starts at a multiple of the power-of-two alignment and has such a size |
| `ObjectRuns.ActsAsMethods` | lmcache/v1/memory_management.py:512-584 | the free, reference and pin steps of these runs change list, table and registry as the methods do |
| `ObjectRuns.AllocatesAsMethods` | lmcache/v1/memory_management.py:1177-1287 | so do the allocation step, of which a single allocation is a batch of one, and the growth step |
| `ObjectRuns.RegistryRight` | lmcache/v1/pin_monitor.py:80-181 | in every state of every run, also between two turns of a sweep that other operations interleave with, the registry holds exactly the objects with a positive pin count and the gauge is its size |
| `ObjectRuns.SweepHitsYoungIffRepinned` | lmcache/v1/pin_monitor.py:118-134 | a turn of a sweep takes a pin from an object that has not expired iff the object it is at was pinned again, within the timeout, after it was collected |
| `ObjectRuns.YoungPinDropped` | lmcache/v1/pin_monitor.py:118-134 | for every timeout there is a run in which an object pinned a moment ago loses that pin to a sweep |
| `TensorMemory.TensorMemoryAllocator.constructor` | lmcache/v1/memory_management.py:1141-1171 | the new allocator has no objects, nothing lost and an address space of the buffer size, for every positive alignment |
| `TensorMemory.TensorMemoryAllocator.Allocate` | lmcache/v1/memory_management.py:1177-1221 | fails iff no run of the aligned size is free; the new object gets the run the address manager hands out, with one reference; nothing is lost |
| `TensorMemory.TensorMemoryAllocator.BatchedAllocate` | lmcache/v1/memory_management.py:1228-1287 | for every alignment: fails iff no run of the rounded total is free; otherwise the units are new live objects lying one after the other in the lowest such run, and exactly the bytes of the second rounding are lost |
| `TensorMemory.TensorMemoryAllocator.TakeRun` | lmcache/v1/memory_management.py:1246-1287 | the run of a batch is taken and cut, and what the rounding adds belongs to no object |
| `TensorMemory.TensorMemoryAllocator.CutUnits` | lmcache/v1/memory_management.py:1261-1287 | the loop makes one object per unit, each starting where the previous one ends |
| `TensorMemory.UnitsAt` | lmcache/v1/memory_management.py:1261-1287 | the i-th unit of a batch starts i units after the run and has exactly the unit size; other objects are untouched |
| `TensorMemory.WholeUnits` | lmcache/v1/memory_management.py:1242-1250 | for powers of two rounding the total of a batch again changes nothing |
| `TensorMemory.TensorMemoryAllocator.Free` | lmcache/v1/memory_management.py:1290-1304 | an object that is no longer valid is skipped; a valid one gives back its bytes once |
| `TensorMemory.TensorMemoryAllocator.BatchedFree` | lmcache/v1/memory_management.py:1307-1357 | sorting, merging and releasing pieces ends in the same free list, table and counter as freeing the objects one by one in the order given |
| `TensorMemory.TensorMemoryAllocator.InvalidateAndMerge` | lmcache/v1/memory_management.py:1318-1348 | the loop skips invalid and repeated objects and merges neighbouring ones |
| `TensorMemory.SortBatch` | lmcache/v1/memory_management.py:1325-1325 | the batch in address order, a permutation of it |
| `TensorMemory.ReleasePieces` | lmcache/v1/memory_management.py:1350-1357 | releasing the merged pieces one after the other |
| `BatchedFree.MergedEqualsOneByOne` | lmcache/v1/memory_management.py:1290-1365 | merge-then-free and free-one-by-one, in any order and with any repeats or dead objects, end in the same list and the same table |
| `BatchedFree.FreeOrderIrrelevant` | lmcache/v1/memory_management.py:1290-1365 | freeing the same objects in any two orders ends in the same state |
| `BatchedFree.MergeEachEffect` | lmcache/v1/memory_management.py:1318-1348 | the merged pieces are ordered, no two touch, and they cover exactly the bytes of the live objects of the batch |
| `BatchedFree.MergeEachCounts` | lmcache/v1/memory_management.py:1318-1357 | the counts of the pieces add up to the number of objects that were still live |
| `TensorMemory.TensorMemoryAllocator.RefCountUp` | lmcache/v1/memory_management.py:512-514 | one more reference, nothing returned |
| `TensorMemory.TensorMemoryAllocator.RefCountDown` | lmcache/v1/memory_management.py:516-532 | one reference less, stopping at zero; the bytes are given back iff that leaves neither reference nor pin |
| `TensorMemory.TensorMemoryAllocator.Pin` | lmcache/v1/memory_management.py:543-554 | one more pin; the registry holds exactly the pinned objects, this one with the new time |
| `TensorMemory.TensorMemoryAllocator.Unpin` | lmcache/v1/memory_management.py:556-584 | one pin less, stopping at zero; the bytes are given back iff nothing holds them; the registry drops the object with its last pin |
| `TensorMemory.PinMonitor.OnUnpin` | lmcache/v1/pin_monitor.py:98-107 | the object leaves the registry if it was there |
| `TensorMemory.PinMonitor.CheckTimeouts` | lmcache/v1/pin_monitor.py:109-156 | a sweep that nothing interleaves with ends, drops all pins of exactly the objects registered longer than the timeout, gives back those without a reference, leaves all others alone and none expired, and counts them right |
| `TensorMemory.PinMonitor.CollectExpired` | lmcache/v1/pin_monitor.py:115-127 | the collected objects are exactly the expired ones, each once |
| `TensorMemory.PinMonitor.ForceUnpinAll` | lmcache/v1/pin_monitor.py:129-134 | exactly the listed objects lose all their pins and leave the registry |
| `TensorMemory.PinMonitor.ForceUnpin` | lmcache/v1/pin_monitor.py:158-181 | the unpin loop ends with no pin left, one object changed, and the registry right |
| `LazyExpansion.ConfigureOk` | lmcache/v1/lazy_memory_allocator.py:93-117 | both sizes are rounded up to whole pin chunks and the alignment is kept; construction succeeds whenever the initial size does not exceed the final one |
| `LazyExpansion.AllocationsArePinned` | lmcache/v1/lazy_memory_allocator.py:223-270 | on every interleaving of the worker with allocations, releases and stopping, the pin records tile the pinned memory, the heap lies inside it, every byte in use is pinned, and a finished worker has committed all it pinned, which is everything unless stopped |
| `LazyExpansion.PinnedIffExact` | lmcache/v1/lazy_memory_allocator.py:244-270 | for every alignment, the heap stays inside the pinned memory on every interleaving iff rounding leaves the whole commits and the remainder alone, which the sizes and the alignment decide |
| `LazyExpansion.ExactForPow2` | lmcache/v1/lazy_memory_allocator.py:244-270 | for powers of two that condition is divisibility of the commit sizes |
| `LazyExpansion.AlignmentThreeIsExact` | lmcache/v1/lazy_memory_allocator.py:244-270 | alignment 3 meets it although it divides no commit |
| `LazyExpansion.WideAlignmentOvershoots` | lmcache/v1/lazy_memory_allocator.py:244-270 | one chunk to pin and an alignment of two chunks: a run in which the heap outgrows the pinned memory |
| `LazyExpansion.ChunkAlignmentIsExact` | lmcache/v1/lazy_memory_allocator.py:74-75 | an alignment that divides the pin chunk always qualifies |
| `LazyExpansion.CommitIsWhole` | lmcache/v1/lazy_memory_allocator.py:268-270 | under that condition sbrk adds exactly the bytes that were pinned since the last commit |
| `LazyExpansion.WorkerTerminates` | lmcache/v1/lazy_memory_allocator.py:255-270 | on every interleaving the worker finishes within four steps per chunk still to pin, plus one |
| `LazyExpansion.StopTakesEffect` | lmcache/v1/lazy_memory_allocator.py:255-270 | after a stop request, whatever is interleaved: between two rounds the worker never pins or commits again; inside one it pins exactly the rest of that round and commits it; it is done within PER_COMMIT + 3 of its own steps |
| `PagedAllocator.PagedTensorMemoryAllocator.constructor` | lmcache/v1/memory_management.py:1409-1466 | every page is free and spans its whole page |
| `PagedAllocator.PagedTensorMemoryAllocator.Allocate` | lmcache/v1/memory_management.py:1476-1517 | fails iff no page is free; otherwise the first free page, with the requested shape, one reference, and its view trimmed to the tensor unless it has the full shape |
| `PagedAllocator.PagedTensorMemoryAllocator.BatchedAllocate` | lmcache/v1/memory_management.py:1520-1571 | all or nothing: the first free pages, each with the requested shape, one reference and the trimmed view; a failing request restores the queue in the same order, every free page spans its page again, pages in use are untouched |
| `PagedAllocator.PagedTensorMemoryAllocator.Free` | lmcache/v1/memory_management.py:1574-1592 | any page can be put back; afterwards every page is free at most once and every free page spans its page iff this one was not free already |
| `PagedAllocator.PagedTensorMemoryAllocator.ReturnPages` | lmcache/v1/memory_management.py:1607-1616 | the loop restores the view of every returned page and appends them in order |
| `PagedAllocator.PagedTensorMemoryAllocator.BatchedFree` | lmcache/v1/memory_management.py:1595-1629 | any pages can be put back, repeats included; the same iff they are distinct and none was free |
| `PagedAllocator.PagedTensorMemoryAllocator.Memcheck` | lmcache/v1/memory_management.py:1631-1652 | in every state the operations can reach the self check answers true, also after a page was put back twice |
| `PagedAllocator.FreedTwiceHandedOutTwice` | lmcache/v1/memory_management.py:1574-1592 | a page put back twice is handed out twice while the self check passes |
| `TTLLock.CounterConserved` | csrc/storage_manager/ttl_lock.cpp:13-80 | on every interleaving of any number of threads the counter is never negative, never exceeds locks minus unlocks, and falls short by exactly what expired locks and resets overwrote |
| `TTLLock.EveryOperationCounts` | csrc/storage_manager/ttl_lock.cpp:13-66 | on every interleaving every lock begun has taken its counter step or is still on its way to it, and every unlock has decremented, found nothing to decrement, or is still inside |
| `TTLLock.AtRestAllCounted` | csrc/storage_manager/ttl_lock.cpp:13-66 | when every thread is at rest, the counter steps are exactly the locks begun, and the decrements and empty loads the unlocks |
| `TTLLock.ReturnedOperation` | csrc/storage_manager/ttl_lock.cpp:13-80 | a thread at rest after a lock took exactly one counter step in it, after an unlock it decremented once or found the counter empty once, and an operation keeps the one clock reading it took |
| `TTLLock.StepOfOperation` | csrc/storage_manager/ttl_lock.cpp:13-80 | a step changes no more than its operation may: a query nothing, an unlock the counter by one, a lock only puts the lease of its own clock reading and counts once |
| `TTLLock.SegmentExact` | csrc/storage_manager/ttl_lock.cpp:36-66 | over any stretch in which no thread stores 1 after an expiry or resets, the counter moves exactly with the locks and unlocks |
| `TTLLock.NothingLostIff` | csrc/storage_manager/ttl_lock.cpp:13-80 | on every interleaving the counter is exactly locks minus unlocks iff no step stored 1 after an expiry, or reset, while the counter was positive |
| `TTLLock.LeaseBound` | csrc/storage_manager/ttl_lock.cpp:13-48 | in every reachable state the lease ends at most ttl after the present, and no thread holds a clock reading from the future |
| `TTLLock.LeaseExpires` | csrc/storage_manager/ttl_lock.cpp:68-75 | once no thread is in lock and none enters it, every answer whose clock was read ttl later or more is "not locked", however stale the values it combines |
| `TTLLock.LeaseMovesBackIff` | csrc/storage_manager/ttl_lock.cpp:13-80 | on every interleaving the lease moves backwards in exactly the steps that store an end computed from an older clock reading, or reset a lease |
| `TTLLock.LeaseMovedBack` | csrc/storage_manager/ttl_lock.cpp:36-42 | a run in which a lock stores last what it read first, after a later lock has completed |
| `TTLLock.RetriesBounded` | csrc/storage_manager/ttl_lock.cpp:18-65 | on every interleaving of N operations each operation fails at most 2(N - 1) swaps |
| `TTLLock.FailedSwapIsPaid` | csrc/storage_manager/ttl_lock.cpp:18-65 | a swap fails only when another operation wrote since this thread loaded |
| `TTLLock.RunProgress` | csrc/storage_manager/ttl_lock.cpp:13-80 | in every reachable state each operation has written at most twice and its failed swaps are covered by the writes of the others |
| `TTLLock.SoloLock` | csrc/storage_manager/ttl_lock.cpp:13-48 | uninterrupted: counter 1 after an expiry, one more otherwise, lease renewed |
| `TTLLock.SoloUnlock` | csrc/storage_manager/ttl_lock.cpp:50-66 | uninterrupted: one less, not below zero, lease untouched |
| `TTLLock.SoloIsLocked` | csrc/storage_manager/ttl_lock.cpp:68-75 | uninterrupted: true iff the counter is positive and the lease has not ended |
| `TTLLock.SoloReset` | csrc/storage_manager/ttl_lock.cpp:77-80 | uninterrupted: counter zero and lease ended |
| `TTLLock.LockLostAtExpiry` | csrc/storage_manager/ttl_lock.cpp:25-33 | for every positive ttl and every start time there is a run in which two locks return, nobody unlocks or resets, and the counter is 1: the increment promised for every lock is not a theorem |
| `TokenDatabase.KeysAgree` | lmcache/v1/token_database.py:299-306 | two prefixes have the same chained key iff they are the same tokens |
| `TokenDatabase.SpansTile` | lmcache/v1/token_database.py:278-372 | the spans tile the tokens without gap or overlap, all but the last full, each with the key of the prefix it completes |
| `TokenDatabase.SpansReach` | lmcache/v1/token_database.py:291-297 | the spans end at the last token when unfull chunks are saved, and at the last whole chunk otherwise |
| `TokenDatabase.FalsesCount` | lmcache/v1/token_database.py:345-348 | the mask count is the number of masked positions, wherever they are |
| `TokenDatabase.MaskedPrefix` | lmcache/v1/token_database.py:345-348 | for k masked positions followed by unmasked ones it is k |
| `TokenDatabase.FromIsSuffix` | lmcache/v1/token_database.py:359-372 | a mask yields exactly the suffix of the unmasked result that starts where the mask ends, when it ends at a chunk boundary |
| `TokenDatabase.ProcessTokens` | lmcache/v1/token_database.py:309-372 | an error iff the number of masked positions is not a whole number of chunks, otherwise the spans from there on; in particular for k masked positions followed by unmasked ones, the spans that start at or after k |
| `TokenDatabase.ChunkLoop` | lmcache/v1/token_database.py:291-372 | the loop over chunk starts yields the same spans as the recursive definition |
| `TokenDatabase.InjectiveExists` | lmcache/v1/token_database.py:223-239 | the assumption about the hash can be met |
| `CacheEngine.StoreAnswers` | lmcache/v1/cache_engine.py:427-463 | after a store, also one cut short by lack of memory, the key set answers exactly for the prefixes some store put |
| `CacheEngine.StoredKeys` | lmcache/v1/cache_engine.py:427-463 | the keys of the first chunks put are exactly the keys of the prefixes those chunks complete |
| `CacheEngine.MatchMeaning` | lmcache/v1/cache_engine.py:1079-1104 | the chunk-aligned common prefix with one stored sequence is the largest chunk end whose prefix that store put |
| `CacheEngine.Engine.constructor` | lmcache/v1/cache_engine.py:95-100 | the new engine has stored nothing and holds no key |
| `CacheEngine.ReachIsLongest` | lmcache/v1/cache_engine.py:1079-1104 | the lookup loop stops at the largest chunk end whose prefix some store put |
| `CacheEngine.MaxMatchMeaning` | lmcache/v1/cache_engine.py:1079-1104 | the reference answer is the largest chunk end whose prefix some store put |
| `CacheEngine.ReachIsMaxMatch` | lmcache/v1/cache_engine.py:1079-1104 | what the key index answers is the longest chunk-aligned common prefix over everything stored, or the whole sequence if it was stored with its unfull chunk |
| `CacheEngine.Engine.Store` | lmcache/v1/cache_engine.py:427-463 | after the call the log has one more entry and the keys still answer for exactly the log |
| `CacheEngine.Engine.Lookup` | lmcache/v1/cache_engine.py:1079-1104 | after any number of stores the result is the longest match over all of them |
| `AsyncRetrieve.Retrieve` | lmcache/v1/cache_engine.py:1465-1527 | a failed prefetch serves nothing, an unaligned mask is an error; otherwise the chunks are the leading unmasked spans, each with the latest object prefetched under its key, up to the first key nothing was prefetched under, and the mask is set exactly on their tokens; in every case every place of every tier is handed out or given back exactly once iff there is none, or no key came twice and the mask is aligned |
| `AsyncRetrieve.TiersHandledIff` | lmcache/v1/cache_engine.py:1493-1527 | that condition, stated over the tiers as they were prefetched |
| `AsyncRetrieve.HitsOfTiers` | lmcache/v1/cache_engine.py:1500-1520 | which chunks are served, stated over the tiers |
| `AsyncRetrieve.HitsContiguous` | lmcache/v1/cache_engine.py:1505-1520 | the chunks follow one another without a gap, up to the first missing key |
| `AsyncRetrieve.HandledOnceIff` | lmcache/v1/cache_engine.py:1493-1527 | the same over the flat list of entries |
| `AsyncRetrieve.DuplicateKeyLost` | lmcache/v1/cache_engine.py:1500-1502 | of two objects under one key the first is lost |
| `AsyncRetrieve.UnalignedMaskLosesAll` | lmcache/v1/cache_engine.py:1500-1510 | one masked token and chunks of two: an object under a key of its own is lost |
| `AsyncRetrieve.Serve` | lmcache/v1/cache_engine.py:1504-1525 | hits handed out and the rest given back: exactly the entries of the dictionary, each once |
| `AsyncRetrieve.HandOut` | lmcache/v1/cache_engine.py:1505-1520 | the loop takes chunks up to the first missing key and marks exactly their tokens |
| `AsyncRetrieve.GiveBack` | lmcache/v1/cache_engine.py:1522-1525 | exactly the objects whose key was not used are given back, each once |
| `Prefetch.BuildDictionary` | lmcache/v1/cache_engine.py:1500-1502 | the dictionary holds, under each key, the entry that no later tier or position replaces, and nothing else |
| `Prefetch.DictionaryByTiers` | lmcache/v1/cache_engine.py:1500-1502 | that fact about the model dictionary |
| `Prefetch.FlattenCounts` | lmcache/v1/cache_engine.py:1500-1502 | every entry occurs in the flat list as often as in all tiers together |
| `Prefetch.FlattenDistinct` | lmcache/v1/cache_engine.py:1500-1502 | its keys are distinct iff no key occurs at two places of the tiers |
| `Prefetch.AccountedIffDistinct` | lmcache/v1/cache_engine.py:1500-1527 | the entries of the dictionary are all prefetched entries iff no key came twice |
| `AsyncRetrieve.HitsDistinct` | lmcache/v1/cache_engine.py:1505-1520 | no key is handed out twice |
| `StoreCompletion.ReturnsWhenReportedAndComplete` | lmcache/integration/vllm/vllm_multi_process_adapter.py:531-608 | in every orderly run a call returns only reported ids, none whose store is pending, each submitted id in the first call that finds it reported and complete, and an id returned before exactly when it is reported again |
| `StoreCompletion.ReturnedSoFar` | lmcache/integration/vllm/vllm_multi_process_adapter.py:531-608 | what was returned so far is exactly what is reported and, if submitted, complete |
| `StoreCompletion.PollReturns` | lmcache/integration/vllm/vllm_multi_process_adapter.py:554-608 | one call returns exactly the expected ids and, besides, merged ids reported while their store is pending |
| `StoreCompletion.PendingReturnedIffMergedReported` | lmcache/integration/vllm/vllm_multi_process_adapter.py:598-608 | a pending id is returned iff the engine reports a non-leading id of a pending batch in that call |
| `StoreCompletion.MergedIdReturnedTooEarly` | lmcache/integration/vllm/vllm_multi_process_adapter.py:598-608 | a concrete batch of two whose second id is returned while its store is pending |
| `StoreCompletion.ReportedAgainReturnedAgain` | lmcache/integration/vllm/vllm_multi_process_adapter.py:598-608 | a run in which an id that was returned is reported again and returned again |
| `StoreCompletion.RunMatches` | lmcache/integration/vllm/vllm_multi_process_adapter.py:365-639 | in every orderly run the three containers hold exactly what the history says |
| `StoreCompletion.HistoryTells` | lmcache/integration/vllm/vllm_multi_process_adapter.py:365-608 | and the history says of every id exactly what the events of the run were: whether and under which leading id it was submitted, whether it was reported, whether its store was found done afterwards |
| `StoreCompletion.WorkerAdapter.SubmitStoreRequest` | lmcache/integration/vllm/vllm_multi_process_adapter.py:365-397 | a new id submitted before it is reported keeps the containers in agreement with the history |
| `StoreCompletion.WorkerAdapter.BatchedSubmitStoreRequests` | lmcache/integration/vllm/vllm_multi_process_adapter.py:433-479 | so does a batch under its first id |
| `StoreCompletion.WorkerAdapter.GetFinished` | lmcache/integration/vllm/vllm_multi_process_adapter.py:531-608 | while containers and history agree, the call returns exactly the expected ids and the merged ones reported too early, and keeps the agreement when there are none of the latter |
| `StoreCompletion.WorkerAdapter.CollectDone` | lmcache/integration/vllm/vllm_multi_process_adapter.py:554-562 | the ids, merged ones included, of the stores whose future is done |
| `StoreCompletion.WorkerAdapter.NoteReported` | lmcache/integration/vllm/vllm_multi_process_adapter.py:598-603 | reported ids with a store are remembered, the others returned |
| `SlotMapping.CompressRoundTrip` | lmcache/utils.py:55-131 | for every integer list decompressing the compressed list gives it back, and every range covers at least three slots |
| `SlotMapping.CompressEmitsRuns` | lmcache/utils.py:55-110 | whatever the maximal consecutive runs of a list are, compression emits exactly them in order, a range for three or more slots and single slots otherwise |
| `SlotMapping.RangesAreLongRuns` | lmcache/utils.py:94-110 | a range is in the compressed list iff it is a maximal run of three slots or more, a single slot iff it lies in a shorter one |
| `SlotMapping.RunsExist` | lmcache/utils.py:55-110 | every list has such runs |
| `SlotMapping.CompressSlotMapping` | lmcache/utils.py:55-91 | the loop computes the compression; decompressing its result gives the input |
| `SlotMapping.AppendRangeOrElements` | lmcache/utils.py:94-110 | a run of three or more becomes a range, a shorter one single slots |
| `SlotMapping.DecompressSlotMapping` | lmcache/utils.py:113-131 | the loop computes the decompression |
| `SlotMapping.DecompressItem` | lmcache/utils.py:113-131 | a single slot stands for itself and a range for exactly the slots from its start to its end, in its place |
| `SlotMapping.NegativeRuns` | lmcache/utils.py:55-110 | a range with a negative start appears iff the list has three consecutive slots of which the first is negative |
| `SlotText.ParseSpaced` | lmcache/utils.py:134-213 | any text that becomes a list of items once white space is removed parses to their slots if every range has 0 <= start <= end, and is an error otherwise |
| `SlotText.ParseRender` | lmcache/utils.py:134-213 | in particular the text of the items itself |
| `SlotText.TextRoundTrip` | lmcache/utils.py:55-213 | compressing, writing and parsing gives the slots back iff no run of three or more starts below zero, and is an error otherwise |
| `SlotText.NegativeRunRefused` | lmcache/utils.py:195-210 | the list -3, -2, -1 does not survive |
| `SlotText.ParsePartText` | lmcache/utils.py:190-210 | one part is read back as the item it was written from, or refused |
| `SlotText.ScanRender` | lmcache/utils.py:155-185 | the scanner cuts exactly at the commas outside brackets |
| `SlotText.NumberReadsBack` | lmcache/utils.py:203-209 | every integer written in decimal is read back |
| `SlotText.SplitParts` | lmcache/utils.py:155-185 | the character loop, with its three bracket errors, computes the split |
| `SlotText.ParseEach` | lmcache/utils.py:187-213 | the loop over the parts computes the items and their slots, or fails at the first bad part |
| `SlotText.ParseMixedSlotMapping` | lmcache/utils.py:134-213 | the whole parser: every text that is a list of items with white space anywhere is read back as its slots, or refused if a range is unreadable |
| `SlotText.WhiteSpaceIgnored` | lmcache/utils.py:152-153 | white space anywhere in the text makes no difference |
| `SlotText.ValueByPlace` | lmcache/utils.py:197-206 | each digit counts ten times the next |
| `SlotGrammar.ParseIffListing` | lmcache/utils.py:134-213 | the parser accepts exactly the texts that are, without white space, a list of a grammar given by itself, and gives the slots of that list; every other text is an error |
| `SlotGrammar.ParsePartIff` | lmcache/utils.py:190-210 | a part is accepted iff it is a bracketed pair of digit strings in order, or an optionally signed number with single underscores between digits |
| `SlotGrammar.ListingParses` | lmcache/utils.py:155-213 | what the grammar accepts the parser reads as the same items |
| `SlotGrammar.ParsesListing` | lmcache/utils.py:155-213 | what the parser reads the grammar accepts with the same items |

## Left out

- Tensors, views, CUDA, NUMA, cuFile, statistics, logging and metrics: a buffer is a range of addresses and a pin record an offset and a length.
- `HostMemoryAllocator`, `PinMemoryAllocator`, `MixedMemoryAllocator`, `GPUMemoryAllocator` and `BufferAllocator`: wrappers that lock and forward, easy members only.
- TensorMemory.TensorMemoryAllocator.Allocate: objects are entries of a table rather than heap objects, so aliasing exists only through a shared key; sizes are positive, as the source documents.
- TensorMemory.TensorMemoryAllocator.BatchedAllocate: sizes and batch sizes are positive; the torch call that splits the buffer is taken to cut equal units.
- TensorMemory.TensorMemoryAllocator.Unpin: one monitor watches one allocator, and the update of the monitor inside `pin` and `unpin` is one step with the count.
- TensorMemory.PinMonitor.CheckTimeouts: states the sweep without interleaving; `ObjectRuns` interleaves its collecting and each of its unpins with other operations, one operation per step, and one sweep ends before the next begins.
- AddressSpace.AddressManager.Free: only bytes in use are given back; the source does not check this.
- Garbage collection of memory objects (`__del__`) and the self check of the object allocator beyond that of its address manager.
- TTLLock: atomic steps are sequentially consistent, and 64-bit overflow of counter and clock is not modelled.
- CacheEngine.Engine.Store: stores are unmasked, nothing is evicted, the storage backends are one set of keys, the hash is injective and never yields the initial key; the size limits, statistics and transfers around the chunk loop are not modelled.
- CacheEngine.Engine.Lookup: the non-layerwise path over tokens, without pinning and without a choice of backends.
- AsyncRetrieve.Retrieve: the hash is injective; errors other than a failed prefetch and an unaligned mask, and the size total returned beside the chunks, are not modelled.
- The synchronous retrieve path, layerwise store and retrieve, moving, compressing and clearing caches, and lookups by precomputed hashes and offsets.
- `SegmentTokenDatabase`.
- StoreCompletion.ReturnsWhenReportedAndComplete: ids are submitted once and before they are reported, and no merged id is reported while its store is pending; what happens otherwise is stated for the next call only.
- Retrieve futures of the adapter and the lookup side of the scheduler adapter.
- SlotText.ParseMixedSlotMapping: characters are ASCII for the digits and the white space, every error is one value without its message, and the length limit of integer texts is not modelled.
- Cache-key text, eviction policies, servers, connectors, configuration, benchmarks and serving-engine glue.
