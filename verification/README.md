# A verified model of the kPanic kernel

This project models four parts of kPanic, a kernel that grew out of SWEB, and proves what they
promise. `dafny verify dfyconfig.toml` checks all of it.

**Kernel heap.** `HeapLayout` says what each call does to the sequence of segments, `HeapProperties`
what that means for the blocks in the hands of callers, `HeapCleanliness` which free memory is zero,
`HeapRuns` what holds over whole runs, and `HeapAlignment` which alignment pointers have for a
header of any size. `KernelHeap` is the pointer code on raw words: headers with marker, links and a
packed size word, and it is proved to do exactly what the layout says, each call being one step of a
run. Addresses and sizes are counted in 64-bit words. A header is seven words on x86-64; the proofs
hold for any size with room for its fields. A request is rounded up to 16 bytes as in the source.
The configuration is the shipped one, a heap of fixed size: where the source would call `ksbrk`,
whose assert then stops the kernel, a call ends as a panic. That includes freeing the last block,
which leaves one free segment.

**Synchronisation and scheduling.** `LockProtocol` is a machine of single steps, one per access to
shared memory, for a mutex and a condition, any number of threads and any interleaving; `Signals`
follows whole calls through it; `SpinProtocol` is one for a spin lock, and `Holders` what both say
about lock words. `HoldingLists` runs any number of mutexes side by side. `LockLists` and
`DeadlockCheck` are linked lists and the recursive search over them. `ThreadJoin` and `WaitGraph`
treat pthread_exit and pthread_join; `Scheduler` the round-robin list.

**Memory images.** `CopyOnWrite` proves fork with shared frames indistinguishable from fork with
copies, `Loader` demand paging of an ELF file indistinguishable from loading it whole. `MinixFiles`
is the file system read below the loader, with its 32-bit arithmetic, since the loader can ask it
for more than fits on a page.

**uSTL algorithms and buffers.** `Ordering`, `Lexicographic`, `Ranges`, `Permutations`,
`StableAlgorithms` and `SetAlgebra` are comparisons, in-place algorithms and operations on sorted
ranges over an arbitrary strict weak order. `Utf8` is the codec, `RingBuffers` the two circular
buffers and the pipes on them.

Where the source changes state, a class has its fields and methods that are proved against functions
of the old state; the lemmas are about those functions.

## What turned out not to hold

Each of these has a lemma with an input and one with the exact condition.

- Shrinking a heap block can leave two free neighbours and free memory that is not zero (`RunTidyIff`,
  with `ShrinkLeavesDirt`).
- A second join on a thread that has exited, before its first joiner runs again, takes the value the
  first one was promised (`ServedIffSingleJoiners`, with `SecondJoinerTakesTheValue`).
- The distance between two UTF-8 readers is one too long when the second stands at a character of
  several bytes (`DistanceIsRightIff`, with `DistanceTooLong`); the comment in the source promises the
  distance in characters.
- The 64-bit sums in the loader can wrap. The end of a segment in memory then counts as being below
  the page (`ContentIff`, with `ContentMissed`). A segment whose end in the file lies on the page
  before its begin makes the loader ask for more than the page holds (`ReadFitsIff`, with
  `ReadNeedNotFit`); what the file has is stored behind the page before the read fails (`SpillsIff`,
  with `SpillingRead`), and the read can even succeed (`MisfitRead`, with `MisfitThatSucceeds`).
- The file layer takes 32 bits of a position, so a segment far behind the end of the file can be
  loaded from its begin (`SucceedsRightlyIff`, with `TruncatedPosition`).
- Rounding sizes to 16 bytes does not align pointers to 16: a header is 56 bytes (`AlignedExactly`,
  with `NotSixteen`).

## Model

| member | source | states |
|---|---|---|
| `HeapProperties.BlocksDisjoint` | common/source/mm/KernelMemoryManager.cpp:64-88 | In a well-formed heap two live blocks lie inside the heap and at least a header apart. |
| `HeapProperties.AllocBlocks` | common/source/mm/KernelMemoryManager.cpp:224-281 | Filling the segment that was found adds exactly one block, at a pointer that was not live, cleared for the words asked for; it has no more words than that, or up to a header more because it ends where a segment ended before. No other block changes. |
| `HeapProperties.FreeBlocks` | common/source/mm/KernelMemoryManager.cpp:283-435 | Freeing, with its merges on either side, removes exactly the freed block. |
| `HeapProperties.GrowBlocks` | common/source/mm/KernelMemoryManager.cpp:144-153 | Absorbing the free successor keeps the pointer and the old words, gives back what is more than asked for, and changes no other block. |
| `HeapProperties.MoveBlocks` | common/source/mm/KernelMemoryManager.cpp:155-177 | The moving path leaves one block of the size asked for with the old words at a new pointer; every other block is untouched. |
| `HeapProperties.ReallocateBlocks` | common/source/mm/KernelMemoryManager.cpp:111-179 | All three paths: the old block becomes one that starts with the first min(old, new) words, and is no longer than asked for but for a rest too small to split off; no other block changes. |
| `HeapProperties.AllocateAdds` | common/source/mm/KernelMemoryManager.cpp:64-88 | Allocation by first fit as a change of the set of blocks. |
| `HeapProperties.ReallocateResizes` | common/source/mm/KernelMemoryManager.cpp:111-179 | Reallocation as a change of the set of blocks, for the caller's two pointers. |
| `HeapProperties.AllocateStopsIff` | common/source/mm/KernelMemoryManager.cpp:205-208 | Allocation stops the kernel exactly if no free segment has room. |
| `HeapProperties.AllocateFirst` | common/source/mm/KernelMemoryManager.cpp:190-203 | Allocation hands out the first free segment that has room. |
| `HeapProperties.ReleaseStopsIff` | common/source/mm/KernelMemoryManager.cpp:346-400 | A release stops the kernel exactly if the block and free neighbours of it are all there is. |
| `HeapProperties.ReleaseStamps` | common/source/mm/KernelMemoryManager.cpp:103-105 | Behind a used segment a release leaves a free, cleared segment stamped with the caller. |
| `HeapProperties.ReallocatePlace` | common/source/mm/KernelMemoryManager.cpp:131-177 | A block stays where it is exactly if it need not grow or a free successor has room; the kernel stops exactly if neither holds and no free segment has room. |
| `HeapProperties.MovedWhere` | common/source/mm/KernelMemoryManager.cpp:155-177 | A block that does not stay goes to the first segment that fits, and its old place is stamped with the caller. |
| `HeapCleanliness.AllocClean` | common/source/mm/KernelMemoryManager.cpp:231-252 | The zero check never stops the kernel: a segment picked for allocation is unstamped or zero. |
| `HeapCleanliness.FreeTidy` | common/source/mm/KernelMemoryManager.cpp:306-344 | Freeing keeps "no two free neighbours, all free payload zero"; it needs the wipe of the merged header. |
| `HeapCleanliness.GrowTidy` | common/source/mm/KernelMemoryManager.cpp:402-435 | So does growing into the successor. |
| `HeapCleanliness.ShrinkTidy` | common/source/mm/KernelMemoryManager.cpp:137-142 | Shrinking keeps it exactly if no tail is split off, or the payload of the tail is zero and the successor is used: both directions. |
| `HeapRuns.RunClean` | common/source/mm/KernelMemoryManager.cpp:240-248 | Over any run of calls, every free segment passes the zero check. |
| `HeapRuns.RunTidyIff` | common/source/mm/KernelMemoryManager.cpp:103-142 | Over any run of calls every layout is merged and its free memory zero exactly if every tail that a shrink splits off is zero already and has a used segment behind it: both directions. |
| `HeapRuns.RunTidy` | common/source/mm/KernelMemoryManager.cpp:103-105 | In particular over any run without a splitting shrink. |
| `HeapRuns.ShrinkLeavesDirt` | common/source/mm/KernelMemoryManager.cpp:137-142 | From any initial heap with room for it: allocate a block, write its last word, shrink it. Two free neighbours are left, the first of them not zero. |
| `HeapRuns.RunKeeps` | common/source/mm/KernelMemoryManager.cpp:111-179 | A block that no call names keeps its pointer and every word over any run. |
| `HeapRuns.RunsFromStart` | common/source/mm/KernelMemoryManager.cpp:30-47 | The facts together for runs from the initial heap: exact partition, clean, tidy without shrinks, live blocks apart. The manager starts there, and each of its calls is one step of such a run. |
| `HeapAlignment.AlignedExactly` | common/source/mm/KernelMemoryManager.cpp:53-54 | For a header of h bytes and any cuts and fusions of segments: all payloads always lie a multiple of m from the first exactly if m divides both h and 16, so with a header of 56 bytes pointers are aligned to 8 bytes and no further. |
| `HeapAlignment.NotSixteen` | common/source/mm/KernelMemoryManager.cpp:53-54 | One allocation after which the next payload is not 16-byte aligned to the first. |
| `HeapAlignment.RunEdits` | common/source/mm/KernelMemoryManager.cpp:49-179 | Every run of calls with sizes rounded to 16 bytes changes the sizes of the segments by such cuts and fusions only, whatever the size of a header. |
| `HeapAlignment.PayloadsAligned` | common/source/mm/KernelMemoryManager.cpp:53-54 | In every run from the initial heap payloads are a multiple of each common divisor of header and 16 apart. |
| `KernelHeap.Packing` | common/include/mm/KernelMemoryManager.h:31-52 | Size and used flag of the packed word are independent of each other. |
| `KernelHeap.SplitHolds` | common/source/mm/KernelMemoryManager.cpp:261-279 | The stores that split a segment turn the words of a heap into those of the heap with the tail as a free, doubly linked segment. |
| `KernelHeap.JoinHolds` | common/source/mm/KernelMemoryManager.cpp:306-331 | The stores that drop a header from the list leave exactly the words of the joined heap, `prev_` still the inverse of `next_`. |
| `KernelHeap.WipedPayload` | common/source/mm/KernelMemoryManager.cpp:425-425 | With the header wiped, the joined payload is the two payloads with zeroes between. |
| `KernelHeap.KernelMemoryManager.constructor` | common/source/mm/KernelMemoryManager.cpp:30-47 | The heap starts as one free, cleared segment: the start of the runs. |
| `KernelHeap.KernelMemoryManager.FindFreeSegment` | common/source/mm/KernelMemoryManager.cpp:190-203 | Following `next_` from `first_` finds the first fitting segment, or none. |
| `KernelHeap.KernelMemoryManager.FillSegment` | common/source/mm/KernelMemoryManager.cpp:224-281 | Refines the layout operation; answers false exactly where the zero check asserts. |
| `KernelHeap.KernelMemoryManager.MergeWithFollowingFreeSegment` | common/source/mm/KernelMemoryManager.cpp:402-435 | Refines the merge, and says whether it merged. |
| `KernelHeap.KernelMemoryManager.FreeSegment` | common/source/mm/KernelMemoryManager.cpp:283-400 | Refines the layout operation; fails exactly when one free segment is left, where `ksbrk` would be called. |
| `KernelHeap.KernelMemoryManager.AllocateMemory` | common/source/mm/KernelMemoryManager.cpp:49-62 | Is a step `Alloc` of the runs, with the rounded size: hands out the first segment that fits as one cleared block of that size, or stops the kernel exactly when no free segment has room or too much is asked for; the heap invariant holds after it. |
| `KernelHeap.KernelMemoryManager.FreeMemory` | common/source/mm/KernelMemoryManager.cpp:90-109 | Rejects exactly pointers outside the heap; stops the kernel where no marker stands or the segment is not in use; else is a step `Free` of the runs, which removes exactly the block and stamps its place, or stops exactly when the block and free neighbours of it are all there is. |
| `KernelHeap.KernelMemoryManager.ReallocateMemory` | common/source/mm/KernelMemoryManager.cpp:111-179 | Stops the kernel where too much is asked for or no marker stands; else is a step `Realloc` of the runs, to size 0 a free: the block gets the size asked for and keeps its words; it stays exactly if it need not grow or its free successor has room, else moves to the first fit or stops the kernel exactly if there is none. |
| `LockProtocol.MutualExclusion` | common/source/kernel/Mutex.cpp:50-118 | In every interleaving of any number of threads at most one is between a successful `testSetLock` and `mutex_ = 0`. |
| `LockProtocol.NoAssertFails` | common/source/kernel/Mutex.cpp:50-118 | No assert of acquire, acquireNonBlocking, release, wait, signal and the list functions on the lock itself fails: `held_by_` is 0 where it must be, is the thread where it must be, `lock_waiting_on_` is 0, the list lock is held. The assert of wait on the holding list is `WaitingThreadHoldsALock`; the check for circular deadlocks is in `DeadlockCheck`, not here. |
| `LockProtocol.WakeupsAreNotLost` | common/source/kernel/Mutex.cpp:66-117 | A free mutex with a listed thread, or one about to push itself, has a thread that will test it again or has yet to pop or wake. |
| `LockProtocol.SleeperFate` | common/source/kernel/Scheduler.cpp:136-152 | A sleeper is listed once, or exactly one thread has popped it and has yet to wake it. |
| `LockProtocol.WaiterIsSeen` | common/source/kernel/Condition.cpp:50-54 | A thread that gave up the mutex inside wait holds the list lock of the condition, is listed, has been popped, or is awake. |
| `LockProtocol.EmptyListMeansNoWaiter` | common/source/kernel/Condition.cpp:80-100 | A signal or broadcast that finds the list empty has no earlier waiter left that was not popped. |
| `LockProtocol.QueueStep` | common/source/kernel/Lock.cpp:249-287 | Every step does one of four things to a waiters list with its members and its popped threads: nothing, push at the front, pop at the back, wake the popped one. |
| `LockProtocol.FirstComeFirstServed` | common/source/kernel/Lock.cpp:249-287 | Over any run, threads are popped off a waiters list in the order they were pushed. |
| `LockProtocol.NeverStuck` | common/source/kernel/Mutex.cpp:66-117 | No reachable state is stuck: unless the thread is just listed on the condition, some thread can take a step. |
| `LockProtocol.InvKept` | common/source/kernel/Lock.cpp:335-343 | The inductive invariant behind all of these is kept by every step of every thread. |
| `Signals.BroadcastPopsAll` | common/source/kernel/Condition.cpp:72-105 | Over any run from entering a broadcast to its end: everybody listed at the begin is popped, oldest first, with those pushed in between; at the end the list is empty and nobody is between push and waking. |
| `Signals.SignalPopsOne` | common/source/kernel/Condition.cpp:72-105 | Over any run from entering a plain signal to its end: the oldest of the list it locked is popped, if there is one, and nobody else. |
| `Signals.WaitEnds` | common/source/kernel/Condition.cpp:54-64 | A wait goes on with taking the mutex again, and without it only if it was not to take it. |
| `Signals.WaitEndsAfterPop` | common/source/kernel/Condition.cpp:52-58 | Over any run from the begin of a wait to its end the thread has been popped off the list of the condition. |
| `Signals.AcquireEnds` | common/source/kernel/Mutex.cpp:50-88 | Whatever the other threads do, an acquire is left with `mutex_` set and `held_by_` the thread. |
| `Signals.CallsBegin` | common/source/kernel/Mutex.cpp:18-118 | The first step of each call, from outside and from the critical section. |
| `Signals.SpinsWhileLocked` | common/source/kernel/Lock.cpp:233-243 | A thread spins for a list lock exactly while it is taken, and has it then. |
| `Signals.AcquireListsOnlyIfTaken` | common/source/kernel/Mutex.cpp:66-81 | An acquire goes for the list lock only from a test that found the mutex taken, and lists itself only when a second test under the list lock finds it taken too; once woken it tests again. |
| `Signals.TryAcquireIff` | common/source/kernel/Mutex.cpp:18-48 | acquireNonBlocking takes the mutex if it is free, and else goes without it at once. |
| `Signals.ReleasePopsOldest` | common/source/kernel/Mutex.cpp:105-117 | A release pops the oldest of the list as it was when it was locked, and goes on to wake it. |
| `SpinProtocol.MutualExclusion` | common/source/kernel/SpinLock.cpp:50-121 | In every interleaving at most one thread is between the successful `testSetLock` and `lock_ = 0`. |
| `SpinProtocol.NoAssertFails` | common/source/kernel/SpinLock.cpp:18-121 | No assert fails: the list lock is held where the list is edited, the thread taken off the list is on it, `held_by_` is 0 where the lock is taken and the thread where it is released. |
| `SpinProtocol.WaitersAreTheSpinners` | common/source/kernel/SpinLock.cpp:63-84 | The waiters list holds exactly the threads between their push and their removal, once each. |
| `SpinProtocol.NeverStuck` | common/source/kernel/SpinLock.cpp:74-78 | Unless all threads are outside without the lock, some thread can move on. |
| `SpinProtocol.AcquireEnds` | common/source/kernel/SpinLock.cpp:50-90 | An acquire is left with `lock_` set and `held_by_` the thread. |
| `SpinProtocol.OtherCallsEnd` | common/source/kernel/SpinLock.cpp:18-121 | One that does not block takes the lock if it is free and else goes without it at once; a release is left without it. |
| `SpinProtocol.SpinnersWait` | common/source/kernel/SpinLock.cpp:63-80 | A spinning thread has `lock_waiting_on_` set. |
| `HoldingLists.HoldingListsExact` | common/source/kernel/Lock.cpp:65-135 | With any number of mutexes and conditions, a thread's holding list has no duplicates and names exactly the locks whose `held_by_` it is; no lock is on two lists. |
| `HoldingLists.WaitingThreadHoldsALock` | common/source/kernel/Condition.cpp:42 | In every reachable state a thread with a lock in hand has it on its holding list, so the assert at the beginning of wait passes. |
| `LockLists.Thread.PushFrontToHoldingList` | common/source/kernel/Lock.cpp:65-71 | The linked list gets the lock at its front and stays linked, ended and free of duplicates. |
| `LockLists.Thread.RemoveFromHoldingList` | common/source/kernel/Lock.cpp:113-135 | Exactly the lock is taken out, the others keep their order and stay linked; a lock that is not listed changes nothing. |
| `LockLists.Lock.PushFrontToWaitersList` | common/source/kernel/Lock.cpp:249-257 | The thread becomes the first of the list. |
| `LockLists.Lock.PopBackFromWaitersList` | common/source/kernel/Lock.cpp:259-287 | The last of the list is taken off, or null is returned for an empty one. |
| `LockLists.Lock.RemoveFromWaitersList` | common/source/kernel/Lock.cpp:289-317 | Exactly the current thread is taken out, the others keep their order and stay linked. |
| `DeadlockCheck.HolderReachesIff` | common/source/kernel/Lock.cpp:167-190 | One level of the search: the holder reaches a thread if and only if the thread holds the lock or a thread waiting on one of its locks is reached. |
| `DeadlockCheck.CheckForCircularDeadLock` | common/source/kernel/Lock.cpp:167-190 | Terminates on an acyclic consistent snapshot and finds exactly what the holder of the lock reaches. |
| `DeadlockCheck.CheckForDeadLock` | common/source/kernel/Lock.cpp:99-111 | Fires if and only if making the current thread wait for the lock would close a wait cycle. |
| `WaitGraph.NewEdgeClosesCycle` | common/source/kernel/Lock.cpp:99-111 | In a graph with at most one successor, a new edge closes a cycle exactly when its target already leads to its source. |
| `CopyOnWrite.FaultIsInvisible` | common/source/kernel/COWManager.cpp:71-152 | A fault, in all three cases, changes nothing any process sees, keeps the invariant and leaves the page writeable. |
| `CopyOnWrite.FaultTables` | common/source/kernel/COWManager.cpp:71-152 | Alone a process owns the frame; with one other it gets a copy and the other owns the frame; with more it gets a copy and the others go on sharing. Entries, sets and frames otherwise stay. |
| `CopyOnWrite.ForkIsCopy` | arch/x86/64/source/ArchMemory.cpp:473-524 | Sharing all pages read-only looks like copying them all. |
| `CopyOnWrite.ForkShares` | arch/x86/64/source/ArchMemory.cpp:473-524 | Fork uses no frame: parent and child map the same ones read-only, and both are in their sets. |
| `CopyOnWrite.ExitIsRemoval` | common/source/kernel/UserProcess.cpp:160-164 | Leaving all sets and freeing what is not shared removes that process only, dangles no page and leaks no frame. |
| `CopyOnWrite.StoreIsOwn` | common/source/kernel/COWManager.cpp:93-97 | A store to a writeable page is seen by its process alone: a writeable page has one owner. |
| `CopyOnWrite.StepRefines` | common/source/kernel/COWManager.cpp:22-152 | Every operation keeps the invariant and agrees with the eager one. |
| `CopyOnWrite.CopyOnWriteRefinesEagerCopy` | common/source/kernel/COWManager.cpp:22-152 | Over every run of forks, faults, writes, new pages and exits each process has the memory it would have if fork had copied every page; the frames in use are exactly the mapped ones. |
| `CopyOnWrite.COWManager.AddToCOWMap` | common/source/kernel/COWManager.cpp:22-33 | Both processes are in the set of the frame, others stay, other frames do not change. |
| `CopyOnWrite.COWManager.EraseProcessFromCOWMap` | common/source/kernel/COWManager.cpp:58-69 | The loop takes the process out of every set. |
| `CopyOnWrite.COWManager.HandleCOWPageFault` | common/source/kernel/COWManager.cpp:71-152 | Refines the fault function in its three cases; nobody sees a difference. |
| `CopyOnWrite.COWManager.CopyPagesCOW` | arch/x86/64/source/ArchMemory.cpp:473-524 | The walk over the pages of the parent gives the child a copy of everything. |
| `CopyOnWrite.COWManager.FreePPN` | common/source/mm/PageManager.cpp:235-256 | Frees the frame unless somebody shares it. |
| `CopyOnWrite.COWManager.ExitProcess` | arch/x86/64/source/ArchMemory.cpp:153-196 | Erasing from the sets and then freeing page by page refines the exit function; no frame is freed twice. |
| `CopyOnWrite.COWManager.Write` | common/source/mm/PageFaultHandler.cpp:115-121 | A write, through a fault if need be, changes one byte of that process. |
| `Lexicographic.LexicographicalCompare` | common/include/ustl/upredalgo.h:439-449 | True exactly if the ranges agree up to a place where the first ends or has the lesser element. |
| `Lexicographic.IsStrictWeak` | common/include/ustl/upredalgo.h:439-449 | Over a strict weak order the comparison is a strict weak order again. |
| `Lexicographic.SameLength` | common/include/ustl/upredalgo.h:451-457 | Among sequences of one length it is the order of the permutations. |
| `Permutations.StepIsNext` | common/include/ustl/upredalgo.h:456-474 | The result is true exactly when a lexicographically greater arrangement exists; then the least such is left, else the sorted one; for any strict weak order. |
| `Permutations.StepIsLeast` | common/include/ustl/upredalgo.h:462-469 | No arrangement lies between the given one and the one left. |
| `Permutations.PreviousUndoesNext` | common/include/ustl/upredalgo.h:480-497 | What a step leaves, a step in the flipped order takes back to the very sequence, including the wrap-around. |
| `Permutations.StepIsUnique` | common/include/ustl/upredalgo.h:456-497 | A step has one outcome: result and sequence are determined. |
| `Permutations.NextThenPrevious` | common/include/ustl/upredalgo.h:456-497 | prev_permutation after next_permutation returns the same result and leaves the very sequence there was, for any strict weak order. |
| `Permutations.NextPermutation` | common/include/ustl/upredalgo.h:456-474 | In place, as above. |
| `Permutations.PrevPermutation` | common/include/ustl/upredalgo.h:480-497 | In place, with the order flipped. |
| `Ranges.Reverse` | common/include/ustl/ualgo.h:183-188 | Reverses the range in place and leaves the rest alone. |
| `Ranges.Rotate` | common/include/ustl/ualgo.h:204-215 | Turns A B into B A in place. |
| `StableAlgorithms.StablePartition` | common/include/ustl/upredalgo.h:557-569 | Leaves the elements that satisfy the predicate, then the others, each in their order, and returns the boundary. |
| `StableAlgorithms.FilterInOrder` | common/include/ustl/upredalgo.h:557-569 | Each part has the elements of its kind, for every place one each, in their order. |
| `StableAlgorithms.PartitionedAt` | common/include/ustl/upredalgo.h:557-569 | Before the boundary everything satisfies the predicate, behind it nothing does. |
| `StableAlgorithms.StableSort` | common/include/ustl/ualgo.h:468-475 | Leaves a sorted permutation in which equivalent elements keep their order. |
| `StableAlgorithms.StableSortIsUnique` | common/include/ustl/ualgo.h:468-475 | There is only one such arrangement. |
| `SetAlgebra.Multiplicity` | common/include/ustl/upredalgo.h:342-422 | Of n and m equivalent elements in two sorted ranges min(n, m) are matched; what an operation leaves follows. |
| `SetAlgebra.ClassOfMerge` | common/include/ustl/upredalgo.h:342-422 | Of equivalent elements those of the first range stand for matched ones, and the last ones of the longer range follow, all in their order. |
| `SetAlgebra.SetUnion` | common/include/ustl/upredalgo.h:361-371 | Sorted, every class max(n, m) times. |
| `SetAlgebra.SetIntersection` | common/include/ustl/upredalgo.h:378-388 | Sorted, min(n, m) times. |
| `SetAlgebra.SetDifference` | common/include/ustl/upredalgo.h:394-404 | Sorted, max(n - m, 0) times. |
| `SetAlgebra.SetSymmetricDifference` | common/include/ustl/upredalgo.h:410-422 | Sorted, |n - m| times. |
| `SetAlgebra.Includes` | common/include/ustl/upredalgo.h:343-351 | True exactly if the second range is a sub-multiset of the first. |
| `MinixFiles.ReadData` | common/source/fs/minixfs/MinixFSInode.cpp:59-89 | For every offset and count, in 32-bit arithmetic: which bytes of the zones are stored in memory, when an assert fails or memory ends, and the number returned. Bytes are stored before a read turns out to be short. |
| `MinixFiles.ReadIsClipped` | common/source/fs/minixfs/MinixFSInode.cpp:59-89 | If the end of the range is a 32-bit number, delivered and returned is what the file has of it. |
| `MinixFiles.WriteKeepsSpareZone` | common/source/fs/minixfs/MinixFSInode.cpp:98-108 | A file that is not empty has a zone more than it needs, as every write leaves it. |
| `Loader.Loader.PrepareHeaders` | common/source/kernel/Loader.cpp:288-311 | Keeps the loadable headers in order; succeeds exactly if there are any and no two clash. |
| `Loader.ClashIff` | common/source/kernel/Loader.cpp:302-303 | Of two segments whose ends are 64-bit addresses the test finds exactly those with an address in common; adjacent ones pass. |
| `Loader.NoClashIff` | common/source/kernel/Loader.cpp:300-309 | So headers pass exactly if no address belongs to two of them. |
| `Loader.KeptInOrder` | common/source/kernel/Loader.cpp:294-298 | Kept are the headers of type 1 with a size, once each and in order. |
| `Loader.Loader.ReadFromBinary` | common/source/kernel/Loader.cpp:91-96 | Passes on the low 32 bits of position and length; fails exactly if the signed number returned is not the length. |
| `Loader.Loader.LoadPage` | common/source/kernel/Loader.cpp:33-89 | For every list of headers, every file and every page: stops, fails or goes on with the first segment whose read does; has no content exactly if no header counts as touching the page; memory is that after the reads up to there. Nothing outside the frame is written unless a segment spills, and for prepared headers of a complete file nothing fails and the frame holds the page of the eager image. |
| `Loader.LoadedPageIsImage` | common/source/kernel/Loader.cpp:33-89 | For prepared headers of a file that has all their bytes the frame holds that page of the eager image: file bytes where a segment has them, zero elsewhere; all reads succeed and nothing but the frame is written. |
| `Loader.OrderDoesNotMatter` | common/source/kernel/Loader.cpp:43-72 | The order of the headers has no influence on a page. |
| `Loader.ReadFitsIff` | common/source/kernel/Loader.cpp:52-55 | What is asked for fits on the page exactly unless the 64-bit end of a segment lies on the page before its begin. |
| `Loader.ReadNeedNotFit` | common/source/kernel/Loader.cpp:52-55 | A header for which it does not fit. |
| `Loader.FitRead` | common/source/kernel/Loader.cpp:52-62 | A read that fits succeeds exactly if the file has its bytes from the low 32 bits of the position on, and then delivers exactly these. |
| `Loader.SucceedsRightlyIff` | common/source/kernel/Loader.cpp:91-96 | That is as it should be exactly if the position has 32 bits, or the file does not reach that far from its low 32 bits either. |
| `Loader.TruncatedPosition` | common/source/kernel/Loader.cpp:91-96 | A prepared header whose file range lies behind the end of the file, and whose page is read from the begin of the file. |
| `Loader.MisfitRead` | common/source/kernel/Loader.cpp:52-62 | A read that does not fit: how many bytes it delivers, and exactly when it succeeds and when an assert of the file system fails. |
| `Loader.MisfitThatSucceeds` | common/source/kernel/Loader.cpp:52-62 | A prepared header with such a read that succeeds, with 1023 bytes delivered. |
| `Loader.SpillsIff` | common/source/kernel/Loader.cpp:52-58 | Bytes are stored behind the page exactly for a segment whose 64-bit end lies on the page before its begin and whose read delivers more than the rest of the page holds. |
| `Loader.SpilledByte` | common/source/kernel/Loader.cpp:52-58 | Then the first byte behind the frame is overwritten with one of the file. |
| `Loader.SpillingRead` | common/source/kernel/Loader.cpp:52-58 | A prepared header that stores 0x2000 bytes at 0x800 of the page before its read fails. |
| `Loader.NothingElsewhere` | common/source/kernel/Loader.cpp:43-72 | If the end of every segment is a 64-bit address, nothing outside the frame is written, whatever else the headers and the file are like. |
| `Loader.ContentIff` | common/source/kernel/Loader.cpp:48-70 | The test for content is right on every page exactly if the end of the segment in memory does not wrap, or its file part reaches into the last page. |
| `Loader.ContentMissed` | common/source/kernel/Loader.cpp:48-70 | A header and a page it touches where the test says it does not. |
| `Loader.RefusedIff` | common/source/kernel/Loader.cpp:76-81 | For any list of headers and any page: no header counts as touching it exactly if each that does has a wrapping end in memory and its file bytes before the page. |
| `Loader.RefusedIffUntouched` | common/source/kernel/Loader.cpp:76-81 | Without such headers a page is refused exactly if no segment touches it. |
| `ThreadJoin.StepInv` | common/source/kernel/UserProcess.cpp:368-492 | Every step keeps the join table injective and acyclic and the return values exactly those of exited threads that nobody has taken. |
| `ThreadJoin.RefusedIffCycle` | common/source/kernel/UserProcess.cpp:456-461 | A join is refused for deadlock exactly when waiting would close a cycle. |
| `ThreadJoin.JoinOutcome` | common/source/kernel/UserProcess.cpp:410-471 | A join gets a value exactly for an exited target whose value nobody has taken, waits exactly for a running target nobody waits for where no cycle comes about, and is refused exactly otherwise. |
| `ThreadJoin.ServedUnlessStolen` | common/source/kernel/UserProcess.cpp:472-475 | The assert on the return value holds after every step, unless the step is a second joiner taking the value of an exited target: both directions. |
| `ThreadJoin.Delivery` | common/source/kernel/UserProcess.cpp:368-492 | A value is delivered unchanged and at most once per target. |
| `ThreadJoin.EachValueOnce` | common/source/kernel/UserProcess.cpp:368-492 | Over any run, with any number of joiners, all deliveries are of different targets and each is the value its target exited with. |
| `ThreadJoin.DeliveredAsExited` | common/source/kernel/UserProcess.cpp:390 | Over any run from the start, whatever a join gets is the very value its target passed to pthread_exit, and a thread has exited with a value exactly if it did so. |
| `ThreadJoin.ServedIffSingleJoiners` | common/source/kernel/UserProcess.cpp:410-492 | After any run from the start every signalled waiter will find its value exactly if no second joiner has taken one from under a first: both directions. |
| `ThreadJoin.JoinersAreServed` | common/source/kernel/UserProcess.cpp:410-492 | Over any run with one joiner per target every signalled waiter gets the value its target exited with. |
| `ThreadJoin.SecondJoinerTakesTheValue` | common/source/kernel/UserProcess.cpp:421-436 | A run with a second joiner in which the assert fails. |
| `ThreadJoin.UserProcess.JoinDeadlock` | common/source/kernel/UserProcess.cpp:844-864 | The walk from waiter to waiter terminates and decides whether the target waits for the caller. |
| `ThreadJoin.UserProcess.ExitThread` | common/source/kernel/UserProcess.cpp:368-400 | Refines the step. |
| `ThreadJoin.UserProcess.JoinThread` | common/source/kernel/UserProcess.cpp:410-471 | Refines the step, with the same outcome. |
| `ThreadJoin.UserProcess.ResumeJoin` | common/source/kernel/UserProcess.cpp:473-492 | Refines the step: a waiter whose value is still there gets what its target exited with, one whose value was taken fails the assert; a served waiter never does. |
| `Scheduler.BoundedBypass` | common/source/kernel/Scheduler.cpp:46-121 | A thread at index p that stays eligible is chosen within p + 1 unblocked calls, whatever is added, changed or cleaned up in between. |
| `Scheduler.CyclicOrder` | common/source/kernel/Scheduler.cpp:104 | Without edits of the list it is always a rotation of what it was. |
| `Scheduler.ChosenGoesLast` | common/source/kernel/Scheduler.cpp:70-104 | The chosen thread is eligible and no thread before it is; it goes to the end of the list and those behind it to the front. |
| `Scheduler.EverybodyInBetween` | common/source/kernel/Scheduler.cpp:46-121 | Between two choices of one thread every other listed thread that stays eligible is chosen, whatever else happens. |
| `Scheduler.ResetsChangeNothing` | common/source/kernel/Scheduler.cpp:70-104 | Wake-up times are reset where they have passed on the way to the chosen thread, and at no later time is anybody eligible or not because of that. |
| `Scheduler.CleanedIs` | common/source/kernel/Scheduler.cpp:167-207 | A cleanup takes out the dead threads of a first part of the list, as many as the limit allows. |
| `Scheduler.CleanupTakesAllDead` | common/source/kernel/Scheduler.cpp:167-207 | With at most 1024 listed threads exactly the dead ones go. |
| `Scheduler.RoundRobin.Schedule` | common/source/kernel/Scheduler.cpp:46-121 | Makes the first eligible thread current, resets the wake-up times passed on the way and rotates behind it. |
| `Scheduler.RoundRobin.CleanupDeadThreads` | common/source/kernel/Scheduler.cpp:167-207 | Erasing in place leaves the list without its first dead threads, at most 1024 of them, in order. |
| `Utf8.BitScanLength` | common/include/ustl/utf8.h:35-50 | (bsr + 4) / 5 is the length by the table of bounds. |
| `Utf8.CountBytes` | common/include/ustl/utf8.h:35-50 | The loop over the table gives the length. |
| `Utf8.CountLeadingBits` | common/include/ustl/utf8.h:62-76 | The loop over the mask counts leading one bits, at least 1. |
| `Utf8.ReadsBack` | common/include/ustl/utf8.h:127-135 | Reading where the encoding of a code point stands gives it back and stops at its last byte. |
| `Utf8.Write` | common/include/ustl/utf8.h:180-193 | The writer's loop produces the encoding. |
| `Utf8.EncodeIffTable` | common/include/ustl/utf8.h:180-193 | The encoding of a code point is the one sequence of bytes that the table of section 2 of RFC 2279 allows for it: range, first byte, continuation bytes and bits. |
| `Utf8.ReadAll` | common/include/ustl/utf8.h:127-135 | Reading an encoded sequence of code points gives that sequence. |
| `Utf8.DistanceIsRightIff` | common/include/ustl/utf8.h:137-145 | The distance of two readers is the number of characters between them exactly if they are the same, the second is at the end, or the second character has one byte. |
| `Utf8.DistanceTooLong` | common/include/ustl/utf8.h:137-145 | A text where it is one too long. |
| `RingBuffers.PutAppends` | common/include/util/RingBuffer.h:56-65 | Writing at the write position appends to the queue. |
| `RingBuffers.GetDropsOldest` | common/include/util/RingBuffer.h:76-85 | Moving the read position takes the oldest element. |
| `RingBuffers.RingBuffer.Put` | common/include/util/RingBuffer.h:56-65 | Appends, or fails exactly when size - 1 elements are there. |
| `RingBuffers.RingBuffer.Get` | common/include/util/RingBuffer.h:76-85 | Takes the oldest element, or fails exactly when there is none. |
| `RingBuffers.RingBuffer.WriteToPipe` | common/source/kernel/UserProcess.cpp:1013-1039 | Appends as many bytes as fit and returns their number; fewer than asked for only if the pipe is full then. |
| `RingBuffers.RingBuffer.ReadFromPipe` | common/source/kernel/UserProcess.cpp:987-1012 | Takes the oldest bytes, as many as there are; fewer than asked for only if the pipe is empty then. |
| `RingBuffers.PipeConserves` | common/source/kernel/UserProcess.cpp:987-1039 | Over any run of pipe writes and reads the accepted bytes are the bytes read followed by the contents. |
| `RingBuffers.FiFo.Put` | common/include/util/FiFo.h:99-123 | Waits exactly for a full buffer it may block on; else in overwrite mode a full buffer drops only its oldest element, without it the new one. |
| `RingBuffers.FiFo.Get` | common/include/util/FiFo.h:135-150 | Waits exactly for an empty buffer, else takes the oldest element. |

## Left out

- Heap: the growing and shrinking of the break, allocation tracing, the lock around the calls, and the walk over all markers that ends a release.
- Heap: the zero check compares 32-bit words; here it compares the 64-bit words they make up.
- KernelHeap.KernelMemoryManager.FreeMemory: words inside a payload that look like the header of a used segment are excluded; the source takes them for one.
- KernelHeap.KernelMemoryManager.ReallocateMemory: so are, for a size other than 0, segments that are not in use, which the source resizes without looking at their used flag, and pointers below the first header.
- Locks: debug output, `system_state` other than RUNNING, interrupts, and threads that are killed while they wait.
- LockProtocol.NextPc: `held_by_` and the holding list are set in one step; they are private to the owner at that point. `Scheduler::wake` tests and sets the state of its target in one step; only one thread ever wakes a sleeper.
- LockProtocol.FirstComeFirstServed: the order of a waiters list, not of getting the mutex, which a newcomer may take first, as in the source.
- Deadlock check: the snapshot is taken at one moment; that no wait cycle ever forms under concurrency is not claimed, as the check runs before the thread is listed.
- Copy on write: exec, which drops an address space without leaving the sets; two threads of one process that fault on the same page at once; the page tables themselves, whose frames are never shared; and running out of frames.
- CopyOnWrite.COWManager.AllocPPN: picks any free frame; the caller overwrites its contents.
- Loader: the ELF header, debug information, and a page that another thread maps at the same time.
- Loader.Loader.LoadPage: the binary is an open, readable file of the Minix file system, its inode without holes and unchanged while it is read; block device, caches and the other file systems below are not part of this model. A frame that is freed after a failure stays as it is here, and memory is what follows the frame in the identity mapping.
- Thread join: cancelling a thread that waits, and reuse of thread ids.
- Scheduler: accounting of time, cancellation on the way to user mode, and ticks.
- UTF-8: leading bytes for 7 and 8 byte sequences write past 31 bits; reading them is modelled modulo 2^32, writing them not at all.
- Buffers: RingBuffer and FiFo with one caller at a time; a put or get of FiFo that has to wait says so and changes nothing, the waiting itself is covered by the lock protocol.
- The heap algorithms and the containers of uSTL: they would add only easy members.
- File systems apart from reading a file of the Minix one, terminals, drivers, PathWalker, waitpid, signals and ASLR are not part of this model.
