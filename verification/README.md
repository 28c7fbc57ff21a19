# A model of the USAX kernel's core data structures and protocols

USAX is a small monolithic kernel.  This project models the parts of it that other code relies on without looking
inside, and proves what that code relies on:

- the buddy allocator behind `kmalloc` (one metadata node per block, blocks split and merged in place), up to whole
  requests served by one block or by several, and the copy of its metadata for a larger heap;
- the intrusive AVL tree, with its insertion, removal, lookup and the bounded stacks they use;
- the clean-up of the memory map that the boot loader hands over (rounding, sorting, merging, resolving overlaps);
- the compaction of a FAT volume, and reading and seeking in the files of such a volume;
- the locks: mutex, semaphore, the two reader-writer locks with the condition variable under one of them;
- the queues: the ring buffer, the pipe built on it, the lock-free ring buffer and the worker thread fed through it;
- the scheduler's accounting and choice of tasks, the conversion between dates and timestamps, and two bit tricks.

Code that changes things in place is modelled by classes and methods over arrays, linked nodes and fields; each method
is proved against a function of the old state, and the laws are proved about that function or as invariants.  Protocols
between tasks are state machines whose steps are the atomic sections of the code, and their properties hold in every
state of every run.  Numbers are unbounded; where the width of a machine word matters it is written out.

## How the modules fit together

- `Powers`, `BuddyBits`, `BuddySearch`, `BuddyFree`, `BuddyRange`, `BuddyTheorems`, `BuddyMulti`, `BuddyExpand` speak of
  the metadata as a value; `BuddyHeap` is the heap itself.  `Bithacks` has the word arithmetic it uses.
- `AvlShape` has the tree as a value, `AvlLinks` and `AvlPath` the linked nodes and paths in them, `AvlMap` insertion and
  removal, `AvlLookup` the lookups and the bound on the height.
- `MemRegions`, `Sorting` and `MemMap` are the memory map.
- `FatVolume`, `FatMove`, `FatTree`, `FatWalk`, `FatTrace` and `FatCompact` are the compaction, `FatRead` the reading of
  files, and `FatAfter` says what a reader sees after compaction.
- `Basics` and `Options` are used throughout.  `Mutexes`, `Semaphores`, `Locking`, `RwlockRp` and `RwlockWp` are the locks;
  `RwlockRpCalls` and `RwlockWpCalls` say what the calls of the latter two do for their callers.
- `Ringbuf`, `Pipe`, `SafeRingbuf`, `Worker` and `WorkerQueue` are the queues.  `SafeRingbufCalls` and `WorkerProgress` say
  when a read, a write or the worker may give up, and that left alone they come to what they are for.
- `Fairness` and `Scheduler` are the scheduler, `Calendar` the dates.

## What turned out not to hold

- Resolving the overlaps of the memory map need not end.  A turn that finds an overlap and changes nothing repeats for
  ever; `MemMap.ExchangeSame` says exactly which overlaps change nothing, and `MemMap.Map.FixRegions` that only a map with
  an empty region on a page boundary, inside the pages of a less strict one, can be caught in one.
- The logarithm of a power of two on 64 bits is right exactly up to 2^32 (`Bithacks.Log2Is`).  The heap takes its own
  logarithm and that of a block in this way, so `ptr_to_node` is right for all its blocks exactly if the heap has at most
  2^32 bytes (`BuddyHeap.PtrToNodeIs`); a heap of 2^33 bytes is the smallest that fails (`BuddyHeap.HeapTooLarge`).
- Copying the metadata of an empty heap for a larger one leaves a split root over free halves, so that the copy is not
  well formed; `BuddyHeap.DupExpanded` has the exact condition.
- The search for the block of a multi-step request is described in a comment as free of side effects, but leaves the
  nodes above the block split (`BuddyHeap.Heap.Search`); the allocations that follow make up for it.
- An allocation that is only entered in the metadata is not counted in `mem_allocated`, while freeing it is: the count
  stays right exactly for the other kind (`BuddyHeap.Heap.Kmalloc`).
- The step to the parent of the root leaves the array, so a block as large as the heap cannot be freed
  (`BuddyFree.RootHasNone`).
- A comment of the scheduler says that the virtual run time of a task grows by the number of runnable tasks.  The task
  that runs is not in the list that is counted and the idle task is, so with n tasks it grows by n - 1 for every tick;
  the bounds in `Fairness` are for what the code does.
- Compaction leaves the records `.` and `..` alone, also where the directory they name moves.  Which clusters move can be
  told from the volume before: the cluster c moves exactly if more clusters below c are free than clusters above c are
  reached before it (`FatTrace`, ensured by `FatCompact.Volume.CompactClusters`).  So `.` and `..` are right afterwards
  exactly under that condition on the first cluster of the directory or of its parent (`FatAfter.DotRight`,
  `FatAfter.DotDotRight`).  A directory at cluster 3 with cluster 2 free is enough for a wrong `.`
  (`FatAfter.SmallDotWrong`).
- Nothing checks that a path fits the stack of 32 slots with which the tree is balanced.  Up to 5702885 objects every path
  fits (`AvlLookup.StackSuffices`), and there is a tree with one object more where one does not
  (`AvlLookup.StackTooSmall`).
- `rwlock_wp_init` does not set the recursion count; `RwlockWp.FreedIffCounted` says why it has to be 0.

## Model

| member | source | states |
|---|---|---|
| BuddyTheorems.LiveBlocksSound | kernel/kmalloc/kmalloc.c:61-81 | Live blocks are aligned to their size, inside the heap and pairwise disjoint byte ranges. |
| BuddyTheorems.SplitIff | kernel/kmalloc/kmalloc.c:411-414 | A node is marked split exactly if a live block lies strictly inside it. |
| BuddyTheorems.FullIff | kernel/kmalloc/kmalloc.c:374-383 | A node is marked full exactly if every byte of it is live and it is not inside a live block. |
| BuddyTheorems.Canonical | kernel/kmalloc/kmalloc.c:88-138 | The metadata is a function of the set of live blocks, whatever the order of allocations and frees. |
| BuddyTheorems.EmptyMeansClear | kernel/kmalloc/kmalloc.c:114-123 | When every block is released all metadata is as in a new heap. |
| BuddyTheorems.DescendToBlock | kernel/kmalloc/kmalloc.c:717-740 | On the way from the root to the live block with a byte, the nodes above are split and the half with the byte is the half with the block. |
| BuddyRange.NodeRoundTrip | kernel/kmalloc/kmalloc.c:61-81 | `node_to_ptr` gives the start of the node's block, and `ptr_to_node` is its inverse. |
| BuddyRange.PtrRoundTrip | kernel/kmalloc/kmalloc.c:61-81 | For an aligned address, `node_to_ptr` of `ptr_to_node` is that address. |
| BuddyRange.AvailIffFree | kernel/kmalloc/kmalloc.c:347-359 | A node can be taken by the search exactly if no live byte lies in its range. |
| BuddyBits.LiveApart | kernel/kmalloc/kmalloc.c:349-359 | No live block lies inside another. |
| BuddyMulti.StepsTile | kernel/kmalloc/kmalloc.c:529-606 | The blocks that serve a multi-step request cover exactly the bytes from its address up to its size. |
| BuddyMulti.StepsBytes | kernel/kmalloc/kmalloc.c:529-606 | Together they have exactly as many bytes as the request. |
| BuddyMulti.StageNext | kernel/kmalloc/kmalloc.c:549-597 | The next search below the big block finds the address right after the blocks so far. |
| BuddyExpand.ExpandedRanges | kernel/kmalloc/kmalloc_heaps.c.h:151-210 | The copy has a live block of a size at an address exactly if the original has it. |
| BuddyExpand.ExpandedOk | kernel/kmalloc/kmalloc_heaps.c.h:191-207 | The copy is well formed exactly if the heap has not grown or has a live block. |
| BuddyFree.RootHasNone | kernel/kmalloc/kmalloc.c:40-40 | The parent of a node is inside the array exactly if the node is not the root. |
| BuddyHeap.BlockLogIs | kernel/kmalloc/kmalloc.c:472-473 | The maximum of the rounded request and the smallest block, in word arithmetic, is the power of two that the model uses. |
| BuddyHeap.PtrToNodeIs | kernel/kmalloc/kmalloc.c:61-70 | On 64 bits, with the logarithms of the heap and of the block both taken by the bit trick, `ptr_to_node` is right for all blocks exactly if the heap has at most 2^32 bytes. |
| BuddyHeap.HeapTooLarge | kernel/kmalloc/kmalloc_heaps.c.h:47-53 | A heap of 2^33 bytes gives a wrong node for its first page. |
| BuddyHeap.PtrToNodeWord | kernel/kmalloc/kmalloc.c:61-70 | On 32 bits it is always right. |
| BuddyHeap.Heap.constructor | kernel/kmalloc/kmalloc_heaps.c.h:56-113 | A new linear heap is well formed and has no live block. |
| BuddyHeap.Heap.Search | kernel/kmalloc/kmalloc.c:316-446 | The lowest free block of the size below the start node, or none if there is none; marked live or, in a probe, only reached by split nodes. |
| BuddyHeap.Heap.CoalesceUp | kernel/kmalloc/kmalloc.c:88-123 | Merging clears pairs of free halves upwards, stops at the first half in use, and changes no other node. |
| BuddyHeap.Heap.UnmarkUp | kernel/kmalloc/kmalloc.c:125-137 | The rest of the way up is not full any more, and the metadata is well formed again. |
| BuddyHeap.Heap.AllocBlock | kernel/kmalloc/kmalloc.c:316-446 | The lowest free address becomes live and nothing else changes, or there is no free block of the size and the metadata stays. |
| BuddyHeap.Heap.FreeBlock | kernel/kmalloc/kmalloc.c:630-715 | Exactly the given block is not live any more, and its bytes are taken off the count. |
| BuddyHeap.Heap.CalculateBlockSize | kernel/kmalloc/kmalloc.c:717-740 | The size read off the metadata is the size of the live block at the address. |
| BuddyHeap.Heap.AllocSteps | kernel/kmalloc/kmalloc.c:499-611 | A multi-step request gets contiguous blocks for the bits of its size at the lowest free address of the rounded size. |
| BuddyHeap.Heap.Kmalloc | kernel/kmalloc/kmalloc.c:449-612 | A request gets the lowest free range of its rounded size, with the size granted, the new set of blocks and the byte count, and that count stays equal to the live bytes exactly if the allocation is an actual one; it fails only where there is no such range, and without effect. |
| BuddyHeap.Heap.KfreeBlock | kernel/kmalloc/kmalloc.c:754-816 | With or without the user's size exactly the block of the request is freed, and the count stays equal to the live bytes. |
| BuddyHeap.Heap.KfreeSteps | kernel/kmalloc/kmalloc.c:791-815 | Exactly the blocks of a multi-step request are freed. |
| BuddyHeap.KmallocKfree | kernel/kmalloc/kmalloc.c:449-612 | Freeing what was just allocated restores every bit of metadata and the count. |
| BuddyHeap.DupExpanded | kernel/kmalloc/kmalloc_heaps.c.h:151-210 | The copy has the same live byte ranges, and is well formed exactly if it is as large as the original or the original is not empty. |
| Bithacks.RoundUpIs | include/3rd_party/bithacks.h:52-69 | The rounding gives the least power of two that is not less, or 0 where that does not fit the word or the argument is 0. |
| Bithacks.Log2Is | include/3rd_party/bithacks.h:33-50 | The logarithm of 2^k is k exactly if k is at most 32, on words of 32 and 64 bits. |
| Bithacks.CeilLog2Least | include/3rd_party/bithacks.h:52-69 | No smaller power of two will do. |
| AvlLinks.RotateLeftChild | kernel/bintree/avl_bintree.c:51-66 | The nodes are linked as the rotated tree, with the right heights. |
| AvlLinks.RotateRightChild | kernel/bintree/avl_bintree.c:78-93 | The mirror image. |
| AvlLinks.Balance | kernel/bintree/avl_bintree.c:99-131 | A tree whose halves differ in height by at most two becomes balanced, with the same objects in the same order. |
| AvlShape.RebalancedBalanced | kernel/bintree/avl_bintree.c:99-131 | Rebalancing restores the balance, and the height drops by at most one. |
| AvlMap.Unwind | kernel/bintree/avl_bintree.c:191-192 | Balancing along the stack makes the whole tree balanced again, with the same objects in order. |
| AvlMap.BuildPath | kernel/bintree/avl_bintree.c:256-271 | The stack holds the slots from the root to the place of the key, which is found there or is missing. |
| AvlMap.Insert | kernel/bintree/avl_insert.c.h:16-52 | If the path to the key fits the stack: the tree stays sorted, balanced and correctly linked, the object is added exactly if its key was not there, otherwise nothing changes. |
| AvlMap.RemoveShort | kernel/bintree/avl_bintree.c:181-192 | Removal of a node with at most one child. |
| AvlMap.RemoveTwo | kernel/bintree/avl_bintree.c:144-192 | Removal of a node with two children by its successor, whose own path is balanced first. |
| AvlMap.Remove | kernel/bintree/avl_remove.c.h:16-35 | If the path to the key, and on to the successor, fits the stack: exactly the object with the key leaves the tree and is returned, the tree stays sorted, balanced and correctly linked; without such a key nothing changes. |
| AvlMap.SlotsAtMost | kernel/bintree/avl_bintree.c:256-271 | A path takes at most two slots more than the height. |
| AvlMap.SlotsAtLeast | kernel/bintree/avl_bintree.c:256-271 | A path that ends at a free slot or a successor takes at least half the height, so that the 16-bit heights do not overflow. |
| AvlLookup.Find | kernel/bintree/avl_find.c.h:16-35 | The object with the key exactly if there is one, in at most height plus one steps. |
| AvlLookup.First | kernel/bintree/avl_bintree.c:196-206 | The object with the least key. |
| AvlLookup.Last | kernel/bintree/avl_bintree.c:208-218 | The object with the greatest key. |
| AvlLookup.FewestNodes | kernel/bintree/avl_bintree.c:99-131 | A balanced tree of height h has at least Fib(h + 3) - 1 objects. |
| AvlLookup.StackSuffices | include/usax/kernel/bintree.h:6 | The stacks of 32 slots have room for every path of insertion and removal in a tree of fewer than 5702886 objects. |
| AvlLookup.StackTooSmall | include/usax/kernel/bintree.h:6 | There is a tree of 5702886 objects, sorted, balanced and correctly linked, with a path that takes 33 slots. |
| AvlLookup.SparseTree | kernel/bintree/avl_bintree.c:99-131 | For every height there is a balanced tree with the fewest objects possible. |
| AvlLookup.PtrCompare | kernel/bintree/avl_bintree.c:220-233 | The comparison by subtraction orders two longs exactly if their difference is a long. |
| Sorting.InsertionSort | kernel/sort.c:32-52 | The first regions are sorted and a permutation, the rest is untouched, and a sorted array is left as it is. |
| MemRegions.ResolvedKept | kernel/mm/system_mmap.c:236-391 | The pieces of two overlapping regions say of every address what the strictest of the two says. |
| MemRegions.ResolvedShorter | kernel/mm/system_mmap.c:236-391 | Unless a stricter empty region starts where the other does, the pieces weigh less, and none is empty if the two are not. |
| MemRegions.RoundedCovers | kernel/mm/system_mmap.c:151-167 | A rounded region covers exactly the pages in which the region has an address. |
| MemRegions.RoundedEmpty | kernel/mm/system_mmap.c:151-167 | Only an empty region on a page boundary is empty after rounding. |
| MemMap.Map.Append | kernel/mm/system_mmap.c:42-48 | The region is added, or the array was full and nothing changes. |
| MemMap.Map.RemoveAt | kernel/mm/system_mmap.c:125-132 | The region is taken out and the order of the others is kept. |
| MemMap.Map.HandleOverlap | kernel/mm/system_mmap.c:190-394 | Reports an overlap exactly if there is one, replaces the two regions by their pieces, and panics exactly if these are three and the array is full. |
| MemMap.ExchangeSame | kernel/mm/system_mmap.c:303-308 | Resolving an overlap changes nothing exactly if the region that starts inside is stricter, empty and has the same start. |
| MemMap.ExchangeKept | kernel/mm/system_mmap.c:190-394 | Resolving an overlap keeps what the map says, and makes it weigh less in all other cases. |
| MemMap.Map.RoundRegions | kernel/mm/system_mmap.c:151-167 | Every region is rounded to pages, with sums in 64 bits. |
| MemMap.Map.SortRegions | kernel/mm/system_mmap.c:64-70 | Sorted by address, the same regions. |
| MemMap.Map.MergeAdjacent | kernel/mm/system_mmap.c:169-188 | No two neighbours of one type and one extra field are left of which the second starts where the first ends, and every address keeps its meaning. |
| MemMap.Map.OverlapPass | kernel/mm/system_mmap.c:402-406 | A pass keeps the meaning, and makes the map weigh less or leaves it as it is. |
| MemMap.Map.Turn | kernel/mm/system_mmap.c:400-410 | A turn leaves the map as it is exactly if it has no overlap, or only overlaps that cannot be resolved, and reports one exactly in the second case. |
| MemMap.Map.HandleOverlaps | kernel/mm/system_mmap.c:396-411 | For every sorted map: ends with disjoint regions of the same meaning, in a panic, or in a turn that repeats for ever, in which case the map jams and has an empty region.  A panic means that the map can be written as a full array of the same meaning in which a region has to be split. |
| MemMap.Map.FixRegions | kernel/mm/system_mmap.c:413-419 | The same for the whole clean-up of any map; it can only go on for ever if the map has an empty region on a page boundary inside the pages of a less strict one, and does so if the rounded map jams and has nothing to merge.  If no rounded regions overlap it ends, and no neighbours are left that touch and have the same type and extra field. |
| MemMap.JamFrom | kernel/mm/system_mmap.c:413-419 | A map that jams comes from an empty region on a page boundary inside the pages of a less strict one. |
| MemMap.FixedMeaning | kernel/mm/system_mmap.c:413-419 | Of every address the final map says what the strictest rounded region there said, and it covers no other address. |
| MemMap.CoveredOnce | kernel/mm/system_mmap.c:413-419 | No address is covered twice. |
| MemMap.EmptyNeverEnds | kernel/mm/system_mmap.c:396-411 | Two regions on one page boundary, the second empty and stricter, are such a map. |
| FatMove.MovingStep | common/fat32_base.c:782-794 | Moving one cluster keeps the chain, its data, all other clusters, and that all clusters below the first free one are used. |
| FatTree.WalkingStep | common/fat32_base.c:277-312 | When one entry is done, the others are stored and hold what they did. |
| FatTree.DirDone | common/fat32_base.c:803-805 | A moved directory whose entries are done holds what it did, in clusters below the first free one. |
| FatVolume.StoredFrame | common/fat32_base.c:754-810 | A tree is stored in every volume that agrees on its clusters. |
| FatVolume.ContentFrame | common/fat32_base.c:754-810 | And holds the same there. |
| FatCompact.Volume.WriteEntry | common/fat32_base.c:407-430 | A table entry is written, with the reserved bits of a 32-bit entry kept. |
| FatCompact.Volume.MoveChain | common/fat32_base.c:774-801 | The chain of an entry is moved to the free clusters below it, with the same data in the same order. |
| FatCompact.Volume.CompactEntry | common/fat32_base.c:754-810 | An entry and all below it hold what they did, in clusters below the first free one; no other cluster changes. |
| FatCompact.Volume.Walk | common/fat32_base.c:243-339 | The walk visits the entries of a directory in order, up to its end mark or the end of its chain. |
| FatCompact.Volume.CompactClusters | common/fat32_base.c:812-832 | The tree holds what it did, clusters it does not reach are untouched, which clusters move is known from the volume before, and used clusters come before free ones if the tree reaches all used clusters behind the first free one. |
| FatTrace.TraceMove | common/fat32_base.c:783-797 | A cluster behind a free one moves, and the free clusters below any other cluster are counted. |
| FatTrace.TraceThen | common/fat32_base.c:774-801 | One list of clusters after another: each moves exactly if the free clusters below it outnumber those above it reached before. |
| FatTrace.TracingNext | common/fat32_base.c:301 | The same along the walk, entry by entry. |
| FatRead.FlatCluster | kernel/fs/fat32.c:35-106 | The bytes of cluster j of a chain are where they belong in the file. |
| FatRead.SameCluster | kernel/fs/fat32.c:118-168 | The position of a handle decides its current cluster, however it has got there. |
| FatRead.Handle.Read | kernel/fs/fat32.c:35-106 | The next bytes of the file, as many as there are up to the size of the buffer, or an error without effect. |
| FatRead.Handle.ReadClusters | kernel/fs/fat32.c:64-103 | The loop over the clusters copies exactly those bytes. |
| FatRead.Handle.Rewind | kernel/fs/fat32.c:109-116 | The handle is at the start. |
| FatRead.Handle.SeekForward | kernel/fs/fat32.c:118-168 | The position moves by the distance, past the end of the file too, and the handle is ready to read there. |
| FatRead.ReadWholeFile | common/fat32_base.c:696-746 | The first bytes of the file, up to the size of the buffer. |
| FatAfter.SameBytes | common/fat32_base.c:812-832 | The file that a path leads to has the same size and bytes before and after compaction. |
| FatAfter.DotsStay | common/fat32_base.c:766-772 | The records `.` and `..` name the same clusters after compaction. |
| FatAfter.FirstStays | common/fat32_base.c:774-801 | The first cluster of an entry stays exactly if the free clusters below it do not outnumber the clusters above it that are reached before it. |
| FatAfter.DotRight | common/fat32_base.c:766-772 | A `.` that was right is right afterwards exactly under that condition on its directory. |
| FatAfter.DotDotRight | common/fat32_base.c:766-772 | A `..` that was right is right afterwards exactly under that condition on the parent. |
| FatAfter.SmallDotWrong | common/fat32_base.c:766-772 | With cluster 2 free and a directory at cluster 3, `.` is wrong afterwards. |
| FatAfter.SmallReady | common/fat32_base.c:812-832 | That volume can be compacted. |
| Mutexes.KMutex.Lock | kernel/kmutex.c:39-103 | Takes the mutex, counts a recursive lock, or joins the end of the list. |
| Mutexes.KMutex.TryLock | kernel/kmutex.c:105-139 | Takes the mutex without waiting, or fails without effect. |
| Mutexes.KMutex.Unlock | kernel/kmutex.c:141-181 | The last unlock hands the mutex to the first waiter, who is woken up. |
| Mutexes.AlwaysValid | kernel/kmutex.c:39-181 | In every run the owner does not wait, nobody waits twice, and nobody waits for a free mutex. |
| Mutexes.FirstComeFirstServed | kernel/kmutex.c:141-181 | In every run the waiter at position k owns the mutex right after release k + 1, and not before. |
| Mutexes.FreeMeansNoWaiters | kernel/kmutex.c:141-181 | In every run a free mutex has no waiters. |
| Mutexes.KeptWhileNested | kernel/kmutex.c:39-181 | A recursive mutex stays with its owner while there have been fewer unlocks than locks, whatever other tasks do, and its count is the difference. |
| Mutexes.LastUnlockFrees | kernel/kmutex.c:141-181 | The unlock that makes them equal takes it from the owner and gives it to the first waiter. |
| Mutexes.PlainUnlockFrees | kernel/kmutex.c:141-181 | A mutex that is not recursive is handed on by the first unlock. |
| Semaphores.KSem.Wait | kernel/ksem.c:65-87 | Takes the units, fails, or joins the end of the list, with the exact conditions. |
| Semaphores.KSem.Signal | kernel/ksem.c:89-137 | Adds the units and wakes up in order those that fit into what is left, or fails without effect. |
| Semaphores.WokenServed | kernel/ksem.c:115-132 | Those woken up can all be served with the units there are. |
| Semaphores.WokenOrLeft | kernel/ksem.c:115-132 | Everybody in the list is either woken up or left, never both. |
| Semaphores.NoneLeftFits | kernel/ksem.c:115-132 | Nobody who is left could be served with the units that those woken up leave over. |
| Semaphores.WokenInOrder | kernel/ksem.c:115-132 | A waiter is woken up exactly if it fits into what those woken up before it leave over. |
| RwlockRp.StepInv | kernel/rwlock.c:22-56 | Every step of every task keeps the invariant of the reader-preferring lock. |
| RwlockRp.RunSafe | kernel/rwlock.c:6-56 | It holds in every state of every run. |
| RwlockRp.UnitInOnePlace | kernel/rwlock.c:22-56 | The unit of the semaphore is free, with the readers or with one writer; while it is free and somebody sleeps, somebody is about to try. |
| RwlockRp.Exclusion | kernel/rwlock.c:22-56 | While a task writes no other one reads or writes. |
| RwlockRp.NeverOverQuota | kernel/rwlock.c:32-56 | The unit is never put back twice. |
| RwlockRp.SignalIs | kernel/ksem.c:115-132 | The list walk of the signal wakes up the first waiter alone. |
| RwlockRpCalls.PointsFollow | kernel/rwlock.c:22-56 | A step takes its task on in its own code or into the mutex; all other tasks go on wanting what they wanted. |
| RwlockRpCalls.ReaderGetsIn | kernel/rwlock.c:22-30 | Readers come first: while somebody reads, a reader that finds the mutex free is in after three steps, however many writers wait. |
| RwlockRpCalls.FirstReaderGetsIn | kernel/rwlock.c:22-30 | The first reader takes the unit and is in after four steps if the unit is there. |
| RwlockRpCalls.ReaderGetsOut | kernel/rwlock.c:32-41 | A reader that is not the last leaves the unit with the others. |
| RwlockRpCalls.LastReaderGives | kernel/rwlock.c:32-41 | The last reader, and no other, goes on to give the unit back. |
| RwlockRpCalls.GivesUnitBack | kernel/rwlock.c:32-56 | The last reader and a writer put the unit back, and the first sleeper is about to try for it. |
| RwlockRpCalls.TriesForUnit | kernel/rwlock.c:22-51 | A task that tries for the unit gets it if it is there, and is last in the list otherwise. |
| RwlockWp.StepInv | kernel/rwlock.c:79-199 | Every step of every task keeps the invariant of the writer-preferring lock. |
| RwlockWp.RunSafe | kernel/rwlock.c:60-199 | It holds in every state of every run. |
| RwlockWp.Exclusion | kernel/rwlock.c:112-163 | In every run an exclusive owner excludes readers and other owners. |
| RwlockWp.WriterFirst | kernel/rwlock.c:79-154 | In every run nobody sleeps while the flag is clear, and a writer that waits for the readers is first in the list. |
| RwlockWp.SignalReachesWriter | kernel/rwlock.c:98-110 | The one signal of the last reader out reaches the writer that waits. |
| RwlockWp.NeverStuck | kernel/kcond.c:27-179 | In every run, while anybody sleeps on the condition some task that holds the lock or is about to take it can go on. |
| RwlockWp.FreedIffCounted | kernel/rwlock.c:60-68 | A first lock and one unlock set a recursive lock free exactly if its count has started at 0. |
| RwlockWpCalls.PointsFollow | kernel/rwlock.c:79-199 | A step takes its task on in its own code or into the mutex; all other tasks go on wanting what they wanted. |
| RwlockWpCalls.AsksAsTold | kernel/rwlock.c:79-199 | A task is in line for what it has asked for. |
| RwlockWpCalls.NoNewReader | kernel/rwlock.c:79-96 | While the flag of a writer is set no step makes a task a reader or raises the count of readers. |
| RwlockWpCalls.WriterKeepsReadersOut | kernel/rwlock.c:79-154 | In every run, from the moment a writer has set the flag and for as long as it is set, the count of readers does not rise and whoever reads has read since then. |
| RwlockWpCalls.HeldWhileNested | kernel/rwlock.c:112-163 | In every run the lock is held exclusively exactly while more locks have been granted than given back, and the count of a recursive lock is their difference. |
| RwlockWpCalls.ReaderGetsIn | kernel/rwlock.c:79-96 | A reader that finds the mutex free and the flag clear is in after three steps. |
| RwlockWpCalls.ReaderGetsOut | kernel/rwlock.c:98-110 | A reader that is not the last, or after which nobody waits, is out after three. |
| RwlockWpCalls.LastReaderWakes | kernel/rwlock.c:98-110 | The last reader wakes up the writer that waits. |
| RwlockWpCalls.WriterGetsIn | kernel/rwlock.c:112-154 | A writer that finds the lock free owns it after four steps. |
| RwlockWpCalls.DrainedGetsIn | kernel/rwlock.c:112-154 | A writer that has waited for the readers owns it once it is woken up. |
| RwlockWpCalls.OwnerGetsInAgain | kernel/rwlock.c:112-154 | The owner of a recursive lock gets it again at once. |
| RwlockWpCalls.WriterFrees | kernel/rwlock.c:156-199 | The last unlock of a writer frees the lock and leaves nobody asleep. |
| Ringbuf.Buffer.WriteBytes | kernel/ringbuf.c:45-114 | As many bytes as fit are appended to the contents. |
| Ringbuf.Buffer.ReadBytes | kernel/ringbuf.c:116-181 | The first bytes of the contents, up to the length asked for, are taken out. |
| Ringbuf.Buffer.WriteElem | kernel/ringbuf.c:34-43 | One element is appended exactly if there is room. |
| Ringbuf.Buffer.ReadElem | kernel/ringbuf.c:183-192 | The first element is taken out exactly if there is one. |
| Ringbuf.Buffer.UnwriteElem | kernel/ringbuf.c:194-206 | The last element is taken out exactly if there is one. |
| Pipe.StepKeeps | kernel/pipe.c:30-151 | Every event keeps the invariant of the pipe. |
| Pipe.BytesConserved | kernel/pipe.c:30-151 | In every run the bytes handed out, followed by those in the buffer, are all bytes accepted, in order. |
| Pipe.WakeUpsSuffice | kernel/pipe.c:30-151 | In every run data and a sleeping reader mean that another reader is awake, and room and a sleeping writer that another writer is. |
| Pipe.ReaderReads | kernel/pipe.c:30-91 | A reader that runs while there is data, also after a sleep, gets what fits from the front and is done; the first writer is woken up, and the first reader if data is left. |
| Pipe.ReaderSleeps | kernel/pipe.c:43-66 | A reader that finds nothing sleeps behind the others with the same request. |
| Pipe.WriterWrites | kernel/pipe.c:93-151 | A writer that runs while there is room, also after a sleep, puts in what fits from the front and is done; the first reader is woken up, and the first writer if there is room left. |
| Pipe.WriterSleeps | kernel/pipe.c:107-135 | A writer that finds no room sleeps behind the others with the same request. |
| Pipe.OthersStay | kernel/pipe.c:30-151 | A step leaves the calls of all other tasks as they are, or wakes them up. |
| Pipe.AwakeServed | kernel/pipe.c:30-151 | In every run, data and a sleeping reader mean that the next step of some woken reader hands out bytes; and likewise for room and a sleeping writer. |
| Pipe.ReadBuffer | kernel/pipe.c:43-68 | The ring buffer does to the bytes what the read step of the pipe says, and the task sleeps exactly if it gets none. |
| Pipe.WriteBuffer | kernel/pipe.c:107-135 | The same for the write step. |
| SafeRingbuf.StepInv | kernel/safe_ringbuf.cpp:100-187 | Every step of the reader and of writers that interrupt each other keeps the invariant. |
| SafeRingbuf.RunIsQueue | kernel/safe_ringbuf.cpp:100-187 | In every run what was taken out, followed by what the buffer holds, is all that was put in, in order, and never more than fits. |
| SafeRingbuf.EffectAtSwap | kernel/safe_ringbuf.cpp:112-187 | Each success takes effect at its swap: a write appends there and reports an empty buffer exactly if it was empty, a read takes the first element there. |
| SafeRingbuf.SameLenSameWord | kernel/safe_ringbuf.cpp:112-133 | While only writes happen a word never comes back, so that a swap on an old word fails. |
| SafeRingbuf.LoadsAgree | kernel/safe_ringbuf.cpp:112-133 | The two loads before a successful swap saw the same word. |
| SafeRingbuf.FirstIsStored | kernel/safe_ringbuf.cpp:146-187 | When no writer is at work the first slot holds the first element. |
| SafeRingbuf.GivesUpWhenFull | kernel/safe_ringbuf.cpp:117-121 | A write gives up only while the buffer is full. |
| SafeRingbufCalls.WriteEnds | kernel/safe_ringbuf.cpp:100-144 | A write that is not interrupted ends within a bounded number of steps wherever it has got to: its element is in if and only if there is room. |
| SafeRingbufCalls.WritePuts | kernel/safe_ringbuf.cpp:100-144 | From its start that takes four steps with room and three without, and leaves all other writers and the reader where they were. |
| SafeRingbufCalls.WriteGivesUp | kernel/safe_ringbuf.cpp:112-133 | A write is over only when its element is stored or the buffer is full, never because a swap failed. |
| SafeRingbufCalls.ReadEnds | kernel/safe_ringbuf.cpp:146-187 | A read that is not interrupted ends within a bounded number of steps wherever it has got to: it takes the first element unless there is none or its first load found none. |
| SafeRingbufCalls.ReadTakes | kernel/safe_ringbuf.cpp:146-187 | From its start a read of a buffer that holds anything, full or not, takes the first element in four steps; of an empty one it takes nothing in three. |
| SafeRingbufCalls.ReadGivesUp | kernel/safe_ringbuf.cpp:160-187 | A read is over only when it has taken an element or its first load found none. |
| SafeRingbufCalls.GivesUpAfterEmpty | kernel/safe_ringbuf.cpp:160-168 | In every run, a read that gives up has loaded the word while the buffer was empty and has been at work since. |
| Worker.StepKeeps | kernel/wth.c:50-187 | Every step of enqueuers, interrupts and the worker keeps the invariant of the handshake. |
| Worker.NoStrandedJob | kernel/wth.c:154-187 | In every run a worker with a job to do is not asleep once no enqueue is in progress. |
| Worker.RunInOrder | kernel/wth.c:139-187 | In every run the jobs run are the first ones put in, in that order. |
| Worker.SleepingIsWaiting | kernel/wth_aux.c:29-49 | While the worker sleeps its flag is set, so that the next enqueuer wakes it up. |
| Worker.EnqueueEnds | kernel/wth.c:50-90 | An enqueue that is not interrupted ends wherever it has got to: its job is in exactly if there is room, and the flag is clear and the worker runnable exactly if the job was the first and the flag was set. |
| Worker.NextJobRuns | kernel/wth.c:154-187 | A worker with a job that is not interrupted runs the first one within five steps, wherever it is. |
| Worker.AllJobsRun | kernel/wth.c:154-187 | Left alone it runs every job that has been put in. |
| Worker.NoJobForgotten | kernel/wth.c:154-187 | In every run, once no enqueue is in progress, the worker left alone runs every job put in. |
| WorkerQueue.PutAtSwap | kernel/wth.c:50-90 | The swap of the lock-free write is the step of the enqueuer, with the same answer whether the queue was empty. |
| WorkerQueue.TakeAtSwap | kernel/wth.c:139-152 | The swap of the lock-free read is the step of the worker. |
| WorkerQueue.OtherStepsStay | kernel/safe_ringbuf.cpp:100-187 | No other step of the buffer changes the worker's queue. |
| WorkerQueue.NothingAtLoad | kernel/safe_ringbuf.cpp:146-187 | A read that finds nothing loaded the word while there was no job. |
| WorkerQueue.SysKeeps | kernel/wth.c:50-187 | Every step of the worker, the enqueuers and the buffer together keeps the invariants of the handshake and of the buffer, and is one step or no step of the model in which a job is put in and taken out at once. |
| WorkerQueue.RunRefines | kernel/wth.c:50-187 | Refinement: every run with each load, swap and store a step of its own is a run of that model. |
| WorkerQueue.NoJobStranded | kernel/wth.c:154-187 | In every run of all of them, with each load, swap and store a step of its own, a worker that sleeps once no enqueue is in progress has an empty buffer and its flag set. |
| WorkerQueue.TakenInOrder | kernel/wth.c:139-152 | In every such run the jobs taken are the first ones put in, in order, and never more are left than fit. |
| WorkerProgress.LeavesAfterNone | kernel/wth.c:165-172 | In every run the worker goes on from looking for a job to its last look only after a load that saw none. |
| WorkerProgress.NextJobTaken | kernel/wth.c:139-187 | A worker with a job that is not interrupted takes it within a bounded number of loads, copies and swaps, wherever it is, asleep or not. |
| WorkerProgress.AllJobsTaken | kernel/wth.c:139-187 | Left alone it takes every job that has been put in. |
| WorkerProgress.EnqueueDone | kernel/wth.c:50-90 | An enqueue that is not interrupted ends with its job in if there is room, and with the worker runnable if the job was the first and the flag was set. |
| Fairness.SpreadBounded | kernel/sched.c:587-633 | At every scheduling point of every run of tasks that compute, two run times differ by at most one slice. |
| Fairness.AtMostTwice | kernel/sched.c:670-714 | No task is chosen more than twice while another one waits. |
| Scheduler.Sched.ChangeState | kernel/sched.c:526-539 | The list and its count stay those of the runnable tasks that are not workers. |
| Scheduler.Sched.AddTask | kernel/sched.c:553-566 | The same when a task is added. |
| Scheduler.Sched.AccountTicks | kernel/sched.c:587-633 | What a tick adds to the current task, and exactly when it asks for a reschedule. |
| Scheduler.Sched.SelectRunnable | kernel/sched.c:670-714 | The first task whose timer is ready, or the first with the least run time, or the current one, with the exact conditions. |
| Scheduler.Sched.Run | kernel/sched.c:744-768 | The switch: one that was running goes to the end of the list, the selected one leaves it. |
| Scheduler.Sched.Schedule | kernel/sched.c:716-771 | Which task runs and the whole new state: a task whose timer is ready goes on, else a ready worker runs, else the best task of the list, the current one or the idle task with the exact conditions; also for a current task that has been woken up before it got there. |
| Scheduler.Sched.ReturnImmediately | kernel/sched.c:635-668 | Exactly a task that is not a zombie and whose timer is ready goes on at once, running and with the timer cleared. |
| Scheduler.IdleLast | kernel/sched.c:670-742 | When the current task cannot go on, the idle task runs exactly if no other one can. |
| Scheduler.StaysUnlessBehind | kernel/sched.c:700-711 | Without a reschedule, and with no timer ready, a task that can go on stays exactly if every other one that can run has run longer. |
| Scheduler.YieldsToOthers | kernel/sched.c:692-711 | With a reschedule it stays exactly if no other one can run. |
| Scheduler.TimerFirst | kernel/sched.c:677-690 | A task whose timer is ready is preferred to all whose timer is not. |
| Scheduler.Sched.RunSlice | kernel/sched.c:587-771 | The ticks of a slice and the switch at its end are one step of the runs whose fairness is proved. |
| Scheduler.Sched.RunSlices | kernel/sched.c:587-771 | Any number of slices from equal run times are such a run. |
| Calendar.YearsByDivision | common/3rd_party/datetime.c:131-201 | Counting the days of all years before and the divisions come to the same. |
| Calendar.GeneralYearIs | common/3rd_party/datetime.c:153-201 | The general branch gives the seconds before the year, and whether it is a leap year. |
| Calendar.FastYearIs | common/3rd_party/datetime.c:135-151 | The fast branch agrees with it, and its 32-bit sums do not overflow. |
| Calendar.ToTimestampIs | common/3rd_party/datetime.c:219-243 | The timestamp of every valid date of the years 0 to 65535 counts its seconds day by day. |
| Calendar.EpochIsZero | common/3rd_party/datetime.c:219-243 | The count starts at the beginning of 1970. |
| Calendar.SameTimestamp | common/3rd_party/datetime.c:219-243 | Two valid dates with one timestamp are the same. |
| Calendar.PartsInRange | common/3rd_party/datetime.c:75-100 | The cycles of years split the days exactly, and a 366th day is there only at the end of a leap year. |
| Calendar.FindMonth | common/3rd_party/datetime.c:109-110 | The loop finds the month and stays within its table. |
| Calendar.ToDateTime | common/3rd_party/datetime.c:47-129 | For every timestamp of the years 0 to 65535 the one valid date with that timestamp; whenever a valid date has it, that date; a valid date in the answer has the timestamp exactly if it is one of those years. |

## Left out

- Heaps that are not linear: the allocation of memory behind the blocks, the allocated and alloc_failed flags and the roll-back of a request whose mapping fails.
- Splitting an allocated block into sub-blocks and coalescing it again (kernel/kmalloc/kmalloc.c:225-313), the small heaps, the accelerator and deferred frees.
- BuddyHeap.Heap.Kmalloc: a multi-step request is a multiple of the smallest block, because for other sizes the code goes on to blocks below the smallest one, for which there are no nodes.
- BuddyHeap.Heap.KfreeBlock: the block is smaller than the heap, because the code steps above the root for one of that size (BuddyFree.RootHasNone).
- BuddyHeap.PtrToNodeIs: the shift in `ptr_to_node` is one of a 32-bit int; rows that are 31 or more below the root, where it would overflow, are not modelled as such.
- BuddyHeap.Heap.constructor: addresses are offsets from the start of the heap; the checks of the alignment of the start are not modelled.
- AvlMap.Insert: requires the path to fit the stack; the code does not check it and writes past the array otherwise.  AvlLookup.StackSuffices and AvlLookup.StackTooSmall say up to which size every path fits.
- AvlMap.Remove: the same for the path to the object and to its successor.
- AvlLookup.PtrCompare: the wrap-around of a signed subtraction is taken as two's complement.
- In-order visits of the tree with a callback or a walk context.
- MemMap.Map.FixRegions: requires that no region ends in the last page of the 64-bit space, where the sums wrap around.  When it goes on for ever is said exactly for the lists it goes through; for the map beforehand there is one necessary and one sufficient condition, as the exact one depends on the order that removal by swap leaves.
- MemMap.Map.RoundRegions: the same requirement on regions in the last page.
- The parts of the memory map code that add regions for the kernel and the ramdisks or map the result.
- FatCompact.Volume.CompactClusters: one copy of the table; the root directory area of a 16-bit volume is the data of cluster 0; entry 0 of the table is an end mark and entry 1 is not free, as on every volume; that there is a free cluster is required, as the code would search on beyond the table; long names are not modelled.
- FAT directories and paths: lookup by name, getdents, seeking in directories and from the end of a file; writing.
- FatAfter.SameBytes: how a record is encoded in bytes is a parameter.
- Timeouts, signals and polling in the locks, the semaphore, the condition and the pipe; a task that is woken up by anything but the code modelled here.
- Semaphores.KSem.Wait: a task that sleeps and is woken up starts over as a new call.
- Pipe.WakeUpsSuffice: the loops of read and write are one step each between two sleeps, as the mutex makes them; closing an end of the pipe is not modelled.
- Ringbuf.Buffer.WriteBytes: elements are abstract values; the buffer of bytes and its element size are not separate.
- Progress of the locks and the queues is stated for a task that is not interrupted, and as the presence of a task that can go on; nothing is assumed or stated about the fairness of interrupts.
- SafeRingbuf.RunIsQueue: one processor, where a writer that interrupts is done before what it interrupted goes on; positions are numbers below the capacity, not 15-bit fields.
- WorkerQueue.NoJobStranded: one worker; which worker gets a job and the priorities are not modelled.
- Scheduler.Sched.Schedule: pending signals and a panic are not modelled, and the worker thread that is ready is a parameter.
- Fairness.SpreadBounded: for tasks that compute all the time and start with equal run times; sleeping tasks and workers can change the order.
- Scheduler.Sched.AccountTicks: the count of ticks in kernel mode is not modelled.
- Calendar.ToDateTime: years outside 0 to 65535 do not fit the field of the date; of the answers for them only that they do not have the timestamp is stated.
- Process management, paging, system calls, drivers, the virtual file system and all code that depends on the processor.
