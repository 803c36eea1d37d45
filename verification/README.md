# ZeldaOS kernel model

A Dafny model of the parts of the ZeldaOS kernel (32-bit x86, C) that are algorithms rather than hardware access,
with proofs about all inputs, all reachable states or all runs.

| component | files | what is proved |
|---|---|---|
| kernel heap | `ChunkMap`, `RecycleBins`, `KernelHeap` | chunks tile the heap, the thirteen linked bins index exactly the free chunks, the bin walk is a best fit over a plain scan, `free` finds its header, double frees are harmless, exactly when a free leaves two free neighbours |
| timer heap | `HeapOrder`, `TimerHeap`, `Timers` | the pointer tree with its breadth-first searches is a complete tree in level order; it refines a binary heap on sequences; ticks fire exactly the due timers in order; the exact condition under which deletion keeps the order |
| virtio queue | `ByteRing`, `VirtqueueSteps`, `VirtioNet` | the driver code, with the device acting between the turns of its loops, refines a two-party state machine; descriptors are conserved over every interleaving with a conforming device, across wrap-around of the 16-bit indices |
| scheduler | `TaskState`, `SchedulerSteps`, `SchedulerRuns`, `Scheduler` | queue invariants over all runs, the idle condition, bounded waiting of ready, woken and preempted tasks, bounded reclamation of every exiting task, which wakes its waiters, no wake-up lost to stop and continue |
| signals | `Signals`, `SignalDelivery` | the pending flag is exact over all runs, raised signals are delivered lowest first, handlers do not nest, signal 9 cannot be taken over, exactly when a dispatch faults |
| pages | `PageBitmap`, `AddressSpace`, `AreaPages`, `ExitPaging`, `TaskPaging` | allocators refine naive scans; two-level tables are a flat map per address space; every base page in use is always the kernel's, a task's directory, a table that one leads to, or lost; mapping and evicting an area restores translations, frames and base pages; exactly which page tables come back, also at the end of a task, and which are lost |
| files | `MemFile` | the block list refines a flat byte string with allocation failing anywhere; exactly which writes and truncates keep that |
| paths | `PathNames` | canonicalisation is a component stack, idempotent, and inverse to splitting |

State that the C code updates in place is a class whose methods follow the C functions, loops included.  Each method
is proved equal to a function on values (`HeapOrder.Attach`, `SchedulerSteps.After`, `Signals.Dispatch`,
`VirtqueueSteps.Next`, ...) or to a direct statement, and the theorems are about those.  Ghost fields (the chunk map, the
level order of the tree, the abstract queue) say what the pointers and rings stand for.

Hardware, the allocator behind a file, the device behind a queue and the clock are parameters or separate steps: the
supply of blocks may end at any point, the device may fetch and return in any order that section 2.4 of VIRTIO 1.0
allows, and `jiffies` is an argument.

Where a claim one would expect is false of the code, the code is kept, a member gives an input on which it fails, and
the exact condition is proved:

| expected | fails on | holds exactly |
|---|---|---|
| deleting a timer keeps the heap ordered | `CancelCanDelayTimer` | `DeleteKeepsOrderIff` |
| `free` finds the header of what was allocated | `WideAlignmentLosesHeader` | `AlignmentsThatFit`, `FreeFindsHeader` |
| a dispatch never fails an assertion | `NullHandlerFaults`, `StoppedExitFaults` | `DispatchFaultsIff` |
| evicting an area gives back its page tables | `LazyAreaLosesTable` | `EvictVma` |
| the end of a task gives back its base pages | `LazyAreaLosesTable` | `NothingLeftIff` |
| free chunks are joined with their neighbours | `FreedHeapStaysSplit` | `ReleaseCoalescesIff` |
| a write keeps the file consistent | `HoleBreaksPacking` | `WriteFile` |
| a truncate keeps the file consistent | `GrowingLosesBytes` | `TruncateKeepsIff` |
| one directory has one canonical name | `RootHasTwoNames` | `SameNameIff` |

Where code and comments differ, the model follows the code: `delete_heap_node` only sifts down; `userspace_evict_vma`
is said to reclaim unused page tables but skips one whose last page in the area is absent; a failed truncate returns
an error but leaves the blocks it got; `canonicalize_path_name` ignores what stands before the first slash.  Two writes
in the C code go through a null pointer (`__free` of a null split rest, the missing sibling in `swap_nodes`); in the
model they do not happen.

## Model

| member | source | states |
|---|---|---|
| `ChunkMap.WalkMeetsEveryChunk` | memory/malloc.c:24-30 | stepping by chunk sizes from any chunk meets every later chunk exactly once, in address order, and ends at the heap top |
| `ChunkMap.WalkConservesBytes` | memory/malloc.c:24-30 | the sizes met on the walk add up to all bytes up to the heap top: none is lost or counted twice |
| `ChunkMap.ReleaseKeepsTiled` | memory/malloc.c:150-170 | freeing a chunk, with or without a merge, leaves chunks that tile the heap |
| `ChunkMap.CarveKeepsTiled` | memory/malloc.c:62-121 | allocating in a free chunk, with or without a split, leaves chunks that tile the heap |
| `ChunkMap.CarveGivesRegion` | memory/malloc.c:85-121 | the user region is aligned, inside its chunk, clear of every other chunk and header, and every other live chunk is untouched |
| `ChunkMap.FitsIffRoom` | memory/malloc.c:62-84 | a free chunk fits a request if and only if behind its two headers there is room for the length at some aligned address |
| `ChunkMap.CarveSplitsIff` | memory/malloc.c:96-121 | an allocation keeps what it needs and at most the size of its two headers more; the rest is split off if and only if it exceeds that size, as a free chunk up to the old end or, joined with a free successor, up to that one's; no other chunk changes |
| `ChunkMap.ReleaseFreesOne` | memory/malloc.c:150-170 | a release frees the chunk, takes in a free successor, and touches no other chunk |
| `ChunkMap.ReleaseCoalescesIff` | memory/malloc.c:158-167 | a heap without free neighbours stays so after a release if and only if the chunk in front of the released one is in use |
| `ChunkMap.CarveKeepsCoalesced` | memory/malloc.c:62-121 | an allocation, split or not, never makes two free chunks neighbours |
| `RecycleBins.LengthToBinIndex` | memory/include/malloc.h:58-68 | the loop computes the one bin whose size class holds the length |
| `RecycleBins.BinIndexOrder` | memory/include/malloc.h:58-68 | bin indices are unique and ordered: everything in a later bin is longer |
| `RecycleBins.UnlinkKeepsBins` | memory/malloc.c:86-95 | unlinking a chunk keeps all thirteen doubly linked lists well formed, ascending, disjoint and complete for the remaining free chunks |
| `RecycleBins.InsertKeepsBins` | memory/malloc.c:171-192 | linking a chunk into its slot keeps all thirteen lists well formed, ascending, disjoint and complete |
| `KernelHeap.AlignmentsThatFit` | memory/include/malloc.h:38-56 | the paddings of all heap addresses fit their 16-bit field if and only if the alignment is at most 65536, and a wider one fails already in the first chunk of a fresh heap |
| `KernelHeap.WideAlignmentLosesHeader` | memory/malloc.c:193-206 | on a fresh heap an allocation aligned to 128 KB for which `free` computes a header 64 KB off |
| `KernelHeap.FreedHeapStaysSplit` | memory/malloc.c:150-192 | two allocations on a fresh heap, freed in order: all is free, in two chunks, and a request that the fresh heap would meet returns null |
| `KernelHeap.NothingFits` | memory/malloc.c:125-148 | if the walk from the request's bin upward finds nothing, no free chunk anywhere fits |
| `KernelHeap.FirstFitIsBestFit` | memory/malloc.c:125-148 | the first chunk that fits on the walk is a smallest one among all free chunks that fit |
| `KernelHeap.Heap.constructor` | memory/malloc.c:332-350 | the heap starts as one free chunk in the last bin, with the full invariant |
| `KernelHeap.Heap.MallocChunk` | memory/malloc.c:32-123 | allocates in the chunk if and only if length, headers and its own padding fit, carves exactly that, and keeps headers, bins and tiling in agreement; otherwise changes nothing; what is kept and what is split off is stated by `CarveSplitsIff` |
| `KernelHeap.Heap.MallocAlign` | memory/malloc.c:125-148 | null exactly if nothing fits in a plain scan; otherwise a best fit is carved at the aligned address, and the invariant holds |
| `KernelHeap.Heap.ReleaseChunk` | memory/malloc.c:150-192 | a used chunk becomes free, merged with a free successor, filed in the right place of the right bin |
| `KernelHeap.Heap.FreeFindsHeader` | memory/malloc.c:193-206 | the header computed from a user pointer is the chunk's if and only if the padding fits 16 bits |
| `KernelHeap.Heap.Free` | memory/malloc.c:193-206 | a live pointer is released; a freed one changes nothing; everything freed stays recognisably freed, also after merges |
| `KernelHeap.Heap.FreeTask` | kernel/task.c:226-234 | freeing the kernel stack twice during task reclamation has the effect of freeing three chunks once each |
| `HeapOrder.AttachAdds` | lib/heap_sort.c:132-187 | attaching adds exactly one entry |
| `HeapOrder.AttachKeepsOrder` | lib/heap_sort.c:132-187 | attaching to an ordered heap gives an ordered heap |
| `HeapOrder.DetachKeepsOrder` | lib/heap_sort.c:224-272 | taking out the root of an ordered heap gives an ordered heap |
| `HeapOrder.RootIsLeast` | lib/heap_sort.c:224-272 | the root has a least key |
| `HeapOrder.DrainSorts` | lib/heap_sort.c:224-272 | detaching until empty yields all entries in nondecreasing key order |
| `HeapOrder.DeleteRemoves` | lib/heap_sort.c:274-337 | deleting any node removes exactly that entry |
| `HeapOrder.DeleteKeepsOrderIff` | lib/heap_sort.c:274-337 | deletion keeps the order if and only if the node is the root or the last node's key is not below its parent's |
| `HeapOrder.CancelCanDelayTimer` | kernel/timer.c:38-47 | in the heap that seven registrations build, cancelling one timer leaves another one unfired at its time |
| `HeapOrder.FireDueExact` | kernel/timer.c:48-67 | a tick fires exactly the entries due, each as often as present, earliest first, and leaves an ordered heap of later ones |
| `HeapOrder.RunsAccount` | kernel/timer.c:27-67 | over every run of registrations and ticks no timer is lost, fired twice, early or late: after every tick nothing that is due is still waiting |
| `TimerHeap.Heap.SearchLastNode` | lib/heap_sort.c:12-40 | the breadth-first search finds the last node in level order |
| `TimerHeap.Heap.SearchLastParent` | lib/heap_sort.c:46-80 | the breadth-first search finds the parent of the one open slot |
| `TimerHeap.Heap.SwapNodes` | lib/heap_sort.c:82-129 | rewiring all neighbour pointers exchanges a node and its child in level order and leaves a well-linked complete tree |
| `TimerHeap.Heap.AdjustHeapNode` | lib/heap_sort.c:189-223 | the pointer loop is sift-down on the level order |
| `TimerHeap.Heap.AttachHeapNode` | lib/heap_sort.c:132-187 | the tree stays complete and its contents become those of `HeapOrder.Attach` |
| `TimerHeap.Heap.DetachHeapNode` | lib/heap_sort.c:224-272 | the root comes out unlinked, the tree stays complete, contents become those of `HeapOrder.Detach`; null exactly on the empty heap |
| `TimerHeap.Heap.DeleteHeapNode` | lib/heap_sort.c:274-337 | a node of the tree is removed, one of no tree changes nothing; either way it ends unlinked and the tree complete |
| `Timers.TimerQueue.RegisterTimer` | kernel/timer.c:27-36 | exactly this timer joins, and the order is kept |
| `Timers.TimerQueue.CancelTimer` | kernel/timer.c:38-47 | the timer leaves, also if it had fired already; the order survives under the exact condition of deletion |
| `Timers.TimerQueue.ScheduleTimer` | kernel/timer.c:48-67 | terminates, fires what `FireDue` says in that order, keeps the order, and leaves every fired timer unlinked, ready to be registered or cancelled |
| `ByteRing.Ring.Write` | lib/include/ring.h:39-54 | appends as many bytes as fit, in order |
| `ByteRing.Ring.Read` | lib/include/ring.h:56-72 | delivers the oldest bytes, as many as asked for and present, and keeps the rest |
| `VirtqueueSteps.EachDescriptorInOnePlace` | network/virtio_net.c:213-300 | over every interleaving of driver and device steps each descriptor is in exactly one of free ring, staged, published, device-held, used-not-reclaimed |
| `VirtqueueSteps.NothingUnreadIsOverwritten` | network/virtio_net.c:232-252 | no step overwrites an available entry the device has not fetched or a used entry the driver has not reclaimed |
| `VirtqueueSteps.DeliveredAtMostOnce` | network/virtio_net.c:275-297 | over every run each accepted buffer is handed back at most once and is in flight exactly until then |
| `VirtqueueSteps.ReclaimDelivers` | network/virtio_net.c:275-297 | what is handed back was sent, has been returned by the device, and carries the pointer it was sent with |
| `VirtqueueSteps.NextKeepsInv` | network/virtio_net.c:213-300 | every step of driver or device keeps the queue invariant and only extends the history |
| `VirtqueueSteps.IndexFindsSlot` | network/virtio_net.c:243-252 | a wrapped 16-bit index finds the slot of the unbounded count, because the queue size divides 65536 |
| `VirtqueueSteps.IndicesCompare` | network/virtio_net.c:275-280 | equality of wrapped indices means nothing is left, on both rings, after any number of wrap-arounds |
| `VirtioNet.DecodeEncode` | network/virtio_net.c:232-238 | a descriptor number survives its two bytes in the free ring |
| `VirtioNet.Virtqueue.constructor` | network/virtio_net.c:157-176 | setup gives the initial state: empty rings, all descriptors free, as two-byte numbers in the byte ring |
| `VirtioNet.Virtqueue.RawSend` | network/virtio_net.c:212-257 | accepts as many buffers as there are free descriptors, as that many stage steps and one publish, interleaved with whatever the device does meanwhile; the two-byte reads never come up short |
| `VirtioNet.Virtqueue.RawReceive` | network/virtio_net.c:259-300 | reclaims returned descriptors oldest first, also those the device returns meanwhile, until the limit is reached or none is left, with the pointers of their buffers; the two-byte writes always find room |
| `VirtioNet.Virtqueue.SupplyPackets` | network/virtio_net.c:349-395 | takes from the pool exactly as many packets as the queue accepts, so none is lost |
| `TaskState.StopsLoseNoWakeUp` | kernel/task_signal.c:134-157 | under any mix of wakes, stops and continues the effective state is the one with the stops and continues erased |
| `TaskState.WokenAndContinuedRuns` | kernel/task.c:98-122 | a task woken at any time and continued last is running |
| `TaskState.ContinueRestores` | kernel/task_signal.c:134-148 | a continue brings back the effective state; a stop always ends stopped and keeps it |
| `TaskState.StopsLeaveNoTrace` | kernel/task_signal.c:134-157 | after any mix of wakes, stops and continues, a last continue gives the state that the wakes alone would have led to, and a last stop gives a stopped task |
| `SchedulerSteps.AfterKeepsInv` | kernel/task.c:281-342 | every call of `schedule` keeps the queue invariant |
| `SchedulerSteps.IdleIffNobodyRuns` | kernel/task.c:316-336 | the idle task is picked if and only if no other enqueued task was running on entry |
| `SchedulerRuns.RunsStayInOrder` | kernel/task.c:236-342 | over all runs each live task is in exactly one of current, ready, blocking, exit; no zombies; the exit list holds only exiting tasks; nobody is reclaimed twice or while live |
| `SchedulerRuns.BoundedWait` | kernel/task.c:281-342 | a task that stays running at place k becomes current within k + 1 calls, whatever the others do |
| `SchedulerRuns.BoundedWaitWoken` | kernel/task.c:236-342 | a task woken on the blocking list that stays running becomes current, whatever the others do, within r + b + 1 calls, r being the length of the ready list at the next call and b that of the blocking list |
| `SchedulerRuns.BoundedReturn` | kernel/task.c:281-342 | a current task that stays running is current again within one call more than tasks are ready |
| `SchedulerRuns.SleepWaits` | kernel/task_misc.c:523-549 | a task that waits for another one to terminate is asleep and among its waiters |
| `SchedulerRuns.ReclaimWakes` | kernel/task.c:264-275 | when a task is reclaimed, everyone who waits for it runs, or, stopped, will run when continued; tasks that wait for none of the reclaimed ones are untouched |
| `SchedulerRuns.BoundedReclaim` | kernel/task.c:264-342 | every exiting task is reclaimed, whatever the others do: within 1 call from the exit list, k + 2 from place k of the ready list, and n + 2 while it is still current, n being the length of the ready list at the next call |
| `SchedulerRuns.ExitIsReclaimed` | kernel/task_signal.c:267-270 | a task that exits is reclaimed within two calls more than tasks are ready at the next call of `schedule` |
| `Scheduler.KernelScheduler.WakeUpAll` | kernel/wait_queue.c:44-55 | every task in the queue is woken, nobody else changes, and the forbidden branch of the wake-up is not reached |
| `Scheduler.KernelScheduler.ProcessBlockingTaskList` | kernel/task.c:236-263 | the in-place list surgery partitions the blocking list by state, keeping the order |
| `Scheduler.KernelScheduler.ProcessExitTaskList` | kernel/task.c:264-275 | every exiting task wakes its waiters and is reclaimed once |
| `Scheduler.KernelScheduler.PickNext` | kernel/task.c:297-320 | takes the first running task of the ready list and sends those before it to the queues of their states |
| `Scheduler.KernelScheduler.Schedule` | kernel/task.c:281-342 | the code computes the step that the theorems about runs, waiting and reclamation are about |
| `Signals.SignalRuns` | kernel/task_signal.c:57-314 | over all runs the pending flag is set exactly if an entry is signaled, only exit, ignore or user entries ever are, and handlers never nest |
| `Signals.DispatchTakesLowest` | kernel/task_signal.c:227-289 | a dispatch clears the lowest signaled entry and no other, and leaves the flag exact |
| `Signals.DispatchFaultsIff` | kernel/task_signal.c:227-289 | a dispatch hits an assertion if and only if the task is neither running nor stopped, or the lowest pending signal exits a stopped task or has a null user handler |
| `Signals.DispatchActs` | kernel/task_signal.c:176-289 | for a running task a dispatch does what the action of the lowest raised signal says, reports that signal and its handler, and enters a handler or exits the task only then |
| `Signals.SignalMeans` | kernel/task_signal.c:124-159 | an invalid signal changes nothing; an exit, ignore or user signal marks its own entry alone, sets the flag and wakes the task, which if stopped stays so and will run; a stop hides the state, a continue brings it back, and neither touches the table |
| `Signals.OverrideMeans` | kernel/task_signal.c:291-314 | succeeds if and only if the number is in range and its entry valid and overridable; changes that entry alone, and nothing otherwise |
| `Signals.OverriddenHandlerRuns` | kernel/task_signal.c:176-314 | a handler set for a signal is the one a dispatch enters when the signal is raised and no lower one is pending |
| `Signals.KillAlwaysExits` | kernel/task_signal.c:57-314 | after every run, whatever was overridden, signal 9 raised for a running task outside a handler exits it at the next dispatch unless a lower signal is pending |
| `Signals.RaisedIsDelivered` | kernel/task_signal.c:124-289 | a valid exit, ignore or user signal raised for a running task is delivered by draining, unless a lower one exits the task before |
| `Signals.NullHandlerFaults` | kernel/task_signal.c:227-289 | a run from the initial table that faults: a signal overridden with a null handler, then raised |
| `Signals.StoppedExitFaults` | kernel/task_signal.c:227-289 | a run from the initial table that faults: the task stops itself and an exiting signal is raised |
| `Signals.DispatchIdlesIff` | kernel/task_signal.c:227-240 | a dispatch does nothing if and only if the task is running or stopped and a handler is active or nothing is pending |
| `Signals.DrainsInOrder` | kernel/task_signal.c:227-289 | pending signals drain lowest number first, each once, up to one that exits the task |
| `SignalDelivery.TaskSignals.constructor` | kernel/task_signal.c:57-121 | the initial table satisfies the invariant |
| `SignalDelivery.TaskSignals.SignalTask` | kernel/task_signal.c:124-159 | raising by table updates in place is the step of `SignalMeans`, with its error cases |
| `SignalDelivery.TaskSignals.CallSysSignal` | kernel/task_signal.c:291-314 | overriding an action in place is the step of `OverrideMeans`, with its error cases |
| `SignalDelivery.TaskSignals.TaskProcessSignal` | kernel/task_signal.c:227-289 | the table loops are the specified dispatch, and keep the invariant |
| `SignalDelivery.TaskSignals.ReturnFromHandler` | kernel/task_signal.c:161-174 | before the return a dispatch changes nothing, after it the next one acts if and only if a signal is pending |
| `PageBitmap.Bitmap.Occupy` | memory/include/paging.h:71-93 | sets exactly one bit of the bitmap |
| `PageBitmap.Bitmap.Release` | memory/include/paging.h:71-93 | clears exactly one bit of the bitmap |
| `PageBitmap.PageFrames.GetPages` | memory/paging.c:211-243 | despite skipping ahead, the lowest run of n free pages that ends strictly below the boundary is found and exactly it is marked; 0 means there is none |
| `PageBitmap.PageFrames.GetPageFast` | memory/paging.c:249-267 | the first free page from the cursor on, or from the start if the cursor is out of range; 0 means there is none |
| `PageBitmap.PageFrames.GetPage` | memory/paging.c:269-276 | 0 if and only if no page in range is free; otherwise a page that was free and is now marked |
| `PageBitmap.PageFrames.FreePages` | memory/paging.c:278-285 | clears exactly these pages |
| `PageBitmap.BasePages.GetBasePage` | memory/paging.c:80-138 | 0 if and only if all base pages are taken; otherwise exactly one free base page becomes taken |
| `PageBitmap.BasePages.FreeBasePage` | memory/paging.c:139-159 | exactly the page of the address is given back; addresses outside the range change nothing |
| `AddressSpace.Entry` | memory/paging.c:34-54 | the packed word is present and decodes to the frame of the address and the given flags |
| `AddressSpace.FlagBits` | memory/include/paging.h:27-39 | each permission can be read off its own bit of the word |
| `AddressSpace.PutInTable` | kernel/task_paging.c:144-152 | a write to a page table changes the translation of one page of one address space and no other |
| `AddressSpace.LinkTable` | kernel/task_paging.c:126-142 | linking a cleared base page as table changes no translation of any space, keeps tables unshared and counts the page as in use |
| `AddressSpace.UnlinkTable` | kernel/task_paging.c:162-191 | unlinking a table without present entries changes no translation of any space and makes its page one that is no longer in use |
| `AddressSpace.NewSpace` | kernel/elf.c:373-379 | a cleared base page is a further address space with nothing mapped |
| `TaskPaging.Mmu.NewDirectory` | kernel/elf.c:373-379 | a new space is disjoint from all others; it fails exactly if base pages run out |
| `TaskPaging.Mmu.MapPage` | kernel/task_paging.c:106-157 | maps one page of one space, with its permissions, and nothing else; takes a base page exactly if the table is missing; fails exactly below user space, or without a base page for a missing table, and then changes nothing |
| `TaskPaging.Mmu.ReclaimPageTable` | kernel/task_paging.c:162-191 | the table is unlinked and its base page freed if and only if no page under its directory word is mapped; no translation of any space changes |
| `TaskPaging.Mmu.EvictPage` | kernel/task_paging.c:199-238 | unmaps one page of one space, frees its frame unless the area is exact, and unlinks and frees the table exactly if asked and empty; otherwise changes nothing |
| `TaskPaging.Mmu.EvictVma` | kernel/task_paging.c:246-266 | exactly the area's pages are unmapped, exactly their own frames become free, and the base page of a table becomes free if and only if the area alone used the table and the area's last page in it was mapped |
| `AreaPages.TableCanStay` | kernel/task_paging.c:225-228 | in any space in which just the first page of a two-page area is mapped, evicting the area leaves its page table linked and empty |
| `AreaPages.SearchFirst` | kernel/userspace_vma.c:22-37 | the area found for an address is the first one in the list that covers it |
| `TaskPaging.Mmu.MapVmArea` | kernel/task_paging.c:50-104 | a prefix of the area is mapped, each page with the writable, user, write-through and cache bits its area asks for, to distinct frames that were free or to the exact frames, the missing tables in base pages that were free; nothing else changes; a short prefix has one of three reasons and leaks no frame or base page |
| `AreaPages.MapThenEvict` | kernel/task_paging.c:246-266 | evicting an area that was mapped, wholly or in part, restores the translations of every space and the set of free frames |
| `AreaPages.MapThenEvictTables` | kernel/task_paging.c:246-266 | after an area mapped wholly is evicted, every directory word leads where it led before, except to tables under the area that were empty |
| `AreaPages.MapThenEvictPages` | kernel/task_paging.c:246-266 | then the base pages in use are those from before if and only if no table under the area was linked but empty |
| `ExitPaging.NothingLeftIff` | kernel/task.c:361-372 | evicting all areas in turn leaves no table linked if and only if for each table some area finds its own last page there still mapped and is the last one with a mapped page there |
| `ExitPaging.WholeAreasLeaveNothing` | kernel/task.c:361-372 | a task whose areas are disjoint and wholly mapped, and that has no empty table, loses no base page |
| `TaskPaging.Mmu.ReclaimSpace` | kernel/task.c:361-372 | the end of a task frees exactly the frames its areas own and its directory; of its tables exactly those stay in use, lost to everybody, that no area gave back; no other space changes |
| `TaskPaging.Mmu.DropDirectory` | kernel/task.c:369-371 | the directory's page comes back, the tables it still leads to do not |
| `TaskPaging.LazyAreaLosesTable` | kernel/task.c:361-372 | a run that loses a base page: map one page of a two-page area, evict the area, drop the directory; it happens whenever two base pages are free |
| `MemFile.PutSplices` | filesystem/memfs_blocking.c:144-156 | a copy into one block is a splice into the flat string |
| `MemFile.BlockFile.WriteSequential` | filesystem/memfs_blocking.c:37-89 | appends exactly as many bytes as blocks and supply have room for |
| `MemFile.BlockFile.WriteRandom` | filesystem/memfs_blocking.c:96-174 | the list stays consistent if and only if the offset is inside the file or behind full blocks with room for the hole; then as many bytes as fit land at the offset and no other byte changes |
| `MemFile.BlockFile.WriteFile` | filesystem/memfs.c:25-43 | the same, with the header's size |
| `MemFile.BlockFile.Read` | filesystem/memfs_blocking.c:176-218 | the slice of the flat string, for every block list |
| `MemFile.ReadsBack` | filesystem/memfs.c:14-43 | what a write put there is read back, and every other range reads as before |
| `MemFile.BlockFile.Truncate` | filesystem/memfs_blocking.c:224-287 | the three loops compute the specified block list and result |
| `MemFile.BlockFile.TruncateFile` | filesystem/memfs.c:65-77 | to at most the size: the prefix; beyond it: the exact condition for a consistent file; success exactly if blocks suffice |
| `MemFile.TruncateKeepsIff` | filesystem/memfs_blocking.c:224-287 | which truncates keep a consistent file, as an if and only if, including failed ones |
| `MemFile.ExtensionPacksIff` | filesystem/memfs_blocking.c:126-139 | extending keeps the list packed if and only if the last block was full or nothing was appended |
| `MemFile.ExtensionAdds` | filesystem/memfs_blocking.c:252-266 | extending keeps the old bytes in front and adds as many as the supply gives |
| `MemFile.HoleBreaksPacking` | filesystem/memfs_blocking.c:126-139 | a concrete hole that leaves a partly filled block in the middle |
| `MemFile.GrowingLosesBytes` | filesystem/memfs_blocking.c:235-266 | a concrete truncate after which the header says 5000 bytes and the blocks hold 917 |
| `PathNames.CanonicalizePathName` | filesystem/vfs.c:73-141 | refuses exactly the names with a blank; otherwise the position stack and copy loops write the canonical name |
| `PathNames.Scan` | filesystem/vfs.c:84-123 | the stack of word positions is that of the name's components, with the root special case |
| `PathNames.StackLaws` | filesystem/vfs.c:97-119 | for every name: an ordinary component is appended, ".." takes the last one away or does nothing at the root, "." and empty components change nothing |
| `PathNames.CanonLaws` | filesystem/vfs.c:73-141 | the same on canonical names, with the names "" and "/" that the root gets |
| `PathNames.CanonKeepsStack` | filesystem/vfs.c:73-141 | the canonical name stands for the same component stack, and splitting it gives exactly that stack |
| `PathNames.CanonIdempotent` | filesystem/vfs.c:73-141 | canonicalising twice is canonicalising once |
| `PathNames.SameNameIff` | filesystem/vfs.c:99-107 | two names have one canonical name if and only if their stacks agree and, at the root, their final slashes do |
| `PathNames.RootHasTwoNames` | filesystem/vfs.c:99-107 | entering a directory and leaving it gives the root under the names "" and "/" |
| `PathNames.SplitPath` | filesystem/vfs.c:33-57 | in place, the returned positions hold exactly the non-empty parts, in order, as C strings |

## Left out

- `KernelHeap.Heap.MallocAlign`: lengths are not negative and do not overflow 32 bits; alignments are powers of two, as the code asserts.
- `KernelHeap.Heap.Free`: a pointer that was neither handed out nor freed, for which the code's magic-number assertion stops the kernel.
- `PageBitmap.PageFrames.GetPages`: 32-bit overflow of addresses near 4 GB, and negative page counts.
- `Timers.TimerQueue.ScheduleTimer`: callbacks that register or cancel timers while a tick is being handled.
- `VirtioNet.Virtqueue.RawSend`: memory barriers and the notification port; the device acts between the turns of the driver's loops, not inside one.
- `SignalDelivery.TaskSignals.SignalTask`: signals to a task that is exiting, for which waking it up runs into the branch that is not to be reached.
- `TaskPaging.Mmu.EvictVma`: areas are compared as values, not as addresses of records, and start at a page boundary below 4 GB.
- `MemFile.BlockFile.WriteFile`: files whose header could not be allocated, which every operation refuses, and negative sizes.
- `PathNames.CanonicalizePathName`: names without a terminator in their first 256 characters, and the size of the destination buffer.
- Saved CPU frames and stack switching around signal handlers; only the `signal_scheduled` flag is kept.
- `TaskPaging.Mmu.constructor`: what the base pages in use before the first task hold; the kernel's own directory and tables are a set of pages here.
- Copying a task's directory words into the kernel directory, page faults, `kernel_map_page` and `paging_init`: single-table versions of what is modelled, and hardware setup.
- `userspace_remap_vm_area`, `extend_vm_area`, `memory/kernel_vma.c`: small scans; the overlap test of `extend_vm_area` misses an area that lies inside the extension.
- `network/net_packet.c`: pool and bounds arithmetic that would only add easy members; a pool is a sequence of packets here.
- `lib/list.c`, `lib/hash_table.c`: queues, bins of tasks and tables are sequences and maps; only the recycle bins and the timer tree are modelled with their links.
- `lib/generic_tree.c` and the file hierarchy, mount lookup, devfs, zeldafs: tree bookkeeping and simple scans.
- ELF loading, system calls, the shell, TinyVM and the runtime library.
- Port I/O, PCI, ATA, serial, timers of the hardware, interrupt stubs, descriptor tables and inline assembly.
