# Verified models of the course kernel and its page replacement simulator

The repository holds the exercises of an operating systems course: the ucore kernel with its
schedulers, synchronisation primitives, memory managers and the Simple File System, and small
simulators beside it. This project models its most intricate algorithms in Dafny and proves what they
are for. `dafny verify dfyconfig.toml` checks everything.

**Page replacement** (`PageReplacement`, `LruStack`, `OptOptimal`). The simulator's access loop with FIFO,
LRU and OPT. OPT is optimal against every schedule in the same frames, even one that may load pages
ahead of time; LRU is a stack algorithm, its hits are exactly the short stack distances, and more frames
never hurt it; FIFO has Belady's anomaly.

**Semaphores, the Hoare monitor and the dining philosophers** (`Semaphores`, `Monitors`, `Table`,
`PhilosophersSema`, `SemaProgress`, `PhilosophersMonitor`, `MonitorProgress`). Protocols as step machines
with program counters: any number of threads, any interleaving. Proved for every run: the monitor's
single permit, its exact counters, Hoare's hand-over, and for both philosopher programs and any number of
them exclusion, no overlooked hungry philosopher, freedom from deadlock, and that every run can go on
until any given philosopher eats, or until all have finished.

**Scheduling** (`Strides`, `SkewHeap`, `SkewCost`, `RunQueue`, `TimerQueue`, `TimerList`). The 32-bit
comparison of strides that wrap around, the pointer-based skew heap with parent links and removal of any
node and its logarithmic cost on average, the run queue on it, turns in proportion to priorities over
every run, and the delta-encoded timer list as a set of absolute due times.

**Simple File System** (`SfsBlocks`, `SfsVolume`, `SfsFlat`, `SfsFile`). A volume of blocks with a free map,
direct and indirect block maps. Every block in use has one owner; reading, writing, truncating and
reclaiming refine flat files, also when the volume fills up half way.

**Memory** (`FreeBlocks`, `PageAllocator`, `PageTables`, `Mmu`, `MemoryAreas`). The first-fit free list is determined
by the set of free pages, so freeing undoes allocation and the order of frees does not matter. The
two-level page tables of all address spaces refine a flat page map with exact reference counts, through
mapping, unmapping and copying ranges. The lookup cache and the hopping range check of the memory areas
are exact.

**Process identifiers** (`Pids`). `get_pid` ends and gives out the first unused pid, over every sequence of
forks and reaps, and none a second time before the search has gone round the circle.

The code that changes state is modelled by classes and methods with the source's loops and branches;
each method is tied to a function or predicate on values, and the theorems are about those.

Six findings go beyond what the comments in the code promise:

- A write that starts beyond the end of a file's last block, with no room for the next one, moves no byte
  but still enlarges the file, past the end of its blocks (`SfsFile.WriteStaysExact`, `SfsFile.SizeBeyondBlocks`).
- A truncation that extends a file and finds room for the first of the blocks it needs but not for all
  keeps those it got, so the file then has more blocks than its size needs, which `sfs_truncfile`
  asserts against (`SfsFile.TruncateStaysExact`, `SfsFile.BlocksBeyondSize`).
- Comparing strides is right exactly while they are less than half a word apart
  (`Strides.CompareIsTrueOrder`); the window that the scheduler keeps is within that.
- `default_init_memmap` puts every region in front of the list. One that ends where the first free block
  begins is not joined with it, so the list is not coalesced; one above it fails the order check
  (`PageAllocator.Allocator.InitMemmap`, `PageAllocator.TouchingRegions`, `PageAllocator.RegionAbove`).
- `mm_map` looks up only the first address of a range: one that overlaps an area beginning inside it is
  not refused but trips the overlap assertion (`MemoryAreas.Mm.MmMap`, `MemoryAreas.OverlapFromBelow`).
- `mm_map` computes the end of a range modulo the word: it can accept one of almost the whole address space,
  and then maps a single page (`MemoryAreas.PagesCover`, `MemoryAreas.WrappedRange`).

## Model

| member | source | states |
|---|---|---|
| OptOptimal.OptIsOptimal | code/lab3-1-replacement.py:92-178 | OPT has never missed more often than any schedule in the same number of frames has loaded pages, after every prefix of every reference string; the rival starts empty, chooses any victims and may load pages nobody asked for |
| OptOptimal.OptBeatsDemandPaging | code/lab3-1-replacement.py:92-178 | OPT misses no more often than any demand-paging run in the same frames |
| OptOptimal.OptBeatsEveryPolicy | code/lab3-1-replacement.py:92-178 | FIFO, LRU and OPT are such runs, so OPT misses least of the three on every reference string |
| OptOptimal.AheadStep | code/lab3-1-replacement.py:109-174 | the exchange argument: at one access and for every horizon, a rival gains on OPT in pages needed by the horizon only what it pays in loads |
| OptOptimal.OptEviction | code/lab3-1-replacement.py:143-166 | when OPT evicts, either its victim is not needed by the horizon or every page it keeps is |
| LruStack.LruStackProperty | code/lab3-1-replacement.py:94-112 | the memory list with k frames is always a suffix of the list with more frames |
| LruStack.LruHoldsMostRecent | code/lab3-1-replacement.py:94-112 | with k frames LRU holds the k most recently used pages, in that order |
| LruStack.RecencyOrdered | code/lab3-1-replacement.py:98-100 | the order by recency lists every page seen so far once, ordered by the time of its last use |
| LruStack.LruMoreFramesNeverHurt | code/lab3-1-replacement.py:94-174 | no Belady anomaly: after every prefix, more frames have missed no more often |
| LruStack.LruHitIffStackDistance | code/lab3-1-replacement.py:94-112 | an access hits exactly when its page was used before and fewer than k distinct pages have been used since |
| PageReplacement.Simulate | code/lab3-1-replacement.py:91-193 | the loop computes the memory list and miss count of the specification, and hits and misses add up to the accesses |
| PageReplacement.FindFarthest | code/lab3-1-replacement.py:144-165 | the scan for the farthest next use finds the last of the pages whose next use is farthest |
| PageReplacement.Farthest | code/lab3-1-replacement.py:144-165 | no page in memory is used later than the one chosen, and those behind it in the list are used strictly earlier |
| PageReplacement.NextUse | code/lab3-1-replacement.py:152-158 | the first later reference to a page, or the length of the reference string |
| PageReplacement.MemoryShape | code/lab3-1-replacement.py:92-178 | memory never holds a page twice, never more than the frames, and always the page just accessed |
| PageReplacement.OptPushesOutFarthest | code/lab3-1-replacement.py:143-166 | on a miss in a full memory OPT pushes out the last of the pages whose next use is farthest, and keeps the others in order |
| PageReplacement.FifoHoldsLastLoaded | code/lab3-1-replacement.py:109-174 | FIFO holds the pages loaded last, one per miss, in the order of loading |
| PageReplacement.FifoBeladyAnomaly | code/lab3-1-replacement.py:109-112 | FIFO with four frames can miss more often than with three |
| Semaphores.PermitsConserved | code/lab8_result/kern/sync/sem.c:16-54 | over any run of ups and downs, value less waiters changes by ups less downs, and permits are left over only while nobody waits |
| Semaphores.WaitersServedInOrder | code/lab8_result/kern/sync/sem.c:16-54 | waiters are woken first come first served and are never overtaken by later arrivals |
| Semaphores.Semaphore.constructor | code/lab8_result/kern/sync/sem.c:10-14 | a new semaphore has the given value and no waiters |
| Semaphores.Semaphore.Up | code/lab8_result/kern/sync/sem.c:16-30 | the permit goes to the first waiter, who becomes runnable with its wake-up flag set, or else to the value |
| Semaphores.Semaphore.DownEnter | code/lab8_result/kern/sync/sem.c:32-42 | a permit is taken, or the process sleeps at the end of the queue |
| Semaphores.Semaphore.DownResume | code/lab8_result/kern/sync/sem.c:46-53 | the entry is off the queue afterwards, and 0 is returned exactly after a wake-up by up |
| Semaphores.Semaphore.TryDown | code/lab8_result/kern/sync/sem.c:67-76 | a permit is taken if there is one; the queue is untouched |
| Semaphores.Wait.constructor | code/lab8_result/kern/sync/wait.c:7-12 | a new wait entry counts as interrupted until somebody wakes it |
| Monitors.StepInv | code/lab8_result/kern/sync/monitor.c:26-72 | every statement of every thread in cond_signal, cond_wait, entry and exit keeps the invariant: one permit in all, exact counters, queues that agree with the sleepers, a taker for every permit |
| Monitors.RunInv | code/lab8_result/kern/sync/monitor.c:8-72 | the invariant holds after every interleaving from monitor_init |
| Monitors.DownStepInv | code/lab8_result/kern/sync/sem.c:32-54 | going down on mutex, next or a condition variable keeps the invariant, taking the permit or falling asleep |
| Monitors.UpStepInv | code/lab8_result/kern/sync/sem.c:16-30 | giving the permit to a sleeper or to the value keeps the invariant |
| Monitors.OneActiveThread | code/lab8_result/kern/sync/monitor.c:26-72 | mutex, next and condition variable values and active threads always add up to 1, so at most one thread is active |
| Monitors.CountersExact | code/lab8_result/kern/sync/monitor.c:40-45 | next_count and every cv.count equal the number of suspended signallers and waiters |
| Monitors.MutexWaitsForSignallers | code/lab8_result/kern/sync/monitor.c:64-70 | while a signaller is suspended the mutex is not free and nobody is about to free it |
| Monitors.PermitNeverStranded | code/lab8_result/kern/sync/monitor.c:26-72 | a permit in next or in a condition variable always has an awake thread that is about to take it |
| Monitors.SignalHandsOver | code/lab8_result/kern/sync/monitor.c:40-45 | a signal hands the permit to a waiter of that variable, and nobody else can slip in between |
| Table.NeighboursAreRemainders | code/lab8_result/kern/sync/check_sync.c:7-9 | the neighbours are the ones the macros compute with the remainder |
| Table.StartEating | code/lab8_result/kern/sync/check_sync.c:24-32 | a philosopher that passes the test can start to eat without breaking the peace |
| Table.StopEating | code/lab8_result/kern/sync/check_sync.c:43-50 | putting the forks back can let only the two neighbours eat |
| PhilosophersSema.StepInv | code/lab8_result/kern/sync/check_sync.c:24-50 | every statement of every philosopher keeps the invariant, in which the right to eat is one token |
| PhilosophersSema.RunInv | code/lab8_result/kern/sync/check_sync.c:24-70 | the invariant holds after every interleaving of n philosophers, for every n from 2 on |
| PhilosophersSema.NeighboursNeverBothEat | code/lab8_result/kern/sync/check_sync.c:34-50 | two neighbours are never both EATING and never both have their forks |
| PhilosophersSema.NoHungryOverlooked | code/lab8_result/kern/sync/check_sync.c:34-50 | whenever the mutex is free, no hungry philosopher has both neighbours not eating |
| PhilosophersSema.NeverDeadlocked | code/lab8_result/kern/sync/check_sync.c:52-70 | if every philosopher is asleep or has quit, every one has quit |
| SemaProgress.CanAlwaysEat | code/lab8_result/kern/sync/check_sync.c:34-70 | from every state of every run any philosopher that has not quit can still get its forks and eat |
| SemaProgress.CanAlwaysEnd | code/lab8_result/kern/sync/check_sync.c:52-70 | from every state of every run all philosophers can finish |
| SemaProgress.Settle | code/lab8_result/kern/sync/check_sync.c:24-50 | whoever is inside leaves, one after the other, until the mutex is free |
| PhilosophersMonitor.StepInv | code/lab8_result/kern/sync/check_sync.c:110-159 | the same for the version with condition variables, on top of the monitor invariant |
| PhilosophersMonitor.RunInv | code/lab8_result/kern/sync/check_sync.c:110-180 | the invariant holds after every interleaving of n philosophers, for every n from 2 on |
| PhilosophersMonitor.StepIsMonitorStep | code/lab8_result/kern/sync/check_sync.c:110-159 | every step of the program is a step of the monitor or leaves it alone |
| PhilosophersMonitor.NeighboursNeverBothEat | code/lab8_result/kern/sync/check_sync.c:121-159 | two neighbours are never both EATING and never both away with their forks |
| PhilosophersMonitor.NoHungryOverlooked | code/lab8_result/kern/sync/check_sync.c:121-159 | whenever the mutex is free, no hungry philosopher has both neighbours not eating |
| PhilosophersMonitor.SignalNeverLost | code/lab8_result/kern/sync/check_sync.c:110-118 | a neighbour that signals finds the count of the condition variable at exactly 1 and the state at EATING |
| PhilosophersMonitor.WaitsAtMostOnce | code/lab8_result/kern/sync/check_sync.c:131-134 | the body of the wait loop runs at most once per take, and who comes back from it may eat |
| PhilosophersMonitor.NeverDeadlocked | code/lab8_result/kern/sync/check_sync.c:162-180 | if every philosopher is asleep or has quit, every one has quit |
| MonitorProgress.CanAlwaysEat | code/lab8_result/kern/sync/check_sync.c:110-180 | from every state of every run any philosopher that has not quit can still leave the monitor with its forks and eat |
| MonitorProgress.CanAlwaysEnd | code/lab8_result/kern/sync/check_sync.c:162-180 | from every state of every run all philosophers can finish |
| MonitorProgress.StepAdvances | code/lab8_result/kern/sync/check_sync.c:110-159 | every statement in the monitor, and every permit taken over, brings one philosopher closer to the way out and none further from it |
| Strides.CompareIsTrueOrder | code/lab8_result/kern/schedule/default_sched.c:15-24 | for strides less than one lap apart, the comparison of the stored words gives the true order if and only if the difference fits an int32_t |
| Strides.WindowIsWidest | code/lab8_result/kern/schedule/default_sched.c:8-24 | within BIG_STRIDE the comparison gives the true order, and one beyond it does not |
| Strides.PickKeepsWindow | code/lab8_result/kern/schedule/default_sched.c:130-132 | advancing a smallest stride by its pass keeps all true strides within BIG_STRIDE of each other |
| Strides.WindowForever | code/lab8_result/kern/schedule/default_sched.c:108-134 | the window holds over every run of picks |
| Strides.AheadByOnePass | code/lab8_result/kern/schedule/default_sched.c:108-134 | from equal strides, the picked service of a process is ahead of another by at most its own pass, over every run |
| Strides.FairShare | code/lab8_result/kern/schedule/default_sched.c:108-134 | proportional fairness: picks times pass differs between any two processes by at most one pass, so by at most BIG_STRIDE |
| Strides.WrapSum | code/lab8_result/kern/schedule/default_sched.c:130-132 | the stride stored in 32 bits is the true stride modulo the word after every addition |
| Strides.PassMeaning | code/lab8_result/kern/schedule/default_sched.c:130-132 | a pass is BIG_STRIDE for priorities 0 and 1, and BIG_STRIDE divided by the priority, rounded down, for any other |
| Strides.FairTurns | code/lab8_result/kern/schedule/default_sched.c:108-134 | turns whose weighted service differs by at most one pass are in proportion to the priorities, up to one turn and the rounding; of two processes the one of higher priority is at most one turn behind |
| SkewHeap.Merge | code/lab8_result/libs/skew_heap.h:29-59 | the pointers become the merged tree, with parent links, and the root is returned; the root keeps its parent; as many pairs of nodes are compared as the tree says |
| SkewHeap.Insert | code/lab8_result/libs/skew_heap.h:61-67 | the pointers become the tree with the node merged in, and the root has no parent |
| SkewHeap.Remove | code/lab8_result/libs/skew_heap.h:69-85 | removing any node leaves the pointers as the tree with that node replaced by the merge of its subtrees |
| SkewHeap.Relinked | code/lab8_result/libs/skew_heap.h:73-84 | hanging the merged subtree under the parent, and nothing else, gives exactly the tree without the node |
| SkewHeap.ParentLinks | code/lab8_result/libs/skew_heap.h:73-83 | the parent pointer of every node below the root leads to the node that has it as a child |
| SkewHeap.MergeProcs | code/lab8_result/libs/skew_heap.h:29-59 | merging keeps exactly the processes of both heaps, each once |
| SkewCost.MergeCost | code/lab8_result/libs/skew_heap.h:29-59 | swapping the children pays for a merge: its comparisons are at most the loss of potential and twice the light nodes on the two right paths |
| SkewCost.LogarithmicOnAverage | code/lab8_result/libs/skew_heap.h:29-85 | over any run of insertions and root removals on a heap that stays below 2^k processes an operation compares 4 k + 2 pairs of nodes on average at most |
| RunQueue.MergeOrdered | code/lab8_result/libs/skew_heap.h:29-59 | merging two ordered heaps with all strides in one window gives an ordered heap |
| RunQueue.RemoveOrdered | code/lab8_result/libs/skew_heap.h:69-85 | removing a node keeps heap order, and removing the root repairs an order that is broken only there |
| RunQueue.MergeContents | code/lab8_result/libs/skew_heap.h:29-59 | merging keeps every process with its stride |
| RunQueue.RemoveContents | code/lab8_result/libs/skew_heap.h:69-85 | removing takes out one process and keeps the others with their strides |
| RunQueue.RootSmallest | code/lab8_result/libs/skew_heap.h:29-59 | the root of an ordered heap has a smallest stride |
| RunQueue.Advance | code/lab8_result/kern/schedule/default_sched.c:130-132 | the stored stride grows by BIG_STRIDE over the priority, wrapped, and the links stay |
| RunQueue.RunQueue.constructor | code/lab8_result/kern/schedule/default_sched.c:37-43 | a new run queue is empty and valid |
| RunQueue.RunQueue.Enqueue | code/lab8_result/kern/schedule/default_sched.c:58-73 | a process with any stride enters the queue; links, contents and count are exact, and the order is kept if the strides then share a window |
| RunQueue.RunQueue.PickNext | code/lab8_result/kern/schedule/default_sched.c:108-134 | the process picked has the smallest true stride; only the order at the root may be broken afterwards |
| RunQueue.RunQueue.Dequeue | code/lab8_result/kern/schedule/default_sched.c:83-94 | any process can be taken out; links, contents and count are exact, and the order is whole again even if it was broken at that process as the root |
| RunQueue.RunQueue.TakeNext | code/lab8_result/kern/schedule/sched.c:87-89 | picking and dequeuing takes out a process of smallest true stride and leaves a valid queue |
| RunQueue.RunQueue.Schedule | code/lab8_result/kern/schedule/sched.c:77-99 | each switch takes a process of smallest true stride among the queued ones and the current one, and keeps the window |
| RunQueue.RunQueue.Switches | code/lab8_result/kern/schedule/sched.c:77-99 | over any number of switches among the same runnable processes the real heap picks by the true strides every time; processes that start level get turns in proportion to their priorities, up to one turn and the rounding of the passes, and the strides stay in the window |
| TimerQueue.AddedMeaning | code/lab8_result/kern/schedule/sched.c:101-121 | adding a timer puts it behind all that are due no later and shifts no due time |
| TimerQueue.Place | code/lab8_result/kern/schedule/sched.c:109-117 | a new timer is placed behind every timer due at the same time or earlier and before every later one |
| TimerQueue.DeletedMeaning | code/lab8_result/kern/schedule/sched.c:123-140 | deleting a timer takes out one due time and shifts no other |
| TimerQueue.TickedMeaning | code/lab8_result/kern/schedule/sched.c:149-151 | a tick brings every timer exactly one tick closer |
| TimerQueue.ExpiredMeaning | code/lab8_result/kern/schedule/sched.c:152-166 | the leading entries at distance 0 are exactly the timers that are due |
| TimerQueue.TickMeaning | code/lab8_result/kern/schedule/sched.c:142-168 | the tick of the delta list is the tick of the due times: the due ones fire in order, the others come closer |
| TimerQueue.FiresAtItsTick | code/lab8_result/kern/schedule/sched.c:101-172 | whatever other timers do, a timer due in t ticks is pending with the rest to go until the t-th tick and has fired exactly once from then on |
| TimerQueue.DeletedNeverFires | code/lab8_result/kern/schedule/sched.c:123-140 | a timer that is deleted before its tick never fires |
| TimerQueue.AddStarts | code/lab8_result/kern/schedule/sched.c:101-121 | a timer that was absent is pending once after it is added, due in its ticks |
| TimerQueue.OtherOpKeeps | code/lab8_result/kern/schedule/sched.c:101-140 | adding or deleting another timer leaves the due time alone and fires nothing |
| TimerQueue.TickFires | code/lab8_result/kern/schedule/sched.c:142-168 | a tick fires a timer exactly if it was due in one tick |
| TimerQueue.StaysAbsent | code/lab8_result/kern/schedule/sched.c:101-172 | a timer that is not pending does not fire |
| TimerList.List.constructor | code/lab8_result/kern/schedule/sched.c:101-121 | the timer list starts empty |
| TimerList.List.AddTimer | code/lab8_result/kern/schedule/sched.c:101-121 | the timers' expires fields spell the due times with the new timer added; no unsigned distance underflows and the head distance stays positive |
| TimerList.List.DelTimer | code/lab8_result/kern/schedule/sched.c:123-140 | the fields spell the due times without the timer; no unsigned sum overflows, and an unlinked timer changes nothing |
| TimerList.List.RunTimerList | code/lab8_result/kern/schedule/sched.c:142-172 | one tick of the due times: exactly the due timers come off, in order, and the head distance is positive again |
| SfsBlocks.EntryOfPut | code/lab8_result/kern/fs/sfs/sfs_inode.c:203-232 | writing entry j of an indirect block changes the word at j and no other entry |
| SfsVolume.TakeKeeps | code/lab8_result/kern/fs/sfs/sfs_inode.c:89-99 | when one owner takes one free block, every block in use still has exactly one owner and unused_blocks counts the free bits |
| SfsVolume.GiveKeeps | code/lab8_result/kern/fs/sfs/sfs_inode.c:104-109 | the same when one owner gives its block back |
| SfsVolume.GrownMeaning | code/lab8_result/kern/fs/sfs/sfs_inode.c:200-292 | a file grows by a cleared block exactly if its cost, one block or two with a new indirect block, is free; failing changes no owner, no counter and no data |
| SfsVolume.EnlargedMeaning | code/lab8_result/kern/fs/sfs/sfs_inode.c:938-948 | adding blocks one after the other succeeds exactly if the whole cost, with the indirect block if one is needed, is free, and spends exactly that; otherwise it stops short, with new blocks exactly if the first one could be had |
| SfsVolume.GrewContents | code/lab8_result/kern/fs/sfs/sfs_inode.c:353-371 | a grown file holds its old bytes and one block of zeros; every other file is unchanged |
| SfsVolume.ShrunkMeaning | code/lab8_result/kern/fs/sfs/sfs_inode.c:297-387 | dropping the last block cuts it off the contents, frees exactly that block and leaves every other file alone |
| SfsVolume.PatchedMeaning | code/lab8_result/kern/fs/sfs/sfs_io.c:105-118 | writing into a file's block k writes into its contents at block k and into no other file |
| SfsVolume.EntryPlaces | code/lab8_result/kern/fs/sfs/sfs_inode.c:200-245 | writing an entry of an inode's indirect block changes that one place of that one file |
| SfsVolume.ReclaimedMeaning | code/lab8_result/kern/fs/sfs/sfs_inode.c:869-878 | freeing an inode without data gives back its block and its indirect block, and the volume stays consistent |
| SfsVolume.FreshValid | code/lab8_result/kern/fs/sfs/sfs.h:17-21 | a volume with superblock, root inode and free map and nothing else is consistent |
| SfsFlat.WrittenNext | code/lab8_result/kern/fs/sfs/sfs_inode.c:598-638 | writing chunk after chunk is one longer write |
| SfsFlat.WrittenFile | code/lab8_result/kern/fs/sfs/sfs_inode.c:552-644 | a block-wise write, cut to the size of the file, is a splice of the flat byte sequence |
| SfsFile.RefusedWhen | code/lab8_result/kern/fs/sfs/sfs_inode.c:556-562 | a request is refused exactly for a bad offset or an end that does not fit the signed 32-bit off_t |
| SfsFile.WriteIsFlat | code/lab8_result/kern/fs/sfs/sfs_inode.c:552-644 | a write at or before the end of a file replaces exactly the bytes it covers, extends the file as needed and leaves all other files alone, also when only a prefix got through |
| SfsFile.ReadIsFlat | code/lab8_result/kern/fs/sfs/sfs_inode.c:552-644 | a read yields exactly the bytes from the offset to the end of the range or of the file |
| SfsFile.WriteStaysExact | code/lab8_result/kern/fs/sfs/sfs_inode.c:606-643 | a write leaves a file with exactly the blocks that its size needs if and only if it starts at or before the end of the last block or there is room for the next one; `SfsFile.Sfs.Io` ensures it for the operation itself |
| SfsFile.SizeBeyondBlocks | code/lab8_result/kern/fs/sfs/sfs_inode.c:606-643 | a one-byte write to an empty file on a full volume: it fails, moves no byte, and leaves a size of 1 without any block |
| SfsFile.TruncateIsFlat | code/lab8_result/kern/fs/sfs/sfs_inode.c:922-967 | cutting keeps the front of the file; extending keeps all of it and adds zeros beyond the blocks it had |
| SfsFile.TruncateStaysExact | code/lab8_result/kern/fs/sfs/sfs_inode.c:944-962 | an extension succeeds if and only if there is room for all the blocks it has to add, the indirect one included; the file then has the blocks that its size needs, and keeps that property unless there is room for the first new block and not for all; `SfsFile.Sfs.Truncate` ensures it for the operation itself |
| SfsFile.BlocksBeyondSize | code/lab8_result/kern/fs/sfs/sfs_inode.c:944-962 | an extension of an empty file to two blocks with room for one: it fails and leaves a block on a file of size 0 |
| SfsFile.GrownBlockPlace | code/lab8_result/kern/fs/sfs/sfs_inode.c:256-292 | the block number handed out is the one recorded in the block map |
| SfsFile.TransferredNext | code/lab8_result/kern/fs/sfs/sfs_inode.c:606-638 | one more chunk extends what has been read or written by exactly that chunk |
| SfsFile.Resized | code/lab8_result/kern/fs/sfs/sfs_inode.c:640-643 | setting the size changes neither contents nor owners |
| SfsFile.Sfs.BlockAlloc | code/lab8_result/kern/fs/sfs/sfs_inode.c:89-99 | the lowest free block is taken and cleared, or nothing changes if there is none; unused_blocks never drops below zero |
| SfsFile.Sfs.BlockFree | code/lab8_result/kern/fs/sfs/sfs_inode.c:104-109 | one bit is set and unused_blocks counts it |
| SfsFile.Sfs.Wbuf | code/lab8_result/kern/fs/sfs/sfs_io.c:105-118 | the bytes of one block are replaced from an offset on, nothing else changes |
| SfsFile.Sfs.BmapGetSub | code/lab8_result/kern/fs/sfs/sfs_inode.c:200-245 | the entry of the indirect block is found or made together with a missing indirect block; when there is no room, what was taken is given back |
| SfsFile.Sfs.BmapGet | code/lab8_result/kern/fs/sfs/sfs_inode.c:256-292 | looking up an index yields the block the map has there, or adds one at the end |
| SfsFile.Sfs.BmapLoad | code/lab8_result/kern/fs/sfs/sfs_inode.c:353-371 | any index up to the number of blocks gets its block, and the next one extends the file by zeros |
| SfsFile.Sfs.Chunk | code/lab8_result/kern/fs/sfs/sfs_inode.c:606-638 | one load and one buffer operation move one chunk between buffer and block exactly if the block is there or can be had, and change nothing otherwise |
| SfsFile.Sfs.Transfer | code/lab8_result/kern/fs/sfs/sfs_inode.c:589-638 | the unaligned start, the whole blocks and the unaligned end together transfer the range, or the longest prefix there is room for; nothing gets through exactly if the first block cannot be had |
| SfsFile.Sfs.Io | code/lab8_result/kern/fs/sfs/sfs_inode.c:552-644 | reads yield the range of the contents and change nothing; writes write the prefix they report and set the size; a write moves a byte exactly if the block it starts in is there or can be had, and falls short only when the next block cannot be had |
| SfsFile.Sfs.BmapTruncate | code/lab8_result/kern/fs/sfs/sfs_inode.c:297-387 | the last block of the file is freed and its entry cleared |
| SfsFile.Sfs.Truncate | code/lab8_result/kern/fs/sfs/sfs_inode.c:922-967 | the file has the new size and the blocks it needs exactly if there was room for them, or a failed extension keeps the size and the blocks it got; every freed block is counted |
| SfsFile.Sfs.Reclaim | code/lab8_result/kern/fs/sfs/sfs_inode.c:844-882 | an inode without links gives back all its blocks and every other file keeps its contents; one with links is untouched |
| Pids.Processes.GetPid | code/lab8_result/kern/process/proc.c:184-217 | the search ends with the first unused pid after the last one given out; no live pid lies strictly between last_pid and next_safe |
| Pids.Processes.Fork | code/lab8_result/kern/process/proc.c:431-497 | a fork gets the first pid after the last one given out that no live process has, or is refused, and nothing changes, when there are too many processes |
| Pids.NotReusedSoon | code/lab8_result/kern/process/proc.c:184-217 | over every run of forks and reaps a pid is not given out again before every other one has been given out or was in use when its turn came |
| Pids.Processes.Reap | code/lab8_result/kern/process/proc.c:169-182 | reaping a process keeps the safe window |
| Pids.Processes.constructor | code/lab8_result/kern/process/proc.c:190 | the static variables start with an empty process list in a consistent state |
| Pids.Pigeonhole | code/lab8_result/kern/process/proc.c:187 | with more pids than processes one is always unused, which is why the search ends |
| PageTables.ReplacedMeaning | code/lab8_result/kern/mm/pmm.c:575-594 | replacing one entry changes one page of one space in the flat map, keeps every reference count equal to the number of entries that name the frame, and frees a frame exactly if its last mapping went |
| PageTables.TableAdded | code/lab8_result/kern/mm/pmm.c:387-396 | adding a table, open to the user, changes no other directory entry, no page, no mapping and no data frame |
| PageTables.WordFields | code/lab8_result/kern/mm/pmm.c:591 | an entry is present, names its frame and has exactly the permission bits given |
| PageTables.EntryWritten | code/lab8_result/kern/mm/pmm.c:575-594 | writing an entry of a table changes that one page and no table |
| PageTables.MappingsChanged | code/lab8_result/kern/mm/pmm.c:429-462 | the number of mappings of a frame changes by what the entry names before and after |
| PageTables.DataWritten | code/lab8_result/kern/mm/pmm.c:547-549 | writing into a data frame changes no mapping |
| PageTables.FreshValid | code/lab8_result/kern/mm/pmm.c:364-396 | a memory with one empty directory is consistent |
| Mmu.Machine.GetPte | code/lab8_result/kern/mm/pmm.c:364-398 | the table for an address is found, or made from a free frame if asked for; without one nothing changes |
| Mmu.Machine.PageRemovePte | code/lab8_result/kern/mm/pmm.c:429-462 | the frame loses one reference, the last of which frees it, and the entry is cleared |
| Mmu.Inserted | code/lab8_result/kern/mm/pmm.c:580-591 | taking the new reference before giving up the old one amounts to exactly the replacement of the entry, also when both are the same frame |
| Mmu.Machine.PageInsert | code/lab8_result/kern/mm/pmm.c:575-594 | exactly the one page is remapped, to the frame and with the permission bits given; data frames are freed exactly with their last mapping, tables are kept, and running out of memory changes nothing |
| Mmu.Machine.UnmapRange | code/lab8_result/kern/mm/pmm.c:466-483 | no page of the range is mapped any more and every other page of every space keeps entry and content, and every directory its entries, although missing tables are skipped as a whole; frames are freed exactly with their last mapping |
| Mmu.Machine.CopyRange | code/lab8_result/kern/mm/pmm.c:506-557 | every page mapped in the range gets a frame that nothing else maps, with equal content and user bits, and every other page keeps entry and content; out of memory this holds for the part reached, and what was missing decides the result |
| Mmu.Machine.CopyPage | code/lab8_result/kern/mm/pmm.c:520-553 | one page is copied, or nothing is visible of the attempt |
| Mmu.UnmapsNext | code/lab8_result/kern/mm/pmm.c:474-482 | unmapping one more page extends the unmapped range by it |
| Mmu.CopiesNext | code/lab8_result/kern/mm/pmm.c:511-555 | copying one more page keeps all earlier copies unshared |
| MemoryAreas.Mm.FindVma | code/lab8_result/kern/mm/vmm.c:76-101 | with the cache, the lookup always gives what the scan of the whole list gives |
| MemoryAreas.Mm.InsertVma | code/lab8_result/kern/mm/vmm.c:113-143 | an area enters the list in its place exactly if it overlaps no other, although only its two neighbours are looked at; the list stays sorted and disjoint |
| MemoryAreas.Neighbours | code/lab8_result/kern/mm/vmm.c:104-139 | the assertions on the two neighbours of its place hold if and only if an area overlaps no area of the list at all |
| MemoryAreas.Mm.MmMap | code/lab8_result/kern/mm/vmm.c:159-188 | a range is refused exactly if it is no user range or its first address is in an area, and otherwise trips an assertion of the insertion exactly if it overlaps a later area; done, the list has gained whole pages with the flags given, which cover the range and no page more if and only if its end did not wrap |
| MemoryAreas.OverlapFromBelow | code/lab8_result/kern/mm/vmm.c:159-188 | mapping two pages of which the upper one is mapped trips the assertion |
| MemoryAreas.PagesCover | code/lab8_result/kern/mm/vmm.c:162-165 | the pages of an accepted range cover it tightly, unless its end wrapped; then they are a single page |
| MemoryAreas.WrappedRange | code/lab8_result/kern/mm/vmm.c:159-188 | a request for almost the whole address space from the middle of a page on is accepted and gets that page |
| MemoryAreas.Mm.UserMemCheck | code/lab8_result/kern/mm/vmm.c:545-568 | the check succeeds if and only if the range is a user range and every byte lies in an area that allows the access, for writes not in the lowest page of a stack |
| MemoryAreas.DupMmap | code/lab8_result/kern/mm/vmm.c:190-210 | copying the areas backwards gives the same list |
| MemoryAreas.InsertedSorted | code/lab8_result/kern/mm/vmm.c:113-143 | inserting keeps the list sorted and adds exactly the area |
| MemoryAreas.AllowedOn | code/lab8_result/kern/mm/vmm.c:553-566 | hopping to the end of an area loses no byte of the range |
| MemoryAreas.OnlyArea | code/lab8_result/kern/mm/vmm.c:81-95 | an address lies in one area at most, which is why the cache is right |
| FreeBlocks.Determined | code/lab4-spoc-discuss/kern/mm/default_pmm.c:145-193 | a sorted, coalesced free list is determined by the set of free pages |
| FreeBlocks.FirstFitIsLowest | code/lab4-spoc-discuss/kern/mm/default_pmm.c:121-129 | first fit finds the lowest address at which enough pages are free, and fails only if there is none |
| FreeBlocks.TakenMeaning | code/lab4-spoc-discuss/kern/mm/default_pmm.c:130-140 | an allocation takes exactly its pages out of the free ones, and the list stays sorted and coalesced |
| FreeBlocks.FreedMeaning | code/lab4-spoc-discuss/kern/mm/default_pmm.c:156-191 | a free adds exactly its pages, and the list stays sorted and coalesced |
| FreeBlocks.AbsorbedLoose | code/lab4-spoc-discuss/kern/mm/default_pmm.c:156-171 | one walk over the list joins the block with everything it touches |
| FreeBlocks.AbsorbedPages | code/lab4-spoc-discuss/kern/mm/default_pmm.c:156-171 | joining blocks neither loses nor gains a page |
| FreeBlocks.FreeUndoesAlloc | code/lab4-spoc-discuss/kern/mm/default_pmm.c:115-193 | freeing what was just allocated restores the identical list |
| FreeBlocks.OrderDoesNotMatter | code/lab4-spoc-discuss/kern/mm/default_pmm.c:145-193 | freeing the same blocks in any order gives the same list |
| PageAllocator.Allocator.constructor | code/lab4-spoc-discuss/kern/mm/default_pmm.c:62-66 | the free list starts empty and all pages reserved |
| PageAllocator.Allocator.InitMemmap | code/lab4-spoc-discuss/kern/mm/default_pmm.c:97-113 | a reserved region is linked in front of the list whatever its address; the order check passes exactly if it lies below all free blocks, and then the list is coalesced exactly if the region does not touch the first of them |
| PageAllocator.TouchingRegions | code/lab4-spoc-discuss/kern/mm/default_pmm.c:97-129 | two regions handed over upper first touch and stay two blocks, so that first fit misses four free pages in a row |
| PageAllocator.RegionAbove | code/lab4-spoc-discuss/kern/mm/default_pmm.c:78-113 | the same regions lower first fail the order check |
| PageAllocator.Allocator.CheckOrder | code/lab4-spoc-discuss/kern/mm/default_pmm.c:78-95 | the walk over the list passes exactly if no block reaches into the next one |
| PageAllocator.Allocator.AllocPages | code/lab4-spoc-discuss/kern/mm/default_pmm.c:115-143 | pages are allocated exactly if enough of them are free in a row, at the lowest such address; flags and nr_free stay exact, and the order check always passes |
| PageAllocator.Allocator.FreePages | code/lab4-spoc-discuss/kern/mm/default_pmm.c:145-193 | the block joins the free list in its place; flags, nr_free and the order stay exact, and the order check always passes |
| PageAllocator.Allocator.Absorb | code/lab4-spoc-discuss/kern/mm/default_pmm.c:156-171 | the walk over the linked list, with entries taken off under way, joins the block with its neighbours |
| PageAllocator.Allocator.Link | code/lab4-spoc-discuss/kern/mm/default_pmm.c:172-190 | the joined block is linked at its place by address in all four cases |
| PageAllocator.Allocator.ResetFlags | code/lab4-spoc-discuss/kern/mm/default_pmm.c:102-106 | exactly the flags of the given pages are cleared |

## Left out

- CLOCK in the page replacement simulator, which picks frames at random, its page address parsing and its printing.
- PageReplacement.Simulate: does not model a memory of zero frames, for which the code takes a page from an empty list.
- Fixed widths of semaphore values, `next_count`, `cv.count` and `nr_free`: they are integers; the monitor's counters are shown to be bounded by the number of threads.
- Processes that are woken from a semaphore otherwise than by `up`: `down` asserts against it.
- The instruction level inside one statement: a condition such as the one in `phi_test` is evaluated in one step, and a semaphore operation, which runs with interrupts disabled, is one step (`down` two).
- Threads of the monitor step machine are sequences of program counters, not heap objects; the semaphores they use follow the same functions as the class `Semaphores.Semaphore`.
- The number of meals and the sleeping between them: a philosopher may quit after any number of meals.
- Strides.FairShare: does not cover processes that join or wake up during the run, because they come with stride 0 or a stale stride.
- RunQueue.RunQueue.Schedule: does not model the idle process, time slices, `need_resched` and the switch of contexts.
- RunQueue.RunQueue.PickNext: does not model the list variant, which `USE_SKEW_HEAP` switches off.
- TimerList.List.RunTimerList: does not model the wake-up of the processes and the tick of the scheduling class, and inlines `del_timer` at distance 0, where it only unlinks.
- TimerList.List.AddTimer: the list of links is a sequence of timer objects, so the pointers of the doubly linked list are not modelled.
- SfsFile.Sfs.Io: does not model device errors, and indices at or past 12 + 1024 blocks, at which the code panics; a write must not start beyond the block after the last one, which the code asserts; reading and writing start from a file whose blocks cover its size, which only the write of the first finding breaks.
- SfsFile.Sfs.Reclaim: does not model the reclaim and reference counts and the write-back of dirty inodes; it starts once nobody uses the inode.
- SfsFile.TruncateIsFlat: says nothing of the rest of the old last block when a file is extended, because truncation does not clear it.
- SfsFile.Sfs.BlockAlloc: the free map is an array of bits, so the packing of bits into words is not modelled.
- Inodes are values in a map of the volume and always up to date; copies of them on disk, directories, names and inode types are not part of this model.
- Locks of inodes, of the volume and of its buffer: the operations are sequential.
- SkewCost.LogarithmicOnAverage: does not cover removals below the root.
- Pids.Processes.Fork: models only the pid and the process count of a fork.
- PageAllocator.Allocator.FreePages: the page flags are three arrays, the reference counts are not modelled, and the free list is a sequence of page numbers.
- Mmu.Machine.CopyRange: does not model the TLB, and stops with `Panicked` where the code asserts that a frame could be allocated.
- Mmu.Machine.GetPte: models the user part of the directories only; the entries above it are shared between the spaces, one of them points back to the directory itself.
- Freeing whole tables and directories (`exit_range`, `put_pgdir`), and creating address spaces.
- MemoryAreas.Mm.UserMemCheck: does not model the check without an address space of its own; areas are values, their list a sequence.
- The SLOB heap, swapping, the process tree and the exit protocol, the image builder, path lookup, system calls, drivers and user programs: not part of this model.
