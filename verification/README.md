# ApnaOS in Dafny

This project models four parts of the ApnaOS kernel and proves what they are for.

* **The CFS run queue** (`process/rbtree.c`, `process/process.c`): a red-black tree with parent
  pointers, changed in place by insertion, by deletion of any node and by the two fix-up loops.
  Nodes live in a pool, a pointer is an index, and `Rep` ties the pool to an algebraic tree.  The
  loops carry a zipper: the subtree in focus and the context above it.  The tree turns out to be a
  stable priority queue, and it returns the same processes as the sorted linked list.
* **The process lifecycle** (`process/process.c`, `process/syscall.c`): ready queue, schedule, fork,
  wait, exit and yield as a transition system (`Lifecycle`), and in place on linked PCBs (`Kernel`),
  where every method is one step of that system and `KernelRuns.Replay` follows whole runs.  Over
  whole runs: the scheduler invariant, no lost
  wake-up, exactly-once reaping, first come first served, and bounded waiting.  `LifecycleEffects`
  says what each step does to the fields of every process, to the queue and to the table, without the
  functions that define the steps; `LifecycleOrigins` says where events and states of a run come from.
* **The block file system** (`filesystem/filesystem.c`): a global ownership invariant on inodes,
  directory, bitmap and counters (`Disk.Inv`), the proof that blocks cannot run out before inodes do,
  and a refinement to one byte sequence with permissions per directory slot (`Disk.Files`).  With the
  number of spare blocks this determines every result: on any operations the code in place returns
  what the row of slots in `FileStore` returns (`FileRuns.Replay`).
* **The page allocator** (`memory/memory.c`): circular next-fit search and a free that reads the
  length of an allocation from the page table.

Besides these: `strncpy` and `strncmp`, on which file names depend, and `itoa` with `atoi`.

Some expected laws are false of the code; for these the project proves exactly when they hold:

* `kfree` gives back all pages of an allocation iff the allocation does not go past the last page,
  although `allocate_pages` searches circularly; the pages that stay behind are never free again
  (`Pages.FreeExact`, `Pages.AllocThenFree`, `Pages.LeakedForEver`, `Pages.LeakHappens`).
* `write_file` stores up to 16384 bytes, whatever the size, iff the file has no spare blocks; a write
  that needs k blocks fewer than the file had creates k spare blocks, and in every run they stay until
  the file is deleted (`FileSystem.CompleteWrites`, `FileStore.StepSpare`, `FileStore.NeverFullAgain`).
  A file that is filled, cut to one byte and written again in full takes 4096 bytes
  (`FileRuns.CutAndRefill`).
* `create_file` does not look for an existing name: a new file is found by its name iff no slot before
  the first free one has that name (`FileSystem.CreateFile`); of two files created with the same name
  the second is not found (`FileRuns.CreateTwice`).

## Layout

| file | what it holds |
|---|---|
| Pointers.dfy | pointers as indices |
| RbShape.dfy, RbTree.dfy, Cfs.dfy | the tree, its fix-up loops, the CFS queue |
| StableQueue.dfy, ProcessQueue.dfy, RunQueues.dfy | the stable priority queue, the linked lists, the refinement |
| Lifecycle.dfy, LifecycleSafety.dfy, LifecycleHistory.dfy, LifecycleWaiting.dfy, LifecycleFifo.dfy | the process lifecycle and its runs |
| LifecycleEffects.dfy, LifecycleOrigins.dfy | what each step does, field by field; where events and states of a run come from |
| Kernel.dfy, KernelRuns.dfy | the process lifecycle in place, and its runs |
| CString.dfy, Disk.dfy, FileSystem.dfy | names, the file system as values, the file system in place |
| FileStore.dfy, FileRuns.dfy | the file system for its callers, and the refinement over runs |
| Pages.dfy | the page allocator |
| Numerals.dfy | itoa and atoi |

## Model

| member | source | states |
|---|---|---|
| RbShape.LinksAgree | process/rbtree.h:8-13 | in a tree in the pool every child link leads to a node whose parent link leads back, and conversely |
| RbShape.Focus | process/rbtree.c:6-8 | a tree in the pool is the same thing seen from any node: same links, same nodes, same in-order sequence |
| RbShape.BlackHeightBoundsSize | process/rbtree.c:2-161 | a tree of black height h holds at least 2^h - 1 nodes |
| RbShape.HeightIsLogarithmic | process/rbtree.h:45-51 | the height of a red-black tree of n nodes is at most 2 log2(n + 1) |
| RbTree.RotationKeepsOrder | process/rbtree.c:163-201 | both rotations keep the in-order sequence and the nodes |
| RbTree.RotateBack | process/rbtree.c:163-201 | a right rotation undoes a left one, and conversely: every link in the pool is what it was |
| RbTree.RotatedAt | process/rbtree.c:163-201 | the rewritten links of a rotation are a tree again, at the same place |
| RbTree.RbRoot.RotateLeft | process/rbtree.c:163-181 | which links a left rotation rewrites, and that all others stay |
| RbTree.RbRoot.RotateRight | process/rbtree.c:183-201 | which links a right rotation rewrites, and that all others stay |
| RbTree.RbRoot.RotateLeftAt | process/rbtree.c:163-181 | the tree afterwards is the rotated one, parent links included, with the same in-order sequence |
| RbTree.RbRoot.RotateRightAt | process/rbtree.c:183-201 | the tree afterwards is the rotated one, parent links included, with the same in-order sequence |
| RbTree.RbRoot.LinkNode | process/rbtree.h:35-43 | the node becomes a red leaf at the given null link |
| RbTree.Family | process/rbtree.c:6-10 | a red parent has a black parent, so gparent exists; which side and which uncle are read there |
| RbTree.RecolouredRb | process/rbtree.c:10-15 | recolouring leaves at most one red-red pair, at the grandparent, and all black counts equal |
| RbTree.StraightenedRb | process/rbtree.c:16-21 | the first rotation of an insertion moves the red-red pair to the outer side |
| RbTree.InsertedRb | process/rbtree.c:22-24 | the last rotation of an insertion removes the red-red pair |
| RbTree.RbRoot.Recolour | process/rbtree.c:10-15 | the red-uncle case in place |
| RbTree.RbRoot.InsertUnderLeft | process/rbtree.c:16-24 | the black-uncle case in place, for a left parent: order kept, the new parent is black |
| RbTree.RbRoot.InsertUnderRight | process/rbtree.c:33-41 | the black-uncle case in place for a right parent: order kept, the new parent is black |
| RbTree.RbRoot.InsertStep | process/rbtree.c:6-43 | every round of the insertion loop moves up the tree and keeps order, links and balance |
| RbTree.RbRoot.InsertColor | process/rbtree.c:2-46 | the loop ends without following a null pointer; the tree is a red-black tree with the same in-order sequence |
| RbTree.SiblingExists | process/rbtree.c:103-107 | a child that lacks a black node, null or not, has a sibling |
| RbTree.RedSiblingRb | process/rbtree.c:107-112 | after the red-sibling rotation the same black node is missing and the sibling is black |
| RbTree.BlackNephewsRb | process/rbtree.c:113-117 | with black nephews the lack moves to the parent |
| RbTree.NearRedRb | process/rbtree.c:119-124 | with a red near nephew a rotation makes the far nephew red |
| RbTree.FarRedRb | process/rbtree.c:125-129 | with a red far nephew the last rotation gives a red-black tree |
| RbTree.LackEnds | process/rbtree.c:159 | painting the child black supplies the missing black node |
| RbTree.RbRoot.RedSiblingLeft | process/rbtree.c:107-112 | that rotation in place, left side |
| RbTree.RbRoot.RedSiblingRight | process/rbtree.c:133-138 | that rotation in place, right side |
| RbTree.RbRoot.BlackNephews | process/rbtree.c:115-117 | that recolouring in place |
| RbTree.RbRoot.RedNephewLeft | process/rbtree.c:119-129 | one or two rotations give a red-black tree with the same order, left side |
| RbTree.RbRoot.RedNephewRight | process/rbtree.c:145-155 | one or two rotations give a red-black tree with the same order, right side |
| RbTree.RbRoot.EraseStepLeft | process/rbtree.c:105-130 | a round of the deletion loop for a left child ends at the root, one level up, or at a red child on the same level |
| RbTree.RbRoot.EraseStepRight | process/rbtree.c:131-157 | a round of the deletion loop for a right child ends at the root, one level up, or at a red child on the same level |
| RbTree.RbRoot.EraseColor | process/rbtree.c:100-160 | the deletion loop ends without following a null pointer; the tree is a red-black tree with the same in-order sequence |
| RbTree.TakenOutRb | process/rbtree.c:87-101 | taking a node out leaves a red-black tree if the node was red, and one black node missing if it was black |
| RbTree.DeletedAt | process/rbtree.c:47-98 | replacing a node by its subtrees, joined in order, deletes exactly that node from the in-order sequence |
| RbTree.MinOrder | process/rbtree.c:58-60 | the leftmost node comes first in order |
| RbTree.RbRoot.Leftmost | process/rbtree.c:59-60 | the descent to the left ends at the minimum, in fewer steps than the height |
| RbTree.RbRoot.TakeOut | process/rbtree.c:87-98 | a node with at most one child is replaced by that child, in all links |
| RbTree.RbRoot.PutInPlace | process/rbtree.c:61-68 | the parent of the deleted node, or the root pointer, refers to the successor |
| RbTree.RbRoot.TakeLinks | process/rbtree.c:72-83 | the successor, adjacent or deep, has the links and the colour of the deleted node, and its own place is closed |
| RbTree.RbRoot.Succeed | process/rbtree.c:56-84 | a node with two children is replaced by its successor; what is missing is where the successor was |
| RbTree.SucceededOrder | process/rbtree.c:56-84 | that replacement deletes exactly the node from the in-order sequence |
| RbTree.RbRoot.Erase | process/rbtree.c:47-161 | for every node of every red-black tree: exactly that node leaves the in-order sequence, and the result is a red-black tree |
| RbTree.RbRoot.First | process/rbtree.h:45-51 | the minimum, or null iff the tree is empty |
| Cfs.RunQueue.constructor | process/process.c:16 | an empty tree |
| Cfs.VruntimePlace | process/process.c:99-108 | by the vruntimes themselves: behind every process with a vruntime not above its own, before the first with a larger one |
| Cfs.RunQueue.FindLink | process/process.c:99-108 | the descent ends at the null link between the keys not above the new one and the larger keys |
| Cfs.RunQueue.Link | process/process.c:109-110 | linking and recolouring put the node there and give a red-black tree |
| Cfs.RunQueue.Enqueue | process/process.c:99-111 | the process goes behind every key not above its own; at most 2 log2(n + 1) steps |
| Cfs.RunQueue.DequeueMin | process/process.c:113-119 | the first process in order leaves, or null iff there is none; at most 2 log2(n + 1) steps |
| StableQueue.InsertPosition | process/process.c:36-50 | an insertion happens behind all keys not above the new one and before the first larger one |
| StableQueue.InsertElements | process/process.c:29-51 | exactly the new element is new |
| StableQueue.InsertSorted | process/process.c:29-51 | sorted stays sorted |
| StableQueue.FifoKept | process/process.c:29-51 | order by key and then by arrival survives an arrival and a departure |
| StableQueue.RunSorted | process/process.c:29-138 | in every run the contents are sorted and distinct |
| StableQueue.RunFifo | process/process.c:29-138 | in every run equal keys wait in the order they arrived |
| ProcessQueue.LinkBehind | process/process.c:46-50 | linking behind any position gives a proper list, with the right rear |
| ProcessQueue.PriorityPlace | process/process.c:29-51 | insertion by priority, by the fields themselves: behind every PCB whose priority number is not larger, before the first with a larger one |
| ProcessQueue.DeadlinePlace | process/process.c:52-74 | insertion by deadline, by the fields themselves |
| ProcessQueue.TimeToRunPlace | process/process.c:75-97 | insertion by time_to_run, by the fields themselves |
| ProcessQueue.ProcessQueue.constructor | process/process.c:21-24 | an empty queue |
| ProcessQueue.ProcessQueue.Enqueue | process/process.c:29-51 | stable insertion by priority; a null-terminated acyclic list with the right front and rear; only next links change |
| ProcessQueue.ProcessQueue.EnqueueEdf | process/process.c:52-74 | the same by deadline |
| ProcessQueue.ProcessQueue.EnqueueSjf | process/process.c:75-97 | the same by time_to_run |
| ProcessQueue.ProcessQueue.Dequeue | process/process.c:122-138 | the front leaves with its link cleared, or null iff the queue is empty |
| RunQueues.ReplayTree | process/process.c:99-119 | any operations on the tree return what the stable priority queue returns |
| RunQueues.ReplayList | process/process.c:29-51 | any operations on the list return what the stable priority queue returns |
| RunQueues.ReplayBoth | process/process.c:99-138 | on any operations with the same keys the tree returns the same processes as the list |
| Lifecycle.FindZombie | process/syscall.c:17-36 | the first entry of the table that is a zombie child, or the end of the table |
| LifecycleSafety.FindFinds | process/syscall.c:14-36 | comparing pids, the search fails iff there is no zombie child |
| LifecycleSafety.ScheduleInv | process/process.c:145-193 | after schedule the current process is the only running one, or control is in cli_loop |
| LifecycleSafety.LinkInInv | process/process.c:223-229 | a new process keeps the invariant |
| LifecycleSafety.ReapInv | process/syscall.c:103-113 | reaping keeps the invariant |
| LifecycleSafety.BlockInv | process/syscall.c:115-120 | blocking without a zombie child keeps the invariant |
| LifecycleSafety.BecomeZombieCore | process/syscall.c:156-161 | a process that exits wakes its parent up in time |
| LifecycleSafety.NoLostWakeUp | process/syscall.c:125-140 | the second search of wait always finds a zombie child; the last return is unreachable |
| LifecycleSafety.StepInv | process/syscall.c:38-194 | every step keeps the invariant: queue, table, pids, blocked and woken processes, who runs |
| LifecycleSafety.RunInv | process/syscall.c:38-194 | at every step boundary of every run: the ready queue holds exactly the READY processes, once, sorted; at most the current process runs; no blocked process has a zombie child |
| LifecycleSafety.WaitNeverFails | process/syscall.c:95-141 | in every run a process woken inside wait finds a zombie child of its own, and none is blocked while it has one |
| LifecycleSafety.QuitForEver | process/process.c:146-151 | in every run a process that yields in STATE_EXIT is never queued, run or reaped again |
| LifecycleHistory.StepLog | process/syscall.c:38-166 | every step keeps the log of forks, exits and reaps in line with the processes |
| LifecycleHistory.RunLog | process/syscall.c:38-166 | in every run the log of forks, exits and reaps stays in line with the processes |
| LifecycleHistory.ReapingBalance | process/syscall.c:14-166 | in every run, for each parent: forks = children returned by wait + zombies + children that have not exited |
| LifecycleHistory.ReapedOnce | process/syscall.c:95-141 | in every run two waits return different pids, each the pid of a child that the waiting process forked before, with the status that the log records for its exit |
| LifecycleWaiting.ScheduleMovesUp | process/process.c:145-185 | schedule moves every waiting process up by one and runs the front, if the running process is no more urgent |
| LifecycleWaiting.StepMoves | process/process.c:145-185 | a step that lets nobody overtake moves a waiting process up by one iff it calls schedule, and never down |
| LifecycleWaiting.PriorityFixed | process/process.c:196-230 | in every run priorities never change |
| LifecycleWaiting.MovesUp | process/process.c:145-185 | after k calls of schedule it has moved up by exactly k |
| LifecycleWaiting.BoundedWaiting | process/process.c:145-185 | a process at position k runs at the (k+1)-th call of schedule |
| LifecycleWaiting.YieldRotates | process/syscall.c:168-194 | among equal priorities a yield passes the turn on |
| LifecycleWaiting.RoundRobin | process/syscall.c:168-194 | so processes that only yield run round-robin |
| LifecycleFifo.StepQueue | process/process.c:145-230 | a step lets at most one process join the ready queue, behind everybody as urgent, and at most the front leave |
| LifecycleFifo.ReadyIsFifo | process/process.c:29-51 | in every run the ready queue is ordered by priority and, among equals, by arrival |
| LifecycleEffects.ScheduleHasEffect | process/process.c:145-185 | a running process becomes READY and joins the queue behind everybody as urgent; then the front becomes RUNNING and loses is_new_child; all other fields, processes, the table and the pids stay |
| LifecycleEffects.CreateHasEffect | process/process.c:196-230 | a created process has the priority, deadline and time_to_run of the caller, the next pid and no parent; a forked one (process/syscall.c:60-88) has the priority of its parent; it is READY, at the head of the table and in the queue; the other PCBs stay |
| LifecycleEffects.WaitHasEffect | process/syscall.c:103-120 | the first zombie child in the table leaves it, with its pid and status; without one the process blocks and the front of the queue runs |
| LifecycleEffects.ResumeHasEffect | process/syscall.c:125-135 | the rest of wait always hands out a zombie child |
| LifecycleEffects.ExitHasEffect | process/syscall.c:156-162 | the process is a zombie with exactly the status that exit was given; a blocked parent joins the queue as READY; then the front runs; nothing else changes |
| LifecycleEffects.QuitHasEffect | process/process.c:146-160 | a process in STATE_EXIT does not join the queue; the front runs |
| LifecycleEffects.StepHasEffect | process/syscall.c:38-194 | every step has these effects |
| LifecycleOrigins.YieldLosesNobody | process/process.c:146-153 | after a yield the same processes are running or ready, and the one that yielded is READY or RUNNING |
| LifecycleOrigins.MostUrgentRuns | process/process.c:145-185 | whenever the processor is handed over, control goes to cli_loop or nobody ready is more urgent than the one who runs |
| LifecycleOrigins.UrgentRunsOn | process/process.c:146-160 | a process that is more urgent than all ready ones runs on when it yields, and the queue stays |
| LifecycleOrigins.StepRecords | process/syscall.c:38-166 | a step records at most one event, and that is one of its own process |
| LifecycleOrigins.EventHasCause | process/syscall.c:38-166 | in every run each fork, exit and reap in the log is that of a step at which the process concerned was current, an exit with the status of that step |
| LifecycleOrigins.StatusIsPassedOn | process/syscall.c:105-156 | in every run the status that a wait hands out is the one that the child itself passed to exit |
| LifecycleOrigins.PidCounter | process/process.c:9-19 | in every run pids are handed out from 1 on without a gap |
| LifecycleOrigins.QuitBySelf | process/process.c:146-151 | in every run a process is in STATE_EXIT only after it has quit itself |
| LifecycleOrigins.ChildrenInherit | process/syscall.c:62 | in every run a forked child has the priority of its parent |
| Kernel.Kernel.constructor | process/process.c:6-9 | no processes, no queue, the first pid is 1, control in cli_loop |
| Kernel.Kernel.GetNewPid | process/process.c:17-19 | the next pid |
| Kernel.Kernel.WakeUp | process/syscall.c:159-160 | the process is READY and at its place in the queue |
| Kernel.Kernel.RunNext | process/process.c:153-185 | the front of the queue runs, or control goes to cli_loop |
| Kernel.Kernel.Schedule | process/process.c:145-193 | a running process is queued behind everybody as urgent as READY; then the front of the queue runs, or control goes to cli_loop; nothing else changes |
| Kernel.Kernel.PushPcb | process/process.c:224-225 | the PCB is the new head of the process table |
| Kernel.Kernel.LinkNew | process/process.c:221-229 | the new PCB is in the table and in the ready queue |
| Kernel.Kernel.CreateProcess | process/process.c:196-230 | a READY process with these numbers and the next pid, without parent; the others unchanged; null iff memory ran out; invariant kept |
| Kernel.Kernel.Fork | process/syscall.c:38-93 | a READY child with the next pid and the priority of its parent; the others unchanged; the pid of the child, or -1 iff memory ran out; invariant kept |
| Kernel.Kernel.SearchZombie | process/syscall.c:17-33 | the walk stops where FindZombie says, with the entry before it |
| Kernel.Kernel.Unlink | process/syscall.c:22-26 | exactly that entry leaves the table, the others keep their order |
| Kernel.Kernel.FindZombieChild | process/syscall.c:14-36 | the first zombie child leaves the table, or null and no change |
| Kernel.Kernel.Reclaim | process/syscall.c:103-113 | its pid and status are handed on |
| Kernel.Kernel.Block | process/syscall.c:115-120 | the process is blocked inside wait and another one runs |
| Kernel.Kernel.Wait | process/syscall.c:95-120 | the first zombie child is handed out at once, or there is none and the process blocks and the front runs; invariant kept |
| Kernel.Kernel.WaitResumed | process/syscall.c:122-141 | the rest of wait hands out a zombie child, never -1; invariant kept |
| Kernel.Kernel.Die | process/syscall.c:156-161 | exit up to the call of schedule, in place |
| Kernel.Kernel.ExitCode | process/syscall.c:156-162 | the process is a zombie with exactly that status, a blocked parent is queued as READY, and the front runs |
| Kernel.Kernel.Exit | process/syscall.c:143-166 | the same from every state in which a process can call exit, invariant kept |
| Kernel.Kernel.Yield | process/syscall.c:168-194 | the process is queued behind everybody as urgent and the front runs; nothing else changes; invariant kept |
| Kernel.Kernel.Quit | process/syscall.c:168-194 | the process is in STATE_EXIT and not queued, and the front runs; invariant kept |
| Kernel.Kernel.Dispatch | process/process.c:145-193 | schedule called from cli_loop: the front runs, nothing else changes; invariant kept |
| KernelRuns.Perform | process/syscall.c:38-194 | any call is one step of the system, and a successful wait returns what the log says |
| KernelRuns.Replay | process/syscall.c:38-194 | every run of the system is a run of the kernel in place, step by step, with the results of its waits |
| KernelRuns.NoPidTwice | process/syscall.c:95-141 | in every run no two waits return the same pid |
| KernelRuns.ResumeHappens | process/syscall.c:95-166 | a run in which a wait blocks, is woken up by the exit of the child and goes on |
| KernelRuns.ResumeHandsOut | process/syscall.c:122-135 | in it the wait returns the pid and the status of the child |
| CString.Strncmp | keyboard/string.c:30-37 | zero iff the two strings agree up to n characters; otherwise the difference where they first differ |
| CString.Strncpy | keyboard/string.c:39-44 | the text and then NULs, and nothing behind the n characters |
| CString.FoundByText | filesystem/filesystem.c:142-143 | comparing a stored name with any string tells whether the texts are equal |
| CString.StoredIsFound | filesystem/filesystem.c:129 | what strncpy stored is found by strncmp under its own name and no other |
| Disk.SpaceLeft | filesystem/filesystem.c:60-82 | while some inode has an unused slot some block is free, by counting all slots |
| Disk.OwnAdd | filesystem/filesystem.c:75-78 | taking a free block keeps the ownership of blocks one to one |
| Disk.OwnRemove | filesystem/filesystem.c:153-158 | so does giving one back |
| Disk.GrowStep | filesystem/filesystem.c:73-80 | the first unused slot of a live inode is behind the used ones, a block for it exists, and filling it keeps the invariant |
| Disk.GrownSameFiles | filesystem/filesystem.c:71-82 | more blocks change no file |
| Disk.UnusedSlot | filesystem/filesystem.c:108-138 | the first unused inode: its directory slot is the first unused one and a block is free |
| Disk.CreatedInv | filesystem/filesystem.c:123-132 | a new file keeps the invariant and is empty |
| Disk.DeletedInv | filesystem/filesystem.c:152-164 | a deletion keeps the invariant and leaves the slot unused |
| Disk.ResizeInv | filesystem/filesystem.c:244 | a new size that the blocks can hold keeps the invariant |
| Disk.EmptyInv | filesystem/filesystem.c:18-42 | a formatted disk has the invariant |
| Disk.PermissionBits | filesystem/filesystem.c:85-92 | by the number p: mode 0 is allowed iff p / 4 is odd, mode 1 iff p / 2 is odd, mode 2 iff p is odd, any other mode never |
| Disk.ClaimedIsLeast | filesystem/filesystem.c:222-224 | a size accounts for at least one block, and for no more blocks of 4096 bytes than it needs |
| Disk.OthersKept | filesystem/filesystem.c:94-320 | a change of one slot and of the blocks it owns changes no other file |
| Disk.WrittenFiles | filesystem/filesystem.c:234-244 | bytes written through the blocks of a file are the bytes of that file |
| Disk.CreatedIsFound | filesystem/filesystem.c:127-134 | a file that goes to the first free slot is found by its name iff no slot before has that name |
| Disk.LookupUpdate | filesystem/filesystem.c:127-134 | what a name refers to after a write, a creation with the same name, or a deletion |
| FileSystem.WroteChunk | filesystem/filesystem.c:307-309 | one chunk of a copy writes exactly its bytes of the file |
| FileSystem.ChunkOfData | filesystem/filesystem.c:190-196 | one chunk of a read is that part of the file |
| FileSystem.WriteLength | filesystem/filesystem.c:219-232 | the length that write_file computes is min(s, 16384, (C+4-A) * 4096), and A - C grows by exactly the number of blocks that the old size needs more |
| FileSystem.CompleteWrites | filesystem/filesystem.c:219-246 | all writes up to 16384 bytes are complete iff A = C |
| FileSystem.AppendLength | filesystem/filesystem.c:264-292 | the length that append_to_file computes is min(s, 16384-z, (C+4-A) * 4096 - z), and A - C stays |
| FileSystem.FileSystem.constructor | filesystem/filesystem.c:8-12 | the arrays, with any contents |
| FileSystem.FileSystem.FormatDisk | filesystem/filesystem.c:18-42 | whatever was there: the invariant holds, there are no files, everything is free |
| FileSystem.FileSystem.AllocateBlock | filesystem/filesystem.c:60-69 | the first free block, or -1 iff there is none |
| FileSystem.FileSystem.AllocateInode | filesystem/filesystem.c:49-58 | the first unused inode, or -1 iff there is none |
| FileSystem.FileSystem.FillSlot | filesystem/filesystem.c:74-78 | a block is always found: the break is unreachable |
| FileSystem.FileSystem.AllocateBlocks | filesystem/filesystem.c:71-82 | exactly min(required, unused slots) more blocks, and nothing else changes |
| FileSystem.FileSystem.FindSlot | filesystem/filesystem.c:141-143 | the first slot with that name, or none |
| FileSystem.FileSystem.ChmodFile | filesystem/filesystem.c:94-106 | only the permissions of that file change; -1 and no change iff there is no such file |
| FileSystem.FileSystem.CreateCode | filesystem/filesystem.c:108-138 | which arrays change and how; the two error branches behind the first are unreachable |
| FileSystem.FileSystem.CreateFile | filesystem/filesystem.c:108-138 | fails iff all 256 slots hold files; otherwise the first free slot holds an empty file with permissions 7 and without spare blocks, the others are unchanged; it is found by its name iff no slot before has that name |
| FileSystem.FileSystem.FillEntry | filesystem/filesystem.c:129-130 | the entry has the name, filled up with NUL, and the number of the inode |
| FileSystem.FileSystem.ReleaseSlot | filesystem/filesystem.c:153-158 | one block is given back, counters and bitmap in step |
| FileSystem.FileSystem.ReleaseBlocks | filesystem/filesystem.c:152-159 | all blocks of the inode are given back |
| FileSystem.FileSystem.DeleteFile | filesystem/filesystem.c:140-172 | exactly that file is gone; -1 and no change iff it does not exist or the bit for 2 of its permissions is off |
| FileSystem.FileSystem.CopyIn | filesystem/filesystem.c:234-242 | the first bytes of the file are the buffer; the break is unreachable |
| FileSystem.FileSystem.CopyBehind | filesystem/filesystem.c:295-310 | the bytes behind the file's size are the buffer; "Block not allocated" is unreachable |
| FileSystem.FileSystem.CopyFrom | filesystem/filesystem.c:188-198 | the buffer holds the first bytes of the file; the break is unreachable |
| FileSystem.FileSystem.ReadSlot | filesystem/filesystem.c:185-201 | the buffer holds the first min(size, file size) bytes of the file, the rest of it is unchanged |
| FileSystem.FileSystem.ReadFile | filesystem/filesystem.c:174-206 | the first min(size, file size) bytes, the rest of the buffer and the disk unchanged; -1 and no change iff there is no such file or the bit for 4 of its permissions is off |
| FileSystem.FileSystem.Reserve | filesystem/filesystem.c:226-227 | more blocks for a file change no file |
| FileSystem.FileSystem.ReserveForWrite | filesystem/filesystem.c:219-232 | the exact length of a write, for which the blocks are there |
| FileSystem.FileSystem.WriteSlot | filesystem/filesystem.c:219-246 | the file becomes that many bytes of the buffer |
| FileSystem.FileSystem.WriteFile | filesystem/filesystem.c:208-251 | returns n = min(s, 16384, (C+4-A) * 4096) and the file becomes data[..n]; other files unchanged; A - C grows by exactly the number of blocks that the old size needs more; -1 and no change iff missing or the bit for 2 of its permissions is off |
| FileSystem.FileSystem.CountSlots | filesystem/filesystem.c:274-279 | A, the number of allocated slots |
| FileSystem.FileSystem.ReserveForAppend | filesystem/filesystem.c:264-292 | the exact length of an append, for which the blocks are there |
| FileSystem.FileSystem.AppendSlot | filesystem/filesystem.c:264-314 | that many bytes go behind the file's own |
| FileSystem.FileSystem.AppendFile | filesystem/filesystem.c:253-320 | returns n = min(s, 16384-z, (C+4-A) * 4096 - z) and the file becomes old + data[..n]; other files and A - C unchanged; -1 and no change iff missing, full, or the bit for 2 of its permissions is off |
| FileStore.After | filesystem/filesystem.c:94-320 | what every operation does to the row of slots; the blocks that a size accounts for and the spare ones stay at most four |
| FileStore.StepSpare | filesystem/filesystem.c:219-232 | spare blocks of a file change only by a write to it, by exactly the number of blocks that the old size needs more |
| FileStore.SpareStays | filesystem/filesystem.c:219-232 | in every run of operations a file keeps its spare blocks from creation to deletion |
| FileStore.NeverFullAgain | filesystem/filesystem.c:222-232 | in every run, after a write that needs k blocks fewer the file stays k blocks short of the maximal size |
| FileStore.WriteIsComplete | filesystem/filesystem.c:219-246 | a write is complete iff it fits beside the spare blocks |
| FileStore.ChmodDecides | filesystem/filesystem.c:85-106 | after a chmod to p the file is read iff the bit for 4 is set, written and deleted iff the bit for 2 is set, and appended to iff that bit is set and the file has fewer than 16384 bytes |
| FileStore.NewFileIsOpen | filesystem/filesystem.c:123-134 | a new file, if no slot before it has its name, is empty and may be read, written, appended to and deleted |
| FileStore.ReadBack | filesystem/filesystem.c:174-251 | a read returns what a write stored, and reads of other files return what they did |
| FileStore.CutFile | filesystem/filesystem.c:208-251 | create, write 16384 bytes, write one, write 16384: the last write stores 4096 |
| FileStore.TwiceCreated | filesystem/filesystem.c:108-138 | one name created twice: two files, and the name refers to the first |
| FileRuns.Create | filesystem/filesystem.c:108-138 | create_file does in place what it does to the row of slots |
| FileRuns.Chmod | filesystem/filesystem.c:94-106 | so does chmod_file |
| FileRuns.Delete | filesystem/filesystem.c:140-172 | so does delete_file |
| FileRuns.Write | filesystem/filesystem.c:208-251 | so does write_file |
| FileRuns.Append | filesystem/filesystem.c:253-320 | so does append_to_file |
| FileRuns.Read | filesystem/filesystem.c:174-206 | so does read_file |
| FileRuns.Perform | filesystem/filesystem.c:94-320 | any operation keeps the invariant and refines the row of slots, result and contents |
| FileRuns.Replay | filesystem/filesystem.c:18-320 | any operations on a formatted disk return what the row of slots returns and leave its files; the invariant holds after each |
| FileRuns.CutAndRefill | filesystem/filesystem.c:208-251 | in place, the file that was filled, cut and filled again holds 4096 bytes |
| FileRuns.CreateTwice | filesystem/filesystem.c:108-138 | in place, the second of two files with one name is there and is not found |
| Pages.FirstRunSpec | memory/memory.c:37-58 | the search fails iff there is no run, and finds the first one |
| Pages.PlaceSpec | memory/memory.c:32-61 | allocate_pages succeeds iff the table, rotated to the cursor, has n consecutive free pages, and takes the first such |
| Pages.AllocInv | memory/memory.c:46-52 | an allocation keeps live allocations disjoint and the page table true to them |
| Pages.StopsAtEnd | memory/memory.c:86-92 | kfree stops at the end of the allocation or at the last page |
| Pages.BehindEnd | memory/memory.c:89 | the page behind an allocation is never a tail |
| Pages.FreeInv | memory/memory.c:77-93 | kfree of any page keeps the invariant |
| Pages.RunInv | memory/memory.c:32-93 | in every run live allocations have their pages to themselves, and leaked pages never become fewer |
| Pages.TailFollows | memory/memory.c:47-49 | in every run a tail behind another page follows a page that is not free |
| Pages.FreeExact | memory/memory.c:86-92 | kfree frees exactly the pages of the allocation iff it does not go past the last page |
| Pages.AllocThenFree | memory/memory.c:32-93 | an allocation and its free restore the page table iff it does not go past the last page |
| Pages.LeakedForEver | memory/memory.c:88-92 | in every run a page left behind stays a tail that nobody owns |
| Pages.LeakHappens | memory/memory.c:37-92 | a run after which nothing is live and two pages are lost |
| Pages.NextFit | memory/memory.c:37-51 | next fit: after an allocation and any frees, an allocation for which enough pages behind the first one are free takes none of its pages, even if these are free again |
| Pages.AllocNumbers | memory/memory.c:46-51 | the entries 1 and 2 of an allocation by index, all others unchanged, and the cursor at (first page + n) modulo 4096 |
| Pages.PagesForFits | memory/memory.c:64-65 | kmalloc asks for the least number of pages that hold the bytes and eight more |
| Pages.PointerFits | memory/memory.c:74-84 | the pointer is eight bytes behind the start of the first page, from which kfree finds that page again, and the bytes asked for lie in the pages of the allocation |
| Pages.BytesInside | memory/memory.c:63-75 | the bytes behind the pointer lie in the 16 MB of kernel memory iff the allocation does not go past the last page |
| Pages.BytesApart | memory/memory.c:63-75 | the bytes of two live allocations do not overlap |
| Pages.PageAllocator.constructor | memory/memory.c:17-30 | all 4096 pages free, the cursor at the first |
| Pages.PageAllocator.Search | memory/memory.c:33-58 | the scan with its counter finds the first run |
| Pages.PageAllocator.Mark | memory/memory.c:46-49 | one head and n - 1 tails, going round |
| Pages.PageAllocator.AllocatePages | memory/memory.c:32-61 | the first run, its entries 1 and 2 by index, all others unchanged, and the cursor at (r + n) modulo 4096; on failure no change; invariant kept |
| Pages.PageAllocator.KMalloc | memory/memory.c:63-75 | a pointer behind the header of such an allocation, or NULL and no change |
| Pages.PageAllocator.ClearTails | memory/memory.c:89-92 | exactly the tails from there on are free |
| Pages.PageAllocator.KFree | memory/memory.c:77-96 | NULL and a page that is no head change nothing; otherwise the head and the tails behind it are free; the cursor stays; invariant kept for any page |
| Numerals.ParsedDecimal | kernel.c:39-71 | atoi reads back what itoa writes |
| Numerals.DecimalParsed | kernel.c:39-71 | itoa writes back what atoi reads iff the text is a number without leading zeros |
| Numerals.ValueByPlaces | kernel.c:46-48 | the number that digits stand for is the sum of their ASCII codes minus 48, times the powers of ten |
| Numerals.ParsedText | kernel.c:40-54 | a text stands for its digits up to the first other character, negated behind a minus sign |
| Numerals.StoreDigits | kernel.c:59-61 | the digit loop stores the digits from the last to the first |
| Numerals.ReverseInPlace | kernel.c:66-70 | the characters are reversed, the others stay |
| Numerals.Itoa | kernel.c:57-71 | the buffer holds the number as a C string, and nothing behind it changes |
| Numerals.ReadDigits | kernel.c:46-53 | the loop reads the number and never leaves the range of int |
| Numerals.Atoi | kernel.c:39-55 | the number that the text starts with |
| Numerals.RoundTrip | kernel.c:39-71 | itoa into a buffer and then atoi on the buffer give the number |

## Left out

- CString.Strncpy: does not cover a text that fills the buffer; the counter of the padding loop would then start from the largest size_t.
- FileSystem.FileSystem.CreateFile: does not cover names of 255 characters and more, for the same reason.
- Pages.PageAllocator.KMalloc: sizes are unbounded; that size plus header does not overflow size_t is assumed. Header contents (`size`, `is_free`) are not modelled, since nothing reads them.
- Numerals.Itoa: does not cover the least int, whose negation is no int.
- Numerals.Atoi: does not cover texts whose number is no int, for which the C code overflows.
- Lifecycle.FindZombie: a null parent, which the C code would follow, never matches; create_process leaves `parent` unset and it is taken to be null.
- Kernel.Kernel.GetNewPid: pids do not wrap around.
- Kernel.Kernel.Fork: running out of memory for the page tables is the same as for the stack: the pid is used up and the child is lost.
- Reaped PCBs are not handed out again by kmalloc; the model never reuses a PCB.
- PCBs and tree nodes are entries of a pool (`seq` of records in a field); assigning a field replaces the entry. Rows of the block store are sequences in an array.
- The vruntime of a process is fixed while it is in the tree; the scheduler does not call the CFS functions.
- Stack switching, page tables and stack copying are replaced by a record of where each process goes on; a fork's child goes on in its own code.
- cli_loop is an idle state in which processes can be created and schedule can be called.
- Bounded waiting is counted in calls of schedule; that a running process ever calls it is up to the process.
- memset, memcpy: sequence operations. strlen, strcmp, strchr, strtok, int_to_hex, int_to_dec, int_to_str: no invariant to state.
- Superblock fields that never change, list_files and debug output.
- Boot, descriptor tables, interrupts, port I/O, keyboard, screen and serial line.
- The sample programs in test_processes, among them draining the ready queue by hand.
