# ZeOS kernel and system-call monitor: a verified model

ZeOS is a small teaching kernel for the x86. System calls, clock ticks and key presses enter it through interrupt
gates, so each of them is one atomic step. This project models the parts of the kernel that keep shared state
consistent over many such steps, together with the call counters of the Linux module `syscalls_mon`, and proves
what those parts promise over every run.

`dafny verify dfyconfig.toml` checks the whole project.

## How it is organised

Each component comes in two forms. A *view* is a value that says what the tables mean (which blocks a file has, which
tasks wait where), with one function per call; its theorems are lemmas over all states and all runs. A *class* holds
the kernel's tables as arrays and queues and runs the kernel's own loops on them; every method is proved to compute
exactly the view's step and to keep the invariant.

| files | component |
|---|---|
| `Chains.dfy` | chains of blocks threaded through `fat[]`, and the class that allocates, extends and frees them |
| `FsSpec.dfy`, `FsInvariant.dfy`, `FsTheorems.dfy` | the file calls as a state machine, the invariant of every run, boot, reads and writes |
| `FsCalls.dfy` | what single reads and writes return and store, byte by byte; which blocks calls take and give back |
| `FsLost.dfy`, `FsLeaks.dfy` | the references that exits lose: the exact counts after every run, and files that no unlink removes |
| `FsService.dfy` | what the file calls are for: a map from names to bytes, and the refinement of every run to it |
| `FileSystem.dfy` | the imperative file system over `fat[]`, the disk, the directory, the table of open files and the descriptors |
| `SchedSpec.dfy`, `SchedInvariant.dfy`, `SchedTheorems.dfy`, `SemTheorems.dfy` | tasks, run queue, semaphores and keyboard queue; starvation freedom; semaphore conservation and order |
| `SchedCalls.dfy`, `SchedSteps.dfy` | the answer of each scheduler call by its guard; what every step does to each task, queue and semaphore; what the counters of a task count |
| `Scheduler.dfy` | the imperative scheduler and semaphore calls, over tables and pointer-level queues |
| `Lists.dfy`, `TaskQueues.dfy` | the pointer-level circular lists, and all the scheduler's queues threaded through the tasks' list entries |
| `Keyboard.dfy` | the character ring and its blocked readers |
| `Frames.dfy` | physical frames over fork and exit |
| `Processes.dfy` | tasks, frames and descriptors together: fork and exit as one step on all three |
| `Terminal.dfy` | the keyboard ring and the scheduler together: what a blocked reader returns |
| `Monitor.dfy` | the counters of monitored system calls |
| `MonitorHistory.dfy` | the same counters computed from the calls and resets alone |
| `Console.dfy` | the staged console write |
| `Counting.dfy` | counting occurrences in sequences, shared by the reference counts, the queues and the frames |
| `Division.dfy` | quotients and remainders by an arbitrary positive number, shared by the blocks and the ring |

## Main results

- Every run of open, dup, close, fork, exit, unlink, read and write is, reply by reply, a run of a service over names,
  byte sequences and shared positions (`FsService.RunRefines`), and the imperative tables serve any sequence of calls
  that way (`FileSystemCode.FileSystem.Serve`). The service knows only how many handles, names and blocks are left and
  which handles lost descriptors in exits; that settles every reply and every effect but the choice of a free handle, so
  each error is given exactly under its condition (`FsService.CallIsDetermined`).
- A write puts the bytes that find a place at offset + i of the file and keeps every other byte (`FsCalls.WriteBytes`);
  reads from where it started return them (`FsCalls.WriteReadBack`), each as many as it asked for or as are left, with
  one stated exception (`FsCalls.ReadAnswer`).
- After every run from boot a row of open files counts the descriptors that name it and those that died in exits, one
  less for the row that boot miscounts (`FsLeaks.RefsAfterBoot`).
- The free list and the files' chains partition the disk, live names are distinct, and the two levels of reference
  counts agree with the descriptors of live tasks, after a call if and only if it is not one of the two kinds that the
  code accepts and should not (`FsInvariant.StepInv`).
- Each live task is in exactly one queue, once, and the running one is the head of the run queue; every step keeps this
  if and only if it is not an exit that leaves fewer than two runnable tasks (`SchedInvariant.StepInv`).
- Every step changes of each task, queue and semaphore, and of the clock, exactly what a table by conditions on the state
  before it tells (`SchedSteps.StepTold`). Over runs, a task's counters are the ticks that found it running and the times
  it got the processor (`SchedSteps.CountersCount`), and no pid is given out twice (`SchedSteps.NextPidIsNew`).
- A runnable task runs within as many ticks as the time left to the running task plus the quanta queued before it,
  whatever else happens (`SchedTheorems.NoStarvation`), and with ticks alone exactly then (`SchedTheorems.RankIsExact`).
- Semaphore units are conserved and waiters are released in the order in which they blocked, after every run
  (`SemTheorems.SemaphoresConserve`); from blocking to running again, whatever happens between, a waiter sees 0 exactly
  if a signal released it, else -1 (`SemTheorems.WaiterReturns`).
- All typed keys reach the readers in the order of typing and of asking (`Keyboard.KeysAreDelivered`), throughout a run
  if and only if each of its steps meets its condition (`Keyboard.KeptIff`).
- A task that blocks for the keyboard returns, when it runs again, as many characters as it asked for, and its read is
  complete with as many, in its turn, whatever else happens in the run (`Terminal.ReaderReturns`).
- The task table, the frames and the descriptors agree on which task slots are live after every run, and with the
  shipped constants a fork fails exactly if every task slot is taken (`Processes.ForkFailsOnlyWhenFull`); else it answers
  with the pid of a child that has the caller's descriptors and frames of its own (`Processes.ForkGivesAfterBoot`).
- After every run, each row of the monitor counts the calls begun, succeeded and failed, and their cycles, since the
  thread's last reset, and each global row counts them since loading (`MonitorHistory.RowsAreHistory`,
  `MonitorHistory.GlobalsAreHistory`).

Eight promises do not hold of the code as it is. Each has the exact condition under which it holds, for all states,
and a case in which it fails:

| promise | holds exactly when | fails in |
|---|---|---|
| a write goes to the offset | the offset is in the block of the file's end (`FsTheorems.WriteInPlaceIff`) | `FsTheorems.MisplacedWriteLeavesItsBlock` |
| closing leaves no named row that looks free | the row has another reference or no other name (`FsInvariant.CloseInvIff`) | `FsTheorems.BootRowIsReused` |
| after an exit a queued task runs | two tasks remain runnable (`SchedInvariant.ExitInvIff`) | `SchedTheorems.ExitCanStrand` |
| a keyboard read delivers the next characters | it can be served at once, or finds the ring empty (`Keyboard.ReadInvIff`) | `Keyboard.TypeAheadIsLost` |
| a typed key is kept until it is read, without loss of another | a reader is waiting or the ring has room (`Keyboard.KeyInvIff`) | `Keyboard.FullRingLosesTheOldest` |
| a row of open files counts the descriptors that name it, so that its file can be unlinked when they are closed | every task that exited had closed its descriptors of all rows but row 1 (`FsLeaks.ExactAfterRunIff`) | `FsLeaks.LeakFromBoot`, for good (`FsLeaks.LeakedFromBootForGood`) |
| the characters copied to a reader fit the staging buffer on the kernel's stack | the read is not one of those that find a full ring or, behind another, leave too long a rest (`Keyboard.ReadOverrunsIff`) | `Keyboard.BufferIsOverrun` |
| opening the empty path fails | no unused slot is found or a check fails (`FsInvariant.OpenInvIff`) | `FsTheorems.BlankOpenAtBoot` |

A misplaced write fails in one of two ways, by whether the file's last block is full
(`FsTheorems.MisplacedWriteTakesABlockPerByte` is the other). The staging buffer holds as many characters as the ring,
which is enough wherever the account of characters holds (`Keyboard.CopyFits`).

## Model

| member | source | states |
|---|---|---|
| Chains.ChainsAreAcyclic | zeos/filesystem.c:186-189 | a list of blocks that ends with -1 never meets a block twice, so every walk over it terminates |
| Chains.ChainIsUnique | zeos/include/filesystem.h:21-27 | the table and the first block determine the whole chain |
| Chains.ChainCut | zeos/filesystem.c:123-128 | writing the end mark in block n - 1 leaves two disjoint chains, the first n blocks and the rest |
| Chains.ChainJoin | zeos/filesystem.c:186-191 | linking the last block of a chain to the head of a disjoint one gives the concatenation |
| Chains.AllocThenFreeRotates | zeos/filesystem.c:68-192 | allocating n blocks, up to all of them, and freeing them again rotates the free list by n |
| FsSpec.PositionIs | zeos/devices.c:208-218 | a position has one block and one byte in it, for every block size |
| FsSpec.BlocksBound | zeos/devices.c:178-190 | the blocks of a file hold all its bytes, and one block less would not |
| FsSpec.BlocksIs | zeos/devices.c:178-190 | no other number of blocks does |
| FatTable.Fat.constructor | zeos/filesystem.c:44-51 | all blocks are free, in ascending order |
| FatTable.Fat.Balloc | zeos/filesystem.c:68-129 | succeeds exactly for 1 <= n <= free blocks, returns the first n free blocks in order as a terminated chain disjoint from all others; on failure nothing changes |
| FatTable.Fat.WalkAndCut | zeos/filesystem.c:71-128 | the walk with roll-back stops at block n of the free list or restores the first free block |
| FatTable.Fat.Freeb | zeos/filesystem.c:173-192 | a whole file chain is appended to the free list, all other chains are kept; an index outside the disk is refused |
| FatTable.Fat.AddBlock | zeos/filesystem.c:194-197 | a block in no chain becomes the last block of one file; every other chain is kept |
| FsInvariant.BlocksTake | zeos/devices.c:178-190 | moving free blocks to the end of a file keeps the partition of the disk |
| FsInvariant.BlocksGive | zeos/devices.c:156-162 | giving a file's blocks back keeps the partition of the disk |
| FsInvariant.AddRefInv | zeos/sys.c:488-490 | one reference more or less on a row, matched by one descriptor, keeps the sums of references and the cover of descriptors |
| FsInvariant.AttachInv | zeos/sys.c:427-434 | a fresh row over a live file keeps the invariant |
| FsInvariant.CreateInv | zeos/filesystem.c:131-166 | filling a free slot with an empty file of one block keeps the invariant |
| FsInvariant.OpenInvIff | zeos/sys.c:368-437 | opening keeps the invariant for every path except an empty one that meets a free slot |
| FsInvariant.BlankOpen | zeos/sys.c:396-434 | the empty path opens a free slot exactly under the stated guard and otherwise fails without effect |
| FsInvariant.DescriptorIsOpen | zeos/sys.c:449-460 | a descriptor of a live task names a row in use over a live file, so a row in use is never taken by open |
| FsInvariant.DupInv | zeos/sys.c:476-493 | dup keeps the invariant |
| FsInvariant.CloseInvIff | zeos/sys.c:495-511 | close keeps the invariant exactly when the row keeps a reference or no other descriptor names it; only row 1 can fail |
| FsInvariant.ShareInv | zeos/sys.c:130-139 | after k rounds of fork's loop the counts match the child's first k descriptors |
| FsInvariant.ForkInv | zeos/sys.c:130-139 | sharing the parent's descriptors keeps the invariant |
| FsInvariant.ExitInv | zeos/sys.c:285-316 | a task that dies without closing leaves the invariant in place |
| FsLost.ExitLost | zeos/sys.c:285-316 | an exit leaves on each row exactly as many references too many as the task had descriptors of it |
| FsLost.StepLost | zeos/sys.c:368-548 | no other call changes how many references of a row have no descriptor |
| FsLost.ExactStepIff | zeos/sys.c:285-316 | exact counts stay exact except by the exit of a task with a descriptor of a row other than 1 |
| FsLost.FreeIffUnnamed | zeos/sys.c:384-384 | where the counts are exact, open sees a row as free exactly if no descriptor names it |
| FsInvariant.OpenFilesAreNotUnlinked | zeos/sys.c:513-548 | a file that a live task has open counts references, and no unlink changes it |
| FsInvariant.UnlinkInv | zeos/sys.c:513-548 | unlink keeps the invariant, including the partition of the disk |
| FsInvariant.ReadInv | zeos/devices.c:201-249 | read keeps the invariant |
| FsInvariant.WriteInv | zeos/devices.c:164-199 | write keeps the invariant, including the block count of the file, also when it runs out of space |
| FsInvariant.StepInv | zeos/sys.c:368-548 | a call keeps the invariant if and only if it is neither an open of a blank slot nor an unsafe close |
| FsTheorems.BootInv | zeos/sched.c:54-82 | the tables set up at boot satisfy the invariant for every table size |
| FsTheorems.BootRowIsReused | zeos/sched.c:74-82 | after boot, closing descriptor 1 makes row 1 the next row to be taken while descriptor 2 still names it |
| FsTheorems.BlankOpenAtBoot | zeos/sys.c:396-434 | after boot the empty path opens an unused slot |
| FsTheorems.ReadOnce | zeos/devices.c:201-249 | a read of positive size returns the next stretch of the file, no longer than the size, moves the offset past it, and is empty only at the end; FsCalls.ReadAnswer gives the exact length |
| FsTheorems.ReadsConcatenate | zeos/devices.c:201-249 | reads of any positive sizes concatenate to the file's bytes without gap, and as many reads as bytes left return them all |
| FsTheorems.WriteOutcome | zeos/devices.c:164-199 | a write succeeds exactly if offset + n <= (blocks + free) * BLOCK_SIZE; otherwise ENOSPC with exactly the prefix that fits stored and no block free; other files keep their bytes; FsCalls.WriteBytes says which byte is where |
| FsCalls.ReadAnswer | zeos/devices.c:201-249 | a read of any size, 0 included, returns size - offset bytes if the size is a block multiple with 0 < offset < size < total, else the smaller of the size and what is left, as they are from the offset on; the offset moves by as many |
| FsCalls.WriteBytes | zeos/devices.c:164-199 | of the n bytes that find a place, byte i is at offset + i afterwards; every other old byte, every other row and every descriptor is as before; the answer is the size if n is, else ENOSPC |
| FsCalls.WriteReadBack | zeos/devices.c:164-249 | reads of any positive sizes through any descriptor that stands where the write did return the written bytes first, and as many reads as bytes return them all |
| FsCalls.WriteThenRead | zeos/devices.c:164-249 | one read of the written size from there returns all the data, or the stated part of it at the block boundary |
| FsCalls.CreateTakesTheOldest | zeos/filesystem.c:131-166 | a new file takes the head of the free list and changes no other slot |
| FsCalls.UnlinkedBlocksComeLast | zeos/filesystem.c:173-192 | the blocks of an unlinked file go behind all that were free, in their order; its slot keeps its access field, and no other slot, row or descriptor changes |
| FsTheorems.WriteInPlaceIff | zeos/devices.c:168-194 | all bytes of a write land at offset + i exactly when the offset is in the block of the file's end |
| FsTheorems.MisplacedWriteLeavesItsBlock | zeos/devices.c:168-194 | if the file's last block is not full, every longer write that starts in another block stores past the end of the last one |
| FsTheorems.MisplacedWriteTakesABlockPerByte | zeos/devices.c:168-194 | if it is full, each byte that a write from another block stores before the file's end goes to the start of a new block of its own |
| FsService.CallIsDetermined | zeos/sys.c:368-548 | the names, handles and room left settle the reply and the effect of every call but for the free handle that an open takes, and an error changes nothing unless it is that of a write that stored a part |
| FsService.OpenErrorIs | zeos/sys.c:368-425 | the checks of open fail exactly under the service's conditions, in the code's order |
| FsService.OpenRefines | zeos/sys.c:368-437 | unless a check fails, open binds the lowest free descriptor to a fresh handle at position 0 with the access mode of the flags, and adds an empty file, which takes one block, exactly for a new name |
| FsService.DupRefines | zeos/sys.c:476-493 | dup fails exactly for an unbound descriptor or a full table, and else binds the lowest free descriptor to the same handle |
| FsService.CloseRefines | zeos/sys.c:495-511 | close succeeds exactly on a bound descriptor and unbinds it; the handle goes exactly if that was its last descriptor and it lost none in an exit |
| FsService.ForkRefines | zeos/sys.c:130-139 | the child has the parent's descriptors; files and handles are unchanged |
| FsService.UnlinkRefines | zeos/sys.c:513-548 | unlink succeeds exactly on an existing name without handles, removes just that name and gives its blocks back; each error has its condition |
| FsService.ReadRefines | zeos/sys.c:439-474 | each error has its condition; otherwise read returns the bytes of the named file at the handle's position and advances it, or a device answers |
| FsService.WriteRefines | zeos/sys.c:20-52 | each error has its condition, a negative size included; otherwise write splices the data into the named file if it fits, else the longest prefix that does with ENOSPC, and takes as many blocks as that needs |
| FsService.StepRefines | zeos/sys.c:368-548 | every call of the kernel is a call of the service with the same reply |
| FsService.RunRefines | zeos/sys.c:368-548 | every run of calls is a run over names and byte sequences |
| FsLeaks.RunLost | zeos/sys.c:285-316 | after every run a row has lost what it had lost before and the descriptors that died in the exits of the run |
| FsLeaks.RefsAfterBoot | zeos/sys.c:130-139 | after every run from boot, a row's references are its descriptors and those that died in exits, one less for row 1 |
| FsLeaks.ExactAfterRunIff | zeos/sys.c:285-316 | the counts are exact after a run exactly if every exit in it was that of a task without counted descriptors |
| FsLeaks.LeakedForGood | zeos/sys.c:513-548 | a handle that lost a descriptor keeps its name busy in every later run |
| FsLeaks.LostFileStays | zeos/sys.c:513-548 | every later unlink of such a file answers EBUSY |
| FsLeaks.NewFileLeaks | zeos/sys.c:285-316 | in any state, opening a new file, a fork, the child's exit and a close lose a reference to it |
| FsLeaks.LeakFromBoot | zeos/sys.c:285-316 | it happens from boot to any new name that fits a slot |
| FsLeaks.LeakedFromBootForGood | zeos/sys.c:513-548 | and from then on every unlink of that name answers EBUSY |
| FileSystemCode.FileSystem.constructor | zeos/filesystem.c:60-65 | the tables after boot represent the boot state |
| FileSystemCode.FileSystem.InitDir | zeos/filesystem.c:7-32 | two device slots, all others free |
| FileSystemCode.FileSystem.InitFdt | zeos/filesystem.c:34-42 | two open rows, all others unused |
| FileSystemCode.FileSystem.FindName | zeos/sys.c:397-397 | the scan finds the first slot with the name, or none |
| FileSystemCode.FileSystem.FindSlot | zeos/filesystem.c:136-136 | the scan finds the first free slot, or none |
| FileSystemCode.FileSystem.FindRow | zeos/sys.c:384-384 | the scan finds the first row without references, or none |
| FileSystemCode.FileSystem.FindFd | zeos/sys.c:389-389 | the scan finds the first free descriptor, or none |
| FileSystemCode.FileSystem.Dup | zeos/sys.c:476-493 | the descriptor search and the two counters have exactly the effect of the dup step; chains, disk and tables still represent a state with the invariant |
| FileSystemCode.FileSystem.Close | zeos/sys.c:495-511 | the counters and the descriptor have exactly the effect of the close step; the invariant survives exactly if no row in use looks free afterwards |
| FileSystemCode.FileSystem.Fork | zeos/sys.c:130-139 | the loop over the descriptors counts every shared descriptor once on its row and on its file, and touches no chain and no byte |
| FileSystemCode.FileSystem.Exit | zeos/sys.c:285-316 | the descriptors die with the task and no count changes |
| FileSystemCode.FileSystem.Unlink | zeos/sys.c:513-548 | exactly an unreferenced slot is cleared, its whole chain is appended to the free list, and every other file keeps its chain and bytes |
| FileSystemCode.FileSystem.Create | zeos/filesystem.c:131-166 | the first free slot gets the first free block and the name; each of the three errors leaves everything unchanged |
| FileSystemCode.FileSystem.Open | zeos/sys.c:368-437 | the descriptor, row and directory scans and create_file have exactly the effect of the open step, with the errors in the code's order; the invariant survives exactly if no blank slot was opened |
| FileSystemCode.FileSystem.ReadFile | zeos/devices.c:201-249 | the two loops return the slice at the offset, of the length of the read step, which FsCalls.ReadAnswer states: min(n, rest) except for the early stop at a block boundary equal to n |
| FileSystemCode.FileSystem.Seek | zeos/devices.c:208-218 | the walk finds the block of the offset |
| FileSystemCode.FileSystem.ReadByte | zeos/devices.c:222-245 | one round fetches the byte at the offset, stepping over block ends, and stops early exactly at the stated boundary |
| FileSystemCode.FileSystem.Extend | zeos/devices.c:178-187 | a full file gets the first free block as its last one, or nothing changes |
| FileSystemCode.FileSystem.Poke | zeos/devices.c:189-191 | storing a byte changes that byte of that file and no byte of any other file; the byte is the given one, as FsCalls.WriteBytes says of the whole write |
| FileSystemCode.FileSystem.WriteByte | zeos/devices.c:176-196 | one round stores one byte exactly if there is room, and moves block, byte, offset and sizes as the cursor of WriteInPlaceIff moves |
| FileSystemCode.FileSystem.WriteFile | zeos/devices.c:164-199 | the loop stores all the data or the longest prefix that fits, as the write step does, byte by byte FsCalls.WriteBytes |
| FileSystemCode.FileSystem.LastBlock | zeos/devices.c:174-174 | the walk ends at the last block of the file |
| FileSystemCode.FileSystem.Read | zeos/sys.c:439-474 | bad descriptor, size, mode and device cases answer as the code does; a regular file answers with the slice |
| FileSystemCode.FileSystem.Write | zeos/sys.c:20-52 | bad descriptor, size, negative size, mode and device cases answer as the code does; a regular file stores the longest prefix that fits |
| FileSystemCode.FileSystem.Call | zeos/sys.c:368-548 | each call in place is the step of the state machine, and keeps the invariant exactly if it is enabled |
| FileSystemCode.FileSystem.Serve | zeos/sys.c:368-548 | any sequence of calls served in place is a run over names and byte sequences |
| SchedInvariant.BootInv | zeos/sched.c:14-87 | the state after boot satisfies the scheduler's invariant |
| SchedInvariant.TickInv | zeos/interrupt.c:231-244 | a tick keeps the invariant: refresh, rotation or neither |
| SchedInvariant.ForkInv | zeos/sys.c:114-146 | a new task is runnable and owns no semaphore |
| SchedInvariant.InitInv | zeos/sys.c:150-171 | an initialised semaphore has exactly one live owner and no waiter was dropped |
| SchedInvariant.WaitInv | zeos/sys.c:177-211 | a blocking wait moves the running task from the run queue to the end of the wait list and switches to a real task |
| SchedInvariant.SignalInv | zeos/sys.c:216-242 | a signal moves one waiter or counts one unit |
| SchedInvariant.DestroyInv | zeos/sys.c:246-283 | destroying a semaphore empties its wait list and leaves it without owner |
| SchedInvariant.DestroyOwnedInv | zeos/sys.c:295-299 | the loop of exit destroys exactly the owned semaphores and queues all their waiters |
| SchedInvariant.ExitInvIff | zeos/sys.c:285-316 | exit hands over to the head of the run queue exactly when at least two tasks remain runnable |
| SchedInvariant.KbdBlockInv | zeos/devices.c:71-94 | blocking on the keyboard keeps the invariant; task 0 never blocks |
| SchedInvariant.KbdWakeInv | zeos/devices.c:112-116 | waking the first reader keeps the invariant |
| SchedInvariant.StepInv | zeos/sched.c:168-196 | every step keeps each live task in exactly one queue and the running task at its head, if and only if it does not strand the processor |
| SchedTheorems.TickRank | zeos/interrupt.c:231-244 | a tick lowers the rank of every waiting task by exactly one; the task runs exactly when its rank was one |
| SchedTheorems.RankStep | zeos/sys.c:177-328 | no step raises the rank of a waiting task |
| SchedTheorems.NoStarvation | zeos/sched.c:168-196 | in every run with as many ticks as the rank of a waiting task, the task runs |
| SchedTheorems.RankIsExact | zeos/sched.c:168-196 | with ticks alone the task first runs at the tick numbered by its rank |
| SchedTheorems.BooksStep | zeos/interrupt.c:239-244 | every step keeps live pids distinct and the running task's remaining time equal to the time left |
| SchedTheorems.BooksAreKept | zeos/sys.c:119-124 | in every reachable state the queue invariant holds, live pids are distinct and the running task's own account of its time is right |
| SchedTheorems.BootBooks | zeos/sched.c:38-44 | the books are right at boot |
| SchedTheorems.NiceIsUndone | zeos/sys.c:318-328 | nice changes only the quantum, returns the old one, and giving that back restores the state |
| SchedCalls.RefusedChangesNothing | zeos/sys.c:150-328 | a call that is refused, by its arguments or by its caller, changes nothing |
| SchedCalls.WaitAnswer | zeos/sys.c:177-211 | EPERM exactly for the task with pid 0, else EINVAL exactly for an index out of range or a semaphore not initialised, else 0 |
| SchedCalls.WaitTakesOne | zeos/sys.c:208-210 | a wait on a positive count takes one unit and does nothing else |
| SchedCalls.InitAnswer | zeos/sys.c:150-171 | EINVAL exactly for an index out of range, else EBUSY exactly for a semaphore in use, else 0 |
| SchedCalls.SignalAnswer | zeos/sys.c:216-242 | EINVAL exactly for an index out of range or a semaphore not initialised, else 0 |
| SchedCalls.DestroyAnswer | zeos/sys.c:246-283 | the same, and EPERM exactly if the caller does not own it |
| SchedCalls.NiceAnswer | zeos/sys.c:318-328 | EINVAL exactly for a quantum below 1, else the old quantum |
| SchedCalls.KbdBlockAnswer | zeos/devices.c:71-94 | EPERM, which task 0 gets and which a blocked caller's saved size replaces |
| SchedCalls.ForkAnswer | zeos/sys.c:60-147 | EAGAIN and no change, or the positive pid of the child, which no task has; the child takes the first free slot, last place in the run queue, the caller's quantum, 0 to return and no semaphore; every other task stays |
| SchedSteps.StepTold | zeos/sched.c:116-196 | for every step: who runs next and how long, each field of each task, both queues, each semaphore, and the pids given out, by conditions on the state before it |
| SchedSteps.ExitTold | zeos/sys.c:285-316 | the same for an exit: its task dies, the semaphores it owned end, their waiters are runnable in order with -1 to return, and the second of the run queue runs |
| SchedSteps.CountersCount | zeos/interrupt.c:231-244 | over every run that a task survives, its tick counter grows by the ticks that found it running and its transitions by the times it got the processor from another |
| SchedSteps.TaskZeroCounts | zeos/sched.c:38-125 | from boot, that holds of task 0 in every run, with its first turn counted |
| SchedSteps.NextPidIsNew | zeos/sys.c:119-124 | the next pid given out after a run was that of no task in any state of the run |
| SchedTheorems.PidsStep | zeos/sys.c:150-283 | only fork and exit change which task slots are live |
| SchedTheorems.ExitPids | zeos/sys.c:285-316 | exit frees exactly the slot of the running task |
| SchedTheorems.StrandedTaskKeepsRunning | zeos/sched.c:174-180 | after an exit that leaves one task runnable the processor stays with the dead task |
| SchedTheorems.ExitCanStrand | zeos/sched.c:174-180 | this happens from boot: fork, 60 ticks, exit of the child |
| SemTheorems.ConservedStep | zeos/sys.c:150-283 | every step keeps initial + signals = count + completed waits and blocked = released followed by waiting |
| SemTheorems.SemaphoresConserve | zeos/sys.c:150-283 | conservation and first-come-first-served hold after every run |
| SemTheorems.BootConserves | zeos/sys.c:150-283 | the same from boot |
| SemTheorems.WaiterIsAlone | zeos/sys.c:195-206 | a waiter is live and in no other queue |
| SemTheorems.OrphanReleased | zeos/sys.c:295-299 | every waiter of every semaphore that an exiting task owned is runnable and will see -1 |
| SemTheorems.WaiterReleased | zeos/sys.c:216-283 | a waiter leaves only by a signal, first in line and with 0, or by the semaphore's end with -1; either way it is runnable |
| SemTheorems.ReturnValueKept | zeos/sys.c:233-236 | no step changes the saved return value of a queued task |
| SemTheorems.QueuedReturns | zeos/sys.c:233-236 | over any run up to the first state in which it runs, a queued task keeps that value |
| SemTheorems.WaiterReturns | zeos/sys.c:177-283 | over any run from blocking to the first state in which it runs, a waiter was released and returns 0 exactly if a signal did it, else -1 |
| SchedulerCode.Scheduler.constructor | zeos/sched.c:14-87 | the tables after boot are the boot state, task 0 alone in the list of the run queue |
| SchedulerCode.Scheduler.Unlink | zeos/include/list.h:91-96 | list_del of a task's entry takes it out of its queue and leaves it in none |
| SchedulerCode.Scheduler.Enqueue | zeos/include/list.h:67-70 | list_add_tail of a task's entry puts it at the end of a queue |
| SchedulerCode.Scheduler.SwitchToFirst | zeos/sys.c:200-206 | the entry after the list's head is that of the next task to run, which exists |
| SchedulerCode.Scheduler.TaskSwitch | zeos/sched.c:116-125 | the new task gets its full quantum as time left and as its own remaining time |
| SchedulerCode.Scheduler.Schedule | zeos/sched.c:168-196 | refreshes the quantum if at most one task is queued, else rotates a living caller to the end and hands over to the head |
| SchedulerCode.Scheduler.Clock | zeos/interrupt.c:231-244 | charges one tick to the running task and schedules; the invariant is kept |
| SchedulerCode.Scheduler.SearchFreeTask | zeos/sched.c:104-112 | the first free slot, or -1 |
| SchedulerCode.Scheduler.Fork | zeos/sys.c:60-147 | the scan and the loop compute the fork step, whose child and answer SchedCalls.ForkAnswer gives; the frames are a flag here and their own in Processes |
| SchedulerCode.Scheduler.Nice | zeos/sys.c:318-328 | the quantum of the running task and the old one as result |
| SchedulerCode.Scheduler.SemInit | zeos/sys.c:150-171 | an unused semaphore gets the value, an empty wait list and the caller as its only owner; a used one answers EBUSY |
| SchedulerCode.Scheduler.SemWait | zeos/sys.c:177-211 | takes a unit, or queues the caller last and runs the next task, which exists; task 0 is refused; the answer is that of SchedCalls.WaitAnswer |
| SchedulerCode.Scheduler.SemSignal | zeos/sys.c:216-242 | wakes the first waiter with 0, or counts a unit if nobody waits |
| SchedulerCode.Scheduler.DrainWaiters | zeos/sys.c:263-277 | the loop queues all waiters in order with -1 to return |
| SchedulerCode.Scheduler.SemDestroy | zeos/sys.c:246-283 | only the owner ends a semaphore; every waiter is runnable, in order, with -1 to return |
| SchedulerCode.Scheduler.Exit | zeos/sys.c:285-316 | the exit step; the invariant survives exactly when the processor is not stranded |
| SchedulerCode.Scheduler.KbdBlock | zeos/devices.c:71-94 | the caller goes to the end of the keyboard queue with the size to return and the next task runs; task 0 is refused |
| SchedulerCode.Scheduler.KbdWake | zeos/devices.c:112-116 | the first reader goes to the end of the run queue |
| Lists.Init | zeos/include/list.h:23-27 | an empty list beside the others |
| Lists.AddTail | zeos/include/list.h:67-70 | appends to one list; every other list over the same pool is unchanged |
| Lists.Add | zeos/include/list.h:53-56 | prepends to one list; every other list is unchanged |
| Lists.Del | zeos/include/list.h:91-96 | removes the entry from whichever list holds it, without being told the head; every other list is unchanged |
| Lists.Empty | zeos/include/list.h:113-116 | true exactly for the empty list |
| Lists.FirstIsLast | zeos/include/list.h:139-143 | first and last coincide exactly when the length is at most one |
| Lists.RingIsUnique | zeos/include/list.h:132-133 | following the pointers determines the sequence |
| TaskQueues.ThreadedRemove | zeos/include/list.h:91-96 | removing a task from a queue of slots is taking its entry out of the list |
| TaskQueues.Move | zeos/devices.c:104-116 | an entry moves from one list to the end of another; every other list is unchanged |
| TaskQueues.MoveTask | zeos/devices.c:104-116 | a task slot leaves one queue and joins the end of another, as the scheduler's steps say of sequences |
| TaskQueues.Queues.constructor | zeos/include/list.h:23-27 | all lists are empty |
| TaskQueues.Queues.Push | zeos/include/list.h:67-70 | an unqueued task's entry becomes the last of one list; all other queues are kept |
| TaskQueues.Queues.PushFirst | zeos/include/list.h:53-56 | or the first of it |
| TaskQueues.Queues.Delete | zeos/include/list.h:91-96 | a task's entry leaves the one queue that it is in |
| TaskQueues.Queues.First | zeos/sched.c:89-91 | the first entry of a list gives the slot of the first task |
| TaskQueues.Queues.IsEmpty | zeos/include/list.h:113-116 | true exactly for an empty queue |
| TaskQueues.Queues.AtMostOne | zeos/sched.c:177-177 | list_first and list_last coincide exactly for a queue of at most one task |
| Keyboard.KeyInvIff | zeos/interrupt.c:286-324 | exactly the keys that a reader waits for, or that the ring has room for, keep it |
| Keyboard.FullRingLosesTheOldest | zeos/interrupt.c:294-296 | a key on a full ring with no reader takes the place of the oldest one, and the next read delivers it first |
| Keyboard.UnreadGrows | zeos/interrupt.c:294-296 | the key becomes the last of the unread characters and the write index goes one step round the ring, for every ring size |
| Keyboard.ReadInv | zeos/devices.c:45-94 | a read that is served at once or finds the ring empty keeps the account |
| Keyboard.ReadInvIff | zeos/devices.c:45-94 | exactly those reads keep it |
| Keyboard.TypeAheadIsLost | zeos/devices.c:71-94 | a reader that blocks on typed-ahead characters receives the next key first |
| Keyboard.CopyFits | zeos/devices.c:118-142 | wherever the account holds, a key makes no copy longer than the staging buffer |
| Keyboard.OverrunsByCount | zeos/devices.c:118-142 | whether some key of a sequence makes too long a copy depends on the counts alone |
| Keyboard.ReadOverrunsIff | zeos/devices.c:118-142 | for every read and every sequence of keys after it: the copy overruns the buffer exactly if the read finds a full ring and asks for one more, or waits behind another and its keys after those in the ring leave too long a rest, and the key that completes it is among them |
| Keyboard.BufferIsOverrun | zeos/devices.c:118-142 | this happens from boot |
| Keyboard.StepInvIff | zeos/interrupt.c:286-324 | exactly the enabled keys and reads keep the account |
| Keyboard.KeptIff | zeos/interrupt.c:286-324 | the account holds throughout a run exactly if every step of it is enabled |
| Keyboard.KeysAreDelivered | zeos/interrupt.c:286-324 | after every run of enabled steps all keys are delivered, with the first reader or in the ring, in order; reads complete in the order of asking with exactly the requested length, longer than the ring or not |
| Keyboard.BootInv | zeos/devices.c:36-40 | the initial ring is empty |
| Keyboard.Device.StepCircBuffer | zeos/devices.c:97-102 | the test for the last slot makes the index go round the ring: one more, modulo the ring size |
| Keyboard.Device.CopyFromCircBuffer | zeos/devices.c:118-142 | copies characters from the start on, round the ring, through a buffer of the ring's size, which they must fit |
| Keyboard.Device.ReadKeyboard | zeos/devices.c:45-94 | delivers at once and answers with the size, or queues the caller or refuses task 0 with EPERM; it keeps the account exactly when the read is served at once or finds the ring empty |
| Keyboard.Device.Serve | zeos/interrupt.c:298-319 | the first reader is completed, gets a full ring, or waits on |
| Keyboard.Device.KeyboardRoutine | zeos/interrupt.c:286-324 | stores the key and serves the first reader; the account of characters is kept exactly if a reader waited or the ring had room |
| Frames.ForkInv | zeos/sys.c:73-110 | frames taken by a fork are held once, marked and counted |
| Frames.ExitInv | zeos/sys.c:307-309 | freeing the frames of a task keeps the account of frames |
| Frames.GrabbedAreTheFirst | zeos/mm.c:234-246 | frames are taken in ascending order and no free one that alloc_frame can find is passed over |
| Frames.ForkTakes | zeos/sys.c:73-110 | the child's frames were free and are now used; no other frame and no other task changes |
| Frames.ExitFrees | zeos/sys.c:307-309 | exactly the frames of the task become free; no other task changes |
| Frames.TasksAreApart | zeos/sys.c:73-110 | two live tasks never hold the same frame |
| Frames.GiveBack | zeos/sys.c:79-86 | undoing a partial allocation restores the byte map |
| Frames.BootInv | zeos/mm.c:207-231 | the byte map at boot has 380 frames that alloc_frame can reach |
| Frames.FramesSuffice | zeos/mm.c:234-246 | a free task slot always comes with enough reachable frames |
| Frames.RunInv | zeos/sys.c:60-147 | the account of frames holds after every run of forks and exits |
| Frames.ForkAlwaysFindsFrames | zeos/sys.c:60-147 | in every reachable state a fork into a free slot succeeds |
| Frames.Memory.constructor | zeos/mm.c:207-231 | kernel and user code frames are used, all others free, and 380 reachable frames are free |
| Frames.Memory.AllocFrame | zeos/mm.c:234-246 | the first free frame of every second one, marked, or -1 |
| Frames.Memory.FreeFrame | zeos/mm.c:249-252 | one entry of the map is cleared |
| Frames.Memory.Grab | zeos/sys.c:73-88 | all pages or none, exactly by the number of reachable free frames |
| Frames.Memory.Undo | zeos/sys.c:80-82 | the roll-back restores the map |
| Frames.Memory.FreeSlot | zeos/sched.c:104-112 | the first free slot, or -1 |
| Frames.Memory.Fork | zeos/sys.c:60-88 | with the shipped constants it fails exactly if every task slot is taken; a failure restores everything |
| Frames.Memory.Exit | zeos/sys.c:307-309 | all frames of the task are free again |
| Processes.StepInv | zeos/sys.c:60-147 | a call keeps the three invariants and the agreement of the task table, the frames and the descriptors exactly if it is neither an exit that strands the processor nor a file call that its tables do not bear |
| Processes.ForkKeeps | zeos/sys.c:60-147 | a fork keeps the three invariants and the agreement of the three tables |
| Processes.ForkGives | zeos/sys.c:60-147 | a fork finds every slot taken and changes nothing, or answers with the positive pid of the child, new among all tasks; the child has the caller's quantum, 0 to return, frames that were free, and exactly the caller's descriptors; names, handles and other tasks stay |
| Processes.ForkGivesAfterBoot | zeos/sys.c:60-147 | so it does after every run from boot |
| Processes.ExitTakes | zeos/sys.c:285-316 | an exit takes the running task, its frames and its descriptors, and nothing of any other task; task 0 stays |
| Processes.ExitKeepsIff | zeos/sys.c:285-316 | an exit keeps the three invariants and their agreement exactly if two tasks remain runnable |
| Processes.ForkFailsIffFull | zeos/sys.c:60-88 | where they agree, a fork fails exactly if every task slot is taken |
| Processes.BootInv | zeos/sched.c:27-49 | after boot they agree: task 0 alone is live |
| Processes.ForkFailsOnlyWhenFull | zeos/sys.c:60-147 | after every run from boot, a fork fails exactly if every task slot is taken |
| Terminal.ReadersStay | zeos/sched.c:168-196 | no call of another task touches the keyboard queue or what its tasks will return |
| Terminal.StepInv | zeos/devices.c:45-94 | a step keeps both invariants and the keyboard queue as the tasks of the blocked readers, in order and with their sizes to return, exactly if it is enabled |
| Terminal.CompletedReaderWakes | zeos/interrupt.c:303-309 | the key that completes a read makes the first reader runnable with the number of its characters to return |
| Terminal.ReaderReturns | zeos/devices.c:71-94 | over every run up to the first state in which it runs, a blocked reader returns the size it asked for, and its read is complete with as many characters, in its turn |
| Terminal.BootInv | zeos/devices.c:36-40 | after boot nobody waits for the keyboard |
| Monitor.LoadInv | kernel-module/syscalls_mon.c:29-73 | after loading, with zero global rows and whatever the threads hold, the account is right |
| Monitor.Counters.constructor | kernel-module/syscalls_mon.c:29-73 | the global rows are zero, the threads are as found, and the account is right |
| Monitor.ResetInv | kernel-module/syscalls_mon.c:428-443 | a reset restarts the account of a thread with the calls then in flight |
| Monitor.StepInv | kernel-module/syscalls_mon.c:104-164 | beginning and ending a call keep the account of the thread, its total and the global rows |
| Monitor.RunInv | kernel-module/syscalls_mon.c:104-443 | after every interleaving the total row is the sum of the five, global calls are returned or in flight, and a thread's open calls are those in flight now minus those at its last reset |
| MonitorHistory.RowsAreHistory | kernel-module/syscalls_mon.c:104-443 | after every run a row of a thread has as many calls, successes, failures and cycles as began and ended since the thread's last reset, by a user or by a call of another process, and the thread has the pid of its last reset or begin |
| MonitorHistory.GlobalsAreHistory | kernel-module/syscalls_mon.c:104-164 | each global row has those of the whole run |
| Monitor.Counters.ResetStats | kernel-module/syscalls_mon.c:428-443 | the loop clears all rows of the thread, which is the given process's from then on |
| Monitor.Counters.BeginCall | kernel-module/syscalls_mon.c:123-133 | a call of another process first clears the thread; then the call's row, the thread's total and the global row count it, keeping the account |
| Monitor.Counters.EndCall | kernel-module/syscalls_mon.c:141-157 | the return is counted as success or error, with its cycles, in the same three rows, keeping the account; MonitorHistory says so of every run |
| Console.CopyFromUser | zeos/utils.c:22-37 | words then bytes copy exactly the requested bytes |
| Console.WriteConsole | zeos/devices.c:11-34 | any buffer reaches the screen once and in order through the 256-byte block, and its size is returned |

## Reading choices

- `create_file` returns errors as negative pointers and `sys_open` tests them with `file < 0` (zeos/sys.c:405-407). That
  comparison of a pointer with zero is meant as an error test and is modelled as one. The scan of zeos/filesystem.c:136
  reads `dir[i]` before it tests `i`; the model tests the bound first.
- The comment of `sys_sem_destroy` speaks of EINTR; the code stores -1, and so does the model (zeos/sys.c:263-277).
- `flags` is the number that the code computes with: `O_EXCL` without `O_CREAT` creates a file and leaves a negative
  mode, as in zeos/sys.c:404-410.
- Fork and exit touch the task table, the frames and the descriptors. Each component models its own part of such a
  call, and `Processes.dfy` puts the parts together. A keyboard read touches the ring and the queues, which
  `Terminal.dfy` puts together.
- The block size and the ring size are arbitrary positive numbers (the kernel has 256 and 5), and so are the numbers of
  blocks, directory slots, rows, descriptors, tasks and semaphores. The frame constants are the shipped ones.
- The queues are sequences of task slots in the scheduler's state machine and circular lists in its class. An entry
  knows its slot, where `list_head_to_task_struct` computes the task from the entry's address.
- The service leaves open which free row an open takes and which error the empty path meets.
- `sys_write` is called with a size and a buffer of at least so many bytes; a negative size answers EINVAL after the
  test for EFBIG (zeos/sys.c:33-37), while `sys_read` tests in the other order.

## Left out

- FileSystemCode.FileSystem.WriteFile: requires the offset to be in the block of the file's end; what happens elsewhere is stated for the loop's block and byte positions only, not for the bytes that a neighbouring block then loses.
- FileSystemCode.FileSystem.Serve: requires every call of the sequence to be enabled; a single call says exactly when it is not.
- FileSystemCode.FileSystem.Fork: sharing of descriptors only; the task and the frames join it in `Processes.dfy`.
- SchedulerCode.Scheduler.Fork: whether frames suffice is a parameter; the contents of free task slots are not tracked.
- SchedulerCode.Scheduler.TaskSwitch: no stack, no page table and no interrupt acknowledgement.
- Keyboard.KeysAreDelivered: requires enabled steps; of other runs only the stated losses are shown, not all that the readers then receive.
- Keyboard.Device.CopyFromCircBuffer: requires the copy to fit the staging buffer; the temporary page mapping of the reader's memory is not modelled.
- Address checks (`access_ok`, `check_address`) and the errors EFAULT that they give.
- Wrap-around of 32-bit counters: semaphore counts, pids, ticks and monitor counters are unbounded.
- `sys_get_stats`, `sys_getpid`, the clock display, screen output, the C library stubs and the user program.
- Segment, interrupt and page tables, the boot sector and the assembly entry code.
- The contents of user pages and their copying in a fork.
- The Linux module's installation, printing, its `get_stats` call and the reader device.
