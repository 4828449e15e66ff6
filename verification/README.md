# Verification of the kernel core

A Dafny model of the stateful parts of the kernel and proofs of what they keep. Table sizes (hole
descriptors, heap pages, ring slots, tasks) are parameters, so every result holds for every size.

| area | files |
|---|---|
| sequences, chains in tables, rings | `Sequences.dfy`, `Links.dfy`, `Rings.dfy`, `Options.dfy` |
| run lists shared by both allocators | `Segments.dfy` |
| hole allocator (`Kmem_alloc`, `Kmem_free`) | `Arena.dfy` (values), `Holes.dfy` (linked table) |
| kernel heap (`kmalloc`, `kfree`) | `Pages.dfy` (values), `PageHeap.dfy` (runs, methods) |
| scheduler | `Sched.dfy` (values), `ReadyQueue.dfy` (linked table), `Fairness.dfy`, `Wakeups.dfy` |
| wait lists, super block lock on the scheduler | `WaitList.dfy`, `SuperLock.dfy` |
| disk requests | `DiskProtocol.dfy` (state machine), `DiskDriver.dfy` (methods), `DiskWaits.dfy` (with the scheduler) |
| fork, exit, user stores | `Processes.dfy` (values), `Boot.dfy` (start state, failing runs), `Machine.dfy` (methods), `Descriptors.dfy` |
| FAT files | `FatTable.dfy`, `FatFile.dfy`, `FatReader.dfy`, `Volume.dfy` |
| keyboard, number printing | `Keyboard.dfy`, `KeyWaits.dfy` (with the scheduler), `Print.dfy` |

`dafny verify dfyconfig.toml` checks the project.

## How it is built

Code that changes state is modelled by classes and arrays; each method is proved equal to a function on
values, and the results are lemmas about those functions. The static tables `mem_hole` and `proc_table` are
arrays, and the pointers that link their entries are indices.

Most of the allocator results rest on one fact, `Segments.CanonicalUnique`: a run list without free
neighbours is fixed by its live blocks. Exact undo, commuting releases, full recovery and independence of
history follow for the hole list and for the page table alike.

## Where the code falls short of its intent

The model keeps the code as it is. For each departure there is an exact condition or a failing example.

- `kmalloc` counts CONT pages of busy blocks behind a free run that is too short (`ker/mem.c:193-199`). The
  table survives a request iff `Pages.NoOvercount` holds: `Pages.KmallocKeepsTableIff`, `Pages.OvercountExample`.
- `kmalloc` of zero bytes hands out page 0 and frees the block there, unmerged: `Pages.ZeroRequest`,
  `Pages.ZeroKeepsTableIff`.
- `kmalloc` and `kfree` read one word behind the table. The model has that word as a guard, neither 0 nor ~0;
  with either, pages behind the heap are handed out: `Pages.FreeGuardExample`, `Pages.ContGuardExample`.
- A successful `kmalloc`, and a `Kmem_alloc` out of descriptors, return with interrupts off
  (`ker/mem.c:205`, `ker/mem.c:83`): the `irqOn` clauses of `PageHeap.PageHeap.Kmalloc` and
  `Holes.HoleAllocator.KmemAlloc`.
- `mem_init` makes the managed range one byte too large (`ker/mem.c:255`): `Arena.GrantInMemoryIff`,
  `Boot.LastHoleExample`.
- The data segment limit is one or more bytes larger than what `umap` accepts (`Processes.SurplusIs`), so a
  process can store into its neighbour: `Processes.HarmlessIff`, `Processes.RunRefinesIff`,
  `Boot.NeighbourIsHit`.
- `wake_up_process` writes the status of the running process (`ker/schedule.c:100`), so a woken sleeper
  leaves the queue after one slice unless it wakes somebody itself: `Wakeups.SliceSurvivalIff`,
  `Wakeups.WokenInitIsDropped`. For the same reason an interrupt can undo an exit, which runs with interrupts
  on: `Wakeups.ExitingLeavesIff`, `Wakeups.ExitIsUndone`.
- A child inherits its parent's status, so the child of a once-woken parent is dropped after its first slice:
  `Wakeups.FirstSliceIff`.
- Waking a process that is queued already cuts the ready queue: `Wakeups.WakeAllLosesNobodyIff`,
  `Wakeups.SecondWakeUpLosesAnother`. The keyboard does that (`KeyWaits.KeyCutsIff`,
  `KeyWaits.SecondCodeCutsThirdProcess`), the disk does not (`DiskWaits.DiskNeverCuts`). The lock of a super
  block would, but its critical sections do not sleep, so nobody ever waits for it
  (`SuperLock.NeverContended`).
- A fork without memory leaves its slot in use for good: `Processes.ForkLeaksIff`, `Processes.LeakIsPermanent`,
  `Boot.ForkLeakExample`. An exit takes the LDT selector of its slot away (`ker/exit.c:22`), so that the next
  child in it cannot run: `Processes.RunsIff`, `Boot.ReusedSlotExample`.
- A disk request of less than a sector makes the controller transfer 256 sectors:
  `DiskProtocol.SmallRequestExample`.
- `read_map` writes past its ten words for longer chains, and the reader uses the eleventh and skips the rest
  while the position still advances: `FatFile.MapFitsIff`, `FatFile.ReadsAreCompleteIff`,
  `FatFile.TwelveClusterExample`.
- The keyboard handler keeps only the last of the codes that the controller holds (`ker/kb.c:108-113`):
  `Keyboard.NothingLostIff`, `Keyboard.PressIsLostExample`.

## Model

| member | source | states |
|---|---|---|
| `Segments.CanonicalUnique` | ker/mem.c:106-141 | in a list with no two free neighbours, the live blocks and the length of the range fix every stretch; behind undo, commutation and recovery of both allocators |
| `Segments.LiveDisjoint` | ker/mem.c:70-104 | two live blocks of one list never overlap |
| `Segments.ReleaseLive` | ker/mem.c:116-135 | a release with merging on both sides removes exactly that block from the live set and keeps the total size |
| `Segments.CarveLive` | ker/mem.c:81-99 | handing out the low part of a free stretch adds exactly one live block, apart from all others |
| `Segments.AlternationBound` | ker/mem.c:106-141 | merged lists have at most one more free stretch than live blocks |
| `Arena.AllocGrants` | ker/mem.c:77-101 | a granted request is the lowest hole that is large enough, lies in the range, meets no live block, and becomes the only new live block |
| `Arena.AllocRefuses` | ker/mem.c:74-103 | a request is refused iff it is empty, no free hole is large enough, or no descriptor is left and the lowest hole with room is larger; nothing changes then |
| `Arena.OutOfSlotsNeedsBlocks` | ker/mem.c:54-63 | running out of N descriptors takes at least N/2 live blocks, 15 for the 30 of the kernel |
| `Arena.FreeRemoves` | ker/mem.c:112-139 | a release removes exactly the live block starting at the address, if there is one, and leaves a merged list |
| `Arena.RunCanonical` | ker/mem.c:70-141 | over any run of requests and releases, valid or not, the holes stay merged and tile the same range, and no descriptor is lost |
| `Arena.HistoryIndependent` | ker/mem.c:70-141 | after two runs with the same live blocks the hole list and the free descriptors are the same |
| `Arena.FreeUndoesAlloc` | ker/mem.c:70-141 | releasing what was just granted restores the hole list exactly |
| `Arena.FreesCommute` | ker/mem.c:106-141 | two releases in either order leave the same hole list |
| `Arena.FullRecovery` | ker/mem.c:106-141 | after any run, releasing all live blocks in any order leaves the single hole of `mem_init` |
| `Arena.GrantInMemoryIff` | ker/mem.c:255 | in a range that ends one byte behind the memory, a granted block lies in memory iff it is not the last hole taken whole |
| `Arena.WholeRangeExample` | ker/mem.c:255 | the request for all of the initial range is granted and ends at `memory_end + 1` |
| `Holes.HoleAllocator.constructor` | ker/mem.c:251-257 | after `mem_init` one free hole covers the memory and one byte more, and every other descriptor is free |
| `Holes.HoleAllocator.InitSlot` | ker/mem.c:45-53 | all descriptors are chained in table order |
| `Holes.HoleAllocator.KmemAlloc` | ker/mem.c:70-104 | on the linked table the call is first-fit allocation of the arena; both lists stay acyclic and disjoint; interrupts stay off exactly when descriptors run out |
| `Holes.HoleAllocator.KmemFree` | ker/mem.c:106-141 | on the linked table the call is the release of the arena, with the descriptors of merged holes back on the free list |
| `Holes.HoleAllocator.AllocSlot` | ker/mem.c:54-63 | takes the first free descriptor, or reports that there is none |
| `Holes.HoleAllocator.FreeSlot` | ker/mem.c:64-68 | puts a descriptor at the front of the free list and touches no other |
| `Holes.JoinsAreRelease` | ker/mem.c:116-135 | changing the status, absorbing the next hole and being absorbed by the previous one is one two-sided merge |
| `Pages.ScanIsPick` | ker/mem.c:185-207 | the word-by-word scan with its counter and flag, seen on the runs of the table |
| `Pages.KmallocCarves` | ker/mem.c:178-210 | when no run overcounts, the first free run that is large enough is carved and the table encodes the result |
| `Pages.KmallocRuins` | ker/mem.c:193-206 | when one does, a run that is too short is handed out and the table no longer encodes any run list |
| `Pages.KmallocKeepsTableIff` | ker/mem.c:178-210 | a request keeps the table well formed iff every free run before the first fit, with the CONT pages of the busy blocks behind it, is shorter than the request |
| `Pages.OnePageIsSafe` | ker/mem.c:193-199 | a request of one page never overcounts |
| `Pages.OvercountExample` | ker/mem.c:193-206 | page 0 free, a two-page block behind it: a two-page request is given page 0 |
| `Pages.ZeroRequest` | ker/mem.c:183-206 | a request for no bytes is refused if page 0 is free; otherwise it hands out page 0, and the words then are those of the block freed there, its first page apart from the rest, nothing merged |
| `Pages.ZeroKeepsTableIff` | ker/mem.c:183-206 | it keeps the table well formed iff page 0 is free, or is a one-page block with nothing free behind it |
| `Pages.FreeGuardExample` | ker/mem.c:185 | with 0 behind the table, a full heap grants the page behind it |
| `Pages.ContGuardExample` | ker/mem.c:185 | with ~0 behind the table, a heap of one free page grants two |
| `Pages.PrevHeadIs` | ker/mem.c:225-226 | the backward scan of `kfree` stops at the head of the run before, inside the table |
| `Pages.KfreeReleases` | ker/mem.c:212-240 | `kfree` of a live block writes the table of the run list with that block released and merged |
| `PageHeap.RunDescribes` | ker/mem.c:178-240 | over any run of live releases and requests that do not overcount, the table encodes a merged run list with disjoint blocks |
| `PageHeap.TableHistoryIndependent` | ker/mem.c:178-240 | after two such runs with the same live blocks the tables agree word for word |
| `PageHeap.KfreeUndoesKmalloc` | ker/mem.c:178-240 | freeing what was just granted restores every word of the table |
| `PageHeap.KfreesCommute` | ker/mem.c:212-240 | freeing two live blocks in either order gives the same table |
| `PageHeap.OnePageRunIsProper` | ker/mem.c:178-240 | a heap asked only for single pages stays well formed over every run |
| `PageHeap.OvercountIsReachable` | ker/mem.c:178-240 | an empty heap of three pages comes to the overcount in three proper calls |
| `PageHeap.PageHeap.constructor` | ker/mem.c:163-169 | after `kmem_page_init` the table is one free run |
| `PageHeap.PageHeap.ScanTable` | ker/mem.c:185-207 | the loop finds the hit of the scan, or none, and never reports the guard word |
| `PageHeap.PageHeap.Kmalloc` | ker/mem.c:178-210 | the heap stays valid and gets the carved block exactly when no run overcounts, is ruined otherwise; the address returned is that of the block, as `Kfree` wants it; a grant leaves interrupts off |
| `PageHeap.PageHeap.Kfree` | ker/mem.c:212-240 | freeing a live block leaves a valid heap with that block merged away and restores the interrupt flag |
| `Sched.ReadyKeeps` | ker/proc.c:108-122 | readying a process keeps the queue duplicate-free and its head in place |
| `Sched.RoundRobinKeeps` | ker/proc.c:183-194 | only the running process is ever rotated, and rotation keeps the members of the queue |
| `Sched.BlockKeeps` | ker/proc.c:131-153 | blocking removes one process and no other |
| `Sched.BlockTakesOut` | ker/proc.c:131-153 | the others keep their order, and if the head is blocked the next process runs |
| `Sched.ScheduleKeeps` | ker/schedule.c:45-74 | after `schedule` the head of the queue runs, idle iff the queue is empty; the old process stays queued iff its status says running |
| `Sched.ScheduleIs` | ker/schedule.c:45-74 | all of what `schedule` does, for every queue: the next queue, who runs, ten ticks for a process that has used its slice up, alone or not, no pending reschedule for the old and the new process, everything else unchanged |
| `Sched.SleepIs` | ker/schedule.c:80-88 | the sleeper is marked interruptible and leaves the queue, the others stay and the next one runs |
| `Sched.RunKeeps` | ker/schedule.c:45-126 | in every state that ticks, wake-ups, sleeps, exits and reschedules reach, the queue has no duplicates, idle is not in it, and its head or idle is running |
| `ReadyQueue.Scheduler.constructor` | ker/proc.c:215-263 | after `proc_init` init is queued, idle runs, and the invariant holds |
| `ReadyQueue.Scheduler.ProcReady` | ker/proc.c:108-122 | on the linked table: append, or for a queued process a cut of the queue behind it |
| `ReadyQueue.Scheduler.ProcBlock` | ker/proc.c:131-153 | on the linked table: removal from any position, with the tail kept right; the queue must not be empty |
| `ReadyQueue.Scheduler.PickProc` | ker/proc.c:158-165 | the head of the queue, or idle |
| `ReadyQueue.Scheduler.RoundRobin` | ker/proc.c:183-194 | on the linked table: the head goes to the tail, and the running process gets a new slice |
| `ReadyQueue.Scheduler.BillProcessTime` | ker/proc.c:169-180 | one tick off the running slice, or a reschedule request |
| `ReadyQueue.Scheduler.Schedule` | ker/schedule.c:45-74 | on the linked table: rotate, drop a process not marked running, switch to the head |
| `ReadyQueue.Scheduler.WakeUpProcess` | ker/schedule.c:96-103 | readies the process and marks the running one as running |
| `ReadyQueue.Scheduler.Sleep` | ker/schedule.c:85-88 | the running process is marked and leaves the processor |
| `ReadyQueue.Scheduler.ReturnToUser` | ker/sys.S:93-98 | on the way to user mode a pending reschedule is carried out |
| `Fairness.ExactWait` | ker/proc.c:169-194 | in user mode, with nobody going to sleep, the process at position k runs after exactly the sum of (slice + 1) over those before it, and not earlier, whatever the statuses and whichever sleepers interrupts ready meanwhile |
| `Fairness.StillQueuedIff` | ker/schedule.c:45-74 | at that moment exactly these are queued: who stood from position k on, who was readied meanwhile, and of those before it the ones marked running or during whose slice somebody was readied |
| `Fairness.WaitBound` | ker/proc.c:186-193 | that is at most 11 ticks per process in front |
| `Fairness.IdleTick` | ker/proc.c:171-175 | starting from idle it is one tick more |
| `Fairness.AloneForever` | ker/proc.c:169-194 | a process alone in the queue, marked running, goes on for ever, its slice going through 10, 9, .., 0 and back to 10 with period eleven |
| `Fairness.TickProgress` | ker/sys.S:54-60 | each user-mode tick brings every waiting process exactly one tick closer |
| `Wakeups.ReadyKeepsEverybodyIff` | ker/proc.c:108-122 | readying loses no process iff the process was not queued or is the last of the queue |
| `Wakeups.WakeAllAppendsIff` | ker/schedule.c:105-126 | a wake-up appends every waiter exactly once, in list order, iff none was queued already |
| `Wakeups.WakeAllLosesNobodyIff` | ker/schedule.c:105-126 | a wake-up readies all waiters and throws nobody out iff no waiter is queued, or the first one is, with no other waiter before it and only waiters behind it |
| `Wakeups.SecondWakeUpLosesAnother` | ker/schedule.c:117-123 | two wake-ups of one waiter before it runs throw a third process out of the queue |
| `Wakeups.StatusSticks` | ker/schedule.c:96-103 | a sleeper's status becomes running only through a wake-up issued while it is itself running |
| `Wakeups.WokenSleeperIsDropped` | ker/schedule.c:96-103 | so a woken process that wakes nobody during its slice is removed from the queue at the end of it |
| `Wakeups.SliceSurvivalIff` | ker/schedule.c:52-60 | over one slice the running process stays queued iff it was marked running or some wake-up happened |
| `Wakeups.WokenInitIsDropped` | ker/proc.c:215-263 | from `proc_init` on: init sleeps once, is woken, runs for one slice, and the queue is empty |
| `Wakeups.ExitingLeavesIff` | ker/exit.c:23-24 | an exiting process leaves the queue iff no wake-up comes between its mark and `schedule` |
| `Wakeups.ExitIsUndone` | ker/exit.c:23-24 | from `proc_init` on: init forks and sleeps for the disk, the child exits, and the disk readies init in between; the exiting process stays queued, current and marked running |
| `Wakeups.ForkIs` | ker/fork.c:55-73 | the child is queued last, with ten ticks and the status its parent had |
| `Wakeups.FirstSliceIff` | ker/fork.c:55-73 | a child stays queued over its first slice iff its parent was marked running when it forked or somebody is woken during the slice |
| `Wakeups.WaitersReadyIff` | ker/schedule.c:105-126 | a wake-up leaves all waiters ready iff no other one stands before the first, or in the whole queue if that one is not queued |
| `WaitList.WaitMemory.InitHead` | include/wait.h:32-34 | an empty circular list |
| `WaitList.WaitMemory.ListAdd` | include/list.h:19-25 | a well-formed circular doubly linked list stays one, with the new entry first, and no entry off the list changes |
| `WaitList.WaitMemory.ListDel` | include/list.h:36-40 | an arbitrary entry is taken out of both directions of the circle |
| `WaitList.RingFrame` | include/list.h:19-40 | lists that share no entry do not disturb each other |
| `WaitList.SleepEnter` | ker/schedule.c:80-88 | the sleeper is first on the wait list and off the processor |
| `WaitList.SleepLeave` | ker/schedule.c:89-91 | the sleeper takes itself off the list, wherever it stands |
| `WaitList.WakeUp` | ker/schedule.c:105-126 | the walk ends, readies every waiter once, most recent first, and appends all of them iff none was queued |
| `SuperLock.LockIsExclusive` | fs/super.c:25-51 | on the ready queue and the wait list, over every run of the scheduler: the lock byte is set iff exactly one process holds the lock, and the list holds exactly the processes asleep for it |
| `SuperLock.LockSuperIs` | fs/super.c:34-42 | `lock_super` makes the running process the holder of a free lock at once; for a taken one it goes first on the list, wanting the lock, and off the processor |
| `SuperLock.WaitOnSuperIs` | fs/super.c:25-32 | `wait_on_super` changes nothing about a free lock, and sleeps for a taken one without wanting it |
| `SuperLock.RunIsIntended` | fs/super.c:25-51 | over every run, who holds the lock and who sleeps for what are those of a reference lock: the holder is the last to take it, by `lock_super` or coming back from it, that has not unlocked |
| `SuperLock.NeverContended` | fs/super.c:90-194 | with the critical sections of the source, which do not sleep, over every run: nobody ever waits for the lock, a holder is the running process, and so nobody is forgotten |
| `SuperLock.UnlockCutsIff` | fs/super.c:44-51 | for callers that sleep while they hold the lock: an unlock throws a ready process out of the queue or leaves a waiter unreadied iff the exact condition of `WakeAllLosesNobodyIff` fails |
| `SuperLock.NobodyIsForgottenIff` | fs/super.c:25-51 | for such callers, over any run: no process is ever left asleep and unreadied while the lock is free iff no wake-up cuts a waiter off |
| `SuperLock.ForgottenExample` | ker/schedule.c:96-103 | with the lock free, a queued process is woken again in front of a queued waiter, and the waiter is lost |
| `SuperLock.SleepersGetThrough` | fs/super.c:34-42 | a sleeper that gets the processor while the lock is free leaves the list, and holds the lock if it wants it |
| `DiskProtocol.ApplyKeeps` | ker/hd.c:257-283 | every piece of `do_read` and every completion interrupt keeps the ring, the history and the controller in step |
| `DiskProtocol.RunKeeps` | ker/hd.c:59-90 | so does every interleaving, interrupts before the critical section included |
| `DiskProtocol.RequestsAreServed` | ker/hd.c:59-90 | requests finish in the order they entered; the i-th interrupt delivers the i-th request's data, all its words, to its buffer and wakes its process; the i-th command names the i-th request's drive, and its block and sectors as far as they fit; each command is issued once; the controller is busy iff a request is queued, with the oldest |
| `DiskProtocol.RejectedIff` | ker/hd.c:268 | a call is turned away iff as many requests are outstanding as the ring has slots |
| `DiskProtocol.CommandIsFaithfulIff` | ker/hd.c:115-136 | the request's own drive, in LBA mode, is asked for its sectors, and offers the words the handler takes, iff the block fits 28 bits and the count is 1 to 256 |
| `DiskDriver.Driver.constructor` | ker/hd.c:233-234 | after `hd_init` the ring is empty |
| `DiskDriver.Driver.Call` | ker/hd.c:268 | refuses exactly on a full ring |
| `DiskDriver.Driver.Store` | ker/hd.c:269-274 | one field of the slot behind the queue is written; no queued request changes |
| `DiskDriver.Driver.Advance` | ker/hd.c:275 | moves the tail, perhaps one past the end of the ring |
| `DiskDriver.Driver.Enter` | ker/hd.c:276-281 | counts the request, wraps the tail, and starts an idle controller |
| `DiskDriver.Driver.HdHandler` | ker/hd.c:59-90 | completes the oldest request, names its waiter, and starts the next one |
| `DiskWaits.ApplyKeeps` | ker/hd.c:265-283 | with the scheduler: the waiters of the queued requests are different processes, all off the ready queue, through every piece of `do_read`, interrupt and scheduler event |
| `DiskWaits.DiskNeverCuts` | ker/hd.c:79-87 | so in every run a completion interrupt readies a process that is not queued: it is appended, and nobody drops out |
| `Processes.UmapIsolates` | ker/proc.c:265-271 | `umap` never sends two processes to one address |
| `Processes.UmapIs` | ker/proc.c:265-271 | NULL is for exactly the offsets outside the process's memory, and for offset 0 of init, which lies at address 0; every other offset is translated |
| `Processes.ChildStack` | ker/fork.c:31-32 | the physical stack address of a child is where `umap` sends its stack |
| `Processes.ApplyKeeps` | ker/fork.c:39-75 | each live forked process owns a busy hole of exactly its size, and no two own the same, after every fork, exit and store |
| `Processes.ChildView` | ker/fork.c:29-32 | at fork time the child reads the parent's bytes at every offset, but for a last byte that is not memory |
| `Processes.StepRefinesIff` | ker/fork.c:39-75 | a fork, exit or store does to the memory the processes see what a machine with private memories does iff it is faithful: no child on the last hole taken whole, no store the processor accepts beyond the size that reaches another process |
| `Processes.RunRefinesIff` | ker/exit.c:13-26 | over any run, the one physical memory shows what private memories would hold after every step iff every step is faithful |
| `Processes.UmapStoresAreFaithful` | ker/proc.c:265-271 | runs whose stores are at offsets `umap` accepts are faithful, as long as all areas are memory |
| `Processes.HarmlessIff` | ker/protect.c:26-36 | the stores that the processor accepts from a process leave every other process alone iff no other one has memory between the end of its area and its segment limit |
| `Processes.InitCoversKernel` | ker/proc.c:241-248 | the processor lets init store anywhere below the end of its stack, the kernel image included |
| `Processes.NoMemoryLeak` | ker/exit.c:20-21 | once all forked processes have exited, the hole list and descriptors are back to where they started |
| `Processes.ForkLeaksIff` | ker/fork.c:57-69 | a fork leaves a slot marked in use without a process iff there was a slot but no memory |
| `Processes.LeakIsPermanent` | ker/proc.c:89-100 | such a slot is never handed out again |
| `Processes.SelectorAfter` | ker/exit.c:22 | a slot has its LDT selector iff no process has exited from it |
| `Processes.RunsIff` | ker/fork.c:55-59 | the process in a slot can run iff none has exited from that slot before |
| `Boot.ReusedSlotExample` | ker/exit.c:22 | from the boot on: fork, exit, fork; the second child has slot 2 again, no LDT selector, and no event |
| `Boot.NeighbourIsHit` | ker/protect.c:62-67 | from the boot on: init forks twice, the first child stores at offset `size`, and address 0 of the second child changes |
| `Boot.ForkLeakExample` | ker/fork.c:57-69 | from the boot on, with less memory left than a child needs: the slot stays in use without a process |
| `Boot.LastHoleExample` | ker/mem.c:255 | from the boot on, with exactly the memory a child needs left: its last byte is behind the memory |
| `Machine.Machine.constructor` | ker/proc.c:215-263 | `mem_init` for a memory of any size and `proc_init` lead to the start state of `Boot`, with the maps of idle and init as computed there, which satisfies the isolation invariant |
| `Machine.Machine.GetFreeProc` | ker/proc.c:89-100 | the lowest slot not in use |
| `Machine.Machine.CopyBytes` | include/system.h:33-42 | the byte loop copies an area to a disjoint one and changes nothing else |
| `Machine.Machine.MemCopy` | ker/fork.c:15-34 | allocates the parent's size, copies its bytes and sets the child's maps, or changes neither memory nor table |
| `Machine.Machine.DoFork` | ker/fork.c:39-75 | on table, memory and hole list: the fork step, with the isolation invariant and the interrupt flag kept |
| `Machine.Machine.DoExit` | ker/exit.c:13-22 | on table and hole list: the exit step, with the isolation invariant kept |
| `FatTable.EntryDecodes` | fs/inode.c:69-101 | for every table packed as the FAT specification says and every entry, the entry is read back, the low 28 bits for FAT32, also across a sector boundary |
| `FatTable.EndMarksAre` | fs/inode.c:50-68 | the end marks are the top eight values of an entry of 12, 16 or 28 bits |
| `FatTable.FirstEntriesExample` | fs/inode.c:83-98 | the first bytes of a FAT12 and a FAT32 as on a disk |
| `FatTable.Pack12At` | fs/inode.c:83-90 | a 12-bit entry is the right half of the two bytes looked at |
| `FatFile.WalkIsSucc` | fs/inode.c:103-119 | `read_map` ends on every FAT, cyclic ones included, within ceil(size/cluster)+1 entries, the i-th of which is the i-fold successor |
| `FatFile.WalkCaptures` | fs/inode.c:111-117 | a chain is captured whole up to its end mark when the bound allows, and cut off at the bound otherwise |
| `FatFile.CdivIs` | include/system.h:139-152 | the number of clusters is the least that holds the size |
| `FatFile.MapFitsIff` | fs/inode.c:114 | on every table, the map stays inside its ten words iff an end mark comes within ten clusters or the size needs fewer than ten |
| `FatFile.OutputsAreSlice` | fs/read.c:45-77 | however a read is cut into calls of any sizes, the outputs together are one slice of the file, and the position ends at min(start + total, size) |
| `FatFile.ReadsAreCompleteIff` | fs/read.c:19-37 | the output is as long as the position's advance iff the reads end within eleven clusters or advance nothing |
| `FatFile.TwelveClusterExample` | fs/read.c:19-37 | a file of twelve clusters: the map overruns, and a read puts out eleven while the position moves over twelve |
| `FatFile.FileIsRead` | fs/read.c:45-77 | for a chain with at least the clusters the file size needs, the map followed by any reads puts out the chain's bytes |
| `FatFile.FileOfTableIsRead` | fs/inode.c:103-119 | the same from the packed table on: the bytes are those of the clusters the table lists |
| `FatReader.ValidIsGood` | fs/read.c:58-68 | each pass of the read loop makes progress within one cluster and never passes the file or the request |
| `FatReader.InodeRec.ReadMap` | fs/inode.c:103-119 | the block words become the walk of the chain, over whatever they and the memory behind them held |
| `FatReader.File.FilpRead` | fs/read.c:45-77 | the loop ends, returns the advance of the position, and puts out the slice in between as far as ten-and-one block words reach |
| `FatReader.File.ClusterRead` | fs/read.c:19-37 | puts out the bytes of the file from the given offset in the cluster on, and nothing for a cluster number above ten |
| `FatReader.File.Eofile` | fs/read.c:39-44 | true iff no read, of whatever size, would advance the position |
| `Volume.ClusterInside` | fs/super.c:135-144 | every existing cluster lies in the data region of the volume |
| `Volume.ClustersDisjoint` | fs/read.c:13-16 | different clusters share no sector |
| `Volume.RegionsFollow` | fs/super.c:127-154 | for FAT12 and FAT16 the reserved, FAT, root and data regions are consecutive |
| `Volume.KindIs` | fs/super.c:118-159 | for every sound boot sector, the type is FAT12, FAT16 or FAT32 as the data sectors are fewer than 4085 clusters, fewer than 65525, or more, in the fields of the boot sector, a 16-bit field counting unless it is 0 |
| `Volume.FloppyExample` | fs/super.c:118-159 | the layout of a 1.44 MB floppy |
| `Volume.RootEntriesInside` | fs/super.c:127-154 | each root directory entry lies between the FATs and the data, the last one in the last sector |
| `Volume.RootInData` | fs/super.c:155-159 | a FAT32 root directory starts inside the data region, with its first cluster |
| `Volume.EntryInsideFat` | fs/inode.c:73-82 | with a FAT large enough for all clusters, the sectors that `FATEntryVal` fetches for an entry hold its bytes inside the first FAT of the super block read |
| `Volume.NumbersAreNotMarksIff` | fs/super.c:145-159 | with the type chosen by the cluster count, an existing cluster number is mistaken for an end mark only on FAT32 from 0xFFFFFF8 on |
| `Descriptors.BaseBack` | ker/protect.c:21-25 | decoding a descriptor gives the base back |
| `Descriptors.LimitBack` | ker/protect.c:26-36 | decoding it gives the size as inclusive limit, or the last byte of the page the size lies in |
| `Descriptors.FieldsFit` | ker/protect.c:21-38 | every field fits its bits, and the segment is a 32-bit one |
| `Processes.TranslationsAgree` | ker/protect.c:62-67 | each offset `umap` accepts lies in the data segment and has the same linear address |
| `Processes.SurplusIs` | ker/proc.c:265-271 | the offsets the processor accepts beyond `umap` are exactly the size itself, or the rest of its page for a large segment |
| `Keyboard.KeysAreDecoded` | ker/kb.c:73-131 | for every interleaving of interrupts and reads, the i-th character is nothing for a release, the shifted column of its key if exactly one holds of: the last shift code is a press, and caps lock occurred an odd number of times, and the plain column otherwise; said of the accepted codes alone |
| `Keyboard.NothingLostIff` | ker/kb.c:108-126 | every code the handler wants is accepted in order iff none meets a full ring and none is read over by a later one of the same interrupt |
| `Keyboard.PressIsLostExample` | ker/kb.c:108-113 | press and release of a key in one interrupt: the press is gone |
| `KeyWaits.ReaderGets` | ker/kb.c:154-177 | with the scheduler: a reader that runs takes the next character and is off the list, or sleeps first on the list; no other reader is affected |
| `KeyWaits.KeyCutsIff` | ker/kb.c:127 | with the scheduler: a key interrupt throws a ready process out or leaves a reader unreadied iff the exact condition of `WakeAllLosesNobodyIff` fails |
| `KeyWaits.ReadersAreReadyIff` | ker/kb.c:154-168 | over any run: no reader ever sleeps unreadied while a code is in the ring iff no wake-up cuts a reader off |
| `KeyWaits.SecondCodeCutsThirdProcess` | ker/kb.c:127 | from `proc_init` on: a key is pressed while a reader sleeps, the disk readies init, and the release of the key throws init out |
| `Keyboard.Keyboard.KbdInt` | ker/kb.c:101-131 | stores the last code the controller holds unless it is a skipped release or the ring is full, and says whether readers are woken |
| `Keyboard.Keyboard.KbRead` | ker/kb.c:154-177 | takes the oldest code, updates the modifiers, and returns the character that the codes accepted so far mean; with an empty ring the caller sleeps |
| `Print.ParseNumeral` | ker/vsprintf.c:22-86 | every number is read back from its numeral |
| `Print.NumeralHead` | ker/vsprintf.c:22-86 | a positive number has no leading zero |
| `Print.WordLength` | ker/vsprintf.c:22-86 | a 32-bit number takes at most ten decimal or eight hexadecimal digits |
| `Print.NumberPrints` | ker/vsprintf.c:103-113 | `%d` and `%x` print a number in base ten and sixteen without a leading zero, `%c` its low byte |
| `Print.TextPrints` | ker/vsprintf.c:96-122 | `%s` prints the string, an unknown directive nothing, any other character itself |
| `Print.RenderJoin` | ker/vsprintf.c:90-126 | formats one behind the other print one behind the other, each with its own arguments |
| `Print.ReverseInPlace` | ker/vsprintf.c:41-47 | the swap loop reverses exactly its section |
| `Print.IntToStr` | ker/vsprintf.c:22-86 | the digit loop and the reversal leave the numeral, most significant digit first, and the position behind it |
| `Print.Vsprintf` | ker/vsprintf.c:90-126 | a well-formed format produces its literal characters and rendered arguments in order, then a zero |

## Left out

- Port input and output, controller status polling and error retries, IDENTIFY, keyboard controller commands, CMOS and the timer chip: a completion or key interrupt is an event, the controller's data an assumed answer. Drives without LBA, which read the address registers as cylinder, head and sector, are left out.
- The stack switch, interrupt entry code and boot code: only the points where `schedule` is called are kept.
- Sched.RunKeeps: an interrupt that comes inside `RoundRobin` or `proc_block`, which `do_exit` reaches with interrupts on, is not modelled; wake-ups come before or after `schedule` there.
- SuperLock.LockIsExclusive: the loops of `lock_super` and `wait_on_super` are cut at the points where the caller sleeps, each piece being one step on values; the wait list there is a sequence, its links are those of `WaitList`.
- Fairness.ExactWait: readying a process that is queued already, which cuts the queue, is not among its steps.
- DiskDriver.Driver.HdHandler: returns the process to wake; `DiskWaits` carries the wake-up out.
- Keyboard.Keyboard.KbdInt: says whether readers are woken; `KeyWaits` carries the wake-up out.
- Keyboard.Keyboard.KbRead: one round of the loop; `KeyWaits` has the sleep.
- Processes.ApplyKeeps: a process that goes on after its exit (`Wakeups.ExitingLeavesIff`) is not among those followed.
- Processes.StepRefinesIff: init stores into its own stack only; elsewhere its map covers the kernel image (`Processes.InitCoversKernel`), whose tables the model keeps apart from the memory. Memory that the kernel itself writes appears only as the copy of a fork.
- Processes.Peek: an address without memory reads as 0xFF, and a store there is lost.
- Boot.Booted: memory that ends within the last page below 4 GB, where address arithmetic wraps, and memory too small for the heap, where the source panics, are excluded.
- Machine.Machine.DoFork: only the memory maps, the in-use flag and the LDT selector of the process entry are modelled, not registers, files, slice or the wake-up of the child.
- Machine.Machine.DoExit: ends before the process is marked and `schedule` is called; these are events of `Sched`.
- The instruction segment of a process (map T), which a child shares with its parent.
- PageHeap.PageHeap.Kfree: the address must start a live block; for others the source reads and writes wherever the word found there leads, outside the table, too.
- FatReader.File.FilpRead: counts in natural numbers; file sizes of 2 GB and more, where the source mixes signed and unsigned arithmetic, are left out.
- `get_block` is a function from sector and size to bytes of the medium; that its buffers come from `kmalloc` is not followed.
- `sys_read` hands `filp_read` the unmapped address and divides by the element size; the model starts at `filp_read`.
- Directory scanning, path names, descriptor tables and inode slots (`fs/open.c`, `fs/filedes.c`): the file results start from a first cluster and a size.
- The contents of the key map are a parameter of 94 rows; scan codes of 94 and more, which read behind it, are excluded.
- Formats that end inside a directive, which `vsprintf` reads past, are excluded by `Print.WellFormed`.
- `list_add_tail` and `get_empty_super`, which the rest does not need; PCI probing, console and trap reporting.
- Nothing was executed.
