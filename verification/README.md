# A verified model of a small Linux-0.11-style kernel

The project models the parts of the kernel whose correctness rests on invariants that no single
function shows: copy-on-write memory shared by fork, the scheduler and its wait queues, the disk
elevator, the terminal's rings and line reader, and signal frames.

Each part has two layers. A specification on values (datatypes and functions, with lemmas about
every run) and, where the C code changes things in place, a class whose methods follow that code
loop by loop and are proved to compute the specification.

| part | specification and theorems | code in place |
|---|---|---|
| page entries | `Paging` | |
| mm/memory.c, mm/page.s | `Memory`, `CowInvariant`, `CowSteps`, `CowFaults`, `CowLoops` | `MemoryManager` |
| kernel/fork.c, kernel/exit.c | `Kernel`, `Pids`, `KernelForks`, `KernelInvariant`, `KernelProcesses`, `KernelAccess`, `KernelRuns`, `KernelSupply`, `KernelBoot`, `VerifyArea`, `KernelStore` | `Processes` |
| what tasks see of memory | `CowRefinement` | |
| kernel/sched.c | `Scheduler`, `SchedFairness`, `WaitQueue`, `QueueFamily`, `InterruptibleQueue` | `SchedulerTable`, `WaitQueue.SleepQueue`, `InterruptibleSleep` |
| kernel/blk_drv | `Elevator` | `DiskQueue` |
| kernel/chr_drv | `Tty` | `TtyDevice` |
| kernel/signal.c, kernel/libc_restore.s | `Signals`, `SignalMemory` | `SignalDelivery` |

## How memory is modelled

Physical memory is one array of 32-bit words, and page directory, page tables and user pages all
live in it. A word is viewed through the page-entry layout of section 4.3 of Intel's SDM volume
3A; `Paging` proves that the view is a bijection with the numbers and what the masks of the C code
do to them. Task n owns directory entries 16n to 16n+15.

A step is a fork, an exit, the release of a zombie, a user load or store with its faults, or a
`verify_area`. Steps are atomic, because the timer never reschedules in kernel mode
(kernel/sched.c:190; `Scheduler.TickIs`). `oom` and `panic` are the results `Oom` and `Panic`; the theorems say that
`Panic` never happens.

`un_wp_page` is documented as copying the old page (mm/memory.c:219-223), but its body does not
(mm/memory.c:224-245). A flag `copies` selects the version. Counting, isolation and pid results
hold for both; the refinement of private memories holds for the documented version, and
`CowRefinement.StorePreserves` says exactly when the literal body meets it.

## Where the code departs from what it promises

- The literal `un_wp_page` gives a writer of a shared page zeros: `StorePreserves` is the exact
  condition, `LiteralLosesImage` a case that arises in every child of task 0, and
  `LiteralLosesAfterBoot` and `VerifyLosesAfterBoot` are runs of two steps from boot. It also
  reaches what runs on the user stack: after a fork the next signal delivery loses every page
  of the parent's memory that its `verify_area` visits (`SignalMemory.ForkLoses`), and with it the
  frame of an outer handler (`Signals.FrameLost`); `Signals.IntactIff` is the exact condition.
- A kernel store that skips `verify_area`, as `put_fs_byte` in `tty_read` does, writes through a
  read-only entry: `KernelStore.WordDisturbs` says exactly when that changes another task's page,
  and `SharedStoreLeaks` that it does on every page shared since a fork.
- `verify_area` does not look at the segment limit: an area that leaves the segment reaches the
  pages behind it, and exactly those (`Isolation`, `AreaVerified`).
- Frame 0 is the page directory, and a child of task 0 maps it read-only as its page 0. What such
  a task reads there changes when the directory does: `Isolation` carries that as its exact
  exception.
- A task that sleeps on a queue while a cascade is under way is lost, or, after a second
  `wake_up`, wakes a task that has already left the queue: `StrandedBy`, `LateSleeper`,
  `SpuriousWake`. `QueueFamily.RunsAgainIff` says exactly which sleepers can still run.
- A task that sleeps interruptibly below the head keeps its signal pending, so it is woken again
  after every retry: `RetriesUnbounded`. `AwakeServed` and `HeadServed` are what bounds the wait.
- `IN_ORDER` orders some pairs of mixed commands both ways: `Ambiguous` is the exact condition.
  The queue still has at most two runs by the macro's own measure, but a run is sorted if and only
  if it holds no such pair (`SortedIff`; `MixedNotSorted` is a queue that arises and is not).
  Such a pair, queued in turn, can hold up a request for ever: `MixedStarves`; without one every
  request is served within two sweeps: `ServedInTwoSweeps`. Equal requests break even the shape,
  exactly as `InsertShape` says.
- A reader that is fed while it reads loses the front of the line when what it holds back and the
  ring exceed 1023 characters (`FinishedRead`; `LossArises` is a run that gets there), and writes
  past `tmpbuf` at the 1025th character beyond those it wants (`HeldBack`, `LongLineRuns`).
- The comment in `copy_to_buffer` says a newline cannot be erased; the code erases it and then
  refuses to erase the character before it: `NewlineErased`.
- The restorers skip the saved signal mask, so a signal caught without SA_NOMASK stays blocked:
  `MaskKept`, `DeliveredOnce`.
- SIGKILL and SIGSTOP by themselves never wake a sleeper (kernel/sched.c:69): `WakesExactly`.
- `schedule()` loops for ever exactly when a task is RUNNING and every RUNNING task has neither
  slice nor priority: `LoopEnds`.

## Model

| member | source | states |
|---|---|---|
| Paging.DecodeValue | mm/memory.c:180 | an entry stored as a number reads back as the same entry |
| Paging.ValueDecode | mm/memory.c:318 | every 32-bit number is the entry it decodes to, so no word of memory is outside the view |
| Paging.EntryArithmetic | mm/memory.c:323-329 | what the masks, the R/W updates and the comparison with LOW_MEM do to an entry; a present entry passes `> LOW_MEM` exactly from frame 256 on |
| CowInvariant.GetFreeEffect | mm/memory.c:87-104 | get_free_page returns 0 only if every frame is in use, and otherwise the highest free frame, cleared and counted once; it changes nothing else |
| CowInvariant.TookKeeps | mm/memory.c:87-104 | get_free_page takes a frame no entry names and keeps every count exact |
| CowInvariant.Exclusive | mm/memory.c:230-235 | a frame counted once is named by exactly one entry, which is what lets un_wp_page set R/W |
| CowInvariant.WroteKeeps | mm/memory.c:31-33 | writing one table entry keeps the whole invariant when the counts follow it |
| CowInvariant.CountBound | mm/memory.c:331 | a tracked counter never exceeds 63, because frames are shared only at one offset of the task regions, so the byte increment cannot wrap |
| CowSteps.FreeEntryStep | mm/memory.c:139-144 | tearing down one entry never reaches the panic of free_page and removes exactly that page |
| CowSteps.ShareStep | mm/memory.c:317-333 | sharing one entry keeps the invariant, shows the child the parent's page and changes nothing else any task sees |
| CowSteps.ShareImageStep | mm/memory.c:316-333 | a child of task 0 gets the kernel image frame itself, read-only and uncounted |
| CowSteps.RemoveTable | mm/memory.c:146-147 | an emptied table is given back once and its directory entry cleared |
| CowFaults.NoPageFault | mm/memory.c:264-278 | a not-present fault that does not run out of memory maps a page that reads as before, writable and the task's own; it never panics |
| CowFaults.WriteProtectFault | mm/memory.c:219-245 | un-sharing makes the page writable and exclusive and disturbs nobody; the contents survive if the page was already alone or the version copies, and are zeros otherwise |
| CowLoops.FreeDirsKeep | mm/memory.c:120-151 | free_page_tables never panics, empties its range and changes nothing outside it |
| CowLoops.FreeDirsIdle | mm/memory.c:135-137 | a second call on the same range does nothing, which do_exit relies on |
| CowLoops.CopyDirsKeep | mm/memory.c:286-337 | copy_page_tables never meets an existing table, keeps the invariant wherever it runs out of memory, and on success the new range looks like the old one |
| CowLoops.UndoFork | kernel/fork.c:45-49 | freeing the range of a finished or half-made copy restores every count and every page; only R/W bits may stay cleared |
| Pids.FindPidFresh | kernel/fork.c:131-146 | one of the first 65 probes finds a pid no slot holds, from any starting value; it is the first such pid counting up, across the wrap from the largest to 1 |
| KernelForks.CopyMemKeeps | kernel/fork.c:28-51 | copy_mem gives the child the parent's memory or, out of memory, undoes itself |
| KernelInvariant.ForkKeeps | kernel/fork.c:61-151 | fork never panics; it keeps counts, task pages and pids distinct; a failed fork leaves counts, mappings and contents as they were |
| KernelInvariant.BitRestored | mm/memory.c:230-234 | after a failed fork the next store to a page that lost its R/W bit gets the entry back unchanged, without allocating |
| KernelInvariant.ReleaseKeeps | kernel/exit.c:50-64 | release frees exactly the task page and empties the slot |
| KernelInvariant.ExitKeeps | kernel/exit.c:68-99 | do_exit never panics, leaves no page of the task behind and a zombie or nothing in its slot; what it does to fathers and signals of all tasks is that of ExitDeparts |
| KernelInvariant.Adoption | kernel/exit.c:74-80 | exactly the children go to process 1, which is signalled exactly if one of them is a zombie |
| KernelInvariant.ExitDeparts | kernel/exit.c:74-98 | the whole task table after an exit: the children of the task belong to process 1, nobody else's father changes, and SIGCHLD is newly pending exactly for the task it reports to and, if one of its children was a zombie, for slot 1; without a task to report to its slot is empty |
| KernelProcesses.ForkedChild | kernel/fork.c:77-84 | the child takes the first free slot, a pid nobody holds, its caller as father, a task page of its own, and no pending signal |
| KernelProcesses.ForkAdvances | kernel/fork.c:131-151 | every fork, failed or not, moves last_pid to the first pid from its old value on that nobody holds |
| KernelProcesses.ExitTells | kernel/exit.c:185-199 | the father, found by pid after adoption, is signalled and the caller stays a zombie; without a father the slot is empty at once |
| KernelProcesses.SendSigIs | kernel/exit.c:37-47 | send_sig makes exactly the given signal pending, for a task, a valid signal and a permitted sender; otherwise nothing changes and the error says why |
| KernelAccess.LoadKeeps | mm/page.s:19-23 | a load changes nothing any task sees |
| KernelAccess.StoreKeeps | mm/page.s:19-23 | a store, with all its faults, changes one page of one task |
| KernelRuns.StepKeeps | mm/memory.c:116 | no fork, exit, release, load, store or verify_area ever panics in the memory manager, and each that succeeds has the stated effect |
| KernelRuns.BootGood | boot/head.s:157-170 | the state set up at boot satisfies the invariant |
| KernelRuns.RunKeeps | kernel/sched.c:190 | every state of every run satisfies the invariant, in both versions of un_wp_page |
| KernelRuns.Reachable | mm/memory.c:31-33 | in every state reachable from boot the count of a frame is the number of entries naming it plus its use as a task page, at most 63; writable pages are exclusive; pids are distinct |
| KernelRuns.ForkShares | mm/memory.c:317-333 | after a fork every page the parent had is read-only in parent and child, in one frame counted at least twice; a child of task 0 has the image frames read-only and uncounted |
| KernelRuns.ForkExitBalances | kernel/exit.c:72-73 | a fork and the child's exit return every count, but for the child's task page, and every page, whatever the child loads, stores and has verified in between |
| KernelSupply.NoPageFails | mm/memory.c:264-278 | a not-present fault runs out of memory if and only if no frame is free, or just one where a table is missing too |
| KernelSupply.AccessFails | mm/page.s:19-23 | a user access halts in `oom` if and only if fewer frames are free than its faults take |
| KernelSupply.DirsFail | mm/memory.c:303-314 | copy_page_tables returns -1 if and only if the range has more tables than there are free frames, and otherwise takes one frame for each |
| KernelSupply.ForkFails | kernel/fork.c:61-151 | fork fails if and only if no slot from 1 on is empty or fewer frames are free than one and one for each table of the parent; it takes exactly those |
| KernelSupply.VerifyFails | kernel/fork.c:20-24 | verify_area on up to 64MB runs out of memory if and only if it has more pages to replace than there are free frames, and takes one for each |
| KernelSupply.StepFails | mm/memory.c:36-38 | the same for every step: the exact number of free frames below which it fails |
| KernelBoot.BootFrames | mm/memory.c:44-57 | after boot the free frames are exactly those between LOW_MEM and the end of memory |
| KernelBoot.FirstFork | kernel/fork.c:61-129 | with two free frames the first fork after boot succeeds in slot 1 and its child sees the image |
| KernelBoot.LiteralLosesAfterBoot | mm/memory.c:237-242 | two steps from boot, a fork and a store by the child, lose words of the image under the literal body |
| KernelBoot.VerifyLosesAfterBoot | kernel/fork.c:14-26 | so do a fork and a verify_area on the child's page, which returns and has lost the words before anything is written |
| CowRefinement.StepRefines | mm/memory.c:219-223 | with the documented copy every step is a step of a machine in which tasks have private memories, fork duplicates them whole, a load reads the word of the private page, and verify_area changes no word |
| CowRefinement.RunRefines | mm/memory.c:219-223 | so does every run |
| CowRefinement.Isolation | mm/memory.c:224-245 | no step of one task changes the pages of another, for the literal body too, but for a verify_area whose area reaches them; the words are unchanged except, exactly, those of a task that maps the page directory |
| CowRefinement.DirectoryVisible | mm/memory.c:316 | a task that maps frame 0 reads the directory entries |
| CowRefinement.StorePreserves | mm/memory.c:224-245 | a store keeps the rest of its page if and only if the version copies, the page needs no replacement, or the rest was zeros |
| CowRefinement.LiteralLosesImage | mm/memory.c:237-242 | a child of task 0 that stores into page 1 loses the words of that page under the literal body |
| VerifyArea.Coverage | kernel/fork.c:14-26 | the pages visited are exactly those holding a byte of the area |
| VerifyArea.Verified | kernel/fork.c:14-26 | afterwards every mapped page of the range is writable and, up to 64MB, holds what un_wp_page leaves in it, and no other page is touched |
| VerifyArea.AreaVerified | kernel/fork.c:14-26 | for an area of bytes: every mapped page holding one of them becomes writable and nothing else changes; in an area of up to 64MB such a page keeps its contents if and only if un_wp_page copies, need not replace it, or it is all zeros |
| KernelStore.WordDisturbs | include/asm/segment.h:19-29 | a kernel store to a mapped page leaves the image, the page directory and every other page as they are if and only if it stores the word that was there or the page passes the guard of un_wp_page |
| KernelStore.KernelWriteKeeps | include/asm/segment.h:19-29 | a kernel store to any page that is not of the kernel image never panics and keeps the invariant of the whole system |
| KernelStore.SharedStoreLeaks | kernel/chr_drv/tty_io.c:163-169 | without verify_area, a kernel store to a page shared since a fork changes the parent's page too |
| KernelStore.VerifiedWrite | kernel/fork.c:11-13 | after verify_area a kernel store into the area is what a store of the task itself is: no panic, the invariant kept, one page of that task changed |
| MemoryManager.PhysicalMemory.MemInit | mm/memory.c:44-57 | the frames of the given range become free, all others used |
| MemoryManager.PhysicalMemory.GetFreePage | mm/memory.c:87-104 | the downward scan finds the highest free frame, marks and clears it |
| MemoryManager.PhysicalMemory.FreePage | mm/memory.c:109-117 | ignores frames outside the counted range, decrements otherwise, panics at zero |
| MemoryManager.PhysicalMemory.FreePageTables | mm/memory.c:120-151 | the nested teardown loops compute the specified teardown |
| MemoryManager.PhysicalMemory.PutPage | mm/memory.c:158-189 | installs the page, with a new table where none exists |
| MemoryManager.PhysicalMemory.UnWpPage | mm/memory.c:224-245 | the literal body in place |
| MemoryManager.PhysicalMemory.WriteVerify | mm/memory.c:204-217 | un-shares exactly a present read-only page |
| MemoryManager.PhysicalMemory.DoWpPage | mm/memory.c:248-257 | the entry a write fault hands to un_wp_page |
| MemoryManager.PhysicalMemory.DoNoPage | mm/memory.c:264-278 | demand-zero mapping in place |
| MemoryManager.PhysicalMemory.PageFault | mm/page.s:5-24 | dispatch on the P bit of the error code |
| MemoryManager.PhysicalMemory.CopyPageTables | mm/memory.c:286-337 | the nested sharing loops compute the specified copy, including where they stop |
| Processes.TaskTable.FindEmptyProcess | kernel/fork.c:131-151 | the two search loops end; the pid is the first from last_pid on that no slot holds, the slot the first empty one |
| Processes.TaskTable.CopyMem | kernel/fork.c:28-51 | copy, and teardown when the copy fails |
| Processes.TaskTable.CopyProcess | kernel/fork.c:61-129 | page, slot and pid of the child, and the way back when memory runs out |
| Processes.TaskTable.SysFork | kernel/system_call.s:122-132 | fork as a system call: it computes the specified fork, never panics and keeps the invariant |
| Processes.TaskTable.Release | kernel/exit.c:50-64 | clears the slot and gives the page back; on a zombie it never panics |
| Processes.TaskTable.SendSig | kernel/exit.c:37-47 | sets the one signal bit exactly for a task, a valid signal and a permitted sender, and reports the error otherwise |
| Processes.TaskTable.TellFather | kernel/exit.c:185-199 | signals the first slot with the father's pid, or releases the caller |
| Processes.TaskTable.DoExit | kernel/exit.c:68-99 | both teardowns, adoption, zombie state and notification leave the table of ExitDeparts; it never panics and keeps the invariant |
| Processes.TaskTable.UserFault | mm/page.s:5-31 | the fault of a user access never panics, and halts for lack of memory exactly when too few frames are free |
| Processes.TaskTable.VerifyArea | kernel/fork.c:14-26 | the page-stepping loop calls write_verify on the specified pages |
| Scheduler.BestIsChosen | kernel/sched.c:78-91 | the scan yields the RUNNING task with the largest counter, the highest slot on ties |
| Scheduler.WakesExactly | kernel/sched.c:56-74 | exactly which sleepers schedule() wakes, by signal or alarm; an alarm that is over is cleared and SIGALRM pending, and nothing else about the task changes |
| Scheduler.ScheduleChooses | kernel/sched.c:51-114 | slices are recharged once if all RUNNING tasks have used theirs up, and else left alone; the task picked is RUNNING with the largest, positive counter; slot 0 is picked exactly when none of 1..63 is RUNNING |
| Scheduler.LoopEnds | kernel/sched.c:77-100 | the loop ends if and only if no task is RUNNING or some RUNNING task has a slice or a priority left |
| Scheduler.Decay | kernel/sched.c:95-99 | after k recharges the distance of a sleeper's counter from 2p-1 is divided by 2^k, rounding down, and nothing else about it has changed |
| Scheduler.TickIs | kernel/sched.c:183-192 | a tick takes one unit of the current task's slice, if any is left, and adds one to its user or system time; no other task changes; a tick in kernel mode never reschedules, one in user mode if and only if at most one unit was left |
| Scheduler.SyscallEndRuns | kernel/system_call.s:59-64 | every system call returns to a RUNNING task with a slice left, or to task 0 when no other is RUNNING; a caller that is such a task goes on undisturbed |
| SchedFairness.NextGood | kernel/sched.c:183-192 | ticks, recharges, forks, exits and state changes keep every counter between 0 and 2p-1 |
| SchedFairness.ForkStarts | kernel/fork.c:81-88 | the child starts RUNNING with counter equal to its priority, no pending signal, no alarm and no time used; no other task changes |
| SchedFairness.SliceBound | kernel/fork.c:84 | that bound holds in every state reachable from boot |
| SchedFairness.StepCredit | kernel/sched.c:183-192 | while a RUNNING task waits, each user-mode tick uses up a unit of a finite credit that nothing but fork increases |
| SchedFairness.BoundedWaiting | kernel/sched.c:77-113 | a task that stays RUNNING is selected within twice the sum of the other tasks' largest slices, plus what task 0 has left if it was running |
| SchedulerTable.TaskVector.WakeSleepers | kernel/sched.c:56-75 | the first loop raises expired alarms and wakes interruptible sleepers with deliverable signals |
| SchedulerTable.TaskVector.FindBest | kernel/sched.c:79-91 | the inner scan in place |
| SchedulerTable.TaskVector.RechargeAll | kernel/sched.c:95-99 | every counter becomes half itself plus the priority, except task 0's |
| SchedulerTable.TaskVector.Schedule | kernel/sched.c:51-114 | terminates under the exact condition and ends in the specified table and slot |
| SchedulerTable.TaskVector.DoTimer | kernel/sched.c:183-192 | the tick in place; in kernel mode, or with more than one unit of the slice left, the current task pays and stays current |
| SchedulerTable.TaskVector.EndSyscall | kernel/system_call.s:59-64 | the test after a system call in place |
| WaitQueue.SleepPushes | kernel/sched.c:42-44 | going to sleep pushes the caller on the list made of the callers' own variables |
| WaitQueue.WakesHead | kernel/sched.c:128-133 | wake_up wakes exactly the head's task and clears the head, so a second wake_up does nothing; the sleepers' pointers stay |
| WaitQueue.CascadeStep | kernel/sched.c:46-48 | after wake_up exactly one sleeper can return, and returning wakes the next |
| WaitQueue.CascadeRun | kernel/sched.c:35-49 | on one queue whose sleepers no other queue wakes: until a new task sleeps, all return in last-in-first-out order, none before its turn, and the head ends NULL |
| WaitQueue.SleepWakeResume | kernel/sched.c:128-133 | the same for n tasks that slept on an empty queue, for every n |
| WaitQueue.StrandedBy | kernel/sched.c:46 | a step strands a sleeper if and only if a returning task overwrites the head while it is the only pointer to it |
| WaitQueue.StrandedForever | kernel/sched.c:46 | nothing that happens on its own queue ever wakes a stranded sleeper |
| WaitQueue.LateSleeper | kernel/sched.c:42-46 | a task that sleeps during a cascade is stranded by the next return unless a wake_up comes first |
| WaitQueue.SpuriousWake | kernel/sched.c:47-48 | with that wake_up it later wakes a task that sleeps elsewhere |
| WaitQueue.CascadeArises | kernel/sched.c:35-49 | the state of the two preceding rows occurs, with a task still free to sleep |
| WaitQueue.SleepQueue.SleepOn | kernel/sched.c:35-45 | the first half of sleep_on in place |
| WaitQueue.SleepQueue.FinishSleep | kernel/sched.c:46-48 | the second half in place |
| WaitQueue.SleepQueue.WakeUpHead | kernel/sched.c:128-133 | wake_up in place |
| QueueFamily.DoomedForever | kernel/sched.c:35-49 | with any number of queues, sleepers that no head and no pointer from outside leads to never run again |
| QueueFamily.RunsAgainIff | kernel/sched.c:35-49 | a sleeper can run again if and only if a chain of saved pointers, of any queues, leads to it from a head or from a suspended task that is awake |
| QueueFamily.EveryCascade | kernel/sched.c:35-49 | with any number of queues, as long as nobody goes to sleep on a queue while its cascade lasts, every cascade is last-in-first-out and undisturbed by the others |
| InterruptibleQueue.LastInFirstOut | kernel/sched.c:136-158 | without wake_up, whoever is signalled and whoever joins, tasks leave the queue in last-in-first-out order, and each one on it is awake or can be woken by a signal |
| InterruptibleQueue.SleepsInterruptibly | kernel/sched.c:143-154 | going to sleep, the first time or again, leaves the caller interruptible; one who finds another head leaves that one awake and changes no other task |
| InterruptibleQueue.SignalIsSchedule | kernel/sched.c:69-72 | in every run from an empty queue a deliverable signal wakes a suspended task in schedule() just as the event of the model does; without one, and without an alarm that is over, schedule() wakes nobody |
| InterruptibleQueue.Drains | kernel/sched.c:145-157 | once someone is awake, someone stays awake until the queue is first empty, whoever joins it and however signals wake the sleepers again; every resume is paid for by a sleeper, a task that joins or a signal |
| InterruptibleQueue.OneSignalReleasesAll | kernel/sched.c:145-157 | after one signal to any of n sleepers someone is ready until the queue is empty, and everyone on it can be woken by a signal, with at most 2n resumes, two more for each task that joins and one more for each further wake by a pending signal |
| InterruptibleQueue.RetriesUnbounded | kernel/sched.c:151-154 | those further wakes do occur: a sleeper below the head whose signal is pending can retry any number of times |
| InterruptibleQueue.HeadStep | kernel/sched.c:151-157 | until a new task joins, any resume leaves the head awake, nothing puts it back to sleep, and its own resume is its exit |
| InterruptibleQueue.AwakeServed | kernel/sched.c:151-157 | what bounds the wait: beside any run of the scheduler without fork, any suspended task that is awake is selected within the waiting bound, whoever joins, is signalled or retries meanwhile |
| InterruptibleQueue.HeadServed | kernel/sched.c:151-157 | if no task joins meanwhile, an awake head is still the head when it is selected, and its resume takes it out |
| InterruptibleSleep.SignalQueue.SleepOn | kernel/sched.c:143-147 | interruptible_sleep_on up to schedule() in place |
| InterruptibleSleep.SignalQueue.GoOn | kernel/sched.c:145-157 | the return from schedule() in place: back to rep_label if another task is the head, out of the queue otherwise |
| Elevator.Ambiguous | kernel/blk_drv/blk.h:29-32 | exactly when the macro orders two requests both ways, and when neither |
| Elevator.InsertKeeps | kernel/blk_drv/request_scan_algo.c:45-52 | insertion adds exactly the request and keeps the head |
| Elevator.InsertNew | kernel/blk_drv/request_scan_algo.c:45-52 | a request not queued yet keeps the queue to two runs, whatever the commands |
| Elevator.InsertShape | kernel/blk_drv/request_scan_algo.c:45-52 | for any commands, two runs are kept unless, exactly, there are two already, the request fits nowhere and is not in order after the last one |
| Elevator.InsertDoubled | kernel/blk_drv/request_scan_algo.c:45-52 | where no pair is ordered both ways, that is a request already waiting in the second run which no gap of the first takes |
| Elevator.TwoSweepsAlways | kernel/blk_drv/request_scan_algo.c:38-54 | two runs over any interleaving of insertions and head removals |
| Elevator.SortedIff | kernel/blk_drv/blk.h:29-32 | a run of any commands is sorted throughout if and only if the macro orders no two of its requests both ways |
| Elevator.SweepsSorted | kernel/blk_drv/blk.h:29-32 | so a run of one command is sorted, be it the only one or one of two |
| Elevator.MixedNotSorted | kernel/blk_drv/blk.h:29-32 | two insertions of mixed commands lead to a run that is not sorted |
| Elevator.EqualRequestsBreak | kernel/blk_drv/request_scan_algo.c:45-50 | equal requests can make a third run |
| Elevator.WhichSweep | kernel/blk_drv/request_scan_algo.c:45-52 | where no pair is ordered both ways, the current sweep takes a request not queued yet if and only if it is past the head and, when a second sweep waits, before the last of the current one |
| Elevator.ServedInTwoSweeps | kernel/blk_drv/request_scan_algo.c:38-54 | where no pair of the keys in use is ordered both ways and no request is queued twice, a queued request is served within twice as many head removals as there are keys, whatever is added meanwhile |
| Elevator.MixedStarves | kernel/blk_drv/blk.h:29-32 | two requests ordered both ways and before a third, queued in turn, hold that one up for any number of head removals |
| DiskQueue.BlockDevice.AddRequest | kernel/blk_drv/request_scan_algo.c:26-54 | the pointers spell the specified queue, without a cycle; the driver is started exactly for an empty queue |
| Tty.PushIs | kernel/chr_drv/tty_queue.c:32-38 | push appends, and fails exactly at 1023 characters |
| Tty.PushFrontIs | kernel/chr_drv/tty_queue.c:40-46 | push-front prepends, across the unsigned wrap at head 0, and fails exactly at 1023 |
| Tty.PopIs | kernel/chr_drv/tty_queue.c:23-29 | pop removes the oldest character |
| Tty.PopEmptyIs | kernel/chr_drv/tty_queue.c:23-29 | a pop of an empty ring, which a pending signal lets through, makes it full of stale characters |
| Tty.RingIsDeque | kernel/chr_drv/tty_queue.c:10-46 | any operations that never pop an empty queue get the replies of a deque of capacity 1023 |
| Tty.ReadLine | kernel/chr_drv/tty_io.c:112-183 | a read of nr characters returns if and only if the buffer has a line end at or beyond the last one; it hands out the first nr and leaves the rest |
| Tty.NothingLost | kernel/chr_drv/tty_io.c:132-182 | however keystrokes, backspaces and reads interleave, what has been handed out, held back and buffered is the text typed, as long as the read lasts |
| Tty.FinishedRead | kernel/chr_drv/tty_io.c:146-154 | at the end of the read that is still so if and only if held and buffered characters fit in the ring together |
| Tty.LossArises | kernel/chr_drv/tty_io.c:146-154 | runs that get there: one character held back, then a newline and k more in the ring lose the first if and only if k is 1022 |
| Tty.HeldBack | kernel/chr_drv/tty_io.c:146-148 | tmpbuf holds exactly the characters taken beyond nr, so its 1024 places last for 1024 of them |
| Tty.UnfedReads | kernel/chr_drv/tty_io.c:132-182 | the reader of the three preceding rows reads as tty_read does: if nobody feeds it, it ends exactly where tty_read ends, with the same characters handed out, held back and left |
| Tty.LongLineRuns | kernel/chr_drv/tty_io.c:146-157 | a reader fed while it reads can take any number of characters beyond nr from a line that does not end |
| Tty.PutBackFits | kernel/chr_drv/tty_io.c:150-152 | the push-back restores the line if and only if held and buffered characters fit together |
| Tty.EditIs | kernel/chr_drv/tty_io.c:48-83 | what each keystroke does to the line buffer, and that all are echoed except, exactly, a backspace on an empty buffer or with a newline in the slot behind the last character |
| Tty.TypedErased | kernel/chr_drv/tty_io.c:52-60 | a character typed and erased at once is echoed, its backspace too, and the text is as before |
| Tty.NewlineErased | kernel/chr_drv/tty_io.c:54-57 | a newline is erased by the next backspace, and the one after that is refused |
| TtyDevice.TtyQueue.Push | kernel/chr_drv/tty_queue.c:32-38 | push in place |
| TtyDevice.TtyQueue.PushFront | kernel/chr_drv/tty_queue.c:40-46 | push-front in place |
| TtyDevice.TtyQueue.Pop | kernel/chr_drv/tty_queue.c:23-29 | pop in place |
| TtyDevice.PlainText | kernel/chr_drv/tty_io.c:71-83 | text without a backspace is echoed exactly, all and in order, and joins the buffer as far as there is room |
| TtyDevice.CopyToBuffer | kernel/chr_drv/tty_io.c:44-86 | drains the raw ring through the line editor, in order; text without a backspace is echoed exactly, and joins the buffer as far as there is room |
| TtyDevice.TtyRead | kernel/chr_drv/tty_io.c:112-183 | the nested loops deliver what the line rule says; tmpbuf never overflows and no push-back fails |
| Signals.MaskBits | kernel/signal.c:65 | the saved mask is a 32-bit word in which bit k - 1 is set if and only if signal k is blocked |
| Signals.Delivers | kernel/signal.c:49-71 | do_signal leaves a frame of seven or eight words with the signal, the bits of the mask and the registers, changes no register but eip and esp, and resets exactly a one-shot handler; the stack above is as it was if and only if verify_area loses no word there |
| Signals.NotDelivered | kernel/signal.c:36-48 | with the default handler, or when ignored, a signal changes nothing |
| Signals.FrameLost | kernel/signal.c:60 | a delivery whose verify_area loses the page of an outer frame makes that handler return to address 0 |
| Signals.IntactIff | kernel/signal.c:60 | a delivery leaves every frame intact if and only if verify_area takes nothing but zeros from the stack above |
| Signals.Executes | kernel/libc_restore.s:3-19 | what the two restorers load from where |
| Signals.Returns | kernel/libc_restore.s:3-19 | over an intact frame the matching restorer gives back all six registers |
| Signals.ReturnRestores | kernel/libc_restore.s:3-19 | a return over intact frames gives back the registers and the stack above, and leaves the other frames intact |
| Signals.NestedReturn | kernel/signal.c:53-70 | at any nesting depth the program first interrupted gets its registers back, if no delivery loses stack words above it |
| Signals.CopiedReturn | mm/memory.c:219-223 | so it does in every run whose deliveries lose no page, as with the documented un_wp_page |
| Signals.MaskKept | kernel/signal.c:71 | a delivery leaves the mask as it was if and only if the action's mask was already blocked |
| Signals.ActionsSet | kernel/signal.c:78-147 | what sys_signal, sys_sigaction and sys_ssetmask set and return: which numbers are refused, the one action that changes, its handler, flags and mask, and the new mask without SIGKILL |
| Signals.SelfMaskedKept | kernel/signal.c:138-141 | unless SA_NOMASK is set, a caught signal is always in its own action's mask |
| Signals.DeliveredOnce | kernel/libc_restore.s:11-14 | such a signal stays blocked through its handler and all returns, and is not picked again |
| Signals.PicksLowest | kernel/system_call.s:65-87 | on a return to user code and stack of a task other than 0 the signal delivered is the lowest pending unblocked one, and only its bit is cleared; any other return changes nothing |
| SignalMemory.VerifyWipes | kernel/signal.c:60 | seen from the stack, verify_area on the page tables wipes exactly those pages of its area that un_wp_page replaces without copying |
| SignalMemory.ForkLoses | mm/memory.c:237-242 | with the literal body these are, after a fork, all pages that were private to the parent, in parent and child |
| SignalMemory.DeliversInMemory | kernel/signal.c:58-70 | verify_area and the put_fs_long calls on the task's real memory leave the stack that the rows above give, keep the invariant, and change no page of another task |
| SignalDelivery.Context.VerifyArea | kernel/fork.c:14-26 | the page loop in place, for given lost pages |
| SignalDelivery.Context.DoSignal | kernel/signal.c:18-72 | do_signal word by word, verify_area page by page; the stack starts with the frame, the bits of the mask included |
| SignalDelivery.Context.SysSignal | kernel/signal.c:108-121 | sys_signal in place |
| SignalDelivery.Context.SysSigaction | kernel/signal.c:123-147 | sys_sigaction in place, with the old action it copies out |
| SignalDelivery.Context.SysSsetmask | kernel/signal.c:78-84 | sys_ssetmask in place |
| SignalDelivery.Context.SigRestore | kernel/libc_restore.s:3-9 | the pops in place |
| SignalDelivery.Context.MaskSigRestore | kernel/libc_restore.s:11-19 | the pops in place, past the mask |
| SignalDelivery.Context.FindSignal | kernel/system_call.s:73-79 | the bit scan |
| SignalDelivery.Context.ReturnFromSyscall | kernel/system_call.s:65-87 | the guards, selection and delivery in place |

## Left out

- Boot code beyond the page tables it leaves, segment descriptors, task state segments, the FPU, TLB flushes, port I/O, the console, and all debug output: hardware plumbing. `switch_to` is the assignment of `current`.
- The bytes of a task_struct are not kept in the modelled physical memory: its page is a counted frame, its fields are a record. The scheduler, signals and memory model each have the fields they use.
- Kernel writes to user memory are not steps of the runs: after `verify_area` they do what user stores do (`KernelStore.VerifiedWrite`), and without it they can destroy the invariant, as a child of task 0 maps the page directory.
- `verify_area` on an empty area, one of 64MB or more, or one that wraps past 4GB: its callers verify 4 to 32 bytes.
- User loads, stores and `verify_area` of task 0, whose base is 0: it runs over the identity map of the kernel, outside the counted world.
- User accesses are within the segment limit every task inherits; the general-protection path is not modelled.
- CowRefinement.Isolation: the image frames are constant in the model. In the code `mem_map`, `task[]`, `last_pid` and `jiffies` lie in the frames below 640KB that every descendant of task 0 maps, so what such a task reads there changes as well.
- KernelInvariant.ForkKeeps: task 0 forks with one directory entry, as its 640KB segment in INIT_TASK has it; other limits apply to other tasks only.
- SchedFairness.BoundedWaiting: for runs without fork, as a process that keeps forking can add credit for ever.
- Processes.TaskTable.CopyProcess: slot, page, pid, father and memory only; the register image of the child is not part of the model.
- `put_page` on an entry that is already present: its callers never do it.
- `sys_waitpid`: its guard skips every live task, and the call is not in the system call table.
- `make_request`, buffers and locking in kernel/blk_drv: the slot search marks busy slots as available. Removing the head of the queue is the driver's part; a driver is not part of this repository.
- TtyDevice.TtyRead: for a buffer nobody writes to while it is read and no pending signal; a reader that would sleep is reported as asleep instead. The reader that is fed meanwhile is modelled on values (`Tty.NothingLost`, `Tty.FinishedRead`, `Tty.HeldBack`).
- `copy_to_buffer` also wakes the reader's queue at a line end; wake_up is modelled in `WaitQueue` only. The echo is the sequence of characters handed to the output ring, which the console empties at once.
- Wait queues: what happens to a task that is not suspended on a queue is any change of its state. Queues of `interruptible_sleep_on` with `wake_up` mixed in, and pointers between those and other queues, are not modelled.
- Signal frames: stack addresses do not wrap below 0, and handlers keep the stack above them and return with their stack pointer as it was, as compiled C does. In `SignalMemory` the page tables of the new frame exist and the stack pointer is a multiple of 4.
- `sys_sigaction`: the byte copies of the action from and to user memory.
- `sys_alarm`, `sys_pause`, `sys_kill`, `calc_mem` and the integer printer in kernel/vsprintf.c: they would only add easy members.
