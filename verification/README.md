# A verified model of the CooCox CoOS kernel

CoOS is a small preemptive real-time kernel in C: linked structures over fixed tables, changed in place.  This
project models its core, and two functions of the MQTT client that ships with it, in Dafny and proves what they
promise over every input and every run.  `dafny verify dfyconfig.toml` checks everything.

The C code works by assignment, so every core file becomes a class whose fields are the kernel's variables and
tables and whose methods make the kernel's writes.  A pointer into a table is the index of its entry, `Co_NULL` is
-1; in the kernel heap and the block pool, pointers are byte addresses.  Each method is proved to perform a step of
a value-level specification beside it, and the properties are proved of that specification, as invariants of every
step and then over every run.

| files | what they model |
|---|---|
| `HeapLayout`, `HeapWords`, `KernelHeap` | the heap: a sequence of blocks; the header words that represent it; the allocator on the word array |
| `DeltaList`, `DeltaClock`, `DeltaOnce`, `DeltaTable`, `Timers` | delta lists in 32-bit arithmetic; what they mean over runs, for periodic and for one-shot entries; the timer table |
| `Links`, `TaskModel`, `TaskTurns`, `TaskRobin`, `TaskEffects`, `TaskHarm`, `TaskDelays`, `TaskWakes`, `TaskLists`, `Kernel` | doubly linked lists in a table; tasks, scheduler and tick as a value; who runs after each scheduling point; round robin; what each call does to the tasks; a run that ends in harm; when sleepers wake, and that they are ready then; the shared links; the kernel's variables |
| `ReadyBits`, `ReadyTable`, `PrioIndex` | the binary-scheduling form of the ready list: bit map, priority table, and both with the list |
| `Rings`, `ServiceReq`, `MailQueue`, `EventQueue` | ring buffers; the requests of interrupts; mail queues with waiting tasks |
| `Mutexes`, `MutexPrio`, `MutexControl` | priority inheritance and hand-over; the holder's priority from getting the mutex to leaving it; one mutex in memory |
| `BlockPool` | the fixed-block memory pool |
| `TopicMatch`, `RemainingLength` | MQTT topic filters and the variable length field |

## What does not hold

The code is modelled as it is.  Where a promise fails, a lemma says exactly when it holds.

- `CreateTCBList` never marks the last control block dormant (`CoOS/kernel/task.c:66-82`; READY is 0).  Suspending or
  deleting that number before it was ever created passes all checks and empties the ready list; deleting it also puts
  the entry on the free list twice.  `CoSuspendTask` does not look whether a context switch is pending either:
  suspending the task that is to run next empties the ready list, and suspending the preempted one leaves it on it.
  `TaskModel.SuspendKeepsListsIff` and `TaskModel.DelKeepsListsIff` have the exact conditions,
  `TaskHarm.UncreatedHarms` and `TaskHarm.PendingHarms` runs from the boot state that meet them.
- `CoStopTmr` on a timer that is marked running but is on no list, because its count or reload value is 0, drops the
  whole timer list (`CoOS/kernel/timer.c:124-127`) if there is one: `Timers.TimerTable.CoStopTmr` has the exact
  condition, `Timers.StopDropsOthers` a run that meets it.
- The size computed by `CoKmalloc` wraps above 0xFFFFFFF4 bytes (`CoOS/kernel/kernelHeap.c:80`): `HeapLayout.ServedIff`,
  `HeapLayout.TooLargeServed`.
- The signed walk of the delta lists misplaces an entry when a difference it meets leaves the range of S32:
  `DeltaList.InsertStableIff` gives the exact guard, `DeltaList.FarWait` a delay that `CoTickDelay` accepts and misplaces.
- A tick that comes while a deferred disposal is pending is lost for all entries of that list
  (`CoOS/portable/arch.c:69-77`); delays and timers are late by exactly the ticks lost: `TaskDelays.ReleasedOnTime`,
  `DeltaClock.RunLawful`; `TaskDelays.SecondIsLost` is a run that loses one.
- Leaving a mutex without waiters restores no priority, and `hipriTaskID` is stale after a hand-over, so that a task
  can be raised above every waiter without need and stay raised: `Mutexes.LeaveRestoresIff`, `Mutexes.HandOverPrioIff`,
  `Mutexes.StaysRaised`.
- The block pool accepts the address just behind its last block, and its creation never ends for more than 256
  blocks because the loop counter is a byte: `BlockPool.AcceptedIff`, `BlockPool.CountsUpIff`.
- The client's `#` does not match its parent level, and neither wildcard matches an empty level, both of which section
  4.7.1 of MQTT 3.1.1 asks for: `TopicMatch.ClientIff` has the exact difference, `TopicMatch.MissesParent` and
  `TopicMatch.MissesEmpty` an example each.
- `MQTTPacket_len` counts the header byte before it compares, and one of its limits is off by one:
  `RemainingLength.PacketLenIff`.
- The comment of `InsertInSRQ` has its two return values the wrong way round (`CoOS/kernel/serviceReq.c:43-44`); the
  model follows the code.

## Model

| member | source | states |
|---|---|---|
| `KernelHeap.Heap.CoCreateKheap` | CoOS/kernel/kernelHeap.c:41-49 | the empty heap is one free block over all words and its header words say so |
| `KernelHeap.Heap.CoKmalloc` | CoOS/kernel/kernelHeap.c:64-168 | first fit: the lowest free block of at least the size needed is handed out, NULL if and only if the size is 0 or no free block is large enough, a refused request changes no word, and no payload word of another live block changes |
| `KernelHeap.Heap.FindFit` | CoOS/kernel/kernelHeap.c:83-98 | the walk along the free list ends at the lowest free block that fits, with its predecessor on the list |
| `KernelHeap.Heap.AssignBlock` | CoOS/kernel/kernelHeap.c:99-161 | the header writes of an allocation keep words and layout in agreement and leave all other payloads alone |
| `KernelHeap.Heap.TakeWhole` | CoOS/kernel/kernelHeap.c:106-128 | which words change, and to what, when the rest is too small for a header |
| `KernelHeap.Heap.Split` | CoOS/kernel/kernelHeap.c:130-158 | which words change, and to what, when the rest becomes a free block |
| `KernelHeap.Heap.GetPreFMB` | CoOS/kernel/kernelHeap.c:398-407 | the walk over tagged links ends at the nearest free block below, NULL if there is none |
| `KernelHeap.Heap.FreeBetweenFree` | CoOS/kernel/kernelHeap.c:264-300 | the four cases of a block with no used neighbour all write the header of the joined block and the list link that leads to it |
| `KernelHeap.Heap.FreeAfterFree` | CoOS/kernel/kernelHeap.c:301-320 | the two cases with a used block only behind |
| `KernelHeap.Heap.FreeBeforeFree` | CoOS/kernel/kernelHeap.c:321-349 | the cases with a used block only in front, which needs the free list predecessor |
| `KernelHeap.Heap.FreeBetweenUsed` | CoOS/kernel/kernelHeap.c:350-371 | the cases between two used blocks |
| `KernelHeap.Heap.FreeHeader` | CoOS/kernel/kernelHeap.c:263-371 | the case split on the two tag bits covers all neighbours |
| `KernelHeap.Heap.LinkNeighbours` | CoOS/kernel/kernelHeap.c:373-382 | the neighbours of the new free block, and nothing else, point to it untagged |
| `KernelHeap.Heap.ReleaseBlock` | CoOS/kernel/kernelHeap.c:206-384 | freeing a live block: its membership walk ends, the block is joined with free neighbours, no other payload changes |
| `KernelHeap.Heap.CoKfree` | CoOS/kernel/kernelHeap.c:182-384 | a live block is released and nothing else; NULL and pointers outside the heap change nothing |
| `HeapWords.CarvedRepresents` | CoOS/kernel/kernelHeap.c:103-158 | the words written by an allocation represent exactly the new layout: every link, its tag bit and the free list |
| `HeapWords.FreedRepresents` | CoOS/kernel/kernelHeap.c:263-382 | the words written by a release represent exactly the joined layout, although headers overlay each other |
| `HeapWords.FreeLinks` | CoOS/kernel/kernelHeap.c:86-93 | what the three words of a free header say about its neighbours and the list |
| `HeapWords.UsedLinks` | CoOS/kernel/kernelHeap.c:263-321 | what the tagged links of a used block say about which neighbours are free |
| `HeapWords.ReplacedRepresents` | CoOS/kernel/kernelHeap.c:97-158 | words that rewrite one stretch of blocks and its border links represent the layout with that stretch replaced, and keep all payloads outside it |
| `HeapLayout.Disjoint` | CoOS/kernel/kernelHeap.c:97-158 | blocks never overlap and never leave the heap |
| `HeapLayout.AllocWellFormed` | CoOS/kernel/kernelHeap.c:97-158 | an allocation keeps the tiling, the least size and that no two free blocks are adjacent |
| `HeapLayout.ReleaseWellFormed` | CoOS/kernel/kernelHeap.c:264-371 | a release keeps the tiling, and coalescing leaves no adjacent free blocks |
| `HeapLayout.AllocLive` | CoOS/kernel/kernelHeap.c:97-158 | a successful allocation adds one live block of at least the size needed, disjoint from all others, and changes no other; otherwise nothing changes |
| `HeapLayout.ReleaseLive` | CoOS/kernel/kernelHeap.c:264-382 | a release takes exactly its block from the live blocks |
| `HeapLayout.ReleaseUndoesAlloc` | CoOS/kernel/kernelHeap.c:102-371 | freeing the block just allocated restores the layout, split or not |
| `HeapLayout.NoLiveIsInitial` | CoOS/kernel/kernelHeap.c:41-49 | a heap without live blocks is the initial single free block |
| `HeapLayout.FreeAllInAnyOrder` | CoOS/kernel/kernelHeap.c:264-371 | freeing all live blocks in any order ends in the initial heap |
| `HeapLayout.NeedHoldsRequestIff` | CoOS/kernel/kernelHeap.c:80 | the 32-bit rounding yields room for the request if and only if the size is at most 0xFFFFFFF4 |
| `HeapLayout.ServedIff` | CoOS/kernel/kernelHeap.c:80-98 | a block handed out holds the bytes asked for if and only if the rounding did not wrap |
| `HeapLayout.TooLargeServed` | CoOS/kernel/kernelHeap.c:80-98 | a request of 0xFFFFFFF5 bytes to an empty heap is served with a block that is too small |
| `HeapLayout.RunSafe` | CoOS/kernel/kernelHeap.c:64-384 | over every run of allocations and of releases of live blocks the heap stays well formed and a block keeps its place and size until it is freed; a release of any other address counts as no step |
| `DeltaList.InsertIsStable` | CoOS/kernel/time.c:47-92 | while the signed walk stays in range, the 32-bit insertion is the stable insertion by due time: equal due times in order of arrival, every other due time unchanged |
| `DeltaList.InsertStableIff` | CoOS/kernel/timer.c:63-99 | the 32-bit insertion is the stable one if and only if the head is less than 2^31 ticks before the new due time and the entry that follows at most 2^31 ticks after it |
| `DeltaList.FarWait` | CoOS/kernel/time.c:182-195 | a delay of 2^31 + 1 ticks, which CoTickDelay accepts, is put in front of a task that sleeps one tick |
| `DeltaList.SmallWaits` | CoOS/kernel/time.c:47-92 | waits below 2^31 ticks meet the guard, and keep doing so after the insertion |
| `DeltaList.RemoveKeepsDue` | CoOS/kernel/time.c:111-142 | a removal changes no other due time |
| `DeltaList.TickDue` | CoOS/portable/arch.c:67-77 | one count-down of the head brings every entry one tick nearer, unless the head is already due |
| `DeltaClock.StepInv` | CoOS/kernel/timer.c:216-420 | every start, stop, tick and deferred disposal keeps each timer on its due time |
| `DeltaClock.RunLawful` | CoOS/kernel/timer.c:216-420 | over every run of starts, stops, ticks and disposals each entry stays on the due time of its job, put off by the ticks lost since it was armed, and every release recorded took place on it |
| `DeltaOnce.StepOnce` | CoOS/kernel/time.c:317-376 | every step keeps: an entry armed once is listed and not released, or unlisted and released exactly once |
| `DeltaOnce.ReleasedExactlyOnce` | CoOS/kernel/time.c:317-376 | over every run, deferred disposals included: an entry armed once is listed, not past its due time and not released, or unlisted and released exactly once, not before it was due and late by no more than the ticks lost |
| `DeltaOnce.OnceFromStart` | CoOS/kernel/timer.c:394-404 | started at t for n ticks, a one-shot entry is released in an undeferred run once and at t+n: no release before that tick has come, exactly that one from then on |
| `DeltaOnce.StopIsFinal` | CoOS/kernel/timer.c:254-277 | a stopped timer is not released any more, over any run that does not start it again |
| `DeltaClock.StillAhead` | CoOS/portable/arch.c:81-93 | with no disposal deferred, all that is due has fired |
| `DeltaClock.FireLog` | CoOS/kernel/timer.c:394-420 | one disposal fires the timers that are due, each once and in list order, although periodic ones are inserted again |
| `DeltaClock.PeriodicTick` | CoOS/portable/arch.c:81-93 | an undeferred tick fires a periodic timer exactly when it is due and arms it a period later |
| `DeltaClock.PeriodicRun` | CoOS/kernel/timer.c:394-420 | over undeferred runs a periodic timer fires at its due ticks, none missed and none doubled |
| `DeltaClock.PeriodicFromStart` | CoOS/kernel/timer.c:216-238 | started at t with count c and reload r it fires at those of t+c, t+c+r, t+c+2r, ... that have come and at no other tick |
| `Timers.TimerTable.InsertTmrList` | CoOS/kernel/timer.c:41-101 | the linked insertion refines the abstract one, on links and counts |
| `Timers.TimerTable.FindPlace` | CoOS/kernel/timer.c:68-97 | the S32 walk stops where the abstract walk does |
| `Timers.TimerTable.RemoveTmrList` | CoOS/kernel/timer.c:115-150 | a listed timer is taken out and its ticks go to its successor; for a timer on no list the head of the list is lost and nothing else changes |
| `Timers.TimerTable.CoCreateTmr` | CoOS/kernel/timer.c:181-200 | the first unused entry is set up and left stopped, -1 if and only if there is none |
| `Timers.TimerTable.CoStartTmr` | CoOS/kernel/timer.c:216-238 | starts a stopped timer with its stored count; a count of 0 leaves it off the list |
| `Timers.TimerTable.CoStopTmr` | CoOS/kernel/timer.c:254-277 | stopping a running timer performs the stop and keeps the table in order if and only if it has a neighbour, is the head, or there is no list; else the head is lost with every listed timer |
| `Timers.TimerTable.SeversIff` | CoOS/kernel/timer.c:123-127 | the test a caller can make on links and head says that the timer is on no list while others are |
| `Timers.StopDropsOthers` | CoOS/kernel/timer.c:254-277 | a run in which stopping a timer with count 0 leaves another one marked running and on no list |
| `Timers.TimerTable.TmrDispose` | CoOS/kernel/timer.c:394-420 | the loop terminates, fires exactly the timers due at its start in list order, stops the one-shot ones among them and no other, and performs the abstract disposal |
| `Timers.TimerTable.TmrTick` | CoOS/portable/arch.c:81-93 | the timer part of the tick interrupt: which timers fire and which are stopped, or the deferral when the scheduler is locked |
| `Timers.TimerTable.RespondTimerReq` | CoOS/kernel/serviceReq.c:107-113 | the deferred disposal: which timers fire, and that the request is taken back |
| `TaskModel.InsertIsFifo` | CoOS/kernel/task.c:442-475 | a task made ready comes last among those of its priority and the order of all others stays |
| `TaskModel.ScheduleFacts` | CoOS/kernel/task.c:710-756 | a schedule that is not refused ends with a RUNNING next task that no ready task outranks, conserves the set of tasks that can run, and changes the ready list only by the exchange |
| `TaskModel.RobinTurn` | CoOS/kernel/task.c:749-762 | round robin: at the end of a slice the equals move up by one and the current task comes last; before it the current task stays |
| `TaskTurns.ScheduleTakesPlace` | CoOS/kernel/task.c:716-766 | when a schedule takes place and who runs next: with a ready task, no switch pending, at most the own lock and outside interrupts, a stopped task, one that is outranked and one whose slice is over beside an equal give way to the head of the ready list, any other goes on; in every other case nothing changes |
| `TaskTurns.ReleaseInOrder` | CoOS/kernel/time.c:317-350 | released sleepers come behind the ready tasks of their priority, in the order of the delay list |
| `TaskTurns.UnlockSettles` | CoOS/kernel/core.c:88-109 | the unlock that ends the lock does the deferred disposal, takes its request back, and schedules after it |
| `TaskTurns.ExitSettles` | CoOS/kernel/core.c:59-71 | after the outermost exit from an interrupt outside the lock, the next task is RUNNING and no ready task outranks it |
| `TaskTurns.TickSettles` | CoOS/portable/arch.c:62-97 | after a tick outside the lock, the next task is RUNNING and no ready task outranks it |
| `TaskTurns.DelaySettles` | CoOS/kernel/time.c:175-198 | a task that delays gives way to the head of the ready list |
| `TaskTurns.StartSettles` | CoOS/kernel/core.c:211-218 | after the start of the system no ready task outranks the one that is to run |
| `TaskTurns.RunSettles` | CoOS/kernel/core.c:59-147 | over every run: after a scheduling point that is not refused, no more urgent ready task is left waiting |
| `TaskTurns.HeldStep` | CoOS/kernel/task.c:718-724 | under the lock or while an interrupt is handled no call but the last unlock and the last exit changes the next task, and lock and nesting are counted |
| `TaskTurns.RunHeldBack` | CoOS/kernel/task.c:718-724 | over every run in which the lock or an interrupt lasts, no other task is chosen to run |
| `TaskRobin.DeadlineStarts` | CoOS/kernel/task.c:379-397 | a deadline that is past is renewed by the slice of the running task when an equal becomes ready; one that is not past is left alone |
| `TaskRobin.WholeTurn` | CoOS/kernel/task.c:749-766 | of a turn with n ticks left, n-1 ticks let the running task go on, and with the n-th the first of its equals runs |
| `TaskRobin.AwakeStartsTurn` | CoOS/kernel/task.c:379-397 | a task awakened beside its running equal gives the running one exactly its slice of ticks more, and then the first ready equal runs |
| `TaskEffects.CreatedFacts` | CoOS/kernel/task.c:866-929 | a created task has its priority and slice, and is WAITING on no list or can run |
| `TaskEffects.DeletedFacts` | CoOS/kernel/task.c:988-1038 | a deleted task is DORMANT, at the head of the free list and on no other, and the tasks that can run are the others |
| `TaskEffects.SuspendedFacts` | CoOS/kernel/task.c:1165-1178 | a suspended task is WAITING on no list, and the tasks that can run are the others |
| `TaskEffects.AwokenFacts` | CoOS/kernel/task.c:1254-1257 | an awakened task can run, and so can the others |
| `TaskEffects.UnlockRunnable` | CoOS/kernel/core.c:88-109 | an unlock conserves the tasks that can run, but for those whose delay it ends |
| `TaskModel.ReleaseInv` | CoOS/kernel/time.c:317-350 | releasing sleepers keeps every list and leaves none due |
| `TaskModel.UnlockInv` | CoOS/kernel/core.c:88-109 | an unlock keeps the invariant |
| `TaskModel.DelInv` | CoOS/kernel/task.c:946-1040 | a harmless deletion keeps the invariant, whichever list holds the deleted one |
| `TaskModel.SuspendInv` | CoOS/kernel/task.c:1137-1180 | a harmless suspension keeps the invariant, from a task or from an interrupt |
| `TaskModel.SuspendKeepsListsIff` | CoOS/kernel/task.c:1137-1180 | suspending keeps the lists and the other ready tasks if and only if the current task is on no list, or the other one is on the ready list, or nobody is ready and the suspended task is neither free nor the next one without a schedule asked for |
| `TaskModel.DelKeepsListsIff` | CoOS/kernel/task.c:946-1040 | deleting keeps the lists and the other ready tasks if and only if it is not applied to the last table entry before its first creation, which CreateTCBList leaves READY, while it is free or others are ready |
| `TaskHarm.UncreatedHarms` | CoOS/kernel/task.c:66-82 | a run from the boot state after which suspending, or deleting, a number never created takes the idle task off the ready list, and deleting puts the entry on the free list twice |
| `TaskHarm.PendingHarms` | CoOS/kernel/task.c:1153-1178 | a run after which suspending the task that is to run next, before the switch, takes the idle task off the ready list |
| `TaskModel.AwakeInv` | CoOS/kernel/task.c:1198-1258 | an awakening keeps the invariant |
| `TaskModel.DelayedInv` | CoOS/kernel/time.c:175-198 | a delay keeps the invariant |
| `TaskModel.TickInv` | CoOS/portable/arch.c:62-79 | a tick keeps the invariant |
| `TaskModel.ExitInv` | CoOS/kernel/core.c:59-71 | the exit from an interrupt keeps the invariant |
| `TaskModel.BootInv` | CoOS/kernel/task.c:55-85 | the table as it is built meets the invariant |
| `TaskModel.StepInv` | CoOS/kernel/task.c:710-1258 | every kernel operation, harmless where it suspends or deletes, keeps: each task on exactly the list its state says, lists without repetition, sorted ready list, and no missing schedule request |
| `TaskModel.RunSafe` | CoOS/kernel/core.c:59-147 | over every run, with no switch pending and no schedule asked for, the current task is RUNNING and no ready task outranks it |
| `TaskDelays.StepSleeps` | CoOS/kernel/time.c:317-376 | every step moves a sleeper towards its due tick or leaves it there, whatever happens to other tasks |
| `TaskDelays.RunSleeps` | CoOS/kernel/time.c:317-376 | over every run a sleeper keeps its due tick, which moves only by the ticks lost |
| `TaskDelays.ReleasedOnTime` | CoOS/kernel/time.c:175-198 | a task that delays n ticks at tick t is never released before t+n plus the ticks lost, and is off the delay list from then on when no disposal is deferred |
| `TaskDelays.NothingLost` | CoOS/kernel/time.c:365-376 | if no tick comes while the scheduler is locked, no tick is lost |
| `TaskDelays.SecondIsLost` | CoOS/portable/arch.c:67-77 | of two ticks under the lock when the first sleeper is one tick away, the second is lost |
| `TaskWakes.StepWakes` | CoOS/kernel/task.c:710-1258 | every operation that neither suspends, deletes nor creates a task keeps it on the delay list, ready or running |
| `TaskWakes.ReleasedIsReady` | CoOS/kernel/time.c:317-350 | a task that delays n ticks at tick t is asleep before t+n plus the ticks lost, and READY or RUNNING once it is off the delay list, which it is from then on when no disposal is deferred |
| `TaskDelays.RunAttended` | CoOS/portable/arch.c:67-77 | over every run, a due sleeper that was not released has a disposal asked for |
| `Kernel.Tasks.constructor` | CoOS/kernel/core.c:177-184 | the initial variables, under the lock and before the idle task is created, stand for the boot state |
| `Kernel.Tasks.CreateTCBList` | CoOS/kernel/task.c:55-85 | all entries are linked as free in order; the last one keeps state READY |
| `Kernel.Tasks.FindReadyPlace` | CoOS/kernel/task.c:454-465 | the walk by priority ends at the place of the specification |
| `Kernel.Tasks.InsertToTCBRdyList` | CoOS/kernel/task.c:368-476 | links, head, state, request flag and round-robin deadline after an insertion |
| `Kernel.Tasks.RemoveFromTCBRdyList` | CoOS/kernel/task.c:491-554 | the four link cases take out one task and null its links |
| `Kernel.Tasks.FindDelayPlace` | CoOS/kernel/time.c:58-92 | the S32 walk of the delay list stops where the abstract walk does |
| `Kernel.Tasks.InsertDelayList` | CoOS/kernel/time.c:40-97 | links and counts after an insertion into the delay list |
| `Kernel.Tasks.RemoveDelayList` | CoOS/kernel/time.c:111-142 | links and counts after a removal from it |
| `Kernel.Tasks.TimeDispose` | CoOS/kernel/time.c:317-350 | the loop moves the due tasks to the ready list in order, on shared links |
| `Kernel.Tasks.isr_TimeDispose` | CoOS/kernel/time.c:365-376 | deferred under the lock, done at once otherwise |
| `Kernel.Tasks.Exchange` | CoOS/kernel/task.c:746-761 | the running task becomes ready before the head leaves the list |
| `Kernel.Tasks.GiveWay` | CoOS/kernel/task.c:736-741 | the head of the ready list takes over from a task that stopped running |
| `Kernel.Tasks.Choose` | CoOS/kernel/task.c:733-761 | which of take-over, preemption, round robin and no change takes place, and what each does |
| `Kernel.Tasks.Schedule` | CoOS/kernel/task.c:710-772 | refusals, take-over, preemption, round robin and slice of the specification |
| `Kernel.Tasks.RespondSRQ` | CoOS/kernel/serviceReq.c:101-106 | the deferred disposal of sleepers |
| `Kernel.Tasks.OsSchedUnlock` | CoOS/kernel/core.c:88-109 | at lock depth 1 responds, schedules and unlocks; deeper it only counts |
| `Kernel.Tasks.AssignTCB` | CoOS/kernel/task.c:788-803 | takes the first free control block, NULL if and only if there is none |
| `Kernel.Tasks.CreateTask` | CoOS/kernel/task.c:822-930 | bad priority and a full table change no task; otherwise the block is set up and made ready or waiting |
| `Kernel.Tasks.CoDelTask` | CoOS/kernel/task.c:946-1040 | which code is returned when, and the deletion from whichever list holds the task |
| `Kernel.Tasks.CoSuspendTask` | CoOS/kernel/task.c:1137-1180 | which code is returned when, and the suspension of a ready or of the running task |
| `Kernel.Tasks.CoAwakeTask` | CoOS/kernel/task.c:1198-1258 | which code is returned when, and the awakening of a suspended task only |
| `Kernel.Tasks.CoTickDelay` | CoOS/kernel/time.c:175-198 | which code is returned when, and the delay of the running task |
| `Kernel.Tasks.CoOS_SysTick_Handler` | CoOS/portable/arch.c:62-79 | count-down, release or deferral of sleepers, and the schedule at the end of the tick |
| `Kernel.Tasks.CoSchedLock` | CoOS/kernel/core.c:125-128 | counts the lock |
| `Kernel.Tasks.CoSchedUnlock` | CoOS/kernel/core.c:144-147 | uncounts the lock and at depth 1 schedules |
| `Kernel.Tasks.CoEnterISR` | CoOS/kernel/core.c:40-43 | counts the nesting |
| `Kernel.Tasks.CoExitISR` | CoOS/kernel/core.c:59-71 | schedules at the outermost exit when asked for |
| `Kernel.Tasks.SwitchContext` | CoOS/kernel/task.c:771 | the pending task becomes the running one |
| `Kernel.Tasks.CoStartOS` | CoOS/kernel/core.c:211-218 | the idle task runs and the first schedule takes place |
| `TaskLists.LinkReady` | CoOS/kernel/task.c:442-475 | link writes that move a task from no list to the ready list leave the delay and free lists intact |
| `TaskLists.UnlinkReady` | CoOS/kernel/task.c:506-545 | link writes that take one off leave them intact |
| `TaskLists.TakeFree` | CoOS/kernel/task.c:798-800 | taking the head of the free list leaves the others intact |
| `TaskLists.GiveFree` | CoOS/kernel/task.c:1035-1036 | putting one back leaves them intact |
| `PrioIndex.ReadyIndex.GetPriSeqNum` | CoOS/kernel/task.c:104-131 | binary search: found if and only if the priority is in the sorted table, else the slot where it belongs |
| `PrioIndex.ReadyIndex.GetRdyPriSeqNum` | CoOS/kernel/task.c:147-193 | the scan returns the greatest marked number not above its argument, INVALID_ID if and only if none is |
| `ReadyBits.ScanWord` | CoOS/kernel/task.c:155-188 | highest set bit up to j in one word, byte by byte |
| `ReadyBits.ScanByte` | CoOS/kernel/task.c:160-185 | highest set bit up to j in one byte, with the test of its upper half |
| `ReadyBits.ScanDown` | CoOS/kernel/task.c:164-184 | highest set bit in a range, bit by bit |
| `ReadyBits.LowBits` | CoOS/kernel/task.c:214-217 | the mask of the bits below a position |
| `PrioIndex.ReadyIndex.PrioRemap` | CoOS/kernel/task.c:208-233 | all bits from seqNum on are rebuilt from the table across words, those below are kept |
| `PrioIndex.ReadyIndex.GetPrioSeqNumStatus` | CoOS/kernel/task.c:249-256 | reads one bit |
| `PrioIndex.ReadyIndex.SetPrioSeqNumStatus` | CoOS/kernel/task.c:272-279 | writes one bit and no other |
| `PrioIndex.ReadyIndex.ActiveTaskPri` | CoOS/kernel/task.c:296-317 | table, counts, last tasks and bits are kept for one more task |
| `PrioIndex.ReadyIndex.DeleteTaskPri` | CoOS/kernel/task.c:335-352 | table, counts, last tasks and bits are kept for one task fewer, which is off the ready list |
| `PrioIndex.ReadyIndex.SetNewPrio` | CoOS/kernel/task.c:872-916 | a creation gives a task its priority before it is counted |
| `PrioIndex.ReadyIndex.NoteReady` | CoOS/kernel/task.c:398-431 | the table finds the very predecessor that a walk over the list finds |
| `PrioIndex.ReadyIndex.InsertToTCBRdyList` | CoOS/kernel/task.c:398-439 | the fast form yields the same ready list and the same schedule request as the sorted-list form |
| `PrioIndex.ReadyIndex.RemoveFromTCBRdyList` | CoOS/kernel/task.c:491-554 | the same list as the plain removal, with table and bits kept |
| `PrioIndex.ReadyIndex.WriteOut` | CoOS/kernel/task.c:506-545 | what the neighbours tell about the last ready task of a priority |
| `ReadyTable.PlaceBehindEquals` | CoOS/kernel/task.c:400-404 | behind the last ready task of the priority is where a walk ends |
| `ReadyTable.PlaceBehindLower` | CoOS/kernel/task.c:405-431 | without one, behind the last ready task of the next more urgent ready priority is where a walk ends |
| `ReadyTable.PlaceAtHead` | CoOS/kernel/task.c:410-426 | without a ready task of it or of a more urgent priority, the head is where a walk ends |
| `ReadyTable.InsertIndexed` | CoOS/kernel/task.c:400-409 | recording the new last task keeps the table true |
| `ReadyTable.RemoveIndexed` | CoOS/kernel/task.c:506-553 | recording what a removal leaves keeps the table true |
| `ReadyTable.PutIn` | CoOS/kernel/task.c:299-312 | a new priority keeps the table increasing and true |
| `ReadyTable.TakeOut` | CoOS/kernel/task.c:341-350 | dropping the last task of a priority keeps it increasing and true |
| `ReadyTable.RoomLeft` | CoOS/kernel/task.c:299-312 | the table never overflows while a task control block is left |
| `ServiceReq.StepExact` | CoOS/kernel/serviceReq.c:54-161 | every atomic section keeps: accepted requests are the handled ones followed by those in the ring, and a non-empty ring has IsrReq set |
| `ServiceReq.RunExact` | CoOS/kernel/serviceReq.c:54-161 | over every interleaving of interrupts and response sections requests are handled once each and in order, and none is left without IsrReq |
| `ServiceReq.StepEffect` | CoOS/kernel/serviceReq.c:54-161 | what each section does to the requests in the ring: one that finds room is stored last and flagged, the oldest is handled, the flag goes down on an empty ring only |
| `ServiceReq.RunTakes` | CoOS/kernel/serviceReq.c:57-73 | over every interleaving the requests accepted are exactly those that found room, in order |
| `ServiceReq.UnlockAnswers` | CoOS/kernel/core.c:90-95 | an uninterrupted unlock leaves no accepted request behind |
| `ServiceReq.DrainAll` | CoOS/kernel/serviceReq.c:119-161 | an uninterrupted response empties the ring and lowers the flag |
| `ServiceReq.RequestRing.InsertInSRQ` | CoOS/kernel/serviceReq.c:54-76 | refused without a change if and only if the ring is full; else the request is accepted, stored at the tail and flagged |
| `ServiceReq.RequestRing.Extract` | CoOS/kernel/serviceReq.c:121-126 | the protected section that takes out the oldest request |
| `ServiceReq.RequestRing.LowerFlag` | CoOS/kernel/serviceReq.c:155-161 | the flag is lowered only on an empty ring |
| `ServiceReq.RequestRing.RespondSRQ` | CoOS/kernel/serviceReq.c:119-162 | the drain loop ends once interrupts cease, handles all that was accepted before, and leaves no request unflagged |
| `MailQueue.StepExact` | CoOS/kernel/queue.c:172-352 | every call keeps: mails delivered followed by the ring are the mails posted, waiters only while the ring is empty |
| `MailQueue.RunExact` | CoOS/kernel/queue.c:172-352 | over every run of posts, accepts, pends and timeouts no mail is lost, doubled or overtaken |
| `MailQueue.StepEffect` | CoOS/kernel/queue.c:172-352 | what each call does to the mails, the waiters and who gets which mail: a post with room is taken by the first waiter or the ring, the oldest mail goes to whoever asks, and a waiter whose time is over is the one that leaves |
| `MailQueue.RunTakes` | CoOS/kernel/queue.c:334-352 | over every run the mails posted are exactly those of the posts that came while there was room, in order, and each of them is delivered or in the ring |
| `MailQueue.PostServesFirst` | CoOS/kernel/event.c:303-346 | a post while tasks wait hands that very mail to the first waiter and leaves the ring empty |
| `MailQueue.FirstIsHighest` | CoOS/kernel/event.c:246-277 | the first waiter of a priority queue has the highest priority |
| `MailQueue.WaitIsFifo` | CoOS/kernel/event.c:228-277 | a new waiter comes last, or last among its equals |
| `EventQueue.Queue.constructor` | CoOS/kernel/queue.c:64-69 | an empty queue |
| `EventQueue.Queue.EventTaskToWait` | CoOS/kernel/event.c:226-279 | the FIFO walk and the priority walk both link the waiter in at its place |
| `EventQueue.Queue.FindPlace` | CoOS/kernel/event.c:256-266 | the priority walk |
| `EventQueue.Queue.RemoveEventWaittingList` | CoOS/kernel/event.c:379-409 | the four link cases take out the waiter whose time is over and no other |
| `EventQueue.Queue.EventTaskToRdy` | CoOS/kernel/event.c:309-343 | the first waiter leaves the list with the oldest mail |
| `EventQueue.Queue.CoPostQueueMail` | CoOS/kernel/queue.c:334-352 | a full queue refuses without a change; else the mail is taken and the first waiter served |
| `EventQueue.Queue.CoAcceptQueueMail` | CoOS/kernel/queue.c:172-193 | the oldest mail goes to the caller, or E_QUEUE_EMPTY without a change, never waiting |
| `EventQueue.Queue.CoPendQueueMail` | CoOS/kernel/queue.c:244-268 | oldest mail at once, else the caller joins the waiters |
| `Mutexes.StepLawful` | CoOS/kernel/mutex.c:83-278 | every enter and leave keeps: one owner at least as urgent as every waiter, no task below its starting priority, and the line served first come first served |
| `Mutexes.RunLawful` | CoOS/kernel/mutex.c:83-278 | over every run and for every mutex: one owner at least as urgent as every waiter, no task below its starting priority, first come first served |
| `Mutexes.KthWaiter` | CoOS/kernel/mutex.c:216-276 | the k-th waiter owns the mutex after exactly k leaves and waits until then |
| `MutexPrio.SavedAndRestored` | CoOS/kernel/mutex.c:113-133 | from the step that gives a task the mutex until the leave: the priority it had before that step stays saved, it runs at the highest of what it was given and what those that wait have, and leaving while tasks wait restores the priority it had before |
| `MutexPrio.FirstHandOver` | CoOS/kernel/mutex.c:113-133 | of a task that found the mutex free, hipriTaskID names itself while it was not raised and then a waiter of its priority, so that the first hand-over gives the highest priority among the waiters |
| `MutexPrio.HandOverNames` | CoOS/kernel/mutex.c:228-248 | whom hipriTaskID names after a hand-over: the first of the waiters with the highest priority, or whom it named before |
| `MutexPrio.EnterTouches` | CoOS/kernel/mutex.c:113-133 | entering changes the priority of the holder only |
| `MutexPrio.LeaveTouches` | CoOS/kernel/mutex.c:216-270 | leaving changes the priorities of the holder and the next holder only |
| `Mutexes.LeaveRestoresIff` | CoOS/kernel/mutex.c:216-276 | a leave restores the owner's priority if and only if somebody waits or it was not raised |
| `Mutexes.HandOverPrioIff` | CoOS/kernel/mutex.c:228-270 | the task that gets the mutex is given the highest priority among the waiters if hipriTaskID names the owner, and else the owner's; that is the highest among the waiters if and only if a waiter has it |
| `Mutexes.StaysRaised` | CoOS/kernel/mutex.c:228-248 | a run of three tasks after which one keeps a priority above its own though the mutex is free |
| `MutexControl.Control.CoEnterMutexSection` | CoOS/kernel/mutex.c:108-178 | takes a free mutex, or lends the owner the caller's priority and joins the tail |
| `MutexControl.Control.CoLeaveMutexSection` | CoOS/kernel/mutex.c:213-270 | frees the mutex or passes it on, on fields and links |
| `MutexControl.Control.FindHighest` | CoOS/kernel/mutex.c:231-244 | the walk finds the highest priority among the waiters and the one that lowered it last |
| `MutexControl.Control.PassOn` | CoOS/kernel/mutex.c:226-274 | the order of restoring, taking the first waiter and raising it |
| `MutexControl.Control.CoSetPriority` | CoOS/kernel/task.c:575-627 | the reset of the former owner's priority, task 0 being protected |
| `BlockPool.Pool.constructor` | CoOS/kernel/mm.c:66-86 | all blocks are free, linked in address order |
| `BlockPool.Pool.CoGetFreeBlockNum` | CoOS/kernel/mm.c:162-173 | the walk counts the free blocks, which with those handed out are all blocks |
| `BlockPool.Pool.CoGetMemoryBuffer` | CoOS/kernel/mm.c:203-213 | a block address that was not handed out, NULL if and only if none is free |
| `BlockPool.Pool.CoFreeMemoryBuffer` | CoOS/kernel/mm.c:251-271 | an accepted buffer becomes the head of the free list and is no longer handed out |
| `BlockPool.AcceptedIff` | CoOS/kernel/mm.c:253-264 | the address checks accept the block addresses and the address just behind the last block, nothing else |
| `BlockPool.CountsUpIff` | CoOS/kernel/mm.c:42-84 | the byte-wide loop counter of the creation reaches its end if and only if there are at most 256 blocks |
| `BlockPool.Shared` | CoOS/kernel/mm.c:162-173 | free and handed-out blocks share out all blocks |
| `TopicMatch.IsTopicMatched` | MPP/MQTT/MQTTClient.c:130-155 | the byte loop ends and, for well-formed filters and any name, decides the relation between levels |
| `TopicMatch.SkipLevel` | MPP/MQTT/MQTTClient.c:143-147 | the inner loop stops at the last byte of the level |
| `TopicMatch.ScanIsMatch` | MPP/MQTT/MQTTClient.c:130-155 | for well-formed filters and any name, byte-wise equals level-wise matching, where a wildcard has to stand for a level that is not empty |
| `TopicMatch.ClientIff` | MPP/MQTT/MQTTClient.c:126-155 | the client matches exactly what section 4.7.1 of MQTT 3.1.1 matches with every wildcard over a level that is there and not empty |
| `TopicMatch.ClientWithoutEmpty` | MPP/MQTT/MQTTClient.c:130-155 | for names without empty levels, + is one level and # is one or more |
| `TopicMatch.MissesParent` | MPP/MQTT/MQTTClient.c:126-155 | "a/#" is to match "a" and does not |
| `TopicMatch.MissesEmpty` | MPP/MQTT/MQTTClient.c:136-137 | "+/+" is to match "/finance" and does not |
| `TopicMatch.StandardIff` | MPP/MQTT/MQTTClient.c:126-155 | compared with one level for + and one or more for #, section 4.7.1 of MQTT 3.1.1 adds only the parent level of a final # |
| `TopicMatch.DeliverMessage` | MPP/MQTT/MQTTClient.c:158-188 | exactly the handlers that match are called, each once and in table order, and the default one only if none is |
| `RemainingLength.EncodeLength` | MPP/MQTT/src/MQTTPacket.c:29-45 | the loop writes the encoding |
| `RemainingLength.DecodePacket` | MPP/MQTT/MQTTClient.c:72-97 | the loop over a byte source, with its limit of four bytes and its end on a short source |
| `RemainingLength.RoundTripIff` | MPP/MQTT/MQTTClient.c:72-97 | decoding gives back an encoded length, whatever follows, if and only if it is below 128^4 |
| `RemainingLength.GivesUp` | MPP/MQTT/MQTTClient.c:80-96 | without a last byte among the first four the decoder counts one byte more than it got |
| `RemainingLength.EncodedLen` | MPP/MQTT/src/MQTTPacket.c:29-45 | the number of bytes by range, as in section 2.2.3 of MQTT 3.1.1 |
| `RemainingLength.PacketLenIff` | MPP/MQTT/src/MQTTPacket.c:84-98 | the packet length computed up front is right for exactly the lengths below 128^4 other than 127, 16383, 2097150 and 2097151 |

## Left out

Contracts that are weaker than the code, or that hold under an assumption:

- KernelHeap.Heap.CoKfree: for pointers inside the heap the caller has to pass a live block; on others the C code walks into a null pointer minus one.
- KernelHeap.Heap.CoKmalloc: requests above 0xFFFFFFF4 bytes, whose rounding wraps, are excluded here and covered by HeapLayout.ServedIff.
- TaskDelays.ReleasedOnTime: speaks of delays below 2^31 ticks, the range of the signed walk, and of runs that do not delete the sleeper.
- DeltaClock.RunLawful: counts and reload values are below 2^31; a disposal and the clearing of its request are one step (see below).
- DeltaList.InsertStableIff: is about the list; a wait of 0 ticks, for which the kernel returns before it inserts, is decided by Kernel.Tasks.InsertDelayList and Timers.TimerTable.InsertTmrList.
- Kernel.Tasks.CoSuspendTask: a call that does harm is excluded, because nothing of the class invariant is left after it; TaskModel.SuspendKeepsListsIff says when and what it does.
- Kernel.Tasks.CoDelTask: the same, with TaskModel.DelKeepsListsIff; the mutex, event and flag lists of a deleted task are not part of this class.
- Kernel.Tasks.CoTickDelay: the delay is below 2^31 ticks, and the caller is the running task, so that no context switch is pending.
- Kernel.Tasks.CreateTask: the bits of the packed parameter are separate arguments; stack, entry point and mutex or event fields are not modelled.
- Kernel.Tasks.AssignTCB: within the class its end and the rest of CreateTask follow each other; TaskModel.RunSafe also covers steps in between.
- Kernel.Tasks.OsSchedUnlock: responds when TimeReq is set instead of when IsrReq is; the interrupt requests and the timers are in ServiceReq and Timers.
- Kernel.Tasks.TimeDispose: the event and flag lists that a released task may be on are not part of this class.
- Kernel.Tasks.isr_TimeDispose: sets TimeReq only; IsrReq follows it, as said at OsSchedUnlock.
- Kernel.Tasks.CoOS_SysTick_Handler: the timer half of the interrupt is Timers.TimerTable.TmrTick.
- Kernel.Tasks.CoSchedUnlock: responds as Kernel.Tasks.OsSchedUnlock does.
- Kernel.Tasks.CoAwakeTask: of the waits that it refuses to end, the delay is modelled and event, flag and mutex are not.
- Kernel.Tasks.constructor: the events, the heap and the idle task of CoInitOS are not set up here; the idle task is created by Kernel.Tasks.CreateTask.
- TaskModel.ReleaseInv: leaves out event and flag lists; that the released tasks are READY is in TaskWakes.ReleasedIsReady.
- TaskModel.UnlockInv: responds to the deferred disposal of sleepers only, as said at OsSchedUnlock.
- TaskModel.TickInv: covers the sleepers' half of the interrupt.
- TaskModel.DelInv: a deletion that does harm is excluded, see TaskModel.DelKeepsListsIff.
- TaskModel.SuspendInv: a suspension that does harm is excluded, see TaskModel.SuspendKeepsListsIff.
- TaskModel.DelayedInv: the delay is below 2^31 ticks and the caller is the running task.
- TaskModel.StepInv: excludes what the lines above exclude.
- TaskModel.RunSafe: covers runs of the steps of TaskModel.StepInv.
- TaskTurns.RunSettles: a schedule that is refused because a switch is pending is left to the switch, as in the code.
- TaskRobin.AwakeStartsTurn: the slice is positive, as CreateTask makes it, and no tick of the turn is deferred.
- HeapLayout.RunSafe: a release of an address that is no live block, on which the C code walks into a null pointer minus one, is no step of the run.
- Timers.TimerTable.CoCreateTmr: the checks of the type and of the callback come before and are left out; callbacks are not modelled.
- Timers.TimerTable.CoStartTmr: counts and reload values are below 2^31; a stopped timer goes on with the delta it was left with, as in the code.
- ServiceReq.RunExact: covers the request ring; that TimeReq and TimerReq are cleared after their disposal is outside its claim about IsrReq.
- ServiceReq.RequestRing.RespondSRQ: the requests are handed on without their dispatch by type, and the disposals that come first are modelled by Kernel and Timers.
- PrioIndex.ReadyIndex.InsertToTCBRdyList: the task state and the round-robin deadline are set as in Kernel.Tasks.InsertToTCBRdyList.
- MailQueue.StepExact: a call is one step, see MailQueue.RunExact.
- EventQueue.Queue.constructor: the assignment of a queue number and of an event control block is left out.
- EventQueue.Queue.EventTaskToWait: task state, event number and schedule request are left out.
- EventQueue.Queue.EventTaskToRdy: the moves on the delay and ready lists, and mailbox and semaphore events, are left out.
- EventQueue.Queue.CoPostQueueMail: the checks of the queue number are left out.
- EventQueue.Queue.CoAcceptQueueMail: the checks of the queue number are left out.
- EventQueue.Queue.CoPendQueueMail: the checks of number, interrupt and lock, and the time limit, are left out.
- MailQueue.RunExact: a call is one step, so that the unlocked window of CoPendQueueMail between its test and its wait (CoOS/kernel/queue.c:262-267) is not covered; priorities of waiters are fixed; mail values are opaque, so a null mail is not taken for a timeout.
- Mutexes.RunLawful: each task uses one mutex, as the code's single mutexID field supposes, and the idle task uses none.
- MutexControl.Control.CoSetPriority: the case that the mutex hand-over meets, a task that no longer holds a mutex; the moves of such a task on ready and event lists are not modelled with it.
- MutexControl.Control.CoEnterMutexSection: the waiters' forward links only; TCBprev is not read by the modelled code, and the joint use of TCBnext with the ready list is not covered.
- MutexControl.Control.CoLeaveMutexSection: error returns, and the move of the new owner to the ready list, are left out.
- MutexControl.Control.PassOn: the insertion of the new owner into the ready list is left out.
- BlockPool.Pool.CoFreeMemoryBuffer: a buffer that passes the checks has to be one that is handed out.
- BlockPool.Pool.constructor: at most 256 blocks, the creations that end.
- TopicMatch.IsTopicMatched: the $-topic rule of section 4.7.2 of MQTT 3.1.1 is set aside.
- RemainingLength.EncodeLength: from 128^4 on it writes a fifth byte, like the code, which the standard forbids.

Modelling decisions:

- OsSchedLock and OsSchedUnlock around heap, timer, queue and mutex code, and the interrupt-disabled sections, are atomic; Kernel and TaskModel model the lock itself.
- A deferred disposal and the clearing of its request (CoOS/kernel/serviceReq.c:101-113) are one atomic step: in the code a tick that comes between the two loses its request, so that what it made due waits for the next tick.
- Long C functions are parted into methods along their branches, so that each case has a contract of its own.
- In TimeDispose the new head's TCBprev is cleared before the released task is inserted instead of after it; the writes do not depend on each other.
- task.c:759 and task.c:383 read a priority through a pointer that can be null; the model takes that case for "not equal".
- OSTickCnt and OSCheckTime are unbounded; U32 and S32 arithmetic is exact in the delta lists and in the heap's size computation.
- The words of the ready bit map are rows of 32 bits with the C operations on them; `j & 4` and `(j | 3) - 4` are written with division.
- Inc8 returns the old value; Inc8 and Dec8 are assembly and are not part of this model.
- SwitchContext is the step TCBRunning := TCBNext; the hardware context is not modelled.
- One heap, one timer table, one queue, one memory partition; the bit vessels that hand out their numbers are modelled for timers only.

Not modelled:

- Semaphores, mailboxes and flags (sem.c, mbox.c, flag.c): the mailbox is a queue of one, a semaphore's count wraps when a waiter is woken.
- CoSetTmrCnt on a running timer, CoDelTmr, CoGetCurTmrCnt and CoResetTaskDelayTick.
- DeleteEvent and RemoveMutexList, which leave stale links behind.
- CoSetPriority as a call of its own, and priority changes in the binary-scheduling form, which change the priority before the task leaves the list.
- Stack checks, hooks, the idle task, InitTaskContext, and CFG_TASK_SCHEDULE_EN set to 0.
- The rest of the MQTT client (network, keep-alive, packet parsing) and all device drivers.
