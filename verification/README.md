# Kernel and file system of VSF, verified

This project models the parts of VSF that are hand-written state machines over shared mutable structures, and proves what
they keep over every run. `dafny verify dfyconfig.toml` checks all of it.

- **Event-queue scheduler.** `EventQueueList.dfy` is the list queue of `source/kernel/vsf_evtq_list.c` as a machine whose steps
  are its protected regions; any interleaving of steps is a run. `RoundRobin.dfy` (service order), `NodeConservation.dfy`
  (event nodes) and `ExitWindow.dfy` (the unprotected part of an exit) are about its runs. `EventQueueListRuns.dfy` says what
  the loops of the routines do, as runs of the machine, and `EventQueueListOutcome.dfy` what a dispatch comes to in terms of
  exits and event nodes; `EventQueueListCode.dfy` holds the routines themselves, in place,
  proved to do just that; `EventListClean.dfy` is the clean routine on the links of the event list. `EventQueueArray.dfy`,
  `EventQueueArrayRuns.dfy` and `EventQueueArrayCode.dfy` do the same for the ring buffer of `source/kernel/vsf_evtq_array.c`.
  `TaskDelivery.dfy` says what one task may expect of an event queue, and `EventQueueAgreement.dfy` that both queues behave
  like that, hence alike.
- **Virtual file system.** `VfsTree.dfy` and `VfsRuns.dfy` are the reference counts of `source/component/fs/vsf_fs.c` on a tree
  without mounts; `VfsWalkWindow.dfy` and `VfsCloseWindow.dfy` are what others may do in the middle of an open and of
  a close; `VfsPath.dfy` is path resolution;
  `VfsCode.dfy` holds the routines with their loops over parents, children and the path; `VfsFile.dfy` is the in-memory
  file with its cursor.
- **Tasks.** `FrameStack.dfy` is the sub-call frame stack and `DirectDispatch.dfy` the build without event queues, both of
  `source/kernel/vsf_eda.c`; `TickAccounting.dfy` is CPU time accounting across nested software interrupts.
- **Bits and flash.** `Bits.dfy` and `InputBits.dfy` are bit fields in byte buffers (`source/component/input/vsf_input.c`),
  `FirmwareWrite.dfy` the erase and program machine of `example/mscboot/fakefat32.c`.

Objects that the C code updates in place are classes (`Scheduler`, `Ring`, `EventList`, `Vfs`, `MemFile`, `Task`,
`Dispatcher`, `Cpu`, `Parser`, `FirmwareWriter`). What a handler, an interrupt or another context does is a parameter: a
sequence of steps, of requests, or a script with one entry for each time a handler runs. Since it is arbitrary, what
is proved holds for every behaviour. Kernel assertions are preconditions.

Where a promised property does not hold of the code in general, the code is modelled as it is, and a lemma states the
exact condition under which it does hold: `EventQueueList.RequestTakesEffect`, `RoundRobin.SuccessorStays`,
`ExitWindow.ExitWindowExact`, `EventQueueArray.TerminatesExactly`, `VfsRuns.CreateExact`, `VfsRuns.UnlinkExact`,
`VfsRuns.MoveExact`, `VfsWalkWindow.WalkWindowExact`, `VfsCloseWindow.CloseWindowExact`, `VfsFile.StepExact`, `VfsFile.SeekExact`, `FrameStack.TargetSetExact`,
`FrameStack.GoToExact`, `FirmwareWrite.LengthExact`, `FirmwareWrite.OddWritesExact`, `DirectDispatch.DeliveredExactly`. Runs or states in which it fails are
given by `EventQueueArray.EightBitRingWraps`, `EventQueueArray.CleanedBlocksExit`, `EventQueueArray.LateMarkLosesExit`, `FrameStack.TargetSetDangles`,
`VfsRuns.OpenNodeFreed`, `VfsRuns.ChildLost`, `VfsRuns.MovedOpen`, `VfsWalkWindow.UnlinkedMeanwhile`, `VfsCloseWindow.WalkBreaks`, `VfsFile.TruncateExposes` and
`DirectDispatch.Dispatcher.PostMinusOne`.

## Model

| member | source | states |
|---|---|---|
| `EventQueueList.StepInv` | source/kernel/vsf_evtq_list.c:53-404 | every post, priority request, exit, cleaning step, dispatch begin and dispatch end keeps the scheduling invariant, whatever the interleaving |
| `EventQueueList.RunInv` | source/kernel/vsf_evtq_list.c:53-404 | every state of every run satisfies the invariant; a run creates no tasks and no queues |
| `EventQueueList.BootInv` | source/kernel/vsf_evtq_list.c:107-157 | the state after initialisation satisfies the invariant |
| `EventQueueList.InitFresh` | source/kernel/vsf_evtq_list.c:107-112 | a task that starts anew is not ready, has no events, limit, exit or deferred priority, and gets the priority asked for; nothing else changes |
| `EventQueueList.SchedulerSafety` | source/kernel/vsf_evtq_list.c:165-404 | over every run from boot: a task is in the ready list of its current priority exactly once if it is ready and in no list otherwise, the running task heads its list, a ready task that is not running has an event, a deferred priority change belongs to a running task |
| `EventQueueList.UpdatePriorityInv` | source/kernel/vsf_evtq_list.c:53-74 | moving a ready task that is not running to the tail of another queue keeps the invariant |
| `EventQueueList.RequestInv` | source/kernel/vsf_evtq_list.c:84-105 | a priority request keeps the invariant, immediate or deferred |
| `EventQueueList.FinishInv` | source/kernel/vsf_evtq_list.c:114-132 | the protected region of an exit keeps the invariant: deferred for the running task, otherwise the task leaves the ready list and its events are in flight until they are freed |
| `EventQueueList.EnqueueInv` | source/kernel/vsf_evtq_list.c:190-210 | a post, accepted or refused, keeps the invariant |
| `EventQueueList.BeginInv` | source/kernel/vsf_evtq_list.c:321-329 | taking the head task and its oldest event keeps the invariant, and the event is there |
| `EventQueueList.EndInv` | source/kernel/vsf_evtq_list.c:355-381 | requeueing or retiring the task and then taking the deferred priority keeps the invariant |
| `EventQueueList.RequestTakesEffect` | source/kernel/vsf_evtq_list.c:77-105 | a request is the effective priority at once if and only if it differs from the current priority or no change is deferred |
| `EventQueueList.EffectiveStep` | source/kernel/vsf_evtq_list.c:77-105 | no step other than a request that passes the guard changes a task's effective priority |
| `EventQueueList.LastRequestWins` | source/kernel/vsf_evtq_list.c:77-105 | over every run the last request that passes the guard is the effective priority, and the queue the task is in whenever it is not running |
| `EventQueueList.EndEffect` | source/kernel/vsf_evtq_list.c:355-381 | what the end of a dispatch leaves of the task that ran: priority, readiness, flags and events; no other task and no node changes |
| `EventQueueList.DispatchEnd` | source/kernel/vsf_evtq_list.c:372-382 | after its dispatch a task is not running and is on the queue it asked for last |
| `RoundRobin.EndAdvances` | source/kernel/vsf_evtq_list.c:355-381 | the end of a dispatch moves its own queue up by one and can only append to the others |
| `RoundRobin.StepPosition` | source/kernel/vsf_evtq_list.c:204-206 | a step either serves the queue or leaves the task at position k where it is, unless it takes it or a task ahead away |
| `RoundRobin.RoundRobinTurn` | source/kernel/vsf_evtq_list.c:321-374 | over every undisturbed run a task moves up exactly one place per dispatch of its queue, however many events others receive |
| `RoundRobin.DispatchedInTurn` | source/kernel/vsf_evtq_list.c:321-374 | a dispatch of the queue is the task's own exactly when k others have been served before it |
| `RoundRobin.SuccessorStays` | source/kernel/vsf_evtq_list.c:356-403 | in the unprotected windows at the end of a dispatch, a step keeps the cached successor at the head if and only if it does not take that task away |
| `RoundRobin.WindowSafe` | source/kernel/vsf_evtq_list.c:383-397 | over any steps in such a window that leave the successor alone, it is still the head when poll goes on with it |
| `NodeConservation.StepPlaces` | source/kernel/vsf_evtq_list.c:134-348 | no step changes the number of places where a node is, nor the number of nodes |
| `NodeConservation.NodesConserved` | source/kernel/vsf_os.c:416-424 | over every run from boot, free nodes, queued events and nodes in flight add up to the configured pool, every node is in exactly one place, and no free node or queued node is ever freed |
| `EventQueueListCode.Scheduler.constructor` | source/kernel/vsf_evtq_list.c:146-157 | the initial state: nothing ready, nothing running, all nodes free |
| `EventQueueListCode.Scheduler.MovePriority` | source/kernel/vsf_evtq_list.c:53-74 | the routine is the step that moves a task between queues |
| `EventQueueListCode.Scheduler.ChangePriority` | source/kernel/vsf_evtq_list.c:84-105 | the routine is the priority request step |
| `EventQueueListCode.Scheduler.Detach` | source/kernel/vsf_evtq_list.c:114-132 | the protected region is the exit step, and what it leaves to the loop is the task's event list |
| `EventQueueListCode.Scheduler.FreeEvents` | source/kernel/vsf_evtq_list.c:134-141 | the loop gives every node of the list back to the pool once |
| `EventQueueListCode.Scheduler.OnEdaFini` | source/kernel/vsf_evtq_list.c:114-144 | the routine is the exit step followed by the frees |
| `EventQueueListCode.Scheduler.EnqueueNode` | source/kernel/vsf_evtq_list.c:190-211 | the protected region is the post step; accepted unless the task is limited and ready and the post is not forced |
| `EventQueueListCode.Scheduler.PostEvent` | source/kernel/vsf_evtq_list.c:165-215 | fails exactly when no node is free, or the task is limited and has an event and the post is not forced; otherwise the event is the last of its list; a failed post leaves the whole state, including the pool, unchanged |
| `EventQueueListCode.Scheduler.BeginPoll` | source/kernel/vsf_evtq_list.c:321-329 | the first protected region is the dispatch begin step |
| `EventQueueListCode.Scheduler.Retire` | source/kernel/vsf_evtq_list.c:355-374 | off the ready list, and to its tail if events are left |
| `EventQueueListCode.Scheduler.TakeDeferred` | source/kernel/vsf_evtq_list.c:376-381 | a deferred priority is taken |
| `EventQueueListCode.Scheduler.EndPoll` | source/kernel/vsf_evtq_list.c:355-381 | the second region is the dispatch end step, and the successor cached before the task was requeued is the new head |
| `EventQueueListCode.Scheduler.EndAndExit` | source/kernel/vsf_evtq_list.c:355-386 | after it, a task that is to exit exits, and the successor is still the head |
| `EventQueueListCode.Scheduler.Dispatch` | source/kernel/vsf_evtq_list.c:322-401 | one pass of the inner loop is begin, free of the node, everything that happens meanwhile, end and exit, exactly; and it goes on with the head |
| `EventQueueListCode.Scheduler.Poll` | source/kernel/vsf_evtq_list.c:312-404 | the nested loops are one such pass after the other, each from the state the one before left, and end with an empty ready list |
| `EventQueueListRuns.KeepsRunning` | source/kernel/vsf_evtq_list.c:114-126 | no step but its own end of dispatch takes the running task off a queue |
| `EventQueueListRuns.FreesRun` | source/kernel/vsf_evtq_list.c:134-141 | the free loop of an exit is a run of one free step for each event |
| `EventQueueListRuns.DispatchIsRun` | source/kernel/vsf_evtq_list.c:322-401 | a pass of the inner loop is a run of the machine with exactly one completed dispatch of the queue |
| `EventQueueListRuns.PollIsRun` | source/kernel/vsf_evtq_list.c:312-404 | a whole poll is a run of the machine with as many completed dispatches as passes |
| `EventQueueListRuns.ActionTaken` | source/kernel/vsf_evtq_list.c:334-350 | whatever a handler or another context does during a dispatch is done, if it can be, whenever its turn comes |
| `EventQueueListOutcome.MarkedExactly` | source/kernel/vsf_evtq_list.c:114-126 | over every run from boot, a task is marked to exit if and only if its exit was called while it was running and it has not started anew since |
| `EventQueueListOutcome.ExitHonoured` | source/kernel/vsf_evtq_list.c:321-386 | over every run from boot, a dispatch leaves its task in no list and without events if its exit was called while it was running, before or during this dispatch; and otherwise, in every case, the task keeps the events that are left when the handler returns and is ready exactly when there are any |
| `EventQueueListOutcome.HandledStart` | source/kernel/vsf_evtq_list.c:321-348 | when the handler starts, the head of the list is the running task, its oldest event is off its list and the node of that event is free again; a dispatch is what happens from there on |
| `EventQueueListOutcome.ExitedNodes` | source/kernel/vsf_evtq_list.c:114-144 | an exit leaves nothing more in flight, and the events of a task that is not running are all freed |
| `EventQueueListOutcome.DispatchNodes` | source/kernel/vsf_evtq_list.c:321-386 | if nobody else touches a node meanwhile, a dispatch leaves as many nodes in flight as before; the pool has grown by just the node of the oldest event and, if the task has exited, of those it still had |
| `EventQueueListOutcome.PollFlight` | source/kernel/vsf_evtq_list.c:312-404 | over a whole poll in which handlers do nothing, no node stays in flight that was not before |
| `EventQueueListOutcome.PollFrees` | source/kernel/vsf_evtq_list.c:348 | and if no task is to exit, the pool grows by exactly one node for each dispatch |
| `ExitWindow.ExitWindowExact` | source/kernel/vsf_evtq_list.c:132-141 | with one step of another context between leaving the ready list and the unprotected free loop: the invariant holds at the end if and only if the step is not a post to the task, and the events of the exit are freed if and only if it does not start the task anew, or there were none |
| `ExitWindow.ExitWindowRun` | source/kernel/vsf_evtq_list.c:132-141 | over any steps in that window without such a post, the loop frees just the events that were there at the exit |
| `EventListClean.EventList.Append` | source/kernel/vsf_evtq_list.c:177-199 | a post takes a node from the pool and links it behind the tail, and does nothing exactly when the pool is empty |
| `EventListClean.EventList.Arrive` | source/kernel/vsf_evtq_list.c:177-199 | of the posts that come in, those that still get a node are appended, in order |
| `EventListClean.EventList.Unlink` | source/kernel/vsf_evtq_list.c:290-303 | the splice takes exactly that node out, keeps head, tail and links consistent and frees it |
| `EventListClean.EventList.Clean` | source/kernel/vsf_evtq_list.c:257-310 | with posts arriving in any pass: the matching events of the snapshot are removed and freed, all others are kept in order, followed by exactly the events accepted meanwhile in order of arrival, and no node is lost or freed twice |
| `EventListClean.KeepExact` | source/kernel/vsf_evtq_list.c:290-306 | the matching events are all of them for event 0, and otherwise those with just that event |
| `EventListClean.KeepOrder` | source/kernel/vsf_evtq_list.c:290-306 | the events that stay keep their order |
| `EventListClean.SpliceLinked` | source/kernel/vsf_evtq_list.c:290-300 | after the pointer updates of an unlink the memory represents the list without that item |
| `EventListClean.AppendLinked` | source/kernel/vsf_evtq_list.c:199 | after the pointer updates of an enqueue the memory represents the list with the item appended |
| `EventQueueArray.StepRefs` | source/kernel/vsf_evtq_array.c:104-264 | how each step changes the number of references to a task: an accepted post adds one, the end of a dispatch takes one |
| `EventQueueArray.StepInv` | source/kernel/vsf_evtq_array.c:52-268 | every step keeps evt_cnt equal, in its eight bits, to live slots plus the event being dispatched plus slots cleaned so far |
| `EventQueueArray.RunInv` | source/kernel/vsf_evtq_array.c:52-268 | the count law holds in every state of every run |
| `EventQueueArray.CountExact` | source/kernel/vsf_eda.h:1879 | without cleaning and with at most 2^7 slots the count fits its eight bits, and is zero exactly when nothing refers to the task |
| `EventQueueArray.TerminatesUnreferenced` | source/kernel/vsf_evtq_array.c:52-71 | when on_terminate runs, nothing refers to the task if and only if its references are fewer than 256; so always without cleaning and with at most 2^7 slots |
| `EventQueueArray.ExitRuns` | source/kernel/vsf_evtq_array.c:52-264 | over every run with one exit, no later post and fewer than 256 references, with or without cleaning, and whatever comes between the test and the mark of the exit or between the count-down and the test of poll: once marked, on_terminate has run, once, exactly when nothing refers to the task and poll is done with it, provided the mark came in time |
| `EventQueueArray.TerminatesExactly` | source/kernel/vsf_evtq_array.c:66-71 | over such a run, once the exit is complete and nothing is queued or running for the task, on_terminate has run if and only if none of its slots was ever cleaned and the mark did not come after poll was done with the task |
| `EventQueueArray.TerminatesOnce` | source/kernel/vsf_evtq_array.c:52-264 | with one exit marked in time, no cleaning, no later post and at most 2^7 slots: on_terminate runs at most once, never while something refers to the task, and has run as soon as nothing does and poll is done with it |
| `EventQueueArray.LateMarkLosesExit` | source/kernel/vsf_evtq_array.c:66-71 | a run from an empty ring, without cleaning, in which poll is done with the task between the test and the mark: the exit is lost and the task never terminates |
| `EventQueueArray.CleanedNeverTerminates` | source/kernel/vsf_evtq_array.c:203-205 | over every run with fewer than 256 references, on_terminate does not run any more once a slot of the task has been cleaned |
| `EventQueueArray.CleanedBlocksExit` | source/kernel/vsf_evtq_array.c:203-205 | a run from an empty ring in which a task cleans one event, exits and never terminates |
| `EventQueueArray.EightBitRingWraps` | source/kernel/vsf_evtq_array.c:131 | a run with bitsize 8 in which the count wraps to zero and a task terminates with 255 events queued and one running |
| `EventQueueArrayCode.Ring.constructor` | source/kernel/vsf_evtq_array.c:73-85 | an empty ring is the empty queue of capacity 2^bitsize - 1 |
| `EventQueueArrayCode.Ring.PostEvent` | source/kernel/vsf_evtq_array.c:90-137 | the ring refines the bounded queue: the errors of a post exactly, and the slot poll is still to read is not overwritten |
| `EventQueueArrayCode.Ring.FetchSlot` | source/kernel/vsf_evtq_array.c:219-220 | advancing head takes the oldest slot out of the queue before it is read |
| `EventQueueArrayCode.Ring.ReadSlot` | source/kernel/vsf_evtq_array.c:221-245 | the slot read is the one left, a cleaned slot is skipped, and a task that is to exit gets no event |
| `EventQueueArrayCode.Ring.ReleaseTask` | source/kernel/vsf_evtq_array.c:250-260 | the protected region after the handler is the count-down |
| `EventQueueArrayCode.Ring.SettleTask` | source/kernel/vsf_evtq_array.c:262-264 | outside protection, a task that is to exit terminates when its count is zero |
| `EventQueueArrayCode.Ring.TestExit` | source/kernel/vsf_evtq_array.c:52-68 | the test of an exit: terminate at zero, otherwise the mark is to follow |
| `EventQueueArrayCode.Ring.MarkExit` | source/kernel/vsf_evtq_array.c:69 | the mark of an exit |
| `EventQueueArrayCode.Ring.OnEdaFini` | source/kernel/vsf_evtq_array.c:66-71 | the routine is the test, whatever others do, and then the mark exactly if the count was not zero |
| `EventQueueArrayCode.Ring.PollPass` | source/kernel/vsf_evtq_array.c:218-264 | one pass is leaving the slot, reading it, counting the task down and looking at it again, with everything that happens in between, exactly |
| `EventQueueArrayCode.Ring.Poll` | source/kernel/vsf_evtq_array.c:210-268 | whatever the handlers and others do in each pass (posts, cleaning, exits), the loop is one pass after the other until the ring is empty, and the count law holds |
| `EventQueueArrayRuns.PollIsRun` | source/kernel/vsf_evtq_array.c:210-268 | the loop with everything that happens meanwhile is a run of the queue |
| `EventQueueArrayRuns.ActionTaken` | source/kernel/vsf_evtq_array.c:218-264 | whatever a handler or another context does during a pass is done, if it can be, whenever its turn comes |
| `EventQueueArrayRuns.DoAllGains` | source/kernel/vsf_evtq_array.c:104-133 | whatever happens, what is queued keeps its order but for blanked slots, and exactly the accepted posts are appended |
| `EventQueueArrayRuns.PollOrder` | source/kernel/vsf_evtq_array.c:218-264 | what was queued followed by what was accepted meanwhile is what the loop took followed by what is still queued: first in, first out; cleaning only blanks |
| `EventQueueArrayCode.Ring.CleanEvents` | source/kernel/vsf_evtq_array.c:174-208 | exactly the slots of the running task with the event asked for (any for event 0), among those queued at the call, are blanked, and behind them are exactly the posts accepted meanwhile, in order; the count law still holds |
| `EventQueueArrayRuns.CleanedDoAll` | source/kernel/vsf_evtq_array.c:185-207 | other contexts cannot tell how far the cleaning has come |
| `EventQueueArrayRuns.CleanPassed` | source/kernel/vsf_evtq_array.c:185-207 | so the loop is as if all arrivals came first and the snapshot was then cleaned at one stroke |
| `EventQueueArrayRuns.CleanedContents` | source/kernel/vsf_evtq_array.c:185-207 | what the queue then holds |
| `TaskDelivery.DeliveredInOrder` | source/kernel/vsf_evtq_list.c:190-348 | a task's accepted events are delivered in posting order, each once, up to those still pending |
| `TaskDelivery.AcceptedExactly` | source/kernel/vsf_evtq_list.c:190-210 | a post is accepted, and its event appended, exactly if it is forced, or the task is not limited, or it has no event waiting or running |
| `TaskDelivery.RefusedExactly` | source/kernel/vsf_evtq_list.c:192 | over every history, a post that is not forced is refused exactly when the limit set last is on and the task has an event |
| `TaskDelivery.LimitedToOne` | source/kernel/vsf_eda.h:1749 | what the limit is for: a task that stays limited and gets no forced posts never has more than one event, waiting or running |
| `EventQueueAgreement.ListStep` | source/kernel/vsf_evtq_list.c:190-374 | every step of the list queue treats a task that is not to exit as `TaskDelivery` says, with the same answer |
| `EventQueueAgreement.ArrayStep` | source/kernel/vsf_evtq_array.c:104-265 | every step of the array queue treats a task that is not to exit as `TaskDelivery` says, with the same answer |
| `EventQueueAgreement.ListReady` | source/kernel/vsf_evtq_list.c:192 | is_ready holds exactly when the task is running or has an event |
| `EventQueueAgreement.ArrayReady` | source/kernel/vsf_evtq_array.c:105 | evt_cnt is nonzero exactly when the task is being dispatched or has a slot |
| `EventQueueAgreement.ListRun` | source/kernel/vsf_evtq_list.c:165-404 | the history of a task over a whole run of the list queue is a history of `TaskDelivery` |
| `EventQueueAgreement.ArrayRun` | source/kernel/vsf_evtq_array.c:90-268 | the history of a task over a whole run of the array queue is a history of `TaskDelivery` |
| `EventQueueAgreement.QueuesAgree` | source/kernel/vsf_evtq_array.c:104-265 | over any two runs with the same history of a task that is not to exit, both queues accept, refuse and deliver alike, is_ready holds exactly when evt_cnt is nonzero, and the same events are pending |
| `FrameStack.ReturnRestores` | source/kernel/vsf_eda.c:484-536 | a return gives the caller back its exact link, feature bits and frames and frees one frame; at the bottom the task ends with no frame left |
| `FrameStack.NeverAutoFree` | source/kernel/vsf_eda.c:503-514 | the automatic free is never taken, because the stored handler is not NULL |
| `FrameStack.StepNested` | source/kernel/vsf_eda.c:484-682 | calls, returns, whatever the callee does to its own handler, target and bits, and other tasks taking and returning frames keep the stack of saved contexts |
| `FrameStack.CallReturnInverse` | source/kernel/vsf_eda.c:484-682 | over every run of calls and returns at any depth, each return restores the context of the matching call, whatever the callee and other tasks did in between |
| `FrameStack.LevelsKept` | source/kernel/vsf_eda.c:633-682 | over every run of calls and returns, the task, and each of its callers at the time of its call, runs with the handler, parameter, local size and feature bits of the call that started its level, or of the last step that set them |
| `FrameStack.UnwindFreesAll` | source/kernel/vsf_eda.c:911-921 | an exit at any depth gives every frame back to the pool |
| `FrameStack.TargetSetExact` | source/kernel/vsf_eda.c:567-612 | vsf_eda_target_set keeps the round trip if and only if the task already uses a frame |
| `FrameStack.TargetSetDangles` | source/kernel/vsf_eda.c:567-612 | otherwise the next return frees a frame the task still points to |
| `FrameStack.GoToExact` | source/kernel/vsf_eda.c:656-668 | go_to keeps the stack of saved contexts if and only if the task is at its bottom level or runs with the caller's feature bits |
| `FrameStack.GoToReturns` | source/kernel/vsf_eda.c:484-536 | the return after a go_to inside a sub-call is possible if and only if the caller uses a frame, and restores the caller if and only if the callee ran with its feature bits |
| `FrameStack.Task.Start` | source/kernel/vsf_eda.c:835-880 | a task starts with one frame exactly when its target, return value or feature asks for it, and fails only then and without a free frame |
| `FrameStack.Task.CallPrepare` | source/kernel/vsf_eda.c:633-682 | a sub-call fails exactly without a free frame and then changes nothing; otherwise the callee runs with the handler, parameter, local size and feature bits of the call, and the caller's link and bits are saved |
| `FrameStack.Task.SetTarget` | source/kernel/vsf_eda.c:600-612 | fails exactly when a frame is needed and none is free, and is otherwise the target step |
| `FrameStack.Task.JumpPrepare` | source/kernel/vsf_eda.c:656-682 | fails exactly when a frame is needed and none is free; otherwise the task goes on with the handler, parameter, local size and feature bits of the call, in the same frame |
| `FrameStack.Task.ReturnValue` | source/kernel/vsf_eda.c:484-536 | the routine is the return step and hands over the return value |
| `FrameStack.Task.Fini` | source/kernel/vsf_eda.c:903-925 | the loop terminates with the stack depth as measure, and frees each frame exactly once |
| `DirectDispatch.PostedIsSeen` | source/kernel/vsf_eda.c:331-338 | the handler sees exactly the event or the message that was posted |
| `DirectDispatch.MarkerExact` | source/kernel/vsf_eda.c:386 | an event encodes to the empty marker if and only if it is -1, and no even pointer is the marker |
| `DirectDispatch.NeverReentered` | source/kernel/vsf_eda.c:347-358 | in a proper log, which every post keeps, a handler is entered only while its task is inactive |
| `DirectDispatch.DeliveredExactly` | source/kernel/vsf_eda.c:353-364 | the values delivered are the values accepted, once and in order, if and only if -1 is never posted to an active task |
| `DirectDispatch.Dispatcher.PostMinusOne` | source/kernel/vsf_eda.c:353-354 | an execution in which a handler posts -1 to its own task: the post is accepted and never delivered |
| `DirectDispatch.Dispatcher.PostValue` | source/kernel/vsf_eda.c:343-371 | a post fails exactly when the task is active and limited or has a value pending; the context, the active handlers and the flags are restored |
| `DirectDispatch.Dispatcher.PostPending` | source/kernel/vsf_eda.c:347-356 | a post to an active task runs nothing: the value is put in the slot, or refused |
| `DirectDispatch.Dispatcher.DispatchAll` | source/kernel/vsf_eda.c:357-368 | the value is delivered at once and then everything posted meanwhile |
| `DirectDispatch.Dispatcher.DispatchPending` | source/kernel/vsf_eda.c:361-365 | the loop ends, with nothing pending |
| `DirectDispatch.Dispatcher.PostDo` | source/kernel/vsf_eda.c:326-341 | during the handler the current context is its task, event and message, and afterwards it is the one before; the handlers around it post nothing meanwhile |
| `DirectDispatch.Dispatcher.Handle` | source/kernel/vsf_eda.c:223-296 | whatever a handler posts, to itself or others and at any depth, the invariant holds when it is left; and the posts made by this handler are just those of its script, in order |
| `DirectDispatch.Dispatcher.PostTop` | source/kernel/vsf_eda.c:343-371 | when an outermost post returns, no task is active, and each has been given all its accepted values, once and in order, if and only if -1 was never posted to it while active |
| `TickAccounting.Cpu.SwiHandler` | source/kernel/vsf_os.c:278-326 | for every tree of nested handlers: the current queue is restored, exactly the elapsed time is added to the preempted dispatch, and every dispatch inside is charged its due |
| `TickAccounting.Cpu.DispatchEvt` | source/kernel/vsf_eda.c:223-296 | a dispatch is charged its wall time less the time of the handlers directly nested in it |
| `TickAccounting.ChargesNonNegative` | source/kernel/vsf_eda.c:280-285 | no charge is negative or more than the wall time |
| `TickAccounting.TimeSplit` | source/kernel/vsf_os.c:299-321 | charges and time outside dispatches add up to the wall time, level by level |
| `TickAccounting.ChargesWithinWall` | source/kernel/vsf_os.c:299-321 | no tick is charged twice: the charges of a dispatch and everything nested in it sum to at most its wall time |
| `TickAccounting.ChargedTasks` | source/kernel/vsf_eda.c:280-285 | each dispatch is charged once, when it ends, to its own task |
| `VfsTree.OpenedInv` | source/component/fs/vsf_fs.c:693-713 | a reference on a node and all its ancestors keeps the count law with one more handle |
| `VfsTree.AncestorsKept` | source/component/fs/vsf_fs.c:189-196 | the plain decrement of the ancestors never takes a count to zero |
| `VfsTree.ChildrenGone` | source/component/fs/vsf_fs.c:1321-1324 | a node freed by close has no children left |
| `VfsTree.CloseSettles` | source/component/fs/vsf_fs.c:439-476 | the cascade settles every count and frees exactly the unlinked nodes on the way up without a handle at or below them |
| `VfsTree.ClosedInv` | source/component/fs/vsf_fs.c:439-476 | a close keeps the count law with one handle less, and says exactly which nodes disappear |
| `VfsTree.LookedInv` | source/component/fs/vsf_fs.c:339-346 | setting the parent of a child that its directory lists keeps the count law |
| `VfsTree.EnteredInv` | source/component/fs/vsf_fs.c:417-430 | taking the reference on such a child moves the handle to it, whichever handle it is, and keeps the count law |
| `VfsTree.DescendedInv` | source/component/fs/vsf_fs.c:379-430 | a step of the walk, both together, keeps the count law |
| `VfsTree.SameWayUp` | source/component/fs/vsf_fs.c:180-196 | whoever passes through a node has the same ancestors above it |
| `VfsTree.CreatedInv` | source/component/fs/vsf_fs.c:1062-1100 | creating a file keeps the count law and the uniqueness of sibling names |
| `VfsTree.UnlinkedInv` | source/component/fs/vsf_fs.c:1130-1154 | unlinking keeps the count law, and frees the node at once exactly when no handle is at or below it |
| `VfsTree.RenamedInv` | source/component/fs/vsf_fs.c:1192-1229 | renaming keeps the count law and the uniqueness of sibling names |
| `VfsTree.RootedMove` | source/component/fs/vsf_fs.c:1224-1229 | moving a node to a directory that is not below it keeps every node reachable from the root |
| `VfsTree.MovedAvoids` | source/component/fs/vsf_fs.c:1224-1229 | and only then |
| `VfsTree.OpenAvoids` | source/component/fs/vsf_fs.c:1224-1229 | an open directory, or the root, is not below a node without handles |
| `VfsTree.CloseRooted` | source/component/fs/vsf_fs.c:439-476 | a close keeps every node that is left reachable from the root |
| `VfsTree.CloseKeepsNode` | source/component/fs/vsf_fs.c:439-476 | a close changes nothing of a node that stays but its count and its child list |
| `VfsRuns.StepGood` | source/component/fs/vsf_fs.c:158-1341 | every operation keeps the count law, and every node reachable from the root |
| `VfsRuns.RefCountLaw` | source/component/fs/vsf_fs.c:158-1341 | after any sequence of opens, closes, get-parents, creates, unlinks and renames, with the lookups and references of several opens interleaved in any way, each count is the number of handles at or below the node, plus one unless it is unlinked; every node can be reached from the root; sibling names are distinct |
| `VfsRuns.FreedExactly` | source/component/fs/vsf_fs.c:1130-1154 | a node disappears in a step if and only if it is unlinked, or being unlinked, and no handle at or below it is left |
| `VfsRuns.InTreeExactly` | source/component/fs/vsf_fs.c:1132-1138 | over every run, a node is in the tree if and only if it was created and not unlinked since, or it was unlinked and a handle at or below it is still open; it has the name it was given last and the kind it was created with |
| `VfsRuns.UnlinkExact` | source/component/fs/vsf_fs.c:1130-1138 | unlinking keeps the law if and only if the node was not unlinked before, or has other references, and its children were unlinked |
| `VfsRuns.OpenNodeFreed` | source/component/fs/vsf_fs.c:1132-1151 | a second unlink with one reference left frees a node that is open |
| `VfsRuns.ChildLost` | source/component/fs/vsf_fs.c:1139-1151 | unlinking a directory before a child leaves the child out of reach |
| `VfsRuns.CreateExact` | source/component/fs/vsf_fs.c:1062-1100 | creating a file keeps the law if and only if the directory is not unlinked |
| `VfsRuns.MoveExact` | source/component/fs/vsf_fs.c:1224-1229 | moving a node to another directory keeps the law if and only if no handle is at or below it, the directory is not unlinked, and it is not below the node |
| `VfsRuns.MovedOpen` | source/component/fs/vsf_fs.c:1224-1229 | moving an open node leaves it with a parent that does not list it |
| `VfsWalkWindow.EnterExact` | source/component/fs/vsf_fs.c:417-426 | an open takes its reference on a child and keeps the law if and only if its directory still lists the child, as its parent |
| `VfsWalkWindow.LookExact` | source/component/fs/vsf_fs.c:339-341 | setting the parent of a child found some time ago keeps the law if and only if its directory still lists it, or nobody has it or anything below it open |
| `VfsWalkWindow.WalkWindowExact` | source/component/fs/vsf_fs.c:398-426 | with one step of somebody else between the answer of a lookup and the reference, the law holds at the end if and only if the step leaves the child in the list of its directory |
| `VfsWalkWindow.WalkWindowRun` | source/component/fs/vsf_fs.c:398-426 | after any steps in between, the same under the condition of `VfsWalkWindow.EnterExact` |
| `VfsWalkWindow.UnlinkedMeanwhile` | source/component/fs/vsf_fs.c:1139-1151 | the failing case: a child that nobody has open is unlinked in between, and the open references a freed node |
| `VfsWalkWindow.MovedMeanwhile` | source/component/fs/vsf_fs.c:1224-1229 | the other: the child is moved to another directory in between |
| `VfsCloseWindow.HalvesAreClose` | source/component/fs/vsf_fs.c:449-464 | dropping the count to zero and, after the close operation, freeing the node and going on is the close |
| `VfsCloseWindow.StepCommutes` | source/component/fs/vsf_fs.c:449-464 | other operations cannot tell that the count is already zero |
| `VfsCloseWindow.CloseWindowExact` | source/component/fs/vsf_fs.c:449-464 | with one operation of somebody else between the two halves of a close, the law holds at the end if and only if it is not an open that walks onto the dying node; the outcome is then that operation followed by the close |
| `VfsCloseWindow.WalkBreaks` | source/component/fs/vsf_fs.c:426 | the failing case: an open that walks onto the node leaves its handle on a freed node |
| `VfsCloseWindow.CascadeLevel` | source/component/fs/vsf_fs.c:462-469 | the cascade is the close of a handle on the parent, so that the same holds of the window at every level |
| `VfsPath.MatchIsHead` | source/component/fs/vsf_fs.c:263-277 | a name matches a path exactly when it is its first component |
| `VfsPath.LookupIsChild` | source/component/fs/vsf_fs.c:907-931 | the lookup finds exactly the child named by the first component |
| `VfsPath.ParseJoin` | source/component/fs/vsf_fs.c:379-430 | a path built from names and separators of either kind, with or without one at its beginning and end, asks for just these names, and for a directory exactly if it ends in a separator |
| `VfsPath.ResolveMeans` | source/component/fs/vsf_fs.c:379-430 | the node found is at the end of a chain of children with the names asked for, one after the other; an error says how far that chain goes and why it ends there: no such child, or not a directory |
| `VfsPath.TraceResolves` | source/component/fs/vsf_fs.c:379-430 | for every path, the walk over characters is the abstract walk over separator-split components |
| `VfsPath.OpenResolves` | source/component/fs/vsf_fs.c:353-437 | opening a path gives the node, or the error, of the abstract walk, and adds just that handle |
| `VfsPath.FailedOpenChangesNothing` | source/component/fs/vsf_fs.c:400-425 | an open that fails at whatever component leaves every count, node and handle as it was |
| `VfsCode.Vfs.constructor` | source/component/fs/vsf_fs.c:292-313 | the root alone, with a reference that is never given back |
| `VfsCode.Vfs.AddToParents` | source/component/fs/vsf_fs.c:180-196 | the loop over parent pointers changes the count of every proper ancestor once and nothing else |
| `VfsCode.Vfs.LookupChild` | source/component/fs/vsf_fs.c:907-931 | the loop finds the first child that matches |
| `VfsCode.Vfs.CloseFile` | source/component/fs/vsf_fs.c:439-476 | the loop is the abstract close, and terminates at the root at the latest |
| `VfsCode.Vfs.ParentOf` | source/component/fs/vsf_fs.c:279-290 | the parent is referenced along its whole chain, and the root has none |
| `VfsCode.Vfs.OpenFile` | source/component/fs/vsf_fs.c:693-721 | the result is that of the abstract walk, for every path; names, marks and child lists never change, and a failure changes no count |
| `VfsCode.Vfs.FollowPath` | source/component/fs/vsf_fs.c:379-433 | the event-driven loop is the walk, with the remaining path as termination measure |
| `VfsCode.Vfs.CreateFile` | source/component/fs/vsf_fs.c:1042-1111 | succeeds exactly when no sibling has the name, and changes nothing otherwise; the new node is a child of the directory with the name and the kind asked for; the law is kept exactly when the directory is not unlinked |
| `VfsCode.Vfs.UnlinkFile` | source/component/fs/vsf_fs.c:1113-1164 | fails exactly when there is no such child; otherwise the child is marked, or gone at once if nothing but its creation held it; the law is kept exactly under the condition of `VfsRuns.UnlinkExact` |
| `VfsCode.Vfs.RenameFile` | source/component/fs/vsf_fs.c:1166-1248 | which of the two errors comes first, exactly, and otherwise the abstract rename of that child; the law is kept exactly under the condition of `VfsRuns.MoveExact` |
| `VfsFile.SeekExact` | source/component/fs/vsf_fs.c:787-821 | for every int64 offset, seek accepts exactly the targets inside the file if and only if the target does not wrap around to one; with the cursor inside the file, if and only if it is below 2^64 |
| `VfsFile.NoWrapUpTo` | source/component/fs/vsf_fs.c:787-821 | 2^63 is the largest size at which no offset wraps around |
| `VfsFile.MemFile.Read` | source/component/fs/vsf_fs.c:478-507 | returns the bytes from the cursor on, as many as there are, and moves the cursor behind them; a cursor outside the file reads nothing |
| `VfsFile.MemFile.Realloc` | source/service/heap/vsf_heap.c:946-994 | gives a block that keeps the old bytes, and none exactly when the size is 0 or the heap is full |
| `VfsFile.MemFile.Write` | source/component/fs/vsf_fs.c:1382-1433 | overwrites from the cursor on, growing the file, and changes no other byte; fails exactly when it must grow and the heap is full, and the contents are then lost |
| `VfsFile.MemFile.SetSize` | source/component/fs/vsf_fs.c:581-618 | the file keeps its bytes up to the new size and is zero-filled beyond, and a cursor beyond the end is put at the end; fails exactly for size 0 and a full heap, the contents are then gone and the cursor stays |
| `VfsFile.SetSizeExact` | source/component/fs/vsf_fs.c:1291-1296 | with room in the heap, a size change leaves the cursor inside the file if and only if the size is not 0 or the cursor was at the start |
| `VfsFile.TruncateExposes` | source/component/fs/vsf_fs.c:1291-1296 | the failing case: a file cut to size 0 under a cursor past its start; the call reports an error, the cursor is outside, and the next write brings uninitialised bytes into the file |
| `VfsFile.MemFile.Seek` | source/component/fs/vsf_fs.c:787-821 | from the start, the end and the cursor: accepted exactly when the target is inside the file, unless it wraps around, and the cursor is then there; otherwise nothing changes |
| `VfsFile.WriteSeekRead` | source/component/fs/vsf_fs.c:478-538 | write, seek back and read returns the bytes written, with all other bytes unchanged |
| `VfsFile.GrowThenShrink` | source/component/fs/vsf_fs.c:1298-1301 | growth is zero-filled, and shrinking back restores the file, with success if and only if it is not empty |
| `VfsFile.ReadsConcatenate` | source/component/fs/vsf_fs.c:478-507 | any run of reads returns, put together, what one read of the total length returns |
| `VfsFile.WritesConcatenate` | source/component/fs/vsf_fs.c:509-538 | any run of writes is one write of the concatenation |
| `VfsFile.StepExact` | source/component/fs/vsf_fs.c:478-618 | an operation leaves the cursor inside the file if and only if it does not throw the contents away under a cursor past the start |
| `VfsFile.CursorInside` | source/component/fs/vsf_fs.c:478-618 | over every run of reads, writes, seeks and size changes the cursor is always inside the file if and only if it starts there and no operation does that |
| `InputBits.GetValue` | source/component/input/vsf_input.c:103-120 | the loop over bytes returns the field, defined bit by bit |
| `InputBits.SetValue` | source/component/input/vsf_input.c:122-138 | the field gets the low bits of the value and every other bit is unchanged |
| `InputBits.SetBits` | source/component/input/vsf_input.c:69-84 | the same as writing all ones |
| `InputBits.ClearBits` | source/component/input/vsf_input.c:86-101 | the same as writing zero |
| `InputBits.StoreThenRead` | source/component/input/vsf_input.c:103-138 | writing and reading back gives the value modulo 2^len |
| `InputBits.StoreElsewhere` | source/component/input/vsf_input.c:103-138 | fields that do not overlap read as before |
| `InputBits.Parser.Parse` | source/component/input/vsf_input.c:140-157 | returns the last changed item below the counter with both its values, or none if there is none |
| `InputBits.Parser.ParseAll` | source/component/input/vsf_input.c:140-157 | calls until NULL return exactly the changed items, each once, from last to first |
| `InputBits.ChangedDownExact` | source/component/input/vsf_input.c:145-155 | that list is strictly descending and contains exactly the changed items |
| `FirmwareWrite.AlignedIsRem` | example/mscboot/fakefat32.c:158 | for powers of two, the mask test asks whether the address is a multiple of the alignment |
| `FirmwareWrite.AtStep` | example/mscboot/fakefat32.c:145-177 | every event erases the next block or writes one, and keeps offset, length, flag, erase log and flash in step |
| `FirmwareWrite.WritesFirmware` | example/mscboot/fakefat32.c:127-181 | over every complete run with an even write block: the length returned is the one requested, the flash range is the buffer (a byte programmed without an erase, or erased after programming, would not be), and nothing outside the range and its last erase block changed |
| `FirmwareWrite.BoundariesExact` | example/mscboot/fakefat32.c:156-163 | the erase log is every aligned block of the range, each once, in ascending order |
| `FirmwareWrite.LengthExact` | example/mscboot/fakefat32.c:152-159 | the length returned is the one requested if and only if the write block is even or there is only one |
| `FirmwareWrite.OddRun` | example/mscboot/fakefat32.c:152-159 | once a block of odd length is written, the flag reads as set for the rest of the request |
| `FirmwareWrite.OddWritesExact` | example/mscboot/fakefat32.c:152-177 | with an odd write block the flash range is the buffer if and only if all of it was erased before, but for what one erase at an aligned start covers |
| `FirmwareWrite.FirmwareWriter.OnUser` | example/mscboot/fakefat32.c:145-177 | one event of the callback is one step of the machine, and the result is returned when no bytes are left |
| `FirmwareWrite.FirmwareWriter.Write` | example/mscboot/fakefat32.c:127-181 | the whole call terminates, for even and odd write blocks; the length it returns, and the flash it leaves, are as `FirmwareWrite.LengthExact`, `FirmwareWrite.WritesFirmware` and `FirmwareWrite.OddWritesExact` state |

## Left out

- Protection: protected regions are atomic steps, and so is a single unprotected test with what follows from it. Between steps any other step may come, with these exceptions that the code does not exclude: a step that takes away the successor cached by poll (source/kernel/vsf_evtq_list.c:383-397), and a post to a task, or a new start of it, while its events are being freed after its exit (132-141). `RoundRobin.SuccessorStays` and `ExitWindow.ExitWindowExact` say that these and no others break what is proved there. The window between the test and the mark of an exit in source/kernel/vsf_evtq_array.c:66-71 is part of the model.
- File operations are atomic between two events of the calling task. Two of them take several events: an open looks a child up and references it later, and a close frees a node later than it drops its count to zero. What others do in between is part of the model but for a step that takes the child out of its directory, and an open that walks onto the dying node; `VfsWalkWindow.WalkWindowExact` and `VfsCloseWindow.CloseWindowExact` say that these and nothing else break the count law there.
- Hardware: software interrupt triggering and their priority registers, interrupt masking, sleep, wake-up and the tick source.
- Semaphores, mutexes, bitmap events, OS-aware queues and timers, including the due time set at the end of a dispatch; their limit on a task is a step that any context may take.
- List, pool and heap macros are not modelled; they are used with the contracts of sequences and free sets. The links of the event list are modelled in `EventListClean.dfy`.
- on_terminate of the list queue, which is called where the model has freed the events of the task.
- Mounted file systems, file streams, directory enumeration by opening NULL, and allocation failures in the tree operations.
- Paths are walked on trees whose names are non-empty and contain no separator; creating other names is not prevented by the code.
- Fast sub-calls, and tracing, logging and assertion behaviour.
- The firmware read callback (a copy loop without flag and erase), the DFU example (a few states with the data step still missing), the symbol tables of source/vsf.c (table scans), the initialisation stubs and the scripts (wiring and report tools).
- EventQueueListCode.Scheduler.Dispatch: that the handler of a task already marked to exit is not called (source/kernel/vsf_evtq_list.c:349) is left out; what happens during a dispatch is arbitrary, and may be nothing.
- VfsFile.MemFile.Read: requests of 2^31 bytes and more are left out, because the code returns their length as a negative int.
- VfsFile.MemFile.Write: requests of 2^31 bytes and more are left out, for the same reason, and so is growth to 2^32 bytes and more, because the heap counts in uint_fast32_t and would give a shorter block than the file.
- VfsFile.MemFile.SetSize: sizes of 2^32 and more are left out, for the same reason.
- InputBits.GetValue: fields of more than 32 bits and offsets beyond the range of uint_fast8_t are left out; the code shifts by the width of its type or more, or wraps the offset.
- InputBits.SetValue: fields of more than 32 bits are left out, as for reading.
- InputBits.SetBits: fields of more than 32 bits are left out, as for reading.
- InputBits.ClearBits: fields of more than 32 bits are left out, as for reading.
- VfsFile.MemFile.Realloc: sizes of 2^32 and more are left out, which the heap would truncate.
- InputBits.Parser.Parse: a call after the one that returned NULL is left out; the counter has then wrapped around.
- FirmwareWrite.FirmwareWriter.Write: the erase block is the erase alignment, a power of two, and a request is a multiple of the write block; erase block 0, other erase block sizes and 32-bit overflow of addresses are not modelled.
- EventQueueListCode.Scheduler.Poll: between the end of one dispatch and the beginning of the next nothing else happens; what may happen there is said by `RoundRobin.WindowSafe` and `ExitWindow.ExitWindowRun`.
- EventQueueArrayCode.Ring.CleanEvents: other contexts do not clean, since only the running task may.
- TickAccounting.Cpu.SwiHandler: interrupts other than the queue handlers, and tick counter overflow, are not modelled.
- DirectDispatch.Dispatcher.PostValue: handlers post and change limits; a handler that ends a task is not modelled.
