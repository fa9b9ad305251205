# gobrrr, modelled and proved

gobrrr is a daemon that queues tasks for worker processes and brokers what happens
around them: approvals, schedules, permission prompts, result streams, a memory of
past facts. This project models the parts of it whose promises must hold whatever
fails and whatever runs at the same time, and proves those promises.

Each component is modelled in the form its source has. What the source changes in
place is a class whose methods are proved against specification functions; what
several goroutines do to shared state is a state machine whose steps are the
critical sections, and the results hold over every run of it. `dafny verify
dfyconfig.toml` checks everything.

- **Queue** (`AtomicFs`, `QueueModel`, `DurableQueue`, `QueueRuns`, `QueueOrder`,
  `QueueRestart`).
  Memory, file and recovered list under faults and crashes at every step of the
  atomic write, and what a power loss can bring back, against a log of all flushes.
  Rolling back a start restores memory exactly because no queued task carries a
  start time; the lemma says if and only if. A restart ends no task, and what was left
  to do is handed out again.
- **Worker pool and warm workers** (`PoolProtocol`, `WorkerPool`, `RateLimit`,
  `WarmProto`, `WarmWorker`, `WarmExclusivity`, `WarmSharing`, `WarmSteps`). Cap, spawn
  pace, one holder per task, the malformed-line budget, pairing of prompts and answers
  for as long as no kill strikes a dispatch that holds its slot.
- **Approvals** (`Hub`, `Approvals`, `ApprovalProtocol`, `ApprovalGuarantees`).
  Completeness of a connected stream and one decision per approval over all
  schedules; uninterrupted runs of the steps are shown to be what the methods do.
- **Scheduler** (`Scheduler`, `SchedulerRuns`). Firings against cron occurrences: none
  without one, and none that is waiting passed over.
- **Splitters and streams** (`RuneRange`, `Utf8`, `SplitMessage`, `Chunker`,
  `Relay`). Optimal splitting by UTF-16 length (section 2.1 of RFC 2781), packing of
  paragraphs and when its cuts keep characters whole, and an event-stream reader
  that does not depend on how its input is cut.
- **Memory** (`SliceSort`, `Lowering`, `MemoryStore`, `Match`). When a search through
  summaries truncated at a byte equals a scan of the contents; ranking returns a
  correct top-k.
- **Permission prompts and install recipes** (`PermissionProtocol`, `Permissions`,
  `Recipes`). One verdict per prompt under three racing resolvers, each with a reason; a
  greedy cover.

The methods of the queue, the pool, the warm slots, the approvals, the scheduler and
the prompts are tied to their state machines: by shared specification functions, or
by lemmas that the machine's steps, taken without interruption, do what the method
does (`...IsItsSteps`).

Where the code does not keep a promise one might read into it, the model follows the
code and a lemma gives the input; the other lemmas named say exactly when it is kept:

- The atomic write never syncs the file's data, so a power loss can tear even an
  acknowledged file (`QueueRuns.TornIff`, `QueueRuns.AcknowledgedSurvives`).
- A load that fails makes the daemon start with an empty queue, and its first
  submission replaces the file (`QueueRuns.FailedLoadForgets`, `QueueRuns.RestartRecovers`).
- `MarkDelivered` and `Prune` are not undone when their flush fails
  (`DurableQueue.Queue.MarkDelivered`, `DurableQueue.Queue.Prune`).
- A save that fails after its rename leaves an approval nobody is told about
  (`ApprovalGuarantees.SilentApproval`), and a removal can be announced before its
  creation (`ApprovalGuarantees.RemovedBeforeCreated`, `ApprovalGuarantees.CreatedFirstIff`).
- A kill clears the busy flag of a slot that a dispatch still holds
  (`WarmSharing.SharedAfterKill`, `WarmExclusivity.ExclusiveUntilStruck`).
- A new schedule stays in memory when its flush fails (`Scheduler.Scheduler.Create`).
- `splitMessage` meets its limit exactly when every single character does
  (`SplitMessage.SplitIsOptimal`, `SplitMessage.LimitOfOneCanBeBroken`), and the
  chunker can cut inside a character (`Chunker.ACutCanSplitARune`,
  `Chunker.LengthKeepsRunesIff`, `Chunker.PackingKeepsRunesIff`).
- A summary cut inside a character matches U+FFFD (`MemoryStore.FoundByItsSummary`,
  `MemoryStore.BadQueryFindsCuts`, `MemoryStore.Store.Search`).
- A tap can come before its prompt is stored, and two prompts under one code lose one
  (`PermissionProtocol.EarlyTapIsLost`, `PermissionProtocol.SameCodeLosesOne`,
  `PermissionProtocol.AnswerTakesIff`, `PermissionProtocol.NoneLostIff`).
- Two recipes under one id leave a gap (`Recipes.SharedIdLeavesAGap`,
  `Recipes.ClashLeavesAGap`, `Recipes.CompatibleIff`).

Clocks, drawn ids, injected faults, handler answers and a child's output lines are
parameters. JSON is an encoding that decodes back to what was encoded, on one line.
Ids are not reused; codes may be, where a lemma says so.

## Model

| member | source | states |
|---|---|---|
| AtomicFs.FileSystem.WriteFile | daemon/internal/atomicfs/write.go:32-41 | the target changes with the rename alone, from its old state to the whole new data; the directory states a power loss could restore shrink to one only when the directory sync ran, and the file data is never synced |
| AtomicFs.AfterWrite | daemon/internal/atomicfs/write.go:32-41 | after any fault the target holds what it held before or the whole new data, and so does every directory state that could come back; whether the data of such a state survives a power loss is for `AfterPowerLoss` to say |
| QueueModel.NextIndex | daemon/internal/daemon/queue.go:129-163 | the chosen place is eligible and precedes every other eligible task in (priority, creation time, list order); none is chosen only if none is eligible |
| QueueModel.NextUnique | daemon/internal/daemon/queue.go:129-206 | that place is the only one with the property |
| QueueModel.StartSays | daemon/internal/daemon/queue.go:129-206 | what a start comes to without naming the order: status, priority, creation time and place compared one by one, and the list it flushes |
| QueueModel.CompleteSays | daemon/internal/daemon/queue.go:210-231 | a completion whose flush succeeds, as a value: one task completed with its result, the rest of the list and the file as that says |
| QueueModel.FailSays | daemon/internal/daemon/queue.go:234-254 | the same for a failure |
| QueueModel.CancelSays | daemon/internal/daemon/queue.go:257-274 | the same for a cancellation |
| QueueModel.MarkDeliveredSays | daemon/internal/daemon/queue.go:277-287 | the same for a delivery mark |
| QueueModel.KeptPlaces | daemon/internal/daemon/queue.go:333-358 | what pruning keeps stands in list order, and the places left out are exactly those of the old finished tasks |
| QueueModel.RollbackOfStart | daemon/internal/daemon/queue.go:150-161 | undoing a start after a failed flush restores memory if and only if nothing was chosen or the chosen task had no start time |
| QueueModel.RollbackExact | daemon/internal/daemon/queue.go:93-274 | with no queued task carrying a start time, every operation that rolls back restores memory exactly |
| QueueModel.KeptIsSub | daemon/internal/daemon/queue.go:333-358 | pruning keeps exactly the tasks that are not final, or not old enough, and keeps the list itself when it keeps as many |
| QueueModel.PerformPlanned | daemon/internal/daemon/queue.go:93-358 | every operation either leaves memory and file alone or flushes one planned list, leaving that list, the rolled-back one or no process behind |
| QueueModel.PlannedGood | daemon/internal/daemon/queue.go:93-358 | every list an operation flushes has distinct ids and no queued task with a start time, if the list before it had |
| QueueModel.PlannedKeepsOver | daemon/internal/daemon/queue.go:93-358 | no operation puts a finished task, or one that is no longer queued, back in line |
| QueueModel.PlannedKeepsTask | daemon/internal/daemon/queue.go:93-288 | no operation but pruning drops a task |
| QueueModel.RecoverKeeps | daemon/internal/daemon/queue.go:72-85 | recovery keeps ids, finished tasks and the list invariant, leaves nothing running and changes nothing where nothing ran |
| DurableQueue.Queue.Flush | daemon/internal/daemon/queue.go:402-417 | writes exactly the current list, in order, through the atomic write; acknowledged if and only if no step failed, and then that list is the file |
| DurableQueue.Queue.FindCell | daemon/internal/daemon/queue.go:391-399 | finds the first task with the id, or none |
| DurableQueue.Queue.Submit | daemon/internal/daemon/queue.go:93-125 | an acknowledged submission is the old list with the new task at its end, queued, field by field as asked for, in memory and in the file; a failed flush takes it off again |
| DurableQueue.Queue.Best | daemon/internal/daemon/queue.go:133-147 | the scanning loop finds the one task that precedes all other eligible ones |
| DurableQueue.Queue.Take | daemon/internal/daemon/queue.go:129-206 | marks that task running, flushes, writes queued and no start time back when the flush fails, and hands out the queue's own task object |
| DurableQueue.Queue.Next | daemon/internal/daemon/queue.go:129-163 | hands out the queued task with the least priority number, among those the oldest, among those the first; it alone changes, to running since now, in memory and in the file; nothing comes back exactly when nothing is queued or the flush failed |
| DurableQueue.Queue.NextWarm | daemon/internal/daemon/queue.go:169-206 | the same among the queued tasks that are warm and allow no writes |
| DurableQueue.Queue.Complete | daemon/internal/daemon/queue.go:210-231 | an acknowledged completion makes the first task with the id completed with that result at that time and changes nothing else, in memory and in the file; not found exactly when no task has the id; a failed flush leaves the list as it was |
| DurableQueue.Queue.Fail | daemon/internal/daemon/queue.go:234-254 | the same with status failed and the error text |
| DurableQueue.Queue.Cancel | daemon/internal/daemon/queue.go:257-274 | the same, the status alone becoming cancelled |
| DurableQueue.Queue.MarkDelivered | daemon/internal/daemon/queue.go:277-287 | the first task with the id is marked delivered, nothing else changes, and the mark stays in memory when the flush fails |
| DurableQueue.Queue.Survivors | daemon/internal/daemon/queue.go:337-352 | the pruning loop keeps exactly the tasks that are not final, or not old enough, in order, and counts the others |
| DurableQueue.Queue.Prune | daemon/internal/daemon/queue.go:333-358 | with a cut-off so many calendar days before now: keeps exactly the tasks still wanted, in order, and reports how many went; a task goes exactly if it is completed, failed or cancelled and its end lies before the cut-off, or there is no retention period; the shorter list stays in memory when the flush fails |
| DurableQueue.LoadQueue | daemon/internal/daemon/queue.go:56-90 | a missing file gives an empty queue, otherwise the stored list, each running task queued again without a start time and every other task as it was, and that list in the file; no queue when reading, decoding or that flush fails |
| QueueRuns.FileIsLatest | daemon/internal/atomicfs/write.go:32-41 | over every run of operations, faults, process deaths and restarts the file is exactly the last entry of the log of flushes that got past their rename (or what was found, if none did); power losses are the next rows' subject |
| QueueRuns.NeverBehindSync | daemon/internal/atomicfs/write.go:32-41 | over every run, power losses included, the file and every state that could come back is torn, or is entire what one flush in the log wrote, none older than the last one whose directory sync ran |
| QueueRuns.NeverBehindAcknowledged | daemon/internal/atomicfs/write.go:32-41 | hence no power loss goes behind an acknowledged change: whatever is whole is that change's list or one flushed after it |
| QueueRuns.TornIff | daemon/internal/atomicfs/write.go:32-41 | the file is never seen torn in a run if and only if no power loss brings back a file whose data had not been written back; the write does not sync it, so this can happen to an acknowledged file |
| QueueRuns.AcknowledgedIsDurable | daemon/internal/daemon/queue.go:402-417 | after an acknowledged change other than a prune, the planned list is in memory and in the file, and is the only directory state that could come back |
| QueueRuns.AcknowledgedSurvives | daemon/internal/daemon/queue.go:56-90 | after an acknowledged change and any crashes and power losses, a clean restart has exactly that list, in order, each running task queued again and every other as it was, if its data had been written back at every power loss, and no task at all otherwise |
| QueueRuns.FailedOpRestoresMemory | daemon/internal/daemon/queue.go:93-274 | in every reachable state a failed submit, start, completion, failure or cancellation leaves memory exactly as it was |
| QueueRuns.RestartRecovers | daemon/internal/daemon/daemon.go:55-66 | a restart yields the stored list, in order, each running task queued again and every other as it was, if and only if the file is readable and a recovery flush, where one is needed, succeeds |
| QueueRuns.EndedStaysEnded | daemon/internal/daemon/queue.go:210-274 | after an acknowledged end, no later state of any run, in memory or restorable from disk, has the task queued or running |
| QueueRuns.NothingLost | daemon/internal/daemon/queue.go:93-125 | an acknowledged submission is in memory and in every restorable file for the rest of any run without prunes, failed loads and power losses that tear the file |
| QueueRuns.FailedLoadForgets | daemon/internal/daemon/daemon.go:60-66 | a failed load does lose tasks: the first acknowledged submission after it replaces the whole file |
| QueueRuns.HandedOncePerStart | daemon/internal/daemon/queue.go:129-206 | over every run a task is handed out at most once per start, so at most as often as the daemon was started |
| QueueRuns.RunKeepsInv | daemon/internal/daemon/queue.go:56-417 | the invariant behind the results above holds in every reachable state |
| QueueRestart.RestartEndsNothing | daemon/internal/daemon/queue.go:72-85 | in every reachable state a restart that reads the file ends no task: ended ones are those that were, and whatever was queued or running is queued, otherwise as it was |
| QueueRestart.AllQueuedAreHanded | daemon/internal/daemon/queue.go:129-163 | from any state, as many calls of `Next` as there are tasks hand out every queued one |
| QueueRestart.RestartHandsOut | daemon/internal/daemon/queue.go:56-163 | so every task that was queued or running before a restart is handed out again by enough calls |
| QueueRestart.ResultSurvives | daemon/internal/daemon/queue.go:56-231 | an acknowledged completion outlives any crashes that had its data written back: after a clean restart the task is completed with its result and otherwise as before |
| QueueOrder.DrainIsStableSort | daemon/internal/daemon/queue.go:129-163 | repeated `Next` calls list the queued tasks in exactly the order of a stable sort by priority and creation time, all of them given enough calls |
| QueueOrder.StableOrderIsUnique | daemon/internal/daemon/queue.go:129-163 | that order is a function of the list: two listings of the same length with the property are equal |
| QueueOrder.WarmTakesFirstEligible | daemon/internal/daemon/queue.go:169-206 | `NextWarm` takes the first task of that order that a warm worker may run, and none only if there is none |
| Hub.EventHub.Subscribe | daemon/internal/daemon/approvals_hub.go:40-46 | a new channel with an empty buffer, no other touched |
| Hub.EventHub.Unsubscribe | daemon/internal/daemon/approvals_hub.go:48-55 | exactly that channel goes |
| Hub.EventHub.Emit | daemon/internal/daemon/approvals_hub.go:59-68 | every buffer with room gets the event at its end; a full one drops it |
| Hub.EventHub.Receive | daemon/internal/daemon/approvals_routes.go:74-80 | takes the oldest buffered event |
| Approvals.Store.Save | daemon/internal/daemon/approvals_store.go:44-48 | the record is stored whenever the rename happened, even when an error is returned |
| Approvals.Store.Remove | daemon/internal/daemon/approvals_store.go:63-65 | found exactly when the record was there, which it then no longer is |
| Approvals.Store.List | daemon/internal/daemon/approvals_store.go:68-89 | every readable record once |
| Approvals.Dispatcher.NewUniqueId | daemon/internal/daemon/approvals_dispatcher.go:149-161 | the first of sixteen drawn ids that is not on disk; none when all are taken or cannot be looked up, or when a draw fails first |
| Approvals.Dispatcher.Create | daemon/internal/daemon/approvals_dispatcher.go:68-100 | stores the record, announces it only when the save returned without error, and answers accordingly; nothing happens when no id was found |
| Approvals.Dispatcher.Decide | daemon/internal/daemon/approvals_dispatcher.go:109-139 | the answer, the store, the handler call and the removed event of a decision, for every fault of the store and answer of the handler: that event has the error "" when the handler returned none and the very text it returned otherwise |
| Approvals.Dispatcher.DenyExpired | daemon/internal/daemon/maintenance.go:68-76 | one record of the pass: denied, run and announced exactly if it has an expiry that is not after now and could be taken |
| Approvals.Dispatcher.DenyEach | daemon/internal/daemon/maintenance.go:61-78 | the loop: exactly the overdue ones are gone, their handlers have run once each, and each removal was announced |
| Approvals.Dispatcher.PruneExpired | daemon/internal/daemon/maintenance.go:61-78 | for every fault of listing, reading and removing: runs the handlers of exactly the expired approvals it could take, each once with a denial, and announces each removal with its handler's error text; exactly those are gone and the others stay for the next pass |
| Approvals.Dispatcher.Connect | daemon/internal/daemon/approvals_routes.go:53-72 | subscribes, then writes every record that can be listed and read once |
| Approvals.DecideIsItsSteps | daemon/internal/daemon/approvals_dispatcher.go:109-139 | the protocol's load, delete, handle and emit steps, uninterrupted, do what the method does |
| Approvals.CreateIsItsSteps | daemon/internal/daemon/approvals_dispatcher.go:68-100 | the protocol's save and announce steps, uninterrupted, do what the method does |
| ApprovalProtocol.RunKeepsInv | daemon/internal/daemon/approvals_dispatcher.go:68-139 | the store, claim, handler, removal and stream invariants hold after every interleaving of creators, deciders and streams |
| ApprovalGuarantees.StreamIsComplete | daemon/internal/daemon/approvals_routes.go:53-89 | a stream whose buffer never overflowed has written, or still buffers, the records it listed and then every event emitted since it subscribed, each once and in order |
| ApprovalGuarantees.ShownCount | daemon/internal/daemon/approvals_routes.go:53-89 | such a stream, drained, has shown an undecided announced approval once or twice: once if it was listed, once more if it was announced after the subscription |
| ApprovalGuarantees.RemovedOnce | daemon/internal/daemon/approvals_dispatcher.go:129-138 | no approval is announced as removed twice |
| ApprovalGuarantees.DecidedOnce | daemon/internal/daemon/approvals_dispatcher.go:109-139 | over every interleaving each approval's handler runs at most once and only one decider gets past the delete |
| ApprovalGuarantees.DecidersSettle | daemon/internal/daemon/approvals_dispatcher.go:109-139 | losing deciders are told not-found (or their own store error) and have no effect; the winner of a registered kind emitted exactly one removed event, with its own decision and the error "" if the handler returned none, the handler's text if it returned one |
| ApprovalGuarantees.FailureShows | daemon/internal/daemon/approvals_dispatcher.go:129-136 | over every interleaving a removed event reads like a success if and only if its handler succeeded or failed with an empty text |
| ApprovalGuarantees.StoreErrorNeedsFault | daemon/internal/daemon/approvals_dispatcher.go:109-121 | without store faults no decider ends with a store error, so every loser is told not-found |
| ApprovalGuarantees.CreatedFirstIff | daemon/internal/daemon/approvals_dispatcher.go:89-138 | from any reachable state with an approval on disk, every continuation announces its creation before its removal if and only if the creation has been announced already or no handler is registered for its kind |
| ApprovalGuarantees.SilentApproval | daemon/internal/daemon/approvals_dispatcher.go:89-98 | a save that fails after its rename leaves a pending approval that a connected stream is never told about |
| ApprovalGuarantees.RemovedBeforeCreated | daemon/internal/daemon/approvals_dispatcher.go:89-138 | the schedule behind the other case: decided between its save and its announcement, an approval is announced as removed first and as created afterwards |
| PoolProtocol.RunKeepsInv | daemon/internal/daemon/worker.go:319-429 | the invariant behind the next three results holds after every interleaving of the loop, finishing dispatches and other users of the queue |
| PoolProtocol.CapHolds | daemon/internal/daemon/worker.go:319-429 | `active` is always the number of running cold dispatches and never exceeds the cap |
| PoolProtocol.OneHolderPerTask | daemon/internal/daemon/worker.go:319-403 | no task is held by two dispatches or by a dispatch and the loop, and no warm dispatch holds a task that allows writes |
| PoolProtocol.SpawnsArePaced | daemon/internal/daemon/worker.go:342-362 | successive cold spawns are at least the interval apart, so a window of length L sees at most L / interval + 1 of them |
| RateLimit.WindowBound | daemon/internal/daemon/worker.go:342-362 | events a minimum gap apart are at most length / gap + 1 in any window |
| WarmProto.SkipUntil | daemon/internal/daemon/warm_proto.go:66-122 | the shared loop stops at the first match if and only if no 101 malformed lines in a row come before it, and gives up exactly at the end of the first such stretch |
| WarmProto.ReachesSays | daemon/internal/daemon/warm_proto.go:66-122 | what a reader reaches, with the fields and the limit written out: the first line of type system and subtype init, or of type result, with no 101 lines in a row before it that do not decode |
| WarmProto.ReadUntilInit | daemon/internal/daemon/warm_proto.go:66-92 | succeeds exactly when the init message is reached |
| WarmProto.ReadUntilResult | daemon/internal/daemon/warm_proto.go:95-122 | succeeds exactly when the first result line is reached before a stretch of 101 malformed lines and decodes, and returns that line |
| WarmWorker.Slot.Reserve | daemon/internal/daemon/warm_worker.go:69-77 | succeeds exactly when ready and not busy, and does to the flags what the step of `WarmExclusivity` does |
| WarmWorker.Slot.Release | daemon/internal/daemon/warm_worker.go:80-84 | the slot is not busy afterwards, its other flags as before |
| WarmWorker.Slot.Kill | daemon/internal/daemon/warm_worker.go:304-328 | the slot is neither ready nor busy afterwards, whoever holds it |
| WarmWorker.Slot.Start | daemon/internal/daemon/warm_worker.go:88-191 | ready if and only if a process could be spawned, the identity loaded and written, and the output holds an init message and a result that decodes after it, neither behind too many malformed lines; any later failure leaves the slot neither ready nor busy |
| WarmWorker.Slot.Run | daemon/internal/daemon/warm_worker.go:207-255 | answers with a text if and only if the worker is ready, the prompt goes out in time and the first result line that follows decodes to that text without an error; a timeout kills the process |
| WarmWorker.Slot.RecordRespawnAttempt | daemon/internal/daemon/warm_worker.go:331-341 | accepts exactly when there was none before or the last accepted one is at least 60 seconds old, and then records the time; otherwise disables the slot for good |
| WarmWorker.Slot.Replace | daemon/internal/daemon/worker.go:383-395 | a failed run is followed by a respawn if that is accepted; the slot is ready again exactly when the new process came up, and disabled when the last respawn was less than a minute ago |
| WarmWorker.Slot.Dispatch | daemon/internal/daemon/worker.go:372-403 | an answer exactly when the run has one; afterwards the slot is free, or replaced when the run failed and the daemon goes on |
| WarmWorker.Slot.Status | daemon/internal/daemon/warm_worker.go:352-356 | reports the three flags |
| WarmWorker.RespawnsArePaced | daemon/internal/daemon/warm_worker.go:331-341 | at most T / 60 s + 1 accepted respawns fall into any window of length T |
| WorkerPool.Pool.TakeCold | daemon/internal/daemon/worker.go:342-367 | one turn of the cold pass: a task if and only if fewer are active than the cap, the interval since the last spawn is over or there is none, something is queued and the flush succeeds; then one more is active and the spawn time recorded; refused, the queue and its file are untouched |
| WorkerPool.Pool.ReserveWarmWorker | daemon/internal/daemon/worker.go:281-293 | the first available slot that is not disabled, the others untouched |
| WorkerPool.Pool.WarmStatus | daemon/internal/daemon/worker.go:297-314 | the counts are right and ready + disabled never exceeds the total |
| WorkerPool.Pool.TakeWarm | daemon/internal/daemon/worker.go:327-338 | one turn of the warm pass: a task if and only if some slot is ready, not busy and not disabled, a task that is warm and allows no writes is queued, and the flush succeeds; then that slot is busy, and no other changes; otherwise none does |
| WorkerPool.Pool.EndCold | daemon/internal/daemon/worker.go:406-428 | the task ends failed with the error text or completed with the result, in memory and in the file, and the count goes down whether or not the flush succeeds |
| WorkerPool.ColdTurnIsItsSteps | daemon/internal/daemon/worker.go:340-366 | the protocol's check, take, wait and spawn steps, uninterrupted, do what a turn of the cold pass does |
| WorkerPool.WarmTurnIsItsSteps | daemon/internal/daemon/worker.go:327-338 | its reserve and take steps do what a turn of the warm pass does |
| WorkerPool.EndColdIsItsSteps | daemon/internal/daemon/worker.go:406-428 | its queue work and finish steps do what the end of a cold dispatch does |
| WarmExclusivity.ExclusiveUntilStruck | daemon/internal/daemon/warm_worker.go:69-255 | over every run until a kill strikes while a dispatch holds the slot: at most one holder, the busy flag says so, and whoever received an answer received the one to its own line; kills of a free slot do no harm |
| WarmExclusivity.RespawnPace | daemon/internal/daemon/warm_worker.go:331-341 | over every run accepted respawns of a slot are a minute apart |
| WarmExclusivity.RespawnWindow | daemon/internal/daemon/warm_worker.go:331-341 | hence the bound on any window |
| WarmExclusivity.DisabledForGood | daemon/internal/daemon/warm_worker.go:331-341 | once set, `disabled` is never cleared |
| WarmSharing.StruckIsShared | daemon/internal/daemon/warm_worker.go:304-328 | from any state with a holder, a kill and an accepted respawn let a second dispatch in beside it, and its release a third |
| WarmSteps.StepIsSlot | daemon/internal/daemon/warm_worker.go:69-341 | every step does to ready, busy, disabled and the last respawn what the slot's method does |
| WarmSteps.FailedRunIsItsSteps | daemon/internal/daemon/worker.go:377-397 | the steps of a failed run are the slot's replacement and release |
| WarmSteps.RunIsItsSteps | daemon/internal/daemon/warm_worker.go:207-255 | the result line on which a slot's run ends is the line its dispatch receives, and both stop reading right behind it |
| WarmSharing.SharedAfterKill | daemon/internal/daemon/worker.go:372-403 | and from every state in which a kill can strike a holder, with a respawn that is accepted, some continuation hands a dispatch the answer to another one's line |
| Scheduler.NextIsOccurrence | daemon/internal/scheduler/scheduler.go:194-222 | `next` gives the least occurrence after its argument |
| Scheduler.DueIff | daemon/internal/scheduler/scheduler.go:204-217 | due by the cron library is having an occurrence in (last firing or creation, now] |
| Scheduler.MissedIff | daemon/internal/scheduler/scheduler.go:145-172 | recently missed by the cron library is having missed one occurrence by at most twice the gap to the following one |
| Scheduler.Scheduler.Create | daemon/internal/scheduler/scheduler.go:89-118 | adds the schedule exactly when the expression parses and the name is new; a failed flush is reported but the schedule stays |
| Scheduler.Scheduler.Remove | daemon/internal/scheduler/scheduler.go:121-132 | takes exactly the schedules of that name out, the others in order |
| Scheduler.Scheduler.SelectTick | daemon/internal/scheduler/scheduler.go:194-217 | for a lawful cron, picks exactly the listed schedules with a valid expression and an occurrence after the last firing, or the creation if there was none, and not after now, in list order |
| Scheduler.Scheduler.SelectCatchUp | daemon/internal/scheduler/scheduler.go:145-172 | for a lawful cron, picks exactly those fired before that missed their first occurrence after that by at most two intervals to the occurrence following it, in list order |
| Scheduler.Scheduler.Tick | daemon/internal/scheduler/scheduler.go:194-238 | fires exactly the schedules with an occurrence waiting, in list order; those whose submission succeeds carry the time it was recorded, and no other changes |
| Scheduler.Scheduler.CatchUp | daemon/internal/scheduler/scheduler.go:145-177 | the same for those that recently missed an occurrence, the interval written out |
| SchedulerRuns.PickIsChosen | daemon/internal/scheduler/scheduler.go:145-217 | what a step picks by handle is what the methods choose by object, in the same order |
| SchedulerRuns.FireAllIsItsSteps | daemon/internal/scheduler/scheduler.go:219-238 | submitting and recording one schedule after the other, as steps, leaves each record as the method leaves its object |
| SchedulerRuns.TickIsItsSteps | daemon/internal/scheduler/scheduler.go:194-238 | a tick as steps, uninterrupted, chooses and records what the method does |
| SchedulerRuns.CatchUpIsItsSteps | daemon/internal/scheduler/scheduler.go:145-177 | and so does a catch-up |
| SchedulerRuns.TickPicksWaiting | daemon/internal/scheduler/scheduler.go:194-217 | in every reachable state between rounds a tick picks exactly the listed schedules with an unanswered occurrence, those that never fired included |
| SchedulerRuns.TickFiresWaiting | daemon/internal/scheduler/scheduler.go:194-238 | and if the submissions succeed, each of them has been fired when the tick is over |
| SchedulerRuns.NamesStayUnique | daemon/internal/scheduler/scheduler.go:89-132 | schedule names stay unique over every run |
| SchedulerRuns.FiringsAnswerDistinctOccurrences | daemon/internal/scheduler/scheduler.go:145-238 | over every run the successful firings of a schedule answer strictly increasing cron occurrences after its first reference time and not in the future; missed ones collapse into one |
| SchedulerRuns.FiringsAreBounded | daemon/internal/scheduler/scheduler.go:145-238 | hence a schedule has fired at most once per occurrence in (reference time, now] |
| RuneRange.RunesConcat | daemon/internal/telegram/notify.go:119-130 | cutting a text at a rune boundary cuts its runes |
| RuneRange.CutKeepsRunesIff | daemon/cmd/gobrrr-telegram/chunker/chunker.go:32-40 | and nowhere else: the parts have the runes of the whole if and only if the cut is a boundary |
| RuneRange.TruncateRunes | daemon/internal/daemon/sse.go:70-79 | a prefix cut at a rune boundary, holding exactly the first n runes |
| RuneRange.Utf16Is | daemon/internal/telegram/notify.go:119-130 | the UTF-16 units of a character give it back (section 2.2 of RFC 2781): itself up to U+FFFF, a high and a low surrogate above |
| Utf8.DecodeRuneIsLawful | daemon/internal/telegram/notify.go:119 | Go's decoding never yields a surrogate or runs past the end, and does not depend on what follows the rune |
| Utf8.EncodingIs | daemon/internal/telegram/notify.go:119 | the encoding the decoder is measured against is the table of section 3 of RFC 3629: length by range, the bits in order |
| Utf8.DecodeEncoded | daemon/internal/telegram/notify.go:119 | every character decodes from its own encoding (section 3 of RFC 3629), whatever follows |
| Utf8.DecodedIsEncoded | daemon/internal/telegram/notify.go:119 | and nothing else decodes: any rune other than one bad byte was the encoding of its character |
| Utf8.AsciiIsOneRune | daemon/cmd/gobrrr-telegram/chunker/chunker.go:32-40 | an ASCII byte is a rune of its own wherever it stands |
| SplitMessage.SplitMessage | daemon/internal/telegram/notify.go:115-133 | the loop returns the pieces of the specification |
| SplitMessage.SplitKeepsText | daemon/internal/telegram/notify.go:115-133 | the pieces concatenate back to the text |
| SplitMessage.SplitIsOptimal | daemon/internal/telegram/notify.go:112-133 | for every text and limit: the pieces are the text, cut only between runes; they meet the limit if and only if every rune does; no other such cut within the limit has fewer pieces |
| SplitMessage.SplitIsGreedy | daemon/internal/telegram/notify.go:112-133 | for every limit, even one that no character meets: no piece could have taken the first character of the next one as well, only a single character exceeds the limit, and only the first piece can be empty, exactly when the first character does not fit |
| SplitMessage.LimitOfTwoAlwaysFits | daemon/internal/telegram/notify.go:112-133 | from a limit of two on every piece meets it |
| SplitMessage.LimitOfOneCanBeBroken | daemon/internal/telegram/notify.go:112-133 | a limit of one is broken by a surrogate pair |
| Relay.Connection.OnData | plugins/gobrrr-relay/index.ts:44-71 | after each chunk the closure variables and the events pushed are those of reading the whole text so far at once |
| Relay.Receive | plugins/gobrrr-relay/index.ts:41-71 | hence wherever the cuts are, the outcome is that of the concatenated text |
| Relay.LinesRejoin | plugins/gobrrr-relay/index.ts:56 | the split pieces hold no newline and rejoin to the text |
| Relay.HeaderEndIsFirst | plugins/gobrrr-relay/index.ts:49-53 | the headers end at the first blank line |
| Relay.EventIs | plugins/gobrrr-relay/index.ts:60-69 | the event of a line: none unless it starts with the data prefix; otherwise what stands behind it, white space at both ends aside, is parsed unless it is empty |
| Relay.RoundTrip | daemon/internal/daemon/sse.go:112-126 | reading a printed response gives exactly its events in order and leaves nothing over, whatever lines that are not data lines stand between them |
| Relay.RelayAll | plugins/gobrrr-relay/index.ts:41-71 | end to end: for any events and any cuts of the response, the relay pushes exactly the events served, in order |
| Relay.PushesOnlyGrow | plugins/gobrrr-relay/index.ts:58-70 | what a part of the response pushed is never taken back |
| Chunker.SplitLength | daemon/cmd/gobrrr-telegram/chunker/chunker.go:32-40 | whole lengths of the limit, then the rest, nothing lost |
| Chunker.CutIsUnique | daemon/cmd/gobrrr-telegram/chunker/chunker.go:32-40 | there is only one such cut |
| Chunker.ParagraphsRejoin | daemon/cmd/gobrrr-telegram/chunker/chunker.go:43 | the paragraphs joined by blank lines are the text |
| Chunker.ParagraphsHaveNoBlankLine | daemon/cmd/gobrrr-telegram/chunker/chunker.go:43 | no paragraph has a blank line inside |
| Chunker.ParagraphsAreLeftmost | daemon/cmd/gobrrr-telegram/chunker/chunker.go:43 | and none but the last ends in a newline: the separators are the leftmost ones |
| Chunker.ParagraphsAreUnique | daemon/cmd/gobrrr-telegram/chunker/chunker.go:43 | there is only one way to cut a text like that |
| Chunker.SplitNewline | daemon/cmd/gobrrr-telegram/chunker/chunker.go:42-75 | the chunks are those of a packing: groups of paragraphs that fit and are closed only when the next one does not, long paragraphs cut by length, leading empty ones dropped |
| Chunker.PackingIsUnique | daemon/cmd/gobrrr-telegram/chunker/chunker.go:42-75 | a text and a limit have only one packing |
| Chunker.GroupsAreFull | daemon/cmd/gobrrr-telegram/chunker/chunker.go:42-75 | a group meets the limit and joined with the next paragraph that is not cut it would not; only longer paragraphs are cut, to full lengths and a rest |
| Chunker.PackingWeaves | daemon/cmd/gobrrr-telegram/chunker/chunker.go:42-75 | putting zero or more blank lines back around and between the chunks of a packing gives the paragraphs joined, nothing else lost, added or moved |
| Chunker.NothingLeft | daemon/cmd/gobrrr-telegram/chunker/chunker.go:71-74 | no chunk comes out exactly when the text is separators and nothing else |
| Chunker.Split | daemon/cmd/gobrrr-telegram/chunker/chunker.go:19-30 | for any text, mode and limit: chunks of 1 to the clamped limit of bytes or the single empty chunk, when that is, and the recovery of the text |
| Chunker.LengthKeepsRunesIff | daemon/cmd/gobrrr-telegram/chunker/chunker.go:32-40 | the chunks, each decoded on its own, have the runes of the text in order if and only if every multiple of the limit inside the text starts a rune |
| Chunker.PackingKeepsRunesIff | daemon/cmd/gobrrr-telegram/chunker/chunker.go:42-75 | packed chunks, with the blank lines between pieces put back, have the runes of the text if and only if that holds for every paragraph, which within the limit it does |
| Chunker.AsciiIsNeverSplit | daemon/cmd/gobrrr-telegram/chunker/chunker.go:19-75 | hence an ASCII text keeps its runes under every limit and in both modes |
| Chunker.ACutCanSplitARune | daemon/cmd/gobrrr-telegram/chunker/chunker.go:32-40 | the smallest case of the other kind: a limit of one splits a two-byte character, and both halves stop decoding |
| SliceSort.SortSlice | daemon/internal/memory/store.go:113-116 | a rearrangement in which no later element comes before an earlier one; ties in any order |
| MemoryStore.MatchTags | daemon/internal/memory/store.go:254-268 | for every required tag some tag equals it, ignoring case |
| MemoryStore.SearchStep | daemon/internal/memory/store.go:119-152 | deciding by the indexed summary first and by the file only then comes to deciding by both |
| MemoryStore.Scan | daemon/internal/memory/store.go:118-160 | the loop with its early break finds the first `limit` matches in index order |
| MemoryStore.Store.Search | daemon/internal/memory/store.go:106-161 | the search is the first `limit` of the newest-first entries whose tags include all required ones and whose content, or its first 100 bytes, contains the query; it is what a scan of the contents alone finds unless the query ends with U+FFFD and some summary is cut inside a character |
| MemoryStore.SearchIsScan | daemon/internal/memory/store.go:118-152 | under that condition the summaries change nothing for any list of entries |
| MemoryStore.AnswerIs | daemon/internal/memory/store.go:106-161 | any answer of a search, written out: wanted entries of the contents, each once, newest first, within the limit; a wanted one is left out only for the limit and is then not newer than any taken |
| MemoryStore.BadQueryFindsCuts | daemon/internal/memory/store.go:81-84 | the query U+FFFD finds an entry by its summary alone if and only if the summary is cut inside a character and the content has no U+FFFD |
| MemoryStore.FoundByItsSummary | daemon/internal/memory/store.go:81-84 | such an entry: 99 ASCII bytes and a two-byte letter |
| Lowering.CutMatchIff | daemon/internal/memory/store.go:81-119 | what a text cut at a byte matches, cases aside: what its whole runes match, or what ends with one of the bad characters the cut has left |
| Lowering.CutIsHarmless | daemon/internal/memory/store.go:81-135 | a cut between runes, or a query that does not end with U+FFFD: what the cut text matches, the text matches |
| Lowering.LowerIsByCharacter | daemon/internal/memory/store.go:81-119 | the characters of a lower-cased text are the lower-cased characters of the text, in order |
| Sequences.ContainsIs | daemon/internal/memory/store.go:119-135 | containing a text is being made up of it with something before and something after |
| MemoryStore.Store.List | daemon/internal/memory/store.go:165-167 | the first `limit` entries, newest first |
| MemoryStore.Store.Save | daemon/internal/memory/store.go:63-95 | files, index with the first 100 bytes as summary, and index file after every fault: a new entry can be found as soon as its file is written and survives a restart when the save was acknowledged |
| MemoryStore.Store.Delete | daemon/internal/memory/store.go:170-187 | a deleted entry is found neither now nor after a restart, and nothing else goes |
| MemoryStore.Store.Open | daemon/internal/memory/store.go:51-60 | a restart finds what the stored index and the files agree on |
| Match.FieldsAreRuns | daemon/internal/memory/match.go:55 | the fields are exactly the maximal runs without white space |
| Match.StripIs | daemon/internal/memory/match.go:60 | what is trimmed is punctuation around the word, all of it |
| Match.StripSays | daemon/internal/memory/match.go:60 | what is trimmed are the named punctuation characters around the word, all of them |
| Match.Tokenize | daemon/internal/memory/match.go:54-70 | each word of the lower-cased text once, stripped of punctuation, unless nothing is left of it |
| Match.ScoreEntry | daemon/internal/memory/match.go:73-94 | the number of different prompt words that occur in the lower-cased content or in some lower-cased tag |
| Match.MatchRelevant | daemon/internal/memory/match.go:12-51 | the entries of positive score from distinct places, as many as the limit allows: the scores never rise down the list, and at equal scores neither do the creation times; one left out scores at most as much as any taken, and at equal scores is no newer |
| PermissionProtocol.RunKeepsInv | daemon/cmd/gobrrr-telegram/bot/permission.go:33-134 | whatever the codes, the claim and verdict invariants hold after every interleaving of requests, replies, taps and timers |
| PermissionProtocol.VerdictsAreUnique | daemon/cmd/gobrrr-telegram/bot/permission.go:33-134 | whatever the codes, each request has exactly the verdict of the one resolver that took it, or its one immediate denial, or none yet; never two |
| PermissionProtocol.NoneLostIff | daemon/cmd/gobrrr-telegram/bot/permission.go:73-81 | every stored request is pending or taken by a resolver if and only if no prompt was ever stored under a code pending at that moment |
| PermissionProtocol.ExactlyOneVerdict | daemon/cmd/gobrrr-telegram/bot/permission.go:33-117 | without such a collision, a stored request whose timer ran or was stopped has exactly one verdict once every resolver is done |
| PermissionProtocol.AnswerTakesIff | daemon/cmd/gobrrr-telegram/bot/permission.go:95-117 | a reply or tap takes a request if and only if that request is what its code maps to, and misses exactly when the code is not pending |
| PermissionProtocol.VerdictsHaveReasons | daemon/cmd/gobrrr-telegram/bot/permission.go:33-134 | over every run no verdict is without a reason: a refusal, an answer to the code the request was waiting under, or its timer, which only denies; so an approval was given by an approving answer |
| PermissionProtocol.EarlyTapIsLost | daemon/cmd/gobrrr-telegram/bot/permission.go:53-81 | so a tap that lands before the entry is stored is lost, and the timer takes the request to deny it |
| PermissionProtocol.SameCodeLosesOne | daemon/cmd/gobrrr-telegram/bot/permission.go:73-81 | the smallest collision, two prompts under one code: the first ends with its timer run, not pending and taken by nobody |
| Permissions.Bot.HandlePermissionRequest | daemon/cmd/gobrrr-telegram/bot/permission.go:33-82 | each immediate failure gives exactly one denial and stores nothing; otherwise an entry with its timer running and no answer yet |
| Permissions.Bot.ResolvePermission | daemon/cmd/gobrrr-telegram/bot/permission.go:95-117 | succeeds exactly when the code is pending, takes it out, stops its timer and answers once |
| Permissions.Bot.HandlePermissionCallback | daemon/cmd/gobrrr-telegram/bot/permission.go:122-134 | a tap on pa: or pd: followed by a code is the approving or denying reply to that code; other data does nothing |
| Permissions.ResolveIsItsSteps | daemon/cmd/gobrrr-telegram/bot/permission.go:95-117 | the protocol's answer, stop and reply steps, uninterrupted, do what the method does |
| Permissions.RequestIsItsSteps | daemon/cmd/gobrrr-telegram/bot/permission.go:33-82 | its refusal, or its send, store and arm steps, do what the method does |
| Permissions.ButtonRoundTrip | daemon/cmd/gobrrr-telegram/bot/permission.go:122-175 | a button's data parses back to its code and answer if and only if an approved code does not itself start like a deny button |
| Recipes.FormatRecipeCommand | daemon/internal/clawhub/installer.go:297-313 | there is a command exactly for the supported kinds |
| Recipes.ProposeCommands | daemon/internal/clawhub/installer.go:223-295 | every proposal supplies a missing binary no earlier one supplied, so never more proposals than missing binaries; native recipes first and exhausted first; unless a fallback recipe lists something its namesakes lack, a missing binary is covered if and only if a supported recipe lists it; every command is written for its recipe's kind, with sudo for the host's own manager alone, that manager's come first, and with distinct ids a missing binary is covered exactly when a recipe of a kind with a command lists it |
| Recipes.OfferedCommands | daemon/internal/clawhub/installer.go:223-329 | the commands and their order for every outcome of the two passes, kind by kind |
| Recipes.CoverageSays | daemon/internal/clawhub/installer.go:239-292 | with distinct ids: covered by some proposal if and only if listed by a recipe of one of the seven kinds |
| Recipes.NoMoreThanMissing | daemon/internal/clawhub/installer.go:239-292 | proposals that each add a binary are at most as many as the binaries they cover |
| Recipes.CoverageIff | daemon/internal/clawhub/installer.go:239-292 | the coverage result for every outcome of the two passes, native recipes sharing ids included |
| Recipes.DistinctAreCompatible | daemon/internal/clawhub/installer.go:266-275 | distinct ids are enough for it |
| Recipes.ClashLeavesAGap | daemon/internal/clawhub/installer.go:266-275 | two binaries whose recipes all carry one id, none listing both and the second's none native: with both missing, every outcome leaves one of them uncovered |
| Recipes.CompatibleIff | daemon/internal/clawhub/installer.go:239-292 | where no binary is listed twice, the condition on ids holds if and only if every outcome for every set of missing binaries covers all that is listed |
| Recipes.SharedIdLeavesAGap | daemon/internal/clawhub/installer.go:266-275 | the smallest clash: a native and a fallback recipe under one id, the second passed over |

## Left out

- HTTP routing, the command line, the Telegram, Gmail and Calendar clients, the setup wizard: plumbing without a hard property of its own.
- Process spawning, signals and pipes: a child is its sequence of output lines, a kill is one step, a context that ends is a timeout.
- What of a file's data a power loss leaves, beyond all of it or a file that does not parse; and power losses for the approval, memory and schedule files, whose models restart processes only.
- Task, schedule and permission objects as Go structs of separate fields: a cell holds the whole struct and is replaced by an updated one.
- `List`, `Get`, `RecentCompleted` of the queue and `Get` of the memory store: read-only filters and copies.
- Process death in the middle of approvals, permission prompts and schedules: those models run within one process.
- The schedule file and its reload, and a schedule submitted but not recorded before a crash, which fires again after the restart.
- The cron library: `next` is any function giving the least occurrence after its argument; expressions without a future occurrence are outside the model.
- Multi-byte characters cut across socket chunks and the framing of HTTP chunks beyond their showing up as lines that are not data lines; reconnecting and its back-off.
- Closing of a subscriber's channel and the panic a second close would raise.
- Decompression limits of install archives, lock files and receipts of the installer.
- Identity prompts, model and permission settings passed to workers, retry, result routing and logging.
- MemoryStore.Store.Search: Save and Search run one at a time, and an entry file gives back the bytes it was given, which JSON does for text that is UTF-8.
- Match.Tokenize: lower-casing and white space are functions on characters, so a character whose lower case has another length in bytes is one character here.
- SliceSort.SortSlice: its body is an insertion sort standing in for the library's sort; only the contract, which leaves ties open as the library does, is used.
- SchedulerRuns.FiringsAreBounded: counts recorded firings; a submission whose recording is lost with the process is not counted.
- WarmExclusivity.ExclusiveUntilStruck: while the daemon stops, a failed run may release its slot just before the stop arrives; the machine has the stop first.
- Recipes.CompatibleIff: for lists in which clashing recipes share a binary with others, only the sufficient condition (`Recipes.CoverageIff`) and the clash that is certain to leave a gap (`Recipes.ClashLeavesAGap`) are given; which binaries are covered in between depends on the order of the list.
- Relay.RelayAll: ends with the event handed on; the notification sent for it is not modelled.
