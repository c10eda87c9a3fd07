# A verified model of the System V semaphore broker

termux-glibc-compat gives programs System V semaphores on a kernel that lacks them. A broker process keeps the
semaphore sets in memory, clients talk to it over a stream socket, and one mutex serialises every state change. This
project models that system in Dafny, layer by layer, and proves what its layers promise together.

**The store** (`src/sem_store.c`). `SemStore` describes every operation as a function on store values: a table of 128
slots and a finite map of undo adjustments. `SemTable.Table` is the store as the C code keeps it, two fixed arrays
scanned and updated in place, and each of its methods is proved to compute the function of the same name. The
properties are then proved about the functions, for single calls and for every run of calls, waiter counts and
process exits:

- tryop is atomic and refines a specification stated operation by operation (`Sequential`), and gives each list the
  result it deserves, said from the values, the undo table and the list alone (`Verdict`);
- every call's answer and effect is said over live sets, error by error (`Answers`), and GETVAL, GETPID and STAT are
  followed through every event (`Observed`);
- value plus pending adjustments is conserved, so undo neither loses nor invents units (`Conservation`);
- under the SEM_UNDO discipline no exit clamps, and a binary semaphore excludes (`CrashSafety`);
- removed identifiers stay dead until 32767 removals of their slot, shared keys are stable (`Identifiers`).

**The broker** (`src/broker_server.c`). `Broker` is a transition system whose steps are the critical sections of
worker threads and of the process monitor: a new request, a waiter returning from its sleep, a malformed request, an
observed process exit. `WaiterList.List`, `WatcherTable.Watchers` and `Server.Server` are the same broker as an object
graph with a linked list, updated in place; each method is proved to take exactly the corresponding step. Over every
run, by induction on steps that any threads may interleave:

- new requests, waiting ones and observed exits get exactly the answers and effects they should (`BrokerAnswers`);
- no wake-up is lost (`Wakeups`), retry cascades end and leave only blocked waiters (`Cascade`);
- GETNCNT and GETZCNT equal the queue as long as no identifier is reissued while waited on (`WaitCounts`), which takes
  32767 removals (`BrokerStore`, and `Reissue` for a run that does it), queued requests on a set complete in order (`Fifo`),
  and new ones pass them exactly when they are not blocked (`Overtaking`);
- undo state never outlives its watcher unless a request of an exited process succeeds late (`UndoWatch`), and a set in
  a reused slot is out of reach of old undo state (`SlotReuse`);
- the broker's store is a run of the store, so the store's run theorems hold for the broker (`BrokerStore`).

**The wire** (`src/protocol.c`, `src/broker_dispatch.c`, `src/client.c`, `src/transport.c`). Headers and payloads are
byte sequences with their fields at stated offsets, and exactly the well-formed ones are accepted (`Layout`). Calling
through the wire equals calling the store (`Client`), every answer the broker gives passes the
client's checks (`Replies`), packets survive short and interrupted reads and writes (`Transport`), and responses
are matched to the right requests across fork, reconnection and failure (`Correlation`, whose steps the in-place client
`Session.Session` takes).

**Timeouts** (`integration/termux-glibc/overlay/tgcompat-glibc.c`, `src/broker_server.c`). Packing, deadline and expiry
use 64-bit nanoseconds with the overflow checks of the code (`Timeouts`).

Widths are explicit: `Types` declares the signed and unsigned ranges, and every addition that could leave its C type
is checked or written out.

One place where the documentation and the code disagree; the model follows the code. `docs/ARCHITECTURE.md:89-93`
describes FIFO order per set. Order holds among queued requests. A request that has not queued is tried at once
(`src/broker_server.c:544-557`), and it is answered ahead of everyone queued for its set exactly when its own list is
not blocked (`Overtaking.OvertakesExactly`). The waiters it passes need not be blocked: between a broadcast and a woken
waiter's turn another worker can take the mutex, so a waiter whose operations are enabled is overtaken too
(`Scenarios.EnabledWaiterOvertaken`). Once the woken waiters have had their turns, only blocked ones are passed
(`Overtaking.OvertakenHead`).

## Model

| member | source | states |
|---|---|---|
| `StoreInvariant.IdRoundTrip` | src/sem_store.c:50-72 | identifiers are positive, and decoding an encoded slot and generation returns them |
| `StoreInvariant.DecodeRoundTrip` | src/sem_store.c:55-72 | every id that decodes is the encoding of what it decodes to, and an id that does not decode encodes nothing |
| `StoreInvariant.SameSlot` | src/sem_store.c:74-84 | two live identifiers share a slot only if they are equal |
| `StoreInvariant.PutSetFrame` | src/sem_store.c:74-84 | updating one live set leaves liveness and contents of every other identifier alone |
| `StoreInvariant.GetAsCases` | src/sem_store.c:173-245 | semget changes nothing, or fills exactly the first inactive slot and only when no live set has that shared key |
| `StoreInvariant.GetAsValid` | src/sem_store.c:173-245 | semget keeps the store invariant, the undo table and every live set |
| `StoreInvariant.NewSetClean` | src/sem_store.c:205-245 | a new set starts at zero and no adjustment names it, whatever its slot held before |
| `StoreInvariant.RemoveValid` | src/sem_store.c:247-276 | removal kills exactly that identifier and exactly its adjustments, and keeps the invariant |
| `StoreInvariant.SetValValid` | src/sem_store.c:288-303 | SETVAL keeps the store invariant |
| `StoreInvariant.SetAllValid` | src/sem_store.c:326-345 | SETALL keeps the store invariant |
| `StoreInvariant.SetMetadataValid` | src/sem_store.c:384-403 | IPC_SET keeps the invariant, the undo table, and values, sizes and waiter counts of every set |
| `StoreInvariant.AdjustWaitCountValid` | src/sem_store.c:417-434 | moving a waiter count keeps the invariant, the undo table and all values |
| `StoreInvariant.UndoAfterValid` | src/sem_store.c:575-628 | after the capacity and range checks, the committed undo map is in range, has no zero entry and fits the table |
| `StoreInvariant.TryOpValid` | src/sem_store.c:506-631 | tryop keeps the store invariant, with values and adjustments in range |
| `StoreInvariant.TryOpAtomic` | src/sem_store.c:506-631 | a list that does not succeed changes nothing at all |
| `StoreInvariant.ExitPointwise` | src/sem_store.c:468-496 | after an exit every semaphore holds its value plus the dead process's adjustment, clamped, or its old value if there was none |
| `StoreInvariant.ExitUndo` | src/sem_store.c:468-496 | an exit drops exactly the dead process's adjustments |
| `StoreInvariant.ExitValid` | src/sem_store.c:468-496 | an exit keeps the store invariant |
| `StoreInvariant.ExitIdempotent` | src/sem_store.c:468-496 | a second exit of the same process changes nothing and reports no change |
| `SlotReuse.EventClear` | src/sem_store.c:173-631 | only a successful SEM_UNDO list of a process on a set creates adjustments of that process on it |
| `SlotReuse.ExitLeavesSet` | src/sem_store.c:468-496 | the exit of a process leaves a set it has no adjustments on exactly as it is: values, pids and times |
| `SlotReuse.NewSetUntouched` | src/sem_store.c:205-276 | in every run after a set is created, the exit of a process that has not successfully used SEM_UNDO on it leaves the whole set untouched, whatever the process did to earlier sets in that slot |
| `StoreCalls.ExecValid` | src/broker_dispatch.c:30-333 | every call keeps the store invariant |
| `StoreCalls.ApplyValid` | src/sem_store.c:173-631 | every store event, calls, exits and waiter counts, keeps the invariant |
| `StoreCalls.EventShape` | src/sem_store.c:278-631 | only semget and removal change which sets exist, their keys, sizes or generations |
| `StoreCalls.Run` | src/sem_store.c:173-631 | in every state of every run the invariant holds: unique live identifiers, one set per shared key, values and adjustments in range, no orphaned or zero adjustment |
| `Sequential.SimulateMeans` | src/sem_store.c:524-559 | the simulation loop finishes exactly when every operation is enabled after its predecessors, with the summed values; otherwise it stops at the first that is not |
| `Sequential.TryOpSequential` | src/sem_store.c:506-631 | a list succeeds if and only if the set is live, the list is well formed and not empty, every operation is enabled at its turn and the undo checks pass; then every operation is added; a reported reason is that of the first operation not enabled |
| `Sequential.TryOpErrors` | src/sem_store.c:506-599 | exactly when each error is returned: -EINVAL, -ERANGE for an overflowing operation or undo delta, -EAGAIN with the reason for one that would have to wait but carries IPC_NOWAIT, -ENOSPC for a full undo table |
| `Verdict.MetInRange` | src/sem_store.c:524-559 | while every operation so far was enabled, all values stay in 0..32767 |
| `Verdict.HaltsMeans` | src/sem_store.c:524-559 | the simulation stops exactly at the first operation that would leave 0..32767, or wants zero and does not find it |
| `Verdict.TryOpDeserves` | src/sem_store.c:506-631 | every list gets exactly the result its values, flags and the undo table call for: -EINVAL, -ERANGE, -EAGAIN, blocked, -ENOSPC or 0 |
| `Answers.SemGetAnswers` | src/sem_store.c:173-245 | semget gives -EEXIST, -ENOENT, -EINVAL and -ENOSPC each exactly when it should, over the live sets, and otherwise a positive identifier |
| `Answers.SemGetEffect` | src/sem_store.c:173-245 | the identifier is live with the key; an existing set is left alone, a new one is pristine with the caller's identity and mode under an identifier that was dead, and nothing else changes |
| `Answers.SemGetAgain` | src/sem_store.c:180-198 | after a successful semget on a shared key the next one without IPC_EXCL returns the same identifier, whoever calls |
| `Answers.SetValAnswers` | src/sem_store.c:288-303 | SETVAL succeeds exactly for an existing semaphore and a value up to 32767, else -EINVAL or -ERANGE and no change; success sets value, pid and ctime, drops that semaphore's adjustments, and changes nothing else |
| `Answers.SetAllAnswers` | src/sem_store.c:326-345 | the same for SETALL on the whole set |
| `Answers.RemoveAnswers` | src/sem_store.c:247-276 | removal succeeds exactly for a live identifier, which dies with its adjustments and nothing else |
| `Answers.SetMetaAnswers` | src/sem_store.c:384-403 | IPC_SET succeeds exactly for owner or creator keeping the owner, with a group of the set or the caller and permission bits only, and changes group, mode and ctime |
| `Answers.AdjustAnswers` | src/sem_store.c:417-434 | a waiter count moves by one unless the semaphore does not exist or the count cannot be represented |
| `Answers.ExitAnswers` | src/sem_store.c:468-496 | exit reports a change exactly when the process had adjustments |
| `Answers.ReadAnswers` | src/sem_store.c:278-324 | GETVAL, GETPID and GETALL read the semaphore or set named, or give -EINVAL, and change nothing |
| `Answers.StatAnswers` | src/sem_store.c:347-382 | STAT tells the set an identifier names; STAT_INDEX gives the identifier under which STAT tells the same |
| `Answers.InfoAnswers` | src/sem_store.c:436-466 | INFO tells the limits, the highest slot in use and the number of sets |
| `Answers.SemsTotal` | src/sem_store.c:443-450 | the total of semaphores INFO tells is zero for no sets and moves by exactly the slot that changes |
| `Observed.EventValue` | src/sem_store.c:278-631 | GETVAL after any event: the value written, the old value plus the list, the clamped restoration, or the old value |
| `Observed.EventPid` | src/sem_store.c:288-631 | the pid recorded after any event: the last to set, operate on or, by exiting, restore the semaphore |
| `Observed.EventTimes` | src/sem_store.c:288-631 | the operation time moves with successful lists and restoring exits, the change time with SETVAL, SETALL and IPC_SET |
| `Observed.RunPid` | src/sem_store.c:305-313 | after every run GETPID names the last process to have set the semaphore, operated on it, or restored it by exiting |
| `Sequential.BlockedExactly` | src/sem_store.c:536-559 | BLOCKED is returned if and only if the first operation that is not enabled may wait, with its semaphore and kind, and nothing changes |
| `Conservation.SemOpConserves` | src/sem_store.c:561-628 | a successful list moves value plus pending adjustments by exactly its operations without SEM_UNDO, and only the caller's adjustment moves |
| `Conservation.ExitConserves` | src/sem_store.c:468-496 | an exit changes value plus pending by exactly what clamping cuts off; it is conserved if and only if the restored value is in range |
| `Conservation.ClearedPending` | src/sem_store.c:124-134 | clearing undo entries zeroes the pending sums it names and keeps all others |
| `Conservation.SetValResets` | src/sem_store.c:288-303 | SETVAL resets value plus pending to the value written and leaves other semaphores' totals |
| `Conservation.SetAllResets` | src/sem_store.c:326-345 | SETALL resets the totals of its set to the values written and leaves other sets' totals |
| `Conservation.EventConserves` | src/sem_store.c:173-631 | every event other than its removal keeps a semaphore: a write sets its total to the value written, and any other event moves it by exactly the plain operations and by what clamping adds |
| `Conservation.RunConserves` | src/sem_store.c:173-631 | over every run that does not remove the set, with any writes and clamping exits, the total is the last value written, or the initial total, moved since by exactly the plain operations and by clamping |
| `Conservation.UnwrittenLedger` | src/sem_store.c:173-631 | while nobody writes over the semaphore that is the initial total plus the sum of all plain operations and all clamping |
| `CrashSafety.HeldAtMost` | src/sem_store.c:561-628 | under the discipline nobody holds more than the units missing from the semaphore |
| `CrashSafety.ExitNeverClamps` | src/sem_store.c:468-496 | under the discipline an exit never clamps and keeps the total |
| `CrashSafety.ExitReturnsUnits` | src/sem_store.c:468-496 | an exit returns exactly the units the process held and leaves everybody else's |
| `CrashSafety.EventCounted` | src/sem_store.c:173-631 | every disciplined event keeps value plus units held |
| `CrashSafety.CrashSafe` | docs/ARCHITECTURE.md:83-87 | in every state of every run whose successful operations keep the discipline, with any number of crashes, value plus units held is the initial count and nobody holds a negative number |
| `CrashSafety.SetValCounts` | src/sem_store.c:288-303 | SETVAL starts such a count with nobody holding anything |
| `CrashSafety.MutualExclusion` | docs/ARCHITECTURE.md:83-87 | a binary semaphore under the discipline has at most one holder, and then its value is zero |
| `Identifiers.EventGeneration` | src/sem_store.c:136-139 | once numbered, a slot's generation advances exactly on removals from it |
| `Identifiers.RunGeneration` | src/sem_store.c:136-139 | over every run the generation is the initial one advanced once per removal, modulo 32767 |
| `Identifiers.RemovedIdStaysDead` | src/sem_store.c:247-276 | a removed identifier is live again if and only if its slot is active and has been removed a multiple of 32767 times |
| `Identifiers.DeadIdRejected` | src/sem_store.c:74-84 | every call that names a dead identifier returns -EINVAL and changes nothing |
| `Identifiers.KeyedLookup` | src/sem_store.c:180-198 | semget on a shared key finds the one live set of that key |
| `Identifiers.KeyedIdStable` | src/sem_store.c:173-245 | over every run that does not remove the set, semget on its key keeps returning the same identifier |
| `UndoTable.Overwrite` | src/sem_store.c:601-628 | overwriting one table entry with a key unused elsewhere is a map update |
| `UndoTable.FreeCount` | src/sem_store.c:575-578 | free entries and map entries add up to the table size |
| `UndoTable.Deactivate` | src/sem_store.c:124-134 | deactivating selected entries removes exactly their keys from the map |
| `TableLemmas.CommitStep` | src/sem_store.c:601-628 | one turn of the commit loop keeps its invariant, including room for every entry still to be created |
| `TableLemmas.CommitEnd` | src/sem_store.c:601-628 | the finished commit loop has produced the specified undo map |
| `TableLemmas.PartialDone` | src/sem_store.c:468-496 | the finished restoration scan has produced the specified sets, whatever the order of table entries |
| `SemTable.Table.constructor` | src/sem_store.c:147-150 | a new store represents the empty store |
| `SemTable.Table.Find` | src/sem_store.c:74-84 | finds a slot exactly for live identifiers |
| `SemTable.Table.FindUndo` | src/sem_store.c:99-111 | the scan finds an entry exactly when the map has the key |
| `SemTable.Table.FindFree` | src/sem_store.c:113-122 | the first inactive entry, or none if all are active |
| `SemTable.Table.ClearUndo` | src/sem_store.c:124-134 | drops exactly the adjustments of the semaphore or set |
| `SemTable.Table.CountFree` | src/sem_store.c:575-578 | counts the entries the map leaves free |
| `SemTable.Table.GetAs` | src/sem_store.c:173-245 | refines the semget function, keeping the invariant |
| `SemTable.Table.Remove` | src/sem_store.c:247-276 | refines the removal function, keeping the invariant |
| `SemTable.Table.SetVal` | src/sem_store.c:288-303 | refines the SETVAL function, keeping the invariant |
| `SemTable.Table.SetAll` | src/sem_store.c:326-345 | refines the SETALL function, keeping the invariant |
| `SemTable.Table.SetMetadata` | src/sem_store.c:384-403 | refines the IPC_SET function, keeping the invariant |
| `SemTable.Table.AdjustWaitCount` | src/sem_store.c:417-434 | refines the waiter count function, keeping the invariant |
| `SemTable.Table.ProcessExit` | src/sem_store.c:468-496 | the in-place scan refines the order-free exit function |
| `SemTable.Table.CountRequired` | src/sem_store.c:579-599 | accepts exactly when all adjustments stay in range, and counts the entries to create |
| `SemTable.Table.FindOrClaim` | src/sem_store.c:601-620 | finds or claims the entry of a key; the out-of-space return inside the commit is unreachable |
| `SemTable.Table.AddAdjustment` | src/sem_store.c:601-628 | adds a delta to one adjustment and drops it at zero |
| `SemTable.Table.CommitUndo` | src/sem_store.c:601-628 | the commit loop produces the specified undo map and cannot fail half way |
| `SemTable.Table.TryOp` | src/sem_store.c:506-631 | refines the tryop function; on any failure both arrays are left exactly as they were |
| `SemTable.ValidateOps` | src/sem_store.c:516-522 | accepts exactly the lists whose operations are in range with known flags |
| `SemTable.SimulateOps` | src/sem_store.c:524-559 | the loop over a scratch copy computes the recursive simulation |
| `SemTable.UndoDeltas` | src/sem_store.c:561-573 | computes the net undo deltas, or stops exactly when some prefix leaves the range |
| `SemTable.MarkPids` | src/sem_store.c:601-608 | records the caller's pid on exactly the semaphores named |
| `Broker.StepValid` | src/broker_server.c:525-625 | every broker step keeps the store invariant |
| `WaiterList.List.constructor` | src/broker_server.c:305-315 | an empty list is well linked |
| `WaiterList.List.Enqueue` | src/broker_server.c:305-315 | appends a waiter at the tail, keeping the list well linked and in arrival order |
| `WaiterList.List.Locate` | src/broker_server.c:317-337 | finds a waiter and its predecessor, or reaches the end |
| `WaiterList.List.Unlink` | src/broker_server.c:317-337 | bypasses one node, moving head and tail where needed |
| `WaiterList.List.Remove` | src/broker_server.c:317-337 | removes exactly that waiter and keeps the order of the others; an absent waiter is ignored |
| `WaiterList.List.WakeAll` | src/broker_server.c:552-554 | a broadcast wakes every queued waiter |
| `WaiterList.List.PutToSleep` | src/broker_server.c:405-437 | puts exactly one waiter to sleep |
| `WaiterList.List.IsFirstForSet` | src/broker_server.c:339-352 | true exactly for a queued waiter with nobody ahead on the same set |
| `WatcherTable.Watchers.Watch` | src/broker_server.c:477-509 | the scan refines the watch function: already watched, full, failed, or first free slot taken |
| `Server.Server.constructor` | src/broker_server.c:196-264 | a new broker is the initial state of the transition system |
| `Server.Server.Execute` | src/broker_dispatch.c:260-333 | executes any call in place exactly as the call function says |
| `Server.Server.InspectSemaphore` | src/broker_dispatch.c:47-64 | GETVAL, GETPID, GETNCNT and GETZCNT read what the store function returns |
| `Server.Server.InspectSet` | src/broker_dispatch.c:79-217 | GETALL, STAT and STAT_INDEX read what the store function returns |
| `Server.Server.WaitCount` | src/sem_store.c:405-415 | the count, saturated at INT_MAX |
| `Server.Server.CountLimits` | src/sem_store.c:436-466 | the loop counts active sets and semaphores |
| `Server.Server.FinishWaiter` | src/broker_server.c:439-449 | unlinks the waiter, gives back its count and wakes everyone: the finish step |
| `Server.Server.Turn` | src/broker_server.c:560-625 | one turn of the waiting loop is the loop step |
| `Server.Server.Resume` | src/broker_server.c:560-625 | a return from the condition wait is the resume step |
| `Server.Server.Append` | src/broker_server.c:305-315 | queues a blocked request with its deadline |
| `Server.Server.Block` | src/broker_server.c:543-625 | counting in, queueing and the first turn are the block step |
| `Server.Server.Serve` | src/broker_server.c:525-625 | executing a request is the serve step |
| `Server.Server.WatchCaller` | src/broker_server.c:477-509 | watching the caller is the watch step |
| `Server.Server.Handle` | src/broker_server.c:627-676 | handling a request is the request step of the transition system |
| `Server.Server.ProcessGone` | src/broker_server.c:145-194 | the monitor's critical section is the process-gone step |
| `Server.ScanUndo` | src/broker_server.c:451-475 | the scan for SEM_UNDO finds one exactly when the list has one |
| `BrokerAnswers.TryOpApplied` | src/sem_store.c:601-628 | a successful list leaves each semaphore with the sum, takes what it did with SEM_UNDO off the caller's adjustments, and changes no other value or adjustment |
| `BrokerAnswers.WaitAnswers` | src/broker_server.c:589-624 | a waiter is dropped exactly when its wait fails or its peer is gone; answered -EAGAIN once its deadline has passed; else answered exactly when first for its set and not blocked, with the result its list deserves; zero means applied, anything else untouched |
| `BrokerAnswers.RequestAnswers` | src/broker_server.c:525-557 | a request whose caller cannot be watched is answered that error and does nothing; any other that is not blocked is answered the call's own reply and has the call's own effect |
| `BrokerAnswers.WatchAnswers` | src/broker_server.c:477-509 | watching succeeds for a watched process, fails with -ENOSPC exactly when no watcher is free, and wakes everyone exactly when a watcher starts |
| `BrokerAnswers.BlockedRequestWaits` | src/broker_server.c:559-596 | a blocked request is never answered; it is queued last, for its own list, caller and deadline, against the first operation that cannot proceed |
| `BrokerAnswers.ExitObserved` | src/broker_server.c:145-168 | an observed exit frees the watcher, gives every semaphore back what the process had pending within 0..32767, drops its adjustments only, and wakes the queue exactly when there were any |
| `Wakeups.QuietCall` | src/broker_server.c:291-303 | a call after which the broker does not broadcast unblocks no waiting list |
| `Wakeups.QuietExit` | src/sem_store.c:468-496 | an exit that reports no change has changed nothing |
| `Wakeups.StepAlert` | src/broker_server.c:525-676 | every step keeps: a sleeping, unwoken waiter that is first for its set is blocked in the current store |
| `Wakeups.NoLostWakeup` | docs/ARCHITECTURE.md:89-95 | the same along every run from a state that has it |
| `Wakeups.NoLostWakeupFromStart` | docs/ARCHITECTURE.md:89-95 | in every run of a new broker no wake-up is lost |
| `Cascade.RetryDecreases` | src/broker_server.c:560-625 | a turn of a woken waiter, whatever its outcome, shortens the queue, or keeps it and puts one more waiter to sleep |
| `Cascade.CascadeTerminates` | src/broker_server.c:560-625 | every run of turns of woken waiters, whether they retry, fail, expire or find their peer closed, is bounded by a function of the queue |
| `Cascade.RestMeansBlocked` | src/broker_server.c:560-625 | at rest the first waiter of every set is blocked, and no waiter is left on a removed set |
| `Cascade.Drains` | src/broker_server.c:560-625 | from every reachable state and at every clock some schedule of ordinary turns reaches rest |
| `Cascade.SpuriousWakeupIsIdle` | src/broker_server.c:405-437 | a spurious or timer wake-up of an unwoken waiter changes nothing |
| `WaitCounts.CountOut` | src/broker_server.c:439-449 | counting out a queued waiter keeps counts and queue in agreement |
| `WaitCounts.CreationAgrees` | src/sem_store.c:205-245 | creating a set keeps the agreement if and only if no waiter is still queued for a semaphore of the identifier issued |
| `WaitCounts.StepAgrees` | src/broker_server.c:525-676 | a step keeps counts equal to queued waiters, reason by reason, if and only if it does not issue an identifier still waited on |
| `WaitCounts.AgreeReported` | src/sem_store.c:405-415 | where counts and queue agree, GETNCNT answers the waiters queued for an increase and GETZCNT those queued for zero, cut at INT_MAX |
| `WaitCounts.CountsAgree` | docs/ARCHITECTURE.md:93-95 | stored counts equal the queue in all states of a run if and only if the run issues no identifier that is still waited on, and then GETNCNT and GETZCNT answer the numbers of waiters queued for those reasons |
| `BrokerStore.BrokerRefines` | src/broker_server.c:525-676 | the store after any broker run is the store after the corresponding run of store events |
| `BrokerStore.BrokerCrashSafe` | docs/ARCHITECTURE.md:47-55 | crash safety holds for every broker run |
| `BrokerStore.BrokerConserves` | docs/ARCHITECTURE.md:47-55 | undo conservation holds for every broker run that does not remove the set |
| `BrokerStore.StepQueue` | src/broker_server.c:525-625 | a step queues only waiters that were queued before or wait on a live set |
| `BrokerStore.FewRemovalsNeverReissue` | src/sem_store.c:136-139 | with fewer than 32767 removals in all, the identifiers a run issues are distinct and were never issued before it, so none is reissued while waited on |
| `BrokerStore.CountsAgreeFromStart` | docs/ARCHITECTURE.md:93-95 | from an empty broker, GETNCNT and GETZCNT answer the queue in every run with fewer than 32767 removals |
| `Reissue.ReissueBreaksCounts` | src/sem_store.c:136-139 | for every n, a run of a new broker with n removals in which a waiter is counted wrongly if and only if n is a multiple of 32767, so that bound is tight |
| `Fifo.StepOrder` | src/broker_server.c:305-352 | every step keeps tickets in order along the queue and completions on a set ahead of those still waiting on it |
| `Fifo.FifoCompletion` | docs/ARCHITECTURE.md:89-93 | in every run, queued requests on one set complete by retry in arrival order |
| `Fifo.FifoFromStart` | docs/ARCHITECTURE.md:89-93 | the same in every run of a new broker |
| `Overtaking.ServedExactly` | src/broker_server.c:544-625 | a new list is answered at once if and only if it is not blocked, whoever is queued |
| `Overtaking.HandledExactly` | src/broker_server.c:525-625 | the same for a whole request, where a list with SEM_UNDO is also answered when its caller cannot be watched |
| `Overtaking.OvertakesExactly` | src/broker_server.c:544-557 | arrival order on a set is broken by a new request if and only if somebody is queued for the set and the request's own list is not blocked |
| `Overtaking.OvertakenHead` | src/broker_server.c:544-606 | in every reachable state the first waiter of a set is blocked or has been woken and awaits its turn; at rest it is blocked |
| `Scenarios.EnabledWaiterOvertaken` | src/broker_server.c:544-557 | a concrete run of a new broker in which an enabled, woken waiter is overtaken |
| `UndoWatch.TryOpKeys` | src/sem_store.c:601-628 | only a successful list with SEM_UNDO adds adjustments, for its caller and its set |
| `UndoWatch.LateCovered` | src/sem_store.c:601-628 | a successful list of an unwatched process keeps every adjustment watched if and only if its SEM_UNDO operations cancel out |
| `UndoWatch.WatchWorks` | src/broker_server.c:477-509 | watching keeps watchers distinct, loses none, and on success the process is watched |
| `UndoWatch.StepOrphans` | src/broker_server.c:145-676 | a step leaves each pending adjustment with a watched process if and only if it is not the late success of an unwatched waiter with net undo, which leaves an adjustment without a watcher |
| `UndoWatch.NoOrphanedUndo` | docs/ARCHITECTURE.md:48-55 | every process with pending adjustments has exactly one watcher in all states of a run if and only if no waiter of an unwatched process succeeds with net undo |
| `UndoWatch.ClosedPeersNeverLate` | src/broker_server.c:589-596 | that never happens in runs in which a process observed to have exited has closed its connections |
| `UndoWatch.NoOrphanedUndoFromStart` | docs/ARCHITECTURE.md:48-55 | both for every run of a new broker |
| `Scenarios.UndoComesLate` | src/broker_server.c:589-606 | a concrete run, with a connection kept open by a forked child, that orphans an adjustment |
| `Timeouts.PackExact` | integration/termux-glibc/overlay/tgcompat-glibc.c:246-276 | a well-formed timeout is rejected exactly when packing would overflow, and division recovers an accepted one |
| `Timeouts.DeadlineExact` | src/broker_server.c:377-403 | the deadline is the start plus the timeout, normalised, exactly when it does not saturate |
| `Timeouts.SleepTarget` | src/broker_server.c:405-437 | a waiter sleeps until its deadline or the next peer check, whichever is earlier |
| `Timeouts.TimeoutExact` | src/broker_server.c:366-437 | a timeout is reported exactly once the requested time has passed, or at the last representable nanosecond if the deadline saturates, which it does exactly when the seconds overflow |
| `Wire.PutU16` | src/protocol.c:7-11 | writes the little-endian bytes and nothing else |
| `Wire.PutU32` | src/protocol.c:13-19 | writes the little-endian bytes and nothing else |
| `Wire.PutU64` | src/protocol.c:31-35 | writes the little-endian bytes and nothing else |
| `Wire.ReadU16` | src/protocol.c:42-45 | reading where a value was written returns it |
| `Wire.ReadU32` | src/protocol.c:47-51 | reading where a value was written returns it |
| `Wire.ReadU64` | src/protocol.c:63-67 | reading where a value was written returns it |
| `Layout.HeaderVector` | tests/protocol.c:30-34 | the 24 bytes of a sample header |
| `Layout.HeaderLayout` | src/protocol.c:96-117 | every header field at its offset |
| `Layout.HeaderStatusExactly` | src/protocol.c:74-94 | exactly which headers are valid, and which error the others have |
| `Layout.HeaderRefused` | src/protocol.c:119-145 | a header is refused exactly when it is not the encoding of a valid one |
| `Layout.RequestLayout` | src/client.c:148-408 | opcode, length and every field of every request at its offset |
| `Layout.PayloadLayout` | src/broker_dispatch.c:79-258 | length and every field of every response payload at its offset |
| `Layout.ResponseMatches` | src/broker_dispatch.c:19-28 | a response carries its request's opcode and id, its result, and no payload on error |
| `Layout.AcceptedMatches` | src/client.c:93-101 | the client accepts nothing with another version, kind, opcode or request id, an error with a payload, or a payload of the wrong length |
| `Layout.RequestCanonical` | src/broker_dispatch.c:30-333 | every accepted payload is the encoding of the call decoded from it |
| `Layout.DecodedExactly` | src/broker_dispatch.c:30-333 | a request is refused exactly when no call a client may send encodes to it |
| `Layout.RefusedErrors` | src/broker_dispatch.c:30-333 | exactly which error a refused request gets |
| `Layout.DispatchRefuses` | src/broker_dispatch.c:260-333 | a refused request is answered its error and changes nothing; a packet that is no request, or has no caller, is not answered |
| `Wire.HeaderRoundTrip` | src/protocol.c:74-145 | a valid header survives encoding and decoding |
| `Wire.HeaderCanonical` | src/protocol.c:119-145 | an accepted header encodes back to the same 24 bytes, so decoding is injective |
| `Wire.EncodeHeader` | src/protocol.c:96-117 | writes the header bytes in place, or reports the error and writes nothing |
| `Dispatcher.ReplyShape` | src/broker_dispatch.c:30-333 | each reply's payload kind and length fit its call, and errors carry none |
| `Dispatcher.UndoDetection` | src/broker_server.c:451-475 | the broker's own scan for SEM_UNDO agrees with the dispatcher's decoding of every accepted request |
| `Dispatcher.ReadOps` | src/broker_dispatch.c:124-165 | decodes every operation record, refusing exactly when a reserved field is not zero |
| `Dispatcher.WriteValues` | src/broker_dispatch.c:79-102 | writes the count and every value of a GETALL response |
| `Client.RequestRoundTrip` | src/client.c:111-287 | the dispatcher decodes every request the client encodes to the same call |
| `Client.MetadataRoundTrip` | src/broker_dispatch.c:167-183 | the client reads back the metadata the broker encodes |
| `Client.ReplyRoundTrip` | src/client.c:65-408 | the client accepts every direct reply and reads exactly that reply, except that it refuses a blocked list |
| `Client.ReasonReply` | src/broker_server.c:559-577 | the broker reads the reason of a blocked list back from the dispatcher's response |
| `Client.WireTransparent` | src/client.c:65-408 | encoding any call, dispatching it and decoding the response has the effect and the result of the direct store call, except that semget flags outside the mask are refused with -EINVAL and a blocked list changes nothing and carries its reason to the broker |
| `Replies.RequestAnswerAccepted` | src/broker_server.c:525-676 | whatever the broker answers to a new request passes the client's checks and is read exactly |
| `Replies.WaiterAnswerAccepted` | src/broker_server.c:560-625 | so does the answer to a waiting request, by retry or by timeout |
| `Replies.TimeoutEndToEnd` | integration/termux-glibc/overlay/tgcompat-glibc.c:246-276 | every timeout accepted by the C library crosses the wire unchanged, and its waiter expires exactly when that much time has passed, or at the last representable nanosecond if the deadline saturates |
| `Transport.ReceiveExact` | src/transport.c:218-241 | fills the buffer exactly when reads behaving as scripted carry that many bytes, and otherwise gives exactly the end of file, the interruption or the error they meet; end of file is clean only before the first byte |
| `Transport.SendExact` | src/transport.c:275-293 | delivers exactly the bytes the writes carry and returns their result: all, or a prefix with -EPIPE for a stuck write or the error of a failing one |
| `Transport.ParseSerialized` | src/transport.c:243-312 | a serialized packet is read back with the rest of the stream untouched |
| `Transport.ParseTruncated` | src/transport.c:243-262 | a stream that stops inside a packet is a protocol error |
| `Transport.Receive` | src/transport.c:243-262 | reads the packet at the front of the stream, or gives exactly the error of the header, of the payload or of the reads |
| `Transport.SendPacket` | src/transport.c:295-312 | sends the serialization of a packet, or nothing if its header is invalid |
| `Transport.SendAll` | src/transport.c:275-312 | any number of packets over short and interrupted writes puts their serialization on the stream |
| `Transport.ReceiveAll` | src/transport.c:218-262 | a stream of packets that may stop inside one more, over short and interrupted reads, gives exactly the whole packets, and then a clean end or, if one was cut, -EPROTO |
| `Client.WriteOp` | src/client.c:278-284 | writes the eight bytes of one operation record in place |
| `Client.WriteSemOps` | src/client.c:260-287 | the prefix and the loop fill the buffer with the encoded semop or semtimedop request |
| `Client.WriteSetAll` | src/client.c:244-258 | the loop fills the buffer with the encoded SETALL request |
| `Client.ReadValues` | src/client.c:238-240 | the loop reads the values of a payload; the dispatcher's SETALL loop is the same |
| `Client.ReadLimits` | src/client.c:404-406 | the loop reads the limits of an INFO response |
| `Session.Session.Close` | src/client.c:37-47 | closing drops the connection and its owner and keeps the request id |
| `Session.Session.EnsureConnection` | src/client.c:49-63 | the cached connection is used only by the process that opened it; otherwise it is dropped and replaced, or the call fails without one |
| `Session.Session.Exchange` | src/client.c:65-102 | success sends exactly the newly numbered request and reads exactly the next packet, which matches it; every failure leaves no connection, and over a working socket the error is -ECONNRESET, -EPROTO or that of the packet |
| `Session.Session.Perform` | src/client.c:111-408 | a reply is what the client's checks make of the packet read for this request; over a working socket the outcome is determined by the bytes that arrive; a malformed response closes the connection |
| `Correlation.ExchangeSteps` | src/client.c:65-102 | the effect of an exchange on the client structure is that of the send, answer and read steps, or of the failing steps |
| `Correlation.ReadInStep` | src/client.c:65-102 | the next response a client reads answers the request it has pending |
| `Correlation.StepInStep` | src/client.c:37-102 | sending, answering, failing, reconnecting, closing and forking at any time keep client and connection in step |
| `Correlation.RequestIdsDistinct` | src/client.c:77-81 | request ids are never zero, and a client uses one again only after all the others |
| `Correlation.ForeignRefused` | src/client.c:93-101 | in any state a response to another request is refused and the connection dropped |
| `Correlation.ResponsesCorrelate` | src/client.c:37-102 | over every run, any accepted response answers that very request, and none is refused as uncorrelated |
| `Correlation.ResponsesCorrelateFromStart` | src/client.c:37-102 | the same for every run that starts with no client and no connection |

## Left out

- Socket creation and permissions, peer credentials, pidfd and /proc probing, and thread start-up: they become parameters (the caller's pid, a watch error, whether the peer is closed).
- Thread primitives: a step is one critical section between taking and releasing the mutex or waiting on the condition, and the condition variable is a `woken` flag per waiter.
- Fairness: `Cascade.Drains` shows that some schedule of woken waiters reaches rest and `Cascade.CascadeTerminates` that every one ends, but no scheduler is modelled.
- Clocks: each step takes its times as parameters; wall-clock reads within one store call are one value.
- Memory: allocation failure and NULL arguments are not modelled, and the size of a set record reported by IPC_INFO is the constant of a 64-bit build.
- After giving up on a closed peer the worker still attempts to send the blocked response; the model drops the request.
- A broker whose monitor or worker stops after a mutex or clock error.
- UndoWatch.NoOrphanedUndo: pids are not reused while watched; a watcher that outlives its process by reuse is not modelled.
- Correlation.ResponsesCorrelate: process ids are not reused while a client structure or connection records them; the code relies on it.
- CrashSafety.CrashSafe: for semaphores on which every successful operation carries SEM_UNDO and nobody releases more than they hold; without that, `Conservation.ExitConserves` states exactly what clamping loses.
- One client structure shared between threads without a lock: `Session` is one call at a time, as the source requires of its callers.
- The LD_PRELOAD shims, the command line tools, the rest of the glibc overlay, and the broker's connection limit: they only forward or configure what is modelled.
