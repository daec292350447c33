# routn: a verified model

routn is a C++ fiber server framework. This project models the parts of it that carry invariants and
proves what those parts are for. Modules follow the source's components; where the source changes
objects step by step, the model has classes with methods that do the same, each tied by its contract to a
function of the old state, and the properties are proved about those functions over all inputs and runs.

| component | files |
|---|---|
| semaphore of fibers | `FiberSync.dfy` |
| scheduler: queue and steps, safety, completeness, runs | `Scheduler.dfy`, `SchedulerSafety.dfy`, `SchedulerDrain.dfy`, `SchedulerRuns.dfy`, `SchedulerSteps.dfy` |
| worker group: steps and permits, barriers and progress, one fiber alone | `WorkerGroup.dfy`, `WorkerProgress.dfy`, `WorkerSequential.dfy`, `Multisets.dfy` |
| byte array, its buffers and flat view, integer and string encodings | `ByteArray.dfy`, `ByteBuffers.dfy`, `FlatBuffer.dfy`, `Codec.dfy`, `TypedValues.dfy`, `Bytes.dfy` |
| streams and Rock frames | `Streams.dfy`, `StreamFaults.dfy`, `RockModel.dfy`, `RockFrames.dfy`, `RockProtocol.dfy` |
| timers | `TimerModel.dfy`, `TimerRuns.dfy`, `TimerReadings.dfy`, `Timer.dfy` |
| event table of the I/O manager | `EventTable.dfy`, `EventTableRuns.dfy`, `IoManager.dfy` |
| name-server registry | `NameServer.dfy`, `NameServerModule.dfy`, `NameServerOverlap.dfy` |
| LRU cache | `LruModel.dfy`, `LruCache.dfy` |
| WebSocket messages | `WebSocket.dfy`, `WebSocketLengths.dfy`, `WSSession.dfy` |
| URL and query strings | `UrlCodec.dfy`, `QueryString.dfy` |
| optional values, used throughout | `Wrappers.dfy` |

`dafny verify dfyconfig.toml` checks all of it.

## How the source is read

- A run of the scheduler is a sequence of steps; one step is one section under the queue or semaphore lock, or
  one context switch, or one update of an atomic counter. Workers, wakers and outside callers interleave
  freely. The status assertions of the source are not guards of the steps, so that they can be proved. The scan
  of the queue reads the statuses one by one, so a step may take any entry that is free, past fibers that may
  have been running when they were looked at.
- The stream is the bytes the peer has sent; a single read or write handles any part of what is asked for.
- An operation on timers has a time, at which its critical section runs, and a reading of the clock, which for
  `addTimer` and `listExpiredCb` may be older by any amount.
- epoll is a map from descriptor to mask that may refuse any call. The clock, random keys and uninitialised
  memory are parameters.
- Integers are unbounded except where the source's width matters; there the wrap-around is written out.

## Where the code does less than it means to

The model follows the code. Where one of these breaks a property, a lemma gives failing inputs, and the main
result is an equivalence with a condition a caller can check.

- A read of nothing with the position at capacity dereferences the null cursor (`src/ByteArray.cpp:473-474`), so
  a last empty string in whole chunks cannot be read back, and a Rock response with an empty body that fills
  whole chunks of 4096 bytes crashes its receiver.
- The three-argument `getReadBuffers` cuts the length by the array's own position (`src/ByteArray.cpp:721`), not by the one given.
- `EncodeZigzag64` returns 32 bits, so `writeInt64` and `readInt64` agree exactly on 32-bit integers.
- The guard `(!events) & event` of `delEvent` and `cancelEvent` (`src/IoManager.cpp:213`, `250`) does not test the
  bit: with only the other event registered, the first miscounts and the second aborts.
- `idle` narrows the mask by the reported events but fires all of them (`src/IoManager.cpp:425-432`).
- A batch takes all its permits before anything is scheduled (`src/Worker.cpp:28-33`); a batch longer than the group is
  wide never starts, and batches that fit can deadlock, as can any callback that comes beside a `waitAll`. A second
  `waitAll` returns at once, whether or not the first one has its permits.
- `listExpiredCb` reads the clock before it gets its lock (`src/Timer.cpp:152`), so a reading may lie before the last
  one although the clock never goes back; and `detectClockRollover` subtracts an hour in unsigned arithmetic
  (line 209), so in the first hour of the clock any such reading counts as a rollover. Then timers fire early, and
  a wake-up can be lost.
- A single read or write that fails returns minus one, which `readFixSize` and `writeFixSize` store in an unsigned
  length (`src/streams/Stream.cpp:24`): the loop goes on one byte further back.
- `set` takes its lock only to read the old session and again to store the new one; calls for one stream that
  overlap can leave the index without a session to it.
- Two sessions of one node identity share index entries, so one can take entries away from the other; an address
  respelled is shown only with a changed weight; malformed addresses pass the check and share one identity.
- WebSocket frames without payload end the connection, on either side, and frames from 65536 bytes on carry an
  uninitialised length (`src/http/WSSession.cpp:228`). Whether the sum of lengths overflows 64 bits is not checked either
  (line 161); what C++ does then is undefined, and so is the outcome in the model.
- The comment at `src/Util.cpp:347` lists the unreserved bytes without the equals sign, which the table at line 307 has.
- Query keys are compared by `strcasecmp`, so case and everything behind a NUL are ignored, and the first pair of a key stays.

## Model

| member | source | states |
|---|---|---|
| `FiberSync.FiberSemaphore.constructor` | `src/FiberSync.cpp:19-21` | A new semaphore has the given permits and no waiters. |
| `FiberSync.FiberSemaphore.TryWait` | `src/FiberSync.cpp:27-37` | Takes a permit exactly when there is one, and never parks. |
| `FiberSync.FiberSemaphore.Wait` | `src/FiberSync.cpp:39-50` | Takes a permit, or parks the caller at the back of the queue and tells it to yield; nothing else changes. |
| `FiberSync.FiberSemaphore.Notify` | `src/FiberSync.cpp:52-61` | Hands the longest waiter to its scheduler, or else returns a permit; never both. |
| `FiberSync.FiberSemaphore.NotifyAll` | `src/FiberSync.cpp:63-69` | Hands all waiters over in the order of their arrival and adds no permit. |
| `FiberSync.DoKeepsBalance` | `src/FiberSync.cpp:27-69` | One operation keeps: nobody waits while a permit is free, permits are conserved, and those parked are those woken followed by those waiting. |
| `FiberSync.DoAllKeepsBalance` | `src/FiberSync.cpp:27-69` | Any run of operations keeps it. |
| `FiberSync.SemaphoreRun` | `src/FiberSync.cpp:19-69` | From construction on, over every run: waiters imply a zero count; initial permits plus wake-ups issued equal the count plus the grants; waiters are woken in exactly the order in which they parked. |
| `FiberSync.SemaphoreAnswers` | `src/FiberSync.cpp:27-69` | At every point of every run: what each of the four operations answers and leaves behind, written out on the count and the queue. |
| `Scheduler.FirstTaken` | `src/Scheduler.cpp:168-188` | Against one reading of the statuses: the entry found is bound to nobody or to this worker and its fiber is not running; every entry before it, or every entry if none is found, is bound to another worker or resumes a running fiber. |
| `Scheduler.RunQueue.ScheduleNoLock` | `src/Scheduler.h:79-89` | Appends the entry; a tickle is due exactly when the queue was empty. |
| `Scheduler.RunQueue.TakeFirst` | `src/Scheduler.cpp:164-189` | The in-place scan unlinks exactly the first entry that is bound to nobody or to this worker and whose fiber is not running, and leaves the others in order; all it passed over is bound to others or running; a tickle is due exactly when an entry bound to another worker was stepped over. |
| `SchedulerSafety.StepKeeps` | `src/Scheduler.cpp:161-243` | Every step of every worker, waker and outside caller keeps: no two workers hold one fiber, and each fiber outside its worker is with one waker at most. |
| `SchedulerSafety.TakeKeeps` | `src/Scheduler.cpp:178-187` | Taking an entry whose fiber is not running never takes a fiber that another worker holds, even if it was queued before it had switched out. |
| `SchedulerSafety.SettleKeeps` | `src/Scheduler.cpp:198-225` | What follows the switch back (requeue, hold, recycle) gives the fiber to nobody else; HOLD is set only here. |
| `SchedulerSafety.WaitKeeps` | `src/FiberSync.cpp:39-50` | Parking at a semaphore while still running keeps the invariant. |
| `SchedulerSafety.NotifyKeeps` | `src/FiberSync.cpp:52-61` | So does waking a fiber that may not have switched out yet. |
| `SchedulerSafety.BeginCallKeeps` | `src/Scheduler.cpp:207-214` | So does starting a callback on a new or a recycled fiber. |
| `SchedulerSafety.BeginFiberKeeps` | `src/Scheduler.cpp:195-197` | So does resuming a fiber. |
| `SchedulerSafety.SwitchToKeeps` | `src/Scheduler.cpp:263-272` | So does queueing oneself for another worker and yielding. |
| `SchedulerDrain.StepComplete` | `src/Scheduler.cpp:161-251` | No step loses a fiber: whatever has not ended is held by a worker, or queued, or parked at a semaphore, or with a waker, or recycled; and runs only on a worker. |
| `SchedulerDrain.SettleComplete` | `src/Scheduler.cpp:198-225` | In particular not the steps after the active count has been lowered. |
| `SchedulerRuns.RunIsSound` | `src/Scheduler.cpp:151-251` | Safety, completeness and the two counters hold in every state of every run. |
| `SchedulerRuns.StepTallied` | `src/Scheduler.cpp:161-243` | Every step keeps the active and the idle count equal to the number of workers in those phases, and the number of started plus queued plus taken callbacks equal to the number posted. |
| `SchedulerRuns.NoFiberRunsTwice` | `src/Fiber.cpp:162-175` | In every reachable state no two workers hold the same fiber, and no assertion about the status fails: not the one of swapIn, not that of YieldToHold, not that of reset. |
| `SchedulerRuns.ParkedFiberHasOneWaker` | `src/FiberSync.cpp:39-61` | A parked fiber is in exactly one place from which it can be woken, and named there once. |
| `SchedulerRuns.StoppingMeansQuiet` | `src/Scheduler.cpp:247-251` | When stopping() answers yes no worker is between taking an entry and lowering the active count. |
| `SchedulerRuns.LeftoversAreRunning` | `src/Scheduler.cpp:166-189` | Of the entries bound to no worker, one that finds nothing leaves only fibers that another worker still holds. |
| `SchedulerRuns.SomeoneStillScans` | `src/Scheduler.cpp:226-242` | As long as the queue holds an entry bound to no worker, some worker will scan again. |
| `SchedulerRuns.RunDrains` | `src/Scheduler.cpp:161-251` | This is kept over every run without outside scheduling after stop, pinned entries or not. |
| `SchedulerRuns.ShutdownLeavesPinned` | `src/Scheduler.cpp:161-251` | Shutdown in general: once every worker has left, only entries bound to a worker can be left over; every posting has been started or is one of them, and every fiber is at rest or is one of them. |
| `SchedulerRuns.ShutdownDrains` | `src/Scheduler.cpp:161-251` | Shutdown drains, if nothing is bound to a worker: once every worker has left run, the queue is empty, every posted callback has been started exactly as often as posted, and every fiber has ended, is recycled, or is still parked; none is lost. |
| `SchedulerRuns.ScheduledAsAsked` | `src/Scheduler.h:79-89` | What is scheduled goes to the end of the queue, bound to the worker asked for; fibers that yield as ready or are woken by a notification are bound to nobody. |
| `SchedulerRuns.TakesItsOwn` | `src/Scheduler.cpp:168-188` | In every run a worker takes only an entry bound to nobody or to itself whose fiber is not running, and passes over nothing but entries bound to others and fibers. |
| `SchedulerRuns.FindsNothingIff` | `src/Scheduler.cpp:168-188` | A scan finds nothing exactly if each entry is bound to another worker or its fiber runs. |
| `SchedulerRuns.BoundCallStartsThere` | `src/Scheduler.cpp:168-214` | Over every run a callback whose postings are all bound to one worker is started by that worker only. |
| `SchedulerSteps.TakesIff` | `src/Scheduler.cpp:168-188` | Which entries a scanning worker may take, in both directions. |
| `SchedulerSteps.SettleSets` | `src/Scheduler.cpp:198-225` | The status that each way of coming back leaves, and when the fiber for callbacks is kept. |
| `SchedulerSteps.LoopSets` | `src/Scheduler.cpp:195-214` | A fiber that is entered runs; no other step of the loop sets a status. |
| `SchedulerSteps.OtherSets` | `src/Fiber.cpp:211-263` | A fiber sets only its own status, and that of a fiber it makes; it ends as TERM, or as EXCEPT if it threw. |
| `SchedulerSteps.SemaphoresAreSound` | `src/FiberSync.cpp:19-69` | Over every run of the scheduler each semaphore is what its operations so far make of it, so permits are conserved and waiters stay in order. |
| `SchedulerSteps.StopIffAsked` | `src/Scheduler.cpp:90-113` | The flag is up exactly once stop has been called. |
| `SchedulerSteps.IdleEndsIff` | `src/Scheduler.cpp:143-251` | The idle fiber of a worker ends exactly when it goes on after stop with the queue empty and no worker active. |
| `SchedulerSteps.LeavesWhenQuiet` | `src/Scheduler.cpp:226-251` | A worker has left only if at some moment before stop was set, the queue empty and no worker active. |
| `SchedulerSteps.NeverStuck` | `src/Scheduler.cpp:162-243` | In every reachable state each worker that has not left has a step of its own to make. |
| `WorkerGroups.StepKeeps` | `src/Worker.cpp:26-54` | Every step of any number of callers of schedule, doWork and waitAll keeps permits conserved and the semaphore queue equal to the blocked callers. |
| `WorkerGroups.RunKeeps` | `src/Worker.cpp:16-54` | It holds in every state of every run. |
| `WorkerGroups.PermitsConserved` | `src/Worker.cpp:26-54` | Free permits, permits in the hands of callers and callbacks in flight always add up to the batch size; so at most that many callbacks are in flight. |
| `WorkerGroups.WaitAllIsABarrier` | `src/Worker.cpp:47-54` | Once the draining waitAll has its permits, and ever after, every callback that obtained a permit has finished and no other caller gets one. |
| `WorkerGroups.BatchLaunchesIff` | `src/Worker.cpp:26-34` | A batch can ever be handed to the scheduler if and only if it is no longer than the group is wide. |
| `WorkerProgress.BarrierHolds` | `src/Worker.cpp:47-54` | Once the draining caller owns all permits everything has finished, in this and every later state, and nobody else gets a permit. |
| `WorkerProgress.QuietIff` | `src/Worker.cpp:42-54` | Every callback that got a permit has finished exactly when all permits are free or with the draining caller. |
| `WorkerProgress.SecondWaitAllIff` | `src/Worker.cpp:47-54` | A waitAll that finds the flag set changes nothing; it returns with everything finished if and only if all permits are free or with the draining caller, and it is a barrier for every continuation if and only if that caller owns them all, one that is just being handed over included. |
| `WorkerProgress.HandedOverSuffices` | `src/Worker.cpp:47-54` | A run in which the draining caller has returned from no wait yet and a second waitAll is a barrier all the same. |
| `WorkerProgress.FirstWaitAllIsABarrier` | `src/Worker.cpp:47-54` | A waitAll that finds the flag clear is always a barrier once it has returned, in every continuation. |
| `WorkerProgress.FlagMeansDrain` | `src/Worker.cpp:48-49` | The flag is set exactly when a caller drains. |
| `WorkerProgress.SecondWaitAllDoesNotWait` | `src/Worker.cpp:47-54` | A run in which a second waitAll returns while a callback is in flight. |
| `WorkerProgress.StickIff` | `src/Worker.cpp:26-54` | For every width and every list of calls: some run making exactly these calls gets stuck if and only if there is a callback among them, and either a waitAll too or the batches could hold all permits with each lacking one. |
| `WorkerProgress.StuckForGood` | `src/Worker.cpp:26-54` | A stuck group stays stuck: in every continuation, later calls included, each blocked caller stays blocked and nothing is in flight any more. |
| `WorkerProgress.TwoBatchesDeadlock` | `src/Worker.cpp:26-34` | Two non-empty batches can block each other if and only if they have at least two callbacks more than the group is wide; so two that each fit can. |
| `WorkerProgress.SinglesNeverStick` | `src/Worker.cpp:36-45` | With single callbacks and nobody draining, a group of positive width never gets stuck. |
| `WorkerSequential.StickAloneIff` | `src/Worker.cpp:26-54` | One fiber that makes its calls one after the other gets stuck if and only if one of them brings a batch longer than the group is wide, or any callback after a waitAll. |
| `WorkerSequential.StuckAlone` | `src/Worker.cpp:26-54` | What is stuck then is the last call, and it is such a call. |
| `WorkerSequential.ServeOne` | `src/Worker.cpp:26-54` | Any other call returns, and all its callbacks end, with every permit back unless a waitAll has it. |
| `ByteArrays.ByteArray.constructor` | `src/ByteArray.cpp:35-43` | A new array is one chunk, empty, at position 0, with big-endian integers. |
| `ByteArrays.ByteArray.SetIsLittleEndian` | `src/ByteArray.cpp:61-71` | The byte order may change between values; what is held stays. |
| `ByteArrays.ByteArray.CursorFollowsPosition` | `src/ByteArray.cpp:408-559` | In every valid state the cursor is the node numbered position / baseSize, and null exactly when the position is at capacity. |
| `ByteArrays.ByteArray.CapacityIsProduct` | `src/ByteArray.cpp:611-649` | The capacity is the chunk size times the number of chunks. |
| `ByteArrays.ByteArray.AddCapacity` | `src/ByteArray.cpp:611-649` | Exactly as many chunks are linked as are needed for the room asked for; what is stored, the position and the size stay. |
| `ByteArrays.ByteArray.AppendNodes` | `src/ByteArray.cpp:633-643` | Links the given number of fresh nodes behind the last one. |
| `ByteArrays.ByteArray.Extend` | `src/ByteArray.cpp:625-648` | A cursor that had run off the end moves to the first new node. |
| `ByteArrays.ByteArray.WriteBody` | `src/ByteArray.cpp:435-458` | One turn of the writing loop keeps the splice of the bytes done so far. |
| `ByteArrays.ByteArray.WriteLoop` | `src/ByteArray.cpp:431-458` | The whole loop splices the bytes into the chain at the position, for any chunk size. |
| `ByteArrays.ByteArray.Write` | `src/ByteArray.cpp:423-464` | Writing over the chain is overwriting the flat buffer at the position and moving it on. |
| `ByteArrays.ByteArray.ReadLoop` | `src/ByteArray.cpp:473-500` | The reading loop copies out exactly the slice at the position. |
| `ByteArrays.ByteArray.Read` | `src/ByteArray.cpp:466-500` | Reading is taking a slice of the flat buffer; it throws exactly when fewer bytes are left, and dereferences null exactly for a read of nothing at capacity. |
| `ByteArrays.ByteArray.Seek` | `src/ByteArray.cpp:549-558` | The walk from the root ends at the node of the position, or behind the last node. |
| `ByteArrays.ByteArray.SetPosition` | `src/ByteArray.cpp:539-559` | Throws exactly beyond the capacity; otherwise the position is set, the size grows to it if needed, and nothing stored changes. |
| `ByteArrays.ByteArray.Clear` | `src/ByteArray.cpp:408-421` | Back to one chunk, empty, the byte order kept. |
| `ByteArrays.ByteArray.WriteFixed` | `src/ByteArray.cpp:74-136` | Fixed-width integers go out in the byte order chosen, whatever the host. |
| `ByteArrays.ByteArray.ReadFixed` | `src/ByteArray.cpp:252-305` | And come back as the flat buffer prescribes, with every way of failing. |
| `ByteArrays.ByteArray.WriteVarint` | `src/ByteArray.cpp:177-206` | The loop over the scratch array writes exactly the variable-length encoding. |
| `ByteArrays.ByteArray.ReadVarint` | `src/ByteArray.cpp:312-353` | The loop reads exactly one variable-length integer, cut to the width. |
| `ByteArrays.ByteArray.WriteInt32` | `src/ByteArray.cpp:172-175` | Zigzag, then the variable-length form. |
| `ByteArrays.ByteArray.WriteInt64` | `src/ByteArray.cpp:190-193` | The same through the encoder whose result is 32 bits wide. |
| `ByteArrays.ByteArray.ReadInt32` | `src/ByteArray.cpp:307-310` | The inverse of the above on the flat buffer. |
| `ByteArrays.ByteArray.ReadInt64` | `src/ByteArray.cpp:331-334` | Likewise for 64 bits. |
| `ByteArrays.ByteArray.WriteStringF` | `src/ByteArray.cpp:222-238` | The length, cut to its field, then the bytes. |
| `ByteArrays.ByteArray.ReadStringF` | `src/ByteArray.cpp:371-396` | A length, then that many bytes, or the failure of either. |
| `ByteArrays.ByteArray.WriteStringVint` | `src/ByteArray.cpp:240-244` | A variable-length length, then the bytes. |
| `ByteArrays.ByteArray.ReadStringVint` | `src/ByteArray.cpp:398-405` | Its reader. |
| `ByteBuffers.GetReadBuffers` | `src/ByteArray.cpp:681-717` | The buffers handed out hold, one after the other, exactly the slice at the position, as long as asked for or as there is. |
| `ByteBuffers.GetReadBuffersAt` | `src/ByteArray.cpp:719-762` | From another position on the length is still cut by the own position: the walk or the loop meets the null behind the last node exactly if that reaches beyond the capacity, and the slice is right whenever it lies within what is written. |
| `ByteBuffers.CoverGathers` | `src/ByteArray.cpp:698-715` | Any stretch of the chain, cut at the nodes, holds what the flat store has there. |
| `ByteBuffers.Collect` | `src/ByteArray.cpp:775-792` | The loop collects exactly the parts of the nodes that make up the stretch. |
| `ByteBuffers.GetWriteBuffers` | `src/ByteArray.cpp:764-795` | Room is made, nothing else changes for the users, and the buffers are exactly the room. |
| `ByteBuffers.Receive` | `src/streams/SocketStream.cpp:31-40` | Filling the buffers of the room in part and setting the position behind it is the same as writing. |
| `ByteBuffers.Scatter` | `src/streams/SocketStream.cpp:31-40` | A scattering read into the buffers is one splice into the flat store. |
| `ByteBuffers.Send` | `src/streams/SocketStream.cpp:47-56` | Sending a part of the buffers and setting the position is the same as reading. |
| `FlatBuffer.OverwrittenOn` | `src/ByteArray.cpp:435-458` | Overwriting piece by piece is overwriting at once. |
| `FlatBuffer.SpliceIsOverwrite` | `src/ByteArray.cpp:423-464` | A splice into the whole store, cut at the size, is an overwrite of what counts as written. |
| `FlatBuffer.PutAt` | `src/ByteArray.cpp:423-464` | Writing changes just the places from the position on, moves the position behind them, and the size with it. |
| `FlatBuffer.PutGrows` | `src/ByteArray.cpp:611-649` | The capacity grows by whole chunks, and by no more of them than it takes. |
| `FlatBuffer.TakeAt` | `src/ByteArray.cpp:466-500` | Reading gives the places from the position on; it fails exactly if there are too few, or for none at capacity. |
| `Codec.FixedBytesHostFree` | `src/ByteArray.cpp:84-136` | The bytes of a fixed-width integer are those of the order chosen on either kind of host. |
| `Codec.FixedRoundTrip` | `src/ByteArray.cpp:84-305` | Reading them back gives the number, also on a host of the other kind. |
| `Codec.VarintDecodes` | `src/ByteArray.cpp:312-353` | Reading a variable-length integer gives the number back and consumes its encoding, for every width it fits. |
| `Codec.VarintFitsScratch` | `src/ByteArray.cpp:177-206` | An encoding takes at most 5 bytes for 32 bits and 10 for 64, so the scratch arrays suffice. |
| `Codec.VarintLength` | `src/ByteArray.cpp:177-206` | A number below 2^(7k) takes at most k bytes. |
| `Codec.Zigzag32RoundTrip` | `src/ByteArray.cpp:138-165` | The 32-bit zigzag pair is the identity on all of int32, INT32_MIN included. |
| `Codec.Zigzag64RoundTripIff` | `src/ByteArray.cpp:150-170` | The 64-bit pair is the identity exactly on the 32-bit integers. |
| `Codec.FixedByteAt` | `src/ByteArray.cpp:74-136` | The byte of weight 256^i stands i places from the start, or from the end, by the chosen order. |
| `Codec.VarintAt` | `src/ByteArray.cpp:177-206` | Seven bits a byte, lowest first, the high bit on all but the last. |
| `Codec.VarintLengthIff` | `src/ByteArray.cpp:177-206` | At most k bytes exactly for numbers below 2^(7k). |
| `Codec.ZigzagIs` | `src/ByteArray.cpp:138-170` | Non-negative numbers are doubled, negative ones go to -2v - 1; cut to 32 bits by the 64-bit encoder. |
| `TypedValues.ValueReadsBack` | `src/ByteArray.cpp:74-405` | One value of any of the types, standing at the position, is read back exactly if it is codable, save an empty string that ends at capacity. |
| `TypedValues.AllReadBack` | `src/ByteArray.cpp:74-405` | The same for any list of values. |
| `TypedValues.RoundTripIff` | `src/ByteArray.cpp:74-405` | Writing any list of typed values, each in its own byte order, into a fresh array of any chunk size, setting the position to 0 and reading the same types in the same orders gives the same values and the position at the end, if and only if every value is codable and it is not so that the last one is an empty string and the bytes fill whole chunks. |
| `TypedValues.EmptyStringAtCapacity` | `src/ByteArray.cpp:466-474` | The smallest array that cannot be read back. |
| `TypedValues.PutSnug` | `src/ByteArray.cpp:611-649` | Appending keeps the capacity the least positive number of chunks that hold the bytes. |
| `TypedValues.OnTheWire` | `src/ByteArray.cpp:74-249` | How each type looks on the wire. |
| `Streams.Stream.ReadFixSize` | `src/streams/Stream.cpp:20-32` | However the single reads are cut, the next n bytes are taken, or all there is and zero is returned. |
| `Streams.Stream.ReadSome` | `src/streams/SocketStream.cpp:31-40` | One read into a byte array: room is made for all that is asked for, and what comes is written at the position. |
| `Streams.Stream.WriteSome` | `src/streams/SocketStream.cpp:47-56` | One write out of a byte array. |
| `Streams.Stream.ReadInto` | `src/streams/Stream.cpp:34-45` | The same into a byte array at any position: the bytes are written there. |
| `Streams.Stream.WriteFixSize` | `src/streams/Stream.cpp:47-59` | However the single writes are cut, all the bytes go out in order. |
| `Streams.Stream.WriteFrom` | `src/streams/Stream.cpp:61-71` | The same out of a byte array, whose position moves on; asked for more than is written there, it sends that and then fails. |
| `StreamFaults.FixedReadIff` | `src/streams/Stream.cpp:20-32` | For any results of the single reads, failures included: readFixSize that returns its length has taken just that many bytes if and only if no read failed, and then they are the next ones; each failure takes one byte more; only after a failure can a byte be stored outside the buffer. |
| `StreamFaults.ReadingTakes` | `src/streams/Stream.cpp:20-32` | The same from any point of the loop. |
| `StreamFaults.ByteIsLost` | `src/streams/Stream.cpp:24-30` | A failure between two reads: a byte is lost although the full length is returned. |
| `StreamFaults.StoredOutside` | `src/streams/Stream.cpp:24-30` | A failure at the start: the next byte is stored before the buffer. |
| `StreamFaults.ReadFixSize` | `src/streams/Stream.cpp:20-32` | The loop in unsigned 64-bit arithmetic does just this. |
| `RockModel.PutMsgIs` | `src/Protocol.cpp:13-75` | A message written into a fresh array is exactly its type, its fields and its body, with the position at the end. |
| `RockModel.PayloadReads` | `src/rpc/RockProtocol.cpp:62-178` | Each kind of message, standing at the position, is read back; the one exception is an empty body at capacity. |
| `RockModel.MsgReadsBack` | `src/rpc/RockProtocol.cpp:205-262` | A received message is parsed to the same message, or the null cursor is met, exactly when its body is empty and its bytes fill whole chunks. |
| `RockModel.OnlyResponsesHitTheEnd` | `src/Protocol.cpp:28-80` | Only a response can be of that family. |
| `RockModel.ReceivedFull` | `src/ByteArray.cpp:611-649` | The receiving array is full exactly when the message fills whole chunks. |
| `RockModel.MsgIs` | `src/Protocol.cpp:28-75` | The bytes of each kind of message: type 1, 2 or 3, the numbers, for a response its text, and the body behind four bytes of length. |
| `RockFrames.FrameReads` | `src/rpc/RockProtocol.cpp:189-303` | What becomes of one frame at the head of a stream, for every message and whatever follows: rejected for its length, crash, or the same message with the rest untouched. |
| `RockFrames.FrameIs` | `src/rpc/RockProtocol.cpp:180-290` | The eight bytes of a header: 12 21, version 1, no flag, the length with the most significant byte first. |
| `RockFrames.AnyFrame` | `src/rpc/RockProtocol.cpp:189-262` | For any bytes: a short header, a wrong magic or version, a length of zero or from the limit on, a short body, a compressed body, or a decoded one, and what is left of the stream in each case. |
| `RockFrames.NoMessage` | `src/rpc/RockProtocol.cpp:238-262` | A body of no known type is no message, nor is one that ends before its first number. |
| `RockFrames.StreamRoundTripIff` | `src/rpc/RockProtocol.cpp:189-303` | A stream that holds any list of uncompressed messages and then anything decodes to exactly the list and that rest, if and only if each is shorter than the limit and none is of the crashing family. |
| `RockFrames.AllFitIff` | `src/rpc/RockProtocol.cpp:209-214` | The condition is one on each message alone. |
| `RockFrames.AcrossHosts` | `src/rpc/RockProtocol.cpp:208-208` | The same between hosts of different byte order. |
| `RockFrames.FramesHostFree` | `src/rpc/RockProtocol.cpp:289-289` | No byte of a frame depends on the host that writes it. |
| `RockFrames.ResponseThatCrashes` | `src/rpc/RockProtocol.cpp:123-133` | A response whose receiver dereferences the null cursor: 4086 bytes of result text and no body. |
| `RockObjects.RockRequest.SerializeToByteArray` | `src/rpc/RockProtocol.cpp:62-72` | Appends the request, field by field. |
| `RockObjects.RockRequest.ParseFromByteArray` | `src/rpc/RockProtocol.cpp:74-85` | Sets the fields to what is read, or fails as the first failing read does. |
| `RockObjects.RockResponse.SerializeToByteArray` | `src/rpc/RockProtocol.cpp:111-121` | Appends the response, field by field. |
| `RockObjects.RockResponse.ParseFromByteArray` | `src/rpc/RockProtocol.cpp:123-133` | Likewise for a response. |
| `RockObjects.RockNotify.SerializeToByteArray` | `src/rpc/RockProtocol.cpp:156-166` | Appends the notify. |
| `RockObjects.RockNotify.ParseFromByteArray` | `src/rpc/RockProtocol.cpp:168-178` | Likewise for a notify. |
| `RockObjects.WriteBody` | `src/rpc/RockProtocol.cpp:25-28` | A body is a string behind a 32-bit length. |
| `RockObjects.ReadBody` | `src/rpc/RockProtocol.cpp:30-33` | Its reader. |
| `RockObjects.SerializeTo` | `src/rpc/RockProtocol.cpp:270-303` | Puts exactly the frame of the message behind what the stream holds, or hands its bytes to the compressor, exactly from the limit on. |
| `RockObjects.ParseFrom` | `src/rpc/RockProtocol.cpp:189-268` | Outcome and remaining stream are those of one frame, for every stream, well-formed or not, however it arrives. |
| `TimerModel.InsertedIsSorted` | `src/Timer.cpp:191-203` | Inserting by rank keeps the set strictly sorted by deadline and identity. |
| `TimerModel.ErasedIsSorted` | `src/Timer.cpp:29-80` | Erasing keeps it, and removes just the one. |
| `TimerObjects.Timer.Refresh` | `src/Timer.cpp:29-42` | The timer is taken out, re-timed outside the set and put back, as the model does; false exactly for a timer without callback. |
| `TimerObjects.Timer.Cancel` | `src/Timer.cpp:44-53` | The callback goes and the timer leaves the set. |
| `TimerObjects.Timer.Reset` | `src/Timer.cpp:55-80` | As the model; tells whether the sleeper has been woken. |
| `TimerObjects.TimerManager.AddTimer` | `src/Timer.cpp:108-115` | A new timer is armed; the sleeper is woken if it came to the front and nobody had been woken yet. |
| `TimerObjects.TimerManager.Arm` | `src/Timer.cpp:191-203` | Insertion with the test for the front and for the flag. |
| `TimerObjects.TimerManager.GetNextTimer` | `src/Timer.cpp:133-148` | Lowers the flag and returns none for an empty set, zero if the first deadline has come, and the time to it otherwise; NextExactly says what that means for all armed timers. |
| `TimerObjects.TimerManager.DetectClockRollover` | `src/Timer.cpp:205-214` | The comparison is computed with an unsigned difference; it is true exactly if the reading lies before the last one, and the last one is within an hour of the epoch or more than an hour ahead. |
| `TimerObjects.UnsignedRollover` | `src/Timer.cpp:208-210` | The difference that wraps around decides what the closed form says. |
| `TimerObjects.TimerManager.CountDue` | `src/Timer.cpp:164-171` | lower_bound at a probe, then past the equal deadlines, finds exactly the due timers, whatever the identity of the probe. |
| `TimerObjects.TimerManager.ListExpiredCb` | `src/Timer.cpp:150-189` | The objects after the call and the callbacks handed out are those of the model. |
| `TimerRuns.CancelIsGood` | `src/Timer.cpp:44-53` | The unchecked erase is always given a member, and removes just that. |
| `TimerRuns.RunIsGood` | `src/Timer.cpp:29-203` | In every state of every run the set is strictly sorted and a timer with a callback is in it. |
| `TimerRuns.FiredExactly` | `src/Timer.cpp:150-174` | The timers handed out are the due ones, each once, earliest deadline first, and a prefix of the set. |
| `TimerRuns.ExpireExactly` | `src/Timer.cpp:150-189` | Exactly the due timers are handed out in order of deadline (all of them after a rollover); recurring ones are re-armed at now + ms, others retired, the rest untouched; afterwards nothing armed is due, save a recurring timer of period zero. |
| `TimerRuns.ExpireSets` | `src/Timer.cpp:150-189` | The effect of one expiry on any one timer, written out on its record, rollover included. |
| `TimerRuns.NextExactly` | `src/Timer.cpp:133-148` | None exactly if nothing is armed; zero exactly if some armed timer is due; n > 0 exactly if every armed deadline is at least now + n and one is that. |
| `TimerRuns.AddSets` | `src/Timer.cpp:108-115` | A new timer is armed and due one period after the reading; the others stay. |
| `TimerRuns.AddWakes` | `src/Timer.cpp:191-203` | The sleeper is woken exactly if nobody has woken it yet and the new timer is the first of the set. |
| `TimerRuns.RefreshSets` | `src/Timer.cpp:29-42` | Succeeds exactly with a callback; the timer is then due one period from now and still armed, and nothing else changes. |
| `TimerRuns.CancelSets` | `src/Timer.cpp:44-53` | Succeeds exactly with a callback, which goes; the timer is armed no more, and nothing else changes. |
| `TimerRuns.ResetSets` | `src/Timer.cpp:55-80` | The same period without a new start changes nothing; otherwise it succeeds exactly with a callback, and the timer is due one new period from now, or from where the old period began. |
| `TimerRuns.ResetWakes` | `src/Timer.cpp:55-80` | Such a reset wakes the sleeper exactly as addTimer does. |
| `TimerRuns.ResetHeard` | `src/Timer.cpp:55-80` | Re-arming after a change of period wakes the sleeper or comes behind a timer that was armed already. |
| `TimerRuns.ExpireHeardIff` | `src/Timer.cpp:150-189` | An expiry loses no wake-up if and only if the flag is up or every recurring timer it takes out comes back no earlier than the moment up to which the sleeper sleeps by the last timeout it was given. |
| `TimerRuns.NoRolloverFits` | `src/Timer.cpp:150-189` | Without a rollover that is always so, however late the reading. |
| `TimerRuns.RunIsHeard` | `src/Timer.cpp:29-203` | As long as every expiry fits, no wake-up is lost; readings taken before the lock may be late by any amount. |
| `TimerRuns.NoLostWakeupIff` | `src/Timer.cpp:29-203` | With a clock that never goes back and late readings in addTimer and listExpiredCb: no wake-up is lost at any point of a run if and only if every expiry of it fits. |
| `TimerRuns.NoLostWakeup` | `src/Timer.cpp:133-203` | No lost wake-up, whatever the readings, as long as none is taken for a rollover: unless the sleeper has been woken, every armed timer is due no earlier than the moment up to which it sleeps by the timeout that the last getNextTimer returned. |
| `TimerRuns.InOrderNoRollover` | `src/Timer.cpp:205-214` | Readings in the order of the locks are never taken for a rollover. |
| `TimerRuns.RetiredForGood` | `src/Timer.cpp:29-80` | A timer without callback never fires again and never comes back. |
| `TimerRuns.CancelledForGood` | `src/Timer.cpp:44-53` | After a successful cancel the timer never fires, and no later cancel or refresh succeeds. |
| `TimerRuns.FiringIsRight` | `src/Timer.cpp:150-189` | Over every run, whatever the clock does: a one-shot timer fires at most once, and nothing fires early unless a rollover was detected. |
| `TimerReadings.EarlyIff` | `src/Timer.cpp:150-174` | An expiry hands out a timer before its deadline if and only if some armed timer is not due and the reading lies before the last one, which is within an hour of the epoch or more than an hour ahead. |
| `TimerReadings.NeverEarlyIff` | `src/Timer.cpp:150-189` | Over every run: nothing has fired early, by the readings or by the clock, if and only if no expiry met that condition. |
| `TimerReadings.GracePeriod` | `src/Timer.cpp:205-214` | Once an hour has passed since the epoch, readings that are up to an hour late neither lose a wake-up nor fire a timer early. |
| `TimerReadings.LateReadingIsFatal` | `src/Timer.cpp:152-183` | A run on a clock that never goes back in which a late reading fires a timer a second early and loses a wake-up. |
| `EventTable.RoomyFds` | `src/IoManager.cpp:147-158` | As the table starts with 32 contexts, growing it by half past the descriptor always makes room for that descriptor. |
| `EventTable.OneFdChanges` | `src/IoManager.cpp:143-316` | A change of one descriptor keeps the whole table consistent if it keeps that descriptor, the kernel entry and the tallies consistent. |
| `EventTableRuns.AddKeeps` | `src/IoManager.cpp:143-200` | addEvent keeps bits, contexts, counter and epoll mask in agreement; it aborts exactly for an event already registered, and changes nothing if the kernel refuses. |
| `EventTableRuns.DelKeepsIff` | `src/IoManager.cpp:202-237` | delEvent keeps them in agreement if and only if the event is registered, or nothing is, or the kernel refuses; for a registered event exactly its waiter is dropped. |
| `EventTableRuns.CancelKeepsIff` | `src/IoManager.cpp:239-272` | cancelEvent aborts on exactly the inputs on which delEvent miscounts, and otherwise schedules the waiter of a registered event once. |
| `EventTableRuns.CancelAllKeeps` | `src/IoManager.cpp:274-316` | cancelAll never aborts and schedules every waiter of the descriptor. |
| `EventTableRuns.DispatchKeepsIff` | `src/IoManager.cpp:396-433` | A turn of idle aborts if and only if it is told of an event that is no longer registered beside one that is; otherwise exactly the due waiters are scheduled and cleared. |
| `EventTableRuns.FreshReportsFit` | `src/IoManager.cpp:396-433` | A report within the mask the kernel was last given is always fit. |
| `EventTableRuns.DispatchFitsIff` | `src/IoManager.cpp:396-433` | When a turn of idle is safe, written out on the registered and the reported events. |
| `EventTableRuns.DispatchWakes` | `src/IoManager.cpp:396-433` | In a safe turn that the kernel accepts, the waiter for READ is scheduled exactly if READ is registered and has been reported or there was an error; then likewise that for WRITE; no other. Ok exactly if one of them is. |
| `EventTableRuns.AddReadStores` | `src/IoManager.cpp:143-200` | An accepted addEvent for READ stores the callback if there is one and the running fiber otherwise; all else stays. |
| `EventTableRuns.AddWriteStores` | `src/IoManager.cpp:143-200` | Likewise for WRITE. |
| `EventTableRuns.RemovesJustThis` | `src/IoManager.cpp:202-272` | delEvent and cancelEvent of a registered event clear its bit and context and leave the other event alone; only the latter schedules the waiter. |
| `EventTableRuns.CancelAllSchedules` | `src/IoManager.cpp:274-316` | cancelAll schedules the waiter for READ and then that for WRITE, as far as they are there, and leaves the context empty. |
| `EventTableRuns.SafeIffFits` | `src/IoManager.cpp:143-433` | A call is safe if and only if a condition on the table before it holds. |
| `EventTableRuns.RunSafeIff` | `src/IoManager.cpp:143-433` | A run never aborts and keeps the table consistent throughout if and only if every call fits the table it meets. |
| `EventTableRuns.ScheduledOnceOrDroppedOnce` | `src/IoManager.cpp:143-433` | In such a run each accepted registration is at every moment in exactly one of: registered, scheduled, dropped; and the counter is the number of set bits. |
| `EventTableRuns.NothingPending` | `src/IoManager.cpp:447-452` | In such a run a zero counter means that nothing is registered and the kernel watches nothing. |
| `EventTableRuns.DeletingTheOtherEventLosesOne` | `src/IoManager.cpp:213-236` | Deleting the event that is not registered brings the counter to zero while a fiber still waits. |
| `EventTableRuns.StaleReportAborts` | `src/IoManager.cpp:409-432` | A report of both events, good when made, is fatal after one of them has been cancelled. |
| `IoObjects.FdContext.TriggerEvent` | `src/IoManager.cpp:87-99` | The bit is cleared and the waiter swapped out to its scheduler. |
| `IoObjects.IOManager.AddEvent` | `src/IoManager.cpp:143-200` | The objects follow the model, with the outcome it prescribes. |
| `IoObjects.IOManager.DelEvent` | `src/IoManager.cpp:202-237` | Likewise. |
| `IoObjects.IOManager.CancelEvent` | `src/IoManager.cpp:239-272` | Likewise. |
| `IoObjects.IOManager.CancelAll` | `src/IoManager.cpp:274-316` | Likewise. |
| `IoObjects.IOManager.Dispatch` | `src/IoManager.cpp:396-433` | Likewise, for one report of epoll_wait. |
| `IoObjects.IOManager.ContextResize` | `src/IoManager.cpp:318-329` | The table gets the given size; contexts that were there stay, missing ones are created empty. |
| `NameServer.AddFinds` | `src/ns/NameServerProtocol.cpp:107-114` | Adding a node is seen under its domain, command and identity, and nowhere else. |
| `NameServer.DelFinds` | `src/ns/NameServerProtocol.cpp:121-131` | Deleting likewise; a command left without nodes goes too. |
| `NameServer.Recomputed` | `src/ns/NameServerModule.cpp:120-178` | The entry recomputed from the sessions is the node of a session that lists the pair under that identity, and none exactly if there is no such session. |
| `NameServer.ReplacingKeepsIff` | `src/ns/NameServerModule.cpp:120-178` | Replacing one session by differences keeps the index up to date, entries and weights, if and only if no other session of the same identity has registered a pair that is given up. |
| `NameServer.ReplacingKeepsMirror` | `src/ns/NameServerModule.cpp:120-178` | With distinct identities it always does. |
| `NameServer.ReflectsMirrors` | `src/ns/NameServerModule.cpp:120-178` | With distinct identities, being up to date is being equal to what is recomputed. |
| `NameServer.RegisterExactly` | `src/ns/NameServerModule.cpp:252-325` | A request is accepted exactly if all entries are complete and name one node, that of the session if there is one; the result has the address, the port in 16 bits and the weight of the first entry, and lists exactly the pairs of all the entries. |
| `NameServer.AcceptedIff` | `src/ns/NameServerModule.cpp:252-325` | The two directions of acceptance, by induction over the entries. |
| `NameServer.AcceptableIff` | `src/ns/NameServerModule.cpp:259-310` | Acceptance written out on the fields: all are there, no address reads as zero, and address and port are one in all entries and in the session. |
| `NameServer.StepSessions` | `src/ns/NameServerModule.cpp:62-325` | What each request makes of the sessions: leaving takes the own one away, a rejected request changes nothing, an accepted one replaces the own session. |
| `NameServer.RegisteredIsShown` | `src/ns/NameServerModule.cpp:202-325` | Over runs: after an accepted request, with no later one of that stream, no other session of its identity and no harm done, its node is found under exactly the pairs of its entries, with the weight of the first entry. |
| `NameServer.IndexMirrorsIff` | `src/ns/NameServerModule.cpp:62-325` | Over every run of registers, accepted or not, and disconnects, with identities shared or not: the index lists exactly what the sessions have registered, at every moment, if and only if no request takes away a pair that another session of the same identity has registered; and then with the weight of such a session. |
| `NameServer.StepKeepsIff` | `src/ns/NameServerModule.cpp:62-325` | The same for one request, by a condition on the sessions before it. |
| `NameServer.IndexMirrorsSessions` | `src/ns/NameServerModule.cpp:62-325` | In a run with distinct identities the index is the one recomputed from the sessions, by value, weight included, and keeps no empty command. |
| `NameServer.QueryAnswers` | `src/ns/NameServerModule.cpp:202-246` | As long as no request has done harm, a node is found under a pair exactly if a session of its identity has registered it, with such a weight; a session alone under its identity finds itself exactly under its pairs. |
| `NameServer.SharedIdentityIsLost` | `src/ns/NameServerModule.cpp:139-146` | The harm: when one of two sessions of one identity leaves, the other disappears from the pairs they shared. |
| `NameServer.SpellingShownIff` | `src/ns/NameServerModule.cpp:157-170` | A new spelling of the same address shows under the pairs kept exactly if it is the old one or the weight changed too. |
| `NameServer.CollideIff` | `src/ns/NameServerProtocol.cpp:24-28` | Two entries are one identity if and only if the same number is read from their addresses and their ports agree in the low 16 bits. |
| `NameServer.CompleteIff` | `src/ns/NameServerModule.cpp:284-290` | Of an entry with all its fields, only one whose address reads as zero is turned away. |
| `NameServer.MalformedAddressesCollide` | `src/ns/NameServerProtocol.cpp:24-28` | Malformed addresses pass the check and share one identity. |
| `NameServerOverlap.OverlapIff` | `src/ns/NameServerModule.cpp:120-178` | Two overlapping sets of one stream: when the one that updates the index second is also stored last, its pairs are listed if and only if it touches every pair the other has gained or given up; when the other is stored last, if and only if the two agree on every pair the second touches. |
| `NameServerOverlap.GoneButListed` | `src/ns/NameServerModule.cpp:125-177` | A registration that overlaps with the end of its stream can leave its pairs in the index for good. |
| `NameServerObjects.Diff` | `src/ns/NameServerModule.cpp:83-118` | dels, news and comms split the old and the new pairs exactly. |
| `NameServerObjects.DiffOneWay` | `src/ns/NameServerModule.cpp:88-102` | One direction of it, domain by domain. |
| `NameServerObjects.NameServerModule.Set` | `src/ns/NameServerModule.cpp:120-178` | Index and sessions afterwards are those of the model; a closed connection counts as leaving. |
| `NameServerObjects.NameServerModule.HandleRegister` | `src/ns/NameServerModule.cpp:252-325` | One step of the model; true exactly for an accepted request. |
| `NameServerObjects.NameServerModule.OnDisconnect` | `src/ns/NameServerModule.cpp:62-75` | One step of the model. |
| `NameServerObjects.RejectedForGood` | `src/ns/NameServerModule.cpp:259-318` | A request once rejected stays rejected whatever entries follow. |
| `LruModel.SetEvictsLeastRecent` | `src/ds/LRUCache.h:55-67` | What stays and what is evicted, last first, is the old list with the new pair in front; the new pair stays; an eviction happens exactly when the allowance is used up, and goes down to the maximum. |
| `LruModel.CacheRun` | `src/ds/LRUCache.h:55-129` | Over every run with fixed bounds a lookup finds the value last set and not deleted since, exactly for keys not evicted; the size stays within max(maxSize, maxSize + elasticity - 1); with no maximum nothing is evicted. |
| `LruModel.EvictsLeastRecentlyUsed` | `src/ds/LRUCache.h:169-185` | At every point of every run the evicted entries were all used before those that stay, the callback sees them in the order of their last use, and the one just set stays. |
| `LruModel.OpsKeep` | `src/ds/LRUCache.h:55-129` | The list is ordered by last use and holds the latest values after any operations. |
| `LruModel.HitsIff` | `src/ds/LRUCache.h:69-95` | At every point of every run a get hits exactly the keys that were set, not deleted since and not evicted, tells the value last set and brings it to the front; what other keys find stays. |
| `LruModel.DeletesIff` | `src/ds/LRUCache.h:97-107` | A delete says yes for exactly these keys, and removes just the one. |
| `LruModel.EvictsIff` | `src/ds/LRUCache.h:55-67` | At every point of every run a set evicts exactly if there is a maximum, the key is new and the list comes to hold more than the maximum and at least maximum plus allowance; just the maximum is kept then. |
| `LruObjects.Bijection` | `src/ds/LRUCache.h:187-192` | Map and list are in bijection in every valid state. |
| `LruObjects.LruCache.Set` | `src/ds/LRUCache.h:55-67` | The linked entries and the map follow the model, and the callback is called with what the model evicts. |
| `LruObjects.LruCache.Get` | `src/ds/LRUCache.h:69-95` | A hit returns the value and moves the entry to the front; a miss changes nothing. |
| `LruObjects.LruCache.Del` | `src/ds/LRUCache.h:97-107` | The entry goes from list and map; false exactly if it was not there. |
| `LruObjects.LruCache.Prune` | `src/ds/LRUCache.h:169-185` | The loop evicts exactly what the model does and counts it. |
| `LruObjects.LruCache.MoveToFront` | `src/ds/LRUCache.h:60-62` | The splice keeps every entry and its place in the map. |
| `LruObjects.LruCache.Clear` | `src/ds/LRUCache.h:124-129` | Nothing is left in either. |
| `WebSocket.MaskedTwice` | `src/http/WSSession.cpp:235-241` | Masking with the same key undoes masking. |
| `WebSocket.MaskedSame` | `src/http/WSSession.cpp:235-241` | It leaves data alone exactly where the key is zero; so a client that sends one message object twice sends different data the second time. |
| `WebSocket.DataArrives` | `src/http/WSSession.cpp:119-201` | One data frame at the head of the stream: taken exactly, the rest untouched, if it is masked where that is demanded, holds 1 to 65535 bytes and keeps the message below the limit; the end of the connection otherwise. |
| `WebSocket.RecvControl` | `src/http/WSSession.cpp:130-135` | A PING is answered and a PONG passed over, wherever they come. |
| `WebSocket.LengthReads` | `src/http/WSSession.cpp:147-160` | A length below 65536 is read as it was written, between any two hosts. |
| `WebSocket.Arrives` | `src/http/WSSession.cpp:119-253` | A message is completed from any intermediate state of the receiver. |
| `WebSocket.ReassemblesIff` | `src/http/WSSession.cpp:119-275` | Send then receive is the identity (sections 5.2 to 5.4 of RFC 6455): any message in data frames with their own keys, with control frames in between, is reassembled with the opcode of its first frame, the rest of the stream untouched and every PING answered, whatever the uninitialised length bytes are, if and only if every data frame holds 1 to 65535 bytes, the sender masks or the receiver is a client, and the whole is below the limit. |
| `WebSocket.OpcodeIsFirst` | `src/http/WSSession.cpp:188-190` | Later frames do not change the opcode. |
| `WebSocket.ReceivedOpcode` | `src/http/WSSession.cpp:187-190` | The message received has the opcode of its first data frame that is not a continuation, in particular of its first frame if this is TEXT or BIN; 0 exactly if all its data frames are continuations. |
| `WebSocket.OneFrame` | `src/http/WSSession.cpp:119-253` | One TEXT or BIN frame is received with its opcode and its text. |
| `WebSocket.TwoFrames` | `src/http/WSSession.cpp:119-253` | So are two frames with a PING in between: the opcode of the first, both texts, one PONG. |
| `WebSocket.WireFormat` | `src/http/WSSession.cpp:203-253` | The bytes of a frame, one by one: FIN and opcode, mask bit and length in 7, 16 or 64 bits, key, payload (section 5.2 of RFC 6455). |
| `WebSocket.MaskedBit` | `src/http/WSSession.cpp:239-241` | Masking is exclusive or, bit by bit, with the key gone through over and over. |
| `WebSocket.OtherFrames` | `src/http/WSSession.cpp:130-142` | PING and PONG are two bytes; frames of opcodes 3 to 8 and from 10 on are passed over by two bytes; an unmasked data frame ends the connection of a server. |
| `WebSocket.AnyDataFrame` | `src/http/WSSession.cpp:144-199` | For any bytes: a data frame is taken exactly if its length, key and payload are there in full, it is not empty and the message stays below the limit; then with these bytes, and the rest untouched. |
| `WebSocketLengths.WrapsIff` | `src/http/WSSession.cpp:144-166` | A frame overflows exactly if it is an acceptable data frame whose announced length exceeds 64 bits together with what has been collected. |
| `WebSocketLengths.UndefinedIff` | `src/http/WSSession.cpp:119-201` | For every stream the outcome is undefined if and only if such a frame comes after some accepted ones. |
| `WebSocketLengths.FirstNeverOverflows` | `src/http/WSSession.cpp:144-161` | The first data frame never does. |
| `WebSocketLengths.LengthDecides` | `src/http/WSSession.cpp:161-166` | After accepted frames with text t, a frame that announces n and takes the message over the limit: undefined if and only if n and the length of t add up to 2^64 or more, closed otherwise. |
| `WebSocketLengths.OverflowingStream` | `src/http/WSSession.cpp:161-176` | A stream that overflows: a text frame of one byte, then a frame that announces 2^64 - 1. |
| `WebSocketObjects.MaskFrom` | `src/http/WSSession.cpp:181-186` | The loop combines each byte from a start on with the key byte that its distance selects. |
| `WebSocketObjects.WSFrameMessage.Mask` | `src/http/WSSession.cpp:239-241` | The message object is masked in place. |
| `WebSocketObjects.SendMessage` | `src/http/WSSession.cpp:203-253` | Exactly one frame goes out; the object of a client is left masked; an empty message closes the stream after its head. |
| `WebSocketObjects.SendControl` | `src/http/WSSession.cpp:255-277` | Two bytes go out. |
| `WebSocketObjects.ReadLength` | `src/http/WSSession.cpp:147-163` | Seven bits, or two or eight bytes more. |
| `WebSocketObjects.ReadPayload` | `src/http/WSSession.cpp:173-196` | Key, payload, unmasking in place, and whether the message is complete. |
| `WebSocketObjects.RecvTurn` | `src/http/WSSession.cpp:123-199` | One turn of the loop is one frame of the model, with the PONG it owes. |
| `WebSocketObjects.RecvMessage` | `src/http/WSSession.cpp:119-201` | Result, remaining stream, PONGs and closing are those of the model, for every stream. |
| `UrlCodec.UrlEncode` | `src/Util.cpp:348-377` | The lazily made string is the encoding of each byte by itself. |
| `UrlCodec.UrlDecode` | `src/Util.cpp:379-408` | The lazily made string is the decoding, escapes and plus signs included. |
| `UrlCodec.DecodeInvertsIff` | `src/Util.cpp:348-408` | Decoding inverts encoding for every byte string, unless plus signs were made of spaces and are not decoded and there is a space; exactly then not. |
| `UrlCodec.DecodeInverts` | `src/Util.cpp:348-408` | With plus decoding on, it always does, under either flag of the encoder. |
| `UrlCodec.EncodedHasNoAmpersand` | `src/Util.cpp:302-377` | An encoding contains no ampersand. |
| `UrlCodec.ByteIsEncoded` | `src/Util.cpp:302-377` | Letters, digits and - . _ ~ = stand for themselves; any other byte becomes a percent sign and two digits in upper case, but a space a plus sign where asked for. |
| `UrlCodec.EscapeIsDecoded` | `src/Util.cpp:379-408` | A percent sign and two digits, each in either case, stand for the byte of that number. |
| `UrlCodec.PlainIsDecoded` | `src/Util.cpp:379-408` | Every other byte stands for itself, a percent sign not followed by two digits too, and a plus sign for a space where asked for. |
| `QueryString.ParseParam` | `src/http/HTTP.cpp:173-190` | The parsing loop inserts exactly the parsed pairs, the first of a key winning. |
| `QueryString.HttpRequest.InitQueryParam` | `src/http/HTTP.cpp:169-193` | The query is parsed once; parameters that are there are kept. |
| `QueryString.HttpRequest.SetParam` | `src/http/HTTP.cpp:105-107` | Every spelling that strcasecmp takes for the key finds the value from now on, under the spelling inserted first; every other key finds what it found before. |
| `QueryString.ParsedKeysAreClean` | `src/http/HTTP.cpp:173-190` | No key that is parsed contains an equals sign. |
| `QueryString.ParseInvertsIff` | `src/http/HTTP.cpp:173-193` | Parsing key=UrlEncode(value) joined with ampersands gives the same pairs in the same order if and only if no key contains an equals sign. |
| `QueryString.InsertedFinds` | `src/http/HTTP.cpp:180-181` | Each key finds the pair that was there, or else the first pair whose key agrees with it ignoring case. |
| `QueryString.HoldsIff` | `src/http/HTTP.cpp:60-62` | The map holds exactly the pairs inserted if and only if keys that it cannot tell apart belong to equal pairs. |
| `QueryString.QueryRoundTripIff` | `src/http/HTTP.cpp:169-193` | The query round trip holds if and only if no key contains an equals sign and keys are unambiguous ignoring case. |
| `QueryString.CanonIs` | `src/http/HTTP.cpp:60-62` | What the map sees of a key ends before the first NUL, and only A to Z change. |
| `QueryString.SameKeyIff` | `src/http/HTTP.cpp:60-62` | Two keys are one to the map exactly if strcasecmp finds no difference. |
| `QueryString.NoPair` | `src/http/HTTP.cpp:173-190` | Text without an equals sign holds no pair. |
| `QueryString.LastPair` | `src/http/HTTP.cpp:173-190` | Text up to the first equals sign is a key, what follows without an ampersand its value, decoded. |
| `QueryString.FirstPair` | `src/http/HTTP.cpp:173-190` | Or up to the next ampersand; what stands behind is parsed alike. With the two above this determines the pairs of every text. |

## Left out

- Sockets, epoll, pipes, threads, stack switching, TLS, zlib, protobuf, databases: foreign code behind the models above.
- The gzip branches of the Rock decoder: the model stops with a separate outcome where they begin.
- The root fiber of a scheduler that uses its caller's thread, `start`, and the destructors.
- Data races where the source writes under a read lock or none (`_tickled` in `getNextTimer`, two `addEvent` calls resizing the
  table at once): each call is one atomic step of its component.
- Overflow of now + ms and of 64-bit counters and sizes; times and counts are unbounded naturals.
- The flag of a worker group is read and set without a lock, so that two first calls of `waitAll` could both drain; the model
  has one step for both.
- Callbacks that throw inside a worker group, and waiting groups that are destroyed.
- `ByteArray::Read`, `toString`, `toHexString`, files, floats and doubles.
- ReadSome: never fails; nor do ReadFixSize of a stream, ReadInto and the receivers built on them. What a failing single read
  does to `readFixSize` is stated in `StreamFaults`; the loop of `writeFixSize` is the same.
- WriteSome: never fails either; nor do WriteFixSize, WriteFrom and the senders built on them, whose error results do not occur.
- ParseFrom: takes the limit to be at most 2^31, because the length of a header is a signed 32-bit integer; only for such
  limits does AnyFrame speak of the source.
- RecvMessage: takes the limit to be at most 2^31, because the source counts what it has collected in a signed 32-bit
  integer; so do ReassemblesIff and the lemmas about what is received.
- SerializeTo: says nothing about the compressed form beyond that it is chosen.
- The return values of the senders as 32-bit integers: sizes are not truncated.
- HeadBytes: the layout of bit-fields from the lowest bit up, which is the compiler's choice and holds on little-endian hosts.
- The WebSocket handshake, and fields of a frame head that are never set or looked at (RSV bits).
- Queries, ticks and change notices of the name server beyond what a query finds in the index; parsing of protobuf bodies.
- The nodes and domains of the registry as shared objects: the index is one nested map, replaced entry by entry.
- Set: one step, where the source releases its lock between reading the old session and storing the new one; what two
  overlapping calls for one stream do is stated in `NameServerOverlap`, as long as their updates of the index do not mix.
- `HashLRU_Cache`: it selects one of several caches by hash; its `del` calls `get` (`src/ds/LRUCache.h:238-240`).
- `TimedCache`, `TimedLRU_Cache`, cache statistics, and bounds changed while a cache is in use.
- Cookies and body parameters: the same loop with another separator, and trimming.
- The generated HTTP and URI parsers, configuration, logging, servlets, modules, daemon, ORM.
