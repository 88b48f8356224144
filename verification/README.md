# Sylar: a verified model of its runtime, byte buffer and HTTP bodies

Sylar is a C++ server framework built on fibers. This project models its three cores in Dafny and
proves what they keep over every input, every interleaving or every run.

**The fiber runtime**, as state machines over its atomic steps and as classes.

- `Scheduler`, `SchedulerSafety`, `SchedulerRuns`, `SchedulerConservation`, `SchedulerShutdown`,
  `SchedulerExit`, `SchedulerScan`, `SchedulerHistory`, `SchedulerBodies`: the loop of `Scheduler::run` for
  any number of workers: the scan of the shared queue under the lock, taking an entry, swapping the fiber in, the decrement of the active count before the re-queue, the HOLD that the
  worker writes after the swap has come back, the callback fiber that is reused, the idle fiber and the
  shutdown test. A fiber hands out wake-ups while it runs, and they may reach the queue while it is still
  EXEC.
- `SleepProtocol`, `SleepHistory`: the idle worker that reads the earliest deadline, blocks, and is woken through a pipe by
  timers inserted in front, with the flag that suppresses repeated announcements.
- `EventTable`: `FdContext` and the operations of `IOManager` on it, against the interest list of the
  kernel and a numbered history of registrations.
- `HookedWait`, `HookedHistory`: the waits of any number of calls of `do_io` with their timers, the timers' callbacks in three
  steps, the retries, and the queue entries that bring the fibers back.
- `Timers`: the classes `Timer` and `TimerManager`, an ordered set whose keys are fields of its elements.

**The byte buffer**: `Blocks` (positions in a chain of equal blocks), `ByteArrays` (the class `ByteArray`
with its linked nodes against one flat byte sequence and a cursor), `Codec` (fixed-width, varint and zigzag
codecs), `TypedIo` and `TypedRuns` (typed writes and reads on the class, and whole sequences of them),
`WireFormat` (the bytes of every typed value, one by one).

**HTTP and text**: `ChunkLine` (the chunk-size line as the client parser reads it), `ChunkGrammar` (the
lines that its grammar derives, and no others), `ChunkedBody` (what
receiving a chunked body computes from a connection that delivers its bytes in arbitrary pieces),
`ChunkSplits` (when a body whose size lines arrive in pieces is still received right), `BodyReceiver` (the
receiving loops in place on one buffer, for chunked and sized bodies), `Pool` and `PoolRuns`
(the client's connection pool under interleaved calls), `Ipv6Text` and `Ipv6Reader` (printing IPv6 addresses,
and a reader of the whole text). `Common` holds what
several modules share.

`dafny verify dfyconfig.toml` checks everything.

## What the code does not keep

Where the code departs from what it is meant to do, the model follows the code. The property is then shown
to fail on a concrete run or input, and the condition under which it holds is proved.

- Exclusion of workers holds in every reachable state exactly when a suspension hands out at most one
  wake-up (`ExclusionIff`). A suspension in `do_io` does hand out at most one (`OneWakePerSuspension`).
- Shutdown leaves nothing in the queue, in every reachable state, exactly when no thread outside the
  scheduler schedules and nothing is pinned to a thread (`ShutdownIff`). Otherwise there is a run that
  leaves an entry behind: one scheduled after the last worker has left (`OutsideLeft`), or one pinned to a
  worker that left while another was between the decrement and the re-queue (`PinnedLeft`).
- The idle worker meets its deadlines in every reachable state exactly when timer periods stay below 2^31
  ms and no time is lost between reading the clock and blocking (or all periods are zero)
  (`DeadlineIff`). A lost millisecond is overslept; a timeout with bit 31 set makes `epoll_wait` block for
  ever, because of the cast at sylar/iomanager.cpp:274-279.
- The idle loop stops the process exactly when a report names a registered event together with one that
  is not (`Dispatch`, `StaleReport`), because the reported bits are not masked.
- `cancelAll` tests the wrong way round and never cancels anything (`CancelAll`); after a hooked `close` the
  kernel agrees with the table exactly when nothing was registered (`CloseFd`).
- A hooked call can time out through a timer of an earlier retry (`EarlyTimeout`). In every reachable state
  each timed-out call was cancelled by the last timer it armed, exactly when timers settle: a timer is armed
  only when the callbacks of the earlier ones are over and none of them has cancelled the call
  (`EndedByLastIff`). That they are over is not enough by itself, but it is when no callback cancels the
  event of a call that is not registered.
- A timeout can be lost (`LostTimeout`): the call waits, and no callback of its own is still to come. That
  happens in no reachable state exactly when no callback cancels the event of a call that is not registered
  (`TimeoutPendsIff`); the callback in the code does not look.
- `read` of nothing at the very end of the chain follows a null node (`Read`), so a sequence of typed
  writes reads back except exactly when it ends in an empty text and fills whole blocks (`RoundTrip`).
- The positional `read` gives the bytes asked for, or an error when they are not all there, exactly when its
  wrapped length test refuses the call, or the position is not past the size, the cursor is in a block, and
  the position lies in that block or nothing is asked for (`PositionalIff`). For every other call some
  contents make it wrong; `ReadInAnotherBlock`, `ReadPastTheSize` and `ReadWithNullCursor` show the three
  ways.
- `getReadBuffers` with a position clamps its length by the cursor: the stretches hold written bytes only,
  exactly when the length is then zero or position and length stay within the size (`GetReadBuffersAt`,
  `BuffersPastTheSize`).
- `SocketStream::write` of a `ByteArray` takes its bytes from `getWriteBuffers`: what is sent is the next
  written bytes exactly as far as there are any (`Send`). Beyond that, bytes that were never written are sent
  and count as written afterwards (`SendPastTheSize`).
- A chunk-size line that is split between two parses loses its first part: `SplitLine` gives the size
  that is read instead, and in `SplitTruncates` the reception succeeds with an empty body. A line is split
  exactly when the reads do not deliver it whole (`SplitIff`). A split need not do harm: a leading zero may be
  lost (`LostZeroReads`). Chunks with given size lines are received right, whatever their data, exactly when
  each size line comes in parts of which all but the last parse as incomplete and the last by itself gives
  the size (`RightIff`). That depends on the lines and the lengths of the reads alone.
- `readFixSize` returns its length as an int, so a sized body that does arrive is received exactly when
  nothing is missing from the buffer, or the low 32 bits of the missing length are neither zero nor have the
  top bit set (`ReceiveSized`). With 2^31 missing bytes, all of them arrive and the call fails
  (`LargeBodyFails`).

## Model

| member | source | states |
|---|---|---|
| SchedulerSafety.SafeStep | sylar/scheduler.cpp:120-211 | every step of every worker, fiber and outside thread keeps the invariant: one lock holder, no fiber owned by two workers, no fiber both queued and running unless its own wake-up is, queue entries well formed; which entry a worker picks is stated by TakesFirst and CanTakeFirst |
| SchedulerRuns.RunIsSafe | sylar/scheduler.cpp:136-173 | the invariant holds in every state of every run in which a suspension hands out at most one wake-up |
| SchedulerRuns.ResumeIsExclusive | sylar/scheduler.cpp:162-173 | a fiber that is swapped in is owned by this worker alone, and the status of its last run has been written: it is INIT, HOLD or READY, never EXEC |
| SchedulerRuns.AssertsHold | sylar/fiber.cpp:92-166 | every assertion of reset, swapIn, YieldToReady and YieldToHold holds whenever a run reaches it |
| SchedulerRuns.HistoryAlternates | sylar/scheduler.cpp:162-192 | in the history of every run each fiber is swapped in and given its final status in strict alternation, both by the same worker |
| SchedulerRuns.ReachableHeldOnce | sylar/scheduler.cpp:136-157 | no fiber is held by two workers in any reachable state |
| SchedulerRuns.TakenTwice | sylar/scheduler.cpp:146-153 | with two wake-ups per suspension there is a run in which two workers hold the same fiber |
| SchedulerRuns.ExclusionIff | sylar/scheduler.cpp:136-173 | exclusion holds in all reachable states if and only if a suspension hands out at most one wake-up |
| SchedulerConservation.CountersExact | sylar/scheduler.cpp:150-206 | in every run m_activeThreadCount is the number of workers between taking an entry and the decrement, on all three paths, and m_idleThreadCount the number inside the idle fiber |
| SchedulerConservation.TasksConserved | sylar/scheduler.h:37-84 | queued, held and finished entries together are exactly the entries ever scheduled, counted with multiplicity |
| SchedulerConservation.ExactlyOnePlace | sylar/scheduler.cpp:130-210 | each scheduled entry is in exactly one of the three places, and no other entry is in any |
| SchedulerConservation.PinsHold | sylar/scheduler.cpp:140-144 | an entry pinned to a thread is held by no other worker, in any run |
| SchedulerScan.TakesFirst | sylar/scheduler.cpp:136-153 | in every run, the entry a worker takes is one it might take at some moment of its scan, and every entry before it was pinned to another thread or had an executing fiber at some moment of that same scan, in which the queue did not change |
| SchedulerScan.IdleOnlyWhenRefused | sylar/scheduler.cpp:138-153 | a worker that finds nothing has had to leave every entry of the queue alone during its scan |
| SchedulerScan.EmptyAfterScan | sylar/scheduler.cpp:194-206 | a worker enters its idle fiber, or leaves the loop, only after a scan that took nothing, and has taken no step since |
| SchedulerScan.CanTakeFirst | sylar/scheduler.cpp:136-153 | from every reachable state in which a worker is at the top of its loop and the lock is free, it can go on to take the first entry it may run, at whatever place in the queue |
| SchedulerHistory.EntriesAsRequested | sylar/scheduler.h:73-84 | in every run the k-th entry, queued or held, is for the fiber or callback and the thread of the k-th request; woken and requeued fibers ask for any thread; the queue is in the order of the requests |
| SchedulerHistory.LeavesIff | sylar/scheduler.cpp:198-221 | in every run a worker leaves its loop exactly when it comes to its idle fiber after the last look of that fiber found autostop and stopping set, the queue empty and nobody active |
| SchedulerHistory.CallbackFiberIff | sylar/scheduler.cpp:174-193 | in every run a worker keeps a fiber for callbacks exactly when it has begun a callback and none since has yielded, and it is the same fiber all that time |
| SchedulerBodies.SettlesAsLeft | sylar/scheduler.cpp:162-193 | in every run with at most one wake-up per suspension: when a worker is done with a fiber, its status and whether it is queued again, last and for any thread, are what the fiber's own last step asked for: HOLD, READY, TERM or EXCEPT, and INIT for one kept for callbacks |
| SchedulerBodies.FreshIsInit | sylar/fiber.cpp:52-105 | in every run a fiber that no worker has swapped in is INIT |
| SchedulerShutdown.RunCloses | sylar/scheduler.cpp:162-221 | in every state of every closed run without pins: while the queue is not empty some worker still has to look at it before it may leave, and every EXEC fiber has a worker that runs it, despite the window between the decrement and the re-queue |
| SchedulerShutdown.ShutdownIsComplete | sylar/scheduler.cpp:194-221 | in a closed scheduler without pins: once every worker has left run(), the queue is empty, every entry is finished and the active count is zero |
| SchedulerExit.ShutdownIff | sylar/scheduler.cpp:136-221 | in all reachable states, once every worker has left run() the queue is empty, if and only if no outside thread schedules and nothing is pinned |
| SchedulerExit.OutsideLeft | sylar/scheduler.cpp:194-221 | when outside threads may schedule, a reachable state with all workers gone and an entry in the queue |
| SchedulerExit.PinnedLeft | sylar/scheduler.cpp:140-221 | when entries may be pinned, the same with two workers and no outside thread, through the window between the decrement and the re-queue |
| SleepProtocol.EpollTimeoutIff | sylar/iomanager.cpp:273-280 | the timeout given to epoll_wait is a deadline no later than asked for if and only if bit 31 is clear or there is no timer; clamping again changes nothing |
| SleepProtocol.StepKeeps | sylar/timer.cpp:17-175 | every step keeps: while the worker holds a timeout, an announcement is on its way, or the flag is down and no timer is due before the timeout ends; refresh may insert without announcing |
| SleepProtocol.DeadlineWithLag | sylar/iomanager.cpp:256-286 | in every reachable state, with periods below 2^31, an undisturbed sleeper wakes no later than any timer is due plus the time lost before it blocked |
| SleepProtocol.SleepsForEver | sylar/iomanager.cpp:274-280 | a timer 2^31 ms ahead leads to a reachable state with no wake time |
| SleepProtocol.Oversleeps | sylar/iomanager.cpp:273-285 | a millisecond lost before blocking leads to a reachable state that wakes after the deadline |
| SleepProtocol.DeadlineIff | sylar/iomanager.cpp:241-286 | the worker is on time in all reachable states if and only if periods stay below 2^31 and it loses no time before blocking, or all periods are zero |
| SleepProtocol.DrainsWhatItSaw | sylar/iomanager.cpp:293-300 | in every run the worker empties the pipe exactly when it was readable as the last epoll_wait returned, bytes written since included |
| SleepProtocol.AnnouncedOnce | sylar/timer.cpp:165-175 | in every run at most one timer is announced for each time the deadline is read, and one before |
| SleepHistory.TimersByThemselves | sylar/timer.cpp:6-175 | in every run each timer is in the set, with its deadline and period, as its own history says: when it was added, refreshed, reset, cancelled, and found due by a listing, which removes it or starts it again |
| SleepHistory.AnnouncedIff | sylar/timer.cpp:165-175 | in every run an insertion is announced exactly when no other timer stands before it, by deadline and then address, and none was announced since the deadline was last read |
| SleepHistory.AsleepIs | sylar/iomanager.cpp:265-286 | in every run a sleeping worker holds the timeout it last read, and sleeps since its epoll_wait last began; after a signal the whole timeout begins anew |
| EventTable.EveryWakeOnce | sylar/iomanager.cpp:33-45 | after any run of registrations, wake-ups and deletions, the live ones are exactly those in the table, each waiter was queued at most once, none while still registered and none that was deleted |
| EventTable.StepWatched | sylar/iomanager.cpp:115-194 | a change of one bit with the matching epoll_ctl keeps the kernel's list equal to the registrations |
| EventTable.WakesWatched | sylar/iomanager.cpp:316-338 | the same for all the bits of one report, taken out with one epoll_ctl |
| EventTable.WakesWoke | sylar/iomanager.cpp:330-337 | what the wake-ups of a report do to the books, descriptor by descriptor: exactly the reported waiters go to the queue, READ before WRITE |
| EventTable.FdContext.TriggerEvent | sylar/iomanager.cpp:33-45 | fails exactly when the bit is clear; otherwise clears it, hands out the waiter of the slot and leaves the slot empty, and the other slot alone |
| EventTable.IOManager.constructor | sylar/iomanager.cpp:47-67 | a new table of 32 empty contexts that agrees with an empty interest list |
| EventTable.IOManager.ContextResize | sylar/iomanager.cpp:82-90 | a smaller size cuts the table off; for a larger one the old contexts stay and the new ones are empty and carry their index |
| EventTable.IOManager.Watch | sylar/iomanager.cpp:115-128 | the operation chosen, ADD, MOD or DEL, always fits the kernel's list |
| EventTable.IOManager.AddEvent | sylar/iomanager.cpp:92-137 | stops the process exactly when the event is already registered, so never at the empty-slot assert; otherwise adds exactly one registration, or none when the kernel refuses; the agreement of slots, bits, count and kernel is kept |
| EventTable.IOManager.DelEvent | sylar/iomanager.cpp:139-169 | succeeds exactly when the event is registered and the kernel agrees; the registration goes, nobody is woken, the agreement is kept |
| EventTable.IOManager.CancelEvent | sylar/iomanager.cpp:171-199 | succeeds exactly when the event is registered and the kernel agrees; its waiter is queued once, no assertion fails, the agreement is kept |
| EventTable.IOManager.Dispatch | sylar/iomanager.cpp:301-338 | in terms of the flags of the report: wakes exactly the waiters of input, output or, on error or hang-up, of all that is registered, READ first, when all reported bits are registered; does nothing when none is or the kernel refuses; stops the process exactly when some are and some are not |
| EventTable.IOManager.CancelAll | sylar/iomanager.cpp:201-235 | as written it never succeeds, changes no registration and wakes nobody |
| EventTable.IOManager.CloseFd | sylar/hook.cpp:353-366 | after the hooked close the kernel agrees with the table if and only if nothing was registered on the descriptor |
| EventTable.StaleReport | sylar/iomanager.cpp:305-337 | for every table: a report for both events, handled after one was cancelled, stops the process |
| HookedWait.RunKeeps | sylar/hook.cpp:100-148 | in every run the slot holds exactly the registration that was not woken, every other one has one place in the queue, and a cancelled call was cancelled by a timer of its own |
| HookedWait.EveryRegistrationOnce | sylar/hook.cpp:126-140 | each registration puts its fiber on the queue at most once, and exactly once when it has left the slot, whoever came first |
| HookedWait.TimedOutByOwnTimer | sylar/hook.cpp:106-144 | ETIMEDOUT is returned only if a timer armed by that same call has fired |
| HookedWait.ResumedByOwnRegistration | sylar/hook.cpp:126-146 | in every run, whatever queue entry of its fiber a worker takes, the call that comes back is the one the entry was made for, through the registration it waits on, which is out of the slot; no second entry of that fiber is there |
| HookedWait.OneWakePerSuspension | sylar/hook.cpp:126-146 | in every run a call has one registration for each time it came back and one more while it waits, one queue entry for each time it came back and one more while it waits and is woken, and none outstanding when it registers: the bound of one wake-up per suspension that ExclusionIff asks for |
| HookedWait.PendingIsAwaited | sylar/hook.cpp:126-146 | in every run a timer is pending only while its call is in the wait it was armed for: a call that tries again or has ended leaves none behind |
| HookedHistory.CallsByHistory | sylar/hook.cpp:100-148 | in every run the calls and timers are what the steps say: a call with a timeout arms one timer per wait and holds the last, it is cancelled exactly when a callback of its own timers has said so, and it is where its own last step has put it |
| HookedHistory.EndsIff | sylar/hook.cpp:103-148 | in every run a call returns the result of the system call exactly when that did not say EAGAIN, fails exactly when addEvent did, and ends with ETIMEDOUT exactly when it came back and was cancelled by then |
| HookedHistory.CheckedIff | sylar/hook.cpp:115-121 | in every run the callback of an expired timer goes on to cancel exactly when its call has not ended and was not cancelled |
| HookedWait.EarlyTimeout | sylar/hook.cpp:111-146 | unless timers settle, a reachable state in which a call has timed out through a timer that is not the last it armed |
| HookedWait.EndedByLastIff | sylar/hook.cpp:103-146 | in all reachable states each timed-out call was cancelled by the last timer it armed, if and only if a timer is armed only when the earlier ones are over and have not cancelled the call, or are over and no callback cancels the event of an unregistered call |
| HookedWait.LostTimeout | sylar/hook.cpp:111-126 | when a callback may cancel the event of an unregistered call, a reachable state in which a call waits with its timer spent and none to come |
| HookedWait.TimeoutPendsIff | sylar/hook.cpp:111-140 | in all reachable states each call that waits in the slot with a timer has a callback of its own still to come or to finish, if and only if no callback cancels the event of a call that is not registered |
| Timers.TimerManager.Find | sylar/timer.cpp:9-11 | the lookup by the comparator finds a timer exactly when it is in the set, because no key changes while it is there |
| Timers.TimerManager.SetOrder | sylar/timer.cpp:64-82 | the set is ordered by deadline, and by address among equal deadlines |
| Timers.RolloverIff | sylar/timer.cpp:176-183 | a rollover is a step back of more than an hour, or any step back within the first hour of the epoch |
| Timers.TimerManager.Cancel | sylar/timer.cpp:6-15 | true exactly when the callback was set; then the timer was in the set, leaves it, and its callback is gone |
| Timers.TimerManager.Refresh | sylar/timer.cpp:17-30 | true exactly when the callback is set; only the deadline moves, to now plus the period; the set stays ordered and nothing is announced |
| Timers.TimerManager.Reset | sylar/timer.cpp:32-55 | the new deadline counts from now or from the old start; same members; announced exactly when something changed, the timer is now the least and the flag is down |
| Timers.TimerManager.AddTimer | sylar/timer.cpp:90-96 | the new timer, at any address that no existing timer has, is in the ordered set; it is announced exactly when it is the least and the flag is down |
| Timers.TimerManager.GetNextTimer | sylar/timer.cpp:111-124 | the wait until the least deadline, zero when it has passed, and the flag is cleared |
| Timers.TimerManager.ExpiredEnd | sylar/timer.cpp:145-148 | the timers before the end are exactly those due by now, wherever the probe's address falls among equal deadlines |
| Timers.TimerManager.ListExpired | sylar/timer.cpp:126-163 | the callbacks of exactly the timers due by now, or of all when the clock went back by more than 3600000 ms (or at all in the first hour), in deadline order; recurring ones are re-armed at now plus period, the others lose their callback; without rollover only deadlines after now remain if and only if each period armed again ends after now |
| Timers.PlusIsLater | sylar/timer.cpp:156-159 | a re-armed deadline lies after now if and only if the period is positive and the 64-bit sum does not wrap |
| Timers.History | sylar/timer.cpp:6-175 | over any history of calls and of timers that cease to exist, whose addresses may be used again: a timer with a callback is in the set exactly while the callback is set, a one-shot timer is delivered at most once, and a cancelled timer is never delivered again |
| Blocks.PositionSplits | sylar/bytearray.cpp:341-345 | a position is the span of the blocks before its own plus its offset there |
| ByteArrays.ByteArray.constructor | sylar/bytearray.cpp:25-31 | an empty buffer with one block |
| ByteArrays.ByteArray.CapacityIs | sylar/bytearray.cpp:492-521 | the capacity is the number of blocks times the block size |
| ByteArrays.ByteArray.AddCapacity | sylar/bytearray.cpp:492-521 | room for n bytes in whole new blocks and no more than needed; the bytes stay; a cursor at the old capacity enters the first new block |
| ByteArrays.ByteArray.Write | sylar/bytearray.cpp:334-367 | the flat contents with the bytes laid over from the cursor on, for every block size; cursor, size and capacity move accordingly |
| ByteArrays.ByteArray.Read | sylar/bytearray.cpp:369-396 | the next n bytes; throws exactly when fewer are readable; follows a null node exactly when n is 0 at the capacity |
| ByteArrays.ByteArray.SetPosition | sylar/bytearray.cpp:428-444 | throws exactly past the capacity; otherwise the cursor is at v in its block and the size covers it |
| ByteArrays.ByteArray.Clear | sylar/bytearray.cpp:321-332 | an empty buffer with the first block only |
| ByteArrays.SizeDiffIs | sylar/bytearray.cpp:398-401 | the difference of two sizes wraps around at 2^64 |
| ByteArrays.StartIff | sylar/bytearray.cpp:398-406 | the positional read starts at the asked position if and only if that lies in the block of the cursor |
| ByteArrays.PositionalIff | sylar/bytearray.cpp:398-426 | the positional read gives bytes pos to pos + n, or an error when they are not all written, for all contents, if and only if the wrapped length test refuses, or pos is not past the size, the cursor is in a block, and pos is in that block or n is 0 |
| ByteArrays.ReadInAnotherBlock | sylar/bytearray.cpp:402-419 | a written byte in another block: the byte under the cursor is returned instead |
| ByteArrays.ReadPastTheSize | sylar/bytearray.cpp:399-401 | a position past the size passes the test and a byte that was never written is returned |
| ByteArrays.ReadWithNullCursor | sylar/bytearray.cpp:402-406 | the cursor at the end of a full chain: a null node is followed for a byte that is there |
| ByteArrays.ByteArray.ReadAt | sylar/bytearray.cpp:398-426 | the loop over the linked blocks gives what PositionalIff speaks of, and the right bytes of the contents for every well placed call |
| ByteArrays.ByteArray.ToString | sylar/bytearray.cpp:523-531 | all readable bytes, with the cursor left alone |
| ByteArrays.ByteArray.CoversBytes | sylar/bytearray.cpp:548-578 | the concatenation of consecutive stretches equals the flat slice they cover |
| ByteArrays.ByteArray.GetReadBuffers | sylar/bytearray.cpp:548-578 | consecutive stretches that cover exactly the next readable bytes, or all of them |
| ByteArrays.ByteArray.GetReadBuffersAt | sylar/bytearray.cpp:580-615 | the length is clamped by the cursor, not the position; stretches from the position; a null node exactly when they would pass the capacity; written bytes only if and only if the length is 0 or they end within the size |
| ByteArrays.BuffersPastTheSize | sylar/bytearray.cpp:580-615 | two written bytes, and stretches from position 1 that hold more than those |
| ByteArrays.ByteArray.GetWriteBuffers | sylar/bytearray.cpp:617-645 | the buffer grows and the stretches cover exactly len bytes from the cursor |
| ByteArrays.ByteArray.StretchesDisjoint | sylar/bytearray.cpp:625-643 | no two stretches share a byte |
| ByteArrays.ByteArray.Receive | sylar/streams/socket_stream.cpp:25-36 | scatter receive and setPosition give the same contents, cursor and size as a write of the received bytes, however many were asked for; when none are received only the capacity has grown |
| ByteArrays.ByteArray.Send | sylar/streams/socket_stream.cpp:45-56 | however many of the offered bytes are taken, they are a prefix of the readable bytes if and only if there are that many; cursor and size move over them and the contents stay |
| ByteArrays.SendPastTheSize | sylar/streams/socket_stream.cpp:45-56 | one byte written, two sent, and the size is two afterwards |
| Codec.SignedRoundTrip | sylar/bytearray.cpp:221-223 | a signed value survives the cast to unsigned and back, for every width |
| Codec.ByteSwapTwice | sylar/endian.h:21-45 | swapping the bytes twice is the identity |
| Codec.FixedRoundTrip | sylar/bytearray.cpp:61-101 | the bytes written depend on the chosen order only, not on the machine, and reading inverts writing even on a machine of the other order |
| Codec.VarintIsLeb | sylar/bytearray.cpp:131-140 | the varint of every value has that value as unsigned LEB128 (section 7.6 of DWARF 5) and ends where it should |
| Codec.VarintIsShortest | sylar/bytearray.cpp:131-140 | no terminated encoding of the same value is shorter, and one of the same length is the same |
| Codec.VarintLimits | sylar/bytearray.cpp:131-155 | at most 5 bytes for 32 bits and 10 for 64 |
| Codec.ZigzagIs | sylar/bytearray.cpp:103-117 | the zigzag code is twice the value, or twice its magnitude less one, with the minimum integer under wrapping |
| Codec.ZigzagRoundTrip | sylar/bytearray.cpp:103-125 | decoding inverts encoding for every signed value, the minimum included |
| Codec.ZigzagOnto | sylar/bytearray.cpp:119-125 | encoding inverts decoding for every unsigned value |
| TypedIo.VarintBytes | sylar/bytearray.cpp:131-155 | the loop over a buffer of 5 or 10 bytes produces the varint and never leaves the buffer |
| TypedIo.WriteUint | sylar/bytearray.cpp:131-155 | the varint is laid over the contents from the cursor on |
| TypedIo.ReadUint | sylar/bytearray.cpp:243-273 | on any bytes: the LEB128 value of the bytes taken, modulo the width; throws exactly when the bytes end first |
| TypedRuns.InterpretsIff | sylar/bytearray.cpp:169-187 | a value is understood again from its raw number; a text's length if and only if it fits the prefix |
| TypedRuns.WriteItem | sylar/bytearray.cpp:54-187 | every typed write lays the encoding of its value, whose bytes EncodeIs gives, over the contents |
| WireFormat.EncodeIs | sylar/bytearray.cpp:54-187 | the bytes of every typed value, on either machine: byte i of a fixed-width number is the digit of weight 256^i, from the low end or the high end by the chosen order; a variable one is its digits to the base 128, low end first, without padding, of the zigzag image for a signed one; a text is its length and its bytes |
| TypedRuns.ReadFixed | sylar/bytearray.cpp:203-237 | a fixed-width read on any bytes, and exactly when it throws |
| TypedRuns.ReadItem | sylar/bytearray.cpp:193-319 | the matching typed read gives the value back and moves over its encoding, but for an empty text at the end of the chain |
| TypedRuns.TightFull | sylar/bytearray.cpp:492-521 | the chain is full exactly when the bytes fill whole blocks |
| TypedRuns.RoundTrip | sylar/bytearray.cpp:54-319 | any sequence of typed writes, setPosition(0) and the matching reads give the same values and leave nothing, for every block size; fails exactly when the last item is an empty text and the bytes fill whole blocks |
| ChunkLine.ParseOfLine | sylar/http/httpclient_parser.rl:166-173 | a buffer that agrees with a size line and anything after it is read as that line when it holds all of it, and is incomplete when it holds a proper part |
| ChunkLine.DigitsLine | sylar/http/httpclient_parser.rl:105-115 | digits and any ending, with extensions or without, are a line with the number of the digits; what digits, numbers and extensions are is stated by EverySpelling |
| ChunkGrammar.DigitIff | sylar/http/httpclient_parser.rl:105-107 | a digit is a character of the lower-case or the upper-case table of sixteen, with its place as its value |
| ChunkGrammar.TokenIff | sylar/http/httpclient_parser.rl:131-138 | a token character is ASCII, no control and none of the listed separators |
| ChunkGrammar.EverySpelling | sylar/http/httpclient_parser.rl:166-170 | every spelling of every number in digits of either case, with any list of extensions and either line end, is a line, read to its end; its size is the number as far as an int holds what strtol gives |
| ChunkGrammar.OnlySpellings | sylar/http/httpclient_parser.rl:166-170 | every line that is read has that form and that size |
| ChunkLine.PlainLine | sylar/http/httpclient_parser.rl:166-170 | every size below 2^31 in hexadecimal, ended by CR LF or LF, is its own line |
| ChunkLine.SplitLine | sylar/http/http_parser.cpp:227-234 | digits that arrive in two parts: the first is incomplete, and the fresh parser reads the number of the second alone |
| ChunkedBody.HeadFound | sylar/http/http_connection.cpp:56-80 | the size line is found where it stands, whatever the reads, unless it was split |
| ChunkedBody.RestTakes | sylar/http/http_connection.cpp:92-102 | the reads of the rest of a chunk take its bytes to the last one and none of a later chunk |
| ChunkedBody.DataTaken | sylar/http/http_connection.cpp:85-105 | the data of a chunk goes to the body, its line end is skipped, what follows stays, whether the buffer held all, a part or nothing of it |
| ChunkedBody.BodyReceived | sylar/http/http_connection.cpp:53-106 | for every list of chunks, every form of their size lines and every division into reads that splits no size line: the body is the concatenation of the chunks and the bytes after the last chunk are untouched |
| ChunkedBody.SplitIff | sylar/http/http_connection.cpp:58-80 | a reception splits a size line if and only if what the reads deliver does not hold some line whole when the parser is called for it |
| ChunkedBody.WholeLinesReceived | sylar/http/http_connection.cpp:53-106 | whenever the reads deliver every size line whole, the body is the concatenation of the chunks and what follows is left |
| ChunkedBody.BufferedBody | sylar/http/http_connection.cpp:53-106 | a body that lies in the buffer as a whole is received right, whatever the connection does |
| ChunkedBody.SplitTruncates | sylar/http/http_connection.cpp:66-80 | a chunk of 16 bytes whose line arrives as "1" and "0" is received as an empty body, with success |
| ChunkSplits.LinesGiveBody | sylar/http/http_connection.cpp:53-106 | whenever each size line comes in parts that can be read, the body is the concatenation of the chunks, whatever their data, and what follows is left |
| ChunkSplits.ZerosFail | sylar/http/http_connection.cpp:53-106 | whenever some size line does not, chunks of zero bytes are received wrong: refused, closed, cut short, or with a line end in the body |
| ChunkSplits.RightIff | sylar/http/http_connection.cpp:53-106 | for every list of size lines, number of buffered bytes and division into reads of a connection that stays open: the body and what follows come out right for all data of these sizes if and only if every size line comes in parts of which all but the last are incomplete and the last by itself gives the size |
| ChunkSplits.WholeLinesRead | sylar/http/http_connection.cpp:56-80 | lines that the reads deliver whole satisfy the condition of RightIff |
| ChunkSplits.LostZeroReads | sylar/http/http_parser.cpp:227-234 | a leading zero that arrives alone is dropped without harm |
| BodyReceiver.HttpConnection.Execute | sylar/http/http_parser.cpp:227-234 | the fresh parser's answer, and the used bytes shifted out of the buffer in place |
| BodyReceiver.HttpConnection.ReceiveHead | sylar/http/http_connection.cpp:56-80 | the inner loop on the buffer computes ReadHead, within the buffer |
| BodyReceiver.HttpConnection.ReceiveRest | sylar/http/http_connection.cpp:92-103 | the loop for the rest of a chunk computes ReadRest and never asks for more than is missing or than the buffer holds |
| BodyReceiver.HttpConnection.ReceiveBody | sylar/http/http_connection.cpp:53-106 | the whole chunked reception in place computes Receive, with every index within the buffer |
| BodyReceiver.HttpConnection.ReadFixSize | sylar/stream.cpp:5-17 | exactly the next length bytes, in place; the result is the length as a 32-bit int, or 0 when the connection ends |
| BodyReceiver.HttpConnection.ReceiveSized | sylar/http/http_session.cpp:38-59 | the body is exactly the first N bytes after the header and nothing beyond is read; succeeds if and only if the bytes arrive and the missing length is positive as an int |
| BodyReceiver.LargeBodyFails | sylar/stream.cpp:5-17 | a body of 2^31 bytes that all arrive and are taken from the connection: the call fails |
| Pool.StepKeeps | sylar/http/http_connection.cpp:289-348 | every step of every call and release keeps the invariant of counts, places and ownership |
| Pool.TotalIsExact | sylar/http/http_connection.cpp:311-348 | after any interleaving m_total is idle plus held plus popped or deleted and not yet subtracted, less made and not yet counted |
| Pool.QuietTotal | sylar/http/http_connection.cpp:289-348 | between calls m_total is the number of idle connections and of those in use |
| Pool.IdleIsFree | sylar/http/http_connection.cpp:336-348 | an idle connection is listed once, not handed out, not deleted, and has served fewer than m_maxRequest requests |
| Pool.DeletedOnce | sylar/http/http_connection.cpp:308-345 | no connection is deleted twice, and none that is in use or listed has been deleted |
| PoolRuns.ReleasedIff | sylar/http/http_connection.cpp:336-348 | in every run a released connection is deleted exactly when it is unusable or has now been released as often as allowed, and otherwise goes back |
| PoolRuns.ListIsQueue | sylar/http/http_connection.cpp:289-348 | in every run the list is what was put back, in order, less as many as were popped |
| PoolRuns.PopsOldest | sylar/http/http_connection.cpp:294-308 | a pop, of a usable connection or not, takes the one that was put back first |
| PoolRuns.HandsOutOwn | sylar/http/http_connection.cpp:311-333 | a call hands out the connection it has popped or made |
| PoolRuns.LockedByLoop | sylar/http/http_connection.cpp:293-307 | in every run the lock is held exactly by the one call that is in its loop |
| Ipv6Text.TextReads | sylar/address.cpp:396-422 | the text of any eight groups, read by section 2.2 of RFC 4291, gives back the same groups |
| Ipv6Text.EmitIsText | sylar/address.cpp:404-420 | what the loop prints is the groups before the leftmost run of zeros, one "::" for the run, and the groups after it |
| Ipv6Text.LoadedIs | sylar/address.cpp:402-417 | the number printed for two bytes does not depend on the byte order of the machine |
| Ipv6Text.PrintGroups | sylar/address.cpp:402-420 | the printing loop, with its flag and the test after it, produces that text |
| Ipv6Text.Insert | sylar/address.cpp:396-422 | the whole insertion, with brackets and port |
| Ipv6Text.PrintingIsInjective | sylar/address.cpp:396-422 | two addresses or ports that print the same are the same |
| Ipv6Reader.PrintedReads | sylar/address.cpp:396-422 | an independent reader of the whole text, brackets, port and all, gives back the address and the port |
| Ipv6Reader.HexIsPlain | sylar/address.cpp:412-417 | a group is printed in lower case without leading zeros |

## Left out

- Liveness: only safety is claimed; a run may stop anywhere, and no fairness is assumed.
- Scheduler: thread ids are worker indices; a fiber that has handed out a wake-up leaves by YieldToHold, and a fiber is scheduled by hand only when no wake-up of it is outstanding, as the callers in the repository do; the idle fiber is that of the base class, one check per swap-in.
- SchedulerShutdown.ShutdownIsComplete: for a closed scheduler with unpinned entries, which ShutdownIff shows to be necessary; both ask for at most one wake-up per suspension.
- SleepProtocol.DeadlineIff: one idle worker and a clock that does not run backwards; deadlines are unbounded numbers here, their 64-bit wrap-around is in the timer classes.
- EventTable.IOManager.AddEvent: the growth of the table is one step of its own, so a second thread that resizes it in between is not modelled; `fd * 1.5` is taken exactly.
- EventTable: the per-descriptor mutex makes each operation one step; the state test on the waiting fiber and the pipe descriptor in the interest list are not part of the model.
- HookedWait: one descriptor and one event; two calls that register for it at the same time stop the process in addEvent and are not modelled here. The sleep functions, whose fiber is put back by a timer alone, are not modelled.
- ByteArrays.ByteArray.constructor: block size 0 is excluded; the code accepts it and then divides by it.
- ByteArrays.ByteArray.AddCapacity: the number of new blocks is the exact quotient rounded up; the code computes it in floating point, which differs for sizes beyond 2^53.
- ByteArrays: file input and output, the hex dump, and float and double (bit copies of the fixed-width integers) are left out.
- TypedIo.ReadUint: `|=` on disjoint bits is written as addition.
- ChunkLine: the other alternative of the client grammar, a status line where a size line is expected, is read as a bad line; the header of the response and the request grammar are not modelled.
- ChunkedBody.BodyReceived: a size of 2^31 - 2 or more is outside the int arithmetic of the code; the model then answers TooLarge, and what the code does is not modelled.
- Pool: the verdicts on a connection (connected, of the right age) are arbitrary, because the age tests at lines 301 and 340 are inverted; m_maxSize is never used by the code; name lookup and connecting either fail or make a connection.
- Logging, configuration, URIs, servlets, the TCP and HTTP servers, sockets and the other hooks: wrappers around the operating system and libraries, with easy members.
