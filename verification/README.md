# Protoflight, verified

A Dafny model of the parts of protoflight where state, concurrency or arithmetic make the code hard
to trust by reading: the portable message queue, the message bus on top of it, the task manager's
scheduler, and three vendored pieces (the Unity test framework with its fixture, and tinycthread).
`dafny verify dfyconfig.toml` checks everything.

## What is modelled

**The message queue.** `OsQueues` holds the `OS_Queue` object with its byte buffer and sizes array,
updated in place. Its contents as a value are a `Rings.Ring`; all offsets and products have the width
they have in C. `Fifos.Fifo` is the queue that the header promises. Every operation on a ring is the
operation on the queue it represents, over whole runs. `QueueAnswers` says what each call of a run
answers from the calls and answers before it. The exact condition under which all slots lie inside the
allocation is `(num_msgs - 1) * msg_size_bytes < 2^31`, which `os_queue_create` does not check.

**The queue between threads.** `QueueProtocol` cuts send and receive into steps of any number of
threads: a recursive mutex, two condition variables, waits that are signalled, fail or return
spuriously. The source guards its waits with `if`. `QueueLimits` shows that, for a queue with at least
one sender and one receiver, the count stays in bounds in all runs exactly when there is one of each and
no spurious wakeup, or when the check is repeated in a loop. The comments of the source
(`os_queue_portable.c`, lines 180-182, 307-309, 362) assume that a failed wait does not hold the mutex;
IEEE Std 1003.1-2017 says that `pthread_cond_timedwait` acquires it again. Both readings are in the
model, and `QueueMutex` says what each means for whole runs: under the first the mutex is always
released, under the second a call whose wait failed keeps it and shuts all other threads out for good.
`QueueWakeups` shows that no wakeup is lost: with one thread on each side, and with repeated checks for
any number of threads. `QueueProgress` shows that calls end: how many steps they take, who can block
whom, and that all of them can return.

**The message bus.** `Buses` is the state of `mb.c` and `em.c` as a value, `MessageBuses` the same state
updated in place by the loop of `mb_send`. `BusRouting` gives the closed form of that loop, `BusAnswers`
what each call answers and counts, `BusRuns` what it means over any run of calls: what each pipe
delivers, what the counters say, which indices are stored.

**The task manager.** `Tasks` is one entry of the task table with its exact schedule, `Slots` the whole
table over any number of slots, `TaskManagers` the code that updates it. `Shutdown` lets the scheduler,
`tm_stop` and the tasks that loop on `tm_running` interleave freely; `ShutdownResults` states the rate
of every task and that none is left blocked, `SchedulerProgress` that every tick can have its slot and
every task its full rate.

**Unity and tinycthread.** `UnityPrint`, `UnityFloat`, `UnityCompare` and `UnityFilter` cover the number
printers, the distance assertions and the name filter, `FloatTexts` why the texts of `UnityFloat` are
the only ones; `PointerLog` the fixture's undo log, on a memory where pointers may coincide; `CallOnce`
the Win32 `call_once` for any number of threads; `TimedLock` the fallback loop of `mtx_timedlock`.

Runs are sequences of actions; a partial function says which state an action leads to, and every
choice of a scheduler, of a clock or of the operating system is part of the action or a parameter.

## Properties that the code does not have

- A ring outside `SlotsFit` has a slot that starts at a negative offset (`Rings.SlotsInsideIff`).
- The `if` around the waits is not enough for two senders, two receivers or spurious wakeups
  (`QueueLimits.BoundedIffSafe`, with the bad runs built for every number of slots).
- The mutex is not always released. It is, in all runs, exactly when a failed wait does not lock it again
  (`QueueMutex.MutexReleasedIff`, with the run that keeps it in `QueueMutex.MutexKept`); a call keeps it exactly
  when its thread has had such a wait before (`QueueMutex.ReturnReleases`).
- A registered index may name no pipe, because `mb_register_packet` compares with `>`
  (`BusRuns.RegisterBeforeCreate`); it happens exactly in the calls `BusRuns.RegistersNext` describes.
- A periodic entry with heartbeat 0 is never scheduled (`ShutdownResults.DeadHeartbeat`).
- The array form of the distance assertion reads unsigned elements as signed ones
  (`UnityCompare.UnsignedElementsFail`); `UnityCompare.UnsignedArrayVerdict` says exactly when that does not matter.

## Where the code and its comments disagree

The model follows the code.

- `pthread_cond_signal` does not release the mutex (lines 278 and 386 of the queue say so); the unlock
  at the end does.
- `tm_definitions.h` asks that a bitfield have as many bits as there are tasks, 100; its type is `int`.
- `em_event` takes a 32-bit line number, of which the event packet keeps 16 bits.
- The comment on a wait in `os_queue_receive` (line 362) says a failed wait leaves the mutex unlocked.

## Model

| member | source | states |
|---|---|---|
| Rings.SlotsInsideIff | os/posix/src/os_queue_portable.c:133 | every slot lies inside the allocated buffer exactly when the last slot starts below 2^31, for all sizes |
| Rings.SlotsDisjoint | os/posix/src/os_queue_portable.c:269-270 | two different slots share no byte |
| Rings.StoredGood | os/posix/src/os_queue_portable.c:265-275 | a store into a ring with space keeps write = read + count modulo the number of slots, and its slot is none of the unread ones |
| Rings.StoredAppends | os/posix/src/os_queue_portable.c:265-275 | a store appends exactly the given bytes to the unread messages, across all wraparounds |
| Rings.HeadInside | os/posix/src/os_queue_portable.c:371-378 | the copy out of the read slot stays inside the buffer and is the oldest message |
| Rings.LoadedRemoves | os/posix/src/os_queue_portable.c:371-383 | a load removes exactly the oldest message, with its original length |
| Rings.RingRefinesFifo | os/posix/src/os_queue_portable.c:169-404 | each call, successful or not, answers as the abstract queue does and leaves the ring representing the abstract result; failed calls change nothing |
| Rings.RunRefines | os/posix/src/os_queue_portable.c:169-404 | over any run of calls the ring gives the answers of the abstract queue |
| QueueAnswers.RingAnswers | os/posix/src/os_queue_portable.c:169-404 | over any run from any valid queue: what was there and what was accepted is, in order, what was handed out and what is left; each answer follows from that, with its exact condition for every result code |
| QueueAnswers.Drains | os/posix/src/os_queue_portable.c:347-383 | receives with room for a slot get exactly the unread messages in order, each with OKAY; those after the last message answer as their wait ends |
| OsQueues.OsQueueCreate | os/posix/src/os_queue_portable.c:29-167 | result for every argument error and allocation failure; a created queue is empty, and usable exactly when its slots fit |
| OsQueues.Store | os/posix/src/os_queue_portable.c:262-275 | the in-place critical section of send is the ring's store |
| OsQueues.Load | os/posix/src/os_queue_portable.c:368-383 | the in-place critical section of receive is the ring's load, and writes the message and nothing else into the caller's buffer |
| OsQueues.OsQueueSend | os/posix/src/os_queue_portable.c:169-296 | in place, a send is the send of the abstract queue, error cases included |
| OsQueues.OsQueueReceive | os/posix/src/os_queue_portable.c:298-404 | in place, a receive is the receive of the abstract queue; the rest of the target buffer is untouched, and all of it on failure |
| QueueProtocol.MutualExclusion | os/posix/src/os_queue_portable.c:217-293 | in every run of every configuration no two threads are in a critical section at the same time |
| QueueMutex.MutexDepth | os/posix/src/os_queue_portable.c:217-293 | the depth of the recursive mutex after any run: one for an owner in a critical section, and one for every failed wait of the owner that has locked it again; no other thread has had one |
| QueueMutex.ReturnReleases | os/posix/src/os_queue_portable.c:286-293 | after any run, a call returns with the mutex exactly when a failed wait of its thread has locked it again earlier in that run |
| QueueMutex.MutexKept | os/posix/src/os_queue_portable.c:242-256 | if failed waits lock again, any sender or receiver can be the thread that holds the mutex for good: a run after which every call has returned and it owns the mutex |
| QueueMutex.MutexReleasedIff | os/posix/src/os_queue_portable.c:180-182 | in all runs no thread outside a call holds the mutex, exactly when failed waits do not lock it again, as the source assumes |
| QueueMutex.KeptForever | os/posix/src/os_queue_portable.c:256 | from the first such wait on, whatever follows, its thread owns the mutex and no other one is ever in a critical section |
| QueueProtocol.QueueSafety | os/posix/src/os_queue_portable.c:237-284 | in every safe run the count is in bounds, received plus queued messages are the sent ones in order, and no unread slot is about to be overwritten |
| QueueWakeups.NeverBothWait | os/posix/src/os_queue_portable.c:347-387 | with one sender and one receiver the two never wait at the same time: no signal is lost |
| QueueWakeups.NoLostWakeup | os/posix/src/os_queue_portable.c:277-387 | in every safe run, for any number of threads: if a thread sleeps although it could go on, another one is about to signal its side, or one of its side is awake and on its way |
| QueueWakeups.SleepIsJustified | os/posix/src/os_queue_portable.c:237-392 | when all threads in a call of a safe run are asleep, they are all senders on a full queue or all receivers on an empty one |
| QueueProgress.CallsAreShort | os/posix/src/os_queue_portable.c:217-293 | with the waits of the source, n calls of any threads take at most 8 n steps in any interleaving: no call goes round for ever |
| QueueProgress.CallsComplete | os/posix/src/os_queue_portable.c:180-182 | if failed waits do not hold the mutex, every run of every configuration can be continued, without new calls, until all calls have returned and the mutex is free |
| QueueProgress.NoCallIsStuck | os/posix/src/os_queue_portable.c:217-293 | under the same reading, when nothing but a new call is possible all calls have returned |
| QueueProgress.BlockedByMutexOnly | os/posix/src/os_queue_portable.c:217-220 | in every run of every configuration a thread in a call is blocked exactly when it needs the mutex and another thread holds it |
| QueueProgress.FailedWaitReturns | os/posix/src/os_queue_portable.c:350-366 | a call whose wait fails returns by its own next steps, with the queue and all that has passed through it unchanged; if the wait locks again, with the mutex one level deeper, and not before it can have it |
| QueueLimits.Stolen | os/posix/src/os_queue_portable.c:240-275 | a woken thread that does not check again moves a message that another thread has taken or a slot it has filled |
| QueueLimits.SpuriousReceiver | os/posix/src/os_queue_portable.c:347-383 | a spurious wakeup makes a receiver take from an empty queue |
| QueueLimits.BoundedIffSafe | os/posix/src/os_queue_portable.c:237-392 | the count stays in bounds in all runs exactly when waits are re-checked, or there is one sender, one receiver and no spurious wakeup |
| Buses.LittleEndianValue | fsw/inc/msg_definitions.h:60-65 | a field of n bytes holds a value modulo 256^n |
| Buses.WireRoundTrip | fsw/src/mb/mb.c:57-59 | the bytes put on a pipe hold the header fields, the true data length and the data |
| Buses.EventFields | fsw/src/em/em.c:44-55 | where em_event puts its fields, and that event id and line keep 16 bits only |
| BusRouting.FanOut | fsw/src/mb/mb.c:65-102 | every registered pipe takes min(copies, room) copies whatever happened to the others; all other pipes are unchanged |
| BusRouting.FanOutResult | fsw/src/mb/mb.c:64-102 | each attempt's outcome follows from the state before the send; the result is the last one, the error count the number of attempts ending in neither OKAY nor TIMEOUT |
| BusRouting.LastErrorReported | fsw/src/mb/mb.c:96-99 | the error fields describe the last failed attempt |
| BusRouting.SendRoutes | fsw/src/mb/mb.c:37-106 | NO_RECEIVER exactly without registrations, otherwise the last pipe's outcome; copies and errors per pipe for the call as a whole |
| BusRouting.NullSendRoutes | fsw/src/mb/mb.c:43-53 | a NULL message is counted as sent and as an error, and reported by an event that is routed and counted like any message; the event counters follow its outcome |
| BusAnswers.ReceiveAnswers | fsw/src/mb/mb.c:113-158 | OKAY exactly for an existing pipe with a message and enough room, and then its oldest message; a timeout changes nothing; every other failure of a pipe is counted, and the error fields name that pipe and code |
| BusAnswers.AttemptAnswers | fsw/src/mb/mb.c:69-101 | which code each registered pipe gives, from its room and the copies sent to it before; only a timeout is no error |
| BusAnswers.SendAnswers | fsw/src/mb/mb.c:64-105 | the result of a send: OKAY, TIMEOUT or SEND_ERROR, by the room of the last registered pipe and the way its wait ends |
| BusAnswers.EventAnswers | fsw/src/em/em.c:42-72 | module ids 1 to 5 are sent and counted by the result of the send, any other id is only counted |
| BusRuns.StepDelivery | fsw/src/mb/mb.c:37-240 | for every call and pipe: handed out plus still queued equals queued before plus contributed |
| BusRuns.RunDelivery | fsw/src/mb/mb.c:37-240 | the same over any run from any valid state |
| BusRuns.WholeRunDelivery | fsw/src/mb/mb.c:28-240 | from initialization on, what a pipe has delivered followed by what it holds is its send history: one copy per registration at send time less the refused ones, in order |
| BusRuns.RunAccounting | fsw/src/mb/mb.c:41-154 | over any run the sent, received and error counters are the totals of the run modulo 2^32; what counts is decided by the state before each call |
| BusRuns.CreateMakesRoom | fsw/src/mb/mb.c:166-201 | which result each creation gives; an accepted one is a new pipe and takes num_msgs messages of up to msg_size_bytes of data, none if the header makes that size wrap around |
| BusRuns.RegisterAddsCopy | fsw/src/mb/mb.c:212-237 | which result each registration gives; an accepted one means one more copy for that pipe and packet id, duplicates included, and nothing else |
| BusRuns.StepRoutesExist | fsw/src/mb/mb.c:212-215 | registered indices keep naming existing pipes exactly unless a call registers the index of the next pipe |
| BusRuns.RunRoutesExist | fsw/src/mb/mb.c:206-240 | in a run without such calls every registered index is below num_pipes |
| BusRuns.RegisterBeforeCreate | fsw/src/mb/mb.c:212-215 | registering pipe 0 before any pipe exists succeeds and stores the index of no pipe |
| MessageBuses.MessageBus.Send | fsw/src/mb/mb.c:37-106 | the in-place send, with its recursion through em_event, is the send of the bus value |
| MessageBuses.MessageBus.TryPipes | fsw/src/mb/mb.c:64-102 | the loop performs all attempts in registration order |
| MessageBuses.MessageBus.EmEvent | fsw/src/em/em.c:33-73 | the in-place event, including refused module ids, is the event of the bus value |
| MessageBuses.MessageBus.Receive | fsw/src/mb/mb.c:108-160 | the in-place receive with its counters and error fields is the receive of the bus value |
| MessageBuses.MessageBus.CreatePipe | fsw/src/mb/mb.c:162-204 | the in-place creation, error cases included, is that of the bus value |
| MessageBuses.MessageBus.Register | fsw/src/mb/mb.c:206-240 | the in-place registration, error cases included, is that of the bus value |
| Tasks.PeriodicTicks | fsw/src/tm/tm.c:298-314 | after n updates the ticks of a periodic entry are n mod p, without overflow, and the n-th status is given in closed form |
| Tasks.PeriodicCounts | fsw/src/tm/tm.c:298-314 | in n updates it is scheduled n div p times and misses (n div p)(p - h) + max(0, n mod p - h + 1) heartbeats; none if h >= p, all if h is 0 |
| Tasks.EventTicks | fsw/src/tm/tm.c:316-324 | the ticks of an event entry wrap at 2^32, and it misses exactly while they are at least its heartbeat |
| Tasks.CallbackTicks | fsw/src/tm/tm.c:326-336 | a callback entry fires exactly in the slots its period divides; period 0 acts as 2^32 |
| Tasks.PassiveTicks | fsw/src/tm/tm.c:291-342 | unregistered and monitored entries are neither scheduled nor missed: they only count modulo 2^32, with status ERROR or WAIT |
| BitFields.OrBitExact | fsw/src/tm/tm.c:241-242 | setting a bit sets that bit and keeps every other one |
| Slots.SlotsProgress | fsw/src/tm/tm.c:183-195 | after n slots every entry has moved as if alone, and the two bitfields hold their old bits plus exactly the ids scheduled or missed |
| Slots.SlotCallbacks | fsw/src/tm/tm.c:249-260 | slot n runs exactly the callbacks that are due, in increasing order of id |
| Slots.GivenInSlot | fsw/src/tm/tm.c:234-242 | slot n gives a semaphore exactly if the period divides n; after n slots n div p tokens have been given |
| Slots.CalledInSlot | fsw/src/tm/tm.c:249-260 | a callback is run in slot n exactly if its period divides n |
| Slots.ScheduledBits | fsw/src/tm/tm.c:241-242 | the scheduled bits below 31 after n slots, from registration |
| Slots.MissedBits | fsw/src/tm/tm.c:267-270 | the missed-heartbeat bits below 31 after n slots, from registration |
| Slots.LastTokens | fsw/src/tm/tm.c:210-219 | after n slots the loop at the end gives every periodic task one more token and changes nothing else |
| TaskManagers.TaskManager.constructor | fsw/src/tm/tm.c:73-74 | the cleared state: no task, no bit, running |
| TaskManagers.TaskManager.PeriodicTask | fsw/src/tm/tm.c:349-402 | which arguments are refused, the stored entry with its periods as unsigned values, and that no other entry changes |
| TaskManagers.TaskManager.EventTask | fsw/src/tm/tm.c:404-439 | the same for an event task: no period, a heartbeat |
| TaskManagers.TaskManager.CallbackTask | fsw/src/tm/tm.c:441-474 | the same for a callback: a period, no heartbeat, and period 0 accepted |
| TaskManagers.TaskManager.MonitorTask | fsw/src/tm/tm.c:476-505 | the same for a monitored task: neither, and no function |
| TaskManagers.TaskManager.UpdateTask | fsw/src/tm/tm.c:279-347 | the in-place update is the update of the entry, and touches no other |
| TaskManagers.TaskManager.ProcessTask | fsw/src/tm/tm.c:222-277 | the in-place processing of a status |
| TaskManagers.TaskManager.RunSlot | fsw/src/tm/tm.c:183-201 | the loop over the table is one slot of module Slots |
| TaskManagers.TaskManager.SchedulerTask | fsw/src/tm/tm.c:172-220 | alone, the scheduler runs as many slots as its semaphore can be taken, then stops and gives every periodic entry a last token |
| Shutdown.InvRun | fsw/src/tm/tm.c:157-220 | the token invariant of every periodic task holds in every interleaving |
| ShutdownResults.RateGuarantee | fsw/src/tm/tm.c:157-195 | tokens given are n div p plus one at shutdown, the semaphore is gives minus takes, tm_running has returned true at most n div p times |
| ShutdownResults.DeadHeartbeat | fsw/src/tm/tm.c:310-313 | with heartbeat 0 a periodic task never passes tm_running |
| ShutdownResults.OneLateToken | fsw/src/tm/tm.c:157-170 | a task takes at most one token after the stop, and is then leaving |
| ShutdownResults.NoTaskLeftBlocked | fsw/src/tm/tm.c:210-219 | once the scheduler has finished, every task still in its loop can take its next step and leaves at its next read of the flag |
| ShutdownResults.ShutdownIsBounded | fsw/src/tm/tm.c:157-165 | from then on the tasks have an exact number of steps left, in whatever order |
| ShutdownResults.ShutdownCompletes | fsw/src/tm/tm.c:167-219 | a stop in any reachable state, by tm_stop or by a failing semaphore, can be continued until the scheduler has finished and all tasks have left their loops |
| ShutdownResults.StopIsFinal | fsw/src/tm/tm.c:157-207 | after a stop, whatever follows, the flag stays down, tm_running never returns true again, and at most one more slot is run |
| ShutdownResults.CallsAnswered | fsw/src/tm/tm.c:157-165 | each time around its loop a task calls tm_running once, and all calls but the last have returned true |
| SchedulerProgress.SlotPerTick | fsw/src/tm/tm.c:172-201 | in every interleaving each tick of the timer is one slot: completed, under way or still waiting |
| SchedulerProgress.FullRate | fsw/src/tm/tm.c:157-201 | while running, every reachable state can be continued until each tick has had its slot and every live periodic task has passed tm_running exactly ticks div period times |
| SchedulerProgress.BlockedByTokensOnly | fsw/src/tm/tm.c:157-180 | a task in its loop is blocked exactly while it is periodic, calls tm_running and has no token; the scheduler exactly while it waits for a tick |
| Numerals.NumeralUnique | test/unity/unity.c:369-385 | a number has only one numeral without leading zeros, so the printer's contract fixes its output |
| UnityPrint.PrintNumberUnsigned | test/unity/unity.c:369-385 | for every 64-bit number the output denotes it, has no leading zero, and the divisor never overflows |
| UnityPrint.PrintNumber | test/unity/unity.c:354-365 | the output denotes every signed value, the minimum included |
| UnityPrint.RepeatOption | test/unity/unity_fixture.c:256-274 | the count is 2, or what the leading digits of the next argument denote modulo 2^32 |
| UnityPrint.PrintThenRead | test/unity/unity_fixture.c:262-270 | reading back what was printed gives the number exactly below 2^32 and only there |
| UnityPrint.PrintNumberHex | test/unity/unity.c:388-411 | exactly k = min(nibbles, 16) digits, denoting the number modulo 16^k; negative counts act as 16 |
| UnityFloat.FillDigits | test/unity/unity.c:559-565 | the reversed digits of a number, padded, fit in the 16 characters of the buffer |
| UnityFloat.TrimZeros | test/unity/unity.c:551-556 | each zero removed is a factor of ten, and none is left after the point |
| UnityFloat.EmitDigits | test/unity/unity.c:566-570 | the digits in order with the point before the last `decimals` of them |
| UnityFloat.EmitExponent | test/unity/unity.c:572-597 | no suffix for exponent 0, otherwise e, sign and the digits of the exponent: two, or more without a leading zero |
| UnityFloat.PrintScaled | test/unity/unity.c:548-597 | the text is in standard form and denotes exactly n * 10^exponent, in fixed notation exactly for exponents from -(digits + 3) to 0; otherwise its exponent puts one digit before the point, which is not 0 if n has all its digits |
| FloatTexts.TextUnique | test/unity/unity.c:548-597 | in standard form a number and an exponent have one text only, so PrintScaled's contract fixes its output |
| FloatTexts.FloatTextUnique | test/unity/unity.c:548-597 | in either notation the number alone fixes the text, if its leading digit is not 0 where there is an exponent |
| UnityCompare.ComparisonExact | test/unity/unity.c:1295-1316 | the modular comparison is that of the mathematical distance, for all 64-bit values |
| UnityCompare.AssertNumbersWithin | test/unity/unity.c:1286-1330 | the assertion fails exactly when the distance exceeds delta |
| UnityCompare.StyleWidths | test/unity/unity.c:1368-1420 | the elements of each display style have the bytes its name says, four for an unknown size |
| UnityCompare.AssertNumbersArrayWithin | test/unity/unity.c:1333-1450 | it fails exactly when some pair of elements differs by more than delta and reports the first such index; empty, null and identical arrays |
| UnityCompare.SignedArrayVerdict | test/unity/unity.c:1368-1408 | in a signed style the array verdict is about the values stored in two's complement: it fails exactly when two of these values differ by more than delta |
| UnityCompare.UnsignedElements | test/unity/unity.c:1368-1420 | in an unsigned style a pair is seen as differing exactly when it differs by more than delta, or its top bits differ and delta lies below the distance of the values as misread |
| UnityCompare.UnsignedArrayVerdict | test/unity/unity.c:1368-1420 | in an unsigned style the array verdict is the intended one exactly when some pair really exceeds delta, or no pair is misread |
| UnityCompare.UnsignedElementsFail | test/unity/unity.c:1370-1418 | the arrays [1] and [255] of UINT8 fail a comparison within 254 |
| UnityFilter.IsStringInBiggerString | test/unity/unity.c:1954-1996 | the search ends, and is nonzero exactly for a star or when the pattern up to its terminator occurs; 2 exactly for a colon |
| PointerLog.UndoneAt | test/unity/unity_fixture.c:171-179 | undoing gives each logged location the old value of its first entry, and leaves all others |
| PointerLog.PerformKeepsRestored | test/unity/unity_fixture.c:156-169 | whatever a block of user code does and wherever it is left, a location changed through the log only stays restorable |
| PointerLog.TestLeavesNoTrace | test/unity/unity_fixture.c:97-113 | after the runner, wherever setup, body and teardown were left, such a location has its original value |
| PointerLog.FirstSetRestored | test/unity/unity_fixture.c:156-179 | undoing restores the value a location had at its first set, whatever was written directly before or after it |
| PointerLog.DecidedRunsOn | test/unity/unity.c:24 | once a test has failed or is ignored, later failures and refused sets no longer leave a block: the rest of it is performed |
| PointerLog.DecidedPassEnds | test/unity/unity_fixture.c:101-109 | only an early pass still ends a block then |
| PointerLog.FirstDecides | test/unity/unity.c:1739-1788 | in an undecided test the first act that fails, ignores or passes it, or sets one pointer too many, ends the block and alone decides the verdict |
| PointerLog.SetupEndsBody | test/unity/unity_fixture.c:101-105 | such an act in setup skips the whole body, but not teardown |
| PointerLog.TeardownRuns | test/unity/unity_fixture.c:106-109 | teardown is performed whatever setup and body did, and does not change their verdict by itself |
| PointerLog.Fixture.Fail | test/unity/unity.c:1739-1770 | failing leaves the block and sets the flag, unless the test has already failed or is ignored |
| PointerLog.Fixture.Set | test/unity/unity_fixture.c:156-169 | a set is logged with the value it replaces; past the limit it changes nothing but fails the test, and leaves the block only if the test is undecided |
| PointerLog.Fixture.UndoAllSets | test/unity/unity_fixture.c:171-179 | the loop restores all entries, last one first, and empties the log |
| PointerLog.Fixture.Protected | test/unity/unity_fixture.c:101-109 | a protected block has the effect of its acts up to the one that leaves it |
| PointerLog.Fixture.Conclude | test/unity/unity_fixture.c:284-310 | the test is counted once, as ignored before failed, and both flags are cleared |
| PointerLog.Fixture.TestRunner | test/unity/unity_fixture.c:97-113 | the final memory and verdict of a test, and that locations changed through the log only are unchanged |
| CallOnce.OnceOnly | lib/tinycthread/tinycthread.c:896-926 | for any number of threads and any schedule func is called at most once, nobody returns before it has ended, nobody reaches the critical section before it is initialised |
| CallOnce.NoDeadlock | lib/tinycthread/tinycthread.c:910-923 | a thread is only ever blocked by one that can take its next step |
| CallOnce.NoBusyWaiting | lib/tinycthread/tinycthread.c:900-922 | while func runs, the other threads take at most three steps each before they are blocked |
| CallOnce.EverybodyReturns | lib/tinycthread/tinycthread.c:896-926 | every run can be continued until all threads have returned, with func called and ended exactly once |
| TimedLock.ReachedExact | lib/tinycthread/tinycthread.c:196-199 | comparing seconds, then nanoseconds, compares the times |
| TimedLock.SleepExact | lib/tinycthread/tinycthread.c:201-213 | each sleep is a normal time: what is left until the deadline, or five milliseconds if that is less |
| TimedLock.Lock | lib/tinycthread/tinycthread.c:192-226 | the loop sleeps exactly in the rounds that are busy and early, and ends in the first other one: locked, timed out or failed |

## Left out

- Failure to lock the queue mutex: `pthread_mutex_timedlock` returns positive codes, so `ret_code < 0` never notices it; the model assumes that locking succeeds.
- Clock errors, initialisation errors of mutexes and condition variables, and the conversion of timeouts to `timespec`, which does not carry nanoseconds: how a wait ends is a parameter, and no deadline is claimed for the queue.
- A blocked `mb_send` that another thread makes room for: a bus call is taken by itself, and waiting on a full or empty pipe ends in a timeout or an error. What happens while a queue call waits is in QueueProtocol.
- A bus whose pipes do not satisfy `SlotsFit`: the bus is stated over the abstract queue, which the ring represents only under that condition.
- The size argument of `mb_receive`, which adds to the pointer instead of the value: `room` is whatever size reaches the queue.
- `mb_register_packet` with packet id 4 and a pipe of at most `num_pipes`, or with pipe 100 where that registration is accepted, and `mb_send` with a packet id of 4 or more: they index past an array or store an index that does. All other registrations are modelled.
- The four bytes behind an event that its length field also covers: they are a parameter. Byte order is little-endian.
- Failed takes of a task semaphore (`sem_wait` interrupted by a signal), which `tm_running` ignores, and a full semaphore: a take waits for a token, and giving succeeds.
- `os_task_status`, which always reports OKAY in the POSIX build, task names, stack sizes, priorities, and spawning.
- How the result code of a queue call passes through its steps in QueueProtocol: the codes are those of QueueAnswers, for calls of which one runs at a time.
- Task ids of 31 and above in the bitfields, which are plain ints; from id 64 on the shift itself is undefined.
- What a callback does: it is recorded as called. A callback that stops the system is a Stop action in module Shutdown.
- `tlm.c`, which waits with id 10 while it is registered as 3: tasks are assumed to use their own id. The scheduler's own periodic entry is one that no thread takes from.
- UnityFloat.PrintScaled: starts from the scaled integer; scaling and rounding of the floating-point value are not modelled.
- UnityPrintNumberByStyle, messages, test selection by name, and the other output of a test; an abort leaves a protected block, as longjmp does. Unity's counters of tests are unbounded here.
- `UnityStringArgumentMatches`, bit and memory assertions, and the other comparison assertions of Unity.
- The Win32 condition variables and thread-specific storage of tinycthread; `call_once` and `mtx_timedlock` are the parts with a protocol.
- `os_queue.c`, `os_mutex.c`, `os_sem.c`, `os_timer.c`, `os_time.c`, `protoflight.c` and `incubator/`: thin wrappers or unfinished.
