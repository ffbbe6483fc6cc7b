# Verified model of the mbed-os runtime under a blinking LED

The application toggles one LED. What it stands on is the mbed-os runtime, and
this project models, in Dafny, the parts of it that carry hard promises, and
proves those promises:

- **The ticker** (`TickerTime`, `EventQueue`, `TickerHal`, `TickerQueue`): a
  microsecond clock kept over a wrapping counter of 4 to 32 bits, and an
  interrupt-driven queue of events in a linked list on the heap. The counter is
  an unbounded tick count that software sees modulo 2^bits, and any operation
  may let time pass. The clock is exact over any number of wraps, the compare
  register is never programmed too late, no event is lost, none runs early or
  twice, and due events run in order.
- **Ticker and Timeout** (`PeriodicTicker`): the k-th expiry is exactly k delays
  after the first, however late the callbacks run, and over whole runs every
  attached one always has its next interrupt under way.
- **Deep-sleep accounting** (`DeepSleep`, `SleepClients`, `PowerSystem`,
  `DeepSleepRace`): over whole runs of tickers, stopwatches, serial ports and
  lock objects, with callbacks that may act on any of them, the global counter is
  the number of reasons to stay awake.
- **CRC** (`Gf2`, `CrcWords`, `Crc`, `CrcTables`): polynomials over GF(2) as
  natural numbers, remainders with their uniqueness, the bitwise and the
  table-driven loop on 32-bit words, computation in parts, reflection, burst
  errors, and the five constant tables entry by entry.
- **Buffered UART** (`RingBuffer` in CircularBuffer.dfy, `UartSerial`): ring
  buffers that refine a bounded queue, and a writer, a reader, two interrupt
  handlers and the hardware interleaved between any two atomic steps.
- **Flash** (`Flash` in FlashIap.dfy): programming and erasing in chunks over
  sectors of different sizes, with memory that programming can only clear.
- **Critical sections** (`CriticalSection`): one machine instruction at a time,
  any number of threads and handlers preempting each other.

`Words` holds the fixed-width arithmetic. `dafny verify dfyconfig.toml` checks
everything.

Objects the source updates in place are classes whose methods are proved against
functions and invariants; specification-only state (the ledger of a queue, the
byte streams of a port, the calls made to the event handler and to the flash) is
ghost. What the
environment is trusted with is a parameter or a field: how long a register access
takes, how long a request waits for its interrupt and how long a callback computes
(`Counter.opTicks`, `latency`, `workTicks`), how long the serial line may stay
silent (`txPatience`, `rxPatience`), whether the flash device fails
(`FlashDevice.reliable`). That the clock is always read before the counter comes
round is not trusted but follows: `Counter.Prompt` bounds the three times by
fractions of a period, and the bound on the next reading is part of the ticker's
invariant.

## Where the code does less than it says

- An update that comes a full counter period late loses whole periods for ever
  (`UpdateExactIff` is the exact condition, `WholePeriodLost` and `TwoSecondsLost`
  are such updates).
- With an empty queue the compare value is programmed without reading the counter
  again, so the wake-up comes a period late exactly when programming took until
  the match or longer (`ArmUnchecked`, with `ArmedLate` as an example).
- The initialiser of the 16-bit IBM table lists 252 of 256 entries; the four that
  the language fills with zero are wrong and the rest are right
  (`IbmEntryRightIff`).
- For width 7 the table register is the bitwise register shifted by one place, but
  the initial value is not shifted along: the two forms agree exactly under the
  condition of `NarrowTableAgreesIff`. With initial value 1 they differ on every
  message (`NarrowFormsDiffer`).
- The end check of flash programming and erasing wraps at 32 bits; `EndPassesIff`
  says for which ranges it tells the truth, and `EndPassesWrongly` is one where it
  does not. The loops are proved safe for every range all the same, as long as the
  device refuses addresses outside the flash.
- Erasing checks where a range ends but not where it starts: the first sector
  erased lies in the range exactly when the range starts with it
  (`FirstSectorInsideIff`; `FirstSectorOutside` is a range where it does not).
- Between the two counters of a shared `DeepSleepLock` another thread may complete
  a `lock` and still find deep sleep allowed; `AllowedInside` is such a run and
  `AllowedInsideIff` the exact condition.

## Model

| member | source | states |
|---|---|---|
| TickerTime.FrequencyShifts | mbed-os/hal/mbed_ticker_api.c:45-51 | the search finds the exponent of a power-of-two frequency, and 0 exactly when there is none |
| TickerTime.MaxDeltaBelowPeriod | mbed-os/hal/mbed_ticker_api.c:58-60 | the scheduling bound is 7/16 of the counter's period, below it, and fits 32 bits |
| TickerTime.ElapsedIsExact | mbed-os/hal/mbed_ticker_api.c:129 | the masked 32-bit difference of two readings is the true number of ticks, across any wrap |
| TickerTime.ConvertIsExact | mbed-os/hal/mbed_ticker_api.c:132-160 | in all three branches microseconds and remainder together hold exactly the elapsed ticks, without 64-bit overflow |
| TickerTime.UpdateExactIff | mbed-os/hal/mbed_ticker_api.c:120-164 | an update keeps the clock exact if and only if less than a counter period passed since the last |
| TickerTime.WholePeriodLost | mbed-os/hal/mbed_ticker_api.c:123-127 | an update exactly one period after the last sees no work to do, and the clock is no longer exact |
| TickerTime.TwoSecondsLost | mbed-os/hal/mbed_ticker_api.c:120-164 | with 16 bits at 32768 Hz an update at tick 65536 after one at tick 0 leaves the clock wrong |
| TickerTime.NoDrift | mbed-os/hal/mbed_ticker_api.c:120-164 | after any sequence of updates less than a period apart the clock is the floor of the elapsed time, however it was sliced |
| TickerTime.IntervalWithinOne | mbed-os/drivers/Timer.cpp:98-107 | two readings of the clock differ by less than a microsecond from the time between them |
| TickerTime.ComputeDeltaIsClampedFloor | mbed-os/hal/mbed_ticker_api.c:174-200 | all three branches give the floor of the ticks to wait, clamped to the bound, with no 32-bit or 64-bit overflow |
| TickerTime.MatchTickBracketsTarget | mbed-os/hal/mbed_ticker_api.c:169-202 | at the match tick the clock is not past the target, and unless clamped one more tick reaches it |
| TickerTime.NextMatchIsFirst | mbed-os/hal/us_ticker_api.h:62-75 | the tick at which an armed compare register matches is the first later one with that residue |
| TickerTime.MatchIntervalPassedIff | mbed-os/hal/mbed_ticker_api.c:207-214 | the comparison of three wrapped values decides exactly whether the counter reached the match since the earlier reading |
| TickerTime.ArmedInTimeIff | mbed-os/hal/mbed_ticker_api.c:254 | a compare value programmed before its tick catches that tick, and one programmed later comes exactly a period late |
| TickerTime.ArmAndRecheck | mbed-os/hal/mbed_ticker_api.c:245-259 | after programming and reading again, either the miss is detected or the register catches exactly the intended tick |
| TickerTime.ArmUnchecked | mbed-os/hal/mbed_ticker_api.c:260-264 | without the second reading the match comes in time exactly when programming finished before it |
| TickerTime.ArmedLate | mbed-os/hal/mbed_ticker_api.c:260-264 | a 4-bit compare value for tick 7 that takes effect at tick 7 matches at tick 23 |
| TickerTime.WakeupLeavesNineSixteenths | mbed-os/hal/mbed_ticker_api.c:216-228 | waking at most 7/16 of a period after an update leaves 9/16 for latency before the counter wraps |
| TickerTime.ConvertTimestampIsLeast | mbed-os/hal/mbed_ticker_api.c:105-115 | a 32-bit timestamp becomes the least 64-bit time not before the reference with these low bits |
| EventQueue.InsertKeepsSorted | mbed-os/hal/mbed_ticker_api.c:342-365 | insertion keeps the queue sorted and adds exactly the new entry |
| EventQueue.InsertIsStable | mbed-os/hal/mbed_ticker_api.c:342-354 | entries of equal time stay first-in first-out and no other order changes |
| EventQueue.RemoveKeepsSorted | mbed-os/hal/mbed_ticker_api.c:374-389 | removal keeps the queue sorted and takes out exactly one entry |
| EventQueue.InsertKeepsBalanced | mbed-os/hal/mbed_ticker_api.c:331-368 | the queue still holds exactly the open insertions, each once |
| EventQueue.SettleKeepsBalanced | mbed-os/hal/mbed_ticker_api.c:291-298 | firing, dropping or cancelling closes exactly one insertion, firing never before its time |
| EventQueue.ExplainDispatch | mbed-os/hal/mbed_ticker_api.c:283-304 | one more dispatch extends the account of firings: once per insertion, at or after its time, and no others |
| EventQueue.StillInOrder | mbed-os/hal/mbed_ticker_api.c:283-304 | dispatching the head keeps the firings in timestamp order when handlers insert nothing earlier |
| TickerHal.Counter.SetInterrupt | mbed-os/hal/us_ticker_api.h:62-75 | the register takes effect within the operation's time and then matches at the first increment to its value |
| TickerQueue.Queue.constructor | mbed-os/hal/mbed_ticker_api.c:28-76 | initialisation establishes the invariants and has an interrupt under way |
| TickerQueue.Queue.SetHandler | mbed-os/hal/mbed_ticker_api.c:81-84 | the queue has a handler; what it then does with due events is the contract of PopHead |
| TickerQueue.Queue.ReadsBeforeWrap | mbed-os/hal/mbed_ticker_api.c:216-228 | in every valid state the next reading of the clock, made at once, comes within a period of the last update |
| TickerQueue.Queue.UpdatePresentTime | mbed-os/hal/mbed_ticker_api.c:120-164 | the clock becomes the exact floor at the tick just read, and no scheduled interrupt is lost |
| TickerQueue.Queue.ConvertElapsed | mbed-os/hal/mbed_ticker_api.c:132-160 | the in-place conversion computes the specification that is proved exact |
| TickerQueue.Queue.ScheduleInterrupt | mbed-os/hal/mbed_ticker_api.c:229-265 | afterwards an interrupt is pending or the compare register matches ahead, within the bound and not past the first event; an interrupt is requested only with a reason, and unless one worth waking for is, the register is programmed anew, even under an older request |
| TickerQueue.Queue.ArmForHead | mbed-os/hal/mbed_ticker_api.c:245-259 | the match for the first event is neither late nor more than one tick early, unless clamped, and a miss during programming is caught |
| TickerQueue.Queue.ArmForWrap | mbed-os/hal/mbed_ticker_api.c:260-264 | with an empty queue the wake-up is the farthest allowed |
| TickerQueue.Queue.FindLater | mbed-os/hal/mbed_ticker_api.c:345-354 | the walk over the list stops at the first event that is later |
| TickerQueue.Queue.LinkBefore | mbed-os/hal/mbed_ticker_api.c:356-365 | the pointer updates splice the node into the acyclic list and change no other node's data |
| TickerQueue.Queue.InsertEventUs | mbed-os/hal/mbed_ticker_api.c:331-368 | the heap list refines sorted insertion of the event with its time and id, the clock is read, and the interrupt is scheduled anew for a new head and otherwise left alone |
| TickerQueue.Queue.InsertEvent | mbed-os/hal/mbed_ticker_api.c:311-329 | the event gets the least time with the given low bits that is not before the clock, within one 32-bit range |
| TickerQueue.Queue.Dequeue | mbed-os/hal/mbed_ticker_api.c:374-389 | exactly that node leaves the list; a node that is not queued changes nothing |
| TickerQueue.Queue.RemoveEvent | mbed-os/hal/mbed_ticker_api.c:370-392 | removal cancels exactly that event and schedules the interrupt anew after the head; otherwise the hardware is not touched |
| TickerQueue.Queue.PopHead | mbed-os/hal/mbed_ticker_api.c:294-298 | the due head is taken out and recorded, with its id, as fired at the clock's time, or as dropped without a handler |
| TickerQueue.Queue.RunHandler | mbed-os/hal/mbed_ticker_api.c:296-298 | the handler is called once, with the id it is given and at the clock's time; whatever insertions and removals it then makes fire nothing |
| TickerQueue.Queue.DispatchHead | mbed-os/hal/mbed_ticker_api.c:291-300 | with a handler the head's id is handed to it, once, at the clock's time; without one nothing is called and the event is dropped |
| TickerQueue.Queue.IrqHandler | mbed-os/hal/mbed_ticker_api.c:276-309 | the handler calls made are exactly the firings, in order, each with the event's id and the clock's time, and none without a handler; with handlers that insert, remove and compute at will, every firing is of an open insertion, not early, once, in order for polite handlers; the clock is read again after each handler; at the last reading, after all handlers, nothing was due; the request is acknowledged and the next interrupt scheduled |
| TickerQueue.Queue.Run | mbed-os/hal/mbed_ticker_api.c:276-392 | every interleaving of insertions, removals, readings, interrupts and passing time keeps clock, list, ledger and schedule |
| TickerQueue.Queue.OverdueIsPending | mbed-os/hal/mbed_ticker_api.c:229-265 | once the clock is past the first event an interrupt is pending |
| TickerQueue.Queue.TimePasses | mbed-os/hal/mbed_ticker_api.c:216-228 | time passing outside the ticker never uses up the period, whether the request comes from the compare register or from software |
| PeriodicTicker.Ticker.Setup | mbed-os/drivers/Ticker.cpp:38-45 | the first expiry is one delay after a clock reading made during the call, and the event is queued once |
| PeriodicTicker.Ticker.AttachUs | mbed-os/drivers/Ticker.h:119-129 | attaching again keeps one queued event and one deep-sleep lock |
| PeriodicTicker.Ticker.DetachTicker | mbed-os/drivers/Ticker.cpp:25-36 | the event leaves the queue and the lock is released once, also from within the callback |
| PeriodicTicker.Ticker.Rearm | mbed-os/drivers/Ticker.cpp:47-53 | the next expiry is the first plus a whole number of delays, counted from the expiry and not from the late present; the callback is still to be made |
| PeriodicTicker.Ticker.Call | mbed-os/drivers/Ticker.cpp:47-53 | the callback is recorded when it is made; a detach in it leaves the object detached, an attach in it leaves it attached with the new delay, the first expiry one delay after a reading of the clock made in it |
| PeriodicTicker.Ticker.Handler | mbed-os/drivers/Timeout.cpp:20-25 | the callback is made, once, at the clock's time, after a Ticker has queued its next expiry and a Timeout has detached, so that what the callback does to the object stands |
| PeriodicTicker.Ticker.Expire | mbed-os/hal/mbed_ticker_api.c:291-298 | the queue's dispatch calls the handler with the object's id, in the state it expects and never early, with time passing in the callback; what the handler promises holds when it returns |
| DeepSleep.SleepManager.LockDeepSleep | mbed-os/hal/mbed_sleep_manager.c:159-168 | one more reason is counted, and an overflow is reported without counting |
| DeepSleep.SleepManager.UnlockDeepSleep | mbed-os/hal/mbed_sleep_manager.c:170-179 | the account survives exactly when the caller held a reason; without any reason outstanding the underflow is reported, and otherwise the counter is one short |
| DeepSleep.SleepManager.CanDeepSleep | mbed-os/hal/mbed_sleep_manager.c:181-184 | deep sleep is allowed exactly when nobody holds a reason |
| SleepClients.Timer.Start | mbed-os/drivers/Timer.cpp:49-60 | starting locks once, measures from a reading of the clock made in the call, and loses or adds no measured time; on a running stopwatch it changes nothing |
| SleepClients.Timer.Stop | mbed-os/drivers/Timer.cpp:62-73 | stopping adds the time from the start to a reading of the clock made in the call, also when that is zero, and unlocks once |
| SleepClients.Timer.Reset | mbed-os/drivers/Timer.cpp:109-115 | the measurement restarts at zero, from a reading of the clock made in the call, whether running or not |
| SleepClients.Timer.SliceTime | mbed-os/drivers/Timer.cpp:98-107 | the slice of a running stopwatch reaches to a reading of the clock made in the call; that of a stopped one is zero |
| SleepClients.Timer.ReadHighResolutionUs | mbed-os/drivers/Timer.cpp:90-96 | finished time plus the slice up to a reading of the clock made in the call |
| SleepClients.Timer.Destroy | mbed-os/drivers/Timer.cpp:37-47 | a running stopwatch releases its lock when destroyed |
| SleepClients.SerialBase.Attach | mbed-os/drivers/SerialBase.cpp:76-98 | each slot holds the lock exactly while it has a callback |
| SleepClients.SerialBase.Destroy | mbed-os/drivers/SerialBase.cpp:148-156 | the destructor leaves no reason of the port behind |
| SleepClients.DeepSleepLock.Lock | mbed-os/platform/DeepSleepLock.h:65-74 | nested locks hold one reason; at the 16-bit limit the count wraps to zero and the overflow is reported |
| SleepClients.DeepSleepLock.Unlock | mbed-os/platform/DeepSleepLock.h:78-88 | the last unlock gives the reason up; below zero the count wraps and the underflow is reported |
| SleepClients.DeepSleepLock.Destroy | mbed-os/platform/DeepSleepLock.h:56-61 | a lock object destroyed while locked gives its reason up |
| PowerSystem.System.Conservation | mbed-os/hal/mbed_sleep_manager.c:159-184 | the counter equals attached locking tickers, running locking timers, used serial slots and held lock objects; deep sleep is allowed exactly when there are none |
| PowerSystem.System.ExpiryUnderWay | mbed-os/hal/mbed_ticker_api.c:229-265 | whenever the handler is not running, every attached ticker's next expiry has an interrupt pending, to be served in time, or a match ahead that is not past it |
| PowerSystem.System.OverdueIsPending | mbed-os/hal/mbed_ticker_api.c:229-265 | once the clock is past a ticker's expiry an interrupt is pending |
| PowerSystem.System.HeadBelongs | mbed-os/drivers/TimerEvent.cpp:35-39 | the id of a queued event names the one ticker that the event belongs to |
| PowerSystem.System.Dispatch | mbed-os/hal/mbed_ticker_api.c:291-298 | the due head's id names an attached ticker, which alone is called, with that id and at the clock's time, with the effect its callback asks for; every other client stays in order |
| PowerSystem.System.Pass | mbed-os/hal/mbed_ticker_api.c:283-306 | a pass of the interrupt's loop dispatches one event due by a reading of the clock made in it, or leaves with nothing due, nothing called and the next interrupt scheduled |
| PowerSystem.System.CreateLock | mbed-os/platform/DeepSleepLock.h:51-54 | a new lock object is accounted for from its construction |
| PowerSystem.System.DestroyLock | mbed-os/platform/DeepSleepLock.h:56-61 | an object may go while locked, and its reason goes with it |
| PowerSystem.System.Do | mbed-os/hal/mbed_sleep_manager.c:159-184 | each step has its effect on the client it names, with times measured by a reading of the clock made in the step, and none on the others; the handler is called in a dispatching pass only; every client stays valid |
| PowerSystem.System.Run | mbed-os/hal/mbed_sleep_manager.c:159-184 | every schedule of client operations, lock objects coming and going, passing time and interrupts, whose callbacks may compute and act on any client, keeps the account, the exact expiries and the next interrupt |
| DeepSleepRace.Sharing.LockAdd | mbed-os/platform/DeepSleepLock.h:67 | the atomic increment alone keeps the account with half-done calls in it |
| DeepSleepRace.Sharing.LockGlobal | mbed-os/platform/DeepSleepLock.h:68-70 | the global counter never overflows, whoever came between |
| DeepSleepRace.Sharing.UnlockGlobal | mbed-os/platform/DeepSleepLock.h:81-83 | the global counter never underflows, whoever came between |
| DeepSleepRace.Sharing.OthersChange | mbed-os/hal/mbed_sleep_manager.c:159-179 | other clients may lock and unlock while calls on the shared object are half done |
| DeepSleepRace.Sharing.Settled | mbed-os/platform/DeepSleepLock.h:65-88 | with no call half done the object counts exactly while somebody holds it |
| DeepSleepRace.Sharing.AllowedInsideIff | mbed-os/platform/DeepSleepLock.h:63-74 | a thread inside finds deep sleep allowed if and only if nobody else locks it, the first locker is late and no unlocker is |
| DeepSleepRace.AllowedInside | mbed-os/platform/DeepSleepLock.h:65-74 | a run in which a completed lock does not yet prevent deep sleep |
| Gf2.RemainderUnique | mbed-os/drivers/MbedCRC.h:355-391 | a polynomial has one remainder of lower degree, so "the CRC" is well defined |
| Gf2.RemIsRemainder | mbed-os/drivers/MbedCRC.h:379-386 | long division by one bit at a time yields that remainder |
| Crc.RegisterSplit | mbed-os/drivers/MbedCRC.h:156-186 | the register after a part carries over: parts compose to the whole message |
| Crc.RegisterLinear | mbed-os/drivers/MbedCRC.h:355-391 | registers of messages of one length are linear under exclusive or |
| Crc.MirrorInvolution | mbed-os/drivers/MbedCRC.h:303-346 | reflecting twice gives the value back |
| Crc.MirrorReverses | mbed-os/drivers/MbedCRC.h:303-346 | mirroring a value puts its bits in reverse order |
| Crc.ReflectBits | mbed-os/drivers/MbedCRC.h:311-320 | the reflection loop exchanges bit k with bit n-1-k in the low n bits |
| Crc.BurstsDetected | mbed-os/drivers/MbedCRC.h:355-391 | messages that differ only within width consecutive bits never leave the same register |
| Crc.MbedCrc.BitwiseNarrowByte | mbed-os/drivers/MbedCRC.h:363-374 | eight narrow steps divide by the generator of degree 7 |
| Crc.MbedCrc.BitwiseWideByte | mbed-os/drivers/MbedCRC.h:375-388 | eight steps multiply by x^8 modulo the generator |
| Crc.MbedCrc.BitwiseComputePartial | mbed-os/drivers/MbedCRC.h:355-391 | for width 7 and widths 8 to 32 the register becomes the remainder of init x^n + M x^w |
| Crc.MbedCrc.TableComputePartial | mbed-os/drivers/MbedCRC.h:400-430 | with a right table the lookup loop leaves the same remainder |
| Crc.MbedCrc.ReflectRemainder | mbed-os/drivers/MbedCRC.h:308-324 | the remainder is reflected over its own width, at least 8 bits |
| Crc.MbedCrc.ReflectBytes | mbed-os/drivers/MbedCRC.h:331-346 | each byte is reflected over 8 bits |
| Crc.MbedCrc.ComputePartialStop | mbed-os/drivers/MbedCRC.h:228-247 | the register, from 7 bits shifted to the top of a byte, is reflected over its width, at least 8 bits, and the final value added; nothing is left above the width |
| Crc.MbedCrc.Compute | mbed-os/drivers/MbedCRC.h:137-154 | one call gives the remainder of initial value and message, bytes reflected if so configured, then aligned, reflected and with the final value added |
| Crc.MbedCrc.ComputeInParts | mbed-os/drivers/MbedCRC.h:156-247 | start, any number of parts and stop give the CRC of the whole message |
| Crc.ConcatAppend | mbed-os/drivers/MbedCRC.h:156-186 | how a message is put together from its parts |
| Crc.TableAgreesWithBits | mbed-os/drivers/MbedCRC.h:355-430 | from width 8 the two forms give the same CRC for every message |
| Crc.ScaledRegister | mbed-os/drivers/MbedCRC.h:241-246 | the 8-bit table register is the 7-bit register shifted left by one |
| Crc.NarrowTableAgreesIff | mbed-os/drivers/MbedCRC.h:241-246 | for width 7 the two forms agree if and only if the initial value is zero, or a message is there and shifting the value changes it by the generator |
| CrcTables.NarrowFormsDiffer | mbed-os/drivers/MbedCRC.h:241-246 | for the 7-bit polynomial and initial value 1 the two forms differ on every message |
| CrcTables.CheckedEntry | mbed-os/drivers/TableCRC.cpp:24-144 | a few hundred checked shifts and sums fix every entry of a table as the remainder of its index |
| CrcTables.SdTable | mbed-os/drivers/TableCRC.cpp:24-41 | every entry of the 7-bit table is right for the register shifted to the top of a byte |
| CrcTables.Ccitt8Table | mbed-os/drivers/TableCRC.cpp:43-60 | every entry of the 8-bit table is right |
| CrcTables.Ccitt16Table | mbed-os/drivers/TableCRC.cpp:62-85 | every entry of the 16-bit CCITT table is right |
| CrcTables.AnsiTable | mbed-os/drivers/TableCRC.cpp:111-144 | every entry of the 32-bit table is right for the generator of section 3.2.9 of IEEE 802.3-2018 |
| CrcTables.IbmEntryRightIff | mbed-os/drivers/TableCRC.cpp:87-109 | an entry of the 16-bit IBM table is right if and only if its index is below 252 |
| CrcTables.Default | mbed-os/drivers/MbedCRC.cpp:67-108 | four of the five default objects meet the condition under which their results are the CRC |
| RingBuffer.PushedAllKeepsLast | mbed-os/platform/CircularBuffer.h:85-103 | any number of pushes keep exactly the most recent elements |
| RingBuffer.CircularBuffer.Push | mbed-os/platform/CircularBuffer.h:90-103 | the array refines a bounded queue that drops its oldest element when full |
| RingBuffer.CircularBuffer.Pop | mbed-os/platform/CircularBuffer.h:110-122 | the oldest element leaves, or the buffer was empty |
| RingBuffer.CircularBuffer.Empty | mbed-os/platform/CircularBuffer.h:128-134 | true exactly when the queue is empty |
| RingBuffer.CircularBuffer.Full | mbed-os/platform/CircularBuffer.h:140-146 | true exactly when the queue has reached the capacity |
| RingBuffer.CircularBuffer.Reset | mbed-os/platform/CircularBuffer.h:151-158 | the queue becomes empty |
| RingBuffer.CircularBuffer.Size | mbed-os/platform/CircularBuffer.h:161-176 | the length of the queue, in the index type's wrapping arithmetic |
| RingBuffer.CircularBuffer.Peek | mbed-os/platform/CircularBuffer.h:183-193 | the oldest element, left in place |
| UartSerial.UARTSerial.constructor | mbed-os/drivers/UARTSerial.cpp:31-40 | the port starts with empty streams and reception enabled |
| UartSerial.UARTSerial.TxIrq | mbed-os/drivers/UARTSerial.cpp:307-327 | bytes move to the hardware in order until one side is exhausted, and the interrupt goes off only with the buffer empty |
| UartSerial.UARTSerial.RxIrq | mbed-os/drivers/UARTSerial.cpp:284-304 | bytes move from the hardware in order, none is overwritten, and the interrupt goes off only with the buffer full |
| UartSerial.UARTSerial.Interrupts | mbed-os/drivers/UARTSerial.cpp:284-327 | any number of handler and hardware steps between two steps of a thread keep streams, flags and progress |
| UartSerial.UARTSerial.Fill | mbed-os/drivers/UARTSerial.cpp:164-177 | under any interleaving what is pushed is what is accepted, all of it or at least what fitted, in order and without overwriting, and transmission is on at the end |
| UartSerial.UARTSerial.StartTransmission | mbed-os/drivers/UARTSerial.cpp:169-177 | the critical section after pushing gives the hardware what it takes and leaves the interrupt on exactly while bytes remain |
| UartSerial.UARTSerial.AwaitRoom | mbed-os/drivers/UARTSerial.cpp:153-162 | the wait of a blocking write ends, because a full buffer has its interrupt enabled |
| UartSerial.UARTSerial.Write | mbed-os/drivers/UARTSerial.cpp:137-183 | a blocking write accepts everything, another a prefix; a short count means at least what fitted and a buffer full when last tested, and the error one full from the start; it waits only when blocking and only when not everything fits |
| UartSerial.UARTSerial.Drain | mbed-os/drivers/UARTSerial.cpp:207-220 | under any interleaving what is popped is what arrived, in order, as much as asked or at least all there was, and reception is on unless the buffer is full |
| UartSerial.UARTSerial.ResumeReception | mbed-os/drivers/UARTSerial.cpp:212-220 | the critical section after popping takes what the hardware holds and leaves the interrupt off only with a full buffer |
| UartSerial.UARTSerial.WaitToRead | mbed-os/drivers/UARTSerial.cpp:197-205 | while the reader waits, with the buffer empty, writers and the interrupts run, and arriving bytes end the wait |
| UartSerial.UARTSerial.Read | mbed-os/drivers/UARTSerial.cpp:185-225 | a blocking read returns at least one byte, at most as many as asked; it waits only for its first byte and never when not blocking; the error means a buffer empty when last tested |
| Flash.EndPassesIff | mbed-os/drivers/FlashIAP.cpp:101-104 | the 32-bit end check tells whether the range fits if and only if it does not wrap into the flash |
| Flash.EndPassesWrongly | mbed-os/drivers/FlashIAP.cpp:101-104 | a range that ends far past the flash and passes the check |
| Flash.BurnAppend | mbed-os/drivers/FlashIAP.cpp:106-136 | programming in consecutive steps is programming at once |
| Flash.BurnBlank | mbed-os/drivers/FlashIAP.cpp:119-121 | padding with ones changes nothing |
| Flash.BurnReadsBack | mbed-os/drivers/FlashIAP.cpp:91-140 | on erased memory the data reads back and nothing else changes |
| Flash.EraseThenProgram | mbed-os/drivers/FlashIAP.cpp:91-184 | erasing and then programming leaves the data, ones around it and everything else as it was |
| Flash.RestOfSector | mbed-os/drivers/FlashIAP.cpp:109-111 | in self-aligned sectors the chunk expression is the distance to the sector's end, a whole number of pages |
| Flash.FlashIAP.NextChunk | mbed-os/drivers/FlashIAP.cpp:109-129 | each piece is whole pages inside one sector, from word-aligned memory, padded only when it is the last |
| Flash.FlashIAP.Program | mbed-os/drivers/FlashIAP.cpp:91-140 | success exactly when address, buffer and end pass the three tests and everything is programmed, and nothing otherwise when they fail; a reliable device programs any size that lies in the flash; the calls tile the range in order with the buffer's bytes; on a failure exactly a prefix is programmed, and nothing else changed |
| Flash.FlashIAP.EraseAcceptedIff | mbed-os/drivers/FlashIAP.cpp:159-168 | a range is accepted if and only if it ends, in 32-bit arithmetic, where the flash ends, where a sector begins, or at zero |
| Flash.FlashIAP.EndOfRange | mbed-os/drivers/FlashIAP.cpp:161-168 | an accepted range that reaches into a sector reaches its end, so the remaining size never underflows |
| Flash.FlashIAP.FirstSectorInsideIff | mbed-os/drivers/FlashIAP.cpp:153-176 | the first erase stays in an accepted range if and only if the range starts where a sector does |
| Flash.FlashIAP.FirstSectorOutside | mbed-os/drivers/FlashIAP.cpp:153-176 | with two 16-byte sectors the range of 8 bytes at 8 is accepted, and the sector erased first starts at 0 |
| Flash.FlashIAP.Erase | mbed-os/drivers/FlashIAP.cpp:153-184 | exactly the sectors covering the range are erased, each once and in order; success means the size reached zero, and on a reliable device every range inside the flash that ends with a sector is erased |
| CriticalSection.Core.Exclusion | mbed-os/hal/mbed_critical_section_api.c:36-62 | only the running context can be in a section, and interrupts are off from its outermost enter to the matching exit |
| CriticalSection.Core.AtRest | mbed-os/hal/mbed_critical_section_api.c:64-67 | outside the two functions the saved-state flag is set exactly when the counter is positive, which is the nesting depth |
| CriticalSection.Core.PreemptedIsClean | mbed-os/platform/mbed_critical.c:78-110 | a context can be preempted only where it has left the shared variables idle |
| CriticalSection.Core.ExecuteEnter | mbed-os/platform/mbed_critical.c:78-91 | each instruction of an enter keeps the invariant and brings the call nearer to its end, and completing it leaves interrupts off and one more level counted |
| CriticalSection.Core.ExecuteExit | mbed-os/platform/mbed_critical.c:93-110 | each instruction of an exit keeps the invariant and brings the call nearer to its end, its assertion never fails, and the outermost exit restores the interrupt state found at entry; an exit without enter does nothing |
| CriticalSection.Core.Enter | mbed-os/platform/mbed_critical.c:78-91 | an enter returns, one level deeper and with interrupts off, or fails its assertion with the counter exhausted |
| CriticalSection.Core.Exit | mbed-os/platform/mbed_critical.c:93-110 | an exit returns, one level less deep; the outermost restores the interrupt state, one without an enter changes nothing |
| CriticalSection.Core.Nested | mbed-os/platform/mbed_critical.c:78-110 | however deep the nesting, matched enters and exits leave interrupts as they were |
| CriticalSection.Core.Do | mbed-os/platform/mbed_critical.c:78-110 | an enabled step happens and no other; each instruction lowers the number left of its own call and no step touches another context; while a context is in a section, only its own instructions happen |
| CriticalSection.Core.Run | mbed-os/platform/mbed_critical.c:78-110 | the invariant holds after every schedule of instructions, preemptions and arrivals |

## Left out

- The 64-bit microsecond clock does not wrap in the model; it would after more than 500,000 years.
- Invalid hardware descriptions (zero frequency, fewer than 4 or more than 32 bits) are caught by assertions in the source and are not modelled.
- TickerQueue.Queue.constructor: hardware, interrupts or callbacks slower than `Counter.Prompt` allows are not modelled beyond UpdateExactIff and ArmUnchecked, which say exactly what is then lost.
- TickerQueue.Queue.IrqHandler: handlers insert any finite number of events per interrupt; an endless stream of due events never leaves the loop in the source either.
- TickerQueue.Queue.InsertEventUs: inserting an event that is already queued is outside the source's contract and not modelled.
- PeriodicTicker.Ticker.AttachUs: null callbacks are outside the source's contract and not modelled.
- Fatal errors stop the system in the source; in the model they set a fault flag, after which nothing more is promised, or are excluded by a precondition on the counter.
- PowerSystem.System.Run: a lock object's two counters change in one step there; DeepSleepRace models the steps between.
- Crc.MbedCrc.BitwiseComputePartial: widths below 7 are not modelled, because the loop tests bit 7 whatever the width and is no CRC for them.
- CrcTables.Default: the default object with the 16-bit IBM table is not among them, since that table is incomplete.
- SleepClients.SerialBase.Attach: switching the interrupt on and off in the serial peripheral is not part of this model.
- The hardware mode of the CRC class hands the data to a peripheral and is not modelled.
- UartSerial.UARTSerial.Write: one writer and one reader at a time; several threads writing through one port would interleave their bytes between waits.
- UartSerial.UARTSerial.RxIrq: bytes that the hardware loses before software reads them, the wake-up callback, poll and the carrier-detect pin are not modelled.
- Flash.FlashIAP.Program: a failed device call changes nothing in the model; what a real device leaves in that one range is its own affair. Erased memory is taken to read as ones.
- Flash.FlashIAP.Erase: a start inside a sector, which mbed-os/drivers/FlashIAP.h:85 forbids, is not modelled beyond FirstSectorInsideIff; from there on the code's sizes may wrap.
- CriticalSection.Core.Run: one core; a thread that blocks inside a section, which the operating system forbids, is not modelled.
- Deprecated callback chains, the low-power ticker wrapper, event queues, the AT command parser, asynchronous serial transfers, pins and start-up code are not part of this model.
