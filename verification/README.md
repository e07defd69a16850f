# Verification of the STM32F4 firmware's stateful code

The firmware carries the FreeRTOS V10.5.1 kernel objects and drivers of its own. This project models
the parts of it that keep state over time and proves how they behave over all inputs and all runs.
One module stands for one source file, or for one view of it.

| file | models |
|---|---|
| KernelList.dfy | `list.c`: the circular doubly linked list on the heap, once; the other modules use its item sequence |
| SoftwareTimers.dfy | `timers.c`: the daemon with its two lists, against a true time that does not wrap |
| QueueWakeups.dfy | `queue.c`: blocking, waking, and the lock that keeps interrupts off the event lists |
| QueueRing.dfy | `queue.c`: the storage ring as a bounded deque |
| RecursiveMutex.dfy | `queue.c`: recursive mutexes, with other tasks between any two steps |
| StreamBuffer.dfy | `stream_buffer.c`: the byte ring and the message framing on it |
| StreamInterleaving.dfy | `stream_buffer.c`: one writer and one reader, interleaved byte by byte, and the messages they exchange |
| StreamWaiting.dfy | `stream_buffer.c`: a writer and a reader that block and notify each other |
| EventGroups.dfy | `event_groups.c`: conditions on bits, deferred clearing, rendezvous |
| CoRoutines.dfy | `croutine.c`: ready, delayed, pending and event lists, with interrupts at any time |
| FlashStore.dfy | `drv_flash.c`: the two-page block store on its memory-backed device |
| SoftI2c.dfy | `drv_soft_i2c.c`: the bit-banged master on two wires, with any slave |
| Buttons.dfy | `multi_button.c`: debouncing, presses and clicks, and the list of buttons |
| TickCount.dfy, Arithmetic.dfy | the 32-bit tick count; division with remainder |

`dafny verify dfyconfig.toml` checks all of it.

## How the source is read

- `tasks.c` and `list.h` are not part of this model. Placing a task on an event list inserts it by
  priority (at the end, for event groups), removing takes the head, a critical section is one step,
  the tick count is 32 bits wide (`configUSE_16_BIT_TICKS` is 0), and queue sets are off.
- Objects that the source updates in place are classes with its fields. Where tasks or interrupts
  can come in between, there is a step system as well, and the methods of the class are proved to be
  its steps.
- Clocks, pins and callers become parameters. `later`, `now`, `due` and `command` are true times;
  the code sees only their remainders by 2^32.

## What the proofs found

- `croutine.c`: a delay of 0 at the last tick of an epoch leaves the co-routine in the list that is
  swapped out, for two wraps. `crDELAY` and the queue macros do not pass 0
  (`CoRoutines.Scheduler.ZeroDelay`).
- `queue.c`: a reset frees every slot but wakes one sender (`QueueWakeups.ResetForgetsSenders` says
  exactly when somebody is forgotten, `QueueWakeups.ResetForgetsASender` gives a run).
- `stream_buffer.c`: a writer that waits for space and a reader that waits for the trigger level can
  wait for each other, exactly if the two numbers are too large together
  (`StreamWaiting.StuckExactly`). Static creation accepts a trigger level of one byte more than the
  buffer holds, with which no send ever wakes a waiting reader (`StreamWaiting.ReaderIsToldExactly`).
- `drv_flash.c`: the alignment test masks bit 2 instead of bits 0 and 1
  (`FlashStore.AlignmentIsNotWhatIsChecked`). A block that is not a whole number of words loses its
  end, and the write reports the data error unless that end is 0 (`FlashStore.Store.Write`); of the
  geometries that are accepted, exactly those with such a block size have a payload that fails
  (`FlashStore.AcceptedMayFail`). The search counts blocks in 16 bits: what was written is found
  exactly if the number of blocks is no multiple of 2^16 (`FlashStore.Store.WriteThenRead`, and
  `FlashStore.WriteThatIsNotFound` for a geometry that is accepted).
- `drv_soft_i2c.c`: a byte without acknowledge gets no ninth clock, unlike in section 3.1.6 of
  UM10204, before the stop. A read of 0 bytes from a slave whose first bit is 0 ends without a stop
  on the wires (`SoftI2c.Bus.ReadDevice`, and for a memory device `SoftI2c.ReadNothingThenWrite`).
- `multi_button.c`: the presses are counted in 4 bits, so that 17 short presses are a single click
  (`Buttons.SeventeenPressesAreASingleClick`). A repeated press that is held for more than 15 calls is
  given up: it is reported as pressed once more, or, released in the very next call, never as released
  (`Buttons.PressUpExactly`, `Buttons.ReleaseWithoutPressUp`). Its comments ask for three equal
  samples, and that is exactly what the code does.

## Model

| member | source | states |
|---|---|---|
| `KernelList.InsertionIsSortedAndStable` | Code/ThirdParts/FreeRTOS/list.c:148-189 | Putting a value where the search of vListInsert stops keeps a sorted list sorted, behind all equal values and in front of all larger ones |
| `KernelList.InsertionPointIsUnique` | Code/ThirdParts/FreeRTOS/list.c:148-184 | No other place separates the smaller-or-equal values from the larger ones, so the walk and the shortcut for the end value agree |
| `KernelList.RemoveUndoesInsert` | Code/ThirdParts/FreeRTOS/list.c:128-223 | Removing an inserted item gives back the list as it was |
| `KernelList.List.constructor` | Code/ThirdParts/FreeRTOS/list.c:50-83 | The new ring is empty, closed on its end marker, and satisfies the ring invariant |
| `KernelList.List.Splice` | Code/ThirdParts/FreeRTOS/list.c:186-189 | The four pointer writes of both insertions link the item in at one position and change no other link |
| `KernelList.List.Link` | Code/ThirdParts/FreeRTOS/list.c:186-195 | After the links, the container and the count are written, the heap is again one well-formed ring whose item sequence has the new item at that position |
| `KernelList.List.FindPlace` | Code/ThirdParts/FreeRTOS/list.c:148-184 | The search ends, also for the value of the end marker, and finds the unique sorted place |
| `KernelList.List.Insert` | Code/ThirdParts/FreeRTOS/list.c:128-196 | The item sequence is the old one with the item at its sorted place; the index stays |
| `KernelList.List.SortedAfterInsert` | Code/ThirdParts/FreeRTOS/list.c:128-196 | A ring that was sorted by value is sorted after vListInsert |
| `KernelList.List.InsertEnd` | Code/ThirdParts/FreeRTOS/list.c:98-125 | The item goes just in front of the item the index stands on |
| `KernelList.List.Bypass` | Code/ThirdParts/FreeRTOS/list.c:203-219 | Two pointer writes take the item out of the ring, and the index steps back if it stood there |
| `KernelList.List.Unlink` | Code/ThirdParts/FreeRTOS/list.c:199-223 | The heap is a well-formed ring of exactly the other items in their order, the count and the container agree, and the index is on a ring member |
| `KernelList.Remove` | Code/ThirdParts/FreeRTOS/list.c:199-223 | The item finds its own list; the number returned is the length that is left |
| `KernelList.List.NextEntry` | Code/ThirdParts/FreeRTOS/croutine.c:309-311 | The owner-of-next-entry step moves the index to the next item, over the end marker |
| `KernelList.InsertAmong` | Code/ThirdParts/FreeRTOS/list.c:128-196 | Inserting in order into one of several lists in one heap leaves all the others as they were |
| `KernelList.InsertEndAmong` | Code/ThirdParts/FreeRTOS/list.c:98-125 | Inserting at the end of one of several lists in one heap leaves all the others as they were |
| `KernelList.RemoveAmong` | Code/ThirdParts/FreeRTOS/list.c:199-223 | Removing an item from one of several lists in one heap leaves all the others well formed rings of the items they had |
| `KernelList.EveryItemHasOneTurnPerRound` | Code/ThirdParts/FreeRTOS/croutine.c:309-311 | Wherever the index stands, the next n steps on a list of n items visit each item exactly once |
| `KernelList.InsertedEndIsVisitedLast` | Code/ThirdParts/FreeRTOS/list.c:109-119 | An item put in by vListInsertEnd has its turn after every other item has had one |
| `KernelList.TurnsAreVisits` | Code/ThirdParts/FreeRTOS/croutine.c:309-311 | The order of turns is the order in which further steps visit the items |
| `KernelList.TurnsRotate` | Code/ThirdParts/FreeRTOS/croutine.c:309-311 | A step gives the first in the order of turns its turn and puts it last |
| `KernelList.InsertedEndTurns` | Code/ThirdParts/FreeRTOS/list.c:98-125 | Inserting at the end leaves the index on the item, or the end marker, on which it stands; nobody's turn comes later but that of this item, and the new one has its turn behind all others |
| `KernelList.RemovedTurns` | Code/ThirdParts/FreeRTOS/list.c:199-223 | Taking an item out of a ring leaves the order of the others' turns as it was, also when the index stood on it and steps back |
| `SoftwareTimers.PlacementIsExact` | Code/ThirdParts/FreeRTOS/timers.c:716-757 | For a command less than a wrap old and a period shorter than a wrap, the wrapped comparisons say exactly whether the true expiry is past, in this epoch, or in the next |
| `SoftwareTimers.PlacementNeedsRecentCommand` | Code/ThirdParts/FreeRTOS/timers.c:726-740 | A command exactly one wrap old is misjudged: the bound is needed |
| `SoftwareTimers.ElapsedIsQuotient` | Code/ThirdParts/FreeRTOS/timers.c:522-538 | Counting whole periods one after the other gives the floor of the elapsed time over the period |
| `SoftwareTimers.Daemon.InsertTimerInActiveList` | Code/ThirdParts/FreeRTOS/timers.c:716-757 | Returns that the timer is to be processed exactly if its true expiry is not later than now; else it is put in order into the list of its epoch |
| `SoftwareTimers.Daemon.ReloadTimer` | Code/ThirdParts/FreeRTOS/timers.c:522-538 | Clears any backlog with one callback per period that is over, ends, and leaves the timer in the list of its next expiry, which is later than now |
| `SoftwareTimers.Daemon.ReloadAndCall` | Code/ThirdParts/FreeRTOS/timers.c:546-565 | After the backlog and the last callback the timer is in step; worked off against the last tick of an epoch it never goes back to the current list |
| `SoftwareTimers.Daemon.ProcessExpiredTimer` | Code/ThirdParts/FreeRTOS/timers.c:541-565 | The head leaves the list; an auto-reload timer is due later than now, a one-shot timer had one callback and is dormant |
| `SoftwareTimers.Daemon.SwitchTimerLists` | Code/ThirdParts/FreeRTOS/timers.c:908-931 | Ends: everything due before the wrap is worked off, the lists change roles, the overflow list is empty and every active timer is in the current one; no auto-reload timer is dropped, a one-shot timer has its callback exactly when it becomes dormant, and dormant timers have none |
| `SoftwareTimers.Daemon.WrapIsDetected` | Code/ThirdParts/FreeRTOS/timers.c:698-710 | With samples less than a wrap apart, a smaller tick count means exactly that the next epoch has begun |
| `SoftwareTimers.Daemon.SampleTimeNow` | Code/ThirdParts/FreeRTOS/timers.c:693-713 | The true time moves to the sample, and all invariants of the lists hold for it; without a wrap nothing else changes; with one, no auto-reload timer is dropped and no dormant timer is called |
| `SoftwareTimers.Daemon.HeadIsFirst` | Code/ThirdParts/FreeRTOS/timers.c:666-690 | No active timer is due before the head of the current list, or before the wrap if that list is empty |
| `SoftwareTimers.Daemon.NothingExpiredLeftMeansUpToDate` | Code/ThirdParts/FreeRTOS/timers.c:522-565 | When nothing expired is left in the current list, every active timer has had exactly floor((now - start) / period) callbacks |
| `SoftwareTimers.Daemon.ProcessTimerOrBlockTask` | Code/ThirdParts/FreeRTOS/timers.c:604-663 | Without a wrap, a pass processes exactly if a timer is due: the head, which is then due later than now or dormant, with at least one more callback, while no other timer changes and one less is due; it blocks exactly if none is due, to the head's expiry or the wrap, with every active timer up to date, and without limit only when nothing is active; in every pass auto-reload timers stay active and dormant ones get no callback |
| `SoftwareTimers.Daemon.HeadExpiresFirst` | Code/ThirdParts/FreeRTOS/timers.c:617-622 | Without a wrap the value of the head tells exactly whether any timer of the current list is due |
| `SoftwareTimers.Daemon.CatchUp` | Code/ThirdParts/FreeRTOS/timers.c:588-600 | With no command in the queue the loop of the daemon comes to block, every timer up to date, and without a wrap it takes exactly one pass for each timer that was due and one to block |
| `SoftwareTimers.Daemon.BlockTime` | Code/ThirdParts/FreeRTOS/timers.c:635-642 | The block time ends exactly at the head's true expiry, or at the wrap when only the overflow list holds timers |
| `SoftwareTimers.Daemon.StartCommand` | Code/ThirdParts/FreeRTOS/timers.c:821-850 | A start or reset counts from the time the command was sent; the timer is dormant afterwards only as an expired one-shot with one callback |
| `SoftwareTimers.Daemon.ChangePeriodCommand` | Code/ThirdParts/FreeRTOS/timers.c:858-871 | The timer is active with its due time one new period after the handling; the ignored result of the insertion is always false |
| `SoftwareTimers.Daemon.ProcessReceivedCommand` | Code/ThirdParts/FreeRTOS/timers.c:760-905 | Each command does its own change to its own timer; every other timer is moved on only by the periods that are over, the auto-reload ones stay active, and every invariant of the lists and counters holds |
| `SoftwareTimers.Daemon.DoStep` | Code/ThirdParts/FreeRTOS/timers.c:568-713 | One pass or command: the timers are those before less the one that is freed, and each is where the last command on it has led it by the new time; a pass at an unchanged time leaves one timer less that is due |
| `SoftwareTimers.Daemon.RemoveFromList` | Code/ThirdParts/FreeRTOS/timers.c:797-807 | Before a command the timer is in no list, and only it may be out of step |
| `SoftwareTimers.Daemon.SetReloadMode` | Code/ThirdParts/FreeRTOS/timers.c:451-469 | Changing the mode of a timer at any time keeps every invariant |
| `SoftwareTimers.Daemon.Create` | Code/ThirdParts/FreeRTOS/timers.c:288-383 | A new timer is dormant and in no list |
| `SoftwareTimers.Daemon.Run` | Code/ThirdParts/FreeRTOS/timers.c:568-713 | Over any run of passes and commands and any number of wraps: no timer is lost but the freed ones, and each follows the last command on it; nothing expired is left after as many passes at one time as there are timers; whenever nothing expired is left, an auto-reload timer that a command started and no later one names is active and has had exactly floor((now - time of the command) / period) callbacks, and a one-shot timer exactly one if its period is over; it goes on unless a sample comes a whole wrap late with a timer active |
| `SoftwareTimers.AskedOnce` | Code/ThirdParts/FreeRTOS/timers.c:774-905 | The order that a start command gives stands until the next message on the same timer |
| `QueueWakeups.WakeOneKeeps` | Code/ThirdParts/FreeRTOS/queue.c:932-948 | Waking one task for a new item keeps the side's cover of items by woken tasks |
| `QueueWakeups.PostKeeps` | Code/ThirdParts/FreeRTOS/queue.c:1097-1196 | An interrupt's post is covered by a woken task, or by the lock counter while the queue is locked |
| `QueueWakeups.WakeManyWakes` | Code/ThirdParts/FreeRTOS/queue.c:2290-2396 | The loop of the unlock wakes as many tasks as the counter says, or all there are |
| `QueueWakeups.BlockedAreFew` | Code/ThirdParts/FreeRTOS/queue.c:265-293 | No more tasks can be blocked than exist, which is why capping the counter is safe |
| `QueueWakeups.UnlockKeeps` | Code/ThirdParts/FreeRTOS/queue.c:2279-2396 | Unlocking turns the counter into woken tasks; nothing that was covered by it is forgotten |
| `QueueWakeups.BlockKeeps` | Code/ThirdParts/FreeRTOS/queue.c:1469-1481 | A task that saw the queue empty (full) under the lock may block: what has come in since is in the counter |
| `QueueWakeups.StepKeepsInv` | Code/ThirdParts/FreeRTOS/queue.c:835-1209 | Every critical section of tasks, interrupts and ticks keeps the wake-up invariant |
| `QueueWakeups.NoLostWakeUp` | Code/ThirdParts/FreeRTOS/queue.c:1378-1518 | In every reachable state with the queue unlocked, a task is blocked to receive only if the items are at most the woken receivers that have not looked again; the same for senders and free slots |
| `QueueWakeups.LockCountersFit` | Code/ThirdParts/FreeRTOS/queue.c:265-293 | With at most 127 tasks the 8-bit lock counters never overflow |
| `QueueWakeups.WithoutIsRemoved` | Code/ThirdParts/FreeRTOS/tasks.c:2792-2804 | A timeout takes one task out of its list and leaves all others in their order |
| `QueueWakeups.SideAfter` | Code/ThirdParts/FreeRTOS/queue.c:835-2396 | For every step: exactly the stated number of tasks at the head of an event list is woken, the others stay in their order, a blocking task goes behind all of no lower priority, a timeout takes out only its own task, and only a task that looks again is woken no more |
| `QueueWakeups.StaysUntilWoken` | Code/ThirdParts/FreeRTOS/queue.c:1378-1518 | Over any run, a task that was put on an event list is in it until it is woken or its own block time ends |
| `QueueWakeups.ListsAreInOrder` | Code/ThirdParts/FreeRTOS/queue.c:1479-1480 | Over any run both event lists are in the order of the priorities |
| `QueueWakeups.HighestIsWokenFirst` | Code/ThirdParts/FreeRTOS/queue.c:932-948 | Over any run, whoever a step wakes has at least the priority of everybody it leaves blocked, and among equals stands in front |
| `QueueWakeups.ItemsAreCounted` | Code/ThirdParts/FreeRTOS/queue.c:835-1971 | Over any run the items are those at the start, one more for each successful send that overwrites nothing and one less for each successful receive |
| `QueueWakeups.ResetForgetsSenders` | Code/ThirdParts/FreeRTOS/queue.c:309-340 | After a reset no sender is blocked beside slots that no woken sender is coming for, exactly if at most one was blocked or the slots are at most one more than the woken senders; the whole invariant holds under the same condition |
| `QueueWakeups.ResetForgetsASender` | Code/ThirdParts/FreeRTOS/queue.c:309-340 | A run from a new queue of two slots in which two senders find it full and block; the reset then leaves one of them blocked with more slots free than senders on their way |
| `QueueWakeups.QueueControl.TrySend` | Code/ThirdParts/FreeRTOS/queue.c:858-960 | The critical section of a send is the send step, and keeps the invariant |
| `QueueWakeups.QueueControl.TryReceive` | Code/ThirdParts/FreeRTOS/queue.c:1405-1439 | The critical section of a receive is the receive step, and keeps the invariant |
| `QueueWakeups.QueueControl.TryPeek` | Code/ThirdParts/FreeRTOS/queue.c:1759-1798 | The critical section of a peek is the peek step: the item stays and another receiver is woken |
| `QueueWakeups.QueueControl.TimedOut` | Code/ThirdParts/FreeRTOS/queue.c:1500-1505 | A caller whose block time is over goes on to unlock, and the invariant holds |
| `QueueWakeups.QueueControl.LookAgain` | Code/ThirdParts/FreeRTOS/queue.c:2399-2458 | The second look, behind the lock, decides to block exactly if the queue is still empty, or full for a sender, and keeps the invariant |
| `QueueWakeups.QueueControl.PlaceOnList` | Code/ThirdParts/FreeRTOS/queue.c:1479-1480 | Blocking puts the task into the event list behind all of no lower priority and in front of the others, and keeps the invariant |
| `QueueWakeups.QueueControl.TickTimesOut` | Code/ThirdParts/FreeRTOS/tasks.c:2792-2804 | When its block time ends a task is taken out of its event list, every other task stays where it was, and the invariant holds |
| `QueueWakeups.QueueControl.SendFromISR` | Code/ThirdParts/FreeRTOS/queue.c:1047-1209 | The interrupt's send is its step: it wakes a receiver, or counts it while the queue is locked |
| `QueueWakeups.QueueControl.ReceiveFromISR` | Code/ThirdParts/FreeRTOS/queue.c:1882-1971 | The interrupt's receive is its step: it wakes a sender, or counts it while the queue is locked |
| `QueueWakeups.QueueControl.PrvLockQueue` | Code/ThirdParts/FreeRTOS/queue.c:251-263 | Marking both counters is the lock step, taken when no queue lock is held, and keeps the invariant |
| `QueueWakeups.QueueControl.PrvUnlockTx` | Code/ThirdParts/FreeRTOS/queue.c:2287-2365 | The loop over the transmit counter is the first half of the unlock step |
| `QueueWakeups.QueueControl.PrvUnlockRx` | Code/ThirdParts/FreeRTOS/queue.c:2367-2395 | The loop over the receive counter is the second half |
| `QueueRing.SlotIsModular` | Code/ThirdParts/FreeRTOS/queue.c:2204-2248 | The comparisons that wrap the pointers are the remainder by the length |
| `QueueRing.Queue.constructor` | Code/ThirdParts/FreeRTOS/queue.c:296-360 | A new queue represents the empty deque |
| `QueueRing.Queue.Reset` | Code/ThirdParts/FreeRTOS/queue.c:309-316 | A reset empties the deque and keeps the pointer invariant |
| `QueueRing.Queue.CopyToBack` | Code/ThirdParts/FreeRTOS/queue.c:2204-2217 | The item is appended at the back of the deque |
| `QueueRing.Queue.CopyToFront` | Code/ThirdParts/FreeRTOS/queue.c:2218-2248 | The item is put at the front, or replaces the one item when overwriting |
| `QueueRing.Queue.CopyDataFromQueue` | Code/ThirdParts/FreeRTOS/queue.c:2258-2276 | The read position moves one slot and the oldest item is returned |
| `QueueRing.Queue.Send` | Code/ThirdParts/FreeRTOS/queue.c:858-960 | Succeeds exactly if there is room or the send overwrites; the item is then the last, the first or the only one, and else the deque is unchanged |
| `QueueRing.Queue.Receive` | Code/ThirdParts/FreeRTOS/queue.c:1405-1449 | Returns and removes the oldest item, or reports an empty queue |
| `QueueRing.Queue.Peek` | Code/ThirdParts/FreeRTOS/queue.c:1731-1879 | Returns the oldest item and leaves the deque and the read position unchanged |
| `QueueRing.Queue.SpacesAvailable` | Code/ThirdParts/FreeRTOS/queue.c:2046-2060 | Free slots and queued items add up to the length |
| `QueueRing.Queue.Run` | Code/ThirdParts/FreeRTOS/queue.c:835-1209 | Any mix of sends to either end, overwrites, receives, peeks and resets on the ring does what it does to a bounded deque, and gives the same answers |
| `QueueRing.FirstInFirstOut` | Code/ThirdParts/FreeRTOS/queue.c:2204-2217 | With sends to the back only, what is accepted is what is received followed by what is queued, in order |
| `QueueRing.FrontIsReceivedNext` | Code/ThirdParts/FreeRTOS/queue.c:2218-2248 | After any operations, an item sent to the front or over the one item is received next, and the others wait as before |
| `QueueRing.NothingLost` | Code/ThirdParts/FreeRTOS/queue.c:2175-2276 | Without overwriting and resetting, every accepted item is received or queued exactly once |
| `RecursiveMutex.DepthIsBalance` | Code/ThirdParts/FreeRTOS/queue.c:668-759 | Over any interleaving of tasks, the recorded depth is each task's takes minus its gives |
| `RecursiveMutex.CountIsTakesMinusGives` | Code/ThirdParts/FreeRTOS/queue.c:668-759 | The mutex is empty exactly while a holder is recorded, and between calls the recursion count is the holder's takes minus gives |
| `RecursiveMutex.AcquiredOnlyWhenAllGivenBack` | Code/ThirdParts/FreeRTOS/queue.c:1559-1580 | A free mutex is taken only when every task has given back all it took |
| `RecursiveMutex.OnlyOneHolder` | Code/ThirdParts/FreeRTOS/queue.c:2186-2202 | At most one task has takes that it has not given back |
| `RecursiveMutex.Mutex.constructor` | Code/ThirdParts/FreeRTOS/queue.c:542-565 | A new mutex is free, with no holder and depth 0 |
| `RecursiveMutex.Mutex.TakeMutexRecursive` | Code/ThirdParts/FreeRTOS/queue.c:723-759 | Without a block time and with nothing in between: succeeds exactly for the holder or on a free mutex, and raises only the caller's depth |
| `RecursiveMutex.Mutex.OthersRun` | Code/ThirdParts/FreeRTOS/queue.c:668-759 | Whatever other tasks do to the mutex, whether this task holds it, how often and where it stands stays the same |
| `RecursiveMutex.Mutex.TakeMutexRecursiveWaiting` | Code/ThirdParts/FreeRTOS/queue.c:723-759 | With a block time and other tasks running in between: a free mutex is taken in the first round; it ends with the mutex held once more exactly if it reports so; a timeout is reported only with the mutex taken by another |
| `RecursiveMutex.Mutex.GiveMutexRecursive` | Code/ThirdParts/FreeRTOS/queue.c:668-718 | Only the holder gives; the mutex is free again when it has given as often as taken |
| `StreamBuffer.HeaderRoundTrip` | Code/ThirdParts/FreeRTOS/stream_buffer.c:837-848 | The length header decodes to the length it was written with |
| `StreamBuffer.FramedHead` | Code/ThirdParts/FreeRTOS/stream_buffer.c:1086-1106 | The first bytes of a queue of messages are the header and the whole of the oldest message |
| `StreamBuffer.WrittenTwice` | Code/ThirdParts/FreeRTOS/stream_buffer.c:824-871 | Header and body, each of which may wrap, are together one write of both |
| `StreamBuffer.Buffer.SpacesAvailable` | Code/ThirdParts/FreeRTOS/stream_buffer.c:597-627 | Free space is the length less one and less the contents |
| `StreamBuffer.Buffer.WriteBytesToBuffer` | Code/ThirdParts/FreeRTOS/stream_buffer.c:1248-1291 | Up to two copies write the data into the ring from a slot on, and no other slot changes |
| `StreamBuffer.Buffer.ReadBytesFromBuffer` | Code/ThirdParts/FreeRTOS/stream_buffer.c:1294-1335 | Up to two copies return the bytes of the ring from a slot on |
| `StreamBuffer.Buffer.UncommittedIsInvisible` | Code/ThirdParts/FreeRTOS/stream_buffer.c:843-868 | Bytes written behind the contents change nothing for the reader until the head moves |
| `StreamBuffer.Buffer.AppendMessage` | Code/ThirdParts/FreeRTOS/stream_buffer.c:824-871 | A message is appended as its header and its bytes |
| `StreamBuffer.Buffer.Send` | Code/ThirdParts/FreeRTOS/stream_buffer.c:738-747 | Once there is no more waiting: a message buffer takes the whole message or stays as it was; a stream buffer takes exactly what fits |
| `StreamBuffer.Buffer.ReceiveMessage` | Code/ThirdParts/FreeRTOS/stream_buffer.c:1075-1124 | Returns the oldest message and removes it, or returns nothing and leaves it queued when the caller's buffer is too small |
| `StreamBuffer.Buffer.Receive` | Code/ThirdParts/FreeRTOS/stream_buffer.c:945-974 | Once there is no more waiting: the oldest message, or the first bytes of a stream, and nothing else leaves the buffer |
| `StreamBuffer.Buffer.NextMessageLengthBytes` | Code/ThirdParts/FreeRTOS/stream_buffer.c:978-1015 | The length reported is that of the message the next sufficient receive returns, or 0 when there is none |
| `StreamBuffer.Buffer.EmptyIffNoMessage` | Code/ThirdParts/FreeRTOS/stream_buffer.c:989-1007 | A message buffer holds bytes exactly if it holds a message, and then more than a header |
| `StreamInterleaving.StepKeepsInv` | Code/ThirdParts/FreeRTOS/stream_buffer.c:597-1356 | Every single field read, byte copy and commit of one writer and one reader keeps the buffer consistent |
| `StreamInterleaving.WriteKeepsStored` | Code/ThirdParts/FreeRTOS/stream_buffer.c:1248-1291 | A byte written before the commit never hits a byte that is not yet consumed |
| `StreamInterleaving.ReadsTheNextByte` | Code/ThirdParts/FreeRTOS/stream_buffer.c:1294-1335 | The byte a reader copies is the next one that was sent |
| `StreamInterleaving.ReceivedIsPrefixOfSent` | Code/ThirdParts/FreeRTOS/stream_buffer.c:1248-1356 | Under every interleaving the bytes received are a prefix of the bytes sent |
| `StreamInterleaving.WriterAndReaderStayApart` | Code/ThirdParts/FreeRTOS/stream_buffer.c:1248-1335 | The slot being written is never one the reader has still to copy |
| `StreamInterleaving.KnownSpaceIsFree` | Code/ThirdParts/FreeRTOS/stream_buffer.c:597-627 | Space computed from a stale tail is still free when it is used |
| `StreamInterleaving.SpaceIsExact` | Code/ThirdParts/FreeRTOS/stream_buffer.c:597-627 | When the loop over the tail ends, the space is exactly that of this moment, however often the reader has moved the tail between the looks |
| `StreamInterleaving.NextLengthIsRight` | Code/ThirdParts/FreeRTOS/stream_buffer.c:1084-1115 | A reader that sees bytes in a message buffer finds the length of the next message in front, and the whole of that message is there |
| `StreamInterleaving.WholeMessagesInOrder` | Code/ThirdParts/FreeRTOS/stream_buffer.c:824-1124 | Under every interleaving the bytes committed and the bytes consumed are whole frames, and the messages received are a prefix of the messages sent; an empty message commits nothing |
| `StreamWaiting.StepKeepsInv` | Code/ThirdParts/FreeRTOS/stream_buffer.c:699-762 | Every section of a waiting writer, a waiting reader, a notification and a timeout keeps: a blocked side is right to wait or about to be told |
| `StreamWaiting.NoLostNotification` | Code/ThirdParts/FreeRTOS/stream_buffer.c:642-975 | Over any run, while nobody is about to tell it, a blocked writer lacks the space it asked for, and a blocked reader has no more than a header or less than the trigger level to read |
| `StreamWaiting.BlocksOnlyForCause` | Code/ThirdParts/FreeRTOS/stream_buffer.c:703-926 | Over any run, a reader starts to wait only with no more than a header to read, and a writer only with less space than it needs |
| `StreamWaiting.ToldOnlyForCause` | Code/ThirdParts/FreeRTOS/stream_buffer.c:738-760 | Over any run, a reader is told only after a writer has found at least the trigger level of bytes, and a writer only after a reader has taken some |
| `StreamWaiting.EachNotificationWakesOnce` | Code/ThirdParts/FreeRTOS/stream_buffer.c:703-940 | Over any run a side is woken by a notification at most as often as the other side has told it |
| `StreamWaiting.OnlyTimeOutsAreLeft` | Code/ThirdParts/FreeRTOS/stream_buffer.c:703-731 | When both sides are blocked without a notification, only a timeout can go on |
| `StreamWaiting.StuckExactly` | Code/ThirdParts/FreeRTOS/stream_buffer.c:699-757 | On a stream buffer, with any trigger level that creation accepts, such a state can be reached exactly if trigger level and required space together exceed the capacity and one byte |
| `StreamWaiting.ReaderIsToldExactly` | Code/ThirdParts/FreeRTOS/stream_buffer.c:738-760 | For every trigger level that creation accepts, some run of sends gets a waiting reader told exactly if the level is not above the capacity; one byte above it no send ever tells it |
| `StreamWaiting.Sides.LookForRoom` | Code/ThirdParts/FreeRTOS/stream_buffer.c:707-726 | The critical section of the writer is its step: it registers and waits exactly if the space is too small |
| `StreamWaiting.Sides.LookForData` | Code/ThirdParts/FreeRTOS/stream_buffer.c:903-926 | The critical section of the reader is its step: it registers and waits exactly if there is no more than a header |
| `StreamWaiting.Sides.SendCompleted` | Code/ThirdParts/FreeRTOS/stream_buffer.c:139-150 | Afterwards the reader is not blocked without a notification |
| `StreamWaiting.Sides.ReceiveCompleted` | Code/ThirdParts/FreeRTOS/stream_buffer.c:62-73 | Afterwards the writer is not blocked without a notification |
| `EventGroups.ItemKeepsTheCondition` | Code/ThirdParts/FreeRTOS/event_groups.c:567-591 | The bits and control bits a blocked caller leaves in its list item are judged exactly as its own test would judge its call |
| `EventGroups.UnblockedValueParts` | Code/ThirdParts/FreeRTOS/event_groups.c:605-610 | What a released caller finds in its item, without control bits, is the value it was released on |
| `EventGroups.ClearedBits` | Code/ThirdParts/FreeRTOS/event_groups.c:593-621 | A bit is cleared by a set exactly if some released waiter that clears on exit waits for it |
| `EventGroups.ReleasedItems` | Code/ThirdParts/FreeRTOS/event_groups.c:560-617 | The tasks released are exactly the waiters that are satisfied, each with the same value; nobody else's item changes |
| `EventGroups.SettingReleasesExactly` | Code/ThirdParts/FreeRTOS/event_groups.c:533-626 | One set releases exactly the waiters satisfied by the old bits together with the new ones, and then removes the bits of those that clear on exit, and no others |
| `EventGroups.OrderOfTheListDoesNotMatter` | Code/ThirdParts/FreeRTOS/event_groups.c:556-621 | Groups that differ only in the order of their waiters agree on bits, released tasks and remaining waiters after a set |
| `EventGroups.FewerBitsSatisfyLess` | Code/ThirdParts/FreeRTOS/event_groups.c:473-498 | Clearing bits satisfies nobody |
| `EventGroups.WithoutClears` | Code/ThirdParts/FreeRTOS/event_groups.c:357-357 | Clearing a mask removes its bits and leaves every other bit as it was |
| `EventGroups.ClearedIsUnique` | Code/ThirdParts/FreeRTOS/event_groups.c:357-357 | Removing the bits of a mask and leaving every other bit has only one result |
| `EventGroups.WaitConditionMeans` | Code/ThirdParts/FreeRTOS/event_groups.c:693-726 | A wait for all bits is met exactly if none of the mask is missing, one for any bit exactly if not all are missing |
| `EventGroups.StepKeepsInv` | Code/ThirdParts/FreeRTOS/event_groups.c:194-626 | Setting, clearing, waiting, rendezvous, timeouts and returning from a block leave no blocked task with its condition met |
| `EventGroups.NobodyIsLeftBehind` | Code/ThirdParts/FreeRTOS/event_groups.c:317-626 | Over any run, no task stays blocked whose wait condition the bits meet |
| `EventGroups.ItemStays` | Code/ThirdParts/FreeRTOS/event_groups.c:268-305 | The item of a task that has left the list is changed by nothing but the task itself when it goes on |
| `EventGroups.ReleasedCallReturns` | Code/ThirdParts/FreeRTOS/event_groups.c:268-305 | Whatever happens to the group until the task runs again, its call returns the value in its item without the control bits |
| `EventGroups.ReleasedValueMeetsTheCondition` | Code/ThirdParts/FreeRTOS/event_groups.c:605-617 | At the moment of release the item holds bits that meet the waiter's own condition, free of control bits |
| `EventGroups.ReleasedCallMeetsItsCondition` | Code/ThirdParts/FreeRTOS/event_groups.c:409-461 | Over any run, the call of a task that a set or a rendezvous releases returns, whenever it runs again, bits that meet its own condition and hold no control bits |
| `EventGroups.BlockedCallKeepsItsWish` | Code/ThirdParts/FreeRTOS/event_groups.c:374-396 | The list item of a call that blocks says what the call asked for: its mask, its condition, and whether a release takes the bits |
| `EventGroups.TakenBitsAreGone` | Code/ThirdParts/FreeRTOS/event_groups.c:354-621 | A call that ends with its condition met and is to clear on exit, at once, after a timeout or by being released, leaves none of the bits of its mask |
| `EventGroups.DeliveredOnce` | Code/ThirdParts/FreeRTOS/event_groups.c:317-626 | Over any run, after a call to clear on exit has taken the bits of its mask, no other call on that mask has its condition met before one of the bits is set again |
| `EventGroups.StaysUntilMet` | Code/ThirdParts/FreeRTOS/event_groups.c:533-626 | Over any run, a blocked task stays on the list until a set or a rendezvous meets its condition or its own block time ends |
| `EventGroups.StepGathers` | Code/ThirdParts/FreeRTOS/event_groups.c:194-314 | While others keep off its bits, a step either adds its bits to an incomplete rendezvous and releases nobody, or completes it, releases everybody and leaves none of its bits |
| `EventGroups.NoneLeavesBeforeTheLastArrives` | Code/ThirdParts/FreeRTOS/event_groups.c:194-314 | Over any run in which others keep off the mask, everybody who has arrived stays blocked as long as some bit is missing |
| `EventGroups.AllLeaveTogether` | Code/ThirdParts/FreeRTOS/event_groups.c:194-314 | The step that brings the last bit releases all who arrived; the last task returns the value that holds the whole mask without blocking; every other call returns that same value whenever its task runs again; and the mask is clear after the step |
| `EventGroups.EventGroup.constructor` | Code/ThirdParts/FreeRTOS/event_groups.c:148-187 | A new group has no bits and no waiters |
| `EventGroups.EventGroup.SetEventBits` | Code/ThirdParts/FreeRTOS/event_groups.c:533-626 | The walk that removes entries while it goes judges every waiter once, on the same bits, and clears at the end |
| `EventGroups.EventGroup.ClearEventBits` | Code/ThirdParts/FreeRTOS/event_groups.c:473-498 | Returns the bits as they were; exactly the ones named are gone |
| `EventGroups.EventGroup.WaitEventBits` | Code/ThirdParts/FreeRTOS/event_groups.c:317-407 | Returns the bits at once if the condition is met or it may not block, else leaves its item behind the others in the list; exactly if the condition is met and it is to clear on exit, the bits of the mask are gone, and no others ever |
| `EventGroups.EventGroup.SyncEventBits` | Code/ThirdParts/FreeRTOS/event_groups.c:194-262 | Sets its bits; if they complete the mask it returns the value before the clearing and the bits of the mask are gone, else it blocks or returns the bits that are left |
| `EventGroups.EventGroup.AfterBlocking` | Code/ThirdParts/FreeRTOS/event_groups.c:268-305 | A released task returns its value and changes no bits; one that timed out looks once more, and if its bits came in the meantime and it is to clear, exactly the bits of the mask are gone |
| `CoRoutines.OverflowIsNextEpoch` | Code/ThirdParts/FreeRTOS/croutine.c:163-190 | For delays from one tick to a wrap less one, the comparison puts exactly the wake times of the next epoch into the overflow list |
| `CoRoutines.Scheduler.ZeroDelay` | Code/ThirdParts/FreeRTOS/include/croutine.h:310-315 | A delay of 0, which crDELAY keeps away, followed tick by tick through the scheduler: the co-routine is ready from the first tick on, but put in at the last tick of an epoch only after two wraps |
| `CoRoutines.NothingLeftAtTheWrap` | Code/ThirdParts/FreeRTOS/croutine.c:236-246 | At every wrap the current delay list is empty before the lists change roles |
| `CoRoutines.SwapIsClocked` | Code/ThirdParts/FreeRTOS/croutine.c:231-246 | After one more tick, with or without a swap, the current list holds only wake times from now on in this epoch and the overflow list only those of the next |
| `CoRoutines.HeadIsFirst` | Code/ThirdParts/FreeRTOS/croutine.c:249-257 | If the value of the head of the current list is not reached, no value in it is |
| `CoRoutines.TickIsClocked` | Code/ThirdParts/FreeRTOS/croutine.c:231-277 | One round on lists that fit the clock readies exactly those that asked for that tick, and leaves lists that fit the next |
| `CoRoutines.EveryItemIsInOneList` | Code/ThirdParts/FreeRTOS/croutine.c:68-75 | The generic item of a co-routine is in exactly one of its ready list and the two delay lists |
| `CoRoutines.HighestReady` | Code/ThirdParts/FreeRTOS/croutine.c:297-311 | With every list above the top empty, a member of the top list has the highest priority of all ready co-routines |
| `CoRoutines.Scheduler.Create` | Code/ThirdParts/FreeRTOS/croutine.c:103-160 | The co-routine, its priority cut to the highest there is, is ready, with its turn behind the others of its list, and in no other list |
| `CoRoutines.Scheduler.AddToReadyQueue` | Code/ThirdParts/FreeRTOS/croutine.c:68-75 | In the list of its priority nobody's turn comes later but that of the co-routine on which the index stands, and the index stays on it; the new one has its turn behind the others; every list above the top stays empty |
| `CoRoutines.Scheduler.AddToDelayedList` | Code/ThirdParts/FreeRTOS/croutine.c:163-199 | The running co-routine moves to the list of its wake time's epoch, in order, and its event item to the queue's list if it waits on one; the others of its ready list keep the order of their turns |
| `CoRoutines.Scheduler.WaitForEvent` | Code/ThirdParts/FreeRTOS/croutine.c:193-198 | The event item is inserted behind all of at least its priority and in front of the others |
| `CoRoutines.Scheduler.RemoveFromEventList` | Code/ThirdParts/FreeRTOS/croutine.c:339-361 | An interrupt moves the event item of the waiting co-routine of highest priority to the end of the pending list, leaves its generic item alone, and says whether it outranks the one that runs |
| `CoRoutines.Scheduler.Interrupts` | Code/ThirdParts/FreeRTOS/croutine.c:339-361 | Whatever interrupts come, event items only move from waiting to pending |
| `CoRoutines.Scheduler.TakePending` | Code/ThirdParts/FreeRTOS/croutine.c:208-220 | The head of the pending list, which an event has woken, becomes ready with its event item in no list, and nobody else does, whatever interrupts come in between |
| `CoRoutines.Scheduler.CheckPendingReadyList` | Code/ThirdParts/FreeRTOS/croutine.c:202-222 | Ends with nobody pending: whoever was pending is ready, and of the delayed co-routines only such as waited for an event and were taken from its list; the ready lists keep their members, order and index, and those that became ready have joined where their turn comes last |
| `CoRoutines.Scheduler.ExpireHead` | Code/ThirdParts/FreeRTOS/croutine.c:249-276 | The head of the current delay list becomes ready and nobody else, also when its event comes just before, and its event item is in no list |
| `CoRoutines.Scheduler.ExpireDue` | Code/ThirdParts/FreeRTOS/croutine.c:248-277 | Exactly those in the current list whose value is reached become ready, whatever the values are |
| `CoRoutines.Scheduler.Tick` | Code/ThirdParts/FreeRTOS/croutine.c:234-246 | The tick count moves by one and the lists change roles exactly at the wrap |
| `CoRoutines.Scheduler.PassTick` | Code/ThirdParts/FreeRTOS/croutine.c:229-277 | One round, on delay lists of any values: exactly those become ready that are in the list that is current after the possible swap, with a value that is reached |
| `CoRoutines.Scheduler.PassTrueTick` | Code/ThirdParts/FreeRTOS/croutine.c:229-277 | Between proper delays, a round readies only co-routines that asked for exactly that tick |
| `CoRoutines.Scheduler.CheckDelayedList` | Code/ThirdParts/FreeRTOS/croutine.c:225-281 | Called within a wrap of the last time: of the delayed co-routines exactly those are ready afterwards that asked for a tick up to now, and each became so at its tick; the ready lists keep their members, order and index |
| `CoRoutines.Scheduler.CheckLists` | Code/ThirdParts/FreeRTOS/croutine.c:284-287 | Both checks together: a delayed co-routine without an event is ready exactly if its tick has come, with one early only if it was taken from an event list; the ready lists only gain those that became ready |
| `CoRoutines.Scheduler.NobodyIsLate` | Code/ThirdParts/FreeRTOS/croutine.c:225-281 | Between calls every delayed co-routine is due later within a wrap, and every one that timed out did so at its tick |
| `CoRoutines.Scheduler.PickHighest` | Code/ThirdParts/FreeRTOS/croutine.c:297-311 | Picks, from the ready lists as they are on entry, the member after the index in the highest list that is not empty, or nobody exactly if nobody is ready; no other list changes |
| `CoRoutines.Scheduler.Schedule` | Code/ThirdParts/FreeRTOS/croutine.c:284-316 | A co-routine delayed without an event is ready exactly if its tick has come; with one, also if it was pending, and early only if it was taken from an event list; the one that runs is the next member of the highest ready list, which is the list before the call with those that became ready put in where their turn comes last |
| `CoRoutines.Scheduler.Round` | Code/ThirdParts/FreeRTOS/croutine.c:284-316 | As many scheduler calls as the highest ready list has members, at any sampled times and with interrupts in between: if nobody of that priority or above becomes ready meanwhile, each member runs exactly once |
| `CoRoutines.Scheduler.TakeTurn` | Code/ThirdParts/FreeRTOS/croutine.c:284-316 | One scheduler call, after which the co-routine that runs goes on or delays itself: the first in the order of turns is the one that runs, and the others keep theirs |
| `CoRoutines.Scheduler.TakeTurns` | Code/ThirdParts/FreeRTOS/croutine.c:284-316 | Over any number of scheduler calls, as long as all that run are of one priority: the members of its ready list run in their old order, all but the one that ran last, and behind them those that joined with the first call, among which is whoever was due or pending; whatever those that run do then, whoever leaves or joins later, and whatever interrupts come |
| `CoRoutines.EqualShares` | Code/ThirdParts/FreeRTOS/croutine.c:307-315 | Visiting the n members of a list one after the other from any index reaches every member once |
| `CoRoutines.AllJoinLast` | Code/ThirdParts/FreeRTOS/croutine.c:68-75 | Of any number of co-routines that become ready, those of a priority join its list in this order, behind the turns of all others but the one on which the index stands, which it keeps |
| `CoRoutines.LeavingKeepsTurns` | Code/ThirdParts/FreeRTOS/croutine.c:163-190 | A co-routine that leaves its ready list leaves the order of the others' turns as it was |
| `FlashStore.CalcCrc16` | Code/Drivers/Src/drv_flash.c:393-409 | The two loops compute the byte-wise recursion of the checksum |
| `FlashStore.Geometry.BlocksInPage` | Code/Drivers/Src/drv_flash.c:355-387 | Every block that is searched lies in the page behind the header block |
| `FlashStore.AppendToLog` | Code/Drivers/Src/drv_flash.c:291-292 | Programming the whole words of the block behind the log appends it to the log and changes neither the blocks before nor the other page |
| `FlashStore.OpenPage` | Code/Drivers/Src/drv_flash.c:273-277 | A header block on an erased page opens it with an empty log |
| `FlashStore.LatestIsLast` | Code/Drivers/Src/drv_flash.c:214-308 | After n writes to an empty store, all of blocks that can be programmed whole, the log holds the latest of them in order, a page was erased floor((n - 1) / blocks) times, and the pages alternate with the erases |
| `FlashStore.OnePageIsMarked` | Code/Drivers/Src/drv_flash.c:322-391 | Between calls exactly one page is marked valid, and its valid blocks are a prefix of it |
| `FlashStore.NextBlockIsFound` | Code/Drivers/Src/drv_flash.c:355-374 | A search for writing finds the block behind the log, or says which page is full |
| `FlashStore.LastBlockIsFound` | Code/Drivers/Src/drv_flash.c:375-387 | A search for reading finds the last block of the log, unless the number of blocks is a multiple of 2^16 and none is searched |
| `FlashStore.StoredIsJudged` | Code/Drivers/Src/drv_flash.c:170-200 | Whatever is in the block buffer, the read accepts a block left by a write exactly if that was programmed whole, unless a data byte lies behind the whole words |
| `FlashStore.ProgramsTheBlock` | Code/Drivers/Src/drv_flash.c:112-121 | The memory holds the whole block after programming over erased bytes exactly if the bytes behind its last whole word are 0 |
| `FlashStore.HeaderReadsBack` | Code/Drivers/Src/drv_flash.c:232-271 | The words of a header read back as the values it was filled with |
| `FlashStore.LowByteOfCrcIsParity` | Code/Drivers/Src/drv_flash.c:393-409 | The low byte of the checksum is the exclusive-or of 0xFF and all bytes |
| `FlashStore.CutBlockNeedsParity` | Code/Drivers/Src/drv_flash.c:280-289 | A block that is not a whole number of words can be programmed whole only if that parity is 0 and the data behind the whole words is 0 |
| `FlashStore.WholeWordsAreNeeded` | Code/Drivers/Src/drv_flash.c:280-296 | Every payload can be programmed whole exactly if the block size is a multiple of 4 |
| `FlashStore.AlignmentIsNotWhatIsChecked` | Code/Drivers/Src/drv_flash.c:148-149 | The alignment mask lets through exactly the numbers with remainder 1 to 3 by 8 that are no multiple of 4, and turns down exactly the multiples of 4 with remainder 4 |
| `FlashStore.AcceptedMayFail` | Code/Drivers/Src/drv_flash.c:138-159 | An accepted geometry with room for a block head has a payload that a write reports as failed exactly if its block size has remainder 1 to 3 by 8 |
| `FlashStore.WriteThatFails` | Code/Drivers/Src/drv_flash.c:138-308 | On an accepted geometry with pages apart, a write to an empty store returns the data error |
| `FlashStore.Store.EmptyDevice` | Code/Drivers/Src/drv_flash.c:106-110 | Exactly the range is set to the erased value |
| `FlashStore.Store.WriteDevice` | Code/Drivers/Src/drv_flash.c:112-121 | Exactly the given words of the block buffer are copied into the memory |
| `FlashStore.Store.ReadDevice` | Code/Drivers/Src/drv_flash.c:123-132 | The block buffer starts with the words of the memory and is unchanged behind them |
| `FlashStore.Store.FillHeader` | Code/Drivers/Src/drv_flash.c:232-271 | The header block has zeros behind the header, and in it the mark, the page's address and size, the size and the number of its blocks, and a checksum taken with its own field at 0 |
| `FlashStore.Store.FillBlock` | Code/Drivers/Src/drv_flash.c:280-289 | The buffer holds a marked block of the data, padded with zeros or cut to the data region, and its checksum with the high byte first |
| `FlashStore.Store.FindBlock` | Code/Drivers/Src/drv_flash.c:322-391 | On any memory: no page or both pages marked are told apart; otherwise the first erased block, or the last valid one, or that there is none |
| `FlashStore.Store.ProgramBlock` | Code/Drivers/Src/drv_flash.c:291-296 | The write is reported good exactly if the memory then equals the whole block |
| `FlashStore.Store.PreparePage` | Code/Drivers/Src/drv_flash.c:229-278 | The page that the search asks for is opened: with an empty log while a full page keeps its log; on any memory it is erased before exactly if its mark says that it is not erased |
| `FlashStore.Store.Write` | Code/Drivers/Src/drv_flash.c:214-308 | On any memory: the block goes where the search says, the first erased one of the one marked page or else the first of the page that is opened; success is reported exactly if the memory there then equals the whole block, which it always does for blocks of a multiple of 4 bytes. On a store that is empty, holds a log or has both pages marked, that is exactly if the block can be programmed whole; its block is the latest; a page is erased exactly when it was full and the write succeeds, or both when both were marked; a failed change of pages leaves both marked. On any other memory in which no block is left to write and no page is dirty under an erased mark, a good write leaves a store that holds just its data |
| `FlashStore.Store.Read` | Code/Drivers/Src/drv_flash.c:161-203 | On any memory and for any size the buffer can give: reports a block error exactly if there is no marked block on the one marked page; else data comes only from the last marked block, and only if its copy passes the tests; on a store in use it is what was written last if that was programmed whole and a block is searched |
| `FlashStore.Store.SetEmpty` | Code/Drivers/Src/drv_flash.c:310-319 | From any memory, the store is empty afterwards |
| `FlashStore.Store.CheckEmpty` | Code/Drivers/Src/drv_flash.c:205-212 | On any memory it says whether both page marks are erased; on a store in use, whether it is empty |
| `FlashStore.Store.DriverInit` | Code/Drivers/Src/drv_flash.c:138-159 | Accepts exactly the sizes that pass its tests, and then records them |
| `FlashStore.Store.WriteAll` | Code/Drivers/Src/drv_flash.c:214-308 | Any number of writes to an empty store does what the log model says; if every block can be programmed whole, the last payload is the latest, after exactly floor((n - 1) / blocks) erases |
| `FlashStore.Store.WriteThenRead` | Code/Drivers/Src/drv_flash.c:161-308 | On a store in use, unless a data byte lies behind the whole words, a read behind a write reported as good succeeds, with the data written, exactly if the number of blocks is no multiple of 2^16; else it reports a block error |
| `FlashStore.WriteThatIsNotFound` | Code/Drivers/Src/drv_flash.c:138-391 | On an accepted geometry of 65537 blocks to a page, a write is reported good and the read behind it does not find the block |
| `SoftI2c.ByteRoundTrip` | Code/UsrParts/soft_i2c/drv_soft_i2c.c:225-248 | The eight bits sent, most significant first, are worth the byte |
| `SoftI2c.BitsRoundTrip` | Code/UsrParts/soft_i2c/drv_soft_i2c.c:272-296 | Eight bits received are the bits of exactly one byte, their value |
| `SoftI2c.MemoryAddressRoundTrip` | Code/UsrParts/soft_i2c/drv_soft_i2c.c:481-490 | The memory address bytes, high byte first, are worth the address |
| `SoftI2c.Capacities` | Code/UsrParts/soft_i2c/drv_soft_i2c.c:481-490 | Up to four address bytes reach 1, 2^8, 2^16, 2^24 and 2^32 cells |
| `SoftI2c.TransferCalls` | Code/UsrParts/soft_i2c/drv_soft_i2c.c:369-421 | However a transfer goes on and wherever it ends, the first eight bits on the wires stand for the seven bits of the device address and the direction |
| `SoftI2c.SentBytesAreReadBack` | Code/UsrParts/soft_i2c/drv_soft_i2c.c:342-392 | Reading the wires in groups of nine bits gives back the bytes the master was asked to send, each acknowledged |
| `SoftI2c.ReceivedBytesAreReadBack` | Code/UsrParts/soft_i2c/drv_soft_i2c.c:428-443 | Reading the wires gives the bytes the master returned, every one acknowledged but the last |
| `SoftI2c.AddressedExactly` | Code/UsrParts/soft_i2c/drv_soft_i2c.c:342-421 | A memory acknowledges the first byte exactly if its seven address bits are its own |
| `SoftI2c.OthersAreNotReached` | Code/UsrParts/soft_i2c/drv_soft_i2c.c:342-392 | A transfer to an address that differs in the seven address bits is not acknowledged by a memory and leaves its cells as they are |
| `SoftI2c.Bus.SetSda` | Code/UsrParts/soft_i2c/drv_soft_i2c.c:35-39 | A change of SDA is a start or a stop exactly if SCL is high, and else means nothing on the wires |
| `SoftI2c.Bus.I2cStart` | Code/UsrParts/soft_i2c/drv_soft_i2c.c:212-223 | One start appears on the wires, at the beginning of a transfer and within one |
| `SoftI2c.Bus.I2cStop` | Code/UsrParts/soft_i2c/drv_soft_i2c.c:321-331 | The bus is idle, and a stop is on the wires exactly if the slave does not hold SDA |
| `SoftI2c.Bus.SendByte` | Code/UsrParts/soft_i2c/drv_soft_i2c.c:225-248 | Exactly the eight bits of the byte appear on the wires |
| `SoftI2c.Bus.WaitAck` | Code/UsrParts/soft_i2c/drv_soft_i2c.c:298-319 | An acknowledge is clocked exactly if the slave pulls SDA; without one there is no ninth clock |
| `SoftI2c.Bus.ReadByte` | Code/UsrParts/soft_i2c/drv_soft_i2c.c:272-296 | Returns the byte the slave put on the wires bit by bit, and answers it as asked |
| `SoftI2c.Bus.IdleCheck` | Code/UsrParts/soft_i2c/drv_soft_i2c.c:196-210 | Passes exactly if nobody holds SDA, and leaves nothing on the wires |
| `SoftI2c.Bus.SendAll` | Code/UsrParts/soft_i2c/drv_soft_i2c.c:376-385 | Succeeds exactly if the slave acknowledges every byte; else the wires show the acknowledged ones, the one that was not, and a stop |
| `SoftI2c.Bus.SendMemoryAddress` | Code/UsrParts/soft_i2c/drv_soft_i2c.c:480-490 | The same for the bytes of the memory address, high byte first |
| `SoftI2c.Bus.ReceiveAll` | Code/UsrParts/soft_i2c/drv_soft_i2c.c:428-439 | All bytes come from the slave, the last one is not acknowledged, and the slave then lets go of SDA |
| `SoftI2c.Bus.WriteDevice` | Code/UsrParts/soft_i2c/drv_soft_i2c.c:342-392 | For any slave, the wires show the start, the device address for writing, the data and the stop, or everything up to the first byte without acknowledge and a stop; the first byte has the seven address bits of the caller and the direction bit 0 |
| `SoftI2c.Bus.ReadDevice` | Code/UsrParts/soft_i2c/drv_soft_i2c.c:394-444 | For any slave, the wires show the start, the device address for reading, the bytes returned and the stop; after a read of nothing the stop appears exactly if the slave's first bit is 1; the first byte has the seven address bits of the caller and the direction bit 1 |
| `SoftI2c.StopIsSureOfANonemptyRead` | Code/UsrParts/soft_i2c/drv_soft_i2c.c:428-443 | Whatever the slave, a read ends with a stop exactly if it is a read of at least one byte |
| `SoftI2c.Bus.WriteMemory` | Code/UsrParts/soft_i2c/drv_soft_i2c.c:446-508 | As WriteDevice, with the memory address in front of the data |
| `SoftI2c.Bus.ReadMemory` | Code/UsrParts/soft_i2c/drv_soft_i2c.c:510-583 | The device is called for writing and the memory address is written, a repeated start calls the same device for reading, and then the transfer is as ReadDevice; every path without an acknowledge ends with a stop |
| `SoftI2c.MemoryIsWritten` | Code/UsrParts/soft_i2c/drv_soft_i2c.c:446-508 | A memory device acknowledges a whole write and holds the data from the memory address on |
| `SoftI2c.MemoryIsRead` | Code/UsrParts/soft_i2c/drv_soft_i2c.c:510-583 | A whole read returns the cells of the memory from the memory address on |
| `SoftI2c.MemoryStopsAnEmptyRead` | Code/UsrParts/soft_i2c/drv_soft_i2c.c:510-583 | Reading nothing from a memory device shows a stop exactly if the cell it stands on is at least 0x80 |
| `SoftI2c.ReadNothingThenWrite` | Code/UsrParts/soft_i2c/drv_soft_i2c.c:446-583 | Reading nothing from a memory device succeeds; a write behind it succeeds exactly if the cell is at least 0x80, and else finds the bus held |
| `SoftI2c.WriteThenRead` | Code/UsrParts/soft_i2c/drv_soft_i2c.c:446-583 | On a memory device, writing and reading back both succeed and return the same bytes |
| `Buttons.StatesFourSixSevenAreUnreachable` | Code/ThirdParts/MultiButton/multi_button.c:92-170 | Over any samples only five of the eight states occur and every bit field stays in its range |
| `Buttons.DebouncingIsCounted` | Code/ThirdParts/MultiButton/multi_button.c:80-89 | The level is that of the last three equal samples, and the counter is the number of samples since that differ from it |
| `Buttons.LevelFlipsAfterThreeSamples` | Code/ThirdParts/MultiButton/multi_button.c:80-89 | The level flips with a sample exactly if that sample and the two before it all differ from it |
| `Buttons.HeldSincePress` | Code/ThirdParts/MultiButton/multi_button.c:93-117 | While a button is held its tick counter is the number of calls since the press |
| `Buttons.CountsFromPress` | Code/ThirdParts/MultiButton/multi_button.c:105-117 | Whenever the button is in the pressed state, the press was as many calls ago as it has counted |
| `Buttons.LongPressStartsExactly` | Code/ThirdParts/MultiButton/multi_button.c:105-117 | A long press is reported exactly 201 calls after the first press of a sequence, if the level was active all the time, and at no other call |
| `Buttons.LongPressEndsWithOnePressUp` | Code/ThirdParts/MultiButton/multi_button.c:154-165 | From a long press to the release only holds are reported, then one release, and the sequence is over |
| `Buttons.EventIsTheCall` | Code/ThirdParts/MultiButton/multi_button.c:92-170 | The event field is the first callback of the call, and without one it stays, or is cleared while nothing is pressed |
| `Buttons.PressUpExactly` | Code/ThirdParts/MultiButton/multi_button.c:105-165 | A release is reported exactly when the level stops being active, except exactly in the call after a repeated press was given up |
| `Buttons.PressDownExactly` | Code/ThirdParts/MultiButton/multi_button.c:93-133 | A press is reported exactly when the level becomes active, at the first call with an active level, and once more when a repeated press was given up; as a repeat exactly in the same sequence |
| `Buttons.CountsFromTheLast` | Code/ThirdParts/MultiButton/multi_button.c:119-152 | Between two presses of a sequence the release, and in a repeated press the press, was as many calls ago as the button has counted, and not more than 15 |
| `Buttons.SequenceGoesOnExactly` | Code/ThirdParts/MultiButton/multi_button.c:105-165 | The release of a first press keeps the sequence open, that of a repeated press exactly if it was held for less than 15 calls, and that of a long press ends it |
| `Buttons.ReleaseWithoutPressUp` | Code/ThirdParts/MultiButton/multi_button.c:139-152 | A stream of 26 samples whose last release is not reported |
| `Buttons.RepeatCountsPresses` | Code/ThirdParts/MultiButton/multi_button.c:93-133 | The repeat field is the number of presses of the sequence modulo 16 |
| `Buttons.ClicksArePressesModulo16` | Code/ThirdParts/MultiButton/multi_button.c:127-136 | When a sequence of short presses ends, the click reported depends on the presses modulo 16 |
| `Buttons.ClicksAreRightExactly` | Code/ThirdParts/MultiButton/multi_button.c:127-136 | Over any run, when a sequence of short presses ends, a single (double) click is reported exactly for one (two) presses, except exactly when the presses are 17 (18) or more and 1 (2) modulo 16 |
| `Buttons.ClicksOnlyWhenSequenceEnds` | Code/ThirdParts/MultiButton/multi_button.c:119-137 | Clicks are reported at no other call |
| `Buttons.SeventeenPressesAreASingleClick` | Code/ThirdParts/MultiButton/multi_button.c:119-137 | A stream of samples with 17 presses that is reported as a single click |
| `Buttons.Button.constructor` | Code/ThirdParts/MultiButton/multi_button.c:21-29 | A new button is in its first state at the level that was read |
| `Buttons.Button.Handler` | Code/ThirdParts/MultiButton/multi_button.c:73-170 | One call does to the fields and the callbacks what the state machine says, and keeps the field ranges |
| `Buttons.ButtonList.Start` | Code/ThirdParts/MultiButton/multi_button.c:177-187 | A button already in the list is refused; else it is put in front of the others |
| `Buttons.ButtonList.Stop` | Code/ThirdParts/MultiButton/multi_button.c:194-206 | The button is taken out and the others stay in order; an unknown button changes nothing |
| `Buttons.ButtonList.Ticks` | Code/ThirdParts/MultiButton/multi_button.c:213-219 | Every button in the list is handled exactly once, with its own level |
| `Buttons.StopUndoesStart` | Code/ThirdParts/MultiButton/multi_button.c:177-206 | Stopping a button that was just started gives back the list |

## Left out

- SoftwareTimers.Daemon.Run: follows passes and commands in one order; pended function calls and trace numbers of the daemon are not modelled.
- CoRoutines.Scheduler.Interrupts: models any number of interrupts between two critical sections, not inside the loop tests, where they change nothing that is tested.
- EventGroups.EventGroup.SetEventBits: returns the bits after the clearing; in the source a task that resumes first may change them once more before they are read for the result.
- FlashStore.Store.Read: and Write are proved for sizes that fit into the block buffer behind the block head; beyond it the source copies past the end of the buffer. A block size below 10, which has no room for head and checksum, is left out as well.
- SoftI2c.Bus.WriteDevice: and the other transfers model a slave that sets SDA while SCL is low and does not stretch the clock; the wait for an acknowledge therefore ends at its first look or not at all.
- SoftI2c.Bus.WriteMemory: and ReadMemory are modelled for memory addresses of at most four bytes, beyond which the shift in the source is undefined.
- RecursiveMutex.Mutex.TakeMutexRecursiveWaiting: follows a given number of rounds of the waiting loop, so that it ends; how a waiting task is woken is in QueueWakeups, and priority inheritance is not modelled.
- StreamBuffer.Buffer.Send: and Receive begin where the waiting is over; waiting and notifying are in StreamWaiting, where only the number of bytes counts.
- HAL and register drivers, lwIP and FatFs: device input and output.
- Task scheduling beyond the abstraction above, tracing, static against dynamic allocation, memory protection wrappers, asserts as code.
- Queue sets and the queue registry.
- Reset of a queue inside the wake-up proof; the exact condition under which it is harmless is proved beside it.
- Co-routine access to queues in `queue.c` (xQueueCRSend and the like), of which only the lists of `croutine.c` are modelled.
- Deleting queues, buffers and event groups, and event group calls from interrupts, which the timer daemon carries out.
- Power failure during a flash write: what the next write and read do is stated for any memory, but not which memories a cut-off write can leave. The checksum is not claimed to be a standard one, only that writer and reader agree.
- The STM32 branch of the flash device functions, and a store whose pages overlap.
- The table of I2C buses and its initialised flags, the delays, and clock frequencies.
- Button callbacks that change the list of buttons while it is walked, and levels other than 0 and 1.
- Weak memory: steps are sequentially consistent.
- The logger buffer, command table, alarm carry, soft SPI and key anti-shake: easier members of the same kinds.
