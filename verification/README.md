# Nachos `Alarm` wake-set bookkeeping, in Dafny

This project models the sequential core of the Nachos kernel's `Alarm`
(`threads/Alarm.java`). A thread that calls `waitUntil(x)` adds a
`ThreadTime` entry to the wake set, which is a priority queue ordered by the
`Ascend` comparator. The entry records the thread and the absolute tick
`now + x`. Each timer interrupt runs `timerInterrupt()`. It polls the queue's
smallest entry for as long as that entry's wake tick has been reached, and it
readies every non-null thread it polls.

Modules:

- `Wrappers` (`wrappers.dfy`): `Option`, which stands for a possibly-null
  thread reference.
- `Alarm` (`alarm.dfy`): the state and its operations.
  - Data: `ThreadTime`, the `Ascend` comparator, and the wake set, kept as a
    sequence sorted by wake tick (`AlarmState`, `Valid`).
  - Queue operations: `Insert`, `Peek`, `Poll`.
  - Transitions: `WaitUntil`, and the interrupt's drain loop as a function
    (`Drain`, `TimerInterrupt`) and as a method with the source's loop
    (`RunTimerInterrupt`).
  - Reference definitions: `DueOf`/`LaterOf`, which split a sequence at a
    clock reading, and `ReadyList`, the threads an interrupt readies.
- `AlarmRuns` (`alarm_runs.dfy`): runs, meaning sequences of `waitUntil`
  calls and interrupts, each carrying its clock reading. It proves the
  guarantee in the `waitUntil` doc comment: a sleeper is readied during the
  first timer interrupt whose clock reading is at least its call time plus
  its wait, and not before.
- `AlarmLong` (`alarm_long.dfy`): the comparator as written, with Java's
  wrapping 64-bit subtraction (see Findings).

The clock (`Machine.timer().getTime()`) is a parameter. A transition receives
the reading at which it happens. "Readied" is the sequence of thread ids an
interrupt hands to the scheduler, in poll order. Thread ids are natural
numbers. A `null` thread reference is `None`.

## Model

| member | source | states |
|---|---|---|
| Alarm.Ascend | threads/Alarm.java:76-80 | The comparator never answers 0, and it ranks `a` before `b` exactly when `a`'s wake tick is earlier. |
| Alarm.SortedByWakeOrdersAll | threads/Alarm.java:74 | Ordering between neighbours, which is what the queue keeps, orders any two positions by wake tick. |
| Alarm.Insert | threads/Alarm.java:64 | `add` on the `Ascend`-ordered queue keeps it ordered and adds exactly the new entry to its multiset of entries. |
| Alarm.Peek | threads/Alarm.java:34 | `peek` returns an entry of the queue whose wake tick is no larger than that of any other entry. |
| Alarm.Poll | threads/Alarm.java:36 | `poll` returns the entry `peek` shows. The remaining queue is ordered and holds exactly the other entries. |
| Alarm.WaitUntil | threads/Alarm.java:56-67 | The wake set gains exactly one entry, for the calling thread, due at `now + x`, and every existing entry stays. For `x >= 0` the new entry is not due before the call. |
| Alarm.DueLaterPartition | threads/Alarm.java:34 | Splitting the entries at a clock reading gives the due and the later ones. Together they make up exactly the original multiset. |
| Alarm.Drain | threads/Alarm.java:34-39 | The drain loop polls only entries with `wakeTime <= now` and leaves only entries with `wakeTime > now`. It loses and duplicates nothing, and the polled entries are in non-decreasing wake-tick order. |
| Alarm.DrainPollsExactlyTheDue | threads/Alarm.java:34-39 | The loop polls exactly the due entries and keeps exactly the later ones, each in queue order. |
| Alarm.ReadyListCounts | threads/Alarm.java:36-38 | A polled null thread is readied zero times. Every other thread is readied once per polled entry that carries it. So the readied list is as long as the polled list minus its null entries. |
| Alarm.TimerInterrupt | threads/Alarm.java:32-42 | One interrupt drains every due entry. Afterwards each remaining entry has `wakeTime > now`, entries not yet due are untouched, and nothing early is released. The polled entries are sorted, and each thread is readied once per due entry it has. |
| Alarm.RunTimerInterrupt | threads/Alarm.java:34-39 | The source's `while` loop (peek, poll, skip null, ready) computes the same remaining wake set and readied sequence as `TimerInterrupt`. |
| Alarm.InterruptIdempotent | threads/Alarm.java:34 | A second interrupt at the same clock reading finds nothing due and changes nothing. |
| Alarm.TwoInterruptsActAsOne | threads/Alarm.java:32-42 | With a clock that does not run backwards, interrupts at `t1` and then `t2` together poll and ready, in order, exactly what one interrupt at `t2` would, and they leave the same wake set. |
| AlarmRuns.Step | threads/Alarm.java:32-67 | One event preserves the queue order. A `waitUntil` call readies nothing, and an interrupt readies exactly the non-null threads it polls. |
| AlarmRuns.FirstDue | threads/Alarm.java:45-50 | The position of the first timer interrupt whose clock reading reaches a given tick. No earlier event is such an interrupt. |
| AlarmRuns.EntryStaysUntilDue | threads/Alarm.java:34 | An event other than an interrupt at which the entry is due neither polls the entry nor removes it from the wake set. |
| AlarmRuns.EntryPolledAtFirstDueInterrupt | threads/Alarm.java:45-50 | An entry in the wake set is polled by no event before the first interrupt at which it is due, and it is polled by that interrupt. No monotone clock is needed for this. |
| AlarmRuns.PolledThreadIsReadied | threads/Alarm.java:36-38 | Every polled entry with a non-null thread readies that thread. |
| AlarmRuns.UnpolledThreadNotReadied | threads/Alarm.java:36-38 | A thread with no polled entry is not readied. |
| AlarmRuns.SleeperReadiedAtFirstDueInterrupt | threads/Alarm.java:45-50 | After `waitUntil(x)` at `t0`, no later event polls the new entry before the first interrupt whose clock reading is at least `t0 + x`. That interrupt polls it and readies the caller. For `x >= 0` it comes no earlier than the call. The caller may have had no entry before the call and may make no other call while blocked. In that case no event before that interrupt readies it. |
| AlarmRuns.SleeperNotReadiedBeforeDue | threads/Alarm.java:45-50 | A caller of `waitUntil(x)` at `t0` that had no entry and makes no other call while blocked is readied by no event before the first interrupt whose clock reading is at least `t0 + x`. |
| AlarmRuns.WaitUntilMakesOnlyEntry | threads/Alarm.java:56-64 | The caller of `waitUntil` has no entry while it runs, so after the call the entry it made is its only one. |
| AlarmRuns.FirstSleeperOfNewAlarm | threads/Alarm.java:45-50 | On a newly constructed alarm, the first sleeper is readied by the first interrupt at which it is due and, if it makes no other call, by no earlier event. |
| AlarmRuns.OnlyEntryKept | threads/Alarm.java:32-67 | While a thread is blocked, events that are neither its own call nor an interrupt at which its entry is due keep that entry as its only one, and they do not ready it. |
| AlarmRuns.NotReadiedBeforeDue | threads/Alarm.java:45-50 | A blocked thread with a single entry is readied by no event before the first interrupt at which that entry is due. |
| AlarmLong.WrapLong | threads/Alarm.java:78 | Java `long` subtraction yields the exact difference reduced modulo 2^64 into the `long` range, and it is exact when the difference is a `long`. |
| AlarmLong.AscendAsWritten | threads/Alarm.java:76-80 | The comparator as written answers only -1 or 1. On `long` wake ticks it ranks `a` first exactly when `a` is earlier and `a.wakeTime - b.wakeTime` fits in a `long`, or `a` is not earlier and the difference does not fit. So it disagrees with wake-tick order exactly when the subtraction wraps. |
| AlarmLong.AscendAgreesWithoutWrap | threads/Alarm.java:78 | When the difference of two wake ticks is a `long`, the comparator as written ranks entries as `Alarm.Ascend` does. |
| AlarmLong.AscendAsWrittenMisorders | threads/Alarm.java:78 | For wake ticks `Long.MAX_VALUE` and -10, the comparator as written ranks the later entry first, while `Alarm.Ascend` does not. |

## Left out

- Interrupt masking (`Machine.interrupt().disable()/enable()`, threads/Alarm.java:33, 41, 63, 66) and the atomicity of "insert, then sleep": these are about mutual exclusion between interrupts and threads, and the model's transitions are atomic by construction.
- `KThread.sleep()`, `thread.ready()` and `KThread.currentThread().yield()` (threads/Alarm.java:38, 40, 65): these are scheduler calls outside the file. Readying is modelled as the output sequence `readied`. Blocking and yielding are not modelled.
- `Machine.timer().getTime()` (threads/Alarm.java:34, 58): the hardware clock becomes a parameter of each transition and of each run event.
- Alarm.Drain, Alarm.TimerInterrupt and Alarm.RunTimerInterrupt: they read the clock once per interrupt, as the parameter `now`. The source's loop condition (threads/Alarm.java:34) calls `getTime()` again on every iteration. The two agree only if the simulated clock does not advance while interrupts are disabled (threads/Alarm.java:33). That depends on the `Machine` timer, which is not part of this model.
- `KThread.currentThread()` (threads/Alarm.java:61): `WaitUntil` takes the caller's id. The current thread is never null, so the new entry always has `Some` thread. Null threads can still appear in a wake set given as input.
- The constructor's timer-handler registration (threads/Alarm.java:18-24): this is simulation plumbing. A new alarm's wake set is empty (threads/Alarm.java:74). That state is `Alarm.Initial`, and `AlarmRuns.FirstSleeperOfNewAlarm` starts from it.
- `PingAlarmTest` and `selfTest` (threads/Alarm.java:93-118): these are console test harnesses.
- The heap layout of `java.util.PriorityQueue`: the wake set is the sequence of entries in the order `poll` returns them. Ascend never answers 0, so the order among equal wake ticks is not promised. The model puts a new entry after the entries with its wake tick. That choice is made in one place only, the recursive case of `Insert` (alarm.dfy, `Ascend(e, q[0]) < 0`). The sequence equalities in `TimerInterrupt` (`polled == DueOf(...)`, `alarm.sleeping == LaterOf(...)`), `DrainPollsExactlyTheDue`, `TwoInterruptsActAsOne` and `RunTimerInterrupt` fix the order among equal wake ticks, so they depend on that choice. Every other contract is stated through multisets, membership and sortedness, so it does not.
- Alarm.WaitUntil: does not model the 64-bit wrap-around of `getTime() + x` (threads/Alarm.java:58), because wake ticks are unbounded integers. The contract `now <= wakeTime` for `x >= 0` holds only while that sum is a `long`.
- Alarm.Ascend: compares wake ticks directly instead of by the sign of the wrapping `long` difference. `AlarmLong` models that difference and shows where the two disagree.
- `threads/Communicator.java`: it is a condition-variable rendezvous built on `Lock` and `Condition2`, whose guarantees concern thread interleavings. `Lock` and `Condition2` are not part of this model.

## Findings

| source | as written | input that shows it | evidently intended | confidence | as-written member | corrected member |
|---|---|---|---|---|---|---|
| threads/Alarm.java:78 | `a.wakeTime - b.wakeTime < 0 ? -1 : 1` computes the difference in 64-bit `long` arithmetic, which wraps | wake ticks `Long.MAX_VALUE` (from `waitUntil(Long.MAX_VALUE - now)`) and -10 (from `waitUntil(-10 - now)`): the difference wraps to a negative number, so the far-future entry is ranked before the due one, and a queue ordered by this comparator can keep the due entry behind a head that is never due | rank entries by wake tick, e.g. `Long.compare(a.wakeTime, b.wakeTime)` with ties answered as 1 | not executed; needs waits near the ends of the `long` range | AlarmLong.AscendAsWrittenMisorders | Alarm.Ascend |
