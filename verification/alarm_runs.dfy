/** Runs of an alarm: a sequence of `waitUntil` calls and timer interrupts,
    each with the clock reading at which it happens, applied one after the
    other. The lemmas here state the guarantee of the `waitUntil` doc comment:
    a sleeper is readied during the first timer interrupt at which the clock
    has reached its call time plus its wait, and not before. */
module AlarmRuns {
  import opened Wrappers
  import opened Alarm

  /** Something that happens to an alarm: `thread` calls `waitUntil(ticks)`
      while the clock reads `time`, or the timer interrupts at `time`. */
  datatype Event =
    | WaitCall(time: int, thread: ThreadId, ticks: int)
    | Interrupt(time: int)

  /** The effect of one event. A `waitUntil` call polls and readies nothing. */
  function Step(s: AlarmState, ev: Event): (r: TickResult)
    requires Valid(s)
    ensures Valid(r.alarm)
    ensures ev.WaitCall? ==> r.polled == []
    ensures r.readied == ReadyList(r.polled)
  {
    match ev
    case WaitCall(t, id, x) => TickResult(WaitUntil(s, t, id, x), [], [])
    case Interrupt(t) => TimerInterrupt(s, t)
  }

  /** The alarm after the first `k` events of `evs`, each applied to the
      state the one before it left. */
  function After(s: AlarmState, evs: seq<Event>, k: nat): (r: AlarmState)
    requires Valid(s) && k <= |evs|
    ensures Valid(r)
    decreases k
  {
    if k == 0 then s else Step(After(s, evs, k - 1), evs[k - 1]).alarm
  }

  /** What event `k` of `evs` does, in the state the earlier events left. */
  function Outcome(s: AlarmState, evs: seq<Event>, k: nat): (r: TickResult)
    requires Valid(s) && k < |evs|
    ensures r.readied == ReadyList(r.polled)
    ensures r.alarm == After(s, evs, k + 1)
  {
    Step(After(s, evs, k), evs[k])
  }

  /** `ev` is a timer interrupt at which the clock has reached `w`. */
  predicate DueAt(ev: Event, w: int) {
    ev.Interrupt? && w <= ev.time
  }

  /** The position of the first interrupt of `evs` at which the clock has
      reached `w`, or `|evs|` when there is none. */
  function FirstDue(evs: seq<Event>, w: int): (k: nat)
    ensures k <= |evs|
    ensures k < |evs| ==> DueAt(evs[k], w)
    ensures forall m :: 0 <= m < k ==> !DueAt(evs[m], w)
    decreases |evs|
  {
    if |evs| == 0 then 0
    else if DueAt(evs[0], w) then 0
    else 1 + FirstDue(evs[1..], w)
  }

  /** No event before the first due interrupt is itself a due interrupt. */
  lemma NotDueBeforeFirst(evs: seq<Event>, w: int, m: nat)
    requires m < FirstDue(evs, w)
    ensures m < |evs| && !DueAt(evs[m], w)
  {
  }

  /** One event leaves a not-yet-due entry in the wake set and does not poll it. */
  lemma EntryStaysUntilDue(s: AlarmState, ev: Event, e: ThreadTime)
    requires Valid(s)
    requires e in s.sleeping
    requires !DueAt(ev, e.wakeTime)
    ensures e in Step(s, ev).alarm.sleeping
    ensures e !in Step(s, ev).polled
  {
    match ev
    case WaitCall(t, id, x) =>
      assert e in multiset(s.sleeping);
      assert e in multiset(Step(s, ev).alarm.sleeping);
    case Interrupt(t) =>
      DueLaterPartition(s.sleeping, t);
  }

  /** The same, for event `k` of a run. */
  lemma EntryStaysAt(s: AlarmState, evs: seq<Event>, k: nat, e: ThreadTime)
    requires Valid(s) && k < |evs|
    requires e in After(s, evs, k).sleeping
    requires !DueAt(evs[k], e.wakeTime)
    ensures e in After(s, evs, k + 1).sleeping
    ensures e !in Outcome(s, evs, k).polled
  {
    EntryStaysUntilDue(After(s, evs, k), evs[k], e);
  }

  /** An entry stays in the wake set until the first interrupt at which the
      clock reaches its wake tick. */
  lemma {:induction false} EntryStaysBeforeFirstDue(s: AlarmState, evs: seq<Event>, e: ThreadTime, k: nat)
    requires Valid(s)
    requires e in s.sleeping
    requires k <= FirstDue(evs, e.wakeTime)
    ensures e in After(s, evs, k).sleeping
    decreases k
  {
    if k > 0 {
      var j := k - 1;
      EntryStaysBeforeFirstDue(s, evs, e, j);
      NotDueBeforeFirst(evs, e.wakeTime, j);
      EntryStaysAt(s, evs, j, e);
      assert j + 1 == k;
    }
  }

  /** An entry in the wake set is polled by no event before the first
      interrupt at which the clock reaches its wake tick, and is polled by that
      interrupt. The clock need not be monotonic for this. */
  lemma EntryPolledAtFirstDueInterrupt(s: AlarmState, evs: seq<Event>, e: ThreadTime)
    requires Valid(s)
    requires e in s.sleeping
    ensures forall k :: 0 <= k < FirstDue(evs, e.wakeTime) ==> e !in Outcome(s, evs, k).polled
    ensures FirstDue(evs, e.wakeTime) < |evs| ==> e in Outcome(s, evs, FirstDue(evs, e.wakeTime)).polled
  {
    var j := FirstDue(evs, e.wakeTime);
    forall k | 0 <= k < j ensures e !in Outcome(s, evs, k).polled {
      EntryStaysBeforeFirstDue(s, evs, e, k);
      NotDueBeforeFirst(evs, e.wakeTime, k);
      EntryStaysAt(s, evs, k, e);
    }
    if j < |evs| {
      EntryStaysBeforeFirstDue(s, evs, e, j);
      DueLaterPartition(After(s, evs, j).sleeping, evs[j].time);
    }
  }

  /** A polled entry with a thread readies that thread. */
  lemma {:induction false} PolledThreadIsReadied(p: seq<ThreadTime>, e: ThreadTime)
    requires e in p && e.thread.Some?
    ensures e.thread.value in ReadyList(p)
    decreases |p|
  {
    if p[0] != e {
      PolledThreadIsReadied(p[1..], e);
    }
  }

  /** A thread none of whose entries is polled is not readied. */
  lemma {:induction false} UnpolledThreadNotReadied(p: seq<ThreadTime>, id: ThreadId)
    requires forall f :: f in p ==> f.thread != Some(id)
    ensures id !in ReadyList(p)
    decreases |p|
  {
    if |p| > 0 {
      UnpolledThreadNotReadied(p[1..], id);
    }
  }

  /** The entry made by `waitUntil(x)` at clock reading `t0`. */
  function SleepEntry(t0: int, id: ThreadId, x: int): ThreadTime {
    ThreadTime(Some(id), t0 + x)
  }

  /** The first-interrupt guarantee of `waitUntil`: after a call at clock
      reading `t0` with wait `x`, no later event polls the new entry until the
      first interrupt whose clock reading is at least `t0 + x`; that interrupt
      polls it and readies the caller, and for a non-negative wait it happens
      no earlier than the call. */
  lemma SleeperReadiedAtFirstDueInterrupt(s: AlarmState, t0: int, id: ThreadId, x: int, evs: seq<Event>)
    requires Valid(s)
    ensures forall k :: 0 <= k < FirstDue(evs, t0 + x) ==>
              SleepEntry(t0, id, x) !in Outcome(WaitUntil(s, t0, id, x), evs, k).polled
    ensures FirstDue(evs, t0 + x) < |evs| ==>
              SleepEntry(t0, id, x) in Outcome(WaitUntil(s, t0, id, x), evs, FirstDue(evs, t0 + x)).polled
              && id in Outcome(WaitUntil(s, t0, id, x), evs, FirstDue(evs, t0 + x)).readied
    ensures FirstDue(evs, t0 + x) < |evs| && 0 <= x ==> t0 <= evs[FirstDue(evs, t0 + x)].time
    ensures (forall f :: f in s.sleeping ==> f.thread != Some(id)) &&
            (forall m :: 0 <= m < FirstDue(evs, t0 + x) ==> !(evs[m].WaitCall? && evs[m].thread == id)) ==>
              forall k :: 0 <= k < FirstDue(evs, t0 + x) ==> id !in Outcome(WaitUntil(s, t0, id, x), evs, k).readied
  {
    var e := SleepEntry(t0, id, x);
    var s1 := WaitUntil(s, t0, id, x);
    assert e in s1.sleeping by {
      assert e in multiset(s1.sleeping);
    }
    EntryPolledAtFirstDueInterrupt(s1, evs, e);
    var j := FirstDue(evs, e.wakeTime);
    if j < |evs| {
      PolledThreadIsReadied(Outcome(s1, evs, j).polled, e);
    }
    SleeperNotReadiedBeforeDue(s, t0, id, x, evs);
  }

  /** The "not before" half for the thread: a caller that had no entry and
      makes no other call while blocked is readied by no event before the
      first interrupt whose clock reading is at least `t0 + x`. */
  lemma SleeperNotReadiedBeforeDue(s: AlarmState, t0: int, id: ThreadId, x: int, evs: seq<Event>)
    requires Valid(s)
    ensures (forall f :: f in s.sleeping ==> f.thread != Some(id)) &&
            (forall m :: 0 <= m < FirstDue(evs, t0 + x) ==> !(evs[m].WaitCall? && evs[m].thread == id)) ==>
              forall k :: 0 <= k < FirstDue(evs, t0 + x) ==> id !in Outcome(WaitUntil(s, t0, id, x), evs, k).readied
  {
    if (forall f :: f in s.sleeping ==> f.thread != Some(id)) &&
       (forall m :: 0 <= m < FirstDue(evs, t0 + x) ==> !(evs[m].WaitCall? && evs[m].thread == id)) {
      WaitUntilMakesOnlyEntry(s, t0, id, x);
      NotReadiedBeforeDue(WaitUntil(s, t0, id, x), evs, id, SleepEntry(t0, id, x));
    }
  }

  /** The caller of `waitUntil` is running, so it has no entry in the wake
      set; afterwards the entry its call made is its only one. */
  lemma WaitUntilMakesOnlyEntry(s: AlarmState, t0: int, id: ThreadId, x: int)
    requires Valid(s)
    requires forall f :: f in s.sleeping ==> f.thread != Some(id)
    ensures OnlyEntryOf(WaitUntil(s, t0, id, x), id, SleepEntry(t0, id, x))
  {
    var e := SleepEntry(t0, id, x);
    var s1 := WaitUntil(s, t0, id, x);
    NoOtherEntryMeans(s1.sleeping, id, e);
    forall f | f in s1.sleeping && f.thread == Some(id) ensures f == e {
      assert f !in s.sleeping;
      assert f in multiset(s1.sleeping);
    }
  }

  /** The first `waitUntil` call on a newly constructed alarm: its caller is
      readied by the first interrupt whose clock reading reaches the call time
      plus the wait, and, if it makes no other call meanwhile, by no event
      before that interrupt. */
  lemma FirstSleeperOfNewAlarm(t0: int, id: ThreadId, x: int, evs: seq<Event>)
    requires forall m :: 0 <= m < FirstDue(evs, t0 + x) ==> !(evs[m].WaitCall? && evs[m].thread == id)
    ensures forall k :: 0 <= k < FirstDue(evs, t0 + x) ==> id !in Outcome(WaitUntil(Initial, t0, id, x), evs, k).readied
    ensures FirstDue(evs, t0 + x) < |evs| ==> id in Outcome(WaitUntil(Initial, t0, id, x), evs, FirstDue(evs, t0 + x)).readied
  {
    SleeperReadiedAtFirstDueInterrupt(Initial, t0, id, x, evs);
  }

  /** While a thread is blocked, the only entry it can have in the wake set is
      the one its own call made. */
  predicate OnlyEntryOf(s: AlarmState, id: ThreadId, e: ThreadTime) {
    NoOtherEntry(s.sleeping, id, e)
  }

  /** No entry of `q` other than `e` belongs to thread `id`. */
  predicate NoOtherEntry(q: seq<ThreadTime>, id: ThreadId, e: ThreadTime) {
    |q| == 0 || ((q[0].thread == Some(id) ==> q[0] == e) && NoOtherEntry(q[1..], id, e))
  }

  /** `NoOtherEntry` read as a statement about every entry. */
  lemma {:induction false} NoOtherEntryMeans(q: seq<ThreadTime>, id: ThreadId, e: ThreadTime)
    ensures NoOtherEntry(q, id, e) <==> forall f :: f in q && f.thread == Some(id) ==> f == e
    decreases |q|
  {
    if |q| > 0 {
      NoOtherEntryMeans(q[1..], id, e);
      assert q == [q[0]] + q[1..];
    }
  }

  /** One event that is neither a call by `id` nor an interrupt at which `e`
      is due keeps `e` the only entry of `id`, and readies nothing for `id`. */
  lemma OnlyEntryKept(s: AlarmState, ev: Event, id: ThreadId, e: ThreadTime)
    requires Valid(s)
    requires e.thread == Some(id)
    requires OnlyEntryOf(s, id, e)
    requires !DueAt(ev, e.wakeTime)
    requires !(ev.WaitCall? && ev.thread == id)
    ensures OnlyEntryOf(Step(s, ev).alarm, id, e)
    ensures id !in Step(s, ev).readied
  {
    var t := Step(s, ev);
    NoOtherEntryMeans(s.sleeping, id, e);
    NoOtherEntryMeans(t.alarm.sleeping, id, e);
    match ev {
      case WaitCall(t0, id', x) =>
        forall f | f in t.alarm.sleeping && f.thread == Some(id) ensures f == e {
          assert f in multiset(t.alarm.sleeping);
        }
      case Interrupt(now) =>
        DueLaterPartition(s.sleeping, now);
        UnpolledThreadNotReadied(t.polled, id);
    }
  }

  /** The same, for event `k` of a run. */
  lemma OnlyEntryKeptAt(s: AlarmState, evs: seq<Event>, k: nat, id: ThreadId, e: ThreadTime)
    requires Valid(s) && k < |evs|
    requires e.thread == Some(id)
    requires OnlyEntryOf(After(s, evs, k), id, e)
    requires !DueAt(evs[k], e.wakeTime)
    requires !(evs[k].WaitCall? && evs[k].thread == id)
    ensures OnlyEntryOf(After(s, evs, k + 1), id, e)
    ensures id !in Outcome(s, evs, k).readied
  {
    OnlyEntryKept(After(s, evs, k), evs[k], id, e);
  }

  /** The blocked thread keeps a single entry up to its first due interrupt. */
  lemma {:induction false} OnlyEntryBeforeFirstDue(s: AlarmState, evs: seq<Event>, id: ThreadId, e: ThreadTime, k: nat)
    requires Valid(s)
    requires e.thread == Some(id)
    requires OnlyEntryOf(s, id, e)
    requires forall m :: 0 <= m < FirstDue(evs, e.wakeTime) ==> !(evs[m].WaitCall? && evs[m].thread == id)
    requires k <= FirstDue(evs, e.wakeTime)
    ensures OnlyEntryOf(After(s, evs, k), id, e)
    decreases k
  {
    if k > 0 {
      var j := k - 1;
      OnlyEntryBeforeFirstDue(s, evs, id, e, j);
      NotDueBeforeFirst(evs, e.wakeTime, j);
      OnlyEntryKeptAt(s, evs, j, id, e);
      assert j + 1 == k;
    }
  }

  /** A sleeper is not readied early: if its entry is its only one and it makes
      no other call while blocked, no event before the first interrupt whose
      clock reading reaches the entry's wake tick readies it. */
  lemma NotReadiedBeforeDue(s: AlarmState, evs: seq<Event>, id: ThreadId, e: ThreadTime)
    requires Valid(s)
    requires e.thread == Some(id)
    requires OnlyEntryOf(s, id, e)
    requires forall m :: 0 <= m < FirstDue(evs, e.wakeTime) ==> !(evs[m].WaitCall? && evs[m].thread == id)
    ensures forall k :: 0 <= k < FirstDue(evs, e.wakeTime) ==> id !in Outcome(s, evs, k).readied
  {
    forall k | 0 <= k < FirstDue(evs, e.wakeTime) ensures id !in Outcome(s, evs, k).readied {
      OnlyEntryBeforeFirstDue(s, evs, id, e, k);
      NotDueBeforeFirst(evs, e.wakeTime, k);
      OnlyEntryKeptAt(s, evs, k, id, e);
    }
  }
}
