/** The sequential bookkeeping of the Nachos `Alarm`: a wake set of
    (thread, wake tick) entries ordered by wake tick, one operation that adds a
    sleeper (`waitUntil`) and one that drains every due sleeper on a timer
    interrupt (`timerInterrupt`). Clock readings are parameters; blocking,
    readying and interrupt masking are outside the model, and "readied" is the
    sequence of threads an interrupt hands to the scheduler. */
module Alarm {
  import opened Wrappers

  /** A kernel thread, known only by its identity. */
  type ThreadId = nat

  /** One sleeper: the thread (possibly null) and the absolute tick at which it
      becomes due. */
  datatype ThreadTime = ThreadTime(thread: Option<ThreadId>, wakeTime: int)

  /** The `Ascend` comparator of the priority queue. It never answers 0, so two
      entries with the same wake tick each compare "greater" than the other. */
  function Ascend(a: ThreadTime, b: ThreadTime): (r: int)
    ensures r == -1 || r == 1
    ensures r < 0 <==> a.wakeTime < b.wakeTime
  {
    if a.wakeTime - b.wakeTime < 0 then -1 else 1
  }

  /** Entries appear in non-decreasing wake-tick order, stated pairwise
      between neighbours. */
  predicate SortedByWake(q: seq<ThreadTime>) {
    |q| < 2 || (q[0].wakeTime <= q[1].wakeTime && SortedByWake(q[1..]))
  }

  /** Neighbourwise order is order between any two positions. */
  lemma {:induction false} SortedByWakeOrdersAll(q: seq<ThreadTime>)
    requires SortedByWake(q)
    ensures forall i, j :: 0 <= i < j < |q| ==> q[i].wakeTime <= q[j].wakeTime
    decreases |q|
  {
    if |q| > 1 {
      SortedByWakeOrdersAll(q[1..]);
      forall i, j | 0 <= i < j < |q| ensures q[i].wakeTime <= q[j].wakeTime {
        assert q[j] == q[1..][j - 1];
        if i > 0 { assert q[i] == q[1..][i - 1]; }
      }
    }
  }

  /** The state of an alarm: its wake set `sleepedThreads`, abstracted as the
      sequence of its entries in the order `poll` would return them. */
  datatype AlarmState = AlarmState(sleeping: seq<ThreadTime>)

  /** The priority-queue invariant: `poll` yields entries by wake tick. */
  predicate Valid(s: AlarmState) {
    SortedByWake(s.sleeping)
  }

  /** The alarm as constructed: nobody is sleeping. */
  const Initial: AlarmState := AlarmState([])

  // ---------------------------------------------------------------------
  // Reference definitions: which entries are due at a given tick.
  // ---------------------------------------------------------------------

  /** The entries of `q` whose wake tick has been reached at `now`, in order. */
  function DueOf(q: seq<ThreadTime>, now: int): seq<ThreadTime> {
    if |q| == 0 then []
    else if q[0].wakeTime <= now then [q[0]] + DueOf(q[1..], now)
    else DueOf(q[1..], now)
  }

  /** The entries of `q` that are still in the future at `now`, in order. */
  function LaterOf(q: seq<ThreadTime>, now: int): seq<ThreadTime> {
    if |q| == 0 then []
    else if now < q[0].wakeTime then [q[0]] + LaterOf(q[1..], now)
    else LaterOf(q[1..], now)
  }

  /** The thread references carried by a sequence of entries. */
  function ThreadsOf(es: seq<ThreadTime>): seq<Option<ThreadId>> {
    if |es| == 0 then [] else [es[0].thread] + ThreadsOf(es[1..])
  }

  /** Splitting entries into due and later ones loses and duplicates nothing. */
  lemma {:induction false} DueLaterPartition(q: seq<ThreadTime>, now: int)
    ensures multiset(DueOf(q, now)) + multiset(LaterOf(q, now)) == multiset(q)
    ensures forall e :: e in DueOf(q, now) <==> e in q && e.wakeTime <= now
    ensures forall e :: e in LaterOf(q, now) <==> e in q && now < e.wakeTime
  {
    if |q| > 0 {
      DueLaterPartition(q[1..], now);
      assert q == [q[0]] + q[1..];
    }
  }

  // ---------------------------------------------------------------------
  // The priority queue operations used by the alarm.
  // ---------------------------------------------------------------------

  /** The head of a sorted queue has the smallest wake tick. */
  lemma {:induction false} HeadIsMinimal(q: seq<ThreadTime>)
    requires SortedByWake(q) && |q| > 0
    ensures forall f :: f in q ==> q[0].wakeTime <= f.wakeTime
    decreases |q|
  {
    if |q| > 1 {
      HeadIsMinimal(q[1..]);
      assert q == [q[0]] + q[1..];
    }
  }

  /** An entry no later than anything in a sorted queue may go in front. */
  lemma ConsSorted(x: ThreadTime, q: seq<ThreadTime>)
    requires SortedByWake(q)
    requires forall f :: f in q ==> x.wakeTime <= f.wakeTime
    ensures SortedByWake([x] + q)
  {
    assert ([x] + q)[1..] == q;
    if |q| > 0 {
      assert q[0] in q;
    }
  }

  /** `PriorityQueue.add` ordered by `Ascend`: the new entry goes in front of
      the first entry the comparator ranks above it, so it follows every entry
      with the same wake tick. The queue stays ordered and gains exactly `e`. */
  function Insert(q: seq<ThreadTime>, e: ThreadTime): (r: seq<ThreadTime>)
    requires SortedByWake(q)
    ensures SortedByWake(r)
    ensures multiset(r) == multiset(q) + multiset{e}
    decreases |q|
  {
    if |q| == 0 then [e]
    else if Ascend(e, q[0]) < 0 then
      HeadIsMinimal(q);
      ConsSorted(e, q);
      [e] + q
    else
      var r' := Insert(q[1..], e);
      HeadIsMinimal(q);
      assert q == [q[0]] + q[1..];
      forall f | f in r' ensures q[0].wakeTime <= f.wakeTime {
        assert f in multiset(r');
      }
      ConsSorted(q[0], r');
      [q[0]] + r'
  }

  /** `PriorityQueue.peek`: an entry with the smallest wake tick. */
  function Peek(q: seq<ThreadTime>): (e: ThreadTime)
    requires SortedByWake(q) && |q| > 0
    ensures e in q
    ensures forall f :: f in q ==> e.wakeTime <= f.wakeTime
  {
    HeadIsMinimal(q);
    q[0]
  }

  /** `PriorityQueue.poll`: removes and returns the entry `peek` shows. */
  function Poll(q: seq<ThreadTime>): (r: (ThreadTime, seq<ThreadTime>))
    requires SortedByWake(q) && |q| > 0
    ensures r.0 == Peek(q)
    ensures multiset(r.1) + multiset{r.0} == multiset(q)
    ensures SortedByWake(r.1) && |r.1| < |q|
  {
    assert q == [q[0]] + q[1..];
    (q[0], q[1..])
  }

  // ---------------------------------------------------------------------
  // waitUntil
  // ---------------------------------------------------------------------

  /** `waitUntil(x)` called by `thread` when the clock reads `now`: exactly one
      entry, due at `now + x`, joins the wake set and nothing else changes. For
      a non-negative wait the new entry is not due before the call. */
  function WaitUntil(s: AlarmState, now: int, thread: ThreadId, x: int): (r: AlarmState)
    requires Valid(s)
    ensures Valid(r)
    ensures multiset(r.sleeping) == multiset(s.sleeping) + multiset{ThreadTime(Some(thread), now + x)}
    ensures forall e :: e in multiset(r.sleeping) - multiset(s.sleeping) ==>
              e.thread == Some(thread) && (0 <= x ==> now <= e.wakeTime)
  {
    AlarmState(Insert(s.sleeping, ThreadTime(Some(thread), now + x)))
  }

  // ---------------------------------------------------------------------
  // timerInterrupt
  // ---------------------------------------------------------------------

  /** What one interrupt takes out of the wake set, and what it leaves. */
  datatype Drained = Drained(polled: seq<ThreadTime>, rest: seq<ThreadTime>)

  /** The drain loop of `timerInterrupt` with the clock reading `now`: while the
      queue is non-empty and its minimum is due, poll it. Nothing leaves early,
      nothing due stays, nothing is lost or duplicated, and the polled entries
      come out in non-decreasing wake-tick order. */
  function Drain(q: seq<ThreadTime>, now: int): (r: Drained)
    requires SortedByWake(q)
    ensures forall e :: e in r.polled ==> e.wakeTime <= now
    ensures forall e :: e in r.rest ==> now < e.wakeTime
    ensures multiset(r.polled) + multiset(r.rest) == multiset(q)
    ensures SortedByWake(r.polled) && SortedByWake(r.rest)
    decreases |q|
  {
    if |q| == 0 || now < Peek(q).wakeTime then Drained([], q)
    else
      var (e, q') := Poll(q);
      var d := Drain(q', now);
      PrependMinimal(e, q, q', d.polled, d.rest);
      Drained([e] + d.polled, d.rest)
  }

  /** The smallest entry of a queue may go in front of a sorted run drawn
      from the rest of that queue. */
  lemma PrependMinimal(e: ThreadTime, q: seq<ThreadTime>, q': seq<ThreadTime>, p: seq<ThreadTime>, r: seq<ThreadTime>)
    requires forall f :: f in q ==> e.wakeTime <= f.wakeTime
    requires multiset(q') + multiset{e} == multiset(q)
    requires multiset(p) + multiset(r) == multiset(q')
    requires SortedByWake(p)
    ensures SortedByWake([e] + p)
  {
    forall f | f in p ensures e.wakeTime <= f.wakeTime {
      assert f in multiset(p);
      assert f in multiset(q);
    }
    ConsSorted(e, p);
  }

  /** The thread one polled entry readies: none for a null thread. */
  function Readies(e: ThreadTime): seq<ThreadId> {
    match e.thread
    case None => []
    case Some(t) => [t]
  }

  /** The non-null threads among polled entries, in poll order. */
  function ReadyList(polled: seq<ThreadTime>): seq<ThreadId> {
    if |polled| == 0 then [] else Readies(polled[0]) + ReadyList(polled[1..])
  }

  /** A polled null thread is dropped, and every other polled thread is readied
      exactly once per entry that carries it. */
  lemma {:induction false} ReadyListCounts(polled: seq<ThreadTime>)
    ensures forall id :: multiset(ReadyList(polled))[id] == multiset(ThreadsOf(polled))[Some(id)]
    ensures |ReadyList(polled)| + multiset(ThreadsOf(polled))[None] == |polled|
    decreases |polled|
  {
    if |polled| > 0 {
      var tail := polled[1..];
      ReadyListCounts(tail);
      match polled[0].thread
      case None =>
        assert ReadyList(polled) == ReadyList(tail);
      case Some(t) =>
        assert ReadyList(polled) == [t] + ReadyList(tail);
    }
  }

  /** Readying distributes over consecutive runs of polled entries. */
  lemma {:induction false} ReadyListAppend(a: seq<ThreadTime>, b: seq<ThreadTime>)
    ensures ReadyList(a + b) == ReadyList(a) + ReadyList(b)
    decreases |a|
  {
    if |a| == 0 {
      assert a + b == b;
    } else {
      var c := a + b;
      assert c[0] == a[0] && c[1..] == a[1..] + b;
      ReadyListAppend(a[1..], b);
    }
  }

  /** When every entry of a sequence is in the future, none is due. */
  lemma {:induction false} AllLater(q: seq<ThreadTime>, now: int)
    requires forall f :: f in q ==> now < f.wakeTime
    ensures DueOf(q, now) == []
    ensures LaterOf(q, now) == q
    decreases |q|
  {
    if |q| > 0 {
      AllLater(q[1..], now);
      assert q == [q[0]] + q[1..];
    }
  }

  /** The drain loop agrees with the reference split: exactly the due entries
      are polled and exactly the later ones stay, both in queue order. */
  lemma {:induction false} DrainPollsExactlyTheDue(q: seq<ThreadTime>, now: int)
    requires SortedByWake(q)
    ensures Drain(q, now).polled == DueOf(q, now)
    ensures Drain(q, now).rest == LaterOf(q, now)
    decreases |q|
  {
    if |q| == 0 {
    } else if now < Peek(q).wakeTime {
      AllLater(q, now);
    } else {
      DrainPollsExactlyTheDue(q[1..], now);
    }
  }

  /** The result of one timer interrupt. */
  datatype TickResult = TickResult(alarm: AlarmState, polled: seq<ThreadTime>, readied: seq<ThreadId>)

  /** `timerInterrupt()` when the clock reads `now`. The wake set keeps exactly
      the entries still in the future, the polled entries are exactly the due
      ones in non-decreasing wake-tick order, and every thread is readied
      exactly as many times as it has due entries, never for a null thread. */
  function TimerInterrupt(s: AlarmState, now: int): (r: TickResult)
    requires Valid(s)
    ensures Valid(r.alarm)
    ensures r.polled == DueOf(s.sleeping, now)
    ensures SortedByWake(r.polled)
    ensures r.alarm.sleeping == LaterOf(s.sleeping, now)
    ensures forall e :: e in r.polled ==> e.wakeTime <= now
    ensures forall e :: e in r.alarm.sleeping ==> now < e.wakeTime
    ensures forall e :: e in s.sleeping && now < e.wakeTime ==> e in r.alarm.sleeping
    ensures multiset(r.polled) + multiset(r.alarm.sleeping) == multiset(s.sleeping)
    ensures r.readied == ReadyList(r.polled)
    ensures forall id :: multiset(r.readied)[id] == multiset(ThreadsOf(DueOf(s.sleeping, now)))[Some(id)]
  {
    var d := Drain(s.sleeping, now);
    DrainPollsExactlyTheDue(s.sleeping, now);
    DueLaterPartition(s.sleeping, now);
    ReadyListCounts(d.polled);
    TickResult(AlarmState(d.rest), d.polled, ReadyList(d.polled))
  }

  /** The loop of `timerInterrupt` as written: peek, poll, skip a null
      thread, ready the others. It computes what `TimerInterrupt` defines. */
  method RunTimerInterrupt(s: AlarmState, now: int) returns (next: AlarmState, readied: seq<ThreadId>)
    requires Valid(s)
    ensures next == TimerInterrupt(s, now).alarm
    ensures readied == TimerInterrupt(s, now).readied
  {
    var q := s.sleeping;
    ghost var polled: seq<ThreadTime> := [];
    readied := [];
    while |q| > 0 && Peek(q).wakeTime <= now
      invariant SortedByWake(q)
      invariant polled + DueOf(q, now) == DueOf(s.sleeping, now)
      invariant LaterOf(q, now) == LaterOf(s.sleeping, now)
      invariant readied == ReadyList(polled)
      decreases |q|
    {
      var (entry, q') := Poll(q);
      assert q' == q[1..] && entry == q[0];
      assert DueOf(q, now) == [entry] + DueOf(q', now);
      assert polled + DueOf(q, now) == (polled + [entry]) + DueOf(q', now);
      ReadyListAppend(polled, [entry]);
      assert ReadyList([entry]) == Readies(entry);
      polled := polled + [entry];
      q := q';
      if entry.thread.Some? {
        readied := readied + [entry.thread.value];
      }
    }
    if |q| > 0 {
      HeadIsMinimal(q);
    }
    AllLater(q, now);
    assert polled == DueOf(s.sleeping, now);
    next := AlarmState(q);
  }

  /** A second interrupt at the same tick finds nothing due. */
  lemma InterruptIdempotent(s: AlarmState, now: int)
    requires Valid(s)
    ensures TimerInterrupt(TimerInterrupt(s, now).alarm, now).polled == []
    ensures TimerInterrupt(TimerInterrupt(s, now).alarm, now).alarm == TimerInterrupt(s, now).alarm
  {
    AllLater(TimerInterrupt(s, now).alarm.sleeping, now);
  }

  /** With a clock that does not run backwards, the entries due at `t1`
      followed by those of the remainder due at `t2` are, in order, the
      entries due at `t2`; and the remainders agree. */
  lemma {:induction false} DueSplits(q: seq<ThreadTime>, t1: int, t2: int)
    requires SortedByWake(q)
    requires t1 <= t2
    ensures DueOf(q, t1) + DueOf(LaterOf(q, t1), t2) == DueOf(q, t2)
    ensures LaterOf(LaterOf(q, t1), t2) == LaterOf(q, t2)
    decreases |q|
  {
    if |q| == 0 {
    } else if t1 < q[0].wakeTime {
      HeadIsMinimal(q);
      AllLater(q, t1);
      assert DueOf(q, t1) + DueOf(LaterOf(q, t1), t2) == [] + DueOf(q, t2);
    } else {
      var tail := q[1..];
      DueSplits(tail, t1, t2);
      calc {
        DueOf(q, t1) + DueOf(LaterOf(q, t1), t2);
        ([q[0]] + DueOf(tail, t1)) + DueOf(LaterOf(tail, t1), t2);
        [q[0]] + (DueOf(tail, t1) + DueOf(LaterOf(tail, t1), t2));
        [q[0]] + DueOf(tail, t2);
        DueOf(q, t2);
      }
    }
  }

  /** Two interrupts, at `t1` and then at a later `t2`, poll and ready
      together exactly what one interrupt at `t2` would, in the same order,
      and leave the same wake set. */
  lemma TwoInterruptsActAsOne(s: AlarmState, t1: int, t2: int)
    requires Valid(s)
    requires t1 <= t2
    ensures TimerInterrupt(s, t1).polled + TimerInterrupt(TimerInterrupt(s, t1).alarm, t2).polled
            == TimerInterrupt(s, t2).polled
    ensures TimerInterrupt(s, t1).readied + TimerInterrupt(TimerInterrupt(s, t1).alarm, t2).readied
            == TimerInterrupt(s, t2).readied
    ensures TimerInterrupt(TimerInterrupt(s, t1).alarm, t2).alarm == TimerInterrupt(s, t2).alarm
  {
    DueSplits(s.sleeping, t1, t2);
    var s1 := TimerInterrupt(s, t1);
    ReadyListAppend(s1.polled, TimerInterrupt(s1.alarm, t2).polled);
  }
}
