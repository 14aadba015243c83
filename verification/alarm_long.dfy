/** The `Ascend` comparator on Java `long` wake ticks. The source compares two
    entries by the sign of `a.wakeTime - b.wakeTime`, a subtraction that wraps
    around in 64 bits; the model in `Alarm` compares the ticks themselves. */
module AlarmLong {
  import opened Wrappers
  import opened Alarm

  const LongMin: int := -0x8000_0000_0000_0000
  const LongMax: int := 0x7FFF_FFFF_FFFF_FFFF

  /** A Java `long` value. */
  predicate IsLong(v: int) {
    LongMin <= v <= LongMax
  }

  /** The `long` a Java arithmetic operation yields for the exact result `v`:
      `v` reduced modulo 2^64 into the `long` range. */
  function WrapLong(v: int): (r: int)
    ensures IsLong(r)
    ensures (v - r) % 0x1_0000_0000_0000_0000 == 0
    ensures IsLong(v) ==> r == v
  {
    var m := v % 0x1_0000_0000_0000_0000;
    if m <= LongMax then m else m - 0x1_0000_0000_0000_0000
  }

  /** `Ascend.compare` as written, with the wrapping subtraction. On `long`
      wake ticks it ranks `a` first exactly when either `a` is earlier and the
      difference fits in a `long`, or `a` is not earlier and it does not: it
      gets the order wrong precisely when the subtraction wraps. */
  function AscendAsWritten(a: ThreadTime, b: ThreadTime): (r: int)
    ensures r == -1 || r == 1
    ensures IsLong(a.wakeTime) && IsLong(b.wakeTime) ==>
              (r < 0 <==> (a.wakeTime < b.wakeTime <==> IsLong(a.wakeTime - b.wakeTime)))
  {
    if WrapLong(a.wakeTime - b.wakeTime) < 0 then -1 else 1
  }

  /** Whenever the difference of the two ticks is itself a `long`, the
      comparator as written ranks entries exactly as `Alarm.Ascend` does. */
  lemma AscendAgreesWithoutWrap(a: ThreadTime, b: ThreadTime)
    requires IsLong(a.wakeTime - b.wakeTime)
    ensures AscendAsWritten(a, b) == Ascend(a, b)
  {
  }

  /** Two `long` wake ticks whose difference wraps: the entry due at the
      largest `long` tick is ranked before one due at tick -10, so a queue
      ordered by the comparator as written would put the far-future entry at
      its head and keep the due one behind it. `Alarm.Ascend` orders them by
      tick. */
  lemma AscendAsWrittenMisorders()
    ensures var a := ThreadTime(Some(1), LongMax);
            var b := ThreadTime(Some(2), -10);
            IsLong(a.wakeTime) && IsLong(b.wakeTime) && b.wakeTime < a.wakeTime
            && AscendAsWritten(a, b) < 0 && Ascend(a, b) > 0
  {
    var a := ThreadTime(Some(1), LongMax);
    var b := ThreadTime(Some(2), -10);
    assert WrapLong(a.wakeTime - b.wakeTime) == LongMin + 9;
  }
}
