/**
 * The gates of the interval systems: a system runs on an update only when
 * the galaxy clock has moved far enough since the last time it ran. The
 * galaxy's `day` (an `Int`) and `time` (a `Long`) are passed in as
 * parameters; the subtractions wrap as the JVM's do.
 */
module IntervalSystems {
  import JavaMath

  /** `galaxy.time - lastTime >= interval`, on wrapping `Long`s. */
  predicate TimeDue(time: int, lastTime: int, interval: int)
  {
    JavaMath.Wrap64(time - lastTime) >= interval
  }

  /** The `lastTime` that makes the next check due: `time - interval - 1`, wrapped. */
  function Rearmed(time: int, interval: int): int
  {
    JavaMath.Wrap64(JavaMath.Wrap64(time - interval) - 1)
  }

  /** On a value less than one wrap away from the `Long` range, wrapping shifts it by at most one modulus. */
  lemma Wrap64Near(y: int)
    requires -0x1_0000_0000_0000_0000 <= y < 0x1_0000_0000_0000_0000
    ensures JavaMath.Wrap64(y) ==
      if y < JavaMath.LONG_MIN then y + 0x1_0000_0000_0000_0000
      else if y > JavaMath.LONG_MAX then y - 0x1_0000_0000_0000_0000
      else y
  {
    if y < 0 {
      assert y % 0x1_0000_0000_0000_0000 == y + 0x1_0000_0000_0000_0000;
    } else {
      assert y % 0x1_0000_0000_0000_0000 == y;
    }
  }

  /**
   * Right after `runOnNextUpdate` (or the constructor) at clock `time`, a
   * check at the same clock is due, for every interval that is a `Long`
   * short of `Long.MAX_VALUE`.
   */
  lemma RearmedIsDue(time: int, interval: int)
    requires JavaMath.IsLong(time) && 0 <= interval < JavaMath.LONG_MAX
    ensures TimeDue(time, Rearmed(time, interval), interval)
  {
    Wrap64Near(time - interval);
    var w := JavaMath.Wrap64(time - interval);
    Wrap64Near(w - 1);
    var last := JavaMath.Wrap64(w - 1);
    Wrap64Near(time - last);
  }

  /** Once a check has run at `time`, a second check at the same clock is due only for a non-positive interval. */
  lemma RanNotDueAgain(time: int, interval: int)
    ensures TimeDue(time, time, interval) <==> interval <= 0
  {
    assert JavaMath.Wrap64(0) == 0;
  }

  /**
   * `GalaxyTimeIntervalSystem` and `GalaxyTimeIntervalIteratingSystem`: the
   * two classes hold the same gate, so one class models both.
   */
  class TimeInterval {
    const interval: int
    var lastTime: int

    /** The constructor, with the galaxy clock at `time`: the first check is due. */
    constructor (interval: int, time: int)
      ensures this.interval == interval && lastTime == Rearmed(time, interval)
    {
      this.interval := interval;
      lastTime := Rearmed(time, interval);
    }

    /** `checkProcessing()`: due exactly when the clock moved `interval` on, and then the clock is recorded. */
    method CheckProcessing(time: int) returns (run: bool)
      modifies this
      ensures run <==> TimeDue(time, old(lastTime), interval)
      ensures lastTime == if run then time else old(lastTime)
    {
      if JavaMath.Wrap64(time - lastTime) >= interval {
        lastTime := time;
        return true;
      }
      return false;
    }

    /** `runOnNextUpdate()`: the next check at the same clock is due. */
    method RunOnNextUpdate(time: int)
      modifies this
      ensures lastTime == Rearmed(time, interval)
    {
      lastTime := Rearmed(time, interval);
    }
  }

  /** `galaxy.day > lastDay`. */
  predicate DayDue(day: int, lastDay: int)
  {
    day > lastDay
  }

  /** `galaxy.day - 1` on a wrapping `Int`. */
  function DayBefore(day: int): int
  {
    JavaMath.Wrap32(day - 1)
  }

  /** A `lastDay` of the day before makes every day but `Int.MIN_VALUE` due. */
  lemma DayBeforeIsDue(day: int)
    requires JavaMath.IsInt(day)
    ensures DayDue(day, DayBefore(day)) <==> day != JavaMath.INT_MIN
  {
    if day != JavaMath.INT_MIN {
      JavaMath.Wrap32Identity(day - 1);
    } else {
      assert DayBefore(day) == JavaMath.INT_MAX;
    }
  }

  /** A day-gated system runs at most once per day, and again on any later day. */
  lemma OncePerDay(day: int, later: int)
    ensures !DayDue(day, day)
    ensures DayDue(later, day) <==> later > day
  {
  }

  /**
   * `DailySystem` and `DailyIteratingSystem`. They differ only in the first
   * `lastDay` (the day before, or -1) and in `runOnNextUpdate`, which only
   * `DailySystem` has.
   */
  class Daily {
    var lastDay: int

    /** `DailySystem()` at galaxy day `day`. */
    constructor (day: int)
      ensures lastDay == DayBefore(day)
    {
      lastDay := DayBefore(day);
    }

    /** `DailyIteratingSystem()`: -1, so the first check is due on every day from 0 on. */
    constructor Iterating()
      ensures lastDay == -1
    {
      lastDay := -1;
    }

    /** `checkProcessing()`: due exactly on a day later than the last one it ran on, which it then records. */
    method CheckProcessing(day: int) returns (run: bool)
      modifies this
      ensures run <==> DayDue(day, old(lastDay))
      ensures lastDay == if run then day else old(lastDay)
    {
      if day > lastDay {
        lastDay := day;
        return true;
      }
      return false;
    }

    /** `DailySystem.runOnNextUpdate()`. */
    method RunOnNextUpdate(day: int)
      modifies this
      ensures lastDay == DayBefore(day)
    {
      lastDay := DayBefore(day);
    }
  }

  /** A rearmed gate runs on the next update at the same clock, and not on the one after it. */
  method RunTwice(g: TimeInterval, time: int) returns (first: bool, second: bool)
    requires JavaMath.IsLong(time) && 0 < g.interval < JavaMath.LONG_MAX
    modifies g
    ensures first && !second
  {
    g.RunOnNextUpdate(time);
    RearmedIsDue(time, g.interval);
    first := g.CheckProcessing(time);
    RanNotDueAgain(time, g.interval);
    second := g.CheckProcessing(time);
  }
}
