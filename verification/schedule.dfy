/** One iteration of `schedule_daily_menu`: from the current wall-clock time
    compute the next 09:00:00.000 and how long to sleep until then. Time is
    an integer count of microseconds since local midnight of some fixed
    day; every day is exactly 86400 seconds long. */
module Schedule {

  const MicrosPerSecond: int := 1_000_000
  const Day: int := 86_400 * MicrosPerSecond
  const FireHour: int := 9
  /** 09:00:00.000 as an offset into the day. */
  const FireOffset: int := FireHour * 3600 * MicrosPerSecond

  /** Midnight of the day containing `t` (`t.replace(hour=0, ...)`). */
  function StartOfDay(t: int): (m: int)
    ensures m <= t < m + Day
    ensures m % Day == 0
  {
    t - t % Day
  }

  /** The instant at which the next daily send is due: today at 09:00 if
      that is still ahead, otherwise tomorrow at 09:00. It is strictly
      later than `now`, at most a day later, and always at 09:00:00.000 of
      the current or the following day. */
  function NextRun(now: int): (next: int)
    ensures now < next <= now + Day
    ensures next % Day == FireOffset
    ensures next == StartOfDay(now) + FireOffset || next == StartOfDay(now) + Day + FireOffset
  {
    var fire := StartOfDay(now) + FireOffset;
    if now >= fire then fire + Day else fire
  }

  /** `(next_run - now).total_seconds()`, kept in microseconds. */
  function SleepMicros(now: int): (d: int)
    ensures 0 < d <= Day
    ensures (now + d) % Day == FireOffset
  {
    NextRun(now) - now
  }

  /** No 09:00 instant lies strictly between `now` and the computed run:
      the scheduler never skips a day. */
  lemma NextRunIsEarliest(now: int, t: int)
    requires now < t && t % Day == FireOffset
    ensures NextRun(now) <= t
  {
    var m := StartOfDay(now);
    var q := t / Day;
    assert t == q * Day + FireOffset;
    assert m == (now / Day) * Day;
    if q == now / Day {
      assert t == m + FireOffset;
    } else if q > now / Day {
      assert q * Day >= (now / Day + 1) * Day;
    }
  }

  /** The run falls on the same day exactly when `now` is before 09:00;
      09:00:00.000 itself already counts as too late. */
  lemma NextRunToday(now: int)
    ensures NextRun(now) == StartOfDay(now) + FireOffset <==> now % Day < FireOffset
  {
  }

  /** The three boundary cases: 08:59 runs at 09:00 the same day, while
      09:00 sharp and 09:01 both run at 09:00 the next day. */
  lemma BoundaryExamples(day: int)
    ensures NextRun(day * Day + FireOffset - 60 * MicrosPerSecond) == day * Day + FireOffset
    ensures NextRun(day * Day + FireOffset) == (day + 1) * Day + FireOffset
    ensures NextRun(day * Day + FireOffset + 60 * MicrosPerSecond) == (day + 1) * Day + FireOffset
  {
    var early := day * Day + FireOffset - 60 * MicrosPerSecond;
    var sharp := day * Day + FireOffset;
    var late := day * Day + FireOffset + 60 * MicrosPerSecond;
    assert StartOfDay(early) == day * Day by { DayOf(day, FireOffset - 60 * MicrosPerSecond); }
    assert StartOfDay(sharp) == day * Day by { DayOf(day, FireOffset); }
    assert StartOfDay(late) == day * Day by { DayOf(day, FireOffset + 60 * MicrosPerSecond); }
  }

  lemma DayOf(day: int, offset: int)
    requires 0 <= offset < Day
    ensures StartOfDay(day * Day + offset) == day * Day
  {
    var t := day * Day + offset;
    assert t / Day == day && t % Day == offset by {
      assert t == day * Day + offset;
    }
  }
}
