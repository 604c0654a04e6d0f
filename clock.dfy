/**
 * Whole-second timestamps counted from a midnight, shared by the time-based toll engine and
 * the timestamp completeness check.
 */
module Clock {
  const SecondsPerDay: int := 86400

  /** The day (0 = the day of the origin midnight) a timestamp falls on. */
  function DayOf(t: int): int {
    t / SecondsPerDay
  }

  /** The second of the day of a timestamp, what `.time()` keeps. */
  function TimeOfDay(t: int): int {
    t % SecondsPerDay
  }

  /** A timestamp is its day's midnight plus its second of the day, which is below a day's length. */
  lemma DayAndTimeOfDay(t: int)
    ensures t == DayOf(t) * SecondsPerDay + TimeOfDay(t)
    ensures 0 <= TimeOfDay(t) < SecondsPerDay
  {
  }
}
