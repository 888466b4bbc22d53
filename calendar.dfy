/**
 * Times are whole seconds on the local clock, counted from 1970-01-01 00:00.
 * The script starts its weekly cutoff at midnight of the current day and
 * steps it back one day at a time until the day is a Monday.
 */
module Calendar {

  const SecondsPerDay: int := 86400
  const SecondsPerWeek: int := 7 * SecondsPerDay

  /** 1970-01-01 was a Thursday: weekday 3 when Monday is 0, as `datetime.weekday` counts. */
  const EpochWeekday: int := 3

  /** The day a time falls in, counted from 1970-01-01 (floor division, also before the epoch). */
  function DayNumber(t: int): int
  {
    t / SecondsPerDay
  }

  /** `datetime.weekday()`: 0 for Monday up to 6 for Sunday. */
  function Weekday(t: int): (w: int)
    ensures 0 <= w < 7
  {
    (DayNumber(t) + EpochWeekday) % 7
  }

  /** `t.replace(hour=0, minute=0, second=0, microsecond=0)`: the start of `t`'s day. */
  function Midnight(t: int): (m: int)
    ensures m <= t < m + SecondsPerDay
    ensures m % SecondsPerDay == 0
    ensures DayNumber(m) == DayNumber(t)
  {
    DayNumber(t) * SecondsPerDay
  }

  predicate IsMondayMidnight(t: int)
  {
    t % SecondsPerDay == 0 && Weekday(t) == 0
  }

  /** The Monday midnight that starts the week `now` lies in. */
  function WeekStart(now: int): (start: int)
    ensures IsMondayMidnight(start)
    ensures start <= now < start + SecondsPerWeek
  {
    var n := DayNumber(now);
    var w := Weekday(now);
    DayOfMidnight(n - w);
    (n - w) * SecondsPerDay
  }

  /** The day number of the midnight starting day `n` is `n`. */
  lemma DayOfMidnight(n: int)
    ensures DayNumber(n * SecondsPerDay) == n
    ensures (n * SecondsPerDay) % SecondsPerDay == 0
  {
  }

  /** There is one Monday midnight per week: two of them within a week of `now` coincide. */
  lemma WeekStartUnique(now: int, m: int)
    requires IsMondayMidnight(m) && m <= now < m + SecondsPerWeek
    ensures m == WeekStart(now)
  {
    var s := WeekStart(now);
    var a, b := DayNumber(m), DayNumber(s);
    assert m == a * SecondsPerDay;
    assert s == b * SecondsPerDay;
    assert -7 < a - b < 7;
    assert (a + EpochWeekday) % 7 == 0 && (b + EpochWeekday) % 7 == 0;
    SameResidue(a + EpochWeekday, b + EpochWeekday);
  }

  /** Two integers less than 7 apart that are both multiples of 7 are equal. */
  lemma SameResidue(x: int, y: int)
    requires x % 7 == 0 && y % 7 == 0 && -7 < x - y < 7
    ensures x == y
  {
    assert x == 7 * (x / 7);
    assert y == 7 * (y / 7);
  }

  /** Stepping a midnight back one day steps its weekday back one, from Tuesday down to Monday. */
  lemma WeekdayStepBack(day: int)
    requires day % SecondsPerDay == 0 && Weekday(day) != 0
    ensures Weekday(day - SecondsPerDay) == Weekday(day) - 1
    ensures DayNumber(day - SecondsPerDay) == DayNumber(day) - 1
  {
    var n := DayNumber(day);
    assert day == n * SecondsPerDay;
    DayOfMidnight(n - 1);
    assert day - SecondsPerDay == (n - 1) * SecondsPerDay;
  }

  /**
   * The initialisation of the cutoff: midnight of `now`, then one day back
   * while that day is not a Monday. The loop runs `Weekday(now)` times, so at
   * most six, and not at all when `now` is already a Monday.
   */
  method StartOfWeek(now: int) returns (day: int)
    ensures day == WeekStart(now)
    ensures IsMondayMidnight(day) && day <= now < day + SecondsPerWeek
    ensures Midnight(now) - day == Weekday(now) * SecondsPerDay
    ensures Weekday(now) == 0 ==> day == Midnight(now)
  {
    day := Midnight(now);
    while Weekday(day) != 0
      invariant day % SecondsPerDay == 0
      invariant Midnight(now) - day == (Weekday(now) - Weekday(day)) * SecondsPerDay
      invariant DayNumber(day) == DayNumber(now) - (Weekday(now) - Weekday(day))
      decreases Weekday(day)
    {
      WeekdayStepBack(day);
      day := day - SecondsPerDay;
    }
  }
}
