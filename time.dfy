/** Calendar arithmetic on instants given as integer milliseconds since
    1970-01-01 00:00 (a Thursday). Local time is taken to have no offset and no
    daylight-saving shifts, so every day is exactly `DayMs` long. */
module Time {

  const DayMs: int := 86_400_000

  /** The number of the calendar day that contains instant `t`. */
  function Day(t: int): int {
    t / DayMs
  }

  /** `setHours(0, 0, 0, 0)`: the first instant of the day that contains `t`. */
  function Midnight(t: int): (m: int)
    ensures m <= t < m + DayMs
    ensures Day(m) == Day(t)
  {
    Day(t) * DayMs
  }

  /** `getDay()`: 0 for Sunday through 6 for Saturday. */
  function WeekDay(t: int): (d: int)
    ensures 0 <= d < 7
  {
    (Day(t) + 4) % 7
  }

  /** The number of the Sunday-to-Saturday week that contains `t`. */
  function Week(t: int): int {
    (Day(t) + 4) / 7
  }

  /** Sunday 00:00 of the week of midnight `today`. */
  function WeekStart(today: int): int {
    today - WeekDay(today) * DayMs
  }

  /** Saturday 00:00 of the week of midnight `today`. */
  function SaturdayMidnight(today: int): int {
    today + (6 - WeekDay(today)) * DayMs
  }

  /** Saturday 23:59:59.999 of the week of midnight `today`. */
  function SaturdayEnd(today: int): int {
    SaturdayMidnight(today) + DayMs - 1
  }

  predicate IsMidnight(t: int) {
    Midnight(t) == t
  }

  /** Two instants fall on the same calendar day exactly when their midnights agree. */
  lemma SameMidnightIffSameDay(t: int, u: int)
    ensures Midnight(t) == Midnight(u) <==> Day(t) == Day(u)
  {
  }

  /** The first and last day of a week, as day numbers. */
  lemma {:induction false} WeekBounds(today: int)
    requires IsMidnight(today)
    ensures WeekStart(today) == (7 * Week(today) - 4) * DayMs
    ensures SaturdayMidnight(today) == (7 * Week(today) + 2) * DayMs
  {
    var d := Day(today);
    assert today == d * DayMs;
    assert d + 4 == 7 * Week(today) + WeekDay(today);
  }

  /** An instant is at or after the start of day `k` exactly when its day is `k` or later. */
  lemma DayAtLeast(t: int, k: int)
    ensures t >= k * DayMs <==> Day(t) >= k
  {
  }

  /** An instant is before the end of day `k` exactly when its day is `k` or earlier. */
  lemma DayAtMost(t: int, k: int)
    ensures t <= k * DayMs + DayMs - 1 <==> Day(t) <= k
  {
  }

  /** A week number determines its seven day numbers. */
  lemma WeekOfDay(t: int, w: int)
    ensures Week(t) == w <==> 7 * w - 4 <= Day(t) <= 7 * w + 2
  {
  }

  /** The window from Sunday 00:00 to Saturday 23:59:59.999 holds exactly the
      instants of the calendar week of `today`. */
  lemma {:induction false} FullWeekWindow(today: int, t: int)
    requires IsMidnight(today)
    ensures WeekStart(today) <= t <= SaturdayEnd(today) <==> Week(t) == Week(today)
  {
    var w := Week(today);
    WeekBounds(today);
    DayAtLeast(t, 7 * w - 4);
    DayAtMost(t, 7 * w + 2);
    WeekOfDay(t, w);
  }

  /** The window from Sunday 00:00 to Saturday 00:00 holds the instants of the
      calendar week of `today` except those of Saturday after midnight. */
  lemma {:induction false} ShortWeekWindow(today: int, t: int)
    requires IsMidnight(today)
    ensures WeekStart(today) <= t <= SaturdayMidnight(today)
        <==> Week(t) == Week(today) && (WeekDay(t) != 6 || IsMidnight(t))
  {
    var w := Week(today);
    WeekBounds(today);
    FullWeekWindow(today, t);
    DayAtLeast(t, 7 * w - 4);
    DayAtMost(t, 7 * w + 1);
    WeekOfDay(t, w);
  }
}
