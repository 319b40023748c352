/** The habit completion handler of backend/routes/habits.js (`POST /:id/complete`):
    the ownership check, the daily and weekly "already completed" checks, the
    appended completion and the streak recomputed from the completed entries. */
module HabitRoutes {
  import opened Results
  import opened Seqs
  import opened Time
  import opened HabitSchema

  datatype CompleteError = HabitNotFound | AlreadyCompletedToday | AlreadyCompletedThisWeek

  function Message(e: CompleteError): string {
    match e
    case HabitNotFound => "Habit not found"
    case AlreadyCompletedToday => "Habit already completed today"
    case AlreadyCompletedThisWeek => "Habit already completed this week"
  }

  function Status(e: CompleteError): int {
    if e == HabitNotFound then 404 else 400
  }

  /** The rejection for a habit already completed in the current period. */
  function AlreadyCompletedError(f: Frequency): CompleteError {
    if f == Daily then AlreadyCompletedToday else AlreadyCompletedThisWeek
  }

  /** Whether a completed entry already covers the period of midnight `today`:
      its day for a daily habit, the instants from Sunday 00:00 to Saturday 00:00
      for a weekly one. */
  predicate AlreadyCompleted(f: Frequency, cs: seq<Completion>, today: int) {
    match f
    case Daily =>
      exists c :: c in cs && Midnight(c.date) == today && c.completed
    case Weekly =>
      exists c :: c in cs && WeekStart(today) <= c.date <= SaturdayMidnight(today) && c.completed
  }

  /** The daily check holds exactly when a completed entry has the calendar date
      of `now`. */
  lemma DailyCheckIsCalendarDay(cs: seq<Completion>, now: int)
    ensures AlreadyCompleted(Daily, cs, Midnight(now)) <==>
      exists c :: c in cs && c.completed && Day(c.date) == Day(now)
  {
    forall c | c in cs {
      SameMidnightIffSameDay(c.date, now);
    }
  }

  predicate IsDone(c: Completion) {
    c.completed
  }

  function DateOf(c: Completion): int {
    c.date
  }

  /** The completed entries, newest first. */
  function DoneNewestFirst(cs: seq<Completion>): (r: seq<Completion>)
    ensures SortedDescBy(r, DateOf)
    ensures multiset(r) == multiset(Filter(cs, IsDone))
    ensures forall i :: 0 <= i < |r| ==> r[i].completed
  {
    var r := SortDescBy(Filter(cs, IsDone), DateOf);
    assert forall i :: 0 <= i < |r| ==> r[i] in multiset(Filter(cs, IsDone));
    r
  }

  /** The distance between two expected dates: one day for a daily habit and
      seven days for any other. */
  function PeriodMs(f: Frequency): int {
    if f == Daily then DayMs else 7 * DayMs
  }

  /** The number of leading entries of `sorted` whose days are `expected`,
      `expected - period`, `expected - 2 * period`, ... */
  function StreakRun(sorted: seq<Completion>, expected: int, period: int): (n: nat)
    ensures n <= |sorted|
  {
    if sorted == [] || Midnight(sorted[0].date) != expected then 0
    else 1 + StreakRun(sorted[1..], expected - period, period)
  }

  /** The streak the handler stores for completion history `cs` on midnight `today`. */
  function HabitStreak(f: Frequency, cs: seq<Completion>, today: int): (n: nat)
    ensures n <= |Filter(cs, IsDone)|
  {
    StreakRun(DoneNewestFirst(cs), today, PeriodMs(f))
  }

  /** The streak is the length of the longest run at the head of the list whose
      days step back from `expected` one period at a time. */
  lemma {:induction false} StreakIsLongestRun(sorted: seq<Completion>, expected: int, period: int)
    ensures var n := StreakRun(sorted, expected, period);
      && (forall i :: 0 <= i < n ==> Midnight(sorted[i].date) == expected - i * period)
      && (n < |sorted| ==> Midnight(sorted[n].date) != expected - n * period)
  {
    if sorted != [] && Midnight(sorted[0].date) == expected {
      var n := StreakRun(sorted, expected, period);
      StreakIsLongestRun(sorted[1..], expected - period, period);
      forall i | 0 < i < n ensures Midnight(sorted[i].date) == expected - i * period {
        assert sorted[i] == sorted[1..][i - 1];
        assert expected - period - (i - 1) * period == expected - i * period;
      }
      if n < |sorted| {
        assert sorted[n] == sorted[1..][n - 1];
        assert expected - period - (n - 1) * period == expected - n * period;
      }
    }
  }

  /** `setDate(getDate() - k)` keeps an instant at midnight. */
  lemma MidnightStepsBack(t: int, k: int)
    requires IsMidnight(t)
    ensures IsMidnight(t - k * DayMs)
  {
    assert t == Day(t) * DayMs;
    assert t - k * DayMs == (Day(t) - k) * DayMs;
  }

  /** The loop of the handler that counts the streak over the completed entries,
      newest first. */
  method CountStreak(sorted: seq<Completion>, today: int, f: Frequency) returns (streak: nat)
    requires IsMidnight(today)
    ensures streak == StreakRun(sorted, today, PeriodMs(f))
  {
    streak := 0;
    var currentDate := today;
    var i := 0;
    while i < |sorted|
      invariant 0 <= i <= |sorted| && streak == i
      invariant StreakRun(sorted, today, PeriodMs(f)) == i + StreakRun(sorted[i..], currentDate, PeriodMs(f))
      invariant IsMidnight(currentDate)
    {
      var compDate := Midnight(sorted[i].date);
      var expectedDate := Midnight(currentDate);
      assert sorted[i..][1..] == sorted[i + 1..];
      if compDate == expectedDate {
        streak := streak + 1;
        if f == Daily {
          currentDate := currentDate - DayMs;
        } else {
          currentDate := currentDate - 7 * DayMs;
        }
        MidnightStepsBack(expectedDate, if f == Daily then 1 else 7);
      } else {
        break;
      }
      i := i + 1;
    }
  }

  /** `POST /:id/complete` by user `caller` at instant `now`. `habit` is the
      document found under the requested id, or null when there is none. */
  method CompleteHabit(habit: Habit?, caller: UserId, now: int) returns (r: Outcome<CompleteError>)
    requires habit != null ==> habit.Valid()
    modifies habit
    ensures habit != null ==> habit.Valid()
    ensures habit == null || habit.user != caller ==> r == Fail(HabitNotFound)
    ensures habit != null && habit.user == caller ==>
      if AlreadyCompleted(old(habit.frequency), old(habit.completions), Midnight(now))
      then r == Fail(AlreadyCompletedError(old(habit.frequency)))
      else r == Pass
    ensures r.Fail? ==> habit == null || unchanged(habit)
    ensures r.Pass? ==> habit != null && habit.Fields() == old(habit.Fields())
    ensures r.Pass? ==> habit.completions == old(habit.completions) + [Completion(Midnight(now), true)]
    ensures r.Pass? ==> habit.streak == HabitStreak(habit.frequency, habit.completions, Midnight(now))
    ensures r.Pass? && (forall c :: c in old(habit.completions) && c.completed ==> c.date <= Midnight(now))
      ==> habit.streak >= 1
    ensures r.Pass? && habit.frequency == Daily && OnePerDay(old(habit.completions))
      ==> OnePerDay(habit.completions)
    ensures r.Pass? && habit.frequency == Weekly
      && OnePerWeek(old(habit.completions)) && DoneAtMidnight(old(habit.completions))
      ==> OnePerWeek(habit.completions) && DoneAtMidnight(habit.completions)
  {
    if habit == null || habit.user != caller {
      return Fail(HabitNotFound);
    }
    var today := Midnight(now);
    if AlreadyCompleted(habit.frequency, habit.completions, today) {
      return Fail(AlreadyCompletedError(habit.frequency));
    }
    ghost var before := habit.completions;
    habit.completions := habit.completions + [Completion(today, true)];
    var sorted := DoneNewestFirst(habit.completions);
    var streak := CountStreak(sorted, today, habit.frequency);
    habit.streak := streak;
    r := Pass;
    if forall c :: c in before && c.completed ==> c.date <= today {
      CompletionStartsStreak(habit.frequency, before, today);
    }
    if habit.frequency == Daily && OnePerDay(before) {
      DailyCompletionKeepsOnePerDay(before, now);
    }
    if habit.frequency == Weekly && OnePerWeek(before) && DoneAtMidnight(before) {
      WeeklyCompletionKeepsOnePerWeek(before, now);
    }
  }

  /** The entry a successful completion appends makes the streak at least 1 when
      no completed entry lies after today's midnight. */
  lemma CompletionStartsStreak(f: Frequency, cs: seq<Completion>, today: int)
    requires IsMidnight(today)
    requires forall c :: c in cs && c.completed ==> c.date <= today
    ensures HabitStreak(f, cs + [Completion(today, true)], today) >= 1
  {
    var added := Completion(today, true);
    var all := cs + [added];
    var sorted := DoneNewestFirst(all);
    assert added in all;
    assert added in Filter(all, IsDone);
    assert added in multiset(sorted);
    HeadIsLargest(sorted, DateOf, added);
    assert sorted[0] in multiset(Filter(all, IsDone));
    assert sorted[0] in all && sorted[0].completed;
    assert sorted[0].date == today;
  }

  /** A second completion in the same period is rejected: the same day for a
      daily habit, the same calendar week for a weekly one. */
  lemma SecondCompletionRejected(f: Frequency, cs: seq<Completion>, now: int, later: int)
    requires f == Daily ==> Day(later) == Day(now)
    requires f == Weekly ==> Week(later) == Week(now)
    ensures AlreadyCompleted(f, cs + [Completion(Midnight(now), true)], Midnight(later))
  {
    var added := Completion(Midnight(now), true);
    assert added in cs + [added];
    if f == Weekly {
      ShortWeekWindow(Midnight(later), added.date);
    }
  }

  /** The weekly check accepts an entry exactly when it lies in the calendar week
      of `now` and is not a Saturday instant after midnight. */
  lemma WeeklyCheckIsCalendarWeek(cs: seq<Completion>, now: int)
    ensures AlreadyCompleted(Weekly, cs, Midnight(now)) <==>
      exists c :: c in cs && c.completed && Week(c.date) == Week(now) && (WeekDay(c.date) != 6 || IsMidnight(c.date))
  {
    forall c | c in cs {
      ShortWeekWindow(Midnight(now), c.date);
    }
  }

  lemma FilterSkipsIncomplete(cs: seq<Completion>, k: nat, c: Completion)
    requires k <= |cs| && !c.completed
    ensures Filter(cs[..k] + [c] + cs[k..], IsDone) == Filter(cs, IsDone)
  {
    assert cs == cs[..k] + cs[k..];
    FilterConcat(cs[..k] + [c], cs[k..], IsDone);
    FilterConcat(cs[..k], [c], IsDone);
    FilterConcat(cs[..k], cs[k..], IsDone);
    assert Filter([c], IsDone) == [];
    assert Filter(cs[..k], IsDone) + [] == Filter(cs[..k], IsDone);
  }

  /** Entries with `completed` false affect neither the check nor the streak,
      wherever they are inserted. */
  lemma IncompleteEntryIgnored(f: Frequency, cs: seq<Completion>, k: nat, c: Completion, today: int)
    requires k <= |cs| && !c.completed
    ensures AlreadyCompleted(f, cs[..k] + [c] + cs[k..], today) == AlreadyCompleted(f, cs, today)
    ensures HabitStreak(f, cs[..k] + [c] + cs[k..], today) == HabitStreak(f, cs, today)
  {
    FilterSkipsIncomplete(cs, k, c);
    var with := cs[..k] + [c] + cs[k..];
    assert cs == cs[..k] + cs[k..];
    forall x | x in with && x != c ensures x in cs { }
    forall x | x in cs ensures x in with { }
  }

  /** Two arrangements of the same entries give the same completed entries,
      newest first. */
  lemma NewestFirstIgnoresOrder(cs1: seq<Completion>, cs2: seq<Completion>)
    requires multiset(cs1) == multiset(cs2)
    ensures DoneNewestFirst(cs1) == DoneNewestFirst(cs2)
  {
    FilterPermutation(cs1, cs2, IsDone);
    var s1, s2 := DoneNewestFirst(cs1), DoneNewestFirst(cs2);
    forall x, y | x in s1 && y in s1 && DateOf(x) == DateOf(y) ensures x == y {
      assert x in multiset(s1) && y in multiset(s1);
    }
    SortedUnique(s1, s2, DateOf);
  }

  /** The order in which entries are stored does not matter: any arrangement of
      the same entries gives the same check and the same streak. */
  lemma StreakIgnoresOrder(f: Frequency, cs1: seq<Completion>, cs2: seq<Completion>, today: int)
    requires multiset(cs1) == multiset(cs2)
    ensures AlreadyCompleted(f, cs1, today) == AlreadyCompleted(f, cs2, today)
    ensures HabitStreak(f, cs1, today) == HabitStreak(f, cs2, today)
  {
    forall x ensures x in cs1 <==> x in cs2 {
      assert x in cs1 <==> x in multiset(cs1);
      assert x in cs2 <==> x in multiset(cs2);
    }
    NewestFirstIgnoresOrder(cs1, cs2);
  }

  /** At most one completed entry per calendar day. */
  predicate OnePerDay(cs: seq<Completion>) {
    forall i, j :: 0 <= i < j < |cs| && cs[i].completed && cs[j].completed ==> Day(cs[i].date) != Day(cs[j].date)
  }

  /** At most one completed entry per calendar week. */
  predicate OnePerWeek(cs: seq<Completion>) {
    forall i, j :: 0 <= i < j < |cs| && cs[i].completed && cs[j].completed ==> Week(cs[i].date) != Week(cs[j].date)
  }

  predicate DoneAtMidnight(cs: seq<Completion>) {
    forall c :: c in cs && c.completed ==> IsMidnight(c.date)
  }

  /** A daily completion that passes the check keeps at most one entry per day. */
  lemma DailyCompletionKeepsOnePerDay(cs: seq<Completion>, now: int)
    requires OnePerDay(cs) && !AlreadyCompleted(Daily, cs, Midnight(now))
    ensures OnePerDay(cs + [Completion(Midnight(now), true)])
  {
    var all := cs + [Completion(Midnight(now), true)];
    forall i, j | 0 <= i < j < |all| && all[i].completed && all[j].completed
      ensures Day(all[i].date) != Day(all[j].date)
    {
      if j == |cs| {
        assert all[i] in cs;
        SameMidnightIffSameDay(all[i].date, now);
      }
    }
  }

  /** A weekly completion that passes the check keeps at most one entry per
      calendar week, as long as the completed entries are dated at midnight, as
      the ones the handler appends are. */
  lemma WeeklyCompletionKeepsOnePerWeek(cs: seq<Completion>, now: int)
    requires OnePerWeek(cs) && DoneAtMidnight(cs)
    requires !AlreadyCompleted(Weekly, cs, Midnight(now))
    ensures OnePerWeek(cs + [Completion(Midnight(now), true)])
    ensures DoneAtMidnight(cs + [Completion(Midnight(now), true)])
  {
    var all := cs + [Completion(Midnight(now), true)];
    WeeklyCheckIsCalendarWeek(cs, now);
    forall i, j | 0 <= i < j < |all| && all[i].completed && all[j].completed
      ensures Week(all[i].date) != Week(all[j].date)
    {
      if j == |cs| {
        assert all[i] in cs;
      }
    }
  }

  function Done(date: int): Completion {
    Completion(date, true)
  }

  /** Completed entries already stored newest first are their own sorted order. */
  lemma NewestFirstOfSorted(cs: seq<Completion>)
    requires forall i :: 0 <= i < |cs| ==> cs[i].completed
    requires SortedDescBy(cs, DateOf)
    ensures DoneNewestFirst(cs) == cs
  {
    FilterAll(cs, IsDone);
    var s := DoneNewestFirst(cs);
    forall x, y | x in s && y in s && DateOf(x) == DateOf(y) ensures x == y {
      assert x in multiset(cs) && y in multiset(cs);
    }
    SortedUnique(s, cs, DateOf);
  }

  /** The streak of a history whose entries, newest first, are `newest`. */
  lemma StreakOfHistory(f: Frequency, history: seq<Completion>, newest: seq<Completion>, today: int)
    requires multiset(history) == multiset(newest)
    requires forall i :: 0 <= i < |newest| ==> newest[i].completed
    requires SortedDescBy(newest, DateOf)
    ensures HabitStreak(f, history, today) == StreakRun(newest, today, PeriodMs(f))
  {
    StreakIgnoresOrder(f, history, newest, today);
    NewestFirstOfSorted(newest);
  }

  /** A daily habit completed today and on the two days before has a streak of 3. */
  lemma DailyThreeDays(today: int)
    requires IsMidnight(today)
    ensures HabitStreak(Daily, [Done(today - 2 * DayMs), Done(today - DayMs), Done(today)], today) == 3
  {
    var a, b, c := Done(today - 2 * DayMs), Done(today - DayMs), Done(today);
    var newest := [c, b, a];
    assert multiset([a, b, c]) == multiset{a, b, c} == multiset(newest);
    assert SortedDescBy(newest, DateOf);
    StreakOfHistory(Daily, [a, b, c], newest, today);
    MidnightStepsBack(today, 1);
    MidnightStepsBack(today, 2);
    assert newest[1..] == [b, a] && newest[1..][1..] == [a] && [a][1..] == [];
    assert StreakRun([a], today - 2 * DayMs, DayMs) == 1;
    assert StreakRun([b, a], today - DayMs, DayMs) == 2;
  }

  /** A daily habit completed today and two days ago, but not yesterday, has a
      streak of 1. */
  lemma DailyGap(today: int)
    requires IsMidnight(today)
    ensures HabitStreak(Daily, [Done(today - 2 * DayMs), Done(today)], today) == 1
  {
    var a, c := Done(today - 2 * DayMs), Done(today);
    assert multiset([a, c]) == multiset([c, a]);
    StreakOfHistory(Daily, [a, c], [c, a], today);
    MidnightStepsBack(today, 2);
    assert [c, a][1..] == [a];
  }

  /** A weekly habit completed today and `k` days ago has a streak of 2 when `k`
      is 7 and of 1 for any other positive `k`. */
  lemma WeeklyTwoCompletions(today: int, k: int)
    requires IsMidnight(today) && k > 0
    ensures HabitStreak(Weekly, [Done(today - k * DayMs), Done(today)], today) == if k == 7 then 2 else 1
  {
    var a, c := Done(today - k * DayMs), Done(today);
    assert multiset([a, c]) == multiset([c, a]);
    StreakOfHistory(Weekly, [a, c], [c, a], today);
    MidnightStepsBack(today, k);
    assert [c, a][1..] == [a];
  }

  /** The weekly streak steps back seven days from today, not one calendar week:
      on a Friday, a completion on the Monday of the week before lies in the
      previous calendar week, yet the streak is 1. */
  lemma WeeklyStreakIgnoresCalendarWeeks(today: int)
    requires IsMidnight(today) && WeekDay(today) == 5
    ensures Week(today - 11 * DayMs) == Week(today) - 1
    ensures HabitStreak(Weekly, [Done(today - 11 * DayMs), Done(today)], today) == 1
  {
    var d := Day(today);
    assert today == d * DayMs;
    assert Day(today - 11 * DayMs) == d - 11;
    WeeklyTwoCompletions(today, 11);
  }

  /** The weekly window ends at Saturday 00:00: an entry completed on a Saturday
      after midnight does not block a second completion that Saturday, so the
      week ends up with two completed entries. */
  lemma SaturdayEntryAdmitsSecondCompletion(saturday: int, offset: int)
    requires IsMidnight(saturday) && WeekDay(saturday) == 6 && 0 < offset < DayMs
    ensures !AlreadyCompleted(Weekly, [Done(saturday + offset)], saturday)
    ensures OnePerWeek([Done(saturday + offset)])
    ensures !OnePerWeek([Done(saturday + offset), Done(saturday)])
  {
    var cs := [Done(saturday + offset)];
    assert Day(saturday + offset) == Day(saturday);
    WeeklyCheckIsCalendarWeek(cs, saturday);
    var all := cs + [Done(saturday)];
    assert all == [Done(saturday + offset), Done(saturday)];
    assert Week(all[0].date) == Week(all[1].date);
  }
}
