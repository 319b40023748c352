/** The client-side view of one habit in frontend/src/components/HabitCard.tsx:
    whether the current period is done, the button's label and state, and the
    number of fire icons shown for the streak. */
module HabitCard {
  import opened Results
  import opened Time
  import opened HabitSchema
  import HabitRoutes

  /** `isCompleted()`: a completed entry falls on today's date for a daily habit,
      or between Sunday 00:00 and Saturday 23:59:59.999 of this week otherwise. */
  predicate IsCompleted(f: Frequency, cs: seq<Completion>, now: int) {
    var today := Midnight(now);
    match f
    case Daily =>
      exists c :: c in cs && Midnight(c.date) == today && c.completed
    case Weekly =>
      exists c :: c in cs && WeekStart(today) <= c.date <= SaturdayEnd(today) && c.completed
  }

  /** For a daily habit the card shows "done" exactly when a completed entry has
      the calendar date of `now`. */
  lemma DailyIsCompletedIsCalendarDay(cs: seq<Completion>, now: int)
    ensures IsCompleted(Daily, cs, now) <==>
      exists c :: c in cs && c.completed && Day(c.date) == Day(now)
  {
    forall c | c in cs {
      SameMidnightIffSameDay(c.date, now);
    }
  }

  /** For a weekly habit the card shows "done" exactly when a completed entry lies
      in the calendar week of `now`. */
  lemma WeeklyIsCompletedIsCalendarWeek(cs: seq<Completion>, now: int)
    ensures IsCompleted(Weekly, cs, now) <==>
      exists c :: c in cs && c.completed && Week(c.date) == Week(now)
  {
    forall c | c in cs {
      FullWeekWindow(Midnight(now), c.date);
    }
  }

  /** Whenever the server would refuse a completion, the card already shows the
      habit as done. */
  lemma ServerRefusalShownAsDone(f: Frequency, cs: seq<Completion>, now: int)
    ensures HabitRoutes.AlreadyCompleted(f, cs, Midnight(now)) ==> IsCompleted(f, cs, now)
  {
    if f == Weekly {
      HabitRoutes.WeeklyCheckIsCalendarWeek(cs, now);
      WeeklyIsCompletedIsCalendarWeek(cs, now);
    }
  }

  /** The card and the server agree for a daily habit, and for a weekly one when
      every completed entry is dated at midnight, as those the server appends are. */
  lemma CardAgreesWithServerOnMidnights(f: Frequency, cs: seq<Completion>, now: int)
    requires f == Weekly ==> HabitRoutes.DoneAtMidnight(cs)
    ensures IsCompleted(f, cs, now) <==> HabitRoutes.AlreadyCompleted(f, cs, Midnight(now))
  {
    if f == Weekly {
      HabitRoutes.WeeklyCheckIsCalendarWeek(cs, now);
      WeeklyIsCompletedIsCalendarWeek(cs, now);
    }
  }

  /** An entry completed on a Saturday after midnight makes the card show the week
      as done while the server still accepts a completion. */
  lemma SaturdayEntryDisagrees(saturday: int, offset: int)
    requires IsMidnight(saturday) && WeekDay(saturday) == 6 && 0 < offset < DayMs
    ensures IsCompleted(Weekly, [Completion(saturday + offset, true)], saturday)
    ensures !HabitRoutes.AlreadyCompleted(Weekly, [Completion(saturday + offset, true)], saturday)
  {
    var c := Completion(saturday + offset, true);
    assert Day(saturday + offset) == Day(saturday);
    HabitRoutes.SaturdayEntryAdmitsSecondCompletion(saturday, offset);
    WeeklyIsCompletedIsCalendarWeek([c], saturday);
    assert c in [c];
  }

  /** `getCompletionText()`. */
  function CompletionText(f: Frequency, completed: bool): (s: string)
    ensures completed <==> (s == "Completed Today" || s == "Completed This Week")
    ensures f == Daily <==> (s == "Completed Today" || s == "Mark as Complete")
    ensures s in {"Completed Today", "Completed This Week", "Mark as Complete", "Complete for Week"}
  {
    if completed then (if f == Daily then "Completed Today" else "Completed This Week")
    else (if f == Daily then "Mark as Complete" else "Complete for Week")
  }

  /** The complete button's `disabled` attribute. */
  predicate ButtonDisabled(f: Frequency, cs: seq<Completion>, now: int, isCompleting: bool) {
    IsCompleted(f, cs, now) || isCompleting
  }

  /** The complete button's label. */
  function ButtonLabel(f: Frequency, cs: seq<Completion>, now: int, isCompleting: bool): string {
    if isCompleting then "Marking..." else CompletionText(f, IsCompleted(f, cs, now))
  }

  /** The button is enabled exactly when it offers to complete the habit. */
  lemma EnabledButtonOffersCompletion(f: Frequency, cs: seq<Completion>, now: int, isCompleting: bool)
    ensures !ButtonDisabled(f, cs, now, isCompleting) <==>
      ButtonLabel(f, cs, now, isCompleting) in {"Mark as Complete", "Complete for Week"}
  {
    var text := ButtonLabel(f, cs, now, isCompleting);
    if isCompleting {
      assert text == "Marking...";
      assert text != "Mark as Complete" && text != "Complete for Week" by {
        assert text[1] == 'a' && text[2] == 'r';
      }
    }
  }

  /** `Math.min(Math.floor(streak / 7) + 1, 5)`. */
  function FireCount(streak: int): (n: int)
    ensures streak > 0 ==> 1 <= n <= 5
    ensures n == 5 <==> streak >= 28
  {
    var perWeek := streak / 7 + 1;
    if perWeek < 5 then perWeek else 5
  }

  /** A longer streak never shows fewer fires. */
  lemma FireCountMonotone(a: int, b: int)
    requires a <= b
    ensures FireCount(a) <= FireCount(b)
  {
    assert a / 7 <= b / 7;
  }

  /** `renderStreakVisualization()`: nothing for a streak of 0, otherwise one fire
      icon per loop iteration, keyed by its index. */
  method StreakFires(streak: int) returns (fires: Option<seq<nat>>)
    ensures fires.None? <==> streak == 0
    ensures fires.Some? ==> |fires.value| == if FireCount(streak) > 0 then FireCount(streak) else 0
    ensures fires.Some? ==> forall i :: 0 <= i < |fires.value| ==> fires.value[i] == i
  {
    if streak == 0 {
      return None;
    }
    var icons: seq<nat> := [];
    var fireCount := FireCount(streak);
    var i := 0;
    while i < fireCount
      invariant 0 <= i <= (if fireCount > 0 then fireCount else 0)
      invariant |icons| == i
      invariant forall k :: 0 <= k < i ==> icons[k] == k
    {
      icons := icons + [i];
      i := i + 1;
    }
    fires := Some(icons);
  }
}
