/** The pure parts of frontend/src/app/friends/page.tsx: the relative date shown
    beside each activity, and the search results kept after a follow. */
module FriendsPage {
  import opened Results
  import opened Seqs
  import opened Time
  import opened HabitSchema

  function Abs(x: int): nat {
    if x < 0 then -x else x
  }

  /** `Math.floor(Math.abs(now - date) / (1000 * 60 * 60 * 24))`. */
  function ElapsedDays(date: int, now: int): (d: nat)
    ensures d * DayMs <= Abs(now - date) < (d + 1) * DayMs
  {
    Abs(now - date) / DayMs
  }

  /** What `formatDate` returns: three fixed texts, or the locale's rendering of
      the date itself. */
  datatype DateLabel = Today | Yesterday | DaysAgo(days: nat) | LocaleDate(date: int)

  /** `formatDate`. */
  function FormatDate(date: int, now: int): (l: DateLabel)
    ensures l == Today <==> Abs(now - date) < DayMs
    ensures l == Yesterday <==> DayMs <= Abs(now - date) < 2 * DayMs
    ensures l.DaysAgo? ==> 2 <= l.days < 7 && l.days * DayMs <= Abs(now - date) < (l.days + 1) * DayMs
    ensures l.LocaleDate? <==> Abs(now - date) >= 7 * DayMs
    ensures l.LocaleDate? ==> l.date == date
  {
    var diffDays := ElapsedDays(date, now);
    if diffDays == 0 then Today
    else if diffDays == 1 then Yesterday
    else if diffDays < 7 then DaysAgo(diffDays)
    else LocaleDate(date)
  }

  /** A date `n` ms after `now` and one `n` ms before it are the same number of
      days away, and within a week they get the same label. */
  lemma FormatDateSymmetric(now: int, n: int)
    ensures ElapsedDays(now + n, now) == ElapsedDays(now - n, now)
    ensures Abs(n) < 7 * DayMs ==> FormatDate(now + n, now) == FormatDate(now - n, now)
  {
    assert Abs(now - (now + n)) == Abs(now - (now - n));
  }

  /** The decimal digits of `n`. */
  function Decimal(n: nat): (r: string)
    ensures |r| >= 1
    ensures forall i :: 0 <= i < |r| ==> '0' <= r[i] <= '9'
    ensures n < 10 ==> r == [('0' as int + n) as char]
  {
    if n < 10 then [('0' as int + n) as char] else Decimal(n / 10) + Decimal(n % 10)
  }

  /** The text shown for a label; the locale's date rendering is not modelled. */
  function LabelText(l: DateLabel): (r: Option<string>)
    ensures r.None? <==> l.LocaleDate?
    ensures r.Some? ==> |r.value| >= 5
  {
    match l
    case Today => Some("Today")
    case Yesterday => Some("Yesterday")
    case DaysAgo(n) => Some(Decimal(n) + " days ago")
    case LocaleDate(_) => None
  }

  /** Between two and seven days apart the page shows the single digit of the
      whole days elapsed followed by " days ago". */
  lemma DaysAgoText(date: int, now: int)
    requires 2 * DayMs <= Abs(now - date) < 7 * DayMs
    ensures 2 <= ElapsedDays(date, now) < 7
    ensures LabelText(FormatDate(date, now))
      == Some([('0' as int + ElapsedDays(date, now)) as char] + " days ago")
  {
  }

  /** A user as the search returns it. */
  datatype FoundUser = FoundUser(id: UserId, username: string, email: string)

  /** `searchResults.filter((user) => user._id !== userId)` after following `userId`. */
  function AfterFollow(results: seq<FoundUser>, userId: UserId): (r: seq<FoundUser>)
    ensures forall i :: 0 <= i < |r| ==> r[i].id != userId
    ensures forall u: FoundUser :: u.id != userId ==> multiset(r)[u] == multiset(results)[u]
  {
    var r := Filter(results, (u: FoundUser) => u.id != userId);
    assert forall u: FoundUser :: u.id != userId ==> multiset(r)[u] == multiset(results)[u] by {
      forall u: FoundUser | u.id != userId ensures multiset(r)[u] == multiset(results)[u] {
        FilterMultiplicity(results, (u: FoundUser) => u.id != userId, u);
      }
    }
    r
  }

  /** The kept users stay in the order the search returned them. */
  lemma AfterFollowKeepsOrder(a: seq<FoundUser>, b: seq<FoundUser>, userId: UserId)
    ensures AfterFollow(a + b, userId) == AfterFollow(a, userId) + AfterFollow(b, userId)
  {
    FilterConcat(a, b, (u: FoundUser) => u.id != userId);
  }
}
