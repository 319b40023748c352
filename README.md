# Habit tracker: completions, streaks, follows and the activity feed

This project models the core of a habit-tracking web application. The server is
written in Express and Mongoose. The client is written in React.

- **The habit document.** The schema casts and validates a habit's name,
  description, frequency and category. It keeps a list of completion entries and
  a stored streak. A unique index on (name, user) stops one user from having two
  habits with the same name.
- **`POST /habits/:id/complete`.** The handler refuses a second completion in the
  same day (daily habits) or the same week (weekly habits). Otherwise it appends a
  completion dated today at midnight. It then recomputes the streak by walking the
  completed entries from newest to oldest, one day or seven days at a time.
- **`POST /users/:id/follow` and `/unfollow`.** These handlers edit both users'
  `following` and `followers` lists.
- **`GET /users/activity`.** The feed lists the habits of followed users that were
  updated in the last seven days. It puts the most recently updated first, keeps
  at most 20, and gives each a `completedToday` flag.
- **The habit card.** It decides whether the habit is done for the current period.
  It also chooses the button's text, whether the button is disabled, and how many
  fire icons to show for the streak.
- **The friends page.** It shows relative dates ("Today", "Yesterday",
  "n days ago") and drops a followed user from the search results.

Time is an integer count of milliseconds. A day is 86 400 000 ms. `Time.Day`
numbers the days, `Time.Midnight` is the start of a day, and `Time.WeekDay`
gives 0 for Sunday through 6 for Saturday. Day 0 is a Thursday. Weeks run from
Sunday to Saturday. The model uses one fixed time zone with no daylight saving.

Two behaviours of the source are stated as lemmas rather than corrected:

- The server's weekly window ends at Saturday 00:00. The card's window ends at
  Saturday 23:59:59.999. So a weekly entry stamped on Saturday after midnight
  counts for the card but not for the server (`HabitCard.SaturdayEntryDisagrees`).
  The server then admits a second completion in that week
  (`HabitRoutes.SaturdayEntryAdmitsSecondCompletion`). The handler itself only
  ever stamps midnights, so on its own histories the two checks agree
  (`HabitCard.CardAgreesWithServerOnMidnights`).
- A weekly streak counts completions exactly 7 days apart, starting from today.
  It does not count consecutive calendar weeks. Two completions in adjacent weeks
  that are not 7 days apart give a streak of 1
  (`HabitRoutes.WeeklyStreakIgnoresCalendarWeeks`, `HabitRoutes.WeeklyTwoCompletions`).

## Model

| member | source | states |
|---|---|---|
| HabitRoutes.CompleteHabit | backend/routes/habits.js:115-208 | A missing habit or another user's habit gives 404 "Habit not found". A habit already done in the period gives the frequency's 400 error and is left unchanged. Otherwise the call appends exactly one completed entry dated at today's midnight, leaves the other fields alone, and stores the streak `HabitStreak` computes. That streak is at least 1 when no completed entry is dated after today. The document stays valid, and one completed entry per day (daily) or per week (weekly, on midnight-stamped histories) stays true. |
| HabitRoutes.AlreadyCompleted | backend/routes/habits.js:127-152 | Definition of the eligibility check. Daily: a completed entry whose midnight is today's. Weekly: a completed entry between Sunday 00:00 and Saturday 00:00. Its meaning is stated by `DailyCheckIsCalendarDay` and `WeeklyCheckIsCalendarWeek`. |
| HabitRoutes.DailyCheckIsCalendarDay | backend/routes/habits.js:129-135 | The daily check holds exactly when a completed entry has today's calendar date. |
| HabitRoutes.Message | backend/routes/habits.js:119-159 | Definition: the error texts "Habit not found", "Habit already completed today" and "Habit already completed this week". |
| HabitRoutes.Status | backend/routes/habits.js:119-159 | Definition: 404 for a missing habit, 400 for an already completed one. |
| HabitRoutes.CountStreak | backend/routes/habits.js:169-194 | The loop with its early `break` returns exactly the length of the run of entries that fall on today, today − period, today − 2·period, and so on. |
| HabitRoutes.StreakRun | backend/routes/habits.js:175-194 | The run length never exceeds the number of entries. |
| HabitRoutes.StreakIsLongestRun | backend/routes/habits.js:175-194 | The first n sorted entries fall on the expected midnights, each one period earlier than the last. Entry n, if present, does not, so the run is the longest one starting at today. |
| HabitRoutes.HabitStreak | backend/routes/habits.js:169-196 | The streak never exceeds the number of completed entries. |
| HabitRoutes.DoneNewestFirst | backend/routes/habits.js:171-173 | The list holds exactly the completed entries (same multiset) and is sorted newest first. |
| HabitRoutes.CompletionStartsStreak | backend/routes/habits.js:163-184 | Appending today's completion to a history with no completed entry after today gives a streak of at least 1. |
| HabitRoutes.SecondCompletionRejected | backend/routes/habits.js:129-160 | After a completion, a later call on the same day (daily) or in the same calendar week (weekly) finds the habit already completed. |
| HabitRoutes.WeeklyCheckIsCalendarWeek | backend/routes/habits.js:136-152 | The weekly check holds exactly when a completed entry lies in the current calendar week and is not stamped on Saturday after midnight. |
| HabitRoutes.FilterSkipsIncomplete | backend/routes/habits.js:172 | Inserting an entry that is not completed anywhere leaves the filtered list unchanged. |
| HabitRoutes.IncompleteEntryIgnored | backend/routes/habits.js:127-173 | Inserting an entry that is not completed changes neither the already-completed check nor the streak. |
| HabitRoutes.NewestFirstIgnoresOrder | backend/routes/habits.js:171-173 | Two histories that are permutations of each other give the same newest-first list. Completed entries with equal dates are equal values, so ties in the sort cannot change the result. |
| HabitRoutes.StreakIgnoresOrder | backend/routes/habits.js:127-194 | The check and the streak depend only on the multiset of entries, not on their stored order. |
| HabitRoutes.DailyCompletionKeepsOnePerDay | backend/routes/habits.js:129-166 | A completion the daily check admits keeps at most one completed entry per calendar day. |
| HabitRoutes.WeeklyCompletionKeepsOnePerWeek | backend/routes/habits.js:136-166 | On histories stamped at midnights, a completion the weekly check admits keeps at most one completed entry per calendar week. |
| HabitRoutes.NewestFirstOfSorted | backend/routes/habits.js:171-173 | A list that is already completed-only and sorted newest first is its own newest-first list. |
| HabitRoutes.StreakOfHistory | backend/routes/habits.js:169-194 | The streak of any history equals the run over any newest-first ordering of its completed entries. |
| HabitRoutes.DailyThreeDays | backend/routes/habits.js:169-194 | Daily completions on the last three consecutive days give a streak of 3. |
| HabitRoutes.DailyGap | backend/routes/habits.js:169-194 | Daily completions today and two days ago, with yesterday missing, give a streak of 1. |
| HabitRoutes.WeeklyTwoCompletions | backend/routes/habits.js:185-190 | A weekly habit completed today and k days ago has a streak of 2 exactly when k is 7, and 1 otherwise. |
| HabitRoutes.WeeklyStreakIgnoresCalendarWeeks | backend/routes/habits.js:185-190 | On a Friday, a completion 11 days earlier lies in the previous calendar week, yet the weekly streak is 1. |
| HabitRoutes.SaturdayEntryAdmitsSecondCompletion | backend/routes/habits.js:141-151 | A weekly entry stamped on Saturday after midnight is not seen by the check, so a second completion in the same week gets through. |
| HabitRoutes.MidnightStepsBack | backend/routes/habits.js:185-190 | Stepping a midnight back by whole days gives a midnight. |
| Time.Midnight | backend/routes/habits.js:123-124 | `setHours(0,0,0,0)` gives the start of the instant's day. It lies at most one day before the instant and is in the same day. |
| Time.WeekDay | backend/routes/habits.js:139 | `getDay()` is between 0 (Sunday) and 6 (Saturday). |
| Time.SameMidnightIffSameDay | backend/routes/habits.js:132-134 | Two instants have the same midnight exactly when they fall on the same day. |
| Time.FullWeekWindow | frontend/src/components/HabitCard.tsx:83-89 | The window from Sunday 00:00 to Saturday 23:59:59.999 holds exactly the instants of the current calendar week. |
| Time.ShortWeekWindow | backend/routes/habits.js:138-142 | The window from Sunday 00:00 to Saturday 00:00 holds the current week's instants except those on Saturday after midnight. |
| Seqs.Filter | backend/routes/habits.js:172 | The result holds exactly the elements that satisfy the predicate and is no longer than the input. |
| Seqs.FilterConcat | backend/routes/habits.js:172 | Filtering distributes over concatenation. |
| Seqs.FilterMultiplicity | backend/routes/habits.js:172 | An element that satisfies the predicate keeps its multiplicity. Any other element has multiplicity 0. |
| Seqs.FilterPermutation | backend/routes/habits.js:172 | Filtering two permutations of each other gives permutations of each other. |
| Seqs.FilterAll | frontend/src/app/friends/page.tsx:75 | Filtering with a predicate every element satisfies returns the input. |
| Seqs.InsertDescBy | backend/routes/habits.js:173 | Insertion into a sorted list keeps it sorted in descending key order, adds exactly the new element, and puts at the head either the new element or the old head. |
| Seqs.SortDescBy | backend/routes/habits.js:173 | The result is sorted in descending key order and is a permutation of the input. |
| Seqs.HeadIsLargest | backend/routes/habits.js:173 | In a descending list, no element has a larger key than the head. |
| Seqs.TailKeepsOrder | backend/routes/habits.js:173 | The tail of a descending list is descending. |
| Seqs.SortedUnique | backend/routes/habits.js:173 | Two descending permutations of each other are equal when the key is injective on their elements. |
| HabitSchema.NewCompletion | backend/models/Habit.js:30-39 | An absent date defaults to the creation instant and an absent flag defaults to false. Given values are kept. |
| HabitSchema.TrimStart | backend/models/Habit.js:7 | Removes exactly the leading JavaScript white space. The result is a suffix of the input. |
| HabitSchema.TrimEnd | backend/models/Habit.js:7 | Removes exactly the trailing JavaScript white space. The result is a prefix of the input. |
| HabitSchema.Trim | backend/models/Habit.js:7 | The result is no longer than the input and neither starts nor ends with white space. |
| HabitSchema.TrimIdempotent | backend/models/Habit.js:7 | Trimming twice is the same as trimming once. |
| HabitSchema.CastFrequency | backend/models/Habit.js:15-19 | "weekly" casts to weekly. An absent value or "daily" casts to daily. Any other string is rejected. |
| HabitSchema.TrimmedWithin | backend/models/Habit.js:7-23 | An optional value within the length limit stays within it after trimming. |
| HabitSchema.CastHabit | backend/models/Habit.js:3-24 | The cast succeeds exactly when every path validates: name required and at most 50 characters after trimming, description at most 200, category at most 30, frequency in the enum. On failure the error lists exactly the failing paths and is non-empty. On success the fields are the trimmed inputs and satisfy the schema. |
| HabitSchema.Habit.constructor | backend/models/Habit.js:30-43 | A new habit holds the cast fields, no completions and a streak of 0. |
| HabitSchema.IndexInsert | backend/models/Habit.js:48-49 | An insert succeeds exactly when its (name, user) key is new. A duplicate reports that key. A successful insert keeps the keys distinct. |
| HabitSchema.DistinctKeysHaveDistinctNames | backend/models/Habit.js:48-49 | Two habits of the same user in a distinct index have different names. |
| UserRoutes.Without | backend/routes/users.js:91-99 | Removes every occurrence of the id and keeps the multiplicity of every other id. |
| UserRoutes.WithoutKeepsOrder | backend/routes/users.js:91-99 | Removal distributes over concatenation, so the remaining ids keep their order. |
| UserRoutes.Message | backend/routes/users.js:46-88 | Definition: the error texts "User not found", "You cannot follow yourself", "Already following this user" and "Not following this user". |
| UserRoutes.Status | backend/routes/users.js:46-88 | Definition: 404 for a missing user, 400 for the other errors. |
| UserRoutes.WithoutAppended | backend/routes/users.js:91-99 | Removing an id just appended to a list that did not hold it restores the list. |
| UserRoutes.FollowResult | backend/routes/users.js:42-65 | The follow succeeds exactly when the target exists, is not the caller and is not yet followed. The errors: 404 exactly when the target does not exist, "cannot follow yourself" exactly when the target is the caller, "already following" exactly when the target is already in `following`. On success the target is appended to the caller's `following` and the caller to the target's `followers`, and every other profile is unchanged. |
| UserRoutes.UnfollowResult | backend/routes/users.js:77-100 | The unfollow succeeds exactly when the target exists and is followed. The errors: 404 exactly when the target does not exist, "not following" exactly when the target is not in `following`. On success every occurrence of the target leaves the caller's `following` and every occurrence of the caller leaves the target's `followers`, and every other list and profile is unchanged. |
| UserRoutes.FollowKeepsSymmetry | backend/routes/users.js:59-65 | A successful follow keeps "a follows b exactly when b lists a as a follower". |
| UserRoutes.UnfollowKeepsSymmetry | backend/routes/users.js:90-100 | A successful unfollow keeps the same symmetry. |
| UserRoutes.FollowThenUnfollow | backend/routes/users.js:55-99 | On a symmetric graph, a successful follow followed by an unfollow of the same user restores the graph. |
| UserRoutes.UserStore.Follow | backend/routes/users.js:42-74 | Returns the error `FollowResult` gives and changes nothing, or applies its new graph. |
| UserRoutes.UserStore.Unfollow | backend/routes/users.js:77-109 | Returns the error `UnfollowResult` gives and changes nothing, or applies its new graph. |
| UserRoutes.CompletedToday | backend/routes/users.js:130-139 | Definition of the feed's flag: a completed entry with the calendar date of now. `CompletedTodayIsDailyCheck` ties it to the server's daily check. |
| UserRoutes.CompletedTodayIsDailyCheck | backend/routes/users.js:130-139 | The feed's `completedToday` flag equals the completion handler's daily check. |
| UserRoutes.Recent | backend/routes/users.js:119-122 | Keeps exactly the habits of followed users updated within the last seven days: each matching habit with its multiplicity, every other habit not at all. |
| UserRoutes.Newest | backend/routes/users.js:119-125 | Keeps min(matching, 20) habits, each at most as often as it matches, newest first. No matching habit left out is newer than any habit kept. |
| UserRoutes.DroppedAreOlder | backend/routes/users.js:124-125 | Cutting a descending list keeps a sorted sub-multiset, and every element cut off is no newer than any element kept. |
| UserRoutes.Items | backend/routes/users.js:128-150 | Maps each habit to one feed item, keeping order and length. |
| UserRoutes.Activity | backend/routes/users.js:111-150 | The feed is one item per habit `Newest` selects, in that order. So it holds at most 20 items, newest first, each from a followed user's habit updated in the last seven days. |
| HabitCard.IsCompleted | frontend/src/components/HabitCard.tsx:70-100 | Definition of the card's check. Daily: a completed entry whose midnight is today's. Weekly: a completed entry between Sunday 00:00 and Saturday 23:59:59.999. Its meaning is stated by the two lemmas below. |
| HabitCard.DailyIsCompletedIsCalendarDay | frontend/src/components/HabitCard.tsx:74-80 | The card marks a daily habit done exactly when a completed entry has today's calendar date. |
| HabitCard.WeeklyIsCompletedIsCalendarWeek | frontend/src/components/HabitCard.tsx:82-98 | The card marks a weekly habit done exactly when some completed entry lies in the current calendar week. |
| HabitCard.ServerRefusalShownAsDone | frontend/src/components/HabitCard.tsx:70-99 | Whenever the server would refuse a completion, the card already shows the habit as done. |
| HabitCard.CardAgreesWithServerOnMidnights | frontend/src/components/HabitCard.tsx:70-99 | On weekly histories stamped at midnights, and on all daily histories, the card's check equals the server's. |
| HabitCard.SaturdayEntryDisagrees | frontend/src/components/HabitCard.tsx:87-89 | An entry on Saturday after midnight counts as done for the card but not for the server. |
| HabitCard.CompletionText | frontend/src/components/HabitCard.tsx:102-111 | The text is one of the four labels. It says "Completed …" exactly when the habit is done, and is a daily label exactly when the habit is daily, which fixes all four cases. |
| HabitCard.ButtonDisabled | frontend/src/components/HabitCard.tsx:276 | Definition: disabled while the request is in flight or when the card shows the habit as done. |
| HabitCard.ButtonLabel | frontend/src/components/HabitCard.tsx:281 | Definition: "Marking..." while the request is in flight, otherwise `CompletionText`. |
| HabitCard.EnabledButtonOffersCompletion | frontend/src/components/HabitCard.tsx:274-281 | The button is enabled exactly when it offers to complete the habit ("Mark as Complete" or "Complete for Week"). |
| HabitCard.FireCount | frontend/src/components/HabitCard.tsx:125 | A positive streak shows 1 to 5 fires, and 5 exactly from a streak of 28. |
| HabitCard.FireCountMonotone | frontend/src/components/HabitCard.tsx:125 | A longer streak never shows fewer fires. |
| HabitCard.StreakFires | frontend/src/components/HabitCard.tsx:121-133 | Nothing is shown exactly when the streak is 0. Otherwise the loop yields keys 0 to `FireCount` − 1 in order. |
| FriendsPage.ElapsedDays | frontend/src/app/friends/page.tsx:97-98 | The whole number of days between the two instants, rounded down. |
| FriendsPage.FormatDate | frontend/src/app/friends/page.tsx:94-105 | "Today" exactly under one day apart, "Yesterday" exactly one to two days apart, "n days ago" for n from 2 to 6 whole days, and the locale date exactly from seven days apart. |
| FriendsPage.FormatDateSymmetric | frontend/src/app/friends/page.tsx:97-98 | Because the difference is absolute, a date n ms in the future gets the same label as one n ms in the past. |
| FriendsPage.Decimal | frontend/src/app/friends/page.tsx:102 | The decimal digits of a number. A number below 10 is its single digit. |
| FriendsPage.LabelText | frontend/src/app/friends/page.tsx:100-104 | A text is shown exactly when the label is not the locale date. |
| FriendsPage.DaysAgoText | frontend/src/app/friends/page.tsx:98-102 | Two to seven days apart, the page shows the digit of the elapsed whole days followed by " days ago". |
| FriendsPage.AfterFollow | frontend/src/app/friends/page.tsx:75 | Removes the followed user from the results and keeps every other result with its multiplicity. |
| FriendsPage.AfterFollowKeepsOrder | frontend/src/app/friends/page.tsx:75 | Removing the followed user distributes over concatenation, so the remaining results keep their relative order. |

## Left out

- Persistence is not modelled: `findById`, `save`, `populate`, `find`. A habit or
  user is an object the caller passes in or a map entry. A failed `save` (the
  500 path) and the `try`/`catch` around each handler are not modelled.
- Concurrency is not modelled. Two simultaneous completions could both pass the
  check before either is saved.
- Authentication (`protect`) is not modelled. The caller's id is a parameter.
- The user search (`GET /users/search`, a case-insensitive regex over usernames)
  is not modelled. Only the page's removal of a followed user from the results is.
- Time zones and daylight saving are not modelled. Every day is 86 400 000 ms and
  local time equals UTC. `toLocaleDateString` is an opaque label
  (`FriendsPage.DateLabel.LocaleDate`) carrying the date.
- Mongoose's `timestamps` are not modelled. `updatedAt` is a field of the stored
  habit as given.
- The ordering of ties in `sort({ updatedAt: -1 })` is unspecified in the source.
  The model uses a stable insertion sort.
- Subdocument `_id`s, `createdAt`, the `user` reference's population and the
  feed's `username` projection are left out.
- HabitSchema.Habit.constructor: does not model a stored frequency outside the
  enum or a null frequency, because the schema's cast rejects them.
- HabitSchema.CastHabit: string lengths are counted in characters, not in
  UTF-16 code units as JavaScript counts them.
- UserRoutes.CompletedTodayIsDailyCheck: the source compares date, month and year.
  The model compares day numbers, which is the same thing without time zones.
- HabitRoutes.CompleteHabit: requires a document that satisfies the schema, as
  every stored habit passed validation when it was saved.
- UserRoutes.FollowResult: requires the caller to exist, as `protect` guarantees.
  It does not model the caller's own document being missing.
- FriendsPage.FormatDateSymmetric: holds only within seven days, because the
  locale label carries the date itself.
- HabitCard.StreakFires: renders the icons as their keys. The markup, classes and
  the progress bar's floating-point width are left out.
- The React state, the toasts, the form pages and the layout components are not
  part of this model.
