# SoloFocus.io core, modelled in Dafny

SoloFocus.io is a Pomodoro web application. A Spring service turns a user's
log of focus sessions into statistics, a browser timer runs and records the
sessions, and the dashboard page draws the statistics. This project models three
parts of it and proves properties of each.

- **The statistics service** (`StatisticsService.java`). `UpdateUserStatistics`
  updates a `User` object. It is proved to write
  `Updated(old summary, sessions, today)`. That value is built from three things:
  - the exact sum of completed pomodoro minutes, divided by 60 as a `real`;
  - the latest completed start;
  - `Streak` and the running maximum of the streak.

  `CalculateStreak` keeps the source's three loops: collect the dates, find
  the most recent one, count back. It is proved equal to `Streak`, which is the
  run of consecutive qualifying days ending on the latest one. The four series
  seed a `map` with 0 on every key of their window and then accumulate over the
  fetched sessions in Java `int` arithmetic (`Wrap`). Each is proved to have
  exactly its window's keys. Each value of the three day series is the wrapped
  total of its day. Each yearly value is the wrapped total of its month among
  the fetched sessions; for the eleven most recent months that is the month's
  total over all sessions (`Series.RecentMonthBucket`).
- **The timer** (`timer.js`). `Timer.PomodoroTimer` is a class with the
  fields of the page's `PomodoroTimer`. Each handler method is proved to
  perform one step of the pure state machine `TimerSpec`. The properties are
  lemmas about that machine:
  - the time-entry round trip;
  - the accepted entry shapes and the clamping;
  - pause idempotence;
  - one server session per pomodoro;
  - the countdown that completes on exactly the last tick;
  - the settings fallbacks.

  `TimeEntry` models the text `startEditing` writes, the keystroke formatter,
  and the patterns `finishEditing` reads.
- **The dashboard helpers** (`dashboard.js`). These are the date keys, the
  intensity levels, and the tooltip message (proved injective by a decoder
  that reads it back). They also cover the contribution grid, built by a
  method with the source's two loops and proved equal to a grid function whose
  layout and count are proved, and the key order of the three charts.

Dates are day numbers counted from 1970-01-01. `Calendar.DateOf`
converts them to proleptic Gregorian dates. Timestamps are a day number and a
second of that day. The clocks of the source (`LocalDate.now()`,
`LocalDateTime.now()`, `new Date()`) are parameters: `today` or `now`. The
sessions that the repository returns are a sequence parameter. Its query
`findByUserAndStartTimeAfter` is the filter `Sessions.SessionsSince`, which keeps
start times at or after the bound (`FocusSessionRepository.java:20-21`).
`Dashboard.LastWeekKeys` takes the key formatter as a parameter, and
`PrepareWeekChart` passes it `FormatDateKey`.

Three points of the code's behaviour shape the model:
- The yearly and contribution series fetch from `now` minus 365 days, keeping
  the time of day (`StatisticsService.java:214, 245`).
- The series are `HashMap`s, so the model has `map`s with no order. Only the
  dashboard sorts keys.
- The streak keeps a future-dated latest day, because a negative gap is not
  above 1. `Streaks.StreakAlive` states this as written.

## Model

| member | source | states |
|---|---|---|
| Sessions.Wrap | SoloFocus.io/src/main/java/com/example/SoloFocus/io/service/StatisticsService.java:172 | The Java `int` result of an addition differs from the exact sum by a multiple of 2^32, and equals it when the sum fits. |
| Sessions.WrapAdd | SoloFocus.io/src/main/java/com/example/SoloFocus/io/service/StatisticsService.java:172 | Wrapping after every addition equals wrapping the exact total once. |
| Sessions.Minutes | SoloFocus.io/src/main/java/com/example/SoloFocus/io/service/StatisticsService.java:39-41 | A session adds minutes exactly when it is a pomodoro with a recorded duration above 0. |
| Sessions.TotalMinutes | SoloFocus.io/src/main/java/com/example/SoloFocus/io/service/StatisticsService.java:36-43 | The exact sum of completed minutes. It is additive over concatenation (`UserStatistics.TotalMinutesAppend`), and one session adds its minutes exactly when it qualifies (`UserStatistics.TotalMinutesOfOne`). |
| Sessions.LatestStart | SoloFocus.io/src/main/java/com/example/SoloFocus/io/service/StatisticsService.java:37-47 | The start kept by the `isAfter` loop. `Sessions.LatestStartIsLatest` shows it is absent exactly when nothing qualifies, and otherwise a completed start that no completed start is after. |
| Sessions.SessionsSince | SoloFocus.io/src/main/java/com/example/SoloFocus/io/repository/FocusSessionRepository.java:20-21 | The fetched sessions are exactly those starting at or after the bound. |
| Sessions.Completed | SoloFocus.io/src/main/java/com/example/SoloFocus/io/service/StatisticsService.java:74-78 | The stream filter keeps exactly the completed pomodoros. |
| Sessions.LatestStartIsLatest | SoloFocus.io/src/main/java/com/example/SoloFocus/io/service/StatisticsService.java:36-47 | The last session time is absent exactly when nothing qualifies. Otherwise it is the start of a completed pomodoro, and no completed start is after it. |
| Sessions.DayKeyMinutes | SoloFocus.io/src/main/java/com/example/SoloFocus/io/service/StatisticsService.java:169-172 | Adding by `LocalDate.toString` key collects exactly one day's minutes. |
| Sessions.MonthKeyMinutes | SoloFocus.io/src/main/java/com/example/SoloFocus/io/service/StatisticsService.java:232-235 | In the common era, adding by `yyyy-MM` key collects exactly one month's minutes. |
| Sessions.SinceKeepsDay | SoloFocus.io/src/main/java/com/example/SoloFocus/io/service/StatisticsService.java:151-154 | The fetch from a window's first midnight keeps every session of every day in the window. |
| Sessions.SinceDropsEarlierDays | SoloFocus.io/src/main/java/com/example/SoloFocus/io/repository/FocusSessionRepository.java:20-21 | The fetch keeps no session of a day before the bound's day. |
| Sessions.SinceKeepsMonth | SoloFocus.io/src/main/java/com/example/SoloFocus/io/repository/FocusSessionRepository.java:20-21 | The fetch keeps every session of a month that has no day on or before the bound's day. |
| Streaks.LatestDayIsMax | SoloFocus.io/src/main/java/com/example/SoloFocus/io/service/StatisticsService.java:97-106 | The latest qualifying day is absent exactly when there are no qualifying days. Otherwise it is their maximum. |
| Streaks.LatestStartDay | SoloFocus.io/src/main/java/com/example/SoloFocus/io/service/StatisticsService.java:44-45 | The day of the last session time is the latest qualifying day. |
| Streaks.RunLengthIsRun | SoloFocus.io/src/main/java/com/example/SoloFocus/io/service/StatisticsService.java:116-123 | Counting back covers consecutive days of the set and stops at the first missing day. |
| Streaks.RunLengthBound | SoloFocus.io/src/main/java/com/example/SoloFocus/io/service/StatisticsService.java:116-123 | The run is no longer than the set. |
| Streaks.DaysOfCompleted | SoloFocus.io/src/main/java/com/example/SoloFocus/io/service/StatisticsService.java:87-90 | The dates of the filtered list are the qualifying days. |
| Streaks.LatestDayUnique | SoloFocus.io/src/main/java/com/example/SoloFocus/io/service/StatisticsService.java:97-102 | Any qualifying day that is the maximum is the latest day. |
| Streaks.CollectDates | SoloFocus.io/src/main/java/com/example/SoloFocus/io/service/StatisticsService.java:87-90 | The loop builds the set of the sessions' days. |
| Streaks.MostRecentDate | SoloFocus.io/src/main/java/com/example/SoloFocus/io/service/StatisticsService.java:97-102 | The loop finds nothing exactly for an empty set. Otherwise it finds a member that no member exceeds. |
| Streaks.CountBack | SoloFocus.io/src/main/java/com/example/SoloFocus/io/service/StatisticsService.java:116-125 | The `while` loop counts the run of days ending on the most recent date. |
| Streaks.CalculateStreak | SoloFocus.io/src/main/java/com/example/SoloFocus/io/service/StatisticsService.java:66-126 | The method returns `Streak`: 0 with no qualifying sessions or a latest day more than one day back, otherwise the run ending on the latest day. |
| Streaks.StreakAlive | SoloFocus.io/src/main/java/com/example/SoloFocus/io/service/StatisticsService.java:108-113 | The streak is positive exactly when a completed pomodoro started yesterday or later, future days included. |
| Streaks.Streak | SoloFocus.io/src/main/java/com/example/SoloFocus/io/service/StatisticsService.java:66-126 | The streak `calculateStreak` returns. `Streaks.CalculateStreak` proves the loops compute it; `Streaks.StreakAlive`, `Streaks.StreakIsRun` and `Streaks.StreakBound` give its meaning. |
| Streaks.StreakIsRun | SoloFocus.io/src/main/java/com/example/SoloFocus/io/service/StatisticsService.java:116-125 | A streak of k covers the k days ending on the latest day, and the day before them is not a qualifying day. |
| Streaks.StreakBound | SoloFocus.io/src/main/java/com/example/SoloFocus/io/service/StatisticsService.java:87-90 | The streak is at most the number of distinct qualifying days. |
| Streaks.StreakDependsOnDays | SoloFocus.io/src/main/java/com/example/SoloFocus/io/service/StatisticsService.java:87-125 | Histories with the same qualifying days have the same streak, whatever their order and counts. |
| Streaks.IgnoredSession | SoloFocus.io/src/main/java/com/example/SoloFocus/io/service/StatisticsService.java:74-78 | Adding a session that is not a completed pomodoro leaves the streak unchanged. |
| Streaks.SameDaySession | SoloFocus.io/src/main/java/com/example/SoloFocus/io/service/StatisticsService.java:87-90 | Adding a second pomodoro on a day that already counts leaves the streak unchanged. |
| Streaks.StreakExtends | SoloFocus.io/src/main/java/com/example/SoloFocus/io/service/StatisticsService.java:116-125 | Today's first pomodoro adds one to a streak that reaches yesterday. |
| Streaks.OneSessionToday | SoloFocus.io/src/main/java/com/example/SoloFocus/io/service/StatisticsService.java:108-125 | One pomodoro today gives a streak of 1. |
| Streaks.ThreeDaysInARow | SoloFocus.io/src/main/java/com/example/SoloFocus/io/service/StatisticsService.java:116-125 | Pomodoros on three consecutive days up to today give a streak of 3. |
| Streaks.ThreeDaysAgo | SoloFocus.io/src/main/java/com/example/SoloFocus/io/service/StatisticsService.java:110-113 | A last pomodoro three days ago gives a streak of 0. |
| Streaks.YesterdayStillCounts | SoloFocus.io/src/main/java/com/example/SoloFocus/io/service/StatisticsService.java:110-113 | A pomodoro yesterday alone still gives a streak of 1. |
| Streaks.BreaksDoNotCount | SoloFocus.io/src/main/java/com/example/SoloFocus/io/service/StatisticsService.java:74-82 | A short break gives a streak of 0. |
| Streaks.UnfinishedDoesNotCount | SoloFocus.io/src/main/java/com/example/SoloFocus/io/service/StatisticsService.java:74-82 | A pomodoro with no duration gives a streak of 0. |
| UserStatistics.User.constructor | SoloFocus.io/src/main/java/com/example/SoloFocus/io/model/User.java:37-47 | A new user has 0.0 hours, no last session and 0 for both streaks. |
| UserStatistics.UpdateUserStatistics | SoloFocus.io/src/main/java/com/example/SoloFocus/io/service/StatisticsService.java:30-64 | The record now holds the completed hours (exact minutes / 60), the latest completed start, the streak, and the maximum streak raised to it when higher. |
| UserStatistics.Updated | SoloFocus.io/src/main/java/com/example/SoloFocus/io/service/StatisticsService.java:30-64 | The summary the update writes. `UserStatistics.UpdatedMaxStreak` and `UserStatistics.UpdatedIdempotent` state its maximum streak and that a repeated update changes nothing. |
| UserStatistics.UpdatedMaxStreak | SoloFocus.io/src/main/java/com/example/SoloFocus/io/service/StatisticsService.java:57-61 | After an update the maximum is at least the current streak and at least the old maximum, and it equals one of them. |
| UserStatistics.UpdatedIdempotent | SoloFocus.io/src/main/java/com/example/SoloFocus/io/service/StatisticsService.java:30-64 | A second update from the same sessions on the same day changes nothing. |
| UserStatistics.TotalMinutesAppend | SoloFocus.io/src/main/java/com/example/SoloFocus/io/service/StatisticsService.java:38-48 | The completed minutes of two lists together are the sum of each list's minutes. |
| UserStatistics.TotalMinutesOfOne | SoloFocus.io/src/main/java/com/example/SoloFocus/io/service/StatisticsService.java:39-42 | A single session adds hours exactly when it qualifies. |
| UserStatistics.NewUserDashboard | SoloFocus.io/src/main/java/com/example/SoloFocus/io/service/StatisticsService.java:134-143 | A new user's dashboard shows 0.0 hours, 0 for both streaks and no last session. |
| UserStatistics.DashboardAfterUpdate | SoloFocus.io/src/main/java/com/example/SoloFocus/io/service/StatisticsService.java:134-145 | After an update the dashboard shows the hours, the streak, the larger of the streak and the old maximum, and the latest completed start, on the latest completed day. |
| Series.WindowSize | SoloFocus.io/src/main/java/com/example/SoloFocus/io/service/StatisticsService.java:157-161 | A window of distinct keys has one key per position. |
| Series.DayWindowSize | SoloFocus.io/src/main/java/com/example/SoloFocus/io/service/StatisticsService.java:157-161 | n consecutive days have n distinct keys. |
| Series.MonthWindowSize | SoloFocus.io/src/main/java/com/example/SoloFocus/io/service/StatisticsService.java:218-224 | The twelve months back from today have twelve distinct `yyyy-MM` keys. |
| Series.AddSession | SoloFocus.io/src/main/java/com/example/SoloFocus/io/service/StatisticsService.java:164-175 | One loop step adds a completed pomodoro's minutes, in `int` arithmetic, to its key if that key is seeded. Every other value stays, and no key is added. |
| Series.AddSessionTotals | SoloFocus.io/src/main/java/com/example/SoloFocus/io/service/StatisticsService.java:164-175 | That step keeps every key at the wrapped total of the sessions seen so far. |
| Series.Accumulate | SoloFocus.io/src/main/java/com/example/SoloFocus/io/service/StatisticsService.java:164-175 | The loop keeps the keys and leaves each value at its seed plus the wrapped total of its key. |
| Series.SeedBack | SoloFocus.io/src/main/java/com/example/SoloFocus/io/service/StatisticsService.java:157-161 | The descending seeding loop gives exactly the keys at positions 0 to count − 1, each 0. |
| Series.SeedForward | SoloFocus.io/src/main/java/com/example/SoloFocus/io/service/StatisticsService.java:253-256 | The ascending seeding loop gives exactly the keys at positions 0 to count − 1, each 0. |
| Series.DaysBeforeWindow | SoloFocus.io/src/main/java/com/example/SoloFocus/io/service/StatisticsService.java:158-160 | The keys of `today.minusDays(i)` are the keys of the days from today − (count − 1) to today. |
| Series.DaysAfterWindow | SoloFocus.io/src/main/java/com/example/SoloFocus/io/service/StatisticsService.java:251-255 | The keys of `startDate.plusDays(i)` are the keys of the days from the start to start + count − 1. |
| Series.DaySeries | SoloFocus.io/src/main/java/com/example/SoloFocus/io/service/StatisticsService.java:151-175 | A day series seeded on a window whose fetch starts by its first midnight has one entry per day. Each entry is that day's wrapped total. |
| Series.SeededTotals | SoloFocus.io/src/main/java/com/example/SoloFocus/io/service/StatisticsService.java:218-238 | A seeded series has one entry per window key, with that key's wrapped total. |
| Series.GetWeeklyStatistics | SoloFocus.io/src/main/java/com/example/SoloFocus/io/service/StatisticsService.java:148-178 | Exactly the 7 keys today − 6 to today, each with that day's wrapped completed minutes. |
| Series.GetMonthlyStatistics | SoloFocus.io/src/main/java/com/example/SoloFocus/io/service/StatisticsService.java:180-210 | Exactly the 30 keys today − 29 to today, each with that day's wrapped completed minutes. |
| Series.GetYearlyStatistics | SoloFocus.io/src/main/java/com/example/SoloFocus/io/service/StatisticsService.java:212-241 | Exactly the 12 `yyyy-MM` keys of this month and the 11 before it, each with its month's wrapped minutes among the sessions since now − 365 days. |
| Series.GetContributionData | SoloFocus.io/src/main/java/com/example/SoloFocus/io/service/StatisticsService.java:243-272 | Exactly the 365 keys today − 364 to today, each with that day's wrapped completed minutes. |
| Series.YearlyBucket | SoloFocus.io/src/main/java/com/example/SoloFocus/io/service/StatisticsService.java:232-235 | In the common era, a yearly bucket is the wrapped month total of the fetched sessions. |
| Series.RecentMonthBucket | SoloFocus.io/src/main/java/com/example/SoloFocus/io/service/StatisticsService.java:214-235 | In the common era, each of the eleven most recent yearly buckets holds its month's wrapped total over all sessions, because the fetch keeps every day of those months. |
| Series.BucketExact | SoloFocus.io/src/main/java/com/example/SoloFocus/io/service/StatisticsService.java:172 | A total below 2^31 is shown exactly and is non-negative. |
| Calendar.DateOf | SoloFocus.io/src/main/java/com/example/SoloFocus/io/service/StatisticsService.java:169 | Every day number has a valid calendar date. |
| Calendar.DateOfMonotone | SoloFocus.io/src/main/resources/static/js/dashboard.js:51-54 | Later day numbers have later dates. |
| Calendar.DateOfInjective | SoloFocus.io/src/main/java/com/example/SoloFocus/io/service/StatisticsService.java:169 | Different day numbers have different dates. |
| Calendar.Weekday | SoloFocus.io/src/main/resources/static/js/dashboard.js:41 | `getDay()` is 0 to 6. |
| Calendar.BackToSunday | SoloFocus.io/src/main/resources/static/js/dashboard.js:41-44 | Going back `getDay()` days lands on a Sunday. |
| Calendar.WeekdayPeriodic | SoloFocus.io/src/main/resources/static/js/dashboard.js:53-74 | Seven days later is the same weekday. |
| Calendar.MonthAtIndex | SoloFocus.io/src/main/java/com/example/SoloFocus/io/service/StatisticsService.java:221 | Counting months and converting back returns the same month. |
| Calendar.MonthsBeforeDistinctMonths | SoloFocus.io/src/main/java/com/example/SoloFocus/io/service/StatisticsService.java:220-222 | Of the twelve months back, no two have the same month number. |
| Calendar.YearTextRoundTrip | SoloFocus.io/src/main/java/com/example/SoloFocus/io/service/StatisticsService.java:160 | The year field of `LocalDate.toString` reads back as the year. |
| Calendar.YearText | SoloFocus.io/src/main/java/com/example/SoloFocus/io/service/StatisticsService.java:160 | The year field of `LocalDate.toString`. `Calendar.YearTextRoundTrip` reads it back as the year. |
| Calendar.DayKey | SoloFocus.io/src/main/java/com/example/SoloFocus/io/service/StatisticsService.java:160 | The key `LocalDate.toString` writes. `Calendar.DayKeyInjective` and `Calendar.DayKeyLess` show it is injective and, for years 0 to 9999, ordered like the days. |
| Calendar.IsoYearMonth | SoloFocus.io/src/main/java/com/example/SoloFocus/io/service/StatisticsService.java:222 | The `yyyy-MM` key. `Calendar.IsoYearMonthParts`, `Calendar.IsoYearMonthInjective` and `Calendar.IsoYearMonthLess` give its shape, its injectivity in the common era, and its order. |
| Calendar.IsoDateInjective | SoloFocus.io/src/main/java/com/example/SoloFocus/io/service/StatisticsService.java:160 | Different dates have different ISO texts. |
| Calendar.DayKeyInjective | SoloFocus.io/src/main/java/com/example/SoloFocus/io/service/StatisticsService.java:170 | Different days have different keys. |
| Calendar.IsoDateLess | SoloFocus.io/src/main/resources/static/js/dashboard.js:197 | For years 0 to 9999, ISO dates sort as text in date order. |
| Calendar.DayKeyLess | SoloFocus.io/src/main/resources/static/js/dashboard.js:197 | For years 0 to 9999, day keys sort as text in day order. |
| Calendar.EraYearTextRoundTrip | SoloFocus.io/src/main/java/com/example/SoloFocus/io/service/StatisticsService.java:222 | The `yyyy` year-of-era text reads back as the year. |
| Calendar.IsoYearMonthMonth | SoloFocus.io/src/main/java/com/example/SoloFocus/io/service/StatisticsService.java:222 | Equal `yyyy-MM` texts have equal month numbers. |
| Calendar.IsoYearMonthInjective | SoloFocus.io/src/main/java/com/example/SoloFocus/io/service/StatisticsService.java:233 | In the common era, different months have different `yyyy-MM` texts. |
| Calendar.IsoYearMonthLess | SoloFocus.io/src/main/resources/static/js/dashboard.js:207 | For years 1 to 9999, month keys sort as text in month order. |
| TextOrder.LessTransitive | SoloFocus.io/src/main/resources/static/js/dashboard.js:197 | The string order that `sort()` uses is transitive. |
| TextOrder.LessTotal | SoloFocus.io/src/main/resources/static/js/dashboard.js:197 | Any two different strings are ordered one way or the other. |
| TextOrder.Sort | SoloFocus.io/src/main/resources/static/js/dashboard.js:197 | `sort()` yields a permutation of the keys. |
| TextOrder.SortSorted | SoloFocus.io/src/main/resources/static/js/dashboard.js:197 | Sorted distinct keys are strictly increasing. |
| TextOrder.SortedUnique | SoloFocus.io/src/main/resources/static/js/dashboard.js:207 | Two strictly sorted sequences with the same elements are equal. |
| TextOrder.SortIsTheSortedOrder | SoloFocus.io/src/main/resources/static/js/dashboard.js:197 | Sorting a distinct listing yields the one strictly sorted sequence of its elements. |
| TextOrder.LessFixedWidth | SoloFocus.io/src/main/resources/static/js/dashboard.js:21-22 | Digit strings of equal width sort as their values. |
| Decimal.PaddedValue | SoloFocus.io/src/main/resources/static/js/timer.js:143 | Zero padding reads back as the padded number. |
| Decimal.PaddedLength | SoloFocus.io/src/main/resources/static/js/timer.js:143 | `padStart(2, '0')` of a number below 100 has exactly two characters. |
| Decimal.DigitsLength | SoloFocus.io/src/main/resources/static/js/dashboard.js:20 | A number's digit count is set by its magnitude, from 1 to 4 digits and beyond. |
| JsText.TrimNoSpace | SoloFocus.io/src/main/resources/static/js/timer.js:153 | `trim()` leaves text without white space unchanged. |
| JsText.ParseIntDigits | SoloFocus.io/src/main/resources/static/js/timer.js:172-173 | `parseInt` of a run of digits is its value. |
| JsText.ParseInt | SoloFocus.io/src/main/resources/static/js/timer.js:172-173 | JavaScript `parseInt` with radix 10. `JsText.ParseIntDigits` and `JsText.ParseIntOfText` show it reads a digit run as its value and `String(n)` as n. |
| JsText.Trim | SoloFocus.io/src/main/resources/static/js/timer.js:153 | `String.prototype.trim`. `JsText.TrimStartParts` and `JsText.TrimEndParts` show it drops exactly the leading and trailing white space. |
| JsText.ParseIntOfText | SoloFocus.io/src/main/resources/static/js/timer.js:107 | `parseInt(String(n))` is n. |
| JsText.OrElse | SoloFocus.io/src/main/resources/static/js/timer.js:107 | `x \|\| d` is d or the number, and is 0 only when the default is 0. |
| JsText.Rem | SoloFocus.io/src/main/resources/static/js/timer.js:142 | `%` keeps the sign of the dividend and stays below the divisor in magnitude. |
| JsText.RemMultiple | SoloFocus.io/src/main/resources/static/js/timer.js:142 | The remainder differs from the dividend by a multiple of the divisor. |
| TimeEntry.ParseEntry | SoloFocus.io/src/main/resources/static/js/timer.js:156-169 | Every match has one of the accepted shapes: `m:ss`, `mm:ss`, `mss` or `mmss`. |
| TimeEntry.ParseEntryComplete | SoloFocus.io/src/main/resources/static/js/timer.js:156-169 | Every text of an accepted shape is matched, with its own groups. |
| TimeEntry.ParseEntryRejects | SoloFocus.io/src/main/resources/static/js/timer.js:156-171 | A text of no accepted shape is not matched. |
| TimeEntry.Clamp | SoloFocus.io/src/main/resources/static/js/timer.js:176-179 | The clamped value lies within the bounds and equals the input when the input is already within them. |
| TimeEntry.ClampedSeconds | SoloFocus.io/src/main/resources/static/js/timer.js:176-183 | The time set is 1 to 5999 seconds. In range it is 60·m + s, with 0 replaced by 60. |
| TimeEntry.EntrySeconds | SoloFocus.io/src/main/resources/static/js/timer.js:172-183 | A matched entry sets 1 to 5999 seconds. |
| TimeEntry.EntrySecondsOfDigits | SoloFocus.io/src/main/resources/static/js/timer.js:172-173 | For digit groups, `parseInt(…) \|\| 0` reads their values. |
| TimeEntry.EnteredSeconds | SoloFocus.io/src/main/resources/static/js/timer.js:153-183 | `finishEditing` sets a time exactly when the trimmed text matches, and that time is 1 to 5999 seconds. |
| TimeEntry.TwoDigitClock | SoloFocus.io/src/main/resources/static/js/timer.js:143 | The `mm:ss` text of m < 100 and s < 60 reads back as 60·m + s, or 60 for zero. |
| TimeEntry.EditText | SoloFocus.io/src/main/resources/static/js/timer.js:141-143 | The `mm:ss` text `startEditing` writes. `TimeEntry.EditTextRoundTrip`, `TimeEntry.EditTextZero`, `TimeEntry.EditTextTooLong` and `TimeEntry.EditTextNegative` show what `finishEditing` reads back from it. |
| TimeEntry.EditTextRoundTrip | SoloFocus.io/src/main/resources/static/js/timer.js:141-143 | For 1 to 5999 seconds, the text `startEditing` shows reads back to the same time. |
| TimeEntry.EditTextZero | SoloFocus.io/src/main/resources/static/js/timer.js:183 | Zero seconds is shown as "00:00", which reads back as one minute. |
| TimeEntry.EditTextTooLong | SoloFocus.io/src/main/resources/static/js/timer.js:141-156 | From 6000 seconds on there are three minute digits, and the text is rejected. |
| TimeEntry.LongMinutesRejected | SoloFocus.io/src/main/resources/static/js/timer.js:156-158 | Three or more digits before the colon match no pattern. |
| TimeEntry.EditTextNegative | SoloFocus.io/src/main/resources/static/js/timer.js:141-143 | A negative time is shown with a '-', and the text is rejected. |
| TimeEntry.SignRejected | SoloFocus.io/src/main/resources/static/js/timer.js:156-158 | Text starting with '-' matches no pattern. |
| TimeEntry.OnlyDigits | SoloFocus.io/src/main/resources/static/js/timer.js:77 | `replace(/\D/g, '')` leaves digits only and no more characters than it was given. |
| TimeEntry.FirstFour | SoloFocus.io/src/main/resources/static/js/timer.js:78 | The kept digits are a prefix of at most four characters, all of them when there are at most four. |
| TimeEntry.FormatInput | SoloFocus.io/src/main/resources/static/js/timer.js:77-83 | The formatted field has at most five characters. |
| TimeEntry.Grouped | SoloFocus.io/src/main/resources/static/js/timer.js:80-82 | The colon is added exactly when there are two digits or more. |
| TimeEntry.FormatInputShape | SoloFocus.io/src/main/resources/static/js/timer.js:77-83 | The field keeps exactly the first four digits typed and has ':' at index 2 when it is longer than two. Every other character is a digit. |
| TimeEntry.FormatInputIdempotent | SoloFocus.io/src/main/resources/static/js/timer.js:77-83 | Reformatting the formatted text changes nothing. |
| TimeEntry.FormattedEntry | SoloFocus.io/src/main/resources/static/js/timer.js:77-83 | A typed entry is accepted exactly when four or more digits were typed, and is then read as `mm:ss`. |
| TimeEntry.GroupedDigits | SoloFocus.io/src/main/resources/static/js/timer.js:78-82 | For any digits: accepted after grouping exactly when there are at least four. |
| TimeEntry.GroupedShort | SoloFocus.io/src/main/resources/static/js/timer.js:80-82 | Three digits or fewer, grouped, are rejected. |
| TimeEntry.GroupedFull | SoloFocus.io/src/main/resources/static/js/timer.js:80-82 | Four digits, grouped, read as minutes then seconds. |
| TimerSpec.PresetOf | SoloFocus.io/src/main/resources/static/js/timer.js:220-230 | A mode name selects the preset of that name and no other, or none. |
| TimerSpec.TimerState.WithMinutes | SoloFocus.io/src/main/resources/static/js/timer.js:107-127 | A settings field changes its own preset's minutes only. |
| TimerSpec.StartEditing | SoloFocus.io/src/main/resources/static/js/timer.js:137-148 | `startEditing` keeps the timer invariant. |
| TimerSpec.CancelEditing | SoloFocus.io/src/main/resources/static/js/timer.js:193-197 | `cancelEditing` ends editing and keeps the invariant. |
| TimerSpec.FinishEditing | SoloFocus.io/src/main/resources/static/js/timer.js:150-191 | `finishEditing` always ends editing and keeps the invariant. |
| TimerSpec.Input | SoloFocus.io/src/main/resources/static/js/timer.js:76-84 | The input listener keeps the invariant. |
| TimerSpec.ClickTime | SoloFocus.io/src/main/resources/static/js/timer.js:57-61 | The display's click listener keeps the invariant. |
| TimerSpec.Pause | SoloFocus.io/src/main/resources/static/js/timer.js:280-292 | `pause` leaves the timer stopped and keeps the invariant. |
| TimerSpec.SwitchMode | SoloFocus.io/src/main/resources/static/js/timer.js:199-235 | `switchMode` keeps the invariant. |
| TimerSpec.Reset | SoloFocus.io/src/main/resources/static/js/timer.js:294-322 | `reset` keeps the invariant. |
| TimerSpec.Start | SoloFocus.io/src/main/resources/static/js/timer.js:237-268 | `start` keeps the invariant. |
| TimerSpec.Complete | SoloFocus.io/src/main/resources/static/js/timer.js:324-361 | `complete` keeps the invariant. |
| TimerSpec.Tick | SoloFocus.io/src/main/resources/static/js/timer.js:270-277 | A tick keeps the invariant. |
| TimerSpec.ChangeMinutes | SoloFocus.io/src/main/resources/static/js/timer.js:106-134 | A settings change keeps the invariant, including no preset of 0 minutes. |
| TimerSpec.InitialValid | SoloFocus.io/src/main/resources/static/js/timer.js:4-17 | A new timer satisfies the invariant and shows a 25-minute pomodoro. |
| TimerSpec.FinishEditingAccepts | SoloFocus.io/src/main/resources/static/js/timer.js:153-190 | An accepted entry sets the time, the total and the initial seconds to its reading, which is 1 to 5999 seconds, and ends editing. |
| TimerSpec.FinishEditingRejects | SoloFocus.io/src/main/resources/static/js/timer.js:153-190 | Any other entry only ends editing, and the times stay as they were. |
| TimerSpec.EditRoundTrip | SoloFocus.io/src/main/resources/static/js/timer.js:137-190 | Editing a stopped timer of 1 to 5999 seconds and confirming keeps the time, and makes it the total and the initial seconds. |
| TimerSpec.EditOutOfRange | SoloFocus.io/src/main/resources/static/js/timer.js:141-171 | For 6000 seconds or more, or below 0, the shown text is rejected, and the times stay as they were. |
| TimerSpec.EditZero | SoloFocus.io/src/main/resources/static/js/timer.js:141-186 | A zero time is shown as "00:00" and comes back as 60 seconds. |
| TimerSpec.PauseIdempotent | SoloFocus.io/src/main/resources/static/js/timer.js:280-283 | `pause` stops the timer, does nothing to a stopped one, and a second call changes nothing. |
| TimerSpec.StartRuns | SoloFocus.io/src/main/resources/static/js/timer.js:237-244 | `start` does nothing to a running timer. Otherwise the timer ends up running and not editing, in the same mode, with the same settings. |
| TimerSpec.FinishEditingKeeps | SoloFocus.io/src/main/resources/static/js/timer.js:150-191 | `finishEditing` changes only the three time fields and the editing flag. |
| TimerSpec.StartOncePerSession | SoloFocus.io/src/main/resources/static/js/timer.js:250-264 | A pomodoro without a session asks for one once. After a truthy id comes back, pausing and starting again sends nothing. |
| TimerSpec.ResetStartsNewSession | SoloFocus.io/src/main/resources/static/js/timer.js:294-315 | After `reset`, the next pomodoro start asks the server for a new session. |
| TimerSpec.SwitchModeResult | SoloFocus.io/src/main/resources/static/js/timer.js:199-234 | The result is stopped, not editing, in the new mode, with its preset's minutes × 60 seconds (the old time for an unknown mode) as time, total and initial seconds. The session and settings are kept. |
| TimerSpec.ResetResult | SoloFocus.io/src/main/resources/static/js/timer.js:294-315 | The result is stopped, not editing, with no session, and with the current mode's length as time, total and initial seconds. |
| TimerSpec.TickDecrements | SoloFocus.io/src/main/resources/static/js/timer.js:271-274 | With more than one second left, a tick only takes off one second. |
| TimerSpec.TickCompletes | SoloFocus.io/src/main/resources/static/js/timer.js:270-277 | The tick that reaches 0 stops and resets the timer. A pomodoro with a session sends its end with the initial seconds / 60. |
| TimerSpec.RunCountsDown | SoloFocus.io/src/main/resources/static/js/timer.js:270-277 | Fewer ticks than seconds left count down one second each. |
| TimerSpec.RunCompletes | SoloFocus.io/src/main/resources/static/js/timer.js:270-277 | A running timer with t seconds left completes on exactly the t-th tick and is stopped afterwards. |
| TimerSpec.ChangeMinutesResult | SoloFocus.io/src/main/resources/static/js/timer.js:106-134 | The preset gets the typed number, or its default of 25/5/15 for no number or 0. The other presets are kept. The time fields follow only for the current, stopped mode. |
| TimerSpec.ChangeMinutesOfText | SoloFocus.io/src/main/resources/static/js/timer.js:107 | Typing a nonzero number sets exactly that many minutes. |
| Timer.PomodoroTimer.constructor | SoloFocus.io/src/main/resources/static/js/timer.js:4-17 | The fields of a new timer are the initial state, which satisfies the invariant. |
| Timer.PomodoroTimer.StartEditing | SoloFocus.io/src/main/resources/static/js/timer.js:137-148 | The fields change as `TimerSpec.StartEditing` says. |
| Timer.PomodoroTimer.FinishEditing | SoloFocus.io/src/main/resources/static/js/timer.js:150-191 | The fields change as `TimerSpec.FinishEditing` says. |
| Timer.PomodoroTimer.SetTime | SoloFocus.io/src/main/resources/static/js/timer.js:176-186 | The clamped time becomes the time left, the total and the initial seconds. Nothing else changes. |
| Timer.PomodoroTimer.CancelEditing | SoloFocus.io/src/main/resources/static/js/timer.js:193-197 | The fields change as `TimerSpec.CancelEditing` says. |
| Timer.PomodoroTimer.Input | SoloFocus.io/src/main/resources/static/js/timer.js:76-84 | The edit field holds the formatted keystrokes. |
| Timer.PomodoroTimer.ClickTime | SoloFocus.io/src/main/resources/static/js/timer.js:57-61 | The fields change as `TimerSpec.ClickTime` says. |
| Timer.PomodoroTimer.LoadMode | SoloFocus.io/src/main/resources/static/js/timer.js:220-233 | The `switch` on the mode and the two assignments after it set the time as `TimerSpec.Load` says. |
| Timer.PomodoroTimer.SwitchMode | SoloFocus.io/src/main/resources/static/js/timer.js:199-235 | The fields change as `TimerSpec.SwitchMode` says. |
| Timer.PomodoroTimer.Pause | SoloFocus.io/src/main/resources/static/js/timer.js:280-292 | The fields change as `TimerSpec.Pause` says. |
| Timer.PomodoroTimer.Reset | SoloFocus.io/src/main/resources/static/js/timer.js:294-322 | The fields change as `TimerSpec.Reset` says. |
| Timer.PomodoroTimer.Start | SoloFocus.io/src/main/resources/static/js/timer.js:237-268 | The fields and the requests sent change as `TimerSpec.Start` says for the server's reply. |
| Timer.PomodoroTimer.Complete | SoloFocus.io/src/main/resources/static/js/timer.js:324-361 | The fields and the requests sent change as `TimerSpec.Complete` says. |
| Timer.PomodoroTimer.Tick | SoloFocus.io/src/main/resources/static/js/timer.js:270-277 | The fields change as `TimerSpec.Tick` says. |
| Timer.PomodoroTimer.ChangeMinutes | SoloFocus.io/src/main/resources/static/js/timer.js:106-134 | The fields change as `TimerSpec.ChangeMinutes` says. |
| Dashboard.FormatDateKeyParts | SoloFocus.io/src/main/resources/static/js/dashboard.js:19-24 | The key is `String(year)`, '-', the month as two digits, '-', and the day as two digits. |
| Dashboard.FormatDateKey | SoloFocus.io/src/main/resources/static/js/dashboard.js:19-24 | The browser's date key. `Dashboard.FormatDateKeyParts` gives its parts, and `Dashboard.FormatDateKeyIsDayKey` shows it equals the server's key exactly for four-digit years. |
| Dashboard.FormatDateKeyIsDayKey | SoloFocus.io/src/main/resources/static/js/dashboard.js:19-24 | For four-digit years, the browser's key is the server's key. |
| Dashboard.Level | SoloFocus.io/src/main/resources/static/js/dashboard.js:61-65 | The level is 0 to 4. |
| Dashboard.LevelBands | SoloFocus.io/src/main/resources/static/js/dashboard.js:61-65 | The levels are 0 for none, 1 for 1–29, 2 for 30–59, 3 for 60–119 and 4 for 120 or more, each band in both directions. |
| Dashboard.LevelMonotone | SoloFocus.io/src/main/resources/static/js/dashboard.js:61-65 | More minutes never give a lower level. |
| Dashboard.MinutesAt | SoloFocus.io/src/main/resources/static/js/dashboard.js:58 | `data[key] \|\| 0` is the stored value, or 0 for a missing key. |
| Dashboard.TooltipRoundTrip | SoloFocus.io/src/main/resources/static/js/dashboard.js:140-149 | Every message reads back as its minutes: "No focus time", "N minute(s)", "Hh Mm" or "H hour(s)". Different minutes therefore give different messages. |
| Dashboard.TooltipMessage | SoloFocus.io/src/main/resources/static/js/dashboard.js:140-149 | The tooltip message. `Dashboard.TooltipRoundTrip` decodes it back to its minutes, and `Dashboard.TooltipSingular` places the plural 's'. |
| Dashboard.TooltipSingular | SoloFocus.io/src/main/resources/static/js/dashboard.js:143-147 | A minutes or hours message ends in 's' exactly when its count is not 1; the `Hh Mm` form ends in 'm'. |
| Dashboard.CountDays | SoloFocus.io/src/main/resources/static/js/dashboard.js:59 | The count of active days does not exceed the number of days. |
| Dashboard.GridStartSunday | SoloFocus.io/src/main/resources/static/js/dashboard.js:34-44 | The grid starts on a Sunday, shows 365 to 371 days, and has 53 weeks. |
| Dashboard.GridStart | SoloFocus.io/src/main/resources/static/js/dashboard.js:34-44 | The first day of the grid. `Dashboard.GridStartSunday` shows it is a Sunday, 364 to 370 days before today. |
| Dashboard.GenerateContributionGraph | SoloFocus.io/src/main/resources/static/js/dashboard.js:26-80 | The loops build exactly `Grid`, and the count is the number of days shown with minutes. |
| Dashboard.Grid | SoloFocus.io/src/main/resources/static/js/dashboard.js:46-77 | The grid of weeks. `Dashboard.GridWeeks`, `Dashboard.GridSquareDay`, `Dashboard.GridShowsDay` and `Dashboard.GridOrdered` give its layout. |
| Dashboard.FillWeek | SoloFocus.io/src/main/resources/static/js/dashboard.js:52-75 | The inner loop builds week w of the grid and adds that week's active squares to the count. |
| Dashboard.GridCountIsActiveDays | SoloFocus.io/src/main/resources/static/js/dashboard.js:51-77 | The squares counted are exactly the days shown with minutes. |
| Dashboard.GridWeeksShow | SoloFocus.io/src/main/resources/static/js/dashboard.js:51-77 | Each of the 53 weeks has seven squares from its Sunday, filled up to today with each day's minutes. |
| Dashboard.GridAt | SoloFocus.io/src/main/resources/static/js/dashboard.js:51-77 | Square i of week w is the square of the start + 7·w + i. |
| Dashboard.GridWeeks | SoloFocus.io/src/main/resources/static/js/dashboard.js:53-56 | Every week has 7 squares. A blank square is only in the last week, followed by blanks only. |
| Dashboard.GridSquareDay | SoloFocus.io/src/main/resources/static/js/dashboard.js:57-72 | A filled square shows a day from the start to today, on the weekday of its column, with that day's key, minutes and level. |
| Dashboard.GridShowsDay | SoloFocus.io/src/main/resources/static/js/dashboard.js:51-77 | Every day from the start to today has its square, at its own week and column. |
| Dashboard.GridOrdered | SoloFocus.io/src/main/resources/static/js/dashboard.js:51-77 | Later squares show later days. |
| Dashboard.CountDaysIsSetSize | SoloFocus.io/src/main/resources/static/js/dashboard.js:59 | The count is the size of the set of active days. |
| Dashboard.ActiveDaysIsCount | SoloFocus.io/src/main/resources/static/js/dashboard.js:58-59 | `totalContributions` is the number of shown days with minutes, so it is at most the number of days. |
| Dashboard.GridShowsContributions | SoloFocus.io/src/main/resources/static/js/dashboard.js:57-58 | Against the server's contribution map, in four-digit years, each square shows its day's wrapped minutes. The extra days before the server's 365 show 0. |
| Dashboard.ChartMinutes | SoloFocus.io/src/main/resources/static/js/dashboard.js:192 | One value per key: its stored minutes, or 0 for a missing key. |
| Dashboard.PrepareWeekChart | SoloFocus.io/src/main/resources/static/js/dashboard.js:180-194 | The week chart has the keys of today − 6 to today, oldest first, each with its minutes. |
| Dashboard.LastWeekKeys | SoloFocus.io/src/main/resources/static/js/dashboard.js:185-190 | The loop makes the keys of today − 6 to today in that order. |
| Dashboard.PrepareSortedChart | SoloFocus.io/src/main/resources/static/js/dashboard.js:196-215 | The month and year charts have the sorted keys, each with its minutes. |
| Dashboard.WeekChartKeys | SoloFocus.io/src/main/resources/static/js/dashboard.js:185-192 | For four-digit years, the week chart's keys are the server's weekly keys, strictly ascending. |
| Dashboard.SortWindow | SoloFocus.io/src/main/resources/static/js/dashboard.js:197 | Sorting a listing of a window of ascending keys gives them in window order. |
| Dashboard.DayKeysAscending | SoloFocus.io/src/main/resources/static/js/dashboard.js:197 | For years 0 to 9999, later days have greater keys. |
| Dashboard.DayKeysSortChronologically | SoloFocus.io/src/main/resources/static/js/dashboard.js:197 | Sorting the monthly series' keys puts the days in order, oldest first. |
| Dashboard.SortWindowDown | SoloFocus.io/src/main/resources/static/js/dashboard.js:207 | Sorting a listing of a window of descending keys gives them in reverse window order. |
| Dashboard.MonthKeysDescending | SoloFocus.io/src/main/resources/static/js/dashboard.js:207 | For years 1 to 9999, of the twelve months back, the one further back has the smaller key. |
| Dashboard.MonthKeysSortChronologically | SoloFocus.io/src/main/resources/static/js/dashboard.js:207 | Sorting the yearly series' keys puts the months in order, oldest first. |

## Left out

- HTTP controllers, `UserService`, `FocusSessionService`, the database and `userService.save` are not part of this model. The repository's queries are filters over a sequence parameter. The other columns of `User`, such as the name, e-mail, password and creation time, are not modelled.
- The order of `findByUserOrderByStartTimeDesc` is not assumed. Every property holds for the sessions in any order, and `LatestStart` takes the first of equal starts in the order given.
- Clocks are parameters. Each call reads one `now`, and `today` is its day. The Java code reads the clock twice, so a call straddling midnight is not modelled. Time zones and precision finer than a second are also left out.
- A null `sessionType` is not modelled. `updateUserStatistics` and `calculateStreak` would throw on one, while the series skip it.
- UserStatistics.UpdateUserStatistics: `totalFocusHours` is the exact `real` minutes / 60, not the rounded `double` the Java code stores. The minutes are summed exactly, as the `double` accumulator does while the total stays below 2^53.
- Series.GetYearlyStatistics: each bucket is stated as the month's total among the sessions fetched since `now` − 365 days. For the eleven most recent months that is the month's total over all sessions (`Series.RecentMonthBucket`), in the common era only, because `yyyy-MM` writes year-of-era years. The oldest bucket is not related to all sessions. On the last day of a month whose past year holds a 29 February, that month begins exactly 365 days back. Its first-day sessions that started before the time of day of `now` are then in no bucket.
- `HashMap` iteration order. The concurrent read-modify-write race on the user record.
- Timer.PomodoroTimer.Start: the reply of `/timer/start` is a parameter, and the request and reply are one step. In the source, `pause` can run while the request is awaited. The interval is still created afterwards, so ticks would run on a stopped timer. That interleaving is not modelled, and `Tick` requires a running timer.
- Timer.PomodoroTimer.Complete: the duration sent is the exact `real` initial seconds / 60, not a JavaScript `double`. The reply to `/timer/end`, the page reload and `playNotification` are left out. The `currentSessionId = null` after an ok reply is covered by the `reset` that follows. `reset` runs only after `/timer/end` is answered, while the model runs it at once. Handlers that run meanwhile are not modelled: a restart skips `/timer/start` because the session id is still set, and its tick can post a second `/timer/end` for the same session, or the late `reset` stops and rewinds the restarted timer.
- The interval handle is `isRunning`: it is set exactly while the timer runs.
- DOM reads and writes are not modelled: `updateDisplay`, the progress circle and its floating point, `showStatus`, the buttons, and the settings panel's visibility. The keydown listener only chooses between `FinishEditing` (Enter and blur) and `CancelEditing` (Escape), both modelled.
- JsText.ParseInt: `parseInt` is exact on unbounded integers. Precision beyond 2^53 and the `NaN`/`Infinity` cases of very long inputs are not modelled.
- JsText.Rem: its contract gives only the sign and bound of the remainder. That it differs from the dividend by a multiple of the divisor is `JsText.RemMultiple`.
- Dashboard.FormatDateKeyIsDayKey: the browser's `String(year)` key and the server's `LocalDate.toString` key are shown equal only for four-digit years. Before year 1000 the browser key has no padding and finds no server entry.
- Dashboard.GridShowsContributions: stated for four-digit years, for the same reason.
- Dashboard.DayKeysSortChronologically: stated for years 0 to 9999. Dashboard.MonthKeysSortChronologically: stated for years 1 to 9999. Outside those ranges the keys carry a sign or a fifth digit, and text order differs from time order.
- The dashboard's HTML strings, month labels, tooltip placement, `toLocaleString` and `toLocaleDateString` labels, Chart.js setup and the y-axis scaling of `updateChart` are left out. So are the `|| {}` fallbacks and `Object.assign` copies of the page's data.
- `Math.round` is the identity on the integer minutes the server sends, so `ChartMinutes` does not model rounding of fractions. The tooltip's `parseInt(dataset.minutes) || 0` is taken as the integer minutes of the square.
- `Object.keys` order is an input listing of the keys, without duplicates, to `Sort`. `Sort` is an insertion sort on character order. On the ASCII date keys sorted here that is the UTF-16 code-unit order `Array.prototype.sort` uses without a comparator. On text with characters outside the Basic Multilingual Plane the two orders differ, and the model does not state the code-unit order.
