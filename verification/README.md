# Habit tracker core, modelled in Dafny

This project models the logic of a habit-tracking web client. The client keeps
a list of habits. Each habit has a frequency (daily, weekly or custom with
selected weekdays) and a history that maps calendar dates to "done". Three
parts of the client are modelled:

- **The statistics engine.** This covers:
  - today's progress over all habits;
  - the Monday-start weekly strip and its overall percentage;
  - the current streak: a backward walk from today, with one day of grace for yesterday;
  - the best streak: a scan of the sorted completed dates;
  - the completion rate since creation;
  - the streak label;
  - the day list of one calendar month.
- **The local habit store.** A class holds the habit list in a field. Its methods:
  - create, look up, update and delete habits;
  - flip one date's completion;
  - report the best streak over all habits.
- **The contribution matrix.** For each date it:
  - decides which habits count (eligibility);
  - computes the completion percentage;
  - maps it to a colour bucket and a tooltip label;
  - lays out Monday-start weeks from the first day of the month three months back to the last day of the current month.

Dates are integer day numbers, with day 0 = 1970-01-01, a Thursday. The weekday
is `(d + 4) % 7`, with Sunday 0 and Monday 1, as date-fns `getDay` numbers it.
Consecutive days have consecutive numbers, so sorting `YYYY-MM-DD` keys is
numeric order. Civil dates (year, month 1..12, day) map to day numbers through
the proleptic Gregorian calendar. `Math.round(a / b)` for `a >= 0, b > 0` is the
integer `r` with `2rb <= 2a + b < 2rb + 2b`, and `Math.ceil(n / d)` is the least
`r` with `n <= r * d`.

The streaks are specified independently of the loops that compute them:
- `IsRun(h, s, k)`: the days `s .. s+k-1` are all done.
- `MaximalRunEndingAt(h, e, n)`: a run of `n` ends at `e` and the day before it is not done.
- `IsCurrentStreak`: the run ending today, else the run ending yesterday, else 0.
- `IsLongestRun`: some run has that length and no run is longer.

Each method is proved to return the value its specification describes.

As written, `createHabit` does not copy the form's `selectedDays`, and
`updateHabit` keeps the stored value. The model does the same. A custom habit
created through the store therefore has no selected days, and the matrix never
counts it. The two weekly rules are also kept as written:
- a weekly habit counts every day for today's and the week's progress;
- it counts only on Mondays in the matrix.

## Model

| member | source | states |
|---|---|---|
| Utils.ShouldCompleteToday | client/src/lib/utils.ts:151-165 | every frequency (daily, weekly, custom) is due today |
| Utils.ShouldCompleteThatDay | client/src/lib/utils.ts:167-170 | every habit is due on every day |
| Utils.CountDoneOn | client/src/lib/utils.ts:25 | the number of habits done on a date is at most the number of habits; it is 0 iff none is done and equals the number of habits iff all are done |
| Utils.CountDoneOnToggle | client/src/lib/utils.ts:25 | flipping one habit's entry for a date moves that date's done count by exactly one (up if the habit was not done, down if it was) and leaves every other date's count unchanged |
| Utils.CalculateDailyProgress | client/src/lib/utils.ts:22-30 | total counts every habit; completed is the number done today and at most total; the percentage is 0 for no habits, otherwise the rounded 100·completed/total, and never above 100 |
| Utils.DueThatDay | client/src/lib/utils.ts:39 | the habits due on a day are all the habits, since every habit is daily or due that day |
| Utils.DayCompletion | client/src/lib/utils.ts:39-54 | a day's completion is 0 with no habits and otherwise the rounded percentage 100·(habits done that day)/(number of habits); it is in 0..100 and is 100 when every habit is done |
| Utils.WeekDayEntry | client/src/lib/utils.ts:36-62 | an entry carries its date and short weekday name; it is future iff its date is after today; a future entry has completion -1, and any other has its day's completion, in 0..100 |
| Utils.WeekPercentage | client/src/lib/utils.ts:64-67 | the overall percentage is 0 with no non-future entry, and otherwise the integer nearest the mean of the non-future completions, halves rounded up |
| Utils.PastCount | client/src/lib/utils.ts:65 | the number of non-future entries is at most the number of entries |
| Utils.FutureEntriesIgnored | client/src/lib/utils.ts:64-67 | two strips that agree on which days are future and on the completions of the non-future days have the same sum, count and overall percentage, so future entries never contribute |
| Utils.PastSumBound | client/src/lib/utils.ts:66-67 | when every completion is at most 100, the summed non-future completions are at most 100 per non-future day |
| Utils.PastCountOfStrip | client/src/lib/utils.ts:36-65 | in a strip of consecutive dates starting on or before today, the non-future entries are exactly those up to today |
| Utils.WeekStrip | client/src/lib/utils.ts:36-62 | the week strip has seven entries, the i-th being the entry for the Monday plus i days, whose completion, when not future, is that day's completion |
| Utils.CalculateWeeklyProgress | client/src/lib/utils.ts:32-70 | exactly 7 entries for consecutive dates from the Monday of today's week; future iff after today, with completion -1; every other day holds its day completion (the rounded percentage of habits done that day), in 0..100; the number of non-future days is today minus Monday plus one; the overall percentage is the rounded mean of the non-future completions and at most 100 |
| Utils.TrueDays | client/src/lib/utils.ts:141 | the dates marked true are history keys; they are the set whose size is the rate's numerator |
| Utils.MaximalRunUnique | client/src/lib/utils.ts:84-105 | at most one length is the maximal run of done days ending on a given date |
| Utils.CountBack | client/src/lib/utils.ts:88-93 | walking back from a done date counts the maximal run ending there, at least 1; a false or missing entry ends the walk |
| Utils.CurrentStreak | client/src/lib/utils.ts:79-105 | the current streak is the run ending today if today is done, else the run ending yesterday if yesterday is done, else 0; it is at least 1 iff today or yesterday is done |
| Utils.SortedCompletedDays | client/src/lib/utils.ts:73-77 | the completed dates in strictly increasing order: a date is listed iff it is done, and there are as many as there are true entries |
| Utils.RunEndingAt | client/src/lib/utils.ts:112-127 | the scan's counter at position p is between 1 and p+1 |
| Utils.LongestRun | client/src/lib/utils.ts:107-131 | the scan returns 0 for no dates, and otherwise the largest value its counter reaches, reached at some position |
| Utils.ScanRunIsRun | client/src/lib/utils.ts:115-127 | whenever the scan's counter reads n at a date, the n days ending at that date are all done |
| Utils.RunIsSeenByScan | client/src/lib/utils.ts:115-127 | every run of k done days ends at a listed date where the scan's counter is at least k |
| Utils.BestStreak | client/src/lib/utils.ts:73-131 | the best streak is the length of the longest run of consecutive done days; it is at most the number of true entries and 0 iff there are none |
| Utils.DaysSinceCreation | client/src/lib/utils.ts:134-139 | the denominator is at least 1 and is the ceiling of the elapsed milliseconds over a day's 86 400 000, floored at 1 |
| Utils.CalculateHabitStats | client/src/lib/utils.ts:72-149 | the current streak meets the current-streak specification; the best streak is the longest run; current ≤ best ≤ number of true entries; best is 0 iff there is no true entry; the rate is the rounded 100·trueCount/days-since-creation and is not clamped; an empty history gives all zeros |
| Utils.GetStreakText | client/src/lib/utils.ts:172-176 | "No streak" iff the streak is 0; otherwise the decimal number followed by " day streak" |
| Utils.StreakTextInjective | client/src/lib/utils.ts:172-176 | different streaks get different labels |
| Utils.GenerateCalendarDays | client/src/lib/utils.ts:178-209 | one entry per day of the month, with day numbers 1..daysInMonth in order and the matching dates; isCompleted is the stored flag or none when the key is absent; isToday holds exactly for today's date, for at most one entry, and some entry has it iff today lies in that month |
| Numbers.Round | client/src/lib/utils.ts:27 | the rounded quotient is the integer nearest n/d, with halves rounded up |
| Numbers.RoundAtMost | client/src/lib/utils.ts:67 | rounding a mean keeps any bound the exact mean keeps |
| Numbers.CeilDiv | client/src/lib/utils.ts:136-138 | the ceiling is the least integer r with n ≤ r·d |
| Numbers.Percent | client/src/lib/utils.ts:142 | the percentage is the rounded 100·c/t; it is at most 100 when c ≤ t, and 0 iff c is below half a percent of t |
| Numbers.PercentFullIffAll | client/src/lib/utils.ts:27 | with fewer than 200 items, the percentage is 100 iff all are counted |
| Numbers.PercentOfAll | client/src/lib/utils.ts:54 | all of t is 100 percent |
| Numbers.PercentRoundsUpNearlyAll | client/src/lib/utils.ts:27 | 199 of 200 already rounds to 100 |
| Numbers.NatToString | client/src/lib/utils.ts:175 | the text of a number is non-empty decimal digits without a leading zero |
| Numbers.ParseNatToString | client/src/lib/utils.ts:175 | reading the text of n back gives n |
| Numbers.NatToStringInjective | client/src/lib/utils.ts:175 | different numbers have different texts |
| Calendar.GetDay | client/src/components/ContributionMatrix.tsx:63 | the weekday number is in 0..6 |
| Calendar.GetDayStep | client/src/components/ContributionMatrix.tsx:63 | weekdays repeat every 7 days and advance by one each day |
| Calendar.ShortName | client/src/lib/utils.ts:45 | the short weekday name has three letters |
| Calendar.DayTag | client/src/components/ContributionMatrix.tsx:71-72 | the tag is the lower-cased short weekday name, and it is 'mon' iff the weekday number is 1 |
| Calendar.StartOfWeek | client/src/lib/utils.ts:34 | the start of the week is a Monday, on or before the date and less than 7 days before it |
| Calendar.DaysInMonth | client/src/lib/utils.ts:192 | a month has 28..31 days, and 29 iff it is February of a leap year |
| Calendar.YearLength | client/src/lib/utils.ts:192 | a year has 366 days if it is a leap year and 365 otherwise |
| Calendar.MonthIndex | client/src/components/ContributionMatrix.tsx:36 | the running month index gives back the same year and month |
| Calendar.EndOfMonth | client/src/components/ContributionMatrix.tsx:38 | the last day of a month is its first day plus its length minus one |
| Calendar.NextMonthStart | client/src/components/ContributionMatrix.tsx:36-38 | each month begins the day after the previous month ends |
| Calendar.DateInMonth | client/src/lib/utils.ts:195-196 | a valid date lies between the first and last day of its month |
| Calendar.KnownDates | client/src/lib/utils.ts:196 | 1970-01-01 is day 0, a Thursday; 2024-01-02 is day 19724, a Tuesday |
| Seqs.Filter | client/src/lib/habitStore.ts:84 | the result is no longer than the input and holds only kept elements |
| Seqs.FilterMembers | client/src/lib/habitStore.ts:84 | every element of the result is in the input, and every kept element of the input is in the result |
| Seqs.FilterConcat | client/src/lib/habitStore.ts:84 | filtering keeps the relative order of the kept elements |
| Seqs.FilterKeepsAll | client/src/lib/habitStore.ts:86 | the length is unchanged iff every element is kept, and then the result is the input |
| Seqs.KeptPositions | client/src/lib/habitStore.ts:117 | the positions from i on whose elements are kept, in strictly increasing order |
| Seqs.KeptPositionsSelect | client/src/lib/habitStore.ts:117 | filtering the input from position i picks exactly the elements at the kept positions, one for one |
| Seqs.KeptPositionsExact | client/src/lib/habitStore.ts:117 | a position from i on is among the kept positions iff its element is kept |
| Seqs.FilterIsKeptPositions | client/src/lib/habitStore.ts:117 | the filtered list is the input's kept elements in their original order: its k-th element is the input's element at the k-th kept position, positions strictly increase, and a position is used iff its element is kept |
| Seqs.FilterEmpty | client/src/components/ContributionMatrix.tsx:21-23 | the result is empty iff no element is kept |
| HabitStore.FindIndex | client/src/lib/habitStore.ts:60 | the index found holds the id and no earlier position does; none iff no habit has the id |
| HabitStore.NewHabit | client/src/lib/habitStore.ts:31-42 | the new record has the given id and creation time and an empty history; title, frequency, frequencyCount, frequencyPeriod, reminderEnabled and reminderTime are the form's; the description is the form's, or "" when it has none; there are no selected days |
| HabitStore.UpdatedHabit | client/src/lib/habitStore.ts:64-73 | the updated record keeps id, creation time, history and selected days; title, frequency, frequencyCount, frequencyPeriod, reminderEnabled and reminderTime are the form's; the description is the form's, or "" when it has none |
| HabitStore.Toggled | client/src/lib/habitStore.ts:104 | toggling sets the date to the negation of its done value and adds the key if it was missing; every other date is unchanged |
| HabitStore.ToggleTwice | client/src/lib/habitStore.ts:104 | toggling twice restores an entry that was true; an absent or false entry ends up present and false |
| HabitStore.Store.constructor | client/src/lib/habitStore.ts:8-18 | a store with nothing saved holds no habits |
| HabitStore.Store.CreateHabit | client/src/lib/habitStore.ts:30-49 | exactly the new record is appended at the end and earlier habits are unchanged |
| HabitStore.Store.GetHabit | client/src/lib/habitStore.ts:52-55 | the first habit with the id, or none iff no habit has it |
| HabitStore.Store.UpdateHabit | client/src/lib/habitStore.ts:58-79 | an unknown id returns none and changes nothing; otherwise only the first match is replaced, by its updated record, which is returned |
| HabitStore.Store.DeleteHabit | client/src/lib/habitStore.ts:82-92 | returns false iff no habit has the id, and then nothing changes; otherwise every habit with the id is removed and the rest stay in order |
| HabitStore.Store.ToggleHabitCompletion | client/src/lib/habitStore.ts:95-110 | an unknown id returns false and changes nothing; otherwise only that date of the first matching habit is flipped, no other habit changes, and the new value is returned |
| HabitStore.Store.GetTodayHabits | client/src/lib/habitStore.ts:113-118 | the stored list filtered to its daily habits, so exactly the daily habits in stored order (by Seqs.FilterIsKeptPositions); all habits iff every habit is daily |
| HabitStore.Store.GetBestStreak | client/src/lib/habitStore.ts:121-157 | the longest run of done days over all habits: no habit has a longer run, some habit has a run of that length unless it is 0, and it is 0 iff no habit has a true entry |
| ContributionMatrix.FilteredHabits | client/src/components/ContributionMatrix.tsx:21-23 | the list filtered to the selected frequency, so exactly those habits in stored order and multiplicity (by Seqs.FilterIsKeptPositions); empty iff none has it |
| ContributionMatrix.CreatedCustomNeverEligible | client/src/lib/habitStore.ts:31-42 | a custom habit built by createHabit, which has no selected days, counts on no date |
| ContributionMatrix.EligibleCount | client/src/components/ContributionMatrix.tsx:54-79 | the eligible count is at most the number of habits and 0 iff no habit counts on the date |
| ContributionMatrix.CompletedCount | client/src/components/ContributionMatrix.tsx:50-79 | the completed count is at most the eligible count; it equals it iff every eligible habit is done, and is 0 iff none is; a false or missing entry is not done |
| ContributionMatrix.Status | client/src/components/ContributionMatrix.tsx:82-83 | the status is 0 when no habit counts, otherwise the rounded percentage of eligible habits done, and at most 100 |
| ContributionMatrix.CountsStep | client/src/components/ContributionMatrix.tsx:54-79 | one more habit adds one to the eligible count iff it counts on the date, and one to the completed count iff it also is done |
| ContributionMatrix.GetCompletionStatus | client/src/components/ContributionMatrix.tsx:47-84 | the counting loop returns that status |
| ContributionMatrix.StatusExtremes | client/src/components/ContributionMatrix.tsx:82-83 | with 1..199 eligible habits, the status is 100 iff all are done and 0 iff none is |
| ContributionMatrix.WeeklyOnlyOnMondays | client/src/components/ContributionMatrix.tsx:62-68 | weekly habits count on Mondays only: all of them on a Monday, none (status 0) on any other day |
| ContributionMatrix.ColorLevel | client/src/components/ContributionMatrix.tsx:128-136 | bucket 0 iff the status is at most 0, bucket 5 iff it is at least 100, otherwise bucket status/25 + 1 |
| ContributionMatrix.BackgroundClass | client/src/components/ContributionMatrix.tsx:128-136 | the class is one of the six colour classes: bg-gray-100 iff the status is at most 0, bg-emerald-500 iff it is at least 100, otherwise the class of bucket status/25 + 1 |
| ContributionMatrix.ColorLevelMonotone | client/src/components/ContributionMatrix.tsx:128-136 | a higher status never gets a lower bucket |
| ContributionMatrix.TooltipLabel | client/src/components/ContributionMatrix.tsx:87-92 | "No habits completed" iff the status is 0, "All habits completed" iff it is 100, otherwise the number followed by "% completed" |
| ContributionMatrix.LabelsDistinct | client/src/components/ContributionMatrix.tsx:87-92 | the three label forms never coincide |
| ContributionMatrix.WindowEnd | client/src/components/ContributionMatrix.tsx:35-38 | the window ends no earlier than it starts |
| ContributionMatrix.FourMonths | client/src/components/ContributionMatrix.tsx:35-38 | the span from the first day three months back to the end of the month is the four months back to back |
| ContributionMatrix.MonthInWindow | client/src/components/ContributionMatrix.tsx:35-38 | a day of a month lies between the first day three months back and the end of that month |
| ContributionMatrix.WindowLength | client/src/components/ContributionMatrix.tsx:35-38 | the window is as long as the current month and the three before it together |
| ContributionMatrix.WindowIsFourMonths | client/src/components/ContributionMatrix.tsx:35-38 | today lies in the window, which is exactly the days of the current month and the three before it |
| ContributionMatrix.WeekStarts | client/src/components/ContributionMatrix.tsx:41 | the week starts are Mondays 7 days apart, from the week holding the first day to the week holding the last |
| ContributionMatrix.WeeksCoverInterval | client/src/components/ContributionMatrix.tsx:41 | every day of the window falls in exactly one week |
| ContributionMatrix.RowLabelsMatch | client/src/components/ContributionMatrix.tsx:44 | in a Monday-start week, row k's day has the short name of row label k (Mon..Sun) |
| ContributionMatrix.CellAt | client/src/components/ContributionMatrix.tsx:127-149 | a cell holds its date, the status of that date over the filtered habits (at most 100), that status's colour bucket (at most 5), and the today ring exactly when the date is today |
| ContributionMatrix.Columns | client/src/components/ContributionMatrix.tsx:110-114 | one column of seven cells per week start, cell k of a column being the week start plus k days |
| ContributionMatrix.Matrix | client/src/components/ContributionMatrix.tsx:20-41 | no cells iff no habit has the selected frequency; otherwise one 7-cell column per week of the window, each cell holding the status of its date over the filtered habits and the today flag |
| ContributionMatrix.RingedOnce | client/src/components/ContributionMatrix.tsx:146-149 | over week starts seven days apart, one of which holds today, exactly one cell is today's |
| ContributionMatrix.TodayRingedOnce | client/src/components/ContributionMatrix.tsx:146-149 | exactly one cell of the window's columns, which are the matrix's cells whenever it has any, carries the today ring |

Definitions the contracts above are written in, whose contracts (if any)
only restate them:
`ContributionMatrix.Eligible` (the eligibility chain of
client/src/components/ContributionMatrix.tsx:55-78),
`ContributionMatrix.WeekDays` (the seven days of a column,
ContributionMatrix.tsx:111-114),
`Calendar.DayNumber` (the day number of a civil date, as `new Date(year,
month, day)` builds it at client/src/lib/utils.ts:196),
`Calendar.StartOfMonth` (date-fns `startOfMonth`, ContributionMatrix.tsx:37),
`ContributionMatrix.WindowStart` (ContributionMatrix.tsx:36-37),
`Utils.PastSum` (the sum at client/src/lib/utils.ts:66) and
`HabitStore.DescriptionOrEmpty` (`habitData.description || ""` at
client/src/lib/habitStore.ts:34).

## Left out

- Browser storage: loading and saving the list as JSON under a storage key, and its error handling, are not modelled. The store's field is the saved list.
- The random UUID of a new habit, and the clock ("today", "now" and the creation instant), are parameters.
- `createdAt` is an ISO timestamp in the source. Here it is integer milliseconds, so the elapsed time is a plain difference.
- Floating point: each `Math.round((a / b) * 100)` is modelled as exact rational rounding of `100a/b`. The double-precision product can differ from it at an exact half.
- Utils.WeekDayEntry: `isFuture` is modelled as "the date is after today". The instant exactly at a midnight, where date-fns compares the midnight with the clock, is not modelled.
- Time zones and daylight saving time: every date is a whole local day, so the streak scan's rounded millisecond difference is a difference of day numbers.
- Date formatting (`formatDate`, `formatShortDate`, `getTodayISODate`, `yyyy-MM-dd` keys, the tooltip's `MMM d, yyyy` text) is not modelled. ContributionMatrix.TooltipLabel takes the formatted date as a parameter.
- `cn` and tailwind class merging are not modelled; the colour classes are listed by bucket.
- The month labels above matrix columns and the rest of the rendering (React components, tooltips, legends) are not modelled.
- `sort()` of the completed date keys is modelled by Utils.SortedCompletedDays, which repeatedly selects the smallest remaining date. Only its result is specified (strictly increasing and the same dates), not JavaScript's sorting algorithm.
- Months are numbered 1..12, where `Date.getMonth` gives 0..11.
- The Postgres-backed server, reminders and notifications, and the form's validation schema are not part of this model.
