# Habit tracker core, modelled in Dafny

A model of the logic behind a small daily habit tracker: a user keeps an
ordered list of goals (each with one or more category tags) and, per
calendar day, a log of the goal ids completed that day. Four screens read
that state: the day's checklist, the "Current Streak" figure, a 7-day bar
chart, and a month heat map. The model covers the following:

- **the state changes of the main screen.** Ticking and unticking a goal,
  adding a goal, editing or re-tagging it, deleting it (which also purges
  its id from every log), reordering by drag and drop, and seeding the
  starter goals on first run;
- **the streak walk.** The walk goes back from today over at most 365 days
  and passes over an incomplete today;
- **the week view.** This covers the seven bars ending on the chosen day,
  their total, the completion percentage, the full-day colour, the progress
  dots and the one-week shift;
- **the month view.** This covers month lengths, the weekday of the 1st,
  previous and next month, the month's total of completions, the heat tier
  of a day, the grid of blanks and day cells, and the monthly percentage;
- **the date machinery these rely on.** This means civil dates with
  day-by-day stepping, the weekday, the `YYYY-MM-DD` log key and its
  parse, plus the string helpers (`padStart`, `split`, `Number`, `trim`).

Modules follow the program's structure:

| module | file | covers |
|---|---|---|
| `Wrappers` | `wrappers.dfy` | `Option` |
| `Types` | `types.dfy` | goals, daily logs, `logs.find` by date |
| `Defaults` | `defaults.dfy` | category tags and the starter goal list |
| `Text` | `text.dfy` | decimal rendering, `padStart`, `split`/`join`, `Number`, `trim` |
| `Ratio` | `ratio.dfy` | `Math.round` of a ratio, percentages |
| `Calendar` | `calendar.dfy` | civil dates, stepping, weekday, ISO date key |
| `Tracker` | `tracker.dfy` | toggle, add, update, category toggle, delete, reorder, seeding |
| `Weekly` | `weekly.dfy` | the week view |
| `Monthly` | `monthly.dfy` | the month view |
| `Streak` | `streak.dfy` | the streak walk |

Throughout the model:

- A JavaScript `Date` is modelled as a civil date `Date(year, month, day)`.
  `setDate(getDate() ± n)` becomes `Next`/`Prev`, `Forward`/`Back`, which
  roll over month and year ends exactly as the JavaScript normalisation
  does.
- The clock is a parameter: today's date, and the base dates of the week
  and month views.
- `Math.random` and `Date.now` become parameters. A new goal's id and
  creation time are passed in. First-run seeding takes a clock function
  giving each successive `Date.now()` reading.
- Logs are kept as the source keeps them: a list of `(date string, ids)`
  looked up by the first log whose date string matches.

## Model

| member | source | states |
|---|---|---|
| Types.FirstLogIndex | App.tsx:89 | the index `find` stops at holds the date and no earlier log does; no index exactly when no log holds the date |
| Types.SelectedLog | App.tsx:82-84 | the log shown for a date is the first stored log with that date when there is one; otherwise it is an empty log for the date |
| Types.FindLogSpec | App.tsx:83 | the log `find` returns holds the date and is one of the stored logs; it returns nothing exactly when no stored log holds the date |
| Types.CompletedCountIsFound | components/WeeklyCalendar.tsx:22-25 | the per-day count is the length of the ids of the log `find` returns, 0 without one, and equals the size of the shown log |
| Types.FindUnique | App.tsx:82-84 | with one log per date, looking up any stored log's date returns exactly that log and its ids |
| Types.FindAppend | App.tsx:99 | after a log is appended, lookups find the earlier log when one exists, the new log only for its own fresh date, otherwise nothing |
| Text.DigitsValueOfShowNat | components/MonthlyCalendar.tsx:53 | reading back the decimal rendering of a number gives the number |
| Text.ShowNat | components/MonthlyCalendar.tsx:53 | the decimal rendering of a non-negative number is a non-empty string of digits only |
| Text.PadStart | components/MonthlyCalendar.tsx:53 | `padStart` keeps the string as a suffix, fills only before it, and reaches the width unless the string is longer |
| Text.ZeroPaddedValue | components/MonthlyCalendar.tsx:53 | zero-padding a rendered number keeps it all digits with the same value |
| Text.JoinSplit | components/MonthlyCalendar.tsx:28 | joining the parts of `split` with the separator rebuilds the string |
| Text.Split | components/MonthlyCalendar.tsx:28 | `split` on one character gives at least one part, and no part contains the separator |
| Text.SplitJoin | components/MonthlyCalendar.tsx:28 | splitting a join of separator-free parts gives the parts back |
| Text.SplitDigitFields | components/MonthlyCalendar.tsx:28 | a `Y-M-D` key of digit fields splits on `-` into exactly its three fields |
| Text.JsNumber | components/MonthlyCalendar.tsx:28 | `Number` of a field is a non-negative value or NaN, and 0 for the empty string |
| Text.JsNumberOfShow | components/MonthlyCalendar.tsx:28 | `Number` of a rendered or zero-padded number is that number |
| Text.TrimStart | App.tsx:105-108 | the result is a suffix of the input, only white space is cut, and it does not start with white space |
| Text.TrimEnd | App.tsx:105-108 | the result is a prefix of the input, only white space is cut, and it does not end with white space |
| Text.TrimSpec | App.tsx:105-108 | `trim` returns the middle slice between two white-space runs, with no white space at either end, and is empty exactly for all-white-space input |
| Ratio.RoundDiv | components/WeeklyCalendar.tsx:119 | the rounded quotient lies within half a unit of `n / m`, with halves rounded up |
| Ratio.RoundDivNearest | components/WeeklyCalendar.tsx:119 | an integer is the rounded quotient exactly when it lies within half a unit of the ratio, halves going up |
| Ratio.Percent | components/WeeklyCalendar.tsx:119 | the percentage lies within half a unit of `100 * part / whole`, halves going up, and is at most 100 when the part does not exceed the whole |
| Ratio.PercentRange | components/WeeklyCalendar.tsx:119 | a part no larger than the whole gives at most 100 percent; 0 percent exactly when the part is under half a percent |
| Calendar.DaysInMonth | components/MonthlyCalendar.tsx:15 | every month has 28 to 31 days, and exactly February of a common year has 28 |
| Calendar.Next | components/WeeklyCalendar.tsx:38 | the day after a valid date is a valid, later date |
| Calendar.Prev | App.tsx:178 | the day before a valid date is a valid, earlier date whose next day is the date again |
| Calendar.PrevNext | App.tsx:178 | stepping forward then back returns to the date |
| Calendar.Back | components/WeeklyCalendar.tsx:19-20 | going back `k > 0` days lands on a valid, earlier date |
| Calendar.Forward | components/WeeklyCalendar.tsx:36-40 | going forward `k > 0` days lands on a valid, later date |
| Calendar.ForwardBack | components/WeeklyCalendar.tsx:36-40 | going back `k` days and then forward `k` days returns to the date |
| Calendar.BackForward | components/WeeklyCalendar.tsx:36-40 | going forward `k` days and then back `k` days returns to the date |
| Calendar.BackAdd | components/WeeklyCalendar.tsx:18-20 | going back `a` days and then `b` days is going back `a + b` days |
| Calendar.BackYearBound | App.tsx:173-178 | 365 steps back from a date never leave the year before |
| Calendar.WeekdayNext | components/MonthlyCalendar.tsx:16 | the weekday advances by one, modulo 7, from each valid day to the next, across month and year ends |
| Calendar.Weekday | components/MonthlyCalendar.tsx:16 | `getDay` is a number from 0 (Sunday) to 6 (Saturday) |
| Calendar.WeekdayPrev | components/MonthlyCalendar.tsx:16 | the weekday of a date is one after that of the day before, modulo 7 |
| Calendar.WeekdayForward | components/MonthlyCalendar.tsx:16 | `k` days later the weekday has advanced by `k` modulo 7 |
| Calendar.WeekdayBack | components/WeeklyCalendar.tsx:24 | `k` days earlier the weekday is `k` fewer modulo 7 |
| Calendar.EpochIsThursday | components/MonthlyCalendar.tsx:16 | 1 January 1970 is a Thursday, as in JavaScript |
| Calendar.IsoKey | App.tsx:174 | the date part of `toISOString` is ten characters with `-` at positions 4 and 7 |
| Calendar.IsoKeySplit | components/MonthlyCalendar.tsx:28 | splitting a date key on `-` gives its year, month and day fields |
| Calendar.IsoKeyFields | components/MonthlyCalendar.tsx:28 | `Number` of the three fields of a date key gives the date's year, month and day |
| Calendar.IsoKeyInjective | App.tsx:174-179 | two dates have the same key exactly when they are the same date |
| Tracker.Remove | App.tsx:95 | `filter(id => id !== goalId)` drops every copy of the id and keeps the count of every other id |
| Tracker.RemoveAbsent | App.tsx:95 | removing an id that is not there changes nothing |
| Tracker.RemoveAppended | App.tsx:94-96 | removing an id just appended to a list without it gives the list back |
| Tracker.ToggleCompletion | App.tsx:86-102 | in edit mode nothing changes; with a log for the date only that date's logs change and dates and length are kept; without one a log holding just the goal is appended |
| Tracker.ToggleFlips | App.tsx:86-102 | after a toggle the goal is completed on the date exactly when it was not before; no other id and no other date changes |
| Tracker.ToggleTwice | App.tsx:86-102 | toggling the same goal twice leaves every date's set of completed ids as it was |
| Tracker.ToggleTwiceExact | App.tsx:86-102 | with a log present and the goal not completed, toggling twice restores the logs exactly; with no log, it leaves one extra empty log |
| Tracker.TogglePreservesWellFormed | App.tsx:86-102 | toggling keeps one log per date and no id twice in a log |
| Tracker.AddGoal | App.tsx:104-116 | a white-space title or no categories changes nothing; otherwise one goal is appended with the trimmed non-empty title, the given categories, id and time, and no other goal changes |
| Tracker.UpdateGoal | App.tsx:118-120 | each goal with the id takes every field the patch gives (id, title, categories, creation time) and keeps the others; all other goals and the order are unchanged |
| Tracker.UpdateGoalKeepsWellFormed | App.tsx:118-120 | a patch that leaves the categories alone or brings a non-empty list keeps every goal with a category |
| Tracker.UpdateGoalCanEmptyCategories | App.tsx:118-120 | `updateGoal` itself does not protect the category list: a goal can be left with none |
| Tracker.ToggleCategory | App.tsx:370-375 | the tag is flipped on the edited goal and every other tag is kept; removing the only tag is refused; other goals are untouched and every goal keeps a category |
| Tracker.RemoveGoal | App.tsx:123 | no goal with the id remains; every other goal stays, in order |
| Tracker.DeleteGoal | App.tsx:122-128 | the goal goes and its id leaves every log; every log keeps its date and its other ids in order; well-formedness of goals and logs is kept |
| Tracker.SpliceStart | App.tsx:148 | `splice` clamps its start into the list and leaves an in-range start alone |
| Tracker.Move | App.tsx:145-148 | the list is a permutation of the original with the dragged goal at the clamped drop position and the others in their old order |
| Tracker.HandleDrop | App.tsx:141-152 | no drag changes nothing; a drop permutes the goals, puts the dragged goal at an in-range drop index, and leaves every goal with a category if each had one |
| Tracker.MoveExample | App.tsx:145-148 | dragging the first of `A B C D` onto index 2 gives `B C A D` |
| Tracker.DefaultIdInjective | App.tsx:47 | starter goals at different positions get different ids, whatever the clock reads for each; under one reading the ids are equal exactly for the same position |
| Tracker.DefaultIdFields | App.tsx:47 | the second `-` field of a starter id is its index |
| Tracker.SeedGoals | App.tsx:43-56 | stored goals are kept as they are; with none, one goal per starter entry is made, in order, with its title and categories, the id `default-<index>-<clock>` and the creation time from its own clock reading |
| Tracker.SeedGoalsSound | App.tsx:46-51 | seeded goals have pairwise distinct ids, and each has a category when the starter list does |
| Tracker.DefaultSeedWellFormed | constants.ts:20-35 | every goal seeded from the built-in starter list has a category |
| Weekly.WeekDate | components/WeeklyCalendar.tsx:18-20 | every bar's date, from six days back up to the base date, has a `YYYY-MM-DD` key |
| Weekly.DayName | components/WeeklyCalendar.tsx:24 | the short weekday name has three letters |
| Weekly.DayNameCycle | components/WeeklyCalendar.tsx:24 | 1 January 1970 is named `Thu`, and each day's name follows the previous day's in the Sunday-first cycle |
| Weekly.WindowEntries | components/WeeklyCalendar.tsx:17-29 | after `n` iterations of the loop, bar `j` carries the short weekday name, the completion count and the key of the day `6 - j` days before the base date |
| Weekly.WindowSpec | components/WeeklyCalendar.tsx:16-30 | the seven bars carry, in order, the key, the weekday name and the completion count of each day of the window, ending on the base date |
| Weekly.GetWeekData | components/WeeklyCalendar.tsx:16-30 | the loop builds seven bars, oldest first, each with its day's key, short weekday name and count, the last one the base date |
| Weekly.WeekDatesConsecutive | components/WeeklyCalendar.tsx:18-20 | the last bar is the base date and each bar is the day after the one before it |
| Weekly.WeekDatesIncreasing | components/WeeklyCalendar.tsx:18-21 | the bars' dates increase strictly and their keys are pairwise distinct |
| Weekly.WeekNamesDistinct | components/WeeklyCalendar.tsx:24 | the seven bars carry seven different weekday names |
| Weekly.WeeklyTotalZero | components/WeeklyCalendar.tsx:33 | the weekly total is 0 exactly when every bar's count is 0 |
| Weekly.WeeklyTotalBound | components/WeeklyCalendar.tsx:33-34 | with no day above the number of goals, the total is at most the maximum possible |
| Weekly.WeeklyPercentage | components/WeeklyCalendar.tsx:119 | with no goals the figure is 0; with goals it lies within half a percent of `100 * total / (7 * goals)`, halves going up, and is at most 100 when the total fits |
| Weekly.WeeklyPercentageSpec | components/WeeklyCalendar.tsx:119 | no goals show 0%; otherwise the figure is the nearest whole percent of total over seven times the goals, halves up, and at most 100 when the total fits |
| Weekly.WeeklyPercentageExample | components/WeeklyCalendar.tsx:119 | 14 actions with 4 goals show 50% |
| Weekly.DotRow | components/WeeklyCalendar.tsx:143-148 | a row shows as many dots as goals, but at most five |
| Weekly.DotRowFilled | components/WeeklyCalendar.tsx:143-148 | the filled dots come first and there are as many as the count, capped by the row |
| Weekly.FullDayDots | components/WeeklyCalendar.tsx:102 | on a full day every dot is filled; on an empty day none is |
| Weekly.ShiftWeek | components/WeeklyCalendar.tsx:36-40 | the shifted date is valid and its weekday is the base date's moved by `days` modulo 7, in either direction |
| Weekly.ShiftWeekExact | components/WeeklyCalendar.tsx:36-40 | for every valid base date the shift moves exactly `days` days: stepping back `days` days (forward, for a negative count) gives the base date again |
| Weekly.ShiftWeekRoundTrip | components/WeeklyCalendar.tsx:36-40 | a week forward and a week back, or back then forward, return to the base date |
| Weekly.ShiftWeekWeekday | components/WeeklyCalendar.tsx:36-40 | shifting by a week keeps the weekday |
| Weekly.ShiftWeekTiles | components/WeeklyCalendar.tsx:36-40 | the next week's window starts the day after the current one ends, and the previous week's ends the day before it starts |
| Monthly.MonthLength | components/MonthlyCalendar.tsx:15 | April, June, September and November have 30 days, February 29 exactly in leap years, the rest 31; the last day is a valid date and the day after it is the next month's 1st |
| Monthly.FirstWeekday | components/MonthlyCalendar.tsx:16 | the number of blank cells is the weekday, 0 to 6, of day 1 of the 0-based month |
| Monthly.FirstWeekdayOfNextMonth | components/MonthlyCalendar.tsx:15-16 | the next month starts as many weekdays later as this month has days, modulo 7 |
| Monthly.ForwardThroughMonth | components/MonthlyCalendar.tsx:15 | counting the month's length in days from the 1st reaches the next month's 1st |
| Monthly.PrevMonth | components/MonthlyCalendar.tsx:22 | the result is the 1st of the month immediately before, across January |
| Monthly.NextMonth | components/MonthlyCalendar.tsx:23 | the result is the 1st of the month immediately after, across December |
| Monthly.MonthStepsInverse | components/MonthlyCalendar.tsx:22-23 | next after previous, and previous after next, return to the 1st of the month shown |
| Monthly.MonthStepsYear | components/MonthlyCalendar.tsx:22-23 | the year changes only when stepping back from January or forward from December |
| Monthly.MonthKeyIsIsoKey | components/MonthlyCalendar.tsx:53 | for four-digit years the month view's key of a day is the day's `YYYY-MM-DD` key |
| Monthly.MonthKeyShortYear | components/MonthlyCalendar.tsx:53 | below year 1000 the month view's key is shorter than, and differs from, the stored key |
| Monthly.ParseMonthKey | components/MonthlyCalendar.tsx:28 | parsing a month-view key gives back its year and 1-based month |
| Monthly.ParseIsoKey | components/MonthlyCalendar.tsx:28 | parsing a stored date key gives back the date's year and month |
| Monthly.TotalActions | components/MonthlyCalendar.tsx:26-33 | the month's total is the sum of completions over exactly the logs `MonthLogs` keeps |
| Monthly.MonthLogs | components/MonthlyCalendar.tsx:28-31 | the logs kept are exactly the stored logs whose key parses to the month shown, in stored order (a subsequence of the logs) |
| Monthly.TotalActionsOtherMonths | components/MonthlyCalendar.tsx:26-33 | logs of other months add nothing |
| Monthly.StoredLogCountsInItsMonth | components/MonthlyCalendar.tsx:26-33 | a log stored under a date key counts in that date's month and in no other |
| Monthly.HeatOf | components/MonthlyCalendar.tsx:35-43 | a day is blank exactly when nothing was done, and the final fall-through colour is never reached |
| Monthly.HeatTiers | components/MonthlyCalendar.tsx:37-41 | with completions but no goals the tier is neutral; otherwise the tier is strong exactly for `count / goals` at least 0.8, medium from 0.5 to below 0.8, and light above 0 and below 0.5 |
| Monthly.HeatMonotone | components/MonthlyCalendar.tsx:35-43 | with goals, more completions never give a paler tier |
| Monthly.FullDayIsStrong | components/MonthlyCalendar.tsx:39 | completing every goal gives the strongest tier |
| Monthly.HeatExamples | components/MonthlyCalendar.tsx:35-43 | with 5 goals, 4, 3, 2 and 0 completions give strong, medium, light and blank; with no goals any completion is neutral |
| Monthly.MonthlyPercentage | components/MonthlyCalendar.tsx:120 | with no goals the figure is 0; with goals it lies within half a percent of `100 * total / (goals * days)`, halves going up, and is at most 100 when the total fits |
| Monthly.MonthlyPercentageSpec | components/MonthlyCalendar.tsx:120 | no goals show 0%; otherwise the figure is the nearest whole percent of total over goals times days, halves up, and at most 100 when the total fits |
| Monthly.BuildGrid | components/MonthlyCalendar.tsx:45-69 | the grid has one blank per weekday before the 1st and then one cell per day, in order, each with its key, count and tier, at most 37 cells |
| Monthly.GridEntries | components/MonthlyCalendar.tsx:46-52 | exactly the cells before the offset are blank, and the cell at offset plus `k` is day `k + 1` |
| Streak.RunIsMaximal | App.tsx:176-184 | every counted day has a completion and the day after the run, if any, has none |
| Streak.RunUnique | App.tsx:176-184 | any stretch of active days ended by an inactive day or the year's end is the run |
| Streak.DayCounts | App.tsx:173-179 | 365 counts, one per examined day; `Streak.DayCountsFound` states which count each entry is |
| Streak.DayCountsFound | App.tsx:173-179 | entry `k`, today first, is the number of ids in the log `find` returns for the key of the day `k` days back, 0 without one |
| Streak.StreakCount | App.tsx:168-187 | the loop's count is the streak of the logs as of today, and at most 365 |
| Streak.ReadDay | App.tsx:174-179 | one iteration's test: the day is active exactly when its count is non-zero, and its key is today's exactly on the first iteration |
| Streak.DayOfWalk | App.tsx:174-179 | the count of the log found for a walked day is that day's count, and only the first walked day has today's key |
| Streak.StreakIsLongestRun | App.tsx:168-187 | the streak is the length of the run of active days that ends today, or yesterday when today is inactive |
| Streak.TodayIsLenient | App.tsx:179-181 | an incomplete today neither counts nor breaks the streak |
| Streak.GapEndsStreak | App.tsx:182-184 | an inactive day other than today bounds the streak by the days before it |
| Streak.ThreeDayStreak | App.tsx:168-187 | three active days ending today, then a gap, give a streak of 3 |
| Streak.YesterdayOnlyStreak | App.tsx:168-187 | only yesterday active gives a streak of 1 |
| Streak.EmptyLogIsInactive | App.tsx:176 | a day whose logs hold no ids counts as a gap, just like a day without a log |

## Left out

- Persistence is not part of this model: reading and saving goals and
  logs, and the sync effects of App.tsx:60-67.
- The AI insight service is not part of this model (App.tsx:69-78): it is
  a network call.
- Rendering is left out: JSX, styling, colour class strings, the
  drag-start and drag-over plumbing, and `handleDateJump`. The heat tiers
  stand for the class strings of `getHeatColor`.
- `shiftDate` (App.tsx:160-164) is not modelled separately. It is the same
  whole-day step as `shiftWeek`, which `ShiftWeek` models.
- `isCurrentWeek` and `isCurrentMonth` are left out: they only hide a
  "today" button.
- JavaScript `Date` time zones are left out. The model treats local and
  UTC calendars as one: the week and streak keys come from `toISOString`
  on dates stepped in local time, and near midnight in a zone off UTC
  those can name a different day.
- The `Date` constructor's mapping of years 0 to 99 onto 1900 to 1999 is
  left out. Dates and keys are modelled for years 0 to 9999 only.
- Weekly.WeekBase: the week view is modelled for base dates in years 1 to
  9999, so that all seven days have four-digit keys.
- Streak.StreakCount: the streak is modelled for today in years 1 to 9999
  for the same reason.
- Monthly.MonthKeyShortYear: the month view's unpadded `${year}` differs
  from the stored key below year 1000. The model keeps that difference and
  does not work around it.
- Floating point is left out. Ratios are compared and rounded as exact
  rationals, with `Math.round` as round-half-up.
- Monthly.MonthlyPercentageSpec: this rounds the exact quotient. The
  double-precision product in `Math.round((a / b) * 100)` can fall just
  below an exact half, and then the page shows one less. An example is 69
  completions with 4 goals in a 30-day month: the exact figure is 57.5,
  which the model rounds to 58.
- Weekly.WeeklyPercentageSpec: the same exact rounding as the monthly
  figure.
- Monthly.MonthlyPercentage: the same exact rounding, stated as a
  contract.
- Weekly.WeeklyPercentage: the same exact rounding, stated as a contract.
- Ratio.Percent: the same exact rounding, for any part and whole.
- Text.JsNumber: this models `Number` on strings of decimal digits only,
  with the empty string read as 0 and anything else as NaN. Surrounding
  white space, signs, decimal points, exponents and hexadecimal forms are
  not modelled, because date keys never contain them.
- Streak.StreakCount: the source sorts a copy of the logs before its
  lookups. The sort is stable, so among logs of one date the first in the
  copy is the first in the original, and `find` on the copy returns the
  same log. The model looks up the logs directly.
- Tracker.HandleDrop: the dragged index is required to be in range, but
  the code does not guarantee it. `draggedIndex` is set when a drag
  starts (App.tsx:131) and cleared only by a completed drop (App.tsx:151);
  there is no drag-end handler, so a cancelled drag leaves a stale index
  behind, and every row accepts drops (App.tsx:345-346). After goals are
  deleted (App.tsx:364), a drop can reach `handleDrop` with an index past
  the end: `newGoals[draggedIndex]` is `undefined`, the first `splice`
  removes nothing, the second inserts `undefined`, and rendering the list
  then fails at `goal.id` (App.tsx:342). A sequence of goals cannot hold
  `undefined`, so that path is not modelled. Clearing the drag state
  (`setDraggedIndex(null)`, App.tsx:151) is not modelled either: the
  caller passes the drag state in.
- Tracker.UpdateGoal: the code has no guard against an empty category
  list in `updateGoal` itself. The only guard is the category toggle of
  App.tsx:370-375, modelled in `ToggleCategory`, and the title edit of
  App.tsx:361 can leave an empty title. The model follows the code rather
  than a guard inside `updateGoal`.
- Tracker.Move: only the drop index is clamped, as `splice` clamps it.
  The dragged index must be in range; see Tracker.HandleDrop for the
  stale out-of-range index the code lets through.
- Random and clock values are parameters of `AddGoal` and `SeedGoals`.
  `AddGoal` takes the new goal's id from `Math.random` and its creation
  time from `Date.now`. `SeedGoals` takes a clock function: reading `2i`
  gives the id of the starter goal at position `i`, and reading `2i + 1`
  its creation time, in the order App.tsx:47 and :50 evaluate them. The
  uniqueness of random ids is not modelled.
