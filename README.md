# Habit tracker statistics, modelled in Dafny

This project models the logic of a small habit tracker. A habit has an id, a
name, a category, a colour, a creation timestamp and a completion record. The
record maps date keys (`YYYY-MM-DD`) to booleans; a missing key means "not
done". The model covers five parts:

- **Date keys** (`DateUtils`, on top of `Calendar`). A key is the date prefix
  of `toISOString()`. `getDateString(k)` is the key `k` calendar days after
  today. `getLastNDays(n)` is the `n` keys ending today, oldest first. Today
  is a parameter. Calendar arithmetic is proleptic Gregorian, and month and
  year roll over as `setDate` does.
- **Per-habit statistics** (`HabitUtils`): `calculateHabitStats` and
  `getStreakEmoji`. Each of its three loops is a method proved against a pure
  specification function:
  - the current-streak `while` loop;
  - the longest-streak `for` loop over the sorted keys;
  - the 30-day window loop.
  Lemmas state what those functions mean:
  - the current streak is the run of completed calendar days ending today;
  - the longest streak is the longest block of `true` entries in sorted key
    order;
  - the rate is the rounded percentage of completed days among the last 30.
- **Key order** (`KeyOrder`). `Object.keys(...).sort()` is modelled as the
  unique strictly increasing listing under the default string comparison.
  For four-digit years that order is the chronological order of the days.
- **App state** (`App`). The `habits` and `editingHabit` state slots form a
  class `HabitStore`. Its methods replace the list as the create, edit,
  delete and toggle handlers do. The new list each handler builds is a pure
  function, with lemmas about ids, membership, order and totals.
- **Dashboard figures** (`StatsOverview`): the habit count, the summed
  completions, the rounded average rate and the best longest streak. The
  model proves what each figure means and that none depends on the order of
  the habit list.

The longest streak scans recorded entries only. A calendar day with no entry
does not break a run. `SparseLongestExample` and `SparseCurrentExample` pin
this down: completions on 2024-01-01 and 2024-01-03 give a longest streak of
2 but a current streak of 1 on 2024-01-03. `LongestAtLeastCurrent` proves
that the longest streak is at least the current streak whenever every key is
a well-formed date key.

`.sort()` compares keys as strings, not as dates. `FormatOrder` and
`LastNDaysIncreasing` prove that string order is chronological order for
years 0 to 9999, where `toISOString` prints four year digits. Outside that
range the two orders differ, and the model keeps the string order of the
code.

## Model

| member | source | states |
|---|---|---|
| `Calendar.Succ` | src/utils/dateUtils.ts:11 | the next day is a valid date and comes after its argument |
| `Calendar.Pred` | src/utils/habitUtils.ts:13-14 | the previous day is a valid date and comes before its argument |
| `Calendar.PredSuccInverse` | src/utils/habitUtils.ts:13-14 | stepping a day back and forward are inverse |
| `Calendar.AddDays` | src/utils/dateUtils.ts:11 | moving by any whole number of days yields a valid date |
| `Calendar.AddDaysAdditive` | src/utils/dateUtils.ts:11 | moving by j then k days is moving by j + k days |
| `Calendar.AddDaysMonotone` | src/utils/dateUtils.ts:11 | a smaller offset gives a strictly earlier day |
| `Calendar.AddDaysStep` | src/utils/dateUtils.ts:11 | offset k + 1 is the day after offset k |
| `Calendar.AddDaysAdjacent` | src/utils/dateUtils.ts:11 | no valid day lies strictly between offsets k and k + 1 |
| `Calendar.AddDaysPred` | src/utils/habitUtils.ts:13-15 | counting from yesterday shifts every offset by one |
| `Calendar.SuccAdjacent` | src/utils/dateUtils.ts:11 | no valid day lies strictly between a day and the next |
| `Calendar.PredAdjacent` | src/utils/habitUtils.ts:13-14 | no valid day lies strictly between a day and the previous one |
| `KeyOrder.LexIrreflexive` | src/utils/habitUtils.ts:21 | the default string comparison never puts a string before itself |
| `KeyOrder.LexTransitive` | src/utils/habitUtils.ts:21 | the string comparison is transitive |
| `KeyOrder.LexTotal` | src/utils/habitUtils.ts:21 | any two distinct strings are ordered one way or the other |
| `KeyOrder.LexAsymmetric` | src/utils/habitUtils.ts:21 | two strings are never each before the other |
| `KeyOrder.LexConcat` | src/utils/habitUtils.ts:21 | comparing concatenations with equal-length heads compares heads, then tails |
| `KeyOrder.LeastExists` | src/utils/habitUtils.ts:21 | a non-empty key set has a least key |
| `KeyOrder.LeastUnique` | src/utils/habitUtils.ts:21 | the least key is unique |
| `KeyOrder.SortedCons` | src/utils/habitUtils.ts:21 | the least key followed by a sorted listing of the rest is sorted |
| `KeyOrder.SortedKeys` | src/utils/habitUtils.ts:21 | the sorted listing holds exactly the keys of the set, each once |
| `KeyOrder.SortedKeysIncreasing` | src/utils/habitUtils.ts:21 | the sorted listing is strictly increasing |
| `KeyOrder.StrictlyIncreasingUnique` | src/utils/habitUtils.ts:21 | two strictly increasing lists with the same members are equal |
| `KeyOrder.SortedKeysUnique` | src/utils/habitUtils.ts:21 | the sorted listing is the only strictly increasing listing of the keys |
| `KeyOrder.SortedNext` | src/utils/habitUtils.ts:21-23 | a member after position p, with nothing listed between, sits at p + 1 |
| `KeyOrder.SortedBlock` | src/utils/habitUtils.ts:21-23 | a gapless block of listed keys occupies consecutive positions |
| `KeyOrder.SortedBlockSlice` | src/utils/habitUtils.ts:21-23 | a gapless block is exactly the slice of the sorted listing starting at its first key |
| `DateUtils.Pad` | src/utils/dateUtils.ts:2 | a zero-padded numeral starts with a digit and has exactly the width when the number fits |
| `DateUtils.YearText` | src/utils/dateUtils.ts:2 | the year field has four digits for years 0 to 9999, a `+` above and a `-` below |
| `DateUtils.MonthDayText` | src/utils/dateUtils.ts:2 | the `-MM-DD` part has six characters with two-digit month and day |
| `DateUtils.Format` | src/utils/dateUtils.ts:1-3 | a key of a four-digit year has ten characters |
| `DateUtils.PadInjective` | src/utils/dateUtils.ts:2 | equal padded numerals of one width come from equal numbers |
| `DateUtils.PadOrder` | src/utils/dateUtils.ts:2 | padded numerals of one width sort as the numbers do, both ways |
| `DateUtils.YearTextInjective` | src/utils/dateUtils.ts:2 | equal year fields come from equal years |
| `DateUtils.FormatInjective` | src/utils/dateUtils.ts:1-3 | different days have different keys |
| `DateUtils.MonthDayOrder` | src/utils/dateUtils.ts:2 | `-MM-DD` texts sort by month, then day, both ways |
| `DateUtils.FormatOrder` | src/utils/dateUtils.ts:1-3 | for four-digit years one key sorts before another exactly when its day is earlier |
| `DateUtils.TodayString` | src/utils/dateUtils.ts:5-13 | getTodayString() is the same key as getDateString(0) |
| `DateUtils.DateString` | src/utils/dateUtils.ts:9-13 | the key of a day with a four-digit year has ten characters; `DateStringShift`, `DateStringInjective` and `DateStringOrder` give how offsets map to keys |
| `DateUtils.DateStringShift` | src/utils/dateUtils.ts:9-13 | the key k days after the day j days after today is the key of offset j + k |
| `DateUtils.DateStringInjective` | src/utils/dateUtils.ts:9-13 | equal keys come from equal offsets |
| `DateUtils.DateStringDistinct` | src/utils/dateUtils.ts:9-13 | different offsets give different keys |
| `DateUtils.BetweenFourDigit` | src/utils/dateUtils.ts:2 | a day between two four-digit-year days has a four-digit year |
| `DateUtils.Window` | src/utils/dateUtils.ts:20-26 | a window of `count` offsets has `count` keys |
| `DateUtils.WindowAt` | src/utils/dateUtils.ts:20-26 | entry i of a window is the key of offset from + i |
| `DateUtils.LastNDays` | src/utils/dateUtils.ts:20-26 | getLastNDays(n) has n keys for positive n and none otherwise |
| `DateUtils.LastNDaysAt` | src/utils/dateUtils.ts:22-23 | entry i is the key n - 1 - i days before today |
| `DateUtils.GetLastNDays` | src/utils/dateUtils.ts:20-26 | the push loop builds exactly the window of the last n days |
| `DateUtils.LastNDaysEndsToday` | src/utils/dateUtils.ts:20-26 | the last entry is today's key |
| `DateUtils.LastNDaysPairDistinct` | src/utils/dateUtils.ts:20-26 | two positions of the window hold different keys |
| `DateUtils.LastNDaysDistinct` | src/utils/dateUtils.ts:20-26 | the window never repeats a key |
| `DateUtils.DateStringOrder` | src/utils/dateUtils.ts:9-13 | within four-digit years a smaller offset gives a key that sorts first |
| `DateUtils.LastNDaysIncreasing` | src/utils/dateUtils.ts:20-26 | within four-digit years the window is strictly increasing |
| `HabitUtils.TotalRemoveMarked` | src/utils/habitUtils.ts:33 | removing a completed key lowers the total by one |
| `HabitUtils.TotalUnmark` | src/utils/habitUtils.ts:33 | setting a completed key to false lowers the total by one |
| `HabitUtils.TotalMark` | src/utils/habitUtils.ts:33 | setting an uncompleted key to true raises the total by one |
| `HabitUtils.TotalIgnoresFalse` | src/utils/habitUtils.ts:33 | recording false for an uncompleted key leaves the total unchanged |
| `HabitUtils.TotalCompletions` | src/utils/habitUtils.ts:33 | the total is at most the number of entries; `TotalCompletionsAnyOrder` shows it is the count of true values along any listing of the keys |
| `HabitUtils.StreakEndingAt` | src/utils/habitUtils.ts:9-16 | the walk back ends, and counts no more days than the total of completions |
| `HabitUtils.CurrentStreakOf` | src/utils/habitUtils.ts:9-16 | currentStreak is at most the total, and positive exactly when today is completed; `CurrentStreakIsRun` gives its exact value |
| `HabitUtils.StreakIgnoresLaterKey` | src/utils/habitUtils.ts:9-16 | a key of a later day never changes the walk back from an earlier day |
| `HabitUtils.StreakStep` | src/utils/habitUtils.ts:11-15 | a completed day adds one to the streak of the day before it |
| `HabitUtils.DayKeyPred` | src/utils/habitUtils.ts:13-15 | counting back from yesterday is counting back from today one day further |
| `HabitUtils.RunExtendDays` | src/utils/habitUtils.ts:11-15 | a completed day and the completed run before it are completed days back from it |
| `HabitUtils.RunExtendEnd` | src/utils/habitUtils.ts:11 | the day ending the run before a day also ends the run from that day |
| `HabitUtils.RunExtend` | src/utils/habitUtils.ts:11-15 | a run ending yesterday, plus a completed today, is a run one longer ending today |
| `HabitUtils.StreakEndingAtRun` | src/utils/habitUtils.ts:9-16 | the walk stops exactly where the run of completed days ends |
| `HabitUtils.RunUnique` | src/utils/habitUtils.ts:9-16 | at most one length is the length of the run ending today |
| `HabitUtils.CurrentStreakIsRun` | src/utils/habitUtils.ts:9-16 | currentStreak equals k exactly when the k days up to today are completed and the day before is not |
| `HabitUtils.CurrentStreak` | src/utils/habitUtils.ts:9-16 | the while loop returns the current run length, which is at most the total of completions |
| `HabitUtils.CountTrue` | src/utils/habitUtils.ts:33 | the count of true values is at most the number of values |
| `HabitUtils.TrailingRun` | src/utils/habitUtils.ts:24-28 | tempStreak is the number of trailing true values, and the value before them is false |
| `HabitUtils.LongestRun` | src/utils/habitUtils.ts:19-30 | the scan result is at most the number of entries; `LongestRunSpec` shows it is the longest block of true values |
| `HabitUtils.LongestRunSpec` | src/utils/habitUtils.ts:19-30 | the scan finds a block of true values of its length and no longer block exists |
| `HabitUtils.TrailingRunAtMostCount` | src/utils/habitUtils.ts:24-28 | the trailing run is at most the number of true values |
| `HabitUtils.LongestRunAtMostCount` | src/utils/habitUtils.ts:19-30 | the longest run is at most the number of true values |
| `HabitUtils.LongestRunAllTrue` | src/utils/habitUtils.ts:19-30 | with no false value the longest run is the whole length |
| `HabitUtils.LongestRunZero` | src/utils/habitUtils.ts:19-30 | the longest run is 0 exactly when no value is true |
| `HabitUtils.CountTrueValues` | src/utils/habitUtils.ts:33 | true values along a duplicate-free listing count the completed keys listed |
| `HabitUtils.TotalCompletionsAnyOrder` | src/utils/habitUtils.ts:33 | counting true values along any listing of all keys gives totalCompletions |
| `HabitUtils.SortedNoDuplicates` | src/utils/habitUtils.ts:21 | a strictly increasing listing has no duplicates |
| `HabitUtils.LongestStreakOf` | src/utils/habitUtils.ts:19-30 | longestStreak is at most the number of entries; `LongestStreakBounds` ties it to the total |
| `HabitUtils.ScanStep` | src/utils/habitUtils.ts:24-29 | one more entry scanned resets or extends tempStreak and raises longestStreak to it |
| `HabitUtils.LongestStreak` | src/utils/habitUtils.ts:19-30 | the for loop over the sorted keys returns the longest run of the sorted values |
| `HabitUtils.LongestStreakBounds` | src/utils/habitUtils.ts:19-33 | longestStreak is at most totalCompletions, equals it when no entry is false, and is 0 exactly when no entry is true |
| `HabitUtils.WellFormedDay` | src/utils/habitUtils.ts:21 | a recorded well-formed key names a day with a four-digit year |
| `HabitUtils.NoKeyBetween` | src/utils/habitUtils.ts:21 | with well-formed keys none sorts strictly between a day's key and the next day's |
| `HabitUtils.WindowGapless` | src/utils/habitUtils.ts:21-23 | consecutive days' keys, all recorded, are neighbours in sorted key order |
| `HabitUtils.CurrentRunWindow` | src/utils/habitUtils.ts:9-16 | the last currentStreak days are all completed |
| `HabitUtils.GaplessBlockRun` | src/utils/habitUtils.ts:19-30 | completed keys forming a gapless sorted block give a longest streak at least that long |
| `HabitUtils.LongestAtLeastCurrent` | src/utils/habitUtils.ts:9-30 | with well-formed keys, longestStreak is at least currentStreak |
| `HabitUtils.EarlyJanuaryKey` | src/utils/dateUtils.ts:1-3 | the keys of 2024-01-01 to 2024-01-09 as text |
| `HabitUtils.SparseLongestExample` | src/utils/habitUtils.ts:19-30 | completions on 2024-01-01 and 2024-01-03 give a longest streak of 2: the day without an entry does not break the run |
| `HabitUtils.TwoCompletionsLongest` | src/utils/habitUtils.ts:19-30 | any two completed keys, whatever days they name, give a longest streak of 2 |
| `HabitUtils.TwoKeysSorted` | src/utils/habitUtils.ts:21 | two keys sort to the listing of the smaller then the larger |
| `HabitUtils.LongestRunTwo` | src/utils/habitUtils.ts:23-29 | two true values scan to a longest run of 2 |
| `HabitUtils.SparseCurrentExample` | src/utils/habitUtils.ts:9-16 | the same completions give a current streak of 1 on 2024-01-03 |
| `HabitUtils.CountMarked` | src/utils/habitUtils.ts:41 | the number of completed listed days is at most the number listed |
| `HabitUtils.RatePercent` | src/utils/habitUtils.ts:42-48 | the rate is the integer nearest to 100x/30, with no tie possible |
| `HabitUtils.RatePercentRange` | src/utils/habitUtils.ts:42-48 | for up to 30 days the rate is in 0..100, 0 exactly for none and 100 exactly for 30 |
| `HabitUtils.RatePercentMonotone` | src/utils/habitUtils.ts:42-48 | more completed days never give a lower rate |
| `HabitUtils.CountMarkedDistinct` | src/utils/habitUtils.ts:41 | over a repeat-free list the count is the number of distinct completed keys listed |
| `HabitUtils.CountMarkedAll` | src/utils/habitUtils.ts:41 | the count is the list length exactly when every listed day is completed |
| `HabitUtils.CountMarkedNone` | src/utils/habitUtils.ts:41 | the count is 0 exactly when no listed day is completed |
| `HabitUtils.CompletionRateOf` | src/utils/habitUtils.ts:36-48 | completionRate is at most 100; `CompletionRateCounts` and `CompletionRateExtremes` give its value |
| `HabitUtils.CompletionRateCounts` | src/utils/habitUtils.ts:36-48 | completionRate is the rounded percentage of distinct completed keys among the last 30 |
| `HabitUtils.LastThirtyKeys` | src/utils/habitUtils.ts:36-39 | the window holds exactly the keys of today and the 29 days before |
| `HabitUtils.CompletionRateExtremes` | src/utils/habitUtils.ts:36-48 | completionRate is at most 100, 100 exactly when all 30 days are completed and 0 exactly when none is |
| `HabitUtils.CompletionRate` | src/utils/habitUtils.ts:36-48 | the inline window loop builds getLastNDays(30) and the result is the 30-day rate, at most 100 |
| `HabitUtils.EmptyStats` | src/utils/habitUtils.ts:4-50 | a habit with no completions has all four statistics 0 |
| `HabitUtils.StatsOf` | src/utils/habitUtils.ts:4-50 | both streaks lie between 0 and the total, and the rate lies in 0..100 |
| `HabitUtils.CalculateHabitStats` | src/utils/habitUtils.ts:4-50 | the four statistics; both streaks are at most the total and the rate is in 0..100 |
| `HabitUtils.StreakEmoji` | src/utils/habitUtils.ts:52-60 | getStreakEmoji returns one of the seven tier emojis for every integer; `StreakEmojiTier` gives which one |
| `HabitUtils.CountReached` | src/utils/habitUtils.ts:52-60 | the number of thresholds reached is at most the number of thresholds |
| `HabitUtils.StreakEmojiTier` | src/utils/habitUtils.ts:52-60 | for every integer the emoji is the tier of the number of thresholds 3, 7, 14, 30, 50, 100 reached |
| `HabitUtils.CountReachedMonotone` | src/utils/habitUtils.ts:52-60 | a larger streak reaches at least as many thresholds |
| `HabitUtils.StreakTierMonotone` | src/utils/habitUtils.ts:52-60 | a longer streak never earns a lower tier, and the seven emojis are distinct |
| `App.Created` | src/App.tsx:25-33 | create appends one habit with the form fields, the given id and timestamp and no completions, keeping the rest |
| `App.CreatedUnique` | src/App.tsx:28-32 | with a fresh id, create keeps ids unique |
| `App.Merge` | src/App.tsx:40 | `{ ...habit, ...habitData }` keeps id, createdAt and completions and takes name, category and colour from the form |
| `App.Edited` | src/App.tsx:38-42 | edit sets name, category and colour of the matching habit, keeps its id, createdAt and completions, and keeps every other habit |
| `App.EditedAbsent` | src/App.tsx:38-42 | editing an id no habit has changes nothing |
| `App.EditedUnique` | src/App.tsx:38-42 | edit keeps ids unique |
| `App.Deleted` | src/App.tsx:46-48 | no survivor of delete has the id, and the list does not grow |
| `App.DeletedMembers` | src/App.tsx:47 | delete keeps exactly the habits whose id differs |
| `App.DeletedConcat` | src/App.tsx:47 | deleting from a concatenation deletes from each part, keeping order |
| `App.DeletedAbsent` | src/App.tsx:47 | deleting an id no habit has changes nothing |
| `App.DeletedOne` | src/App.tsx:47 | with unique ids delete removes exactly the one habit, keeping the others in order |
| `App.DeletedUnique` | src/App.tsx:47 | delete keeps ids unique |
| `App.Toggle` | src/App.tsx:55-58 | the toggled date flips, with absent read as false; every other date is unchanged and only that date can be added |
| `App.ToggleTwice` | src/App.tsx:57 | toggling twice restores every looked-up value and adds at most the one date |
| `App.ToggleTotal` | src/App.tsx:57 | a toggle moves totalCompletions by exactly one, down if the date was completed and up otherwise |
| `App.Toggled` | src/App.tsx:50-62 | only habits with the id get toggled completions; every other habit is unchanged |
| `App.ToggledUnique` | src/App.tsx:50-62 | toggle keeps ids unique |
| `App.HabitStore.constructor` | src/App.tsx:10-12 | the list starts empty with nothing being edited |
| `App.HabitStore.CreateHabit` | src/App.tsx:25-33 | the list becomes the created list; with a fresh id unique ids are kept |
| `App.HabitStore.OpenEditForm` | src/App.tsx:69-72 | the habit becomes the one being edited and the list is unchanged |
| `App.HabitStore.EditHabit` | src/App.tsx:35-44 | a no-op when nothing is being edited; otherwise the list becomes the edited list and nothing is being edited |
| `App.HabitStore.DeleteHabit` | src/App.tsx:46-48 | the list becomes the filtered list and unique ids are kept |
| `App.HabitStore.ToggleCompletion` | src/App.tsx:50-62 | the list becomes the toggled list and unique ids are kept |
| `StatsOverview.Sum` | src/components/StatsOverview.tsx:12-22 | the `reduce` sum from 0 is never negative when no term is; `SumPermutation` shows it does not depend on order |
| `StatsOverview.Max` | src/components/StatsOverview.tsx:24-27 | the `reduce` maximum from 0 is never negative; `MaxSpec` shows it bounds and is attained by the values |
| `StatsOverview.OverviewOf` | src/components/StatsOverview.tsx:11-27 | totalHabits is the number of habits, the completions and best streak are never negative, and the average rate lies in 0..100 |
| `StatsOverview.RoundedMean` | src/components/StatsOverview.tsx:17-22 | the result is sum / n rounded to the nearest integer, halves up |
| `StatsOverview.MaxSpec` | src/components/StatsOverview.tsx:24-27 | the reduce maximum is at least 0 and every value, and is 0 or one of the values |
| `StatsOverview.SumBounds` | src/components/StatsOverview.tsx:17-22 | a sum of values in 0..hi lies in 0..hi times the count |
| `StatsOverview.SumSame` | src/components/StatsOverview.tsx:12-22 | sums of two functions that agree on the list agree |
| `StatsOverview.RoundedMeanRange` | src/components/StatsOverview.tsx:17-22 | a rounded mean of percentages is a percentage |
| `StatsOverview.RatesArePercentages` | src/components/StatsOverview.tsx:19-20 | every habit's completion rate lies in 0..100 |
| `StatsOverview.TotalCompletionsSpec` | src/components/StatsOverview.tsx:12-15 | the completions figure is the sum of each habit's totalCompletions and is never negative |
| `StatsOverview.AverageRateSpec` | src/components/StatsOverview.tsx:17-22 | the average is 0 for no habits, else the mean of the rates rounded half up, and lies in 0..100 |
| `StatsOverview.BestStreakSpec` | src/components/StatsOverview.tsx:24-27 | the best streak is at least every habit's longestStreak and is 0 or one of them |
| `StatsOverview.SumRemove` | src/components/StatsOverview.tsx:12-15 | taking one habit out of a sum subtracts its term |
| `StatsOverview.MaxRemove` | src/components/StatsOverview.tsx:24-27 | the maximum is the larger of one habit's term and the maximum of the rest |
| `StatsOverview.SumPermutation` | src/components/StatsOverview.tsx:12-22 | a sum does not depend on the order of the habits |
| `StatsOverview.MaxPermutation` | src/components/StatsOverview.tsx:24-27 | a maximum does not depend on the order of the habits |
| `StatsOverview.OverviewOrderIndependent` | src/components/StatsOverview.tsx:11-27 | none of the four figures depends on the order of the habit list |

## Left out

- Storage (`loadHabits`, `saveHabits` and the two `useEffect` hooks) is
  input and output with no logic. src/utils/storage.ts is not part of this
  model.
- React plumbing is left out: `isFormOpen`, `openCreateForm`, `closeForm`
  and the rendering of the components. `HabitForm`'s check that the trimmed
  name is not empty is not part of this model, so create and edit accept any
  name.
- The clock is a parameter: `new Date()` becomes the day `today`.
- Time zones are not modelled. `toISOString` prints the UTC date while
  `setDate` moves local days. The model treats both as the same calendar
  day, as the code does when the local zone is UTC.
- The current-streak loop turns a key back into a `Date` with
  `new Date(key)` and steps it back one day. The model keeps the `Date`
  itself, so it does not parse keys.
- `crypto.randomUUID()` and the `createdAt` timestamp are supplied by the
  caller. Unique ids after create are proved only for a fresh id.
- `getDayName` is locale formatting and is not modelled.
- Strings compare by Dafny characters. JavaScript compares UTF-16 code
  units, and the two orders differ only for characters outside the Basic
  Multilingual Plane, which date keys never contain.
- The JavaScript `Date` range (about 275,000 years either way) is not
  bounded. Years beyond it are printed by the same rule.
- Floating point is replaced by exact integers:
  - `Math.round(c / 30 * 100)` is computed as `(20c + 3) / 6`.
  - The average rate `Math.round(sum / n)` is computed as
    `(2·sum + n) / (2·n)`.
  The model assumes the floating-point quotient rounds the same way as the
  exact one.
- `StatsOverview.Sum` and `StatsOverview.Max` are the `reduce` folds. Like
  the source, the maximum starts from 0.
- HabitUtils.Marked reads a key that is not in the map as not completed. In
  JavaScript, `completions[k]` for a key that names an `Object.prototype`
  member (`"constructor"`, `"toString"`, `"__proto__"`) returns that inherited
  member, which is truthy. The model does not capture this.
- App.Toggle therefore stores `true` for such a date where the source stores
  `false`. Date keys never name such members.
- DateUtils.DateString takes a whole number of days. The source's `number`
  offset may be fractional. `setDate` truncates the day number
  `getDate() + offset` toward zero, so a fractional offset lands on a day
  that depends on the day of the month. The model does not cover fractional
  offsets.
- DateUtils.LastNDays takes an integer count. For a fractional `n` the
  source's loop starts at `n - 1` and steps by one, so every offset it
  passes is fractional, and the window need not end today. Callers pass 7
  and 30.
