# Habitual: a verified model of the habit tracker's core

Habitual is a browser habit tracker. A habit is either a yes/no habit or a
measurable one, with an optional target, unit and cadence (`frequencyDays`).
Its history maps local calendar dates to the value recorded on that day.
This project models the logic behind the tracker:

- the local-date helpers (`YYYY-MM-DD` strings and runs of days);
- whether a habit meets its cadence on a day, and its score;
- the colour helpers (an alpha byte appended to a hex colour, and the
  darkness test that picks the text colour);
- the frequency classification of the habit form;
- the analytics widgets:
  - the overview: current and longest streak, total completions, the last
    30 days, opacity of the activity cells;
  - the history chart: period keys, the generators of week, month,
    quarter and year keys, labels, per-period totals, y-axis ticks;
  - the calendar: padding to the week start, week columns, the days of a
    year, month labels, the year range, alpha extraction, cell intensity;
  - the targets: the current week, month, quarter or year as a range of
    days, and the progress towards a pro-rated target;
- three stateful hooks:
  - the form state (the habit being edited, the chosen type, the
    validation errors);
  - the habit store (load, add, update, delete, record a value, reorder);
  - the visible dates (how many date columns fit in the window).

Dates are day numbers in the local proleptic Gregorian calendar
(`Civil`). The JavaScript `Date` operations the source uses are modelled
on them:

- `new Date(y, m, d)`, with its carrying of months and days, and its
  reading of years 0..99 as 1900..1999;
- `getDay`, `getDate`, `getMonth`, `setMonth`, `setFullYear`.

Dates are parsed with `Number` and formatted with `toString` and
`padStart` (`Text`). A history is a `map<Day, real>`. Its keys are day
numbers rather than strings; `Dates.ParseFormat` and
`Dates.DateStringInjective` justify this, since from the year 100 on a day
and its string determine each other.

The present moment (`new Date()`), the window width and the contents of
`localStorage` are parameters. Each React state hook is a class whose
fields are the hook's state. Each setter is a method whose `ensures` gives
the new state as a function of the old one. The properties are proved
about those functions.

Loops of the source are loops here, with their invariants. These are:

- the window sum of `isHabitSatisfiedOnDate`;
- the two streak scans;
- the key generators;
- the counting loop of `transformHistoryData`;
- the day loop of `getProgress`;
- the padding loop of `padDatesToWeekStart`;
- the grouping loop of `groupDatesByWeek`.

## Model

| member | source | states |
|---|---|---|
| Dates.ToDateStringLocal | src/lib/dates.ts:2-7 | the local year, then the month and day padded to two digits, joined by `-`; `DateStringShape`, `ParseFormat` and `DateStringInjective` state its shape and that it reads back |
| Dates.DateStringShape | src/lib/dates.ts:2-7 | for a four-digit year the local date string is `YYYY-MM-DD`: ten characters, dashes at 4 and 7 |
| Dates.ParseDateStringLocal | src/lib/dates.ts:10-13 | a string that parses had at least three dash-separated parts |
| Dates.ParseOfParts | src/lib/dates.ts:10-13 | a string whose three parts read as numbers y, m, d parses to `new Date(y, m - 1, d)` |
| Dates.ParseFormat | src/lib/dates.ts:2-13 | parsing the string of a day from the year 100 on gives the day back |
| Dates.DateStringInjective | src/lib/dates.ts:2-7 | distinct days from the year 100 on have distinct strings |
| Dates.TodayLocalString | src/lib/dates.ts:16-18 | today's string reads back as today (year 100 on) |
| Dates.DaysInRange | src/lib/dates.ts:20-31 | `lengthDays` entries; entry i is `start` minus i days, or, reversed, the same days ascending and ending at `start` |
| Dates.GetDatesInRange | src/lib/dates.ts:20-31 | `lengthDays` strings, entry i the string of the i-th day of `DaysInRange` |
| Dates.DaysInRangeConsecutive | src/lib/dates.ts:20-31 | the list starts at `start`, steps back one calendar day per entry, and the reversed list is its reverse |
| Civil.MakeLocalDate | src/lib/dates.ts:12 | `new Date(y, m, d)`: a year in 0..99 is read as 1900 + y, and month and day overflow into the next ones; `MakeLocalDateOfValid` ties it to the calendar date |
| Civil.FromToDay | src/lib/dates.ts:12 | a valid calendar date converted to its day number and back is itself |
| Civil.ToDayInjective | src/lib/dates.ts:12 | distinct valid dates have distinct day numbers |
| Civil.MakeLocalDateOfValid | src/lib/dates.ts:12 | `new Date(y, m - 1, d)` of a valid date outside the years 0..99 is that date's day |
| Civil.JsRem | src/components/Widgets/CalendarWidget/helpers.ts:19 | JavaScript `%`: the Euclidean remainder for a non-negative dividend, a non-positive remainder above `-b` for a negative one |
| Text.NumberOfIntToString | src/lib/dates.ts:11 | `Number(String(n))` is n |
| Text.PadStart2RoundTrip | src/lib/dates.ts:4-5 | `padStart(2, "0")` of a number below 100 is two digits that read back as the number |
| Text.HexRoundTrip | src/lib/color.ts:4 | `toString(16)` reads back as the number |
| Satisfaction.IsHabitSatisfiedOnDate | src/lib/habitSatisfaction.ts:5-24 | for a date that parses, the answer is whether the `frequencyDays ?? 1` days ending on it hold at least `target ?? 1`; a `frequencyDays` of 0 or below gives an empty window, compared as 0 with the target; an unparseable date throws unless the window is empty |
| Satisfaction.SumWindow | src/lib/habitSatisfaction.ts:15-21 | the loop adds up exactly the values of the window's days, missing days as 0 |
| Satisfaction.DailySatisfied | src/lib/habitSatisfaction.ts:6-7 | a daily habit with target 1 is satisfied on a day exactly when that day's value is at least 1 |
| Satisfaction.SatisfiedFrame | src/lib/habitSatisfaction.ts:11-21 | only the values inside the window decide the answer |
| Satisfaction.SatisfiedMonotone | src/lib/habitSatisfaction.ts:16-23 | recording a larger value on any day never breaks satisfaction |
| Satisfaction.EmptyHistoryUnsatisfied | src/lib/habitSatisfaction.ts:16-23 | with no history a positive target is never met |
| Satisfaction.EmptyWindowComparesZero | src/lib/habitSatisfaction.ts:15-23 | with a `frequencyDays` of 0 or below the loop never runs, and the habit is satisfied exactly when the target is at most 0 |
| Satisfaction.FullWindow | src/lib/habitSatisfaction.ts:5-24 | a window of all ones meets exactly the targets up to its length |
| Scoring.FallbackDays | src/lib/scoring.ts:28 | the multiplier `frequencyDays \|\| 7` of a measurable target is never 0 |
| Scoring.ScoreWindow | src/lib/scoring.ts:13 | the length of the list built from `frequencyDays \|\| 7`: 7 for an absent or zero count, the count when positive, and empty exactly when it is negative |
| Scoring.TargetTimes | src/lib/scoring.ts:24 | the yes/no denominator `frequencyTimes \|\| windowLength` is 0 exactly when the window is empty and `frequencyTimes` is absent or 0 |
| Scoring.TotalTarget | src/lib/scoring.ts:28 | the measurable denominator `target * (frequencyDays \|\| 7)` is never 0 for a non-zero target |
| Scoring.ScoreOf | src/lib/scoring.ts:22-32 | for a given window sum: NaN exactly in the `0 / 0` case, otherwise at most 100, and 0 for a measurable habit without a target |
| Scoring.CalculateHabitScore | src/lib/scoring.ts:8-33 | the score is NaN exactly for a yes/no habit with a negative `frequencyDays` and no `frequencyTimes` (`0 / 0`); otherwise it is at most 100, and 0 for a measurable habit without a target |
| Scoring.PerformanceIsWindowSum | src/lib/scoring.ts:13-20 | the performance is the sum of the window ending today, the same window the cadence check sums |
| Scoring.ScoreNonNegative | src/lib/scoring.ts:22-30 | non-negative values and a positive denominator give a score that is a number and at least 0 |
| Scoring.EmptyHistoryScoresZero | src/lib/scoring.ts:8-33 | an empty history scores 0, or NaN in the `0 / 0` case |
| Scoring.ZeroPerformanceScoresZero | src/lib/scoring.ts:22-32 | a window summing to 0 scores 0, or NaN in the `0 / 0` case |
| Scoring.NegativeWindowScoresZero | src/lib/scoring.ts:13-30 | a negative `frequencyDays` empties the window: the score is 0, or NaN for a yes/no habit without `frequencyTimes` |
| Scoring.PerfectWeekScores100 | src/lib/scoring.ts:22-25 | a yes/no habit done on each of the last seven days scores 100 |
| Scoring.MeasurableAtTargetScores100 | src/lib/scoring.ts:26-30 | a measurable habit meeting its positive daily target on every day of a non-empty window scores 100 |
| Color.ClampOpacity | src/lib/color.ts:3 | the opacity, 1 when absent, clamped to 0..1, unchanged when already inside |
| Color.AlphaByte | src/lib/color.ts:3 | the alpha byte is at most 255 |
| Color.AlphaByteMonotone | src/lib/color.ts:3 | more opacity never gives a smaller byte |
| Color.AddAlpha | src/lib/color.ts:1-5 | the colour followed by the unpadded hex alpha byte; `AddAlphaReadsBack` and `HeatMapAlphas` state the suffix |
| Color.AddAlphaReadsBack | src/lib/color.ts:1-5 | the colour is kept as a prefix and the suffix is hex digits whose value is the alpha byte, one digit below 16 and two from 16 on |
| Color.HeatMapAlphas | src/lib/color.ts:1-5 | the opacities 0.3, 0.5, 0.7 and none give the suffixes `4D`, `80`, `B3`, `FF` |
| Color.TransparentSuffixIsOneDigit | src/lib/color.ts:4 | opacity 0 on `#FF0000` gives the eight-character `#FF00000` |
| Color.HexByte | src/lib/color.ts:4 | a byte padded to two upper-case hex digits |
| Color.AddAlphaPaddedReadsBack | src/lib/color.ts:1-5 | the padded suffix is always two digits that read back as the alpha byte, and agrees with `addAlpha` from 16 on |
| Color.ColorDigits | src/lib/color.ts:9-13 | at most the first six characters of the colour are read |
| Color.HexNumber | src/lib/color.ts:13 | `parseInt(_, 16)` of at most six digits is below 2^24, and NaN reads as 0 |
| Color.SixDigitChannels | src/lib/color.ts:13-16 | the red, green and blue channels of six hex digits are the values of their three pairs |
| Color.IsColorDark | src/lib/color.ts:7-20 | the weighted brightness of the colour's red, green and blue, blended with white by the alpha, is below 140; `OpaqueThreshold`, `DarkerWhenOpaquer` and the lemmas below state its behaviour |
| Color.ShortFormIsDoubled | src/lib/color.ts:10-12 | a three-digit colour is judged as its doubled six-digit form |
| Color.HashIsOptional | src/lib/color.ts:9 | a leading `#` makes no difference |
| Color.BlackIsDark | src/lib/color.ts:7-20 | opaque `#000` is dark |
| Color.WhiteIsLight | src/lib/color.ts:7-20 | opaque `#FFFFFF` is not dark |
| Color.TransparentIsLight | src/lib/color.ts:18-19 | at opacity 0 no colour is dark |
| Color.OpaqueThreshold | src/lib/color.ts:18-19 | fully opaque, a colour is dark exactly when its brightness is below 140 |
| Color.DarkerWhenOpaquer | src/lib/color.ts:18-19 | a colour dark at some opacity is dark at every higher opacity |
| Frequency.GetFrequencySummary | src/lib/habitFormHelpers.ts:3-10 | "Select frequency" exactly when no guard applies; "Every day" exactly for 1 day and target 1 |
| Frequency.GetDialogFrequencyType | src/lib/habitFormHelpers.ts:12-19 | every day exactly for 1 day and target 1, or when no guard applies |
| Frequency.SummaryMatchesDialog | src/lib/habitFormHelpers.ts:3-19 | the summary and the dialog's initial choice always name the same schedule, with the habit's own numbers |
| Frequency.WeeklyAndMonthly | src/lib/habitFormHelpers.ts:6-7 | 7 and 30 days read as times per week and month, a missing count as once |
| FormState.MergeLaws | src/hooks/useHabitFormState.ts:21-26 | merging the empty patch changes nothing, merging twice is merging once, and two merges are one merge of the combined patch |
| FormState.SelectType | src/hooks/useHabitFormState.ts:28-38 | the new type, no frequency, target 1 and no unit for yes/no, the old target and unit for measurable, nothing else changed |
| FormState.ApplyFrequency | src/hooks/useHabitFormState.ts:65-77 | the schedule's (days, target) pair replaces those two fields and nothing else changes |
| FormState.FrequencyRoundTrip | src/hooks/useHabitFormState.ts:65-77 | a saved schedule reopens in the dialog as itself exactly when its inputs do not collide with an earlier row |
| FormState.ValidationErrors | src/hooks/useHabitFormState.ts:43-55 | each field's message is present exactly when its check fails: name always, unit and target for measurable habits, frequency for both types |
| FormState.NoErrorsIffComplete | src/hooks/useHabitFormState.ts:43-55 | no errors exactly when the habit has a name, a frequency and, when measurable, a unit and a positive target |
| FormState.FreshFormErrors | src/hooks/useHabitFormState.ts:8-19 | the empty form reports exactly a missing name and a missing frequency |
| FormState.TypeSelectionNeedsFrequency | src/hooks/useHabitFormState.ts:28-38 | choosing a type always asks for the frequency again; a yes/no habit then needs only a name and a frequency |
| FormState.FrequencyClearsError | src/hooks/useHabitFormState.ts:65-77 | a schedule with a nonzero number of days clears the frequency error |
| FormState.HabitForm.constructor | src/hooks/useHabitFormState.ts:4-19 | the initial habit and its type, or the empty form and no type; no errors, nothing saved |
| FormState.HabitForm.UpdateHabit | src/hooks/useHabitFormState.ts:21-26 | the habit becomes the merge; nothing else changes |
| FormState.HabitForm.HandleTypeSelection | src/hooks/useHabitFormState.ts:28-38 | the type is set and the habit is `SelectType` of the old one |
| FormState.HabitForm.UpdateHabitFrequency | src/hooks/useHabitFormState.ts:65-77 | the habit is `ApplyFrequency` of the old one |
| FormState.HabitForm.HandleSave | src/hooks/useHabitFormState.ts:57-63 | the errors are stored, and the habit is handed on exactly when there are none |
| Store.SortByOrderSpec | src/hooks/useHabits.tsx:35 | the sort by `order` is ordered, a permutation, and stable |
| Store.WithOrders | src/hooks/useHabits.tsx:32-35 | each habit keeps its stored order or takes its index |
| Store.Load | src/hooks/useHabits.tsx:25-42 | the stored habits with orders filled in, sorted by order; `LoadSpec` states it |
| Store.LoadSpec | src/hooks/useHabits.tsx:25-42 | nothing stored gives the empty list; otherwise the parsed habits with orders filled in, sorted, with ties in stored order |
| Store.MaxOrder | src/hooks/useHabits.tsx:55 | an upper bound of the orders that one habit attains |
| Store.Added | src/hooks/useHabits.tsx:53-59 | the habit appended with an order one above the largest; `AddedSpec` states it |
| Store.AddedSpec | src/hooks/useHabits.tsx:53-59 | the new habit comes last with an order above every other; sortedness and distinct orders are kept |
| Store.Updated | src/hooks/useHabits.tsx:61-68 | the list keeps its length; `UpdatedSpec` states that only habits with the id change |
| Store.UpdatedSpec | src/hooks/useHabits.tsx:61-68 | only habits with the id change, each by the merge; an unknown id changes nothing |
| Store.Deleted | src/hooks/useHabits.tsx:70-73 | the habits without the id, in order; `DeletedSpec` states it |
| Store.DeletedSpec | src/hooks/useHabits.tsx:70-73 | every habit with the id is removed and every other kept as often as before |
| Store.WithCompletion | src/hooks/useHabits.tsx:75-90 | the list keeps its length; `WithCompletionSpec` states that only the matching habit's day changes |
| Store.WithCompletionSpec | src/hooks/useHabits.tsx:75-90 | the matching habit reads the value on the day and its old values elsewhere; nothing else changes |
| Store.SpliceIndex | src/hooks/useHabits.tsx:95-96 | `splice`'s start position is clamped into `0 .. length` |
| Store.RemoveAtSpec | src/hooks/useHabits.tsx:95 | taking one element out leaves the rest |
| Store.InsertAtSpec | src/hooks/useHabits.tsx:96 | inserting puts the element at its index, and taking it out again undoes the insertion |
| Store.MovedSpec | src/hooks/useHabits.tsx:94-96 | the moved habit lands at the end position, the others keep their sorted order, and the list is a permutation |
| Store.Renumber | src/hooks/useHabits.tsx:99-102 | each habit gets its position as its order |
| Store.Reordered | src/hooks/useHabits.tsx:92-105 | the habit moved from the start to the end position, then renumbered; `MovedSpec` and `ReorderedOrders` state it |
| Store.ReorderedOrders | src/hooks/useHabits.tsx:92-105 | after a reorder the orders are exactly the positions |
| Store.HabitStore.constructor | src/hooks/useHabits.tsx:25-42 | the initial list is the loaded one |
| Store.HabitStore.AddHabit | src/hooks/useHabits.tsx:53-59 | the list becomes `Added` of the old one |
| Store.HabitStore.UpdateHabit | src/hooks/useHabits.tsx:61-68 | the list becomes `Updated` of the old one |
| Store.HabitStore.DeleteHabit | src/hooks/useHabits.tsx:70-73 | the list becomes `Deleted` of the old one |
| Store.HabitStore.UpdateCompletion | src/hooks/useHabits.tsx:75-90 | the list becomes `WithCompletion` of the old one |
| Store.HabitStore.ReorderHabits | src/hooks/useHabits.tsx:92-105 | the list becomes `Reordered` of the old one |
| VisibleDates.CellWidth | src/hooks/useVisibleDates.ts:13-20 | a cell is 40, 48 or 56 pixels wide |
| VisibleDates.DateCount | src/hooks/useVisibleDates.ts:22-27 | at least five columns |
| VisibleDates.DateCountFits | src/hooks/useVisibleDates.ts:22-27 | above five, the columns fit in the width left over and one more would not; at five, six would not fit |
| VisibleDates.DateCountExamples | src/hooks/useVisibleDates.ts:13-27 | 1200, 768, 480 and 200 pixels give 18, 13, 8 and 5 columns |
| VisibleDates.DateCountMonotoneInBand | src/hooks/useVisibleDates.ts:13-27 | within one breakpoint band a wider window never shows fewer columns |
| VisibleDates.DateCountDropsAtBreakpoint | src/hooks/useVisibleDates.ts:13-27 | crossing 1024 pixels drops the count from 18 to 15 |
| VisibleDates.InvalidDateStringParse | src/hooks/useVisibleDates.ts:30 | the string of an invalid date does not parse |
| VisibleDates.Recalculated | src/hooks/useVisibleDates.ts:30 | the new run has `count` dates |
| VisibleDates.RecalculatedKeepsFirstDate | src/hooks/useVisibleDates.ts:30 | the new run counts back from the first date shown and starts with it |
| VisibleDates.RecalculatedIdempotent | src/hooks/useVisibleDates.ts:30 | recalculating twice with the same count is recalculating once |
| VisibleDates.VisibleDatesState.constructor | src/hooks/useVisibleDates.ts:5-6 | five columns counting back from today |
| VisibleDates.VisibleDatesState.SetVisibleDates | src/hooks/useVisibleDates.ts:38 | the run is replaced and the count kept |
| VisibleDates.VisibleDatesState.CalculateDateCount | src/hooks/useVisibleDates.ts:9-31 | the count is `DateCount(width)` and the run is recalculated to that many dates |
| Overview.CalculateCurrentStreak | src/components/widgets/OverviewWidget/helpers.ts:10-50 | 0 when neither today nor yesterday is done; otherwise the length of the maximal run of done days ending today, or yesterday when today is not done |
| Overview.NoneDoneBetween | src/components/widgets/OverviewWidget/helpers.ts:58-87 | no day strictly between two neighbouring done days is done |
| Overview.CalculateLongestStreak | src/components/widgets/OverviewWidget/helpers.ts:58-87 | every run of done days is at most the result, one run attains it, and it is 0 exactly when no day is done |
| Overview.StepBounded | src/components/widgets/OverviewWidget/helpers.ts:69-84 | passing the next done day keeps every run within the bound |
| Overview.AllRunsBounded | src/components/widgets/OverviewWidget/helpers.ts:58-87 | a bound on the runs up to the last done day bounds every run |
| Overview.CalculateTotalCompletions | src/components/widgets/OverviewWidget/helpers.ts:95-97 | an empty history totals 0 |
| Overview.TotalAfterUpdate | src/components/widgets/OverviewWidget/helpers.ts:95-97 | recording v on a day moves the total by v minus the old value |
| Overview.TotalNonNegative | src/components/widgets/OverviewWidget/helpers.ts:95-97 | non-negative values give a non-negative total |
| Overview.GetRecentActivity | src/components/widgets/OverviewWidget/helpers.ts:106-121 | one entry per day of the window ending today, oldest first, with that day's value and whether it is done |
| Overview.RecentActivityEndsToday | src/components/widgets/OverviewWidget/helpers.ts:106-121 | the last entry is today |
| Overview.RecentActivityEmpty | src/components/widgets/OverviewWidget/helpers.ts:106-121 | with no history every entry is undone with value 0 |
| Overview.FormatCompletionCount | src/components/widgets/OverviewWidget/helpers.ts:130-141 | the count, a space and: "completions" without a unit, the unit as given for a count of 1, and otherwise a unit ending in `s` |
| Overview.GetActivityOpacity | src/components/widgets/OverviewWidget/helpers.ts:150-155 | 0.3 for nothing, 1 at or above the target, strictly between 0.5 and 1 below it |
| Overview.OpacityMonotone | src/components/widgets/OverviewWidget/helpers.ts:150-155 | for a positive target more activity never gives a paler cell |
| Overview.CreateOverviewStats | src/components/widgets/OverviewWidget/helpers.ts:163-170 | the current streak is the run of done days ending today, or yesterday when today is not done, and 0 when neither is; the longest streak bounds every run and one run reaches it; the current never exceeds the longest; the total and the recent activity are the helpers' results |
| PeriodKeys.GetPeriodKey | src/components/Widgets/HistoryWidget/helpers.ts:19-35 | the text of the day's week, month, quarter or year bucket; `PeriodKeyReadsBack` and `PeriodKeyInjective` state that it names the bucket |
| PeriodKeys.KeyRoundTrip | src/components/Widgets/HistoryWidget/helpers.ts:19-49 | every readable week, month, quarter or year key reads back as its bucket |
| PeriodKeys.PeriodKeyReadsBack | src/components/Widgets/HistoryWidget/helpers.ts:19-35 | from the year 0 on, a day's key reads back as the day's bucket |
| PeriodKeys.PeriodKeyInjective | src/components/Widgets/HistoryWidget/helpers.ts:19-35 | two days share a key exactly when they share a bucket |
| PeriodKeys.WeekNumber | src/components/Widgets/HistoryWidget/helpers.ts:43-49 | the week of the year, counting Sunday-to-Saturday weeks from January 1; `WeekNumberBounds`, `WeekNumberOfJanFirst` and `WeekNumberStep` state it |
| PeriodKeys.WeekNumberBounds | src/components/Widgets/HistoryWidget/helpers.ts:43-49 | week numbers run from 1 to 54 |
| PeriodKeys.WeekNumberOfJanFirst | src/components/Widgets/HistoryWidget/helpers.ts:43-49 | January 1 is always in week 1 |
| PeriodKeys.WeekNumberStep | src/components/Widgets/HistoryWidget/helpers.ts:43-49 | inside a year the week number goes up by one exactly on Sundays |
| PeriodKeys.FirstDayOfWeek | src/components/Widgets/HistoryWidget/helpers.ts:79-89 | the result falls on the start weekday, in the first seven days from January 1 moved on by `week - 1` weeks |
| PeriodKeys.GetPeriodLabel | src/components/Widgets/HistoryWidget/helpers.ts:57-70 | a week or quarter key with its first dash replaced, a month key as its year and month, a year key as itself; `MonthLabel`, `QuarterLabel` and `WeekPeriodLabel` state it |
| PeriodKeys.MonthLabel | src/components/Widgets/HistoryWidget/helpers.ts:57-70 | a month key is labelled with its year and that month |
| PeriodKeys.QuarterLabel | src/components/Widgets/HistoryWidget/helpers.ts:57-70 | a quarter key `Y-Qn` is labelled `Y Qn` |
| PeriodKeys.WeekPeriodLabel | src/components/Widgets/HistoryWidget/helpers.ts:57-70 | a week key `Y-Wn` is labelled `Y WWn` |
| PeriodKeys.GetWeekLabel | src/components/Widgets/HistoryWidget/helpers.ts:98-123 | the day of the month exactly when the week starts in the same month and year as the previous one, else the month and the year's last two digits |
| PeriodKeys.WeekLabelOfKeys | src/components/Widgets/HistoryWidget/helpers.ts:98-123 | for generated week keys, the label is the week's first day of the month when the previous week started in the same month, else its month and year |
| HistoryChart.AdvanceLater | src/components/Widgets/HistoryWidget/helpers.ts:172-230 | every generator step moves forward, so the loops end |
| HistoryChart.Walk | src/components/Widgets/HistoryWidget/helpers.ts:172-230 | every date visited lies between the first date and the end |
| HistoryChart.MondayOnOrBefore | src/components/Widgets/HistoryWidget/helpers.ts:170 | a Monday in the seven days up to the date |
| HistoryChart.GetWeeklyPeriodKeysAsWritten | src/components/Widgets/HistoryWidget/helpers.ts:166-178 | the keys of the Mondays from the one on or before the start through the end |
| HistoryChart.GetMonthlyPeriodKeys | src/components/Widgets/HistoryWidget/helpers.ts:186-196 | the keys of the firsts of the months from the start's month through the end |
| HistoryChart.GetQuarterlyPeriodKeys | src/components/Widgets/HistoryWidget/helpers.ts:204-214 | the keys of the quarter starts from the start's quarter through the end |
| HistoryChart.GetYearlyPeriodKeys | src/components/Widgets/HistoryWidget/helpers.ts:222-232 | the keys of the January firsts from the start's year through the end |
| HistoryChart.FirstDateAligned | src/components/Widgets/HistoryWidget/helpers.ts:186-232 | the month, quarter and year generators start on a step-aligned first of a month, not after the start |
| HistoryChart.WalkCovers | src/components/Widgets/HistoryWidget/helpers.ts:186-232 | every day up to the end shares its bucket with a date the generator visits |
| HistoryChart.WalkDistinctPeriods | src/components/Widgets/HistoryWidget/helpers.ts:186-232 | the generator visits each bucket at most once |
| HistoryChart.GeneratorCovers | src/components/Widgets/HistoryWidget/helpers.ts:186-232 | the month, quarter and year lists hold the key of every day from the start through the end |
| HistoryChart.GeneratorKeysDistinct | src/components/Widgets/HistoryWidget/helpers.ts:186-232 | from the year 100 on those lists hold no key twice |
| HistoryChart.NewYear2026 | src/components/Widgets/HistoryWidget/helpers.ts:166-178 | day 20454 is Thursday 2026-01-01 |
| HistoryChart.ThursdayNewYearKeyApart | src/components/Widgets/HistoryWidget/helpers.ts:166-178 | when January 1 is a Thursday, neither neighbouring Monday has its week key |
| HistoryChart.MondaysFromThursday | src/components/Widgets/HistoryWidget/helpers.ts:166-178 | from a Thursday January 1 to the Saturday after next, the weekly list as written visits only the Monday before and the Monday after |
| HistoryChart.WeeklyAsWrittenSkipsWeekOne | src/components/Widgets/HistoryWidget/helpers.ts:166-178 | for that history the weekly list as written lacks the key of January 1's week |
| HistoryChart.GetWeeklyPeriodKeys | src/components/Widgets/HistoryWidget/helpers.ts:166-178 | the corrected weekly list: the week keys of the days from start through end, each kept when it differs from the previous one |
| HistoryChart.WeekKeysCover | src/components/Widgets/HistoryWidget/helpers.ts:166-178 | every day from start through end has its week key in the corrected list |
| HistoryChart.WeekKeysSound | src/components/Widgets/HistoryWidget/helpers.ts:166-178 | every key in the corrected list is the week key of a day in the range |
| HistoryChart.WeekKeysNoRepeats | src/components/Widgets/HistoryWidget/helpers.ts:166-178 | no key follows itself in the corrected list |
| HistoryChart.WeeklyCorrectedHasWeekOne | src/components/Widgets/HistoryWidget/helpers.ts:166-178 | the corrected list has the key that the as-written list misses |
| HistoryData.GetAllPeriodKeys | src/components/Widgets/HistoryWidget/helpers.ts:133-158 | none for an empty history, else the keys from the earliest recorded day through the later of the latest day and today; weeks are listed as written, one key per Monday from the Monday on or before the earliest day |
| HistoryData.AllPeriodKeysCover | src/components/Widgets/HistoryWidget/helpers.ts:133-158 | every recorded day, and every day from the earliest through today, has its month, quarter or year key listed |
| HistoryData.AllPeriodKeysDistinct | src/components/Widgets/HistoryWidget/helpers.ts:133-158 | from the year 100 on the month, quarter and year keys are distinct |
| HistoryData.CountByPeriod | src/components/Widgets/HistoryWidget/helpers.ts:247-252 | the counts hold exactly the keys of the recorded days, each with the total of its period |
| HistoryData.TransformHistoryData | src/components/Widgets/HistoryWidget/helpers.ts:241-272 | one entry per chart key, in order, with the key, its label and its period's total; for weeks the keys are the as-written weekly list |
| HistoryData.ChartKeysCover | src/components/Widgets/HistoryWidget/helpers.ts:241-272 | every recorded day's month, quarter or year key is among the chart keys |
| HistoryData.WeekChartSkipsFirstWeek | src/components/Widgets/HistoryWidget/helpers.ts:147-148 | the week chart of a history whose only entry is a Thursday 1 January, drawn nine days later, has no key for that entry's week |
| HistoryData.CorrectedWeekKeysCover | src/components/Widgets/HistoryWidget/helpers.ts:147-148 | with the corrected weekly list every recorded day, and every day from the earliest through today, has its week key listed |
| HistoryData.FallbackCovers | src/components/Widgets/HistoryWidget/helpers.ts:255-256 | the fallback to the sorted keys of the counts covers every recorded day too |
| HistoryData.TotalsAddUp | src/components/Widgets/HistoryWidget/helpers.ts:259-271 | over distinct keys covering every recorded day, the totals add up to the sum of all values |
| HistoryData.ChartAccountsForAll | src/components/Widgets/HistoryWidget/helpers.ts:241-272 | the month, quarter and year charts account for every recorded value exactly once |
| HistoryData.MaxCompletions | src/components/Widgets/HistoryWidget/helpers.ts:282 | at least 0, at least every entry's total, and attained unless 0 |
| HistoryData.YAxisLabels | src/components/Widgets/HistoryWidget/helpers.ts:281-289 | `min(max, 5)` + 1 ticks stepping evenly from the largest total down to 0, each rounded; `YAxisDescends`, `YAxisSixTicks` and `YAxisWholeSmall` state them |
| HistoryData.TickMonotone | src/components/Widgets/HistoryWidget/helpers.ts:281-289 | a later tick is not above an earlier one |
| HistoryData.FirstTick | src/components/Widgets/HistoryWidget/helpers.ts:287 | the first tick is the largest total, rounded |
| HistoryData.TickNonNegative | src/components/Widgets/HistoryWidget/helpers.ts:287 | no tick is negative |
| HistoryData.YAxisDescends | src/components/Widgets/HistoryWidget/helpers.ts:281-289 | the ticks run down from the rounded largest total to a non-negative last tick |
| HistoryData.YAxisSixTicks | src/components/Widgets/HistoryWidget/helpers.ts:281-289 | from a largest total of 5 on there are six ticks ending at 0 |
| HistoryData.YAxisWholeSmall | src/components/Widgets/HistoryWidget/helpers.ts:281-289 | a whole largest total n of at most 5 gives n, n - 1, ..., 0 |
| CalendarGrid.PadDatesToWeekStart | src/components/Widgets/CalendarWidget/helpers.ts:12-29 | empty stays empty, an unreadable first date adds nothing, otherwise the days before the first date back to the week start come first |
| CalendarGrid.PadBefore | src/components/Widgets/CalendarWidget/helpers.ts:19-26 | the padding loop puts the `pad` days before the first date in front, oldest first |
| CalendarGrid.PadReachesWeekStart | src/components/Widgets/CalendarWidget/helpers.ts:19 | 0 to 6 days are added, and the first of them falls on the chosen weekday |
| CalendarGrid.PaddingReadsBack | src/components/Widgets/CalendarWidget/helpers.ts:22-26 | from the year 101 on each padding day's string reads back as that day |
| CalendarGrid.GroupDatesByWeek | src/components/Widgets/CalendarWidget/helpers.ts:37-45 | the list cut into runs of seven |
| CalendarGrid.ChunksFlatten | src/components/Widgets/CalendarWidget/helpers.ts:37-45 | the columns hold the dates in order, nothing lost or repeated |
| CalendarGrid.ChunksSizes | src/components/Widgets/CalendarWidget/helpers.ts:37-45 | the list makes ceiling(n / 7) columns of seven, the last holding one to seven |
| CalendarGrid.DatesInYearAsWritten | src/components/Widgets/CalendarWidget/helpers.ts:53-63 | getDatesInYear as written: another year, or the current year at midnight, lists January 1 through its last day; for the current year any time after midnight lists one day more, starting on December 31 of the year before and followed by the corrected list |
| CalendarGrid.DatesInYear | src/components/Widgets/CalendarWidget/helpers.ts:53-63 | corrected: January 1 through December 31, or through today for the current year; `DatesInOtherYear` and `DatesInCurrentYear` state the span |
| CalendarGrid.OtherYearSpan | src/components/Widgets/CalendarWidget/helpers.ts:53-63 | another year ends on December 31 and counts its days from January 1 |
| CalendarGrid.DatesInOtherYear | src/components/Widgets/CalendarWidget/helpers.ts:53-63 | another year lists its 365 or 366 days, January 1 through December 31 |
| CalendarGrid.CurrentYearSpan | src/components/Widgets/CalendarWidget/helpers.ts:57-61 | the current year ends today; as written, any time after midnight adds one day to the count |
| CalendarGrid.DatesInCurrentYear | src/components/Widgets/CalendarWidget/helpers.ts:57-62 | corrected, the current year lists January 1 through today |
| CalendarGrid.DatesInYearStartsADayEarly | src/components/Widgets/CalendarWidget/helpers.ts:61 | as written, after midnight the current year's list holds one day more and starts on December 31 of the year before |
| CalendarGrid.DatesInYearAtMidnight | src/components/Widgets/CalendarWidget/helpers.ts:61 | at midnight exactly the as-written list is the corrected one |
| CalendarGrid.GetMonthLabelForWeek | src/components/Widgets/CalendarWidget/helpers.ts:71-84 | the month of the week's first date, shown when that date is one of the first seven of its month; `MonthLabelMarksNewMonth` and `MonthLabelHidden` state it |
| CalendarGrid.MonthLabelMarksNewMonth | src/components/Widgets/CalendarWidget/helpers.ts:71-84 | the label names the week's first month and is shown exactly when the week before began in an earlier month |
| CalendarGrid.MonthLabelHidden | src/components/Widgets/CalendarWidget/helpers.ts:72-74 | a week without a readable first date shows no month |
| CalendarGrid.JsMinOfSpec | src/components/Widgets/CalendarWidget/helpers.ts:100 | `Math.min` is a number exactly when every entry is, then a lower bound that one entry attains |
| CalendarGrid.GetYearRange | src/components/Widgets/CalendarWidget/helpers.ts:94-110 | from the earliest year among the dates (ten years back at most in edit mode) to this year; `YearRangeBounds` states it |
| CalendarGrid.YearRangeBounds | src/components/Widgets/CalendarWidget/helpers.ts:94-110 | the range ends this year and starts no later than any date's year, and in edit mode at least ten years back; an unreadable date makes the start NaN |
| CalendarGrid.ExtractAlpha | src/components/Widgets/CalendarWidget/helpers.ts:118-121 | the number at the end of an `rgba(` colour, 1 without one; `ExtractAlphaDefault` and `ExtractAlphaOfRgba` state it |
| CalendarGrid.ExtractAlphaDefault | src/components/Widgets/CalendarWidget/helpers.ts:118-121 | a colour without `rgba(` has alpha 1 |
| CalendarGrid.ExtractAlphaOfRgba | src/components/Widgets/CalendarWidget/helpers.ts:118-121 | an rgba colour ending in a decimal gives that decimal's value |
| CalendarGrid.GetColorIntensity | src/components/Widgets/CalendarWidget/helpers.ts:132-142 | grey for a zero value, else the colour at opacity 0.3 below half the target, 0.5 below the target and 0.7 from it on; `IntensityLevels` and `IntensityMonotone` state it |
| CalendarGrid.IntensityLevels | src/components/Widgets/CalendarWidget/helpers.ts:132-142 | grey exactly for 0, opacity 0.7 from the target on, and a weaker one below it |
| CalendarGrid.IntensityMonotone | src/components/Widgets/CalendarWidget/helpers.ts:138-141 | more done never makes a cell fainter |
| Targets.GetPeriodRange | src/components/widgets/TargetsWidget/helpers.ts:11-44 | the week, month, quarter or year holding today; `WeekRange`, `MonthRange`, `QuarterRange`, `YearRange` and `TodayInRange` state them |
| Targets.WeekRange | src/components/widgets/TargetsWidget/helpers.ts:16-25 | the week is the seven days from the last chosen first weekday on or before today |
| Targets.MonthRange | src/components/widgets/TargetsWidget/helpers.ts:26-30 | the month runs from the first of today's month to the day before the next month's first |
| Targets.InMonthRange | src/components/widgets/TargetsWidget/helpers.ts:26-30 | a day is in the range exactly when it is in today's month |
| Targets.QuarterRange | src/components/widgets/TargetsWidget/helpers.ts:31-36 | the quarter runs over the three months of today's quarter |
| Targets.InQuarterRange | src/components/widgets/TargetsWidget/helpers.ts:31-36 | a day is in the range exactly when its month is in today's quarter |
| Targets.YearRange | src/components/widgets/TargetsWidget/helpers.ts:37-41 | the year runs from January 1 to December 31 of today's year |
| Targets.InYearRange | src/components/widgets/TargetsWidget/helpers.ts:37-41 | a day is in the range exactly when it is in today's year |
| Targets.TodayInRange | src/components/widgets/TargetsWidget/helpers.ts:11-44 | today lies in the range of every period |
| Targets.GetProgress | src/components/widgets/TargetsWidget/helpers.ts:53-73 | the value is the sum over the period's days, and the target is `ProgressTarget` of the period's length |
| Targets.SumPeriod | src/components/widgets/TargetsWidget/helpers.ts:57-65 | the loop sums every day of the range and counts them |
| Targets.RangeSumIsWindowTotal | src/components/widgets/TargetsWidget/helpers.ts:57-65 | the period's value is the total of the recorded days inside it, each counted once |
| Targets.ProgressTarget | src/components/widgets/TargetsWidget/helpers.ts:66-72 | the target is NaN exactly when it is missing, or when `frequencyDays` is 0 and the target is 0 or the period has no days; +Infinity exactly for a measurable habit with a positive target over 0 days' cadence; -Infinity exactly for a negative target over it; otherwise whole |
| Targets.ZeroFrequencyTarget | src/components/widgets/TargetsWidget/helpers.ts:66-72 | with a `frequencyDays` of 0 the target is whole exactly for a yes/no habit with a positive target and a non-empty period, and is then the number of days |
| Targets.BooleanTargetAtMostDays | src/components/widgets/TargetsWidget/helpers.ts:66-70 | a yes/no habit's whole target never exceeds the days in the period |
| Targets.DailyTargetIsDays | src/components/widgets/TargetsWidget/helpers.ts:66-72 | a once-a-day target asks for every day of the period |
| Targets.MeasurableTargetProRated | src/components/widgets/TargetsWidget/helpers.ts:66-72 | a measurable target is the per-cadence target spread over the period, rounded, for any non-zero cadence, negative ones included |

## Left out

- Years 0..99: `new Date(y, …)` reads them as 1900..1999. The date round trips, the month, quarter and year key coverage, and the calendar and targets range lemmas are stated from the year 100 (in places 101) on.
- Time zones and daylight saving: every date is a local calendar day. `isHabitSatisfiedOnDate`, `calculateHabitScore` and `getProgress` build their history keys with `toISOString` (UTC). `isHabitSatisfiedOnDate` starts from local midnight, so east of UTC its key names the day before. The model reads the local day.
- `Scoring.CalculateHabitScore` and `Targets.GetPeriodRange`: the score's window (src/lib/scoring.ts:12-16) and the week range (src/components/widgets/TargetsWidget/helpers.ts:17-24) start from `new Date()`, which carries the time of day. West of UTC in the evening, `toISOString` then names the next day. The model takes today as a local day.
- `Overview.CalculateLongestStreak`: the source measures the gap between two dates in milliseconds and floors it to days (src/components/widgets/OverviewWidget/helpers.ts:74). Across the spring-forward night the gap is 23 hours, which floors to 0 and restarts the streak. The model counts calendar days, so such a run stays unbroken.
- Locale text: month names from `toLocaleString` are kept as month indices. The numbers interpolated into the frequency summary are kept as numbers.
- Floating point: numbers are exact reals or unbounded integers. `Math.round` is `floor(x + 0.5)`.
- The y-axis labels of an all-zero chart, where `0 / 0` is NaN: `HistoryData.YAxisLabels` requires a positive largest total.
- I/O: reading and writing `localStorage` are left out. The load takes the parsed list, or None for nothing stored or a parse error. The save effect and the update counter are not modelled.
- The window resize listener of the visible dates hook: `CalculateDateCount` takes the width as a parameter.
- `VisibleDates.VisibleDatesState.CalculateDateCount`: requires a non-empty run, since `prev[0]` of an empty run throws in the source.
- `VisibleDates.DateCount`: its own ensures is only the lower bound. `DateCountFits` states the rest.
- `parseInt`: whitespace, signs and the `0x` prefix are not modelled. The colour's digits are read as hexadecimal up to the first non-digit.
- `Color.IsColorDark`: the alpha is a real or absent (1). A NaN alpha is not modelled.
- `Text.NumberOf`: reads an optional minus sign followed by decimal digits. JavaScript's `Number` also accepts surrounding whitespace, a `+` sign, decimals, exponents and the `0x`, `0o` and `0b` prefixes. Date parts written that way read as None in the model and as a number in the source.
- `Overview.GetActivityOpacity`: requires `value >= 0` or a non-zero target. A negative value against a target of 0 gives `0.5 + 0.5 * (value / 0)`, which is -Infinity, and reals cannot express that.
- `Store.HabitStore.UpdateCompletion`: takes the day number instead of the date string key.
- `Store.HabitStore.ReorderHabits`: requires a start index that names a habit. With any other start, `splice` yields `undefined` and the source inserts it into the list.
- `Targets.ProgressTarget`: a `frequencyDays` of 0 divides by zero. This is modelled with `Rounded`, which holds +Infinity, -Infinity and NaN. Other non-finite inputs are not modelled: a NaN or infinite target, and a non-integer `frequencyDays`.
- `CalendarGrid.PaddingReadsBack`: stated from the year 101 on.
- `Scoring.MeasurableAtTargetScores100`: stated for a non-empty window. A negative `frequencyDays` empties it, and the score is then 0, as `Scoring.NegativeWindowScoresZero` states.
- `HistoryChart.WeekKeysNoRepeats`: states that adjacent keys differ, not that all keys are distinct.
- `HistoryData.CountByPeriod`: visits the days in increasing order, while the source visits them in the history's insertion order. The totals do not depend on the order: `SumValuesRemove` proves this.
- The habit form's fields beyond those the form edits (id, history, creation time, order) are not part of the form model.
- `FormState.HabitForm`: `setHabit`, `setHabitType` and `setErrors` are returned raw by the hook. They are the plain field assignments and are not modelled as methods.

## Findings

| source | as written | input that shows it | evidently intended | confidence | as-written member | corrected member |
|---|---|---|---|---|---|---|
| src/components/Widgets/HistoryWidget/helpers.ts:166-178 | the weekly keys step from Monday to Monday, but week keys count Sunday-to-Saturday weeks that restart on January 1 | a history whose only entry is Thursday 2026-01-01, charted on 2026-01-10: the keys are `2025-W53` and `2026-W2`, and the entry's `2026-W1` is missing, so its completion is not charted | the key of every week holding a day of the range | not executed | HistoryData.WeekChartSkipsFirstWeek | HistoryData.CorrectedWeekKeysCover |
| src/components/Widgets/CalendarWidget/helpers.ts:61 | for the current year the count is `ceil((now - Jan 1) / day) + 1`, and `now` carries the time of day | any moment after midnight, e.g. 2026-01-10 at 09:00: eleven days are listed, starting on 2025-12-31 | January 1 through today | not executed | CalendarGrid.DatesInYearStartsADayEarly | CalendarGrid.DatesInCurrentYear |
| src/lib/color.ts:4 | the alpha byte is appended as `toString(16)` without padding | `addAlpha("#FF0000", 0)` gives `#FF00000`, seven hex digits, which a browser reads as no colour | two hex digits, `padStart(2, "0")` | not executed | Color.TransparentSuffixIsOneDigit | Color.AddAlphaPaddedReadsBack |
