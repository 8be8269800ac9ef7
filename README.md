# Fit-Ai-Server steps, meals and profile rules in Dafny

This project models the core of Fit-Ai-Server's backend:

- the date helpers (`dateHelpers.ts`) and the step arithmetic (`stepCalculations.ts`);
- the steps use cases: log, update, today, history and stats;
- the meals use cases: log, update, today, history and stats;
- the age rules of profile setup and profile update.

Each use case's `execute` becomes a function of its inputs. That
function says what `execute` returns, what it hands to the repository,
or which error it throws. The repositories' rows are a `seq` parameter
in the repository's order. The lookups that `execute` depends on are a
`bool` or function parameter. The clock is a parameter: `today` is a UTC
day number, and `now` is an instant in milliseconds.

Where the source works step by step, the model does too:

- the loops of `getDaysInRange`, `fillDateGaps` and `calculateStreak`;
- the grouping and building loops of `GetMealHistory`;
- the daily-totals and aggregate loops of `GetMealStats`;
- the partial update object of `UpdateMeal`;
- `calculateAge`.

Each of these is a `method`, proved equal to the function that
specifies it. `UpdateSteps` changes the caller's `UpdateStepsData` object
in place; here that object is a `class` whose recalculation method
`modifies` it.

The modules are:

- `Common`: optional values, results, UTC days and `Math.round` / `Math.ceil` / `toFixed(2)`.
- `StepsModel`, `MealsModel`, `ProfileModel`: the entities and the repository queries.
- `DateHelpers`, `StepCalculations`: the two utility files.
- One module per use case.

## Model

| member | source | states |
|---|---|---|
| Common.DayOfBounds | src/application/use-cases/LogSteps.ts:37 | Normalising an instant to UTC midnight keeps its calendar day: the instant lies between the start and the end of its day. |
| Common.Round | src/application/use-cases/GetStepsStats.ts:80 | `Math.round` gives the integer `r` with `r - 1/2 <= x < r + 1/2`, a half rounding up. |
| Common.Ceil | src/shared/utils/dateHelpers.ts:21 | `Math.ceil` gives the least integer not below its argument. |
| Common.RoundHundredths | src/application/use-cases/GetStepsStats.ts:79 | `Number(x.toFixed(2))` is a whole number of hundredths within half a hundredth of `x` (above by at most half, below by less). |
| Common.RoundHundredthsUnique | src/application/use-cases/GetStepsStats.ts:79 | Those two properties pin the result: any whole number of hundredths in that interval is `Number(x.toFixed(2))`. |
| Common.RoundedQuotient | src/shared/utils/stepCalculations.ts:14 | `Math.round(a / b)` for integers with `b > 0` equals the integer quotient `(2a + b) div 2b`. |
| Common.Average | src/application/use-cases/GetStepsHistory.ts:50 | An average over no days is 0. |
| Common.AverageBounds | src/application/use-cases/GetStepsHistory.ts:50 | Over a positive number of days, the average times the days is within half a unit per day of the total. |
| Common.AverageOfCount | src/application/use-cases/GetMealStats.ts:80 | The rounded average of a whole count is integer arithmetic. |
| Common.IsoDateEpoch | src/shared/utils/dateHelpers.ts:41 | `toISOString().split('T')[0]` of day 0 is `1970-01-01`. |
| Common.IsoDateShape | src/shared/utils/dateHelpers.ts:41 | For a four-digit year, `toISOString().split('T')[0]` is ten characters `YYYY-MM-DD`: dashes at positions 4 and 7, decimal digits elsewhere, and the three digit groups spell the civil year, month and day. |
| Common.PadDigitsWidth | src/shared/utils/dateHelpers.ts:41 | A number below `10^w` is printed in exactly `w` zero-padded digits. |
| Common.PadDigitsValue | src/shared/utils/dateHelpers.ts:41 | The zero-padded text of `n` is all decimal digits and spells `n`: printing then reading back gives the number. |
| DateHelpers.DiffDaysOfDays | src/shared/utils/dateHelpers.ts:18-23 | Between two UTC midnights, the day difference of `isDateTooOld` is the exact number of days apart. |
| DateHelpers.ValidRangeIffOrdered | src/shared/utils/dateHelpers.ts:9-11 | A range is valid exactly when start is not after end; a single-day range is valid. |
| DateHelpers.FutureIffLaterInstant | src/shared/utils/dateHelpers.ts:13-16 | A date is in the future exactly when it is on a later UTC day, or later than midnight today. |
| DateHelpers.TooOldForDay | src/shared/utils/dateHelpers.ts:18-23 | The midnight of a day is too old exactly when it is more than `maxDays` days from today, in either direction. |
| DateHelpers.WithinSevenDays | src/shared/utils/dateHelpers.ts:18-23 | With the default of 7, an instant is not too old exactly when it is within seven whole days of today's midnight. |
| DateHelpers.LoggableInstants | src/shared/utils/dateHelpers.ts:13-23 | An instant passes both date checks exactly when it lies from midnight seven days ago through midnight today. |
| DateHelpers.LoggableDays | src/shared/utils/dateHelpers.ts:13-23 | The midnight of a day passes both checks exactly when the day is today or one of the seven days before it. |
| DateHelpers.GetDaysInRange | src/shared/utils/dateHelpers.ts:25-34 | The loop returns every day from start to end in ascending order, and nothing when start is after end. |
| DateHelpers.FillDateGaps | src/shared/utils/dateHelpers.ts:36-70 | The map loop and the downward loop together return `Filled`: for each day from end down to start, that day's row or a placeholder. |
| DateHelpers.LatestByDateSpec | src/shared/utils/dateHelpers.ts:40-43 | The date map holds exactly the dates that have a row; each value is a row of the history with that date. |
| DateHelpers.LatestByDateLastWins | src/shared/utils/dateHelpers.ts:40-43 | When two rows share a date, the later one in the history is kept. |
| DateHelpers.FilledShape | src/shared/utils/dateHelpers.ts:48-67 | The filled history has one entry per day of the range, most recent first, with strictly decreasing dates. |
| DateHelpers.FilledKeepsRecord | src/shared/utils/dateHelpers.ts:49-53 | A day that has a row, with no later row of the same date, shows that row. |
| DateHelpers.FilledGap | src/shared/utils/dateHelpers.ts:55-65 | A day with no row shows the `gap-` placeholder with zero steps. |
| DateHelpers.FilledEntriesFromHistory | src/shared/utils/dateHelpers.ts:36-70 | Every filled entry is dated within the range, and is either a row of the history or the placeholder for its day. |
| DateHelpers.FilledStepsAsDayTotal | src/shared/utils/dateHelpers.ts:48-67 | The filled history's step total is the total over the days of the range, a day with no row counting 0. |
| DateHelpers.DayStepTotalOfHistory | src/shared/utils/dateHelpers.ts:40-43 | With distinct dates, the per-day step total over a range equals the steps of the rows within that range. |
| DateHelpers.FilledPreservesStepTotal | src/shared/utils/dateHelpers.ts:36-70 | Filling gaps adds no steps: the filled total equals the total of the rows within the range. |
| DateHelpers.FilledPrefix | src/shared/utils/dateHelpers.ts:48-67 | The first `n` filled entries are the filled history of the last `n` days of the range. |
| DateHelpers.WithinQuery | src/infrastructure/repositories/DailyStepsRepository.ts:48-63 | The rows of a history query that fall in a narrower window are the query of that window. |
| DateHelpers.FillIdempotent | src/shared/utils/dateHelpers.ts:36-70 | Filling an already filled history again changes nothing. |
| StepsModel.QueryMembers | src/infrastructure/repositories/DailyStepsRepository.ts:48-63 | A history query returns exactly the user's rows dated within the window. |
| StepsModel.QueryEmpty | src/infrastructure/repositories/DailyStepsRepository.ts:48-63 | A window whose start is after its end returns nothing. |
| StepsModel.QueryStrictlyDescending | src/infrastructure/repositories/DailyStepsRepository.ts:57-59 | With one row per user and day, stored by date descending, a query returns strictly decreasing dates. |
| StepsModel.QueryDistinctDates | src/infrastructure/repositories/DailyStepsRepository.ts:12-16 | With the `(userId, date)` key unique, a query returns at most one row per day. |
| StepsModel.SumStepsAppend | src/application/use-cases/GetStepsHistory.ts:49 | The step total of two concatenated row lists is the sum of their totals. |
| StepCalculations.CalculateDistance | src/shared/utils/stepCalculations.ts:6-8 | The distance is a whole number of hundredths of a km within half a hundredth of `steps * 0.0008`, so it is that product rounded to hundredths. |
| StepCalculations.DistanceExact | src/shared/utils/stepCalculations.ts:6-8 | The rounded distance is exactly `((4 * steps + 25) div 50) / 100`. |
| StepCalculations.CalculateCalories | src/shared/utils/stepCalculations.ts:13-15 | Calories are `steps * 0.04` rounded to the nearest integer, which is `(2 * steps + 25) div 50`. |
| StepCalculations.CaloriesMonotone | src/shared/utils/stepCalculations.ts:13-15 | More steps never burn fewer calories, and zero steps burn none. |
| StepCalculations.CalculateGoalProgress | src/shared/utils/stepCalculations.ts:20-24 | A zero goal gives 0 progress; otherwise progress is a whole number of hundredths within half a hundredth of `steps / goal * 100`, so it is that percentage rounded to hundredths. |
| StepCalculations.GoalProgressExact | src/shared/utils/stepCalculations.ts:20-24 | Reaching the goal exactly gives 100; against the 10,000-step goal, progress is exactly `steps / 100`. |
| StepCalculations.ActiveDays | src/shared/utils/stepCalculations.ts:41-46 | Every day with a row of more than zero steps is in the active set. |
| StepCalculations.ActiveDaysExact | src/shared/utils/stepCalculations.ts:41-46 | A day is active exactly when some row of that day has more than zero steps. |
| StepCalculations.CalculateStreak | src/shared/utils/stepCalculations.ts:30-79 | The imperative streak builds the active set, then walks back from today, and equals `Streak`. |
| StepCalculations.Run | src/shared/utils/stepCalculations.ts:59-76 | A run of consecutive active days never exceeds its cap. |
| StepCalculations.WalkBackIsRun | src/shared/utils/stepCalculations.ts:59-76 | The walk back from today, with its one-day tolerance used up, counts the run of consecutive active days. |
| StepCalculations.StreakIsRun | src/shared/utils/stepCalculations.ts:30-79 | The streak is: 0 with no rows; 1 plus yesterday's run when today is active; yesterday's run when only yesterday is; otherwise the run ending the day before yesterday. |
| StepCalculations.StreakBounded | src/shared/utils/stepCalculations.ts:30-79 | The streak is between 0 and the number of rows. |
| StepCalculations.RunWithinActive | src/shared/utils/stepCalculations.ts:59-76 | A run ending at a day counts no more days than the active days up to it. |
| StepCalculations.StreakAtMostActiveDays | src/shared/utils/stepCalculations.ts:30-79 | The streak never exceeds the number of active days. |
| StepCalculations.StreakOrderIndependent | src/shared/utils/stepCalculations.ts:41-46 | The streak depends on the rows only, not on their order. |
| StepCalculations.StreakActiveSetAndLength | src/shared/utils/stepCalculations.ts:31-59 | Two histories with the same active days and the same number of rows have the same streak. |
| StepCalculations.TodayAfterMissedYesterday | src/shared/utils/stepCalculations.ts:68-74 | With today active and yesterday not, the streak is 1: the tolerance does not bridge a missed yesterday. |
| StepCalculations.RunAllActive | src/shared/utils/stepCalculations.ts:59-76 | A run over days that are all active counts every one of them. |
| StepCalculations.StreakTenActiveDays | src/shared/utils/stepCalculations.ts:30-79 | Ten consecutive active days ending today give a streak of 10. |
| StepCalculations.ActiveDaysOfThree | src/shared/utils/stepCalculations.ts:41-46 | The active set of three rows is the set of dates among them with steps. |
| StepCalculations.StreakMissedToday | src/shared/utils/stepCalculations.ts:52-56 | Nothing today and two active days before that give a streak of 2. |
| StepCalculations.StreakNoActiveDay | src/shared/utils/stepCalculations.ts:30-79 | Rows with no steps at all give a streak of 0. |
| StepCalculations.StreakOnlyYesterday | src/shared/utils/stepCalculations.ts:52-56 | Only yesterday active gives a streak of 1. |
| StepCalculations.StreakSkipsMissedYesterday | src/shared/utils/stepCalculations.ts:68-74 | With today and yesterday missed, an active day before yesterday still counts 1. |
| LogSteps.CheckOrder | src/application/use-cases/LogSteps.ts:18-46 | The checks run in order: an unparseable date, then a future date, then one too old, each an error exactly in its case; anything else is persisted. |
| LogSteps.AcceptedInstants | src/application/use-cases/LogSteps.ts:22-29 | An instant is accepted exactly when it lies from midnight seven days ago through midnight today. |
| LogSteps.AcceptedDays | src/application/use-cases/LogSteps.ts:22-29 | A date given as a day's UTC midnight is accepted exactly for today and the seven days before it. |
| LogSteps.LaterTodayIsFuture | src/application/use-cases/LogSteps.ts:23-25 | Any time today later than midnight is rejected as a future date. |
| LogSteps.PersistedEntry | src/application/use-cases/LogSteps.ts:31-46 | The persisted entry keeps the user and steps and moves the date to its UTC midnight. A given distance or calorie count is kept; otherwise it is computed from the steps. The day is within the last seven. |
| LogSteps.ZeroIsKept | src/application/use-cases/LogSteps.ts:32-34 | A supplied zero distance or calorie count is kept, even where computing from the steps would give more than zero. |
| UpdateSteps.UpdateStepsData.constructor | src/application/use-cases/UpdateSteps.ts:10 | The object holds the given fields. |
| UpdateSteps.UpdateStepsData.FillDerived | src/application/use-cases/UpdateSteps.ts:13-20 | The in-place recalculation leaves the object's fields equal to `Derived` of their old values. |
| UpdateSteps.Execute | src/application/use-cases/UpdateSteps.ts:10-30 | `data` is updated in place to its derived fields; the repository gets those fields; its outcome goes through the error mapping. |
| UpdateSteps.DerivedSpec | src/application/use-cases/UpdateSteps.ts:13-20 | The steps never change and a supplied value is never overwritten. Without steps nothing is computed. With steps, each missing distance or calorie count is computed from them. |
| UpdateSteps.DerivedIdempotent | src/application/use-cases/UpdateSteps.ts:13-20 | Running the recalculation a second time changes nothing. |
| UpdateSteps.OutcomeMapping | src/application/use-cases/UpdateSteps.ts:23-29 | A row is returned unchanged. An error becomes not-found exactly when it has code P2025 or its message mentions a record to update not found. Every other error is rethrown unchanged. |
| UpdateSteps.NotFoundByMessage | src/application/use-cases/UpdateSteps.ts:25 | The message test matches the text anywhere in a longer message, with no code. |
| UpdateSteps.ContainsInside | src/application/use-cases/UpdateSteps.ts:25 | `includes` finds a string placed between any prefix and suffix. |
| GetTodaySteps.StepsByDate | src/infrastructure/repositories/DailyStepsRepository.ts:35-46 | A row found has the user and day asked for; none found means the user has no row that day. |
| GetTodaySteps.StepsByDateUnique | src/infrastructure/repositories/DailyStepsRepository.ts:35-46 | With the key unique, the lookup finds the one row of that user and day. |
| GetTodaySteps.NoEntryDefaults | src/application/use-cases/GetTodaySteps.ts:15-26 | With no row today, the response has no id, zero for every amount, the 10,000 goal and the goal not reached. |
| GetTodaySteps.EntryShown | src/application/use-cases/GetTodaySteps.ts:28-39 | With today's row, the response shows its id and steps, and a missing distance or calorie count as 0. The goal counts as reached exactly from 10,000 steps, and progress is `steps / 100` per cent. |
| GetTodaySteps.GoalReachedIff | src/application/use-cases/GetTodaySteps.ts:15-39 | The response is dated today, and the goal is reached exactly when the user's row for today has at least 10,000 steps. |
| GetStepsHistory.EffectiveLimit | src/application/use-cases/GetStepsHistory.ts:12-20 | The limit defaults to 30 and is capped at 90. |
| GetStepsHistory.SliceEnd | src/application/use-cases/GetStepsHistory.ts:45 | `slice(0, limit)` never goes past the sequence's end. |
| GetStepsHistory.Execute | src/application/use-cases/GetStepsHistory.ts:8-64 | The imperative `execute` returns `StepsHistoryOf`: the errors, or the presented history of the window. |
| GetStepsHistory.ErrorsExactly | src/application/use-cases/GetStepsHistory.ts:11-27 | An unparseable start or end is an invalid-date error, and a start day after the end day is the inverted-range error. Every other call succeeds. |
| GetStepsHistory.ResolvedWindow | src/application/use-cases/GetStepsHistory.ts:20-36 | The window ends on the end day. It starts on the start day, or `limit` days before the end when the range spans more than `limit` days. |
| GetStepsHistory.ShownIdByPrefix | src/application/use-cases/GetStepsHistory.ts:54 | Hiding placeholder ids is the source's test for an id starting with `gap-`. |
| GetStepsHistory.LimitedShape | src/application/use-cases/GetStepsHistory.ts:39-45 | The sliced history is the filled history of the last `n` days of the window, with entry `k` dated `end - k`. |
| GetStepsHistory.HistoryShape | src/application/use-cases/GetStepsHistory.ts:45-59 | `totalDays` is the number of entries, entry `k` is dated `end - k`, and the average is the rounded total over `totalDays`. |
| GetStepsHistory.AcceptedHistoryShape | src/application/use-cases/GetStepsHistory.ts:8-64 | An accepted call shows `min(days in range, limit)` entries (none for a limit of 0 or less), most recent first, from the end day. |
| GetStepsHistory.DefaultWindow | src/application/use-cases/GetStepsHistory.ts:11-12 | With no arguments, the history shows the eight days from today back to a week ago. |
| GetStepsHistory.RecentStepsFromStore | src/application/use-cases/GetStepsHistory.ts:39-45 | The steps of the last `n` filled days are the stored steps of those days. |
| GetStepsHistory.HistoryTotal | src/application/use-cases/GetStepsHistory.ts:49 | `totalSteps` is the sum of the user's stored steps over the days shown. |
| GetStepsHistory.TotalStepsFromStore | src/application/use-cases/GetStepsHistory.ts:8-64 | After a successful call, `totalSteps` is the user's stored steps over the `totalDays` days ending on the end day. |
| GetStepsHistory.FilledQueryRow | src/application/use-cases/GetStepsHistory.ts:39-42 | A stored row within the window appears at its day's index. |
| GetStepsHistory.FilledQueryGap | src/application/use-cases/GetStepsHistory.ts:39-42 | A day of the window without a stored row shows the placeholder. |
| GetStepsHistory.HistoryEntryIsFilled | src/application/use-cases/GetStepsHistory.ts:45-59 | Each shown entry is the presentation of the filled entry at the same index. |
| GetStepsHistory.HistoryEntryOfDay | src/application/use-cases/GetStepsHistory.ts:53-59 | Entry `k` presents the user's row for day `end - k`, or no id and zeros when there is none. |
| GetStepsHistory.PresentGap | src/application/use-cases/GetStepsHistory.ts:53-59 | A placeholder is presented with no id and zero steps, distance and calories. |
| GetStepsHistory.EntryOfDay | src/application/use-cases/GetStepsHistory.ts:8-64 | After a successful call, entry `k` shows the user's row for the `k`-th day before the end day, or no id and zeros when there is none. |
| GetStepsStats.PeriodWindow | src/application/use-cases/GetStepsStats.ts:14-24 | The window of each period, today included, holds exactly 7, 30 or 365 days. |
| GetStepsStats.Execute | src/application/use-cases/GetStepsStats.ts:9-87 | The imperative `execute`, with its accumulating loop, returns `StatsOf`. |
| GetStepsStats.CountsOrdered | src/application/use-cases/GetStepsStats.ts:42-61 | Goal days never outnumber active days, and active days never outnumber rows. |
| GetStepsStats.LeadSpec | src/application/use-cases/GetStepsStats.ts:55-60 | The best-day tracker has no date exactly when no row has steps. Otherwise it holds the most steps of any row, those of the first row reaching them. |
| GetStepsStats.BestDaySpec | src/application/use-cases/GetStepsStats.ts:55-81 | `bestDay` is null exactly when no row has steps. Otherwise it is the first row with the most steps, which is more than zero. |
| GetStepsStats.BestDayMostRecent | src/application/use-cases/GetStepsStats.ts:55-60 | On rows most recent first, a tie for the best day goes to the most recent day. |
| GetStepsStats.StatsCounts | src/application/use-cases/GetStepsStats.ts:63-86 | `totalSteps` is the rows' sum, goal days are at most active days, which are at most the rows. The average divides by the period's length, not by the rows. |
| GetStepsStats.HistoryWithinPeriod | src/application/use-cases/GetStepsStats.ts:27-31 | The period's rows are strictly most recent first, dated within the window, and no more than the period's days. |
| GetStepsStats.DescendingWithin | src/application/use-cases/GetStepsStats.ts:27-31 | Strictly descending dates within a window are no more than its days. |
| GetStepsStats.StatsTotals | src/application/use-cases/GetStepsStats.ts:74-86 | Distance is a whole number of hundredths within half a hundredth of the summed distance (the sum rounded to hundredths), calories are the rounded sum, and `bestDay` is null exactly without steps. |
| GetStepsStats.StreakIgnoresPeriod | src/application/use-cases/GetStepsStats.ts:68-72 | The streak is the same for every period, and is bounded by the 90-day history. |
| MealsModel.FoodTotalsAppend | src/application/use-cases/LogMeal.ts:60-70 | The totals of two food lists together are the field-wise sum of their totals. |
| MealsModel.FoodTotalsBounds | src/application/use-cases/LogMeal.ts:60-70 | Non-negative foods total to non-negative values, and at least each food's calories. |
| MealsModel.SumMealsAppend | src/application/use-cases/GetTodayMeals.ts:16-24 | The totals of two meal lists together are the field-wise sum of their totals. |
| MealsModel.MealQueryMembers | src/infrastructure/repositories/MealRepository.ts:73-87 | A meal query returns exactly the user's meals dated within the window. |
| MealsModel.MealQueryEmpty | src/infrastructure/repositories/MealRepository.ts:73-87 | A window whose start is after its end returns no meals. |
| MealsModel.MealQueryDescending | src/infrastructure/repositories/MealRepository.ts:83 | Meals stored most recent first are returned most recent first. |
| MealsModel.DescendingDays | src/infrastructure/repositories/MealRepository.ts:83 | Meals most recent first have non-increasing UTC days. |
| MealsModel.MealsOnMembers | src/application/use-cases/GetMealHistory.ts:36-43 | A day's group holds exactly the meals of that day. |
| MealsModel.MealDaysMembers | src/application/use-cases/GetMealHistory.ts:36-43 | A day has a group exactly when some meal falls on it. |
| MealsModel.DayOrderSpec | src/application/use-cases/GetMealHistory.ts:36-43 | The groups' keys are distinct, are exactly the meal days, and are no more than the meals. |
| MealsModel.DayOrderDescending | src/application/use-cases/GetMealHistory.ts:36-43 | Meals in non-increasing day order give keys in strictly decreasing order. |
| MealsModel.ByDaySnoc | src/application/use-cases/GetMealStats.ts:32-42 | Adding a meal adds its totals, and one meal, to its own day's entry. |
| MealsModel.ByDayPartition | src/application/use-cases/GetMealStats.ts:32-45 | Summed over all days with meals, the per-day totals and counts give the totals and number of all the meals. |
| MealsModel.KeyIndex | src/application/use-cases/GetMealStats.ts:35-36 | The index found is the key's position, or the end exactly when the key is missing. |
| MealsModel.WindowByDay | src/infrastructure/repositories/MealRepository.ts:73-87 | An instant lies between the start of day `s` and the end of day `e` exactly when its UTC day is between `s` and `e`. |
| LogMeal.ValidationOrder | src/application/use-cases/LogMeal.ts:37-58 | The checks run in order: meal type, a non-empty food list, the date's format, then future, then too old. Each fails exactly in its case, with its own message. |
| LogMeal.AcceptedMeals | src/application/use-cases/LogMeal.ts:10-58 | A meal is accepted exactly when it has one of the four types, at least one food, and an instant from midnight seven days ago through midnight today. |
| LogMeal.CreatedMeal | src/application/use-cases/LogMeal.ts:18-32 | The created meal keeps the user, type, notes and foods, and totals the foods field by field. It is dated at the UTC midnight of its day, within the last seven days. |
| LogMeal.CreatedTotalsBounds | src/application/use-cases/LogMeal.ts:60-70 | Foods with non-negative nutrients give non-negative totals, with at least each food's calories. |
| UpdateMeal.MealById | src/application/use-cases/UpdateMeal.ts:11-14 | A meal found has the id and owner asked for; none found means the user owns no meal with that id. |
| UpdateMeal.Execute | src/application/use-cases/UpdateMeal.ts:9-41 | The imperative `execute`, building `updateData` field group by field group, returns `UpdateMealOf`. |
| UpdateMeal.NotFoundFirst | src/application/use-cases/UpdateMeal.ts:11-14 | The call fails with not-found exactly when the user owns no meal with that id, before any other check. |
| UpdateMeal.MealTypeCheck | src/application/use-cases/UpdateMeal.ts:19-24 | For the user's meal, the update fails exactly on a non-empty type other than the four. An empty type is skipped. |
| UpdateMeal.UpdateFields | src/application/use-cases/UpdateMeal.ts:19-40 | The update holds the type exactly when a non-empty one is given, the notes whenever given, and the foods with their recomputed totals exactly when non-empty foods are given. |
| UpdateMeal.EmptyUpdate | src/application/use-cases/UpdateMeal.ts:26-37 | An update that supplies nothing, or only an empty food list, sets no field. |
| GetTodayMeals.RemainingAmount | src/application/use-cases/GetTodayMeals.ts:43-48 | What remains of a goal is never negative. Below the goal, total plus remaining is the goal; at or above it, nothing remains. |
| GetTodayMeals.TodayTotals | src/application/use-cases/GetTodayMeals.ts:9-24 | The meals are exactly the user's meals of today's UTC date, and the totals are their field-wise sums (zero without meals). |
| GetTodayMeals.GoalsDefaulting | src/application/use-cases/GetTodayMeals.ts:27-40 | Without stored goals, the goals are 2000 kcal, 150 g protein, 250 g carbs and 65 g fat; with them, the stored ones. |
| GetTodayMeals.RemainingSpec | src/application/use-cases/GetTodayMeals.ts:43-48 | For every nutrient the remaining amount is non-negative. Below the goal, total and remaining add up to the goal; at or above it, nothing remains. |
| GetTodayMeals.NothingEatenAllRemains | src/application/use-cases/GetTodayMeals.ts:16-48 | With no meals today and non-negative goals, the whole of every goal remains. |
| GetMealHistory.RangeDaysInclusive | src/application/use-cases/GetMealHistory.ts:25-27 | From the start of one day to the end of another, `diffDays` is the inclusive day count. |
| GetMealHistory.EntriesOfAt | src/application/use-cases/GetMealHistory.ts:46-58 | The history built has one entry per key, in key order, each that day's entry. |
| GetMealHistory.InsertOrdered | src/application/use-cases/GetMealHistory.ts:61 | Inserting an entry of a new day keeps the entries strictly most recent first. |
| GetMealHistory.InsertMultiset | src/application/use-cases/GetMealHistory.ts:61 | Inserting adds exactly the one entry. |
| GetMealHistory.SortMultiset | src/application/use-cases/GetMealHistory.ts:61 | Sorting is a permutation of the entries. |
| GetMealHistory.SortElements | src/application/use-cases/GetMealHistory.ts:61 | Sorting keeps the same entries and their number. |
| GetMealHistory.SortSum | src/application/use-cases/GetMealHistory.ts:61 | Sorting keeps the entries' field-wise total. |
| GetMealHistory.SortOrdered | src/application/use-cases/GetMealHistory.ts:61 | Entries of distinct days come out strictly most recent first. |
| GetMealHistory.MealsOnAppend | src/application/use-cases/GetMealHistory.ts:37-43 | Grouping one more meal appends it to its own day's group only. |
| GetMealHistory.GroupNewDay | src/application/use-cases/GetMealHistory.ts:39-42 | A meal of an unseen day starts a new group at the end of the keys. |
| GetMealHistory.GroupKnownDay | src/application/use-cases/GetMealHistory.ts:42 | A meal of a known day is pushed onto that day's group. |
| GetMealHistory.GroupByDate | src/application/use-cases/GetMealHistory.ts:36-43 | The grouping loop gives the days in first-seen order, each with exactly its meals in order. |
| GetMealHistory.BuildHistory | src/application/use-cases/GetMealHistory.ts:46-58 | The building loop gives each group's entry with its totals, in key order. |
| GetMealHistory.Execute | src/application/use-cases/GetMealHistory.ts:14-83 | The imperative `execute` returns `MealHistoryOf`: the range error, or the sorted history and its stats. |
| GetMealHistory.RejectsExactlyLongRanges | src/application/use-cases/GetMealHistory.ts:16-30 | The span is the inclusive day count, and the call fails exactly when it exceeds 90 days, with the range message; a long range is never clamped. |
| GetMealHistory.DefaultWindow | src/application/use-cases/GetMealHistory.ts:16-22 | Without dates, the window runs from the start of a week ago to the end of today, and is accepted. |
| GetMealHistory.InvertedRangeIsEmpty | src/application/use-cases/GetMealHistory.ts:25-33 | A start after the end is not an error: the history is empty. |
| GetMealHistory.GroupedEntries | src/application/use-cases/GetMealHistory.ts:36-58 | Before sorting there is one entry per distinct meal day, none twice, each with that day's meals and totals. |
| GetMealHistory.HistoryByDay | src/application/use-cases/GetMealHistory.ts:36-61 | The history has one entry per day with meals, strictly most recent first; each holds exactly that day's meals in order and their totals. |
| GetMealHistory.SortedEntries | src/application/use-cases/GetMealHistory.ts:61 | Sorted entries are still one per meal day, each that day's entry. |
| GetMealHistory.EveryMealOnce | src/application/use-cases/GetMealHistory.ts:36-58 | Every meal lands in the entry of its UTC day, and in no other. |
| GetMealHistory.PeriodStatsOfMeals | src/application/use-cases/GetMealHistory.ts:63-80 | `totalDays` counts the distinct meal days. The averages divide the sums of all meals by it, and `totalCalories` rounds their calorie sum. |
| GetMealHistory.EntriesSum | src/application/use-cases/GetMealHistory.ts:46-58 | The entries' totals add up to the per-day sums. |
| GetMealHistory.AcceptedHistory | src/application/use-cases/GetMealHistory.ts:33-82 | An accepted call answers with the grouped history of exactly the user's meals in the window. |
| GetMealStats.TotalStepNew | src/application/use-cases/GetMealStats.ts:36-40 | A meal of a new day appends that day's entry with the meal's totals and a count of 1. |
| GetMealStats.TotalStepExisting | src/application/use-cases/GetMealStats.ts:35-41 | A meal of a known day adds its totals and one meal to that day's entry. |
| GetMealStats.Execute | src/application/use-cases/GetMealStats.ts:10-86 | The imperative `execute` with its two loops returns `MealStatsOf`. |
| GetMealStats.Aggregate | src/application/use-cases/GetMealStats.ts:55-67 | The aggregate loop gives the sums of the daily totals and the highest and lowest days. |
| GetMealStats.PeriodWindow | src/application/use-cases/GetMealStats.ts:11-29 | A week starts seven days before today; the period holds exactly the user's meals whose UTC day runs from the start day through today. |
| GetMealStats.SumDailyCons | src/application/use-cases/GetMealStats.ts:55-60 | The sum of the daily totals adds one entry at a time. |
| GetMealStats.DailiesOfAt | src/application/use-cases/GetMealStats.ts:32-42 | The daily totals follow their days in order, one entry per day. |
| GetMealStats.DailiesSum | src/application/use-cases/GetMealStats.ts:55-60 | The daily totals add up to the per-day meal sums. |
| GetMealStats.DailiesCount | src/application/use-cases/GetMealStats.ts:45 | The daily meal counts add up to the per-day meal counts. |
| GetMealStats.DailyTotalsSums | src/application/use-cases/GetMealStats.ts:32-45 | There is one daily entry per day with meals, never more than the meals; their counts add up to the meals and their totals to the meals' totals. |
| GetMealStats.DailyTotalsEntries | src/application/use-cases/GetMealStats.ts:32-42 | Each daily entry holds its day's totals and meal count; every meal day has one and no day has two. |
| GetMealStats.StatsTotals | src/application/use-cases/GetMealStats.ts:44-83 | `daysLogged` counts the distinct days, at most `totalMeals`, the number of meals. The totals round the sums of all meals. |
| GetMealStats.StatsAverages | src/application/use-cases/GetMealStats.ts:69-83 | Each average divides the meals' sum by the days logged, and meals per day divides the meal count by them; all are 0 without meals. |
| GetMealStats.HighestSpec | src/application/use-cases/GetMealStats.ts:55-63 | The highest day is null exactly without days. Otherwise it holds the largest rounded day total, that of a day seen. |
| GetMealStats.LowestSpec | src/application/use-cases/GetMealStats.ts:55-66 | The lowest day is null exactly without days. Otherwise it holds the smallest rounded day total, that of a day seen. |
| GetMealStats.RoundMono | src/application/use-cases/GetMealStats.ts:61-66 | Rounding never reverses an order. |
| GetMealStats.LowestAtMostHighest | src/application/use-cases/GetMealStats.ts:55-66 | The lowest day's calories never exceed the highest's. |
| GetMealStats.HighestFirstWins | src/application/use-cases/GetMealStats.ts:61-63 | With whole-number day totals, the highest is the first day in insertion order with the largest total; a later tie never replaces it. |
| GetMealStats.LowestFirstWins | src/application/use-cases/GetMealStats.ts:64-66 | With whole-number day totals, the lowest is the first day in insertion order with the smallest total. |
| GetMealStats.DailyTotalsNewestFirst | src/application/use-cases/GetMealStats.ts:32-42 | On meals most recent first, the days are inserted most recent first. |
| GetMealStats.ExtremesNullIffNoMeals | src/application/use-cases/GetMealStats.ts:52-66 | Highest and lowest are null exactly when the period has no meals. |
| GetMealStats.RoundedComparisonExample | src/application/use-cases/GetMealStats.ts:61-63 | Later days are compared with the rounded value kept for the current highest: for day totals 2.4 then 2.3, the second is reported, with 2. |
| SetupProfile.CalculateAge | src/application/use-cases/SetupProfile.ts:62-73 | The imperative age is the year difference, minus one while this year's birthday is still to come. |
| SetupProfile.AgeCountsBirthdays | src/application/use-cases/SetupProfile.ts:62-73 | The age is at least `n` exactly when the `n`-th birthday is on or before today. |
| SetupProfile.AgeBounds | src/application/use-cases/SetupProfile.ts:62-73 | The age is the year difference or one less, and exactly the difference on the birthday itself. |
| SetupProfile.GuardOrder | src/application/use-cases/SetupProfile.ts:24-55 | The errors come in order: user not found, then profile exists, then a valid date of birth whose 13th birthday is after today. Otherwise the profile is created with the given fields. |
| SetupProfile.ThirteenthBirthday | src/application/use-cases/SetupProfile.ts:39-44 | On the 13th birthday setup accepts; on the day before, it refuses. |
| SetupProfile.NoAgeRuleWithoutDate | src/application/use-cases/SetupProfile.ts:39-44 | With no date of birth, or one that does not parse, there is no age check. |
| UpdateProfile.GuardOrder | src/application/use-cases/UpdateProfile.ts:18-53 | The errors come in order: no field, then no profile, then too young, then a failed update, each exactly in its case. Otherwise the input is handed on unchanged. |
| UpdateProfile.MonthGranularity | src/application/use-cases/UpdateProfile.ts:32-41 | A date of birth is accepted exactly when its month, 13 years on, is today's month or earlier; the day is ignored. |
| UpdateProfile.LaxerThanSetup | src/application/use-cases/UpdateProfile.ts:32-41 | What setup accepts, update accepts. Update accepts more exactly when the 13th birthday falls later in the current month. |
| UpdateProfile.DayBeforeThirteenth | src/application/use-cases/UpdateProfile.ts:38 | Born 2010-05-20 (month 4 counted from 0) and updating on 2023-05-19, setup refuses the date and update accepts it. |
| UpdateProfile.NoAgeRuleWithoutDate | src/application/use-cases/UpdateProfile.ts:32-41 | With no date of birth, or one that does not parse, the age rule passes. |

## Left out

- I/O: the Prisma repositories are `seq` parameters in their storage order, and lookups are `bool` or function parameters. Authentication, HTTP controllers, request validators and the FatSecret service are not part of this model.
- Logging calls are left out: they do not affect what `execute` returns.
- Floating point: JavaScript numbers are exact reals here. `toFixed(2)` is rounding to the nearest hundredth, without binary-representation quirks, a tie rounding up; for a negative tie `toFixed` rounds away from zero instead, but every value rounded here is a sum of distances or a percentage of non-negative step counts, which the step validators (src/presentation/validators/stepsValidators.ts:5-6) keep non-negative. `Math.round` is floor of `x + 0.5`.
- Dates: every instant is a millisecond count and every calendar day a UTC day number. ISO date strings and map keys are modelled by day numbers, whose order is the string order for four-digit years.
- IsoDate: the string form exists only for the placeholder id `gap-YYYY-MM-DD`, which the model keeps as `RowId.Gap(day)` and renders with `RowId.Text`.
- DateHelpers.GetDaysInRange: the server is taken to run in UTC. `setDate` works in local time; every step of a day here is one UTC day, as it is when the server runs in UTC. The same holds for the `setDate` of the default and clamped start in `GetStepsHistory` and `GetStepsStats`, and for the day-by-day walk back of `calculateStreak` (src/shared/utils/stepCalculations.ts:60), which `StepCalculations.WalkBack` and `StepCalculations.CalculateStreak` take to step one UTC day at a time; in another time zone, across a daylight-saving change, that walk can skip or repeat a UTC day.
- GetMealStats.StartDay: for month and year periods, the day `setMonth` / `setFullYear` lands on is a parameter (`monthAgo`, `yearAgo`). Local-time versus UTC `setDate` is not modelled.
- SetupProfile.CalculateAge: `getFullYear` / `getMonth` / `getDate` read the server's time zone, so today's and the birth date's calendar fields are given as `CalendarDate`.
- GetMealHistory.MealHistoryOf: its date arguments are instants. A string `new Date` cannot parse is out of scope, because the repository query it would reach is out of view.
- GetTodayMeals.MealsOfDay: the repository's `createdAt asc` order is taken to be the stored order.
- UpdateProfile.UpdateProfileOf: the fields other than `dateOfBirth` are represented only by the set of keys present. `createdAt` / `updatedAt` and the profile lookups' contents are left out.
- Common.Average: its contract states only the zero case. Its bounds are in `Common.AverageBounds`, a lemma that callers invoke only where they need the bounds.
- StepCalculations.StreakOnlyYesterday: the streak stays alive from yesterday when today has no steps (src/shared/utils/stepCalculations.ts:35, 68-74), so only yesterday active gives 1; the model follows the code.
