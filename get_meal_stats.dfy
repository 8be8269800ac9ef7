/**
  `GetMealStats.execute`: the meals of a period ending today, their per-day
  totals in the order the days first appear, the sums and the averages over
  the days logged, and the highest and lowest calorie days.
*/
module GetMealStats {
  import opened Common
  import opened MealsModel

  datatype Period = Week | Month | Year

  /**
    The day `startDate` lands on: seven days before today for a week; for a
    month or a year the day `setMonth` / `setFullYear` moves it to, given as
    `monthAgo` / `yearAgo`.
  */
  function StartDay(period: Period, today: int, monthAgo: int, yearAgo: int): int {
    match period
    case Week => today - 7
    case Month => monthAgo
    case Year => yearAgo
  }

  /** A value of `dailyTotals`: the day's field-wise totals and its number of meals. */
  datatype DailyTotal = DailyTotal(date: int, totals: Totals, mealCount: int)

  /** `highestCalorieDay` / `lowestCalorieDay`: a day and its rounded calories. */
  datatype CalorieDay = CalorieDay(date: int, calories: int)

  datatype MealStats = MealStats(
    totalCalories: int,
    averageCalories: int,
    totalProtein: int,
    averageProtein: int,
    totalCarbs: int,
    averageCarbs: int,
    totalFat: int,
    averageFat: int,
    daysLogged: int,
    totalMeals: int,
    averageMealsPerDay: int,
    highestCalorieDay: Option<CalorieDay>,
    lowestCalorieDay: Option<CalorieDay>)

  datatype PeriodMealStats = PeriodMealStats(period: Period, stats: MealStats)

  function DailyOf(meals: seq<Meal>, day: int): DailyTotal {
    DailyTotal(day, SumMeals(MealsOn(meals, day)), |MealsOn(meals, day)|)
  }

  /** The entries of `dailyTotals` for `days`, in that order. */
  function DailiesOf(meals: seq<Meal>, days: seq<int>): seq<DailyTotal> {
    if |days| == 0 then [] else [DailyOf(meals, days[0])] + DailiesOf(meals, days[1..])
  }

  /** `dailyTotals` after the loop over `meals`, in insertion order. */
  function DailyTotals(meals: seq<Meal>): seq<DailyTotal> {
    DailiesOf(meals, DayOrder(meals))
  }

  lemma {:induction false} DailiesOfAt(meals: seq<Meal>, days: seq<int>)
    ensures |DailiesOf(meals, days)| == |days|
    ensures forall k :: 0 <= k < |days| ==> DailiesOf(meals, days)[k] == DailyOf(meals, days[k])
  {
    if |days| > 0 {
      DailiesOfAt(meals, days[1..]);
    }
  }

  /** The running totals of the second loop. */
  function SumDaily(entries: seq<DailyTotal>): Totals {
    if |entries| == 0 then Zero else SumDaily(entries[..|entries| - 1]).Plus(entries[|entries| - 1].totals)
  }

  /** `highestCalorieDay` after the second loop has seen `entries`. */
  function Highest(entries: seq<DailyTotal>): Option<CalorieDay> {
    if |entries| == 0 then None
    else
      var h := Highest(entries[..|entries| - 1]);
      var e := entries[|entries| - 1];
      if h.None? || e.totals.calories > h.value.calories as real then Some(CalorieDay(e.date, Round(e.totals.calories))) else h
  }

  /** `lowestCalorieDay` after the second loop has seen `entries`. */
  function Lowest(entries: seq<DailyTotal>): Option<CalorieDay> {
    if |entries| == 0 then None
    else
      var l := Lowest(entries[..|entries| - 1]);
      var e := entries[|entries| - 1];
      if l.None? || e.totals.calories < l.value.calories as real then Some(CalorieDay(e.date, Round(e.totals.calories))) else l
  }

  /** The stats of the period's meals. */
  function StatsOf(meals: seq<Meal>): MealStats {
    var entries := DailyTotals(meals);
    var daysLogged := |entries|;
    var totalMeals := |meals|;
    var sum := SumDaily(entries);
    MealStats(
      Round(sum.calories), Average(sum.calories, daysLogged),
      Round(sum.protein), Average(sum.protein, daysLogged),
      Round(sum.carbs), Average(sum.carbs, daysLogged),
      Round(sum.fat), Average(sum.fat, daysLogged),
      daysLogged, totalMeals, Average(totalMeals as real, daysLogged),
      Highest(entries), Lowest(entries))
  }

  /** The meals of the window: `getMealHistory(userId, start of the start day, end of today)`. */
  function PeriodMeals(stored: seq<Meal>, userId: string, period: Period, now: int, monthAgo: int, yearAgo: int): seq<Meal> {
    var today := DayOf(now);
    MealQuery(stored, userId, StartOfDay(StartDay(period, today, monthAgo, yearAgo)), EndOfDay(today))
  }

  /** What `execute(userId, period)` returns; `now` is `new Date()`. */
  function MealStatsOf(stored: seq<Meal>, userId: string, period: Period, now: int, monthAgo: int, yearAgo: int): PeriodMealStats {
    PeriodMealStats(period, StatsOf(PeriodMeals(stored, userId, period, now, monthAgo, yearAgo)))
  }

  /** `dailyTotals` after the first `i` meals: its keys in insertion order and each key's value. */
  ghost predicate TotalledUpTo(meals: seq<Meal>, i: int, keys: seq<int>, values: seq<DailyTotal>)
    requires 0 <= i <= |meals|
  {
    && keys == DayOrder(meals[..i])
    && |values| == |keys|
    && forall k :: 0 <= k < |keys| ==> values[k] == DailyOf(meals[..i], keys[k])
  }

  /** `existing` after the meal's totals are added to it and its count goes up by one. */
  function AddMeal(existing: DailyTotal, m: Meal): DailyTotal {
    DailyTotal(existing.date, existing.totals.Plus(m.totals), existing.mealCount + 1)
  }

  /** A meal of a day not yet seen adds that day's key, with a value for that one meal. */
  lemma TotalStepNew(meals: seq<Meal>, i: int, keys: seq<int>, values: seq<DailyTotal>)
    requires 0 <= i < |meals|
    requires TotalledUpTo(meals, i, keys, values)
    requires MealDay(meals[i]) !in keys
    ensures var values' := values + [DailyTotal(MealDay(meals[i]), Zero, 0)];
            TotalledUpTo(meals, i + 1, keys + [MealDay(meals[i])], values'[|keys| := AddMeal(values'[|keys|], meals[i])])
  {
    var d := MealDay(meals[i]);
    var keys' := keys + [d];
    var values' := values + [DailyTotal(d, Zero, 0)];
    assert meals[..i + 1] == meals[..i] + [meals[i]];
    assert DayOrder(meals[..i + 1]) == keys' by {
      assert meals[..i + 1][..i] == meals[..i];
    }
    assert Distinct(keys') by {
      DayOrderSpec(meals[..i + 1]);
    }
    assert values'[|keys|] == DailyOf(meals[..i], d) by {
      DayOrderSpec(meals[..i]);
      MealDaysMembers(meals[..i], d);
    }
    forall j | 0 <= j < |keys'|
      ensures values'[j] == DailyOf(meals[..i], keys'[j])
    {
      if j < |keys| {
        assert values'[j] == values[j] && keys'[j] == keys[j];
      }
    }
    TotalStepAt(meals, i, keys', values', |keys|);
  }

  /** A meal of a day already seen adds to that day's value. */
  lemma TotalStepExisting(meals: seq<Meal>, i: int, keys: seq<int>, values: seq<DailyTotal>, k: int)
    requires 0 <= i < |meals|
    requires TotalledUpTo(meals, i, keys, values)
    requires 0 <= k < |keys| && keys[k] == MealDay(meals[i])
    ensures TotalledUpTo(meals, i + 1, keys, values[k := AddMeal(values[k], meals[i])])
  {
    DayOrderSpec(meals[..i]);
    assert meals[..i + 1] == meals[..i] + [meals[i]];
    assert meals[..i + 1][..i] == meals[..i];
    assert DayOrder(meals[..i + 1]) == keys;
    TotalStepAt(meals, i, keys, values, k);
  }

  /** The step once the day's key `k` exists and its value holds the day's earlier meals. */
  lemma TotalStepAt(meals: seq<Meal>, i: int, keys: seq<int>, values: seq<DailyTotal>, k: int)
    requires 0 <= i < |meals| && 0 <= k < |keys| == |values|
    requires keys[k] == MealDay(meals[i])
    requires Distinct(keys)
    requires keys == DayOrder(meals[..i + 1])
    requires meals[..i + 1] == meals[..i] + [meals[i]]
    requires forall j :: 0 <= j < |keys| ==> values[j] == DailyOf(meals[..i], keys[j])
    ensures TotalledUpTo(meals, i + 1, keys, values[k := AddMeal(values[k], meals[i])])
  {
    var next := values[k := AddMeal(values[k], meals[i])];
    forall j | 0 <= j < |keys| ensures next[j] == DailyOf(meals[..i + 1], keys[j]) {
      MealsOnSnoc(meals[..i], meals[i], keys[j]);
    }
  }

  /** `execute`: the `dailyTotals` map as its keys and values, then the aggregate loop. */
  method Execute(stored: seq<Meal>, userId: string, period: Period, now: int, monthAgo: int, yearAgo: int)
    returns (r: PeriodMealStats)
    ensures r == MealStatsOf(stored, userId, period, now, monthAgo, yearAgo)
  {
    var endDate := EndOfDay(DayOf(now));
    var startDay := match period case Week => DayOf(now) - 7 case Month => monthAgo case Year => yearAgo;
    var startDate := StartOfDay(startDay);
    var meals := MealQuery(stored, userId, startDate, endDate);
    assert meals == PeriodMeals(stored, userId, period, now, monthAgo, yearAgo);
    var keys: seq<int> := [];
    var values: seq<DailyTotal> := [];
    for i := 0 to |meals|
      invariant TotalledUpTo(meals, i, keys, values)
    {
      var meal := meals[i];
      var dateStr := MealDay(meal);
      var k := KeyIndex(keys, dateStr);
      if k == |keys| {
        TotalStepNew(meals, i, keys, values);
        keys := keys + [dateStr];
        values := values + [DailyTotal(dateStr, Zero, 0)];
      } else {
        TotalStepExisting(meals, i, keys, values, k);
      }
      values := values[k := AddMeal(values[k], meal)];
    }
    assert meals[..|meals|] == meals;
    assert values == DailyTotals(meals) by {
      DailiesOfAt(meals, keys);
    }
    var totals, highestCalorieDay, lowestCalorieDay := Aggregate(values);
    var daysLogged := |values|;
    var totalMeals := |meals|;
    var stats := MealStats(
      Round(totals.calories), Average(totals.calories, daysLogged),
      Round(totals.protein), Average(totals.protein, daysLogged),
      Round(totals.carbs), Average(totals.carbs, daysLogged),
      Round(totals.fat), Average(totals.fat, daysLogged),
      daysLogged, totalMeals, Average(totalMeals as real, daysLogged),
      highestCalorieDay, lowestCalorieDay);
    return PeriodMealStats(period, stats);
  }

  /** The aggregate loop over `dailyTotals`: the running sums and the two extremes. */
  method Aggregate(values: seq<DailyTotal>) returns (totals: Totals, highestCalorieDay: Option<CalorieDay>, lowestCalorieDay: Option<CalorieDay>)
    ensures totals == SumDaily(values)
    ensures highestCalorieDay == Highest(values) && lowestCalorieDay == Lowest(values)
  {
    totals := Zero;
    highestCalorieDay := None;
    lowestCalorieDay := None;
    for k := 0 to |values|
      invariant totals == SumDaily(values[..k])
      invariant highestCalorieDay == Highest(values[..k])
      invariant lowestCalorieDay == Lowest(values[..k])
    {
      assert values[..k + 1][..k] == values[..k];
      var entry := values[k];
      totals := totals.Plus(entry.totals);
      if highestCalorieDay.None? || entry.totals.calories > highestCalorieDay.value.calories as real {
        highestCalorieDay := Some(CalorieDay(entry.date, Round(entry.totals.calories)));
      }
      if lowestCalorieDay.None? || entry.totals.calories < lowestCalorieDay.value.calories as real {
        lowestCalorieDay := Some(CalorieDay(entry.date, Round(entry.totals.calories)));
      }
    }
    assert values[..|values|] == values;
  }

  /** The window holds exactly the meals whose UTC day is from the start day through today. */
  lemma PeriodWindow(stored: seq<Meal>, userId: string, period: Period, now: int, monthAgo: int, yearAgo: int)
    ensures var s := StartDay(period, DayOf(now), monthAgo, yearAgo);
            && (period.Week? ==> s == DayOf(now) - 7)
            && forall m :: m in PeriodMeals(stored, userId, period, now, monthAgo, yearAgo)
                 <==> m in stored && m.userId == userId && s <= MealDay(m) <= DayOf(now)
  {
    var s := StartDay(period, DayOf(now), monthAgo, yearAgo);
    MealQueryMembers(stored, userId, StartOfDay(s), EndOfDay(DayOf(now)));
    forall m: Meal ensures StartOfDay(s) <= m.date <= EndOfDay(DayOf(now)) <==> s <= MealDay(m) <= DayOf(now) {
      WindowByDay(m.date, s, DayOf(now));
    }
  }

  lemma {:induction false} SumDailyCons(e: DailyTotal, rest: seq<DailyTotal>)
    ensures SumDaily([e] + rest) == e.totals.Plus(SumDaily(rest))
    decreases |rest|
  {
    if |rest| > 0 {
      var init := rest[..|rest| - 1];
      assert ([e] + rest)[..|[e] + rest| - 1] == [e] + init;
      SumDailyCons(e, init);
    } else {
      assert [e] + rest == [e];
      assert [e][..0] == [];
    }
  }

  /** Added up day by day, the daily totals are the totals of the meals of those days. */
  lemma {:induction false} DailiesSum(meals: seq<Meal>, days: seq<int>)
    ensures SumDaily(DailiesOf(meals, days)) == SumByDay(meals, days)
  {
    if |days| > 0 {
      DailiesSum(meals, days[1..]);
      SumDailyCons(DailyOf(meals, days[0]), DailiesOf(meals, days[1..]));
    }
  }

  /** The meal counts, added up over the days. */
  function CountDaily(entries: seq<DailyTotal>): int {
    if |entries| == 0 then 0 else entries[0].mealCount + CountDaily(entries[1..])
  }

  lemma {:induction false} DailiesCount(meals: seq<Meal>, days: seq<int>)
    ensures CountDaily(DailiesOf(meals, days)) == CountByDay(meals, days)
  {
    if |days| > 0 {
      DailiesCount(meals, days[1..]);
    }
  }

  /**
    There is one value per day with meals, never more than the meals; the
    counts add up to the number of meals and the totals to their totals.
  */
  lemma DailyTotalsSums(meals: seq<Meal>)
    ensures |DailyTotals(meals)| == |MealDays(meals)| <= |meals|
    ensures CountDaily(DailyTotals(meals)) == |meals|
    ensures SumDaily(DailyTotals(meals)) == SumMeals(meals)
  {
    var order := DayOrder(meals);
    DayOrderSpec(meals);
    DailiesOfAt(meals, order);
    DailiesSum(meals, order);
    DailiesCount(meals, order);
    ByDayPartition(meals, order);
  }

  /** Each value holds its day's totals and meal count, each day with meals has one, and no day has two. */
  lemma DailyTotalsEntries(meals: seq<Meal>)
    ensures var entries := DailyTotals(meals);
            && (forall k :: 0 <= k < |entries| ==> entries[k] == DailyOf(meals, entries[k].date) && entries[k].date in MealDays(meals))
            && (forall i, j :: 0 <= i < j < |entries| ==> entries[i].date != entries[j].date)
            && (forall d :: d in MealDays(meals) ==> exists k :: 0 <= k < |entries| && entries[k].date == d)
  {
    var order := DayOrder(meals);
    DayOrderSpec(meals);
    DailiesOfAt(meals, order);
    var entries := DailiesOf(meals, order);
    forall d | d in MealDays(meals) ensures exists k :: 0 <= k < |entries| && entries[k].date == d {
      var k :| 0 <= k < |order| && order[k] == d;
      assert entries[k].date == d;
    }
  }

  /**
    `daysLogged` counts the distinct days, no more than the meals, and the
    totals round the sums of all the meals.
  */
  lemma StatsTotals(meals: seq<Meal>)
    ensures var s := StatsOf(meals);
            var sum := SumMeals(meals);
            && s.daysLogged == |MealDays(meals)| <= s.totalMeals == |meals|
            && s.totalCalories == Round(sum.calories) && s.totalProtein == Round(sum.protein)
            && s.totalCarbs == Round(sum.carbs) && s.totalFat == Round(sum.fat)
  {
    DailyTotalsSums(meals);
  }

  /**
    Every average divides the sum of all the meals by the days logged, and
    `averageMealsPerDay` divides the number of meals by them; all are zero
    without meals.
  */
  lemma StatsAverages(meals: seq<Meal>)
    ensures var s := StatsOf(meals);
            var sum := SumMeals(meals);
            var days := |MealDays(meals)|;
            && s.averageCalories == Average(sum.calories, days) && s.averageProtein == Average(sum.protein, days)
            && s.averageCarbs == Average(sum.carbs, days) && s.averageFat == Average(sum.fat, days)
            && s.averageMealsPerDay == Average(|meals| as real, days)
  {
    var entries := DailyTotals(meals);
    assert |entries| == |MealDays(meals)| && SumDaily(entries) == SumMeals(meals) by {
      DailyTotalsSums(meals);
    }
  }

  /**
    Without days the highest is null, and otherwise it holds the largest
    rounded day total, that of a day that was seen.
  */
  lemma {:induction false} HighestSpec(entries: seq<DailyTotal>)
    ensures Highest(entries).None? <==> |entries| == 0
    ensures Highest(entries).Some? ==>
              && (forall i :: 0 <= i < |entries| ==> Round(entries[i].totals.calories) <= Highest(entries).value.calories)
              && exists i0 :: 0 <= i0 < |entries| && entries[i0].date == Highest(entries).value.date
                              && Round(entries[i0].totals.calories) == Highest(entries).value.calories
  {
    if |entries| > 0 {
      var init := entries[..|entries| - 1];
      var e := entries[|entries| - 1];
      HighestSpec(init);
      assert forall i :: 0 <= i < |init| ==> entries[i] == init[i];
      var t := e.totals.calories;
      var h := Highest(init);
      if h.Some? && !(t > h.value.calories as real) {
        RoundMono(t, h.value.calories as real);
        var i0 :| 0 <= i0 < |init| && init[i0].date == h.value.date && Round(init[i0].totals.calories) == h.value.calories;
        assert entries[i0] == init[i0];
      } else if h.Some? {
        RoundMono(h.value.calories as real, t);
        RoundUnique(h.value.calories as real, h.value.calories);
      }
    }
  }

  /**
    Without days the lowest is null, and otherwise it holds the smallest
    rounded day total, that of a day that was seen.
  */
  lemma {:induction false} LowestSpec(entries: seq<DailyTotal>)
    ensures Lowest(entries).None? <==> |entries| == 0
    ensures Lowest(entries).Some? ==>
              && (forall i :: 0 <= i < |entries| ==> Round(entries[i].totals.calories) >= Lowest(entries).value.calories)
              && exists i0 :: 0 <= i0 < |entries| && entries[i0].date == Lowest(entries).value.date
                              && Round(entries[i0].totals.calories) == Lowest(entries).value.calories
  {
    if |entries| > 0 {
      var init := entries[..|entries| - 1];
      var e := entries[|entries| - 1];
      LowestSpec(init);
      assert forall i :: 0 <= i < |init| ==> entries[i] == init[i];
      var t := e.totals.calories;
      var l := Lowest(init);
      if l.Some? && !(t < l.value.calories as real) {
        RoundMono(l.value.calories as real, t);
        RoundUnique(l.value.calories as real, l.value.calories);
        var i0 :| 0 <= i0 < |init| && init[i0].date == l.value.date && Round(init[i0].totals.calories) == l.value.calories;
        assert entries[i0] == init[i0];
      } else if l.Some? {
        RoundMono(t, l.value.calories as real);
      }
    }
  }

  lemma RoundMono(x: real, y: real)
    requires x <= y
    ensures Round(x) <= Round(y)
  {
  }

  /** When both extremes exist, the lowest day's calories never exceed the highest's. */
  lemma LowestAtMostHighest(entries: seq<DailyTotal>)
    requires Highest(entries).Some? && Lowest(entries).Some?
    ensures Lowest(entries).value.calories <= Highest(entries).value.calories
  {
    HighestSpec(entries);
    LowestSpec(entries);
  }

  /** Every day total is a whole number of calories. */
  ghost predicate WholeCalories(entries: seq<DailyTotal>) {
    forall i :: 0 <= i < |entries| ==> entries[i].totals.calories == Round(entries[i].totals.calories) as real
  }

  /**
    With whole-number day totals the comparison is exact: the highest is the
    first day in insertion order with the largest total, a later tie never
    replacing it.
  */
  lemma {:induction false} HighestFirstWins(entries: seq<DailyTotal>)
    requires WholeCalories(entries)
    ensures Highest(entries).Some? ==>
              exists i0 :: 0 <= i0 < |entries| && entries[i0].date == Highest(entries).value.date
                           && entries[i0].totals.calories == Highest(entries).value.calories as real
                           && (forall j :: 0 <= j < i0 ==> entries[j].totals.calories < Highest(entries).value.calories as real)
                           && (forall j :: 0 <= j < |entries| ==> entries[j].totals.calories <= Highest(entries).value.calories as real)
  {
    if |entries| > 0 {
      var init := entries[..|entries| - 1];
      var e := entries[|entries| - 1];
      assert forall i :: 0 <= i < |init| ==> entries[i] == init[i];
      HighestFirstWins(init);
      var t := e.totals.calories;
      assert t == Round(t) as real;
      var h := Highest(init);
      if h.Some? && !(t > h.value.calories as real) {
        var i0 :| 0 <= i0 < |init| && init[i0].date == h.value.date && init[i0].totals.calories == h.value.calories as real
                  && (forall j :: 0 <= j < i0 ==> init[j].totals.calories < h.value.calories as real)
                  && (forall j :: 0 <= j < |init| ==> init[j].totals.calories <= h.value.calories as real);
        assert entries[i0] == init[i0];
      } else {
        assert entries[|entries| - 1] == e;
      }
    }
  }

  /**
    With whole-number day totals the lowest is the first day in insertion
    order with the smallest total.
  */
  lemma {:induction false} LowestFirstWins(entries: seq<DailyTotal>)
    requires WholeCalories(entries)
    ensures Lowest(entries).Some? ==>
              exists i0 :: 0 <= i0 < |entries| && entries[i0].date == Lowest(entries).value.date
                           && entries[i0].totals.calories == Lowest(entries).value.calories as real
                           && (forall j :: 0 <= j < i0 ==> entries[j].totals.calories > Lowest(entries).value.calories as real)
                           && (forall j :: 0 <= j < |entries| ==> entries[j].totals.calories >= Lowest(entries).value.calories as real)
  {
    if |entries| > 0 {
      var init := entries[..|entries| - 1];
      var e := entries[|entries| - 1];
      assert forall i :: 0 <= i < |init| ==> entries[i] == init[i];
      LowestFirstWins(init);
      var t := e.totals.calories;
      assert t == Round(t) as real;
      var l := Lowest(init);
      if l.Some? && !(t < l.value.calories as real) {
        var i0 :| 0 <= i0 < |init| && init[i0].date == l.value.date && init[i0].totals.calories == l.value.calories as real
                  && (forall j :: 0 <= j < i0 ==> init[j].totals.calories > l.value.calories as real)
                  && (forall j :: 0 <= j < |init| ==> init[j].totals.calories >= l.value.calories as real);
        assert entries[i0] == init[i0];
      } else {
        assert entries[|entries| - 1] == e;
      }
    }
  }
  /** On meals most recent first the days are inserted most recent first, so a tie goes to the most recent day. */
  lemma DailyTotalsNewestFirst(meals: seq<Meal>)
    requires MealsDescending(meals)
    ensures forall i, j :: 0 <= i < j < |DailyTotals(meals)| ==> DailyTotals(meals)[i].date > DailyTotals(meals)[j].date
  {
    DescendingDays(meals);
    DayOrderDescending(meals);
    DailiesOfAt(meals, DayOrder(meals));
  }

  /** The extremes are null exactly when the period has no meals. */
  lemma ExtremesNullIffNoMeals(meals: seq<Meal>)
    ensures StatsOf(meals).highestCalorieDay.None? <==> |meals| == 0
    ensures StatsOf(meals).lowestCalorieDay.None? <==> |meals| == 0
  {
    DailyTotalsSums(meals);
    HighestSpec(DailyTotals(meals));
    LowestSpec(DailyTotals(meals));
    if |meals| > 0 {
      MealDaysMembers(meals, MealDay(meals[0]));
      assert meals[0] in meals;
    }
  }

  /**
    Later days are compared with the rounded calories kept for the current
    highest: of day totals 2.4 then 2.3 the second is reported as highest,
    with the first's rounded total of 2.
  */
  lemma RoundedComparisonExample()
    ensures var entries := [DailyTotal(2, Totals(2.4, 0.0, 0.0, 0.0), 1), DailyTotal(1, Totals(2.3, 0.0, 0.0, 0.0), 1)];
            Highest(entries) == Some(CalorieDay(1, 2))
  {
    var entries := [DailyTotal(2, Totals(2.4, 0.0, 0.0, 0.0), 1), DailyTotal(1, Totals(2.3, 0.0, 0.0, 0.0), 1)];
    assert entries[..1] == [entries[0]];
    assert [entries[0]][..0] == [];
    RoundUnique(2.4, 2);
    RoundUnique(2.3, 2);
  }
}
