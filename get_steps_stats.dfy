/**
  `GetStepsStats.execute`: totals, activity and goal counts, the best day and
  the average of a fixed period ending today, and the current streak over the
  last ninety days.
*/
module GetStepsStats {
  import opened Common
  import opened StepsModel
  import opened DateHelpers
  import opened StepCalculations

  datatype Period = Week | Month | Year

  /** How far `setDate(today.getDate() - n)` moves the start back. */
  function StartOffset(period: Period): int {
    match period
    case Week => 6
    case Month => 29
    case Year => 364
  }

  /** `totalDaysInPeriod`. */
  function TotalDaysInPeriod(period: Period): int {
    match period
    case Week => 7
    case Month => 30
    case Year => 365
  }

  /** The window of a period always holds exactly its fixed number of days, today included. */
  lemma PeriodWindow(period: Period, today: int)
    ensures DayCount(today - StartOffset(period), today) == TotalDaysInPeriod(period)
    ensures TotalDaysInPeriod(period) in {7, 30, 365}
  {
  }

  /** How many days back the streak history reaches, whatever the period. */
  const StreakLookback: int := 90

  /**
    The `bestDay` variable: `date` is `None` while it still holds the initial
    empty string, otherwise the day whose `toISOString` date it holds.
  */
  datatype Leader = Leader(date: Option<int>, steps: int)

  /** A reported best day: the day (printed as `IsoDate(date)`) and its steps. */
  datatype BestDay = BestDay(date: int, steps: int)

  /** The `bestDay` variable after the loop has seen `rows`; only a strictly larger count replaces it. */
  function Lead(rows: seq<StepsRecord>): Leader {
    if |rows| == 0 then Leader(None, 0)
    else
      var lead := Lead(rows[..|rows| - 1]);
      var x := rows[|rows| - 1];
      if x.steps > lead.steps then Leader(Some(x.date), x.steps) else lead
  }

  /** `bestDay.date ? bestDay : null`. */
  function BestDayOf(rows: seq<StepsRecord>): Option<BestDay> {
    var lead := Lead(rows);
    if lead.date.Some? then Some(BestDay(lead.date.value, lead.steps)) else None
  }

  datatype StepsStats = StepsStats(
    totalSteps: int,
    averageSteps: int,
    totalDistanceKm: real,
    totalCalories: int,
    bestDay: Option<BestDay>,
    currentStreak: int,
    daysWithActivity: int,
    goalReachedDays: int)

  datatype PeriodStats = PeriodStats(period: Period, stats: StepsStats)

  /** The rows of the period: `getStepsHistory(userId, today - offset, today)`. */
  function PeriodHistory(stored: seq<StepsRecord>, userId: string, period: Period, today: int): seq<StepsRecord> {
    Query(stored, userId, today - StartOffset(period), today)
  }

  /** The rows the streak is computed from: `getStepsHistory(userId, today - 90, today)`. */
  function StreakHistory(stored: seq<StepsRecord>, userId: string, today: int): seq<StepsRecord> {
    Query(stored, userId, today - StreakLookback, today)
  }

  /** What `execute(userId, period)` returns. */
  function StatsOf(stored: seq<StepsRecord>, userId: string, period: Period, today: int): PeriodStats {
    var history := PeriodHistory(stored, userId, period, today);
    var totalSteps := SumSteps(history);
    PeriodStats(period, StepsStats(
      totalSteps,
      Average(totalSteps as real, TotalDaysInPeriod(period)),
      RoundHundredths(SumDistance(history)),
      Round(SumCalories(history)),
      BestDayOf(history),
      Streak(StreakHistory(stored, userId, today), today),
      CountActive(history),
      CountGoalReached(history)))
  }

  /** `execute`, with the repository's rows as `stored` and `getTodayDate()` as `today`. */
  method Execute(stored: seq<StepsRecord>, userId: string, period: Period, today: int) returns (r: PeriodStats)
    ensures r == StatsOf(stored, userId, period, today)
  {
    var offset := match period case Week => 6 case Month => 29 case Year => 364;
    var history := Query(stored, userId, today - offset, today);
    var totalSteps := 0;
    var totalDistanceKm := 0.0;
    var totalCalories := 0.0;
    var daysWithActivity := 0;
    var goalReachedDays := 0;
    var bestDay := Leader(None, 0);
    for i := 0 to |history|
      invariant totalSteps == SumSteps(history[..i])
      invariant totalDistanceKm == SumDistance(history[..i])
      invariant totalCalories == SumCalories(history[..i])
      invariant daysWithActivity == CountActive(history[..i])
      invariant goalReachedDays == CountGoalReached(history[..i])
      invariant bestDay == Lead(history[..i])
    {
      assert history[..i + 1][..i] == history[..i];
      var entry := history[i];
      totalSteps := totalSteps + entry.steps;
      totalDistanceKm := totalDistanceKm + entry.distanceKm.GetOr(0.0);
      totalCalories := totalCalories + entry.caloriesBurned.GetOr(0.0);
      if entry.steps > 0 {
        daysWithActivity := daysWithActivity + 1;
      }
      if entry.steps >= DefaultGoal {
        goalReachedDays := goalReachedDays + 1;
      }
      if entry.steps > bestDay.steps {
        bestDay := Leader(Some(entry.date), entry.steps);
      }
    }
    assert history[..|history|] == history;
    var totalDaysInPeriod := if period.Week? then 7 else if period.Month? then 30 else 365;
    var averageSteps := if totalDaysInPeriod > 0 then Round(totalSteps as real / totalDaysInPeriod as real) else 0;
    var streakHistory := Query(stored, userId, today - StreakLookback, today);
    var currentStreak := CalculateStreak(streakHistory, today);
    var best := if bestDay.date.Some? then Some(BestDay(bestDay.date.value, bestDay.steps)) else None;
    return PeriodStats(period, StepsStats(totalSteps, averageSteps, RoundHundredths(totalDistanceKm),
                                          Round(totalCalories), best, currentStreak, daysWithActivity, goalReachedDays));
  }

  /** Every goal day is an active day, and every active day is a row. */
  lemma {:induction false} CountsOrdered(rows: seq<StepsRecord>)
    ensures CountGoalReached(rows) <= CountActive(rows) <= |rows|
  {
    if |rows| > 0 {
      CountsOrdered(rows[..|rows| - 1]);
    }
  }

  /**
    The leader holds no day exactly while no row has steps; otherwise it
    holds the maximum count, taken from the first row that reaches it.
  */
  lemma {:induction false} LeadSpec(rows: seq<StepsRecord>)
    ensures var lead := Lead(rows);
            && (lead.date.None? <==> forall i :: 0 <= i < |rows| ==> rows[i].steps <= 0)
            && (lead.date.None? ==> lead.steps == 0)
            && (forall i :: 0 <= i < |rows| ==> rows[i].steps <= lead.steps)
            && (lead.date.Some? ==>
                  exists i0 :: 0 <= i0 < |rows| && rows[i0].date == lead.date.value && rows[i0].steps == lead.steps
                               && forall j :: 0 <= j < i0 ==> rows[j].steps < lead.steps)
  {
    if |rows| > 0 {
      var init := rows[..|rows| - 1];
      var x := rows[|rows| - 1];
      LeadSpec(init);
      var prev := Lead(init);
      assert forall i :: 0 <= i < |init| ==> rows[i] == init[i];
      if x.steps > prev.steps {
        var i0 := |rows| - 1;
        assert rows[i0].date == Lead(rows).date.value;
      } else if prev.date.Some? {
        var i0 :| 0 <= i0 < |init| && init[i0].date == prev.date.value && init[i0].steps == prev.steps
                  && forall j :: 0 <= j < i0 ==> init[j].steps < prev.steps;
        assert rows[i0] == init[i0];
      }
    }
  }

  /**
    `bestDay` is null exactly when no row has a step; otherwise it is a day
    of the history holding the maximum count, the first such in iteration order.
  */
  lemma BestDaySpec(rows: seq<StepsRecord>)
    ensures BestDayOf(rows).None? <==> forall i :: 0 <= i < |rows| ==> rows[i].steps <= 0
    ensures BestDayOf(rows).Some? ==>
              var b := BestDayOf(rows).value;
              && b.steps > 0
              && (forall i :: 0 <= i < |rows| ==> rows[i].steps <= b.steps)
              && exists i0 :: 0 <= i0 < |rows| && rows[i0].date == b.date && rows[i0].steps == b.steps
                              && forall j :: 0 <= j < i0 ==> rows[j].steps < b.steps
  {
    LeadSpec(rows);
    if BestDayOf(rows).Some? {
      var i0 :| 0 <= i0 < |rows| && rows[i0].date == Lead(rows).date.value && rows[i0].steps == Lead(rows).steps;
    }
  }

  /** On a history most recent first, the most recent of the days tied at the maximum is reported. */
  lemma BestDayMostRecent(rows: seq<StepsRecord>)
    requires StrictlyDescending(rows)
    requires BestDayOf(rows).Some?
    ensures forall i :: 0 <= i < |rows| && rows[i].steps == BestDayOf(rows).value.steps ==> rows[i].date <= BestDayOf(rows).value.date
  {
    BestDaySpec(rows);
    var b := BestDayOf(rows).value;
    var i0 :| 0 <= i0 < |rows| && rows[i0].date == b.date && rows[i0].steps == b.steps
              && forall j :: 0 <= j < i0 ==> rows[j].steps < b.steps;
  }

  /**
    The counts are ordered and the average divides the total by the fixed
    7, 30 or 365 days, however many days were logged.
  */
  lemma StatsCounts(stored: seq<StepsRecord>, userId: string, period: Period, today: int)
    ensures var s := StatsOf(stored, userId, period, today).stats;
            var history := PeriodHistory(stored, userId, period, today);
            && s.totalSteps == SumSteps(history)
            && s.goalReachedDays <= s.daysWithActivity <= |history|
            && s.averageSteps == (2 * s.totalSteps + TotalDaysInPeriod(period)) / (2 * TotalDaysInPeriod(period))
  {
    var history := PeriodHistory(stored, userId, period, today);
    CountsOrdered(history);
    RoundedQuotient(SumSteps(history), TotalDaysInPeriod(period));
  }

  /** The history holds only the period's days, one row per day at most, so there are no more rows than days. */
  lemma {:induction false} HistoryWithinPeriod(stored: seq<StepsRecord>, userId: string, period: Period, today: int)
    requires OneRowPerUserDay(stored) && DateDescending(stored)
    ensures var history := PeriodHistory(stored, userId, period, today);
            && StrictlyDescending(history)
            && (forall i :: 0 <= i < |history| ==> today - StartOffset(period) <= history[i].date <= today)
            && |history| <= TotalDaysInPeriod(period)
  {
    var lo := today - StartOffset(period);
    var history := PeriodHistory(stored, userId, period, today);
    QueryStrictlyDescending(stored, userId, lo, today);
    QueryMembers(stored, userId, lo, today);
    assert forall i :: 0 <= i < |history| ==> history[i] in history;
    DescendingWithin(history, lo, today);
  }

  /** A strictly descending run of days inside `[lo, hi]` has at most `hi - lo + 1` rows. */
  lemma {:induction false} DescendingWithin(rows: seq<StepsRecord>, lo: int, hi: int)
    requires StrictlyDescending(rows)
    requires forall i :: 0 <= i < |rows| ==> lo <= rows[i].date <= hi
    ensures |rows| <= DayCount(lo, hi)
  {
    if |rows| > 1 {
      var tail := rows[1..];
      assert forall i :: 0 <= i < |tail| ==> tail[i] == rows[i + 1];
      assert rows[0].date > rows[1].date;
      DescendingWithin(tail, lo, rows[0].date - 1);
    }
  }

  /** Distance and calories are the rounded sums with a missing value counted as zero, and the best day is the history's. */
  lemma StatsTotals(stored: seq<StepsRecord>, userId: string, period: Period, today: int)
    ensures var s := StatsOf(stored, userId, period, today).stats;
            var history := PeriodHistory(stored, userId, period, today);
            && WholeHundredths(s.totalDistanceKm)
            && SumDistance(history) - 0.005 < s.totalDistanceKm <= SumDistance(history) + 0.005
            && Round(SumCalories(history)) == s.totalCalories
            && (s.bestDay.None? <==> forall i :: 0 <= i < |history| ==> history[i].steps <= 0)
  {
    BestDaySpec(PeriodHistory(stored, userId, period, today));
  }

  /** The streak is the same for every period: it comes from the last ninety days alone. */
  lemma StreakIgnoresPeriod(stored: seq<StepsRecord>, userId: string, p1: Period, p2: Period, today: int)
    ensures StatsOf(stored, userId, p1, today).stats.currentStreak == StatsOf(stored, userId, p2, today).stats.currentStreak
    ensures StatsOf(stored, userId, p1, today).stats.currentStreak <= |StreakHistory(stored, userId, today)|
  {
    StreakBounded(StreakHistory(stored, userId, today), today);
  }
}
