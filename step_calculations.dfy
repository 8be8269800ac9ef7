/**
  The derived figures of a day's steps (distance, calories, progress towards
  a goal) and the active-day streak of a history.
*/
module StepCalculations {
  import opened Common
  import opened StepsModel

  /** `calculateDistance`: 0.8 m per step, in km, rounded to the hundredth. */
  function CalculateDistance(steps: int): (km: real)
    ensures WholeHundredths(km)
    ensures steps as real * 0.0008 - 0.005 < km <= steps as real * 0.0008 + 0.005
  {
    RoundHundredths(steps as real * 0.0008)
  }

  /** The distance in whole hundredths of a km, as integer arithmetic: `round(4 * steps / 50)`. */
  lemma DistanceExact(steps: int)
    ensures CalculateDistance(steps) == ((4 * steps + 25) / 50) as real / 100.0
  {
    assert steps as real * 0.0008 * 100.0 == (2 * steps) as real / 25 as real;
    RoundedQuotient(2 * steps, 25);
  }

  /** `calculateCalories`: 0.04 kcal per step, rounded to the nearest kcal. */
  function CalculateCalories(steps: int): (kcal: int)
    ensures kcal as real - 0.5 <= steps as real * 0.04 < kcal as real + 0.5
    ensures kcal == (2 * steps + 25) / 50
  {
    assert steps as real * 0.04 == steps as real / 25 as real;
    RoundedQuotient(steps, 25);
    Round(steps as real * 0.04)
  }

  /** More steps never burn fewer calories, and no steps burn none. */
  lemma CaloriesMonotone(s1: int, s2: int)
    requires s1 <= s2
    ensures CalculateCalories(s1) <= CalculateCalories(s2)
    ensures CalculateCalories(0) == 0
  {
    var q1 := (2 * s1 + 25) / 50;
    var q2 := (2 * s2 + 25) / 50;
    assert 50 * q1 <= 2 * s1 + 25 <= 2 * s2 + 25 < 50 * q2 + 50;
  }

  /** `calculateGoalProgress`: the percentage of the goal reached, to two decimals; 0 for a zero goal. */
  function CalculateGoalProgress(steps: int, goal: int): (pct: real)
    ensures goal == 0 ==> pct == 0.0
    ensures WholeHundredths(pct)
    ensures goal != 0 ==> steps as real / goal as real * 100.0 - 0.005 < pct <= steps as real / goal as real * 100.0 + 0.005
  {
    if goal == 0 then 0.0
    else RoundHundredths(steps as real / goal as real * 100.0)
  }

  /** Meeting the goal exactly is 100 %, and against the default goal the percentage is `steps / 100` exactly. */
  lemma GoalProgressExact(steps: int, goal: int)
    requires goal != 0
    ensures CalculateGoalProgress(goal, goal) == 100.0
    ensures CalculateGoalProgress(steps, DefaultGoal) == steps as real / 100.0
  {
    assert goal as real / goal as real * 100.0 * 100.0 == 10000 as real;
    RoundUnique(10000 as real, 10000);
    assert steps as real / DefaultGoal as real * 100.0 * 100.0 == steps as real;
    RoundUnique(steps as real, steps);
  }

  /** The `activeDays` set: the days of the history with at least one step. */
  function ActiveDays(history: seq<StepsRecord>): (days: set<int>)
    ensures forall e :: e in history && e.steps > 0 ==> e.date in days
  {
    if |history| == 0 then {}
    else
      var x := history[|history| - 1];
      var init := history[..|history| - 1];
      assert forall e :: e in history ==> e in init || e == x;
      ActiveDays(init) + (if x.steps > 0 then {x.date} else {})
  }

  /** A day is active exactly when some row of that day has steps. */
  lemma {:induction false} ActiveDaysExact(history: seq<StepsRecord>, d: int)
    ensures d in ActiveDays(history) <==> exists e :: e in history && e.steps > 0 && e.date == d
  {
    if |history| > 0 {
      var init := history[..|history| - 1];
      ActiveDaysExact(init, d);
      assert forall e :: e in history <==> e in init || e == history[|history| - 1];
    }
  }

  /**
    The loop of `calculateStreak` from index `i` on, `n` being the history's
    length: day `today - i` extends the streak when active; otherwise it
    ends it, except that a missed yesterday is skipped when today is missed too.
  */
  function WalkBack(active: set<int>, today: int, todayActive: bool, i: int, n: int): int
    decreases n - i
  {
    if i >= n then 0
    else if today - i in active then 1 + WalkBack(active, today, todayActive, i + 1, n)
    else if i == 1 && !todayActive then WalkBack(active, today, todayActive, i + 1, n)
    else 0
  }

  /** What `calculateStreak(history, today)` returns. */
  function Streak(history: seq<StepsRecord>, today: int): int {
    if |history| == 0 then 0
    else
      var active := ActiveDays(history);
      (if today in active then 1 else 0) + WalkBack(active, today, today in active, 1, |history|)
  }

  /** `calculateStreak`, as the source runs it: the active-day set, then the walk back from today. */
  method CalculateStreak(history: seq<StepsRecord>, today: int) returns (streak: int)
    ensures streak == Streak(history, today)
  {
    if |history| == 0 {
      return 0;
    }
    streak := 0;
    var activeDays: set<int> := {};
    for j := 0 to |history|
      invariant activeDays == ActiveDays(history[..j])
    {
      assert history[..j + 1][..j] == history[..j];
      if history[j].steps > 0 {
        activeDays := activeDays + {history[j].date};
      }
    }
    assert history[..|history|] == history;
    var todayIsActive := today in activeDays;
    if todayIsActive {
      streak := streak + 1;
    }
    var i := 1;
    while i < |history|
      invariant 1 <= i <= |history|
      invariant streak + WalkBack(activeDays, today, todayIsActive, i, |history|) == Streak(history, today)
    {
      if today - i in activeDays {
        streak := streak + 1;
      } else if i == 1 && !todayIsActive {
      } else {
        break;
      }
      i := i + 1;
    }
  }

  /** Consecutive active days counted down from `from`, at most `cap` of them. */
  function Run(active: set<int>, from: int, cap: int): (r: nat)
    ensures r <= if cap < 0 then 0 else cap
    decreases cap
  {
    if cap <= 0 || from !in active then 0 else 1 + Run(active, from - 1, cap - 1)
  }

  lemma {:induction false} WalkBackIsRun(active: set<int>, today: int, todayActive: bool, i: int, n: int)
    requires i > 1 || todayActive
    ensures WalkBack(active, today, todayActive, i, n) == Run(active, today - i, n - i)
    decreases n - i
  {
    if i < n && today - i in active {
      WalkBackIsRun(active, today, todayActive, i + 1, n);
    }
  }

  /**
    The streak is the run of active days ending today, or ending yesterday
    when today has no steps; when both today and yesterday have none, the
    source still counts the run ending the day before yesterday. Each run is
    capped by the number of history rows the loop visits.
  */
  lemma StreakIsRun(history: seq<StepsRecord>, today: int)
    ensures var active := ActiveDays(history);
            var n := |history|;
            Streak(history, today) ==
              if n == 0 then 0
              else if today in active then 1 + Run(active, today - 1, n - 1)
              else if today - 1 in active then Run(active, today - 1, n - 1)
              else Run(active, today - 2, n - 2)
  {
    var active := ActiveDays(history);
    var n := |history|;
    if n > 0 {
      if today in active {
        WalkBackIsRun(active, today, true, 1, n);
      } else if today - 1 in active {
        WalkBackIsRun(active, today, false, 2, n);
      } else {
        WalkBackIsRun(active, today, false, 2, n);
      }
    }
  }

  /** The streak never exceeds the number of rows. */
  lemma StreakBounded(history: seq<StepsRecord>, today: int)
    ensures 0 <= Streak(history, today) <= |history|
  {
    StreakIsRun(history, today);
  }

  /** A run counted down from `from` uses distinct active days, none after `from`. */
  lemma {:induction false} RunWithinActive(active: set<int>, from: int, cap: int)
    ensures Run(active, from, cap) <= |set d | d in active && d <= from|
    decreases cap
  {
    if cap > 0 && from in active {
      RunWithinActive(active, from - 1, cap - 1);
      var below := set d | d in active && d <= from - 1;
      var upTo := set d | d in active && d <= from;
      assert upTo == below + {from};
    }
  }

  lemma SubsetSize(a: set<int>, b: set<int>)
    requires a <= b
    ensures |a| <= |b|
  {
    assert b == a + (b - a);
    assert a * (b - a) == {};
  }

  /** Each day the streak counts is a distinct active day: the streak never exceeds the active days. */
  lemma StreakAtMostActiveDays(history: seq<StepsRecord>, today: int)
    ensures Streak(history, today) <= |ActiveDays(history)|
  {
    var active := ActiveDays(history);
    StreakIsRun(history, today);
    if |history| > 0 {
      if today in active {
        RunWithinActive(active, today - 1, |history| - 1);
        var below := set d | d in active && d <= today - 1;
        assert |below + {today}| == |below| + 1;
        SubsetSize(below + {today}, active);
      } else if today - 1 in active {
        RunWithinActive(active, today - 1, |history| - 1);
        var below := set d | d in active && d <= today - 1;
        SubsetSize(below, active);
      } else {
        RunWithinActive(active, today - 2, |history| - 2);
        var below := set d | d in active && d <= today - 2;
        SubsetSize(below, active);
      }
    }
  }

  /** The streak depends only on the set of active days and on the number of rows. */
  lemma StreakActiveSetAndLength(h1: seq<StepsRecord>, h2: seq<StepsRecord>, today: int)
    requires ActiveDays(h1) == ActiveDays(h2) && |h1| == |h2|
    ensures Streak(h1, today) == Streak(h2, today)
  {
  }

  /** Only the set of rows matters, not their order: the same rows in any order give the same streak. */
  lemma StreakOrderIndependent(h1: seq<StepsRecord>, h2: seq<StepsRecord>, today: int)
    requires multiset(h1) == multiset(h2)
    ensures Streak(h1, today) == Streak(h2, today)
  {
    assert |h1| == |multiset(h1)| == |multiset(h2)| == |h2|;
    forall d ensures d in ActiveDays(h1) ==> d in ActiveDays(h2) {
      ActiveDaysExact(h1, d);
      if d in ActiveDays(h1) {
        var e :| e in h1 && e.steps > 0 && e.date == d;
        assert e in multiset(h2);
      }
    }
    forall d ensures d in ActiveDays(h2) ==> d in ActiveDays(h1) {
      ActiveDaysExact(h2, d);
      if d in ActiveDays(h2) {
        var e :| e in h2 && e.steps > 0 && e.date == d;
        assert e in multiset(h1);
      }
    }
    assert ActiveDays(h1) == ActiveDays(h2);
    StreakActiveSetAndLength(h1, h2, today);
  }

  /** An active today after an inactive yesterday is a streak of exactly one day. */
  lemma TodayAfterMissedYesterday(history: seq<StepsRecord>, today: int)
    requires today in ActiveDays(history) && today - 1 !in ActiveDays(history)
    ensures Streak(history, today) == 1
  {
    StreakIsRun(history, today);
  }

  /** Every one of `cap` days counted down from `from` active: the run is `cap` long. */
  lemma {:induction false} RunAllActive(active: set<int>, from: int, cap: int)
    requires cap >= 0
    requires forall d :: from - cap < d <= from ==> d in active
    ensures Run(active, from, cap) == cap
    decreases cap
  {
    if cap > 0 {
      RunAllActive(active, from - 1, cap - 1);
    }
  }

  /** A history of ten rows, every day active, ending today gives ten. */
  lemma StreakTenActiveDays()
    ensures Streak(seq(10, k => Row(100 - k, 5000)), 100) == 10
  {
    var h := seq(10, k => Row(100 - k, 5000));
    forall d | 90 < d <= 100 ensures d in ActiveDays(h) {
      assert h[100 - d] in h;
    }
    StreakIsRun(h, 100);
    RunAllActive(ActiveDays(h), 99, 9);
  }

  function Row(day: int, steps: int): StepsRecord {
    StepsRecord(Stored("r"), "u", day, steps, None, None)
  }

  lemma ActiveDaysOfThree(a: StepsRecord, b: StepsRecord, c: StepsRecord)
    ensures ActiveDays([a, b, c]) ==
      (if a.steps > 0 then {a.date} else {}) + (if b.steps > 0 then {b.date} else {}) + (if c.steps > 0 then {c.date} else {})
  {
    assert [a, b, c][..2] == [a, b];
    assert [a, b][..1] == [a];
    assert [a][..0] == [];
    assert ActiveDays([a]) == if a.steps > 0 then {a.date} else {};
    assert ActiveDays([a, b]) == ActiveDays([a]) + if b.steps > 0 then {b.date} else {};
  }

  /** A missed today with the two days before it active gives two. */
  lemma StreakMissedToday()
    ensures Streak([Row(100, 0), Row(99, 8000), Row(98, 8000)], 100) == 2
  {
    ActiveDaysOfThree(Row(100, 0), Row(99, 8000), Row(98, 8000));
    assert ActiveDays([Row(100, 0), Row(99, 8000), Row(98, 8000)]) == {99, 98};
    assert WalkBack({99, 98}, 100, false, 3, 3) == 0;
    assert WalkBack({99, 98}, 100, false, 2, 3) == 1;
    assert WalkBack({99, 98}, 100, false, 1, 3) == 2;
  }

  /** No active day gives zero. */
  lemma StreakNoActiveDay()
    ensures Streak([Row(100, 0), Row(99, 0), Row(98, 0)], 100) == 0
  {
    ActiveDaysOfThree(Row(100, 0), Row(99, 0), Row(98, 0));
    assert ActiveDays([Row(100, 0), Row(99, 0), Row(98, 0)]) == {};
    assert WalkBack({}, 100, false, 2, 3) == 0;
    assert WalkBack({}, 100, false, 1, 3) == 0;
  }

  /** Only yesterday active, today and the day before missed: the streak is one. */
  lemma StreakOnlyYesterday()
    ensures Streak([Row(100, 0), Row(99, 500), Row(98, 0)], 100) == 1
  {
    var h := [Row(100, 0), Row(99, 500), Row(98, 0)];
    ActiveDaysOfThree(Row(100, 0), Row(99, 500), Row(98, 0));
    assert ActiveDays(h) == {99};
    assert WalkBack({99}, 100, false, 2, 3) == 0;
    assert WalkBack({99}, 100, false, 1, 3) == 1;
  }

  /** Today and yesterday both missed: the day before yesterday still counts. */
  lemma StreakSkipsMissedYesterday()
    ensures Streak([Row(100, 0), Row(99, 0), Row(98, 500)], 100) == 1
  {
    ActiveDaysOfThree(Row(100, 0), Row(99, 0), Row(98, 500));
    assert ActiveDays([Row(100, 0), Row(99, 0), Row(98, 500)]) == {98};
    assert WalkBack({98}, 100, false, 3, 3) == 0;
    assert WalkBack({98}, 100, false, 2, 3) == 1;
    assert WalkBack({98}, 100, false, 1, 3) == 1;
  }
}
