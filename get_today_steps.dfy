/**
  `GetTodaySteps.execute`: today's row, or an all-zero placeholder, with the
  progress towards the default 10,000-step goal.
*/
module GetTodaySteps {
  import opened Common
  import opened StepsModel
  import opened StepCalculations

  /** The response; `date` is the UTC day whose ISO date is reported. */
  datatype TodaySteps = TodaySteps(
    id: Option<string>,
    date: int,
    steps: int,
    distanceKm: real,
    caloriesBurned: real,
    goalSteps: int,
    goalProgress: real,
    goalReached: bool)

  /** `getStepsByDate(userId, day)`: the row with the key `(userId, day)`, if any. */
  function StepsByDate(stored: seq<StepsRecord>, userId: string, day: int): (r: Option<StepsRecord>)
    ensures r.Some? ==> r.value in stored && r.value.userId == userId && r.value.date == day
    ensures r.None? ==> forall x :: x in stored && x.userId == userId ==> x.date != day
  {
    if |stored| == 0 then None
    else if stored[0].userId == userId && stored[0].date == day then Some(stored[0])
    else StepsByDate(stored[1..], userId, day)
  }

  /** With one row per user and day, the row found is the only one with that key. */
  lemma StepsByDateUnique(stored: seq<StepsRecord>, userId: string, day: int, x: StepsRecord)
    requires OneRowPerUserDay(stored)
    requires x in stored && x.userId == userId && x.date == day
    ensures StepsByDate(stored, userId, day) == Some(x)
  {
    var r := StepsByDate(stored, userId, day);
    var i :| 0 <= i < |stored| && stored[i] == x;
    var j :| 0 <= j < |stored| && stored[j] == r.value;
    if i < j {
      assert stored[i].userId == stored[j].userId;
    } else if j < i {
      assert stored[j].userId == stored[i].userId;
    }
  }

  /** The response for the row found, or for none. */
  function Respond(entry: Option<StepsRecord>, today: int): TodaySteps {
    match entry
    case None => TodaySteps(None, today, 0, 0.0, 0.0, DefaultGoal, 0.0, false)
    case Some(e) =>
      TodaySteps(Some(e.id.Text()), e.date, e.steps, e.distanceKm.GetOr(0.0), e.caloriesBurned.GetOr(0.0),
                 DefaultGoal, CalculateGoalProgress(e.steps, DefaultGoal), e.steps >= DefaultGoal)
  }

  /** What `execute(userId)` returns; `today` is `getTodayDate()`. */
  function TodayStepsOf(stored: seq<StepsRecord>, userId: string, today: int): TodaySteps {
    Respond(StepsByDate(stored, userId, today), today)
  }

  /** Without a row for today the response has no id, zero everything and the goal not reached. */
  lemma NoEntryDefaults(stored: seq<StepsRecord>, userId: string, today: int)
    requires forall x :: x in stored && x.userId == userId ==> x.date != today
    ensures TodayStepsOf(stored, userId, today) == TodaySteps(None, today, 0, 0.0, 0.0, 10000, 0.0, false)
  {
  }

  /**
    With today's row, the response shows its id and steps, a missing
    distance or calorie count as zero, the goal reached exactly at 10,000
    steps and the progress as `steps / 100` per cent.
  */
  lemma EntryShown(stored: seq<StepsRecord>, userId: string, today: int, x: StepsRecord)
    requires OneRowPerUserDay(stored)
    requires x in stored && x.userId == userId && x.date == today
    ensures var r := TodayStepsOf(stored, userId, today);
            && r.id == Some(x.id.Text()) && r.date == today && r.steps == x.steps && r.goalSteps == 10000
            && (r.goalReached <==> x.steps >= 10000)
            && r.goalProgress == x.steps as real / 100.0
            && (x.distanceKm.None? ==> r.distanceKm == 0.0) && (x.distanceKm.Some? ==> r.distanceKm == x.distanceKm.value)
            && (x.caloriesBurned.None? ==> r.caloriesBurned == 0.0) && (x.caloriesBurned.Some? ==> r.caloriesBurned == x.caloriesBurned.value)
  {
    StepsByDateUnique(stored, userId, today, x);
    GoalProgressExact(x.steps, DefaultGoal);
  }

  /** Either way the response is dated today and reaches the goal exactly when some row of today has 10,000 steps. */
  lemma GoalReachedIff(stored: seq<StepsRecord>, userId: string, today: int)
    requires OneRowPerUserDay(stored)
    ensures var r := TodayStepsOf(stored, userId, today);
            && r.date == today
            && (r.goalReached <==> exists x :: x in stored && x.userId == userId && x.date == today && x.steps >= 10000)
  {
    var e := StepsByDate(stored, userId, today);
    if e.Some? {
      forall x | x in stored && x.userId == userId && x.date == today ensures x == e.value {
        StepsByDateUnique(stored, userId, today, x);
      }
    }
  }
}
