/**
  `GetTodayMeals.execute`: today's meals, their field-wise totals, the
  user's nutrition goals (or the defaults) and what remains of each goal.
*/
module GetTodayMeals {
  import opened Common
  import opened MealsModel

  /** A stored `NutritionGoals` row. */
  datatype NutritionGoals = NutritionGoals(dailyCalories: real, dailyProtein: real, dailyCarbs: real, dailyFat: real)

  /** `nutritionDefaults`: the goals of a user who has set none. */
  const DefaultGoals: Totals := Totals(2000.0, 150.0, 250.0, 65.0)

  /** The response; `date` is the UTC day whose ISO date is reported. */
  datatype TodayMeals = TodayMeals(date: int, meals: seq<Meal>, totals: Totals, goals: Totals, remaining: Totals)

  /** `getTodayMeals(userId, today)`: the user's meals from the start to the end of the UTC day. */
  function MealsOfDay(stored: seq<Meal>, userId: string, day: int): seq<Meal> {
    MealQuery(stored, userId, StartOfDay(day), EndOfDay(day))
  }

  /** The goal values: the stored goals when there are any, the defaults otherwise. */
  function GoalValues(goals: Option<NutritionGoals>): Totals {
    match goals
    case Some(g) => Totals(g.dailyCalories, g.dailyProtein, g.dailyCarbs, g.dailyFat)
    case None => DefaultGoals
  }

  /** `Math.max(0, goal - total)`: what remains of one goal, never below zero. */
  function RemainingAmount(goal: real, total: real): (r: real)
    ensures r >= 0.0
    ensures total <= goal ==> total + r == goal
    ensures total >= goal ==> r == 0.0
  {
    Max(0.0, goal - total)
  }

  function Remaining(goals: Totals, totals: Totals): Totals {
    Totals(RemainingAmount(goals.calories, totals.calories), RemainingAmount(goals.protein, totals.protein),
           RemainingAmount(goals.carbs, totals.carbs), RemainingAmount(goals.fat, totals.fat))
  }

  /** What `execute(userId)` returns; `now` is `new Date()` and `goals` what `getNutritionGoals` finds. */
  function TodayMealsOf(stored: seq<Meal>, userId: string, now: int, goals: Option<NutritionGoals>): TodayMeals {
    var today := DayOf(now);
    var meals := MealsOfDay(stored, userId, today);
    var totals := SumMeals(meals);
    var goalValues := GoalValues(goals);
    TodayMeals(today, meals, totals, goalValues, Remaining(goalValues, totals))
  }

  /**
    The meals are exactly the user's meals of today's UTC date, the totals
    their field-wise sums (all zero without meals), and the date today's.
  */
  lemma TodayTotals(stored: seq<Meal>, userId: string, now: int, goals: Option<NutritionGoals>)
    ensures var r := TodayMealsOf(stored, userId, now, goals);
            && r.date == DayOf(now)
            && (forall m :: m in r.meals <==> m in stored && m.userId == userId && MealDay(m) == DayOf(now))
            && r.totals == SumMeals(r.meals)
            && (|r.meals| == 0 ==> r.totals == Zero)
  {
    var day := DayOf(now);
    MealQueryMembers(stored, userId, StartOfDay(day), EndOfDay(day));
    forall m: Meal ensures StartOfDay(day) <= m.date <= EndOfDay(day) <==> MealDay(m) == day {
      WindowByDay(m.date, day, day);
    }
  }

  /** Without stored goals the goals are 2000 kcal, 150 g protein, 250 g carbs and 65 g fat; with them, theirs. */
  lemma GoalsDefaulting(stored: seq<Meal>, userId: string, now: int, goals: Option<NutritionGoals>)
    ensures var g := TodayMealsOf(stored, userId, now, goals).goals;
            && (goals.None? ==> g.calories == 2000.0 && g.protein == 150.0 && g.carbs == 250.0 && g.fat == 65.0)
            && (goals.Some? ==> g.calories == goals.value.dailyCalories && g.protein == goals.value.dailyProtein
                                && g.carbs == goals.value.dailyCarbs && g.fat == goals.value.dailyFat)
  {
  }

  /**
    Every remaining amount is non-negative; below its goal a total and its
    remaining amount add up to the goal, and at or above it nothing remains.
  */
  lemma RemainingSpec(stored: seq<Meal>, userId: string, now: int, goals: Option<NutritionGoals>)
    ensures var r := TodayMealsOf(stored, userId, now, goals);
            && r.remaining.NonNegative()
            && (r.totals.calories <= r.goals.calories ==> r.totals.calories + r.remaining.calories == r.goals.calories)
            && (r.totals.protein <= r.goals.protein ==> r.totals.protein + r.remaining.protein == r.goals.protein)
            && (r.totals.carbs <= r.goals.carbs ==> r.totals.carbs + r.remaining.carbs == r.goals.carbs)
            && (r.totals.fat <= r.goals.fat ==> r.totals.fat + r.remaining.fat == r.goals.fat)
            && (r.totals.calories >= r.goals.calories ==> r.remaining.calories == 0.0)
            && (r.totals.protein >= r.goals.protein ==> r.remaining.protein == 0.0)
            && (r.totals.carbs >= r.goals.carbs ==> r.remaining.carbs == 0.0)
            && (r.totals.fat >= r.goals.fat ==> r.remaining.fat == 0.0)
  {
  }

  /** With no meals today, everything of every goal remains. */
  lemma NothingEatenAllRemains(stored: seq<Meal>, userId: string, now: int, goals: Option<NutritionGoals>)
    requires forall m :: m in stored && m.userId == userId ==> MealDay(m) != DayOf(now)
    requires goals.Some? ==> goals.value.dailyCalories >= 0.0 && goals.value.dailyProtein >= 0.0
                             && goals.value.dailyCarbs >= 0.0 && goals.value.dailyFat >= 0.0
    ensures TodayMealsOf(stored, userId, now, goals).remaining == TodayMealsOf(stored, userId, now, goals).goals
  {
    TodayTotals(stored, userId, now, goals);
  }
}
