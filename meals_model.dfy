/**
  The Meal entity, its foods, nutrition totals, the meal errors, and the
  meal repository's history query over a snapshot of stored meals.
*/
module MealsModel {
  import opened Common

  /** Calories, protein, carbs and fat, as `NutritionTotals`. */
  datatype Totals = Totals(calories: real, protein: real, carbs: real, fat: real) {
    function Plus(other: Totals): Totals {
      Totals(calories + other.calories, protein + other.protein, carbs + other.carbs, fat + other.fat)
    }

    predicate NonNegative() {
      calories >= 0.0 && protein >= 0.0 && carbs >= 0.0 && fat >= 0.0
    }
  }

  const Zero: Totals := Totals(0.0, 0.0, 0.0, 0.0)

  /** A food of a meal (`MealFoodData`). */
  datatype MealFood = MealFood(
    foodId: Option<string>,
    foodName: string,
    brandName: Option<string>,
    servingSize: real,
    servingUnit: string,
    calories: real,
    protein: real,
    carbs: real,
    fat: real)

  /** A persisted meal; `date` is its instant in milliseconds. */
  datatype Meal = Meal(
    id: string,
    userId: string,
    mealType: string,
    date: int,
    totals: Totals,
    notes: Option<string>,
    foods: seq<MealFood>)

  datatype MealError =
    | InvalidMealDataError(message: string)
    | MealNotFoundError

  /** The message of an unknown meal type. */
  const InvalidMealType: string := "Invalid meal type"

  /** The meal types the use cases accept. */
  const MealTypes: seq<string> := ["breakfast", "lunch", "dinner", "snack"]

  predicate IsMealType(mealType: string) {
    mealType in MealTypes
  }

  /** `calculateTotals(foods)`: the field-wise sum of the foods' nutrients. */
  function FoodTotals(foods: seq<MealFood>): Totals {
    if |foods| == 0 then Zero
    else
      var f := foods[|foods| - 1];
      FoodTotals(foods[..|foods| - 1]).Plus(Totals(f.calories, f.protein, f.carbs, f.fat))
  }

  /** Totalling a list of foods is additive over concatenation. */
  lemma {:induction false} FoodTotalsAppend(a: seq<MealFood>, b: seq<MealFood>)
    ensures FoodTotals(a + b) == FoodTotals(a).Plus(FoodTotals(b))
    decreases |b|
  {
    if |b| == 0 {
      assert a + b == a;
    } else {
      assert (a + b)[..|a + b| - 1] == a + b[..|b| - 1];
      FoodTotalsAppend(a, b[..|b| - 1]);
    }
  }

  /** Foods with non-negative nutrients give non-negative totals, each at least every single food's. */
  lemma {:induction false} FoodTotalsBounds(foods: seq<MealFood>)
    requires forall i :: 0 <= i < |foods| ==> foods[i].calories >= 0.0 && foods[i].protein >= 0.0
                                              && foods[i].carbs >= 0.0 && foods[i].fat >= 0.0
    ensures FoodTotals(foods).NonNegative()
    ensures forall i :: 0 <= i < |foods| ==> foods[i].calories <= FoodTotals(foods).calories
  {
    if |foods| > 0 {
      FoodTotalsBounds(foods[..|foods| - 1]);
    }
  }

  /** The sum of the meals' totals, as the `reduce` over `totalCalories`, `totalProtein`, ... */
  function SumMeals(meals: seq<Meal>): Totals {
    if |meals| == 0 then Zero else SumMeals(meals[..|meals| - 1]).Plus(meals[|meals| - 1].totals)
  }

  lemma {:induction false} SumMealsAppend(a: seq<Meal>, b: seq<Meal>)
    ensures SumMeals(a + b) == SumMeals(a).Plus(SumMeals(b))
    decreases |b|
  {
    if |b| == 0 {
      assert a + b == a;
    } else {
      assert (a + b)[..|a + b| - 1] == a + b[..|b| - 1];
      SumMealsAppend(a, b[..|b| - 1]);
    }
  }

  /** The UTC calendar day a meal is grouped under (`toISOString().split('T')[0]`). */
  function MealDay(m: Meal): int {
    DayOf(m.date)
  }

  /**
    `getMealHistory(userId, start, end)`: the user's meals with
    `start <= date <= end` (instants), in the order of `stored`.
  */
  function MealQuery(stored: seq<Meal>, userId: string, start: int, end: int): (r: seq<Meal>)
    ensures |r| <= |stored|
  {
    if |stored| == 0 then []
    else
      var m := stored[|stored| - 1];
      var prefix := MealQuery(stored[..|stored| - 1], userId, start, end);
      if m.userId == userId && start <= m.date <= end then prefix + [m] else prefix
  }

  /** The query returns exactly the user's meals within the window. */
  lemma {:induction false} MealQueryMembers(stored: seq<Meal>, userId: string, start: int, end: int)
    ensures forall m :: m in MealQuery(stored, userId, start, end) <==> m in stored && m.userId == userId && start <= m.date <= end
  {
    if |stored| > 0 {
      MealQueryMembers(stored[..|stored| - 1], userId, start, end);
      assert forall y :: y in stored <==> y in stored[..|stored| - 1] || y == stored[|stored| - 1];
    }
  }

  /** An empty window returns nothing. */
  lemma {:induction false} MealQueryEmpty(stored: seq<Meal>, userId: string, start: int, end: int)
    requires start > end
    ensures MealQuery(stored, userId, start, end) == []
  {
    if |stored| > 0 {
      MealQueryEmpty(stored[..|stored| - 1], userId, start, end);
    }
  }

  /** Meals in the repository's `orderBy: { date: 'desc' }` order. */
  ghost predicate MealsDescending(meals: seq<Meal>) {
    forall i, j :: 0 <= i < j < |meals| ==> meals[i].date >= meals[j].date
  }

  /** The query keeps the order of the store. */
  lemma {:induction false} MealQueryDescending(stored: seq<Meal>, userId: string, start: int, end: int)
    requires MealsDescending(stored)
    ensures MealsDescending(MealQuery(stored, userId, start, end))
  {
    if |stored| > 0 {
      var init := stored[..|stored| - 1];
      var m := stored[|stored| - 1];
      MealQueryDescending(init, userId, start, end);
      MealQueryMembers(init, userId, start, end);
      var prefix := MealQuery(init, userId, start, end);
      if m.userId == userId && start <= m.date <= end {
        forall y | y in prefix ensures y.date >= m.date {
          var i :| 0 <= i < |init| && init[i] == y;
          assert stored[i] == y;
        }
        var r := prefix + [m];
        forall i, j | 0 <= i < j < |r| ensures r[i].date >= r[j].date {
          if j == |r| - 1 {
            assert r[i] in prefix;
          } else {
            assert r[i] == prefix[i] && r[j] == prefix[j];
          }
        }
      }
    }
  }

  /** A descending run of instants falls on non-increasing days. */
  lemma DescendingDays(meals: seq<Meal>)
    requires MealsDescending(meals)
    ensures forall i, j :: 0 <= i < j < |meals| ==> MealDay(meals[i]) >= MealDay(meals[j])
  {
    forall i, j | 0 <= i < j < |meals|
      ensures MealDay(meals[i]) >= MealDay(meals[j])
    {
      DayOfMono(meals[j].date, meals[i].date);
    }
  }

  lemma DayOfMono(a: int, b: int)
    requires a <= b
    ensures DayOf(a) <= DayOf(b)
  {
    DayOfBounds(a);
    DayOfBounds(b);
  }

  /** The meals of one UTC day, in their order in `meals`. */
  function MealsOn(meals: seq<Meal>, day: int): seq<Meal> {
    if |meals| == 0 then []
    else
      var m := meals[|meals| - 1];
      MealsOn(meals[..|meals| - 1], day) + (if MealDay(m) == day then [m] else [])
  }

  /** The days that hold at least one meal. */
  function MealDays(meals: seq<Meal>): set<int> {
    if |meals| == 0 then {} else MealDays(meals[..|meals| - 1]) + {MealDay(meals[|meals| - 1])}
  }

  /**
    The keys of a `Map` keyed by each meal's day, filled in the order of
    `meals`: every day once, in the order of its first meal.
  */
  function DayOrder(meals: seq<Meal>): seq<int> {
    if |meals| == 0 then []
    else
      var order := DayOrder(meals[..|meals| - 1]);
      var d := MealDay(meals[|meals| - 1]);
      if d in order then order else order + [d]
  }

  ghost predicate Distinct(days: seq<int>) {
    forall i, j :: 0 <= i < j < |days| ==> days[i] != days[j]
  }

  /** A day's group holds exactly the meals of that day. */
  lemma {:induction false} MealsOnMembers(meals: seq<Meal>, day: int)
    ensures forall m :: m in MealsOn(meals, day) <==> m in meals && MealDay(m) == day
    ensures |MealsOn(meals, day)| <= |meals|
  {
    if |meals| > 0 {
      MealsOnMembers(meals[..|meals| - 1], day);
      assert forall y :: y in meals <==> y in meals[..|meals| - 1] || y == meals[|meals| - 1];
    }
  }

  /** A day has meals exactly when it is one of the meal days. */
  lemma {:induction false} MealDaysMembers(meals: seq<Meal>, day: int)
    ensures day in MealDays(meals) <==> exists m :: m in meals && MealDay(m) == day
    ensures day !in MealDays(meals) ==> MealsOn(meals, day) == []
  {
    if |meals| > 0 {
      MealDaysMembers(meals[..|meals| - 1], day);
      assert forall y :: y in meals <==> y in meals[..|meals| - 1] || y == meals[|meals| - 1];
    }
  }

  /**
    The keys are exactly the meal days, each once: there are as many as
    distinct days, and never more than meals.
  */
  lemma {:induction false} DayOrderSpec(meals: seq<Meal>)
    ensures Distinct(DayOrder(meals))
    ensures forall d :: d in DayOrder(meals) <==> d in MealDays(meals)
    ensures |DayOrder(meals)| == |MealDays(meals)| <= |meals|
  {
    if |meals| > 0 {
      var init := meals[..|meals| - 1];
      DayOrderSpec(init);
      var d := MealDay(meals[|meals| - 1]);
      if d !in DayOrder(init) {
        assert MealDays(meals) == MealDays(init) + {d};
      } else {
        assert MealDays(meals) == MealDays(init);
      }
    }
  }

  /** On meals in descending date order, the keys come most recent first. */
  lemma {:induction false} DayOrderDescending(meals: seq<Meal>)
    requires forall i, j :: 0 <= i < j < |meals| ==> MealDay(meals[i]) >= MealDay(meals[j])
    ensures forall i, j :: 0 <= i < j < |DayOrder(meals)| ==> DayOrder(meals)[i] > DayOrder(meals)[j]
  {
    if |meals| > 0 {
      var init := meals[..|meals| - 1];
      var d := MealDay(meals[|meals| - 1]);
      var order := DayOrder(init);
      assert forall i, j :: 0 <= i < j < |init| ==> MealDay(init[i]) >= MealDay(init[j]) by {
        assert forall i :: 0 <= i < |init| ==> init[i] == meals[i];
      }
      DayOrderDescending(init);
      if d !in order {
        DayOrderAtLeast(init, d);
        var order' := order + [d];
        assert DayOrder(meals) == order';
        forall i, j | 0 <= i < j < |order'| ensures order'[i] > order'[j] {
          if j < |order| {
            assert order'[i] == order[i] && order'[j] == order[j];
          } else {
            assert order'[i] == order[i] && order'[j] == d;
          }
        }
      } else {
        assert DayOrder(meals) == order;
      }
    }
  }

  /** When no meal is before `lo`, no key is before `lo`. */
  lemma {:induction false} DayOrderAtLeast(meals: seq<Meal>, lo: int)
    requires forall i :: 0 <= i < |meals| ==> MealDay(meals[i]) >= lo
    ensures forall k :: 0 <= k < |DayOrder(meals)| ==> DayOrder(meals)[k] >= lo
  {
    if |meals| > 0 {
      var init := meals[..|meals| - 1];
      assert forall i :: 0 <= i < |init| ==> init[i] == meals[i];
      DayOrderAtLeast(init, lo);
    }
  }

  /** The field-wise sum, day by day, of the meals of each of `days`. */
  function SumByDay(meals: seq<Meal>, days: seq<int>): Totals {
    if |days| == 0 then Zero else SumMeals(MealsOn(meals, days[0])).Plus(SumByDay(meals, days[1..]))
  }

  /** The number of meals of each of `days`, added up. */
  function CountByDay(meals: seq<Meal>, days: seq<int>): int {
    if |days| == 0 then 0 else |MealsOn(meals, days[0])| + CountByDay(meals, days[1..])
  }

  lemma {:induction false} ByDayEmpty(days: seq<int>)
    ensures SumByDay([], days) == Zero && CountByDay([], days) == 0
  {
    if |days| > 0 {
      ByDayEmpty(days[1..]);
    }
  }

  /** One more meal adds its totals, and one to the count, to its own day alone. */
  lemma {:induction false} ByDaySnoc(meals: seq<Meal>, m: Meal, days: seq<int>)
    requires Distinct(days)
    ensures SumByDay(meals + [m], days) == SumByDay(meals, days).Plus(if MealDay(m) in days then m.totals else Zero)
    ensures CountByDay(meals + [m], days) == CountByDay(meals, days) + (if MealDay(m) in days then 1 else 0)
  {
    if |days| > 0 {
      var rest := days[1..];
      assert Distinct(rest);
      ByDaySnoc(meals, m, rest);
      MealsOnSnoc(meals, m, days[0]);
      assert MealDay(m) in days <==> MealDay(m) == days[0] || MealDay(m) in rest;
      assert MealDay(m) == days[0] ==> MealDay(m) !in rest;
    }
  }

  /** One more meal joins its own day's group and no other. */
  lemma MealsOnSnoc(meals: seq<Meal>, m: Meal, day: int)
    ensures SumMeals(MealsOn(meals + [m], day)) == SumMeals(MealsOn(meals, day)).Plus(if MealDay(m) == day then m.totals else Zero)
    ensures |MealsOn(meals + [m], day)| == |MealsOn(meals, day)| + (if MealDay(m) == day then 1 else 0)
  {
    assert (meals + [m])[..|meals + [m]| - 1] == meals;
    var group := MealsOn(meals, day);
    if MealDay(m) == day {
      assert MealsOn(meals + [m], day) == group + [m];
      assert (group + [m])[..|group + [m]| - 1] == group;
    } else {
      assert MealsOn(meals + [m], day) == group;
    }
  }

  /**
    Grouping partitions the meals: over distinct days that include every
    meal day, the day totals add up to the sum of all meals, and the
    groups' sizes to the number of meals.
  */
  lemma {:induction false} ByDayPartition(meals: seq<Meal>, days: seq<int>)
    requires Distinct(days)
    requires forall d :: d in MealDays(meals) ==> d in days
    ensures SumByDay(meals, days) == SumMeals(meals)
    ensures CountByDay(meals, days) == |meals|
  {
    if |meals| == 0 {
      ByDayEmpty(days);
    } else {
      var init := meals[..|meals| - 1];
      var m := meals[|meals| - 1];
      assert init + [m] == meals;
      ByDayPartition(init, days);
      ByDaySnoc(init, m, days);
    }
  }

  /** Where `day` sits among the keys of a day-keyed `Map`, or the number of keys when it is not one. */
  function KeyIndex(keys: seq<int>, day: int): (k: nat)
    ensures k <= |keys|
    ensures k < |keys| ==> keys[k] == day
    ensures k == |keys| <==> day !in keys
  {
    if |keys| == 0 then 0
    else if keys[|keys| - 1] == day then |keys| - 1
    else
      var k := KeyIndex(keys[..|keys| - 1], day);
      if k == |keys| - 1 then |keys| else k
  }

  /** An instant lies between the start of day `s` and the end of day `e` exactly when its day does. */
  lemma WindowByDay(ms: int, s: int, e: int)
    ensures StartOfDay(s) <= ms <= EndOfDay(e) <==> s <= DayOf(ms) <= e
  {
    DayOfBounds(ms);
    if StartOfDay(s) <= ms {
      DayOfMono(StartOfDay(s), ms);
      DayOfBounds(StartOfDay(s));
      DayOfInterval(StartOfDay(s), s);
    }
    if ms <= EndOfDay(e) {
      DayOfMono(ms, EndOfDay(e));
      DayOfInterval(EndOfDay(e), e);
    }
  }
}
