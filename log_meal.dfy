/**
  `LogMeal.execute`: `validateMealData`'s checks in order, then the meal
  handed to `createMeal`, with the foods' totals and the date normalised to
  UTC midnight.
*/
module LogMeal {
  import opened Common
  import opened MealsModel
  import opened DateHelpers

  /** `LogMealData`; `date` is `new Date(data.date)`. */
  datatype LogMealData = LogMealData(
    userId: string,
    mealType: string,
    date: DateArg,
    foods: seq<MealFood>,
    notes: Option<string>)

  /** The meal handed to `createMeal`; `date` is an instant at UTC midnight. */
  datatype CreateMealInput = CreateMealInput(
    userId: string,
    mealType: string,
    date: int,
    totals: Totals,
    notes: Option<string>,
    foods: seq<MealFood>)

  const NoFoods: string := "Meal must contain at least one food"
  const FutureMeal: string := "Cannot log meals in the future"
  const MealTooOld: string := "Cannot log meals older than 7 days"

  /** `validateMealData(data)`: the message of the first check that fails, if any; `today` is `getTodayDate()`. */
  function ValidateMealData(data: LogMealData, today: int): Option<string> {
    if !IsMealType(data.mealType) then Some(InvalidMealType)
    else if |data.foods| == 0 then Some(NoFoods)
    else if data.date.Unparseable? then Some(InvalidDateFormat)
    else if IsFutureDate(data.date.ms, today) then Some(FutureMeal)
    else if IsDateTooOld(data.date.ms, today, DefaultMaxDays) then Some(MealTooOld)
    else None
  }

  /** What `execute(data)` hands to the repository, or the error it throws. */
  function LogMealOf(data: LogMealData, today: int): Result<CreateMealInput, MealError> {
    match ValidateMealData(data, today)
    case Some(message) => Err(InvalidMealDataError(message))
    case None =>
      Ok(CreateMealInput(data.userId, data.mealType, StartOfDay(DayOf(data.date.ms)),
                         FoodTotals(data.foods), data.notes, data.foods))
  }

  /**
    The checks run in order: the meal type, then a non-empty food list, then
    the date's format, future and age; each failure is an invalid-meal-data
    error with its own message.
  */
  lemma ValidationOrder(data: LogMealData, today: int)
    ensures var r := LogMealOf(data, today);
            && (r == Err(InvalidMealDataError(InvalidMealType)) <==> data.mealType !in ["breakfast", "lunch", "dinner", "snack"])
            && (r == Err(InvalidMealDataError(NoFoods)) <==> IsMealType(data.mealType) && |data.foods| == 0)
            && (r == Err(InvalidMealDataError(InvalidDateFormat)) <==>
                  IsMealType(data.mealType) && |data.foods| > 0 && data.date.Unparseable?)
            && (r == Err(InvalidMealDataError(FutureMeal)) <==>
                  IsMealType(data.mealType) && |data.foods| > 0 && data.date.Instant? && IsFutureDate(data.date.ms, today))
            && (r == Err(InvalidMealDataError(MealTooOld)) <==>
                  IsMealType(data.mealType) && |data.foods| > 0 && data.date.Instant? && !IsFutureDate(data.date.ms, today)
                  && IsDateTooOld(data.date.ms, today, DefaultMaxDays))
  {
  }

  /**
    A meal is accepted exactly when it has a known type and at least one
    food, and its instant lies from UTC midnight seven days ago through UTC
    midnight today.
  */
  lemma AcceptedMeals(data: LogMealData, today: int)
    ensures LogMealOf(data, today).Ok? <==>
              && data.mealType in ["breakfast", "lunch", "dinner", "snack"] && |data.foods| > 0
              && data.date.Instant? && StartOfDay(today - 7) <= data.date.ms <= StartOfDay(today)
  {
    if data.date.Instant? {
      LoggableInstants(data.date.ms, today);
    }
  }

  /**
    An accepted meal keeps the user, type, notes and foods, totals the
    foods field by field and is dated at the UTC midnight of its day, today
    or one of the seven days before.
  */
  lemma CreatedMeal(data: LogMealData, today: int)
    requires LogMealOf(data, today).Ok?
    ensures var m := LogMealOf(data, today).value;
            && m.userId == data.userId && m.mealType == data.mealType && m.notes == data.notes && m.foods == data.foods
            && m.totals == FoodTotals(data.foods)
            && m.date == StartOfDay(DayOf(data.date.ms)) && m.date <= data.date.ms < m.date + MsPerDay
            && today - 7 <= DayOf(m.date) <= today
  {
    DayOfBounds(data.date.ms);
    AcceptedMeals(data, today);
  }

  /** Foods with non-negative nutrients give a meal whose totals are non-negative and at least each food's calories. */
  lemma CreatedTotalsBounds(data: LogMealData, today: int)
    requires LogMealOf(data, today).Ok?
    requires forall i :: 0 <= i < |data.foods| ==> data.foods[i].calories >= 0.0 && data.foods[i].protein >= 0.0
                                                   && data.foods[i].carbs >= 0.0 && data.foods[i].fat >= 0.0
    ensures LogMealOf(data, today).value.totals.NonNegative()
    ensures forall i :: 0 <= i < |data.foods| ==> data.foods[i].calories <= LogMealOf(data, today).value.totals.calories
  {
    FoodTotalsBounds(data.foods);
  }
}
