/**
  `UpdateMeal.execute`: the ownership lookup, the meal-type check, and the
  partial update object built field by field for `updateMeal`.
*/
module UpdateMeal {
  import opened Common
  import opened MealsModel

  /** `UpdateMealData`; `None` for a field that is `undefined`. */
  datatype UpdateMealData = UpdateMealData(mealType: Option<string>, foods: Option<seq<MealFood>>, notes: Option<string>)

  /**
    `UpdateMealInput`: only the fields present are updated; `totals` stands
    for the four `total*` fields, which are set together.
  */
  datatype UpdateMealInput = UpdateMealInput(
    mealType: Option<string>,
    totals: Option<Totals>,
    notes: Option<string>,
    foods: Option<seq<MealFood>>)

  const NoChanges: UpdateMealInput := UpdateMealInput(None, None, None, None)

  /** `getMealById(id, userId)`: the meal with that id owned by that user, if any. */
  function MealById(stored: seq<Meal>, id: string, userId: string): (r: Option<Meal>)
    ensures r.Some? ==> r.value in stored && r.value.id == id && r.value.userId == userId
    ensures r.None? ==> forall m :: m in stored ==> !(m.id == id && m.userId == userId)
  {
    if |stored| == 0 then None
    else if stored[0].id == id && stored[0].userId == userId then Some(stored[0])
    else MealById(stored[1..], id, userId)
  }

  /** `if (data.mealType)`: present and not the empty string. */
  predicate Truthy(s: Option<string>) {
    s.Some? && s.value != ""
  }

  /** `data.foods && data.foods.length > 0`. */
  predicate HasFoods(foods: Option<seq<MealFood>>) {
    foods.Some? && |foods.value| > 0
  }

  /** The update `execute` hands to the repository, or the error it throws. */
  function UpdateMealOf(stored: seq<Meal>, mealId: string, userId: string, data: UpdateMealData): Result<UpdateMealInput, MealError> {
    if MealById(stored, mealId, userId).None? then Err(MealNotFoundError)
    else if Truthy(data.mealType) && !IsMealType(data.mealType.value) then Err(InvalidMealDataError(InvalidMealType))
    else
      Ok(UpdateMealInput(
        if Truthy(data.mealType) then data.mealType else None,
        if HasFoods(data.foods) then Some(FoodTotals(data.foods.value)) else None,
        data.notes,
        if HasFoods(data.foods) then data.foods else None))
  }

  /** `execute(mealId, userId, data)`: `updateData` starts empty and gains one field group at a time. */
  method Execute(stored: seq<Meal>, mealId: string, userId: string, data: UpdateMealData)
    returns (r: Result<UpdateMealInput, MealError>)
    ensures r == UpdateMealOf(stored, mealId, userId, data)
  {
    var existing := MealById(stored, mealId, userId);
    if existing.None? {
      return Err(MealNotFoundError);
    }
    var updateData := NoChanges;
    if data.mealType.Some? && data.mealType.value != "" {
      if !IsMealType(data.mealType.value) {
        return Err(InvalidMealDataError(InvalidMealType));
      }
      updateData := updateData.(mealType := data.mealType);
    }
    if data.notes.Some? {
      updateData := updateData.(notes := data.notes);
    }
    if data.foods.Some? && |data.foods.value| > 0 {
      var totals := FoodTotals(data.foods.value);
      updateData := updateData.(totals := Some(totals), foods := data.foods);
    }
    return Ok(updateData);
  }

  /** A meal that does not exist or belongs to someone else is not found, before any other check. */
  lemma NotFoundFirst(stored: seq<Meal>, mealId: string, userId: string, data: UpdateMealData)
    ensures UpdateMealOf(stored, mealId, userId, data) == Err(MealNotFoundError)
            <==> forall m :: m in stored ==> !(m.id == mealId && m.userId == userId)
  {
  }

  /**
    For a meal of the user's, the update fails exactly when a non-empty
    meal type other than the four is given; an empty one is skipped, not
    rejected.
  */
  lemma MealTypeCheck(stored: seq<Meal>, mealId: string, userId: string, data: UpdateMealData, m: Meal)
    requires m in stored && m.id == mealId && m.userId == userId
    ensures UpdateMealOf(stored, mealId, userId, data).Err? <==>
              data.mealType.Some? && data.mealType.value != "" && data.mealType.value !in ["breakfast", "lunch", "dinner", "snack"]
    ensures UpdateMealOf(stored, mealId, userId, data).Err? ==>
              UpdateMealOf(stored, mealId, userId, data) == Err(InvalidMealDataError("Invalid meal type"))
    ensures data.mealType == Some("") ==>
              UpdateMealOf(stored, mealId, userId, data).Ok? && UpdateMealOf(stored, mealId, userId, data).value.mealType.None?
  {
  }

  /**
    An update holds the meal type exactly when a non-empty one is given, the
    notes exactly when they are given (an empty note too), and the foods
    with their recomputed totals exactly when a non-empty food list is
    given; nothing else is set.
  */
  lemma UpdateFields(stored: seq<Meal>, mealId: string, userId: string, data: UpdateMealData)
    requires UpdateMealOf(stored, mealId, userId, data).Ok?
    ensures var u := UpdateMealOf(stored, mealId, userId, data).value;
            && (u.mealType.Some? <==> data.mealType.Some? && data.mealType.value != "")
            && (u.mealType.Some? ==> u.mealType == data.mealType && IsMealType(u.mealType.value))
            && u.notes == data.notes
            && (u.foods.Some? <==> data.foods.Some? && |data.foods.value| > 0)
            && (u.totals.Some? <==> u.foods.Some?)
            && (u.foods.Some? ==> u.foods == data.foods && u.totals.value == FoodTotals(data.foods.value))
  {
  }

  /** An update that supplies nothing changes nothing, and so does an empty food list. */
  lemma EmptyUpdate(stored: seq<Meal>, mealId: string, userId: string, m: Meal)
    requires m in stored && m.id == mealId && m.userId == userId
    ensures UpdateMealOf(stored, mealId, userId, UpdateMealData(None, None, None)) == Ok(UpdateMealInput(None, None, None, None))
    ensures UpdateMealOf(stored, mealId, userId, UpdateMealData(None, Some([]), None)) == Ok(UpdateMealInput(None, None, None, None))
  {
  }
}
