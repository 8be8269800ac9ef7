/**
  `UpdateSteps.execute`: fills in the derived distance and calories on the
  caller's `UpdateStepsData` in place, hands it to the repository and maps
  the repository's not-found error.
*/
module UpdateSteps {
  import opened Common
  import opened StepsModel
  import opened StepCalculations

  /** The fields of an `UpdateStepsData` object, `None` for `undefined`. */
  datatype StepsPatch = StepsPatch(steps: Option<int>, distanceKm: Option<real>, caloriesBurned: Option<real>)

  /** The caller's `UpdateStepsData` object, which `execute` assigns to. */
  class UpdateStepsData {
    var steps: Option<int>
    var distanceKm: Option<real>
    var caloriesBurned: Option<real>

    constructor(steps: Option<int>, distanceKm: Option<real>, caloriesBurned: Option<real>)
      ensures Patch() == StepsPatch(steps, distanceKm, caloriesBurned)
    {
      this.steps := steps;
      this.distanceKm := distanceKm;
      this.caloriesBurned := caloriesBurned;
    }

    function Patch(): StepsPatch
      reads this
    {
      StepsPatch(steps, distanceKm, caloriesBurned)
    }

    /** The recalculation block: with steps, an absent distance or calorie count is computed from them. */
    method FillDerived()
      modifies this
      ensures Patch() == Derived(old(Patch()))
    {
      if steps.Some? {
        if distanceKm.None? {
          distanceKm := Some(CalculateDistance(steps.value));
        }
        if caloriesBurned.None? {
          caloriesBurned := Some(CalculateCalories(steps.value) as real);
        }
      }
    }
  }

  /** The fields once the recalculation block has run. */
  function Derived(p: StepsPatch): StepsPatch {
    match p.steps
    case None => p
    case Some(s) =>
      StepsPatch(p.steps,
                 if p.distanceKm.None? then Some(CalculateDistance(s)) else p.distanceKm,
                 if p.caloriesBurned.None? then Some(CalculateCalories(s) as real) else p.caloriesBurned)
  }

  /** An error the repository throws: its `code` (empty when it has none) and `message`. */
  datatype DbError = DbError(code: string, message: string)

  /** The Prisma code of a missing record. */
  const RecordNotFoundCode: string := "P2025"

  /** The part of Prisma's message that marks a missing record. */
  const RecordNotFoundText: string := "Record to update not found"

  predicate IsRecordNotFound(e: DbError) {
    e.code == RecordNotFoundCode || Contains(e.message, RecordNotFoundText)
  }

  /** The `catch` block: a missing record becomes `StepsNotFoundError`, anything else is rethrown. */
  function MapOutcome(outcome: Result<StepsRecord, DbError>): Result<StepsRecord, StepsError> {
    match outcome
    case Ok(row) => Ok(row)
    case Err(e) => if IsRecordNotFound(e) then Err(StepsNotFoundError) else Err(Rethrown(e.code, e.message))
  }

  /**
    `execute(id, userId, data)`; `update` is the repository's `updateSteps`,
    whose result or error is out of view.
  */
  method Execute(id: string, userId: string, data: UpdateStepsData,
                 update: (string, string, StepsPatch) -> Result<StepsRecord, DbError>)
    returns (r: Result<StepsRecord, StepsError>)
    modifies data
    ensures data.Patch() == Derived(old(data.Patch()))
    ensures r == MapOutcome(update(id, userId, Derived(old(data.Patch()))))
  {
    data.FillDerived();
    var outcome := update(id, userId, data.Patch());
    r := MapOutcome(outcome);
  }

  /**
    The steps are never changed and a supplied distance or calorie count
    is never overwritten; without steps nothing is computed, and with steps
    each absent one is computed from them.
  */
  lemma DerivedSpec(p: StepsPatch)
    ensures var q := Derived(p);
            && q.steps == p.steps
            && (p.distanceKm.Some? ==> q.distanceKm == p.distanceKm)
            && (p.caloriesBurned.Some? ==> q.caloriesBurned == p.caloriesBurned)
            && (p.steps.None? ==> q == p)
            && (p.steps.Some? && p.distanceKm.None? ==> q.distanceKm == Some(CalculateDistance(p.steps.value)))
            && (p.steps.Some? && p.caloriesBurned.None? ==>
                  q.caloriesBurned == Some(((2 * p.steps.value + 25) / 50) as real))
            && (p.steps.Some? ==> q.distanceKm.Some? && q.caloriesBurned.Some?)
  {
  }

  /** Running the recalculation twice changes nothing more. */
  lemma DerivedIdempotent(p: StepsPatch)
    ensures Derived(Derived(p)) == Derived(p)
  {
  }

  /**
    A row is passed through; an error is `StepsNotFoundError` exactly when
    it has code P2025 or mentions a record to update not found, and is
    otherwise rethrown as it was.
  */
  lemma OutcomeMapping(outcome: Result<StepsRecord, DbError>)
    ensures outcome.Ok? ==> MapOutcome(outcome) == Ok(outcome.value)
    ensures outcome.Err? ==>
              (MapOutcome(outcome) == Err(StepsNotFoundError) <==>
                 outcome.error.code == "P2025" || Contains(outcome.error.message, "Record to update not found"))
    ensures outcome.Err? && !IsRecordNotFound(outcome.error) ==>
              MapOutcome(outcome) == Err(Rethrown(outcome.error.code, outcome.error.message))
  {
  }

  /** The message test also matches inside a longer message, without the code. */
  lemma NotFoundByMessage(prefix: string, suffix: string)
    ensures MapOutcome(Err(DbError("", prefix + RecordNotFoundText + suffix))) == Err(StepsNotFoundError)
  {
    ContainsInside(prefix, RecordNotFoundText, suffix);
  }

  lemma {:induction false} ContainsInside(prefix: string, sub: string, suffix: string)
    ensures Contains(prefix + sub + suffix, sub)
    decreases |prefix|
  {
    var s := prefix + sub + suffix;
    if |prefix| == 0 {
      assert s == sub + suffix;
      assert s[..|sub|] == sub;
    } else {
      assert s[1..] == prefix[1..] + sub + suffix;
      ContainsInside(prefix[1..], sub, suffix);
    }
  }
}
