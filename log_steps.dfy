/**
  `LogSteps.execute`: the date checks, in order, then the defaulted distance
  and calories and the date normalised to UTC midnight, as handed to the
  repository's upsert.
*/
module LogSteps {
  import opened Common
  import opened StepsModel
  import opened DateHelpers
  import opened StepCalculations

  /** `LogStepsData` as the caller gives it; `date` is `new Date(data.date)`. */
  datatype LogStepsInput = LogStepsInput(
    userId: string,
    date: DateArg,
    steps: int,
    distanceKm: Option<real>,
    caloriesBurned: Option<real>)

  /** `LogStepsData` as handed to `logSteps`; `date` is an instant at UTC midnight. */
  datatype StepsUpsert = StepsUpsert(userId: string, date: int, steps: int, distanceKm: real, caloriesBurned: real)

  /** What `execute(data)` hands to the repository, or the error it throws; `today` is `getTodayDate()`. */
  function LogStepsOf(data: LogStepsInput, today: int): Result<StepsUpsert, StepsError> {
    match data.date
    case Unparseable => Err(InvalidDateError(InvalidDateFormat))
    case Instant(ms) =>
      if IsFutureDate(ms, today) then Err(FutureDateError)
      else if IsDateTooOld(ms, today, DefaultMaxDays) then Err(DateTooOldError)
      else
        var steps := data.steps;
        var distanceKm := data.distanceKm.GetOr(CalculateDistance(steps));
        var caloriesBurned := data.caloriesBurned.GetOr(CalculateCalories(steps) as real);
        Ok(StepsUpsert(data.userId, StartOfDay(DayOf(ms)), steps, distanceKm, caloriesBurned))
  }

  /**
    The checks run in order: an unparseable date is an invalid date, else a
    future date a future-date error, else a date too old a too-old error;
    anything else is persisted.
  */
  lemma CheckOrder(data: LogStepsInput, today: int)
    ensures var r := LogStepsOf(data, today);
            && (r == Err(InvalidDateError(InvalidDateFormat)) <==> data.date.Unparseable?)
            && (r == Err(FutureDateError) <==> data.date.Instant? && IsFutureDate(data.date.ms, today))
            && (r == Err(DateTooOldError) <==>
                  data.date.Instant? && !IsFutureDate(data.date.ms, today) && IsDateTooOld(data.date.ms, today, DefaultMaxDays))
            && (r.Ok? <==> data.date.Instant? && !IsFutureDate(data.date.ms, today) && !IsDateTooOld(data.date.ms, today, DefaultMaxDays))
  {
  }

  /**
    The accepted instants are exactly those from UTC midnight seven days ago
    through UTC midnight today: any later time today already counts as the
    future.
  */
  lemma AcceptedInstants(data: LogStepsInput, today: int)
    requires data.date.Instant?
    ensures LogStepsOf(data, today).Ok? <==> StartOfDay(today - 7) <= data.date.ms <= StartOfDay(today)
  {
    LoggableInstants(data.date.ms, today);
  }

  /** Given as calendar days, the accepted dates are today and the seven days before it. */
  lemma AcceptedDays(data: LogStepsInput, today: int, day: int)
    requires data.date == Instant(StartOfDay(day))
    ensures LogStepsOf(data, today).Ok? <==> today - 7 <= day <= today
  {
    LoggableDays(day, today);
  }

  /** A time later today is rejected as a future date. */
  lemma LaterTodayIsFuture(data: LogStepsInput, today: int)
    requires data.date.Instant? && DayOf(data.date.ms) == today && data.date.ms != StartOfDay(today)
    ensures LogStepsOf(data, today) == Err(FutureDateError)
  {
    FutureIffLaterInstant(data.date.ms, today);
  }

  /**
    An accepted entry keeps the user and the steps, moves the date to the
    UTC midnight of its day, and computes distance and calories from the
    steps only when they are absent; a supplied value, zero included, is
    kept.
  */
  lemma PersistedEntry(data: LogStepsInput, today: int)
    requires LogStepsOf(data, today).Ok?
    ensures var e := LogStepsOf(data, today).value;
            && e.userId == data.userId && e.steps == data.steps
            && e.date == StartOfDay(DayOf(data.date.ms)) && DayOf(e.date) == DayOf(data.date.ms)
            && e.date <= data.date.ms < e.date + MsPerDay
            && (data.distanceKm.Some? ==> e.distanceKm == data.distanceKm.value)
            && (data.distanceKm.None? ==> e.distanceKm == CalculateDistance(data.steps))
            && (data.caloriesBurned.Some? ==> e.caloriesBurned == data.caloriesBurned.value)
            && (data.caloriesBurned.None? ==> e.caloriesBurned == ((2 * data.steps + 25) / 50) as real)
            && today - 7 <= DayOf(e.date) <= today
  {
    DayOfBounds(data.date.ms);
    AcceptedInstants(data, today);
  }

  /** A supplied zero distance or calorie count is kept, not recomputed. */
  lemma ZeroIsKept(userId: string, ms: int, steps: int, today: int)
    requires StartOfDay(today - 7) <= ms <= StartOfDay(today)
    requires steps >= 13
    ensures var r := LogStepsOf(LogStepsInput(userId, Instant(ms), steps, Some(0.0), Some(0.0)), today);
            r.Ok? && r.value.distanceKm == 0.0 && r.value.caloriesBurned == 0.0
            && CalculateDistance(steps) > 0.0 && CalculateCalories(steps) > 0
  {
    AcceptedInstants(LogStepsInput(userId, Instant(ms), steps, Some(0.0), Some(0.0)), today);
    DistanceExact(steps);
    assert (4 * steps + 25) / 50 >= 1;
  }
}
