/**
  `UpdateProfile.execute`: at least one field, an existing profile, a
  coarser minimum-age rule than at setup, then the repository update.
*/
module UpdateProfile {
  import opened Common
  import opened ProfileModel
  import SetupProfile

  /**
    `UpdateProfileInput`: `keys` are the keys the object has (a key may
    hold `undefined`), `dateOfBirth` its date of birth when truthy.
  */
  datatype UpdateProfileInput = UpdateProfileInput(keys: set<string>, dateOfBirth: Option<BirthDate>)

  const NoFields: string := "At least one field must be provided for update"
  const ProfileNotFound: string := "Profile not found. Please create a profile first."
  const UpdateFailed: string := "Failed to update profile"

  /**
    The age check of `execute`: the years apart below 13, or exactly 13
    with the birth month still to come; the day of the month is not looked
    at, and an invalid date (`NaN`) is never rejected.
  */
  predicate TooYoung(dateOfBirth: Option<BirthDate>, today: CalendarDate) {
    dateOfBirth.Some? && dateOfBirth.value.Valid? &&
    var birth := dateOfBirth.value.date;
    var age := today.year - birth.year;
    var monthDiff := today.month - birth.month;
    age < MinimumAge || (age == MinimumAge && monthDiff < 0)
  }

  /**
    The input `execute(userId, input)` hands to `updateProfile`, or the error
    it throws; `profileExists` is what `findProfileByUserId` finds and
    `updated` whether `updateProfile` returns a profile.
  */
  function UpdateProfileOf(input: UpdateProfileInput, profileExists: bool, updated: bool, today: CalendarDate)
    : Result<UpdateProfileInput, ProfileError>
  {
    if |input.keys| == 0 then Err(BadRequestError(NoFields))
    else if !profileExists then Err(NotFoundError(ProfileNotFound))
    else if TooYoung(input.dateOfBirth, today) then Err(BadRequestError(UnderageMessage))
    else if !updated then Err(NotFoundError(UpdateFailed))
    else Ok(input)
  }

  /**
    An empty input is refused first, then a missing profile, then a date
    of birth that is too recent, then a failed update; otherwise the input
    is handed on unchanged.
  */
  lemma GuardOrder(input: UpdateProfileInput, profileExists: bool, updated: bool, today: CalendarDate)
    ensures var r := UpdateProfileOf(input, profileExists, updated, today);
            && (r == Err(BadRequestError("At least one field must be provided for update")) <==> input.keys == {})
            && (r == Err(NotFoundError("Profile not found. Please create a profile first.")) <==>
                  input.keys != {} && !profileExists)
            && (r == Err(BadRequestError("User must be at least 13 years old")) <==>
                  input.keys != {} && profileExists && TooYoung(input.dateOfBirth, today))
            && (r == Err(NotFoundError("Failed to update profile")) <==>
                  input.keys != {} && profileExists && !TooYoung(input.dateOfBirth, today) && !updated)
            && (r.Ok? <==> input.keys != {} && profileExists && !TooYoung(input.dateOfBirth, today) && updated)
            && (r.Ok? ==> r.value == input)
  {
    if input.keys != {} {
      var k :| k in input.keys;
      assert |input.keys| >= 1;
    }
  }

  /**
    The rule is at the granularity of months: a date of birth is accepted
    exactly when the first day of its month, 13 years on, is in or before
    today's month.
  */
  lemma MonthGranularity(birth: CalendarDate, today: CalendarDate)
    ensures !TooYoung(Some(Valid(birth)), today) <==>
              (birth.year + 13 < today.year || (birth.year + 13 == today.year && birth.month <= today.month))
  {
  }

  /**
    Whatever setup accepts, update accepts too; update accepts more
    exactly when the 13th birthday falls later in the current month.
  */
  lemma LaxerThanSetup(birth: CalendarDate, today: CalendarDate)
    ensures !SetupProfile.Underage(Some(Valid(birth)), today) ==> !TooYoung(Some(Valid(birth)), today)
    ensures (SetupProfile.Underage(Some(Valid(birth)), today) && !TooYoung(Some(Valid(birth)), today)) <==>
              (today.year - birth.year == 13 && today.month == birth.month && today.day < birth.day)
  {
  }

  /** One day before turning 13, in the birthday's month, setup refuses the date and update takes it. */
  lemma DayBeforeThirteenth(userId: string)
    ensures var birth := Some(Valid(CalendarDate(2010, 4, 20)));
            var today := CalendarDate(2023, 4, 19);
            && SetupProfile.SetupProfileOf(userId, birth, true, false, today)
               == Err(BadRequestError("User must be at least 13 years old"))
            && UpdateProfileOf(UpdateProfileInput({"dateOfBirth"}, birth), true, true, today).Ok?
  {
    assert |{"dateOfBirth"}| == 1;
  }

  /** An input without a date of birth, or with one that does not parse, passes the age rule. */
  lemma NoAgeRuleWithoutDate(keys: set<string>, today: CalendarDate)
    requires keys != {}
    ensures UpdateProfileOf(UpdateProfileInput(keys, None), true, true, today).Ok?
    ensures UpdateProfileOf(UpdateProfileInput(keys, Some(InvalidDate)), true, true, today).Ok?
  {
    GuardOrder(UpdateProfileInput(keys, None), true, true, today);
    GuardOrder(UpdateProfileInput(keys, Some(InvalidDate)), true, true, today);
  }
}
