/**
  `SetupProfile.execute`: the user and existing-profile checks, then the
  minimum-age rule on the date of birth, using `calculateAge`.
*/
module SetupProfile {
  import opened Common
  import opened ProfileModel

  /** The profile `createProfile` is asked for: the user and the given date of birth (the other fields pass through). */
  datatype ProfileCreate = ProfileCreate(userId: string, dateOfBirth: Option<BirthDate>)

  const UserNotFound: string := "User not found"
  const ProfileExists: string := "Profile already exists"

  /**
    The age `calculateAge` computes: the difference of the years, one less
    when this year's birthday (by month, then day) is still to come.
  */
  function AgeOf(birth: CalendarDate, today: CalendarDate): int {
    var monthDiff := today.month - birth.month;
    today.year - birth.year - (if monthDiff < 0 || (monthDiff == 0 && today.day < birth.day) then 1 else 0)
  }

  /** `calculateAge(dateOfBirth)`; `today` is `new Date()`'s calendar fields. */
  method CalculateAge(birth: CalendarDate, today: CalendarDate) returns (age: int)
    ensures age == AgeOf(birth, today)
  {
    age := today.year - birth.year;
    var monthDiff := today.month - birth.month;
    if monthDiff < 0 || (monthDiff == 0 && today.day < birth.day) {
      age := age - 1;
    }
  }

  /** The age check of `execute`: an invalid date's age is `NaN`, which is never below 13. */
  predicate Underage(dateOfBirth: Option<BirthDate>, today: CalendarDate) {
    dateOfBirth.Some? && dateOfBirth.value.Valid? && AgeOf(dateOfBirth.value.date, today) < MinimumAge
  }

  /**
    What `execute(userId, input)` asks `createProfile` for, or the error it
    throws; `userExists` and `profileExists` are what `findById` and
    `findProfileByUserId` find.
  */
  function SetupProfileOf(userId: string, dateOfBirth: Option<BirthDate>, userExists: bool, profileExists: bool,
                          today: CalendarDate): Result<ProfileCreate, ProfileError> {
    if !userExists then Err(NotFoundError(UserNotFound))
    else if profileExists then Err(BadRequestError(ProfileExists))
    else if Underage(dateOfBirth, today) then Err(BadRequestError(UnderageMessage))
    else Ok(ProfileCreate(userId, dateOfBirth))
  }

  /**
    The age counts the birthdays passed: it is at least `n` exactly when the
    `n`-th birthday is on or before today.
  */
  lemma AgeCountsBirthdays(birth: CalendarDate, today: CalendarDate, n: int)
    ensures AgeOf(birth, today) >= n <==> OnOrBefore(CalendarDate(birth.year + n, birth.month, birth.day), today)
  {
  }

  /** The age is the difference of the years or one less. */
  lemma AgeBounds(birth: CalendarDate, today: CalendarDate)
    ensures today.year - birth.year - 1 <= AgeOf(birth, today) <= today.year - birth.year
    ensures (today.month, today.day) == (birth.month, birth.day) ==> AgeOf(birth, today) == today.year - birth.year
  {
  }

  /**
    A missing user is reported first, then an existing profile, then a
    valid date of birth less than 13 years ago; otherwise the profile is
    created with the given fields.
  */
  lemma GuardOrder(userId: string, dateOfBirth: Option<BirthDate>, userExists: bool, profileExists: bool, today: CalendarDate)
    ensures var r := SetupProfileOf(userId, dateOfBirth, userExists, profileExists, today);
            && (r == Err(NotFoundError("User not found")) <==> !userExists)
            && (r == Err(BadRequestError("Profile already exists")) <==> userExists && profileExists)
            && (r == Err(BadRequestError("User must be at least 13 years old")) <==>
                  userExists && !profileExists && dateOfBirth.Some? && dateOfBirth.value.Valid?
                  && !OnOrBefore(CalendarDate(dateOfBirth.value.date.year + 13, dateOfBirth.value.date.month, dateOfBirth.value.date.day), today))
            && (r.Ok? ==> r.value == ProfileCreate(userId, dateOfBirth))
  {
    if dateOfBirth.Some? && dateOfBirth.value.Valid? {
      AgeCountsBirthdays(dateOfBirth.value.date, today, MinimumAge);
    }
  }

  /** A user whose 13th birthday is today is old enough; the day before, they are not. */
  lemma ThirteenthBirthday(userId: string, y: int, m: int, d: int)
    ensures SetupProfileOf(userId, Some(Valid(CalendarDate(y - 13, m, d))), true, false, CalendarDate(y, m, d)).Ok?
    ensures SetupProfileOf(userId, Some(Valid(CalendarDate(y - 13, m, d + 1))), true, false, CalendarDate(y, m, d))
            == Err(BadRequestError("User must be at least 13 years old"))
  {
  }

  /** Without a date of birth, or with one that does not parse, the age rule does not apply. */
  lemma NoAgeRuleWithoutDate(userId: string, today: CalendarDate)
    ensures SetupProfileOf(userId, None, true, false, today).Ok?
    ensures SetupProfileOf(userId, Some(InvalidDate), true, false, today).Ok?
  {
  }
}
