/**
  What the profile use cases share: calendar dates as `getFullYear`,
  `getMonth` and `getDate` read them, dates of birth, the errors, and the
  minimum age.
*/
module ProfileModel {
  /** A date's calendar fields in the server's time zone; `month` counts from 0, as `getMonth` does. */
  datatype CalendarDate = CalendarDate(year: int, month: int, day: int)

  /** A given date of birth: a date, or a string `new Date` cannot parse (`Invalid Date`, whose fields are `NaN`). */
  datatype BirthDate = InvalidDate | Valid(date: CalendarDate)

  datatype ProfileError = NotFoundError(message: string) | BadRequestError(message: string)

  const MinimumAge: int := 13

  const UnderageMessage: string := "User must be at least 13 years old"

  /** `a` is on or before `b`: by year, then month, then day. */
  predicate OnOrBefore(a: CalendarDate, b: CalendarDate) {
    a.year < b.year || (a.year == b.year && (a.month < b.month || (a.month == b.month && a.day <= b.day)))
  }
}
