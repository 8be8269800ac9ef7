/**
  `GetStepsHistory.execute`: resolve the requested window (defaults, date
  errors, the limit and its silent clamp), fetch the rows, fill the gaps,
  keep at most `limit` days and total them.
*/
module GetStepsHistory {
  import opened Common
  import opened StepsModel
  import opened DateHelpers

  /**
    One day of the response; `id` is hidden for placeholders. `date` is the
    day number the response prints as `YYYY-MM-DD` (`IsoDate(date)`).
  */
  datatype HistoryEntry = HistoryEntry(id: Option<string>, date: int, steps: int, distanceKm: real, caloriesBurned: real)

  datatype StepsHistory = StepsHistory(history: seq<HistoryEntry>, totalDays: int, totalSteps: int, averageSteps: int)

  const DefaultLimit: int := 30
  const MaxLimit: int := 90
  const InvertedRangeMessage: string := "Start date must be before or equal to end date"

  /** The end date: the given one, or today. */
  function EndArg(endArg: Option<DateArg>, today: int): DateArg {
    if endArg.Some? then endArg.value else Instant(StartOfDay(today))
  }

  /** The start date: the given one, or seven days before today. */
  function StartArg(startArg: Option<DateArg>, today: int): DateArg {
    if startArg.Some? then startArg.value else Instant(StartOfDay(today - 7))
  }

  /** The limit after its default and its cap. */
  function EffectiveLimit(limitArg: Option<int>): (limit: int)
    ensures limit <= MaxLimit
    ensures limitArg.None? ==> limit == DefaultLimit
    ensures limitArg.Some? ==> limit == Min(limitArg.value, MaxLimit)
  {
    var requested := limitArg.GetOr(DefaultLimit);
    if requested > MaxLimit then MaxLimit else requested
  }

  /** The days fetched and the limit applied. */
  datatype Window = Window(start: int, end: int, limit: int)

  function ResolveWindow(startArg: Option<DateArg>, endArg: Option<DateArg>, limitArg: Option<int>, today: int): Result<Window, StepsError> {
    var endDate := EndArg(endArg, today);
    var startDate := StartArg(startArg, today);
    if endDate.Unparseable? || startDate.Unparseable? then Err(InvalidDateError(InvalidDateFormat))
    else
      var limit := EffectiveLimit(limitArg);
      var end := DayOf(endDate.ms);
      var start := DayOf(startDate.ms);
      if !IsValidDateRange(start, end) then Err(InvalidDateError(InvertedRangeMessage))
      else if DiffDays(StartOfDay(start), StartOfDay(end)) > limit then Ok(Window(end - limit, end, limit))
      else Ok(Window(start, end, limit))
  }

  /** The id shown for a row: none for an id starting with `gap-`, which covers every placeholder. */
  function ShownId(id: RowId): Option<string> {
    match id
    case Gap(_) => None
    case Stored(t) => if StartsWith(t, GapPrefix) then None else Some(t)
  }

  /** Hiding placeholders by their kind is the source's test on the id string. */
  lemma ShownIdByPrefix(id: RowId)
    ensures ShownId(id) == (if StartsWith(id.Text(), GapPrefix) then None else Some(id.Text()))
  {
    if id.Gap? {
      assert id.Text()[..|GapPrefix|] == GapPrefix;
    }
  }

  /** The response entry of a row. */
  function Present(e: StepsRecord): HistoryEntry {
    HistoryEntry(ShownId(e.id), e.date, e.steps, e.distanceKm.GetOr(0.0), e.caloriesBurned.GetOr(0.0))
  }

  /** The end index of JavaScript's `slice(0, n)` on a sequence of length `len`. */
  function SliceEnd(n: int, len: nat): (k: nat)
    ensures k <= len
  {
    if n >= 0 then (if n < len then n else len)
    else if len + n > 0 then len + n else 0
  }

  /** The rows the response shows: the filled window cut by `slice(0, limit)`. */
  function Limited(stored: seq<StepsRecord>, userId: string, w: Window): seq<StepsRecord> {
    var filled := Filled(Query(stored, userId, w.start, w.end), w.start, w.end, userId);
    filled[..SliceEnd(w.limit, |filled|)]
  }

  /** The response for the rows shown: their presented entries, count, step total and average. */
  function Respond(limited: seq<StepsRecord>): StepsHistory {
    var totalSteps := SumSteps(limited);
    StepsHistory(seq(|limited|, k requires 0 <= k < |limited| => Present(limited[k])),
                 |limited|, totalSteps, Average(totalSteps as real, |limited|))
  }

  function HistoryOf(stored: seq<StepsRecord>, userId: string, w: Window): StepsHistory {
    Respond(Limited(stored, userId, w))
  }

  /** What `execute(userId, startDate, endDate, limit)` returns or throws. */
  function StepsHistoryOf(stored: seq<StepsRecord>, userId: string, startArg: Option<DateArg>, endArg: Option<DateArg>,
                          limitArg: Option<int>, today: int): Result<StepsHistory, StepsError> {
    match ResolveWindow(startArg, endArg, limitArg, today)
    case Err(e) => Err(e)
    case Ok(w) => Ok(HistoryOf(stored, userId, w))
  }

  /** `execute`, with the repository's rows as `stored` and `getTodayDate()` as `today`. */
  method Execute(stored: seq<StepsRecord>, userId: string, startArg: Option<DateArg>, endArg: Option<DateArg>,
                 limitArg: Option<int>, today: int) returns (r: Result<StepsHistory, StepsError>)
    ensures r == StepsHistoryOf(stored, userId, startArg, endArg, limitArg, today)
  {
    var endDate := if endArg.Some? then endArg.value else Instant(StartOfDay(today));
    var startDate := if startArg.Some? then startArg.value else Instant(StartOfDay(today - 7));
    if endDate.Unparseable? || startDate.Unparseable? {
      return Err(InvalidDateError(InvalidDateFormat));
    }
    var limit := limitArg.GetOr(DefaultLimit);
    if limit > MaxLimit {
      limit := MaxLimit;
    }
    var end := DayOf(endDate.ms);
    var start := DayOf(startDate.ms);
    if !IsValidDateRange(start, end) {
      return Err(InvalidDateError(InvertedRangeMessage));
    }
    if DiffDays(StartOfDay(start), StartOfDay(end)) > limit {
      start := end - limit;
    }
    assert ResolveWindow(startArg, endArg, limitArg, today) == Ok(Window(start, end, limit));
    var rawHistory := Query(stored, userId, start, end);
    var filledHistory := FillDateGaps(rawHistory, start, end, userId);
    var limitedHistory := filledHistory[..SliceEnd(limit, |filledHistory|)];
    var totalDays := |limitedHistory|;
    var totalSteps := SumSteps(limitedHistory);
    var averageSteps := Average(totalSteps as real, totalDays);
    var history := seq(|limitedHistory|, k requires 0 <= k < |limitedHistory| => Present(limitedHistory[k]));
    return Ok(StepsHistory(history, totalDays, totalSteps, averageSteps));
  }

  /** The call fails exactly when a date does not parse or the normalised start is after the end. */
  lemma ErrorsExactly(stored: seq<StepsRecord>, userId: string, startArg: Option<DateArg>, endArg: Option<DateArg>,
                      limitArg: Option<int>, today: int)
    ensures var r := StepsHistoryOf(stored, userId, startArg, endArg, limitArg, today);
            var s := StartArg(startArg, today);
            var e := EndArg(endArg, today);
            && (s.Unparseable? || e.Unparseable? ==> r == Err(InvalidDateError(InvalidDateFormat)))
            && (s.Instant? && e.Instant? && DayOf(s.ms) > DayOf(e.ms) ==> r == Err(InvalidDateError(InvertedRangeMessage)))
            && (s.Instant? && e.Instant? && DayOf(s.ms) <= DayOf(e.ms) ==> r.Ok?)
  {
  }

  /**
    An accepted window ends on the end day; when the request spans more
    than `limit` days its start is silently moved to `end - limit`.
  */
  lemma ResolvedWindow(startArg: Option<DateArg>, endArg: Option<DateArg>, limitArg: Option<int>, today: int)
    requires ResolveWindow(startArg, endArg, limitArg, today).Ok?
    ensures var w := ResolveWindow(startArg, endArg, limitArg, today).value;
            var s := DayOf(StartArg(startArg, today).ms);
            var e := DayOf(EndArg(endArg, today).ms);
            && StartArg(startArg, today).Instant? && EndArg(endArg, today).Instant?
            && s <= e && w.end == e && w.limit == EffectiveLimit(limitArg)
            && w.start == (if e - s > w.limit then e - w.limit else s)
  {
    DiffDaysOfDays(DayOf(StartArg(startArg, today).ms), DayOf(EndArg(endArg, today).ms));
  }

  /** The rows shown are the `n` most recent days of the window, `n` being what the slice keeps. */
  lemma LimitedShape(stored: seq<StepsRecord>, userId: string, w: Window)
    ensures var n := SliceEnd(w.limit, DayCount(w.start, w.end));
            && n <= DayCount(w.start, w.end)
            && Limited(stored, userId, w) == Filled(Query(stored, userId, w.start, w.end), w.end - n + 1, w.end, userId)
            && |Limited(stored, userId, w)| == n
            && (forall k :: 0 <= k < n ==> Limited(stored, userId, w)[k].date == w.end - k)
  {
    var raw := Query(stored, userId, w.start, w.end);
    FilledShape(raw, w.start, w.end, userId);
    var n := SliceEnd(w.limit, DayCount(w.start, w.end));
    FilledPrefix(raw, w.start, w.end, userId, n);
  }

  lemma HistoryShape(stored: seq<StepsRecord>, userId: string, w: Window)
    ensures var h := HistoryOf(stored, userId, w);
            && h.totalDays == |h.history| == SliceEnd(w.limit, DayCount(w.start, w.end))
            && (forall k :: 0 <= k < |h.history| ==> h.history[k].date == w.end - k)
            && h.averageSteps == Average(h.totalSteps as real, h.totalDays)
  {
    LimitedShape(stored, userId, w);
  }

  /**
    An accepted request returns `min(days requested, limit)` days, most
    recent first and ending on the end day: a span longer than the limit is
    clamped without an error to the `limit` most recent days.
  */
  lemma AcceptedHistoryShape(stored: seq<StepsRecord>, userId: string, startArg: Option<DateArg>, endArg: Option<DateArg>,
                             limitArg: Option<int>, today: int)
    requires StepsHistoryOf(stored, userId, startArg, endArg, limitArg, today).Ok?
    ensures var h := StepsHistoryOf(stored, userId, startArg, endArg, limitArg, today).value;
            var s := DayOf(StartArg(startArg, today).ms);
            var e := DayOf(EndArg(endArg, today).ms);
            var limit := EffectiveLimit(limitArg);
            && s <= e
            && h.totalDays == |h.history| == (if limit <= 0 then 0 else Min(e - s + 1, limit))
            && (forall k :: 0 <= k < |h.history| ==> h.history[k].date == e - k)
            && h.averageSteps == Average(h.totalSteps as real, h.totalDays)
  {
    var w := ResolveWindow(startArg, endArg, limitArg, today).value;
    ResolvedWindow(startArg, endArg, limitArg, today);
    HistoryShape(stored, userId, w);
    var h := HistoryOf(stored, userId, w);
    assert StepsHistoryOf(stored, userId, startArg, endArg, limitArg, today).value == h;
  }

  /** With no arguments the window is the eight days from a week ago through today. */
  lemma DefaultWindow(stored: seq<StepsRecord>, userId: string, today: int)
    ensures var r := StepsHistoryOf(stored, userId, None, None, None, today);
            && r.Ok? && r.value.totalDays == 8
            && forall k :: 0 <= k < 8 ==> r.value.history[k].date == today - k
  {
    DayOfBounds(StartOfDay(today));
    DayOfInterval(StartOfDay(today), today);
    DayOfInterval(StartOfDay(today - 7), today - 7);
    AcceptedHistoryShape(stored, userId, None, None, None, today);
  }

  /** The steps of the `n` most recent filled days are the steps stored for those days. */
  lemma RecentStepsFromStore(stored: seq<StepsRecord>, userId: string, start: int, end: int, n: int)
    requires OneRowPerUserDay(stored)
    requires 0 <= n <= DayCount(start, end)
    ensures SumSteps(Filled(Query(stored, userId, start, end), end - n + 1, end, userId))
            == SumSteps(Query(stored, userId, end - n + 1, end))
  {
    var raw := Query(stored, userId, start, end);
    QueryDistinctDates(stored, userId, start, end);
    FilledPreservesStepTotal(raw, end - n + 1, end, userId);
    if n > 0 {
      WithinQuery(stored, userId, start, end - n + 1, end);
    } else {
      WithinEmpty(raw, end + 1, end);
      QueryEmpty(stored, userId, end + 1, end);
    }
  }

  lemma HistoryTotal(stored: seq<StepsRecord>, userId: string, w: Window)
    requires OneRowPerUserDay(stored)
    ensures var h := HistoryOf(stored, userId, w);
            h.totalSteps == SumSteps(Query(stored, userId, w.end - h.totalDays + 1, w.end))
  {
    var n := SliceEnd(w.limit, DayCount(w.start, w.end));
    LimitedShape(stored, userId, w);
    RecentStepsFromStore(stored, userId, w.start, w.end, n);
  }

  /**
    With one row per user and day, `totalSteps` is the step count stored for
    exactly the days returned: placeholders add nothing, and rows of the
    days cut by the clamp or the slice are not counted.
  */
  lemma TotalStepsFromStore(stored: seq<StepsRecord>, userId: string, startArg: Option<DateArg>, endArg: Option<DateArg>,
                            limitArg: Option<int>, today: int)
    requires OneRowPerUserDay(stored)
    requires StepsHistoryOf(stored, userId, startArg, endArg, limitArg, today).Ok?
    ensures var h := StepsHistoryOf(stored, userId, startArg, endArg, limitArg, today).value;
            var e := DayOf(EndArg(endArg, today).ms);
            h.totalSteps == SumSteps(Query(stored, userId, e - h.totalDays + 1, e))
  {
    var w := ResolveWindow(startArg, endArg, limitArg, today).value;
    assert StepsHistoryOf(stored, userId, startArg, endArg, limitArg, today).value == HistoryOf(stored, userId, w)
      && w.end == DayOf(EndArg(endArg, today).ms) by {
      ResolvedWindow(startArg, endArg, limitArg, today);
    }
    HistoryTotal(stored, userId, w);
  }

  /** With one row per user and day, the user's row of a day in the window is that day's filled entry. */
  lemma FilledQueryRow(stored: seq<StepsRecord>, userId: string, start: int, end: int, x: StepsRecord)
    requires OneRowPerUserDay(stored)
    requires x in stored && x.userId == userId && start <= x.date <= end
    ensures Filled(Query(stored, userId, start, end), start, end, userId)[end - x.date] == x
  {
    var raw := Query(stored, userId, start, end);
    QueryDistinctDates(stored, userId, start, end);
    QueryMembers(stored, userId, start, end);
    assert x in raw;
    var j :| 0 <= j < |raw| && raw[j] == x;
    FilledKeepsRecord(raw, start, end, userId, j);
  }

  /** A day in the window without a row of the user is filled with the placeholder. */
  lemma FilledQueryGap(stored: seq<StepsRecord>, userId: string, start: int, end: int, day: int)
    requires start <= day <= end
    requires forall x :: x in stored && x.userId == userId ==> x.date != day
    ensures Filled(Query(stored, userId, start, end), start, end, userId)[end - day] == GapRecord(day, userId)
  {
    QueryMembers(stored, userId, start, end);
    FilledGap(Query(stored, userId, start, end), start, end, userId, day);
  }

  lemma HistoryEntryIsFilled(stored: seq<StepsRecord>, userId: string, w: Window, k: int)
    requires 0 <= k < |HistoryOf(stored, userId, w).history|
    ensures k < DayCount(w.start, w.end)
    ensures k < |Filled(Query(stored, userId, w.start, w.end), w.start, w.end, userId)|
    ensures HistoryOf(stored, userId, w).history[k] == Present(Filled(Query(stored, userId, w.start, w.end), w.start, w.end, userId)[k])
  {
    var f := Filled(Query(stored, userId, w.start, w.end), w.start, w.end, userId);
    FilledShape(Query(stored, userId, w.start, w.end), w.start, w.end, userId);
    LimitedShape(stored, userId, w);
    assert Limited(stored, userId, w)[k] == f[k];
  }

  lemma HistoryEntryOfDay(stored: seq<StepsRecord>, userId: string, w: Window, k: int)
    requires OneRowPerUserDay(stored)
    requires 0 <= k < |HistoryOf(stored, userId, w).history|
    ensures var h := HistoryOf(stored, userId, w);
            var day := w.end - k;
            && (forall x :: x in stored && x.userId == userId && x.date == day ==> h.history[k] == Present(x))
            && ((forall x :: x in stored && x.userId == userId ==> x.date != day) ==>
                  h.history[k] == HistoryEntry(None, day, 0, 0.0, 0.0))
  {
    var f := Filled(Query(stored, userId, w.start, w.end), w.start, w.end, userId);
    var h := HistoryOf(stored, userId, w).history;
    HistoryEntryIsFilled(stored, userId, w, k);
    forall x | x in stored && x.userId == userId && x.date == w.end - k
      ensures h[k] == Present(x)
    {
      FilledQueryRow(stored, userId, w.start, w.end, x);
    }
    if forall x :: x in stored && x.userId == userId ==> x.date != w.end - k {
      FilledQueryGap(stored, userId, w.start, w.end, w.end - k);
      PresentGap(w.end - k, userId);
    }
  }

  /** A gap placeholder is shown with no id and zero values. */
  lemma PresentGap(day: int, userId: string)
    ensures Present(GapRecord(day, userId)) == HistoryEntry(None, day, 0, 0.0, 0.0)
  {
  }

  /**
    Each returned day shows the user's stored row of that day, id and all,
    and a day without a row shows an entry with no id and zero values.
  */
  lemma EntryOfDay(stored: seq<StepsRecord>, userId: string, startArg: Option<DateArg>, endArg: Option<DateArg>,
                   limitArg: Option<int>, today: int, k: int)
    requires OneRowPerUserDay(stored)
    requires StepsHistoryOf(stored, userId, startArg, endArg, limitArg, today).Ok?
    requires 0 <= k < |StepsHistoryOf(stored, userId, startArg, endArg, limitArg, today).value.history|
    ensures var h := StepsHistoryOf(stored, userId, startArg, endArg, limitArg, today).value;
            var day := DayOf(EndArg(endArg, today).ms) - k;
            && (forall x :: x in stored && x.userId == userId && x.date == day ==> h.history[k] == Present(x))
            && ((forall x :: x in stored && x.userId == userId ==> x.date != day) ==>
                  h.history[k] == HistoryEntry(None, day, 0, 0.0, 0.0))
  {
    var w := ResolveWindow(startArg, endArg, limitArg, today).value;
    ResolvedWindow(startArg, endArg, limitArg, today);
    assert StepsHistoryOf(stored, userId, startArg, endArg, limitArg, today).value == HistoryOf(stored, userId, w);
    HistoryEntryOfDay(stored, userId, w, k);
  }
}
