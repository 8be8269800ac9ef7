/**
  Calendar helpers of the steps domain: range and logging-date checks, day
  enumeration, and the gap filler that turns a sparse steps history into one
  entry per day, most recent first.

  `today` is the UTC day number of `getTodayDate()`; instants are milliseconds.
*/
module DateHelpers {
  import opened Common
  import opened StepsModel

  /** `isValidDateRange(start, end)`. */
  predicate IsValidDateRange(start: int, end: int) {
    start <= end
  }

  /** `isFutureDate(date)`: strictly after today's UTC midnight. */
  predicate IsFutureDate(date: int, today: int) {
    date > StartOfDay(today)
  }

  /** The default `maxDays` of `isDateTooOld`. */
  const DefaultMaxDays: int := 7

  /** `Math.ceil(Math.abs(b - a) / (1000 * 60 * 60 * 24))`: the days between two instants, a partial day counting whole. */
  function DiffDays(a: int, b: int): int {
    Ceil(Abs(b - a) as real / MsPerDay as real)
  }

  /** Between two UTC midnights the day difference is exact. */
  lemma DiffDaysOfDays(d1: int, d2: int)
    ensures DiffDays(StartOfDay(d1), StartOfDay(d2)) == Abs(d2 - d1)
  {
    var n := Abs(d2 - d1);
    assert Abs(StartOfDay(d2) - StartOfDay(d1)) == n * MsPerDay;
    assert (n * MsPerDay) as real / MsPerDay as real == n as real;
    assert Ceil(n as real) == n;
  }

  /** `isDateTooOld(date, maxDays)`: more than `maxDays` whole-or-partial days from today's midnight, either way. */
  predicate IsDateTooOld(date: int, today: int, maxDays: int) {
    DiffDays(StartOfDay(today), date) > maxDays
  }

  /** A range is valid exactly when it is not inverted; a single day is valid. */
  lemma ValidRangeIffOrdered(start: int, end: int)
    ensures IsValidDateRange(start, end) <==> !(start > end)
    ensures IsValidDateRange(end, end)
  {
  }

  /**
    An instant is in the future exactly when it falls on a later day, or on
    today after midnight; so a date given as a calendar day is future only
    when that day is after today, and today itself is accepted.
  */
  lemma FutureIffLaterInstant(date: int, today: int)
    ensures IsFutureDate(date, today) <==> DayOf(date) > today || (DayOf(date) == today && date != StartOfDay(today))
    ensures IsFutureDate(StartOfDay(date / MsPerDay), today) <==> DayOf(date) > today
  {
    DayOfBounds(date);
    if DayOf(date) > today {
      assert StartOfDay(DayOf(date)) >= StartOfDay(today + 1);
    } else if DayOf(date) < today {
      assert EndOfDay(DayOf(date)) < StartOfDay(today);
    }
  }

  /** For a date at UTC midnight, "too old" is a plain distance in days. */
  lemma TooOldForDay(day: int, today: int, maxDays: int)
    ensures IsDateTooOld(StartOfDay(day), today, maxDays) <==> Abs(today - day) > maxDays
  {
    DiffDaysOfDays(today, day);
  }

  /** At most seven days in either direction, counting a partial day as a whole one. */
  lemma WithinSevenDays(ms: int, today: int)
    ensures !IsDateTooOld(ms, today, DefaultMaxDays) <==> Abs(StartOfDay(today) - ms) <= 7 * MsPerDay
  {
    var x := Abs(ms - StartOfDay(today)) as real / MsPerDay as real;
    if Abs(StartOfDay(today) - ms) <= 7 * MsPerDay {
      assert x <= 7.0;
    } else {
      assert x > 7.0;
    }
  }

  /**
    The instants `LogSteps` and `LogMeal` accept: from UTC midnight seven
    days ago through UTC midnight today, so any later time today is future.
  */
  lemma LoggableInstants(ms: int, today: int)
    ensures !IsFutureDate(ms, today) && !IsDateTooOld(ms, today, DefaultMaxDays)
            <==> StartOfDay(today - 7) <= ms <= StartOfDay(today)
  {
    WithinSevenDays(ms, today);
  }

  /** The dates `LogSteps` and `LogMeal` accept, given as calendar days: today and the seven days before it. */
  lemma LoggableDays(day: int, today: int)
    ensures !IsFutureDate(StartOfDay(day), today) && !IsDateTooOld(StartOfDay(day), today, DefaultMaxDays)
            <==> today - 7 <= day <= today
  {
    TooOldForDay(day, today, DefaultMaxDays);
    FutureIffLaterInstant(StartOfDay(day), today);
    DayOfBounds(StartOfDay(day));
    DayOfInterval(StartOfDay(day), day);
  }

  function DayCount(start: int, end: int): nat {
    if start <= end then end - start + 1 else 0
  }

  /** `getDaysInRange(start, end)`: every day from `start` to `end`, ascending. */
  method GetDaysInRange(start: int, end: int) returns (days: seq<int>)
    ensures |days| == DayCount(start, end)
    ensures forall k :: 0 <= k < |days| ==> days[k] == start + k
  {
    days := [];
    var current := start;
    while current <= end
      invariant start <= current
      invariant start <= end ==> current <= end + 1
      invariant start > end ==> current == start
      invariant |days| == current - start
      invariant forall k :: 0 <= k < |days| ==> days[k] == start + k
      decreases end - current
    {
      days := days + [current];
      current := current + 1;
    }
  }

  /** The `historyMap` of `fillDateGaps`: each day's row, a later row replacing an earlier one. */
  function LatestByDate(history: seq<StepsRecord>): map<int, StepsRecord> {
    if |history| == 0 then map[]
    else LatestByDate(history[..|history| - 1])[history[|history| - 1].date := history[|history| - 1]]
  }

  /** The placeholder for a day without a row: id `gap-YYYY-MM-DD`, zero steps, distance and calories. */
  function GapRecord(day: int, userId: string): StepsRecord {
    StepsRecord(Gap(day), userId, day, 0, Some(0.0), Some(0.0))
  }

  function EntryFor(historyMap: map<int, StepsRecord>, day: int, userId: string): StepsRecord {
    if day in historyMap then historyMap[day] else GapRecord(day, userId)
  }

  /** What `fillDateGaps(history, start, end, userId)` returns: the entry of day `end - k` at index `k`. */
  function Filled(history: seq<StepsRecord>, start: int, end: int, userId: string): seq<StepsRecord> {
    var historyMap := LatestByDate(history);
    seq(DayCount(start, end), k => EntryFor(historyMap, end - k, userId))
  }

  lemma FilledAt(history: seq<StepsRecord>, start: int, end: int, userId: string, k: int)
    requires 0 <= k < DayCount(start, end)
    ensures |Filled(history, start, end, userId)| == DayCount(start, end)
    ensures Filled(history, start, end, userId)[k] == EntryFor(LatestByDate(history), end - k, userId)
  {
  }

  /** `fillDateGaps`, as the source runs it: a map from the history, then a walk down from `end`. */
  method FillDateGaps(history: seq<StepsRecord>, start: int, end: int, userId: string) returns (filled: seq<StepsRecord>)
    ensures filled == Filled(history, start, end, userId)
  {
    var dates := GetDaysInRange(start, end);
    var historyMap: map<int, StepsRecord> := map[];
    for j := 0 to |history|
      invariant historyMap == LatestByDate(history[..j])
    {
      assert history[..j + 1][..j] == history[..j];
      historyMap := historyMap[history[j].date := history[j]];
    }
    assert history[..|history|] == history;
    filled := [];
    var i := |dates| - 1;
    while i >= 0
      invariant -1 <= i < |dates|
      invariant |filled| == |dates| - 1 - i
      invariant forall k :: 0 <= k < |filled| ==> filled[k] == EntryFor(historyMap, end - k, userId)
    {
      var date := dates[i];
      if date in historyMap {
        filled := filled + [historyMap[date]];
      } else {
        filled := filled + [GapRecord(date, userId)];
      }
      i := i - 1;
    }
  }

  /** The map holds exactly the days of the history, each with a row of that day taken from the history. */
  lemma {:induction false} LatestByDateSpec(history: seq<StepsRecord>)
    ensures forall d :: d in LatestByDate(history) <==> exists r :: r in history && r.date == d
    ensures forall d :: d in LatestByDate(history) ==> LatestByDate(history)[d].date == d && LatestByDate(history)[d] in history
  {
    if |history| > 0 {
      var init := history[..|history| - 1];
      var x := history[|history| - 1];
      LatestByDateSpec(init);
      assert forall r :: r in history <==> r in init || r == x;
    }
  }

  /** Of two rows on one day, the later in the history is the one kept. */
  lemma {:induction false} LatestByDateLastWins(history: seq<StepsRecord>, j: int)
    requires 0 <= j < |history|
    requires forall i :: j < i < |history| ==> history[i].date != history[j].date
    ensures history[j].date in LatestByDate(history) && LatestByDate(history)[history[j].date] == history[j]
  {
    if j < |history| - 1 {
      var init := history[..|history| - 1];
      LatestByDateLastWins(init, j);
    }
  }

  /** One entry per day of the window, most recent first: entry `k` is dated `end - k`. */
  lemma FilledShape(history: seq<StepsRecord>, start: int, end: int, userId: string)
    ensures |Filled(history, start, end, userId)| == DayCount(start, end)
    ensures forall k :: 0 <= k < DayCount(start, end) ==> Filled(history, start, end, userId)[k].date == end - k
    ensures StrictlyDescending(Filled(history, start, end, userId))
  {
    LatestByDateSpec(history);
    var f := Filled(history, start, end, userId);
    forall k | 0 <= k < DayCount(start, end) ensures f[k].date == end - k {
      FilledAt(history, start, end, userId, k);
    }
  }

  /**
    A row dated inside the window is emitted unchanged, at its day's place,
    unless a later row of the history has the same day.
  */
  lemma FilledKeepsRecord(history: seq<StepsRecord>, start: int, end: int, userId: string, j: int)
    requires 0 <= j < |history| && start <= history[j].date <= end
    requires forall i :: j < i < |history| ==> history[i].date != history[j].date
    ensures Filled(history, start, end, userId)[end - history[j].date] == history[j]
  {
    LatestByDateLastWins(history, j);
    FilledAt(history, start, end, userId, end - history[j].date);
  }

  /** A day of the window without any row gets the zero placeholder. */
  lemma FilledGap(history: seq<StepsRecord>, start: int, end: int, userId: string, day: int)
    requires start <= day <= end
    requires forall r :: r in history ==> r.date != day
    ensures Filled(history, start, end, userId)[end - day] == GapRecord(day, userId)
    ensures Filled(history, start, end, userId)[end - day].steps == 0
  {
    LatestByDateSpec(history);
    FilledAt(history, start, end, userId, end - day);
  }

  /** Every entry is a row of the history dated inside the window, or a placeholder; rows outside the window are dropped. */
  lemma FilledEntriesFromHistory(history: seq<StepsRecord>, start: int, end: int, userId: string)
    ensures forall e :: e in Filled(history, start, end, userId) ==>
              start <= e.date <= end && (e in history || e == GapRecord(e.date, userId))
  {
    LatestByDateSpec(history);
    var f := Filled(history, start, end, userId);
    forall e | e in f ensures start <= e.date <= end && (e in history || e == GapRecord(e.date, userId)) {
      var k :| 0 <= k < |f| && f[k] == e;
      FilledAt(history, start, end, userId, k);
      var m := LatestByDate(history);
      if end - k in m {
        assert m[end - k] in history && m[end - k].date == end - k;
      }
    }
  }

  /** The rows of a history dated within `[start, end]`, in order. */
  function Within(history: seq<StepsRecord>, start: int, end: int): seq<StepsRecord> {
    if |history| == 0 then []
    else
      var x := history[|history| - 1];
      Within(history[..|history| - 1], start, end) + (if start <= x.date <= end then [x] else [])
  }

  function StepsOn(historyMap: map<int, StepsRecord>, day: int): int {
    if day in historyMap then historyMap[day].steps else 0
  }

  /** The steps of every day from `lo` to `hi`, a day without a row counting 0. */
  function DayStepTotal(historyMap: map<int, StepsRecord>, lo: int, hi: int): int
    decreases hi - lo
  {
    if lo > hi then 0 else StepsOn(historyMap, lo) + DayStepTotal(historyMap, lo + 1, hi)
  }

  lemma {:induction false} FilledStepsAsDayTotal(history: seq<StepsRecord>, start: int, end: int, userId: string)
    ensures SumSteps(Filled(history, start, end, userId)) == DayStepTotal(LatestByDate(history), start, end)
    decreases end - start
  {
    var f := Filled(history, start, end, userId);
    if start <= end {
      FilledStepsAsDayTotal(history, start + 1, end, userId);
      var rest := Filled(history, start + 1, end, userId);
      assert f[..|f| - 1] == rest;
      assert f[|f| - 1] == EntryFor(LatestByDate(history), start, userId);
    }
  }

  lemma {:induction false} DayStepTotalUpdate(historyMap: map<int, StepsRecord>, x: StepsRecord, lo: int, hi: int)
    requires x.date !in historyMap
    ensures DayStepTotal(historyMap[x.date := x], lo, hi)
            == DayStepTotal(historyMap, lo, hi) + (if lo <= x.date <= hi then x.steps else 0)
    decreases hi - lo
  {
    if lo <= hi {
      DayStepTotalUpdate(historyMap, x, lo + 1, hi);
    }
  }

  lemma {:induction false} DayStepTotalEmpty(lo: int, hi: int)
    ensures DayStepTotal(map[], lo, hi) == 0
    decreases hi - lo
  {
    if lo <= hi {
      DayStepTotalEmpty(lo + 1, hi);
    }
  }

  lemma {:induction false} DayStepTotalOfHistory(history: seq<StepsRecord>, lo: int, hi: int)
    requires DistinctDates(history)
    ensures DayStepTotal(LatestByDate(history), lo, hi) == SumSteps(Within(history, lo, hi))
  {
    if |history| == 0 {
      DayStepTotalEmpty(lo, hi);
    } else {
      var init := history[..|history| - 1];
      var x := history[|history| - 1];
      DayStepTotalOfHistory(init, lo, hi);
      LatestByDateSpec(init);
      assert x.date !in LatestByDate(init);
      DayStepTotalUpdate(LatestByDate(init), x, lo, hi);
      var w := Within(init, lo, hi);
      if lo <= x.date <= hi {
        assert (w + [x])[..|w + [x]| - 1] == w;
      } else {
        assert w + [] == w;
      }
    }
  }

  /**
    With at most one row per day, the placeholders change no total: the
    steps over the filled window equal the steps of the rows inside it.
  */
  lemma FilledPreservesStepTotal(history: seq<StepsRecord>, start: int, end: int, userId: string)
    requires DistinctDates(history)
    ensures SumSteps(Filled(history, start, end, userId)) == SumSteps(Within(history, start, end))
  {
    FilledStepsAsDayTotal(history, start, end, userId);
    DayStepTotalOfHistory(history, start, end);
  }

  /** The first `n` entries of a filled window are the filled window of its `n` most recent days. */
  lemma FilledPrefix(history: seq<StepsRecord>, start: int, end: int, userId: string, n: int)
    requires 0 <= n <= DayCount(start, end)
    ensures Filled(history, start, end, userId)[..n] == Filled(history, end - n + 1, end, userId)
  {
    var f := Filled(history, start, end, userId);
    var g := Filled(history, end - n + 1, end, userId);
    forall k | 0 <= k < n ensures f[k] == g[k] {
      FilledAt(history, start, end, userId, k);
      FilledAt(history, end - n + 1, end, userId, k);
    }
  }

  /** An empty window keeps no row. */
  lemma {:induction false} WithinEmpty(rows: seq<StepsRecord>, lo: int, hi: int)
    requires lo > hi
    ensures Within(rows, lo, hi) == []
  {
    if |rows| > 0 {
      WithinEmpty(rows[..|rows| - 1], lo, hi);
    }
  }

  /** Narrowing a history query afterwards is the same as querying the narrower window. */
  lemma {:induction false} WithinQuery(stored: seq<StepsRecord>, userId: string, start: int, lo: int, end: int)
    requires start <= lo
    ensures Within(Query(stored, userId, start, end), lo, end) == Query(stored, userId, lo, end)
  {
    if |stored| > 0 {
      var init := stored[..|stored| - 1];
      var x := stored[|stored| - 1];
      WithinQuery(init, userId, start, lo, end);
      var q := Query(init, userId, start, end);
      if x.userId == userId && start <= x.date <= end {
        assert (q + [x])[..|q + [x]| - 1] == q;
      }
    }
  }

  /** Filling an already filled window changes nothing. */
  lemma FillIdempotent(history: seq<StepsRecord>, start: int, end: int, userId: string)
    ensures Filled(Filled(history, start, end, userId), start, end, userId) == Filled(history, start, end, userId)
  {
    var f := Filled(history, start, end, userId);
    FilledShape(history, start, end, userId);
    var g := Filled(f, start, end, userId);
    forall k | 0 <= k < |f| ensures g[k] == f[k] {
      LatestByDateLastWins(f, k);
      FilledAt(f, start, end, userId, k);
    }
  }
}
