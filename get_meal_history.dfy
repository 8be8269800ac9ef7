/**
  `GetMealHistory.execute`: resolve the window (end of the end day, start of
  the start day), reject spans over ninety days, group the meals by UTC day,
  total each day, sort most recent first and average over the days logged.
*/
module GetMealHistory {
  import opened Common
  import opened MealsModel

  /** One day of the history; `date` is the day printed as `YYYY-MM-DD`. */
  datatype DayEntry = DayEntry(date: int, meals: seq<Meal>, totals: Totals)

  datatype PeriodStats = PeriodStats(
    totalDays: int,
    averageCalories: int,
    averageProtein: int,
    averageCarbs: int,
    averageFat: int,
    totalCalories: int)

  datatype MealHistory = MealHistory(history: seq<DayEntry>, periodStats: PeriodStats)

  const MaxRangeDays: int := 90
  const RangeTooLongMessage: string := "Date range cannot exceed 90 days"

  /** The end instant: the end of the given day, or of today. */
  function EndInstant(endArg: Option<int>, now: int): int {
    EndOfDay(DayOf(endArg.GetOr(now)))
  }

  /** The start instant: the start of the given day, or of the day seven days before the end instant. */
  function StartInstant(startArg: Option<int>, endMs: int): int {
    StartOfDay(DayOf(if startArg.Some? then startArg.value else endMs - 7 * MsPerDay))
  }

  /** `diffDays`: the span in days, rounded up. */
  function RangeDays(startMs: int, endMs: int): int {
    Ceil((endMs - startMs) as real / MsPerDay as real)
  }

  /** From the start of day `s` to the end of day `e` the span is `e - s + 1` days, also when `s > e`. */
  lemma RangeDaysInclusive(s: int, e: int)
    ensures RangeDays(StartOfDay(s), EndOfDay(e)) == e - s + 1
  {
    var n := e - s + 1;
    var m := MsPerDay as real;
    var x := (EndOfDay(e) - StartOfDay(s)) as real / m;
    assert (EndOfDay(e) - StartOfDay(s)) as real == n as real * m - 1.0;
    assert x == n as real - 1.0 / m;
    var r := RangeDays(StartOfDay(s), EndOfDay(e));
    assert r as real - 1.0 < x <= r as real;
  }

  /** The day entry of `day`: its meals in order and their field-wise totals. */
  function EntryOf(meals: seq<Meal>, day: int): DayEntry {
    DayEntry(day, MealsOn(meals, day), SumMeals(MealsOn(meals, day)))
  }

  /** The entries of `days`, in that order. */
  function EntriesOf(meals: seq<Meal>, days: seq<int>): seq<DayEntry> {
    if |days| == 0 then [] else [EntryOf(meals, days[0])] + EntriesOf(meals, days[1..])
  }

  lemma {:induction false} EntriesOfAt(meals: seq<Meal>, days: seq<int>)
    ensures |EntriesOf(meals, days)| == |days|
    ensures forall k :: 0 <= k < |days| ==> EntriesOf(meals, days)[k] == EntryOf(meals, days[k])
  {
    if |days| > 0 {
      EntriesOfAt(meals, days[1..]);
    }
  }

  /** The field-wise sum of the entries' totals (the period `reduce`s). */
  function SumEntries(entries: seq<DayEntry>): Totals {
    if |entries| == 0 then Zero else entries[0].totals.Plus(SumEntries(entries[1..]))
  }

  predicate StrictlyNewestFirst(entries: seq<DayEntry>) {
    forall i, j :: 0 <= i < j < |entries| ==> entries[i].date > entries[j].date
  }

  /** Places an entry among entries sorted most recent first. */
  function Insert(e: DayEntry, sorted: seq<DayEntry>): seq<DayEntry> {
    if |sorted| == 0 || e.date >= sorted[0].date then [e] + sorted
    else [sorted[0]] + Insert(e, sorted[1..])
  }

  /** `history.sort((a, b) => b.date.localeCompare(a.date))`, on the entries' days. */
  function SortNewestFirst(entries: seq<DayEntry>): seq<DayEntry> {
    if |entries| == 0 then [] else Insert(entries[0], SortNewestFirst(entries[1..]))
  }

  lemma {:induction false} InsertElements(e: DayEntry, sorted: seq<DayEntry>)
    ensures forall x :: x in Insert(e, sorted) <==> x == e || x in sorted
    ensures |Insert(e, sorted)| == |sorted| + 1
  {
    if |sorted| > 0 && e.date < sorted[0].date {
      var rest := sorted[1..];
      assert sorted == [sorted[0]] + rest;
      InsertElements(e, rest);
    }
  }

  lemma {:induction false} InsertMultiset(e: DayEntry, sorted: seq<DayEntry>)
    ensures multiset(Insert(e, sorted)) == multiset(sorted) + multiset{e}
  {
    if |sorted| > 0 && e.date < sorted[0].date {
      var rest := sorted[1..];
      assert sorted == [sorted[0]] + rest;
      InsertMultiset(e, rest);
    }
  }

  lemma {:induction false} InsertSum(e: DayEntry, sorted: seq<DayEntry>)
    ensures SumEntries(Insert(e, sorted)) == e.totals.Plus(SumEntries(sorted))
  {
    if |sorted| > 0 && e.date < sorted[0].date {
      var rest := sorted[1..];
      InsertSum(e, rest);
      assert Insert(e, sorted)[1..] == Insert(e, rest);
    }
  }

  lemma {:induction false} InsertOrdered(e: DayEntry, sorted: seq<DayEntry>)
    requires StrictlyNewestFirst(sorted)
    requires forall x :: x in sorted ==> x.date != e.date
    ensures StrictlyNewestFirst(Insert(e, sorted))
  {
    if |sorted| > 0 && e.date < sorted[0].date {
      var rest := sorted[1..];
      assert forall x :: x in rest ==> x in sorted;
      InsertOrdered(e, rest);
      InsertElements(e, rest);
      var ins := Insert(e, rest);
      assert forall x :: x in rest ==> x.date < sorted[0].date by {
        forall x | x in rest ensures x.date < sorted[0].date {
          var i :| 0 <= i < |rest| && rest[i] == x;
          assert sorted[i + 1] == x;
        }
      }
      ConsOrdered(sorted[0], ins);
    }
  }

  /** An entry newer than every entry of a list sorted most recent first can go in front. */
  lemma ConsOrdered(e: DayEntry, sorted: seq<DayEntry>)
    requires StrictlyNewestFirst(sorted)
    requires forall x :: x in sorted ==> x.date < e.date
    ensures StrictlyNewestFirst([e] + sorted)
  {
    var r := [e] + sorted;
    forall i, j | 0 <= i < j < |r| ensures r[i].date > r[j].date {
      if i == 0 {
        assert r[j] in sorted;
      } else {
        assert r[i] == sorted[i - 1] && r[j] == sorted[j - 1];
      }
    }
  }

  /** Sorting keeps every entry, each as often. */
  lemma {:induction false} SortMultiset(entries: seq<DayEntry>)
    ensures multiset(SortNewestFirst(entries)) == multiset(entries)
  {
    if |entries| > 0 {
      var rest := entries[1..];
      assert entries == [entries[0]] + rest;
      SortMultiset(rest);
      InsertMultiset(entries[0], SortNewestFirst(rest));
    }
  }

  lemma {:induction false} SortElements(entries: seq<DayEntry>)
    ensures forall x :: x in SortNewestFirst(entries) <==> x in entries
    ensures |SortNewestFirst(entries)| == |entries|
  {
    if |entries| > 0 {
      var rest := entries[1..];
      assert forall x :: x in entries <==> x == entries[0] || x in rest;
      SortElements(rest);
      InsertElements(entries[0], SortNewestFirst(rest));
    }
  }

  /** Sorting keeps the totals. */
  lemma {:induction false} SortSum(entries: seq<DayEntry>)
    ensures SumEntries(SortNewestFirst(entries)) == SumEntries(entries)
  {
    if |entries| > 0 {
      SortSum(entries[1..]);
      InsertSum(entries[0], SortNewestFirst(entries[1..]));
    }
  }

  /** Entries of distinct days come out most recent first. */
  lemma {:induction false} SortOrdered(entries: seq<DayEntry>)
    requires forall i, j :: 0 <= i < j < |entries| ==> entries[i].date != entries[j].date
    ensures StrictlyNewestFirst(SortNewestFirst(entries))
  {
    if |entries| > 0 {
      var rest := entries[1..];
      SortOrdered(rest);
      SortElements(rest);
      var sorted := SortNewestFirst(rest);
      forall x | x in sorted ensures x.date != entries[0].date {
        var i :| 0 <= i < |rest| && rest[i] == x;
        assert entries[i + 1] == x;
      }
      InsertOrdered(entries[0], sorted);
    }
  }

  /** The history response of the sorted entries: the day count, the rounded averages over it and the calorie total. */
  function Respond(history: seq<DayEntry>): MealHistory {
    var totalDays := |history|;
    var sum := SumEntries(history);
    MealHistory(history, PeriodStats(
      totalDays,
      Average(sum.calories, totalDays),
      Average(sum.protein, totalDays),
      Average(sum.carbs, totalDays),
      Average(sum.fat, totalDays),
      Round(sum.calories)))
  }

  /** The history of the window's meals: one entry per day, in first-appearance order, then sorted. */
  function GroupedHistory(meals: seq<Meal>): seq<DayEntry> {
    SortNewestFirst(EntriesOf(meals, DayOrder(meals)))
  }

  /** What `execute(userId, startDate, endDate)` returns or throws; `now` is `new Date()`. */
  function MealHistoryOf(stored: seq<Meal>, userId: string, startArg: Option<int>, endArg: Option<int>, now: int): Result<MealHistory, string> {
    var endMs := EndInstant(endArg, now);
    var startMs := StartInstant(startArg, endMs);
    if RangeDays(startMs, endMs) > MaxRangeDays then Err(RangeTooLongMessage)
    else Ok(Respond(GroupedHistory(MealQuery(stored, userId, startMs, endMs))))
  }

  /** `groupedByDate` after the meals `seen`: its keys in insertion order, and each key's meals. */
  ghost predicate Grouped(seen: seq<Meal>, keys: seq<int>, groups: seq<seq<Meal>>) {
    && keys == DayOrder(seen)
    && |groups| == |keys|
    && forall k :: 0 <= k < |keys| ==> groups[k] == MealsOn(seen, keys[k])
  }

  /** One more meal leaves the other days' lists alone and joins its own day's. */
  lemma MealsOnAppend(seen: seq<Meal>, m: Meal, day: int)
    ensures MealsOn(seen + [m], day) == MealsOn(seen, day) + (if MealDay(m) == day then [m] else [])
  {
    assert (seen + [m])[..|seen|] == seen;
  }

  /** A meal of a day not seen before: the day becomes the last key, its list just that meal. */
  lemma GroupNewDay(seen: seq<Meal>, m: Meal, keys: seq<int>, groups: seq<seq<Meal>>)
    requires Grouped(seen, keys, groups)
    requires MealDay(m) !in keys
    ensures Grouped(seen + [m], keys + [MealDay(m)], groups + [[m]])
  {
    var d := MealDay(m);
    assert (seen + [m])[..|seen|] == seen;
    var keys' := keys + [d];
    var groups' := groups + [[m]];
    forall k | 0 <= k < |keys'| ensures groups'[k] == MealsOn(seen + [m], keys'[k]) {
      MealsOnAppend(seen, m, keys'[k]);
      if k == |keys| {
        DayOrderSpec(seen);
        MealDaysMembers(seen, d);
      }
    }
  }

  /** A meal of the day of key `k`: the keys stay, the meal joins list `k`. */
  lemma GroupKnownDay(seen: seq<Meal>, m: Meal, keys: seq<int>, groups: seq<seq<Meal>>, k: int)
    requires Grouped(seen, keys, groups)
    requires 0 <= k < |keys| && keys[k] == MealDay(m)
    ensures Grouped(seen + [m], keys, groups[k := groups[k] + [m]])
  {
    assert (seen + [m])[..|seen|] == seen;
    var groups' := groups[k := groups[k] + [m]];
    forall j | 0 <= j < |keys| ensures groups'[j] == MealsOn(seen + [m], keys[j]) {
      MealsOnAppend(seen, m, keys[j]);
      if j != k {
        DayOrderSpec(seen);
      }
    }
  }

  /**
    `execute`: the map `groupedByDate` as its keys and their meal lists,
    filled meal by meal; then the entries, the sort and the stats.
  */
  method Execute(stored: seq<Meal>, userId: string, startArg: Option<int>, endArg: Option<int>, now: int)
    returns (r: Result<MealHistory, string>)
    ensures r == MealHistoryOf(stored, userId, startArg, endArg, now)
  {
    var endMs := EndOfDay(DayOf(if endArg.Some? then endArg.value else now));
    var startMs := StartOfDay(DayOf(if startArg.Some? then startArg.value else endMs - 7 * MsPerDay));
    var diffDays := Ceil((endMs - startMs) as real / MsPerDay as real);
    assert endMs == EndInstant(endArg, now) && startMs == StartInstant(startArg, endMs);
    assert diffDays == RangeDays(startMs, endMs);
    if diffDays > 90 {
      return Err(RangeTooLongMessage);
    }
    var meals := MealQuery(stored, userId, startMs, endMs);
    var keys, groups := GroupByDate(meals);
    var history := BuildHistory(meals, keys, groups);
    history := SortNewestFirst(history);
    assert history == GroupedHistory(meals);
    return Ok(Respond(history));
  }

  /** The grouping loop: `groupedByDate`'s keys in insertion order and each key's meals. */
  method GroupByDate(meals: seq<Meal>) returns (keys: seq<int>, groups: seq<seq<Meal>>)
    ensures keys == DayOrder(meals) && |groups| == |keys|
    ensures forall k :: 0 <= k < |keys| ==> groups[k] == MealsOn(meals, keys[k])
  {
    keys := [];
    groups := [];
    for i := 0 to |meals|
      invariant Grouped(meals[..i], keys, groups)
    {
      var meal := meals[i];
      assert meals[..i + 1] == meals[..i] + [meal];
      var dateStr := MealDay(meal);
      var k := KeyIndex(keys, dateStr);
      if k == |keys| {
        GroupNewDay(meals[..i], meal, keys, groups);
        ghost var before := groups;
        keys := keys + [dateStr];
        groups := groups + [[]];
        assert groups[k := groups[k] + [meal]] == before + [[meal]];
      } else {
        GroupKnownDay(meals[..i], meal, keys, groups, k);
      }
      groups := groups[k := groups[k] + [meal]];
    }
    assert meals[..|meals|] == meals;
  }

  /** The loop over `groupedByDate`'s entries: one day entry per key, in insertion order. */
  method BuildHistory(meals: seq<Meal>, keys: seq<int>, groups: seq<seq<Meal>>) returns (history: seq<DayEntry>)
    requires |groups| == |keys|
    requires forall k :: 0 <= k < |keys| ==> groups[k] == MealsOn(meals, keys[k])
    ensures history == EntriesOf(meals, keys)
  {
    history := [];
    for k := 0 to |keys|
      invariant |history| == k
      invariant forall j :: 0 <= j < k ==> history[j] == EntryOf(meals, keys[j])
    {
      history := history + [DayEntry(keys[k], groups[k], SumMeals(groups[k]))];
    }
    EntriesOfAt(meals, keys);
  }

  /**
    The span is the inclusive day count of the resolved days, and the call
    fails exactly when it exceeds ninety days: a longer span is never clamped.
  */
  lemma RejectsExactlyLongRanges(stored: seq<Meal>, userId: string, startArg: Option<int>, endArg: Option<int>, now: int)
    ensures var e := DayOf(endArg.GetOr(now));
            var s := DayOf(StartInstant(startArg, EndInstant(endArg, now)));
            && RangeDays(StartInstant(startArg, EndInstant(endArg, now)), EndInstant(endArg, now)) == e - s + 1
            && (MealHistoryOf(stored, userId, startArg, endArg, now).Err? <==> e - s + 1 > MaxRangeDays)
            && (MealHistoryOf(stored, userId, startArg, endArg, now).Err? ==>
                  MealHistoryOf(stored, userId, startArg, endArg, now).error == RangeTooLongMessage)
  {
    var e := DayOf(endArg.GetOr(now));
    var startMs := StartInstant(startArg, EndInstant(endArg, now));
    var s := DayOf(startMs);
    DayOfBounds(startMs);
    assert StartOfDay(s) == startMs by {
      DayOfInterval(startMs, s);
    }
    RangeDaysInclusive(s, e);
  }

  /** Without dates the window is the eight days from a week before today through today, and is accepted. */
  lemma DefaultWindow(stored: seq<Meal>, userId: string, now: int)
    ensures var endMs := EndInstant(None, now);
            && endMs == EndOfDay(DayOf(now))
            && StartInstant(None, endMs) == StartOfDay(DayOf(now) - 7)
            && MealHistoryOf(stored, userId, None, None, now).Ok?
  {
    var d := DayOf(now);
    DayOfInterval(EndOfDay(d) - 7 * MsPerDay, d - 7);
    RejectsExactlyLongRanges(stored, userId, None, None, now);
  }

  /** A start after the end is not an error: nothing lies in the window and the history is empty. */
  lemma InvertedRangeIsEmpty(stored: seq<Meal>, userId: string, start: int, end: int, now: int)
    requires DayOf(start) > DayOf(end)
    ensures MealHistoryOf(stored, userId, Some(start), Some(end), now) == Ok(Respond([]))
  {
    var endMs := EndInstant(Some(end), now);
    var startMs := StartInstant(Some(start), endMs);
    RejectsExactlyLongRanges(stored, userId, Some(start), Some(end), now);
    MealQueryEmpty(stored, userId, startMs, endMs);
  }

  /** The entries of distinct days, in that order, with their meals and totals. */
  lemma GroupedEntries(meals: seq<Meal>)
    ensures var entries := EntriesOf(meals, DayOrder(meals));
            && |entries| == |MealDays(meals)|
            && (forall i, j :: 0 <= i < j < |entries| ==> entries[i].date != entries[j].date)
            && (forall k :: 0 <= k < |entries| ==> entries[k] == EntryOf(meals, entries[k].date))
            && (forall k :: 0 <= k < |entries| ==> entries[k].date in MealDays(meals))
            && (forall d :: d in MealDays(meals) ==> exists k :: 0 <= k < |entries| && entries[k].date == d)
  {
    var order := DayOrder(meals);
    DayOrderSpec(meals);
    EntriesOfAt(meals, order);
    var entries := EntriesOf(meals, order);
    forall d | d in MealDays(meals) ensures exists k :: 0 <= k < |entries| && entries[k].date == d {
      var k :| 0 <= k < |order| && order[k] == d;
      assert entries[k].date == d;
    }
  }

  /**
    The history holds one entry per day with meals, most recent first; each
    entry holds exactly that day's meals in order and their field-wise totals.
  */
  lemma HistoryByDay(meals: seq<Meal>)
    ensures var h := GroupedHistory(meals);
            && |h| == |MealDays(meals)|
            && StrictlyNewestFirst(h)
            && (forall k :: 0 <= k < |h| ==> h[k].meals == MealsOn(meals, h[k].date) && h[k].totals == SumMeals(h[k].meals))
            && (forall d :: d in MealDays(meals) <==> exists k :: 0 <= k < |h| && h[k].date == d)
  {
    var entries := EntriesOf(meals, DayOrder(meals));
    var h := GroupedHistory(meals);
    assert StrictlyNewestFirst(h) by {
      GroupedEntries(meals);
      SortOrdered(entries);
    }
    assert |h| == |MealDays(meals)|
           && (forall k :: 0 <= k < |h| ==> h[k] == EntryOf(meals, h[k].date) && h[k].date in MealDays(meals))
           && (forall d :: d in MealDays(meals) ==> exists k :: 0 <= k < |h| && h[k].date == d) by {
      GroupedEntries(meals);
      SortedEntries(meals, entries);
    }
  }

  /** Sorted, the entries are still one per meal day, each that day's entry. */
  lemma SortedEntries(meals: seq<Meal>, entries: seq<DayEntry>)
    requires forall k :: 0 <= k < |entries| ==> entries[k] == EntryOf(meals, entries[k].date) && entries[k].date in MealDays(meals)
    requires forall d :: d in MealDays(meals) ==> exists k :: 0 <= k < |entries| && entries[k].date == d
    ensures var h := SortNewestFirst(entries);
            && |h| == |entries|
            && (forall k :: 0 <= k < |h| ==> h[k] == EntryOf(meals, h[k].date) && h[k].date in MealDays(meals))
            && (forall d :: d in MealDays(meals) ==> exists k :: 0 <= k < |h| && h[k].date == d)
  {
    SortElements(entries);
    var h := SortNewestFirst(entries);
    forall k | 0 <= k < |h| ensures h[k] == EntryOf(meals, h[k].date) && h[k].date in MealDays(meals) {
      assert h[k] in entries;
      var j :| 0 <= j < |entries| && entries[j] == h[k];
    }
    forall d | d in MealDays(meals) ensures exists k :: 0 <= k < |h| && h[k].date == d {
      var j :| 0 <= j < |entries| && entries[j].date == d;
      assert entries[j] in h;
      var k :| 0 <= k < |h| && h[k] == entries[j];
    }
  }

  /** Every meal lands in exactly one entry: the one of its UTC day. */
  lemma EveryMealOnce(meals: seq<Meal>, m: Meal)
    requires m in meals
    ensures var h := GroupedHistory(meals);
            && (exists k :: 0 <= k < |h| && h[k].date == MealDay(m) && m in h[k].meals)
            && (forall k :: 0 <= k < |h| && m in h[k].meals ==> h[k].date == MealDay(m))
  {
    HistoryByDay(meals);
    MealDaysMembers(meals, MealDay(m));
    var h := GroupedHistory(meals);
    var k :| 0 <= k < |h| && h[k].date == MealDay(m);
    MealsOnMembers(meals, MealDay(m));
    forall j | 0 <= j < |h| && m in h[j].meals ensures h[j].date == MealDay(m) {
      MealsOnMembers(meals, h[j].date);
    }
  }

  /**
    `totalDays` counts the distinct days with meals; the averages divide the
    sums of all the meals by it, and `totalCalories` rounds their sum.
  */
  lemma PeriodStatsOfMeals(meals: seq<Meal>)
    ensures var p := Respond(GroupedHistory(meals)).periodStats;
            var sum := SumMeals(meals);
            && p.totalDays == |MealDays(meals)|
            && p.averageCalories == Average(sum.calories, p.totalDays)
            && p.averageProtein == Average(sum.protein, p.totalDays)
            && p.averageCarbs == Average(sum.carbs, p.totalDays)
            && p.averageFat == Average(sum.fat, p.totalDays)
            && p.totalCalories == Round(sum.calories)
  {
    var order := DayOrder(meals);
    GroupedEntries(meals);
    SortElements(EntriesOf(meals, order));
    SortSum(EntriesOf(meals, order));
    DayOrderSpec(meals);
    EntriesSum(meals, order);
    ByDayPartition(meals, order);
  }

  lemma {:induction false} EntriesSum(meals: seq<Meal>, days: seq<int>)
    ensures SumEntries(EntriesOf(meals, days)) == SumByDay(meals, days)
  {
    if |days| > 0 {
      EntriesSum(meals, days[1..]);
    }
  }

  /** An accepted call answers with the grouped history of the window's meals. */
  lemma AcceptedHistory(stored: seq<Meal>, userId: string, startArg: Option<int>, endArg: Option<int>, now: int)
    requires MealHistoryOf(stored, userId, startArg, endArg, now).Ok?
    ensures var endMs := EndInstant(endArg, now);
            var meals := MealQuery(stored, userId, StartInstant(startArg, endMs), endMs);
            && MealHistoryOf(stored, userId, startArg, endArg, now).value == Respond(GroupedHistory(meals))
            && forall m :: m in meals <==> m in stored && m.userId == userId && StartInstant(startArg, endMs) <= m.date <= endMs
  {
    var endMs := EndInstant(endArg, now);
    MealQueryMembers(stored, userId, StartInstant(startArg, endMs), endMs);
  }
}
