/**
  The DailySteps entity, the errors of the steps use cases, and the steps
  repository's history query over a snapshot of stored rows.
*/
module StepsModel {
  import opened Common

  /** The id prefix that marks a placeholder row. */
  const GapPrefix: string := "gap-"

  /**
    A row's id: the id of a stored row, or the id `gap-YYYY-MM-DD` of the
    placeholder `fillDateGaps` makes for a day without a row.
  */
  datatype RowId = Stored(text: string) | Gap(day: int) {
    /** The id as a string. */
    function Text(): string {
      match this
      case Stored(t) => t
      case Gap(d) => GapPrefix + IsoDate(d)
    }
  }

  /**
    A DailySteps row. `date` is its UTC day number; the optional fields are
    `undefined` when the row holds no value.
  */
  datatype StepsRecord = StepsRecord(
    id: RowId,
    userId: string,
    date: int,
    steps: int,
    distanceKm: Option<real>,
    caloriesBurned: Option<real>)

  datatype StepsError =
    | InvalidDateError(message: string)
    | FutureDateError
    | DateTooOldError
    | StepsNotFoundError
    | Rethrown(code: string, message: string)

  /** The daily steps goal every steps view uses. */
  const DefaultGoal: int := 10000

  /**
    `getStepsHistory(userId, start, end)`: the user's rows dated within
    `[start, end]`, in the order of `stored` (the repository's `date desc`).
  */
  function Query(stored: seq<StepsRecord>, userId: string, start: int, end: int): (r: seq<StepsRecord>)
    ensures |r| <= |stored|
  {
    if |stored| == 0 then []
    else
      var x := stored[|stored| - 1];
      var prefix := Query(stored[..|stored| - 1], userId, start, end);
      if x.userId == userId && start <= x.date <= end then prefix + [x] else prefix
  }

  /** The query returns exactly the user's stored rows dated within the window. */
  lemma {:induction false} QueryMembers(stored: seq<StepsRecord>, userId: string, start: int, end: int)
    ensures forall x :: x in Query(stored, userId, start, end) <==> x in stored && x.userId == userId && start <= x.date <= end
  {
    if |stored| > 0 {
      QueryMembers(stored[..|stored| - 1], userId, start, end);
      assert forall y :: y in stored <==> y in stored[..|stored| - 1] || y == stored[|stored| - 1];
    }
  }

  /** An empty window returns nothing. */
  lemma {:induction false} QueryEmpty(stored: seq<StepsRecord>, userId: string, start: int, end: int)
    requires start > end
    ensures Query(stored, userId, start, end) == []
  {
    if |stored| > 0 {
      QueryEmpty(stored[..|stored| - 1], userId, start, end);
    }
  }

  /** The store keeps at most one row per (user, day): the upsert key `userId_date`. */
  ghost predicate OneRowPerUserDay(stored: seq<StepsRecord>) {
    forall i, j :: 0 <= i < j < |stored| && stored[i].userId == stored[j].userId ==> stored[i].date != stored[j].date
  }

  /** Rows in the repository's `orderBy: { date: 'desc' }` order. */
  ghost predicate DateDescending(rows: seq<StepsRecord>) {
    forall i, j :: 0 <= i < j < |rows| ==> rows[i].date >= rows[j].date
  }

  ghost predicate StrictlyDescending(rows: seq<StepsRecord>) {
    forall i, j :: 0 <= i < j < |rows| ==> rows[i].date > rows[j].date
  }

  /** At most one row per day. */
  ghost predicate DistinctDates(rows: seq<StepsRecord>) {
    forall i, j :: 0 <= i < j < |rows| ==> rows[i].date != rows[j].date
  }

  /**
    A history query over a store with one row per user and day, in date
    order, returns each day at most once, most recent first.
  */
  lemma {:induction false} QueryStrictlyDescending(stored: seq<StepsRecord>, userId: string, start: int, end: int)
    requires OneRowPerUserDay(stored) && DateDescending(stored)
    ensures StrictlyDescending(Query(stored, userId, start, end))
  {
    if |stored| > 0 {
      var init := stored[..|stored| - 1];
      var x := stored[|stored| - 1];
      QueryStrictlyDescending(init, userId, start, end);
      QueryMembers(init, userId, start, end);
      var prefix := Query(init, userId, start, end);
      if x.userId == userId && start <= x.date <= end {
        forall y | y in prefix ensures y.date > x.date {
          var i :| 0 <= i < |init| && init[i] == y;
          assert stored[i] == y;
        }
        var r := prefix + [x];
        forall i, j | 0 <= i < j < |r| ensures r[i].date > r[j].date {
          if j == |r| - 1 {
            assert r[i] in prefix;
          } else {
            assert r[i] == prefix[i] && r[j] == prefix[j];
          }
        }
      }
    }
  }

  /** A history query over a store with one row per user and day returns each day at most once. */
  lemma {:induction false} QueryDistinctDates(stored: seq<StepsRecord>, userId: string, start: int, end: int)
    requires OneRowPerUserDay(stored)
    ensures DistinctDates(Query(stored, userId, start, end))
  {
    if |stored| > 0 {
      var init := stored[..|stored| - 1];
      var x := stored[|stored| - 1];
      QueryDistinctDates(init, userId, start, end);
      QueryMembers(init, userId, start, end);
      var prefix := Query(init, userId, start, end);
      if x.userId == userId && start <= x.date <= end {
        forall y | y in prefix ensures y.date != x.date {
          var i :| 0 <= i < |init| && init[i] == y;
          assert stored[i] == y;
        }
        var r := prefix + [x];
        forall i, j | 0 <= i < j < |r| ensures r[i].date != r[j].date {
          if j == |r| - 1 {
            assert r[i] in prefix;
          } else {
            assert r[i] == prefix[i] && r[j] == prefix[j];
          }
        }
      }
    }
  }

  /** A strictly descending history holds at most one row per day. */
  lemma StrictlyDescendingDistinct(rows: seq<StepsRecord>)
    requires StrictlyDescending(rows)
    ensures DistinctDates(rows)
  {
  }

  /** `reduce((sum, e) => sum + e.steps, 0)`. */
  function SumSteps(rows: seq<StepsRecord>): int {
    if |rows| == 0 then 0 else SumSteps(rows[..|rows| - 1]) + rows[|rows| - 1].steps
  }

  /** The sum of `distanceKm ?? 0`. */
  function SumDistance(rows: seq<StepsRecord>): real {
    if |rows| == 0 then 0.0 else SumDistance(rows[..|rows| - 1]) + rows[|rows| - 1].distanceKm.GetOr(0.0)
  }

  /** The sum of `caloriesBurned ?? 0`. */
  function SumCalories(rows: seq<StepsRecord>): real {
    if |rows| == 0 then 0.0 else SumCalories(rows[..|rows| - 1]) + rows[|rows| - 1].caloriesBurned.GetOr(0.0)
  }

  /** The number of rows with at least one step. */
  function CountActive(rows: seq<StepsRecord>): nat {
    if |rows| == 0 then 0 else CountActive(rows[..|rows| - 1]) + (if rows[|rows| - 1].steps > 0 then 1 else 0)
  }

  /** The number of rows reaching the daily goal. */
  function CountGoalReached(rows: seq<StepsRecord>): nat {
    if |rows| == 0 then 0 else CountGoalReached(rows[..|rows| - 1]) + (if rows[|rows| - 1].steps >= DefaultGoal then 1 else 0)
  }

  lemma SumStepsAppend(a: seq<StepsRecord>, b: seq<StepsRecord>)
    ensures SumSteps(a + b) == SumSteps(a) + SumSteps(b)
    decreases |b|
  {
    if |b| > 0 {
      assert (a + b)[..|a + b| - 1] == a + b[..|b| - 1];
      assert (a + b)[|a + b| - 1] == b[|b| - 1];
      SumStepsAppend(a, b[..|b| - 1]);
    } else {
      assert a + b == a;
    }
  }
}
