/**
  Shared vocabulary of the model: optional values and results (JavaScript's
  `undefined`/`null` and thrown errors), the millisecond clock of `Date`,
  UTC calendar days, and `Math.round` / `Math.ceil` / `toFixed(2)` on reals.
*/
module Common {

  datatype Option<T> = None | Some(value: T) {
    /** The `??` operator: the value when present, otherwise `default`. */
    function GetOr(default: T): T {
      match this
      case Some(v) => v
      case None => default
    }
  }

  datatype Result<T, E> = Ok(value: T) | Err(error: E)

  /** A date argument after `new Date(...)`: either an instant or `Invalid Date`. */
  datatype DateArg = Unparseable | Instant(ms: int)

  /** The message of an unparseable date, for steps and meals alike. */
  const InvalidDateFormat: string := "Invalid date format"

  /** Milliseconds in one day (`1000 * 60 * 60 * 24`). */
  const MsPerDay: int := 86400000

  /** The UTC calendar day of an instant, as a day number since 1970-01-01. */
  function DayOf(ms: int): int {
    ms / MsPerDay
  }

  /** The instant `setUTCHours(0, 0, 0, 0)` gives for a day. */
  function StartOfDay(day: int): int {
    day * MsPerDay
  }

  /** The instant `setUTCHours(23, 59, 59, 999)` gives for a day. */
  function EndOfDay(day: int): int {
    day * MsPerDay + MsPerDay - 1
  }

  /** Normalising to UTC midnight keeps the calendar day and nothing else. */
  lemma DayOfBounds(ms: int)
    ensures StartOfDay(DayOf(ms)) <= ms <= EndOfDay(DayOf(ms))
    ensures DayOf(StartOfDay(DayOf(ms))) == DayOf(ms)
    ensures DayOf(EndOfDay(DayOf(ms))) == DayOf(ms)
  {
    var d := DayOf(ms);
    assert d * MsPerDay <= ms < d * MsPerDay + MsPerDay;
    DayOfInterval(d * MsPerDay, d);
    DayOfInterval(d * MsPerDay + MsPerDay - 1, d);
  }

  /** An instant lies on day `d` exactly when it is within that day's 24 hours. */
  lemma DayOfInterval(ms: int, d: int)
    requires d * MsPerDay <= ms < d * MsPerDay + MsPerDay
    ensures DayOf(ms) == d
  {
  }

  function Abs(x: int): (r: nat)
    ensures r == x || r == -x
  {
    if x < 0 then -x else x
  }

  function Min(a: int, b: int): (r: int)
    ensures r <= a && r <= b && (r == a || r == b)
  {
    if a <= b then a else b
  }

  /** `Math.max(a, b)`. */
  function Max(a: real, b: real): (r: real)
    ensures r >= a && r >= b && (r == a || r == b)
  {
    if a >= b then a else b
  }

  /** `Math.round`: the nearest integer, a half rounded up. */
  function Round(x: real): (r: int)
    ensures r as real - 0.5 <= x < r as real + 0.5
  {
    (x + 0.5).Floor
  }

  /** The only integer within a half below and strictly under a half above `x` is `Round(x)`. */
  lemma RoundUnique(x: real, n: int)
    requires n as real - 0.5 <= x < n as real + 0.5
    ensures Round(x) == n
  {
  }

  /** `Math.ceil`: the least integer not below `x`. */
  function Ceil(x: real): (r: int)
    ensures r as real - 1.0 < x <= r as real
  {
    -((-x).Floor)
  }

  /** `r` is a whole number of hundredths: it has at most two decimals. */
  predicate WholeHundredths(r: real) {
    (r * 100.0).Floor as real == r * 100.0
  }

  /** `Number(x.toFixed(2))`, on exact reals: `x` rounded to hundredths. */
  function RoundHundredths(x: real): (r: real)
    ensures WholeHundredths(r)
    ensures x - 0.005 < r <= x + 0.005
  {
    Round(x * 100.0) as real / 100.0
  }

  /** The two clauses of `RoundHundredths` determine it: one hundredth alone lies in that half-open interval. */
  lemma RoundHundredthsUnique(x: real, r: real)
    requires WholeHundredths(r)
    requires x - 0.005 < r <= x + 0.005
    ensures r == RoundHundredths(x)
  {
    var n := (r * 100.0).Floor;
    assert n as real - 0.5 <= x * 100.0 < n as real + 0.5;
    RoundUnique(x * 100.0, n);
  }

  /**
    `Math.round` of a quotient of integers is integer arithmetic:
    `round(a / b) == (2a + b) div (2b)` for `b > 0`.
  */
  lemma RoundedQuotient(a: int, b: int)
    requires b > 0
    ensures Round(a as real / b as real) == (2 * a + b) / (2 * b)
  {
    var q := (2 * a + b) / (2 * b);
    assert 2 * b * q <= 2 * a + b < 2 * b * q + 2 * b;
    var x := a as real / b as real;
    var br := b as real;
    assert x * br == a as real;
    assert (q as real - 0.5) * br <= a as real by {
      assert (q as real - 0.5) * br == ((2 * b * q - b) as real) / 2.0;
    }
    assert a as real < (q as real + 0.5) * br by {
      assert (q as real + 0.5) * br == ((2 * b * q + b) as real) / 2.0;
    }
    assert q as real - 0.5 <= x by {
      if x < q as real - 0.5 {
        MulStrict(x, q as real - 0.5, br);
      }
    }
    assert x < q as real + 0.5 by {
      if x >= q as real + 0.5 {
        MulMono(q as real + 0.5, x, br);
      }
    }
    RoundUnique(x, q);
  }

  lemma MulStrict(x: real, y: real, c: real)
    requires c > 0.0 && x < y
    ensures x * c < y * c
  {
    assert (y - x) * c > 0.0;
  }

  lemma MulMono(x: real, y: real, c: real)
    requires c > 0.0 && x <= y
    ensures x * c <= y * c
  {
    assert (y - x) * c >= 0.0;
  }

  /**
    `count > 0 ? Math.round(total / count) : 0`, the average used by every
    history and stats view; `AverageBounds` bounds it.
  */
  function Average(total: real, count: int): (r: int)
    ensures count <= 0 ==> r == 0
  {
    if count > 0 then Round(total / count as real) else 0
  }

  /** The average is within half a unit per day of the total: `(r - 1/2) * count <= total < (r + 1/2) * count`. */
  lemma AverageBounds(total: real, count: int)
    requires count > 0
    ensures (Average(total, count) as real - 0.5) * count as real <= total
    ensures total < (Average(total, count) as real + 0.5) * count as real
  {
    var c := count as real;
    assert c > 0.0;
    var x := total / c;
    assert x * c == total;
    var r := Round(x) as real;
    assert Average(total, count) as real == r;
    assert r - 0.5 <= x < r + 0.5;
    assert (r - 0.5) * c <= total by {
      MulMono(r - 0.5, x, c);
    }
    var hi := r + 0.5;
    assert x * c < hi * c by {
      MulStrict(x, hi, c);
    }
    calc {
      total;
    ==
      x * c;
    <
      hi * c;
    }
  }

  /** The rounded average of a count is integer arithmetic: `(2 * n + count) div (2 * count)`. */
  lemma AverageOfCount(n: int, count: int)
    requires count > 0
    ensures Average(n as real, count) == (2 * n + count) / (2 * count)
  {
    RoundedQuotient(n, count);
  }

  function StartsWith(s: string, prefix: string): bool {
    |prefix| <= |s| && s[..|prefix|] == prefix
  }

  /** `s.includes(sub)`. */
  function Contains(s: string, sub: string): bool {
    StartsWith(s, sub) || (|s| > 0 && Contains(s[1..], sub))
  }

  /** The decimal digits of `n`, left-padded with zeros to `width`. */
  function PadDigits(n: nat, width: nat): (s: string)
    ensures |s| >= width
    decreases width + n
  {
    var digit := ['0', '1', '2', '3', '4', '5', '6', '7', '8', '9'][n % 10];
    if n < 10 && width <= 1 then [digit]
    else PadDigits(n / 10, if width > 0 then width - 1 else 0) + [digit]
  }

  /** `10^k`. */
  function Pow10(k: nat): (r: nat)
    ensures r >= 1
  {
    if k == 0 then 1 else 10 * Pow10(k - 1)
  }

  /** The number a string of decimal digits spells, most significant first. */
  function DigitsValue(s: string): int {
    if |s| == 0 then 0 else 10 * DigitsValue(s[..|s| - 1]) + (s[|s| - 1] as int - '0' as int)
  }

  /** A number below `10^width` takes exactly `width` characters. */
  lemma {:induction false} PadDigitsWidth(n: nat, width: nat)
    requires width >= 1 && n < Pow10(width)
    ensures |PadDigits(n, width)| == width
    decreases width
  {
    if !(n < 10 && width <= 1) {
      assert width >= 2;
      PadDigitsWidth(n / 10, width - 1);
    }
  }

  /** Every character of `PadDigits` is a decimal digit, and together they spell `n`. */
  lemma {:induction false} PadDigitsValue(n: nat, width: nat)
    ensures forall i :: 0 <= i < |PadDigits(n, width)| ==> '0' <= PadDigits(n, width)[i] <= '9'
    ensures DigitsValue(PadDigits(n, width)) == n
    decreases width + n
  {
    var s := PadDigits(n, width);
    var digit := ['0', '1', '2', '3', '4', '5', '6', '7', '8', '9'][n % 10];
    assert digit as int - '0' as int == n % 10;
    if n < 10 && width <= 1 {
      assert s == [digit];
      assert s[..0] == [];
    } else {
      var w := if width > 0 then width - 1 else 0;
      PadDigitsValue(n / 10, w);
      var p := PadDigits(n / 10, w);
      assert s == p + [digit];
      assert s[..|s| - 1] == p;
    }
  }

  /**
    The proleptic Gregorian (year, month, day) of a day number: the calendar
    that `toISOString` prints (days-from-civil algorithm, inverted).
  */
  function CivilFromDays(days: int): (int, int, int) {
    var z := days + 719468;
    var era := z / 146097;
    var doe := z - era * 146097;
    var yoe := (doe - doe / 1460 + doe / 36524 - doe / 146096) / 365;
    var doy := doe - (365 * yoe + yoe / 4 - yoe / 100);
    var mp := (5 * doy + 2) / 153;
    var d := doy - (153 * mp + 2) / 5 + 1;
    var m := if mp < 10 then mp + 3 else mp - 9;
    var y := yoe + era * 400;
    (if m <= 2 then y + 1 else y, m, d)
  }

  /** `toISOString().split('T')[0]` of a day: `YYYY-MM-DD` (six signed year digits outside 0..9999). */
  function IsoDate(day: int): (s: string)
    ensures |s| >= 10
  {
    var (y, m, d) := CivilFromDays(day);
    var year := if 0 <= y <= 9999 then PadDigits(y, 4)
                else (if y < 0 then "-" else "+") + PadDigits(Abs(y), 6);
    year + "-" + PadDigits(if m < 0 then 0 else m, 2) + "-" + PadDigits(if d < 0 then 0 else d, 2)
  }

  /** For a four-digit year and a two-digit month and day, the date is `YYYY-MM-DD`: ten characters, dashes at 4 and 7, digits elsewhere. */
  lemma IsoDateShape(day: int)
    requires 0 <= CivilFromDays(day).0 <= 9999
    requires 0 <= CivilFromDays(day).1 <= 99 && 0 <= CivilFromDays(day).2 <= 99
    ensures |IsoDate(day)| == 10 && IsoDate(day)[4] == '-' && IsoDate(day)[7] == '-'
    ensures forall i :: 0 <= i < 10 && i != 4 && i != 7 ==> '0' <= IsoDate(day)[i] <= '9'
    ensures DigitsValue(IsoDate(day)[..4]) == CivilFromDays(day).0
    ensures DigitsValue(IsoDate(day)[5..7]) == CivilFromDays(day).1
    ensures DigitsValue(IsoDate(day)[8..]) == CivilFromDays(day).2
  {
    var civil := CivilFromDays(day);
    var y, m, d := civil.0, civil.1, civil.2;
    assert IsoDate(day) == PadDigits(y, 4) + "-" + PadDigits(m, 2) + "-" + PadDigits(d, 2);
    DateTextShape(y, m, d);
  }

  /** The text `IsoDate` builds from a four-digit year and a two-digit month and day. */
  lemma DateTextShape(y: nat, m: nat, d: nat)
    requires y <= 9999 && m <= 99 && d <= 99
    ensures var s := PadDigits(y, 4) + "-" + PadDigits(m, 2) + "-" + PadDigits(d, 2);
      && |s| == 10 && s[4] == '-' && s[7] == '-'
      && (forall i :: 0 <= i < 10 && i != 4 && i != 7 ==> '0' <= s[i] <= '9')
      && DigitsValue(s[..4]) == y && DigitsValue(s[5..7]) == m && DigitsValue(s[8..]) == d
  {
    assert Pow10(4) == 10000 && Pow10(2) == 100 by {
      assert Pow10(1) == 10;
      assert Pow10(3) == 1000;
    }
    PadDigitsWidth(y, 4);
    PadDigitsWidth(m, 2);
    PadDigitsWidth(d, 2);
    PadDigitsValue(y, 4);
    PadDigitsValue(m, 2);
    PadDigitsValue(d, 2);
    DashedShape(PadDigits(y, 4), PadDigits(m, 2), PadDigits(d, 2));
  }

  /** Four digits, a dash, two digits, a dash and two digits. */
  lemma DashedShape(ys: string, ms: string, ds: string)
    requires |ys| == 4 && |ms| == 2 && |ds| == 2
    requires forall i :: 0 <= i < |ys| ==> '0' <= ys[i] <= '9'
    requires forall i :: 0 <= i < |ms| ==> '0' <= ms[i] <= '9'
    requires forall i :: 0 <= i < |ds| ==> '0' <= ds[i] <= '9'
    ensures var s := ys + "-" + ms + "-" + ds;
      && |s| == 10 && s[4] == '-' && s[7] == '-'
      && (forall i :: 0 <= i < 10 && i != 4 && i != 7 ==> '0' <= s[i] <= '9')
      && s[..4] == ys && s[5..7] == ms && s[8..] == ds
  {
    var s := ys + "-" + ms + "-" + ds;
    assert s[..4] == ys && s[5..7] == ms && s[8..] == ds;
    forall i | 0 <= i < 10 && i != 4 && i != 7
      ensures '0' <= s[i] <= '9'
    {
      if i < 4 {
        assert s[i] == ys[i];
      } else if i < 7 {
        assert s[i] == ms[i - 5];
      } else {
        assert s[i] == ds[i - 8];
      }
    }
  }

  lemma IsoDateEpoch()
    ensures IsoDate(0) == "1970-01-01"
  {
    CivilEpoch();
    EpochYearDigits();
    EpochDayDigits();
    assert "1970" + "-" + "01" + "-" + "01" == "1970-01-01";
  }

  lemma CivilEpoch()
    ensures CivilFromDays(0) == (1970, 1, 1)
  {
    assert 719468 / 146097 == 4;
    assert (135080 - 135080 / 1460 + 135080 / 36524 - 135080 / 146096) / 365 == 369;
    assert (5 * 306 + 2) / 153 == 10;
    assert (153 * 10 + 2) / 5 == 306;
  }

  lemma EpochDayDigits()
    ensures PadDigits(1, 2) == "01"
  {
    assert PadDigits(0, 1) == "0";
  }

  lemma EpochYearDigits()
    ensures PadDigits(1970, 4) == "1970"
  {
    assert PadDigits(1, 1) == "1";
    assert PadDigits(19, 2) == "19";
    assert PadDigits(197, 3) == "197";
  }
}
