/**
 * The part of JavaScript's `Date` that the table uses: a calendar date in the
 * proleptic Gregorian calendar, its weekday (`getDay`), the one-day step back
 * (`setDate(getDate() - 1)`) and the date part of `toISOString()`.
 */
module JsDate {
  import opened Wrappers
  import opened JsString

  datatype Date = Date(year: int, month: int, day: int)

  predicate IsLeapYear(y: int)
  {
    y % 4 == 0 && (y % 100 != 0 || y % 400 == 0)
  }

  function DaysInMonth(y: int, m: int): (n: int)
    requires 1 <= m <= 12
    ensures 28 <= n <= 31
  {
    if m == 2 then (if IsLeapYear(y) then 29 else 28)
    else if m == 4 || m == 6 || m == 9 || m == 11 then 30
    else 31
  }

  predicate Valid(d: Date)
  {
    1 <= d.month <= 12 && 1 <= d.day <= DaysInMonth(d.year, d.month)
  }

  /** Days from 0001-01-01 to the first of January of year `y`. */
  function DaysBeforeYear(y: int): int
  {
    365 * (y - 1) + (y - 1) / 4 - (y - 1) / 100 + (y - 1) / 400
  }

  /** Days from the first of January of year `y` to the first of month `m`. */
  function DaysBeforeMonth(y: int, m: int): int
    requires 1 <= m <= 12
  {
    [0, 31, 59, 90, 120, 151, 181, 212, 243, 273, 304, 334][m - 1]
    + (if m > 2 && IsLeapYear(y) then 1 else 0)
  }

  /** Days since 0001-01-01, which was a Monday. */
  function DayNumber(d: Date): int
    requires Valid(d)
  {
    DaysBeforeYear(d.year) + DaysBeforeMonth(d.year, d.month) + d.day - 1
  }

  /** Months since January of year 0: orders dates by their year and month. */
  function MonthIndex(d: Date): int
  {
    12 * d.year + d.month - 1
  }

  /** `getDay()`: 0 for Sunday, 1 for Monday, ..., 6 for Saturday. */
  function GetDay(d: Date): (r: int)
    requires Valid(d)
    ensures 0 <= r < 7
  {
    (DayNumber(d) + 1) % 7
  }

  /** `setDate(getDate() - 1)`: the day before, rolling back over month and year ends. */
  function PreviousDay(d: Date): (p: Date)
    requires Valid(d)
    ensures Valid(p)
    ensures MonthIndex(p) == MonthIndex(d) || MonthIndex(p) == MonthIndex(d) - 1
  {
    if d.day > 1 then Date(d.year, d.month, d.day - 1)
    else if d.month > 1 then Date(d.year, d.month - 1, DaysInMonth(d.year, d.month - 1))
    else Date(d.year - 1, 12, 31)
  }

  lemma YearLength(y: int)
    ensures DaysBeforeYear(y + 1) == DaysBeforeYear(y) + (if IsLeapYear(y) then 366 else 365)
  {
    assert y / 4 - (y - 1) / 4 == if y % 4 == 0 then 1 else 0;
    assert y / 100 - (y - 1) / 100 == if y % 100 == 0 then 1 else 0;
    assert y / 400 - (y - 1) / 400 == if y % 400 == 0 then 1 else 0;
    assert y % 400 == 0 ==> y % 100 == 0;
    assert y % 100 == 0 ==> y % 4 == 0;
  }

  /** Stepping back one day lowers the day number by exactly one. */
  lemma PreviousDayIsOneDayEarlier(d: Date)
    requires Valid(d)
    ensures DayNumber(PreviousDay(d)) == DayNumber(d) - 1
  {
    if d.day == 1 {
      if d.month == 1 {
        YearLength(d.year - 1);
      }
    }
  }

  /** The date `n` days before `d`: the cursor after `n` steps back. */
  function DaysBefore(d: Date, n: nat): (r: Date)
    requires Valid(d)
    ensures Valid(r)
  {
    if n == 0 then d else PreviousDay(DaysBefore(d, n - 1))
  }

  lemma {:induction false} DaysBeforeDayNumber(d: Date, n: nat)
    requires Valid(d)
    ensures DayNumber(DaysBefore(d, n)) == DayNumber(d) - n
  {
    if n == 0 {
    } else {
      var k := n - 1;
      DaysBeforeDayNumber(d, k);
      DaysBeforeOneMore(d, n);
      var a, b := DayNumber(DaysBefore(d, n)), DayNumber(DaysBefore(d, k));
      assert a == b - 1 && b == DayNumber(d) - k;
    }
  }

  lemma DaysBeforeOneMore(d: Date, n: nat)
    requires Valid(d) && n > 0
    ensures DayNumber(DaysBefore(d, n)) == DayNumber(DaysBefore(d, n - 1)) - 1
  {
    PreviousDayIsOneDayEarlier(DaysBefore(d, n - 1));
  }

  /** Going further back never moves to a later month. */
  lemma {:induction false} DaysBeforeMonthMonotone(d: Date, m: nat, n: nat)
    requires Valid(d) && m <= n
    ensures MonthIndex(DaysBefore(d, n)) <= MonthIndex(DaysBefore(d, m))
    decreases n
  {
    if m < n {
      DaysBeforeMonthMonotone(d, m, n - 1);
    }
  }

  lemma {:induction false} DaysBeforeYearMonotone(a: int, b: int)
    requires a <= b
    ensures DaysBeforeYear(a) <= DaysBeforeYear(b)
    decreases b - a
  {
    if a < b {
      DaysBeforeYearMonotone(a, b - 1);
      YearLength(b - 1);
    }
  }

  /** A date's day number lies within its own year. */
  lemma DayNumberWithinYear(d: Date)
    requires Valid(d)
    ensures DaysBeforeYear(d.year) <= DayNumber(d) < DaysBeforeYear(d.year + 1)
  {
    YearLength(d.year);
  }

  /** An earlier or equal day number never belongs to a later year. */
  lemma YearOrder(d: Date, e: Date)
    requires Valid(d) && Valid(e) && DayNumber(d) <= DayNumber(e)
    ensures d.year <= e.year
  {
    if d.year > e.year {
      DayNumberWithinYear(d);
      DayNumberWithinYear(e);
      DaysBeforeYearMonotone(e.year + 1, d.year);
    }
  }

  /** The year as `toISOString` writes it: four digits, or a sign and six digits. */
  function YearField(y: int): string
  {
    if 0 <= y <= 9999 then FixedDigits(y, 4)
    else if y < 0 then "-" + FixedDigits(-y, 6)
    else "+" + FixedDigits(y, 6)
  }

  /** `toISOString().split('T')[0]`: the `YYYY-MM-DD` date part. */
  function ToIsoDate(d: Date): string
    requires Valid(d)
  {
    YearField(d.year) + "-" + FixedDigits(d.month, 2) + "-" + FixedDigits(d.day, 2)
  }

  /** Reads a date part in either of the two shapes `ToIsoDate` produces. */
  function ParseIsoDate(s: string): Option<Date>
  {
    if |s| == 10 && s[4] == '-' && s[7] == '-'
       && AllDigits(s[..4]) && AllDigits(s[5..7]) && AllDigits(s[8..])
    then
      Some(Date(ParseDigits(s[..4]), ParseDigits(s[5..7]), ParseDigits(s[8..])))
    else if |s| == 13 && (s[0] == '+' || s[0] == '-') && s[7] == '-' && s[10] == '-'
       && AllDigits(s[1..7]) && AllDigits(s[8..10]) && AllDigits(s[11..])
    then
      var y: int := ParseDigits(s[1..7]);
      Some(Date(if s[0] == '-' then -y else y, ParseDigits(s[8..10]), ParseDigits(s[11..])))
    else
      None
  }

  /** Every date within `toISOString`'s six-digit year range reads back unchanged. */
  lemma IsoDateRoundTrip(d: Date)
    requires Valid(d) && -999999 <= d.year <= 999999
    ensures ParseIsoDate(ToIsoDate(d)) == Some(d)
  {
    MonthDayDigits(d);
    if 0 <= d.year <= 9999 {
      ShortIsoRoundTrip(d);
    } else {
      LongIsoRoundTrip(d);
    }
  }

  lemma MonthDayDigits(d: Date)
    requires Valid(d)
    ensures ParseDigits(FixedDigits(d.month, 2)) == d.month && ParseDigits(FixedDigits(d.day, 2)) == d.day
  {
    assert Pow10(2) == 100;
    ParseFixedDigits(d.month, 2);
    ParseFixedDigits(d.day, 2);
  }

  lemma ShortIsoRoundTrip(d: Date)
    requires Valid(d) && 0 <= d.year <= 9999
    requires ParseDigits(FixedDigits(d.month, 2)) == d.month && ParseDigits(FixedDigits(d.day, 2)) == d.day
    ensures ParseIsoDate(ToIsoDate(d)) == Some(d)
  {
    var y := FixedDigits(d.year, 4);
    assert Pow10(4) == 10000;
    ParseFixedDigits(d.year, 4);
    ParseShortIso(y, FixedDigits(d.month, 2), FixedDigits(d.day, 2));
  }

  lemma LongIsoRoundTrip(d: Date)
    requires Valid(d) && -999999 <= d.year <= 999999 && !(0 <= d.year <= 9999)
    requires ParseDigits(FixedDigits(d.month, 2)) == d.month && ParseDigits(FixedDigits(d.day, 2)) == d.day
    ensures ParseIsoDate(ToIsoDate(d)) == Some(d)
  {
    var sign := if d.year < 0 then '-' else '+';
    var y := FixedDigits(if d.year < 0 then -d.year else d.year, 6);
    assert Pow10(6) == 1000000;
    ParseFixedDigits(if d.year < 0 then -d.year else d.year, 6);
    var m, dd := FixedDigits(d.month, 2), FixedDigits(d.day, 2);
    assert YearField(d.year) == [sign] + y;
    assert ToIsoDate(d) == [sign] + y + "-" + m + "-" + dd;
    ParseLongIso(sign, y, m, dd);
    assert d.year == if sign == '-' then 0 - ParseDigits(y) as int else ParseDigits(y);
  }

  lemma ParseShortIso(y: string, m: string, d: string)
    requires |y| == 4 && |m| == 2 && |d| == 2 && AllDigits(y) && AllDigits(m) && AllDigits(d)
    ensures ParseIsoDate(y + "-" + m + "-" + d)
            == Some(Date(ParseDigits(y), ParseDigits(m), ParseDigits(d)))
  {
    var s := y + "-" + m + "-" + d;
    assert |s| == 10 && s[4] == '-' && s[7] == '-';
    assert s[..4] == y && s[5..7] == m && s[8..] == d;
  }

  lemma ParseLongIso(sign: char, y: string, m: string, d: string)
    requires sign == '+' || sign == '-'
    requires |y| == 6 && |m| == 2 && |d| == 2 && AllDigits(y) && AllDigits(m) && AllDigits(d)
    ensures ParseIsoDate([sign] + y + "-" + m + "-" + d)
            == Some(Date(if sign == '-' then 0 - ParseDigits(y) as int else ParseDigits(y),
                         ParseDigits(m), ParseDigits(d)))
  {
    var p1 := [sign] + y;
    var p2 := p1 + "-";
    var p3 := p2 + m;
    var p4 := p3 + "-";
    var s := p4 + d;
    assert |s| == 13;
    assert s[..11] == p4 && s[11..] == d;
    assert p4[..10] == p3 && p3[..8] == p2 && p3[8..] == m && p2[..7] == p1 && p1[1..] == y;
    assert s[8..10] == m by { assert s[8..10] == p4[8..10] == p3[8..]; }
    assert s[1..7] == y by { assert s[1..7] == p2[1..7] == p1[1..]; }
    assert s[0] == sign && s[7] == '-' && s[10] == '-';
    ParseLongShape(s, y, m, d);
  }

  lemma ParseLongShape(s: string, y: string, m: string, d: string)
    requires |s| == 13 && (s[0] == '+' || s[0] == '-') && s[7] == '-' && s[10] == '-'
    requires s[1..7] == y && s[8..10] == m && s[11..] == d
    requires AllDigits(y) && AllDigits(m) && AllDigits(d)
    ensures ParseIsoDate(s) == Some(Date(if s[0] == '-' then 0 - ParseDigits(y) as int else ParseDigits(y),
                                         ParseDigits(m), ParseDigits(d)))
  {
  }

  /** Distinct dates never share an ISO date string. */
  lemma IsoDateInjective(d1: Date, d2: Date)
    requires Valid(d1) && -999999 <= d1.year <= 999999
    requires Valid(d2) && -999999 <= d2.year <= 999999
    requires ToIsoDate(d1) == ToIsoDate(d2)
    ensures d1 == d2
  {
    IsoDateRoundTrip(d1);
    IsoDateRoundTrip(d2);
  }
}
