/**
 * The month header of the contribution table: `calculateMonthSpan` counts, per
 * `YYYY-MM` key of each column's row-0 date, how many columns fall in that
 * month, keeping the keys in the order they are first met; each key is then
 * labelled through the fixed table of Russian month abbreviations.
 */
module MonthSpan {
  import opened Wrappers
  import opened JsString
  import opened JsDate
  import opened Grid

  /** Every column has a filled row 0, so `week[0].date` is defined. */
  predicate RowZeroFilled(table: seq<seq<Cell>>)
  {
    forall c :: 0 <= c < |table| ==> |table[c]| > 0 && table[c][0].Filled?
  }

  /** `week[0].date.slice(0, 7)`. */
  function MonthKey(week: seq<Cell>): string
    requires |week| > 0 && week[0].Filled?
  {
    Slice(week[0].date, 0, 7)
  }

  function MonthKeys(table: seq<seq<Cell>>): (keys: seq<string>)
    requires RowZeroFilled(table)
    ensures |keys| == |table|
  {
    seq(|table|, c requires 0 <= c < |table| => MonthKey(table[c]))
  }

  /** The distinct elements of `s`, in the order in which they first appear. */
  function FirstSeen<T(==, !new)>(s: seq<T>): (keys: seq<T>)
    ensures forall i, j :: 0 <= i < j < |keys| ==> keys[i] != keys[j]
    ensures forall k :: k in keys <==> k in s
  {
    if s == [] then []
    else
      var keys := FirstSeen(s[..|s| - 1]);
      assert forall k :: k in s <==> k in s[..|s| - 1] || k == s[|s| - 1];
      if s[|s| - 1] in keys then keys else keys + [s[|s| - 1]]
  }

  /** How many times `k` occurs in `s`. */
  function Occurrences<T(==, !new)>(s: seq<T>, k: T): nat
  {
    if s == [] then 0
    else Occurrences(s[..|s| - 1], k) + (if s[|s| - 1] == k then 1 else 0)
  }

  /** The sum of `spans[k]` over `keys`. */
  function TotalSpan<T(==, !new)>(keys: seq<T>, spans: map<T, int>): int
    requires forall k :: k in keys ==> k in spans
  {
    if keys == [] then 0 else TotalSpan(keys[..|keys| - 1], spans) + spans[keys[|keys| - 1]]
  }

  /**
   * Lines 67-77. `keys` is the insertion order of the `spanData` object, which is
   * the order `Object.keys` lists it in since no key looks like an array index.
   */
  method CalculateMonthSpan(tableData: seq<seq<Cell>>) returns (keys: seq<string>, spanData: map<string, int>)
    requires RowZeroFilled(tableData)
    ensures keys == FirstSeen(MonthKeys(tableData))
    ensures forall k :: k in spanData <==> k in keys
    ensures forall k :: k in spanData ==> spanData[k] == Occurrences(MonthKeys(tableData), k)
    ensures TotalSpan(keys, spanData) == |tableData|
  {
    ghost var all := MonthKeys(tableData);
    keys, spanData := [], map[];
    ghost var seen: seq<string> := [];
    var c := 0;
    while c < |tableData|
      invariant 0 <= c <= |tableData|
      invariant |seen| == c && forall i :: 0 <= i < c ==> seen[i] == all[i]
      invariant Tally(keys, spanData, seen)
    {
      var month := MonthKey(tableData[c]);
      assert month == all[c];
      ghost var keys0, spans0 := keys, spanData;
      if month !in spanData || spanData[month] == 0 {
        if month !in spanData {
          keys := keys + [month];
        }
        spanData := spanData[month := 0];
      }
      spanData := spanData[month := spanData[month] + 1];
      CountStep(seen, month, keys0, spans0, keys, spanData);
      seen := seen + [month];
      c := c + 1;
    }
    assert seen == all;
    TotalSpanOfOccurrences(keys, spanData, all);
    OccurrencesSumToLength(all);
  }

  /** `keys` lists the distinct elements of `seen` in first-seen order and `spans` counts them. */
  ghost predicate Tally<T(!new)>(keys: seq<T>, spans: map<T, int>, seen: seq<T>)
  {
    && keys == FirstSeen(seen)
    && (forall k :: k in spans <==> k in keys)
    && (forall k :: k in spans ==> spans[k] == Occurrences(seen, k))
  }

  /** One iteration of the loop keeps the keys and the counts in step with the columns seen. */
  lemma CountStep<T(!new)>(seen: seq<T>, month: T, keys: seq<T>, spans: map<T, int>,
                           keys': seq<T>, spans': map<T, int>)
    requires Tally(keys, spans, seen)
    requires keys' == if month in spans then keys else keys + [month]
    requires forall k :: k in spans' <==> k in spans || k == month
    requires forall k :: k in spans && k != month ==> spans'[k] == spans[k]
    requires month in spans' && spans'[month] == (if month in spans then spans[month] else 0) + 1
    ensures Tally(keys', spans', seen + [month])
  {
    FirstSeenAppend(seen, month);
    OccurrencesAppend(seen, month);
    if month !in spans {
      NoOccurrences(seen, month);
    }
  }

  lemma FirstSeenAppend<T(!new)>(p: seq<T>, x: T)
    ensures FirstSeen(p + [x]) == if x in FirstSeen(p) then FirstSeen(p) else FirstSeen(p) + [x]
  {
    assert (p + [x])[..|p|] == p;
  }

  lemma OccurrencesAppend<T(!new)>(p: seq<T>, x: T)
    ensures forall k :: Occurrences(p + [x], k) == Occurrences(p, k) + (if x == k then 1 else 0)
  {
    assert (p + [x])[..|p|] == p;
  }

  /** Summing the spans of the keys is summing their occurrence counts. */
  lemma {:induction false} TotalSpanOfOccurrences<T(!new)>(keys: seq<T>, spans: map<T, int>, s: seq<T>)
    requires forall k :: k in keys ==> k in spans && spans[k] == Occurrences(s, k)
    ensures TotalSpan(keys, spans) == SumOccurrences(keys, s)
  {
    if keys != [] {
      TotalSpanOfOccurrences(keys[..|keys| - 1], spans, s);
    }
  }

  function SumOccurrences<T(==, !new)>(keys: seq<T>, s: seq<T>): int
  {
    if keys == [] then 0 else SumOccurrences(keys[..|keys| - 1], s) + Occurrences(s, keys[|keys| - 1])
  }

  /** Each element of `s` is counted under exactly one first-seen key. */
  lemma {:induction false} OccurrencesSumToLength<T(!new)>(s: seq<T>)
    ensures SumOccurrences(FirstSeen(s), s) == |s|
  {
    if s != [] {
      var p, x := s[..|s| - 1], s[|s| - 1];
      var keys := FirstSeen(p);
      OccurrencesSumToLength(p);
      SumOccurrencesAppend(keys, p, x);
      assert p + [x] == s;
      if x !in keys {
        NoOccurrences(p, x);
      }
    }
  }

  /** Appending `x` adds one to the sum when `x` is among distinct `keys`, else nothing. */
  lemma {:induction false} SumOccurrencesAppend<T(!new)>(keys: seq<T>, p: seq<T>, x: T)
    requires forall i, j :: 0 <= i < j < |keys| ==> keys[i] != keys[j]
    ensures SumOccurrences(keys, p + [x]) == SumOccurrences(keys, p) + (if x in keys then 1 else 0)
  {
    if keys != [] {
      var init := keys[..|keys| - 1];
      SumOccurrencesAppend(init, p, x);
      assert (p + [x])[..|p|] == p;
      assert x in keys <==> x in init || x == keys[|keys| - 1];
    }
  }

  lemma {:induction false} NoOccurrences<T(!new)>(s: seq<T>, k: T)
    requires k !in s
    ensures Occurrences(s, k) == 0
  {
    if s != [] {
      NoOccurrences(s[..|s| - 1], k);
    }
  }

  /** The header's month abbreviations, keyed by the two-digit month. */
  const MonthNamesInRussian: map<string, string> := map[
    "01" := "Янв.", "02" := "Февр.", "03" := "Март", "04" := "Апр.",
    "05" := "Май", "06" := "Июнь", "07" := "Июль", "08" := "Авг.",
    "09" := "Сент.", "10" := "Окт.", "11" := "Нояб.", "12" := "Дек."]

  /** The same abbreviations in calendar order, January first. */
  const MonthNames: seq<string> :=
    ["Янв.", "Февр.", "Март", "Апр.", "Май", "Июнь", "Июль", "Авг.", "Сент.", "Окт.", "Нояб.", "Дек."]

  /** `monthNamesInRussian[month.slice(-2)]`; `None` is JavaScript's `undefined`. */
  function MonthLabel(month: string): Option<string>
  {
    var mm := SliceLast(month, 2);
    if mm in MonthNamesInRussian then Some(MonthNamesInRussian[mm]) else None
  }

  /** The `YYYY-MM` key `toISOString` gives a date whose year has four digits. */
  function KeyOf(d: Date): string
    requires 0 <= d.year <= 9999 && 1 <= d.month <= 12
  {
    FixedDigits(d.year, 4) + "-" + FixedDigits(d.month, 2)
  }

  /** Orders well-formed `YYYY-MM` keys by the month they name; anything else ranks 0. */
  function KeyOrdinal(key: string): int
  {
    if |key| == 7 && AllDigits(key[..4]) && key[4] == '-' && AllDigits(key[5..])
    then 12 * ParseDigits(key[..4]) + ParseDigits(key[5..]) - 1
    else 0
  }

  /** A label exists exactly when the key ends in a month number 01..12, and it names that month. */
  lemma MonthLabelDefined(month: string)
    ensures MonthLabel(month).Some? <==>
      |month| >= 2 && AllDigits(month[|month| - 2..]) && 1 <= ParseDigits(month[|month| - 2..]) <= 12
    ensures MonthLabel(month).Some? ==>
      MonthLabel(month).value == MonthNames[ParseDigits(month[|month| - 2..]) - 1]
  {
    var mm := SliceLast(month, 2);
    if |month| >= 2 {
      assert mm == month[|month| - 2..];
      if AllDigits(mm) {
        var n := ParseDigits(mm);
        TwoDigitsOf(mm);
        if 1 <= n <= 12 {
          assert mm == FixedDigits(n, 2);
          MonthKeyName(n);
        } else {
          assert mm !in MonthNamesInRussian;
        }
      }
    }
  }

  lemma TwoDigitsOf(mm: string)
    requires |mm| == 2 && AllDigits(mm)
    ensures ParseDigits(mm) == DigitValue(mm[0]) * 10 + DigitValue(mm[1])
    ensures mm == FixedDigits(ParseDigits(mm), 2)
  {
    var first := mm[..1];
    assert first[..0] == "";
    assert ParseDigits(first) == DigitValue(mm[0]);
    var n := ParseDigits(mm);
    assert DigitChar(n % 10) == mm[1];
    assert DigitChar(n / 10 % 10) == mm[0];
  }

  /** The two-digit form of month `n` is a key of the table and names the `n`-th month. */
  lemma MonthKeyName(n: int)
    requires 1 <= n <= 12
    ensures FixedDigits(n, 2) in MonthNamesInRussian
    ensures MonthNamesInRussian[FixedDigits(n, 2)] == MonthNames[n - 1]
  {
    assert FixedDigits(n, 2) == [DigitChar(n / 10 % 10), DigitChar(n % 10)];
  }

  /** The first seven characters of the ISO date are the date's month key. */
  lemma IsoMonthKey(d: Date)
    requires Valid(d) && 0 <= d.year <= 9999
    ensures Slice(ToIsoDate(d), 0, 7) == KeyOf(d)
  {
    var key := KeyOf(d);
    assert ToIsoDate(d) == key + "-" + FixedDigits(d.day, 2);
    assert (key + "-" + FixedDigits(d.day, 2))[..7] == key;
  }

  /** Reading a key back gives the month index of the date it came from. */
  lemma KeyOrdinalOf(d: Date)
    requires 0 <= d.year <= 9999 && 1 <= d.month <= 12
    ensures KeyOrdinal(KeyOf(d)) == MonthIndex(d)
  {
    var y, m := FixedDigits(d.year, 4), FixedDigits(d.month, 2);
    var key := y + "-" + m;
    assert key[..4] == y && key[5..] == m;
    assert Pow10(2) == 100 && Pow10(4) == 10000;
    ParseFixedDigits(d.year, 4);
    ParseFixedDigits(d.month, 2);
  }

  /**
   * When `rank` never decreases along `s` and tells apart different elements,
   * the first-seen keys come out in strictly increasing rank.
   */
  lemma {:induction false} FirstSeenAscending<T(!new)>(s: seq<T>, rank: T -> int)
    requires forall i, j :: 0 <= i <= j < |s| ==> rank(s[i]) <= rank(s[j])
    requires forall i, j :: 0 <= i < |s| && 0 <= j < |s| && rank(s[i]) == rank(s[j]) ==> s[i] == s[j]
    ensures var keys := FirstSeen(s);
      forall i, j :: 0 <= i < j < |keys| ==> rank(keys[i]) < rank(keys[j])
  {
    if s != [] {
      var p, x := s[..|s| - 1], s[|s| - 1];
      assert s == p + [x];
      FirstSeenAscending(p, rank);
      FirstSeenAppend(p, x);
      var keys := FirstSeen(p);
      if x !in keys {
        forall i | 0 <= i < |keys|
          ensures rank(keys[i]) < rank(x)
        {
          assert keys[i] in p;
          var a :| 0 <= a < |p| && p[a] == keys[i];
          assert s[a] == keys[i];
        }
      }
    }
  }

  /** The date in row 0 of column `c`, the one the column's month key is taken from. */
  function RowZeroDay(today: Date, c: int): Date
    requires Valid(today) && 0 <= c < Columns
  {
    DaysBefore(today, CellAge(today, c, 0))
  }

  lemma RowZeroDayInRange(today: Date, c: int)
    requires Valid(today) && 1 <= today.year <= 9999 && 0 <= c < Columns
    ensures 0 <= CellAge(today, c, 0) <= 7 * (Columns - 1) + 6
    ensures 0 <= RowZeroDay(today, c).year <= 9999
  {
    var d := RowZeroDay(today, c);
    DaysBeforeDayNumber(today, CellAge(today, c, 0));
    YearOrder(d, today);
    DayNumberWithinYear(today);
    DaysBeforeYearMonotone(1, today.year);
    YearOrder(Date(0, 1, 1), d);
  }

  /** Column `c` of the grid is keyed by the month of its row-0 date. */
  lemma GridMonthKey(today: Date, data: seq<Entry>, c: int)
    requires Valid(today) && 1 <= today.year <= 9999 && 0 <= c < Columns
    ensures RowZeroFilled(TableData(today, data))
    ensures var d := RowZeroDay(today, c);
      0 <= d.year <= 9999 && MonthKeys(TableData(today, data))[c] == KeyOf(d)
      && KeyOrdinal(KeyOf(d)) == MonthIndex(d)
  {
    GridRowZeroFilled(today, data);
    GridAt(today, data, c, 0);
    RowZeroDayInRange(today, c);
    IsoMonthKey(RowZeroDay(today, c));
    KeyOrdinalOf(RowZeroDay(today, c));
  }

  lemma GridRowZeroFilled(today: Date, data: seq<Entry>)
    requires Valid(today)
    ensures RowZeroFilled(TableData(today, data))
  {
    GridShape(today, data);
  }

  /** Column `c`'s key is labelled. */
  lemma GridMonthLabel(today: Date, data: seq<Entry>, c: int)
    requires Valid(today) && 1 <= today.year <= 9999 && 0 <= c < Columns
    ensures RowZeroFilled(TableData(today, data))
    ensures MonthLabel(MonthKeys(TableData(today, data))[c]).Some?
  {
    GridMonthKey(today, data, c);
    var d := RowZeroDay(today, c);
    var key := KeyOf(d);
    MonthLabelDefined(key);
    assert key[|key| - 2..] == FixedDigits(d.month, 2);
    assert Pow10(2) == 100;
    ParseFixedDigits(d.month, 2);
  }

  /** Keys of later columns never rank before keys of earlier ones. */
  lemma GridMonthKeysOrdered(today: Date, data: seq<Entry>, i: int, j: int)
    requires Valid(today) && 1 <= today.year <= 9999 && 0 <= i <= j < Columns
    ensures RowZeroFilled(TableData(today, data))
    ensures var s := MonthKeys(TableData(today, data));
      KeyOrdinal(s[i]) <= KeyOrdinal(s[j]) && (KeyOrdinal(s[i]) == KeyOrdinal(s[j]) ==> s[i] == s[j])
  {
    GridMonthKey(today, data, i);
    GridMonthKey(today, data, j);
    var di, dj := RowZeroDay(today, i), RowZeroDay(today, j);
    DaysBeforeMonthMonotone(today, CellAge(today, j, 0), CellAge(today, i, 0));
    if MonthIndex(di) == MonthIndex(dj) {
      SameMonthKey(di, dj);
    }
  }

  /** Dates in the same month share a key. */
  lemma SameMonthKey(d: Date, e: Date)
    requires 0 <= d.year <= 9999 && 1 <= d.month <= 12
    requires 0 <= e.year <= 9999 && 1 <= e.month <= 12
    requires MonthIndex(d) == MonthIndex(e)
    ensures KeyOf(d) == KeyOf(e)
  {
    assert d.year == e.year;
  }

  /**
   * For a today with a four-digit year, the header's months run strictly forward
   * in time and each one has a label.
   */
  lemma GridMonthHeader(today: Date, data: seq<Entry>)
    requires Valid(today) && 1 <= today.year <= 9999
    ensures RowZeroFilled(TableData(today, data))
    ensures var keys := FirstSeen(MonthKeys(TableData(today, data)));
      && (forall i, j :: 0 <= i < j < |keys| ==> KeyOrdinal(keys[i]) < KeyOrdinal(keys[j]))
      && (forall i :: 0 <= i < |keys| ==> MonthLabel(keys[i]).Some?)
  {
    GridRowZeroFilled(today, data);
    var s := MonthKeys(TableData(today, data));
    forall i, j | 0 <= i <= j < |s|
      ensures KeyOrdinal(s[i]) <= KeyOrdinal(s[j])
    {
      GridMonthKeysOrdered(today, data, i, j);
    }
    forall i, j | 0 <= i < |s| && 0 <= j < |s| && KeyOrdinal(s[i]) == KeyOrdinal(s[j])
      ensures s[i] == s[j]
    {
      if i <= j {
        GridMonthKeysOrdered(today, data, i, j);
      } else {
        GridMonthKeysOrdered(today, data, j, i);
      }
    }
    FirstSeenAscending(s, KeyOrdinal);
    var keys := FirstSeen(s);
    forall i | 0 <= i < |keys|
      ensures MonthLabel(keys[i]).Some?
    {
      assert keys[i] in s;
      var c :| 0 <= c < |s| && s[c] == keys[i];
      GridMonthLabel(today, data, c);
    }
  }
}
