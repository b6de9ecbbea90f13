/**
 * The heatmap grid of the contribution table (`generateTableData`): 51 week
 * columns of 7 rows, Monday first, ending with the column that holds today.
 * Each filled cell carries a date string and the count the fetched data gives
 * for that date; cells after today in the newest column keep the `{}`
 * placeholder.
 */
module Grid {
  import opened Wrappers
  import opened JsDate

  /** One `[date, count]` pair of the fetched data (`Object.entries` of the JSON). */
  type Entry = (string, int)

  /** A grid cell: the placeholder `{}` or a `{date, count}` object. */
  datatype Cell = Empty | Filled(date: string, count: int)

  const Columns: nat := 51
  const Rows: nat := 7

  /** `i` is the first entry of `data` whose date is `date`. */
  predicate FirstMatchAt(data: seq<Entry>, date: string, i: int)
  {
    0 <= i < |data| && data[i].0 == date && forall j :: 0 <= j < i ==> data[j].0 != date
  }

  /** `data.find(([d]) => d === date)`. */
  function Find(data: seq<Entry>, date: string): Option<Entry>
  {
    if data == [] then None
    else if data[0].0 == date then Some(data[0])
    else Find(data[1..], date)
  }

  /** `Find` yields the first entry for `date`, and nothing exactly when there is none. */
  lemma {:induction false} FindFirstMatch(data: seq<Entry>, date: string)
    ensures Find(data, date).None? <==> forall i :: 0 <= i < |data| ==> data[i].0 != date
    ensures Find(data, date).Some? ==> exists i :: FirstMatchAt(data, date, i) && data[i] == Find(data, date).value
  {
    if data == [] {
    } else if data[0].0 == date {
      assert FirstMatchAt(data, date, 0);
    } else {
      FindFirstMatch(data[1..], date);
      assert forall i :: 0 <= i < |data| - 1 ==> data[1..][i] == data[i + 1];
      if Find(data[1..], date).Some? {
        var i :| FirstMatchAt(data[1..], date, i) && data[1..][i] == Find(data[1..], date).value;
        assert FirstMatchAt(data, date, i + 1);
      }
    }
  }

  /**
   * Lines 36-37: the count a cell shows for `date`, that of the first matching
   * entry, or 0 when no entry matches.
   */
  function CountFor(data: seq<Entry>, date: string): int
  {
    var contribution := Find(data, date);
    if contribution.Some? then contribution.value.1 else 0
  }

  /** The count is that of the first entry for `date`, or 0 when there is none. */
  lemma CountForFirstMatch(data: seq<Entry>, date: string)
    ensures (forall i :: 0 <= i < |data| ==> data[i].0 != date) ==> CountFor(data, date) == 0
    ensures forall i :: FirstMatchAt(data, date, i) ==> CountFor(data, date) == data[i].1
  {
    FindFirstMatch(data, date);
  }

  /** Entries for other dates never change the count of `date`. */
  lemma CountForIgnoresOtherDates(data: seq<Entry>, date: string, i: int)
    requires 0 <= i < |data| && data[i].0 != date
    ensures CountFor(data[..i] + data[i + 1..], date) == CountFor(data, date)
  {
    var rest := data[..i] + data[i + 1..];
    CountForFirstMatch(data, date);
    CountForFirstMatch(rest, date);
    if k :| FirstMatchAt(data, date, k) {
      RemovalKeepsFirstMatch(data, rest, date, i, k);
    } else {
      NoFirstMatch(data, date);
      RemovalKeepsNoMatch(data, rest, date, i);
    }
  }

  /** Removing entry `i` shifts the later entries down by one. */
  lemma Removal(data: seq<Entry>, rest: seq<Entry>, i: int)
    requires 0 <= i < |data| && rest == data[..i] + data[i + 1..]
    ensures |rest| == |data| - 1 && forall j :: 0 <= j < |rest| ==> rest[j] == data[if j < i then j else j + 1]
  {
  }

  lemma RemovalKeepsFirstMatch(data: seq<Entry>, rest: seq<Entry>, date: string, i: int, k: int)
    requires 0 <= i < |data| && rest == data[..i] + data[i + 1..]
    requires data[i].0 != date && FirstMatchAt(data, date, k)
    ensures FirstMatchAt(rest, date, if k < i then k else k - 1)
    ensures rest[if k < i then k else k - 1] == data[k]
  {
    Removal(data, rest, i);
  }

  lemma RemovalKeepsNoMatch(data: seq<Entry>, rest: seq<Entry>, date: string, i: int)
    requires 0 <= i < |data| && rest == data[..i] + data[i + 1..]
    requires forall j :: 0 <= j < |data| ==> data[j].0 != date
    ensures forall j :: 0 <= j < |rest| ==> rest[j].0 != date
  {
    Removal(data, rest, i);
  }

  /** Without a first match there is no match at all. */
  lemma NoFirstMatch(data: seq<Entry>, date: string)
    requires forall k :: !FirstMatchAt(data, date, k)
    ensures forall j :: 0 <= j < |data| ==> data[j].0 != date
  {
    forall j | 0 <= j < |data| && data[j].0 == date
      ensures false
    {
      FirstMatchExists(data, date, j);
    }
  }

  /** Entries after the first match never change the count. */
  lemma CountForIgnoresLaterEntries(data: seq<Entry>, extra: seq<Entry>, date: string, i: int)
    requires FirstMatchAt(data, date, i)
    ensures CountFor(data + extra, date) == data[i].1
  {
    assert FirstMatchAt(data + extra, date, i);
    CountForFirstMatch(data + extra, date);
  }

  lemma {:induction false} FirstMatchExists(data: seq<Entry>, date: string, j: int)
    requires 0 <= j < |data| && data[j].0 == date
    ensures exists k :: FirstMatchAt(data, date, k)
    decreases j
  {
    if !FirstMatchAt(data, date, j) {
      var j' :| 0 <= j' < j && data[j'].0 == date;
      FirstMatchExists(data, date, j');
    }
  }

  /** Line 29: `(getDay() + 6) % 7` turns Sunday-first weekdays into Monday-first ones. */
  function MondayFirst(jsDay: int): (r: int)
    requires 0 <= jsDay < 7
    ensures 0 <= r < 7 && (r + 1) % 7 == jsDay
    ensures jsDay == 1 ==> r == 0
    ensures jsDay == 0 ==> r == 6
  {
    (jsDay + 6) % 7
  }

  /** The row of `today` in the newest column. */
  function TodayRow(today: Date): int
    requires Valid(today)
  {
    MondayFirst(GetDay(today))
  }

  /** The Monday-first row of a date is its day number modulo 7. */
  lemma TodayRowIsDayNumberMod7(d: Date)
    requires Valid(d)
    ensures TodayRow(d) == DayNumber(d) % 7
  {
    ShiftBackByOne(DayNumber(d));
  }

  lemma ShiftBackByOne(n: int)
    ensures ((n + 1) % 7 + 6) % 7 == n % 7
  {
  }

  /** The cell for the day `n` days before `today`. */
  function DayCell(today: Date, data: seq<Entry>, n: nat): Cell
    requires Valid(today)
  {
    var date := ToIsoDate(DaysBefore(today, n));
    Filled(date, CountFor(data, date))
  }

  /**
   * The `k`-th column the loop pushes (0 is the newest week): row `r` holds the day
   * `7 * k + w - r` days before today, except the rows after today in column 0.
   */
  function PushedColumn(today: Date, data: seq<Entry>, k: nat): seq<Cell>
    requires Valid(today)
  {
    var w := TodayRow(today);
    seq(Rows, r requires 0 <= r < Rows =>
      if k == 0 && r > w then Empty else DayCell(today, data, 7 * k + w - r))
  }

  /** `tableData.reverse()`. */
  function Reverse<T>(s: seq<T>): (r: seq<T>)
    ensures |r| == |s|
    ensures forall i :: 0 <= i < |s| ==> r[i] == s[|s| - 1 - i]
  {
    if s == [] then [] else Reverse(s[1..]) + [s[0]]
  }

  /** The table `generateTableData` returns, oldest week first. */
  function TableData(today: Date, data: seq<Entry>): (g: seq<seq<Cell>>)
    requires Valid(today)
    ensures |g| == Columns && forall c :: 0 <= c < Columns ==> |g[c]| == Rows
  {
    seq(Columns, c requires 0 <= c < Columns => PushedColumn(today, data, Columns - 1 - c))
  }

  /**
   * One pass of the inner loop (lines 32-45): a column of placeholders is filled
   * from row `top` down to row 0, the cursor stepping back one day per row.
   * `base` is how many days before today row 0 of this column lies.
   */
  method FillColumn(today: Date, data: seq<Entry>, ghost base: nat, top: int, cursor: Date)
    returns (column: seq<Cell>, next: Date)
    requires Valid(today) && 0 <= top < Rows && top <= base
    requires cursor == DaysBefore(today, base - top)
    ensures |column| == Rows
    ensures forall r :: 0 <= r <= top ==> column[r] == DayCell(today, data, base - r)
    ensures forall r :: top < r < Rows ==> column[r] == Empty
    ensures next == DaysBefore(today, base + 1)
  {
    var cells := new Cell[Rows](_ => Empty);
    var currentDate := cursor;
    var j := top;
    assert cells[..] == PartialColumn(today, data, base, top, top);
    while j >= 0
      invariant -1 <= j <= top
      invariant currentDate == DaysBefore(today, base - j)
      invariant cells[..] == PartialColumn(today, data, base, top, j)
    {
      var formattedDate := ToIsoDate(currentDate);
      DayCellOf(today, data, base - j, currentDate);
      PartialColumnStep(today, data, base, top, j);
      cells[j] := Filled(formattedDate, CountFor(data, formattedDate));
      DaysBeforeStep(today, base - j);
      currentDate := PreviousDay(currentDate);
      j := j - 1;
    }
    PartialColumnDone(today, data, base, top);
    column, next := cells[..], currentDate;
  }

  /** The column once rows `top` down to `j + 1` are filled. */
  function PartialColumn(today: Date, data: seq<Entry>, base: int, top: int, j: int): (column: seq<Cell>)
    requires Valid(today) && top <= base
  {
    seq(Rows, r requires 0 <= r < Rows => if j < r <= top then DayCell(today, data, base - r) else Empty)
  }

  lemma PartialColumnDone(today: Date, data: seq<Entry>, base: int, top: int)
    requires Valid(today) && 0 <= top < Rows && top <= base
    ensures var column := PartialColumn(today, data, base, top, -1);
      |column| == Rows
      && (forall r :: 0 <= r <= top ==> column[r] == DayCell(today, data, base - r))
      && (forall r :: top < r < Rows ==> column[r] == Empty)
  {
  }

  lemma PartialColumnStep(today: Date, data: seq<Entry>, base: int, top: int, j: int)
    requires Valid(today) && top <= base && 0 <= j <= top < Rows
    ensures PartialColumn(today, data, base, top, j - 1) == PartialColumn(today, data, base, top, j)[j := DayCell(today, data, base - j)]
  {
  }

  lemma DayCellOf(today: Date, data: seq<Entry>, n: nat, d: Date)
    requires Valid(today) && d == DaysBefore(today, n)
    ensures DayCell(today, data, n) == Filled(ToIsoDate(d), CountFor(data, ToIsoDate(d)))
  {
  }

  lemma DaysBeforeStep(today: Date, n: nat)
    requires Valid(today)
    ensures DaysBefore(today, n + 1) == PreviousDay(DaysBefore(today, n))
  {
  }

  method GenerateTableData(today: Date, data: seq<Entry>) returns (tableData: seq<seq<Cell>>)
    requires Valid(today)
    ensures tableData == TableData(today, data)
  {
    var pushed: seq<seq<Cell>> := [];
    var currentDate := today;
    var currentDayOfWeek := GetDay(currentDate);
    currentDayOfWeek := MondayFirst(currentDayOfWeek);
    ghost var w := currentDayOfWeek;
    ghost var age := 0;
    var i := 0;
    while i < Columns
      invariant 0 <= i <= Columns && w == TodayRow(today)
      invariant currentDayOfWeek == if i == 0 then w else 6
      invariant age == 7 * i + w - currentDayOfWeek && currentDate == DaysBefore(today, age)
      invariant |pushed| == i
      invariant forall k :: 0 <= k < i ==> pushed[k] == PushedColumn(today, data, k)
    {
      var column;
      ghost var base := 7 * i + w;
      column, currentDate := FillColumn(today, data, base, currentDayOfWeek, currentDate);
      FilledColumnIsPushed(today, data, i, base, currentDayOfWeek, column);
      currentDayOfWeek := 6;
      age := base + 1;
      pushed := pushed + [column];
      i := i + 1;
    }
    tableData := Reverse(pushed);
    ReversedColumnsAreTable(today, data, pushed);
  }

  lemma FilledColumnIsPushed(today: Date, data: seq<Entry>, k: nat, base: int, top: int, column: seq<Cell>)
    requires Valid(today) && base == 7 * k + TodayRow(today) && top == (if k == 0 then TodayRow(today) else 6)
    requires |column| == Rows
    requires forall r :: 0 <= r <= top ==> column[r] == DayCell(today, data, base - r)
    requires forall r :: top < r < Rows ==> column[r] == Empty
    ensures column == PushedColumn(today, data, k)
  {
  }

  lemma ReversedColumnsAreTable(today: Date, data: seq<Entry>, pushed: seq<seq<Cell>>)
    requires Valid(today) && |pushed| == Columns
    requires forall k :: 0 <= k < Columns ==> pushed[k] == PushedColumn(today, data, k)
    ensures Reverse(pushed) == TableData(today, data)
  {
  }

  /** How many days before today the cell in column `c` (oldest first), row `r` lies. */
  function CellAge(today: Date, c: int, r: int): int
    requires Valid(today)
  {
    7 * (Columns - 1 - c) + TodayRow(today) - r
  }

  lemma GridAt(today: Date, data: seq<Entry>, c: int, r: int)
    requires Valid(today) && 0 <= c < Columns && 0 <= r < Rows
    ensures TableData(today, data)[c][r] ==
      if c == Columns - 1 && r > TodayRow(today) then Empty
      else DayCell(today, data, CellAge(today, c, r))
  {
    var column := PushedColumn(today, data, Columns - 1 - c);
    assert TableData(today, data)[c] == column;
    assert column[r] == if c == Columns - 1 && r > TodayRow(today) then Empty
                        else DayCell(today, data, CellAge(today, c, r));
  }

  /**
   * The grid is 51 columns of 7 rows; the placeholders are exactly the rows after
   * today's row in the newest column, so row 0 is filled in every column.
   */
  lemma GridShape(today: Date, data: seq<Entry>)
    requires Valid(today)
    ensures var g := TableData(today, data);
      |g| == Columns
      && (forall c :: 0 <= c < Columns ==> |g[c]| == Rows)
      && (forall c, r :: 0 <= c < Columns && 0 <= r < Rows ==>
            (g[c][r].Empty? <==> c == Columns - 1 && r > TodayRow(today)))
  {
    forall c, r | 0 <= c < Columns && 0 <= r < Rows {
      GridAt(today, data, c, r);
    }
  }

  /** Every filled cell shows the count its own date has in `data`. */
  lemma GridCounts(today: Date, data: seq<Entry>)
    requires Valid(today)
    ensures var g := TableData(today, data);
      forall c, r :: 0 <= c < Columns && 0 <= r < Rows && g[c][r].Filled? ==>
        g[c][r].count == CountFor(data, g[c][r].date)
  {
    forall c, r | 0 <= c < Columns && 0 <= r < Rows {
      GridAt(today, data, c, r);
    }
  }

  /**
   * A filled cell holds the date `CellAge` days before today, and that date
   * falls on the weekday of the cell's row (Monday is row 0).
   */
  lemma GridCellDate(today: Date, data: seq<Entry>, c: int, r: int)
    requires Valid(today) && 0 <= c < Columns && 0 <= r < Rows
    requires TableData(today, data)[c][r].Filled?
    ensures CellAge(today, c, r) >= 0
    ensures var d := DaysBefore(today, CellAge(today, c, r));
      TableData(today, data)[c][r].date == ToIsoDate(d)
      && DayNumber(d) == DayNumber(today) - CellAge(today, c, r)
      && TodayRow(d) == r
  {
    GridAt(today, data, c, r);
    CellWeekday(today, CellAge(today, c, r), Columns - 1 - c, r);
  }

  /** The day `7 * k + TodayRow(today) - r` days back falls on row `r`'s weekday. */
  lemma CellWeekday(today: Date, n: nat, k: int, r: int)
    requires Valid(today) && 0 <= r < Rows && n == 7 * k + TodayRow(today) - r
    ensures DayNumber(DaysBefore(today, n)) == DayNumber(today) - n
    ensures TodayRow(DaysBefore(today, n)) == r
  {
    var d := DaysBefore(today, n);
    DaysBeforeDayNumber(today, n);
    TodayRowIsDayNumberMod7(today);
    TodayRowIsDayNumberMod7(d);
    var q := DayNumber(today) / 7;
    assert DayNumber(d) == 7 * (q - k) + r;
    SameRemainder(q - k, r);
  }

  lemma SameRemainder(a: int, r: int)
    requires 0 <= r < 7
    ensures (7 * a + r) % 7 == r
  {
  }

  /** Today sits in the newest column at its own weekday row. */
  lemma GridEndsToday(today: Date, data: seq<Entry>)
    requires Valid(today)
    ensures var w := TodayRow(today);
      TableData(today, data)[Columns - 1][w] == Filled(ToIsoDate(today), CountFor(data, ToIsoDate(today)))
  {
    GridAt(today, data, Columns - 1, TodayRow(today));
  }

  /** The dates of the filled cells of one column, row 0 first. */
  function ColumnDates(column: seq<Cell>): seq<string>
  {
    if column == [] then []
    else
      var last := column[|column| - 1];
      ColumnDates(column[..|column| - 1]) + (if last.Filled? then [last.date] else [])
  }

  /** The dates of all filled cells, column by column from the left, rows 0 to 6. */
  function FilledDates(table: seq<seq<Cell>>): seq<string>
  {
    if table == [] then [] else FilledDates(table[..|table| - 1]) + ColumnDates(table[|table| - 1])
  }

  /** The days the grid shows, oldest first: the 350 + w + 1 days that end today. */
  function ShownDays(today: Date): (days: seq<Date>)
    requires Valid(today)
    ensures |days| == 7 * (Columns - 1) + TodayRow(today) + 1
    ensures forall k :: 0 <= k < |days| ==> days[k] == DaysBefore(today, |days| - 1 - k) && Valid(days[k])
  {
    var n := 7 * (Columns - 1) + TodayRow(today) + 1;
    seq(n, k requires 0 <= k < n => DaysBefore(today, n - 1 - k))
  }

  /** The shown days are consecutive and the last of them is today. */
  lemma ShownDaysConsecutive(today: Date)
    requires Valid(today)
    ensures var days := ShownDays(today);
      |days| == 351 + TodayRow(today)
      && days[|days| - 1] == today
      && forall k :: 0 <= k < |days| - 1 ==> DayNumber(days[k + 1]) == DayNumber(days[k]) + 1
  {
    var days := ShownDays(today);
    forall k | 0 <= k < |days| - 1
      ensures DayNumber(days[k + 1]) == DayNumber(days[k]) + 1
    {
      NextShownDay(today, |days|, k);
    }
  }

  lemma NextShownDay(today: Date, n: nat, k: nat)
    requires Valid(today) && n == |ShownDays(today)| && k + 1 < n
    ensures DayNumber(ShownDays(today)[k + 1]) == DayNumber(ShownDays(today)[k]) + 1
  {
    DaysBeforeDayNumber(today, n - 1 - k);
    DaysBeforeDayNumber(today, n - 2 - k);
  }

  /**
   * Read column by column and row by row, the filled cells are exactly the shown
   * days, one cell per day, in order.
   */
  lemma GridFilledDates(today: Date, data: seq<Entry>)
    requires Valid(today)
    ensures var days := ShownDays(today);
      var dates := FilledDates(TableData(today, data));
      |dates| == |days| && forall k :: 0 <= k < |days| ==> dates[k] == ToIsoDate(days[k])
  {
    var g := TableData(today, data);
    var w := TodayRow(today);
    var days := ShownDays(today);
    var expected := ShownDates(today);
    FullColumnsDates(today, data, Columns - 1);
    var last := g[Columns - 1];
    forall r | 0 <= r < Rows ensures last[r].Filled? <==> r < w + 1 {
      GridAt(today, data, Columns - 1, r);
    }
    ColumnDatesOfFilledPrefix(last, w + 1);
    assert g[..Columns - 1] == g[..|g| - 1];
    forall r | 0 <= r < w + 1
      ensures last[r].date == ToIsoDate(days[7 * (Columns - 1) + r])
    {
      LastColumnDate(today, data, r);
    }
  }

  lemma LastColumnDate(today: Date, data: seq<Entry>, r: int)
    requires Valid(today) && 0 <= r <= TodayRow(today)
    ensures var cell := TableData(today, data)[Columns - 1][r];
      cell.Filled? && cell.date == ToIsoDate(ShownDays(today)[7 * (Columns - 1) + r])
  {
    GridAt(today, data, Columns - 1, r);
    var days := ShownDays(today);
    assert days[7 * (Columns - 1) + r] == DaysBefore(today, CellAge(today, Columns - 1, r));
  }

  /** The date strings of the shown days. */
  function ShownDates(today: Date): (dates: seq<string>)
    requires Valid(today)
    ensures |dates| == |ShownDays(today)|
    ensures forall k :: 0 <= k < |dates| ==> dates[k] == ToIsoDate(ShownDays(today)[k])
  {
    var days := ShownDays(today);
    seq(|days|, k requires 0 <= k < |days| => ToIsoDate(days[k]))
  }

  /** The first `c` columns, all full, show the first `7 * c` shown days. */
  lemma {:induction false} FullColumnsDates(today: Date, data: seq<Entry>, c: nat)
    requires Valid(today) && c <= Columns - 1
    ensures var expected := ShownDates(today);
      var dates := FilledDates(TableData(today, data)[..c]);
      |dates| == 7 * c && forall k :: 0 <= k < 7 * c ==> dates[k] == expected[k]
  {
    if c > 0 {
      var g := TableData(today, data);
      FullColumnsDates(today, data, c - 1);
      FullColumnDates(today, data, c - 1);
      FilledDatesStep(g, c);
      ConcatPointwise(FilledDates(g[..c - 1]), ColumnDates(g[c - 1]), ShownDates(today), 7 * (c - 1), 7);
    }
  }

  /** One more column adds its dates at the end. */
  lemma FilledDatesStep(table: seq<seq<Cell>>, c: nat)
    requires 0 < c <= |table|
    ensures FilledDates(table[..c]) == FilledDates(table[..c - 1]) + ColumnDates(table[c - 1])
  {
    assert table[..c][..c - 1] == table[..c - 1];
  }

  /** A full column `c` lists the shown days `7 * c` to `7 * c + 6`. */
  lemma FullColumnDates(today: Date, data: seq<Entry>, c: nat)
    requires Valid(today) && c < Columns - 1
    ensures var expected := ShownDates(today);
      var dates := ColumnDates(TableData(today, data)[c]);
      |dates| == 7 && 7 * c + 7 <= |expected| && forall r :: 0 <= r < 7 ==> dates[r] == expected[7 * c + r]
  {
    var column := TableData(today, data)[c];
    forall r | 0 <= r < Rows
      ensures column[r].Filled? && column[r].date == ShownDates(today)[7 * c + r]
    {
      FullColumnDate(today, data, c, r);
    }
    ColumnDatesOfFilledPrefix(column, Rows);
  }

  /** Two pieces that agree with `e` from 0 and from `m` make a whole that agrees with it. */
  lemma ConcatPointwise<T>(a: seq<T>, b: seq<T>, e: seq<T>, m: nat, n: nat)
    requires |a| == m && |b| == n && m + n <= |e|
    requires forall k :: 0 <= k < m ==> a[k] == e[k]
    requires forall r :: 0 <= r < n ==> b[r] == e[m + r]
    ensures forall k :: 0 <= k < m + n ==> (a + b)[k] == e[k]
  {
    forall k | m <= k < m + n
      ensures (a + b)[k] == e[k]
    {
      assert (a + b)[k] == b[k - m];
    }
  }

  lemma FullColumnDate(today: Date, data: seq<Entry>, c: int, r: int)
    requires Valid(today) && 0 <= c < Columns - 1 && 0 <= r < Rows
    ensures var cell := TableData(today, data)[c][r];
      cell.Filled? && cell.date == ShownDates(today)[7 * c + r]
  {
    GridAt(today, data, c, r);
    var days := ShownDays(today);
    assert days[7 * c + r] == DaysBefore(today, CellAge(today, c, r));
  }

  /** A column whose first `m` rows are filled lists exactly those rows' dates. */
  lemma {:induction false} ColumnDatesOfFilledPrefix(column: seq<Cell>, m: nat)
    requires m <= |column|
    requires forall r :: 0 <= r < |column| ==> (column[r].Filled? <==> r < m)
    ensures var dates := ColumnDates(column);
      |dates| == m && forall r :: 0 <= r < m ==> dates[r] == column[r].date
  {
    if column != [] {
      var n := |column|;
      var init := column[..n - 1];
      ColumnDatesOfFilledPrefix(init, if m == n then m - 1 else m);
    }
  }
}
