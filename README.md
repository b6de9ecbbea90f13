# Contribution table model

A Dafny model of the table component of the contribution graph
(`src/components/Table.js`). The component is a GitHub-style activity heatmap:

- It builds a grid of 51 week columns, Monday to Sunday, ending with the week that
  holds today (`generateTableData`).
- It looks up each day's contribution count in the fetched `[date, count]` pairs.
- It shades every cell by its count (`getBackgroundColor`).
- It groups the columns into month header cells (`calculateMonthSpan`).
- It labels each header cell with a Russian month abbreviation.
- Each cell's tooltip shows the count and the date written out in Russian
  (`getRussianDate`, `capitalize`).

Modules, one per concern of the component:

| module | file | what it holds |
|---|---|---|
| `Wrappers` | `wrappers.dfy` | `Option`, standing for JavaScript's `undefined` results |
| `JsString` | `js_string.dfy` | the string built-ins the component uses: `slice`, `split`, `join`, `replace`, integer template literals, fixed-width digit strings |
| `JsDate` | `js_date.dfy` | a proleptic Gregorian calendar: `getDay`, the `setDate(getDate() - 1)` step, and the date part of `toISOString` with its parser |
| `Grid` | `grid.dfy` | `generateTableData` as an imperative method over a 7-cell array, proved against the specification function `TableData` |
| `MonthSpan` | `month_span.dfy` | `calculateMonthSpan` as a loop over a map with its key order, and the month-name table |
| `Presenter` | `presenter.dfy` | shades, the tooltip count line, `capitalize`, `getRussianDate`, and the tooltip's date line |

Notes on the grid:

- Placeholder cells are the `{}` that `new Array(7).fill({})` leaves in rows the
  loop does not reach. They are `Cell.Empty`.
- Such a cell's `count` is `undefined`. `getBackgroundColor(undefined)` therefore
  falls through to `#EDEDED`, and the count line reads `undefined contributions`.
  The model keeps both as written.
- The grid does not cover 51 × 7 = 357 days. Only the newest column is partial:
  it is filled from Monday down to today's row. The grid therefore shows
  `350 + w + 1` days, where `w` is today's Monday-first weekday.
- The partial column is the newest one, which is last after `reverse()`, not the
  oldest. The model follows the code on both points. `ShownDaysConsecutive` and
  `GridFilledDates` state the exact span.

Inputs the component takes from its surroundings are parameters:

- `today` is the clock's `new Date()`.
- `data` is the fetched `Object.entries` array.
- `formatted` is the output of `Intl.DateTimeFormat('ru-RU', …)`.
- `upper` is the per-character `toUpperCase`.

## Model

| member | source | states |
|---|---|---|
| `Grid.GenerateTableData` | src/components/Table.js:23-51 | the table built by the two nested loops and `reverse()` is `TableData(today, data)`, the 51 columns of 7 cells described by the lemmas below |
| `Grid.FillColumn` | src/components/Table.js:32-45 | filling a fresh column from row `top` down to 0 puts in row `r` the cell of the day `base - r` days before today; the rows above `top` keep the placeholder; the cursor ends one day before row 0's day |
| `Grid.FindFirstMatch` | src/components/Table.js:36 | `Find`, the model of `data.find`, yields nothing exactly when no entry has the date, and otherwise the first entry that has it |
| `Grid.CountForFirstMatch` | src/components/Table.js:36-37 | `CountFor`, the count of lines 36-37, is the count of the first entry with its date, or 0 when there is none |
| `Grid.CountForIgnoresOtherDates` | src/components/Table.js:36-37 | removing an entry for another date never changes a date's count |
| `Grid.CountForIgnoresLaterEntries` | src/components/Table.js:36-37 | entries appended after the first match for a date never change its count (duplicates are shadowed) |
| `Grid.MondayFirst` | src/components/Table.js:29 | `(getDay() + 6) % 7` is a row 0..6 one step behind the JavaScript weekday: Monday is row 0 and Sunday row 6 |
| `Grid.TodayRowIsDayNumberMod7` | src/components/Table.js:26-29 | today's row, `MondayFirst` of `GetDay` (`getDay()`, Sunday 0), is its day count since 0001-01-01 (a Monday) modulo 7 |
| `Grid.GridAt` | src/components/Table.js:31-50 | cell `(c, r)` of the result is the placeholder when it is after today in the newest column, and otherwise the cell of the day `7 * (50 - c) + w - r` days before today |
| `Grid.GridShape` | src/components/Table.js:31-50 | the result has 51 columns of 7 cells, and a cell is a placeholder exactly when it lies after today's row in the newest column |
| `Grid.GridCounts` | src/components/Table.js:35-42 | every filled cell carries the count its own date has in `data` |
| `Grid.GridCellDate` | src/components/Table.js:34-44 | a filled cell holds the ISO date of the day `CellAge` days back, whose weekday is the cell's row |
| `Grid.GridEndsToday` | src/components/Table.js:25-42 | the newest column holds today, with today's count, at today's weekday row |
| `Grid.ShownDaysConsecutive` | src/components/Table.js:44 | the days shown are `351 + w` consecutive days, and the last of them is today |
| `Grid.Reverse` | src/components/Table.js:50 | `reverse()` keeps the length and mirrors the order: the first element becomes the last, and so on |
| `Grid.GridFilledDates` | src/components/Table.js:23-51 | read column by column, rows 0 to 6, the filled cells hold the shown days' ISO dates, one cell per day, in order |
| `JsDate.PreviousDayIsOneDayEarlier` | src/components/Table.js:44 | `PreviousDay`, the model of `setDate(getDate() - 1)`, moves to the day whose day count is one less, across month and year ends and leap days |
| `JsDate.DaysBeforeDayNumber` | src/components/Table.js:44 | `n` steps back land on the day `n` days before |
| `JsDate.DaysBeforeMonthMonotone` | src/components/Table.js:44 | going further back never reaches a later month |
| `JsDate.IsoDateRoundTrip` | src/components/Table.js:35 | `ToIsoDate`, the date part of `toISOString` with its four-digit or signed six-digit year, reads back through `ParseIsoDate` as the same date |
| `JsDate.IsoDateInjective` | src/components/Table.js:35-36 | different days never share a date string, so a lookup matches one day only |
| `JsString.ParseIntToString` | src/components/Table.js:157 | the template literal of an integer reads back as that integer |
| `JsString.Slice` | src/components/Table.js:70 | `slice(start, end)` with bounds in range is the substring between them and is never longer than the string |
| `JsString.SliceLast` | src/components/Table.js:128 | `slice(-k)` is the last `k` characters, or the whole string when it is shorter |
| `JsString.Split` | src/components/Table.js:97 | `split` on one character gives at least one piece and no piece contains the separator |
| `JsString.JoinSplit` | src/components/Table.js:97 | joining the pieces of a split with the same separator gives back the string |
| `JsString.IndexOf` | src/components/Table.js:105 | the search finds the first occurrence of the pattern, and finds nothing exactly when there is no occurrence |
| `JsString.ReplaceFirst` | src/components/Table.js:105 | `replace` with a string pattern leaves a string without the pattern unchanged and otherwise replaces only the first occurrence |
| `MonthSpan.CalculateMonthSpan` | src/components/Table.js:67-77 | the keys come out in first-seen order, `spanData` has exactly those keys, each key's span is the number of columns with that month key, and the spans add up to the number of columns |
| `MonthSpan.FirstSeen` | src/components/Table.js:67-77 | the insertion-ordered keys are distinct and are exactly the month keys that occur |
| `MonthSpan.OccurrencesSumToLength` | src/components/Table.js:67-77 | counting each element under its first-seen key accounts for every element exactly once |
| `MonthSpan.MonthKeyName` | src/components/Table.js:79-92 | the `MonthNamesInRussian` table maps the two-digit form of month `n` to the `n`-th abbreviation, January first |
| `MonthSpan.MonthLabelDefined` | src/components/Table.js:128 | `MonthLabel`, the lookup `monthNamesInRussian[month.slice(-2)]`, is defined exactly when the key ends in a month number 01 to 12, and it is that month's abbreviation |
| `MonthSpan.IsoMonthKey` | src/components/Table.js:70 | `slice(0, 7)` of a four-digit-year ISO date, the column key `MonthKey` takes, is its `YYYY-MM` key |
| `MonthSpan.GridMonthKey` | src/components/Table.js:70 | every column has a filled row 0, and its key is the month of that day |
| `MonthSpan.GridMonthKeysOrdered` | src/components/Table.js:67-77 | later columns never have an earlier month, and columns of the same month have the same key |
| `MonthSpan.FirstSeenAscending` | src/components/Table.js:122 | when keys never go back in time along the columns, the first-seen order is strictly chronological |
| `MonthSpan.GridMonthLabel` | src/components/Table.js:128 | every column's month key has a label |
| `MonthSpan.GridMonthHeader` | src/components/Table.js:122-129 | the header cells run strictly forward in time and each one has a label |
| `Presenter.BackgroundColorIsLevel` | src/components/Table.js:53-65 | `BackgroundColor`, the model of `getBackgroundColor`, is the palette entry indexed by how many of the thresholds 1, 10, 20 and 31 the count reaches |
| `Presenter.BackgroundColorMonotone` | src/components/Table.js:53-65 | every count gets one of the five shades, and a larger count never gets a lighter one |
| `Presenter.CellColor` | src/components/Table.js:138-140 | a placeholder is shaded like a count of 0, and a filled cell by its count |
| `Presenter.TooltipCountRoundTrip` | src/components/Table.js:157 | `TooltipCount`, the count line, states a filled cell's count (read back by `ParseTooltipCount`), and a placeholder's line states no number |
| `Presenter.CapitalizeSpec` | src/components/Table.js:95-98 | `Capitalize` (split, `CapitalizeWord` on each word, join) keeps the length and every character, except that each character beginning a word is upper-cased |
| `Presenter.CapitalizeByWords` | src/components/Table.js:97 | capitalising word by word after splitting on spaces equals capitalising character by character |
| `Presenter.RussianDateDropsYearMark` | src/components/Table.js:100-110 | `RussianDate`, the model of `getRussianDate`, shows a non-empty date whose long form ends in its only " г." without it, capitalised |
| `Presenter.GridTooltipDate` | src/components/Table.js:159 | `TooltipDate`, the `date && getRussianDate(date)` line, is never empty for a filled cell: it carries the date line, because its date string is never empty |

## Left out

- Fetching the data (`fetch`, `useEffect`, `setData`, lines 8-20) is network I/O. The fetched `Object.entries` array is the parameter `data`.
- Non-integer counts in the JSON are not modelled: a count is an `int`.
- Count magnitude and number formatting are not modelled. A count is an unbounded `int` written in plain decimal by `IntToString`. JavaScript numbers lose integer precision above 2^53, and from 1e21 the template literal at line 157 writes exponent form (`1e+21 contributions`).
- `new Date()` is the parameter `today`.
- Time zones are not modelled. `toISOString` writes the UTC date while `setDate` steps in local time; the model uses one calendar for both.
- The range limit of JavaScript `Date` values is not modelled.
- `Intl.DateTimeFormat` and `new Date(dateString)` (lines 103-104) are platform code. Their output is the parameter `formatted`.
- `toUpperCase` is the per-character parameter `upper`. Upper-case forms longer than one character are not modelled.
- The `typeof s !== 'string'` guard of `capitalize` (line 96) is not modelled. Its only caller always passes a string.
- The JSX, `react-tooltip`, the inline styles and the weekday label column (lines 116-170) are rendering. Only the values they display are modelled: the shade, the two tooltip lines and the header labels with their spans.
- `fill({})` shares one placeholder object among the rows. Placeholders are the value `Cell.Empty`, because the code never mutates them.
- MonthSpan.CalculateMonthSpan requires row 0 of every column to be filled. The code would throw on `week[0].date` otherwise, and the grid always satisfies it (`GridMonthKey`).
- MonthSpan.GridMonthHeader, MonthSpan.GridMonthKey, MonthSpan.GridMonthKeysOrdered and MonthSpan.GridMonthLabel are stated only for a today in the years 1 to 9999. Outside them `toISOString` writes a signed six-digit year and `slice(0, 7)` no longer yields a `YYYY-MM` key.
- JsDate.IsoDateRoundTrip is stated for years within ±999999, the range of the six-digit year field.
