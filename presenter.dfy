/**
 * What the table shows for one cell: its background shade, the count line of
 * its tooltip, and the tooltip's date line (the Russian long date with the
 * trailing " г." removed and every word capitalised).
 */
module Presenter {
  import opened Wrappers
  import opened JsString
  import opened Grid
  import JsDate

  /** `getBackgroundColor(count)`: five shades, darker for more contributions. */
  function BackgroundColor(count: int): string
  {
    if count > 30 then "#254E77"
    else if count >= 20 then "#527BA0"
    else if count >= 10 then "#7FA8C9"
    else if count >= 1 then "#ACD5F2"
    else "#EDEDED"
  }

  /** The shades from lightest to darkest. */
  const Palette: seq<string> := ["#EDEDED", "#ACD5F2", "#7FA8C9", "#527BA0", "#254E77"]

  /** The least count of each shade after the lightest. */
  const Thresholds: seq<int> := [1, 10, 20, 31]

  /** How many of `bounds` the count reaches. */
  function Reached(count: int, bounds: seq<int>): (n: nat)
    ensures n <= |bounds|
  {
    if bounds == [] then 0 else (if bounds[0] <= count then 1 else 0) + Reached(count, bounds[1..])
  }

  /** A larger count reaches at least as many bounds. */
  lemma {:induction false} ReachedMonotone(a: int, b: int, bounds: seq<int>)
    requires a <= b
    ensures Reached(a, bounds) <= Reached(b, bounds)
  {
    if bounds != [] {
      ReachedMonotone(a, b, bounds[1..]);
    }
  }

  /** The shade is the palette entry indexed by the number of thresholds the count reaches. */
  lemma BackgroundColorIsLevel(count: int)
    ensures BackgroundColor(count) == Palette[Reached(count, Thresholds)]
  {
    assert Thresholds[1..] == [10, 20, 31] && [10, 20, 31][1..] == [20, 31];
    assert [20, 31][1..] == [31] && [31][1..] == [];
    assert Reached(count, [31]) == if count >= 31 then 1 else 0;
    assert Reached(count, [20, 31]) == (if count >= 20 then 1 else 0) + Reached(count, [31]);
    assert Reached(count, [10, 20, 31]) == (if count >= 10 then 1 else 0) + Reached(count, [20, 31]);
    assert Reached(count, Thresholds) == (if count >= 1 then 1 else 0) + Reached(count, [10, 20, 31]);
  }

  /** More contributions never give a lighter shade, and every count gets one of the five shades. */
  lemma BackgroundColorMonotone(a: int, b: int)
    requires a <= b
    ensures BackgroundColor(a) in Palette && BackgroundColor(b) in Palette
    ensures exists i, j :: 0 <= i <= j < |Palette| && BackgroundColor(a) == Palette[i] && BackgroundColor(b) == Palette[j]
  {
    BackgroundColorIsLevel(a);
    BackgroundColorIsLevel(b);
    ReachedMonotone(a, b, Thresholds);
    var i, j := Reached(a, Thresholds), Reached(b, Thresholds);
    assert BackgroundColor(a) == Palette[i] && BackgroundColor(b) == Palette[j];
  }

  /**
   * The shade of a cell. A placeholder has no count, and `undefined` fails every
   * comparison, so it takes the last branch.
   */
  function CellColor(cell: Cell): (color: string)
    ensures cell.Empty? ==> color == BackgroundColor(0)
    ensures cell.Filled? ==> color == BackgroundColor(cell.count)
  {
    match cell
    case Empty => "#EDEDED"
    case Filled(_, count) => BackgroundColor(count)
  }

  /** The tooltip's count line; a placeholder's `undefined` count is written out as such. */
  function TooltipCount(cell: Cell): string
  {
    match cell
    case Empty => "undefined contributions"
    case Filled(_, count) => if count == 0 then "No contributions" else IntToString(count) + " contributions"
  }

  const Suffix: string := " contributions"

  /** Reads the count back out of a tooltip line; `None` when the line carries no number. */
  function ParseTooltipCount(line: string): Option<int>
  {
    if line == "No contributions" then Some(0)
    else if |line| >= |Suffix| && line[|line| - |Suffix|..] == Suffix then ParseInt(line[..|line| - |Suffix|])
    else None
  }

  /** The tooltip line of a filled cell states its count, and a placeholder's states none. */
  lemma TooltipCountRoundTrip(cell: Cell)
    ensures cell.Filled? ==> ParseTooltipCount(TooltipCount(cell)) == Some(cell.count)
    ensures cell.Empty? ==> ParseTooltipCount(TooltipCount(cell)) == None
  {
    var line := TooltipCount(cell);
    if cell.Filled? && cell.count != 0 {
      var digits := IntToString(cell.count);
      assert line[..|line| - |Suffix|] == digits && line[|line| - |Suffix|..] == Suffix;
      assert line != "No contributions" by {
        assert line[0] == digits[0];
      }
      ParseIntToString(cell.count);
    } else if cell.Empty? {
      assert line[..|line| - |Suffix|] == "undefined";
      assert line[|line| - |Suffix|..] == Suffix;
    }
  }

  /** `word.charAt(0).toUpperCase() + word.slice(1)`. */
  function CapitalizeWord(word: string, upper: char -> char): string
  {
    if word == "" then "" else [upper(word[0])] + word[1..]
  }

  /** `s.split(' ').map(capitalizeWord).join(' ')`. */
  function Capitalize(s: string, upper: char -> char): string
  {
    Join(CapitalizeAll(Split(s, ' '), upper), ' ')
  }

  /** Character `i` of `s` begins a word: it is not a space and follows a space or the start (or not, per `atStart`). */
  predicate BeginsWord(s: string, i: int, atStart: bool)
    requires 0 <= i < |s|
  {
    s[i] != ' ' && (if i == 0 then atStart else s[i - 1] == ' ')
  }

  /** Capitalisation character by character, the reference `Capitalize` is checked against. */
  function CapitalizeFrom(s: string, atStart: bool, upper: char -> char): (r: string)
    ensures |r| == |s|
    ensures forall i :: 0 <= i < |s| ==> r[i] == if BeginsWord(s, i, atStart) then upper(s[i]) else s[i]
  {
    if s == "" then ""
    else
      var rest := CapitalizeFrom(s[1..], s[0] == ' ', upper);
      assert forall i :: 1 <= i < |s| ==> BeginsWord(s, i, atStart) == BeginsWord(s[1..], i - 1, s[0] == ' ');
      [if atStart && s[0] != ' ' then upper(s[0]) else s[0]] + rest
  }

  /**
   * `Capitalize` keeps the length and every character, except that each character
   * beginning a word is replaced by its upper-case form.
   */
  lemma CapitalizeSpec(s: string, upper: char -> char)
    ensures var r := Capitalize(s, upper);
      |r| == |s| && forall i :: 0 <= i < |s| ==> r[i] == if BeginsWord(s, i, true) then upper(s[i]) else s[i]
  {
    CapitalizeByWords(s, upper);
  }

  function CapitalizeAll(words: seq<string>, upper: char -> char): (r: seq<string>)
    ensures |r| == |words|
  {
    seq(|words|, i requires 0 <= i < |words| => CapitalizeWord(words[i], upper))
  }

  /**
   * Capitalising the words after splitting is capitalising character by character;
   * with the first word left as it is, it is the same from a position inside a word.
   */
  lemma {:induction false} CapitalizeByWords(s: string, upper: char -> char)
    ensures Join(CapitalizeAll(Split(s, ' '), upper), ' ') == CapitalizeFrom(s, true, upper)
    ensures var words := Split(s, ' ');
      Join([words[0]] + CapitalizeAll(words[1..], upper), ' ') == CapitalizeFrom(s, false, upper)
  {
    if s != "" {
      CapitalizeByWords(s[1..], upper);
      if s[0] == ' ' {
        CapitalizeAfterSpace(s, upper);
      } else {
        CapitalizeInWord(s, upper);
      }
    }
  }

  /** The step of `CapitalizeByWords` for a leading space, which starts an empty word. */
  lemma CapitalizeAfterSpace(s: string, upper: char -> char)
    requires s != "" && s[0] == ' '
    requires Join(CapitalizeAll(Split(s[1..], ' '), upper), ' ') == CapitalizeFrom(s[1..], true, upper)
    ensures Join(CapitalizeAll(Split(s, ' '), upper), ' ') == CapitalizeFrom(s, true, upper)
    ensures var words := Split(s, ' ');
      Join([words[0]] + CapitalizeAll(words[1..], upper), ' ') == CapitalizeFrom(s, false, upper)
  {
    var rest := Split(s[1..], ' ');
    assert Split(s, ' ') == [""] + rest;
    assert CapitalizeAll([""] + rest, upper) == [""] + CapitalizeAll(rest, upper);
    assert ([""] + rest)[1..] == rest;
    JoinFront("", CapitalizeAll(rest, upper));
  }

  /** The step of `CapitalizeByWords` for a leading letter, which joins the first word. */
  lemma CapitalizeInWord(s: string, upper: char -> char)
    requires s != "" && s[0] != ' '
    requires var rest := Split(s[1..], ' ');
      Join([rest[0]] + CapitalizeAll(rest[1..], upper), ' ') == CapitalizeFrom(s[1..], false, upper)
    ensures Join(CapitalizeAll(Split(s, ' '), upper), ' ') == CapitalizeFrom(s, true, upper)
    ensures var words := Split(s, ' ');
      Join([words[0]] + CapitalizeAll(words[1..], upper), ' ') == CapitalizeFrom(s, false, upper)
  {
    var rest := Split(s[1..], ' ');
    var tail := CapitalizeAll(rest[1..], upper);
    var first := [s[0]] + rest[0];
    assert Split(s, ' ') == [first] + rest[1..];
    assert ([first] + rest[1..])[1..] == rest[1..];
    assert CapitalizeAll([first] + rest[1..], upper) == [[upper(s[0])] + rest[0]] + tail;
    JoinPrefix([upper(s[0])], rest[0], tail);
    JoinPrefix([s[0]], rest[0], tail);
  }

  /** Joining behind a leading word puts that word and a separator in front. */
  lemma JoinFront(w: string, words: seq<string>)
    requires |words| >= 1
    ensures Join([w] + words, ' ') == w + " " + Join(words, ' ')
  {
    assert ([w] + words)[1..] == words;
  }

  /** Text in front of the first word stays in front of the joined string. */
  lemma JoinPrefix(x: string, y: string, words: seq<string>)
    ensures Join([x + y] + words, ' ') == x + Join([y] + words, ' ')
  {
    assert ([x + y] + words)[1..] == words && ([y] + words)[1..] == words;
  }

  const YearMark: string := " г."

  /**
   * `getRussianDate(dateString)`: an empty date gives an empty line; otherwise the
   * long Russian form of the date (`formatted`, produced by the platform) loses its
   * first " г." and has every word capitalised.
   */
  function RussianDate(dateString: string, formatted: string, upper: char -> char): string
  {
    if dateString == "" then "" else Capitalize(ReplaceFirst(formatted, YearMark, ""), upper)
  }

  /** A long date ending in the year mark is shown without it, capitalised. */
  lemma RussianDateDropsYearMark(dateString: string, body: string, upper: char -> char)
    requires dateString != ""
    requires forall j :: !OccursAt(body, YearMark, j)
    ensures RussianDate(dateString, body + YearMark, upper) == Capitalize(body, upper)
  {
    var s := body + YearMark;
    FirstYearMarkAtEnd(body);
    assert |YearMark| == 3;
    assert ReplaceFirst(s, YearMark, "") == s[..|body|] + "" + s[|body| + 3..];
    assert s[..|body|] == body && s[|body| + 3..] == "";
    assert ReplaceFirst(s, YearMark, "") == body;
  }

  /** Appended to text without the year mark, the mark first occurs where it was appended. */
  lemma FirstYearMarkAtEnd(body: string)
    requires forall j :: !OccursAt(body, YearMark, j)
    ensures OccursAt(body + YearMark, YearMark, |body|)
    ensures forall j :: 0 <= j < |body| ==> !OccursAt(body + YearMark, YearMark, j)
  {
    var s := body + YearMark;
    assert s[|body|..|body| + 3] == YearMark;
    forall j | 0 <= j < |body|
      ensures !OccursAt(s, YearMark, j)
    {
      if j + 3 <= |body| {
        assert s[j..j + 3] == body[j..j + 3];
        assert !OccursAt(body, YearMark, j);
      } else {
        assert s[j..j + 3][|body| - j] == ' ' != YearMark[|body| - j];
      }
    }
  }

  /** The tooltip's date line: nothing for a placeholder, the Russian date otherwise. */
  function TooltipDate(cell: Cell, formatted: string, upper: char -> char): string
  {
    match cell
    case Empty => ""
    case Filled(date, _) => RussianDate(date, formatted, upper)
  }

  /**
   * Every filled cell of the grid has a non-empty date, so its tooltip always
   * carries the date line: the long form without the year mark, capitalised.
   */
  lemma GridTooltipDate(today: JsDate.Date, data: seq<Entry>, c: int, r: int, body: string, upper: char -> char)
    requires JsDate.Valid(today) && 0 <= c < Columns && 0 <= r < Rows
    requires TableData(today, data)[c][r].Filled?
    requires forall j :: !OccursAt(body, YearMark, j)
    ensures TooltipDate(TableData(today, data)[c][r], body + YearMark, upper) == Capitalize(body, upper)
  {
    GridAt(today, data, c, r);
    var cell := TableData(today, data)[c][r];
    assert |cell.date| >= 10;
    RussianDateDropsYearMark(cell.date, body, upper);
  }
}
