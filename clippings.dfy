/**
 * The clipping-block parser. `src/clippings.py` (`Highlight.from_clipping`)
 * and its older copy `clippings.py` (`Highlight.parse_clipping`) turn one
 * divider-delimited block of an e-reader's clippings export into a
 * highlight record:
 *
 *   line 0   `<title> (<author>)`, possibly preceded by a byte-order mark
 *   line 1   `[<page part> | ]<position part> | <date part>`
 *   line 2   the highlighted text
 *
 * Blank lines are dropped first. The two copies differ only in that the
 * newer one also deletes U+FEFF from the title; `ParseBlock` takes that
 * difference as a flag. Every exception the Python code raises becomes an
 * `Err` carrying a `ParseError`, except the `ValueError` CPython's `int()`
 * raises on a digit string longer than 4300 digits: the model reads digit
 * runs of any length.
 */
module Clippings {
  import opened Wrappers
  import opened Text

  /** The byte-order mark that exports start with. */
  const BOM: char := '\U{FEFF}'

  /** The separator between the parts of the metadata line. */
  const MetaSeparator: string := " | "

  /** A point in time as `datetime` holds it (no time zone). */
  datatype DateTime = DateTime(year: nat, month: nat, day: nat, hour: nat, minute: nat, second: nat)

  /** The record built by `from_clipping` / `parse_clipping`. */
  datatype Highlight = Highlight(
    text: string,
    bookTitle: string,
    startPosition: nat,
    endPosition: nat,
    createdAt: DateTime,
    page: Option<nat>,
    author: string)

  /** What the parser raises. */
  datatype ParseError =
    | MissingLine(index: nat)     // IndexError: `lines[index]` with too few non-empty lines
    | MetaPartCount(count: nat)   // ValueError: the metadata line does not unpack into 2 or 3 parts
    | InvalidPage                 // ValueError("Invalid page")
    | InvalidPosition             // ValueError("Invalid position")
    | InvalidDateTime             // ValueError("Invalid datetime")
    | DateTimeRejected          // ValueError from `strptime` on the matched fields

  // ---------------------------------------------------------------------------
  // Calendar

  predicate IsLeapYear(year: nat) {
    year % 4 == 0 && (year % 100 != 0 || year % 400 == 0)
  }

  function DaysInMonth(month: nat, year: nat): nat
    requires 1 <= month <= 12
  {
    if month == 2 then (if IsLeapYear(year) then 29 else 28)
    else if month == 4 || month == 6 || month == 9 || month == 11 then 30
    else 31
  }

  /**
   * The values `strptime("%d. %B %Y %H:%M:%S")` followed by the `datetime`
   * constructor accept: `%d` reads 1..31, `%H` 0..23, `%M` 0..59, `%S` up
   * to 61 of which `datetime` keeps 0..59, and `datetime` wants a year from
   * 1 to 9999 and a day that exists in its month.
   */
  predicate ValidDateTime(dt: DateTime) {
    && 1 <= dt.year <= 9999
    && 1 <= dt.month <= 12
    && 1 <= dt.day <= DaysInMonth(dt.month, dt.year)
    && dt.hour < 24 && dt.minute < 60 && dt.second < 60
  }

  /**
   * The locale's month names, January first, as `%B` reads them: compared
   * without regard to case, the first equal name giving the month number.
   */
  function MonthNumber(months: seq<string>, word: string): (r: Option<nat>)
    ensures r.Some? ==> 1 <= r.value <= |months| && LowerString(months[r.value - 1]) == LowerString(word)
    ensures r.Some? ==> forall k :: 0 <= k < r.value - 1 ==> LowerString(months[k]) != LowerString(word)
    ensures r.None? ==> forall k :: 0 <= k < |months| ==> LowerString(months[k]) != LowerString(word)
  {
    MonthFrom(months, word, 0)
  }

  function MonthFrom(months: seq<string>, word: string, i: nat): (r: Option<nat>)
    requires i <= |months|
    ensures r.Some? ==> i < r.value <= |months| && LowerString(months[r.value - 1]) == LowerString(word)
    ensures r.Some? ==> forall k :: i <= k < r.value - 1 ==> LowerString(months[k]) != LowerString(word)
    ensures r.None? ==> forall k :: i <= k < |months| ==> LowerString(months[k]) != LowerString(word)
    decreases |months| - i
  {
    if i == |months| then None
    else if LowerString(months[i]) == LowerString(word) then Some(i + 1)
    else MonthFrom(months, word, i + 1)
  }

  // ---------------------------------------------------------------------------
  // The three regular expressions and `re.search`

  datatype Pattern =
    | PageNumber      // (\d+)
    | PositionRange   // (\d+)-(\d+)
    | Timestamp       // (\d{1,2}\. \w+ \d{4}) (\d{2}:\d{2}:\d{2})

  /** The end of the run of digits that starts at `i` (greedy `\d+`). */
  function DigitsEnd(s: string, i: nat): (j: nat)
    requires i <= |s|
    ensures i <= j <= |s|
    ensures forall k :: i <= k < j ==> IsDigit(s[k])
    ensures j == |s| || !IsDigit(s[j])
    decreases |s| - i
  {
    if i < |s| && IsDigit(s[i]) then DigitsEnd(s, i + 1) else i
  }

  /** The end of the run of word characters that starts at `i` (greedy `\w+`). */
  function WordEnd(s: string, i: nat): (j: nat)
    requires i <= |s|
    ensures i <= j <= |s|
    ensures forall k :: i <= k < j ==> IsWordChar(s[k])
    ensures j == |s| || !IsWordChar(s[j])
    decreases |s| - i
  {
    if i < |s| && IsWordChar(s[i]) then WordEnd(s, i + 1) else i
  }

  /** `\d{2}` at `k`. */
  predicate TwoDigits(s: string, k: nat) {
    k + 2 <= |s| && IsDigit(s[k]) && IsDigit(s[k + 1])
  }

  /** `\d{n}` at `i` for the day widths `\d{1,2}` allows. */
  predicate DayDigits(s: string, i: nat, n: nat) {
    if n == 2 then TwoDigits(s, i) else n == 1 && i < |s| && IsDigit(s[i])
  }

  /**
   * The fixed characters of the timestamp pattern around a month word
   * that ends at `w`: `D. ` before it and ` YYYY HH:MM:SS` after it.
   */
  predicate TimestampFrame(s: string, i: nat, n: nat, w: nat)
    requires i + n + 2 <= w && w + 14 <= |s|
  {
    && DayDigits(s, i, n) && s[i + n] == '.' && s[i + n + 1] == ' '
    && s[w] == ' ' && TwoDigits(s, w + 1) && TwoDigits(s, w + 3) && s[w + 5] == ' '
    && TwoDigits(s, w + 6) && s[w + 8] == ':'
    && TwoDigits(s, w + 9) && s[w + 11] == ':'
    && TwoDigits(s, w + 12)
  }

  /**
   * The timestamp pattern matches at `i` with `n` day digits. `\w+` and the
   * fixed-width digit groups leave no other choice to backtracking, so the
   * month word ends at `WordEnd(s, i + n + 2)`.
   */
  predicate TimestampWith(s: string, i: nat, n: nat) {
    && i + n + 2 <= |s|
    && var w := WordEnd(s, i + n + 2);
    && w > i + n + 2 && w + 14 <= |s|
    && TimestampFrame(s, i, n, w)
  }

  /** Whether pattern `p` matches `s` starting at index `i`. */
  predicate MatchesAt(p: Pattern, s: string, i: nat)
    requires i <= |s|
  {
    match p
    case PageNumber => i < |s| && IsDigit(s[i])
    case PositionRange =>
      var j := DigitsEnd(s, i);
      i < j < |s| && s[j] == '-' && DigitsEnd(s, j + 1) > j + 1
    // `\d{1,2}` tries two digits before one
    case Timestamp => TimestampWith(s, i, 2) || TimestampWith(s, i, 1)
  }

  /** `re.search`: the leftmost index where `p` matches. */
  function Search(p: Pattern, s: string): (r: Option<nat>)
    ensures r.Some? ==> r.value <= |s| && MatchesAt(p, s, r.value)
    ensures r.Some? ==> forall k :: 0 <= k < r.value ==> !MatchesAt(p, s, k)
    ensures r.None? ==> forall k :: 0 <= k <= |s| ==> !MatchesAt(p, s, k)
  {
    var matches := MatchPrefix(p, s, |s| + 1);
    MatchPrefixSpec(p, s, |s| + 1);
    var r := First(matches, 0);
    assert r.Some? ==> matches[r.value];
    r
  }

  /** Whether `p` matches at each of the first `n` start indices. */
  function MatchPrefix(p: Pattern, s: string, n: nat): seq<bool>
    requires n <= |s| + 1
  {
    if n == 0 then [] else MatchPrefix(p, s, n - 1) + [MatchesAt(p, s, n - 1)]
  }

  lemma {:induction false} MatchPrefixSpec(p: Pattern, s: string, n: nat)
    requires n <= |s| + 1
    ensures |MatchPrefix(p, s, n)| == n
    ensures forall k :: 0 <= k < n ==> MatchPrefix(p, s, n)[k] == MatchesAt(p, s, k)
  {
    if n > 0 {
      MatchPrefixSpec(p, s, n - 1);
    }
  }

  /** The leftmost `true` at or after `from`. */
  function First(bs: seq<bool>, from: nat): (r: Option<nat>)
    requires from <= |bs|
    ensures r.Some? ==> from <= r.value < |bs| && bs[r.value]
    ensures r.Some? ==> forall k :: from <= k < r.value ==> !bs[k]
    ensures r.None? ==> forall k :: from <= k < |bs| ==> !bs[k]
    decreases |bs| - from
  {
    if from == |bs| then None
    else if bs[from] then Some(from)
    else First(bs, from + 1)
  }

  // ---------------------------------------------------------------------------
  // The extractors

  /** `extract_page`: the value of the first run of digits. */
  function ExtractPage(text: string): (r: Result<nat, ParseError>)
    ensures r.Err? ==> r == Err(InvalidPage)
  {
    match Search(PageNumber, text)
    case None => Err(InvalidPage)
    case Some(i) => Ok(Number(text, i))
  }

  /** `int` of the run of digits that starts at `i`. */
  function Number(text: string, i: nat): nat
    requires i <= |text|
  {
    var j := DigitsEnd(text, i);
    assert AllDigits(text[i..j]);
    NatValue(text[i..j])
  }

  /** `extract_positions`: the two numbers of the first `N-M`, in that order. */
  function ExtractPositions(text: string): (r: Result<(nat, nat), ParseError>)
    ensures r.Err? ==> r == Err(InvalidPosition)
  {
    match Search(PositionRange, text)
    case None => Err(InvalidPosition)
    case Some(i) => Ok((Number(text, i), Number(text, DigitsEnd(text, i) + 1)))
  }

  /** `datetime.strptime(f"{date} {time}", "%d. %B %Y %H:%M:%S")` on the matched groups. */
  function StrpTime(day: string, month: string, year: string, hour: string, minute: string, second: string,
                    months: seq<string>): (r: Result<DateTime, ParseError>)
    requires AllDigits(day) && AllDigits(year) && AllDigits(hour) && AllDigits(minute) && AllDigits(second)
    ensures r.Ok? ==> ValidDateTime(r.value)
    ensures r.Err? ==> r == Err(DateTimeRejected)
  {
    match MonthNumber(months, month)
    case None => Err(DateTimeRejected)
    case Some(m) =>
      var dt := DateTime(NatValue(year), m, NatValue(day), NatValue(hour), NatValue(minute), NatValue(second));
      if ValidDateTime(dt) then Ok(dt) else Err(DateTimeRejected)
  }

  /** `extract_datetime`: the first `D. Month YYYY HH:MM:SS`, read as a date and time. */
  function ExtractDateTime(text: string, months: seq<string>): (r: Result<DateTime, ParseError>)
    ensures r.Ok? ==> ValidDateTime(r.value)
    ensures r.Err? ==> r == Err(InvalidDateTime) || r == Err(DateTimeRejected)
  {
    match Search(Timestamp, text)
    case None => Err(InvalidDateTime)
    case Some(i) => ReadTimestamp(text, i, months)
  }

  /** The two groups of the timestamp match at `i`, handed to `strptime`. */
  function ReadTimestamp(text: string, i: nat, months: seq<string>): (r: Result<DateTime, ParseError>)
    requires i <= |text| && MatchesAt(Timestamp, text, i)
    ensures r.Ok? ==> ValidDateTime(r.value)
    ensures r.Err? ==> r == Err(DateTimeRejected)
  {
    var f := TimestampFields(text, i);
    FieldsAreDigits(text, i);
    StrpTime(f.day, f.month, f.year, f.hour, f.minute, f.second, months)
  }

  /** The text of each field of a timestamp match. */
  datatype Fields = Fields(day: string, month: string, year: string, hour: string, minute: string, second: string)

  /** How many digits `\d{1,2}` takes for the day: two when the rest still matches, else one. */
  function DayWidth(text: string, i: nat): nat {
    if TimestampWith(text, i, 2) then 2 else 1
  }

  /** The fields of the timestamp match at `i`. */
  function TimestampFields(text: string, i: nat): Fields
    requires i <= |text| && MatchesAt(Timestamp, text, i)
  {
    var n := DayWidth(text, i);
    FieldsAt(text, i, n, WordEnd(text, i + n + 2))
  }

  /** The fields of a timestamp with `n` day digits whose month word ends at `w`. */
  function FieldsAt(text: string, i: nat, n: nat, w: nat): Fields
    requires i + n + 2 <= w && w + 14 <= |text|
  {
    Fields(text[i..i + n], text[i + n + 2..w], text[w + 1..w + 5], text[w + 6..w + 8], text[w + 9..w + 11], text[w + 12..w + 14])
  }

  /** The numeric fields of a timestamp match are digits, as `strptime` needs. */
  lemma FieldsAreDigits(text: string, i: nat)
    requires i <= |text| && MatchesAt(Timestamp, text, i)
    ensures var f := TimestampFields(text, i);
      AllDigits(f.day) && AllDigits(f.year) && AllDigits(f.hour) && AllDigits(f.minute) && AllDigits(f.second)
  {
    var n := DayWidth(text, i);
    assert TimestampWith(text, i, n);
    FrameDigits(text, i, n, WordEnd(text, i + n + 2));
  }

  lemma FrameDigits(text: string, i: nat, n: nat, w: nat)
    requires i + n + 2 <= w && w + 14 <= |text| && TimestampFrame(text, i, n, w)
    ensures var f := FieldsAt(text, i, n, w);
      AllDigits(f.day) && AllDigits(f.year) && AllDigits(f.hour) && AllDigits(f.minute) && AllDigits(f.second)
  {
    TwoDigitsSlice(text, w + 6);
    TwoDigitsSlice(text, w + 9);
    TwoDigitsSlice(text, w + 12);
    TwoDigitsSlice(text, w + 1);
    TwoDigitsSlice(text, w + 3);
    assert text[w + 1..w + 5] == text[w + 1..w + 3] + text[w + 3..w + 5];
    if n == 2 {
      TwoDigitsSlice(text, i);
    }
  }

  lemma TwoDigitsSlice(text: string, k: nat)
    requires TwoDigits(text, k)
    ensures AllDigits(text[k..k + 2])
  {
  }

  // ---------------------------------------------------------------------------
  // Title and author

  function Last(xs: seq<string>): string
    requires |xs| > 0
  {
    xs[|xs| - 1]
  }

  /**
   * Lines 39-40 of both copies: the author is what follows the last `(`
   * with every `)` deleted; the title is what precedes the first
   * occurrence of `(` + author, stripped, and, in the newer copy, without
   * any U+FEFF.
   */
  function TitleAndAuthor(line: string, stripBom: bool): (r: (string, string))
    ensures '(' !in r.1 && ')' !in r.1
    ensures stripBom ==> BOM !in r.0
    ensures !stripBom ==> IsStripped(r.0)
  {
    SplitJoin(line, "(");
    var last := Last(Split(line, "("));
    NotContainsChar(last, '(');
    var author := ReplaceChar(last, ')', "");
    ReplaceCharChars(last, ')', "");
    var title := Strip(Split(line, "(" + author)[0]);
    ReplaceCharChars(title, BOM, "");
    (if stripBom then ReplaceChar(title, BOM, "") else title, author)
  }

  // ---------------------------------------------------------------------------
  // The block

  /**
   * `from_clipping` (stripBom) and `parse_clipping` (not stripBom), with the
   * checks in the order in which the code performs them: `lines[0]`,
   * `lines[1]`, the unpacking of the metadata parts, `extract_page` (only
   * with three parts), `extract_positions`, `extract_datetime`, and
   * `lines[2]` last.
   */
  function ParseBlock(text: string, stripBom: bool, months: seq<string>): Result<Highlight, ParseError> {
    ParseLines(Lines(text), stripBom, months)
  }

  /** The block after its blank lines are dropped. */
  function ParseLines(lines: seq<string>, stripBom: bool, months: seq<string>): (r: Result<Highlight, ParseError>)
    ensures r.Ok? ==> |lines| >= 3 && r.value.text == lines[2]
    ensures r.Ok? ==> (r.value.bookTitle, r.value.author) == TitleAndAuthor(lines[0], stripBom)
    ensures r.Ok? ==> (r.value.page.Some? <==> |Split(lines[1], MetaSeparator)| == 3)
    ensures r.Ok? ==> ValidDateTime(r.value.createdAt)
    ensures |lines| < 2 ==> r == Err(MissingLine(|lines|))
    ensures |lines| < 3 ==> r.Err?
    ensures |lines| >= 2 ==> var n := |Split(lines[1], MetaSeparator)|;
      n != 2 && n != 3 ==> r == Err(MetaPartCount(n))
  {
    if |lines| == 0 then Err(MissingLine(0))
    else
      var titleAndAuthor := TitleAndAuthor(lines[0], stripBom);
      if |lines| == 1 then Err(MissingLine(1))
      else
        var meta :- ParseMetadata(lines[1], months);
        if |lines| == 2 then Err(MissingLine(2))
        else
          Ok(Highlight(lines[2], titleAndAuthor.0, meta.startPosition, meta.endPosition,
                       meta.createdAt, meta.page, titleAndAuthor.1))
  }

  /**
   * The block fails exactly when its metadata line fails, with that line's
   * error, once it has its first two lines; an accepted block carries the
   * page, positions and date its metadata line reads as.
   */
  lemma ParseLinesMetadata(lines: seq<string>, stripBom: bool, months: seq<string>)
    requires |lines| >= 2
    ensures var r := ParseLines(lines, stripBom, months); var meta := ParseMetadata(lines[1], months);
      && (meta.Err? ==> r == Err(meta.error))
      && (meta.Ok? && |lines| == 2 ==> r == Err(MissingLine(2)))
      && (meta.Ok? && |lines| >= 3 ==>
            r.Ok? && meta.value == Metadata(r.value.page, r.value.startPosition, r.value.endPosition, r.value.createdAt))
  {
  }

  /** What the second line of a block carries. */
  datatype Metadata = Metadata(page: Option<nat>, startPosition: nat, endPosition: nat, createdAt: DateTime)

  /**
   * The second line, split on " | " into two or three parts: the page
   * (only with three parts), the position range of the second-to-last
   * part and the timestamp of the last part, read in that order.
   */
  function ParseMetadata(line: string, months: seq<string>): (r: Result<Metadata, ParseError>)
    ensures r.Ok? ==> ValidDateTime(r.value.createdAt)
    ensures r.Ok? ==> (r.value.page.Some? <==> |Split(line, MetaSeparator)| == 3)
    ensures var n := |Split(line, MetaSeparator)|; n != 2 && n != 3 ==> r == Err(MetaPartCount(n))
    ensures var parts := Split(line, MetaSeparator); var n := |parts|;
      (n == 2 || n == 3) ==>
        (r.Ok? <==> PagePart(parts).Ok? && ExtractPositions(parts[n - 2]).Ok? && ExtractDateTime(parts[n - 1], months).Ok?)
    ensures var parts := Split(line, MetaSeparator); var n := |parts|;
      r.Ok? ==> ((n == 2 || n == 3) &&
        r.value == Metadata(PagePart(parts).value, ExtractPositions(parts[n - 2]).value.0,
                            ExtractPositions(parts[n - 2]).value.1, ExtractDateTime(parts[n - 1], months).value))
  {
    var parts := Split(line, MetaSeparator);
    if |parts| != 2 && |parts| != 3 then Err(MetaPartCount(|parts|))
    else
      var page :- PagePart(parts);
      var positions :- ExtractPositions(parts[|parts| - 2]);
      var createdAt :- ExtractDateTime(parts[|parts| - 1], months);
      Ok(Metadata(page, positions.0, positions.1, createdAt))
  }

  /** `page`: read from the first part when there are three, absent when there are two. */
  function PagePart(parts: seq<string>): (r: Result<Option<nat>, ParseError>)
    requires |parts| == 2 || |parts| == 3
    ensures |parts| == 2 ==> r == Ok(None)
    ensures |parts| == 3 ==> match ExtractPage(parts[0])
      case Ok(n) => r == Ok(Some(n))
      case Err(e) => r == Err(e)
  {
    if |parts| == 2 then Ok(None)
    else
      var n :- ExtractPage(parts[0]);
      Ok(Some(n))
  }

  /** `Highlight.from_clipping` of `src/clippings.py`. */
  function FromClipping(text: string, months: seq<string>): (r: Result<Highlight, ParseError>)
    ensures r.Ok? ==> BOM !in r.value.bookTitle
  {
    ParseBlock(text, true, months)
  }

  /** `Highlight.parse_clipping` of `clippings.py`. */
  function ParseClipping(text: string, months: seq<string>): (r: Result<Highlight, ParseError>)
    ensures r.Ok? ==> IsStripped(r.value.bookTitle)
  {
    ParseBlock(text, false, months)
  }
}
