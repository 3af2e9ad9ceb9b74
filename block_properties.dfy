/**
 * The block parser inverts the layout the e-reader writes: a block made of
 * `<title> (<author>)`, the metadata line and the highlighted text reads
 * back as the record it was written from, blank lines do not matter, and
 * an export of such blocks reads back block by block.
 */
module BlockProperties {
  import opened Wrappers
  import opened Text
  import opened Clippings
  import opened ClippingProperties

  // ---------------------------------------------------------------------------
  // Title and author (lines 39-40 of both copies)

  /**
   * A first line written as `<title> (<author>)` splits back into that
   * title and author, provided the author has no parentheses, the title is
   * already stripped and the title does not contain `(` followed by the
   * author. The newer copy also deletes every U+FEFF from the title.
   */
  lemma TitleAndAuthorRoundTrip(t: string, a: string, stripBom: bool)
    requires '(' !in a && ')' !in a
    requires IsStripped(t) && !Contains(t + " ", "(" + a)
    ensures TitleAndAuthor(t + " (" + a + ")", stripBom)
         == (if stripBom then ReplaceChar(t, BOM, "") else t, a)
  {
    AuthorOfLine(t, a);
    TitleOfLine(t, a);
  }

  /** The author is the piece after the last `(`, without the closing `)`. */
  lemma AuthorOfLine(t: string, a: string)
    requires '(' !in a && ')' !in a
    ensures ReplaceChar(Last(Split(t + " (" + a + ")", "(")), ')', "") == a
  {
    var line := t + " (" + a + ")";
    assert line == (t + " ") + ['('] + (a + ")");
    SplitConcatChar(t + " ", '(', a + ")");
    SplitCharAbsent(a + ")", '(', "");
    assert Split(a + ")", "(") == [a + ")"];
    assert Last(Split(line, "(")) == a + ")";
    ReplaceCharConcat(a, ")", ')', "");
    ReplaceCharChars(a, ')', "");
    assert ReplaceChar(")", ')', "") == "";
  }

  /** The title is what precedes the first `(` + author, stripped. */
  lemma TitleOfLine(t: string, a: string)
    requires '(' !in a && IsStripped(t) && !Contains(t + " ", "(" + a)
    ensures Strip(Split(t + " (" + a + ")", "(" + a)[0]) == t
  {
    var sep := "(" + a;
    assert sep[1..] == a;
    NoEarlierIfAbsent(t + " ", sep);
    assert t + " (" + a + ")" == (t + " ") + sep + ")";
    SplitAtFirst(t + " ", sep, ")");
    StripAround("", t, " ");
    assert "" + t + " " == t + " ";
  }

  /**
   * The author is everything after the last `(`: an author written after
   * any text that ends in `(` comes back without its parentheses.
   */
  lemma AuthorAfterLastParen(prefix: string, a: string, stripBom: bool)
    requires '(' !in a
    ensures TitleAndAuthor(prefix + "(" + a, stripBom).1 == ReplaceChar(a, ')', "")
  {
    assert prefix + "(" + a == prefix + ['('] + a;
    SplitConcatChar(prefix, '(', a);
    SplitCharAbsent(a, '(', "");
    assert Split(a, "(") == [a];
  }

  // ---------------------------------------------------------------------------
  // Blank lines (line 36)

  /** An extra blank line anywhere, or a line break at either end, changes nothing. */
  lemma BlankLinesIgnored(a: string, b: string, stripBom: bool, months: seq<string>)
    ensures ParseBlock(a + "\n\n" + b, stripBom, months) == ParseBlock(a + "\n" + b, stripBom, months)
    ensures ParseBlock("\n" + a, stripBom, months) == ParseBlock(a, stripBom, months)
    ensures ParseBlock(a + "\n", stripBom, months) == ParseBlock(a, stripBom, months)
  {
    LinesOfBlankLine(a, b);
    LinesOfLeadingBreak(a);
    LinesOfTrailingBreak(a);
  }

  lemma LinesOfBlankLine(a: string, b: string)
    ensures Lines(a + "\n\n" + b) == Lines(a + "\n" + b)
  {
    LinesOfLeadingBreak(b);
    LinesConcat(a, "\n" + b);
    LinesConcat(a, b);
    assert a + "\n\n" + b == a + "\n" + ("\n" + b);
  }

  lemma LinesOfLeadingBreak(b: string)
    ensures Lines("\n" + b) == Lines(b)
  {
    LinesOfEmpty();
    LinesConcat("", b);
    assert "" + "\n" + b == "\n" + b;
  }

  lemma LinesOfTrailingBreak(a: string)
    ensures Lines(a + "\n") == Lines(a)
  {
    LinesOfEmpty();
    LinesConcat(a, "");
    assert a + "\n" + "" == a + "\n";
  }

  /** Three lines written as the e-reader does, with a blank line before the text. */
  lemma LinesOfBlock(l0: string, l1: string, l2: string)
    requires l0 != "" && '\n' !in l0
    requires l1 != "" && '\n' !in l1
    requires l2 != "" && '\n' !in l2
    ensures Lines(l0 + "\n" + l1 + "\n\n" + l2 + "\n") == [l0, l1, l2]
  {
    var tail := l2 + "\n" + "";
    var middle := l1 + "\n" + ("" + "\n" + tail);
    assert l0 + "\n" + l1 + "\n\n" + l2 + "\n" == l0 + "\n" + middle;
    LinesOfEmpty();
    LinesOfLine(l0);
    LinesOfLine(l1);
    LinesOfLine(l2);
    LinesConcat(l2, "");
    LinesConcat("", tail);
    LinesConcat(l1, "" + "\n" + tail);
    LinesConcat(l0, middle);
  }

  // ---------------------------------------------------------------------------
  // The layout the e-reader writes

  /** What the e-reader records for one highlight. */
  datatype Entry = Entry(
    title: string,
    author: string,
    page: Option<(string, nat)>,   // the text before the page number, and the page
    positionLabel: string,
    startPosition: nat,
    endPosition: nat,
    dateLabel: string,
    createdAt: DateTime,
    text: string)

  /** The parts of the metadata line: `[<label><page>, ]<label><start>-<end>, <label><date>`. */
  function MetaParts(e: Entry, months: seq<string>): seq<string>
    requires 1 <= e.createdAt.month <= |months|
  {
    var positions := e.positionLabel + Decimal(e.startPosition) + "-" + Decimal(e.endPosition);
    var date := e.dateLabel + FormatDateTime(e.createdAt, months);
    match e.page
    case None => [positions, date]
    case Some(p) => [p.0 + Decimal(p.1), positions, date]
  }

  /** The block the e-reader writes for an entry. */
  function EntryText(e: Entry, months: seq<string>): string
    requires 1 <= e.createdAt.month <= |months|
  {
    e.title + " (" + e.author + ")" + "\n" + Join(MetaParts(e, months), MetaSeparator) + "\n\n" + e.text + "\n"
  }

  /** Free text in the metadata line: no digit, no `|`, no line break. */
  predicate Label(s: string) {
    NoDigits(s) && '|' !in s && '\n' !in s
  }

  /** The entries whose block reads back: what the round trip assumes of the free text. */
  predicate WellFormed(e: Entry, months: seq<string>) {
    && IsStripped(e.title) && '\n' !in e.title && !Contains(e.title + " ", "(" + e.author)
    && '(' !in e.author && ')' !in e.author && '\n' !in e.author
    && (e.page.Some? ==> Label(e.page.value.0))
    && Label(e.positionLabel) && Label(e.dateLabel)
    && ValidDateTime(e.createdAt) && NamesMonth(months, e.createdAt.month)
    && IsWord(months[e.createdAt.month - 1])
    && e.text != "" && '\n' !in e.text
  }

  /** The record an entry's block should produce. */
  function Expected(e: Entry, stripBom: bool): Highlight {
    Highlight(
      e.text,
      if stripBom then ReplaceChar(e.title, BOM, "") else e.title,
      e.startPosition,
      e.endPosition,
      e.createdAt,
      if e.page.Some? then Some(e.page.value.1) else None,
      e.author)
  }

  /**
   * `from_clipping` (stripBom) and `parse_clipping` read a well-formed
   * entry's block back as that entry.
   */
  lemma ParseBlockOfEntry(e: Entry, stripBom: bool, months: seq<string>)
    requires WellFormed(e, months)
    ensures ParseBlock(EntryText(e, months), stripBom, months) == Ok(Expected(e, stripBom))
  {
    var l0 := e.title + " (" + e.author + ")";
    var l1 := Join(MetaParts(e, months), MetaSeparator);
    assert EntryText(e, months) == l0 + "\n" + l1 + "\n\n" + e.text + "\n";
    assert '\n' !in l0;
    MetaLineChars(e, months);
    LinesOfBlock(l0, l1, e.text);
    TitleAndAuthorRoundTrip(e.title, e.author, stripBom);
    MetadataOfEntry(e, months);
  }

  /** The metadata line reads back as the entry's page, positions and date. */
  lemma MetadataOfEntry(e: Entry, months: seq<string>)
    requires WellFormed(e, months)
    ensures ParseMetadata(Join(MetaParts(e, months), MetaSeparator), months)
         == Ok(Metadata(Expected(e, true).page, e.startPosition, e.endPosition, e.createdAt))
  {
    var parts := MetaParts(e, months);
    MetaPartChars(e, months);
    SplitOfJoin(parts, MetaSeparator, 1);
    PartsOfEntry(e, months);
    ParseMetadataOfParts(Join(parts, MetaSeparator), parts, months);
  }

  /** Each part of an entry's metadata line reads back as what it was written from. */
  lemma PartsOfEntry(e: Entry, months: seq<string>)
    requires WellFormed(e, months)
    ensures var parts := MetaParts(e, months);
      && (|parts| == 2 || |parts| == 3)
      && PagePart(parts) == Ok(Expected(e, true).page)
      && ExtractPositions(parts[|parts| - 2]) == Ok((e.startPosition, e.endPosition))
      && ExtractDateTime(parts[|parts| - 1], months) == Ok(e.createdAt)
  {
    var positions := e.positionLabel + Decimal(e.startPosition) + "-" + Decimal(e.endPosition);
    var date := e.dateLabel + FormatDateTime(e.createdAt, months);
    ExtractPositionsReadsRange(e.positionLabel, e.startPosition, e.endPosition, "");
    assert positions + "" == positions;
    ExtractDateTimeReadsTimestamp(e.dateLabel, e.createdAt, months, "");
    assert date + "" == date;
    if e.page.Some? {
      var pageLabel, n := e.page.value.0, e.page.value.1;
      ExtractPageReadsNumber(pageLabel, n, "");
      assert pageLabel + Decimal(n) + "" == pageLabel + Decimal(n);
    }
  }

  /** The metadata line whose parts all read back. */
  lemma ParseMetadataOfParts(line: string, parts: seq<string>, months: seq<string>)
    requires Split(line, MetaSeparator) == parts && (|parts| == 2 || |parts| == 3)
    requires PagePart(parts).Ok?
    requires ExtractPositions(parts[|parts| - 2]).Ok?
    requires ExtractDateTime(parts[|parts| - 1], months).Ok?
    ensures ParseMetadata(line, months)
         == Ok(Metadata(PagePart(parts).value, ExtractPositions(parts[|parts| - 2]).value.0,
                        ExtractPositions(parts[|parts| - 2]).value.1,
                        ExtractDateTime(parts[|parts| - 1], months).value))
  {
  }

  /** No part of the metadata line has a `|` or a line break. */
  lemma MetaPartChars(e: Entry, months: seq<string>)
    requires WellFormed(e, months)
    ensures var parts := MetaParts(e, months);
      && (|parts| == 2 || |parts| == 3)
      && forall k :: 0 <= k < |parts| ==> '|' !in parts[k] && '\n' !in parts[k]
  {
    MetaPartLacks(e, months, '|');
    MetaPartLacks(e, months, '\n');
  }

  /** A character that is none of those a metadata part is made of. */
  lemma MetaPartLacks(e: Entry, months: seq<string>, c: char)
    requires WellFormed(e, months) && FormatLacks(c)
    requires (e.page.Some? ==> c !in e.page.value.0) && c !in e.positionLabel && c !in e.dateLabel
    ensures forall k :: 0 <= k < |MetaParts(e, months)| ==> c !in MetaParts(e, months)[k]
  {
    DigitsLack(Decimal(e.startPosition), c);
    DigitsLack(Decimal(e.endPosition), c);
    FormatDateTimeLacks(e.createdAt, months, c);
    if e.page.Some? {
      DigitsLack(Decimal(e.page.value.1), c);
    }
  }

  /** The metadata line is a non-empty line. */
  lemma MetaLineChars(e: Entry, months: seq<string>)
    requires WellFormed(e, months)
    ensures var l1 := Join(MetaParts(e, months), MetaSeparator);
      l1 != "" && '\n' !in l1
  {
    var parts := MetaParts(e, months);
    MetaPartChars(e, months);
    JoinLast(parts, MetaSeparator);
    if |parts| == 3 {
      JoinLast(parts[..2], MetaSeparator);
      assert parts[..2][..1] == [parts[0]];
    } else {
      assert parts[..1] == [parts[0]];
    }
  }

  /** A run of digits lacks every character that is not a digit. */
  lemma DigitsLack(s: string, c: char)
    requires AllDigits(s) && !IsDigit(c)
    ensures c !in s
  {
    forall k | 0 <= k < |s| ensures s[k] != c {
      assert IsDigit(s[k]);
    }
  }

  /** Not one of the characters a formatted date is made of. */
  predicate FormatLacks(c: char) {
    !IsWordChar(c) && c != ' ' && c != '.' && c != ':' && c != '-'
  }

  /** A formatted date whose month name is a word lacks every such character. */
  lemma FormatDateTimeLacks(dt: DateTime, months: seq<string>, c: char)
    requires 1 <= dt.month <= |months| && IsWord(months[dt.month - 1]) && FormatLacks(c)
    ensures c !in FormatDateTime(dt, months)
  {
    var m := months[dt.month - 1];
    forall k | 0 <= k < |m| ensures m[k] != c {
      assert IsWordChar(m[k]);
    }
    DigitsLack(Decimal(dt.day), c);
    DigitsLack(Padded(dt.year, 4), c);
    DigitsLack(Padded(dt.hour, 2), c);
    DigitsLack(Padded(dt.minute, 2), c);
    DigitsLack(Padded(dt.second, 2), c);
  }

  // ---------------------------------------------------------------------------
  // A whole export (tests/test_german_highlight.py:22-25)

  /** The line an export puts in front of every block. */
  const Divider: string := "==========\n"

  /**
   * `[from_clipping(c) for c in text.split(divider) if c]`: every record,
   * or the error of the first block that fails.
   */
  function ParseExport(text: string, months: seq<string>): Result<seq<Highlight>, ParseError> {
    ParseAll(NonEmpty(Split(text, Divider)), b => FromClipping(b, months))
  }

  /**
   * The comprehension over the blocks with `parse` as the per-block
   * parser: all records when every block parses, else the error of the
   * first block that fails.
   */
  function ParseAll(blocks: seq<string>, parse: string -> Result<Highlight, ParseError>): (r: Result<seq<Highlight>, ParseError>)
    ensures r.Ok? <==> forall k :: 0 <= k < |blocks| ==> parse(blocks[k]).Ok?
    ensures r.Ok? ==> |r.value| == |blocks|
    ensures r.Ok? ==> forall k :: 0 <= k < |blocks| ==> parse(blocks[k]) == Ok(r.value[k])
    ensures r.Err? ==> exists k :: 0 <= k < |blocks| && FirstFailure(blocks, parse, k) && parse(blocks[k]) == Err(r.error)
    decreases |blocks|
  {
    if blocks == [] then Ok([])
    else
      match parse(blocks[0])
      case Err(e) =>
        assert FirstFailure(blocks, parse, 0);
        Err(e)
      case Ok(h) =>
        match ParseAll(blocks[1..], parse)
        case Err(e) =>
          var k :| 0 <= k < |blocks[1..]| && FirstFailure(blocks[1..], parse, k) && parse(blocks[1..][k]) == Err(e);
          FailureShift(blocks, parse, k);
          Err(e)
        case Ok(rest) =>
          MapShift(parse, (x: Highlight) => Ok(x), blocks, h, rest);
          Ok([h] + rest)
  }

  /** Block `k` is the first block that `parse` rejects. */
  predicate FirstFailure(blocks: seq<string>, parse: string -> Result<Highlight, ParseError>, k: nat)
    requires k < |blocks|
  {
    parse(blocks[k]).Err? && forall j :: 0 <= j < k ==> parse(blocks[j]).Ok?
  }

  lemma FailureShift(blocks: seq<string>, parse: string -> Result<Highlight, ParseError>, k: nat)
    requires blocks != [] && parse(blocks[0]).Ok? && k < |blocks| - 1 && FirstFailure(blocks[1..], parse, k)
    ensures FirstFailure(blocks, parse, k + 1) && blocks[k + 1] == blocks[1..][k]
  {
    forall j | 0 <= j < k + 1 ensures parse(blocks[j]).Ok? {
      if j > 0 {
        assert blocks[j] == blocks[1..][j - 1];
      }
    }
  }

  /** What `f` gives for the first element and for the rest, it gives for them all. */
  lemma MapShift<T, U, R>(f: T -> R, g: U -> R, xs: seq<T>, y: U, ys: seq<U>)
    requires xs != [] && f(xs[0]) == g(y) && |ys| == |xs| - 1
    requires forall j :: 0 <= j < |ys| ==> f(xs[1..][j]) == g(ys[j])
    ensures forall k :: 0 <= k < |xs| ==> f(xs[k]) == g(([y] + ys)[k])
  {
    forall k | 0 <= k < |xs|
      ensures f(xs[k]) == g(([y] + ys)[k])
    {
      if k > 0 {
        assert xs[k] == xs[1..][k - 1];
      }
    }
  }

  /** The blocks of a sequence of entries. */
  function Texts(es: seq<Entry>, months: seq<string>): (r: seq<string>)
    requires forall k :: 0 <= k < |es| ==> 1 <= es[k].createdAt.month <= |months|
    ensures |r| == |es| && forall k :: 0 <= k < |es| ==> r[k] == EntryText(es[k], months)
  {
    if es == [] then [] else [EntryText(es[0], months)] + Texts(es[1..], months)
  }

  /** The records a sequence of entries should produce. */
  function ExpectedAll(es: seq<Entry>): (r: seq<Highlight>)
    ensures |r| == |es| && forall k :: 0 <= k < |es| ==> r[k] == Expected(es[k], true)
  {
    if es == [] then [] else [Expected(es[0], true)] + ExpectedAll(es[1..])
  }

  /** What an export of entries looks like: a divider in front of every block. */
  function ExportText(es: seq<Entry>, months: seq<string>): string
    requires forall k :: 0 <= k < |es| ==> 1 <= es[k].createdAt.month <= |months|
  {
    Divider + Join(Texts(es, months), Divider)
  }

  /** An entry whose free text has no `=`, so that no divider can start inside its block. */
  predicate Exportable(e: Entry, months: seq<string>) {
    && WellFormed(e, months)
    && '=' !in e.title && '=' !in e.author && '=' !in e.text
    && (e.page.Some? ==> '=' !in e.page.value.0)
    && '=' !in e.positionLabel && '=' !in e.dateLabel
  }

  /** The test's driver reads an export of entries back as their records, in order. */
  lemma ParseExportOfEntries(es: seq<Entry>, months: seq<string>)
    requires forall k :: 0 <= k < |es| ==> 1 <= es[k].createdAt.month <= |months|
    requires forall k :: 0 <= k < |es| ==> Exportable(es[k], months)
    ensures ParseExport(ExportText(es, months), months) == Ok(ExpectedAll(es))
  {
    var texts := Texts(es, months);
    forall k | 0 <= k < |texts| ensures '=' !in texts[k] && texts[k] != "" {
      EntryLacksEquals(es[k], months);
    }
    SplitExport(texts);
    ParseAllOfEntries(es, months);
  }

  /** Cutting at the dividers gives back the blocks, when none of them has a `=`. */
  lemma SplitExport(blocks: seq<string>)
    requires forall k :: 0 <= k < |blocks| ==> '=' !in blocks[k] && blocks[k] != ""
    ensures NonEmpty(Split(Divider + Join(blocks, Divider), Divider)) == blocks
  {
    assert Divider[..0] == [];
    SplitAtFirst("", Divider, Join(blocks, Divider));
    assert "" + Divider + Join(blocks, Divider) == Divider + Join(blocks, Divider);
    if blocks == [] {
      SplitWhole("", Divider);
      assert NonEmpty([""] + [""]) == [];
    } else {
      SplitOfJoin(blocks, Divider, 0);
      NonEmptyConcat([""], blocks);
      NonEmptyOfNonEmpty(blocks);
    }
  }

  lemma {:induction false} ParseAllOfEntries(es: seq<Entry>, months: seq<string>)
    requires forall k :: 0 <= k < |es| ==> 1 <= es[k].createdAt.month <= |months|
    requires forall k :: 0 <= k < |es| ==> WellFormed(es[k], months)
    ensures ParseAll(Texts(es, months), b => FromClipping(b, months)) == Ok(ExpectedAll(es))
  {
    if es != [] {
      var rest := es[1..];
      assert forall k :: 0 <= k < |rest| ==> rest[k] == es[k + 1];
      ParseAllOfEntries(rest, months);
      var texts := Texts(es, months);
      assert texts[1..] == Texts(rest, months);
      ParseBlockOfEntry(es[0], true, months);
      ParseAllCons(texts, Expected(es[0], true), ExpectedAll(rest), b => FromClipping(b, months));
      assert ExpectedAll(es) == [Expected(es[0], true)] + ExpectedAll(rest);
    }
  }

  lemma ParseAllCons(blocks: seq<string>, h: Highlight, rest: seq<Highlight>, parse: string -> Result<Highlight, ParseError>)
    requires blocks != [] && parse(blocks[0]) == Ok(h) && ParseAll(blocks[1..], parse) == Ok(rest)
    ensures ParseAll(blocks, parse) == Ok([h] + rest)
  {
  }

  /** An exportable entry's block is non-empty and has no `=`. */
  lemma EntryLacksEquals(e: Entry, months: seq<string>)
    requires Exportable(e, months)
    ensures '=' !in EntryText(e, months) && EntryText(e, months) != ""
  {
    MetaPartLacks(e, months, '=');
    JoinLacks(MetaParts(e, months), MetaSeparator, '=');
  }
}
