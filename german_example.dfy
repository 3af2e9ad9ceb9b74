/**
 * The three-block German export of `tests/test_german_highlight.py`, with
 * its titles, authors, positions, page and timestamps, read back by the
 * model. The labels of the metadata line (`- Deine Markierung bei Position `,
 * `Hinzugefügt am Montag, ` and so on) and the highlighted texts are left as
 * parameters: any labels without digits, `|`, `=` or line breaks and any
 * one-line texts give the records the test expects. `GermanTestExport`
 * fixes the labels to the test's own.
 */
module GermanExample {
  import opened Wrappers
  import opened Text
  import opened Clippings
  import opened ClippingProperties
  import opened BlockProperties

  const GermanMonths: seq<string> :=
    ["Januar", "Februar", "März", "April", "Mai", "Juni",
     "Juli", "August", "September", "Oktober", "November", "Dezember"]

  const TheGame: string := "The Game"
  const Strauss: string := "Neil Strauss"
  const PermanentRecord: string := "Permanent " + "Record · " + "Meine " + "Geschichte " + "(German " + "Edition)"
  const Snowden: string := "Edward Snowden"

  /** A label of the metadata line. */
  predicate Plain(s: string) {
    Label(s) && '=' !in s
  }

  /** A highlighted text. */
  predicate Body(s: string) {
    s != "" && '\n' !in s && '=' !in s
  }

  /** The two highlights of "The Game"; its title line starts with a U+FEFF. */
  function GameEntry(positionLabel: string, start: nat, end: nat, dateLabel: string, createdAt: DateTime, text: string): Entry {
    Entry([BOM] + TheGame, Strauss, None, positionLabel, start, end, dateLabel, createdAt, text)
  }

  /** The highlight of "Permanent Record", on page 49. */
  function RecordEntry(pageLabel: string, positionLabel: string, dateLabel: string, text: string): Entry {
    Entry(PermanentRecord, Snowden, Some((pageLabel, 49)), positionLabel, 738, 740, dateLabel,
      DateTime(2024, 9, 16, 22, 36, 9), text)
  }

  /** The three entries of the export, in order. */
  function GermanEntries(gamePosition: string, recordPage: string, recordPosition: string, dateLabel: string,
                         t1: string, t2: string, t3: string): seq<Entry>
  {
    [GameEntry(gamePosition, 6470, 6471, dateLabel, DateTime(2023, 9, 25, 22, 42, 15), t1),
     GameEntry(gamePosition, 6520, 6520, dateLabel, DateTime(2023, 9, 25, 22, 48, 35), t2),
     RecordEntry(recordPage, recordPosition, dateLabel, t3)]
  }

  /** The records the test expects, in order. */
  function GermanRecords(t1: string, t2: string, t3: string): seq<Highlight> {
    [Highlight(t1, TheGame, 6470, 6471, DateTime(2023, 9, 25, 22, 42, 15), None, Strauss),
     Highlight(t2, TheGame, 6520, 6520, DateTime(2023, 9, 25, 22, 48, 35), None, Strauss),
     Highlight(t3, PermanentRecord, 738, 740, DateTime(2024, 9, 16, 22, 36, 9), Some(49), Snowden)]
  }

  /**
   * Splitting the export on the divider gives three records: the BOM is
   * gone from "The Game", the parenthetical stays in the second title, the
   * page is 49 and the timestamps are the ones the blocks show.
   */
  lemma GermanExport(gamePosition: string, recordPage: string, recordPosition: string, dateLabel: string,
                     t1: string, t2: string, t3: string)
    requires Plain(gamePosition) && Plain(recordPage) && Plain(recordPosition) && Plain(dateLabel)
    requires Body(t1) && Body(t2) && Body(t3)
    ensures var es := GermanEntries(gamePosition, recordPage, recordPosition, dateLabel, t1, t2, t3);
      ParseExport(ExportText(es, GermanMonths), GermanMonths) == Ok(GermanRecords(t1, t2, t3))
  {
    var es := GermanEntries(gamePosition, recordPage, recordPosition, dateLabel, t1, t2, t3);
    GermanExportable(gamePosition, recordPage, recordPosition, dateLabel, t1, t2, t3);
    ParseExportOfEntries(es, GermanMonths);
    GermanExpected(gamePosition, recordPage, recordPosition, dateLabel, t1, t2, t3);
  }

  /** The labels of the test's metadata lines, in short pieces. */
  const GamePositionLabel: string := "- Deine " + "Markierung " + "bei " + "Position "
  const RecordPageLabel: string := "- Deine " + "Markierung " + "auf " + "Seite "
  const RecordPositionLabel: string := "bei " + "Position "
  const AddedLabel: string := "Hinzugefügt " + "am " + "Montag, "

  /**
   * The test's own labels meet the conditions of `GermanExport`, so its
   * three blocks, labels as written, read back as the expected records.
   */
  lemma GermanTestExport(t1: string, t2: string, t3: string)
    requires Body(t1) && Body(t2) && Body(t3)
    ensures var es := GermanEntries(GamePositionLabel, RecordPageLabel, RecordPositionLabel, AddedLabel, t1, t2, t3);
      ParseExport(ExportText(es, GermanMonths), GermanMonths) == Ok(GermanRecords(t1, t2, t3))
  {
    GermanLabelsPlain();
    GermanExport(GamePositionLabel, RecordPageLabel, RecordPositionLabel, AddedLabel, t1, t2, t3);
  }

  /** No label of the test holds a digit, `|`, `=` or a line break. */
  lemma GermanLabelsPlain()
    ensures Plain(GamePositionLabel) && Plain(RecordPageLabel) && Plain(RecordPositionLabel) && Plain(AddedLabel)
  {
    PositionPlain();
    MarkingPlain("bei ", "Position ");
    MarkingPlain("auf ", "Seite ");
    AddedPlain();
  }

  /** `- Deine Markierung <w1><w2>`. */
  lemma MarkingPlain(w1: string, w2: string)
    requires Plain(w1) && Plain(w2)
    ensures Plain("- Deine " + "Markierung " + w1 + w2)
  {
    PiecePlain("- Deine ");
    PiecePlain("Markierung ");
    PlainConcat("- Deine ", "Markierung ");
    PlainConcat("- Deine " + "Markierung ", w1);
    PlainConcat("- Deine " + "Markierung " + w1, w2);
  }

  lemma PositionPlain()
    ensures Plain("bei ") && Plain("Position ") && Plain("auf ") && Plain("Seite ") && Plain(RecordPositionLabel)
  {
    PiecePlain("bei ");
    PiecePlain("Position ");
    PiecePlain("auf ");
    PiecePlain("Seite ");
    PlainConcat("bei ", "Position ");
  }

  lemma AddedPlain()
    ensures Plain(AddedLabel)
  {
    PiecePlain("Hinzugefügt ");
    PiecePlain("am ");
    PiecePlain("Montag, ");
    PlainConcat("Hinzugefügt ", "am ");
    PlainConcat("Hinzugefügt " + "am ", "Montag, ");
  }

  /** Each piece of a label is plain. */
  lemma PiecePlain(s: string)
    requires s in {"- Deine ", "Markierung ", "bei ", "Position ", "auf ", "Seite ", "Hinzugefügt ", "am ", "Montag, "}
    ensures Plain(s)
  {
  }

  lemma PlainConcat(a: string, b: string)
    requires Plain(a) && Plain(b)
    ensures Plain(a + b)
  {
    forall k | 0 <= k < |a + b| ensures !IsDigit((a + b)[k]) {
      if k < |a| {
        assert (a + b)[k] == a[k];
      } else {
        assert (a + b)[k] == b[k - |a|];
      }
    }
  }

  /** Every entry of the export reads back. */
  lemma GermanExportable(gamePosition: string, recordPage: string, recordPosition: string, dateLabel: string,
                         t1: string, t2: string, t3: string)
    requires Plain(gamePosition) && Plain(recordPage) && Plain(recordPosition) && Plain(dateLabel)
    requires Body(t1) && Body(t2) && Body(t3)
    ensures var es := GermanEntries(gamePosition, recordPage, recordPosition, dateLabel, t1, t2, t3);
      forall k :: 0 <= k < |es| ==> 1 <= es[k].createdAt.month <= |GermanMonths| && Exportable(es[k], GermanMonths)
  {
    SeptemberNamed();
    GameExportable(gamePosition, 6470, 6471, dateLabel, DateTime(2023, 9, 25, 22, 42, 15), t1);
    GameExportable(gamePosition, 6520, 6520, dateLabel, DateTime(2023, 9, 25, 22, 48, 35), t2);
    RecordExportable(recordPage, recordPosition, dateLabel, t3);
  }

  /** The entries' expected records are the test's. */
  lemma GermanExpected(gamePosition: string, recordPage: string, recordPosition: string, dateLabel: string,
                       t1: string, t2: string, t3: string)
    ensures ExpectedAll(GermanEntries(gamePosition, recordPage, recordPosition, dateLabel, t1, t2, t3))
      == GermanRecords(t1, t2, t3)
  {
    GameTitleRead();
    RecordTitleRead();
  }

  /** September is the ninth month and a word. */
  lemma SeptemberNamed()
    ensures NamesMonth(GermanMonths, 9) && IsWord(GermanMonths[8])
  {
    forall k | 0 <= k < 8 ensures LowerString(GermanMonths[k]) != LowerString(GermanMonths[8]) {
      assert |GermanMonths[k]| != |GermanMonths[8]|;
    }
  }

  /** A highlight of "The Game" reads back. */
  lemma GameExportable(positionLabel: string, start: nat, end: nat, dateLabel: string, createdAt: DateTime, text: string)
    requires Plain(positionLabel) && Plain(dateLabel) && Body(text)
    requires createdAt.month == 9 && ValidDateTime(createdAt)
    requires NamesMonth(GermanMonths, 9) && IsWord(GermanMonths[8])
    ensures Exportable(GameEntry(positionLabel, start, end, dateLabel, createdAt, text), GermanMonths)
  {
    GameTitleFacts();
    StraussFacts();
  }

  /** The highlight of "Permanent Record" reads back. */
  lemma RecordExportable(pageLabel: string, positionLabel: string, dateLabel: string, text: string)
    requires Plain(pageLabel) && Plain(positionLabel) && Plain(dateLabel) && Body(text)
    requires NamesMonth(GermanMonths, 9) && IsWord(GermanMonths[8])
    ensures Exportable(RecordEntry(pageLabel, positionLabel, dateLabel, text), GermanMonths)
  {
    RecordTitleFacts();
    SnowdenFacts();
    assert ValidDateTime(DateTime(2024, 9, 16, 22, 36, 9));
  }

  /** The first line of "The Game" is stripped, one line, and the author's `(` comes only once. */
  lemma GameTitleFacts()
    ensures var t := [BOM] + TheGame;
      IsStripped(t) && '\n' !in t && '=' !in t && !Contains(t + " ", "(" + Strauss)
  {
    var t := [BOM] + TheGame;
    assert t == [BOM] + "The " + "Game";
    assert  '(' !in t + " ";
    NoEarlierByChar(t + " ", "(" + Strauss, 0);
  }

  /** The author of "The Game" has no parenthesis, `=` or line break. */
  lemma StraussFacts()
    ensures '(' !in Strauss && ')' !in Strauss && '\n' !in Strauss && '=' !in Strauss
  {
    assert Strauss == "Neil " + "Strauss";
  }

  /**
   * The second title keeps its own parenthetical: the only `(` in it opens
   * `(German Edition)`, which is not `(` followed by the author.
   */
  lemma RecordTitleFacts()
    ensures var t := PermanentRecord;
      IsStripped(t) && '\n' !in t && '=' !in t && !Contains(t + " ", "(" + Snowden)
  {
    RecordTitleChars();
    var p1 := "Permanent " + "Record · " + "Meine " + "Geschichte ";
    var p2 := "German " + "Edition) ";
    assert PermanentRecord + " " == p1 + "(" + p2;
    assert '(' !in p1 && '(' !in p2;
    NotAuthorParen(p1, p2, Snowden);
  }

  /** The second title is stripped and has no line break, `=` or U+FEFF. */
  lemma RecordTitleChars()
    ensures var t := PermanentRecord;
      IsStripped(t) && '\n' !in t && '=' !in t && BOM !in t
  {
    var t := PermanentRecord;
    assert t[0] == 'P' && t[|t| - 1] == ')';
    RecordTitleLacks('\n');
    RecordTitleLacks('=');
    RecordTitleLacks(BOM);
  }

  /** No piece of the second title holds a line break, `=` or U+FEFF. */
  lemma RecordTitleLacks(c: char)
    requires c == '\n' || c == '=' || c == BOM
    ensures c !in PermanentRecord
  {
    assert c !in "Permanent ";
    assert c !in "Record · ";
    assert c !in "Meine ";
    assert c !in "Geschichte ";
    assert c !in "(German ";
    assert c !in "Edition)";
  }

  /** The author of "Permanent Record" has no parenthesis, `=` or line break. */
  lemma SnowdenFacts()
    ensures '(' !in Snowden && ')' !in Snowden && '\n' !in Snowden && '=' !in Snowden
  {
    assert Snowden == "Edward " + "Snowden";
  }

  /** With one `(` that is not followed by the author's first letter, `(` + author does not occur. */
  lemma NotAuthorParen(p1: string, p2: string, a: string)
    requires '(' !in p1 && '(' !in p2 && a != [] && (p2 == [] || p2[0] != a[0])
    ensures !Contains(p1 + "(" + p2, "(" + a)
  {
    var p := p1 + "(" + p2;
    var sep := "(" + a;
    forall k: nat | k <= |p| ensures !OccursAt(p, sep, k) {
      if k + |sep| <= |p| {
        if k < |p1| {
          assert p[k] == p1[k];
        } else if k == |p1| {
          assert p[k + 1] == p2[0] && sep[1] == a[0];
        } else {
          assert p[k] == p2[k - |p1| - 1];
        }
        assert p[k..k + |sep|][0] == p[k];
      }
    }
  }

  /** The U+FEFF is removed from the first title, */
  lemma GameTitleRead()
    ensures ReplaceChar([BOM] + TheGame, BOM, "") == "The Game"
  {
    ReplaceCharConcat([BOM], TheGame, BOM, "");
    ReplaceCharChars(TheGame, BOM, "");
    assert ReplaceChar([BOM], BOM, "") == "";
  }

  /** and there is none to remove from the second. */
  lemma RecordTitleRead()
    ensures ReplaceChar(PermanentRecord, BOM, "") == PermanentRecord
  {
    RecordTitleChars();
    ReplaceCharChars(PermanentRecord, BOM, "");
  }
}
