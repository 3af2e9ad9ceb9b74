# KindleClippings in Dafny

A model of the core of KindleClippings, a set of Python scripts that read the
"My Clippings.txt" export of a Kindle e-reader. The export is a sequence of
blocks separated by a line of ten `=` signs. Each block holds a
`<title> (<author>)` line, a metadata line
(`[<page part> | ]<position part> | <date part>`), a blank line and the
highlighted text.

The model covers four pieces of the scripts:

- **The block parser** (`Highlight.from_clipping` in `src/clippings.py` and its older copy
  `Highlight.parse_clipping` in `clippings.py`). It turns one block into a highlight record:
  title, author, optional page, start and end position, timestamp and text.
  - The three extractors are modelled: `extract_page`, `extract_positions` and `extract_datetime`.
    Each is a leftmost `re.search` followed by `int` or `strptime`.
  - Every exception the Python code raises is an `Err` value carrying a `ParseError`, except the
    digit-count limit of CPython's `int()` (see "Left out").
  - The two copies differ only in that the newer one deletes U+FEFF from the title, so one
    function (`ParseBlock`) takes that difference as a flag.
- **The per-book report** of `parse_clippings.py`:
  - grouping the clippings by book title;
  - splitting a book's clippings into notes, highlights and bookmarks;
  - checking that a book's clippings agree on title and author;
  - pairing every note with the first highlight whose position range holds the note's position.
- **`remove_chars`** of `KindleClippings.py`. These are the five substitutions that turn a book
  title into a file name.
- **The test `tests/test_german_highlight.py`**, reconstructed as the German three-block export
  its asserts describe.

Modules:

| module | file | what it holds |
|---|---|---|
| `Wrappers` | `wrappers.dfy` | `Option` and `Result` |
| `Text` | `text.dfy` | Python's `str.split`, `strip`, `replace`, `"\n".split` with empty lines dropped, ASCII character classes, decimal numerals |
| `Clippings` | `clippings.dfy` | the block parser and the three extractors |
| `ClippingProperties` | `clipping_properties.dfy` | what each extractor reads back and exactly when it raises |
| `BlockProperties` | `block_properties.dfy` | a block written the way the e-reader writes it reads back as its record; a whole export reads back block by block |
| `GermanExample` | `german_example.dfy` | the three-block German export of the test, read back |
| `ParseClippings` | `parse_clippings.dfy` | grouping, kind split, book check and note/highlight matching |
| `FileNames` | `file_names.dfy` | `remove_chars`, step by step |

Python semantics used throughout:

- `re.search` is the leftmost match.
- `re.sub` is a left-to-right scan that replaces the leftmost non-overlapping matches.
- `\d`, `\s` and `\w` are the ASCII classes.
- `strptime("%B")` compares month names without regard to case. The month names are a
  parameter (a table of twelve names) rather than the process locale.

The imperative code of `parse_clippings.py` becomes methods with loops that are proved against
recursive specification functions. The list comprehensions and string code elsewhere become
functions.

Three points of the code that the model keeps as written:

- A note matches a highlight when its position lies in `range(start, end + 1)`
  (`parse_clippings.py:95-98`).
- A block with fewer than three non-empty lines raises `IndexError` in Python, not a "missing
  field" error. It is modelled as `MissingLine(n)`, in the code's order: `lines[2]` is read only
  after the metadata has been parsed (`src/clippings.py:41-52`).
- `clippings.py` does not remove U+FEFF from the title; only `src/clippings.py:40` does.

## Model

| member | source | states |
|---|---|---|
| Clippings.ParseBlock | src/clippings.py:34-62 | no contract of its own: the parser of one block, `ParseLines` on the block's non-empty lines with the U+FEFF deletion as a flag; characterised by `ParseLines`, `ParseLinesMetadata` and `BlockProperties.ParseBlockOfEntry` |
| Text.Lines | src/clippings.py:36 | the non-empty lines of the block: no line is empty or holds a line break; characterised further by `BlockProperties.LinesOfBlock` and `BlockProperties.BlankLinesIgnored` |
| Clippings.FromClipping | src/clippings.py:34-62 | a parsed title never holds U+FEFF (the newer copy deletes it) |
| Clippings.ParseClipping | clippings.py:34-62 | a parsed title is stripped; U+FEFF is not removed |
| Clippings.ParseLines | src/clippings.py:36-62 | on success there are at least three lines, the text is line 2, title and author come from line 0, a page is present exactly when the metadata line has three parts, and the date is valid; fewer than two lines is `MissingLine`, fewer than three is an error, a part count other than 2 or 3 is `MetaPartCount(n)` |
| Clippings.ParseLinesMetadata | src/clippings.py:41-52 | with two lines or more, a failing metadata line makes the block fail with that line's error; a good metadata line with no third line is `MissingLine(2)`; otherwise the record carries exactly the page, positions and date the metadata line reads as |
| Clippings.ParseMetadata | src/clippings.py:41-51 | a part count other than 2 or 3 fails with that count; with 2 or 3 parts the line parses exactly when `extract_page` (three parts only), `extract_positions` of the second-to-last part and `extract_datetime` of the last part all succeed, and the record holds their values; a page exactly when there are three parts; a parsed date is valid |
| Clippings.PagePart | src/clippings.py:44-48 | two parts give no page; three parts give `extract_page` of the first part, or its error |
| Clippings.TitleAndAuthor | src/clippings.py:38-40 | the author has no parentheses; with the newer copy's deletion the title has no U+FEFF, without it the title is stripped |
| Clippings.MatchesAt | src/clippings.py:66 | no contract of its own: whether `(\d+)` (line 66), `(\d+)-(\d+)` (line 85) or the timestamp pattern (line 74) matches at an index, with greedy digit and word runs; characterised by `Search`, `ClippingProperties.ExtractPageFails`, `ClippingProperties.ExtractPositionsFails` and `ClippingProperties.ExtractDateTimeFails` |
| Clippings.Search | src/clippings.py:66 | the position returned is a match with no match before it; none means no position matches |
| Clippings.ExtractPage | src/clippings.py:65-70 | its only error is "Invalid page" |
| Clippings.ExtractPositions | src/clippings.py:82-90 | its only error is "Invalid position" |
| Clippings.ExtractDateTime | src/clippings.py:73-79 | a result is a valid date; the errors are "Invalid datetime" or `strptime` rejecting the matched fields |
| Clippings.StrpTime | src/clippings.py:77 | a result is a valid date; the only error is `DateTimeRejected`, for a month word no month name equals or a field out of range |
| Clippings.ReadTimestamp | src/clippings.py:74-77 | the groups of a timestamp match give a valid date or `DateTimeRejected` |
| Clippings.MonthNumber | src/clippings.py:77 | `%B`: the first month whose name equals the word without regard to case, and none when no name does |
| Clippings.DigitsEnd | src/clippings.py:66 | the greedy `\d+` run: digits up to the end, and a non-digit or the end of the text after it |
| Clippings.FieldsAreDigits | src/clippings.py:76-77 | the groups handed to `strptime` are digits where the format expects numbers |
| ClippingProperties.ExtractPageReadsNumber | src/clippings.py:65-68 | a number written after digit-free text and before a non-digit is the page read |
| ClippingProperties.PageReads | src/clippings.py:65-68 | any run of digits after digit-free text and before a non-digit, leading zeros included, is read as its value |
| ClippingProperties.ExtractPageFails | src/clippings.py:65-70 | `extract_page` raises exactly when the text has no digit |
| ClippingProperties.ExtractPositionsReadsRange | src/clippings.py:82-88 | `N-M` after digit-free text reads as `(N, M)`, in that order and without comparing the two |
| ClippingProperties.RangeReads | src/clippings.py:85-88 | two digit runs joined by `-`, before a non-digit, read as their values whenever no range starts earlier: the text in front may hold digits (such as a page number) provided it does not end in a digit and no `-` in it, or where it meets the first run, has a digit on each side |
| ClippingProperties.ExtractPositionsNeedsDash | src/clippings.py:85-90 | text without `-` (a single location) raises "Invalid position" |
| ClippingProperties.ExtractPositionsFails | src/clippings.py:82-90 | `extract_positions` raises exactly when no `-` in the text has a digit on each side |
| ClippingProperties.ExtractDateTimeReadsTimestamp | src/clippings.py:73-77 | a valid date written as `D. Month YYYY HH:MM:SS` after digit-free text (such as the weekday) reads back as that date, whatever follows |
| ClippingProperties.ReadsFormatted | src/clippings.py:74-77 | any fields laid out as the pattern expects are exactly the groups given to `strptime` |
| ClippingProperties.StrpTimeOfFormat | src/clippings.py:77 | `strptime` reads a valid date's formatted fields back as that date |
| ClippingProperties.MonthNumberOfName | src/clippings.py:77 | a month's own name reads back as its number |
| ClippingProperties.ExtractDateTimeFails | src/clippings.py:73-79 | "Invalid datetime" is raised exactly when the pattern matches nowhere |
| ClippingProperties.SearchFinds | src/clippings.py:66 | a match with no match before it is the one `re.search` returns |
| ClippingProperties.TimestampAt | src/clippings.py:74-76 | a timestamp laid out after digit-free text is the match whose groups are read |
| BlockProperties.TitleAndAuthorRoundTrip | src/clippings.py:38-40 | `<title> (<author>)` splits back into that title and author (U+FEFF deleted by the newer copy), when the author has no parentheses and the title is stripped and lacks `(` followed by the author |
| BlockProperties.AuthorOfLine | src/clippings.py:39 | the author is the text after the last `(`, without `)` |
| BlockProperties.AuthorAfterLastParen | src/clippings.py:39 | whatever any text before the last `(`, the author is what follows it with every `)` removed |
| BlockProperties.TitleOfLine | src/clippings.py:40 | the title is the stripped text before the first `(` + author |
| BlockProperties.BlankLinesIgnored | src/clippings.py:36 | an extra blank line, or a line break at either end, does not change the result |
| BlockProperties.LinesOfBlock | src/clippings.py:36 | the e-reader's layout, with its blank line, gives exactly the three lines |
| BlockProperties.ParseBlockOfEntry | src/clippings.py:34-62 | a block written from a well-formed entry, by either copy, reads back as that entry's record: text, title, positions, date, page and author |
| BlockProperties.MetadataOfEntry | src/clippings.py:41-51 | the metadata line reads back as the entry's page, positions and date |
| BlockProperties.PartsOfEntry | src/clippings.py:44-51 | each metadata part reads back as what it was written from |
| BlockProperties.ParseExport | tests/test_german_highlight.py:22-25 | no contract of its own: the export cut at each divider, empty pieces dropped, and each block parsed with `from_clipping`; characterised by `ParseAll`, `SplitExport` and `ParseExportOfEntries` |
| BlockProperties.ParseAll | tests/test_german_highlight.py:22-25 | the result is a list exactly when every block parses; it holds one record per block, each the parser's record for its block; otherwise the error is that of the first block that fails |
| BlockProperties.SplitExport | tests/test_german_highlight.py:22-24 | cutting the export at the dividers and dropping empty pieces gives back the blocks |
| BlockProperties.ParseExportOfEntries | tests/test_german_highlight.py:22-26 | an export of exportable entries reads back as their records, in order and one per entry |
| GermanExample.GermanExport | tests/test_german_highlight.py:21-47 | the German export reads back as three records with the expected titles, authors, positions, page 49 and timestamps |
| GermanExample.GermanTestExport | tests/test_german_highlight.py:3-47 | with the test's own labels ("- Deine Markierung bei Position ", "- Deine Markierung auf Seite ", "bei Position ", "Hinzugefügt am Montag, ") and any one-line texts, the export reads back as the three expected records |
| GermanExample.GermanExpected | tests/test_german_highlight.py:27-47 | the records the entries should produce are the ones the test expects |
| GermanExample.GermanExportable | tests/test_german_highlight.py:3-18 | each of the three German blocks reads back |
| GermanExample.GameTitleRead | src/clippings.py:40 | the U+FEFF in front of "The Game" is deleted |
| GermanExample.RecordTitleFacts | tests/test_german_highlight.py:39-42 | the title "Permanent Record · Meine Geschichte (German Edition)" keeps its own parenthetical |
| ParseClippings.Covers | parse_clippings.py:95-98 | no contract of its own: `start <= position <= end`, the membership test of `range(start, end + 1)`; characterised by `EmptyRangeCoversNothing` and `MatchedCovers` |
| ParseClippings.MatchedPairs | parse_clippings.py:92-101 | no contract of its own: the pairs the loop should build, one per note with a covering highlight, in note order; characterised by `MatchedAreFirst`, `MatchedIff`, `MatchedAppend` and `MatchCount` |
| ParseClippings.UnmatchedNotes | parse_clippings.py:92-103 | no contract of its own: the notes the loop should leave over, in note order; characterised by `UnmatchedIff`, `UnmatchedAppend` and `MatchCount` |
| ParseClippings.MatchNotesAndHighlights | parse_clippings.py:82-106 | the pairs and the unmatched notes are those of the specification functions |
| ParseClippings.FirstCovering | parse_clippings.py:94-100 | the inner loop stops at the first highlight that holds the position, or none holds it |
| ParseClippings.MatchCount | parse_clippings.py:92-103 | each note either gives a pair or is left over: the two counts add up to the number of notes |
| ParseClippings.MatchedAreFirst | parse_clippings.py:94-100 | each pair is a note with the first highlight that holds its position |
| ParseClippings.MatchedCovers | parse_clippings.py:95-99 | each pair's highlight holds its note's position |
| ParseClippings.UnmatchedIff | parse_clippings.py:95-103 | a note is left over exactly when no highlight holds its position |
| ParseClippings.MatchedIff | parse_clippings.py:94-100 | a note is paired exactly when some highlight holds its position |
| ParseClippings.MatchedAppend | parse_clippings.py:92-101 | pairs keep the notes' order, and a highlight is not taken from the pool |
| ParseClippings.UnmatchedAppend | parse_clippings.py:92-103 | the unmatched notes keep their order |
| ParseClippings.MatchOne | parse_clippings.py:94-103 | one note is paired with its first covering highlight or left over |
| ParseClippings.EmptyRangeCoversNothing | parse_clippings.py:95-98 | a highlight whose start is after its end holds no position |
| ParseClippings.EmptyRangeIgnored | parse_clippings.py:94-98 | such a highlight is skipped: removing it changes no match |
| ParseClippings.Titles | parse_clippings.py:25 | no contract of its own: the set of the clippings' book titles; characterised by `GroupByTitle`, whose keys are exactly these titles |
| ParseClippings.ClippingsOf | parse_clippings.py:32-34 | no contract of its own: the clippings with one title, in input order; characterised by `ClippingsOfIff` and `ClippingsOfAppend` |
| ParseClippings.GroupByTitle | parse_clippings.py:25-34 | one entry per distinct title, holding the clippings with that title in their order |
| ParseClippings.ClippingsOfIff | parse_clippings.py:32-34 | a book's list holds exactly the clippings with that title |
| ParseClippings.ClippingsOfAppend | parse_clippings.py:32-34 | the lists keep the clippings' order |
| ParseClippings.ExactlyOneBook | parse_clippings.py:25-34 | every clipping is under its own title and no other |
| ParseClippings.GroupsAreBooks | parse_clippings.py:25-34 | every list is non-empty and all its clippings share its title |
| ParseClippings.Notes | parse_clippings.py:51 | no contract of its own: the notes among a book's clippings; characterised by `NotesIff`, `NotesAppend` and `KindCount` |
| ParseClippings.Highlights | parse_clippings.py:53 | no contract of its own: the highlights among a book's clippings; characterised by `HighlightsIff`, `HighlightsAppend` and `KindCount` |
| ParseClippings.Bookmarks | parse_clippings.py:55 | no contract of its own: the bookmarks among a book's clippings; characterised by `BookmarksIff`, `BookmarksAppend` and `KindCount` |
| ParseClippings.KindCount | parse_clippings.py:51-55 | notes, highlights and bookmarks together account for every clipping once |
| ParseClippings.NotesIff | parse_clippings.py:51 | the notes list holds exactly the book's notes |
| ParseClippings.HighlightsIff | parse_clippings.py:53 | the highlights list holds exactly the book's highlights |
| ParseClippings.BookmarksIff | parse_clippings.py:55 | the bookmarks list holds exactly the book's bookmarks |
| ParseClippings.NotesAppend | parse_clippings.py:51 | the notes keep the clippings' order |
| ParseClippings.HighlightsAppend | parse_clippings.py:53 | the highlights keep the clippings' order |
| ParseClippings.BookmarksAppend | parse_clippings.py:55 | the bookmarks keep the clippings' order |
| ParseClippings.FirstOtherTitle | parse_clippings.py:42-43 | the first clipping whose title differs from the given one, or none |
| ParseClippings.CheckBook | parse_clippings.py:37-47 | an empty book fails on `clippings[0]`; otherwise the check stops with the index of the first clipping with another title, and reports the clippings before it whose author differs from the first clipping's |
| ParseClippings.OtherAuthors | parse_clippings.py:44-47 | no contract of its own: the clippings whose author differs from the first clipping's, in order; characterised by `OtherAuthorsIff` and `CheckBook` |
| ParseClippings.OtherAuthorsIff | parse_clippings.py:44-47 | a clipping is reported exactly when its author differs |
| ParseClippings.GroupPassesCheck | parse_clippings.py:109-113 | every group built by the grouping passes the title check |
| FileNames.RemoveChars | KindleClippings.py:30-45 | no contract of its own: the five steps in the code's order; characterised by `RemoveCharsAlphabet`, `RemoveCharsEnds`, `RemoveCharsIdempotent`, `ColonExample` and `GroupExample` |
| FileNames.ReplaceColons | KindleClippings.py:36 | no contract of its own: `re.sub(' *: *', ' - ', s)` as a left-to-right scan; characterised by `ColonsGone`, `ColonsAbsent` and `ColonWithSpaces` |
| FileNames.ReplaceMarks | KindleClippings.py:38 | no contract of its own: the two `str.replace` calls; characterised by `MarksGone` and `MarksReplaced` |
| FileNames.ReplaceGroups | KindleClippings.py:40 | no contract of its own: `re.sub(r'\((.+?)\)', r'- \1', s)` as a left-to-right scan; characterised by `GroupEnd`, `GroupsAbsent` and `GroupReplaced` |
| FileNames.KeepAllowed | KindleClippings.py:42 | no contract of its own: the characters outside the allowed class deleted; characterised by `KeepAllowedChars` |
| FileNames.TrimNonWord | KindleClippings.py:44 | no contract of its own: `^\W+` and `\W+$` deleted; characterised by `TrimNonWordEnds` and `TrimNonWordSlice` |
| FileNames.SpacesEnd | KindleClippings.py:36 | the run of spaces ` *` ends where the spaces stop |
| FileNames.ColonsGone | KindleClippings.py:36 | no colon is left after step 1 |
| FileNames.ColonsAbsent | KindleClippings.py:36 | text without a colon is left as it is |
| FileNames.ColonWithSpaces | KindleClippings.py:35-36 | a colon with any spaces on either side, after colon-free text, becomes `" - "` |
| FileNames.ColonExample | KindleClippings.py:35-36 | `"A: B"` becomes `"A - B"` for words A and B, through all five steps |
| FileNames.MarksGone | KindleClippings.py:37-38 | no `?` and no `&` is left, and text without either is unchanged |
| FileNames.MarksReplaced | KindleClippings.py:37-38 | an `&` becomes "and" and a `?` is deleted, with the text on either side treated on its own |
| FileNames.GroupEnd | KindleClippings.py:40 | the lazy `.+?` group closes at the first `)` after at least one character, with no line break in between |
| FileNames.GroupsAbsent | KindleClippings.py:40 | text without `(` is left as it is |
| FileNames.GroupReplaced | KindleClippings.py:39-40 | `(x)`, after text without `(`, becomes `- x` and the scan goes on after it |
| FileNames.GroupExample | KindleClippings.py:39-40 | `"this (text)"` becomes `"this - text"` for words, through all five steps |
| FileNames.KeepAllowedChars | KindleClippings.py:41-42 | a character survives step 4 exactly when it was there and is a letter, digit, space, `;`, `,`, `_` or `-` |
| FileNames.DropLeadingNonWord | KindleClippings.py:44 | `^\W+` removed: the result is a suffix of the input, what was cut off holds no word character, and the result is empty or starts with a word character |
| FileNames.DropTrailingNonWord | KindleClippings.py:44 | `\W+$` removed: the result is a prefix of the input, what was cut off holds no word character, and the result is empty or ends with a word character |
| FileNames.TrimNonWordEnds | KindleClippings.py:43-44 | the result of step 5 is empty or starts and ends with a word character, holds only characters of its input, and is the input's middle slice with only non-word characters cut from either end |
| FileNames.TrimNonWordSlice | KindleClippings.py:43-44 | step 5 keeps everything between the leading and the trailing run of non-word characters, and cuts only those runs |
| FileNames.RemoveCharsEnds | KindleClippings.py:30-45 | a file name is empty or starts and ends with a letter, digit or `_` |
| FileNames.RemoveCharsAlphabet | KindleClippings.py:30-45 | a file name holds only letters, digits, spaces, `;`, `,`, `_` and `-` |
| FileNames.RemoveCharsIdempotent | KindleClippings.py:30-45 | cleaning a file name again changes nothing |

## Left out

- File input and output, the copy from the device, directory handling and printing are left out. This covers
  the top-level script code of `KindleClippings.py:1-27` and `KindleClippings.py:48-96`, and
  `parse_clippings.py:11-22`.
- The export loop of `KindleClippings.py:59-90` is left out. It splits on the divider, skips short
  blocks, drops a leading U+FEFF, chooses the write or append mode and skips duplicate texts. That
  loop is I/O around `remove_chars`.
- Logging (`loguru`) and every `print` are left out. The exception is the authors that
  `save_book_clippings_to_file` reports, which `CheckBook` returns as a list.
- The `file_name` and `file_path` of `parse_clippings.py:48-49` are left out: they are built and
  then neither used nor printed. The counts logged in `parse_clippings.py:60-79` are left out too:
  they are built only to be printed.
- `kindle_auto_sync.py` and the `__main__` demo of `clippings.py:110-119` are not part of this model.
- `parse_clippings.py:8` imports `parse_clipping`, `Clipping`, `Note`, `Bookmark` and a
  `Highlight` with a `position` pair from `src/clippings.py`, which defines none of these. The model
  gives them as records carrying only the fields the report reads. The `isinstance` check of lines
  20-22 holds by construction.
- ParseClippings.CheckBook: the title check of `parse_clippings.py:43` is an `assert`, which
  `python -O` removes; the loop then runs on past a clipping with another title. The model always
  stops there, as Python does without `-O`.
- ParseClippings.GroupByTitle: the order of the books is not modelled. Python iterates a set of
  titles in an order the language does not fix, and the model returns a map.
- ParseClippings.MatchNotesAndHighlights: the highlights are an immutable sequence, so "no
  highlight is removed from the pool" holds by construction. The unused `unmatched_highlights` of
  line 105 is dropped.
- Unicode character classes are left out: `\d`, `\s` and `\w` are the ASCII ones. A month name
  such as "März" is not a word in the model, so the model cannot read March dates in a German
  export. Python's Unicode `\w` would accept that name.
- `str.strip()` is modelled as trimming the six ASCII whitespace characters only (space, tab,
  line feed, carriage return, vertical tab, form feed). Python also trims U+001C..U+001F, U+0085,
  U+00A0 and the other Unicode spaces, so a title ending in U+00A0 keeps it in the model.
- `strptime`'s locale is left out. The month names are a table supplied by the caller, and the
  weekday text in front of the date is not checked.
- Integers are unbounded. Python's `int` is too, so no width is modelled.
- Clippings.ExtractPage and Clippings.ExtractPositions: CPython 3.11 and later (and the security
  releases of 3.7 to 3.10) raise `ValueError` when `int()` converts a string of more than 4300
  digits. The model reads a digit run of any length, so a page or position that long is `Ok`
  here where Python raises.
- GermanExample.GermanExport: the highlighted texts and the labels of the metadata lines are
  parameters. The German labels contain "Hinzugefügt am Montag, " and the texts are free prose;
  any labels without digits, `|`, `=` or line breaks, and any one-line texts, give the records
  the test expects. The test compares `created_at` with strings such as
  `"2023-09-25 22:42:15"`. In Python a `datetime` never equals a string, so those asserts compare
  what the test's author evidently meant: the `DateTime` values.
