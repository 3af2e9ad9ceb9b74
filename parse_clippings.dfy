/**
 * The per-book report of `parse_clippings.py`: clippings grouped by book
 * title, each book's clippings split by kind and checked for a common title,
 * and every note paired with the first highlight whose position range holds
 * the note's position.
 *
 * The clipping classes are imported there from a module that is not part of
 * this model; they are records carrying only the fields the report reads.
 */
module ParseClippings {
  import opened Wrappers
  import Text

  datatype Note = Note(bookTitle: string, author: string, position: int)

  /** A highlight's `position` is the pair of its first and last position. */
  datatype Highlight = Highlight(bookTitle: string, author: string, position: (int, int))

  datatype Bookmark = Bookmark(bookTitle: string, author: string)

  datatype Clipping =
    | NoteClipping(note: Note)
    | HighlightClipping(highlight: Highlight)
    | BookmarkClipping(bookmark: Bookmark)
  {
    function BookTitle(): string {
      match this
      case NoteClipping(n) => n.bookTitle
      case HighlightClipping(h) => h.bookTitle
      case BookmarkClipping(b) => b.bookTitle
    }

    function Author(): string {
      match this
      case NoteClipping(n) => n.author
      case HighlightClipping(h) => h.author
      case BookmarkClipping(b) => b.author
    }
  }

  // ---------------------------------------------------------------------------
  // Matching notes with highlights

  /** `p in range(start, end + 1)`: the inclusive range of the highlight holds `p`. */
  predicate Covers(h: Highlight, p: int) {
    h.position.0 <= p <= h.position.1
  }

  /** The index of the first highlight, in list order, whose range holds `p`. */
  function FirstCovering(hs: seq<Highlight>, p: int): (r: Option<nat>)
    ensures r.Some? ==> r.value < |hs| && Covers(hs[r.value], p)
    ensures r.Some? ==> forall j :: 0 <= j < r.value ==> !Covers(hs[j], p)
    ensures r.None? ==> forall j :: 0 <= j < |hs| ==> !Covers(hs[j], p)
  {
    if hs == [] then None
    else if Covers(hs[0], p) then Some(0)
    else
      match FirstCovering(hs[1..], p)
      case None => None
      case Some(i) => Some(i + 1)
  }

  /** The highlight a note at position `p` is paired with, if any. */
  function CoveringHighlight(hs: seq<Highlight>, p: int): Option<Highlight> {
    match FirstCovering(hs, p)
    case None => None
    case Some(i) => Some(hs[i])
  }

  /** The pairs `match_notes_and_hightlights` collects, note by note. */
  function MatchedPairs(notes: seq<Note>, hs: seq<Highlight>): seq<(Note, Highlight)> {
    if notes == [] then []
    else
      var n := notes[|notes| - 1];
      MatchedPairs(notes[..|notes| - 1], hs) +
        (match CoveringHighlight(hs, n.position)
         case None => []
         case Some(h) => [(n, h)])
  }

  /** The notes it leaves unmatched, note by note. */
  function UnmatchedNotes(notes: seq<Note>, hs: seq<Highlight>): seq<Note> {
    if notes == [] then []
    else
      var n := notes[|notes| - 1];
      UnmatchedNotes(notes[..|notes| - 1], hs) +
        (if CoveringHighlight(hs, n.position).None? then [n] else [])
  }

  /**
   * `match_notes_and_hightlights`: for each note, scan the highlights in
   * order and pair the note with the first one whose range holds its
   * position; a note no highlight holds is unmatched. No highlight is taken
   * out of the pool.
   */
  method MatchNotesAndHighlights(notes: seq<Note>, highlights: seq<Highlight>)
    returns (matched: seq<(Note, Highlight)>, unmatched: seq<Note>)
    ensures matched == MatchedPairs(notes, highlights)
    ensures unmatched == UnmatchedNotes(notes, highlights)
  {
    matched := [];
    unmatched := [];
    for i := 0 to |notes|
      invariant matched == MatchedPairs(notes[..i], highlights)
      invariant unmatched == UnmatchedNotes(notes[..i], highlights)
    {
      var note := notes[i];
      var found := false;
      var j := 0;
      while j < |highlights|
        invariant 0 <= j <= |highlights| && !found
        invariant forall k :: 0 <= k < j ==> !Covers(highlights[k], note.position)
        invariant matched == MatchedPairs(notes[..i], highlights)
      {
        if Covers(highlights[j], note.position) {
          assert FirstCovering(highlights, note.position) == Some(j);
          matched := matched + [(note, highlights[j])];
          found := true;
          break;
        }
        j := j + 1;
      }
      if !found {
        unmatched := unmatched + [note];
      }
      MatchStep(notes, i, highlights);
    }
    assert notes[..|notes|] == notes;
  }

  /** One more note extends the pairs and the leftovers by that note's outcome. */
  lemma MatchStep(notes: seq<Note>, i: nat, hs: seq<Highlight>)
    requires i < |notes|
    ensures var n := notes[i];
      MatchedPairs(notes[..i + 1], hs) == MatchedPairs(notes[..i], hs) +
        (match CoveringHighlight(hs, n.position)
         case None => []
         case Some(h) => [(n, h)])
    ensures UnmatchedNotes(notes[..i + 1], hs) == UnmatchedNotes(notes[..i], hs) +
      (if CoveringHighlight(hs, notes[i].position).None? then [notes[i]] else [])
  {
    assert notes[..i + 1][..i] == notes[..i];
  }

  /** Every note ends up either matched or unmatched, never both. */
  lemma {:induction false} MatchCount(notes: seq<Note>, hs: seq<Highlight>)
    ensures |MatchedPairs(notes, hs)| + |UnmatchedNotes(notes, hs)| == |notes|
  {
    if notes != [] {
      MatchCount(notes[..|notes| - 1], hs);
    }
  }

  /**
   * Each pair holds a note of the input and the first highlight, in list
   * order, whose range holds the note's position.
   */
  lemma {:induction false} MatchedAreFirst(notes: seq<Note>, hs: seq<Highlight>, k: nat)
    requires k < |MatchedPairs(notes, hs)|
    ensures var pair := MatchedPairs(notes, hs)[k];
      && pair.0 in notes
      && FirstCovering(hs, pair.0.position).Some?
      && pair.1 == hs[FirstCovering(hs, pair.0.position).value]
  {
    var init := notes[..|notes| - 1];
    if k < |MatchedPairs(init, hs)| {
      MatchedAreFirst(init, hs, k);
    }
  }

  /** In particular, every pair's highlight range holds its note's position. */
  lemma MatchedCovers(notes: seq<Note>, hs: seq<Highlight>, k: nat)
    requires k < |MatchedPairs(notes, hs)|
    ensures var pair := MatchedPairs(notes, hs)[k];
      pair.1.position.0 <= pair.0.position <= pair.1.position.1
  {
    MatchedAreFirst(notes, hs, k);
  }

  /** A note is unmatched exactly when no highlight's range holds its position. */
  lemma {:induction false} UnmatchedIff(notes: seq<Note>, hs: seq<Highlight>, n: Note)
    ensures n in UnmatchedNotes(notes, hs) <==>
      n in notes && forall j :: 0 <= j < |hs| ==> !Covers(hs[j], n.position)
  {
    if notes != [] {
      var init := notes[..|notes| - 1];
      UnmatchedIff(init, hs, n);
      assert notes == init + [notes[|notes| - 1]];
    }
  }

  /** A note is matched exactly when some highlight's range holds its position. */
  lemma MatchedIff(notes: seq<Note>, hs: seq<Highlight>, n: Note)
    ensures (exists k :: 0 <= k < |MatchedPairs(notes, hs)| && MatchedPairs(notes, hs)[k].0 == n) <==>
      n in notes && exists j :: 0 <= j < |hs| && Covers(hs[j], n.position)
  {
    var pairs := MatchedPairs(notes, hs);
    if exists k :: 0 <= k < |pairs| && pairs[k].0 == n {
      var k :| 0 <= k < |pairs| && pairs[k].0 == n;
      MatchedAreFirst(notes, hs, k);
      assert Covers(hs[FirstCovering(hs, n.position).value], n.position);
    }
    if n in notes && exists j :: 0 <= j < |hs| && Covers(hs[j], n.position) {
      CoveredIsMatched(notes, hs, n);
    }
  }

  /** A note of the input that some highlight covers appears in a pair. */
  lemma {:induction false} CoveredIsMatched(notes: seq<Note>, hs: seq<Highlight>, n: Note)
    requires n in notes && exists j :: 0 <= j < |hs| && Covers(hs[j], n.position)
    ensures exists k :: 0 <= k < |MatchedPairs(notes, hs)| && MatchedPairs(notes, hs)[k].0 == n
  {
    var pairs := MatchedPairs(notes, hs);
    var init := notes[..|notes| - 1];
    var last := notes[|notes| - 1];
    assert notes == init + [last];
    var front := MatchedPairs(init, hs);
    assert FirstCovering(hs, n.position).Some?;
    if n == last {
      assert pairs == front + [(n, CoveringHighlight(hs, n.position).value)];
      assert pairs[|front|].0 == n;
    } else {
      CoveredIsMatched(init, hs, n);
      var k :| 0 <= k < |front| && front[k].0 == n;
      assert pairs[k] == front[k];
    }
  }

  /**
   * Matching is note by note against the whole pool: the notes of `a + b`
   * give the pairs of `a` followed by those of `b`, so the pairs keep the
   * notes' order and a highlight can serve several notes.
   */
  lemma {:induction false} MatchedAppend(a: seq<Note>, b: seq<Note>, hs: seq<Highlight>)
    ensures MatchedPairs(a + b, hs) == MatchedPairs(a, hs) + MatchedPairs(b, hs)
  {
    if b == [] {
      assert a + b == a;
    } else {
      var init := b[..|b| - 1];
      var n := b[|b| - 1];
      var tail := (match CoveringHighlight(hs, n.position) case None => [] case Some(h) => [(n, h)]);
      assert MatchedPairs(a + b, hs) == MatchedPairs(a + init, hs) + tail by {
        assert (a + b)[..|a + b| - 1] == a + init;
        assert (a + b)[|a + b| - 1] == b[|b| - 1];
      }
      MatchedAppend(a, init, hs);
      Text.ConcatAssoc(MatchedPairs(a, hs), MatchedPairs(init, hs), tail);
    }
  }

  /** Likewise the leftovers of `a + b` are those of `a` followed by those of `b`. */
  lemma {:induction false} UnmatchedAppend(a: seq<Note>, b: seq<Note>, hs: seq<Highlight>)
    ensures UnmatchedNotes(a + b, hs) == UnmatchedNotes(a, hs) + UnmatchedNotes(b, hs)
  {
    if b == [] {
      assert a + b == a;
    } else {
      var init := b[..|b| - 1];
      var n := b[|b| - 1];
      var tail := (if CoveringHighlight(hs, n.position).None? then [n] else []);
      assert UnmatchedNotes(a + b, hs) == UnmatchedNotes(a + init, hs) + tail by {
        assert (a + b)[..|a + b| - 1] == a + init;
        assert (a + b)[|a + b| - 1] == b[|b| - 1];
      }
      UnmatchedAppend(a, init, hs);
      Text.ConcatAssoc(UnmatchedNotes(a, hs), UnmatchedNotes(init, hs), tail);
    }
  }

  /** A single note is paired with its first covering highlight, or left over. */
  lemma MatchOne(n: Note, hs: seq<Highlight>)
    ensures MatchedPairs([n], hs) ==
      (if CoveringHighlight(hs, n.position).Some? then [(n, CoveringHighlight(hs, n.position).value)] else [])
    ensures UnmatchedNotes([n], hs) == (if CoveringHighlight(hs, n.position).None? then [n] else [])
  {
    assert [n][..0] == [];
  }

  /** A highlight whose start is after its end holds no position. */
  lemma EmptyRangeCoversNothing(h: Highlight, p: int)
    requires h.position.0 > h.position.1
    ensures !Covers(h, p)
  {
  }

  /** Such a highlight can be dropped from the pool without changing any match. */
  lemma EmptyRangeIgnored(a: seq<Highlight>, h: Highlight, b: seq<Highlight>, p: int)
    requires h.position.0 > h.position.1
    ensures CoveringHighlight(a + [h] + b, p) == CoveringHighlight(a + b, p)
  {
    var with := a + [h] + b;
    var without := a + b;
    match FirstCovering(without, p)
    case None =>
      forall j | 0 <= j < |with| ensures !Covers(with[j], p) {
        if j < |a| {
          assert with[j] == without[j];
        } else if j > |a| {
          assert with[j] == without[j - 1];
        }
      }
    case Some(i) =>
      var i' := if i < |a| then i else i + 1;
      assert with[i'] == without[i];
      forall j | 0 <= j < i' ensures !Covers(with[j], p) {
        if j < |a| {
          assert with[j] == without[j];
        } else if j > |a| {
          assert with[j] == without[j - 1];
        }
      }
      assert FirstCovering(with, p) == Some(i');
  }

  // ---------------------------------------------------------------------------
  // Grouping by book

  /** `set(clipping.book_title for clipping in parsed_clippings)`. */
  function Titles(cs: seq<Clipping>): set<string> {
    set k | 0 <= k < |cs| :: cs[k].BookTitle()
  }

  /** `[clipping for clipping in parsed_clippings if clipping.book_title == book]`. */
  function ClippingsOf(cs: seq<Clipping>, title: string): seq<Clipping> {
    if cs == [] then []
    else
      var c := cs[|cs| - 1];
      ClippingsOf(cs[..|cs| - 1], title) + (if c.BookTitle() == title then [c] else [])
  }

  /** What the grouping loop leaves in `clippings_by_book`. */
  predicate IsGrouping(cs: seq<Clipping>, byBook: map<string, seq<Clipping>>) {
    && byBook.Keys == Titles(cs)
    && forall t :: t in byBook ==> byBook[t] == ClippingsOf(cs, t)
  }

  /**
   * The grouping loop: one entry per distinct title, in whatever order the
   * set of titles yields them, holding the clippings with that title.
   */
  method GroupByTitle(cs: seq<Clipping>) returns (byBook: map<string, seq<Clipping>>)
    ensures IsGrouping(cs, byBook)
  {
    var books := Titles(cs);
    byBook := map[];
    var remaining := books;
    while remaining != {}
      invariant remaining <= books
      invariant byBook.Keys == books - remaining
      invariant forall t :: t in byBook ==> byBook[t] == ClippingsOf(cs, t)
      decreases |remaining|
    {
      var book :| book in remaining;
      byBook := byBook[book := ClippingsOf(cs, book)];
      remaining := remaining - {book};
    }
  }

  /** A book's list holds exactly the clippings with that title. */
  lemma {:induction false} ClippingsOfIff(cs: seq<Clipping>, title: string, c: Clipping)
    ensures c in ClippingsOf(cs, title) <==> c in cs && c.BookTitle() == title
  {
    if cs != [] {
      var init := cs[..|cs| - 1];
      ClippingsOfIff(init, title, c);
      assert cs == init + [cs[|cs| - 1]];
    }
  }

  /** The lists keep the clippings' order: grouping `a + b` groups `a`, then `b`. */
  lemma {:induction false} ClippingsOfAppend(a: seq<Clipping>, b: seq<Clipping>, title: string)
    ensures ClippingsOf(a + b, title) == ClippingsOf(a, title) + ClippingsOf(b, title)
  {
    if b == [] {
      assert a + b == a;
    } else {
      var init := b[..|b| - 1];
      var c := b[|b| - 1];
      var tail := (if c.BookTitle() == title then [c] else []);
      assert ClippingsOf(a + b, title) == ClippingsOf(a + init, title) + tail by {
        assert (a + b)[..|a + b| - 1] == a + init;
        assert (a + b)[|a + b| - 1] == b[|b| - 1];
      }
      ClippingsOfAppend(a, init, title);
      Text.ConcatAssoc(ClippingsOf(a, title), ClippingsOf(init, title), tail);
    }
  }

  /** Every clipping is in its own book's list and in no other. */
  lemma ExactlyOneBook(cs: seq<Clipping>, byBook: map<string, seq<Clipping>>, k: nat)
    requires IsGrouping(cs, byBook) && k < |cs|
    ensures cs[k].BookTitle() in byBook
    ensures forall t :: t in byBook ==> (cs[k] in byBook[t] <==> t == cs[k].BookTitle())
  {
    assert cs[k].BookTitle() in Titles(cs);
    forall t | t in byBook ensures cs[k] in byBook[t] <==> t == cs[k].BookTitle() {
      ClippingsOfIff(cs, t, cs[k]);
    }
  }

  /** Every book's list is non-empty and all its clippings carry that title. */
  lemma GroupsAreBooks(cs: seq<Clipping>, byBook: map<string, seq<Clipping>>, t: string)
    requires IsGrouping(cs, byBook) && t in byBook
    ensures byBook[t] != []
    ensures forall k :: 0 <= k < |byBook[t]| ==> byBook[t][k].BookTitle() == t
  {
    var k :| 0 <= k < |cs| && cs[k].BookTitle() == t;
    ClippingsOfIff(cs, t, cs[k]);
    forall j | 0 <= j < |byBook[t]| ensures byBook[t][j].BookTitle() == t {
      ClippingsOfIff(cs, t, byBook[t][j]);
    }
  }

  // ---------------------------------------------------------------------------
  // Splitting a book's clippings by kind

  /** `[clipping for clipping in clippings if isinstance(clipping, Note)]`. */
  function Notes(cs: seq<Clipping>): seq<Note> {
    if cs == [] then []
    else
      var c := cs[|cs| - 1];
      Notes(cs[..|cs| - 1]) + (if c.NoteClipping? then [c.note] else [])
  }

  /** `[clipping for clipping in clippings if isinstance(clipping, Highlight)]`. */
  function Highlights(cs: seq<Clipping>): seq<Highlight> {
    if cs == [] then []
    else
      var c := cs[|cs| - 1];
      Highlights(cs[..|cs| - 1]) + (if c.HighlightClipping? then [c.highlight] else [])
  }

  /** `[clipping for clipping in clippings if isinstance(clipping, Bookmark)]`. */
  function Bookmarks(cs: seq<Clipping>): seq<Bookmark> {
    if cs == [] then []
    else
      var c := cs[|cs| - 1];
      Bookmarks(cs[..|cs| - 1]) + (if c.BookmarkClipping? then [c.bookmark] else [])
  }

  /** The three kinds account for every clipping once. */
  lemma {:induction false} KindCount(cs: seq<Clipping>)
    ensures |Notes(cs)| + |Highlights(cs)| + |Bookmarks(cs)| == |cs|
  {
    if cs != [] {
      KindCount(cs[..|cs| - 1]);
    }
  }

  /** A note is in the notes list exactly when the book has it as a clipping. */
  lemma {:induction false} NotesIff(cs: seq<Clipping>, n: Note)
    ensures n in Notes(cs) <==> NoteClipping(n) in cs
  {
    if cs != [] {
      var init := cs[..|cs| - 1];
      NotesIff(init, n);
      assert cs == init + [cs[|cs| - 1]];
    }
  }

  /** Likewise for highlights. */
  lemma {:induction false} HighlightsIff(cs: seq<Clipping>, h: Highlight)
    ensures h in Highlights(cs) <==> HighlightClipping(h) in cs
  {
    if cs != [] {
      var init := cs[..|cs| - 1];
      HighlightsIff(init, h);
      assert cs == init + [cs[|cs| - 1]];
    }
  }

  /** Likewise for bookmarks. */
  lemma {:induction false} BookmarksIff(cs: seq<Clipping>, b: Bookmark)
    ensures b in Bookmarks(cs) <==> BookmarkClipping(b) in cs
  {
    if cs != [] {
      var init := cs[..|cs| - 1];
      BookmarksIff(init, b);
      assert cs == init + [cs[|cs| - 1]];
    }
  }

  /** The notes keep the clippings' order. */
  lemma {:induction false} NotesAppend(a: seq<Clipping>, b: seq<Clipping>)
    ensures Notes(a + b) == Notes(a) + Notes(b)
  {
    if b == [] {
      assert a + b == a;
    } else {
      var init := b[..|b| - 1];
      var c := b[|b| - 1];
      var tail := (if c.NoteClipping? then [c.note] else []);
      assert Notes(a + b) == Notes(a + init) + tail by {
        assert (a + b)[..|a + b| - 1] == a + init;
        assert (a + b)[|a + b| - 1] == b[|b| - 1];
      }
      NotesAppend(a, init);
      Text.ConcatAssoc(Notes(a), Notes(init), tail);
    }
  }

  /** So do the highlights. */
  lemma {:induction false} HighlightsAppend(a: seq<Clipping>, b: seq<Clipping>)
    ensures Highlights(a + b) == Highlights(a) + Highlights(b)
  {
    if b == [] {
      assert a + b == a;
    } else {
      var init := b[..|b| - 1];
      var c := b[|b| - 1];
      var tail := (if c.HighlightClipping? then [c.highlight] else []);
      assert Highlights(a + b) == Highlights(a + init) + tail by {
        assert (a + b)[..|a + b| - 1] == a + init;
        assert (a + b)[|a + b| - 1] == b[|b| - 1];
      }
      HighlightsAppend(a, init);
      Text.ConcatAssoc(Highlights(a), Highlights(init), tail);
    }
  }

  /** So do the bookmarks. */
  lemma {:induction false} BookmarksAppend(a: seq<Clipping>, b: seq<Clipping>)
    ensures Bookmarks(a + b) == Bookmarks(a) + Bookmarks(b)
  {
    if b == [] {
      assert a + b == a;
    } else {
      var init := b[..|b| - 1];
      var c := b[|b| - 1];
      var tail := (if c.BookmarkClipping? then [c.bookmark] else []);
      assert Bookmarks(a + b) == Bookmarks(a + init) + tail by {
        assert (a + b)[..|a + b| - 1] == a + init;
        assert (a + b)[|a + b| - 1] == b[|b| - 1];
      }
      BookmarksAppend(a, init);
      Text.ConcatAssoc(Bookmarks(a), Bookmarks(init), tail);
    }
  }

  // ---------------------------------------------------------------------------
  // The title and author check

  datatype BookError =
    | EmptyBook               // `clippings[0]` of an empty list
    | TitleMismatch(index: nat)  // the assertion on the title fails at this clipping

  /** The first clipping whose title is not `title`. */
  function FirstOtherTitle(cs: seq<Clipping>, title: string): (r: Option<nat>)
    ensures r.Some? ==> r.value < |cs| && cs[r.value].BookTitle() != title
    ensures r.Some? ==> forall j :: 0 <= j < r.value ==> cs[j].BookTitle() == title
    ensures r.None? ==> forall j :: 0 <= j < |cs| ==> cs[j].BookTitle() == title
  {
    if cs == [] then None
    else if cs[0].BookTitle() != title then Some(0)
    else
      match FirstOtherTitle(cs[1..], title)
      case None => None
      case Some(i) => Some(i + 1)
  }

  /** The clippings whose author is not `author`, in order. */
  function OtherAuthors(cs: seq<Clipping>, author: string): seq<Clipping> {
    if cs == [] then []
    else
      var c := cs[|cs| - 1];
      OtherAuthors(cs[..|cs| - 1], author) + (if c.Author() != author then [c] else [])
  }

  /**
   * The check at the top of `save_book_clippings_to_file`: every clipping
   * must carry the first clipping's title, and one whose author differs
   * from the first clipping's is only reported. `reported` holds the
   * clippings reported before the check stops.
   */
  method CheckBook(cs: seq<Clipping>) returns (reported: seq<Clipping>, error: Option<BookError>)
    ensures cs == [] ==> reported == [] && error == Some(EmptyBook)
    ensures cs != [] ==> match FirstOtherTitle(cs, cs[0].BookTitle())
      case None => error == None && reported == OtherAuthors(cs, cs[0].Author())
      case Some(i) => error == Some(TitleMismatch(i)) && reported == OtherAuthors(cs[..i], cs[0].Author())
  {
    reported := [];
    if cs == [] {
      return [], Some(EmptyBook);
    }
    var title := cs[0].BookTitle();
    var author := cs[0].Author();
    for i := 0 to |cs|
      invariant forall j :: 0 <= j < i ==> cs[j].BookTitle() == title
      invariant reported == OtherAuthors(cs[..i], author)
    {
      if cs[i].BookTitle() != title {
        assert FirstOtherTitle(cs, title) == Some(i);
        return reported, Some(TitleMismatch(i));
      }
      if cs[i].Author() != author {
        reported := reported + [cs[i]];
      }
      assert cs[..i + 1][..i] == cs[..i];
    }
    assert cs[..|cs|] == cs;
    error := None;
  }

  /** The reported clippings are exactly those with another author. */
  lemma {:induction false} OtherAuthorsIff(cs: seq<Clipping>, author: string, c: Clipping)
    ensures c in OtherAuthors(cs, author) <==> c in cs && c.Author() != author
  {
    if cs != [] {
      var init := cs[..|cs| - 1];
      OtherAuthorsIff(init, author, c);
      assert cs == init + [cs[|cs| - 1]];
    }
  }

  /** A book's list from the grouping always passes the title check. */
  lemma GroupPassesCheck(cs: seq<Clipping>, byBook: map<string, seq<Clipping>>, t: string)
    requires IsGrouping(cs, byBook) && t in byBook
    ensures byBook[t] != [] && FirstOtherTitle(byBook[t], byBook[t][0].BookTitle()).None?
  {
    GroupsAreBooks(cs, byBook, t);
  }
}
