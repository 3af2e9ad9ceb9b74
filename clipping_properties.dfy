/**
 * What the clipping-block parser guarantees: the extractors read back the
 * numbers and timestamps the e-reader writes, the first line splits into
 * the title and author it was built from, and every malformed block is
 * rejected with the error the Python code raises first.
 */
module ClippingProperties {
  import opened Wrappers
  import opened Text
  import opened Clippings

  // ---------------------------------------------------------------------------
  // Leftmost search

  /** A match with none before it is the one `re.search` finds. */
  lemma SearchFinds(p: Pattern, s: string, i: nat)
    requires i <= |s| && MatchesAt(p, s, i)
    requires forall k :: 0 <= k < i ==> !MatchesAt(p, s, k)
    ensures Search(p, s) == Some(i)
  {
  }

  /** The greedy digit run ends exactly where the digits stop. */
  lemma {:induction false} DigitsEndAt(s: string, i: nat, j: nat)
    requires i <= j <= |s|
    requires forall k :: i <= k < j ==> IsDigit(s[k])
    requires j == |s| || !IsDigit(s[j])
    ensures DigitsEnd(s, i) == j
    decreases j - i
  {
    if i < j {
      DigitsEndAt(s, i + 1, j);
    }
  }

  /** The greedy word run ends exactly where the word characters stop. */
  lemma {:induction false} WordEndAt(s: string, i: nat, j: nat)
    requires i <= j <= |s|
    requires forall k :: i <= k < j ==> IsWordChar(s[k])
    requires j == |s| || !IsWordChar(s[j])
    ensures WordEnd(s, i) == j
    decreases j - i
  {
    if i < j {
      WordEndAt(s, i + 1, j);
    }
  }

  /** No pattern starts on a character that is not a digit. */
  lemma NoMatchBeforeDigit(p: Pattern, s: string, k: nat)
    requires k < |s| && !IsDigit(s[k])
    ensures !MatchesAt(p, s, k)
  {
    if p.PositionRange? {
      assert DigitsEnd(s, k) == k;
    }
  }

  /** In `prefix + rest` with a digit-free prefix, nothing matches inside the prefix. */
  lemma NoMatchInPrefix(p: Pattern, prefix: string, rest: string)
    requires NoDigits(prefix)
    ensures forall k :: 0 <= k < |prefix| ==> !MatchesAt(p, prefix + rest, k)
  {
    forall k | 0 <= k < |prefix| ensures !MatchesAt(p, prefix + rest, k) {
      assert (prefix + rest)[k] == prefix[k];
      NoMatchBeforeDigit(p, prefix + rest, k);
    }
  }

  /** Where the middle piece of a concatenation sits. */
  lemma Middle(x: string, y: string, z: string)
    ensures forall m :: 0 <= m < |y| ==> (x + y + z)[|x| + m] == y[m]
    ensures (x + y + z)[|x|..|x| + |y|] == y
  {
  }

  // ---------------------------------------------------------------------------
  // `extract_page` and `extract_positions`

  /**
   * `extract_page` reads the first run of digits: a number written after
   * digit-free text and before a non-digit is read back.
   */
  lemma ExtractPageReadsNumber(prefix: string, n: nat, suffix: string)
    requires NoDigits(prefix)
    requires suffix == [] || !IsDigit(suffix[0])
    ensures ExtractPage(prefix + Decimal(n) + suffix) == Ok(n)
  {
    PageReads(prefix, Decimal(n), suffix);
  }

  /**
   * Any run of digits after digit-free text and before a non-digit is the
   * page read, leading zeros included: `"Seite 049"` reads as 49.
   */
  lemma PageReads(prefix: string, d: string, suffix: string)
    requires NoDigits(prefix) && d != [] && AllDigits(d)
    requires suffix == [] || !IsDigit(suffix[0])
    ensures ExtractPage(prefix + d + suffix) == Ok(NatValue(d))
  {
    var s := prefix + d + suffix;
    var i, j := |prefix|, |prefix| + |d|;
    Middle(prefix, d, suffix);
    NoMatchInPrefix(PageNumber, prefix, d + suffix);
    assert prefix + d + suffix == prefix + (d + suffix);
    SearchFinds(PageNumber, s, i);
    forall k | i <= k < j ensures IsDigit(s[k]) {
      assert s[k] == d[k - i];
    }
    assert j == |s| || s[j] == suffix[0];
    DigitsEndAt(s, i, j);
    NumberAt(s, i, j);
  }

  /**
   * `extract_positions` reads the first `N-M` as `(N, M)`, in that order
   * and without comparing them.
   */
  lemma ExtractPositionsReadsRange(prefix: string, start: nat, end: nat, suffix: string)
    requires NoDigits(prefix)
    requires suffix == [] || !IsDigit(suffix[0])
    ensures ExtractPositions(prefix + Decimal(start) + "-" + Decimal(end) + suffix) == Ok((start, end))
  {
    NoDigitsNoRange(prefix, Decimal(start));
    RangeReads(prefix, Decimal(start), Decimal(end), suffix);
  }

  /**
   * Two runs of digits joined by `-`, before a non-digit, are read when no
   * range starts earlier: the text in front may hold digits (a page number,
   * say) as long as it does not end in one and no `-` in it, or at its
   * junction with the first run, has a digit on each side.
   */
  lemma RangeReads(prefix: string, a: string, b: string, suffix: string)
    requires a != [] && b != [] && AllDigits(a) && AllDigits(b)
    requires !HasRange(prefix + a) && (prefix == [] || !IsDigit(prefix[|prefix| - 1]))
    requires suffix == [] || !IsDigit(suffix[0])
    ensures ExtractPositions(prefix + a + "-" + b + suffix) == Ok((NatValue(a), NatValue(b)))
  {
    var s := prefix + a + "-" + b + suffix;
    var i, j := |prefix|, |prefix| + |a|;
    var k := j + 1 + |b|;
    RangeLayout(prefix, a, b, suffix);
    assert s[i..j] == a;
    assert s[j + 1..k] == b;
    assert s == prefix + a + ("-" + b + suffix);
    forall m | 0 <= m < i ensures !MatchesAt(PositionRange, s, m) {
      MatchGivesRange(prefix, a, "-" + b + suffix, m);
    }
    RangeAt(s, i, j, k);
    var r := ExtractPositions(s);
    assert r == Ok((NatValue(s[i..j]), NatValue(s[j + 1..k])));
    assert r == Ok((NatValue(a), NatValue(b)));
  }

  /** A range that starts in `prefix` has its `-` with a digit on each side within `prefix + a`. */
  lemma MatchGivesRange(prefix: string, a: string, rest: string, m: nat)
    requires a != [] && AllDigits(a) && (prefix == [] || !IsDigit(prefix[|prefix| - 1])) && m < |prefix|
    ensures MatchesAt(PositionRange, prefix + a + rest, m) ==> HasRange(prefix + a)
  {
    var s := prefix + a + rest;
    var t := prefix + a;
    if MatchesAt(PositionRange, s, m) {
      var j := DigitsEnd(s, m);
      assert s[|prefix| - 1] == prefix[|prefix| - 1];
      assert j <= |prefix| - 1;
      assert IsDigit(s[j + 1]);
      assert t[j - 1] == s[j - 1] && t[j] == s[j];
      if j + 1 < |prefix| {
        assert t[j + 1] == s[j + 1];
      } else {
        assert t[j + 1] == a[0] && IsDigit(a[0]);
      }
      assert 0 < j < |t| - 1 && t[j] == '-' && IsDigit(t[j - 1]) && IsDigit(t[j + 1]);
    }
  }

  /** Digit-free text in front of a run of digits holds no range. */
  lemma NoDigitsNoRange(prefix: string, a: string)
    requires NoDigits(prefix) && AllDigits(a)
    ensures !HasRange(prefix + a)
  {
    var t := prefix + a;
    forall j | 0 < j < |t| - 1 && t[j] == '-' ensures !IsDigit(t[j - 1]) {
      assert j < |prefix|;
      assert t[j - 1] == prefix[j - 1];
    }
  }

  /** Where the pieces of `prefix + a + "-" + b + suffix` sit. */
  lemma RangeLayout(prefix: string, a: string, b: string, suffix: string)
    ensures var s := prefix + a + "-" + b + suffix; var j := |prefix| + |a|;
      && s[..|prefix|] == prefix && s[|prefix|..j] == a && s[j] == '-'
      && s[j + 1..j + 1 + |b|] == b && |s| == j + 1 + |b| + |suffix|
      && (suffix == [] || s[j + 1 + |b|] == suffix[0])
  {
    var s := prefix + a + "-" + b + suffix;
    assert s[..|prefix|] == prefix && s[|prefix|..|prefix| + |a|] == a by {
      assert s == prefix + a + ("-" + b + suffix);
      Middle(prefix, a, "-" + b + suffix);
    }
    assert s == (prefix + a + "-") + b + suffix;
    Middle(prefix + a + "-", b, suffix);
  }

  /** The range `s[i..j]-s[j+1..k]`, with no range starting before it, is the one read. */
  lemma RangeAt(s: string, i: nat, j: nat, k: nat)
    requires i < j && j + 1 < k <= |s| && s[j] == '-'
    requires forall m :: 0 <= m < i ==> !MatchesAt(PositionRange, s, m)
    requires AllDigits(s[i..j]) && AllDigits(s[j + 1..k])
    requires k == |s| || !IsDigit(s[k])
    ensures ExtractPositions(s) == Ok((NatValue(s[i..j]), NatValue(s[j + 1..k])))
  {
    SliceDigits(s, i, j);
    SliceDigits(s, j + 1, k);
    DigitsEndAt(s, i, j);
    DigitsEndAt(s, j + 1, k);
    SearchFinds(PositionRange, s, i);
    NumberAt(s, i, j);
    NumberAt(s, j + 1, k);
    var r := ExtractPositions(s);
    assert r == Ok((Number(s, i), Number(s, j + 1)));
  }

  /** The number read at `i` is the value of the digits up to `j`. */
  lemma NumberAt(s: string, i: nat, j: nat)
    requires i <= j <= |s| && DigitsEnd(s, i) == j
    ensures AllDigits(s[i..j]) && Number(s, i) == NatValue(s[i..j])
  {
  }

  /** Without a `-` there is no range: a single position is rejected. */
  lemma ExtractPositionsNeedsDash(text: string)
    requires '-' !in text
    ensures ExtractPositions(text) == Err(InvalidPosition)
  {
    forall k | 0 <= k <= |text| ensures !MatchesAt(PositionRange, text, k) {
      var j := DigitsEnd(text, k);
      if j < |text| {
        assert text[j] in text;
      }
    }
  }

  // ---------------------------------------------------------------------------
  // `extract_datetime`

  /**
   * A month-name table as `%B` needs it: twelve names, no two equal when
   * case is ignored.
   */
  predicate MonthTable(months: seq<string>) {
    && |months| == 12
    && forall k, l :: 0 <= k < l < |months| ==> LowerString(months[k]) != LowerString(months[l])
  }

  /**
   * What reading month `m` back needs of the table: twelve names, and no
   * name before the `m`-th equal to it when case is ignored.
   */
  predicate NamesMonth(months: seq<string>, m: nat) {
    && |months| == 12 && 1 <= m <= 12
    && forall k :: 0 <= k < m - 1 ==> LowerString(months[k]) != LowerString(months[m - 1])
  }

  /** A full month table names every month. */
  lemma MonthTableNamesMonths(months: seq<string>, m: nat)
    requires MonthTable(months) && 1 <= m <= 12
    ensures NamesMonth(months, m)
  {
  }

  /** A name `\w+` matches in full. */
  predicate IsWord(s: string) {
    |s| > 0 && forall k :: 0 <= k < |s| ==> IsWordChar(s[k])
  }

  /** The e-reader's date text, `D. <month name> YYYY HH:MM:SS`, as the German locale writes it. */
  function FormatDateTime(dt: DateTime, months: seq<string>): string
    requires 1 <= dt.month <= |months|
  {
    Decimal(dt.day) + ". " + months[dt.month - 1]
      + (" " + Padded(dt.year, 4) + " " + Padded(dt.hour, 2) + ":" + Padded(dt.minute, 2) + ":" + Padded(dt.second, 2))
  }

  /** Each month name is read back as its own number. */
  lemma MonthNumberOfName(months: seq<string>, m: nat)
    requires NamesMonth(months, m)
    ensures MonthNumber(months, months[m - 1]) == Some(m)
  {
    var r := MonthNumber(months, months[m - 1]);
    assert r.Some?;
    var v := r.value;
    assert LowerString(months[v - 1]) == LowerString(months[m - 1]);
    assert v <= m;
  }

  /**
   * A timestamp laid out at `i` with `n` day digits and the month word
   * ending at `w`, after digit-free text, is the match whose groups
   * `strptime` reads.
   */
  lemma TimestampAt(s: string, i: nat, n: nat, w: nat, months: seq<string>)
    requires n == 1 || n == 2
    requires i + n + 2 < w && w + 14 <= |s|
    requires NoDigits(s[..i])
    requires TimestampLayout(s, i, n, w)
    ensures MatchesAt(Timestamp, s, i) && ExtractDateTime(s, months) == ReadTimestamp(s, i, months)
  {
    TimestampMatches(s, i, n, w);
    NoMatchBefore(Timestamp, s, i);
    SearchFinds(Timestamp, s, i);
    ExtractAtMatch(s, i, months);
  }

  lemma TimestampMatches(s: string, i: nat, n: nat, w: nat)
    requires n == 1 || n == 2
    requires i + n + 2 < w && w + 14 <= |s|
    requires TimestampLayout(s, i, n, w)
    ensures MatchesAt(Timestamp, s, i)
  {
    TimestampMatch(s, i, n, w);
  }

  lemma ExtractAtMatch(s: string, i: nat, months: seq<string>)
    requires i <= |s| && Search(Timestamp, s) == Some(i)
    ensures MatchesAt(Timestamp, s, i) && ExtractDateTime(s, months) == ReadTimestamp(s, i, months)
  {
  }

  /** Nothing matches inside a digit-free prefix. */
  lemma NoMatchBefore(p: Pattern, s: string, i: nat)
    requires i <= |s| && NoDigits(s[..i])
    ensures forall m :: 0 <= m < i ==> !MatchesAt(p, s, m)
  {
    forall m | 0 <= m < i ensures !MatchesAt(p, s, m) {
      assert s[m] == s[..i][m];
      NoMatchBeforeDigit(p, s, m);
    }
  }

  /** The groups of that match are the day, month word, year, hour, minute and second fields. */
  lemma TimestampFieldsAt(s: string, i: nat, n: nat, w: nat)
    requires n == 1 || n == 2
    requires i + n + 2 < w && w + 14 <= |s|
    requires TimestampLayout(s, i, n, w)
    ensures MatchesAt(Timestamp, s, i)
    ensures TimestampFields(s, i) == FieldsAt(s, i, n, w)
  {
    TimestampMatch(s, i, n, w);
  }

  /** The characters of `D. Word YYYY HH:MM:SS` with `n` day digits and the word ending at `w`. */
  predicate TimestampLayout(s: string, i: nat, n: nat, w: nat)
    requires i + n + 2 < w && w + 14 <= |s|
  {
    && TimestampFrame(s, i, n, w)
    && (forall m :: i + n + 2 <= m < w ==> IsWordChar(s[m]))
  }

  lemma TimestampMatch(s: string, i: nat, n: nat, w: nat)
    requires n == 1 || n == 2
    requires i + n + 2 < w && w + 14 <= |s|
    requires TimestampLayout(s, i, n, w)
    ensures TimestampWith(s, i, n) && WordEnd(s, i + n + 2) == w
    ensures DayWidth(s, i) == n
  {
    WordEndAt(s, i + n + 2, w);
  }

  /**
   * `extract_datetime` reads back the date the e-reader writes: the
   * weekday or any other digit-free text in front is skipped, and the
   * text after the seconds is ignored.
   */
  lemma ExtractDateTimeReadsTimestamp(prefix: string, dt: DateTime, months: seq<string>, suffix: string)
    requires NoDigits(prefix)
    requires ValidDateTime(dt) && NamesMonth(months, dt.month) && IsWord(months[dt.month - 1])
    ensures ExtractDateTime(prefix + FormatDateTime(dt, months) + suffix, months) == Ok(dt)
  {
    ReadsFormattedDate(prefix, dt, months, suffix);
    StrpTimeOfFormat(dt, months);
  }

  /** The fields `strptime` is given are the formatted fields of the date. */
  lemma ReadsFormattedDate(prefix: string, dt: DateTime, months: seq<string>, suffix: string)
    requires NoDigits(prefix)
    requires ValidDateTime(dt) && |months| == 12 && IsWord(months[dt.month - 1])
    ensures AllDigits(Decimal(dt.day)) && AllDigits(Padded(dt.year, 4)) && AllDigits(Padded(dt.hour, 2))
    ensures AllDigits(Padded(dt.minute, 2)) && AllDigits(Padded(dt.second, 2))
    ensures ExtractDateTime(prefix + FormatDateTime(dt, months) + suffix, months)
         == StrpTime(Decimal(dt.day), months[dt.month - 1], Padded(dt.year, 4),
                     Padded(dt.hour, 2), Padded(dt.minute, 2), Padded(dt.second, 2), months)
  {
    var D, M := Decimal(dt.day), months[dt.month - 1];
    var Y, H, Mi, S := Padded(dt.year, 4), Padded(dt.hour, 2), Padded(dt.minute, 2), Padded(dt.second, 2);
    FieldWidths(dt, months);
    assert FormatDateTime(dt, months) == D + ". " + M + (" " + Y + " " + H + ":" + Mi + ":" + S);
    ReadsFormatted(prefix, D, M, Y, H, Mi, S, suffix, months);
  }

  /** The formatted fields of a valid date have the shapes the timestamp pattern expects. */
  lemma FieldWidths(dt: DateTime, months: seq<string>)
    requires ValidDateTime(dt) && |months| == 12 && IsWord(months[dt.month - 1])
    ensures DateFields(Decimal(dt.day), months[dt.month - 1], Padded(dt.year, 4),
                       Padded(dt.hour, 2), Padded(dt.minute, 2), Padded(dt.second, 2))
  {
  }

  /** Day, month word, year, hour, minute and second as `D. M YYYY HH:MM:SS` has them. */
  predicate DateFields(D: string, M: string, Y: string, H: string, Mi: string, S: string) {
    && (|D| == 1 || |D| == 2) && AllDigits(D) && IsWord(M)
    && |Y| == 4 && |H| == 2 && |Mi| == 2 && |S| == 2
    && AllDigits(Y) && AllDigits(H) && AllDigits(Mi) && AllDigits(S)
  }

  /** Any fields laid out as `D. M YYYY HH:MM:SS` after digit-free text are what `strptime` is given. */
  lemma ReadsFormatted(prefix: string, D: string, M: string, Y: string, H: string, Mi: string, S: string, suffix: string,
                       months: seq<string>)
    requires NoDigits(prefix) && DateFields(D, M, Y, H, Mi, S)
    ensures ExtractDateTime(prefix + (D + ". " + M + (" " + Y + " " + H + ":" + Mi + ":" + S)) + suffix, months)
         == StrpTime(D, M, Y, H, Mi, S, months)
  {
    var s := prefix + (D + ". " + M + (" " + Y + " " + H + ":" + Mi + ":" + S)) + suffix;
    var i, n := |prefix|, |D|;
    DateLayout(prefix, D, M, Y, H, Mi, S, suffix);
    ReadsFields(s, i, n, i + n + 2 + |M|, D, M, Y, H, Mi, S, months);
  }

  /** A timestamp laid out after digit-free text is read field by field. */
  lemma ReadsFields(s: string, i: nat, n: nat, w: nat, D: string, M: string, Y: string, H: string, Mi: string, S: string,
                    months: seq<string>)
    requires (n == 1 || n == 2) && i + n + 2 < w && w + 14 <= |s|
    requires NoDigits(s[..i]) && TimestampLayout(s, i, n, w)
    requires s[i..i + n] == D && s[i + n + 2..w] == M
    requires s[w + 1..w + 5] == Y && s[w + 6..w + 8] == H && s[w + 9..w + 11] == Mi && s[w + 12..w + 14] == S
    ensures AllDigits(D) && AllDigits(Y) && AllDigits(H) && AllDigits(Mi) && AllDigits(S)
    ensures ExtractDateTime(s, months) == StrpTime(D, M, Y, H, Mi, S, months)
  {
    TimestampAt(s, i, n, w, months);
    TimestampFieldsAt(s, i, n, w);
    FieldsAreDigits(s, i);
  }

  /** `strptime` reads the formatted fields back as the date they came from. */
  lemma StrpTimeOfFormat(dt: DateTime, months: seq<string>)
    requires ValidDateTime(dt) && NamesMonth(months, dt.month)
    ensures StrpTime(Decimal(dt.day), months[dt.month - 1], Padded(dt.year, 4),
                     Padded(dt.hour, 2), Padded(dt.minute, 2), Padded(dt.second, 2), months) == Ok(dt)
  {
    MonthNumberOfName(months, dt.month);
  }

  /** Where each field of ` YYYY HH:MM:SS` sits. */
  lemma TimeLayout(Y: string, H: string, Mi: string, S: string)
    requires |Y| == 4 && |H| == 2 && |Mi| == 2 && |S| == 2
    ensures var t := " " + Y + " " + H + ":" + Mi + ":" + S;
      && |t| == 14 && t[0] == ' ' && t[5] == ' ' && t[8] == ':' && t[11] == ':'
      && t[1..5] == Y && t[6..8] == H && t[9..11] == Mi && t[12..14] == S
  {
  }

  /** A slice of a piece found inside a string is a slice of that string. */
  lemma SubSlice(s: string, i: nat, f: string, a: nat, b: nat)
    requires i + |f| <= |s| && s[i..i + |f|] == f && a <= b <= |f|
    ensures s[i + a..i + b] == f[a..b]
  {
    forall k | 0 <= k < b - a ensures s[i + a..i + b][k] == f[a..b][k] {
      assert f[a + k] == s[i..i + |f|][a + k] == s[i + a + k];
    }
  }

  /** Where each field of a date written as `D. M YYYY HH:MM:SS` lands. */
  lemma DateLayout(prefix: string, D: string, M: string, Y: string, H: string, Mi: string, S: string, suffix: string)
    requires (|D| == 1 || |D| == 2) && AllDigits(D) && IsWord(M)
    requires |Y| == 4 && |H| == 2 && |Mi| == 2 && |S| == 2
    requires AllDigits(Y) && AllDigits(H) && AllDigits(Mi) && AllDigits(S)
    ensures var s := prefix + (D + ". " + M + (" " + Y + " " + H + ":" + Mi + ":" + S)) + suffix;
      var i, n := |prefix|, |D|;
      var w := i + n + 2 + |M|;
      && i + n + 2 < w && w + 14 <= |s|
      && s[..i] == prefix
      && TimestampLayout(s, i, n, w)
      && s[i..i + n] == D && s[i + n + 2..w] == M
      && s[w + 1..w + 5] == Y && s[w + 6..w + 8] == H && s[w + 9..w + 11] == Mi && s[w + 12..w + 14] == S
  {
    var t := " " + Y + " " + H + ":" + Mi + ":" + S;
    var s := prefix + (D + ". " + M + t) + suffix;
    var i, n := |prefix|, |D|;
    var w := i + n + 2 + |M|;
    DateSlices(prefix, D, M, t, suffix);
    TimeLayout(Y, H, Mi, S);
    SubSlice(s, w, t, 1, 5);
    SubSlice(s, w, t, 6, 8);
    SubSlice(s, w, t, 9, 11);
    SubSlice(s, w, t, 12, 14);
    assert s[w] == t[0] && s[w + 5] == t[5] && s[w + 8] == t[8] && s[w + 11] == t[11];
    LayoutFromSlices(s, i, n, w, D, M, Y, H, Mi, S);
  }

  /** Where the day, the month name and the rest of a date sit. */
  lemma DateSlices(prefix: string, D: string, M: string, t: string, suffix: string)
    ensures var s := prefix + (D + ". " + M + t) + suffix;
      var i, n := |prefix|, |D|;
      var w := i + n + 2 + |M|;
      && s[..i] == prefix
      && s[i..i + n] == D && s[i + n] == '.' && s[i + n + 1] == ' ' && s[i + n + 2..w] == M
      && s[w..w + |t|] == t
  {
    var f := D + ". " + M + t;
    var s := prefix + f + suffix;
    var i, n, m := |prefix|, |D|, |M|;
    Middle(prefix, f, suffix);
    assert s[..i] == prefix;
    SubSlice(s, i, f, 0, n);
    SubSlice(s, i, f, n + 2, n + 2 + m);
    SubSlice(s, i, f, n + 2 + m, |f|);
  }

  /** The character-level layout follows from the fields sitting where they should. */
  lemma LayoutFromSlices(s: string, i: nat, n: nat, w: nat, D: string, M: string, Y: string, H: string, Mi: string, S: string)
    requires (n == 1 || n == 2) && i + n + 2 < w && w + 14 <= |s|
    requires s[i..i + n] == D && AllDigits(D) && s[i + n] == '.' && s[i + n + 1] == ' '
    requires s[i + n + 2..w] == M && IsWord(M)
    requires s[w] == ' ' && s[w + 5] == ' ' && s[w + 8] == ':' && s[w + 11] == ':'
    requires s[w + 1..w + 5] == Y && s[w + 6..w + 8] == H && s[w + 9..w + 11] == Mi && s[w + 12..w + 14] == S
    requires AllDigits(Y) && AllDigits(H) && AllDigits(Mi) && AllDigits(S)
    ensures TimestampLayout(s, i, n, w)
  {
    SliceDigits(s, i, i + n);
    SliceDigits(s, w + 1, w + 5);
    SliceDigits(s, w + 6, w + 8);
    SliceDigits(s, w + 9, w + 11);
    SliceDigits(s, w + 12, w + 14);
    forall k | i + n + 2 <= k < w ensures IsWordChar(s[k]) {
      assert s[k] == M[k - (i + n + 2)];
    }
  }

  /** A slice of digits is digits at every index it covers. */
  lemma SliceDigits(s: string, a: nat, b: nat)
    requires a <= b <= |s| && AllDigits(s[a..b])
    ensures forall k :: a <= k < b ==> IsDigit(s[k])
  {
    forall k | a <= k < b ensures IsDigit(s[k]) {
      assert s[k] == s[a..b][k - a];
    }
  }

  // ---------------------------------------------------------------------------
  // When the extractors raise

  /** Lines 65-70: `extract_page` raises exactly when the text has no digit. */
  lemma ExtractPageFails(text: string)
    ensures ExtractPage(text).Err? <==> NoDigits(text)
  {
    if NoDigits(text) {
      forall k | 0 <= k <= |text| ensures !MatchesAt(PageNumber, text, k) {
        if k < |text| {
          assert !IsDigit(text[k]);
        }
      }
    } else {
      var k :| 0 <= k < |text| && IsDigit(text[k]);
      assert MatchesAt(PageNumber, text, k);
    }
  }

  /** A `-` with a digit on each side: what `(\d+)-(\d+)` needs somewhere. */
  predicate HasRange(s: string) {
    exists j :: 0 < j < |s| - 1 && s[j] == '-' && IsDigit(s[j - 1]) && IsDigit(s[j + 1])
  }

  /**
   * Lines 82-90: `extract_positions` raises exactly when no `-` in the text
   * has a digit on both sides.
   */
  lemma ExtractPositionsFails(text: string)
    ensures ExtractPositions(text).Err? <==> !HasRange(text)
  {
    if HasRange(text) {
      var j :| 0 < j < |text| - 1 && text[j] == '-' && IsDigit(text[j - 1]) && IsDigit(text[j + 1]);
      DigitsEndAt(text, j - 1, j);
      assert DigitsEnd(text, j + 1) > j + 1;
      assert MatchesAt(PositionRange, text, j - 1);
    } else {
      forall k | 0 <= k <= |text| ensures !MatchesAt(PositionRange, text, k) {
        var j := DigitsEnd(text, k);
        if k < j < |text| - 1 && text[j] == '-' {
          assert IsDigit(text[j - 1]);
          assert !IsDigit(text[j + 1]);
          assert DigitsEnd(text, j + 1) == j + 1;
        }
      }
    }
  }

  /**
   * Lines 73-79: `extract_datetime` raises "Invalid datetime" exactly when
   * the timestamp pattern matches nowhere; a match whose fields are out of
   * range fails in `strptime` instead.
   */
  lemma ExtractDateTimeFails(text: string, months: seq<string>)
    ensures ExtractDateTime(text, months) == Err(InvalidDateTime)
        <==> forall k :: 0 <= k <= |text| ==> !MatchesAt(Timestamp, text, k)
  {
    match Search(Timestamp, text)
    case None =>
    case Some(i) =>
      assert ReadTimestamp(text, i, months) != Err(InvalidDateTime);
  }
}
