/**
 * `remove_chars` of `KindleClippings.py`: the five substitutions that turn
 * a book title into a file name. Each `re.sub` is a left-to-right scan that
 * replaces every non-overlapping leftmost match; the character classes are
 * the ASCII ones.
 */
module FileNames {
  import opened Wrappers
  import opened Text

  // ---------------------------------------------------------------------------
  // Step 1: `re.sub(' *: *', ' - ', s)`

  /** The first index at or after `i` that does not hold a space. */
  function SpacesEnd(s: string, i: nat): (j: nat)
    requires i <= |s|
    ensures i <= j <= |s|
    ensures forall k :: i <= k < j ==> s[k] == ' '
    ensures j == |s| || s[j] != ' '
    decreases |s| - i
  {
    if i < |s| && s[i] == ' ' then SpacesEnd(s, i + 1) else i
  }

  /**
   * At each position, a run of spaces, a colon and the spaces after it are
   * replaced together by `" - "`; any other character is kept.
   */
  function ReplaceColons(s: string): string
    decreases |s|
  {
    if s == [] then []
    else
      var j := SpacesEnd(s, 0);
      if j < |s| && s[j] == ':' then " - " + ReplaceColons(s[SpacesEnd(s, j + 1)..])
      else [s[0]] + ReplaceColons(s[1..])
  }

  function Spaces(n: nat): (r: string)
    ensures |r| == n && forall k :: 0 <= k < n ==> r[k] == ' '
  {
    if n == 0 then [] else [' '] + Spaces(n - 1)
  }

  /** No colon is left. */
  lemma {:induction false} ColonsGone(s: string)
    ensures ':' !in ReplaceColons(s)
    decreases |s|
  {
    if s != [] {
      var j := SpacesEnd(s, 0);
      if j < |s| && s[j] == ':' {
        ColonsGone(s[SpacesEnd(s, j + 1)..]);
      } else {
        ColonsGone(s[1..]);
      }
    }
  }

  /** Text without a colon is left as it is. */
  lemma {:induction false} ColonsAbsent(s: string)
    requires ':' !in s
    ensures ReplaceColons(s) == s
    decreases |s|
  {
    if s != [] {
      if SpacesEnd(s, 0) < |s| {
        assert s[SpacesEnd(s, 0)] in s;
      }
      ColonsAbsent(s[1..]);
      assert s == [s[0]] + s[1..];
    }
  }

  /** `SpacesEnd` is fixed by its contract. */
  lemma {:induction false} SpacesEndAt(s: string, i: nat, j: nat)
    requires i <= j <= |s| && (forall k :: i <= k < j ==> s[k] == ' ') && (j == |s| || s[j] != ' ')
    ensures SpacesEnd(s, i) == j
    decreases j - i
  {
    if i < j {
      SpacesEndAt(s, i + 1, j);
    }
  }

  /** Text without a colon that does not end in a space is kept, and the scan goes on after it. */
  lemma {:induction false} ColonsPrefix(a: string, t: string)
    requires ':' !in a && (a == [] || a[|a| - 1] != ' ')
    ensures ReplaceColons(a + t) == a + ReplaceColons(t)
    decreases |a|
  {
    if a == [] {
      assert a + t == t;
    } else {
      var s := a + t;
      assert ReplaceColons(s) == [a[0]] + ReplaceColons(a[1..] + t) by {
        SpacesStopIn(a, t);
        ColonsKeepFirst(s);
        assert s[1..] == a[1..] + t;
      }
      ColonsPrefix(a[1..], t);
      assert a + ReplaceColons(t) == [a[0]] + (a[1..] + ReplaceColons(t)) by {
        ConcatAssoc([a[0]], a[1..], ReplaceColons(t));
        assert [a[0]] + a[1..] == a;
      }
    }
  }

  /** The spaces at the start of `a + t` end inside `a`, on a character that is not a colon. */
  lemma SpacesStopIn(a: string, t: string)
    requires a != [] && ':' !in a && a[|a| - 1] != ' '
    ensures SpacesEnd(a + t, 0) < |a + t| && (a + t)[SpacesEnd(a + t, 0)] != ':'
  {
    var s := a + t;
    var j := SpacesEnd(s, 0);
    assert j < |a| by {
      assert s[|a| - 1] == a[|a| - 1];
    }
    assert s[j] == a[j] && a[j] in a;
  }

  /** Where the first non-space is not a colon, the first character is kept. */
  lemma ColonsKeepFirst(s: string)
    requires s != [] && SpacesEnd(s, 0) < |s| && s[SpacesEnd(s, 0)] != ':'
    ensures ReplaceColons(s) == [s[0]] + ReplaceColons(s[1..])
  {
  }

  /** The scan of `Spaces(m) + ":" + Spaces(n) + b` finds its colon at `m`. */
  lemma ColonFound(s: string, m: nat, n: nat, b: string)
    requires s == Spaces(m) + ":" + Spaces(n) + b
    ensures m < |s| && s[m] == ':' && SpacesEnd(s, 0) == m
  {
    var rest := [':'] + (Spaces(n) + b);
    assert s == Spaces(m) + rest by {
      ConcatAssoc(Spaces(m), [':'], Spaces(n));
      ConcatAssoc(Spaces(m) + [':'], Spaces(n), b);
      ConcatAssoc(Spaces(m), [':'], Spaces(n) + b);
      ConcatAssoc([':'], Spaces(n), b);
    }
    assert s[m] == rest[0];
    assert forall k :: 0 <= k < m ==> s[k] == Spaces(m)[k];
    SpacesEndAt(s, 0, m);
  }

  /** After the colon it skips the spaces and goes on with `b`. */
  lemma ColonSkipped(s: string, m: nat, n: nat, b: string)
    requires s == Spaces(m) + ":" + Spaces(n) + b && (b == [] || b[0] != ' ')
    ensures SpacesEnd(s, m + 1) == m + 1 + n && s[m + 1 + n..] == b
  {
    var rest := Spaces(n) + b;
    assert s == (Spaces(m) + [':']) + rest;
    assert forall k :: m + 1 <= k < m + 1 + n ==> s[k] == rest[k - m - 1];
    assert m + 1 + n == |s| || s[m + 1 + n] == b[0];
    SpacesEndAt(s, m + 1, m + 1 + n);
  }

  /** A colon with the spaces around it, at the start of the scan, becomes `" - "`. */
  lemma ColonAtStart(m: nat, n: nat, b: string)
    requires b == [] || b[0] != ' '
    ensures ReplaceColons(Spaces(m) + ":" + Spaces(n) + b) == " - " + ReplaceColons(b)
  {
    var s := Spaces(m) + ":" + Spaces(n) + b;
    ColonFound(s, m, n, b);
    ColonSkipped(s, m, n, b);
  }

  /**
   * A colon with the spaces on either side becomes `" - "`, so `"A: B"`
   * becomes `"A - B"`; the text before the first colon is kept.
   */
  lemma ColonWithSpaces(a: string, m: nat, n: nat, b: string)
    requires ':' !in a && (a == [] || a[|a| - 1] != ' ') && (b == [] || b[0] != ' ')
    ensures ReplaceColons(a + Spaces(m) + ":" + Spaces(n) + b) == a + " - " + ReplaceColons(b)
  {
    var t := Spaces(m) + ":" + Spaces(n) + b;
    assert a + Spaces(m) + ":" + Spaces(n) + b == a + t;
    ColonsPrefix(a, t);
    ColonAtStart(m, n, b);
  }

  // ---------------------------------------------------------------------------
  // Step 2: `s.replace('?', '').replace('&', 'and')`

  function ReplaceMarks(s: string): string {
    ReplaceChar(ReplaceChar(s, '?', ""), '&', "and")
  }

  /** No `?` and no `&` is left, and text without either is left as it is. */
  lemma MarksGone(s: string)
    ensures '?' !in ReplaceMarks(s) && '&' !in ReplaceMarks(s)
    ensures '?' !in s && '&' !in s ==> ReplaceMarks(s) == s
  {
    var s1 := ReplaceChar(s, '?', "");
    ReplaceCharChars(s, '?', "");
    ReplaceCharChars(s1, '&', "and");
  }

  /** Step 2 deletes each `?` and spells each `&` as "and", leaving the text around it alone. */
  lemma MarksReplaced(a: string, b: string)
    ensures ReplaceMarks(a + "&" + b) == ReplaceMarks(a) + "and" + ReplaceMarks(b)
    ensures ReplaceMarks(a + "?" + b) == ReplaceMarks(a) + ReplaceMarks(b)
  {
    MarkReplaced(a, "&", b);
    assert ReplaceChar(ReplaceChar("&", '?', ""), '&', "and") == "and";
    MarkReplaced(a, "?", b);
    assert ReplaceChar(ReplaceChar("?", '?', ""), '&', "and") == "";
  }

  /** Step 2 works on each piece of a text on its own. */
  lemma MarkReplaced(a: string, m: string, b: string)
    ensures ReplaceMarks(a + m + b) == ReplaceMarks(a) + ReplaceMarks(m) + ReplaceMarks(b)
  {
    var q := (x: string) => ReplaceChar(x, '?', "");
    ReplaceCharConcat(a + m, b, '?', "");
    ReplaceCharConcat(a, m, '?', "");
    ReplaceCharConcat(q(a) + q(m), q(b), '&', "and");
    ReplaceCharConcat(q(a), q(m), '&', "and");
  }

  // ---------------------------------------------------------------------------
  // Step 3: `re.sub(r'\((.+?)\)', r'- \1', s)`

  /**
   * Where the shortest group opened by `s[0] == '('` closes, extending the
   * group from `s[1..k]`: the group holds at least one character and no
   * line break, and its `)` is the first one after its first character.
   */
  function GroupEnd(s: string, k: nat): (r: Option<nat>)
    requires 1 <= k
    ensures r.Some? ==> k < r.value < |s| && s[r.value] == ')'
    ensures r.Some? ==> forall m :: k <= m < r.value ==> s[m] != '\n'
    ensures r.Some? ==> forall m :: k < m < r.value ==> s[m] != ')'
    ensures r.None? ==> forall m :: k < m < |s| && s[m] == ')' ==> exists i :: k <= i < m && s[i] == '\n'
    decreases |s| - k
  {
    if k >= |s| || s[k] == '\n' then None
    else if k + 1 < |s| && s[k + 1] == ')' then Some(k + 1)
    else GroupEnd(s, k + 1)
  }

  /** Each `(x)` with the shortest non-empty `x`, left to right, becomes `- x`. */
  function ReplaceGroups(s: string): string
    decreases |s|
  {
    if s == [] then []
    else if s[0] == '(' && GroupEnd(s, 1).Some? then
      var j := GroupEnd(s, 1).value;
      "- " + s[1..j] + ReplaceGroups(s[j + 1..])
    else [s[0]] + ReplaceGroups(s[1..])
  }

  /** Text without `(` is left as it is. */
  lemma {:induction false} GroupsAbsent(s: string)
    requires '(' !in s
    ensures ReplaceGroups(s) == s
    decreases |s|
  {
    if s != [] {
      GroupsAbsent(s[1..]);
      assert s == [s[0]] + s[1..];
    }
  }

  /** Text without `(` is kept, and the scan goes on after it. */
  lemma {:induction false} GroupsPrefix(a: string, t: string)
    requires '(' !in a
    ensures ReplaceGroups(a + t) == a + ReplaceGroups(t)
    decreases |a|
  {
    if a == [] {
      assert a + t == t;
    } else {
      var s := a + t;
      assert s[0] == a[0];
      GroupsPrefix(a[1..], t);
      assert s[1..] == a[1..] + t;
      assert a == [a[0]] + a[1..];
    }
  }

  /** The group of `"(" + x + ")" + b` closes at the `)` just after `x`. */
  lemma GroupEndAt(s: string, x: string, b: string)
    requires s == "(" + x + ")" + b
    requires x != [] && '\n' !in x && ')' !in x[1..]
    ensures GroupEnd(s, 1) == Some(|x| + 1)
  {
    assert s[|x| + 1] == ')';
    forall m | 1 <= m <= |x| ensures s[m] == x[m - 1] && s[m] != '\n' {
      assert x[m - 1] in x;
    }
    forall m | 1 < m <= |x| ensures s[m] != ')' {
      assert x[1..][m - 2] == x[m - 1];
    }
  }

  /** A group at the start of the scan becomes `"- " + x`. */
  lemma GroupAtStart(x: string, b: string)
    requires x != [] && '\n' !in x && ')' !in x[1..]
    ensures ReplaceGroups("(" + x + ")" + b) == "- " + x + ReplaceGroups(b)
  {
    var s := "(" + x + ")" + b;
    GroupEndAt(s, x, b);
    assert s[1..|x| + 1] == x && s[|x| + 2..] == b;
  }

  /**
   * The first group is `a (x) b` with no `(` in `a`, a non-empty `x` on one
   * line and no `)` in `x` after its first character: it becomes `a - x`,
   * and the scan goes on with `b`. So `"this (text)"` becomes `"this - text"`.
   */
  lemma GroupReplaced(a: string, x: string, b: string)
    requires '(' !in a && x != [] && '\n' !in x && ')' !in x[1..]
    ensures ReplaceGroups(a + "(" + x + ")" + b) == a + "- " + x + ReplaceGroups(b)
  {
    var t := "(" + x + ")" + b;
    assert a + "(" + x + ")" + b == a + t;
    GroupsPrefix(a, t);
    GroupAtStart(x, b);
  }

  // ---------------------------------------------------------------------------
  // Step 4: `re.sub(r'[^a-zA-Z\d\s;,_-]+', '', s)`

  /** The characters a file name keeps. */
  predicate IsKept(c: char) {
    IsLetter(c) || IsDigit(c) || IsSpace(c) || c == ';' || c == ',' || c == '_' || c == '-'
  }

  /** Every other character is deleted. */
  function KeepAllowed(s: string): string {
    if s == [] then [] else (if IsKept(s[0]) then [s[0]] else []) + KeepAllowed(s[1..])
  }

  /** What is left is kept characters only, and all the kept characters of the input. */
  lemma {:induction false} KeepAllowedChars(s: string, c: char)
    ensures c in KeepAllowed(s) <==> c in s && IsKept(c)
  {
    if s != [] {
      KeepAllowedChars(s[1..], c);
      assert s == [s[0]] + s[1..];
    }
  }

  /** Text of kept characters only is left as it is. */
  lemma {:induction false} KeepAllowedSame(s: string)
    requires forall c :: c in s ==> IsKept(c)
    ensures KeepAllowed(s) == s
  {
    if s != [] {
      assert s[0] in s;
      KeepAllowedSame(s[1..]);
      assert s == [s[0]] + s[1..];
    }
  }

  // ---------------------------------------------------------------------------
  // Step 5: `re.sub(r'^\W+|\W+$', '', s)`

  /** Text with no word character: what `\W+` matches. */
  predicate NonWord(s: string) { forall k :: 0 <= k < |s| ==> !IsWordChar(s[k]) }

  /** `^\W+` deleted: the rest of the text, after a leading run of non-word characters. */
  function DropLeadingNonWord(s: string): (r: string)
    ensures |r| <= |s| && r == s[|s| - |r|..]
    ensures NonWord(s[..|s| - |r|])
    ensures r == [] || IsWordChar(r[0])
  {
    if s != [] && !IsWordChar(s[0]) then DropLeadingNonWord(s[1..]) else s
  }

  /** `\W+$` deleted: the text before a trailing run of non-word characters. */
  function DropTrailingNonWord(s: string): (r: string)
    ensures |r| <= |s| && r == s[..|r|]
    ensures NonWord(s[|r|..])
    ensures r == [] || IsWordChar(r[|r| - 1])
    ensures r == [] || (s != [] && r[0] == s[0])
  {
    if s != [] && !IsWordChar(s[|s| - 1]) then DropTrailingNonWord(s[..|s| - 1]) else s
  }

  /** No character is added at the front. */
  lemma {:induction false} DropLeadingChars(s: string, c: char)
    ensures c in DropLeadingNonWord(s) ==> c in s
  {
    if s != [] && !IsWordChar(s[0]) {
      DropLeadingChars(s[1..], c);
    }
  }

  /** No character is added at the back. */
  lemma {:induction false} DropTrailingChars(s: string, c: char)
    ensures c in DropTrailingNonWord(s) ==> c in s
  {
    if s != [] && !IsWordChar(s[|s| - 1]) {
      DropTrailingChars(s[..|s| - 1], c);
    }
  }

  /** The runs of non-word characters at both ends are deleted. */
  function TrimNonWord(s: string): string {
    DropTrailingNonWord(DropLeadingNonWord(s))
  }

  /**
   * The trimmed text is empty or has word characters at both ends, adds no
   * character, and is the slice of `s` between a leading and a trailing
   * run of non-word characters.
   */
  lemma TrimNonWordEnds(s: string, c: char)
    ensures var r := TrimNonWord(s);
      && (r == [] || (IsWordChar(r[0]) && IsWordChar(r[|r| - 1])))
      && (c in r ==> c in s)
    ensures var r := TrimNonWord(s); var i := |s| - |DropLeadingNonWord(s)|;
      && i + |r| <= |s| && r == s[i..i + |r|]
      && NonWord(s[..i]) && NonWord(s[i + |r|..])
  {
    DropLeadingChars(s, c);
    DropTrailingChars(DropLeadingNonWord(s), c);
    TrimNonWordSlice(s);
  }

  /** The two drops leave the middle slice of `s`, with non-word runs on either side. */
  lemma TrimNonWordSlice(s: string)
    ensures var r := TrimNonWord(s); var i := |s| - |DropLeadingNonWord(s)|;
      && i + |r| <= |s| && r == s[i..i + |r|]
      && NonWord(s[..i]) && NonWord(s[i + |r|..])
  {
    var t := DropLeadingNonWord(s);
    var r := DropTrailingNonWord(t);
    var i := |s| - |t|;
    assert t == s[i..];
    assert r == t[..|r|];
    SliceOfSuffix(s, i, |r|);
    assert NonWord(t[|r|..]);
  }

  lemma SliceOfSuffix(s: string, i: nat, n: nat)
    requires i + n <= |s|
    ensures s[i..][..n] == s[i..i + n] && s[i..][n..] == s[i + n..]
  {
  }

  /** Text that is empty or has word characters at both ends is left as it is. */
  lemma TrimNonWordSame(s: string)
    requires s == [] || (IsWordChar(s[0]) && IsWordChar(s[|s| - 1]))
    ensures TrimNonWord(s) == s
  {
  }

  // ---------------------------------------------------------------------------
  // The whole chain

  /** `remove_chars`: the five steps in order. */
  function RemoveChars(s: string): string {
    TrimNonWord(KeepAllowed(ReplaceGroups(ReplaceMarks(ReplaceColons(s)))))
  }

  /** A file name is empty or starts and ends with a word character. */
  lemma RemoveCharsEnds(s: string)
    ensures var r := RemoveChars(s); r == [] || (IsWordChar(r[0]) && IsWordChar(r[|r| - 1]))
  {
    TrimNonWordEnds(KeepAllowed(ReplaceGroups(ReplaceMarks(ReplaceColons(s)))), ' ');
  }

  /**
   * A file name holds only ASCII letters, digits, whitespace, `;`, `,`, `_`
   * and `-`.
   */
  lemma RemoveCharsAlphabet(s: string, c: char)
    requires c in RemoveChars(s)
    ensures IsKept(c)
  {
    var t := KeepAllowed(ReplaceGroups(ReplaceMarks(ReplaceColons(s))));
    TrimNonWordEnds(t, c);
    KeepAllowedChars(ReplaceGroups(ReplaceMarks(ReplaceColons(s))), c);
  }

  /** Cleaning a file name again changes nothing. */
  lemma RemoveCharsIdempotent(s: string)
    ensures RemoveChars(RemoveChars(s)) == RemoveChars(s)
  {
    var r := RemoveChars(s);
    forall c | c in r ensures IsKept(c) {
      RemoveCharsAlphabet(s, c);
    }
    RemoveCharsEnds(s);
    assert IsFileName(r);
    Unchanged(r);
  }

  /** What `remove_chars` returns: kept characters only, and word characters at both ends. */
  predicate IsFileName(r: string) {
    && (forall c :: c in r ==> IsKept(c))
    && (r == [] || (IsWordChar(r[0]) && IsWordChar(r[|r| - 1])))
  }

  /** A file name passes the first three steps unchanged. */
  lemma SubstitutionsSame(r: string)
    requires IsFileName(r)
    ensures ReplaceColons(r) == r && ReplaceGroups(ReplaceMarks(r)) == r
  {
    assert !IsKept(':') && !IsKept('?') && !IsKept('&') && !IsKept('(');
    ColonsAbsent(r);
    MarksGone(r);
    GroupsAbsent(r);
  }

  /** A file name passes the last two steps unchanged. */
  lemma FilterSame(r: string)
    requires IsFileName(r)
    ensures TrimNonWord(KeepAllowed(r)) == r
  {
    KeepAllowedSame(r);
    TrimNonWordSame(r);
  }

  /** So a file name passes all five steps unchanged. */
  lemma Unchanged(r: string)
    requires IsFileName(r)
    ensures RemoveChars(r) == r
  {
    SubstitutionsSame(r);
    FilterSame(r);
  }

  /** A non-empty word of ASCII letters. */
  predicate IsLetters(w: string) {
    w != [] && forall k :: 0 <= k < |w| ==> IsLetter(w[k])
  }

  /** Two words around `" - "` make a file name. */
  lemma JoinedWordsName(w1: string, w2: string)
    requires IsLetters(w1) && IsLetters(w2)
    ensures IsFileName(w1 + " - " + w2)
  {
    var r := w1 + " - " + w2;
    forall c | c in r ensures IsKept(c) {
      if c in w1 {
        var k :| 0 <= k < |w1| && w1[k] == c;
      } else if c in w2 {
        var k :| 0 <= k < |w2| && w2[k] == c;
      }
    }
    assert r[0] == w1[0] && r[|r| - 1] == w2[|w2| - 1];
  }

  /** `"A: B"` becomes `"A - B"`, for any two words. */
  lemma ColonExample(w1: string, w2: string)
    requires IsLetters(w1) && IsLetters(w2)
    ensures RemoveChars(w1 + ": " + w2) == w1 + " - " + w2
  {
    assert ':' !in w1 by {
      forall k | 0 <= k < |w1| ensures w1[k] != ':' {
        assert IsLetter(w1[k]);
      }
    }
    assert ':' !in w2 by {
      forall k | 0 <= k < |w2| ensures w2[k] != ':' {
        assert IsLetter(w2[k]);
      }
    }
    assert Spaces(0) == [] && Spaces(1) == [' '];
    assert w1 + Spaces(0) + ":" + Spaces(1) + w2 == w1 + ": " + w2;
    ColonWithSpaces(w1, 0, 1, w2);
    ColonsAbsent(w2);
    JoinedWordsName(w1, w2);
    SubstitutionsSame(w1 + " - " + w2);
    FilterSame(w1 + " - " + w2);
  }

  /** `"this (text)"` becomes `"this - text"`, for any two words. */
  lemma GroupExample(w1: string, w2: string)
    requires IsLetters(w1) && IsLetters(w2)
    ensures RemoveChars(w1 + " (" + w2 + ")") == w1 + " - " + w2
  {
    var s := w1 + " (" + w2 + ")";
    WordsGroupChars(w1, w2);
    ColonsAbsent(s);
    MarksGone(s);
    assert (w1 + " ") + "(" + w2 + ")" + "" == s;
    GroupReplaced(w1 + " ", w2, "");
    GroupsAbsent("");
    assert (w1 + " ") + "- " + w2 + "" == w1 + " - " + w2;
    JoinedWordsName(w1, w2);
    SubstitutionsSame(w1 + " - " + w2);
    FilterSame(w1 + " - " + w2);
  }

  /** The characters of `w1 (w2)` that the steps look at. */
  lemma WordsGroupChars(w1: string, w2: string)
    requires IsLetters(w1) && IsLetters(w2)
    ensures var s := w1 + " (" + w2 + ")"; ':' !in s && '?' !in s && '&' !in s
    ensures '(' !in w1 + " " && '\n' !in w2 && ')' !in w2[1..]
  {
    var s := w1 + " (" + w2 + ")";
    forall k | 0 <= k < |s| ensures s[k] != ':' && s[k] != '?' && s[k] != '&' {
      if k < |w1| {
        assert IsLetter(w1[k]);
      } else if |w1| + 2 <= k < |w1| + 2 + |w2| {
        assert s[k] == w2[k - |w1| - 2] && IsLetter(w2[k - |w1| - 2]);
      }
    }
    forall k | 0 <= k < |w1| ensures w1[k] != '(' {
      assert IsLetter(w1[k]);
    }
    forall k | 0 <= k < |w2| ensures w2[k] != '\n' && w2[k] != ')' {
      assert IsLetter(w2[k]);
    }
  }
}
