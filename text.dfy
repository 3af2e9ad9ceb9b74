/**
 * The pieces of Python's string handling that the clipping code relies on:
 * `str.split`, `str.strip`, `str.replace`, `int(...)` of a digit string,
 * and the character classes `\d`, `\s`, `\w` of the `re` module, read as
 * their ASCII subsets.
 */
module Text {
  import opened Wrappers

  // ---------------------------------------------------------------------------
  // Character classes

  predicate IsDigit(c: char) { '0' <= c <= '9' }

  predicate IsLetter(c: char) { 'a' <= c <= 'z' || 'A' <= c <= 'Z' }

  /**
   * ASCII whitespace: space, tab, line feed, carriage return, vertical tab
   * and form feed. This is the ASCII part of `\s`; `str.strip()` also
   * trims U+001C..U+001F and the non-ASCII spaces, which this model does
   * not.
   */
  predicate IsSpace(c: char) {
    c == ' ' || c == '\t' || c == '\n' || c == '\r' || c == '\U{000B}' || c == '\U{000C}'
  }

  /** `\w`: a letter, a digit or the underscore. */
  predicate IsWordChar(c: char) { IsLetter(c) || IsDigit(c) || c == '_' }

  predicate AllDigits(s: string) { forall k :: 0 <= k < |s| ==> IsDigit(s[k]) }

  predicate NoDigits(s: string) { forall k :: 0 <= k < |s| ==> !IsDigit(s[k]) }

  predicate AllSpace(s: string) { forall k :: 0 <= k < |s| ==> IsSpace(s[k]) }

  /** A string that `str.strip()` leaves as it is. */
  predicate IsStripped(s: string) {
    s == [] || (!IsSpace(s[0]) && !IsSpace(s[|s| - 1]))
  }

  function Lower(c: char): (r: char)
    ensures IsLetter(c) ==> IsLetter(r) && 'a' <= r <= 'z'
    ensures !('A' <= c <= 'Z') ==> r == c
  {
    if 'A' <= c <= 'Z' then (c as int - 'A' as int + 'a' as int) as char else c
  }

  /** ASCII case folding, as `str.lower()` does for ASCII text. */
  function LowerString(s: string): (r: string)
    ensures |r| == |s|
    ensures forall k :: 0 <= k < |s| ==> r[k] == Lower(s[k])
  {
    if s == [] then [] else [Lower(s[0])] + LowerString(s[1..])
  }

  // ---------------------------------------------------------------------------
  // Decimal numbers

  function DigitValue(c: char): (d: nat)
    requires IsDigit(c)
    ensures d < 10
  {
    c as int - '0' as int
  }

  function DigitChar(d: nat): (c: char)
    requires d < 10
    ensures IsDigit(c) && DigitValue(c) == d
  {
    ('0' as int + d) as char
  }

  /** `int(s)` for a string of decimal digits, most significant first. */
  function NatValue(s: string): nat
    requires AllDigits(s)
  {
    if s == [] then 0 else 10 * NatValue(s[..|s| - 1]) + DigitValue(s[|s| - 1])
  }

  /** The decimal representation of `n` without leading zeros (`str(n)`). */
  function Decimal(n: nat): (r: string)
    ensures |r| > 0 && AllDigits(r)
    ensures NatValue(r) == n
    ensures n < 10 <==> |r| == 1
    ensures n < 100 ==> |r| <= 2
    ensures n < 10000 ==> |r| <= 4
    decreases n
  {
    if n < 10 then [DigitChar(n)]
    else
      var r := Decimal(n / 10) + [DigitChar(n % 10)];
      assert r[..|r| - 1] == Decimal(n / 10);
      r
  }

  function Zeros(n: nat): (r: string)
    ensures |r| == n && AllDigits(r)
    ensures forall k :: 0 <= k < n ==> r[k] == '0'
  {
    if n == 0 then [] else ['0'] + Zeros(n - 1)
  }

  /** `n` written with at least `width` digits, padded with leading zeros. */
  function Padded(n: nat, width: nat): (r: string)
    ensures AllDigits(r)
    ensures |Decimal(n)| <= width ==> |r| == width
    ensures NatValue(r) == n
  {
    var d := Decimal(n);
    var r := if |d| < width then Zeros(width - |d|) + d else d;
    LeadingZeros(Zeros(if |d| < width then width - |d| else 0), d);
    assert Zeros(0) + d == d;
    r
  }

  /** Leading zeros do not change the value `int` reads. */
  lemma {:induction false} LeadingZeros(z: string, d: string)
    requires AllDigits(z) && AllDigits(d)
    requires forall k :: 0 <= k < |z| ==> z[k] == '0'
    ensures AllDigits(z + d)
    ensures NatValue(z + d) == NatValue(d)
  {
    if d == [] {
      assert z + d == z;
      AllZeros(z);
    } else {
      var s := z + d;
      assert s[..|s| - 1] == z + d[..|d| - 1];
      LeadingZeros(z, d[..|d| - 1]);
    }
  }

  lemma {:induction false} AllZeros(z: string)
    requires forall k :: 0 <= k < |z| ==> z[k] == '0'
    ensures AllDigits(z) && NatValue(z) == 0
  {
    if z != [] {
      AllZeros(z[..|z| - 1]);
    }
  }

  // ---------------------------------------------------------------------------
  // Substrings, `str.split` and its inverse `str.join`

  predicate OccursAt(s: string, sep: string, k: nat) {
    k + |sep| <= |s| && s[k..k + |sep|] == sep
  }

  /** `sep in s`. */
  predicate Contains(s: string, sep: string) {
    exists k: nat | k <= |s| :: OccursAt(s, sep, k)
  }

  /**
   * `piece` is where a left-to-right search for `sep` stops: `sep` does not
   * occur in `piece + sep` before the `sep` that follows `piece`.
   */
  predicate NoEarlierOccurrence(piece: string, sep: string) {
    forall k: nat :: k < |piece| ==> !OccursAt(piece + sep, sep, k)
  }

  lemma OccursShift(s: string, sep: string, k: nat)
    requires |s| > 0
    ensures OccursAt(s[1..], sep, k) <==> OccursAt(s, sep, k + 1)
  {
    if k + 1 + |sep| <= |s| {
      assert s[1..][k..k + |sep|] == s[k + 1..k + 1 + |sep|];
    }
  }

  /** The index of the leftmost occurrence of `sep` in `s` (`str.find`). */
  function FindFirst(s: string, sep: string): (r: Option<nat>)
    requires |sep| > 0
    ensures r.Some? ==> OccursAt(s, sep, r.value)
    ensures r.Some? ==> forall k: nat :: k < r.value ==> !OccursAt(s, sep, k)
    ensures r.None? ==> !Contains(s, sep)
    decreases |s|
  {
    if |s| < |sep| then None
    else if s[..|sep|] == sep then Some(0)
    else
      var rest := FindFirst(s[1..], sep);
      assert forall k: nat :: OccursAt(s[1..], sep, k) <==> OccursAt(s, sep, k + 1) by {
        forall k: nat ensures OccursAt(s[1..], sep, k) <==> OccursAt(s, sep, k + 1) {
          OccursShift(s, sep, k);
        }
      }
      assert !OccursAt(s, sep, 0);
      assert forall k: nat :: OccursAt(s, sep, k) ==> k > 0 ==> OccursAt(s[1..], sep, k - 1);
      match rest
      case None => None
      case Some(i) => Some(i + 1)
  }

  /** `sep.join(parts)`. */
  function Join(parts: seq<string>, sep: string): string {
    if parts == [] then ""
    else if |parts| == 1 then parts[0]
    else parts[0] + sep + Join(parts[1..], sep)
  }

  /** The last piece is joined on after all the others. */
  lemma {:induction false} JoinLast(parts: seq<string>, sep: string)
    requires |parts| >= 2
    ensures Join(parts, sep) == Join(parts[..|parts| - 1], sep) + sep + parts[|parts| - 1]
  {
    if |parts| > 2 {
      var rest := parts[1..];
      JoinLast(rest, sep);
      assert rest[..|rest| - 1] == parts[..|parts| - 1][1..];
      assert rest[|rest| - 1] == parts[|parts| - 1];
    }
  }

  /** `s.split(sep)` for a non-empty separator. */
  function Split(s: string, sep: string): (r: seq<string>)
    requires |sep| > 0
    ensures |r| > 0
    decreases |s|
  {
    match FindFirst(s, sep)
    case None => [s]
    case Some(i) => [s[..i]] + Split(s[i + |sep|..], sep)
  }

  /**
   * `Split` cuts at every occurrence of `sep`, leftmost first, and nowhere
   * else: joining the pieces gives `s` back, no piece has an occurrence of
   * `sep` before the cut that ends it, and the last piece has none at all.
   */
  lemma {:induction false} SplitJoin(s: string, sep: string)
    requires |sep| > 0
    ensures Join(Split(s, sep), sep) == s
    ensures var r := Split(s, sep);
      forall k :: 0 <= k < |r| - 1 ==> NoEarlierOccurrence(r[k], sep)
    ensures !Contains(Split(s, sep)[|Split(s, sep)| - 1], sep)
    decreases |s|
  {
    match FindFirst(s, sep)
    case None =>
    case Some(i) =>
      var rest := Split(s[i + |sep|..], sep);
      SplitJoin(s[i + |sep|..], sep);
      var r := [s[..i]] + rest;
      assert Split(s, sep) == r;
      assert s[..i] + sep == s[..i + |sep|];
      assert NoEarlierOccurrence(s[..i], sep) by {
        forall k: nat | k < i ensures !OccursAt(s[..i] + sep, sep, k) {
          assert !OccursAt(s, sep, k);
          assert (s[..i] + sep)[k..k + |sep|] == s[..i + |sep|][k..k + |sep|] == s[k..k + |sep|];
        }
      }
      assert r[1..] == rest;
      assert s == s[..i] + sep + s[i + |sep|..];
  }

  /** The occurrence of `sep` after `p` is the one `Split` cuts at first. */
  lemma SplitAtFirst(p: string, sep: string, q: string)
    requires |sep| > 0
    requires NoEarlierOccurrence(p, sep)
    ensures Split(p + sep + q, sep) == [p] + Split(q, sep)
  {
    var s := p + sep + q;
    assert OccursAt(s, sep, |p|) by {
      assert s[|p|..|p| + |sep|] == sep;
    }
    forall k: nat | k < |p| ensures !OccursAt(s, sep, k) {
      if OccursAt(s, sep, k) {
        assert (p + sep)[k..k + |sep|] == s[k..k + |sep|];
        assert OccursAt(p + sep, sep, k);
      }
    }
    assert FindFirst(s, sep) == Some(|p|);
    assert s[..|p|] == p;
    assert s[|p| + |sep|..] == q;
  }

  /** A string that does not contain the separator splits into itself. */
  lemma SplitWhole(q: string, sep: string)
    requires |sep| > 0
    requires !Contains(q, sep)
    ensures Split(q, sep) == [q]
  {
  }

  /**
   * A separator with a character that `p` lacks, and that the separator
   * does not have earlier, occurs neither in `p` nor across its end.
   */
  lemma NoEarlierByChar(p: string, sep: string, j: nat)
    requires j < |sep| && sep[j] !in p && sep[j] !in sep[..j]
    ensures NoEarlierOccurrence(p, sep) && !Contains(p, sep)
  {
    forall k: nat | k < |p| ensures !OccursAt(p + sep, sep, k) {
      if k + |sep| <= |p + sep| {
        var q := (p + sep)[k..k + |sep|];
        if k + j < |p| {
          assert q[j] == p[k + j];
        } else {
          assert q[j] == sep[k + j - |p|] == sep[..j][k + j - |p|];
        }
      }
    }
    forall k: nat | k <= |p| ensures !OccursAt(p, sep, k) {
      if k + |sep| <= |p| {
        assert p[k..k + |sep|][j] == p[k + j];
      }
    }
  }

  /**
   * A separator whose first character does not come back later in it
   * cannot straddle the end of a string that does not contain it.
   */
  lemma NoEarlierIfAbsent(p: string, sep: string)
    requires |sep| > 0 && sep[0] !in sep[1..] && !Contains(p, sep)
    ensures NoEarlierOccurrence(p, sep)
  {
    forall k: nat | k < |p| ensures !OccursAt(p + sep, sep, k) {
      if k + |sep| <= |p| {
        assert (p + sep)[k..k + |sep|] == p[k..k + |sep|];
        assert !OccursAt(p, sep, k);
      } else if k + |sep| <= |p + sep| {
        var q := (p + sep)[k..k + |sep|];
        assert q[|p| - k] == sep[0];
        assert sep[|p| - k] == sep[1..][|p| - k - 1];
      }
    }
  }

  /**
   * Splitting undoes joining when every part lacks a character of the
   * separator that the separator does not have earlier.
   */
  lemma {:induction false} SplitOfJoin(parts: seq<string>, sep: string, j: nat)
    requires |parts| > 0 && j < |sep| && sep[j] !in sep[..j]
    requires forall k :: 0 <= k < |parts| ==> sep[j] !in parts[k]
    ensures Split(Join(parts, sep), sep) == parts
  {
    NoEarlierByChar(parts[0], sep, j);
    if |parts| == 1 {
      SplitWhole(parts[0], sep);
    } else {
      var rest := parts[1..];
      assert forall k :: 0 <= k < |rest| ==> rest[k] == parts[k + 1];
      SplitOfJoin(rest, sep, j);
      assert Join(parts, sep) == parts[0] + sep + Join(rest, sep);
      SplitAtFirst(parts[0], sep, Join(rest, sep));
      assert parts == [parts[0]] + rest;
    }
  }

  /** A character missing from every part and from the separator is missing from the join. */
  lemma {:induction false} JoinLacks(parts: seq<string>, sep: string, c: char)
    requires c !in sep && forall k :: 0 <= k < |parts| ==> c !in parts[k]
    ensures c !in Join(parts, sep)
  {
    if |parts| > 1 {
      var rest := parts[1..];
      assert forall k :: 0 <= k < |rest| ==> rest[k] == parts[k + 1];
      JoinLacks(rest, sep, c);
    }
  }

  /** For a one-character separator, "no earlier occurrence" is "not in". */
  lemma NoEarlierChar(p: string, c: char)
    requires c !in p
    ensures NoEarlierOccurrence(p, [c]) && !Contains(p, [c])
  {
    forall k: nat | k < |p| ensures !OccursAt(p + [c], [c], k) {
      assert (p + [c])[k] == p[k];
    }
    forall k: nat | k <= |p| ensures !OccursAt(p, [c], k) {
      if k + 1 <= |p| {
        assert p[k..k + 1] == [p[k]];
      }
    }
  }

  lemma NotContainsChar(p: string, c: char)
    requires !Contains(p, [c])
    ensures c !in p
  {
    forall k | 0 <= k < |p| ensures p[k] != c {
      assert !OccursAt(p, [c], k);
      assert p[k..k + 1] == [p[k]];
    }
  }

  /** Cuts `a` at the first occurrence of `c`. */
  lemma {:induction false} CutAtFirstChar(a: string, c: char) returns (a1: string, a2: string)
    requires c in a
    ensures a == a1 + [c] + a2 && c !in a1
  {
    if a[0] == c {
      a1, a2 := [], a[1..];
    } else {
      assert c in a[1..];
      var b1, b2 := CutAtFirstChar(a[1..], c);
      a1, a2 := [a[0]] + b1, b2;
    }
  }

  lemma SplitCharAbsent(a: string, c: char, b: string)
    requires c !in a
    ensures Split(a, [c]) == [a]
    ensures Split(a + [c] + b, [c]) == [a] + Split(b, [c])
  {
    NoEarlierChar(a, c);
    SplitAtFirst(a, [c], b);
    SplitWhole(a, [c]);
  }

  lemma SplitCharPresent(a: string, a1: string, c: char, a2: string, b: string)
    requires a == a1 + [c] + a2 && c !in a1
    ensures Split(a, [c]) == [a1] + Split(a2, [c])
    ensures Split(a + [c] + b, [c]) == [a1] + Split(a2 + [c] + b, [c])
  {
    NoEarlierChar(a1, c);
    SplitAtFirst(a1, [c], a2);
    assert a + [c] + b == a1 + [c] + (a2 + [c] + b);
    SplitAtFirst(a1, [c], a2 + [c] + b);
  }

  /** Splitting on a one-character separator distributes over a cut at that character. */
  lemma {:induction false} SplitConcatChar(a: string, c: char, b: string)
    ensures Split(a + [c] + b, [c]) == Split(a, [c]) + Split(b, [c])
    decreases |a|
  {
    if c !in a {
      SplitCharAbsent(a, c, b);
    } else {
      var a1, a2 := CutAtFirstChar(a, c);
      SplitCharPresent(a, a1, c, a2, b);
      SplitConcatChar(a2, c, b);
      ConcatAssoc([a1], Split(a2, [c]), Split(b, [c]));
    }
  }

  lemma ConcatAssoc<T>(x: seq<T>, y: seq<T>, z: seq<T>)
    ensures x + (y + z) == (x + y) + z
  {
  }

  // ---------------------------------------------------------------------------
  // Lines of a block: `[line for line in text.split("\n") if line]`

  function NonEmpty(xs: seq<string>): (r: seq<string>)
    ensures |r| <= |xs|
    ensures forall k :: 0 <= k < |r| ==> r[k] != ""
  {
    if xs == [] then []
    else (if xs[0] == "" then [] else [xs[0]]) + NonEmpty(xs[1..])
  }

  /** Nothing is dropped from a sequence of non-empty strings. */
  lemma {:induction false} NonEmptyOfNonEmpty(xs: seq<string>)
    requires forall k :: 0 <= k < |xs| ==> xs[k] != ""
    ensures NonEmpty(xs) == xs
  {
    if xs != [] {
      var rest := xs[1..];
      assert forall k :: 0 <= k < |rest| ==> rest[k] == xs[k + 1];
      NonEmptyOfNonEmpty(rest);
      assert xs == [xs[0]] + rest;
    }
  }

  /** The filter keeps exactly the non-empty strings. */
  lemma {:induction false} NonEmptyMembers(xs: seq<string>)
    ensures forall x :: x in NonEmpty(xs) <==> x in xs && x != ""
  {
    if xs != [] {
      NonEmptyMembers(xs[1..]);
      assert xs == [xs[0]] + xs[1..];
    }
  }

  lemma {:induction false} NonEmptyConcat(a: seq<string>, b: seq<string>)
    ensures NonEmpty(a + b) == NonEmpty(a) + NonEmpty(b)
  {
    if a != [] {
      assert (a + b)[1..] == a[1..] + b;
      NonEmptyConcat(a[1..], b);
    } else {
      assert a + b == b;
    }
  }

  /** The non-empty lines of `text`, in order. */
  function Lines(text: string): (r: seq<string>)
    ensures forall k :: 0 <= k < |r| ==> r[k] != "" && '\n' !in r[k]
  {
    var pieces := Split(text, "\n");
    SplitJoin(text, "\n");
    assert forall k :: 0 <= k < |pieces| ==> '\n' !in pieces[k] by {
      forall k | 0 <= k < |pieces| ensures '\n' !in pieces[k] {
        if k < |pieces| - 1 {
          NoEarlierNotIn(pieces[k], '\n');
        } else {
          NotContainsChar(pieces[k], '\n');
        }
      }
    }
    var r := NonEmpty(pieces);
    NonEmptyMembers(pieces);
    assert forall k :: 0 <= k < |r| ==> r[k] in pieces;
    r
  }

  lemma NoEarlierNotIn(p: string, c: char)
    requires NoEarlierOccurrence(p, [c])
    ensures c !in p
  {
    forall k | 0 <= k < |p| ensures p[k] != c {
      assert !OccursAt(p + [c], [c], k);
      assert (p + [c])[k..k + 1] == [p[k]];
    }
  }

  /** Blank lines are ignored wherever they are: a newline only separates lines. */
  lemma LinesConcat(a: string, b: string)
    ensures Lines(a + "\n" + b) == Lines(a) + Lines(b)
  {
    SplitConcatChar(a, '\n', b);
    NonEmptyConcat(Split(a, "\n"), Split(b, "\n"));
  }

  /** A single non-empty line without a newline is one line. */
  lemma LinesOfLine(line: string)
    requires line != "" && '\n' !in line
    ensures Lines(line) == [line]
  {
    NoEarlierChar(line, '\n');
    SplitWhole(line, "\n");
  }

  lemma LinesOfEmpty()
    ensures Lines("") == []
  {
    NoEarlierChar("", '\n');
    SplitWhole("", "\n");
  }

  // ---------------------------------------------------------------------------
  // `str.strip()` and `str.replace`

  function TrimStart(s: string): (r: string)
    ensures |r| <= |s| && r == s[|s| - |r|..]
    ensures AllSpace(s[..|s| - |r|])
    ensures r == [] || !IsSpace(r[0])
  {
    if s != [] && IsSpace(s[0]) then TrimStart(s[1..]) else s
  }

  function TrimEnd(s: string): (r: string)
    ensures |r| <= |s| && r == s[..|r|]
    ensures AllSpace(s[|r|..])
    ensures r == [] || !IsSpace(r[|r| - 1])
  {
    if s != [] && IsSpace(s[|s| - 1]) then TrimEnd(s[..|s| - 1]) else s
  }

  /** `s.strip()`: `s` without its leading and trailing whitespace. */
  function Strip(s: string): (r: string)
    ensures IsStripped(r)
    ensures exists i, j :: 0 <= i <= j <= |s| && r == s[i..j] && AllSpace(s[..i]) && AllSpace(s[j..])
  {
    var t := TrimStart(s);
    var r := TrimEnd(t);
    var i := |s| - |t|;
    assert r == s[i..i + |r|];
    assert s[i + |r|..] == t[|r|..];
    assert r == [] || r[0] == t[0];
    r
  }

  lemma {:induction false} TrimStartSpaces(w: string, u: string)
    requires AllSpace(w) && (u == [] || !IsSpace(u[0]))
    ensures TrimStart(w + u) == u
  {
    if w == [] {
      assert w + u == u;
    } else {
      assert (w + u)[1..] == w[1..] + u;
      TrimStartSpaces(w[1..], u);
    }
  }

  lemma {:induction false} TrimEndSpaces(u: string, w: string)
    requires AllSpace(w) && (u == [] || !IsSpace(u[|u| - 1]))
    ensures TrimEnd(u + w) == u
  {
    if w == [] {
      assert u + w == u;
    } else {
      assert (u + w)[..|u + w| - 1] == u + w[..|w| - 1];
      TrimEndSpaces(u, w[..|w| - 1]);
    }
  }

  /** Stripping removes exactly the surrounding whitespace of a stripped core. */
  lemma StripAround(w1: string, t: string, w2: string)
    requires AllSpace(w1) && AllSpace(w2) && IsStripped(t)
    ensures Strip(w1 + t + w2) == t
  {
    if t == [] {
      assert w1 + t + w2 == (w1 + w2) + [];
      TrimStartSpaces(w1 + w2, []);
    } else {
      assert w1 + t + w2 == w1 + (t + w2);
      TrimStartSpaces(w1, t + w2);
      TrimEndSpaces(t, w2);
    }
  }

  /** `s.replace(c, t)` for a one-character pattern `c`. */
  function ReplaceChar(s: string, c: char, t: string): string {
    if s == [] then []
    else (if s[0] == c then t else [s[0]]) + ReplaceChar(s[1..], c, t)
  }

  /**
   * `ReplaceChar` replaces every `c` by `t` and keeps every other
   * character: nothing changes without a `c`, no `c` survives unless `t`
   * brings one, and no other character appears or disappears.
   */
  lemma {:induction false} ReplaceCharChars(s: string, c: char, t: string)
    ensures c !in s ==> ReplaceChar(s, c, t) == s
    ensures c !in t ==> c !in ReplaceChar(s, c, t)
    ensures forall x :: x in ReplaceChar(s, c, t) ==> x in s || x in t
    ensures forall x :: x in s && x != c ==> x in ReplaceChar(s, c, t)
  {
    if s != [] {
      ReplaceCharChars(s[1..], c, t);
      assert s == [s[0]] + s[1..];
    }
  }

  /** Replacing works piece by piece. */
  lemma {:induction false} ReplaceCharConcat(x: string, y: string, c: char, t: string)
    ensures ReplaceChar(x + y, c, t) == ReplaceChar(x, c, t) + ReplaceChar(y, c, t)
  {
    if x != [] {
      assert (x + y)[1..] == x[1..] + y;
      ReplaceCharConcat(x[1..], y, c, t);
    } else {
      assert x + y == y;
    }
  }
}
