/**
 * The string primitives of the JavaScript code, restricted to what the keyword
 * engine and the fallback splitters use: the `\s` and `\w` character classes,
 * ASCII lower-casing, `String.prototype.includes`, `split` on a one-character
 * class, `split(/\s+/)`, `join` and `trim`.
 */
module Text {
  import opened Seqs

  /**
   * The characters JavaScript's `\s` class and `String.prototype.trim` treat as
   * white space: the ECMAScript WhiteSpace and LineTerminator productions.
   */
  const Whitespace: set<char> := {
    '\t', '\n', '\U{000B}', '\U{000C}', '\r', ' ', '\U{00A0}', '\U{1680}',
    '\U{2000}', '\U{2001}', '\U{2002}', '\U{2003}', '\U{2004}', '\U{2005}',
    '\U{2006}', '\U{2007}', '\U{2008}', '\U{2009}', '\U{200A}',
    '\U{2028}', '\U{2029}', '\U{202F}', '\U{205F}', '\U{3000}', '\U{FEFF}'
  }

  predicate IsSpace(c: char) {
    c in Whitespace
  }

  /** JavaScript's `\w` (without the `u` flag): ASCII letters, digits and `_`. */
  predicate IsWordChar(c: char) {
    'a' <= c <= 'z' || 'A' <= c <= 'Z' || '0' <= c <= '9' || c == '_'
  }

  predicate IsUpper(c: char) {
    'A' <= c <= 'Z'
  }

  /** `toLowerCase` on one character, for the ASCII range. */
  function LowerChar(c: char): (d: char)
    ensures !IsUpper(d)
    ensures IsWordChar(d) <==> IsWordChar(c)
    ensures IsSpace(d) <==> IsSpace(c)
    ensures !IsUpper(c) ==> d == c
    ensures IsUpper(c) ==> 'a' <= d <= 'z' && d as int - 'a' as int == c as int - 'A' as int
  {
    if IsUpper(c) then (c as int + 32) as char else c
  }

  function Lower(s: string): (r: string)
    ensures |r| == |s|
    ensures forall i :: 0 <= i < |s| ==> r[i] == LowerChar(s[i])
  {
    seq(|s|, i requires 0 <= i < |s| => LowerChar(s[i]))
  }

  /** Lower-casing works character by character, so it distributes over concatenation. */
  lemma LowerConcat(a: string, b: string)
    ensures Lower(a + b) == Lower(a) + Lower(b)
  {
  }

  /** Lower-casing twice is lower-casing once. */
  lemma LowerIdempotent(s: string)
    ensures Lower(Lower(s)) == Lower(s)
  {
  }

  /** `p` occurs in `s` starting at position `i`. */
  predicate OccursAt(s: string, p: string, i: int) {
    0 <= i && i + |p| <= |s| && s[i..i + |p|] == p
  }

  /** `s.includes(p)`. */
  predicate Contains(s: string, p: string) {
    exists i :: 0 <= i <= |s| - |p| && OccursAt(s, p, i)
  }

  /** A string containing no `c` does not contain a pattern that has a `c`. */
  lemma ContainsCarriesChars(s: string, p: string, c: char)
    requires c in p && c !in s
    ensures !Contains(s, p)
  {
  }

  /** The separators of `s` in order. */
  function SeparatorsIn(s: string, seps: set<char>): (r: string)
    ensures |r| <= |s|
    ensures forall i :: 0 <= i < |r| ==> r[i] in seps
  {
    if |s| == 0 then ""
    else (if s[0] in seps then [s[0]] else "") + SeparatorsIn(s[1..], seps)
  }

  /**
   * `s.split(/[...]/)` for a character class matching exactly the characters of
   * `seps`: the pieces between consecutive separators, including empty ones;
   * the empty string splits into one empty piece.
   */
  function Split(s: string, seps: set<char>): (r: seq<string>)
    ensures |r| == |SeparatorsIn(s, seps)| + 1
    ensures forall i, j :: 0 <= i < |r| && 0 <= j < |r[i]| ==> r[i][j] !in seps && r[i][j] in s
  {
    if |s| == 0 then [""]
    else
      var rest := Split(s[1..], seps);
      if s[0] in seps then [""] + rest
      else [[s[0]] + rest[0]] + rest[1..]
  }

  /** Text without separators is one piece. */
  lemma {:induction false} SplitWithoutSeparators(s: string, seps: set<char>)
    requires forall i :: 0 <= i < |s| ==> s[i] !in seps
    ensures Split(s, seps) == [s]
  {
    if |s| > 0 {
      SplitWithoutSeparators(s[1..], seps);
      assert [s[0]] + s[1..] == s;
    }
  }

  /** A separator right after a separator-free piece ends that piece. */
  lemma {:induction false} SplitAfterPiece(a: string, c: char, b: string, seps: set<char>)
    requires c in seps
    requires forall i :: 0 <= i < |a| ==> a[i] !in seps
    ensures Split(a + [c] + b, seps) == [a] + Split(b, seps)
  {
    var s := a + [c] + b;
    if |a| == 0 {
      assert s == [c] + b && s[1..] == b;
    } else {
      assert s[1..] == a[1..] + [c] + b;
      SplitAfterPiece(a[1..], c, b, seps);
      assert [a[0]] + a[1..] == a;
    }
  }

  /** A trailing separator adds one empty piece. */
  lemma SplitTrailingSeparator(a: string, c: char, seps: set<char>)
    requires c in seps
    requires forall i :: 0 <= i < |a| ==> a[i] !in seps
    ensures Split(a + [c], seps) == [a, ""]
  {
    SplitAfterPiece(a, c, "", seps);
    assert a + [c] + "" == a + [c];
  }

  /** `parts.join(sep)`: nothing for no parts, otherwise the parts with `sep` between them. */
  function Join(parts: seq<string>, sep: string): (r: string)
    ensures |parts| == 0 ==> r == ""
    ensures |parts| == 1 ==> r == parts[0]
    ensures |parts| > 0 ==> |parts[0]| <= |r| && r[..|parts[0]|] == parts[0]
    ensures |parts| > 0 ==> |parts[|parts| - 1]| <= |r| && r[|r| - |parts[|parts| - 1]|..] == parts[|parts| - 1]
  {
    if |parts| == 0 then ""
    else if |parts| == 1 then parts[0]
    else
      var rest := Join(parts[1..], sep);
      assert parts[1..][|parts[1..]| - 1] == parts[|parts| - 1];
      parts[0] + sep + rest
  }

  /**
   * Appending a part adds the separator and that part at the end. With the
   * single-part case of `Join`, this fixes the joined string for every list of
   * parts, whatever the parts contain.
   */
  lemma {:induction false} JoinAppend(parts: seq<string>, p: string, sep: string)
    requires |parts| > 0
    ensures Join(parts + [p], sep) == Join(parts, sep) + sep + p
  {
    var q := parts + [p];
    if |parts| == 1 {
      assert q[1..] == [p];
    } else {
      assert q[1..] == parts[1..] + [p];
      JoinAppend(parts[1..], p, sep);
      var j := Join(parts[1..], sep);
      assert Join(q, sep) == parts[0] + sep + (j + sep + p);
      assert Join(parts, sep) == parts[0] + sep + j;
    }
  }

  /**
   * Joining with a one-character separator that no part contains, then
   * splitting on it, gives the parts back.
   */
  lemma {:induction false} SplitJoinRoundTrip(parts: seq<string>, c: char)
    requires |parts| > 0
    requires forall k, i :: 0 <= k < |parts| && 0 <= i < |parts[k]| ==> parts[k][i] != c
    ensures Split(Join(parts, [c]), {c}) == parts
  {
    if |parts| == 1 {
      SplitWithoutSeparators(parts[0], {c});
    } else {
      SplitJoinRoundTrip(parts[1..], c);
      SplitAfterPiece(parts[0], c, Join(parts[1..], [c]), {c});
      assert [parts[0]] + parts[1..] == parts;
    }
  }

  /** Pieces glued back together with one separator between each pair. */
  function Interleave(parts: seq<string>, glue: string): string
    requires |parts| == |glue| + 1
  {
    if |glue| == 0 then parts[0]
    else parts[0] + [glue[0]] + Interleave(parts[1..], glue[1..])
  }

  /** A character put in front of the first piece ends up in front of the whole. */
  lemma InterleavePrepend(c: char, parts: seq<string>, glue: string)
    requires |parts| == |glue| + 1
    ensures Interleave([[c] + parts[0]] + parts[1..], glue) == [c] + Interleave(parts, glue)
  {
    var q := [[c] + parts[0]] + parts[1..];
    assert q[0] == [c] + parts[0] && q[1..] == parts[1..];
  }

  /** Splitting loses nothing: the pieces and the separators rebuild the input. */
  lemma {:induction false} SplitRoundTrip(s: string, seps: set<char>)
    ensures Interleave(Split(s, seps), SeparatorsIn(s, seps)) == s
  {
    if |s| > 0 {
      SplitRoundTrip(s[1..], seps);
      var rest := Split(s[1..], seps);
      var g := SeparatorsIn(s[1..], seps);
      assert [s[0]] + s[1..] == s;
      if s[0] !in seps {
        assert SeparatorsIn(s, seps) == g;
        InterleavePrepend(s[0], rest, g);
      } else {
        var q := [""] + rest;
        var h := [s[0]] + g;
        assert SeparatorsIn(s, seps) == h;
        assert q[1..] == rest && h[1..] == g;
        assert Interleave(q, h) == "" + [s[0]] + Interleave(rest, g);
      }
    }
  }

  /**
   * `s.split(/\s+/)`: the pieces between maximal runs of white space. A run at
   * the very start or end of `s` produces an empty first or last piece, and the
   * empty string splits into one empty piece.
   */
  function SplitRuns(s: string): (r: seq<string>)
    ensures |r| >= 1
    ensures forall i, j :: 0 <= i < |r| && 0 <= j < |r[i]| ==> !IsSpace(r[i][j]) && r[i][j] in s
    ensures |s| > 0 && IsSpace(s[0]) ==> r[0] == ""
  {
    if |s| == 0 then [""]
    else
      var rest := SplitRuns(s[1..]);
      if !IsSpace(s[0]) then [[s[0]] + rest[0]] + rest[1..]
      else if |s| > 1 && IsSpace(s[1]) then rest
      else [""] + rest
  }

  /** Text made only of white space splits into empty pieces. */
  lemma {:induction false} SplitRunsOfSpace(s: string)
    requires forall i :: 0 <= i < |s| ==> IsSpace(s[i])
    ensures forall t :: 0 <= t < |SplitRuns(s)| ==> SplitRuns(s)[t] == ""
  {
    if |s| > 0 {
      SplitRunsOfSpace(s[1..]);
    }
  }

  /** What occurs in the tail of a string occurs in the string. */
  lemma ContainsInTail(s: string, p: string)
    requires |s| > 0 && Contains(s[1..], p)
    ensures Contains(s, p)
  {
    var i :| 0 <= i <= |s[1..]| - |p| && OccursAt(s[1..], p, i);
    assert s[i + 1..i + 1 + |p|] == s[1..][i..i + |p|];
    assert OccursAt(s, p, i + 1);
  }

  /** The first piece of `split(/\s+/)` starts the input. */
  lemma {:induction false} SplitRunsFirstPiece(s: string)
    ensures |SplitRuns(s)[0]| <= |s| && SplitRuns(s)[0] == s[..|SplitRuns(s)[0]|]
  {
    if |s| > 0 {
      var rest := SplitRuns(s[1..]);
      SplitRunsFirstPiece(s[1..]);
      if !IsSpace(s[0]) {
        assert SplitRuns(s)[0] == [s[0]] + rest[0];
      }
    }
  }

  /**
   * Every piece of `split(/\s+/)` is a contiguous part of the input, and the
   * first piece starts the input.
   */
  lemma {:induction false} SplitRunsPiecesOccur(s: string)
    ensures |SplitRuns(s)[0]| <= |s| && SplitRuns(s)[0] == s[..|SplitRuns(s)[0]|]
    ensures forall t :: 0 <= t < |SplitRuns(s)| ==> Contains(s, SplitRuns(s)[t])
  {
    SplitRunsFirstPiece(s);
    var r := SplitRuns(s);
    assert OccursAt(s, r[0], 0);
    if |s| > 0 {
      var rest := SplitRuns(s[1..]);
      SplitRunsPiecesOccur(s[1..]);
      forall t | 1 <= t < |r|
        ensures Contains(s, r[t])
      {
        assert r[t] in rest;
        var u :| 0 <= u < |rest| && rest[u] == r[t];
        ContainsInTail(s, rest[u]);
      }
    }
  }

  predicate IsNonEmpty(w: string) {
    |w| > 0
  }

  lemma {:induction false} SplitRunsAgreesWithSplitStep(s: string)
    ensures SplitRuns(s)[0] == Split(s, Whitespace)[0]
    ensures Filter(IsNonEmpty, SplitRuns(s)[1..]) == Filter(IsNonEmpty, Split(s, Whitespace)[1..])
  {
    if |s| > 0 {
      SplitRunsAgreesWithSplitStep(s[1..]);
      var r := SplitRuns(s[1..]);
      var q := Split(s[1..], Whitespace);
      assert Filter(IsNonEmpty, r) == Filter(IsNonEmpty, q) by {
        assert r == [r[0]] + r[1..];
        assert q == [q[0]] + q[1..];
        FilterConcat(IsNonEmpty, [r[0]], r[1..]);
        FilterConcat(IsNonEmpty, [q[0]], q[1..]);
      }
      if !IsSpace(s[0]) {
        assert SplitRuns(s)[1..] == r[1..];
        assert Split(s, Whitespace)[1..] == q[1..];
      } else if |s| > 1 && IsSpace(s[1]) {
        assert SplitRuns(s) == r;
        assert Split(s, Whitespace) == [""] + q;
        assert q[0] == "";
        assert q == [""] + q[1..];
        FilterConcat(IsNonEmpty, [""], q[1..]);
      } else {
        assert SplitRuns(s)[1..] == r;
        assert Split(s, Whitespace)[1..] == q;
      }
    }
  }

  /**
   * Splitting on runs of white space and splitting on each white-space
   * character give the same pieces once the empty pieces are dropped.
   */
  lemma SplitRunsAgreesWithSplit(s: string)
    ensures Filter(IsNonEmpty, SplitRuns(s)) == Filter(IsNonEmpty, Split(s, Whitespace))
  {
    SplitRunsAgreesWithSplitStep(s);
    var r := SplitRuns(s);
    var q := Split(s, Whitespace);
    assert r == [r[0]] + r[1..];
    assert q == [q[0]] + q[1..];
    FilterConcat(IsNonEmpty, [r[0]], r[1..]);
    FilterConcat(IsNonEmpty, [q[0]], q[1..]);
  }

  /** No white space at either end. */
  predicate IsTrimmed(s: string) {
    |s| == 0 || (!IsSpace(s[0]) && !IsSpace(s[|s| - 1]))
  }

  /** `s.trimStart()`. */
  function TrimStart(s: string): (r: string)
    ensures |r| <= |s| && r == s[|s| - |r|..]
    ensures forall i :: 0 <= i < |s| - |r| ==> IsSpace(s[i])
    ensures |r| == 0 || !IsSpace(r[0])
  {
    if |s| > 0 && IsSpace(s[0]) then TrimStart(s[1..]) else s
  }

  /** `s.trimEnd()`. */
  function TrimEnd(s: string): (r: string)
    ensures |r| <= |s| && r == s[..|r|]
    ensures forall i :: |r| <= i < |s| ==> IsSpace(s[i])
    ensures |r| == 0 || !IsSpace(r[|r| - 1])
  {
    if |s| > 0 && IsSpace(s[|s| - 1]) then TrimEnd(s[..|s| - 1]) else s
  }

  /** `s` is `r`, found at position `lo`, with only white space before and after it. */
  predicate PaddedAt(s: string, r: string, lo: int) {
    && 0 <= lo <= |s| - |r|
    && r == s[lo..lo + |r|]
    && (forall i :: 0 <= i < lo ==> IsSpace(s[i]))
    && (forall i :: lo + |r| <= i < |s| ==> IsSpace(s[i]))
  }

  /** Trimming the end of what remains after position `lo` leaves `s` padded. */
  lemma TrimEndIsPadded(s: string, lo: nat)
    requires lo <= |s|
    requires forall i :: 0 <= i < lo ==> IsSpace(s[i])
    ensures PaddedAt(s, TrimEnd(s[lo..]), lo)
  {
    var t := s[lo..];
    var r := TrimEnd(t);
    assert r == t[..|r|];
    forall i | lo + |r| <= i < |s|
      ensures IsSpace(s[i])
    {
      assert s[i] == t[i - lo];
    }
  }

  /** `s.trim()`: what remains after removing the white space at both ends. */
  function Trim(s: string): (r: string)
    ensures IsTrimmed(r)
    ensures exists lo :: PaddedAt(s, r, lo)
  {
    var t := TrimStart(s);
    TrimEndIsPadded(s, |s| - |t|);
    TrimEnd(t)
  }

  /** Text already trimmed is left alone. */
  lemma TrimOfTrimmed(s: string)
    requires IsTrimmed(s)
    ensures Trim(s) == s
  {
  }

  /** Leading white space is what trimming removes first. */
  lemma TrimSkipsLeadingSpace(s: string)
    requires |s| > 0 && IsSpace(s[0])
    ensures Trim(s) == Trim(s[1..])
  {
    assert TrimStart(s) == TrimStart(s[1..]);
  }

  /** Trimming only removes characters. */
  lemma TrimKeepsChars(s: string)
    ensures forall i :: 0 <= i < |Trim(s)| ==> Trim(s)[i] in s
  {
    var r := Trim(s);
    var lo :| PaddedAt(s, r, lo);
    forall i | 0 <= i < |r|
      ensures r[i] in s
    {
      assert r[i] == s[lo + i];
    }
  }
}
