/** The few Python `str` operations the pipeline relies on: `strip()` with no
    argument, `split(sep)` with an explicit one-character separator, and
    `startswith(prefix)`. Strings are sequences of Unicode scalar values. */
module PyStr {

  /** The characters Python's `str.isspace` accepts, which are the ones
      `str.strip()` removes: the ASCII controls TAB to CR, the four
      information separators, SPACE, NEL, NO-BREAK SPACE and the Unicode
      space and line/paragraph separators. */
  predicate IsWhitespace(c: char) {
    || ('\t' <= c <= '\r')
    || ('\U{1C}' <= c <= '\U{1F}')
    || c == ' '
    || c == '\U{85}'
    || c == '\U{A0}'
    || c == '\U{1680}'
    || ('\U{2000}' <= c <= '\U{200A}')
    || c == '\U{2028}'
    || c == '\U{2029}'
    || c == '\U{202F}'
    || c == '\U{205F}'
    || c == '\U{3000}'
  }

  /** `s.lstrip()`: the longest suffix of `s` that does not start with whitespace. */
  function LStrip(s: string): (r: string)
    ensures |r| <= |s| && r == s[|s| - |r|..]
    ensures forall i :: 0 <= i < |s| - |r| ==> IsWhitespace(s[i])
    ensures r == [] || !IsWhitespace(r[0])
  {
    if s != [] && IsWhitespace(s[0]) then LStrip(s[1..]) else s
  }

  /** `s.rstrip()`: the longest prefix of `s` that does not end with whitespace. */
  function RStrip(s: string): (r: string)
    ensures |r| <= |s| && r == s[..|r|]
    ensures forall i :: |r| <= i < |s| ==> IsWhitespace(s[i])
    ensures r == [] || !IsWhitespace(r[|r| - 1])
  {
    if s != [] && IsWhitespace(s[|s| - 1]) then RStrip(s[..|s| - 1]) else s
  }

  /** `s` with whitespace removed at both ends, and nothing removed in between. */
  predicate IsStripOf(s: string, lo: nat, hi: nat) {
    && lo <= hi <= |s|
    && (forall i :: 0 <= i < lo ==> IsWhitespace(s[i]))
    && (forall i :: hi <= i < |s| ==> IsWhitespace(s[i]))
    && (lo < hi ==> !IsWhitespace(s[lo]) && !IsWhitespace(s[hi - 1]))
  }

  /** `s.strip()`. */
  function Strip(s: string): string {
    RStrip(LStrip(s))
  }

  /** `s.strip()` is the window of `s` left once the leading and trailing
      whitespace is gone. */
  lemma StripIsWindow(s: string)
    ensures exists lo: nat, hi: nat :: IsStripOf(s, lo, hi) && Strip(s) == s[lo..hi]
  {
    var left := LStrip(s);
    var r := RStrip(left);
    assert Strip(s) == r;
    WindowOfStrips(s, left, r);
    assert IsStripOf(s, |s| - |left|, |s| - |left| + |r|);
  }

  /** A suffix `left` of `s` after leading whitespace, and a prefix `r` of
      `left` before trailing whitespace, make a window of `s`. */
  lemma WindowOfStrips(s: string, left: string, r: string)
    requires |left| <= |s| && left == s[|s| - |left|..]
    requires forall i :: 0 <= i < |s| - |left| ==> IsWhitespace(s[i])
    requires left == [] || !IsWhitespace(left[0])
    requires |r| <= |left| && r == left[..|r|]
    requires forall i :: |r| <= i < |left| ==> IsWhitespace(left[i])
    requires r == [] || !IsWhitespace(r[|r| - 1])
    ensures IsStripOf(s, |s| - |left|, |s| - |left| + |r|)
    ensures r == s[|s| - |left|..|s| - |left| + |r|]
  {
    var lo := |s| - |left|;
    var hi := lo + |r|;
    forall i | hi <= i < |s| ensures IsWhitespace(s[i]) {
      assert s[i] == left[i - lo];
    }
    if lo < hi {
      assert s[lo] == r[0] && s[hi - 1] == r[|r| - 1];
    }
  }

  /** A window with whitespace outside it and none at its ends is unique, so
      the window StripIsWindow describes is the only one. */
  lemma StripWindowUnique(s: string, lo: nat, hi: nat, lo': nat, hi': nat)
    requires IsStripOf(s, lo, hi) && IsStripOf(s, lo', hi')
    ensures s[lo..hi] == s[lo'..hi']
  {
    // a non-empty window starts at the first non-whitespace character of s
    // and ends after the last one; an empty window leaves only whitespace
    if lo < hi {
      assert !IsWhitespace(s[lo]) && !IsWhitespace(s[hi - 1]);
    }
    if lo' < hi' {
      assert !IsWhitespace(s[lo']) && !IsWhitespace(s[hi' - 1]);
    }
  }

  /** `sep.join(parts)`. */
  function Join(parts: seq<string>, sep: char): string
    decreases |parts|
  {
    if parts == [] then []
    else if |parts| == 1 then parts[0]
    else parts[0] + [sep] + Join(parts[1..], sep)
  }

  /** `s.split(sep)`: the pieces between the separators, empty pieces
      included, so that joining them back gives `s`. */
  function Split(s: string, sep: char): (r: seq<string>)
    ensures |r| >= 1
    ensures Join(r, sep) == s
    ensures forall i :: 0 <= i < |r| ==> sep !in r[i]
    decreases |s|
  {
    if s == [] then [[]]
    else
      var rest := Split(s[1..], sep);
      if s[0] == sep then
        assert ([[]] + rest)[1..] == rest;
        [[]] + rest
      else
        var r := [[s[0]] + rest[0]] + rest[1..];
        assert r[1..] == rest[1..];
        assert s == [s[0]] + s[1..];
        r
  }

  /** The last of `parts` is the part of `s` after its last separator, or
      all of `s` when `parts` has a single piece. */
  predicate EndsWithLastPiece(s: string, sep: char, parts: seq<string>) {
    && |parts| >= 1
    && sep !in parts[|parts| - 1]
    && |parts[|parts| - 1]| <= |s| && parts[|parts| - 1] == s[|s| - |parts[|parts| - 1]|..]
    && (|parts[|parts| - 1]| == |s| || s[|s| - |parts[|parts| - 1]| - 1] == sep)
    && (|parts| == 1 ==> parts[|parts| - 1] == s)
    && (|parts| > 1 ==> |parts[|parts| - 1]| < |s|)
  }

  /** `s.split(sep)[-1]` is the part of `s` after its last separator, or all
      of `s` when there is none. */
  lemma {:induction false} LastPiece(s: string, sep: char)
    ensures EndsWithLastPiece(s, sep, Split(s, sep))
    decreases |s|
  {
    if s == [] {
      assert Split(s, sep) == [[]];
    } else {
      var rest := s[1..];
      LastPiece(rest, sep);
      var pieces := Split(rest, sep);
      if s[0] == sep {
        assert Split(s, sep) == [[]] + pieces;
        LastPieceAfterSep(s, sep, pieces);
      } else {
        assert Split(s, sep) == [[s[0]] + pieces[0]] + pieces[1..];
        LastPieceAfterChar(s, sep, pieces);
      }
    }
  }

  lemma LastPieceAfterSep(s: string, sep: char, pieces: seq<string>)
    requires s != [] && s[0] == sep && EndsWithLastPiece(s[1..], sep, pieces)
    ensures EndsWithLastPiece(s, sep, [[]] + pieces)
  {
    var parts := [[]] + pieces;
    assert parts[|parts| - 1] == pieces[|pieces| - 1];
  }

  lemma LastPieceAfterChar(s: string, sep: char, pieces: seq<string>)
    requires s != [] && s[0] != sep && EndsWithLastPiece(s[1..], sep, pieces)
    ensures EndsWithLastPiece(s, sep, [[s[0]] + pieces[0]] + pieces[1..])
  {
    var parts := [[s[0]] + pieces[0]] + pieces[1..];
    if |pieces| == 1 {
      assert parts == [[s[0]] + s[1..]];
      assert s == [s[0]] + s[1..];
    } else {
      assert parts[|parts| - 1] == pieces[|pieces| - 1];
    }
  }

  predicate StartsWith(s: string, prefix: string) {
    |prefix| <= |s| && s[..|prefix|] == prefix
  }
}
