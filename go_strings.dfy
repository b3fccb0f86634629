/**
 * The two pieces of Go's `strings` package that the request parser of
 * junkmap relies on: `strings.SplitN(s, " ", n)` and `strings.TrimSpace(s)`.
 * Strings are sequences of characters; Go works on UTF-8 bytes, which the
 * model does not distinguish from the characters they encode.
 */
module GoStrings {

  /** Go's `unicode.IsSpace`: the white-space characters `TrimSpace` removes. */
  predicate IsSpace(c: char) {
    || c == '\t' || c == '\n' || c == '\U{000B}' || c == '\U{000C}' || c == '\r' || c == ' '
    || c == '\U{0085}' || c == '\U{00A0}' || c == '\U{1680}'
    || ('\U{2000}' <= c <= '\U{200A}')
    || c == '\U{2028}' || c == '\U{2029}' || c == '\U{202F}' || c == '\U{205F}' || c == '\U{3000}'
  }

  ghost predicate AllSpace(s: string) {
    forall k :: 0 <= k < |s| ==> IsSpace(s[k])
  }

  /** Neither end of `s` is white space. */
  ghost predicate Trimmed(s: string) {
    s == [] || (!IsSpace(s[0]) && !IsSpace(s[|s| - 1]))
  }

  /** Position of the first blank (U+0020) in `s`, or `|s|` when there is none. */
  function IndexOfBlank(s: string): (i: nat)
    ensures i <= |s|
    ensures i < |s| ==> s[i] == ' '
    ensures forall k :: 0 <= k < i ==> s[k] != ' '
  {
    if |s| == 0 || s[0] == ' ' then 0 else 1 + IndexOfBlank(s[1..])
  }

  /** The text before the first blank: the first field of a blank-separated line. */
  function Field(s: string): (f: string)
    ensures ' ' !in f
    ensures f <= s
    ensures |f| < |s| ==> s[|f|] == ' '
  {
    s[..IndexOfBlank(s)]
  }

  /** The first field is `w` exactly when `s` is `w` alone or `w` and a blank then more. */
  lemma FieldIs(s: string, w: string)
    requires ' ' !in w
    ensures Field(s) == w <==> s == w || (|s| > |w| && s[..|w| + 1] == w + " ")
  {
    var i := IndexOfBlank(s);
    if s == w {
      assert i == |s|;
    } else if |s| > |w| && s[..|w| + 1] == w + " " {
      assert s[|w|] == (w + " ")[|w|];
      assert i == |w|;
      assert s[..i] == s[..|w| + 1][..|w|];
    }
    if Field(s) == w && i < |s| {
      assert s[..|w| + 1] == s[..i] + [s[i]];
    }
  }

  /** The inverse of splitting: the parts glued back together with single blanks. */
  function JoinBlank(parts: seq<string>): (s: string)
    requires |parts| > 0
  {
    if |parts| == 1 then parts[0] else parts[0] + " " + JoinBlank(parts[1..])
  }

  /**
   * `strings.SplitN(s, " ", n)` for `n > 0`: at most `n` parts; every part but
   * the last is free of blanks, and the last one keeps the unsplit remainder.
   */
  function SplitN(s: string, n: nat): (parts: seq<string>)
    requires n > 0
    ensures 1 <= |parts| <= n
    ensures JoinBlank(parts) == s
    ensures forall k :: 0 <= k < |parts| - 1 ==> ' ' !in parts[k]
    ensures |parts| < n ==> ' ' !in parts[|parts| - 1]
    decreases n
  {
    var i := IndexOfBlank(s);
    if n == 1 || i == |s| then [s]
    else
      var rest := SplitN(s[i + 1..], n - 1);
      assert s == s[..i] + " " + s[i + 1..];
      [s[..i]] + rest
  }

  /** The first two parts of a split, in terms of the line itself. */
  lemma {:induction false} SplitNFields(s: string, n: nat)
    requires n >= 2
    ensures SplitN(s, n)[0] == Field(s)
    ensures |SplitN(s, n)| >= 2 <==> ' ' in s
    ensures ' ' in s ==>
      SplitN(s, n)[1] == if n == 2 then s[|Field(s)| + 1..] else Field(s[|Field(s)| + 1..])
  {
    var i := IndexOfBlank(s);
    if i < |s| {
      var rest := s[i + 1..];
      if n > 2 {
        SplitNFields(rest, n - 1);
      }
    }
  }

  /** `strings.TrimLeftFunc(s, unicode.IsSpace)`: drop the white space in front. */
  function TrimLeft(s: string): (r: string)
    ensures |r| <= |s|
  {
    if |s| > 0 && IsSpace(s[0]) then TrimLeft(s[1..]) else s
  }

  /** What `TrimLeft` drops is white space, and it stops at the first other character. */
  lemma {:induction false} TrimLeftIsSuffix(s: string)
    ensures var r := TrimLeft(s);
      && r == s[|s| - |r|..]
      && AllSpace(s[..|s| - |r|])
      && (r == [] || !IsSpace(r[0]))
    decreases |s|
  {
    if |s| > 0 && IsSpace(s[0]) {
      TrimLeftIsSuffix(s[1..]);
      var r := TrimLeft(s);
      assert s[..|s| - |r|] == [s[0]] + s[1..][..|s| - 1 - |r|];
    }
  }

  /** `strings.TrimRightFunc(s, unicode.IsSpace)`: drop the white space at the end. */
  function TrimRight(s: string): (r: string)
    ensures |r| <= |s|
  {
    if |s| > 0 && IsSpace(s[|s| - 1]) then TrimRight(s[..|s| - 1]) else s
  }

  /** What `TrimRight` drops is white space, and it stops at the last other character. */
  lemma {:induction false} TrimRightIsPrefix(s: string)
    ensures var r := TrimRight(s);
      && r == s[..|r|]
      && AllSpace(s[|r|..])
      && (r == [] || !IsSpace(r[|r| - 1]))
    decreases |s|
  {
    if |s| > 0 && IsSpace(s[|s| - 1]) {
      var t := s[..|s| - 1];
      TrimRightIsPrefix(t);
      var r := TrimRight(s);
      assert s[|r|..] == t[|r|..] + [s[|s| - 1]];
      assert t[..|r|] == s[..|r|];
    }
  }

  /** `strings.TrimSpace(s)`: white space removed from both ends. */
  function TrimSpace(s: string): (r: string)
    ensures |r| <= |s|
  {
    TrimRight(TrimLeft(s))
  }

  /**
   * `TrimSpace(s)` is the infix of `s` left after removing the white space at
   * both ends: what was removed is white space, and what is left starts and
   * ends with something else.
   */
  lemma TrimSpaceIsInfix(s: string)
    ensures var r := TrimSpace(s);
      var i := |s| - |TrimLeft(s)|;
      && Trimmed(r)
      && i + |r| <= |s| && r == s[i..i + |r|]
      && AllSpace(s[..i]) && AllSpace(s[i + |r|..])
  {
    var left := TrimLeft(s);
    TrimLeftIsSuffix(s);
    TrimRightIsPrefix(left);
    var i := |s| - |left|;
    var r := TrimRight(left);
    assert left == s[i..];
    assert r != [] ==> r[0] == left[0];
    assert s[i..i + |r|] == left[..|r|];
    assert s[i + |r|..] == left[|r|..];
  }

  /** Trimming twice removes nothing more. */
  lemma TrimSpaceIdempotent(s: string)
    ensures TrimSpace(TrimSpace(s)) == TrimSpace(s)
  {
    TrimSpaceIsInfix(s);
    TrimmedIsFixed(TrimSpace(s));
  }

  /** A line terminator after an already trimmed string is all that trimming removes. */
  lemma TrimNewline(s: string)
    requires Trimmed(s)
    ensures TrimSpace(s + "\n") == s
  {
    var t := s + "\n";
    TrimRightIsPrefix(s);
    if s == [] {
      assert TrimLeft(t) == TrimLeft(t[1..]) && t[1..] == [];
    } else {
      assert t[0] == s[0];
      assert TrimLeft(t) == t;
      assert t[..|t| - 1] == s;
      assert TrimRight(t) == TrimRight(s) == s;
    }
  }

  /** A string with no white space at either end is left as it is. */
  lemma TrimmedIsFixed(s: string)
    requires Trimmed(s)
    ensures TrimSpace(s) == s
  {
    assert TrimLeft(s) == s;
  }
}
