/**
 * The parts of Python's `str` that the loader relies on: `isspace`, `strip()`
 * with no argument, and `rstrip(c)` for a single character `c`.
 */
module Text {

  /**
   * Python's `str.isspace` for one character: the code points CPython treats
   * as whitespace (ASCII tab to carriage return, the four information
   * separators, space, NEL, NBSP, and the Unicode space separators and
   * line/paragraph separators).
   */
  predicate IsWhitespace(c: char)
  {
    var n := c as int;
    (0x09 <= n <= 0x0D) || (0x1C <= n <= 0x20) || n == 0x85 || n == 0xA0
    || n == 0x1680 || (0x2000 <= n <= 0x200A) || n == 0x2028 || n == 0x2029
    || n == 0x202F || n == 0x205F || n == 0x3000
  }

  predicate AllWhitespace(s: string)
  {
    forall i :: 0 <= i < |s| ==> IsWhitespace(s[i])
  }

  /** `s.lstrip()`: drops the leading whitespace and nothing else. */
  function LStrip(s: string): (r: string)
    ensures |r| <= |s|
  {
    if s != [] && IsWhitespace(s[0]) then LStrip(s[1..]) else s
  }

  /**
   * `LStrip` keeps a suffix of the text, everything it drops is whitespace,
   * and what it keeps does not start with whitespace.
   */
  lemma {:induction false} LStripSpec(s: string)
    ensures LStrip(s) == s[|s| - |LStrip(s)|..]
    ensures AllWhitespace(s[..|s| - |LStrip(s)|])
    ensures LStrip(s) == [] || !IsWhitespace(LStrip(s)[0])
  {
    if s != [] && IsWhitespace(s[0]) {
      LStripSpec(s[1..]);
      var r := LStrip(s);
      assert s[..|s| - |r|] == [s[0]] + s[1..][..|s| - 1 - |r|];
    }
  }

  /** `s.rstrip()`: drops the trailing whitespace and nothing else. */
  function RStrip(s: string): (r: string)
    ensures |r| <= |s|
  {
    if s != [] && IsWhitespace(s[|s| - 1]) then RStrip(s[..|s| - 1]) else s
  }

  /**
   * `RStrip` keeps a prefix of the text, everything it drops is whitespace,
   * and what it keeps does not end with whitespace.
   */
  lemma {:induction false} RStripSpec(s: string)
    ensures RStrip(s) == s[..|RStrip(s)|]
    ensures AllWhitespace(s[|RStrip(s)|..])
    ensures RStrip(s) == [] || !IsWhitespace(RStrip(s)[|RStrip(s)| - 1])
  {
    if s != [] && IsWhitespace(s[|s| - 1]) {
      RStripSpec(s[..|s| - 1]);
      var r := RStrip(s);
      assert s[|r|..] == s[..|s| - 1][|r|..] + [s[|s| - 1]];
    }
  }

  /** `s.strip()`: the text between the leading and the trailing whitespace. */
  function Strip(s: string): (r: string)
    ensures |r| <= |s|
    ensures r == [] || (!IsWhitespace(r[0]) && !IsWhitespace(r[|r| - 1]))
  {
    LStripSpec(s);
    RStripSpec(LStrip(s));
    RStrip(LStrip(s))
  }

  /**
   * `Strip(s)` is the infix of `s` that starts after the leading whitespace,
   * and everything outside it is whitespace.
   */
  lemma StripIsTrimmedInfix(s: string)
    ensures var i := |s| - |LStrip(s)|;
      0 <= i <= i + |Strip(s)| <= |s|
      && s[i..i + |Strip(s)|] == Strip(s)
      && AllWhitespace(s[..i])
      && AllWhitespace(s[i + |Strip(s)|..])
  {
    LStripSpec(s);
    RStripSpec(LStrip(s));
    var l := LStrip(s);
    var r := Strip(s);
    var i := |s| - |l|;
    assert l == s[i..];
    assert r == l[..|r|];
    assert s[i..i + |r|] == l[..|r|];
    assert s[i + |r|..] == l[|r|..];
  }

  /** Stripping leaves nothing exactly when the text is all whitespace. */
  lemma StripEmptyIff(s: string)
    ensures Strip(s) == [] <==> AllWhitespace(s)
  {
    LStripSpec(s);
    RStripSpec(LStrip(s));
    var l := LStrip(s);
    if Strip(s) == [] {
      assert l == [];
      assert s[..|s|] == s;
    }
  }

  /** Stripping an already stripped text changes nothing. */
  lemma StripIdempotent(s: string)
    ensures Strip(Strip(s)) == Strip(s)
  {
    var r := Strip(s);
    assert LStrip(r) == r;
    assert RStrip(r) == r;
  }

  /** `s.rstrip(c)` for one character `c`: drops every trailing `c`. */
  function RStripChar(s: string, c: char): (r: string)
    ensures |r| <= |s| && r == s[..|r|]
    ensures forall i :: |r| <= i < |s| ==> s[i] == c
    ensures r == [] || r[|r| - 1] != c
  {
    if s != [] && s[|s| - 1] == c then RStripChar(s[..|s| - 1], c) else s
  }

  /** Appending any run of `c` does not change what `rstrip(c)` gives. */
  lemma {:induction false} RStripCharIgnoresTrailing(s: string, t: string, c: char)
    requires forall i :: 0 <= i < |t| ==> t[i] == c
    ensures RStripChar(s + t, c) == RStripChar(s, c)
  {
    if t != [] {
      var u := t[..|t| - 1];
      assert (s + t)[..|s + t| - 1] == s + u;
      RStripCharIgnoresTrailing(s, u, c);
    } else {
      assert s + t == s;
    }
  }

  /** `rstrip(c)` of an already stripped text changes nothing. */
  lemma RStripCharIdempotent(s: string, c: char)
    ensures RStripChar(RStripChar(s, c), c) == RStripChar(s, c)
  {
  }

  /** A text made only of `c` is stripped to nothing, however long it is. */
  lemma RStripCharOnlyC(s: string, c: char)
    requires forall i :: 0 <= i < |s| ==> s[i] == c
    ensures RStripChar(s, c) == []
  {
  }
}
