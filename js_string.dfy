/** The part of JavaScript's string semantics the handlers rely on:
    `String.prototype.trim` and the test `s.trim() === ''`. */
module JsString {

  /** WhiteSpace or LineTerminator as ECMAScript defines them (the characters
      `trim` strips): TAB, VT, FF, SPACE, NBSP, ZWNBSP, every other space
      separator (category Zs), LF, CR, LINE SEPARATOR and PARAGRAPH SEPARATOR. */
  predicate IsWhitespace(c: char) {
    c == '\t' || c == '\n' || c == '\U{000B}' || c == '\U{000C}' || c == '\r'
    || c == ' ' || c == '\U{00A0}' || c == '\U{1680}'
    || ('\U{2000}' <= c <= '\U{200A}')
    || c == '\U{2028}' || c == '\U{2029}' || c == '\U{202F}' || c == '\U{205F}'
    || c == '\U{3000}' || c == '\U{FEFF}'
  }

  /** The WhiteSpace table of ECMAScript (section 12.2 of ECMA-262): TAB, VT,
      FF, ZWNBSP and the space separators of Unicode category Zs. */
  const WHITE_SPACE: set<char> := {
    '\t', '\U{000B}', '\U{000C}', '\U{FEFF}', ' ', '\U{00A0}', '\U{1680}',
    '\U{2000}', '\U{2001}', '\U{2002}', '\U{2003}', '\U{2004}', '\U{2005}',
    '\U{2006}', '\U{2007}', '\U{2008}', '\U{2009}', '\U{200A}',
    '\U{202F}', '\U{205F}', '\U{3000}'
  }

  /** The LineTerminator table of ECMAScript (section 12.3 of ECMA-262): LF,
      CR, LINE SEPARATOR and PARAGRAPH SEPARATOR. */
  const LINE_TERMINATOR: set<char> := {'\n', '\r', '\U{2028}', '\U{2029}'}

  /** `IsWhitespace` is exactly the union of the two tables `trim` strips. */
  lemma WhitespaceTables(c: char)
    ensures IsWhitespace(c) <==> c in WHITE_SPACE || c in LINE_TERMINATOR
  {
  }

  /** Every character is whitespace (vacuously so for the empty string). */
  predicate IsBlank(s: string) {
    forall i :: 0 <= i < |s| ==> IsWhitespace(s[i])
  }

  /** Drops the leading whitespace: the result is the suffix of `s` that
      starts at its first non-whitespace character. */
  function TrimStart(s: string): (r: string)
    ensures |r| <= |s| && r == s[|s| - |r|..]
    ensures r == [] || !IsWhitespace(r[0])
    ensures IsBlank(s[..|s| - |r|])
    decreases |s|
  {
    if s != [] && IsWhitespace(s[0]) then
      var r := TrimStart(s[1..]);
      assert s[..|s| - |r|] == [s[0]] + s[1..][..|s| - 1 - |r|];
      r
    else s
  }

  /** Drops the trailing whitespace: the result is the prefix of `s` that
      ends at its last non-whitespace character. */
  function TrimEnd(s: string): (r: string)
    ensures |r| <= |s| && r == s[..|r|]
    ensures r == [] || !IsWhitespace(r[|r| - 1])
    ensures IsBlank(s[|r|..])
    decreases |s|
  {
    if s != [] && IsWhitespace(s[|s| - 1]) then
      var r := TrimEnd(s[..|s| - 1]);
      assert s[|r|..] == s[..|s| - 1][|r|..] + [s[|s| - 1]];
      r
    else s
  }

  /** `r` is the slice of `s` at offset `a`, and everything before and after
      it is whitespace. */
  predicate CutsBlankEnds(s: string, a: int, r: string) {
    0 <= a <= |s| - |r| && r == s[a..a + |r|] && IsBlank(s[..a]) && IsBlank(s[a + |r|..])
  }

  /** `s.trim()`: whitespace is cut from both ends, nothing else changes. */
  function Trim(s: string): (r: string)
    ensures exists a :: CutsBlankEnds(s, a, r)
    ensures r == [] || (!IsWhitespace(r[0]) && !IsWhitespace(r[|r| - 1]))
  {
    var t := TrimStart(s);
    var r := TrimEnd(t);
    TrimBothEnds(s, t, r);
    r
  }

  /** Cutting the leading whitespace and then the trailing whitespace of
      what is left cuts both ends of the original string. */
  lemma TrimBothEnds(s: string, t: string, r: string)
    requires |t| <= |s| && t == s[|s| - |t|..] && IsBlank(s[..|s| - |t|])
    requires t == [] || !IsWhitespace(t[0])
    requires |r| <= |t| && r == t[..|r|] && IsBlank(t[|r|..])
    requires r == [] || !IsWhitespace(r[|r| - 1])
    ensures CutsBlankEnds(s, |s| - |t|, r)
    ensures r == [] || (!IsWhitespace(r[0]) && !IsWhitespace(r[|r| - 1]))
  {
    assert s[|s| - |t| + |r|..] == t[|r|..];
    assert r == [] || r[0] == t[0];
  }

  /** `s.trim() === ''`, the handlers' test for a missing note name, holds
      exactly when every character of the name is whitespace; in particular
      the empty name is blank. */
  lemma TrimEmptyIffBlank(s: string)
    ensures Trim(s) == "" <==> IsBlank(s)
  {
    var t := TrimStart(s);
    if Trim(s) == "" {
      assert t == [];
      assert s[..|s|] == s;
    } else {
      assert t[0] == s[|s| - |t|];
    }
  }
}
