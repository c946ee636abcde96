/** The string operations the form relies on: `trim`, `toLowerCase` and
    `includes`. */
module Text {

  import Sequences

  /** The characters JavaScript's `trim` removes: white space and line
      terminators. */
  predicate IsWhitespace(c: char)
  {
    c in Whitespace
  }

  const Whitespace: set<char> := {
    ' ', '\t', '\n', '\r', '\U{000B}', '\U{000C}', '\U{00A0}', '\U{1680}',
    '\U{2000}', '\U{2001}', '\U{2002}', '\U{2003}', '\U{2004}', '\U{2005}',
    '\U{2006}', '\U{2007}', '\U{2008}', '\U{2009}', '\U{200A}',
    '\U{2028}', '\U{2029}', '\U{202F}', '\U{205F}', '\U{3000}', '\U{FEFF}'}

  predicate AllWhitespace(s: string)
  {
    forall i :: 0 <= i < |s| ==> IsWhitespace(s[i])
  }

  /** `s` with its leading white space removed. */
  function TrimStart(s: string): (r: string)
    ensures |r| <= |s|
  {
    if s != [] && IsWhitespace(s[0]) then TrimStart(s[1..]) else s
  }

  /** `s` with its trailing white space removed. */
  function TrimEnd(s: string): (r: string)
    ensures |r| <= |s|
  {
    if s != [] && IsWhitespace(s[|s| - 1]) then TrimEnd(s[..|s| - 1]) else s
  }

  /** `s.trim()`: no longer than `s`, and neither starting nor ending with
      white space. */
  function Trim(s: string): (r: string)
    ensures |r| <= |s|
    ensures r != [] ==> !IsWhitespace(r[0]) && !IsWhitespace(r[|r| - 1])
  {
    TrimStartRemovesPrefix(s);
    TrimEndRemovesSuffix(TrimStart(s));
    TrimEnd(TrimStart(s))
  }

  /** `TrimStart` removes a prefix made only of white space, and stops at
      the first other character. */
  lemma {:induction false} TrimStartRemovesPrefix(s: string)
    ensures var r := TrimStart(s);
      && |r| <= |s| && r == s[|s| - |r|..]
      && (r == [] || !IsWhitespace(r[0]))
      && AllWhitespace(s[..|s| - |r|])
  {
    if s != [] && IsWhitespace(s[0]) {
      TrimStartRemovesPrefix(s[1..]);
      var r := TrimStart(s);
      assert s[..|s| - |r|] == [s[0]] + s[1..][..|s| - 1 - |r|];
    }
  }

  /** `TrimEnd` removes a suffix made only of white space, and stops at the
      last other character. */
  lemma {:induction false} TrimEndRemovesSuffix(s: string)
    ensures var r := TrimEnd(s);
      && |r| <= |s| && r == s[..|r|]
      && (r == [] || !IsWhitespace(r[|r| - 1]))
      && AllWhitespace(s[|r|..])
  {
    if s != [] && IsWhitespace(s[|s| - 1]) {
      var t := s[..|s| - 1];
      TrimEndRemovesSuffix(t);
      var r := TrimEnd(s);
      assert s[|r|..] == t[|r|..] + [s[|s| - 1]];
    }
  }

  /** `s.trim()` is empty exactly when `s` is all white space. */
  lemma TrimEmptyIff(s: string)
    ensures Trim(s) == [] <==> AllWhitespace(s)
  {
    var t := TrimStart(s);
    TrimStartRemovesPrefix(s);
    TrimEndRemovesSuffix(t);
    if t != [] {
      assert t[0] == s[|s| - |t|] && !IsWhitespace(t[0]);
    } else {
      assert s[..|s| - |t|] == s;
    }
  }

  /** `s.trim()` is the piece of `s` that starts right after its leading
      white space. */
  lemma TrimIsPiece(s: string)
    ensures OccursAt(s, Trim(s), |s| - |TrimStart(s)|)
  {
    var t := TrimStart(s);
    var r := TrimEnd(t);
    var i := |s| - |t|;
    TrimStartRemovesPrefix(s);
    TrimEndRemovesSuffix(t);
    assert t == s[i..];
    assert t[..|r|] == s[i..i + |r|];
  }

  /** `toLowerCase` on one character, for the ASCII letters. */
  function LowerChar(c: char): (r: char)
    ensures !('A' <= r <= 'Z')
    ensures !('A' <= c <= 'Z') ==> r == c
    ensures 'A' <= c <= 'Z' ==> r as int - c as int == 'a' as int - 'A' as int
  {
    if 'A' <= c <= 'Z' then (c as int - 'A' as int + 'a' as int) as char else c
  }

  /** `s.toLowerCase()`: each character lower-cased in place. */
  function Lower(s: string): (r: string)
    ensures |r| == |s|
    ensures forall i :: 0 <= i < |s| ==> r[i] == LowerChar(s[i])
  {
    Sequences.Map(LowerChar, s)
  }

  /** Lower-casing twice is lower-casing once. */
  lemma LowerIdempotent(s: string)
    ensures Lower(Lower(s)) == Lower(s)
  {
    assert forall i :: 0 <= i < |s| ==> LowerChar(LowerChar(s[i])) == LowerChar(s[i]);
  }

  /** `hay.includes(needle)`: every string includes the empty
      string, and no string includes a longer one. */
  function Contains(hay: string, needle: string): (b: bool)
    ensures needle == [] ==> b
    ensures b ==> |needle| <= |hay|
  {
    assert needle == [] ==> OccursAt(hay, needle, 0);
    exists i :: 0 <= i <= |hay| - |needle| && OccursAt(hay, needle, i)
  }

  /** `needle` appears in `hay` starting at position `i`. */
  predicate OccursAt(hay: string, needle: string, i: int)
  {
    0 <= i <= |hay| - |needle| && hay[i..i + |needle|] == needle
  }
}
