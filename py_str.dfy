/**
 * The parts of Python's `str` type that the text normaliser relies on:
 * the whitespace test behind `str.isspace()`, `\s` in a `str` pattern and
 * `str.strip()`, and the three strip operations themselves.
 */
module PyStr {

  /**
   * Python's notion of a whitespace character (CPython's Py_UNICODE_ISSPACE):
   * the ASCII controls TAB, LF, VT, FF, CR, the separators U+001C..U+001F,
   * SPACE, NEXT LINE, NO-BREAK SPACE, and the Unicode space separators
   * U+1680, U+2000..U+200A, U+2028, U+2029, U+202F, U+205F and U+3000.
   * Both `\s` in a `str` regular expression and `str.strip()` use this set.
   */
  predicate IsSpace(c: char) {
    || ('\t' <= c <= '\r')
    || ('\U{1C}' <= c <= '\U{1F}')
    || c == ' '
    || c == '\U{85}'
    || c == '\U{A0}'
    || c == '\U{1680}'
    || ('\U{2000}' <= c <= '\U{200A}')
    || c == '\U{2028}'
    || c == '\U{2029}'
    || c == '\U{202F}'
    || c == '\U{205F}'
    || c == '\U{3000}'
  }

  /** `s.lstrip()`: the suffix of `s` left after its leading whitespace. */
  function LStrip(s: string): (r: string)
    ensures |r| <= |s| && r == s[|s| - |r|..]
    ensures forall i :: 0 <= i < |s| - |r| ==> IsSpace(s[i])
    ensures r != [] ==> !IsSpace(r[0])
  {
    if s != [] && IsSpace(s[0]) then LStrip(s[1..]) else s
  }

  /** `s.rstrip()`: the prefix of `s` left after its trailing whitespace. */
  function RStrip(s: string): (r: string)
    ensures |r| <= |s| && r == s[..|r|]
    ensures forall i :: |r| <= i < |s| ==> IsSpace(s[i])
    ensures r != [] ==> !IsSpace(r[|r| - 1])
  {
    if s != [] && IsSpace(s[|s| - 1]) then RStrip(s[..|s| - 1]) else s
  }

  /**
   * `s.strip()`: `s` without its leading and trailing whitespace. The result
   * is a prefix of `s.lstrip()` (itself the suffix of `s` after its leading
   * whitespace) and only whitespace follows it there, so it is the middle
   * slice of `s` with whitespace alone cut from either end. It is empty
   * exactly when `s` is whitespace only, and otherwise starts and ends with
   * a non-whitespace character.
   */
  function Strip(s: string): (r: string)
    ensures |r| <= |s|
    ensures r != [] ==> !IsSpace(r[0]) && !IsSpace(r[|r| - 1])
    ensures r == [] <==> forall i :: 0 <= i < |s| ==> IsSpace(s[i])
    ensures |r| <= |LStrip(s)| && r == LStrip(s)[..|r|]
    ensures forall i :: |r| <= i < |LStrip(s)| ==> IsSpace(LStrip(s)[i])
  {
    var t := LStrip(s);
    var u := RStrip(t);
    assert u != [] ==> u[0] == t[0];
    u
  }

  /** The only whitespace character in `s` is the ASCII space. */
  predicate OnlyAsciiSpaces(s: string) {
    forall i :: 0 <= i < |s| && IsSpace(s[i]) ==> s[i] == ' '
  }

  /** No two whitespace characters of `s` are adjacent. */
  predicate NoAdjacentSpaces(s: string) {
    forall i :: 0 <= i < |s| - 1 ==> !(IsSpace(s[i]) && IsSpace(s[i + 1]))
  }

  /** Putting a character in front keeps the spacing properties when it does not start a whitespace pair. */
  lemma ConsKeepsSpacing(c: char, x: string)
    requires OnlyAsciiSpaces(x) && NoAdjacentSpaces(x)
    requires IsSpace(c) ==> c == ' ' && (x == [] || !IsSpace(x[0]))
    ensures OnlyAsciiSpaces([c] + x) && NoAdjacentSpaces([c] + x)
  {
    var y := [c] + x;
    assert forall i :: 1 <= i < |y| ==> y[i] == x[i - 1];
  }

  /**
   * The slice of `x` that `strip` keeps when `x` has no adjacent whitespace:
   * it drops the first character if that is whitespace, and then the last
   * one if that is whitespace.
   */
  function StripBounds(x: string): (b: (nat, nat))
    ensures b.0 <= b.1 <= |x|
    ensures b.0 <= 1 && |x| - b.1 <= 1
  {
    var lo := if x != [] && IsSpace(x[0]) then 1 else 0;
    var hi := if |x| > lo && IsSpace(x[|x| - 1]) then |x| - 1 else |x|;
    (lo, hi)
  }

  /** A slice of text keeps its spacing properties. */
  lemma SliceKeepsSpacing(s: string, lo: nat, hi: nat)
    requires lo <= hi <= |s|
    ensures OnlyAsciiSpaces(s) ==> OnlyAsciiSpaces(s[lo..hi])
    ensures NoAdjacentSpaces(s) ==> NoAdjacentSpaces(s[lo..hi])
  {
    var t := s[lo..hi];
    assert forall i :: 0 <= i < |t| ==> t[i] == s[lo + i];
  }

  /** Text without adjacent whitespace loses at most one character at each end to `strip`. */
  lemma StripSpacedText(x: string)
    requires NoAdjacentSpaces(x)
    ensures Strip(x) == x[StripBounds(x).0..StripBounds(x).1]
  {
    var lo := if x != [] && IsSpace(x[0]) then 1 else 0;
    var hi := if |x| > lo && IsSpace(x[|x| - 1]) then |x| - 1 else |x|;
    assert StripBounds(x) == (lo, hi);
    var t := x[lo..];
    assert LStrip(x) == t by {
      if lo == 1 {
        assert x[1..] == [] || !IsSpace(x[1]);
      }
    }
    assert RStrip(t) == x[lo..hi] by {
      if hi < |x| {
        var p := t[..|t| - 1];
        assert p == x[lo..hi];
        assert p == [] || !IsSpace(x[hi - 1]);
        assert RStrip(t) == RStrip(p);
      }
    }
  }
}
