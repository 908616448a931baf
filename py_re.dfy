/**
 * The one regular-expression substitution the normaliser performs:
 * `re.sub(r'\s+', ' ', s)`, equivalently `re.compile(r'\s+').sub(' ', s)`.
 */
module PyRe {
  import opened PyStr

  /**
   * Scanning left to right, every maximal run of whitespace (a greedy match
   * of `\s+`) is replaced by one ASCII space; other characters are copied.
   * The result has no whitespace but ' ', never two whitespace characters
   * side by side, is no longer than `s`, and starts (and ends) with
   * whitespace exactly when `s` does.
   */
  function SubWhitespace(s: string): (r: string)
    ensures |r| <= |s|
    ensures r == [] <==> s == []
    ensures r != [] ==> (IsSpace(r[0]) <==> IsSpace(s[0]))
    ensures r != [] && !IsSpace(s[0]) ==> r[0] == s[0]
    ensures r != [] ==> (IsSpace(r[|r| - 1]) <==> IsSpace(s[|s| - 1]))
    ensures OnlyAsciiSpaces(r) && NoAdjacentSpaces(r)
    decreases |s|
  {
    if s == [] then []
    else if IsSpace(s[0]) then
      var rest := SubWhitespace(LStrip(s[1..]));
      ConsKeepsSpacing(' ', rest);
      " " + rest
    else
      var rest := SubWhitespace(s[1..]);
      ConsKeepsSpacing(s[0], rest);
      [s[0]] + rest
  }
}
