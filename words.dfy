/**
 * An independent description of what normalised text is: its words
 * (Python's `s.split()` with no separator) joined by single spaces
 * (`' '.join(words)`), and the shape such text has.
 */
module Words {
  import opened PyStr

  /** The characters of `s` that are not whitespace, in their order. */
  function NonSpace(s: string): string {
    if s == [] then []
    else (if IsSpace(s[0]) then [] else [s[0]]) + NonSpace(s[1..])
  }

  /** A word: a non-empty string without whitespace. */
  predicate IsWord(w: string) {
    w != [] && forall i :: 0 <= i < |w| ==> !IsSpace(w[i])
  }

  /**
   * `s.split()`: the maximal runs of non-whitespace characters of `s`, in
   * order. A non-whitespace character followed by another one extends the
   * word that the rest of `s` starts with; otherwise it is a word of its own.
   */
  function Split(s: string): (ws: seq<string>)
    ensures forall k :: 0 <= k < |ws| ==> IsWord(ws[k])
    ensures s != [] && !IsSpace(s[0]) ==> ws != [] && ws[0] != [] && ws[0][0] == s[0]
    decreases |s|
  {
    if s == [] then []
    else if IsSpace(s[0]) then Split(s[1..])
    else if |s| > 1 && !IsSpace(s[1]) then
      var rest := Split(s[1..]);
      [[s[0]] + rest[0]] + rest[1..]
    else [[s[0]]] + Split(s[1..])
  }

  /** `' '.join(ws)`. */
  function Join(ws: seq<string>): string {
    if ws == [] then ""
    else if |ws| == 1 then ws[0]
    else ws[0] + " " + Join(ws[1..])
  }

  /** All the words concatenated, with nothing between them. */
  function Concat(ws: seq<string>): string {
    if ws == [] then "" else ws[0] + Concat(ws[1..])
  }

  /** `s` neither starts nor ends with whitespace. */
  predicate NoEdgeSpaces(s: string) {
    s != [] ==> !IsSpace(s[0]) && !IsSpace(s[|s| - 1])
  }

  /** Normalised text: words separated by exactly one ASCII space. */
  predicate IsClean(s: string) {
    OnlyAsciiSpaces(s) && NoAdjacentSpaces(s) && NoEdgeSpaces(s)
  }

  /** `Split` looks past leading whitespace. */
  lemma {:induction false} SplitLStrip(s: string)
    ensures Split(LStrip(s)) == Split(s)
    decreases |s|
  {
    if s != [] && IsSpace(s[0]) {
      SplitLStrip(s[1..]);
    }
  }

  /** A trailing whitespace character does not change the words. */
  lemma {:induction false} SplitSnocSpace(s: string, c: char)
    requires IsSpace(c)
    ensures Split(s + [c]) == Split(s)
    decreases |s|
  {
    var t := s + [c];
    if s == [] {
      assert Split(t) == Split(t[1..]);
    } else {
      assert t[1..] == s[1..] + [c];
      SplitSnocSpace(s[1..], c);
      if |s| > 1 {
        assert t[1] == s[1];
      }
    }
  }

  /** `Split` looks past trailing whitespace. */
  lemma {:induction false} SplitRStrip(s: string)
    ensures Split(RStrip(s)) == Split(s)
    decreases |s|
  {
    if s != [] && IsSpace(s[|s| - 1]) {
      var p := s[..|s| - 1];
      assert s == p + [s[|s| - 1]];
      SplitSnocSpace(p, s[|s| - 1]);
      SplitRStrip(p);
    }
  }

  /** Stripping keeps the words. */
  lemma SplitStrip(s: string)
    ensures Split(Strip(s)) == Split(s)
  {
    SplitRStrip(LStrip(s));
    SplitLStrip(s);
  }

  /** Joining with a character put in front of the first word. */
  lemma JoinConsFirst(c: char, w: string, ws: seq<string>)
    ensures Join([[c] + w] + ws) == [c] + Join([w] + ws)
  {
    if ws != [] {
      assert ([[c] + w] + ws)[1..] == ws;
      assert ([w] + ws)[1..] == ws;
    }
  }

  /** Normalised text is determined by its words: joining them gives it back. */
  lemma {:induction false} JoinSplitClean(s: string)
    requires IsClean(s)
    ensures Join(Split(s)) == s
    decreases |s|
  {
    if s == [] {
    } else if |s| == 1 {
      assert Split(s[1..]) == [];
    } else if !IsSpace(s[1]) {
      var t := s[1..];
      assert IsClean(t);
      JoinSplitClean(t);
      var rest := Split(t);
      JoinConsFirst(s[0], rest[0], rest[1..]);
      assert [rest[0]] + rest[1..] == rest;
    } else {
      var t := s[2..];
      assert s[1] == ' ';
      assert t != [] && t[0] == s[2];
      assert IsClean(t);
      JoinSplitClean(t);
      assert Split(s[1..]) == Split(t) by {
        assert s[1..][1..] == t;
      }
      assert Split(s) == [[s[0]]] + Split(t);
      assert s == [s[0]] + " " + t;
    }
  }

  /** The non-whitespace characters of `s` are its words, concatenated. */
  lemma {:induction false} NonSpaceIsConcat(s: string)
    ensures NonSpace(s) == Concat(Split(s))
    decreases |s|
  {
    if s != [] {
      NonSpaceIsConcat(s[1..]);
      if !IsSpace(s[0]) && |s| > 1 && !IsSpace(s[1]) {
        var rest := Split(s[1..]);
        assert [rest[0]] + rest[1..] == rest;
        assert Concat(rest) == rest[0] + Concat(rest[1..]);
        assert ([[s[0]] + rest[0]] + rest[1..])[1..] == rest[1..];
      } else if !IsSpace(s[0]) {
        assert ([[s[0]]] + Split(s[1..]))[1..] == Split(s[1..]);
      }
    }
  }

  /** A string has no non-whitespace characters exactly when it is all whitespace. */
  lemma {:induction false} NonSpaceEmpty(s: string)
    ensures NonSpace(s) == [] <==> forall i :: 0 <= i < |s| ==> IsSpace(s[i])
    decreases |s|
  {
    if s != [] {
      NonSpaceEmpty(s[1..]);
      if IsSpace(s[0]) {
        assert forall i :: 1 <= i < |s| ==> s[i] == s[1..][i - 1];
      }
    }
  }
}
