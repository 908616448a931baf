/**
 * `clean_text` of the top-level resume parser: a falsy argument gives "";
 * otherwise every whitespace run is replaced by one space through the
 * precompiled pattern `WHITESPACE_PATTERN` (`\s+`) and the result is stripped.
 */
module ResumeParser {
  import opened Wrappers
  import opened PyStr
  import opened PyRe
  import opened Words

  /**
   * `clean_text(text)`. `None` and "" are the falsy arguments and give "".
   * The result is normalised text, and it is exactly the words of the input
   * joined by single spaces, `' '.join(text.split())`.
   */
  function CleanText(text: Option<string>): (r: string)
    ensures text.None? ==> r == ""
    ensures text.Some? ==> r == Join(Split(text.value))
    ensures IsClean(r)
  {
    if text.None? || text.value == "" then ""
    else
      PipelineIsClean(text.value);
      PipelineIsJoinSplit(text.value);
      Strip(SubWhitespace(text.value))
  }

  /** Collapsing whitespace runs keeps the words. */
  lemma {:induction false} SplitSubWhitespace(s: string)
    ensures Split(SubWhitespace(s)) == Split(s)
    decreases |s|
  {
    if s == [] {
    } else if IsSpace(s[0]) {
      var t := LStrip(s[1..]);
      var x := SubWhitespace(t);
      assert SubWhitespace(s) == " " + x;
      assert (" " + x)[1..] == x;
      SplitSubWhitespace(t);
      SplitLStrip(s[1..]);
    } else {
      var y := SubWhitespace(s[1..]);
      assert SubWhitespace(s) == [s[0]] + y;
      assert ([s[0]] + y)[1..] == y;
      SplitSubWhitespace(s[1..]);
    }
  }

  /** The substitute-and-strip pipeline produces normalised text. */
  lemma PipelineIsClean(s: string)
    ensures IsClean(Strip(SubWhitespace(s)))
  {
    var x := SubWhitespace(s);
    StripSpacedText(x);
    SliceKeepsSpacing(x, StripBounds(x).0, StripBounds(x).1);
  }

  /**
   * After the substitution, `strip` removes at most one space at each end:
   * a leading one where the input started with whitespace and a trailing
   * one where it ended with whitespace (one space in all for a blank input).
   */
  lemma StripTrimsOneSpacePerEnd(s: string)
    ensures var x := SubWhitespace(s);
            Strip(x) == x[StripBounds(x).0..StripBounds(x).1]
  {
    StripSpacedText(SubWhitespace(s));
  }

  /**
   * The pipeline is `' '.join(s.split())`: the substitution and the strip
   * keep the words, and normalised text is the join of its words.
   */
  lemma PipelineIsJoinSplit(s: string)
    ensures Strip(SubWhitespace(s)) == Join(Split(s))
  {
    var r := Strip(SubWhitespace(s));
    PipelineIsClean(s);
    SplitStrip(SubWhitespace(s));
    SplitSubWhitespace(s);
    JoinSplitClean(r);
  }

  /** The early return for "" gives what the pipeline would give anyway. */
  lemma EmptyShortcutAgrees(text: Option<string>)
    ensures CleanText(text) == if text.None? then "" else Strip(SubWhitespace(text.value))
  {
    if text.Some? {
      PipelineIsJoinSplit(text.value);
    }
  }

  /** Cleaning keeps the words of the input, in order and with their boundaries. */
  lemma CleanTextKeepsWords(text: string)
    ensures Split(CleanText(Some(text))) == Split(text)
  {
    if text != "" {
      SplitStrip(SubWhitespace(text));
      SplitSubWhitespace(text);
    }
  }

  /** Cleaning keeps every non-whitespace character, in order. */
  lemma CleanTextKeepsNonSpace(text: string)
    ensures NonSpace(CleanText(Some(text))) == NonSpace(text)
  {
    CleanTextKeepsWords(text);
    NonSpaceIsConcat(text);
    NonSpaceIsConcat(CleanText(Some(text)));
  }

  /** The result is no longer than the input. */
  lemma CleanTextShrinks(text: string)
    ensures |CleanText(Some(text))| <= |text|
  {
    if text != "" {
      assert CleanText(Some(text)) == Strip(SubWhitespace(text));
    }
  }

  /** The result is empty exactly when the input is whitespace only. */
  lemma CleanTextEmptyIffBlank(text: string)
    ensures CleanText(Some(text)) == "" <==> forall i :: 0 <= i < |text| ==> IsSpace(text[i])
  {
    var r := CleanText(Some(text));
    CleanTextKeepsNonSpace(text);
    NonSpaceEmpty(text);
    NonSpaceEmpty(r);
    if r != "" {
      assert !IsSpace(r[0]);
    }
  }

  /** Normalised text is left unchanged. */
  lemma CleanTextFixesClean(text: string)
    requires IsClean(text)
    ensures CleanText(Some(text)) == text
  {
    JoinSplitClean(text);
  }

  /**
   * The contract of `CleanText` determines its result: the only normalised
   * text with the words of `text` is `CleanText(Some(text))`.
   */
  lemma CleanTextUnique(text: string, r: string)
    requires IsClean(r) && Split(r) == Split(text)
    ensures r == CleanText(Some(text))
  {
    JoinSplitClean(r);
    assert r == Join(Split(text));
    var c := CleanText(Some(text));
    assert c == Join(Split(text));
  }

  /** Cleaning twice gives the same as cleaning once. */
  lemma CleanTextIdempotent(text: Option<string>)
    ensures CleanText(Some(CleanText(text))) == CleanText(text)
  {
    CleanTextFixesClean(CleanText(text));
  }
}
