/**
 * `clean_text` of the Job-Fit resume parser: the same guard and strip as the
 * top-level parser, with the pattern `\s+` written inline in `re.sub`
 * instead of precompiled.
 */
module JobFitResumeParser {
  import opened Wrappers
  import opened PyStr
  import opened PyRe
  import opened Words
  import ResumeParser

  /**
   * `clean_text(text)`: "" for `None` and "", otherwise normalised text equal
   * to the input's words joined by single spaces.
   */
  function CleanText(text: Option<string>): (r: string)
    ensures text.None? ==> r == ""
    ensures text.Some? ==> r == Join(Split(text.value))
    ensures IsClean(r)
  {
    if text.None? || text.value == "" then ""
    else
      ResumeParser.PipelineIsClean(text.value);
      ResumeParser.PipelineIsJoinSplit(text.value);
      Strip(SubWhitespace(text.value))
  }

  /** On every input this variant returns what the precompiled-pattern variant returns. */
  lemma AgreesWithPrecompiled(text: Option<string>)
    ensures CleanText(text) == ResumeParser.CleanText(text)
  {
  }

  /** A falsy argument gives "", and so would the substitute-and-strip path for "". */
  lemma FalsyGivesEmpty()
    ensures CleanText(None) == "" && CleanText(Some("")) == ""
    ensures Strip(SubWhitespace("")) == ""
  {
  }

  /** Cleaning keeps the words of the input, and so its non-whitespace characters in order. */
  lemma CleanTextKeepsWords(text: string)
    ensures Split(CleanText(Some(text))) == Split(text)
    ensures NonSpace(CleanText(Some(text))) == NonSpace(text)
  {
    ResumeParser.CleanTextKeepsWords(text);
    ResumeParser.CleanTextKeepsNonSpace(text);
  }

  /** The result is empty exactly when the input is whitespace only. */
  lemma CleanTextEmptyIffBlank(text: string)
    ensures CleanText(Some(text)) == "" <==> forall i :: 0 <= i < |text| ==> IsSpace(text[i])
  {
    ResumeParser.CleanTextEmptyIffBlank(text);
  }

  /** Applying `CleanText` to its own output changes nothing. */
  lemma CleanTextIdempotent(text: Option<string>)
    ensures CleanText(Some(CleanText(text))) == CleanText(text)
  {
    ResumeParser.CleanTextIdempotent(text);
  }
}
