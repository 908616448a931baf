# Job-Fit text normaliser, modelled in Dafny

Job-Fit screens resumes: it extracts the text of a PDF, cleans it, and hands
it to a sentence encoder and a trained classifier. The only logic of its own
in that path is `clean_text`, which exists twice with the same behaviour:
in `resume_parser.py` (with a precompiled pattern `WHITESPACE_PATTERN =
re.compile(r'\s+')`) and in `Job-Fit/resume_parser.py` (with the pattern
written inline in `re.sub`). `clean_text`:

- returns "" for a falsy argument (`None` or "");
- otherwise replaces every maximal run of whitespace with one ASCII space;
- and strips leading and trailing whitespace from the result.

The model, module by module:

- `Wrappers` (`wrappers.dfy`): `Option`, standing for "a `str` or `None`".
- `PyStr` (`py_str.dfy`): `IsSpace`, Python's whitespace set (CPython's
  `Py_UNICODE_ISSPACE`, which both `\s` in a `str` pattern and `str.strip()`
  use): U+0009..U+000D, U+001C..U+001F, U+0020, U+0085, U+00A0, U+1680,
  U+2000..U+200A, U+2028, U+2029, U+202F, U+205F, U+3000;
  `LStrip`, `RStrip`, `Strip` for `str.lstrip()`, `str.rstrip()`, `str.strip()`;
  the spacing predicates `OnlyAsciiSpaces` and `NoAdjacentSpaces`; and
  `StripBounds`, the slice `strip` keeps of text without adjacent whitespace.
- `PyRe` (`py_re.dfy`): `SubWhitespace`, the substitution
  `re.sub(r'\s+', ' ', s)`; a greedy left-to-right scan, so each match is a
  maximal whitespace run.
- `Words` (`words.dfy`): an independent reference for normalised text:
  `Split` (`s.split()`), `Join` (`' '.join(ws)`), the non-whitespace
  characters `NonSpace`, and the predicate `IsClean` (only ASCII spaces, no
  two whitespace characters adjacent, no whitespace at either end), with the
  lemmas that tie them together.
- `ResumeParser` (`resume_parser.dfy`): `clean_text` of `resume_parser.py`
  and its properties. The central result is that `clean_text` equals
  `' '.join(text.split())` on every string. Since the output is
  normalised and normalised text is the join of its words, the contract
  determines the result (`CleanTextUnique`).
- `JobFitResumeParser` (`jobfit_resume_parser.dfy`): `clean_text` of
  `Job-Fit/resume_parser.py`, its properties, and its agreement with the
  other variant on every input.

## Model

| member | source | states |
|---|---|---|
| `PyStr.LStrip` | resume_parser.py:26 | the leading part of `strip`: the result is a suffix of the input, everything removed is whitespace, and the result is empty or starts with non-whitespace |
| `PyStr.RStrip` | resume_parser.py:26 | the trailing part of `strip`: the result is a prefix of the input, everything removed is whitespace, and the result is empty or ends with non-whitespace |
| `PyStr.Strip` | resume_parser.py:26 | `strip` returns a prefix of `lstrip`'s result with only whitespace after it there, so (with `LStrip`'s contract) the middle slice of the input with only whitespace cut from either end; it never lengthens, leaves no whitespace at either end, and gives "" exactly when the input is whitespace only |
| `PyRe.SubWhitespace` | resume_parser.py:25 | substituting `' '` for `\s+` (the pattern of line 15) gives a string no longer than the input, empty only for empty input, with no whitespace but `' '` and no two adjacent whitespace characters, starting and ending with whitespace exactly where the input does, and keeping a non-whitespace first character |
| `Words.SplitStrip` | resume_parser.py:26 | stripping does not change the words of the text |
| `Words.JoinSplitClean` | resume_parser.py:25-26 | text of the shape `clean_text` produces is exactly the join of its words with single spaces |
| `PyStr.StripSpacedText` | resume_parser.py:25-26 | on text without adjacent whitespace, `strip` keeps exactly the slice `StripBounds` gives: it removes at most one character at each end, and only one that is whitespace |
| `ResumeParser.CleanText` | resume_parser.py:17-26 | `None` gives ""; any string gives normalised text equal to its words joined by single spaces (so "" gives "") |
| `ResumeParser.SplitSubWhitespace` | resume_parser.py:25 | replacing whitespace runs by one space does not change the words of the text (with `SubWhitespace`'s no-adjacent-whitespace contract, each run becomes exactly one separator) |
| `ResumeParser.PipelineIsClean` | resume_parser.py:25-26 | substitute-then-strip yields only ASCII spaces, never two whitespace characters together, and no whitespace at either end |
| `ResumeParser.StripTrimsOneSpacePerEnd` | resume_parser.py:25-26 | after the substitution, `strip` removes at most one space from each end, and only where there is one |
| `ResumeParser.PipelineIsJoinSplit` | resume_parser.py:25-26 | substitute-then-strip equals `' '.join(s.split())` on every string |
| `ResumeParser.EmptyShortcutAgrees` | resume_parser.py:21-22 | the early return for "" agrees with what the substitute-and-strip path would produce |
| `ResumeParser.CleanTextKeepsWords` | resume_parser.py:25-26 | the output has exactly the words of the input, in order |
| `ResumeParser.CleanTextKeepsNonSpace` | resume_parser.py:25-26 | filtering whitespace out of the input equals filtering it out of the output |
| `ResumeParser.CleanTextShrinks` | resume_parser.py:25-26 | the output is never longer than the input |
| `ResumeParser.CleanTextEmptyIffBlank` | resume_parser.py:25-26 | the output is "" exactly when the input is whitespace only |
| `ResumeParser.CleanTextFixesClean` | resume_parser.py:17-26 | normalised text is returned unchanged |
| `ResumeParser.CleanTextUnique` | resume_parser.py:17-26 | any normalised text with the input's words is the output, so the contract of `CleanText` pins down its result |
| `ResumeParser.CleanTextIdempotent` | resume_parser.py:17-26 | cleaning cleaned text changes nothing |
| `JobFitResumeParser.CleanText` | Job-Fit/resume_parser.py:15-24 | `None` gives ""; any string gives normalised text equal to its words joined by single spaces |
| `JobFitResumeParser.AgreesWithPrecompiled` | Job-Fit/resume_parser.py:15-24 | on every input, the inline-pattern variant returns what the precompiled-pattern variant returns |
| `JobFitResumeParser.FalsyGivesEmpty` | Job-Fit/resume_parser.py:19-20 | `None` and "" give "", and substitute-and-strip on "" would give "" too |
| `JobFitResumeParser.CleanTextKeepsWords` | Job-Fit/resume_parser.py:23-24 | the output has the input's words in order, hence its non-whitespace characters in order |
| `JobFitResumeParser.CleanTextEmptyIffBlank` | Job-Fit/resume_parser.py:23-24 | whitespace-only input, and only such input, gives "" |
| `JobFitResumeParser.CleanTextIdempotent` | Job-Fit/resume_parser.py:15-24 | applying `clean_text` to its own output changes nothing |

## Left out

- `extract_text_from_pdf` (both parser files, lines 4-13): a pdfminer call with file I/O and a catch-all that returns "". It is a foreign call.
- Compiling `WHITESPACE_PATTERN` once at import time (resume_parser.py:15) is a cache. The compiled and the inline pattern are the same regular expression, so both variants use `PyRe.SubWhitespace`. Regular expressions in general are not modelled.
- Arguments that are neither `None` nor a `str` are not modelled. The callers pass the `str` returned by the extractor.
- Python strings may hold lone surrogate code points. Dafny's `char` is a Unicode scalar value, so the model does not cover them.
- `Job-Fit/matcher.py` is not part of this model. It holds embeddings, logistic regression, `round` on floats and pickle persistence, all opaque library behaviour and floating point.
- `Job-Fit/app.py` and `Job-Fit/main.py` are not part of this model. They are Streamlit UI and command-line glue, and include the 10 MB upload check.
- The job-description scorer (similarity plus keyword overlap) does not appear in any of the source files, so it is not modelled.
