# EMAAR Careers résumé scorer, modelled in Dafny

The EMAAR Careers demo (`app.py`) scores a candidate's résumé text against a set of
recruiter-defined criteria. Each criterion has a name, a weight and a list of keywords.
The engine does four things:

- `clean_text` normalises the text. It collapses whitespace runs, trims both ends and lowercases.
- `keyword_score` awards each criterion its full weight when at least one of its keywords,
  lowercased, occurs in the cleaned text. It returns the total and one detail record per criterion.
- `explainability` renders one bullet line per detail record.
- `render_candidate_result` derives two things from the details:
  - the top two strengths, which feed the templated `concierge_script`;
  - the matched-criteria summary, which is written to the audit log.

The model has seven modules, one file each:

| file | module | what it holds |
|---|---|---|
| `seqs.dfy` | `Seqs` | `Filter`: list comprehensions with a condition, `[x for x in s if p(x)]` |
| `strings.dfy` | `Strings` | Python's `p in s`, `sep.join`, `s.split(c)` and `str(n)` for whole numbers |
| `normalize.dfy` | `Normalize` | `clean_text`, built from `Collapse` (the regex), `Strip` and `Lower` |
| `scoring.dfy` | `Scoring` | criteria, detail records, and `keyword_score` as a loop (`KeywordScore`) |
| `explain.dfy` | `Explain` | `explainability` as a loop, the top strengths, and the matched-summary loop |
| `concierge.dfy` | `Concierge` | `concierge_script` |
| `render.dfy` | `Render` | the pure part of `render_candidate_result` |

The source's loops become methods with loop invariants. Each method is proved against a
specification function (`Details`/`Score`, `Lines`, `Summary`). The properties are lemmas
about those functions.

Some modelling choices:

- **Weights** are natural numbers. This is a modelling choice: the recruiter form (app.py:238-247)
  offers weights from 0 to 100 in steps of 1, but a typed-in weight may be fractional. Fractional
  weights are left out.
- **Floats.** The float conversion and `round(total, 2)` change nothing for whole numbers. The
  explanation prints a weight the way Python prints a whole float: digits followed by `.0`.
- **Missing fields.** A criterion's `"weight"` and `"keywords"` may be missing, because they are
  read with `.get`. Missing values default to 0 and `[]`.
- **Whitespace** is the ASCII part of what Python's `\s` and `str.strip()` accept: space, `\t` to
  `\r`, and U+001C to U+001F.
- **Lowercasing** maps A-Z only.

An empty keyword matches every text, the empty one included, because `"" in s` is always
true (`Scoring.EmptyKeywordAlwaysMatches`). Blank text therefore scores 0 only when every
keyword is non-empty, which is what `Scoring.BlankTextScoresZero` requires.

## Model

| member | source | states |
|---|---|---|
| `Normalize.CleanTextIsClean` | app.py:61-62 | The cleaned text has no two adjacent whitespace characters, every whitespace character in it is `' '`, and it has no leading or trailing whitespace and no capital letter. Its non-whitespace characters are those of the input, lowercased, in the same order. Whitespace-only or empty input gives `""`. |
| `Normalize.CollapseIsSingleSpaced` | app.py:62 | `re.sub(r"\s+", " ", x)` leaves only single spaces between non-whitespace characters. It yields `""` exactly for `""`. It starts with whitespace exactly when its input does. |
| `Normalize.CollapseKeepsVisible` | app.py:62 | The regex substitution keeps every non-whitespace character, in order. |
| `Normalize.StripLeadingDropsOnlySpace` | app.py:62 | `strip()` removes whitespace only, at the start. |
| `Normalize.StripTrailingDropsOnlySpace` | app.py:62 | `strip()` removes whitespace only, at the end. |
| `Normalize.CleanTextFixesCleanStrings` | app.py:61-62 | A string that is already clean comes back unchanged. |
| `Normalize.CleanTextIdempotent` | app.py:61-62 | Cleaning twice is the same as cleaning once. |
| `Normalize.CleanTextIgnoresCase` | app.py:62 | Two texts that differ only in the case of their letters clean to the same string. |
| `Normalize.CleanTextIgnoresRunLength` | app.py:62 | Replacing a whitespace run inside the text by any other non-empty whitespace run gives the same cleaned text. This covers adding whitespace next to existing whitespace. |
| `Normalize.CleanTextIgnoresOuterSpace` | app.py:62 | Whitespace added at the start or the end of the text does not change the cleaned text. |
| `Strings.ContainsIffOccurs` | app.py:104 | Python's `p in s` holds exactly when `p` occurs at some position of `s`. |
| `Seqs.FilterIsExactSubsequence` | app.py:104 | A filtering comprehension gives a subsequence of its input. It keeps every element that passes, as often as the element occurs, and drops every element that fails. |
| `Scoring.KeywordScore` | app.py:97-108 | `keyword_score` returns one detail per criterion, in input order. Each detail carries the criterion's name, its weight (0 when missing) and the keywords found in the cleaned text. The total is the sum of the weights of the criteria with a non-empty `matched` list, and it is at most the sum of all weights. |
| `Scoring.MatchedIsExactSubsequence` | app.py:104 | A detail's `matched` list is the subsequence of the criterion's keywords whose lowercase form occurs in the cleaned text. It keeps their order and their repetitions and drops every other keyword. |
| `Scoring.MatchedMeansOccurs` | app.py:104 | A keyword is in `matched` exactly when it is listed and its lowercase form occurs at some position of the cleaned text. |
| `Scoring.EmptyKeywordAlwaysMatches` | app.py:104-105 | An empty keyword is found in every text, so its criterion is always awarded its weight. |
| `Scoring.ScoreIsMatchedWeight` | app.py:105-106 | The accumulated total equals the sum of the weights of the details whose `matched` list is non-empty. |
| `Scoring.ScoreBounded` | app.py:99-108 | 0 ≤ total ≤ the sum of the criteria's weights. |
| `Scoring.ScoreIsNotClamped` | app.py:105-108 | The total is not capped at 100: two matched criteria weighing 60 and 70 give 130. |
| `Scoring.BlankTextScoresZero` | app.py:98-108 | Empty or whitespace-only text, scored against non-empty keywords, leaves every `matched` list empty and gives a total of 0. |
| `Scoring.ScoreIgnoresCase` | app.py:98-104 | Changing the ASCII letter case of the résumé text changes no detail, and so not the total. By `Normalize.CaseChangesAreSameUpToCase`, this covers the whole text ASCII-upper-cased or ASCII-lower-cased. |
| `Scoring.ScoreIgnoresRunLength` | app.py:98-104 | Lengthening or shortening a whitespace run in the text changes no detail. |
| `Scoring.ScoreIgnoresOuterSpace` | app.py:98-104 | Whitespace added at either end of the text changes no detail. |
| `Scoring.HospitalityExample` | app.py:97-108 | Scored against "customer empathy"/"hospitality" with weight 30, the résumé text "Experienced in hospitality services" cleans to "experienced in hospitality services", matches "hospitality" only and totals 30. |
| `Scoring.NoArabicExample` | app.py:97-108 | Scored against "arabic"/"bilingual" with weight 20, the résumé text "Fluent in French and English" matches nothing once cleaned and totals 0. |
| `Normalize.CleanTextOfTrimmed` | app.py:61-62 | Text that is single-spaced with no whitespace at either end is only lowercased by `clean_text`. |
| `Explain.Explainability` | app.py:110-117 | `explainability` joins, with `"\n"`, one line per detail in order. A matched detail renders as `• name: matched k1, k2 (+w.0)` and an unmatched one as `• name: no match (+0)`. No details give `""`. |
| `Explain.ExplanationHasOneLinePerDetail` | app.py:110-117 | When no name or keyword contains a line break, splitting the explanation on `"\n"` gives back exactly the detail lines, in order. |
| `Explain.LineReportsAward` | app.py:112-116 | The number printed after the `+` of a line is the points that criterion added to the total: its weight when matched, 0 otherwise. |
| `Explain.ExplanationAddsUp` | app.py:110-117 | The points printed in the explanation add up to the fit score. |
| `Explain.TopStrengths` | app.py:187 | There are one or two top strengths. When n ≥ 1 criteria matched there are exactly min(n, 2). |
| `Explain.TopStrengthsFallback` | app.py:187 | When no criterion matched, the strengths are exactly `["service mindset"]`. |
| `Explain.TopStrengthsAreFirstMatched` | app.py:187 | Let a matched detail be preceded by k matched details, with k < 2. Then it is strength number k. With the length fixed by `Explain.TopStrengths`, the strengths are exactly the first min(n, 2) matched criterion names, in input order. |
| `Explain.MatchedSummary` | app.py:192-195 | The summary loop yields the `"; "`-joined entries `name (k1, k2)` of the matched criteria, in order, or `"None"` when there are none. |
| `Explain.SummaryNoneIffNothingMatched` | app.py:192-205 | The logged `matched_criteria` field is `"None"` exactly when no criterion matched. |
| `Explain.SummaryListsMatched` | app.py:192-205 | Suppose no name or keyword contains `;`. Then splitting the summary on `;` gives one piece per matched criterion, in order. |
| `Concierge.ConciergeScriptParagraphs` | app.py:119-123 | Suppose the name, the role and the strengths contain no line break. Then the script splits into exactly the greeting with the name and role, a blank line, the body listing the strengths joined by `", "`, a blank line, and the fixed call to action. |
| `Render.RenderCandidateResult` | app.py:178-207 | There is no result exactly when some criterion has no weight, because building the row's weight map raises `KeyError` (app.py:196) before the row is logged. Otherwise the fit score of one résumé is the weight of its matched criteria and at most the total weight. The explanation, the concierge script (fed the top strengths) and the audit row are those of the scored details. The row records `"None"` exactly when nothing matched. |

## Left out

- Reading uploads and local files (app.py:64-95): byte decoding and PDF text extraction are I/O
  and foreign calls. The scorer receives the text.
- `clean_text` of `None` (the `x or ""` at app.py:62): the model takes a string. An absent text
  is passed as `""`.
- Unicode whitespace beyond ASCII and U+001C..U+001F, and Unicode lowercasing beyond A-Z:
  `Normalize.IsSpace` and `Normalize.LowerChar` cover the ASCII subset only.
- `Normalize.Upper` and `Normalize.CaseChangesAreSameUpToCase` cover ASCII upper-casing only.
  Python's `upper()` can change a string's length (`"straße".upper()` is `"STRASSE"`). Such text
  no longer contains a keyword like `"straße"`, so the case-insensitivity the lemmas prove does
  not extend to full Unicode case mapping.
- Fractional weights, float addition and `round(total, 2)` (app.py:102, 108): weights are whole
  numbers. The form's step of 1 suggests whole numbers, but a typed-in fractional weight is
  accepted by the program and not by the model.
- `Explain.Line` prints a weight as its digits followed by `.0`. Python prints floats of 1e16 and
  above in exponent form, which the model does not reproduce. The form caps weights at 100.
- A criterion without `"name"` raises `KeyError` at app.py:107: the model's criterion always has a name.
- The PDF confirmation (app.py:138-175), the Streamlit page and widgets (app.py:14-58, 215-371),
  and `bias_check_panel` (app.py:129-135): presentation only.
- Audit-log plumbing:
  - the md5-and-clock candidate id and the timestamps (app.py:197-199) depend on hashing and the clock;
  - the `criteria_weights` text (app.py:196, 206) is Python's `str()` of a dict;
  - appending to the session DataFrame (app.py:208-211) and the CSV export are I/O.
  - `Render.AuditRow` holds the remaining fields.
- Showing the score, the explanation and the script on the page (app.py:182-189): display only.
- `mock_timeslots` (app.py:125-127): it depends on the wall clock and on `strftime`.
- The recruiter analytics (app.py:309-333): pandas aggregation over floats.
