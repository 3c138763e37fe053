# requirement_improver — a Dafny model of the scoring core

The requirement improver scores a natural-language software requirement
against a fixed catalog of 63 writing rules. A language model grades the
requirement, and the program turns that reply into a report: a total, a
maximum, a percentage and five category sums. It then asks the model for an
improved wording, scores the whole improved text, and shows a rule-by-rule
comparison of the two reports.

This project models the pure part of that pipeline and proves properties of it:

- `Catalog`: the ordered rule catalog and the five score categories.
- `Evaluator`: how a decoded reply becomes a report, the fallback report used
  on any failure, and the comparison of two reports.
- `AiClient`: how the JSON object is found inside the model's reply, and how
  a failure is wrapped into an error.
- `Improver`: the record `improve` returns, and the splitter that cuts the
  improved text at each "요구사항" (requirement) header. The splitter is a
  function of the improver module (modules/improver.py:41-64) that the app
  does not call; the app shows and scores the improved text whole.
- `Config`: the configured maximum score and per-range rule counts, checked
  against the catalog.
- `ComparisonView`: the values behind the comparison screen:
  - the score delta;
  - the detail table's labels;
  - the highlight list with the three largest rule gains.
- `Text` and `Wrappers` hold the string and option/result helpers these
  modules share.

Data is modelled as follows:

- A decoded reply is a `map<RuleId, Option<int>>`. `None` stands for an entry
  that has no `score` field, which the source reads as 0.
- JSON decoding and the model call are parameters: a decoder
  `string -> Result<ScoreMap, string>` and a `Result<string, string>` reply.
- Python dictionaries whose order matters become sequences, in the order the
  source builds them. This covers the comparison rows and the categories.
- Percentages are exact rationals (`real`).

Where the code and its comments disagree, the model follows the code:

- The comments say 64 rules (modules/evaluator.py:16, config.py:25). The
  list has 63 ids, with no R36. `Catalog.CatalogDistinct` and
  `Catalog.CatalogLacksR36` state this, and `Config.CountsSumToCatalog`
  shows that the configured counts also add up to 63.
- The "기타 규칙" (other rules) category holds 32 rules but has maximum 165
  rather than 160. `Catalog.CategoryMaxima` states both numbers.
- The five maxima still sum to 320, the fallback maximum. 5 points for each
  of the 63 rules would be 315 (`Config.MaxScoreAgreement`).
- Scores are never clamped to 5. `Evaluator.TotalWithinMax` therefore needs
  the precondition that every score is at most 5.

## Model

| member | source | states |
|---|---|---|
| Catalog.CatalogShape | modules/evaluator.py:17-39 | the catalog is the concatenation of the 17 id ranges P1-P7, C1-C9, C10-C15, R1-R9, …, R37-R40, R41-R42, in that order |
| Catalog.CatalogDistinct | modules/evaluator.py:17-39 | the catalog has 63 ids and no id occurs twice |
| Catalog.CatalogLacksR36 | modules/evaluator.py:36-37 | R36 is not a catalog id |
| Catalog.ExpandMembers | modules/evaluator.py:17-39 | every id in the expansion of a list of ranges lies in one of those ranges |
| Catalog.OtherRulesOfCatalog | modules/evaluator.py:83 | the "기타 규칙" list (R ids numbered 10 or more, in catalog order) is exactly the ranges from R10-R11 on |
| Catalog.CategoriesTileCatalog | modules/evaluator.py:78-83 | the five category lists, joined in order, are the catalog itself |
| Catalog.CategoriesPartitionCatalog | modules/evaluator.py:78-83 | every catalog id lies in exactly one category, and every category id is a catalog id |
| Catalog.CategoryRulesDistinct | modules/evaluator.py:79-83 | no rule occurs twice in one category's list |
| Catalog.CategoryMaxima | modules/evaluator.py:79-83 | the maxima are 35, 45, 30, 45, 165 and sum to 320; the first four are 5 per rule, the last has 32 rules (160) but maximum 165 |
| Evaluator.ProcessScores | modules/evaluator.py:53-74 | the scores pass through unchanged; the total is the sum of the positive scores of the catalog rules, and it is 0 exactly when no catalog rule has a positive score; then the maximum is 320 and the percentage 0; otherwise the maximum is 5 per applicable rule and the percentage is total/max×100 |
| Evaluator.ProcessScoresInsert | modules/evaluator.py:58-63 | a new positive score v for a catalog rule adds v to the total, one applicable rule, and 5 to the maximum |
| Evaluator.TotalZeroIff | modules/evaluator.py:58-63 | the sum of positive scores over a list of ids is non-negative, and zero exactly when none of the ids has a positive score |
| Evaluator.CountIsCardinality | modules/evaluator.py:58-63 | the number of 5-point increments equals the number of distinct applicable catalog rules |
| Evaluator.CategoryScores | modules/evaluator.py:76-93 | one entry per category, in category order, carrying that category's name, rules and constant maximum, whose score is the sum of the positive scores of that category's rules |
| Evaluator.CategoryScoresInsert | modules/evaluator.py:86-91 | a new positive score v for a rule adds v to the score of the category holding that rule and leaves every other category's score unchanged |
| Evaluator.EmptyReplyCategories | modules/evaluator.py:86-91 | an empty reply gives every category the score 0 |
| Evaluator.CategoryScoresSumToTotal | modules/evaluator.py:58-63 | the five category scores always add up to the report's total |
| Evaluator.CategoryMaximaConstant | modules/evaluator.py:79-83 | whatever the reply, the category maxima are 35, 45, 30, 45, 165, summing to the fallback maximum |
| Evaluator.TotalWithinMax | modules/evaluator.py:58-71 | if no score exceeds 5, the total is at most the maximum and the percentage at most 100 |
| Evaluator.SamePointsSameReport | modules/evaluator.py:58-63 | two replies that give every catalog rule the same positive points have the same total, maximum, percentage and category scores |
| Evaluator.UnknownKeyIgnored | modules/evaluator.py:58-59 | adding an entry for an id outside the catalog changes no total, maximum, percentage or category score |
| Evaluator.NonPositiveEntryIgnored | modules/evaluator.py:60-61 | an entry with no score field or a score ≤ 0 counts the same as no entry at all |
| Evaluator.Evaluate | modules/evaluator.py:41-51 | a failed call, a reply with no JSON object, or a decode failure gives the default report; otherwise the result is the processed report of the decoded scores, which it carries unchanged |
| Evaluator.DefaultScores | modules/evaluator.py:95-103 | the fallback report: total 0, maximum 320, percentage 0, no scores and no categories |
| Evaluator.DefaultMatchesEmptyReply | modules/evaluator.py:95-103 | the default report has total 0, maximum 320, percentage 0 and no scores; only its empty category list differs from processing an empty reply |
| Evaluator.AggregateExample | modules/evaluator.py:53-71 | the reply {P1: 5, P2: 0, R7: 3} gives total 8, maximum 10 and 80 percent |
| Evaluator.EmptyReplyExample | modules/evaluator.py:70-71 | an empty reply gives total 0, maximum 320 and percentage 0 |
| Evaluator.ChangesOver | modules/evaluator.py:109-118 | the rows built over a list of ids hold the right scores and change, include every id with a positive score on either side and no other, and follow the list's order |
| Evaluator.Compare | modules/evaluator.py:105-125 | the rows are exactly the catalog ids with a positive score on either side, in catalog order; each holds both scores (missing read as 0) and improved minus original; the total improvement is the difference of the totals |
| Evaluator.CompareRowsDistinct | modules/evaluator.py:109-118 | no rule has two rows |
| Evaluator.CompareWithSelf | modules/evaluator.py:109-124 | comparing a report with itself gives only zero changes and a total improvement of 0 |
| Evaluator.CompareSwap | modules/evaluator.py:109-124 | swapping the two reports keeps the same rules and negates every change and the total improvement |
| Evaluator.ImprovementIsSumOfChanges | modules/evaluator.py:109-124 | when no score is negative, the total improvement of two processed reports is the sum of the row changes |
| Evaluator.CompareExample | modules/evaluator.py:105-125 | {P1: 5, R7: 3} against {P1: 5, R7: 5} gives rows P1 (5, 5, 0) then R7 (3, 5, +2) and total improvement 2 |
| AiClient.BraceGuard | modules/ai_client.py:72-74 | the slice test succeeds exactly when there is a `{` and a `}` somewhere after the first `{` |
| AiClient.ExtractCandidate | modules/ai_client.py:72-78 | a candidate exists exactly under that test; it starts with `{` and ends with `}` |
| AiClient.CandidateSplitsReply | modules/ai_client.py:72-75 | the reply is the text before the first `{`, then the candidate, then the text after the last `}` |
| AiClient.EmbeddedCandidate | modules/ai_client.py:72-75 | with no `{` before it and no `}` after it, an object delimited by braces is extracted exactly from any surrounding text |
| AiClient.NoOpenBraceNoCandidate | modules/ai_client.py:72-78 | text without `{` has no candidate |
| AiClient.ParseFailure | modules/ai_client.py:79-80 | the wrapped error message is the parse-failure prefix, then the inner message, and it ends with the raw reply |
| AiClient.EvaluateRequirement | modules/ai_client.py:70-80 | a failed call propagates; with no candidate the error wraps "JSON 형식을 찾을 수 없습니다"; otherwise the decoder sees the candidate unchanged, and its success is returned as is while its failure is wrapped with the raw reply |
| AiClient.NoOpenBraceFails | modules/ai_client.py:72-78 | a reply without `{` always fails |
| AiClient.EmbeddedDecode | modules/ai_client.py:75-76 | prose around a JSON object does not change the decoded result |
| Improver.Improve | modules/improver.py:16-39 | a failed call propagates its error; otherwise the record keeps original, subject, system and receiver and holds the reply as the improved text |
| Improver.ParseImprovedRequirements | modules/improver.py:41-64 | one requirement per line whose stripped form starts with 요구사항, numbered 1, 2, … in order, each with pattern "Ubiquitous" |
| Improver.ParseLines | modules/improver.py:49-62 | the line loop with its open entry keeps the finished requirements as a prefix and adds one requirement per header line, plus the open one if there is one |
| Improver.ParseLinesIsEntries | modules/improver.py:49-62 | the line loop with its open entry agrees with the declarative entry list |
| Improver.EntriesShape | modules/improver.py:51-56 | the entry count is the header count, the numbers are consecutive, and every pattern is "Ubiquitous" |
| Improver.NoHeaderNoRequirements | modules/improver.py:46-64 | text without a header line gives no requirements |
| Improver.PreambleIgnored | modules/improver.py:58 | lines before the first header contribute nothing |
| Improver.HeaderThenBody | modules/improver.py:50-59 | a header and the non-header lines up to the next header or the end make one requirement, whose text is those lines and not the header's own text |
| Improver.TwoHeaders | modules/improver.py:49-62 | non-header lines, then two headers each followed by header-free lines, give exactly two requirements, numbered 1 and 2, holding the two bodies' texts |
| Improver.BodyTextStops | modules/improver.py:50-59 | a requirement's text stops at the next header |
| Improver.BlankLineIgnored | modules/improver.py:58 | blank lines add nothing to a requirement's text |
| Improver.EntriesExample | modules/improver.py:41-64 | a preamble, a header with two body lines around a blank line, and a second header with one line give two requirements whose texts are the stripped lines, each followed by one space |
| Text.IntToStringPlain | app.py:363 | the decimal form of an integer is plain: digits without a leading zero unless the number is 0, after a minus sign exactly when it is negative |
| Text.PlainDecimalUnique | app.py:312 | a plain decimal that reads back as n is the decimal form of n, so the label contracts fix the text `f"+{delta}점"` and `f"+{change}"` produce |
| Text.PlainDigitsAreDecimal | app.py:363 | a digit string without a leading zero is the decimal form of its own value |
| Text.SplitJoin | modules/improver.py:46 | splitting at a separator inverts joining parts that do not contain it |
| Config.CountsMatchRanges | config.py:27-43 | each count is the number of ids in its named range, e.g. R37-R40 counts 4 |
| Config.LabelRoundTrip | config.py:27-43 | a range label reads back as the range it names |
| Config.LabelsNameCatalogRanges | config.py:26-44 | the labels, in order, name the catalog's ranges |
| Config.RangesTileCatalog | config.py:26-44 | the configured ranges are disjoint, in catalog order, and expand to exactly the catalog |
| Config.CountsSumToCatalog | config.py:25-44 | the counts sum to 63, the catalog length |
| Config.MaxScoreAgreement | config.py:25 | the maximum score 320 equals the evaluator's fallback and the sum of the category maxima, while 5 points × 63 rules is 315 |
| ComparisonView.ChangeLabel | app.py:363 | the label starts with "+" exactly for a positive change, and the rest is a plain decimal (no leading zero, no "-0") |
| ComparisonView.ChangeLabelRoundTrip | app.py:363 | reading the label back, after its "+" if any, gives the change, and that part is exactly the change's decimal form |
| ComparisonView.MetricDeltaLabel | app.py:312 | the delta label is "+", then a plain decimal that reads back as the delta, then "점", whatever the sign |
| ComparisonView.MetricDeltaOfFall | app.py:312 | a fall of 3 is shown as "+-3점" |
| ComparisonView.RuleName | app.py:346-357 | the name comes from the seven-entry table, and falls back to the id itself |
| ComparisonView.RuleLabel | app.py:360 | the caption starts with the id and " - ", and the rest is the rule's name |
| ComparisonView.NamedRules | app.py:346-357 | the seven named rules are catalog rules whose names differ from their ids; any other rule is captioned "id - id" |
| ComparisonView.RuleLabelInjective | app.py:360 | two catalog rules never share a caption |
| ComparisonView.DetailRows | app.py:343-364 | one table row per comparison row, in order, with its caption, both scores and the change label |
| ComparisonView.DetailRowsInCatalogOrder | app.py:343-364 | the table's rows follow catalog order and no two have the same caption |
| ComparisonView.TotalDelta | app.py:306 | the screen's delta equals the comparison's total improvement |
| ComparisonView.SortByChange | app.py:396-400 | the insertion sort standing for `sorted(..., reverse=True)` keeps the number of rows; SortByChangeSpec states its order, permutation and stability |
| ComparisonView.SortByChangeSpec | app.py:396-400 | the sort orders rows by change, largest first, and keeps every row; rows with equal changes keep their catalog order |
| ComparisonView.SortIsSorted | app.py:396-400 | the sorted rows' changes never increase |
| ComparisonView.SortPermutes | app.py:396-400 | the sorted rows are the input rows, each as often as before |
| ComparisonView.SortIsStable | app.py:396-400 | for every change value, the rows with that change keep their input order |
| ComparisonView.TopImprovements | app.py:395-404 | at most three highlights, each a comparison row with a positive change |
| ComparisonView.TopImprovementsAreLargestGains | app.py:395-404 | the highlights are the start of the sorted rows, min(3, number of gains) of them |
| ComparisonView.TopImprovementsExample | app.py:395-404 | gains 2, −2, 3, 2, 0 give the rows with 3, then the first 2, then the second 2 |
| ComparisonView.Highlights | app.py:389-404 | the total and percentage lines appear first, and only when the delta is positive; the total line carries both totals and the delta, the percentage line both percentages and their difference; the rule lines follow, one per highlight in order, each with that row's rule, original and improved scores and positive change; at most five lines |

## Left out

- The Streamlit interface and its session state are not modelled. This covers widgets, metrics, progress bars, the download button, and the fact that the highlight list is only shown once an improved result exists (app.py:374).
- Reading and storing the API key is file I/O.
- The Anthropic client calls and loading the prompt files are network and file I/O. The model call is a `Result<string, string>` parameter.
- The user-message construction in the client is truncated in the source, so there is nothing to model.
- `json.loads`, and the reading of each entry's `score`, are a decoder parameter of type `string -> Result<ScoreMap, string>`. The source reads only the catalog keys (modules/evaluator.py:58-60, 87-89). At a catalog key, an entry that is not an object, or a score that cannot be compared with 0 (a string, `null`), raises inside `evaluate` and gives the default report; a decoder models this as a failure. Two cases differ from the source:
  - Entries at other keys that are not objects, such as `"summary": "ok"`, are ignored by the source, so `{"P1": {"score": 5}, "summary": "ok"}` has total 5. A `ScoreMap` cannot hold such an entry: a decoder that matches the source drops it, and `Evaluator.UnknownKeyIgnored` shows that keys outside the catalog never change the report.
  - Scores are integers. The source also adds up float scores such as 4.5, which pass `score > 0`; these are not modelled.
- Evaluator.ProcessScores: the percentage is the exact ratio total/max×100, not Python's `round(…, 1)` of a float.
- ComparisonView.Highlights: the percentage line carries the exact percentages and their difference, not the one-decimal float text (app.py:307, 392). The lines are data, not the markdown strings.
- The per-category percentages shown on screen (app.py:298, 326) are float display values.
- The percentage metric's delta text (app.py:317) is float formatting.
- pandas table rendering, proxy settings and model/token constants are not modelled.
- Text.ParseInt: reads only an optional minus sign followed by ASCII digits, not the whitespace, underscores or other digit forms Python's `int` accepts. It is used only to read back labels the model itself writes.
