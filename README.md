# QueryMind reflection core in Dafny

QueryMind turns a natural-language question into SQL with a language model, runs the
query, and then *reflects* on the result: it looks for anomalies in the returned table,
asks the model whether the query answers the question, falls back to a static check for
question words that name no schema column, and rewrites `SUM(x)` to `SUM(ABS(x))` when
the text of some anomaly mentions `Negative`, meant for results holding negative numbers
(see "## Findings"). Three Streamlit scripts prepare the SQL text and act
on the verdict.

This project models that decision logic and proves what it promises.

- `wrappers.dfy`, module `Wrappers`: `Option` and `Result`.
- `text.dfy`, module `Text`: the Python string operations the core relies on. These are
  `str.strip`, ASCII `lower`/`upper`, `in`, `str.replace`, slicing, matching and
  substitution under `re.IGNORECASE`, `\w`, and the `repr` of strings and lists.
- `frames.dfy`, module `Frames`: a pandas result as columns (name and dtype kind) and rows
  of cells. A cell is null, a number (only its sign matters to the core), a string or a
  boolean.
- `service.dfy`, module `Service`: one completion call is a `Reply`, either the content
  or the exception's text. `json.loads` is a `parse` function returning a JSON value (a
  str, a dict or another value), a decode error, or another exception.
- `sql_text.dfy`, module `SqlText`: `clean_sql`, the `SUM(...)` rewrite, the
  `"table"` replacement of `app.py`/`Demo.py`, the `"NULL"` sentinel and the display gates.
- `reflection_engine.dfy`, module `ReflectionEngine`: `detect_output_anomalies`,
  `detect_missing_fields`, `semantic_reflection`, `generate_reflection_explanation` and
  `reflect`. The loops of the source are methods proved against the functions that
  specify them.
- `app.dfy`, `demo.dfy`, `dataset_page.dfy`, modules `App`, `Demo` and `DatasetPage`: the
  helpers of the three scripts. These are `refine_sql_with_feedback`, the ABS-stripping
  demo step, the column-name sanitisation, the word-bounded `table` substitution, and what
  happens when the first query fails.

`reflect` can raise. `df["region"]` is a DataFrame when two columns are named `region`, so
`.unique()` fails. The model's parsed verdict may not be a dict, so `.get` fails outside
any `try`. Its `refined_sql` may not be a str, so `.strip()` fails. Its `feedback` may not
be a str, so `.lower()` fails. The model returns these as `Outcome.Raised(cause)` and
proves when each can happen.

## Model

| member | source | states |
|---|---|---|
| Frames.ColumnsNamed | reflection_engine.py:38 | every position it lists is below the bound and names a column called `name` |
| Frames.ColumnsNamedComplete | reflection_engine.py:38 | every column called `name` below the bound is listed |
| Frames.ColumnsNamedIncreasing | reflection_engine.py:38 | the positions are strictly increasing, so each column is listed once |
| Frames.SeveralColumnsNamed | reflection_engine.py:38 | more than one position is listed iff two distinct columns share the name, which is when `df[name]` is a DataFrame |
| Text.TrimStart | app.py:76 | the result is a suffix of the input, starts with no whitespace, and only whitespace was removed |
| Text.TrimEnd | app.py:76 | the result is a prefix of the input, ends with no whitespace, and only whitespace was removed |
| Text.Strip | app.py:76 | the result is no longer than the input and neither starts nor ends with whitespace |
| Text.StripIsSlice | app.py:76 | `strip` returns a contiguous slice of its input |
| Text.StripTrimmed | app.py:76 | a text with no surrounding whitespace is returned unchanged |
| Text.StripIdempotent | app.py:76 | stripping twice equals stripping once |
| Text.StripSurrounded | reflection_engine.py:186 | whitespace around a trimmed word is removed, and only that |
| Text.TrimStartSpaces | app.py:76 | leading whitespace before a non-space is removed exactly |
| Text.TrimEndSpaces | app.py:76 | trailing whitespace after a non-space is removed exactly |
| Text.Lower | reflection_engine.py:52 | lower-casing keeps the length |
| Text.Upper | reflection_engine.py:171 | upper-casing keeps the length |
| Text.LowerConcat | reflection_engine.py:52 | lower-casing distributes over concatenation |
| Text.ContainsAt | reflection_engine.py:149 | a text contains every slice of itself |
| Text.ContainsHead | reflection_engine.py:149 | a text containing `p` contains `p`'s first character |
| Text.ContainsInSlice | reflection_engine.py:149 | what a slice contains, the whole text contains |
| Text.ContainsBetween | reflection_engine.py:149 | `a + p + b` contains `p` |
| Text.ReplaceAbsent | app.py:76 | `replace` of a target that does not occur returns the text unchanged |
| Text.ReplaceLength | app.py:125 | replacing by a longer text never shortens, replacing by a shorter one never lengthens, and any occurrence changes the length |
| Text.ReplaceChangesIff | app.py:125 | replacing by a text of another length changes the text iff the target occurs |
| Text.ReplaceSkipsHead | app.py:125 | a prefix that holds no first character of the target passes through `replace` unchanged |
| Text.ReplaceAtHead | app.py:125 | an occurrence at the front is replaced and the scan continues after it |
| Text.Take | reflection_engine.py:105 | `s[:n]` is the prefix of length `min(n, len(s))` |
| Text.SubIgnoreCaseSkipsHead | Demo.py:220 | a prefix none of whose characters case-folds to the pattern's first is unchanged |
| Text.SubIgnoreCaseAtHead | Demo.py:219-220 | an occurrence at the front is replaced and the scan continues after it |
| Text.MismatchInPrefix | Demo.py:219-220 | a text that does not begin with `w` (case-insensitively) does not begin with any pattern that begins with `w` |
| Text.NoMatchInFreePrefix | Demo.py:219-220 | in `p + v`, no case-insensitive `w` starts inside `p` when `p` holds none and none can run across into `v` |
| Text.SubIgnoreCaseSkips | Demo.py:219-220 | a prefix at none of whose positions the pattern begins passes through the substitution unchanged |
| Text.SubIgnoreCaseKeepsFree | Demo.py:219-220 | a prefix holding no case-insensitive occurrence of the pattern's beginning `w`, with none running across into what follows, passes unchanged |
| Text.SubIgnoreCaseKeepsFreeThen | Demo.py:219-220 | such a prefix before a piece the substitution passes passes too |
| Text.SubIgnoreCaseFree | Demo.py:219-220 | a text holding no case-insensitive occurrence of the pattern's beginning is unchanged |
| Text.EscapeAllPlain | reflection_engine.py:35 | printable characters other than quotes and backslash are not escaped by `repr` |
| Text.ReprPlain | reflection_engine.py:35 | the `repr` of such a string is the string in single quotes |
| SqlText.FenceRemovalKeepsHead | app.py:76 | removing the fences keeps a first character that is not a backtick |
| SqlText.FenceRemovalLeavesNoFence | app.py:76 | after removing every fence, no fence remains, even where removal joins backticks |
| SqlText.ContainsLonger | app.py:76 | a text containing `p + q` contains `p` |
| SqlText.StripKeepsAbsence | app.py:76 | stripping cannot create an occurrence |
| SqlText.StripLeavesNoFence | app.py:76 | a stripped fence-free text contains neither fence |
| SqlText.CleanSqlRemovesFences | app.py:75-76 | `clean_sql` leaves neither a fence nor a `sql` fence |
| SqlText.CleanSqlOnlyTrims | Demo.py:188-189 | on a text without backticks `clean_sql` only strips |
| SqlText.CleanSqlIdempotent | pages/Use_Your_Own_Dataset.py:56-57 | cleaning twice equals cleaning once |
| SqlText.ArgLength | reflection_engine.py:150 | the run `[^)]*` at the front: no `)` inside, a `)` or the end after it |
| SqlText.ArgLengthOf | reflection_engine.py:150 | the run before `)` is the whole `)`-free argument |
| SqlText.SumAbsSkips | reflection_engine.py:150 | a prefix where no call starts passes through the rewrite unchanged |
| SqlText.SumAbsNoMatchAt | reflection_engine.py:150 | without a call at the front, the first character is kept and the scan moves on |
| SqlText.SumAbsNoCall | reflection_engine.py:150 | a query with no `SUM(` + non-empty `)`-free run + `)` is returned unchanged |
| SqlText.SumAbsGrows | reflection_engine.py:150 | the rewrite never shortens the query, and lengthens it whenever there is a call |
| SqlText.SumAbsChangesIff | reflection_engine.py:150 | the rewrite changes the query iff it contains a call |
| SqlText.SumAbsKeepsFree | reflection_engine.py:150 | a prefix holding no case-insensitive `SUM(`, with none running across into what follows, is copied unchanged |
| SqlText.SumAbsFree | reflection_engine.py:150 | a query holding no case-insensitive `SUM(` is unchanged |
| SqlText.NoCallInPlainPrefix | reflection_engine.py:150 | no call starts where the next three characters hold no `(` |
| SqlText.SumAbsPlainPrefix | reflection_engine.py:150 | a `(`-free prefix followed by text whose first three characters hold no `(` passes unchanged |
| SqlText.SumKeywordHasNoParen | reflection_engine.py:150 | a case-insensitive `SUM` holds no `(` |
| SqlText.SumAbsAtCall | reflection_engine.py:150 | a call at the front, in any case, becomes `SUM(ABS(arg))` in upper case, and the scan continues after its `)` |
| SqlText.SumAbsWrapsCall | reflection_engine.py:150 | a call after a `(`-free prefix is wrapped and the rest is rewritten in turn |
| SqlText.SumAbsLoneCall | reflection_engine.py:150 | the only call between `(`-free texts is wrapped, and nothing else changes |
| SqlText.SumAbsAfterPlain | reflection_engine.py:150 | a `(`-free prefix before a `SUM` keyword passes unchanged |
| SqlText.SumAbsPlainText | reflection_engine.py:150 | a query without `(` is unchanged |
| SqlText.SumAbsEmptyCallAt | reflection_engine.py:150 | `SUM()` at the front is kept: the run inside must be non-empty |
| SqlText.SumAbsSkipsEmptyCall | reflection_engine.py:150 | `SUM()` after a `(`-free prefix is kept, and the rest is rewritten in turn |
| SqlText.RenameTableChangesIff | Demo.py:293 | the `table` → `transactions` replacement changes the query iff it contains lower-case `table` |
| SqlText.RenameTableNeedsLowercase | app.py:125 | a query without a lower-case `t`, such as one saying `TABLE`, is unchanged |
| SqlText.RenameTableInsideWord | Demo.py:293 | `table` is replaced even inside a longer word such as `mytables` |
| SqlText.NullSentinelPadded | reflection_engine.py:186 | `NULL` in any case with surrounding whitespace is the sentinel |
| SqlText.NullSentinelShape | reflection_engine.py:186 | a query is the sentinel iff, once stripped, it is exactly four characters `N`, `U`, `L`, `L`, each in either case; so a query that merely contains `NULL` among other text is not |
| SqlText.DisplayGates | Demo.py:322-344 | the changes view is shown only when the refined query would run; a sentinel is neither shown as a change nor run; an unchanged query shows no change (pages/Use_Your_Own_Dataset.py:250 and 270-272 use the same gates) |
| ReflectionEngine.NullColumnNames | reflection_engine.py:33-35 | the names listed are exactly the names of the all-null columns, and the list is empty iff no column is all null |
| ReflectionEngine.DetectOutputAnomalies | reflection_engine.py:18-43 | the appends compute `Anomalies(df)` |
| ReflectionEngine.AppendIfMembers | reflection_engine.py:24-39 | a conditional append adds its issue iff the condition holds |
| ReflectionEngine.FoundMembers | reflection_engine.py:24-39 | an issue is found iff its check fires: negative numbers, a duplicated row, all-null columns (with their names), a sparse `region` column |
| ReflectionEngine.NegativeIssueIff | reflection_engine.py:25-26 | on a non-empty result, the negative-values issue is reported iff a number column holds a negative value |
| ReflectionEngine.AnomaliesCharacterised | reflection_engine.py:21-43 | on a non-empty result, the list is non-empty, never holds the empty-result issue, holds each issue iff its check fires, and is exactly the no-anomaly sentinel iff no check fires |
| ReflectionEngine.AppendIfRanked | reflection_engine.py:24-39 | appending a later-ranked issue keeps the list ordered |
| ReflectionEngine.ChecksOrdered | reflection_engine.py:24-39 | any outcome of the four checks lists negative, duplicate, null-only and region issues in that order, each at most once |
| ReflectionEngine.FoundOrdered | reflection_engine.py:24-39 | the found issues are in that order |
| ReflectionEngine.AnomaliesOrdered | reflection_engine.py:18-43 | every list `detect_output_anomalies` returns is in that order |
| ReflectionEngine.RegionSparseIff | reflection_engine.py:38 | with at most one `region` column, the region check fires iff a column named exactly `region` has fewer than 4 distinct values |
| ReflectionEngine.RegionIssueIff | reflection_engine.py:38-39 | on a non-empty result, the region issue is reported iff a column named exactly `region` has fewer than 4 distinct values |
| ReflectionEngine.AnomaliesRaiseIff | reflection_engine.py:38 | detection raises iff the result is non-empty and two columns are named `region` |
| ReflectionEngine.DetectionRaisesOnlyRegion | reflection_engine.py:18-43 | detection can raise only the duplicated-`region` error |
| ReflectionEngine.NullNegativeColumnChecks | reflection_engine.py:24-39 | on a one-row frame whose only column, `Negative`, is null, only the null-only check fires |
| ReflectionEngine.NullColumnsMentionNegative | reflection_engine.py:35 | the null-only issue for a column named `Negative` contains the word `Negative` |
| ReflectionEngine.NegativeTriggerCounterexample | reflection_engine.py:149 | on that frame the issue text contains `Negative` although no value is negative and the negative-values issue is absent, so the trigger as written fires |
| ReflectionEngine.NegativeTriggerCorrected | reflection_engine.py:149 | the corrected trigger fires iff a number column holds a negative value, and whenever it fires the trigger as written fires too |
| ReflectionEngine.NegativeMessageMentionsNegative | reflection_engine.py:26 | the negative-values issue text contains `Negative` |
| ReflectionEngine.LineLength | reflection_engine.py:51 | the first line ends at the first line break or the end |
| ReflectionEngine.Lines | reflection_engine.py:51 | no line of `splitlines` holds a line break |
| ReflectionEngine.FirstField | reflection_engine.py:51 | `split(" ")[0]` is the prefix before the first space |
| ReflectionEngine.LineColumnsIff | reflection_engine.py:51 | a name is a schema column iff some line containing `(` has it as its first word, stripped and lower-cased |
| ReflectionEngine.LeadingRun | reflection_engine.py:54 | the token at the front is the maximal run of `[a-zA-Z_]` |
| ReflectionEngine.Tokens | reflection_engine.py:54 | every token is non-empty and made of `[a-zA-Z_]` only |
| ReflectionEngine.TokensOfWord | reflection_engine.py:54 | a word of token characters is one token |
| ReflectionEngine.LeadingRunOfWord | reflection_engine.py:54 | a run of token characters ends where a non-token character begins |
| ReflectionEngine.TokensSplit | reflection_engine.py:54 | a separator splits the token list: the tokens of `a + c + b` are those of `a` then those of `b` |
| ReflectionEngine.DetectMissingFields | reflection_engine.py:46-58 | the loop computes `MissingFields(question, schema)` |
| ReflectionEngine.MissingAmongSound | reflection_engine.py:55-57 | every reported word is in `{color, rating, brand, model, size, version}`, is no schema column, and is a word of the question |
| ReflectionEngine.MissingAmongComplete | reflection_engine.py:55-57 | every question word in that set that is no schema column is reported |
| ReflectionEngine.MissingAmongConcat | reflection_engine.py:54-57 | the report for two word lists is the two reports in order, so order and repeats are kept |
| ReflectionEngine.MissingFieldsSplit | reflection_engine.py:52-57 | the report for `q1 + c + q2`, with `c` a separator, is the report for `q1` followed by the report for `q2` |
| ReflectionEngine.SemanticFailureKeepsQuery | reflection_engine.py:109-113 | a failed service call gives a dict keeping the original query, with feedback starting `Semantic reflection failed: ` |
| ReflectionEngine.FallbackVerdictFields | reflection_engine.py:99-107 | the fallback dict has exactly the keys `feedback` and `refined_sql`, holding the given strs |
| ReflectionEngine.SemanticNonJsonClassified | reflection_engine.py:94-107 | non-JSON output mentioning `missing` or `not present` (any case) gives `NULL` with the fixed feedback; other non-JSON output keeps the query and quotes its first 120 characters |
| ReflectionEngine.FallbackVerdictsWellFormed | reflection_engine.py:86-115 | on service failure or non-JSON output the verdict is a dict whose `refined_sql` and `feedback` are strs |
| ReflectionEngine.Reflect | reflection_engine.py:144-196 | the staged reassignments compute `ReflectOutcome`: detection's error is raised as is; if the text of any issue contains `Negative` the verdict is the SUM rewrite with the fixed feedback; otherwise the semantic stage decides |
| ReflectionEngine.ApplySemanticVerdict | reflection_engine.py:166-196 | the semantic stage's reassignments compute `SemanticStage` |
| ReflectionEngine.ReflectFromKeepsIssues | reflection_engine.py:145-196 | a verdict carries the detected issues unchanged; a detection error is raised as is; after a successful detection the region error is never raised |
| ReflectionEngine.ReflectKeepsIssues | reflection_engine.py:144-196 | the verdict's issues equal `detect_output_anomalies(df)`, and `reflect` raises the region error iff detection does |
| ReflectionEngine.ReflectNegativeBranch | reflection_engine.py:148-163 | when the text of some detected issue contains `Negative`, the verdict is the SUM rewrite with the fixed feedback and the detected issues, whatever the semantic reply, parser, question or schema; the query changes iff it holds a `SUM` call |
| ReflectionEngine.SemanticStageForcesNullIff | reflection_engine.py:167-190 | with str fields, the query becomes `NULL` with the static feedback and the fixed explanation iff the model kept the query, its feedback lacks `missing`, and the static check finds words; otherwise the model's query and feedback are kept |
| ReflectionEngine.SemanticStageForced | reflection_engine.py:171-176 | when the fallback applies and words are missing, the query is `NULL`, the feedback lists the words, and the explanation is the fixed text |
| ReflectionEngine.SemanticStageNotForced | reflection_engine.py:167-171 | otherwise the model's `refined_sql` and `feedback` are returned |
| ReflectionEngine.NullSqlIsSentinel | reflection_engine.py:175-186 | the `NULL` the fallback writes is recognised as the sentinel |
| ReflectionEngine.ReflectForcesNullIff | reflection_engine.py:165-190 | the same iff, stated for `reflect` when no issue's text contains `Negative` |
| ReflectionEngine.SemanticStageExplanation | reflection_engine.py:178-190 | a sentinel query is explained by the fixed "no matching column" text, any other by the model's explanation |
| ReflectionEngine.ReflectSentinelExplanation | reflection_engine.py:185-190 | the same for `reflect` when no issue's text contains `Negative`, so that the semantic stage runs |
| ReflectionEngine.WellFormedVerdictNeverRaises | reflection_engine.py:167-176 | with a dict verdict whose fields are strs, `reflect` raises only what detection raised |
| ReflectionEngine.ReflectFallbacksNeverRaise | reflection_engine.py:86-196 | on service failure or non-JSON output, `reflect` can raise only the duplicated-`region` error |
| ReflectionEngine.ReflectEmptyResult | reflection_engine.py:21-22 | on an empty result `reflect` never raises the region error, and a verdict reports exactly the empty-result issue |
| ReflectionEngine.ReflectFromMentioned | reflection_engine.py:149-163 | once some issue's text contains `Negative`, `reflect` as written returns the negative-value fix |
| ReflectionEngine.CorrectedReflectFromUnmarked | reflection_engine.py:149-165 | without the negative-values issue the corrected `reflect` hands over to the semantic stage |
| ReflectionEngine.FailedCallFeedback | reflection_engine.py:109-113 | after a failed semantic call the semantic stage returns a verdict whose feedback is not the negative-value fix's |
| ReflectionEngine.FailureFeedbackIsNotFix | reflection_engine.py:112 | a failure's feedback differs from the negative-value fix's |
| ReflectionEngine.StaticFeedbackIsNotFix | reflection_engine.py:173-174 | the static fallback's feedback differs from the negative-value fix's |
| ReflectionEngine.ReflectTriggersPartWays | reflection_engine.py:149 | where an issue's text contains `Negative` but the negative-values issue is absent, a failed semantic call makes `reflect` as written return the fix while the corrected `reflect` returns other feedback |
| ReflectionEngine.ReflectTriggerDiffers | reflection_engine.py:149 | on the one-row frame whose only column, `Negative`, is null, `reflect` as written returns the SUM rewrite and the corrected `reflect` does not |
| ReflectionEngine.CorrectedReflectNegativeIff | reflection_engine.py:149 | on a non-empty result, the corrected `reflect` returns the fix iff a number column holds a negative value, agreeing then with `reflect` as written, and otherwise hands over to the semantic stage |
| App.ScanFromCharacterised | app.py:100-103 | the `any` over columns stops at the first column that has a repeated name (raising with that name) or is a signed-int or float column with a negative value (answering true), having passed every column before it; it answers false only after passing every column |
| App.ScanFromWithoutRepeats | app.py:100-103 | with no repeated name, the scan answers whether some signed-int or float column holds a negative value |
| App.ColumnsNamedDistinct | app.py:101 | a column whose name is unique is the only column `df[col]` selects |
| App.DistinctNamesNotRepeated | app.py:101 | with distinct names no column name is repeated |
| App.RefineCharacterised | app.py:97-108 | with distinct names: a negative value in a signed-int or float column gives the fixed feedback and the SUM rewrite; otherwise "No numeric issues detected." and the query unchanged |
| App.RefineWithoutSumCall | app.py:104-107 | with a negative value the feedback is the fixed text even when the query has no `SUM` call, and the query is then unchanged |
| App.RefineIgnoresOtherKinds | app.py:100-103 | negative values in unsigned, boolean, text or date columns do not trigger the fix |
| App.SignedNegativeIsNumberNegative | app.py:101 | the app's `kind in "if"` test fires iff the engine's number-column test fires: an unsigned column cannot hold a negative value |
| App.ReflectionGate | app.py:138-139 | `refine_sql_with_feedback` runs iff the first query returned a non-empty result |
| Demo.GenerateSqlGate | Demo.py:218-222 | the ABS-stripping runs iff the lower-cased question contains `revenue` or `total`; otherwise the cleaned SQL is returned |
| Demo.SumOpenNotAcross | reflection_engine.py:150 | no case-insensitive `SUM(` can run across into text that starts with `S` |
| Demo.AbsOpenNotAcross | Demo.py:220 | no case-insensitive `ABS(` can run across into text that starts with `SU` |
| Demo.SumAbsAtSumRevenue | reflection_engine.py:150 | a `SUM(revenue)` at the front becomes `SUM(ABS(revenue))` and the rest is rewritten in turn |
| Demo.SumAbsOfSumRevenue | reflection_engine.py:150 | a piece holding no case-insensitive `SUM(` is copied, the `SUM(revenue)` after it becomes `SUM(ABS(revenue))`, and the rest is rewritten in turn |
| Demo.StripSumAbs | Demo.py:219 | the first substitution copies a piece holding no case-insensitive `SUM(`, turns the `SUM(ABS(revenue))` after it back into `SUM(revenue)`, and goes on with the rest |
| Demo.SumRevenueHasNoA | Demo.py:220 | no character of `SUM(revenue)` case-folds to `A` |
| Demo.AbsOpenNotAcrossSum | Demo.py:220 | no `ABS(` runs across into text that starts with `SUM(revenue)`, and `ABS(revenue)` begins with `ABS(` |
| Demo.StripAbsPassesSumRevenue | Demo.py:220 | the second substitution passes a `SUM(revenue)` at the front |
| Demo.StripAbsKeepsSum | Demo.py:220 | the second substitution copies a piece holding no case-insensitive `ABS(` and the `SUM(revenue)` after it, and goes on with the rest |
| Demo.StripAbsUndoesSumAbs | Demo.py:218-220 | the demo step undoes the engine's rewrite: if `p` and `t` hold no case-insensitive `SUM(` or `ABS(`, stripping `SumAbs(p + "SUM(revenue)" + t)` gives back `p + "SUM(revenue)" + t` |
| Demo.SumAbsJoin | reflection_engine.py:150 | pieces holding no case-insensitive `SUM(` or `ABS(`, joined by `SUM(revenue)`, come back from the rewrite joined by `SUM(ABS(revenue))` |
| Demo.StripSumAbsJoin | Demo.py:219 | the first substitution turns such pieces joined by `SUM(ABS(revenue))` back into the pieces joined by `SUM(revenue)` |
| Demo.StripAbsKeepsSumJoin | Demo.py:220 | the second substitution leaves such pieces joined by `SUM(revenue)` unchanged |
| Demo.StripAbsUndoesSumAbsAll | Demo.py:218-220 | the demo step undoes the engine's rewrite for any number of `SUM(revenue)` calls between pieces holding no case-insensitive `SUM(` or `ABS(` |
| DatasetPage.NonWordRun | pages/Use_Your_Own_Dataset.py:86 | the run of non-word characters at the front is maximal |
| DatasetPage.CollapseShape | pages/Use_Your_Own_Dataset.py:86 | collapsing `\W+` to `_` leaves only word characters and never lengthens |
| DatasetPage.SanitizeColumnShape | pages/Use_Your_Own_Dataset.py:86 | a sanitised column name holds only word characters and is never longer than the original |
| DatasetPage.CollapseWordsOnly | pages/Use_Your_Own_Dataset.py:86 | a text of word characters is unchanged |
| DatasetPage.SanitizeColumnIdempotent | pages/Use_Your_Own_Dataset.py:86 | sanitising a sanitised name returns it unchanged |
| DatasetPage.CollapseRun | pages/Use_Your_Own_Dataset.py:86 | a maximal run of non-word characters becomes one `_` |
| DatasetPage.NonWordRunOf | pages/Use_Your_Own_Dataset.py:86 | the run at the front of `run + rest` is `run` |
| DatasetPage.CollapseSplitsAtWord | pages/Use_Your_Own_Dataset.py:86 | a word character splits the substitution: `a + c + b` collapses to the collapse of `a`, then `c`, then the collapse of `b` |
| DatasetPage.NonWordRunPrefix | pages/Use_Your_Own_Dataset.py:86 | a run ending inside `a` is not extended by what follows a word character |
| DatasetPage.TableLetterIsWordChar | pages/Use_Your_Own_Dataset.py:222 | any character matching a letter of `table` case-insensitively is a word character |
| DatasetPage.SubTableInsideWord | pages/Use_Your_Own_Dataset.py:222 | inside a word no `table` is replaced, since no word boundary precedes it |
| DatasetPage.SubstituteTableWord | pages/Use_Your_Own_Dataset.py:222 | a single word is replaced iff it is `table` in any case, so `tables` and `mytable` are unchanged |
| DatasetPage.TableWordAtSplit | pages/Use_Your_Own_Dataset.py:222 | whether a whole word `table` starts a text does not depend on what follows a non-word character |
| DatasetPage.SubTableSplits | pages/Use_Your_Own_Dataset.py:222 | a non-word character splits the substitution: each side is substituted separately |
| DatasetPage.FailedQueryReflectsEmpty | pages/Use_Your_Own_Dataset.py:230-236 | when the first query fails, reflection on the empty frame never raises the region error, and a verdict reports exactly the empty-result issue |

## Left out

- The Streamlit interface is not modelled: page setup, markdown, layout, expanders and `st.stop` control flow. Only the boolean gates that decide what is shown or run are kept (`SqlText.DisplayGates`, `App.ReflectionGate`).
- SQLite and pandas I/O are not modelled: creating the demo databases, `utils.py`, `PRAGMA` schema extraction, `read_csv`, `to_sql` and `read_sql_query`. A query result is a `Frames.Table` value. The schema is a string parameter.
- The language-model calls and their prompt texts are not modelled. Each call is a `Reply` parameter, and `json.loads` is a `parse` parameter. Which text the model answers is not modelled.
- The response cache, the context enricher, `set_table`, `get_cache_stats` and `clear_cache` are called by the pages, but they are not defined in the `reflection_engine.py` whose `__init__` (line 13) takes only `client` and `model`. They are not part of this model. So is the constructor call with `db_path` and `table_name` at pages/Use_Your_Own_Dataset.py:45, which does not match that `__init__`.
- `st.cache_data` memoisation belongs to the framework and is not modelled.
- Floating point is not modelled. A number cell is an integer, and only its sign is used. NaN as a missing value is the `Null` cell.
- `sample_output` (reflection_engine.py:146) is computed and passed to `semantic_reflection`, but that method never uses it. It is not modelled.
- `str.lower`, `str.upper` and `\w` are modelled on ASCII letters and digits only. Case-insensitive matching folds ASCII plus the four non-ASCII letters that Python's `re.IGNORECASE` maps onto ASCII (`İ`, `ı`, `ſ`, the Kelvin sign). Other Unicode letters are treated as non-word characters.
- `repr` escapes are modelled for ASCII and Latin-1 control characters. Other non-printable characters are kept as they are.
- The page's `re.sub(r"\btable\b", table_name, ...)` would interpret backslash escapes in `table_name`. The upload table name holds none, so the model inserts the name literally.
- `Demo.py` runs `reflect` inside the `try` at lines 297-307, so a raised error there only shows an error and stops the page. `pages/Use_Your_Own_Dataset.py` runs it outside any `try` (line 236). The model states when `reflect` raises (`ReflectionEngine.ReflectKeepsIssues`, `ReflectionEngine.WellFormedVerdictNeverRaises`), not what the page then displays.

## Findings

| source | as written | input that shows it | evidently intended | confidence | as-written member | corrected member |
|---|---|---|---|---|---|---|
| reflection_engine.py:149 | the negative-value fix fires when any issue text contains the substring `Negative` | a one-row result whose only column, named `Negative`, is NULL: the null-only issue text lists the column name, so `SUM(x)` is rewritten although no value is negative | the fix fires only when the negative-values issue was reported | not executed | ReflectionEngine.ReflectTriggerDiffers | ReflectionEngine.CorrectedReflectNegativeIff |

`ReflectionEngine.Reflect` and `ReflectionEngine.ReflectOutcome` model the trigger as
written, and every lemma about `reflect` is stated for it. `ReflectionEngine.CorrectedReflectOutcome`
is the corrected `reflect`, kept beside it.
