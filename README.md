# local-eval-bench in Dafny

A Dafny model of the decision logic in the local-eval-bench evaluation harness. The harness asks a language model to solve benchmark tasks, grades each answer and reports the results. Four task families exist:

- `md`: free-text answers.
- `lean`: formal proofs.
- `synth`: short syntheses.
- `py`: unified-diff patches to small Python refactoring units.

The model covers:

- **The free-text graders** (`Rubric`, `FreeText`).
  - Rubric extraction from a `<!-- rubric: … -->` or `/- rubric: … -/` comment block.
  - The pattern matcher.
  - The fail-closed reading of the arbiter's reply. The arbiter is an external judge.
  - The per-family format checks.
  - How heuristics and arbiter combine: the arbiter can veto a pass but never rescue a failure.
- **The patch grader** (`PatchGrader`). It covers:
  - path extraction from diff headers;
  - the path whitelist applied before any sandbox work;
  - the edit-line count;
  - the `TOTAL … NN%` coverage parser;
  - the final conjunction of tests, coverage and lint.
- **The engine** (`Engine`).
  - The prompt.
  - Dispatch by task type.
  - The attempt loop of `evaluate_task` with its pass@1, pass@k, pass rate, first-pass/first-failure timestamps and time to fix.
- **The report and task selection of `run_eval`** (`Report`).
  - The report averages.
  - Task selection in type order.
  - Resume filtering.
- **The route choice** (`Router`): which model answers code tasks.
- **The API helpers of `openai_cli`** (`OpenAiCli`).
  - Reasoning-effort normalisation.
  - The optional payload fields.
  - Text extraction from Responses, Chat and Completions replies, over a JSON value datatype.
- **The benchmark's four refactoring units**, as written:
  - `slugify` (`Slugify`);
  - `basic_stats` (`Stats`);
  - `parse_pairs` (`Pairs`);
  - the `TinyLRU` cache (`Lru`).
- **`Text`** holds the Python string operations the rest relies on: `strip`, `split`, `splitlines`, `find`, `in`, and ASCII `lower`/`upper`.

Some pieces are external. These are the model client, the arbiter's reply, regular-expression search, the sandboxed `git apply`/pytest/coverage/ruff runs, and the wall clock. Each is a function parameter: an `Env` in the engine, `ToolRuns` in the patch grader, and a `RegexSearch` in the matcher. Stateful code keeps its form:

- the `TinyLRU` class with its fields;
- the payload dict that `_maybe_set_*` extend in place;
- loops as methods with invariants, each proved equal to a reference function. The properties are then proved about that function.

## Model

| member | source | states |
|---|---|---|
| Text.StripIsSlice | harness/graders/grade_md.py:16 | `strip()` removes exactly the surrounding whitespace: the result is a contiguous slice, everything cut off is whitespace, and the result neither starts nor ends with whitespace |
| Text.StripEmptyIffBlank | harness/graders/grade_py.py:41 | a string strips to "" exactly when it is empty or all whitespace |
| Text.StripIdempotent | harness/graders/grade_md.py:16 | stripping an already stripped string changes nothing |
| Text.Find | tasks/py/r03_parser/impl.py:19-20 | the index found is the first occurrence of the substring; None exactly when it does not occur at all |
| Text.JoinSplit | tasks/py/r03_parser/impl.py:14 | joining the pieces of `split(sep)` with `sep` gives back the original string |
| Text.SplitPiecesLackSep | tasks/py/r03_parser/impl.py:14 | no piece of `split(sep)` contains `sep` |
| Text.LinesHaveNoBreaks | harness/graders/grade_md.py:15 | no line produced by `splitlines()` contains a line-break character |
| Rubric.BlockLacksCloser | harness/graders/grade_md.py:9 | the lazy `(.*?)` group of the rubric regex never contains the closing delimiter |
| Rubric.NoCloserNoBlock | harness/graders/grade_md.py:9-11 | a text without the closing delimiter has no rubric block |
| Rubric.NoOpenerNoBlock | harness/graders/grade_md.py:9-11 | a text without the opening delimiter has no rubric block |
| Rubric.AbsentBlockEmptyRubric | harness/graders/grade_lean.py:11-13 | a text where no opener is followed by a closer (md or lean delimiters) has empty `must` and `should` lists |
| Rubric.NoClosedHeaderNoBlock | harness/graders/grade_md.py:9-11 | the rubric regex finds no block from a position exactly when no later opener is followed by a closer |
| Rubric.ParseRubric | harness/graders/grade_md.py:8-23 | the line loop of `_parse_rubric` builds exactly the reference rubric of the block's lines |
| Rubric.RubricOfLinesAppend | harness/graders/grade_md.py:15-22 | source order is kept: the rubric of two runs of lines is the concatenation of their `must` lists and of their `should` lists |
| Rubric.PatternFromLines | harness/graders/grade_lean.py:17-24 | `p` is a `must` (`should`) pattern exactly when some line, trimmed and matched case-insensitively, is `must:` (`should:`) followed by `p` after trimming |
| Rubric.PlainMatchIgnoresCase | harness/graders/grade_md.py:33 | a plain pattern matches regardless of the letter case of the answer and of the pattern |
| Rubric.CapitalReMarkerIsPlain | harness/graders/grade_md.py:27 | the `re:` marker is case-sensitive: `RE:`, `Re:` and `rE:` patterns are plain case-insensitive substrings |
| FreeText.FailClosed | harness/graders/grade_md.py:45-50 | a reply with both PASS and FAIL, a reply without PASS, or a blank reply is not a pass |
| FreeText.LowerCasePassExample | harness/graders/grade_md.py:45-47 | the reply " pass\n" is read as a pass (trimmed and upper-cased first) |
| FreeText.BothWordsExample | harness/graders/grade_md.py:45-50 | the reply "PASS or FAIL" is read as a fail |
| FreeText.MissingSpec | harness/graders/grade_md.py:61 | `missing` holds exactly the required patterns that do not match, as an order-preserving sublist of `must` |
| FreeText.NothingMissingIffAllMatch | harness/graders/grade_md.py:61-65 | nothing is missing exactly when every required pattern matches |
| FreeText.ShouldHitsBounded | harness/graders/grade_md.py:62 | `should_hits` is at most the number of optional patterns, and equals it exactly when all of them match |
| FreeText.WordsSpec | harness/graders/grade_synth.py:10-11 | every word token is a non-empty run of `[A-Za-z0-9']`, and the tokens together are exactly the word characters of the text, in order |
| FreeText.WordCountIsRunStarts | harness/graders/grade_synth.py:10-11 | the word count is the number of maximal runs of `[A-Za-z0-9']`: the positions holding a word character not preceded by one |
| FreeText.NonBlank | harness/graders/grade_synth.py:26 | the paragraphs kept are non-blank and no more than the pieces |
| FreeText.NonBlankSpec | harness/graders/grade_synth.py:26 | the paragraphs are an ordered sublist of the pieces holding every non-blank piece as often as it occurs, and no blank one |
| FreeText.ThreeParagraphsFail | harness/graders/grade_synth.py:26-30 | an answer with three non-blank `"\n\n"` pieces has at least three paragraphs, so it fails the synthesis grader whatever its word count |
| FreeText.BlankAnswerHasNoParagraph | harness/graders/grade_synth.py:26-27 | a blank answer has no paragraph, so whenever the synthesis grader returns a grade it is a fail |
| FreeText.ArbiterOnlyVetoes | harness/graders/grade_md.py:65-74 | grading raises exactly when the arbiter call raises, with that exception; without a configured arbiter the grade is the heuristic verdict; with one, a pass needs both the heuristics and the arbiter's PASS; a pass implies every required pattern matched |
| FreeText.GradeMdSpec | harness/graders/grade_md.py:53-82 | the md grader raises exactly when the arbiter raises; otherwise an answer passes exactly when every required pattern matches, the trimmed answer has at least 60 characters and no arbiter vetoes; `missing` and `should_hits` as above |
| FreeText.GradeLeanSpec | harness/graders/grade_lean.py:28-52 | the lean grader raises exactly when the arbiter raises; otherwise an answer passes exactly when every required pattern matches, the trimmed answer has at least 80 characters, it contains no "```" and no arbiter vetoes |
| FreeText.GradeSynthSpec | harness/graders/grade_synth.py:14-49 | the synthesis grader raises exactly when the arbiter raises; otherwise a synthesis passes exactly when every required pattern of its `<!-- rubric: -->` block matches, it has 40 to 220 words and 1 or 2 paragraphs, and no arbiter vetoes |
| FreeText.MissingProofSketchExample | tests/test_graders.py:28-46 | the test's task text, with the rubric lines `must: Verdict:` and `must: Proof sketch:`, grades the answer "Verdict: true." as a fail with exactly "Proof sketch:" missing, whatever the arbiter says, and without an arbiter it is graded |
| FreeText.MissingMustRubric | tests/test_graders.py:30-39 | the rubric parsed from that task text is `must` = ["Verdict:", "Proof sketch:"] and no `should` |
| FreeText.GradeMdMissing | harness/graders/grade_md.py:61-66 | without an arbiter the md grader returns a grade; a grade lists exactly the unmatched required patterns, and fails when any is listed |
| PatchGrader.ExtractPatchPaths | harness/graders/grade_py.py:27-37 | the line loop collects exactly the reference list of header paths |
| PatchGrader.PathsOfLinesAppend | harness/graders/grade_py.py:29-36 | paths keep the order of their lines: the paths of two runs of lines are concatenated |
| PatchGrader.PathsFromHeaders | harness/graders/grade_py.py:30 | every path comes from a header line, at most one per line |
| PatchGrader.HeaderWithTimestamp | harness/graders/grade_py.py:31-35 | `+++ b/<path>\t<stamp>` yields `<path>`: cut at the first tab, one `b/` removed |
| PatchGrader.HeaderWithoutTimestamp | harness/graders/grade_py.py:31-35 | `--- a/<path>` yields `<path>` with the `a/` removed |
| PatchGrader.DevNullSkipped | harness/graders/grade_py.py:31-33 | a header naming `/dev/null`, with or without a timestamp, contributes no path |
| PatchGrader.PathOfPrefixedBody | harness/graders/grade_py.py:34-35 | exactly one leading `a/` or `b/` is removed |
| PatchGrader.ComponentsOfChild | harness/graders/grade_py.py:51 | the parts of `dir/file` are the parts of `dir` followed by `file` |
| PatchGrader.NameOfChild | harness/graders/grade_py.py:51-53 | the name of `dir/file` is `file`, and it contains `..` as a part exactly when `dir` does |
| PatchGrader.PatchIsSafe | harness/graders/grade_py.py:40-56 | the loop with early returns computes exactly the reference safety verdict |
| PatchGrader.FirstViolationSpec | harness/graders/grade_py.py:48-54 | the reason reported is that of the first offending path; none exactly when every path passes all three checks |
| PatchGrader.SafeIff | harness/graders/grade_py.py:40-56 | a patch is safe exactly when it is not blank, yields at least one path, and every path is relative, has no `..` part and is named `impl.py` or `tests.py` |
| PatchGrader.UnsafeReason | harness/graders/grade_py.py:41-54 | an unsafe verdict is "empty patch", or "no file paths found in patch", or the message of the first offending path |
| PatchGrader.AllowedPathExamples | harness/graders/grade_py.py:10 | `impl.py` and `src/tests.py` pass every check |
| PatchGrader.AbsolutePathRefused | harness/graders/grade_py.py:49-50 | `/etc/passwd` is refused as an absolute path |
| PatchGrader.ParentPathRefused | harness/graders/grade_py.py:51-52 | `../impl.py` is refused as a parent path |
| PatchGrader.DisallowedFileRefused | harness/graders/grade_py.py:53-54 | `setup.py` is refused as a disallowed file |
| PatchGrader.CountEditLines | harness/graders/grade_py.py:101-109 | the counting loop yields the reference counts of added and removed lines |
| PatchGrader.EditLineKinds | harness/graders/grade_py.py:104-109 | no line counts as both added and removed, and header lines count as neither |
| PatchGrader.EditLinesBounded | harness/graders/grade_py.py:101-109 | added plus removed lines never exceed the patch's line count |
| PatchGrader.CoverageFrom | harness/graders/grade_py.py:79 | the coverage found is that of the leftmost `TOTAL\s+\d+\s+\d+\s+(\d+)%` match; None when no position matches |
| PatchGrader.DigitsValueOfDecimal | harness/graders/grade_py.py:82 | a number written in decimal reads back as itself |
| PatchGrader.TotalLineMatches | harness/graders/grade_py.py:79 | a `TOTAL` line with any non-empty whitespace runs between its three numbers matches at its start and yields its percentage |
| PatchGrader.CoverageOfTotalLine | harness/graders/grade_py.py:78-82 | a report whose `TOTAL` line (any whitespace widths) holds the first `T` yields that line's percentage |
| PatchGrader.NoTotalNoCoverage | harness/graders/grade_py.py:80-81 | a report without `TOTAL` yields no coverage |
| PatchGrader.Evaluate | harness/graders/grade_py.py:85-169 | the grading body computes exactly the reference grade from the patch and the tool runs |
| PatchGrader.PassedIff | harness/graders/grade_py.py:143-154 | a patch passes exactly when it is safe, it applied, tests exit 0, coverage is found and at least the minimum, and ruff exits 0; all three tool checks are reported |
| PatchGrader.UnsafeIgnoresTools | harness/graders/grade_py.py:93-99 | an unsafe patch is rejected with its reason, neither passed nor applied, whatever the tool runs would give |
| PatchGrader.ApplyFailureKeepsEditCount | harness/graders/grade_py.py:117-124 | a safe patch that fails to apply is not passed and still reports its edit-line count |
| Engine.PromptOfTask | harness/core.py:40-63 | a free-text prompt is the raw task text; a code prompt is the fixed instructions, then `impl.py` and `tests.py` each in its own fenced block |
| Engine.DispatchByType | harness/core.py:95-107 | "py" goes to the patch grader and never raises; "md", "lean" and any other type go to the md, lean and synthesis graders, and grading raises exactly when that arbiter call raises, with its exception |
| Engine.AttemptLoop | harness/core.py:76-148 | the attempt loop with its updates of `pass_count` and both first times, followed by the metrics, computes exactly the reference evaluation |
| Engine.EvaluateTask | harness/core.py:66-148 | `evaluate_task` equals the reference evaluation of the engine's own attempts |
| Engine.RunPersists | harness/core.py:90-92 | once an attempt lets an exception propagate, no later attempt changes the outcome |
| Engine.FirstWith | harness/core.py:112-115 | the index found is the first attempt with the given pass flag |
| Engine.CountPassedBounds | harness/core.py:110-111 | the pass count is at most the number of attempts, and positive exactly when some attempt passed |
| Engine.RecordFirstTime | harness/core.py:112-115 | a first pass or failure time is set only at its first occurrence and never reset |
| Engine.RecordsOnlyGrow | harness/core.py:125 | the records of the first m attempts are a prefix of those of the first n |
| Engine.RunPropagation | harness/core.py:86-92 | the loop propagates exactly when some attempt raised, and then it carries the exception of the first raising attempt |
| Engine.AttemptsNumbered | harness/core.py:82 | a returning evaluation holds exactly `max_tries` records, numbered 1 to `max_tries` in order |
| Engine.PassMetrics | harness/core.py:128-130 | pass@1 is attempt 1's flag (false with no attempts), pass@k is "some attempt passed", `pass_rate` is passes / `max_tries` (0 when `max_tries` is 0) and lies in [0, 1] |
| Engine.TimeToFix | harness/core.py:131-135 | time to fix is 0 after a first-attempt pass, otherwise the end of the first passing attempt minus the end of attempt 1, or None |
| Engine.FirstPassTime | harness/core.py:112-113 | the first-pass time is the clock reading at the end of the first passing attempt |
| Engine.FirstFailureTime | harness/core.py:114-115 | when attempt 1 fails, the first-failure time is its end |
| Engine.TimeToFixNonNegative | harness/core.py:131-135 | with a non-decreasing clock the time to fix is never negative |
| Engine.MixedAttemptsExample | harness/core.py:128-135 | the pass pattern F, F, P, F, P gives pass@1 false, pass@k true, rate 0.4 and time to fix t3 − t1 |
| Engine.AttemptOutcome | harness/core.py:83-107 | an attempt propagates exactly when generation raised with `continue_on_error` off, or a free-text grader's arbiter raised, with that exception; otherwise it is numbered, timed by its two clock readings, and records the answer's length and the model error |
| Engine.AttemptGrade | harness/core.py:95-110 | a recorded attempt's details are its answer's grade for the task type, and its pass flag is that grade's verdict |
| Engine.PropagationIff | harness/core.py:86-107 | `evaluate_task` propagates exactly when some attempt raises, in generation (with `continue_on_error` off) or in the arbiter, and then with the first such exception |
| Engine.OnlyGenerationRaises | harness/core.py:86-107 | for a py task, or with no arbiter configured, an attempt raises exactly when generation raised and `continue_on_error` is off |
| Engine.ErrorsRecorded | harness/core.py:90-107 | with `continue_on_error` and no raising arbiter, every attempt is recorded, and a failed generation as `"<type>: <message>"`, with 0 output characters and the grade of the empty answer |
| Report.SumBetween | harness/run_eval.py:35 | a sum of values in [lo, hi] lies between n·lo and n·hi |
| Report.MeanBetween | harness/run_eval.py:35 | the mean exists exactly for a non-empty list and lies within the values' bounds |
| Report.FilteredMembers | harness/run_eval.py:25 | the records kept are exactly those of the requested type (all of them for None) |
| Report.FilteredAppend | harness/run_eval.py:25 | filtering keeps the records' order |
| Report.PassRate | harness/run_eval.py:20-35 | the loop of `_pass_rate` computes exactly the reference rate |
| Report.NoNumericValues | harness/run_eval.py:28-32 | no value is collected exactly when no record holds an int, float or bool under the key |
| Report.PassRateNone | harness/run_eval.py:25-35 | the rate is None exactly when no record of the type holds a numeric value under the key |
| Report.FlagValues | harness/run_eval.py:31-32 | over boolean fields, the values collected are one per record and sum to the number of true flags |
| Report.PassRateOfFlags | harness/run_eval.py:25-35 | over boolean fields the rate is the share of records whose flag is true, in [0, 1], or None for no records |
| Report.RunPassRates | harness/run_eval.py:78-88 | over this run's results, pass@1 and pass@k rates are the shares of tasks with the flag set |
| Report.FixTimesMembers | harness/run_eval.py:39 | the times averaged are exactly the recorded times that are neither None nor 0.0 |
| Report.AvgTimeToFixBounds | harness/run_eval.py:38-42 | the average time to fix is None exactly when every time is None or 0.0, and otherwise lies within the times' bounds |
| Report.AvgPyCoverage | harness/run_eval.py:45-59 | the loop of `_avg_py_coverage` computes exactly the mean of the reference coverage list |
| Report.PyCoveragesMembers | harness/run_eval.py:47-56 | the coverages averaged are exactly the last attempt's coverage of each "py" record that has attempts and a coverage |
| Report.AvgPyCoverageBounds | harness/run_eval.py:57-59 | the average coverage is None exactly when no record contributes one, and otherwise lies within their bounds |
| Report.TaskTypesStripped | harness/run_eval.py:243 | the requested types are exactly the non-empty stripped comma-separated pieces |
| Report.GatheredOrder | harness/run_eval.py:245-249 | the run covers the requested md, py, synth and lean tasks, in that order |
| Report.GatheredMembers | harness/run_eval.py:246-249 | a task is selected exactly when it is listed under one of the four types that was requested |
| Report.SelectTasks | harness/run_eval.py:243-251 | the selection loop gathers exactly the reference list, and raises `SystemExit` with the requested types when it is empty |
| Report.PendingMembers | harness/run_eval.py:279-293 | on resume, exactly the selected tasks whose ids have no loaded record are run |
| Report.PendingAppend | harness/run_eval.py:293 | resume filtering keeps the tasks' order |
| Router.Decide | harness/router.py:76-99 | `logic_model` is always `model`, `code_model` is either `codegen` or `model`, and the four samples are reported |
| Router.ChooseRoute | harness/router.py:26-99 | every returned route has `model` as logic model, and `codegen` or `model` as code model |
| Router.MissingSamples | harness/router.py:26-31 | without a py task or without an md task both roles go to `model` with reason "missing sample tasks" and nothing is evaluated |
| Router.OnlyFirstSampled | harness/router.py:33-34 | only the first py task and the first md task influence the route |
| Router.RoutePropagation | harness/router.py:39-74 | the route propagates exactly when one of the four sample runs raises, and then with the first one's exception |
| Router.CodegenChosenIff | harness/router.py:76-99 | code tasks go to `codegen` exactly when codegen beats `model` on the py sample's pass@1 and loses on the md sample's; otherwise both roles go to `model` with the default reason |
| OpenAiCli.EffortNoneIffBlank | scripts/openai_cli.py:23-28 | an effort normalises to None exactly when it is empty or whitespace only |
| OpenAiCli.XhighIffAlias | scripts/openai_cli.py:29-30 | the result is "xhigh" exactly when the trimmed lower-case effort is xhigh, x-high, extra-high, max or maximum |
| OpenAiCli.EffortShape | scripts/openai_cli.py:26-33 | a normalised effort is non-empty, trimmed and lower-case |
| OpenAiCli.EffortIdempotent | scripts/openai_cli.py:26-33 | normalising a normalised effort leaves it unchanged |
| OpenAiCli.Payload.constructor | scripts/openai_cli.py:223-226 | the payload starts as the model and the input |
| OpenAiCli.Payload.MaybeSetTemperature | scripts/openai_cli.py:18-20 | `temperature` is added only when positive; otherwise the payload is unchanged |
| OpenAiCli.Payload.MaybeSetReasoning | scripts/openai_cli.py:36-38 | `reasoning: {effort}` is added only for a non-empty effort; otherwise the payload is unchanged |
| OpenAiCli.NormalizedEffortSent | scripts/openai_cli.py:36-38 | a normalised effort is never empty, so it is always sent |
| OpenAiCli.GatherErrorPersists | scripts/openai_cli.py:82-106 | once an entry raises, the later entries do not change the outcome |
| OpenAiCli.GatherAppend | scripts/openai_cli.py:82-106 | texts are collected in document order: those of two runs of entries are concatenated |
| OpenAiCli.GatherOkIff | scripts/openai_cli.py:82-106 | collection succeeds exactly when no entry raises |
| OpenAiCli.ExtractFromResponses | scripts/openai_cli.py:74-110 | the nested loops compute exactly the reference extraction |
| OpenAiCli.ItemTexts | scripts/openai_cli.py:83-106 | one output item's texts equal the reference, and reading an item never raises an API error |
| OpenAiCli.GatherTextItems | scripts/openai_cli.py:85-89 | a list of `text` items yields its texts in order |
| OpenAiCli.ResponsesRoundTrip | scripts/openai_cli.py:79-110 | a reply whose output items carry texts t1…tn extracts to their concatenation ("" for none) |
| OpenAiCli.ResponsesOutputTextFirst | scripts/openai_cli.py:75-77 | a non-blank string `output_text` is returned verbatim |
| OpenAiCli.ChatOutcome | scripts/openai_cli.py:113-126 | chat extraction raises `APIError(0, …)` exactly for a reply without a non-empty `choices` list whose first entry is a dict with a dict `message`; otherwise it returns the string content, or "" for non-string content |
| OpenAiCli.ChatRoundTrip | scripts/openai_cli.py:117-126 | the content of the first choice's message is returned |
| OpenAiCli.CompletionsOutcome | scripts/openai_cli.py:129-139 | completions extraction raises `APIError(0, …)` exactly for a reply without a non-empty `choices` list whose first entry is a dict; otherwise it returns the string `text`, or "" |
| OpenAiCli.CompletionsRoundTrip | scripts/openai_cli.py:133-139 | the text of the first choice is returned |
| Text.LastIndexOf | tasks/py/r01_slugify/impl.py:27-28 | the index found is the last occurrence of the character (`-` for `rsplit`, `/` for path parts); None exactly when there is none |
| Slugify.SquashDashes | tasks/py/r01_slugify/impl.py:19 | squashing runs of `-` leaves no `--` and only slug characters |
| Slugify.TrimDashesSlice | tasks/py/r01_slugify/impl.py:19 | `strip("-")` yields a slice that neither starts nor ends with `-` |
| Slugify.SlugIsClean | tasks/py/r01_slugify/impl.py:16-19 | the untruncated slug holds only a–z, 0–9 and `-`, with no leading or trailing `-` and no `--` |
| Slugify.Truncation | tasks/py/r01_slugify/impl.py:21-29 | with no positive `max_len`, or a short enough slug, the slug is returned; otherwise a clean prefix of at most `max_len` characters, cut before the last `-` of the first `max_len` characters if there is one |
| Slugify.SlugifyIsClean | tasks/py/r01_slugify/impl.py:12-29 | every result is a clean slug, and None gives "" |
| Slugify.SquashSingleDashes | tasks/py/r01_slugify/impl.py:19 | squashing a string without `--` changes nothing |
| Slugify.KeepAllSlugChars | tasks/py/r01_slugify/impl.py:18 | dropping non-slug characters from a string of slug characters changes nothing |
| Slugify.SlugOfClean | tasks/py/r01_slugify/impl.py:16-19 | the slug of a clean slug is itself |
| Slugify.SlugifyIdempotent | tasks/py/r01_slugify/impl.py:16-29 | for a fixed `max_len`, slugifying a result again returns it unchanged |
| Slugify.EdgeDashesExample | tasks/py/r01_slugify/tests.py:8-9 | "---A---" slugifies to "a" |
| Stats.Insert | tasks/py/r02_stats/impl.py:35 | inserting into a sorted list keeps it sorted and adds exactly the one element |
| Stats.Sort | tasks/py/r02_stats/impl.py:35 | the sorted copy is sorted and a permutation of the input |
| Stats.MaxCountOver | tasks/py/r02_stats/impl.py:48 | the maximum count bounds every value's count and is attained |
| Stats.Distinct | tasks/py/r02_stats/impl.py:47 | the distinct values of sorted data are exactly its values, strictly ascending |
| Stats.WithCount | tasks/py/r02_stats/impl.py:52 | exactly the distinct values with the given count, strictly ascending |
| Stats.BasicStats | tasks/py/r02_stats/impl.py:13-61 | `basic_stats` of the caller's list (None for null) equals the reference statistics, and the list is not modified |
| Stats.Describe | tasks/py/r02_stats/impl.py:36-61 | the statistics computed from the sorted copy equal the reference statistics of sorted data |
| Stats.Total | tasks/py/r02_stats/impl.py:36-38 | the accumulation loop yields the sum |
| Stats.EmptyStats | tasks/py/r02_stats/impl.py:14-33 | None or an empty list gives count 0 and None for every other field |
| Stats.CountMinMax | tasks/py/r02_stats/impl.py:54-57 | the count is the number of values, and min and max are values of the input that bound all of them |
| Stats.MedianBetween | tasks/py/r02_stats/impl.py:41-45 | min ≤ median ≤ max |
| Stats.MeanBetween | tasks/py/r02_stats/impl.py:36-39 | the mean is the sum divided by the count, and lies between min and max |
| Stats.ModeMeaning | tasks/py/r02_stats/impl.py:47-52 | the mode is [] exactly when all values are distinct; otherwise it holds exactly the values with the maximal count, in ascending order |
| Stats.SortedUnique | tasks/py/r02_stats/impl.py:35 | two sorted permutations of the same values are equal, so the statistics do not depend on how the sort is done |
| Stats.ExampleStats | tasks/py/r02_stats/tests.py:4-9 | [3, 1, 2, 2] gives count 4, min 1, max 3 and median 2 |
| Stats.SortedFields | tasks/py/r02_stats/impl.py:54-59 | count, min, max and median are read off the sorted data |
| Pairs.ParsePairs | tasks/py/r03_parser/impl.py:9-27 | `parse_pairs` equals the reference dict built from the chunks |
| Pairs.Fill | tasks/py/r03_parser/impl.py:15-26 | the loop over chunks builds exactly the reference dict |
| Pairs.NoneIsEmpty | tasks/py/r03_parser/impl.py:11-12 | None gives {} |
| Pairs.BlankChunkIgnored | tasks/py/r03_parser/impl.py:16-18 | a blank chunk contributes nothing |
| Pairs.SplitsAtFirst | tasks/py/r03_parser/impl.py:19-26 | a chunk splits at the first `kv`: the key is trimmed and holds no `kv`, the value is trimmed and may hold more `kv`; an empty key contributes nothing |
| Pairs.WholeChunkKey | tasks/py/r03_parser/impl.py:21-22 | a chunk without `kv` is a key with value "" |
| Pairs.ContributionTrimmed | tasks/py/r03_parser/impl.py:23-26 | every pair kept has a non-empty trimmed key without `kv` and a trimmed value |
| Pairs.KeysOfChunks | tasks/py/r03_parser/impl.py:25-26 | the keys of the dict are exactly the keys of the pairs of the chunks |
| Pairs.LastOccurrenceWins | tasks/py/r03_parser/impl.py:26 | a key's value is that of its last occurrence |
| Pairs.BasicExample | tasks/py/r03_parser/tests.py:4-5 | "a=1; b=two; c=" gives {a: 1, b: two, c: ""} |
| Pairs.EmptyChunksExample | tasks/py/r03_parser/tests.py:8-9 | " ; x=1;; " gives {x: 1} |
| Lru.RemoveFirst | tasks/py/r04_cache/impl.py:20 | `list.remove` takes one occurrence out of the list, and only when there is one |
| Lru.RemoveFirstSplits | tasks/py/r04_cache/impl.py:20 | the occurrence removed is the first one, and the elements before and after it keep their order |
| Lru.TinyLRU.constructor | tasks/py/r04_cache/impl.py:12-15 | a new cache holds the given `maxsize` and is empty |
| Lru.TinyLRU.Get | tasks/py/r04_cache/impl.py:17-23 | `get` returns the reference lookup and leaves the reference state |
| Lru.TinyLRU.Set | tasks/py/r04_cache/impl.py:25-39 | `set`, with its eviction loop, leaves the reference state |
| Lru.TinyLRU.Len | tasks/py/r04_cache/impl.py:41-42 | `len` is the number of stored keys |
| Lru.EmptyValid | tasks/py/r04_cache/impl.py:14-15 | an empty cache satisfies the invariant: the order has no duplicates and holds exactly the stored keys |
| Lru.LenIsOrderLength | tasks/py/r04_cache/impl.py:14-15 | under the invariant, the number of stored keys is the length of the order |
| Lru.RemoveFirstMembers | tasks/py/r04_cache/impl.py:20 | removing a key from a duplicate-free order leaves it duplicate-free and without that key, and keeps every other key |
| Lru.TouchValid | tasks/py/r04_cache/impl.py:19-21 | moving a stored key to the most-recent end keeps the invariant and the order's length |
| Lru.GetHit | tasks/py/r04_cache/impl.py:18-22 | a hit returns the stored value, keeps the invariant and the data, and moves the key to the most-recent end |
| Lru.GetMiss | tasks/py/r04_cache/impl.py:23 | a miss returns the default and changes nothing |
| Lru.SetExisting | tasks/py/r04_cache/impl.py:26-31 | setting a stored key updates its value and moves it to the end, without eviction or change of size |
| Lru.EvictKeepsNewest | tasks/py/r04_cache/impl.py:36-39 | eviction drops exactly the oldest keys beyond the bound and keeps the values of the others |
| Lru.SetNewBounded | tasks/py/r04_cache/impl.py:33-39 | with a positive `maxsize`, setting a new key appends it and then evicts from the front, leaving min(size + 1, `maxsize`) keys including the new one |
| Lru.SetNewUnbounded | tasks/py/r04_cache/impl.py:35 | with `maxsize` None or ≤ 0 nothing is ever evicted |
| Lru.SetKeepsValid | tasks/py/r04_cache/impl.py:25-39 | every `set` keeps the invariant and leaves the key stored, with its value, as the most recent |
| Lru.ExampleSetGet | tasks/py/r04_cache/tests.py:4-9 | with `maxsize` 2, after setting a and b, get a gives 1 and get b gives 2 |
| Lru.ExampleEviction | tasks/py/r04_cache/tests.py:12-18 | with `maxsize` 2, after setting a, b and c, get a gives None and len is 2 |

## Left out

- Filesystem, subprocess and network work is taken as inputs: the task file reads, `list_tasks`, the patch grader's temporary workspace, `git apply`/pytest/coverage/ruff runs, `_request_json`, `_parse_error_message` and the CLI's `main`. Apply success, exit codes and the coverage report text are `ToolRuns`; model and arbiter answers are functions.
- Regular-expression semantics: the `re:` and `/…/` branches of `_match_pattern` call an uninterpreted `RegexSearch`. An invalid pattern raises `re.error` in the source, which is not modelled.
- Unicode: `lower()`/`upper()` act on ASCII letters only, and `\d` in the coverage `TOTAL` regex matches the ASCII digits 0-9 only, where Python's matches any Unicode decimal digit. Whitespace is Python's `str.isspace` set written out.
- Floating point: rates, means, medians, coverage and timestamps are reals. The coverage percentage is a natural number converted to a real where it is compared.
- The clock: `time.time()` is a supplied function, where the i-th reading is `clock(i)`. A lemma requires a non-decreasing clock only where it says so.
- Report writing in `run_eval` (`_write_summary`, `_write_metrics`, printing, argument parsing), the per-task model choice and loop of `main`, and JSON loading. Loaded records are taken as well-formed result dicts.
- `harness/models.py`, `scripts/plot_known_results.py` and `harness/graders/__init__.py` are not part of this model. The arbiter's `generate` is a supplied function whose reply is either a text or a raised exception (type name and message), which the free-text graders and `evaluate_task` let propagate.
- Router.ChooseRoute: the four `evaluate_task` calls are a supplied function of task and model name. The arbiter and client set-up are not modelled.
- Stats.BasicStats does not sort in place: the copy is sorted by the insertion-sort function `Sort`, and `Counter` is replaced by counting over the sorted list. Stats.SortedUnique shows that any sort gives the same statistics.
- Lru.TinyLRU: the default `maxsize=4` is not modelled, since the constructor always takes `maxsize` as an argument. Keys and values are generic; in the examples a value is `Option<int>`, where None stands for Python's None.
- Pairs.ParsePairs requires non-empty `sep` and `kv`, so it does not cover inputs Python accepts with an empty separator: `parse_pairs(None, "", "")` returns `{}` (tasks/py/r03_parser/impl.py:11-12), and a line whose chunks are all blank never reaches the `kv` test (impl.py:17-18). An empty `sep` with a non-None line, and an empty `kv` on a non-blank chunk, raise `ValueError` in Python.
- Slugify.Slugify: the default `max_len=50` (tasks/py/r01_slugify/impl.py:12) is not modelled, since `maxLen` is always an argument. The `str(text)` conversion of a non-string object is not modelled either: `text` is already a string, or None.
- Slugify: the "Hello, World!" example (tasks/py/r01_slugify/tests.py:5) is not proved; "---A---" is.
- The lean rubric test with the `np_witness` answer (tests/test_graders.py:49-69) has no concrete lemma of its own. FreeText.GradeLeanSpec states the rule that test exercises.
- Some loop bodies are separate methods, each proved against the same reference function: OpenAiCli.ItemTexts, Pairs.Fill, Stats.Describe and Stats.Total.
- OpenAiCli: list or dict `type` fields make the set-membership test raise `TypeError`, which is modelled as a result. JSON numbers are reals.
- Engine.ErrorsRecorded assumes that no free-text arbiter raises on the attempts' answers. When one does, `evaluate_task` propagates that exception even with `continue_on_error`, as Engine.PropagationIff states.
