# math-mind-grader: the step-by-step grading core in Dafny

This project models the deterministic core of the math-mind-grader repository and proves properties of it.

**The two graders.** Both compare an ordered list of student steps with an ordered rubric of gold steps. Each gold step carries points and a `required` flag.

- **`MathGrader`** (module `MathGrader`) is used by the web API and the simple app.
  - For each student step it picks the best-scoring gold step that has not been used yet.
  - It marks the step Correct, Partially correct or Incorrect.
  - It halves the points when an earlier required gold step is unmatched.
- **The rubric engine** does the same job with its own rules. It is split over three modules:
  - `MatchingEngine`: the match cascade and `find_best_match`;
  - `ScoringEngine`: `grade_submission` and the summary;
  - `GradingStep`: the step records and their dictionaries.

**The text helpers around the graders**, one module each:

- `FeedbackGenerator`: the feedback report and the summary table.
- `GoldSolutionManager`: file names, the saved record and the listing order.
- `StepParser`: splitting a submission into steps.
- `LatexConverter`: the `\frac` rewriter, `convert` and `is_latex`.
- `OcrPipeline`: the text segmentation of the OCR pipeline.
- `App`: the rubric and student-step parsers of the simple app.
- `Utils`: `clean_text`, `create_output_filename` and `format_results`.
- `MathDetect`: `detect_math_content`.

**Shared modules.**

- `Wrappers`: `Option` and `Result`.
- `Text`: Python's `str` operations on `seq<char>`. These are `strip`, `split`, `splitlines`, `lower`, `join` and `replace`, plus whitespace collapsing.
- `Sums`: sums of reals.
- `Patterns`: the fixed regular expressions, written as deterministic matchers, plus a leftmost-match scanner.

**Parameters for foreign code.** The model takes everything foreign as a parameter, so nothing outside it is assumed. The result type of each parameter is the set of values the real routine can return. The parameters are:

- SymPy's equivalence and derivation checks (`MathGrader.Oracles`, `MatchingEngine.Comparators`);
- `difflib.SequenceMatcher.ratio`, as a value in [0, 1];
- Python's `float` parsing and number printing;
- the opaque tables of regular-expression rewrites in the LaTeX converter and the OCR normaliser;
- `json.dumps`.

**How the code decides a few points that are easy to misread:**

- **Matching.** A `MathGrader` student step is matched by a best-score search over all gold steps not used yet (maths/math_grader.py:121-140). No position in the gold steps is carried from one student step to the next.
- **Missing steps.** `_check_missing_required_steps` compares gold indices with the *student* step's index (maths/math_grader.py:166-187). Nothing caps the steps that follow a missing one.
- **The penalty.** It halves the points of the step being evaluated (maths/math_grader.py:159-162).
- **Math detection.** `detect_math_content` is true when at least two indicators occur. The comment next to it says 20% of them, but the code counts two.

## Model

| member | source | states |
|---|---|---|
| MathGrader.NewStep | maths/math_grader.py:25-34 | the stored content is the input without the whitespace around it: the input is the content with only whitespace before and after it, the content is empty exactly when the input is blank and otherwise has no whitespace at either end; points and flag are kept |
| MathGrader.NewGrader | maths/math_grader.py:62-70 | keeps its gold steps and tolerance, and its total equals the sum of the gold points |
| MathGrader.CreateGraderFromRubric | maths/math_grader.py:352-363 | one gold step per rubric tuple, in order, with stripped content, the tuple's points and flag, the default tolerance and a consistent total |
| MathGrader.TextSimilarity | maths/math_grader.py:338-349 | Jaccard index of the lower-cased word sets: in [0, 1], 1 when both are empty, 0 when exactly one is empty, 1 exactly when the word sets are equal |
| MathGrader.TextSimilaritySymmetric | maths/math_grader.py:338-349 | the similarity does not depend on argument order |
| MathGrader.CompareSteps | maths/math_grader.py:189-219 | texts equal after stripping score (1.0, exact match) whatever the oracles say; every score is 0 or in [0.5, 1]; score 0 exactly for "no match"; score 1 exactly for exact or equivalent; "similar explanation" only with word similarity above 0.7 |
| MathGrader.CheckMissing | maths/math_grader.py:166-187 | false at student index 0; otherwise true exactly when some required gold index below the student index (and below the gold count) is no earlier evaluation's matched step |
| MathGrader.BestCandidate | maths/math_grader.py:121-140 | used gold steps are skipped; the candidate is an unused step whose score no unused step beats and every earlier unused step scores strictly less; no candidate exactly when the best score is 0 |
| MathGrader.Judge | maths/math_grader.py:142-164 | Incorrect exactly when nothing is matched, with 0 points; a match consumes its gold step and nothing else; Correct earns the gold points, Partially correct the points times the score, either halved when a required step is missing; feedback opens with the status and ends with the reduction note when halved |
| MathGrader.EvaluateStep | maths/math_grader.py:107-164 | the matched gold step is the first unused one with the greatest score, and the used set grows by exactly that step; points follow the status and the missing-step check |
| MathGrader.EvaluateAll | maths/math_grader.py:86-96 | one evaluation per student step; the used set is exactly the set of matched gold indices; no gold step is matched by two evaluations |
| MathGrader.Grade | maths/math_grader.py:72-105 | evaluation k is the step rule applied to student step k, with the gold steps matched by the evaluations before it as the used ones; each gold step is matched at most once; total = sum of points earned, maximum = the total of the gold steps, percentage = total / maximum × 100 for a positive maximum and 0 otherwise |
| MathGrader.EvaluateAllInOrder | maths/math_grader.py:86-97 | the loop evaluates the student steps in order, each against the gold steps the earlier ones consumed and the earlier evaluations |
| MathGrader.EarnedWithinGoldPoints | maths/math_grader.py:143-162 | with non-negative gold points a step earns between 0 and its gold step's points |
| MathGrader.EarnedWithinUsed | maths/math_grader.py:89-98 | the points earned so far lie between 0 and the sum of the points of the gold steps consumed so far |
| MathGrader.ScoreBounds | maths/math_grader.py:98-105 | with non-negative gold points, 0 <= total <= maximum and 0 <= percentage <= 100 |
| MathGrader.DiagonalRun | maths/math_grader.py:131-164 | when the k-th student step scores 1 against the k-th gold step, every step matches its own gold step in order, Correct, with full points and no penalty |
| MathGrader.IdenticalSubmission | maths/math_grader.py:72-105 | handing in the gold steps themselves gives every step Correct, total = maximum and 100 percent when the maximum is positive |
| MatchingEngine.NewEngine | src/grading/matching_engine.py:19-46 | symbolic matching is available exactly when it is asked for and SymPy can be imported; the threshold is kept |
| MatchingEngine.Exact | src/grading/matching_engine.py:85-89 | 1.0 with "exact_match" exactly when the stripped texts are equal, otherwise (0, "") |
| MatchingEngine.NormalizeText | src/grading/matching_engine.py:100-115 | the normal form holds no upper-case letter, no whitespace, no `×` and no `÷` |
| MatchingEngine.NormalizeNotIdempotent | src/grading/matching_engine.py:110-113 | normalising is not idempotent: `===` becomes `==`, which becomes `=` |
| MatchingEngine.NormalizedCompare | src/grading/matching_engine.py:91-98 | 1.0 with "normalized_match" exactly when the normal forms are equal, otherwise (0, "") |
| MatchingEngine.SymbolicCompare | src/grading/matching_engine.py:117-152 | the symbolic score is 0, 0.9 or 1; 0.9 exactly for "symbolic_equivalent_scaled"; a non-zero score names a symbolic strategy |
| MatchingEngine.Derivation | src/grading/matching_engine.py:203-222 | score 0, 0.6 or 0.7; 0.7 exactly when one normal form contains the other; 0.6 only with a term overlap above 0.7 |
| MatchingEngine.EmptyIsDerivation | src/grading/matching_engine.py:209-211 | a text whose normal form is empty is a derivation of anything (score 0.7) |
| MatchingEngine.Similarity | src/grading/matching_engine.py:224-232 | the ratio itself when it reaches the threshold, otherwise (0, ""); always in [0, 1] |
| MatchingEngine.Match | src/grading/matching_engine.py:48-83 | always in [0, 1]; equal stripped texts give (1, exact_match) and otherwise equal normal forms give (1, normalized_match), before any oracle |
| MatchingEngine.MatchStrategies | src/grading/matching_engine.py:48-83 | whatever the texts: a symbolic result only with SymPy and at score 1, a similarity result only at or above the threshold and equal to the ratio, no strategy only at score 0, and never a derivation or scaled symbolic result |
| MatchingEngine.Fallback | src/grading/matching_engine.py:69-83 | after the textual checks: a symbolic result only when SymPy is available and it scored 1; a similarity result is the ratio at or above the threshold |
| MatchingEngine.IntermediateScoresAreSimilarity | src/grading/matching_engine.py:72-83 | a score strictly between 0 and 1 always comes from text similarity: 0.9, 0.7 and 0.6 never pass their strict thresholds |
| MatchingEngine.SymbolicUnused | src/grading/matching_engine.py:70-73 | without SymPy the symbolic comparator has no influence on the result |
| MatchingEngine.FindBestMatch | src/grading/matching_engine.py:234-261 | no match exactly when every gold step scores below 0.5; otherwise the first gold step with the greatest score, at least 0.5 |
| ScoringEngine.Available | src/grading/scoring_engine.py:60-65 | the available indices are exactly the unmatched gold indices, ascending |
| ScoringEngine.ChooseIsFindBestMatch | src/grading/scoring_engine.py:58-61 | searching the reduced candidate list is searching the reduced score row |
| ScoringEngine.RemapFirstBest | src/grading/scoring_engine.py:63-67 | the index found in the reduced list, mapped back, is the first unmatched gold step with the greatest score |
| ScoringEngine.Choose | src/grading/scoring_engine.py:57-67 | no match exactly when every unmatched gold step scores below 0.5; otherwise the first best unmatched gold step, with score in [0.5, 1] |
| ScoringEngine.MissingOfHas | src/grading/scoring_engine.py:47-50 | the missing list holds exactly the required gold indices not matched |
| ScoringEngine.MissingOfSorted | src/grading/scoring_engine.py:47-50 | the missing list is ascending |
| ScoringEngine.MissingAfterMatch | src/grading/scoring_engine.py:73-75 | removing a newly matched required index from the missing list gives the missing list of the larger matched set |
| ScoringEngine.StatusFor | src/grading/scoring_engine.py:88-94 | Correct exactly from 0.95, Partially correct exactly in [0.5, 0.95), Incorrect below 0.5 |
| ScoringEngine.StepFeedback | src/grading/scoring_engine.py:131-157 | the feedback opens with the status verdict and ends with the half-credit note exactly when the penalty applied |
| ScoringEngine.MatchedStep | src/grading/scoring_engine.py:69-105 | the graded step names the gold step, its status follows the score, points possible are the gold points, and the penalty applies exactly when a missing index lies below the match |
| ScoringEngine.MatchedStepEarns | src/grading/scoring_engine.py:77-86 | the points earned are gold points × score, times the penalty factor when penalised |
| ScoringEngine.UnmatchedStep | src/grading/scoring_engine.py:106-117 | no gold step, Incorrect, 0 earned, 0 possible, score 0, no penalty, the fixed message |
| ScoringEngine.PenaltyCondition | src/grading/scoring_engine.py:80-86 | some missing index is below the match exactly when a required gold step before it is unmatched |
| ScoringEngine.GradeStepRecorded | src/grading/scoring_engine.py:53-119 | one student step records a match exactly when some unmatched gold step scores at least 0.5, and then the first best one, with the points and penalty above |
| ScoringEngine.NonBlank | src/grading/scoring_engine.py:53-55 | the steps graded are exactly the non-blank student steps, in order: the list with its blank steps dropped and nothing else changed (`Text.DropBlankSnoc`, `Text.DropBlankKeeps`) |
| ScoringEngine.GradeRows | src/grading/scoring_engine.py:53-119 | one graded step per text, in order; matched set, missing list and gold indices stay consistent and no gold index is matched twice |
| ScoringEngine.CountsAddUp | src/grading/scoring_engine.py:167-169 | correct + partial + incorrect = number of graded steps |
| ScoringEngine.CalculateSummary | src/grading/scoring_engine.py:159-184 | earned and possible are the sums of the points; percentage earned/possible × 100, or 0 when possible is not positive; the status counts |
| ScoringEngine.GradeSubmission | src/grading/scoring_engine.py:30-129 | one graded step per non-blank student step, in order, and a summary whose counts add up to the steps graded |
| ScoringEngine.SummaryBounds | src/grading/scoring_engine.py:58-86 | with a penalty factor in [0, 1] and non-negative points, 0 <= earned <= possible and 0 <= percentage <= 100 |
| ScoringEngine.MissingAtEnd | src/grading/scoring_engine.py:73-75 | the final missing list is ascending, its length is the reported count, it holds exactly the required gold indices never matched, and a graded step has a gold step exactly when it is not Incorrect |
| GradingStep.NewStep | src/grading/step.py:36-41 | construction succeeds exactly with non-negative points and non-blank text |
| GradingStep.StatusValueInjective | src/grading/step.py:10-15 | distinct statuses have distinct string values |
| GradingStep.FromDict | src/grading/step.py:53-62 | a missing `text` or `points` key is an error; a success is always a valid step |
| GradingStep.RoundTrip | src/grading/step.py:43-62 | `from_dict(to_dict(s)) == s` for every valid step |
| GradingStep.FromDictDefaults | src/grading/step.py:56-62 | absent optional fields default to not required, step number 0 and no category |
| GradingStep.NewGradedStep | src/grading/step.py:80-87 | a fresh graded step is Incorrect with 0 earned, 0 possible, score 0, empty feedback and no penalty |
| GradingStep.GradedToDict | src/grading/step.py:89-100 | the record has the eight keys and `None` for the gold step exactly when there is none |
| GradingStep.GradedRoundTrip | src/grading/step.py:89-100 | the status written into a graded step's record identifies the status |
| FeedbackGenerator.RecommendationLines | src/grading/feedback_generator.py:94-116 | the title, then one band line, then only advice lines: no band line after the second |
| FeedbackGenerator.BandChosen | src/grading/feedback_generator.py:100-105 | the excellent line is present exactly from 90, the good line exactly in [70, 90), the practice line exactly below 70 |
| FeedbackGenerator.AdviceChosen | src/grading/feedback_generator.py:107-114 | each of the three hints is present exactly when its condition on the summary holds |
| FeedbackGenerator.OneBand | src/grading/feedback_generator.py:100-105 | exactly one band line is chosen |
| FeedbackGenerator.StepBlock | src/grading/feedback_generator.py:56-64 | five lines when a gold step matched (with the expected text), three otherwise |
| FeedbackGenerator.BlockHeaders | src/grading/feedback_generator.py:56-57 | the step blocks hold exactly one `Step i:` header per graded step, numbered from 1 |
| FeedbackGenerator.ReportStepHeaders | src/grading/feedback_generator.py:40-92 | the whole report's step headers are exactly `Step 1:` … `Step n:` for n graded steps |
| FeedbackGenerator.MissingLines | src/grading/feedback_generator.py:77-82 | the missing section is present exactly when the count is positive, with one bullet per missing index, in order |
| FeedbackGenerator.ReportMissingSection | src/grading/feedback_generator.py:76-82 | the report shows the missing-steps title exactly when the summary counts a missing step |
| FeedbackGenerator.ReportRecommendations | src/grading/feedback_generator.py:84-87 | the recommendations appear in the report exactly when the generator is detailed |
| FeedbackGenerator.GenerateFeedback | src/grading/feedback_generator.py:25-92 | the report opens with the rule line |
| FeedbackGenerator.StatusIcon | src/grading/feedback_generator.py:139-149 | a one-character icon, `?` exactly for an unknown status |
| FeedbackGenerator.StatusIconInjective | src/grading/feedback_generator.py:143-148 | the four statuses have four different icons |
| FeedbackGenerator.Truncate | src/grading/feedback_generator.py:130 | text up to 50 characters is kept; longer text becomes its first 50 characters and `...` |
| FeedbackGenerator.TruncateIdempotent | src/grading/feedback_generator.py:130 | truncating twice is truncating once |
| FeedbackGenerator.TableRow | src/grading/feedback_generator.py:128-134 | the answer and expected texts are truncated; `N/A` for the expected text without a match and for the points when nothing is possible; the status is one of the four known icons |
| FeedbackGenerator.SummaryTable | src/grading/feedback_generator.py:118-137 | one row per graded step, in order, numbered from 1 |
| FeedbackGenerator.SubmissionReport | src/grading/scoring_engine.py:182-183 | for a grading summary, every missing index is a gold index, and the count is positive exactly when a required gold step stayed unmatched |
| GoldSolutionManager.SanitizeName | src/grading/gold_solution_manager.py:155-163 | same length; only lower-case letters, digits, `_` and `-`; `_` exactly where the input had neither an alphanumeric nor `-`; kept characters are lower-cased |
| GoldSolutionManager.SanitizeIdempotent | src/grading/gold_solution_manager.py:155-163 | sanitising twice is sanitising once |
| GoldSolutionManager.WithJsonSuffix | src/grading/gold_solution_manager.py:79-81 | the result ends in `.json`; the name is unchanged exactly when it already did, otherwise `.json` is appended |
| GoldSolutionManager.LoadFindsSaved | src/grading/gold_solution_manager.py:44-46 | loading by a solution's sanitised name opens the file saving it wrote |
| GoldSolutionManager.BuildRecord | src/grading/gold_solution_manager.py:48-55 | the record's total is the sum of step points and its count the number of steps; steps are serialised in order; missing metadata is the empty map |
| GoldSolutionManager.RecordRoundTrip | src/grading/gold_solution_manager.py:49-53 | every saved step reads back as itself |
| GoldSolutionManager.SortByName | src/grading/gold_solution_manager.py:127 | the listing is sorted by name and is a permutation of the entries |
| StepParser.NonBlankLines | src/step_parser.py:53 | the lines kept are non-empty and stripped |
| StepParser.GroupBy | src/step_parser.py:58-79 | the groups concatenate to the lines; every group is non-empty, later groups open at a step start and no other line is one |
| StepParser.GroupCount | src/step_parser.py:61-73 | every step-start line after the first opens exactly one group |
| StepParser.StepStartIgnoresCase | src/step_parser.py:96-101 | matching the six step patterns does not depend on letter case |
| StepParser.SplitBySeparators | src/step_parser.py:103-123 | no part is empty or has whitespace at its ends |
| StepParser.SplitByEquations | src/step_parser.py:125-148 | `[text]` unless more than one piece came out; several pieces are the line groups opened by lines holding `=` |
| StepParser.CleanStep | src/step_parser.py:150-163 | the cleaned step has single spaces only and no `.`, `,`, `;` or `:` at either end |
| StepParser.CleanStepOfClean | src/step_parser.py:150-163 | cleaning a clean, unlabelled step leaves it unchanged |
| StepParser.Parse | src/step_parser.py:38-94 | blank text parses to `[]`; every step is clean |
| StepParser.CleanAllEach | src/step_parser.py:90 | the blank steps are dropped and every other step is cleaned, in order |
| StepParser.ParseCleansCandidates | src/step_parser.py:49-90 | for text that is not blank, step k is the k-th non-blank candidate step, cleaned; the candidates are the line groups, the separator split or the equation split |
| StepParser.LongEnoughFrom | src/step_parser.py:64-79 | every kept step is the joined, stripped text of one group |
| StepParser.LongEnoughKeeps | src/step_parser.py:64-79 | every group whose joined, stripped text has the minimum length is kept |
| StepParser.ParseFromGroups | src/step_parser.py:58-90 | when grouping by step starts gives more than one long-enough step, each step of `parse` is the cleaned text of one group, a run of consecutive lines opened by a step start |
| StepParser.ParseWithContext | src/step_parser.py:165-185 | without a hint, or when parsing did not give exactly one step, the result is `parse`; with a hint above 1 and one parsed step, between 1 and the hint steps |
| StepParser.SmartSplit | src/step_parser.py:187-210 | `[text]` when at most one part is asked for or only one comes out; otherwise at most the asked number, each stripped |
| StepParser.SmartSplitChunks | src/step_parser.py:194-210 | when the text splits, the pieces are its consecutive chunks, each stripped: the chunks, operators included, concatenate back to the text |
| Patterns.OperatorSplitJoins | src/step_parser.py:194 | splitting at the operators and keeping them loses no text: the pieces concatenate back to the text |
| LatexConverter.ExtractBraced | src/latex_converter.py:137-154 | `(start, "")` without an opening brace before `start`; otherwise an index inside the text and a content no longer than the rest of the text |
| LatexConverter.ExtractBracedShape | src/latex_converter.py:137-154 | after an opening brace, either the brace closes at the returned index around a balanced content, or the content is the rest of the text; either way no prefix of the content closes more braces than it opens |
| LatexConverter.ScanDepth | src/latex_converter.py:142-151 | the depth the loop stops at is the start depth plus the net depth of what it read, and the depth stayed positive at every earlier index |
| LatexConverter.ExtractBalanced | src/latex_converter.py:137-154 | for balanced content between braces, exactly that content and the index of its closing brace |
| LatexConverter.ConvertNestedBraces | src/latex_converter.py:102-135 | the returned index is the text's length or one past it (when a fraction ends the text without its braces) |
| LatexConverter.NoFracIdentity | src/latex_converter.py:102-135 | text without `\frac` comes back unchanged with the index equal to its length |
| LatexConverter.FracRewrite | src/latex_converter.py:107-130 | `\frac{A}{B}` with balanced A and B becomes `(A')/(B')` with A' and B' converted recursively, followed by the conversion of the rest |
| LatexConverter.Convert | src/latex_converter.py:156-198 | blank input comes back unchanged; otherwise the output has single spaces only and no whitespace at either end |
| LatexConverter.ConvertSqueezed | src/latex_converter.py:193-194 | squeezing the output's whitespace again changes nothing |
| LatexConverter.ConvertMultiple | src/latex_converter.py:200-210 | same length and order, `convert` element-wise |
| LatexConverter.CaretIndicatorInert | src/latex_converter.py:222-230 | as written, the caret indicator never matches, so only the literal indicators count |
| LatexConverter.SuperscriptMissed | src/latex_converter.py:222-230 | `x^{2}` is not recognised as written, but is by the corrected detector |
| LatexConverter.IsLatexExtends | src/latex_converter.py:212-232 | the corrected detector accepts exactly what the written one accepts plus any text holding `^{` |
| OcrPipeline.NormalizeOcr | maths/ocr_pipeline.py:387-421 | the output has single spaces only, no whitespace at either end and no line break |
| OcrPipeline.StripStepPrefix | maths/ocr_pipeline.py:384-385 | the result is stripped; a labelled line gets shorter and an unlabelled line is only stripped |
| OcrPipeline.NewStepIffLabel | maths/ocr_pipeline.py:374-385 | a line looks like a new step exactly when the prefix pattern finds a label at its start |
| OcrPipeline.NewStepPrefixRemoved | maths/ocr_pipeline.py:360-362 | a line that starts a new step loses its label |
| OcrPipeline.SplitLineIntoSteps | maths/ocr_pipeline.py:423-493 | `[]` exactly for a blank line; no piece is blank |
| OcrPipeline.NoSplitKeepsLine | maths/ocr_pipeline.py:423-493 | a non-blank line that no strategy splits (the first gives at most one piece, the second and third give none) comes back as `[line]` |
| OcrPipeline.CutStepsHoldEquals | maths/ocr_pipeline.py:449-490 | when strategy 2 or 3 splits, there are several pieces and each contains `=` |
| OcrPipeline.FlushBuffer | maths/ocr_pipeline.py:369-372 | the buffer ends empty; one step `" ".join(buffer)` is appended exactly when the buffer was non-empty; earlier steps are unchanged |
| OcrPipeline.Feed | maths/ocr_pipeline.py:348-364 | a blank line flushes; a new-step line flushes and starts the buffer with its unlabelled text; another one-piece line joins the buffer; earlier steps stay |
| OcrPipeline.SegmentSeesOneLine | maths/ocr_pipeline.py:341-367 | normalisation removes every line break, so segmenting sees the normalised text as one line |
| OcrPipeline.ExtractSteps | maths/ocr_pipeline.py:73-75 | the reported steps are non-empty and stripped |
| App.Fields | maths/app.py:141 | at least one field; every field is stripped and holds no `|` |
| App.ParseGoldLine | maths/app.py:141-147 | the line parses exactly when its points parse (the number's error otherwise); the content is the first field; points default to 1.0; required unless the third field is a "no" word |
| App.ParseAll | maths/app.py:137-148 | success gives one value per line in order; a failure is the error of the first line that fails, every line before it parsing |
| App.ParseGoldSteps | maths/app.py:136-148 | blank lines are skipped and every other line gives one step, in order: on success step k is the parse of the k-th non-blank line; a failure carries the error of the first non-blank line that fails; an all-blank rubric gives no steps |
| App.GoldStepsRoundTrip | maths/app.py:136-148 | a rubric written out as one bar-separated line per step (content, points, y or n) reads back as the same steps |
| App.ParseStudentSteps | maths/app.py:151-152 | the k-th step is the k-th non-blank line, stripped, and there is one step per non-blank line; every step is a non-empty single line |
| Text.StrippedNonBlankOfKept | maths/app.py:152 | keeping the stripped non-blank lines is keeping the non-blank lines, in order, and stripping each |
| Text.DropBlankSnoc | maths/app.py:137-139 | skipping blank lines keeps a last line exactly when it is not blank, behind the lines kept before it |
| Text.DropBlankKeeps | maths/app.py:137-139 | every non-blank line is kept |
| App.StudentStepsRoundTrip | maths/app.py:151-152 | stripped non-empty lines joined by newlines read back unchanged |
| Utils.CleanText | src/utils.py:264-290 | all flags off is the identity; squeezing leaves no two adjacent spaces; dropping leaves no blank line in a non-empty result; stripping leaves no whitespace at either end |
| Utils.CleanTextIdempotent | src/utils.py:278-288 | cleaning with every flag twice is cleaning once |
| Utils.PathName | src/utils.py:203 | the file name has no `/` and is not `.` |
| Utils.Stem | src/utils.py:204 | the stem is a prefix of the name |
| Utils.CreateOutputFilename | src/utils.py:203-207 | the path ends with stem + suffix + `.` + extension and starts with the output directory unless that name is absolute |
| Utils.OutputNameRoundTrip | src/utils.py:203-207 | the file name of the output path is stem + suffix + `.` + extension, and its stem is stem + suffix |
| Utils.FileCell | src/utils.py:163 | at most 40 characters; the name itself exactly when it fits, else its first 37 characters and `...` |
| Utils.StatusCell | src/utils.py:164 | `✓ OK` exactly for status `success`, `✗ Error` otherwise |
| Utils.TableLines | src/utils.py:156-169 | a rule, the header, a rule, one row per result, a rule |
| Utils.TableRowColumns | src/utils.py:166 | the file cell fills the first 40 columns and the status cell the next 10, after one space |
| Utils.TextBlock | src/utils.py:173-184 | eight lines for a success (with the text), five otherwise, framed by rules |
| Utils.FormatResults | src/utils.py:142-186 | `table` joins the table lines, any format other than `json` joins the text blocks |
| Utils.TableSplitsIntoRows | src/utils.py:156-169 | splitting the table at newlines gives back its lines |
| MathDetect.DetectMathContent | src/math_ocr_processor.py:315-327 | true exactly when two indicators at different positions of the list occur in the lower-cased text |
| MathDetect.IndicatorsDistinct | src/math_ocr_processor.py:315-321 | the indicators are pairwise different, so two positions are two indicators |
| MathDetect.EmptyIsNotMath | src/math_ocr_processor.py:324-327 | the empty text is not mathematical |
| MathDetect.DetectExtend | src/math_ocr_processor.py:324 | appending text never makes a mathematical text non-mathematical |
| MathDetect.DetectIgnoresCase | src/math_ocr_processor.py:324 | texts with the same lower-cased form are judged alike |
| MathDetect.UpperCaseSine | src/math_ocr_processor.py:319-327 | `SIN=` is mathematical: letter indicators match in upper case |

## Left out

- **SymPy.** `_check_mathematical_equivalence`, `_check_derivation` and `_parse_expression` (maths/math_grader.py:221-329), and `_symbolic_match` and `_compare_equations` (src/grading/matching_engine.py:117-201), are parameters. Their result types are the values the code can return.
- **difflib.** `SequenceMatcher.ratio` is a parameter with values in [0, 1].
- **Rewrite tables.** The LaTeX pattern table (src/latex_converter.py:20-100, 176-184) and the OCR substitutions before the whitespace squeeze (maths/ocr_pipeline.py:394-416) are one opaque `string -> string` parameter each. The contracts rely only on the steps that come after them.
- **Number formatting.** Parsing numbers (`float(...)`) and printing floats in the feedback report are parameters. Python floats are exact reals.
- **ScoringEngine.StepFeedback:** the `{match_score*100:.0f}` percentage (src/grading/scoring_engine.py:145) rounds the exact real half-even. Python rounds the binary double, which can land on the other side of a tie. For a ratio of 23/40, Python computes 57.49999999999999 and prints `57% match`, where the model prints `58% match`.
- **Rounding.** `round(x, 2)` in the scoring engine's points and summary (src/grading/scoring_engine.py:100, 174, 176) is not applied. The bounds are stated on the exact values.
- **Foreign code.** Image processing, OCR models, file and system I/O, the clock, the web/database/UI layers, and the save/load/list/delete bodies in gold_solution_manager.py are outside the model. The clock comes in through `get_timestamp`.
- **Character classes.**
  - Upper and lower case and `\d` are ASCII.
  - Whitespace is the set `str.isspace` accepts.
  - Python's full Unicode `lower()` (for example on Greek capitals) is not modelled.
  - The extra letters that `re.IGNORECASE` folds (such as the Kelvin sign) are not modelled.
- **MathDetect.DetectMathContent:** lower-cases ASCII only, so a capital pi is not folded to the π indicator.
- **Paths.** POSIX only. Windows separators and drive letters are not modelled.
- **Utils.Stem:** follows the suffix rule of Python up to 3.12. A final dot still counts as a suffix in 3.13 and later.
- **Utils.FormatResults:** the `json` layout is whatever the serialiser parameter returns. Only the `table` and text layouts are stated.
- **Utils.OcrResult:** a `text` or `error` key that is present but `None` is not modelled. The fields are `Option`s that are absent or hold a string.
- **GradingStep.FromDict:** a value of the wrong type (text that is not a string, points that are not a number, a flag that is not a boolean) gives a `Failure`. Python would store some of these unchanged or raise later.
- **GradingStep.Step:** integer points (`points: int`) are modelled as reals, which is what the arithmetic of both graders uses.
- **FeedbackGenerator.MissingLines:** requires every missing index to be a gold index whenever the count is positive. Python would raise `IndexError` otherwise. `FeedbackGenerator.SubmissionReport` proves this holds for every summary the scoring engine builds.
- **StepParser.ParseWithContext:** the `expected_steps` hint is an integer. A hint of another type is not modelled. A hint of 1 or less is stated only through the "`[text]`" clauses of `StepParser.SmartSplit`.
- **GoldSolutionManager.SanitizeName:** letters and digits are ASCII only. Python's `str.isalnum` also accepts other Unicode letters and digits, such as `é` or `²`; it keeps them and lower-cases them where the model writes `_`.
- **GoldSolutionManager.SortByName:** the listing is sorted and a permutation. Stability among equal names is not stated.
- **LatexConverter.Convert:** the single pass that strips border operators is modelled, but the output is not claimed to be operator-free at its ends. Whitespace exposed by that strip is squeezed afterwards, as in the source.
- **LatexConverter.ConvertNestedBraces:** the index it returns can be one past the text's length. This happens for a `\frac` whose brace never closes at the end of the text, exactly as the source computes it. `convert` ignores this index.
- **MatchingEngine.Derivation:** the 0.6 score is stated one way only: it implies a term overlap above 0.7 between non-empty term sets. The term regex `[a-z]\^?\d?` is a scanner over the normal form.

## Findings

| source | as written | input that shows it | evidently intended | confidence | as-written member | corrected member |
|---|---|---|---|---|---|---|
| src/latex_converter.py:224 | the indicator `r'\\^\{'` is a backslash, then the start-of-string anchor, then `{`; the anchor can never hold after a consumed character, so it never matches | `x^{2}`: `is_latex` returns False (no other indicator occurs) | a superscript `^{` marks LaTeX | high (not executed) | LatexConverter.IsLatexAsWritten, LatexConverter.SuperscriptMissed | LatexConverter.IsLatex, LatexConverter.IsLatexExtends |
