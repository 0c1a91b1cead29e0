/**
 * The step-by-step grader used by the web API and the simple app: every student step
 * is compared with every gold step that has not been consumed yet, the best-scoring one
 * is taken, and the step is marked Correct, Partially correct or Incorrect. Points are
 * halved when an earlier required gold step has not been matched.
 *
 * The SymPy checks (`_check_mathematical_equivalence`, `_check_derivation`) are not
 * modelled: they are the `Oracles` a caller supplies, and their result types are exactly
 * the values the source can return (1.0 or 0.0; 0.6, 0.5 or 0.0).
 */
module MathGrader {
  import opened Wrappers
  import opened Text
  import opened Sums

  datatype Status = Correct | PartiallyCorrect | Incorrect
  {
    /** The enum's string value. */
    function Value(): string
    {
      match this
      case Correct => "Correct"
      case PartiallyCorrect => "Partially correct"
      case Incorrect => "Incorrect"
    }
  }

  /** A gold step: its (stripped) content, its points and whether later steps depend on it. */
  datatype Step = Step(content: string, points: real, required: bool)

  /** `Step(content, points, required)`: the content is stored stripped. */
  function NewStep(content: string, points: real, required: bool): (s: Step)
    ensures s.content == [] <==> IsBlank(content)
    ensures s.content != [] ==> !IsSpace(s.content[0]) && !IsSpace(s.content[|s.content| - 1])
    ensures |s.content| <= |content|
    ensures PaddedAt(content, s.content, Span(content, IsSpace))
    ensures s.points == points && s.required == required
  {
    Step(Strip(content), points, required)
  }

  datatype Evaluation = Evaluation(status: Status, pointsEarned: real, feedback: string, matchedGoldStep: Option<nat>)

  /** Verdict of the SymPy equivalence check, which scores 1.0 or 0.0. */
  datatype Equivalence = Equivalent | NotEquivalent

  /** Verdict of the SymPy derivation heuristic, which scores 0.6, 0.5 or 0.0. */
  datatype Derivation = SubExpression | SharedTerms | NoDerivation

  /** The symbolic checks; the equivalence check also receives the configured tolerance. */
  datatype Oracles = Oracles(
    equivalent: (string, string, real) -> Equivalence,
    derivation: (string, string) -> Derivation)

  datatype MatchKind = ExactMatch | MathematicallyEquivalent | IntermediateDerivation | SimilarExplanation | NoMatch
  {
    /** The description `_compare_steps` returns beside the score. */
    function Description(): string
    {
      match this
      case ExactMatch => "exact match"
      case MathematicallyEquivalent => "mathematically equivalent"
      case IntermediateDerivation => "valid intermediate derivation"
      case SimilarExplanation => "similar explanation"
      case NoMatch => "no match"
    }
  }

  datatype Comparison = Comparison(score: real, kind: MatchKind)

  /** The set of lower-cased words of a text, as `set(text.lower().split())`. */
  function WordSet(t: string): set<string>
  {
    set w | w in Words(Lower(t))
  }

  /** A subset as large as its superset is the superset. */
  lemma {:induction false} SubsetOfSameSize<T>(a: set<T>, b: set<T>)
    requires a <= b && |a| == |b|
    ensures a == b
  {
    if a != b {
      var x :| x in b && x !in a;
      assert a <= b - {x};
      assert |b - {x}| == |b| - 1;
      SubsetSize(a, b - {x});
      assert false;
    }
  }

  lemma {:induction false} SubsetSize<T>(a: set<T>, b: set<T>)
    requires a <= b
    ensures |a| <= |b|
    decreases |b|
  {
    if a != {} {
      var x :| x in a;
      SubsetSize(a - {x}, b - {x});
    }
  }

  /** The Jaccard index of two sets, one for two empty sets. */
  function Jaccard<T>(w1: set<T>, w2: set<T>): (r: real)
    ensures 0.0 <= r <= 1.0
    ensures w1 == {} && w2 == {} ==> r == 1.0
    ensures (w1 == {}) != (w2 == {}) ==> r == 0.0
    ensures r == 1.0 <==> w1 == w2
  {
    if w1 == {} && w2 == {} then 1.0
    else if w1 == {} || w2 == {} then 0.0
    else
      var common := w1 * w2;
      var all := w1 + w2;
      SubsetSize(common, all);
      SubsetSize(w1, all);
      Quotient(|common| as real, |all| as real);
      assert |common| == |all| <==> w1 == w2 by {
        if |common| == |all| {
          SubsetOfSameSize(common, all);
          assert w1 <= w2 && w2 <= w1;
        }
        if w1 == w2 {
          assert common == all;
        }
      }
      (|common| as real) / (|all| as real)
  }

  /** `_text_similarity`: the Jaccard index of the two texts' lower-cased word sets. */
  function TextSimilarity(a: string, b: string): (r: real)
    ensures 0.0 <= r <= 1.0
    ensures WordSet(a) == {} && WordSet(b) == {} ==> r == 1.0
    ensures (WordSet(a) == {}) != (WordSet(b) == {}) ==> r == 0.0
    ensures r == 1.0 <==> WordSet(a) == WordSet(b)
  {
    Jaccard(WordSet(a), WordSet(b))
  }

  /** Jaccard similarity does not depend on the order of its arguments. */
  lemma {:induction false} TextSimilaritySymmetric(a: string, b: string)
    ensures TextSimilarity(a, b) == TextSimilarity(b, a)
  {
    var w1, w2 := WordSet(a), WordSet(b);
    assert w1 * w2 == w2 * w1;
    assert w1 + w2 == w2 + w1;
  }

  /** `_compare_steps`: exact match, then the oracles, then word similarity above 0.7. */
  function CompareSteps(o: Oracles, tolerance: real, student: string, gold: string): (c: Comparison)
    ensures Strip(student) == Strip(gold) ==> c == Comparison(1.0, ExactMatch)
    ensures c.score == 0.0 || 0.5 <= c.score <= 1.0
    ensures c.score == 0.0 <==> c.kind == NoMatch
    ensures c.score == 1.0 <==> c.kind == ExactMatch || c.kind == MathematicallyEquivalent
    ensures c.kind == SimilarExplanation ==> TextSimilarity(Strip(student), Strip(gold)) > 0.7
  {
    var s := Strip(student);
    var g := Strip(gold);
    if s == g then Comparison(1.0, ExactMatch)
    else if o.equivalent(s, g, tolerance) == Equivalent then Comparison(1.0, MathematicallyEquivalent)
    else
      match o.derivation(s, g)
      case SubExpression => Comparison(0.6, IntermediateDerivation)
      case SharedTerms => Comparison(0.5, IntermediateDerivation)
      case NoDerivation =>
        var sim := TextSimilarity(s, g);
        if sim > 0.7 then Comparison(sim * 0.8, SimilarExplanation) else Comparison(0.0, NoMatch)
  }

  /** A grader: the gold steps, the numeric tolerance and the total of the gold points. */
  datatype Grader = Grader(goldSteps: seq<Step>, tolerance: real, totalPoints: real)
  {
    /** The total is the sum of the gold points, as the constructor computes it. */
    predicate Valid()
    {
      totalPoints == Sum(Points(goldSteps))
    }
  }

  function Points(steps: seq<Step>): (r: seq<real>)
    ensures |r| == |steps| && forall k :: 0 <= k < |steps| ==> r[k] == steps[k].points
  {
    seq(|steps|, k requires 0 <= k < |steps| => steps[k].points)
  }

  /** `MathGrader(gold_steps, tolerance)`. */
  function NewGrader(goldSteps: seq<Step>, tolerance: real): (g: Grader)
    ensures g.Valid() && g.goldSteps == goldSteps && g.tolerance == tolerance
  {
    Grader(goldSteps, tolerance, Sum(Points(goldSteps)))
  }

  const DefaultTolerance: real := 0.000001

  /** `create_grader_from_rubric`: one stripped step per rubric entry, default tolerance. */
  function CreateGraderFromRubric(rubric: seq<(string, real, bool)>): (g: Grader)
    ensures g.Valid() && g.tolerance == DefaultTolerance
    ensures |g.goldSteps| == |rubric|
    ensures forall k :: 0 <= k < |rubric| ==>
      g.goldSteps[k].content == Strip(rubric[k].0) && g.goldSteps[k].points == rubric[k].1
      && g.goldSteps[k].required == rubric[k].2
  {
    NewGrader(seq(|rubric|, k requires 0 <= k < |rubric| => NewStep(rubric[k].0, rubric[k].1, rubric[k].2)),
      DefaultTolerance)
  }

  /** Some earlier evaluation matched gold step `i`. */
  predicate MatchedBy(previous: seq<Evaluation>, i: nat)
  {
    exists k :: 0 <= k < |previous| && previous[k].matchedGoldStep == Some(i)
  }

  /** Scan of the first `n` gold steps for a required one nobody has matched. */
  function UnmatchedRequiredBelow(gold: seq<Step>, previous: seq<Evaluation>, n: nat): (missing: bool)
    requires n <= |gold|
    ensures missing <==> exists i :: 0 <= i < n && gold[i].required && !MatchedBy(previous, i)
  {
    if n == 0 then false
    else UnmatchedRequiredBelow(gold, previous, n - 1) || (gold[n - 1].required && !MatchedBy(previous, n - 1))
  }

  /**
   * `_check_missing_required_steps`: a required gold step whose index is below the
   * student's step index has not been matched by an earlier evaluation.
   */
  function CheckMissing(gold: seq<Step>, studentIndex: nat, previous: seq<Evaluation>): (missing: bool)
    ensures studentIndex == 0 ==> !missing
    ensures missing <==> exists i :: 0 <= i < studentIndex && i < |gold| && gold[i].required && !MatchedBy(previous, i)
  {
    if studentIndex == 0 then false
    else UnmatchedRequiredBelow(gold, previous, if studentIndex < |gold| then studentIndex else |gold|)
  }

  /** The values `_compare_steps` can return: zero, or a score between one half and one. */
  predicate ValidScore(x: real)
  {
    x == 0.0 || 0.5 <= x <= 1.0
  }

  /** Every score of a row of comparisons is one `_compare_steps` can return. */
  predicate ValidRow(cs: seq<Comparison>)
  {
    forall j :: 0 <= j < |cs| ==> ValidScore(cs[j].score)
  }

  /** The comparison of one student step with every gold step, in gold order. */
  function Comparisons(o: Oracles, g: Grader, student: string): (cs: seq<Comparison>)
    ensures |cs| == |g.goldSteps|
    ensures forall j :: 0 <= j < |cs| ==> cs[j] == CompareSteps(o, g.tolerance, student, g.goldSteps[j].content)
    ensures ValidRow(cs)
  {
    seq(|g.goldSteps|, j requires 0 <= j < |g.goldSteps| => CompareSteps(o, g.tolerance, student, g.goldSteps[j].content))
  }

  datatype Candidate = Candidate(score: real, kind: MatchKind, index: Option<nat>)

  /**
   * The search loop of `_evaluate_step` over the first `n` gold steps: used steps are
   * skipped, and the best score so far is replaced only by a strictly greater one, so the
   * result is the first unused step with the greatest score.
   */
  function BestCandidate(cs: seq<Comparison>, used: set<nat>, n: nat): (b: Candidate)
    requires n <= |cs| && ValidRow(cs)
    ensures b.index.None? <==> b.score == 0.0
    ensures ValidScore(b.score)
    ensures b.index.Some? ==>
      b.index.value < n && b.index.value !in used && cs[b.index.value] == Comparison(b.score, b.kind)
    ensures forall j :: 0 <= j < n && j !in used ==> cs[j].score <= b.score
    ensures b.index.Some? ==> forall j :: 0 <= j < b.index.value && j !in used ==> cs[j].score < b.score
  {
    if n == 0 then Candidate(0.0, NoMatch, None)
    else
      var prev := BestCandidate(cs, used, n - 1);
      if n - 1 in used then prev
      else if cs[n - 1].score > prev.score then Candidate(cs[n - 1].score, cs[n - 1].kind, Some(n - 1))
      else prev
  }

  const ReducedNote: string := " (reduced due to missing earlier required steps)"

  datatype Outcome = Outcome(evaluation: Evaluation, used: set<nat>)

  /** A matched gold step was unused before and is used afterwards; nothing else changes. */
  predicate Consumes(r: Outcome, used: set<nat>, goldCount: nat)
  {
    var m := r.evaluation.matchedGoldStep;
    if m.None? then r.used == used
    else m.value < goldCount && m.value !in used && r.used == used + {m.value}
  }

  /**
   * The matched gold step is the first unused one with the greatest score; with no match,
   * every unused gold step scored zero.
   */
  predicate ChoosesBest(cs: seq<Comparison>, used: set<nat>, m: Option<nat>)
  {
    if m.None? then forall k :: 0 <= k < |cs| && k !in used ==> cs[k].score == 0.0
    else
      && m.value < |cs|
      && (forall k :: 0 <= k < |cs| && k !in used ==> cs[k].score <= cs[m.value].score)
      && (forall k :: 0 <= k < m.value && k !in used ==> cs[k].score < cs[m.value].score)
  }

  /**
   * The points of a matched step follow its status: a Correct step (score 1) earns the
   * gold step's points, a Partially correct one (score from 1/2 up to 1) the points times
   * the score, and either is halved when an earlier required step is missing.
   */
  predicate AwardsPoints(e: Evaluation, score: real, goldPoints: real, missing: bool)
  {
    var factor := if missing then 0.5 else 1.0;
    && e.status != Incorrect
    && (e.status == Correct ==> score == 1.0 && e.pointsEarned == goldPoints * factor)
    && (e.status == PartiallyCorrect ==> 0.5 <= score < 1.0 && e.pointsEarned == goldPoints * score * factor)
  }

  /** The feedback text before any penalty note; it opens with the status's own name. */
  function BaseFeedback(status: Status, j: nat, kind: MatchKind): (f: string)
    ensures StartsWith(f, status.Value())
  {
    match status
    case Correct => "Correct: matches step " + NatToString(j + 1)
    case PartiallyCorrect => "Partially correct: " + kind.Description()
    case Incorrect => "Incorrect" + " or not matching any expected step"
  }

  /** The feedback text of an evaluation, with the note about missing steps when penalised. */
  function Feedback(status: Status, j: nat, kind: MatchKind, penalised: bool): (f: string)
    ensures StartsWith(f, status.Value())
    ensures penalised ==> EndsWith(f, ReducedNote)
  {
    var base := BaseFeedback(status, j, kind);
    if penalised then base + ReducedNote else base
  }

  /** The points, halved when an earlier required step is missing. */
  function Reduced(points: real, missing: bool): (p: real)
    ensures p == points * (if missing then 0.5 else 1.0)
  {
    if missing then points * 0.5 else points
  }

  /** The decision half of `_evaluate_step`, once the best unused gold step is known. */
  function Judge(b: Candidate, gold: seq<Step>, missing: bool, used: set<nat>): (r: Outcome)
    requires b.index.None? <==> b.score == 0.0
    requires ValidScore(b.score)
    requires b.index.Some? ==> b.index.value < |gold| && b.index.value !in used
    ensures r.evaluation.status == Incorrect <==> r.evaluation.matchedGoldStep.None?
    ensures r.evaluation.matchedGoldStep == b.index
    ensures Consumes(r, used, |gold|)
    ensures r.evaluation.status == Incorrect ==> r.evaluation.pointsEarned == 0.0
    ensures b.index.Some? ==> AwardsPoints(r.evaluation, b.score, gold[b.index.value].points, missing)
    ensures StartsWith(r.evaluation.feedback, r.evaluation.status.Value())
    ensures r.evaluation.status != Incorrect && missing ==> EndsWith(r.evaluation.feedback, ReducedNote)
  {
    if b.score >= 1.0 then
      var j := b.index.value;
      var points := gold[j].points;
      Outcome(Evaluation(Correct, Reduced(points, missing),
                         Feedback(Correct, j, b.kind, missing), b.index), used + {j})
    else if b.score >= 0.5 then
      var j := b.index.value;
      var points := gold[j].points * b.score;
      Outcome(Evaluation(PartiallyCorrect, Reduced(points, missing),
                         Feedback(PartiallyCorrect, j, b.kind, missing), b.index), used + {j})
    else
      Outcome(Evaluation(Incorrect, 0.0, Feedback(Incorrect, 0, b.kind, false), b.index), used)
  }

  /**
   * `_evaluate_step` for one student step, given its comparisons `cs` with the gold steps:
   * the evaluation and the updated set of used gold steps.
   */
  function EvaluateStep(cs: seq<Comparison>, gold: seq<Step>, studentIndex: nat, used: set<nat>,
                        previous: seq<Evaluation>): (r: Outcome)
    requires |cs| == |gold| && ValidRow(cs)
    ensures r.evaluation.status == Incorrect <==> r.evaluation.matchedGoldStep.None?
    ensures Consumes(r, used, |gold|)
    ensures ChoosesBest(cs, used, r.evaluation.matchedGoldStep)
    ensures r.evaluation.status == Incorrect ==> r.evaluation.pointsEarned == 0.0
    ensures r.evaluation.matchedGoldStep.Some? ==>
      var j := r.evaluation.matchedGoldStep.value;
      j < |gold| && AwardsPoints(r.evaluation, cs[j].score, gold[j].points, CheckMissing(gold, studentIndex, previous))
    ensures StartsWith(r.evaluation.feedback, r.evaluation.status.Value())
    ensures r.evaluation.status != Incorrect && CheckMissing(gold, studentIndex, previous) ==>
      EndsWith(r.evaluation.feedback, ReducedNote)
  {
    var b := BestCandidate(cs, used, |cs|);
    Judge(b, gold, CheckMissing(gold, studentIndex, previous), used)
  }

  /** Scaling non-negative points by factors in [0, 1] keeps them between zero and the points. */
  lemma {:induction false} ScaledWithin(p: real, x: real, y: real)
    requires 0.0 <= p && 0.0 <= x <= 1.0 && 0.0 <= y <= 1.0
    ensures 0.0 <= p * x * y <= p
  {
    assert p * x <= p * 1.0;
    assert p * x * y <= p * x * 1.0;
  }

  /** With a non-negative number of points, a step earns between zero and its gold step's points. */
  lemma {:induction false} EarnedWithinGoldPoints(e: Evaluation, score: real, goldPoints: real, missing: bool)
    requires AwardsPoints(e, score, goldPoints, missing) && 0.0 <= goldPoints
    ensures 0.0 <= e.pointsEarned <= goldPoints
  {
    ScaledWithin(goldPoints, if e.status == Correct then 1.0 else score, if missing then 0.5 else 1.0);
  }

  /** Some evaluation matched gold step `j`. */
  predicate IsMatched(evaluations: seq<Evaluation>, j: nat)
  {
    exists k :: 0 <= k < |evaluations| && evaluations[k].matchedGoldStep == Some(j)
  }

  /** No gold step is matched by two evaluations. */
  predicate DistinctMatches(evaluations: seq<Evaluation>)
  {
    forall a, b :: 0 <= a < b < |evaluations| && evaluations[a].matchedGoldStep.Some? ==>
      evaluations[a].matchedGoldStep != evaluations[b].matchedGoldStep
  }

  /** A table of comparisons, one row per student step and one column per gold step. */
  predicate ValidTable(table: seq<seq<Comparison>>, goldCount: nat)
  {
    forall i :: 0 <= i < |table| ==> |table[i]| == goldCount && ValidRow(table[i])
  }

  /** Each student step compared with each gold step. */
  function ComparisonTable(o: Oracles, g: Grader, students: seq<string>): (table: seq<seq<Comparison>>)
    ensures |table| == |students| && ValidTable(table, |g.goldSteps|)
    ensures forall i :: 0 <= i < |students| ==> table[i] == Comparisons(o, g, students[i])
  {
    seq(|students|, i requires 0 <= i < |students| => Comparisons(o, g, students[i]))
  }

  datatype Run = Run(evaluations: seq<Evaluation>, used: set<nat>)

  /** The gold steps matched by a sequence of evaluations. */
  function MatchedSet(evaluations: seq<Evaluation>): set<nat>
  {
    if evaluations == [] then {}
    else
      var last := evaluations[|evaluations| - 1];
      MatchedSet(evaluations[..|evaluations| - 1])
        + (if last.matchedGoldStep.Some? then {last.matchedGoldStep.value} else {})
  }

  /** A gold step is in the matched set exactly when some evaluation names it. */
  lemma {:induction false} MatchedSetIsMatched(evaluations: seq<Evaluation>, j: nat)
    ensures j in MatchedSet(evaluations) <==> IsMatched(evaluations, j)
  {
    if evaluations != [] {
      var n := |evaluations| - 1;
      var init := evaluations[..n];
      MatchedSetIsMatched(init, j);
      if IsMatched(init, j) {
        var k :| 0 <= k < |init| && init[k].matchedGoldStep == Some(j);
        assert evaluations[k] == init[k];
      }
      if IsMatched(evaluations, j) {
        var k :| 0 <= k < |evaluations| && evaluations[k].matchedGoldStep == Some(j);
        if k < n {
          assert evaluations[k] == init[k];
        }
      }
    }
  }

  /** The loop of `grade` over the rows of the comparison table, in student order. */
  function EvaluateAll(table: seq<seq<Comparison>>, gold: seq<Step>): (r: Run)
    requires ValidTable(table, |gold|)
    ensures |r.evaluations| == |table|
    ensures r.used == MatchedSet(r.evaluations)
    ensures forall j :: j in r.used ==> j < |gold|
    ensures DistinctMatches(r.evaluations)
  {
    if table == [] then Run([], {})
    else
      var n := |table| - 1;
      var prev := EvaluateAll(table[..n], gold);
      var out := EvaluateStep(table[n], gold, n, prev.used, prev.evaluations);
      RunStep(gold, prev, out);
      Run(prev.evaluations + [out.evaluation], out.used)
  }

  /** One more evaluation that consumes its matched gold step keeps a run's bookkeeping exact. */
  lemma {:induction false} RunStep(gold: seq<Step>, prev: Run, out: Outcome)
    requires prev.used == MatchedSet(prev.evaluations) && DistinctMatches(prev.evaluations)
    requires forall j :: j in prev.used ==> j < |gold|
    requires Consumes(out, prev.used, |gold|)
    ensures var evaluations := prev.evaluations + [out.evaluation];
      && out.used == MatchedSet(evaluations)
      && (forall j :: j in out.used ==> j < |gold|)
      && DistinctMatches(evaluations)
  {
    var n := |prev.evaluations|;
    var evaluations := prev.evaluations + [out.evaluation];
    assert evaluations[..n] == prev.evaluations;
    forall a, b | 0 <= a < b < |evaluations| && evaluations[a].matchedGoldStep.Some?
      ensures evaluations[a].matchedGoldStep != evaluations[b].matchedGoldStep
    {
      assert evaluations[a] == prev.evaluations[a];
      if b == n {
        MatchedSetIsMatched(prev.evaluations, evaluations[a].matchedGoldStep.value);
      } else {
        assert evaluations[b] == prev.evaluations[b];
      }
    }
  }

  /**
   * Evaluation `k` is the one `_evaluate_step` gives student step `k`, with the gold steps
   * the earlier evaluations matched as the used ones and those evaluations as the history.
   */
  predicate InOrder(table: seq<seq<Comparison>>, gold: seq<Step>, evaluations: seq<Evaluation>)
    requires ValidTable(table, |gold|)
  {
    && |evaluations| == |table|
    && forall k :: 0 <= k < |table| ==>
         evaluations[k] == EvaluateStep(table[k], gold, k, MatchedSet(evaluations[..k]), evaluations[..k]).evaluation
  }

  /** The run evaluates the student steps one after the other, each against what came before. */
  lemma {:induction false} EvaluateAllInOrder(table: seq<seq<Comparison>>, gold: seq<Step>)
    requires ValidTable(table, |gold|)
    ensures InOrder(table, gold, EvaluateAll(table, gold).evaluations)
  {
    if table != [] {
      var n := |table| - 1;
      var prev := EvaluateAll(table[..n], gold);
      EvaluateAllInOrder(table[..n], gold);
      var out := EvaluateStep(table[n], gold, n, prev.used, prev.evaluations);
      assert EvaluateAll(table, gold).evaluations == prev.evaluations + [out.evaluation];
      InOrderSnoc(table, gold, prev.evaluations, out.evaluation);
    }
  }

  /** Evaluating one more student step against the earlier evaluations keeps the run in order. */
  lemma {:induction false} InOrderSnoc(table: seq<seq<Comparison>>, gold: seq<Step>, prev: seq<Evaluation>, e: Evaluation)
    requires ValidTable(table, |gold|) && table != []
    requires InOrder(table[..|table| - 1], gold, prev)
    requires e == EvaluateStep(table[|table| - 1], gold, |table| - 1, MatchedSet(prev), prev).evaluation
    ensures InOrder(table, gold, prev + [e])
  {
    var n := |table| - 1;
    var evaluations := prev + [e];
    assert evaluations[..n] == prev;
    forall k | 0 <= k < n
      ensures evaluations[k] == EvaluateStep(table[k], gold, k, MatchedSet(evaluations[..k]), evaluations[..k]).evaluation
    {
      InOrderKeep(table, gold, prev, e, k);
    }
  }

  /** Appending an evaluation leaves the earlier ones in order. */
  lemma {:induction false} InOrderKeep(table: seq<seq<Comparison>>, gold: seq<Step>, prev: seq<Evaluation>, e: Evaluation, k: nat)
    requires ValidTable(table, |gold|) && k < |table| - 1
    requires InOrder(table[..|table| - 1], gold, prev)
    ensures var evaluations := prev + [e];
      evaluations[k] == EvaluateStep(table[k], gold, k, MatchedSet(evaluations[..k]), evaluations[..k]).evaluation
  {
    var evaluations := prev + [e];
    assert evaluations[..k] == prev[..k];
    assert table[k] == table[..|table| - 1][k] && evaluations[k] == prev[k];
  }

  function Earned(evaluations: seq<Evaluation>): (r: seq<real>)
    ensures |r| == |evaluations| && forall k :: 0 <= k < |r| ==> r[k] == evaluations[k].pointsEarned
  {
    seq(|evaluations|, k requires 0 <= k < |evaluations| => evaluations[k].pointsEarned)
  }

  datatype Report = Report(evaluations: seq<Evaluation>, totalScore: real, maxScore: real, percentage: real)

  /** The report `grade` builds from the evaluations of a comparison table. */
  function ReportOf(table: seq<seq<Comparison>>, g: Grader): (r: Report)
    requires ValidTable(table, |g.goldSteps|)
    ensures |r.evaluations| == |table|
    ensures DistinctMatches(r.evaluations)
    ensures r.maxScore == g.totalPoints
    ensures r.totalScore == Sum(Earned(r.evaluations))
    ensures r.maxScore <= 0.0 ==> r.percentage == 0.0
    ensures r.maxScore > 0.0 ==> r.percentage == r.totalScore / r.maxScore * 100.0
    ensures InOrder(table, g.goldSteps, r.evaluations)
  {
    EvaluateAllInOrder(table, g.goldSteps);
    var evaluations := EvaluateAll(table, g.goldSteps).evaluations;
    var total := Sum(Earned(evaluations));
    Report(evaluations, total, g.totalPoints, if g.totalPoints > 0.0 then total / g.totalPoints * 100.0 else 0.0)
  }

  /** `grade`: one evaluation per student step, the points earned, the maximum and the percentage. */
  function Grade(o: Oracles, g: Grader, students: seq<string>): (r: Report)
    ensures |r.evaluations| == |students|
    ensures DistinctMatches(r.evaluations)
    ensures r.maxScore == g.totalPoints
    ensures r.totalScore == Sum(Earned(r.evaluations))
    ensures r.maxScore <= 0.0 ==> r.percentage == 0.0
    ensures r.maxScore > 0.0 ==> r.percentage == r.totalScore / r.maxScore * 100.0
    ensures InOrder(ComparisonTable(o, g, students), g.goldSteps, r.evaluations)
  {
    ReportOf(ComparisonTable(o, g, students), g)
  }

  /** The points earned so far never exceed the points of the gold steps consumed so far. */
  lemma {:induction false} EarnedWithinUsed(table: seq<seq<Comparison>>, gold: seq<Step>)
    requires ValidTable(table, |gold|) && AllNonNegative(Points(gold))
    ensures var run := EvaluateAll(table, gold);
      0.0 <= Sum(Earned(run.evaluations)) <= SumOver(Points(gold), run.used, |gold|)
  {
    if table != [] {
      var n := |table| - 1;
      var prev := EvaluateAll(table[..n], gold);
      EarnedWithinUsed(table[..n], gold);
      var out := EvaluateStep(table[n], gold, n, prev.used, prev.evaluations);
      var run := EvaluateAll(table, gold);
      assert run.evaluations == prev.evaluations + [out.evaluation];
      assert Earned(run.evaluations) == Earned(prev.evaluations) + [out.evaluation.pointsEarned];
      SumAppend(Earned(prev.evaluations), out.evaluation.pointsEarned);
      assert run.used == out.used;
      assert Consumes(out, prev.used, |gold|);
      match out.evaluation.matchedGoldStep
      case None =>
      case Some(j) =>
        EarnedWithinGoldPoints(out.evaluation, table[n][j].score, gold[j].points,
                               CheckMissing(gold, n, prev.evaluations));
        SumOverInsert(Points(gold), prev.used, j, |gold|);
    } else {
      SumOverNothing(Points(gold), |gold|);
    }
  }

  /** With non-negative gold points, the score lies between zero and the maximum. */
  lemma {:induction false} ScoreBounds(o: Oracles, g: Grader, students: seq<string>)
    requires g.Valid() && AllNonNegative(Points(g.goldSteps))
    ensures var r := Grade(o, g, students);
      0.0 <= r.totalScore <= r.maxScore && 0.0 <= r.percentage <= 100.0
  {
    ReportBounds(ComparisonTable(o, g, students), g);
  }

  lemma {:induction false} ReportBounds(table: seq<seq<Comparison>>, g: Grader)
    requires ValidTable(table, |g.goldSteps|)
    requires g.Valid() && AllNonNegative(Points(g.goldSteps))
    ensures var r := ReportOf(table, g);
      0.0 <= r.totalScore <= r.maxScore && 0.0 <= r.percentage <= 100.0
  {
    var run := EvaluateAll(table, g.goldSteps);
    var pts := Points(g.goldSteps);
    EarnedWithinUsed(table, g.goldSteps);
    SumOverBounds(pts, run.used, |pts|);
    assert pts[..|pts|] == pts;
    var r := ReportOf(table, g);
    if r.maxScore > 0.0 {
      Quotient(r.totalScore, r.maxScore);
    }
  }

  /**
   * When gold steps `0..n-1` are exactly the ones matched so far, in order, a step that
   * scores 1 against gold step `n` takes it, with its full points.
   */
  lemma {:induction false} DiagonalStep(cs: seq<Comparison>, gold: seq<Step>, n: nat, used: set<nat>, previous: seq<Evaluation>)
    requires |cs| == |gold| && ValidRow(cs) && n < |gold| && cs[n].score == 1.0
    requires used == Below(n)
    requires |previous| == n && forall i :: 0 <= i < n ==> previous[i].matchedGoldStep == Some(i)
    ensures var out := EvaluateStep(cs, gold, n, used, previous);
      out.evaluation.status == Correct && out.evaluation.matchedGoldStep == Some(n)
      && out.evaluation.pointsEarned == gold[n].points && out.used == used + {n}
  {
    var out := EvaluateStep(cs, gold, n, used, previous);
    BestOnDiagonal(cs, n, used, out.evaluation.matchedGoldStep);
    NothingMissingOnDiagonal(gold, n, previous);
  }

  /** With gold steps `0..n-1` used and a full score for gold step `n`, the best choice is `n`. */
  lemma {:induction false} BestOnDiagonal(cs: seq<Comparison>, n: nat, used: set<nat>, m: Option<nat>)
    requires ValidRow(cs) && n < |cs| && cs[n].score == 1.0 && used == Below(n)
    requires ChoosesBest(cs, used, m) && (m.Some? ==> m.value !in used)
    ensures m == Some(n)
  {
    assert n !in used;
  }

  /** When every earlier gold step was matched in order, no required step is missing. */
  lemma {:induction false} NothingMissingOnDiagonal(gold: seq<Step>, n: nat, previous: seq<Evaluation>)
    requires |previous| == n && forall i :: 0 <= i < n ==> previous[i].matchedGoldStep == Some(i)
    ensures !CheckMissing(gold, n, previous)
  {
    forall i | 0 <= i < n
      ensures MatchedBy(previous, i)
    {
      assert previous[i].matchedGoldStep == Some(i);
    }
  }

  /** The indices below `n`. */
  function Below(n: nat): (r: set<nat>)
    ensures forall j :: j in r <==> 0 <= j < n
  {
    if n == 0 then {} else Below(n - 1) + {n - 1}
  }

  /** The first `n` gold steps were matched in order, each as Correct with its full points. */
  predicate Diagonal(run: Run, gold: seq<Step>, n: nat)
  {
    && |run.evaluations| == n <= |gold|
    && run.used == Below(n)
    && forall k :: 0 <= k < n ==>
         run.evaluations[k].status == Correct && run.evaluations[k].matchedGoldStep == Some(k)
         && run.evaluations[k].pointsEarned == gold[k].points
  }

  /**
   * When the k-th row gives the k-th gold step a full score, every gold step is matched
   * in order, with full points and no penalty.
   */
  lemma {:induction false} DiagonalRun(table: seq<seq<Comparison>>, gold: seq<Step>)
    requires ValidTable(table, |gold|) && |table| <= |gold|
    requires forall k :: 0 <= k < |table| ==> table[k][k].score == 1.0
    ensures Diagonal(EvaluateAll(table, gold), gold, |table|)
  {
    if table != [] {
      var n := |table| - 1;
      var prev := EvaluateAll(table[..n], gold);
      DiagonalRun(table[..n], gold);
      var out := EvaluateStep(table[n], gold, n, prev.used, prev.evaluations);
      DiagonalStep(table[n], gold, n, prev.used, prev.evaluations);
      var run := EvaluateAll(table, gold);
      assert run.evaluations == prev.evaluations + [out.evaluation];
      assert run.used == prev.used + {n};
      forall k | 0 <= k < |table|
        ensures run.evaluations[k].status == Correct && run.evaluations[k].matchedGoldStep == Some(k)
          && run.evaluations[k].pointsEarned == gold[k].points
      {
        if k < n {
          assert run.evaluations[k] == prev.evaluations[k];
        }
      }
      assert Diagonal(run, gold, |table|);
    } else {
      assert EvaluateAll(table, gold) == Run([], {});
    }
  }

  /** A student step equal to the gold step after stripping scores 1 against it. */
  lemma {:induction false} IdenticalRows(o: Oracles, g: Grader, students: seq<string>)
    requires |students| <= |g.goldSteps|
    requires forall k :: 0 <= k < |students| ==> Strip(students[k]) == Strip(g.goldSteps[k].content)
    ensures forall k :: 0 <= k < |students| ==> ComparisonTable(o, g, students)[k][k].score == 1.0
  {
    var table: seq<seq<Comparison>> := ComparisonTable(o, g, students);
    forall k: nat | k < |students|
      ensures table[k][k].score == 1.0
    {
      assert table[k][k] == CompareSteps(o, g.tolerance, students[k], g.goldSteps[k].content);
    }
  }

  /** A table with full scores on its diagonal gives every step Correct and the maximum score. */
  lemma {:induction false} DiagonalReport(table: seq<seq<Comparison>>, g: Grader)
    requires ValidTable(table, |g.goldSteps|) && |table| == |g.goldSteps|
    requires forall k :: 0 <= k < |table| ==> table[k][k].score == 1.0
    requires g.Valid()
    ensures var r := ReportOf(table, g);
      r.totalScore == r.maxScore && (r.maxScore > 0.0 ==> r.percentage == 100.0)
      && forall k :: 0 <= k < |r.evaluations| ==> r.evaluations[k].status == Correct
  {
    DiagonalRun(table, g.goldSteps);
    var run := EvaluateAll(table, g.goldSteps);
    assert Earned(run.evaluations) == Points(g.goldSteps);
    var r := ReportOf(table, g);
    if r.maxScore > 0.0 {
      Quotient(r.totalScore, r.maxScore);
    }
  }

  /** Handing in the gold solution itself earns the maximum score. */
  lemma {:induction false} IdenticalSubmission(o: Oracles, g: Grader, students: seq<string>)
    requires g.Valid()
    requires |students| == |g.goldSteps|
    requires forall k :: 0 <= k < |students| ==> Strip(students[k]) == Strip(g.goldSteps[k].content)
    ensures var r := Grade(o, g, students);
      r.totalScore == r.maxScore && (r.maxScore > 0.0 ==> r.percentage == 100.0)
      && forall k :: 0 <= k < |r.evaluations| ==> r.evaluations[k].status == Correct
  {
    IdenticalRows(o, g, students);
    DiagonalReport(ComparisonTable(o, g, students), g);
  }
}
