/**
 * The match cascade of the rubric-based grading engine: exact, normalised, symbolic,
 * derivation and fuzzy text similarity, and the search for the best gold step.
 * The symbolic comparison (SymPy) and `difflib.SequenceMatcher.ratio` are parameters whose
 * result types hold exactly the values those routines can produce.
 */
module MatchingEngine {
  import opened Wrappers
  import opened Text
  import opened Patterns
  import GradingStep

  /** The strategy names reported next to a score. */
  datatype Strategy =
    | NoStrategy
    | ExactMatch
    | NormalizedMatch
    | SymbolicEquivalent
    | SymbolicEquivalentScaled
    | SymbolicEquationEquivalent
    | SymbolicEquationReversed
    | DerivationSubstring
    | DerivationSharedTerms
    | TextSimilarity
  {
    function Name(): string
    {
      match this
      case NoStrategy => ""
      case ExactMatch => "exact_match"
      case NormalizedMatch => "normalized_match"
      case SymbolicEquivalent => "symbolic_equivalent"
      case SymbolicEquivalentScaled => "symbolic_equivalent_scaled"
      case SymbolicEquationEquivalent => "symbolic_equation_equivalent"
      case SymbolicEquationReversed => "symbolic_equation_reversed"
      case DerivationSubstring => "valid_derivation_substring"
      case DerivationSharedTerms => "valid_derivation_shared_terms"
      case TextSimilarity => "text_similarity"
    }

    predicate IsSymbolic()
    {
      this in {SymbolicEquivalent, SymbolicEquivalentScaled, SymbolicEquationEquivalent, SymbolicEquationReversed}
    }
  }

  /** A score with the strategy that produced it. */
  datatype Scored = Scored(score: real, strategy: Strategy)

  const NoMatch: Scored := Scored(0.0, NoStrategy)

  /** The outcomes `_symbolic_match` can produce; parse failures and exceptions give `NoVerdict`. */
  datatype SymbolicVerdict = NoVerdict | Equivalent | Scaled | EquationEquivalent | EquationReversed
  {
    /** The score and strategy `_symbolic_match` returns for this outcome. */
    function Result(): (r: Scored)
      ensures r.score in {0.0, 0.9, 1.0}
      ensures r.strategy == NoStrategy || r.strategy.IsSymbolic()
      ensures r.score == 0.9 <==> r.strategy == SymbolicEquivalentScaled
      ensures r.score == 0.0 <==> r.strategy == NoStrategy
    {
      match this
      case NoVerdict => NoMatch
      case Equivalent => Scored(1.0, SymbolicEquivalent)
      case Scaled => Scored(0.9, SymbolicEquivalentScaled)
      case EquationEquivalent => Scored(1.0, SymbolicEquationEquivalent)
      case EquationReversed => Scored(1.0, SymbolicEquationReversed)
    }
  }

  /** A value of `SequenceMatcher.ratio()`. */
  type Ratio = r: real | 0.0 <= r <= 1.0

  /** The two foreign comparators: SymPy's verdict and difflib's ratio. */
  datatype Comparators = Comparators(symbolic: (string, string) -> SymbolicVerdict, ratio: (string, string) -> Ratio)

  datatype Engine = Engine(symbolicAvailable: bool, similarityThreshold: real)

  const DefaultSimilarityThreshold: real := 0.8

  /** The constructor: symbolic matching is on only when asked for and SymPy can be imported. */
  function NewEngine(useSymbolic: bool, sympyInstalled: bool, similarityThreshold: real): (e: Engine)
    ensures e.symbolicAvailable <==> useSymbolic && sympyInstalled
    ensures e.similarityThreshold == similarityThreshold
  {
    Engine(useSymbolic && sympyInstalled, similarityThreshold)
  }

  /** `_exact_match`. */
  function Exact(text1: string, text2: string): (r: Scored)
    ensures r.score == 1.0 <==> Strip(text1) == Strip(text2)
    ensures r == Scored(1.0, ExactMatch) || r == NoMatch
  {
    if Strip(text1) == Strip(text2) then Scored(1.0, ExactMatch) else NoMatch
  }

  /** A character a normal form may hold: no whitespace, no upper-case letter, no `×` and no `÷`. */
  predicate NormalChar(c: char)
  {
    !IsUpper(c) && !IsSpace(c) && c != '×' && c != '÷'
  }

  predicate Normalized(s: string)
  {
    forall i :: 0 <= i < |s| ==> NormalChar(s[i])
  }

  /** `_normalize_text`: lower-case, drop all whitespace, then rewrite the operator spellings. */
  function NormalizeText(text: string): (r: string)
    ensures Normalized(r)
  {
    var lowered := Lower(text);
    var compact := RemoveSpaces(lowered);
    var times := Replace(compact, "×", "*");
    var divide := Replace(times, "÷", "/");
    var power := Replace(divide, "**", "^");
    var r := Replace(power, "==", "=");
    forall i | 0 <= i < |r|
      ensures NormalChar(r[i])
    {
      var c := r[i];
      if c !in "=*/^" {
        assert c in compact && c in lowered;
        var j :| 0 <= j < |lowered| && lowered[j] == c;
        assert c == LowerChar(text[j]);
      }
    }
    r
  }

  /** Normalising twice can differ from normalising once. */
  lemma {:induction false} NormalizeNotIdempotent()
    ensures NormalizeText("===") == "=="
    ensures NormalizeText(NormalizeText("===")) == "="
  {
    NormalizeTriple();
    NormalizeDouble();
  }

  /** `===` normalises to `==`: one pass replaces only the first two signs. */
  lemma {:induction false} NormalizeTriple()
    ensures NormalizeText("===") == "=="
  {
    assert Lower("===") == "===";
    assert RemoveSpaces("===") == "===";
    ReplaceAbsent("===", "×", "*");
    ReplaceAbsent("===", "÷", "/");
    ReplaceAbsent("===", "**", "^");
    assert Replace("=", "==", "=") == "=";
    assert Replace("===", "==", "=") == "==";
  }

  /** `==` normalises to `=`. */
  lemma {:induction false} NormalizeDouble()
    ensures NormalizeText("==") == "="
  {
    assert Lower("==") == "==";
    assert RemoveSpaces("==") == "==";
    ReplaceAbsent("==", "×", "*");
    ReplaceAbsent("==", "÷", "/");
    ReplaceAbsent("==", "**", "^");
    assert Replace("==", "==", "=") == "=";
  }

  /** `_normalized_match`. */
  function NormalizedCompare(text1: string, text2: string): (r: Scored)
    ensures r.score == 1.0 <==> NormalizeText(text1) == NormalizeText(text2)
    ensures r == Scored(1.0, NormalizedMatch) || r == NoMatch
  {
    if NormalizeText(text1) == NormalizeText(text2) then Scored(1.0, NormalizedMatch) else NoMatch
  }

  /** `_symbolic_match`, given that SymPy is available. */
  function SymbolicCompare(o: Comparators, text1: string, text2: string): (r: Scored)
    ensures r.score in {0.0, 0.9, 1.0}
    ensures r.strategy == NoStrategy || r.strategy.IsSymbolic()
    ensures r.score == 0.9 <==> r.strategy == SymbolicEquivalentScaled
  {
    o.symbolic(text1, text2).Result()
  }

  /** `set(re.findall(r'[a-z]\^?\d?', s))`. */
  function Terms(s: string): set<string>
  {
    set t | t in FindTexts(Term, s)
  }

  /** The share of common terms, relative to the larger term set. */
  function Overlap(terms1: set<string>, terms2: set<string>): (r: real)
    requires terms1 != {} && terms2 != {}
    ensures 0.0 <= r
  {
    var m := if |terms1| >= |terms2| then |terms1| else |terms2|;
    (|terms1 * terms2| as real) / (m as real)
  }

  /** `_derivation_match`: containment of the normalised texts, then shared terms. */
  function Derivation(text1: string, text2: string): (r: Scored)
    ensures r.score in {0.0, 0.6, 0.7}
    ensures var n1 := NormalizeText(text1); var n2 := NormalizeText(text2);
      r.score == 0.7 <==> Contains(n2, n1) || Contains(n1, n2)
    ensures r.score == 0.6 ==>
      var t1 := Terms(NormalizeText(text1)); var t2 := Terms(NormalizeText(text2));
      t1 != {} && t2 != {} && Overlap(t1, t2) > 0.7
    ensures r.score == 0.7 <==> r.strategy == DerivationSubstring
    ensures r.score == 0.6 <==> r.strategy == DerivationSharedTerms
    ensures r.score == 0.0 <==> r.strategy == NoStrategy
  {
    var n1 := NormalizeText(text1);
    var n2 := NormalizeText(text2);
    if Contains(n2, n1) || Contains(n1, n2) then Scored(0.7, DerivationSubstring)
    else
      var t1 := Terms(n1);
      var t2 := Terms(n2);
      if t1 != {} && t2 != {} && Overlap(t1, t2) > 0.7 then Scored(0.6, DerivationSharedTerms)
      else NoMatch
  }

  /** A text that normalises to nothing is contained in every other, so it always scores 0.7. */
  lemma {:induction false} EmptyIsDerivation(text1: string, text2: string)
    requires NormalizeText(text1) == []
    ensures Derivation(text1, text2) == Scored(0.7, DerivationSubstring)
  {
    assert OccursAt(NormalizeText(text2), [], 0);
  }

  /** `_similarity_match`: difflib's ratio on the lower-cased texts, kept only from the threshold up. */
  function Similarity(o: Comparators, threshold: real, text1: string, text2: string): (r: Scored)
    ensures 0.0 <= r.score <= 1.0
    ensures r.strategy == TextSimilarity <==> o.ratio(Lower(text1), Lower(text2)) >= threshold
    ensures r.strategy == TextSimilarity ==> r.score == o.ratio(Lower(text1), Lower(text2))
    ensures r.strategy != TextSimilarity ==> r == NoMatch
  {
    var similarity := o.ratio(Lower(text1), Lower(text2));
    if similarity >= threshold then Scored(similarity, TextSimilarity) else NoMatch
  }

  /** `match`: the first strategy of the cascade whose score clears its bar. */
  function Match(e: Engine, o: Comparators, text1: string, text2: string): (r: Scored)
    ensures 0.0 <= r.score <= 1.0
    ensures Strip(text1) == Strip(text2) ==> r == Scored(1.0, ExactMatch)
    ensures Strip(text1) != Strip(text2) && NormalizeText(text1) == NormalizeText(text2) ==>
      r == Scored(1.0, NormalizedMatch)
    ensures r.strategy in {ExactMatch, NormalizedMatch} || r == Fallback(e, o, text1, text2)
  {
    var exact := Exact(text1, text2);
    if exact.score == 1.0 then exact
    else
      var normalized := NormalizedCompare(text1, text2);
      if normalized.score == 1.0 then normalized
      else Fallback(e, o, text1, text2)
  }

  /** The rest of the cascade once exact and normalised comparison failed. */
  function Fallback(e: Engine, o: Comparators, text1: string, text2: string): (r: Scored)
    ensures 0.0 <= r.score <= 1.0
    ensures r.strategy.IsSymbolic() ==> e.symbolicAvailable && r.score == 1.0
    ensures r.strategy == TextSimilarity ==>
      r.score >= e.similarityThreshold && r.score == o.ratio(Lower(text1), Lower(text2))
    ensures r.strategy == NoStrategy ==> r.score == 0.0
    ensures r.strategy !in {ExactMatch, NormalizedMatch, DerivationSubstring, DerivationSharedTerms, SymbolicEquivalentScaled}
  {
    var symbolic := if e.symbolicAvailable then SymbolicCompare(o, text1, text2) else NoMatch;
    if symbolic.score > 0.9 then symbolic
    else
      var derivation := Derivation(text1, text2);
      if derivation.score > 0.7 then derivation
      else Similarity(o, e.similarityThreshold, text1, text2)
  }

  /**
   * Which strategy a score can come from: a symbolic one only with SymPy and at full score,
   * the text similarity only at or above the threshold, none at zero, and never a strategy
   * whose score is below the bar of its stage.
   */
  lemma {:induction false} MatchStrategies(e: Engine, o: Comparators, text1: string, text2: string)
    ensures Credible(e, o, text1, text2, Match(e, o, text1, text2))
  {
    FallbackCredible(e, o, text1, text2);
  }

  /** The strategy and score of `r` are ones the cascade can produce for the two texts. */
  predicate Credible(e: Engine, o: Comparators, text1: string, text2: string, r: Scored)
  {
    && (r.strategy.IsSymbolic() ==> e.symbolicAvailable && r.score == 1.0)
    && (r.strategy == TextSimilarity ==>
          r.score >= e.similarityThreshold && r.score == o.ratio(Lower(text1), Lower(text2)))
    && (r.strategy == NoStrategy ==> r.score == 0.0)
    && r.strategy != DerivationSubstring && r.strategy != DerivationSharedTerms
    && r.strategy != SymbolicEquivalentScaled
  }

  lemma {:induction false} FallbackCredible(e: Engine, o: Comparators, text1: string, text2: string)
    ensures Credible(e, o, text1, text2, Fallback(e, o, text1, text2))
  {
  }

  /** Scores strictly between 0 and 1 come only from the text similarity. */
  lemma {:induction false} IntermediateScoresAreSimilarity(e: Engine, o: Comparators, text1: string, text2: string)
    requires 0.0 < Match(e, o, text1, text2).score < 1.0
    ensures Match(e, o, text1, text2).strategy == TextSimilarity
  {
    MatchStrategies(e, o, text1, text2);
  }

  /** Without SymPy the symbolic comparator is never consulted. */
  lemma {:induction false} SymbolicUnused(e: Engine, o1: Comparators, o2: Comparators, text1: string, text2: string)
    requires !e.symbolicAvailable && o1.ratio == o2.ratio
    ensures Match(e, o1, text1, text2) == Match(e, o2, text1, text2)
  {
  }

  /** The outcome of `find_best_match`: the chosen gold index, its score and strategy. */
  datatype Best = Best(index: Option<nat>, score: real, strategy: Strategy)

  const NoBest: Best := Best(None, 0.0, NoStrategy)

  /** The scores of one student text against each gold step, in gold order. */
  function Scores(e: Engine, o: Comparators, student: string, gold: seq<GradingStep.Step>): (rs: seq<Scored>)
    ensures |rs| == |gold|
    ensures forall j :: 0 <= j < |gold| ==> rs[j] == Match(e, o, student, gold[j].text)
  {
    seq(|gold|, j requires 0 <= j < |gold| => Match(e, o, student, gold[j].text))
  }

  /** `rs[index]` is the first score that no other score beats. */
  predicate FirstBest(rs: seq<Scored>, index: nat, score: real)
  {
    && index < |rs|
    && rs[index].score == score
    && (forall j :: 0 <= j < |rs| ==> rs[j].score <= score)
    && (forall j :: 0 <= j < index ==> rs[j].score < score)
  }

  /** The loop of `find_best_match`: a later score replaces the best only when strictly greater. */
  function Scan(rs: seq<Scored>): (b: Best)
    ensures b.index.None? ==> b == NoBest && forall j :: 0 <= j < |rs| ==> rs[j].score <= 0.0
    ensures b.index.Some? ==>
      0.0 < b.score && FirstBest(rs, b.index.value, b.score) && rs[b.index.value].strategy == b.strategy
  {
    if rs == [] then NoBest
    else
      var n := |rs| - 1;
      var b := Scan(rs[..n]);
      if rs[n].score > b.score then Best(Some(n), rs[n].score, rs[n].strategy)
      else
        assert forall j :: 0 <= j < n ==> rs[..n][j] == rs[j];
        b
  }

  const MinimumMatch: real := 0.5

  /** The threshold step of `find_best_match` on a row of scores. */
  function BestOf(rs: seq<Scored>): (b: Best)
    ensures b.index.None? <==> forall j :: 0 <= j < |rs| ==> rs[j].score < MinimumMatch
    ensures b.index.None? ==> b == NoBest
    ensures b.index.Some? ==>
      MinimumMatch <= b.score && FirstBest(rs, b.index.value, b.score) && rs[b.index.value].strategy == b.strategy
  {
    var b := Scan(rs);
    if b.score >= MinimumMatch then b else NoBest
  }

  /** `find_best_match`: the first gold step with the greatest score, if that score reaches 0.5. */
  function FindBestMatch(e: Engine, o: Comparators, student: string, gold: seq<GradingStep.Step>): (b: Best)
    ensures b.index.None? <==> forall j :: 0 <= j < |gold| ==> Match(e, o, student, gold[j].text).score < MinimumMatch
    ensures b.index.None? ==> b == NoBest
    ensures b.index.Some? ==>
      && MinimumMatch <= b.score <= 1.0
      && FirstBest(Scores(e, o, student, gold), b.index.value, b.score)
      && Match(e, o, student, gold[b.index.value].text) == Scored(b.score, b.strategy)
  {
    BestOf(Scores(e, o, student, gold))
  }
}
