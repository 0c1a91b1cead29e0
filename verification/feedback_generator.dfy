/**
 * The feedback generator: the plain-text report of a graded submission, its recommendation
 * block and the table-friendly summary rows. The report is built as a list of lines that are
 * finally joined with line breaks; every property is stated about that list of lines.
 * How Python prints a float is a parameter (`Printer`), since number printing is not modelled.
 */
module FeedbackGenerator {
  import opened Wrappers
  import opened Text
  import opened GradingStep
  import SE = ScoringEngine

  /** `str(x)` and `f"{x:.1f}"` for a float. */
  datatype Printer = Printer(float: real -> string, oneDecimal: real -> string)

  const Rule: string := Repeat('=', 70)
  const Dashes: string := Repeat('-', 70)
  const Title: string := "GRADING FEEDBACK"
  const BreakdownTitle: string := "\U{1F4DD} STEP-BY-STEP BREAKDOWN:"
  const StatisticsTitle: string := "\U{1F4C8} STATISTICS:"
  const MissingTitle: string := "\U{26A0}\U{FE0F}  MISSING REQUIRED STEPS:"
  const RecommendationsTitle: string := "\U{1F4A1} RECOMMENDATIONS:"
  const Excellent: string := "  Excellent work! You demonstrated strong problem-solving skills."
  const Good: string := "  Good job! Review the steps marked as partial or incorrect."
  const KeepPracticing: string := "  Keep practicing! Focus on showing all required steps clearly."
  const IncludeRequired: string := "  \U{2022} Make sure to include all required steps in your solution."
  const CheckPartial: string := "  \U{2022} Some steps were partially correct - check for minor errors."
  const ReviewMethod: string := "  \U{2022} Review the solution method and practice similar problems."

  /** No line of `lines` begins with the character `c`. */
  predicate NoneStartWith(lines: seq<string>, c: char)
  {
    forall k :: 0 <= k < |lines| ==> lines[k] == [] || lines[k][0] != c
  }

  /** A line that begins with `c` occurs in `a + b` exactly when it occurs in `b`, if no line of `a` begins with `c`. */
  lemma {:induction false} FindInTail(a: seq<string>, b: seq<string>, c: char, x: string)
    requires NoneStartWith(a, c) && x != [] && x[0] == c
    ensures x in a + b <==> x in b
  {
    assert x !in a by {
      forall k | 0 <= k < |a|
        ensures a[k] != x
      {
      }
    }
  }

  lemma {:induction false} NoneStartWithAppend(a: seq<string>, b: seq<string>, c: char)
    requires NoneStartWith(a, c) && NoneStartWith(b, c)
    ensures NoneStartWith(a + b, c)
  {
  }

  // ---------------------------------------------------------------------------------------------
  // Recommendations
  // ---------------------------------------------------------------------------------------------

  /** One of the three performance-band lines. */
  predicate IsBand(line: string)
  {
    line == Excellent || line == Good || line == KeepPracticing
  }

  /** How many band lines `lines` holds. */
  function BandCount(lines: seq<string>): nat
  {
    if lines == [] then 0
    else BandCount(lines[..|lines| - 1]) + (if IsBand(lines[|lines| - 1]) then 1 else 0)
  }

  /** `_generate_recommendations`, before its lines are joined. */
  function RecommendationLines(s: SE.Summary): (r: seq<string>)
    ensures 2 <= |r| <= 5 && r[0] == RecommendationsTitle && r[1] == Band(s) && r[2..] == Advice(s)
    ensures forall k :: 2 <= k < |r| ==> !IsBand(r[k])
  {
    RecommendationsDistinct();
    var advice := Advice(s);
    assert forall k :: 2 <= k < 2 + |advice| ==> ([RecommendationsTitle, Band(s)] + advice)[k] == advice[k - 2];
    [RecommendationsTitle, Band(s)] + advice
  }

  /** The band line present is the one for the percentage, and only that one. */
  lemma {:induction false} BandChosen(s: SE.Summary)
    ensures var r := RecommendationLines(s);
      && (Excellent in r <==> s.percentage >= 90.0)
      && (Good in r <==> 70.0 <= s.percentage < 90.0)
      && (KeepPracticing in r <==> s.percentage < 70.0)
  {
    var r := RecommendationLines(s);
    RecommendationsDistinct();
    InFrontOrTail(r, Excellent);
    InFrontOrTail(r, Good);
    InFrontOrTail(r, KeepPracticing);
  }

  /** Each advice line is present exactly when its condition holds. */
  lemma {:induction false} AdviceChosen(s: SE.Summary)
    ensures var r := RecommendationLines(s);
      && (IncludeRequired in r <==> s.missingRequiredSteps > 0)
      && (CheckPartial in r <==> s.partialSteps > 0)
      && (ReviewMethod in r <==> s.incorrectSteps > s.correctSteps)
  {
    var r := RecommendationLines(s);
    RecommendationsDistinct();
    InFrontOrTail(r, IncludeRequired);
    InFrontOrTail(r, CheckPartial);
    InFrontOrTail(r, ReviewMethod);
  }

  /** A line of `r` is one of its first two or a line of `r[2..]`. */
  lemma {:induction false} InFrontOrTail(r: seq<string>, x: string)
    requires |r| >= 2
    ensures x in r <==> x == r[0] || x == r[1] || x in r[2..]
  {
    assert r == [r[0], r[1]] + r[2..];
  }

  /** The band line for the percentage: 90 and up, 70 and up, below 70. */
  function Band(s: SE.Summary): (b: string)
    ensures b == Excellent <==> s.percentage >= 90.0
    ensures b == Good <==> 70.0 <= s.percentage < 90.0
    ensures b == KeepPracticing <==> s.percentage < 70.0
  {
    RecommendationsDistinct();
    if s.percentage >= 90.0 then Excellent
    else if s.percentage >= 70.0 then Good
    else KeepPracticing
  }

  /** The recommendation lines are pairwise different. */
  lemma {:induction false} RecommendationsDistinct()
    ensures !IsBand(RecommendationsTitle)
    ensures !IsAdvice(RecommendationsTitle)
    ensures Excellent != Good && Excellent != KeepPracticing && Good != KeepPracticing
    ensures !IsAdvice(Excellent) && !IsAdvice(Good) && !IsAdvice(KeepPracticing)
    ensures IncludeRequired != CheckPartial && IncludeRequired != ReviewMethod && CheckPartial != ReviewMethod
  {
    RecommendationMarks();
  }

  /** One of the three advice lines. */
  predicate IsAdvice(line: string)
  {
    line == IncludeRequired || line == CheckPartial || line == ReviewMethod
  }

  /** The advice lines after the band line: missing required steps, partial steps, more wrong than right. */
  function Advice(s: SE.Summary): (r: seq<string>)
    ensures |r| <= 3
    ensures IncludeRequired in r <==> s.missingRequiredSteps > 0
    ensures CheckPartial in r <==> s.partialSteps > 0
    ensures ReviewMethod in r <==> s.incorrectSteps > s.correctSteps
    ensures forall k :: 0 <= k < |r| ==> IsAdvice(r[k])
  {
    RecommendationsDistinct();
    Optional(s.missingRequiredSteps > 0, IncludeRequired)
      + Optional(s.partialSteps > 0, CheckPartial)
      + Optional(s.incorrectSteps > s.correctSteps, ReviewMethod)
  }

  /** `[line]` when `present`, else nothing. */
  function Optional(present: bool, line: string): (r: seq<string>)
    ensures line in r <==> present
    ensures |r| <= 1 && forall k :: 0 <= k < |r| ==> r[k] == line
  {
    if present then [line] else []
  }

  /** Lengths and next-to-last characters that tell the recommendation lines apart. */
  lemma {:induction false} RecommendationMarks()
    ensures |RecommendationsTitle| == 18
    ensures |Excellent| == 65 && Excellent[63] == 's'
    ensures |Good| == 60 && Good[58] == 't'
    ensures |KeepPracticing| == 63 && KeepPracticing[61] == 'y'
    ensures |IncludeRequired| == 61 && IncludeRequired[59] == 'n'
    ensures |CheckPartial| == 63 && CheckPartial[61] == 's'
    ensures |ReviewMethod| == 61 && ReviewMethod[59] == 's'
  {
  }

  /** Exactly one band line is chosen, whatever the summary. */
  lemma {:induction false} OneBand(s: SE.Summary)
    ensures BandCount(RecommendationLines(s)) == 1
  {
    var r := RecommendationLines(s);
    var title: seq<string> := [RecommendationsTitle];
    assert !IsBand(RecommendationsTitle);
    assert BandCount(title) == 0 by {
      assert title[..0] == [];
    }
    assert r[..2][..1] == title;
    assert BandCount(r[..2]) == 1;
    BandCountTail(r, 2);
  }

  /** Lines after index `from` that are not band lines leave the count unchanged. */
  lemma {:induction false} BandCountTail(r: seq<string>, from: nat)
    requires from <= |r|
    requires forall k :: from <= k < |r| ==> !IsBand(r[k])
    ensures BandCount(r) == BandCount(r[..from])
    decreases |r|
  {
    if |r| > from {
      var n := |r| - 1;
      assert r[..n][..from] == r[..from];
      BandCountTail(r[..n], from);
    } else {
      assert r[..from] == r;
    }
  }

  /** `_generate_recommendations`. */
  function Recommendations(s: SE.Summary): (r: string)
    ensures StartsWith(r, RecommendationsTitle)
  {
    var lines := RecommendationLines(s);
    JoinStartsWith(lines, "\n");
    Join(lines, "\n")
  }

  /** A joined list starts with its first element. */
  lemma {:induction false} JoinStartsWith(parts: seq<string>, sep: string)
    requires parts != []
    ensures StartsWith(Join(parts, sep), parts[0])
  {
    if |parts| > 1 {
      assert Join(parts, sep) == parts[0] + (sep + Join(parts[1..], sep));
    }
  }

  // ---------------------------------------------------------------------------------------------
  // The report
  // ---------------------------------------------------------------------------------------------

  /** The header line of the `i`-th step block. */
  function StepHeader(i: nat): string
  {
    "\nStep " + NatToString(i) + ":"
  }

  /** The lines for the `i`-th graded step. */
  function StepBlock(p: Printer, i: nat, g: GradedStep): (r: seq<string>)
    ensures |r| == (if g.matchedGoldStep.Some? then 5 else 3)
    ensures r[0] == StepHeader(i) && r[1] == "  Your answer: " + g.studentText
    ensures g.matchedGoldStep.Some? ==> r[2] == "  Expected: " + g.matchedGoldStep.value.text
    ensures forall k :: 1 <= k < |r| ==> StartsWith(r[k], "  ")
  {
    var expected :=
      if g.matchedGoldStep.Some? then
        ["  Expected: " + g.matchedGoldStep.value.text,
         "  Points: " + p.float(g.pointsEarned) + "/" + p.float(g.pointsPossible)]
      else [];
    [StepHeader(i), "  Your answer: " + g.studentText] + expected + ["  " + g.feedback]
  }

  /** The step blocks of `graded`, numbered from 1. */
  function Blocks(p: Printer, graded: seq<GradedStep>): seq<string>
  {
    if graded == [] then []
    else Blocks(p, graded[..|graded| - 1]) + StepBlock(p, |graded|, graded[|graded| - 1])
  }

  /** The lines that begin with a line break: in a report, exactly the step headers. */
  function Headers(lines: seq<string>): seq<string>
  {
    if lines == [] then []
    else
      var n := |lines| - 1;
      Headers(lines[..n]) + (if lines[n] != [] && lines[n][0] == '\n' then [lines[n]] else [])
  }

  lemma {:induction false} HeadersAppend(a: seq<string>, b: seq<string>)
    ensures Headers(a + b) == Headers(a) + Headers(b)
    decreases |b|
  {
    if b != [] {
      var n := |b| - 1;
      assert (a + b)[..|a + b| - 1] == a + b[..n];
      HeadersAppend(a, b[..n]);
    } else {
      assert a + b == a;
    }
  }

  lemma {:induction false} NoHeaders(lines: seq<string>)
    requires NoneStartWith(lines, '\n')
    ensures Headers(lines) == []
  {
    if lines != [] {
      NoHeaders(lines[..|lines| - 1]);
    }
  }

  /** The headers `"\nStep 1:"` … `"\nStep n:"`, in order. */
  function StepHeaders(n: nat): (r: seq<string>)
    ensures |r| == n && forall k :: 0 <= k < n ==> r[k] == StepHeader(k + 1)
  {
    if n == 0 then [] else StepHeaders(n - 1) + [StepHeader(n)]
  }

  /** The step blocks hold exactly one header per graded step, numbered from 1 in order. */
  lemma {:induction false} BlockHeaders(p: Printer, graded: seq<GradedStep>)
    ensures Headers(Blocks(p, graded)) == StepHeaders(|graded|)
  {
    if graded != [] {
      var n := |graded| - 1;
      var block := StepBlock(p, |graded|, graded[n]);
      BlockHeaders(p, graded[..n]);
      HeadersAppend(Blocks(p, graded[..n]), block);
      assert block == [block[0]] + block[1..];
      HeadersAppend([block[0]], block[1..]);
      assert NoneStartWith(block[1..], '\n') by {
        forall k | 0 <= k < |block[1..]|
          ensures block[1..][k] == [] || block[1..][k][0] != '\n'
        {
          assert StartsWith(block[k + 1], "  ");
        }
      }
      NoHeaders(block[1..]);
      assert Headers([block[0]]) == [StepHeader(|graded|)] by {
        assert [block[0]][..0] == [];
      }
    }
  }

  /** The report's head: the title between rules, the overall score, and the heading of the step breakdown. */
  function HeadLines(p: Printer, s: SE.Summary): seq<string>
  {
    [Rule, Title, Rule, "",
     "\U{1F4CA} OVERALL SCORE: " + p.float(s.totalPointsEarned) + "/" + p.float(s.totalPointsPossible)
       + " (" + p.oneDecimal(s.percentage) + "%)",
     "", BreakdownTitle, Dashes]
  }

  function StatisticsLines(s: SE.Summary): seq<string>
  {
    ["", Dashes, "", StatisticsTitle,
     "  \U{2713} Correct steps: " + NatToString(s.correctSteps),
     "  ~ Partial steps: " + NatToString(s.partialSteps),
     "  \U{2717} Incorrect steps: " + NatToString(s.incorrectSteps)]
  }

  /** The summary's missing indices all name gold steps, as they do for a summary of the scoring engine. */
  predicate IndicesInRange(s: SE.Summary, gold: seq<Step>)
  {
    forall k :: 0 <= k < |s.missingStepIndices| ==> s.missingStepIndices[k] < |gold|
  }

  /** The bullet for one missing gold step. */
  function MissingBullet(g: Step): string
  {
    "  \U{2022} Step " + IntToString(g.stepNumber) + ": " + g.text
  }

  /** The missing-required section: present iff the summary counts a missing step, one bullet per index. */
  function MissingLines(s: SE.Summary, gold: seq<Step>): (r: seq<string>)
    requires s.missingRequiredSteps > 0 ==> IndicesInRange(s, gold)
    ensures r != [] <==> s.missingRequiredSteps > 0
    ensures r != [] ==> |r| == 2 + |s.missingStepIndices| && r[1] == MissingTitle
    ensures r != [] ==> forall k :: 0 <= k < |s.missingStepIndices| ==> r[k + 2] == MissingBullet(gold[s.missingStepIndices[k]])
  {
    if s.missingRequiredSteps > 0 then
      var bullets := MissingBullets(s.missingStepIndices, gold);
      AfterTwo("", MissingTitle, bullets);
      ["", MissingTitle] + bullets
    else []
  }

  /** One bullet per index, in order. */
  function MissingBullets(indices: seq<nat>, gold: seq<Step>): (r: seq<string>)
    requires forall k :: 0 <= k < |indices| ==> indices[k] < |gold|
    ensures |r| == |indices| && forall k :: 0 <= k < |indices| ==> r[k] == MissingBullet(gold[indices[k]])
  {
    seq(|indices|, k requires 0 <= k < |indices| => MissingBullet(gold[indices[k]]))
  }

  function RecommendationBlock(s: SE.Summary, detailed: bool): seq<string>
  {
    if detailed then ["", Recommendations(s)] else []
  }

  /** Everything after the step blocks: statistics, missing steps, recommendations and the closing rule. */
  function ClosingLines(s: SE.Summary, gold: seq<Step>, detailed: bool): seq<string>
    requires s.missingRequiredSteps > 0 ==> IndicesInRange(s, gold)
  {
    StatisticsLines(s) + MissingLines(s, gold) + RecommendationBlock(s, detailed) + ["", Rule]
  }

  /** `generate_feedback`, before its lines are joined. */
  function FeedbackLines(p: Printer, detailed: bool, graded: seq<GradedStep>, s: SE.Summary, gold: seq<Step>): seq<string>
    requires s.missingRequiredSteps > 0 ==> IndicesInRange(s, gold)
  {
    HeadLines(p, s) + Blocks(p, graded) + ClosingLines(s, gold, detailed)
  }

  /** `generate_feedback`. */
  function GenerateFeedback(p: Printer, detailed: bool, graded: seq<GradedStep>, s: SE.Summary, gold: seq<Step>): (r: string)
    requires s.missingRequiredSteps > 0 ==> IndicesInRange(s, gold)
    ensures StartsWith(r, Rule)
  {
    var lines := FeedbackLines(p, detailed, graded, s, gold);
    JoinStartsWith(lines, "\n");
    Join(lines, "\n")
  }

  /** A line that begins with `c` occurs in `a + b + d` exactly when it occurs in `b`, if no line of `a` or `d` does. */
  lemma {:induction false} FindInMiddle(a: seq<string>, b: seq<string>, d: seq<string>, c: char, x: string)
    requires NoneStartWith(a, c) && NoneStartWith(d, c) && x != [] && x[0] == c
    ensures x in a + b + d <==> x in b
  {
    FindInTail(a, b + d, c, x);
    assert a + b + d == a + (b + d);
    assert x !in d by {
      forall k | 0 <= k < |d|
        ensures d[k] != x
      {
      }
    }
  }

  lemma {:induction false} HeadLinesStart(p: Printer, s: SE.Summary, c: char)
    requires c == '\n' || c == '\U{26A0}' || c == '\U{1F4A1}'
    ensures NoneStartWith(HeadLines(p, s), c)
  {
    assert Rule[0] == '=' && Dashes[0] == '-';
  }

  lemma {:induction false} StatisticsStart(s: SE.Summary, c: char)
    requires c == '\n' || c == '\U{26A0}' || c == '\U{1F4A1}'
    ensures NoneStartWith(StatisticsLines(s), c)
  {
    assert Dashes[0] == '-';
  }

  lemma {:induction false} MissingStart(s: SE.Summary, gold: seq<Step>, c: char)
    requires s.missingRequiredSteps > 0 ==> IndicesInRange(s, gold)
    requires c == '\n' || c == '\U{1F4A1}'
    ensures NoneStartWith(MissingLines(s, gold), c)
  {
    var missing := MissingLines(s, gold);
    forall k | 0 <= k < |missing|
      ensures missing[k] == [] || missing[k][0] != c
    {
      if k >= 2 {
        assert missing[k][0] == ' ';
      }
    }
  }

  lemma {:induction false} RecommendationStart(s: SE.Summary, detailed: bool, c: char)
    requires c == '\n' || c == '\U{26A0}'
    ensures NoneStartWith(RecommendationBlock(s, detailed), c)
  {
    if detailed {
      assert Recommendations(s)[0] == RecommendationsTitle[0];
    }
  }

  lemma {:induction false} FooterStart(c: char)
    requires c == '\n' || c == '\U{26A0}' || c == '\U{1F4A1}'
    ensures NoneStartWith(["", Rule], c)
  {
    assert Rule[0] == '=';
  }

  /** Step-block lines never begin with a section icon. */
  lemma {:induction false} BlockLinesStart(p: Printer, graded: seq<GradedStep>, c: char)
    requires c == '\U{26A0}' || c == '\U{1F4A1}'
    ensures NoneStartWith(Blocks(p, graded), c)
  {
    if graded != [] {
      var n := |graded| - 1;
      BlockLinesStart(p, graded[..n], c);
      var block := StepBlock(p, |graded|, graded[n]);
      assert block[0][0] == '\n';
      forall k | 1 <= k < |block|
        ensures block[k][0] != c
      {
        assert StartsWith(block[k], "  ");
      }
      NoneStartWithAppend(Blocks(p, graded[..n]), block, c);
    }
  }

  /** The report holds exactly one "Step i:" header per graded step, numbered from 1 in order. */
  lemma {:induction false} ReportStepHeaders(p: Printer, detailed: bool, graded: seq<GradedStep>, s: SE.Summary, gold: seq<Step>)
    requires s.missingRequiredSteps > 0 ==> IndicesInRange(s, gold)
    ensures Headers(FeedbackLines(p, detailed, graded, s, gold)) == StepHeaders(|graded|)
  {
    var stats, missing := StatisticsLines(s), MissingLines(s, gold);
    var recs, foot := RecommendationBlock(s, detailed), ["", Rule];
    HeadLinesStart(p, s, '\n');
    StatisticsStart(s, '\n');
    MissingStart(s, gold, '\n');
    RecommendationStart(s, detailed, '\n');
    FooterStart('\n');
    NoneStartWithAppend(stats, missing, '\n');
    NoneStartWithAppend(stats + missing, recs, '\n');
    NoneStartWithAppend(stats + missing + recs, foot, '\n');
    var head, blocks, closing := HeadLines(p, s), Blocks(p, graded), ClosingLines(s, gold, detailed);
    NoHeaders(head);
    NoHeaders(closing);
    BlockHeaders(p, graded);
    HeadersAppend(head, blocks);
    HeadersAppend(head + blocks, closing);
    calc {
      Headers(FeedbackLines(p, detailed, graded, s, gold));
      Headers(head + blocks + closing);
      Headers(head) + Headers(blocks) + Headers(closing);
      StepHeaders(|graded|);
    }
  }

  lemma {:induction false} ClosingMissingSection(s: SE.Summary, gold: seq<Step>, detailed: bool)
    requires s.missingRequiredSteps > 0 ==> IndicesInRange(s, gold)
    ensures MissingTitle in ClosingLines(s, gold, detailed) <==> s.missingRequiredSteps > 0
  {
    var c := '\U{26A0}';
    var stats, missing := StatisticsLines(s), MissingLines(s, gold);
    var recs, foot := RecommendationBlock(s, detailed), ["", Rule];
    StatisticsStart(s, c);
    RecommendationStart(s, detailed, c);
    FooterStart(c);
    NoneStartWithAppend(recs, foot, c);
    assert ClosingLines(s, gold, detailed) == stats + missing + (recs + foot);
    FindInMiddle(stats, missing, recs + foot, c, MissingTitle);
  }

  /** The missing-required section appears in the report iff the summary counts a missing required step. */
  lemma {:induction false} ReportMissingSection(p: Printer, detailed: bool, graded: seq<GradedStep>, s: SE.Summary, gold: seq<Step>)
    requires s.missingRequiredSteps > 0 ==> IndicesInRange(s, gold)
    ensures MissingTitle in FeedbackLines(p, detailed, graded, s, gold) <==> s.missingRequiredSteps > 0
  {
    var c := '\U{26A0}';
    HeadLinesStart(p, s, c);
    BlockLinesStart(p, graded, c);
    NoneStartWithAppend(HeadLines(p, s), Blocks(p, graded), c);
    ClosingMissingSection(s, gold, detailed);
    FindInTail(HeadLines(p, s) + Blocks(p, graded), ClosingLines(s, gold, detailed), c, MissingTitle);
  }

  lemma {:induction false} ClosingRecommendations(s: SE.Summary, gold: seq<Step>, detailed: bool)
    requires s.missingRequiredSteps > 0 ==> IndicesInRange(s, gold)
    ensures Recommendations(s) != [] && Recommendations(s)[0] == '\U{1F4A1}'
    ensures Recommendations(s) in ClosingLines(s, gold, detailed) <==> detailed
  {
    var c := '\U{1F4A1}';
    var stats, missing := StatisticsLines(s), MissingLines(s, gold);
    var recs, foot := RecommendationBlock(s, detailed), ["", Rule];
    var x := Recommendations(s);
    assert x[0] == c by {
      assert x[0] == RecommendationsTitle[0];
    }
    StatisticsStart(s, c);
    MissingStart(s, gold, c);
    FooterStart(c);
    NoneStartWithAppend(stats, missing, c);
    FindInMiddle(stats + missing, recs, foot, c, x);
  }

  /** The recommendations appear in the report iff the generator is detailed. */
  lemma {:induction false} ReportRecommendations(p: Printer, detailed: bool, graded: seq<GradedStep>, s: SE.Summary, gold: seq<Step>)
    requires s.missingRequiredSteps > 0 ==> IndicesInRange(s, gold)
    ensures Recommendations(s) in FeedbackLines(p, detailed, graded, s, gold) <==> detailed
  {
    var c := '\U{1F4A1}';
    HeadLinesStart(p, s, c);
    BlockLinesStart(p, graded, c);
    NoneStartWithAppend(HeadLines(p, s), Blocks(p, graded), c);
    ClosingRecommendations(s, gold, detailed);
    FindInTail(HeadLines(p, s) + Blocks(p, graded), ClosingLines(s, gold, detailed), c, Recommendations(s));
  }

  // ---------------------------------------------------------------------------------------------
  // The summary table
  // ---------------------------------------------------------------------------------------------

  /** `_status_icon`; `None` stands for a value outside the status enumeration. */
  function StatusIcon(status: Option<Status>): (r: string)
    ensures |r| == 1
    ensures r == "?" <==> status.None?
  {
    match status
    case Some(Correct) => "\U{2713}"
    case Some(PartiallyCorrect) => "~"
    case Some(Incorrect) => "\U{2717}"
    case Some(NotAttempted) => "\U{25CB}"
    case None => "?"
  }

  /** Distinct statuses get distinct icons. */
  lemma {:induction false} StatusIconInjective(a: Status, b: Status)
    requires StatusIcon(Some(a)) == StatusIcon(Some(b))
    ensures a == b
  {
    assert StatusIcon(Some(a))[0] == StatusIcon(Some(b))[0];
  }

  const Limit: nat := 50
  const Ellipsis: string := "..."

  /** `s[:50] + '...' if len(s) > 50 else s`. */
  function Truncate(s: string): (r: string)
    ensures |r| <= Limit + |Ellipsis|
    ensures |s| <= Limit ==> r == s
    ensures |s| > Limit ==> |r| == Limit + |Ellipsis| && r[..Limit] == s[..Limit] && EndsWith(r, Ellipsis)
  {
    if |s| > Limit then s[..Limit] + Ellipsis else s
  }

  /** Truncating twice is truncating once: a truncated text keeps its first 50 characters. */
  lemma {:induction false} TruncateIdempotent(s: string)
    ensures Truncate(Truncate(s)) == Truncate(s)
  {
    if |s| > Limit {
      assert Truncate(s)[..Limit] == s[..Limit];
    }
  }

  datatype Row = Row(step: nat, studentAnswer: string, expected: string, status: string, points: string)

  const NotAvailable: string := "N/A"

  /** The table row for the `i`-th graded step. */
  function TableRow(p: Printer, i: nat, g: GradedStep): (r: Row)
    ensures r.step == i && r.studentAnswer == Truncate(g.studentText)
    ensures g.matchedGoldStep.Some? ==> r.expected == Truncate(g.matchedGoldStep.value.text)
    ensures g.matchedGoldStep.None? ==> r.expected == NotAvailable
    ensures r.status == StatusIcon(Some(g.status)) && r.status != "?"
    ensures g.pointsPossible <= 0.0 ==> r.points == NotAvailable
    ensures g.pointsPossible > 0.0 ==> StartsWith(r.points, p.float(g.pointsEarned) + "/")
  {
    var points :=
      if g.pointsPossible > 0.0 then p.float(g.pointsEarned) + "/" + p.float(g.pointsPossible)
      else NotAvailable;
    Row(i,
        Truncate(g.studentText),
        if g.matchedGoldStep.Some? then Truncate(g.matchedGoldStep.value.text) else NotAvailable,
        StatusIcon(Some(g.status)),
        points)
  }

  /** `generate_summary_table`: one row per graded step, numbered from 1 in order. */
  function SummaryTable(p: Printer, graded: seq<GradedStep>): (r: seq<Row>)
    ensures |r| == |graded|
    ensures forall k :: 0 <= k < |r| ==> r[k] == TableRow(p, k + 1, graded[k])
  {
    if graded == [] then []
    else SummaryTable(p, graded[..|graded| - 1]) + [TableRow(p, |graded|, graded[|graded| - 1])]
  }

  /** Some required gold step is not among the matched ones. */
  predicate RequiredUnmatched(gold: seq<Step>, matched: set<nat>)
  {
    exists i :: 0 <= i < |gold| && gold[i].required && i !in matched
  }

  /**
   * For the summary of a graded submission, the report's missing section is well defined
   * and present exactly when some required gold step was matched by no student step.
   */
  lemma {:induction false} SubmissionReport(s: SE.Scorer, o: SE.ME.Comparators, students: seq<string>, gold: seq<Step>)
    ensures var summary := SE.GradeSubmission(s, o, students, gold).1;
      && IndicesInRange(summary, gold)
      && (summary.missingRequiredSteps > 0 <==> RequiredUnmatched(gold, SE.Run(s, o, students, gold).matched))
  {
    var st := SE.Run(s, o, students, gold);
    var summary := SE.GradeSubmission(s, o, students, gold).1;
    SE.MissingAtEnd(s, o, students, gold);
    var m := summary.missingStepIndices;
    assert Has: forall i :: i in m <==> 0 <= i < |gold| && gold[i].required && i !in st.matched;
    assert IndicesInRange(summary, gold) by {
      forall k | 0 <= k < |m|
        ensures m[k] < |gold|
      {
        assert m[k] in m;
      }
    }
    if RequiredUnmatched(gold, st.matched) {
      var i :| 0 <= i < |gold| && gold[i].required && i !in st.matched;
      assert i in m;
    }
    if summary.missingRequiredSteps > 0 {
      assert m[0] in m;
    }
  }
}
