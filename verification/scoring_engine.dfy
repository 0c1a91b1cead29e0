/**
 * `ScoringEngine.grade_submission`: each non-blank student step is matched against the gold
 * steps not matched yet, earns the gold step's points times the match score, and has them
 * multiplied by the penalty factor when a required gold step with a smaller index is still
 * missing. The points are kept as exact reals; `round(x, 2)` is not modelled.
 *
 * Matching is pure, so the scores of every student step against every gold step are computed
 * first (`ScoreTable`); the loop then reads them. `find_best_match` over the reduced list of
 * unmatched gold steps is the same as `BestOf` over the reduced row (`ChooseIsFindBestMatch`).
 */
module ScoringEngine {
  import opened Wrappers
  import opened Text
  import opened Sums
  import opened GradingStep
  import ME = MatchingEngine

  datatype Scorer = Scorer(engine: ME.Engine, penaltyFactor: real)

  const DefaultPenaltyFactor: real := 0.5

  /** The gold indices below `n` that are not matched yet, ascending. */
  function Available(n: nat, matched: set<nat>): (r: seq<nat>)
    ensures Lists(r, n, matched)
  {
    if n == 0 then []
    else
      var prefix := Available(n - 1, matched);
      if n - 1 in matched then prefix else prefix + [n - 1]
  }

  /** `available` lists the indices below `n` outside `matched` in ascending order. */
  predicate Lists(available: seq<nat>, n: nat, matched: set<nat>)
  {
    && (forall k :: 0 <= k < |available| ==> available[k] < n && available[k] !in matched)
    && (forall i :: 0 <= i < n && i !in matched ==> i in available)
    && Ascending(available)
  }

  /** `[gold_solution[i] for i in available]`. */
  function Candidates(gold: seq<Step>, available: seq<nat>): (r: seq<Step>)
    requires forall k :: 0 <= k < |available| ==> available[k] < |gold|
    ensures |r| == |available| && forall k :: 0 <= k < |r| ==> r[k] == gold[available[k]]
  {
    seq(|available|, k requires 0 <= k < |available| => gold[available[k]])
  }

  /** The entries of a score row at the listed indices. */
  function Reduce(rs: seq<ME.Scored>, available: seq<nat>): (r: seq<ME.Scored>)
    requires forall k :: 0 <= k < |available| ==> available[k] < |rs|
    ensures |r| == |available| && forall k :: 0 <= k < |r| ==> r[k] == rs[available[k]]
  {
    seq(|available|, k requires 0 <= k < |available| => rs[available[k]])
  }

  /** Scoring the reduced candidate list is reducing the full row of scores. */
  lemma {:induction false} ChooseIsFindBestMatch(e: ME.Engine, o: ME.Comparators, text: string, gold: seq<Step>, matched: set<nat>)
    ensures var available := Available(|gold|, matched);
      ME.FindBestMatch(e, o, text, Candidates(gold, available))
        == ME.BestOf(Reduce(ME.Scores(e, o, text, gold), available))
  {
    var available := Available(|gold|, matched);
    assert ME.Scores(e, o, text, Candidates(gold, available)) == Reduce(ME.Scores(e, o, text, gold), available);
  }

  /** Every score of a row lies in [0, 1]. */
  predicate ValidRow(rs: seq<ME.Scored>)
  {
    forall j :: 0 <= j < |rs| ==> 0.0 <= rs[j].score <= 1.0
  }

  /** `rs[a]` is the first unmatched score that no other unmatched score beats. */
  predicate FirstBestUnmatched(rs: seq<ME.Scored>, matched: set<nat>, a: nat, score: real)
  {
    && a < |rs| && a !in matched
    && rs[a].score == score
    && (forall j :: 0 <= j < |rs| && j !in matched ==> rs[j].score <= score)
    && (forall j :: 0 <= j < a && j !in matched ==> rs[j].score < score)
  }

  /** The first best of the reduced row is, mapped back, the first best unmatched gold index. */
  lemma {:induction false} RemapFirstBest(rs: seq<ME.Scored>, available: seq<nat>, matched: set<nat>, k: nat, score: real)
    requires Lists(available, |rs|, matched)
    requires ME.FirstBest(Reduce(rs, available), k, score)
    ensures FirstBestUnmatched(rs, matched, available[k], score)
  {
    var crs := Reduce(rs, available);
    var a := available[k];
    forall j | 0 <= j < |rs| && j !in matched
      ensures rs[j].score <= score
      ensures j < a ==> rs[j].score < score
    {
      var l :| 0 <= l < |available| && available[l] == j;
      assert crs[l] == rs[j];
      if j < a {
        assert l < k;
      }
    }
  }

  /** When nothing in the reduced row reaches the bar, no unmatched gold index does. */
  lemma {:induction false} RemapNone(rs: seq<ME.Scored>, available: seq<nat>, matched: set<nat>, bar: real)
    requires Lists(available, |rs|, matched)
    requires forall l :: 0 <= l < |available| ==> Reduce(rs, available)[l].score < bar
    ensures forall j :: 0 <= j < |rs| && j !in matched ==> rs[j].score < bar
  {
    forall j | 0 <= j < |rs| && j !in matched
      ensures rs[j].score < bar
    {
      var l :| 0 <= l < |available| && available[l] == j;
      assert Reduce(rs, available)[l] == rs[j];
    }
  }

  /**
   * The search of one student step, given its row of scores against all gold steps:
   * `find_best_match` over the unmatched gold steps, with the index it returns into that
   * reduced list mapped back to the gold index.
   */
  function Choose(rs: seq<ME.Scored>, matched: set<nat>): (c: ME.Best)
    requires ValidRow(rs)
    ensures c.index.None? ==> c == ME.NoBest
    ensures c.index.None? <==> forall j :: 0 <= j < |rs| && j !in matched ==> rs[j].score < ME.MinimumMatch
    ensures c.index.Some? ==>
      && ME.MinimumMatch <= c.score <= 1.0
      && FirstBestUnmatched(rs, matched, c.index.value, c.score)
      && rs[c.index.value].strategy == c.strategy
  {
    var available := Available(|rs|, matched);
    var best := ME.BestOf(Reduce(rs, available));
    match best.index
    case None =>
      RemapNone(rs, available, matched, ME.MinimumMatch);
      best
    case Some(k) =>
      RemapFirstBest(rs, available, matched, k, best.score);
      ME.Best(Some(available[k]), best.score, best.strategy)
  }

  /** The required gold indices below `n` that are not matched, ascending. */
  function MissingOf(gold: seq<Step>, matched: set<nat>, n: nat): seq<nat>
    requires n <= |gold|
  {
    if n == 0 then []
    else MissingOf(gold, matched, n - 1) + (if gold[n - 1].required && n - 1 !in matched then [n - 1] else [])
  }

  /** The missing list holds exactly the required unmatched indices below `n`. */
  lemma {:induction false} MissingOfHas(gold: seq<Step>, matched: set<nat>, n: nat)
    requires n <= |gold|
    ensures forall i :: i in MissingOf(gold, matched, n) <==> 0 <= i < n && gold[i].required && i !in matched
  {
    if n > 0 {
      MissingOfHas(gold, matched, n - 1);
    }
  }

  predicate Ascending(xs: seq<nat>)
  {
    forall k, l :: 0 <= k < l < |xs| ==> xs[k] < xs[l]
  }

  /** The missing list is ascending. */
  lemma {:induction false} MissingOfSorted(gold: seq<Step>, matched: set<nat>, n: nat)
    requires n <= |gold|
    ensures Ascending(MissingOf(gold, matched, n))
  {
    if n > 0 {
      MissingOfSorted(gold, matched, n - 1);
      var m := MissingOf(gold, matched, n - 1);
      var tail := if gold[n - 1].required && n - 1 !in matched then [n - 1] else [];
      assert MissingOf(gold, matched, n) == m + tail;
      MissingOfHas(gold, matched, n - 1);
      var r := m + tail;
      forall k, l | 0 <= k < l < |r|
        ensures r[k] < r[l]
      {
        assert r[k] == m[k] && m[k] in m;
        assert m[k] < n - 1;
        if l == |m| {
          assert r[l] == n - 1;
        } else {
          assert r[l] == m[l];
        }
      }
    }
  }

  /** `xs.remove(x)`: drops the first occurrence. */
  function RemoveFirst(xs: seq<nat>, x: nat): (r: seq<nat>)
    requires x in xs
    ensures |r| == |xs| - 1
  {
    if xs[0] == x then xs[1..] else [xs[0]] + RemoveFirst(xs[1..], x)
  }

  lemma {:induction false} RemoveFirstAppend(xs: seq<nat>, ys: seq<nat>, x: nat)
    requires x in xs
    ensures RemoveFirst(xs + ys, x) == RemoveFirst(xs, x) + ys
  {
    assert (xs + ys)[0] == xs[0];
    if xs[0] != x {
      assert (xs + ys)[1..] == xs[1..] + ys;
      RemoveFirstAppend(xs[1..], ys, x);
    }
  }

  lemma {:induction false} RemoveLast(xs: seq<nat>, x: nat)
    requires x !in xs
    ensures RemoveFirst(xs + [x], x) == xs
  {
    if xs != [] {
      assert (xs + [x])[1..] == xs[1..] + [x];
      RemoveLast(xs[1..], x);
    }
  }

  /** Matching an index at or above `n` does not change the missing indices below `n`. */
  lemma {:induction false} MissingOfAbove(gold: seq<Step>, matched: set<nat>, a: nat, n: nat)
    requires n <= |gold| && n <= a
    ensures MissingOf(gold, matched + {a}, n) == MissingOf(gold, matched, n)
  {
    if n > 0 {
      MissingOfAbove(gold, matched, a, n - 1);
    }
  }

  /** The index `n - 1` is the last candidate for the missing list below `n`. */
  lemma {:induction false} MissingAfterMatchLast(gold: seq<Step>, matched: set<nat>, n: nat)
    requires 0 < n <= |gold| && n - 1 !in matched
    ensures var m := MissingOf(gold, matched, n); var a := n - 1;
      (if gold[a].required && a in m then RemoveFirst(m, a) else m) == MissingOf(gold, matched + {a}, n)
  {
    var a := n - 1;
    var m := MissingOf(gold, matched, a);
    MissingOfHas(gold, matched, a);
    assert a !in m;
    MissingOfAbove(gold, matched, a, a);
    assert MissingOf(gold, matched + {a}, n) == m;
    if gold[a].required {
      assert MissingOf(gold, matched, n) == m + [a];
      RemoveLast(m, a);
    } else {
      assert MissingOf(gold, matched, n) == m;
    }
  }

  /**
   * Removing a newly matched index from the missing list, as `grade_submission` does, gives
   * the missing list of the enlarged matched set.
   */
  lemma {:induction false} MissingAfterMatch(gold: seq<Step>, matched: set<nat>, a: nat, n: nat)
    requires n <= |gold| && a < |gold| && a !in matched
    ensures var m := MissingOf(gold, matched, n);
      (if gold[a].required && a in m then RemoveFirst(m, a) else m) == MissingOf(gold, matched + {a}, n)
  {
    if n <= a {
      MissingAfterMatchAbove(gold, matched, a, n);
    } else if a == n - 1 {
      MissingAfterMatchLast(gold, matched, n);
    } else {
      MissingAfterMatch(gold, matched, a, n - 1);
      MissingAfterMatchStep(gold, matched, a, n);
    }
  }

  /** A match at or above `n` leaves the missing list below `n` alone. */
  lemma {:induction false} MissingAfterMatchAbove(gold: seq<Step>, matched: set<nat>, a: nat, n: nat)
    requires n <= |gold| && n <= a && a < |gold|
    ensures var m := MissingOf(gold, matched, n);
      (if gold[a].required && a in m then RemoveFirst(m, a) else m) == MissingOf(gold, matched + {a}, n)
  {
    MissingOfHas(gold, matched, n);
    assert a !in MissingOf(gold, matched, n);
    MissingOfAbove(gold, matched, a, n);
  }

  /** The step from `n - 1` to `n` of `MissingAfterMatch`, for a match below `n - 1`. */
  lemma {:induction false} MissingAfterMatchStep(gold: seq<Step>, matched: set<nat>, a: nat, n: nat)
    requires 0 < n <= |gold| && a < n - 1 && a !in matched
    requires var m := MissingOf(gold, matched, n - 1);
      (if gold[a].required && a in m then RemoveFirst(m, a) else m) == MissingOf(gold, matched + {a}, n - 1)
    ensures var m := MissingOf(gold, matched, n);
      (if gold[a].required && a in m then RemoveFirst(m, a) else m) == MissingOf(gold, matched + {a}, n)
  {
    var pm, pm' := MissingOf(gold, matched, n - 1), MissingOf(gold, matched + {a}, n - 1);
    var tail := if gold[n - 1].required && n - 1 !in matched then [n - 1] else [];
    assert MissingOf(gold, matched, n) == pm + tail;
    assert MissingOf(gold, matched + {a}, n) == pm' + tail;
    RemoveBeforeTail(pm, pm', tail, a, gold[a].required);
  }

  /** Removing `a` from a list that ends with a tail without `a` leaves the tail in place. */
  lemma {:induction false} RemoveBeforeTail(pm: seq<nat>, pm': seq<nat>, tail: seq<nat>, a: nat, required: bool)
    requires a !in tail
    requires (if required && a in pm then RemoveFirst(pm, a) else pm) == pm'
    ensures (if required && a in pm + tail then RemoveFirst(pm + tail, a) else pm + tail) == pm' + tail
  {
    if required && a in pm {
      RemoveFirstAppend(pm, tail, a);
    }
  }

  /** `Correct` from 0.95, `Partially Correct` from 0.5, otherwise `Incorrect`. */
  function StatusFor(score: real): (s: Status)
    ensures s == Correct <==> score >= 0.95
    ensures s == PartiallyCorrect <==> 0.5 <= score < 0.95
    ensures s == Incorrect <==> score < 0.5
  {
    if score >= 0.95 then Correct else if score >= 0.5 then PartiallyCorrect else Incorrect
  }

  /** The `:.0f` format of a real, as an integer: to the nearest, ties to the even neighbour. */
  function RoundHalfEven(x: real): (n: int)
    ensures x - 0.5 <= n as real <= x + 0.5
  {
    var f := x.Floor;
    var fraction := x - f as real;
    if fraction > 0.5 then f + 1
    else if fraction < 0.5 then f
    else if f % 2 == 0 then f
    else f + 1
  }

  const PenaltyNote: string := "\n\U{26A0}\U{FE0F} Half credit: required earlier step(s) missing"
  const NoMatchFeedback: string := "No matching step found in gold solution"

  /** The first part of a step's feedback: the verdict, with a note on how the match was made. */
  function VerdictParts(status: Status, score: real, strategy: ME.Strategy): (parts: seq<string>)
    ensures |parts| >= 1
    ensures status == Correct ==> parts[0] == "\U{2713} Correct!"
    ensures status == PartiallyCorrect ==> StartsWith(parts[0], "~ Partially correct (")
    ensures status !in {Correct, PartiallyCorrect} ==> parts == ["\U{2717} Incorrect"]
    ensures parts[|parts| - 1] != [] && parts[|parts| - 1][|parts[|parts| - 1]| - 1] in {'!', ')', 't'}
  {
    match status
    case Correct =>
      if strategy == ME.SymbolicEquivalent then ["\U{2713} Correct!", "(Mathematically equivalent)"]
      else if strategy == ME.ExactMatch then ["\U{2713} Correct!", "(Perfect match)"]
      else ["\U{2713} Correct!"]
    case PartiallyCorrect =>
      var percent := RoundHalfEven(score * 100.0);
      var head := "~ Partially correct (" + IntToString(percent) + "% match)";
      assert StartsWith(head, "~ Partially correct (") by {
        assert head[..21] == "~ Partially correct (";
      }
      if strategy == ME.DerivationSubstring then [head, "(Valid but incomplete)"]
      else if strategy == ME.TextSimilarity then [head, "(Similar but not exact)"]
      else [head]
    case _ => ["\U{2717} Incorrect"]
  }

  /** `_generate_step_feedback`: the parts joined by spaces, with the penalty note last when applied. */
  function StepFeedback(status: Status, score: real, strategy: ME.Strategy, penaltyApplied: bool): (f: string)
    ensures StartsWith(f, VerdictParts(status, score, strategy)[0])
    ensures EndsWith(f, PenaltyNote) <==> penaltyApplied
  {
    var verdict := VerdictParts(status, score, strategy);
    NoteLastChar();
    WithNote(verdict, PenaltyNote, penaltyApplied);
    Join(if penaltyApplied then verdict + [PenaltyNote] else verdict, " ")
  }

  /** The penalty note ends in a character no verdict ends in. */
  lemma {:induction false} NoteLastChar()
    ensures |PenaltyNote| > 0 && PenaltyNote[|PenaltyNote| - 1] == 'g'
  {
  }

  /** The verdict joined with the note appended exactly when `penalty` holds. */
  lemma {:induction false} WithNote(verdict: seq<string>, note: string, penalty: bool)
    requires verdict != [] && note != [] && verdict[|verdict| - 1] != []
    requires verdict[|verdict| - 1][|verdict[|verdict| - 1]| - 1] != note[|note| - 1]
    ensures var f := Join(if penalty then verdict + [note] else verdict, " ");
      StartsWith(f, verdict[0]) && (EndsWith(f, note) <==> penalty)
  {
    var parts := if penalty then verdict + [note] else verdict;
    JoinStartsWith(parts, " ");
    JoinEndsWith(parts, " ");
    var f := Join(parts, " ");
    if penalty {
      assert parts[0] == verdict[0] && parts[|parts| - 1] == note;
    } else {
      EndsWithLast(f, verdict[|verdict| - 1]);
      if EndsWith(f, note) {
        EndsWithLast(f, note);
      }
    }
  }

  /** A string ends with the last character of any non-empty suffix it has. */
  lemma {:induction false} EndsWithLast(f: string, suffix: string)
    requires EndsWith(f, suffix) && suffix != []
    ensures f[|f| - 1] == suffix[|suffix| - 1]
  {
    assert f[|f| - |suffix|..][|suffix| - 1] == f[|f| - 1];
  }

  lemma {:induction false} JoinStartsWith(parts: seq<string>, sep: string)
    requires parts != []
    ensures StartsWith(Join(parts, sep), parts[0])
  {
  }

  lemma {:induction false} JoinEndsWith(parts: seq<string>, sep: string)
    requires parts != []
    ensures EndsWith(Join(parts, sep), parts[|parts| - 1])
  {
    if |parts| > 1 {
      JoinEndsWith(parts[1..], sep);
    }
  }

  /** The points earned are the gold points times the match score, times the factor when penalised. */
  predicate EarnsPoints(g: GradedStep, goldPoints: real, penaltyFactor: real)
  {
    g.pointsEarned == goldPoints * g.matchScore * (if g.penaltyApplied then penaltyFactor else 1.0)
  }

  /** The gold points scaled by the score, and by the penalty factor when the penalty applies. */
  function StepPoints(points: real, score: real, penalty: bool, penaltyFactor: real): (e: real)
    ensures e == points * score * (if penalty then penaltyFactor else 1.0)
  {
    var basePoints := points * score;
    if penalty then basePoints * penaltyFactor else basePoints
  }

  /** The graded step for a student step that matched gold step `a` with `score`. */
  function MatchedStep(s: Scorer, gold: seq<Step>, text: string, a: nat, score: real, strategy: ME.Strategy,
                       missing: seq<nat>): (g: GradedStep)
    requires a < |gold|
    ensures g.studentText == text && g.matchedGoldStep == Some(gold[a])
    ensures g.status == StatusFor(score) && g.matchScore == score && g.pointsPossible == gold[a].points
    ensures g.penaltyApplied <==> SomeBelow(missing, a)
    ensures g.pointsEarned == StepPoints(gold[a].points, score, g.penaltyApplied, s.penaltyFactor)
  {
    var penalty := SomeBelow(missing, a);
    var status := StatusFor(score);
    var earned := StepPoints(gold[a].points, score, penalty, s.penaltyFactor);
    GradedStep(text, Some(gold[a]), status, earned, gold[a].points, score, StepFeedback(status, score, strategy, penalty), penalty)
  }

  /** A matched step earns the gold points times its score, times the factor when penalised. */
  lemma {:induction false} MatchedStepEarns(s: Scorer, gold: seq<Step>, text: string, a: nat, score: real,
                                             strategy: ME.Strategy, missing: seq<nat>)
    requires a < |gold|
    ensures EarnsPoints(MatchedStep(s, gold, text, a, score, strategy, missing), gold[a].points, s.penaltyFactor)
  {
    var g := MatchedStep(s, gold, text, a, score, strategy, missing);
    assert g.matchScore == score;
  }

  /** The graded step for a student step that matched nothing. */
  function UnmatchedStep(text: string): (g: GradedStep)
    ensures g.studentText == text && g.matchedGoldStep.None? && g.status == Incorrect
    ensures g.pointsEarned == 0.0 && g.pointsPossible == 0.0 && g.matchScore == 0.0 && !g.penaltyApplied
    ensures g.feedback == NoMatchFeedback
  {
    GradedStep(text, None, Incorrect, 0.0, 0.0, 0.0, NoMatchFeedback, false)
  }

  /** The outcome of grading one step: the record, the gold index it took, and the new missing list. */
  datatype Outcome = Outcome(graded: GradedStep, index: Option<nat>, missing: seq<nat>)

  /** The matched set after an outcome. */
  function After(matched: set<nat>, index: Option<nat>): set<nat>
  {
    if index.Some? then matched + {index.value} else matched
  }

  /**
   * What one step records: a match exactly when some unmatched gold step scores at least 0.5,
   * the first best of them, never as Incorrect, with the penalty exactly when a smaller required
   * index is still unmatched; otherwise the no-match record.
   */
  predicate Recorded(s: Scorer, rs: seq<ME.Scored>, gold: seq<Step>, matched: set<nat>, text: string, r: Outcome)
    requires |rs| == |gold|
  {
    && r.graded.studentText == text
    && (r.index.None? <==> forall j :: 0 <= j < |rs| && j !in matched ==> rs[j].score < ME.MinimumMatch)
    && (r.index.None? ==> r.graded == UnmatchedStep(text))
    && (r.index.Some? ==>
         var a := r.index.value;
         && FirstBestUnmatched(rs, matched, a, r.graded.matchScore)
         && ME.MinimumMatch <= r.graded.matchScore <= 1.0
         && r.graded.matchedGoldStep == Some(gold[a])
         && r.graded.status != Incorrect && r.graded.status == StatusFor(r.graded.matchScore)
         && r.graded.pointsPossible == gold[a].points
         && (r.graded.penaltyApplied <==> EarlierRequiredMissing(gold, matched, a))
         && EarnsPoints(r.graded, gold[a].points, s.penaltyFactor))
  }

  /** One pass of the loop body of `grade_submission`, for a non-blank student step with score row `rs`. */
  function GradeStep(s: Scorer, rs: seq<ME.Scored>, gold: seq<Step>, matched: set<nat>, missing: seq<nat>, text: string)
    : (r: Outcome)
    requires |rs| == |gold| && ValidRow(rs)
    requires missing == MissingOf(gold, matched, |gold|)
    ensures Agrees(gold, r.graded, r.index) && r.graded.studentText == text
    ensures r.index.Some? ==> r.index.value !in matched
    ensures r.missing == MissingOf(gold, After(matched, r.index), |gold|)
  {
    var c := Choose(rs, matched);
    match c.index
    case None =>
      Outcome(UnmatchedStep(text), None, missing)
    case Some(a) =>
      var left := if gold[a].required && a in missing then RemoveFirst(missing, a) else missing;
      MissingAfterMatch(gold, matched, a, |gold|);
      Outcome(MatchedStep(s, gold, text, a, c.score, c.strategy, left), Some(a), left)
  }

  /** Some entry of `xs` is smaller than `a`. */
  predicate SomeBelow(xs: seq<nat>, a: nat)
  {
    exists k :: 0 <= k < |xs| && xs[k] < a
  }

  /** A required gold step before index `a` is not matched. */
  predicate EarlierRequiredMissing(gold: seq<Step>, matched: set<nat>, a: nat)
    requires a <= |gold|
  {
    exists i :: 0 <= i < a && gold[i].required && i !in matched
  }

  /** Some entry of the missing list lies below `a` exactly when a required unmatched index does. */
  lemma {:induction false} PenaltyCondition(gold: seq<Step>, matched: set<nat>, a: nat)
    requires a < |gold|
    ensures SomeBelow(MissingOf(gold, matched + {a}, |gold|), a) <==> EarlierRequiredMissing(gold, matched, a)
  {
    var left := MissingOf(gold, matched + {a}, |gold|);
    MissingOfHas(gold, matched + {a}, |gold|);
    if SomeBelow(left, a) {
      var k :| 0 <= k < |left| && left[k] < a;
      assert left[k] in left;
    }
    if EarlierRequiredMissing(gold, matched, a) {
      var i :| 0 <= i < a && gold[i].required && i !in matched;
      assert i in left;
      var k :| 0 <= k < |left| && left[k] == i;
    }
  }

  /** The rule that scores one step, stated against its row of scores. */
  lemma {:induction false} GradeStepRecorded(s: Scorer, rs: seq<ME.Scored>, gold: seq<Step>, matched: set<nat>, missing: seq<nat>, text: string)
    requires |rs| == |gold| && ValidRow(rs)
    requires missing == MissingOf(gold, matched, |gold|)
    ensures Recorded(s, rs, gold, matched, text, GradeStep(s, rs, gold, matched, missing, text))
  {
    var r := GradeStep(s, rs, gold, matched, missing, text);
    var c := Choose(rs, matched);
    match c.index
    case None =>
      assert r == Outcome(UnmatchedStep(text), None, missing);
    case Some(a) =>
      var left := if gold[a].required && a in missing then RemoveFirst(missing, a) else missing;
      MissingAfterMatch(gold, matched, a, |gold|);
      assert left == MissingOf(gold, matched + {a}, |gold|);
      PenaltyCondition(gold, matched, a);
      var g := MatchedStep(s, gold, text, a, c.score, c.strategy, left);
      MatchedStepEarns(s, gold, text, a, c.score, c.strategy, left);
      assert r == Outcome(g, Some(a), left);
      assert g.penaltyApplied <==> EarlierRequiredMissing(gold, matched, a);
      assert g.status != Incorrect;
  }

  /** The bookkeeping of `grade_submission`'s loop. */
  datatype State = State(graded: seq<GradedStep>, indices: seq<Option<nat>>, matched: set<nat>, missing: seq<nat>)

  /** The non-blank student steps, in order: the ones `grade_submission` grades. */
  function NonBlank(students: seq<string>): (r: seq<string>)
    ensures forall k :: 0 <= k < |r| ==> !IsBlank(r[k])
    ensures |r| <= |students|
    ensures r == DropBlank(students)
  {
    if students == [] then []
    else
      var n := |students| - 1;
      assert students[..n] + [students[n]] == students;
      DropBlankSnoc(students[..n], students[n]);
      NonBlank(students[..n]) + (if IsBlank(students[n]) then [] else [students[n]])
  }

  /** The gold indices named by the recorded matches. */
  function IndexSet(indices: seq<Option<nat>>): set<nat>
  {
    if indices == [] then {}
    else
      var n := |indices| - 1;
      After(IndexSet(indices[..n]), indices[n])
  }

  lemma {:induction false} IndexSetHas(indices: seq<Option<nat>>, j: nat)
    ensures j in IndexSet(indices) <==> exists k :: 0 <= k < |indices| && indices[k] == Some(j)
  {
    if indices != [] {
      var n := |indices| - 1;
      IndexSetHas(indices[..n], j);
      if exists k :: 0 <= k < n && indices[..n][k] == Some(j) {
        var k :| 0 <= k < n && indices[..n][k] == Some(j);
        assert indices[k] == Some(j);
      }
      if exists k :: 0 <= k < |indices| && indices[k] == Some(j) {
        var k :| 0 <= k < |indices| && indices[k] == Some(j);
        if k < n {
          assert indices[..n][k] == Some(j);
        }
      }
    }
  }

  /** No gold index is matched twice. */
  predicate Distinct(indices: seq<Option<nat>>)
  {
    forall a, b :: 0 <= a < b < |indices| && indices[a].Some? ==> indices[a] != indices[b]
  }

  /** A graded step agrees with the gold index recorded beside it. */
  predicate Agrees(gold: seq<Step>, g: GradedStep, index: Option<nat>)
  {
    && g.status != NotAttempted
    && (index.None? <==> g.matchedGoldStep.None?)
    && (index.None? ==> g.status == Incorrect && g.pointsEarned == 0.0)
    && (index.Some? ==> g.status != Incorrect)
    && (index.Some? ==> index.value < |gold| && g.matchedGoldStep == Some(gold[index.value]))
  }

  /** The bookkeeping of the loop agrees with the graded steps. */
  predicate Consistent(gold: seq<Step>, st: State)
  {
    && |st.indices| == |st.graded|
    && st.matched == IndexSet(st.indices)
    && (forall i :: i in st.matched ==> i < |gold|)
    && st.missing == MissingOf(gold, st.matched, |gold|)
    && Distinct(st.indices)
    && (forall k :: 0 <= k < |st.graded| ==> Agrees(gold, st.graded[k], st.indices[k]))
  }

  /** Appending an outcome that takes an unmatched index keeps the bookkeeping consistent. */
  lemma {:induction false} Extend(gold: seq<Step>, st: State, r: Outcome)
    requires Consistent(gold, st)
    requires Agrees(gold, r.graded, r.index)
    requires r.index.Some? ==> r.index.value !in st.matched
    requires r.missing == MissingOf(gold, After(st.matched, r.index), |gold|)
    ensures Consistent(gold, Append(st, r))
  {
    var indices := st.indices + [r.index];
    var graded := st.graded + [r.graded];
    var last := |st.indices|;
    assert indices[..last] == st.indices;
    forall a, b | 0 <= a < b < |indices| && indices[a].Some?
      ensures indices[a] != indices[b]
    {
      assert indices[a] == st.indices[a];
      if b == last {
        IndexSetHas(st.indices, indices[a].value);
      } else {
        assert indices[b] == st.indices[b];
      }
    }
    forall k | 0 <= k < |graded|
      ensures Agrees(gold, graded[k], indices[k])
    {
      if k < last {
        assert graded[k] == st.graded[k] && indices[k] == st.indices[k];
      }
    }
  }

  function Append(st: State, r: Outcome): State
  {
    State(st.graded + [r.graded], st.indices + [r.index], After(st.matched, r.index), r.missing)
  }

  /** Every row has one score per gold step, each in [0, 1]. */
  predicate ValidTable(table: seq<seq<ME.Scored>>, goldCount: nat)
  {
    forall k :: 0 <= k < |table| ==> |table[k]| == goldCount && ValidRow(table[k])
  }

  /** The scores of every student text against every gold step. */
  function ScoreTable(e: ME.Engine, o: ME.Comparators, gold: seq<Step>, texts: seq<string>): (table: seq<seq<ME.Scored>>)
    ensures |table| == |texts| && ValidTable(table, |gold|)
    ensures forall k :: 0 <= k < |texts| ==> table[k] == ME.Scores(e, o, texts[k], gold)
  {
    seq(|texts|, k requires 0 <= k < |texts| => ME.Scores(e, o, texts[k], gold))
  }

  /** The loop of `grade_submission` over the non-blank student steps, in order. */
  function GradeRows(s: Scorer, gold: seq<Step>, texts: seq<string>, table: seq<seq<ME.Scored>>): (st: State)
    requires |table| == |texts| && ValidTable(table, |gold|)
    ensures Consistent(gold, st)
    ensures GradesTexts(st.graded, texts)
  {
    if texts == [] then State([], [], {}, MissingOf(gold, {}, |gold|))
    else
      var n := |texts| - 1;
      var prev := GradeRows(s, gold, texts[..n], table[..n]);
      var r := GradeStep(s, table[n], gold, prev.matched, prev.missing, texts[n]);
      Extend(gold, prev, r);
      AppendTexts(prev.graded, r.graded, texts);
      Append(prev, r)
  }

  /** The graded steps are those of `texts`, one each, in order. */
  predicate GradesTexts(graded: seq<GradedStep>, texts: seq<string>)
  {
    |graded| == |texts| && forall k :: 0 <= k < |texts| ==> graded[k].studentText == texts[k]
  }

  lemma {:induction false} AppendTexts(graded: seq<GradedStep>, g: GradedStep, texts: seq<string>)
    requires texts != [] && GradesTexts(graded, texts[..|texts| - 1]) && g.studentText == texts[|texts| - 1]
    ensures GradesTexts(graded + [g], texts)
  {
    var n := |texts| - 1;
    forall k | 0 <= k < |texts|
      ensures (graded + [g])[k].studentText == texts[k]
    {
      if k < n {
        assert texts[..n][k] == texts[k];
      }
    }
  }

  function Earned(graded: seq<GradedStep>): (r: seq<real>)
    ensures |r| == |graded| && forall k :: 0 <= k < |r| ==> r[k] == graded[k].pointsEarned
  {
    seq(|graded|, k requires 0 <= k < |graded| => graded[k].pointsEarned)
  }

  function GoldPoints(gold: seq<Step>): (r: seq<real>)
    ensures |r| == |gold| && forall k :: 0 <= k < |r| ==> r[k] == gold[k].points
  {
    seq(|gold|, k requires 0 <= k < |gold| => gold[k].points)
  }

  /** How many graded steps have the given status. */
  function Count(graded: seq<GradedStep>, status: Status): (n: nat)
    ensures n <= |graded|
  {
    if graded == [] then 0
    else Count(graded[..|graded| - 1], status) + (if graded[|graded| - 1].status == status then 1 else 0)
  }

  /** Without `Not Attempted` steps, the three counts add up to the number of graded steps. */
  lemma {:induction false} CountsAddUp(graded: seq<GradedStep>)
    requires forall k :: 0 <= k < |graded| ==> graded[k].status != NotAttempted
    ensures Count(graded, Correct) + Count(graded, PartiallyCorrect) + Count(graded, Incorrect) == |graded|
  {
    if graded != [] {
      CountsAddUp(graded[..|graded| - 1]);
    }
  }

  datatype Summary = Summary(
    totalPointsEarned: real,
    totalPointsPossible: real,
    percentage: real,
    correctSteps: nat,
    partialSteps: nat,
    incorrectSteps: nat,
    totalStepsGraded: nat,
    totalStepsExpected: nat,
    missingRequiredSteps: nat,
    missingStepIndices: seq<nat>)

  /** `_calculate_summary`. */
  function CalculateSummary(graded: seq<GradedStep>, gold: seq<Step>, missing: seq<nat>): (r: Summary)
    ensures r.totalPointsEarned == Sum(Earned(graded))
    ensures r.totalPointsPossible == Sum(GoldPoints(gold))
    ensures r.totalPointsPossible > 0.0 ==> r.percentage == r.totalPointsEarned / r.totalPointsPossible * 100.0
    ensures r.totalPointsPossible <= 0.0 ==> r.percentage == 0.0
    ensures r.correctSteps == Count(graded, Correct) && r.partialSteps == Count(graded, PartiallyCorrect)
    ensures r.incorrectSteps == Count(graded, Incorrect)
    ensures r.totalStepsGraded == |graded| && r.totalStepsExpected == |gold|
    ensures r.missingRequiredSteps == |missing| && r.missingStepIndices == missing
  {
    var earned := Sum(Earned(graded));
    var possible := Sum(GoldPoints(gold));
    Summary(earned, possible, if possible > 0.0 then earned / possible * 100.0 else 0.0,
            Count(graded, Correct), Count(graded, PartiallyCorrect), Count(graded, Incorrect),
            |graded|, |gold|, |missing|, missing)
  }

  /** The loop state after grading a submission. */
  function Run(s: Scorer, o: ME.Comparators, students: seq<string>, gold: seq<Step>): (st: State)
    ensures Consistent(gold, st)
    ensures GradesTexts(st.graded, NonBlank(students))
  {
    var texts := NonBlank(students);
    GradeRows(s, gold, texts, ScoreTable(s.engine, o, gold, texts))
  }

  /** `grade_submission`: the graded steps and their summary. */
  function GradeSubmission(s: Scorer, o: ME.Comparators, students: seq<string>, gold: seq<Step>)
    : (r: (seq<GradedStep>, Summary))
    ensures var st := Run(s, o, students, gold);
      r.0 == st.graded && r.1 == CalculateSummary(st.graded, gold, st.missing)
    ensures GradesTexts(r.0, NonBlank(students))
    ensures r.1.correctSteps + r.1.partialSteps + r.1.incorrectSteps == r.1.totalStepsGraded
  {
    var st := Run(s, o, students, gold);
    CountsAddUp(st.graded);
    (st.graded, CalculateSummary(st.graded, gold, st.missing))
  }

  /** A product of gold points, a score in [0, 1] and a factor in [0, 1] lies between 0 and the points. */
  lemma {:induction false} ScaledPoints(points: real, score: real, factor: real)
    requires 0.0 <= points && 0.0 <= score <= 1.0 && 0.0 <= factor <= 1.0
    ensures 0.0 <= points * score * factor <= points
    ensures 0.0 <= points * score <= points
  {
    assert points * score <= points * 1.0;
    assert points * score * factor <= points * score * 1.0;
  }

  /** What one step may earn: nothing when it takes no gold step, at most that gold step's points otherwise. */
  predicate EarnedWithin(gold: seq<Step>, r: Outcome)
  {
    && 0.0 <= r.graded.pointsEarned
    && (r.index.None? ==> r.graded.pointsEarned == 0.0)
    && (r.index.Some? ==> r.index.value < |gold| && r.graded.pointsEarned <= gold[r.index.value].points)
  }

  lemma {:induction false} RecordedEarnedWithin(s: Scorer, rs: seq<ME.Scored>, gold: seq<Step>, matched: set<nat>, text: string, r: Outcome)
    requires |rs| == |gold| && 0.0 <= s.penaltyFactor <= 1.0 && AllNonNegative(GoldPoints(gold))
    requires r.index.Some? ==> r.index.value < |gold|
    requires Recorded(s, rs, gold, matched, text, r)
    ensures EarnedWithin(gold, r)
  {
    if r.index.Some? {
      var a := r.index.value;
      var g := r.graded;
      var f := if g.penaltyApplied then s.penaltyFactor else 1.0;
      assert GoldPoints(gold)[a] == gold[a].points;
      assert 0.0 <= gold[a].points;
      assert 0.0 <= g.matchScore <= 1.0;
      assert 0.0 <= f <= 1.0;
      var p, sc := gold[a].points, g.matchScore;
      assert g.pointsEarned == p * sc * f;
      ScaledPoints(p, sc, f);
      assert p * sc * f <= p;
      assert g.pointsEarned <= gold[a].points;
    }
  }

  /** One step earns at most the points of the gold step it takes, and nothing when it takes none. */
  lemma {:induction false} StepEarnedWithin(s: Scorer, rs: seq<ME.Scored>, gold: seq<Step>, matched: set<nat>, missing: seq<nat>, text: string)
    requires |rs| == |gold| && ValidRow(rs)
    requires missing == MissingOf(gold, matched, |gold|)
    requires 0.0 <= s.penaltyFactor <= 1.0 && AllNonNegative(GoldPoints(gold))
    ensures EarnedWithin(gold, GradeStep(s, rs, gold, matched, missing, text))
  {
    var r := GradeStep(s, rs, gold, matched, missing, text);
    GradeStepRecorded(s, rs, gold, matched, missing, text);
    RecordedEarnedWithin(s, rs, gold, matched, text, r);
  }

  /** The points earned so far never exceed the points of the gold steps matched so far. */
  lemma {:induction false} EarnedWithinMatched(s: Scorer, gold: seq<Step>, texts: seq<string>, table: seq<seq<ME.Scored>>)
    requires |table| == |texts| && ValidTable(table, |gold|)
    requires 0.0 <= s.penaltyFactor <= 1.0 && AllNonNegative(GoldPoints(gold))
    ensures var st := GradeRows(s, gold, texts, table);
      0.0 <= Sum(Earned(st.graded)) <= SumOver(GoldPoints(gold), st.matched, |gold|)
  {
    var st := GradeRows(s, gold, texts, table);
    if texts == [] {
      SumOverNothing(GoldPoints(gold), |gold|);
    } else {
      var n := |texts| - 1;
      var prev := GradeRows(s, gold, texts[..n], table[..n]);
      EarnedWithinMatched(s, gold, texts[..n], table[..n]);
      var r := GradeStep(s, table[n], gold, prev.matched, prev.missing, texts[n]);
      StepEarnedWithin(s, table[n], gold, prev.matched, prev.missing, texts[n]);
      GradeRowsStep(s, gold, texts, table);
      AppendEarnedWithin(gold, prev, r);
    }
  }

  /** The grading of a non-empty list is the grading of all but its last step, extended by that step. */
  lemma {:induction false} GradeRowsStep(s: Scorer, gold: seq<Step>, texts: seq<string>, table: seq<seq<ME.Scored>>)
    requires |table| == |texts| && ValidTable(table, |gold|) && texts != []
    ensures var n := |texts| - 1; var prev := GradeRows(s, gold, texts[..n], table[..n]);
      GradeRows(s, gold, texts, table) == Append(prev, GradeStep(s, table[n], gold, prev.matched, prev.missing, texts[n]))
  {
  }

  /** Appending a step that earns within its gold step keeps the earned total within the matched points. */
  lemma {:induction false} AppendEarnedWithin(gold: seq<Step>, prev: State, r: Outcome)
    requires 0.0 <= Sum(Earned(prev.graded)) <= SumOver(GoldPoints(gold), prev.matched, |gold|)
    requires EarnedWithin(gold, r) && (r.index.Some? ==> r.index.value !in prev.matched)
    ensures var st := Append(prev, r);
      0.0 <= Sum(Earned(st.graded)) <= SumOver(GoldPoints(gold), st.matched, |gold|)
  {
    var st := Append(prev, r);
    assert Earned(st.graded) == Earned(prev.graded) + [r.graded.pointsEarned];
    SumAppend(Earned(prev.graded), r.graded.pointsEarned);
    if r.index.Some? {
      SumOverInsert(GoldPoints(gold), prev.matched, r.index.value, |gold|);
    }
  }

  /**
   * With non-negative gold points and a penalty factor in [0, 1], the points earned lie
   * between 0 and the points possible, and the percentage between 0 and 100.
   */
  lemma {:induction false} SummaryBounds(s: Scorer, o: ME.Comparators, students: seq<string>, gold: seq<Step>)
    requires 0.0 <= s.penaltyFactor <= 1.0 && AllNonNegative(GoldPoints(gold))
    ensures var summary := GradeSubmission(s, o, students, gold).1;
      && 0.0 <= summary.totalPointsEarned <= summary.totalPointsPossible
      && 0.0 <= summary.percentage <= 100.0
  {
    var texts := NonBlank(students);
    var table := ScoreTable(s.engine, o, gold, texts);
    var st := GradeRows(s, gold, texts, table);
    EarnedWithinMatched(s, gold, texts, table);
    var points := GoldPoints(gold);
    SumOverBounds(points, st.matched, |points|);
    assert points[..|points|] == points;
    var summary := GradeSubmission(s, o, students, gold).1;
    if summary.totalPointsPossible > 0.0 {
      Quotient(summary.totalPointsEarned, summary.totalPointsPossible);
    }
  }

  /**
   * At the end the missing list holds exactly the required gold indices that no student
   * step matched, in ascending order, and a matched student step is never Incorrect.
   */
  lemma {:induction false} MissingAtEnd(s: Scorer, o: ME.Comparators, students: seq<string>, gold: seq<Step>)
    ensures var st := Run(s, o, students, gold); var summary := GradeSubmission(s, o, students, gold).1;
      && Ascending(summary.missingStepIndices)
      && summary.missingRequiredSteps == |summary.missingStepIndices|
      && (forall i :: i in summary.missingStepIndices <==> 0 <= i < |gold| && gold[i].required && i !in st.matched)
      && (forall i :: i in st.matched <==> exists k :: 0 <= k < |st.indices| && st.indices[k] == Some(i))
      && (forall k :: 0 <= k < |st.graded| ==> (st.graded[k].matchedGoldStep.Some? <==> st.graded[k].status != Incorrect))
  {
    var st := Run(s, o, students, gold);
    ConsistentFacts(gold, st);
  }

  /** What consistent bookkeeping says about the missing list, the matched set and the statuses. */
  lemma {:induction false} ConsistentFacts(gold: seq<Step>, st: State)
    requires Consistent(gold, st)
    ensures && Ascending(st.missing)
      && (forall i :: i in st.missing <==> 0 <= i < |gold| && gold[i].required && i !in st.matched)
      && (forall i :: i in st.matched <==> exists k :: 0 <= k < |st.indices| && st.indices[k] == Some(i))
      && (forall k :: 0 <= k < |st.graded| ==> (st.graded[k].matchedGoldStep.Some? <==> st.graded[k].status != Incorrect))
  {
    MissingOfHas(gold, st.matched, |gold|);
    MissingOfSorted(gold, st.matched, |gold|);
    forall i: nat
      ensures i in st.matched <==> exists k :: 0 <= k < |st.indices| && st.indices[k] == Some(i)
    {
      IndexSetHas(st.indices, i);
    }
    forall k | 0 <= k < |st.graded|
      ensures st.graded[k].matchedGoldStep.Some? <==> st.graded[k].status != Incorrect
    {
      assert Agrees(gold, st.graded[k], st.indices[k]);
    }
  }
}
