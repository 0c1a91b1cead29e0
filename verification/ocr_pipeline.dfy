/**
 * The text half of the OCR pipeline: the normalisation of recognised text, the splitting of
 * a line that holds several equations, the detection and removal of step labels, the
 * buffer-and-flush segmentation of lines into steps, and the final filter of the extracted
 * steps. Recognising text in an image is not modelled: the recognised text of each page is
 * an input, and the table of OCR-error substitutions is a parameter `fix`.
 */
module OcrPipeline {
  import opened Wrappers
  import opened Text
  import opened Patterns

  // ---------------------------------------------------------------------------------------------
  // `_normalize_ocr_text`
  // ---------------------------------------------------------------------------------------------

  /** Every line break is whitespace. */
  lemma {:induction false} LineBreakIsSpace(c: char)
    requires IsLineBreak(c)
    ensures IsSpace(c)
  {
  }

  /**
   * `_normalize_ocr_text`: the substitution table `fix`, then every whitespace run becomes one
   * space and the ends are stripped.
   */
  function NormalizeOcr(text: string, fix: string -> string): (r: string)
    ensures SingleSpaced(r) && Trimmed(r)
    ensures forall i :: 0 <= i < |r| ==> !IsLineBreak(r[i])
  {
    var r := Squeeze(fix(text));
    forall i | 0 <= i < |r|
      ensures !IsLineBreak(r[i])
    {
      if IsLineBreak(r[i]) {
        LineBreakIsSpace(r[i]);
      }
    }
    r
  }

  // ---------------------------------------------------------------------------------------------
  // `_looks_like_new_step` and `_strip_step_prefix`
  // ---------------------------------------------------------------------------------------------

  /** `_looks_like_new_step`: `step N`, a number then `)`, `.` or a space, or a letter then `)`, on the lower-cased line. */
  predicate LooksLikeNewStep(line: string)
  {
    var l := Lower(line);
    MatchesStart(StepLabel, l) || MatchesStart(NumberLabel, l) || MatchesStart(LetterParen, l)
  }

  /** The end of the step label the prefix pattern removes: its alternatives in order. */
  function LabelEnd(line: string): (r: Option<nat>)
    ensures r.Some? ==> 0 < r.value <= |line|
  {
    var step, number, letter := MatchAt(StepLabel, line, 0), MatchAt(NumberLabel, line, 0), MatchAt(LetterParen, line, 0);
    if step.Some? then Some(step.value.end)
    else if number.Some? then Some(number.value.end)
    else if letter.Some? then Some(letter.value.end)
    else None
  }

  /** `_strip_step_prefix`: the label and the spaces after it removed, then stripped. */
  function StripStepPrefix(line: string): (r: string)
    ensures Trimmed(r)
    ensures LabelEnd(line).Some? ==> |r| < |line|
    ensures LabelEnd(line).None? ==> r == Strip(line)
  {
    var e := LabelEnd(line);
    if e.Some? then Strip(line[SkipSpaces(line, e.value)..]) else Strip(line)
  }

  lemma {:induction false} StepLabelLower(s: string)
    ensures MatchesStart(StepLabel, Lower(s)) == MatchesStart(StepLabel, s)
  {
    LowerClasses();
    WordAtLower(s, 0, "step");
    if 4 <= |s| {
      SkipLower(s, 4, IsSpace);
      SkipLower(s, SkipSpaces(s, 4), IsDigit);
    }
  }

  lemma {:induction false} NumberLabelLower(s: string)
    ensures MatchesStart(NumberLabel, Lower(s)) == MatchesStart(NumberLabel, s)
  {
    LowerClasses();
    SkipLower(s, 0, IsDigit);
    var d := SkipDigits(s, 0);
    if d < |s| {
      var c := s[d];
      assert Lower(s)[d] == LowerChar(c);
      assert LowerChar(c) == ')' <==> c == ')';
      assert LowerChar(c) == '.' <==> c == '.';
    }
  }

  lemma {:induction false} LetterParenLower(s: string)
    ensures MatchesStart(LetterParen, Lower(s)) == MatchesStart(LetterParen, s)
  {
    LowerClasses();
    if 1 < |s| {
      var c, d := s[0], s[1];
      assert Lower(s)[0] == LowerChar(c) && Lower(s)[1] == LowerChar(d);
      assert LowerChar(d) == ')' <==> d == ')';
    }
  }

  /**
   * The detector and the remover agree: a line looks like a new step exactly when the
   * case-insensitive prefix pattern finds a label to remove.
   */
  lemma {:induction false} NewStepIffLabel(line: string)
    ensures LooksLikeNewStep(line) <==> LabelEnd(line).Some?
  {
    StepLabelLower(line);
    NumberLabelLower(line);
    LetterParenLower(line);
  }

  /** Removing the prefix of a line that looks like a new step makes it strictly shorter. */
  lemma {:induction false} NewStepPrefixRemoved(line: string)
    requires LooksLikeNewStep(line)
    ensures |StripStepPrefix(line)| < |line|
  {
    NewStepIffLabel(line);
  }

  // ---------------------------------------------------------------------------------------------
  // `_split_line_into_steps`
  // ---------------------------------------------------------------------------------------------

  /** Cut points in order, all within the line. */
  predicate Ascending(points: seq<nat>, n: nat)
  {
    && (forall i :: 0 <= i < |points| ==> points[i] <= n)
    && (forall i :: 0 <= i < |points| - 1 ==> points[i] <= points[i + 1])
  }

  /** A piece strategies 2 and 3 keep: not blank, stripped, holding `=`. */
  predicate EquationPiece(x: string)
  {
    !IsBlank(x) && Trimmed(x) && '=' in x
  }

  /** The stripped pieces between consecutive cut points that are non-empty and hold `=`. */
  function Pieces(line: string, points: seq<nat>): (r: seq<string>)
    requires Ascending(points, |line|)
    ensures forall k :: 0 <= k < |r| ==> EquationPiece(r[k])
    ensures |r| <= |points|
  {
    PiecesFrom(line, points, 0)
  }

  /** The pieces from cut point `i` on. */
  function PiecesFrom(line: string, points: seq<nat>, i: nat): (r: seq<string>)
    requires Ascending(points, |line|) && i <= |points|
    ensures forall k :: 0 <= k < |r| ==> EquationPiece(r[k])
    ensures |r| <= |points| - i
    decreases |points| - i
  {
    if i + 1 >= |points| then []
    else
      var piece := Strip(line[points[i]..points[i + 1]]);
      var rest := PiecesFrom(line, points, i + 1);
      if piece != [] && '=' in piece then
        assert EquationPiece(piece);
        [piece] + rest
      else rest
  }

  function Ends(found: seq<Found>): (r: seq<nat>)
    ensures |r| == |found| && forall k :: 0 <= k < |found| ==> r[k] == found[k].end
  {
    if found == [] then [] else [found[0].end] + Ends(found[1..])
  }

  /** `0`, the ends of the matches of `p`, and the length of the line, in order. */
  function MatchEndPoints(p: Pattern, line: string): (r: seq<nat>)
    ensures Ascending(r, |line|)
    ensures |r| == |FindAll(p, line, 0)| + 2
  {
    var found := FindAll(p, line, 0);
    EndsAscending(found, |line|);
    [0] + Ends(found) + [|line|]
  }

  /** The ends of ordered, non-overlapping matches within `n`, between `0` and `n`, ascend. */
  lemma {:induction false} EndsAscending(found: seq<Found>, n: nat)
    requires forall k :: 0 <= k < |found| ==> found[k].start < found[k].end <= n
    requires forall k :: 0 <= k < |found| - 1 ==> found[k].end <= found[k + 1].start
    ensures Ascending([0] + Ends(found) + [n], n)
  {
    var r := [0] + Ends(found) + [n];
    forall i | 0 <= i < |r| - 1
      ensures r[i] <= r[i + 1]
    {
      if 0 < i < |r| - 2 {
        assert r[i] == found[i - 1].end && r[i + 1] == found[i].end;
      }
    }
  }

  /** Strategies 2 and 3: cut after every match of `p`, keep the pieces with `=`, if more than one. */
  function CutAfterMatches(p: Pattern, line: string): (r: Option<seq<string>>)
    ensures r.Some? ==> |r.value| > 1
    ensures r.Some? ==> forall k :: 0 <= k < |r.value| ==> EquationPiece(r.value[k])
  {
    if FindAll(p, line, 0) == [] then None
    else
      var steps := Pieces(line, MatchEndPoints(p, line));
      if |steps| > 1 then Some(steps) else None
  }

  /** The first match of `=\s*0\s+\(` begins the split: two pieces, then what follows the match. */
  lemma {:induction false} ZeroSplitShape(line: string)
    requires Occurs(ZeroThenParen, line)
    ensures var parts := SplitKeep(ZeroThenParen, line);
      |parts| >= 3 && 1 + |Join(parts[2..], "")| < |line|
  {
    var found := FindAll(ZeroThenParen, line, 0);
    var m := found[0];
    FindAllMatches(ZeroThenParen, line, 0);
    FindAllFirst(ZeroThenParen, line, 0);
    SplitKeepFirst(ZeroThenParen, line, 0, 0, m.start, Hit(m.groupEnd, m.end));
    var rest := SplitFrom(ZeroThenParen, line, m.end, m.end, true);
    var parts := SplitKeep(ZeroThenParen, line);
    assert parts[2..] == rest;
    assert m.end >= m.start + 2;
  }

  /**
   * Strategy 1: split after `= 0` where a parenthesis follows; the text after it, with its `(`
   * put back, is split again when it holds `=`.
   */
  function ZeroSplit(line: string): (r: seq<string>)
    requires Occurs(ZeroThenParen, line)
    ensures forall k :: 0 <= k < |r| ==> !IsBlank(r[k])
    decreases |line|, 0
  {
    var parts := SplitKeep(ZeroThenParen, line);
    ZeroSplitShape(line);
    var remaining := "(" + Join(parts[2..], "");
    var tail :=
      if !IsBlank(remaining) && '=' in remaining then SplitLineIntoSteps(remaining)
      else if !IsBlank(remaining) then [Strip(remaining)]
      else [];
    StrippedPiece(parts[0] + parts[1]) + tail
  }

  /** The stripped text as a single step, or nothing when it is blank. */
  function StrippedPiece(x: string): (r: seq<string>)
    ensures |r| <= 1
    ensures r == [] <==> IsBlank(x)
    ensures forall k :: 0 <= k < |r| ==> !IsBlank(r[k]) && r[k] == Strip(x)
  {
    var first := Strip(x);
    if first != [] then [first] else []
  }

  /**
   * `_split_line_into_steps`: the three strategies in order, each taken only when it yields
   * more than one step; otherwise the line itself, unless it is blank.
   */
  function SplitLineIntoSteps(line: string): (r: seq<string>)
    ensures IsBlank(line) ==> r == []
    ensures r == [] ==> IsBlank(line)
    ensures forall k :: 0 <= k < |r| ==> !IsBlank(r[k])
    decreases |line|, 1
  {
    if IsBlank(line) then []
    else
      var s1 := if Occurs(ZeroThenParen, line) then ZeroSplit(line) else [];
      FirstSplit(s1, Cut(line), line)
  }

  /** The first strategy if it split the line, else strategies 2 and 3, else the line itself. */
  function FirstSplit(s1: seq<string>, cut: Option<seq<string>>, line: string): (r: seq<string>)
    requires !IsBlank(line) && forall k :: 0 <= k < |s1| ==> !IsBlank(s1[k])
    requires cut.Some? ==> |cut.value| > 1 && forall k :: 0 <= k < |cut.value| ==> EquationPiece(cut.value[k])
    ensures r != [] && forall k :: 0 <= k < |r| ==> !IsBlank(r[k])
  {
    if |s1| > 1 then s1
    else if cut.Some? then
      assert forall k :: 0 <= k < |cut.value| ==> !IsBlank(cut.value[k]) by {
        forall k | 0 <= k < |cut.value|
          ensures !IsBlank(cut.value[k])
        {
          assert EquationPiece(cut.value[k]);
        }
      }
      cut.value
    else [line]
  }

  /** Strategy 2, then strategy 3 for a long line with at least two `=`. */
  function Cut(line: string): (r: Option<seq<string>>)
    ensures r.Some? ==> |r.value| > 1
    ensures r.Some? ==> forall k :: 0 <= k < |r.value| ==> EquationPiece(r.value[k])
  {
    var s2 := CutAfterMatches(ParenZeroThenStart, line);
    if s2.Some? then s2
    else if |line| > 30 && multiset(line)['='] >= 2 then CutAfterMatches(ParenNumberThenLetter, line)
    else None
  }

  /** A line no strategy splits comes back as the only step. */
  lemma {:induction false} NoSplitKeepsLine(line: string)
    requires !IsBlank(line)
    requires |(if Occurs(ZeroThenParen, line) then ZeroSplit(line) else [])| <= 1
    requires Cut(line).None?
    ensures SplitLineIntoSteps(line) == [line]
  {
  }

  /** The steps of strategies 2 and 3 all hold `=`: only the first strategy and the fallback may not. */
  lemma {:induction false} CutStepsHoldEquals(line: string)
    requires !IsBlank(line)
    requires var s1 := if Occurs(ZeroThenParen, line) then ZeroSplit(line) else []; |s1| <= 1
    requires CutAfterMatches(ParenZeroThenStart, line).Some? || (|line| > 30 && multiset(line)['='] >= 2 && CutAfterMatches(ParenNumberThenLetter, line).Some?)
    ensures var r := SplitLineIntoSteps(line); |r| > 1 && forall k :: 0 <= k < |r| ==> '=' in r[k]
  {
  }

  // ---------------------------------------------------------------------------------------------
  // `_segment_steps` and `_flush_buffer`
  // ---------------------------------------------------------------------------------------------

  /** The loop state: the lines of the step being collected, and the steps so far. */
  datatype Segmenter = Segmenter(buffer: seq<string>, steps: seq<string>)

  /** `_flush_buffer`: a non-empty buffer becomes one more step, its lines joined by spaces. */
  function FlushBuffer(st: Segmenter): (r: Segmenter)
    ensures r.buffer == []
    ensures |r.steps| == |st.steps| + (if st.buffer == [] then 0 else 1)
    ensures r.steps[..|st.steps|] == st.steps
    ensures st.buffer != [] ==> r.steps[|st.steps|] == Join(st.buffer, " ")
  {
    if st.buffer != [] then Segmenter([], st.steps + [Join(st.buffer, " ")]) else Segmenter([], st.steps)
  }

  /** One pass of the loop of `_segment_steps` over a stripped line. */
  function Feed(st: Segmenter, line: string): (r: Segmenter)
    ensures |r.steps| >= |st.steps| && r.steps[..|st.steps|] == st.steps
    ensures line == [] ==> r == FlushBuffer(st)
    ensures line != [] && |SplitLineIntoSteps(line)| <= 1 && LooksLikeNewStep(line) ==>
      r.buffer == [StripStepPrefix(line)] && r.steps == FlushBuffer(st).steps
    ensures line != [] && |SplitLineIntoSteps(line)| <= 1 && !LooksLikeNewStep(line) ==>
      r == Segmenter(st.buffer + [line], st.steps)
  {
    if line == [] then FlushBuffer(st)
    else
      var potential := SplitLineIntoSteps(line);
      if |potential| > 1 then
        var f := FlushBuffer(st);
        assert (f.steps + potential)[..|st.steps|] == f.steps[..|st.steps|];
        Segmenter([], f.steps + potential)
      else if LooksLikeNewStep(line) then
        var f := FlushBuffer(st);
        Segmenter([StripStepPrefix(line)], f.steps)
      else
        Segmenter(st.buffer + [line], st.steps)
  }

  function FeedAll(st: Segmenter, lines: seq<string>): (r: Segmenter)
    ensures |r.steps| >= |st.steps| && r.steps[..|st.steps|] == st.steps
    decreases |lines|
  {
    if lines == [] then st
    else
      var next := Feed(st, lines[0]);
      var r := FeedAll(next, lines[1..]);
      assert r.steps[..|st.steps|] == r.steps[..|next.steps|][..|st.steps|];
      r
  }

  function StripAll(lines: seq<string>): (r: seq<string>)
    ensures |r| == |lines| && forall k :: 0 <= k < |lines| ==> r[k] == Strip(lines[k])
  {
    if lines == [] then [] else [Strip(lines[0])] + StripAll(lines[1..])
  }

  /** `_segment_steps`: normalise, then feed the stripped lines and flush at the end. */
  function SegmentSteps(text: string, fix: string -> string): seq<string>
  {
    var lines := StripAll(SplitLines(NormalizeOcr(text, fix)));
    FlushBuffer(FeedAll(Segmenter([], []), lines)).steps
  }

  /** What a single line of text segments into. */
  function OneLine(line: string): seq<string>
  {
    var potential := SplitLineIntoSteps(line);
    if |potential| > 1 then potential
    else if LooksLikeNewStep(line) then [StripStepPrefix(line)]
    else [line]
  }

  /**
   * Normalisation turns every line break into a space, so the line loop of `_segment_steps`
   * sees at most one line: the result is that line's steps, or nothing for a blank text.
   */
  lemma {:induction false} SegmentSeesOneLine(text: string, fix: string -> string)
    ensures var n := NormalizeOcr(text, fix);
      SegmentSteps(text, fix) == (if n == [] then [] else OneLine(n))
  {
    var n := NormalizeOcr(text, fix);
    SplitLinesSingle(n);
    if n != [] {
      StripOfStripped(n);
      assert StripAll([n]) == [n];
      assert FeedAll(Segmenter([], []), [n]) == Feed(Segmenter([], []), n);
      FeedOnce(n);
    }
  }

  /** A single non-empty line fed to a fresh loop and flushed gives that line's steps. */
  lemma {:induction false} FeedOnce(line: string)
    requires line != []
    ensures FlushBuffer(Feed(Segmenter([], []), line)).steps == OneLine(line)
  {
    var empty := Segmenter([], []);
    assert FlushBuffer(empty) == empty;
    if |SplitLineIntoSteps(line)| <= 1 {
      if LooksLikeNewStep(line) {
        assert Feed(empty, line) == Segmenter([StripStepPrefix(line)], []);
      } else {
        assert Feed(empty, line) == Segmenter([line], []);
      }
    }
  }

  // ---------------------------------------------------------------------------------------------
  // The step filter of `extract_steps_from_file`
  // ---------------------------------------------------------------------------------------------

  function SegmentPages(pages: seq<string>, fix: string -> string): seq<string>
  {
    if pages == [] then [] else SegmentSteps(pages[0], fix) + SegmentPages(pages[1..], fix)
  }

  /** The steps `extract_steps_from_file` reports for the recognised text of each page. */
  function ExtractSteps(pages: seq<string>, fix: string -> string): (r: seq<string>)
    ensures forall k :: 0 <= k < |r| ==> r[k] != [] && Trimmed(r[k])
  {
    StrippedNonBlank(SegmentPages(pages, fix))
  }
}
