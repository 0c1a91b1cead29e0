/**
 * The step parser: continuous text to a list of solution steps. Lines are grouped at
 * lines that look like the start of a step; when that yields at most one step the text is
 * split at separators (`;`, `,`, ` and `, ` or `, ` then `) and, failing that, at lines
 * holding an equation. Every step is finally cleaned of its label, extra whitespace and
 * bordering punctuation.
 */
module StepParser {
  import opened Wrappers
  import opened Text
  import opened Patterns

  // ---------------------------------------------------------------------------------------------
  // Lines and groups
  // ---------------------------------------------------------------------------------------------

  /** `[line.strip() for line in text.split('\n') if line.strip()]`. */
  function NonBlankLines(text: string): (r: seq<string>)
    ensures forall k :: 0 <= k < |r| ==> r[k] != [] && Trimmed(r[k])
  {
    StrippedNonBlank(Text.Split(text, '\n'))
  }

  /** The concatenation of the groups. */
  function Flatten(groups: seq<seq<string>>): seq<string>
  {
    if groups == [] then [] else Flatten(groups[..|groups| - 1]) + groups[|groups| - 1]
  }

  /** A grouping of lines: every group is non-empty, later groups open at a start line, no other line is one. */
  predicate Grouping(groups: seq<seq<string>>, start: string -> bool)
  {
    && (forall g :: 0 <= g < |groups| ==> groups[g] != [])
    && (forall g :: 1 <= g < |groups| ==> start(groups[g][0]))
    && (forall g, k :: 0 <= g < |groups| && 1 <= k < |groups[g]| ==> !start(groups[g][k]))
  }

  lemma {:induction false} GroupingOpen(groups: seq<seq<string>>, line: string, start: string -> bool)
    requires Grouping(groups, start) && start(line)
    ensures Grouping(groups + [[line]], start)
  {
    var r := groups + [[line]];
    forall g, k | 0 <= g < |r| && 1 <= k < |r[g]|
      ensures !start(r[g][k])
    {
      assert g < |groups| && r[g] == groups[g];
    }
  }

  lemma {:induction false} GroupingExtend(groups: seq<seq<string>>, line: string, start: string -> bool)
    requires Grouping(groups, start) && groups != [] && !start(line)
    ensures Grouping(groups[..|groups| - 1] + [groups[|groups| - 1] + [line]], start)
  {
    var m := |groups| - 1;
    var r := groups[..m] + [groups[m] + [line]];
    forall g | 0 <= g < |r|
      ensures r[g] != [] && (g >= 1 ==> start(r[g][0]))
    {
      if g < m { assert r[g] == groups[g]; } else { assert r[g][0] == groups[m][0]; }
    }
    forall g, k | 0 <= g < |r| && 1 <= k < |r[g]|
      ensures !start(r[g][k])
    {
      if g < m {
        assert r[g] == groups[g];
      } else if k < |groups[m]| {
        assert r[g][k] == groups[m][k];
      }
    }
  }

  /**
   * The grouping loop shared by `parse` and `_split_by_equations`: a line opens a new group
   * when it satisfies `start` and a group is pending; otherwise it joins the pending group.
   */
  function GroupBy(lines: seq<string>, start: string -> bool): (r: seq<seq<string>>)
    ensures Flatten(r) == lines
    ensures Grouping(r, start)
    ensures r == [] <==> lines == []
  {
    if lines == [] then []
    else
      var n := |lines| - 1;
      var groups := GroupBy(lines[..n], start);
      assert lines == lines[..n] + [lines[n]];
      if groups == [] then
        [[lines[n]]]
      else if start(lines[n]) then
        GroupingOpen(groups, lines[n], start);
        groups + [[lines[n]]]
      else
        var m := |groups| - 1;
        var r := groups[..m] + [groups[m] + [lines[n]]];
        GroupingExtend(groups, lines[n], start);
        assert r[..m] == groups[..m];
        assert Flatten(groups) == Flatten(groups[..m]) + groups[m];
        r
  }

  /** How many of `lines` satisfy `start`. */
  function CountStarts(lines: seq<string>, start: string -> bool): nat
  {
    if lines == [] then 0
    else CountStarts(lines[..|lines| - 1], start) + (if start(lines[|lines| - 1]) then 1 else 0)
  }

  /** Every line after the first that satisfies `start` opens exactly one new group. */
  lemma {:induction false} GroupCount(lines: seq<string>, start: string -> bool)
    requires lines != []
    ensures |GroupBy(lines, start)| == 1 + CountStarts(lines[1..], start)
  {
    var n := |lines| - 1;
    if n > 0 {
      GroupCount(lines[..n], start);
      assert lines[..n][1..] == lines[1..][..n - 1];
    } else {
      assert lines[1..] == [];
    }
  }

  // ---------------------------------------------------------------------------------------------
  // The step-start test
  // ---------------------------------------------------------------------------------------------

  /** `_is_step_start`: one of the six step patterns matches at the start of the line. */
  predicate IsStepStart(line: string)
  {
    || MatchesStart(NumberedStep, line)
    || MatchesStart(LetteredStep, line)
    || MatchesStart(StepWord, line)
    || MatchesStart(WordNumber, line)
    || MatchesStart(QuestionNumber, line)
    || MatchesStart(ProblemNumber, line)
  }

  lemma {:induction false} NumberedLower(s: string)
    ensures MatchesStart(NumberedStep, Lower(s)) == MatchesStart(NumberedStep, s)
  {
    LowerClasses();
    SkipLower(s, 0, IsSpace);
    var j := SkipSpaces(s, 0);
    SkipLower(s, j, IsDigit);
    var d := SkipDigits(s, j);
    if d < |s| {
      assert Lower(s)[d] == LowerChar(s[d]);
      SkipLower(s, d + 1, IsSpace);
    }
  }

  lemma {:induction false} LetteredLower(s: string)
    ensures MatchesStart(LetteredStep, Lower(s)) == MatchesStart(LetteredStep, s)
  {
    LowerClasses();
    SkipLower(s, 0, IsSpace);
    var j := SkipSpaces(s, 0);
    if j + 1 < |s| {
      var c, d := s[j], s[j + 1];
      assert Lower(s)[j] == LowerChar(c) && Lower(s)[j + 1] == LowerChar(d);
      assert IsLetter(LowerChar(c)) == IsLetter(c);
      assert LowerChar(d) == '.' <==> d == '.';
      assert LowerChar(d) == ')' <==> d == ')';
      SkipLower(s, j + 2, IsSpace);
    }
  }

  lemma {:induction false} StepWordLower(s: string)
    ensures MatchesStart(StepWord, Lower(s)) == MatchesStart(StepWord, s)
  {
    LowerClasses();
    SkipLower(s, 0, IsSpace);
    var j := SkipSpaces(s, 0);
    WordAtLower(s, j, "step");
    if j + 4 <= |s| {
      SkipLower(s, j + 4, IsSpace);
      SkipLower(s, SkipSpaces(s, j + 4), IsDigit);
    }
  }

  lemma {:induction false} WordNumberLower(s: string)
    ensures MatchesStart(WordNumber, Lower(s)) == MatchesStart(WordNumber, s)
  {
    LowerClasses();
    SkipLower(s, 0, IsSpace);
    var j := SkipSpaces(s, 0);
    SkipLower(s, j, IsLetter);
    var w := SkipLetters(s, j);
    SkipLower(s, w, IsSpace);
    SkipLower(s, SkipSpaces(s, w), IsDigit);
  }

  lemma {:induction false} QuestionLower(s: string)
    ensures MatchesStart(QuestionNumber, Lower(s)) == MatchesStart(QuestionNumber, s)
  {
    LowerClasses();
    SkipLower(s, 0, IsSpace);
    var j := SkipSpaces(s, 0);
    if j < |s| {
      assert Lower(s)[j] == LowerChar(s[j]);
      LowerIs(s[j], 'Q', 'q');
      SkipLower(s, j + 1, IsDigit);
    }
  }

  lemma {:induction false} ProblemLower(s: string)
    ensures MatchesStart(ProblemNumber, Lower(s)) == MatchesStart(ProblemNumber, s)
  {
    LowerClasses();
    SkipLower(s, 0, IsSpace);
    var j := SkipSpaces(s, 0);
    if j < |s| {
      assert Lower(s)[j] == LowerChar(s[j]);
      LowerIs(s[j], 'P', 'p');
      SkipLower(s, j + 1, IsDigit);
    }
  }

  /** The step patterns ignore letter case: lower-casing a line does not change whether it starts a step. */
  lemma {:induction false} StepStartIgnoresCase(line: string)
    ensures IsStepStart(Lower(line)) == IsStepStart(line)
  {
    NumberedLower(line);
    LetteredLower(line);
    StepWordLower(line);
    WordNumberLower(line);
    QuestionLower(line);
    ProblemLower(line);
  }

  // ---------------------------------------------------------------------------------------------
  // Splitting
  // ---------------------------------------------------------------------------------------------

  /** The non-blank pieces of `re.split(p, s)` for every `s` in `steps`, stripped, in order. */
  function SplitPass(p: Pattern, steps: seq<string>): (r: seq<string>)
    ensures forall k :: 0 <= k < |r| ==> r[k] != [] && Trimmed(r[k])
  {
    if steps == [] then []
    else
      var n := |steps| - 1;
      SplitPass(p, steps[..n]) + StrippedNonBlank(Patterns.Split(p, steps[n]))
  }

  /** The separators of `_split_by_separators`, in the order they are applied. */
  const Separators: seq<Pattern> :=
    [Semicolon, CommaBeforeAlnum, SpacedWord("and"), SpacedWord("or"), SpacedWord("then")]

  /** Apply the separators from the `k`-th on. */
  function SplitAll(steps: seq<string>, k: nat): (r: seq<string>)
    requires k <= |Separators|
    ensures k < |Separators| ==> forall j :: 0 <= j < |r| ==> r[j] != [] && Trimmed(r[j])
    decreases |Separators| - k
  {
    if k == |Separators| then steps else SplitAll(SplitPass(Separators[k], steps), k + 1)
  }

  lemma {:induction false} SplitAllKeeps(steps: seq<string>, k: nat)
    requires k <= |Separators|
    requires forall j :: 0 <= j < |steps| ==> steps[j] != [] && Trimmed(steps[j])
    ensures forall j :: 0 <= j < |SplitAll(steps, k)| ==> SplitAll(steps, k)[j] != [] && Trimmed(SplitAll(steps, k)[j])
    decreases |Separators| - k
  {
    if k < |Separators| {
      SplitAllKeeps(SplitPass(Separators[k], steps), k + 1);
    }
  }

  /** `_split_by_separators`: never an empty or whitespace-padded part. */
  function SplitBySeparators(text: string): (r: seq<string>)
    ensures forall j :: 0 <= j < |r| ==> r[j] != [] && Trimmed(r[j])
  {
    SplitAll([text], 0)
  }

  /** `'=' in line`. */
  predicate HasEquals(line: string)
  {
    '=' in line
  }

  /** `' '.join(g)` for every group. */
  function JoinGroups(groups: seq<seq<string>>): (r: seq<string>)
    ensures |r| == |groups|
    ensures forall k :: 0 <= k < |r| ==> r[k] == Join(groups[k], " ")
  {
    seq(|groups|, k requires 0 <= k < |groups| => Join(groups[k], " "))
  }

  /**
   * `_split_by_equations`: the non-blank lines grouped so that a line holding `=` opens a
   * new piece; the text itself unless that gives more than one piece.
   */
  function SplitByEquations(text: string): (r: seq<string>)
    ensures |r| >= 1
    ensures |r| > 1 ==> r == JoinGroups(GroupBy(NonBlankLines(text), HasEquals))
    ensures |r| == 1 ==> r == [text]
  {
    var pieces := JoinGroups(GroupBy(NonBlankLines(text), HasEquals));
    if |pieces| > 1 then pieces else [text]
  }

  // ---------------------------------------------------------------------------------------------
  // Cleaning
  // ---------------------------------------------------------------------------------------------

  /** `re.sub('^' + p, '', s)`: the match at the very start, if any, removed. */
  function DropLeading(p: Pattern, s: string): (r: string)
    ensures |r| <= |s| && r == s[|s| - |r|..]
  {
    var m := MatchAt(p, s, 0);
    if m.Some? then s[m.value.end..] else s
  }

  predicate IsStepPunctuation(c: char)
  {
    c == '.' || c == ',' || c == ';' || c == ':'
  }

  /** A cleaned step: no bordering punctuation, single spaces only, no other whitespace. */
  predicate Clean(s: string)
  {
    && (s != [] ==> !IsStepPunctuation(s[0]) && !IsStepPunctuation(s[|s| - 1]))
    && SingleSpaced(s)
  }

  /** `_clean_step`: drop a leading label, squeeze the whitespace, trim bordering punctuation. */
  function CleanStep(step: string): (r: string)
    ensures Clean(r)
    ensures |r| <= |step|
  {
    var a := DropLeading(NumberedStep, step);
    var b := DropLeading(LetteredStep, a);
    var c := DropLeading(StepWordSpaced, b);
    var d := Squeeze(c);
    TrimPunctuationClean(d);
    TrimBy(d, IsStepPunctuation)
  }

  /** Trimming the bordering punctuation off a single-spaced string leaves it clean. */
  lemma {:induction false} TrimPunctuationClean(d: string)
    requires SingleSpaced(d)
    ensures Clean(TrimBy(d, IsStepPunctuation)) && |TrimBy(d, IsStepPunctuation)| <= |d|
  {
    TrimKeepsSingleSpaced(d, IsStepPunctuation);
  }

  /** Cleaning a clean string without labels, spaces at its ends or bordering punctuation changes nothing. */
  lemma {:induction false} CleanStepOfClean(s: string)
    requires Clean(s) && Trimmed(s)
    requires MatchAt(NumberedStep, s, 0).None? && MatchAt(LetteredStep, s, 0).None? && MatchAt(StepWordSpaced, s, 0).None?
    ensures CleanStep(s) == s
  {
    assert DropLeading(StepWordSpaced, DropLeading(LetteredStep, DropLeading(NumberedStep, s))) == s;
    SqueezeOfSqueezed(s);
    TrimByUntouched(s, IsStepPunctuation);
  }

  // ---------------------------------------------------------------------------------------------
  // Parsing
  // ---------------------------------------------------------------------------------------------

  /** The steps the grouping loop of `parse` keeps: joined groups at least `minLength` long. */
  function LongEnough(groups: seq<seq<string>>, minLength: int): (r: seq<string>)
    ensures |r| <= |groups|
    ensures forall k :: 0 <= k < |r| ==> |r[k]| >= minLength
  {
    if groups == [] then []
    else
      var n := |groups| - 1;
      var text := Strip(Join(groups[n], " "));
      LongEnough(groups[..n], minLength) + (if |text| >= minLength then [text] else [])
  }

  /** The steps before cleaning: by step starts, else by separators, else by equations. */
  function Candidates(text: string, minLength: int): seq<string>
  {
    var lines := NonBlankLines(text);
    var grouped := LongEnough(GroupBy(lines, IsStepStart), minLength);
    var bySeparators := if |grouped| <= 1 then SplitBySeparators(text) else grouped;
    if |bySeparators| <= 1 then SplitByEquations(text) else bySeparators
  }

  /** `[f(s) for s in steps if s.strip()]`. */
  function MapNonBlank(f: string -> string, steps: seq<string>): (r: seq<string>)
    ensures |r| <= |steps|
  {
    if steps == [] then []
    else
      var n := |steps| - 1;
      MapNonBlank(f, steps[..n]) + (if IsBlank(steps[n]) then [] else [f(steps[n])])
  }

  /** `r` is `kept` with `f` applied to each. */
  predicate MappedFrom(r: seq<string>, kept: seq<string>, f: string -> string)
  {
    |r| == |kept| && forall k :: 0 <= k < |r| ==> r[k] == f(kept[k])
  }

  /** The non-blank steps, each mapped, in order. */
  lemma {:induction false} MapNonBlankEach(f: string -> string, steps: seq<string>)
    ensures MappedFrom(MapNonBlank(f, steps), DropBlank(steps), f)
  {
    if steps != [] {
      var n := |steps| - 1;
      var front := steps[..n];
      MapNonBlankEach(f, front);
      assert front + [steps[n]] == steps;
      DropBlankSnoc(front, steps[n]);
      if !IsBlank(steps[n]) {
        MappedSnoc(MapNonBlank(f, front), DropBlank(front), steps[n], f);
      }
    }
  }

  lemma {:induction false} MappedSnoc(r: seq<string>, kept: seq<string>, x: string, f: string -> string)
    requires MappedFrom(r, kept, f)
    ensures MappedFrom(r + [f(x)], kept + [x], f)
  {
    var r', kept' := r + [f(x)], kept + [x];
    forall k | 0 <= k < |r'|
      ensures r'[k] == f(kept'[k])
    {
      if k < |r| {
        assert r'[k] == r[k] && kept'[k] == kept[k];
      }
    }
  }

  /** `[self._clean_step(s) for s in steps if s.strip()]`. */
  function CleanAll(steps: seq<string>): (r: seq<string>)
    ensures |r| <= |steps|
    ensures forall k :: 0 <= k < |r| ==> Clean(r[k])
  {
    MapNonBlankEach(CleanStep, steps);
    MapNonBlank(CleanStep, steps)
  }

  /** `parse`. */
  function Parse(text: string, minLength: int): (r: seq<string>)
    ensures IsBlank(text) ==> r == []
    ensures forall k :: 0 <= k < |r| ==> Clean(r[k])
  {
    if IsBlank(text) then []
    else if NonBlankLines(text) == [] then []
    else CleanAll(Candidates(text, minLength))
  }

  /** Every kept step is the stripped, joined text of one of the groups. */
  lemma {:induction false} LongEnoughFrom(groups: seq<seq<string>>, minLength: int, k: nat)
    requires k < |LongEnough(groups, minLength)|
    ensures exists j :: 0 <= j < |groups| && LongEnough(groups, minLength)[k] == Strip(Join(groups[j], " "))
  {
    var n := |groups| - 1;
    var front := LongEnough(groups[..n], minLength);
    if k < |front| {
      LongEnoughFrom(groups[..n], minLength, k);
      var j :| 0 <= j < n && front[k] == Strip(Join(groups[..n][j], " "));
      assert groups[..n][j] == groups[j];
    }
  }

  /** Every group whose stripped, joined text is long enough is kept. */
  lemma {:induction false} LongEnoughKeeps(groups: seq<seq<string>>, minLength: int, j: nat)
    requires j < |groups| && |Strip(Join(groups[j], " "))| >= minLength
    ensures Strip(Join(groups[j], " ")) in LongEnough(groups, minLength)
  {
    var n := |groups| - 1;
    var text := Strip(Join(groups[j], " "));
    var front := LongEnough(groups[..n], minLength);
    var last := Strip(Join(groups[n], " "));
    assert LongEnough(groups, minLength) == front + (if |last| >= minLength then [last] else []);
    if j < n {
      assert groups[..n][j] == groups[j];
      LongEnoughKeeps(groups[..n], minLength, j);
      InConcat(front, if |last| >= minLength then [last] else [], text);
    } else {
      InConcat(front, [last], last);
    }
  }

  /** What is in either part of a concatenation is in the concatenation. */
  lemma {:induction false} InConcat(front: seq<string>, back: seq<string>, x: string)
    requires x in front || x in back
    ensures x in front + back
  {
    if x in front {
      var i :| 0 <= i < |front| && front[i] == x;
      assert (front + back)[i] == x;
    } else {
      var i :| 0 <= i < |back| && back[i] == x;
      assert (front + back)[|front| + i] == x;
    }
  }

  /** The cleaned steps are the non-blank steps, each cleaned, in order. */
  lemma {:induction false} CleanAllEach(steps: seq<string>)
    ensures |CleanAll(steps)| == |DropBlank(steps)|
    ensures forall k :: 0 <= k < |CleanAll(steps)| ==> CleanAll(steps)[k] == CleanStep(DropBlank(steps)[k])
  {
    MapNonBlankEach(CleanStep, steps);
  }

  /** `parse` of a text that is not blank: its non-blank candidate steps, each cleaned, in order. */
  lemma {:induction false} ParseCleansCandidates(text: string, minLength: int)
    requires !IsBlank(text) && NonBlankLines(text) != []
    ensures MappedFrom(Parse(text, minLength), DropBlank(Candidates(text, minLength)), CleanStep)
  {
    CleanAllEach(Candidates(text, minLength));
  }

  /**
   * When the lines group into more than one long-enough step, every step of `parse` is the
   * cleaned text of one group: a run of consecutive non-blank lines that opens at a step
   * start, joined by spaces and stripped.
   */
  lemma {:induction false} ParseFromGroups(text: string, minLength: int, k: nat)
    requires |LongEnough(GroupBy(NonBlankLines(text), IsStepStart), minLength)| > 1
    requires k < |Parse(text, minLength)|
    ensures var groups := GroupBy(NonBlankLines(text), IsStepStart);
      exists j :: 0 <= j < |groups| && Parse(text, minLength)[k] == CleanStep(Strip(Join(groups[j], " ")))
  {
    var groups := GroupBy(NonBlankLines(text), IsStepStart);
    ParseCleansCandidates(text, minLength);
    GroupsWin(text, minLength);
    MappedFromGroups(Parse(text, minLength), groups, minLength, CleanStep, k);
  }

  /** A mapped, non-blank kept step comes from one group. */
  lemma {:induction false} MappedFromGroups(r: seq<string>, groups: seq<seq<string>>, minLength: int, f: string -> string, k: nat)
    requires MappedFrom(r, DropBlank(LongEnough(groups, minLength)), f)
    requires k < |r|
    ensures exists j :: 0 <= j < |groups| && r[k] == f(Strip(Join(groups[j], " ")))
  {
    var steps := LongEnough(groups, minLength);
    DropBlankFrom(steps, k);
    var i :| 0 <= i < |steps| && steps[i] == DropBlank(steps)[k];
    LongEnoughFrom(groups, minLength, i);
    var j :| 0 <= j < |groups| && steps[i] == Strip(Join(groups[j], " "));
    assert r[k] == f(Strip(Join(groups[j], " ")));
  }

  /** Unfolds `Parse`: a parse that gives steps is the cleaning of the candidates. */
  lemma {:induction false} ParseOfCandidates(text: string, minLength: int)
    ensures Parse(text, minLength) != [] ==> Parse(text, minLength) == CleanAll(Candidates(text, minLength))
  {
  }

  /** Unfolds `Candidates`: with two or more long-enough groups, those groups are the candidates. */
  lemma {:induction false} GroupsWin(text: string, minLength: int)
    requires |LongEnough(GroupBy(NonBlankLines(text), IsStepStart), minLength)| > 1
    ensures Candidates(text, minLength) == LongEnough(GroupBy(NonBlankLines(text), IsStepStart), minLength)
  {
  }

  const DefaultMinLength: int := 3

  /** `parse_with_context`, with the `'expected_steps'` hint, if any. */
  function ParseWithContext(text: string, expected: Option<int>): (r: seq<string>)
    ensures expected.None? ==> r == Parse(text, DefaultMinLength)
    ensures |Parse(text, DefaultMinLength)| != 1 ==> r == Parse(text, DefaultMinLength)
    ensures expected.Some? && expected.value > 1 && |Parse(text, DefaultMinLength)| == 1 ==> 1 <= |r| <= expected.value
  {
    var steps := Parse(text, DefaultMinLength);
    if expected.Some? && |steps| != expected.value && |steps| == 1 then SmartSplit(steps[0], expected.value)
    else steps
  }

  /**
   * The recombination loop of `_smart_split` over the first `n` pieces: the chunks flushed
   * so far, before stripping, and the pieces still pending.
   */
  function Recombine(parts: seq<string>, n: nat, numParts: int, goal: int): (st: (seq<string>, seq<string>))
    requires n <= |parts|
    ensures |st.0| <= (if numParts - 1 < 0 then 0 else numParts - 1)
    ensures Join(st.0, "") + Join(st.1, "") == Join(parts[..n], "")
  {
    if n == 0 then ([], [])
    else
      var (chunks, current) := Recombine(parts, n - 1, numParts, goal);
      var current' := current + [parts[n - 1]];
      RecombinePending(parts, n, chunks, current);
      RecombineFlush(chunks, current', Join(parts[..n], ""));
      if |chunks| < numParts - 1 && |Join(current', "")| > goal then
        (chunks + [Join(current', "")], [])
      else
        (chunks, current')
  }

  /** Moving the next piece into the pending ones loses no text. */
  lemma {:induction false} RecombinePending(parts: seq<string>, n: nat, chunks: seq<string>, current: seq<string>)
    requires 0 < n <= |parts|
    requires Join(chunks, "") + Join(current, "") == Join(parts[..n - 1], "")
    ensures Join(chunks, "") + Join(current + [parts[n - 1]], "") == Join(parts[..n], "")
  {
    var x := parts[n - 1];
    JoinSnocEmpty(current, x);
    JoinSnocEmpty(parts[..n - 1], x);
    assert parts[..n - 1] + [x] == parts[..n];
  }

  /** Flushing the pending pieces as one chunk loses no text. */
  lemma {:induction false} RecombineFlush(chunks: seq<string>, current: seq<string>, whole: string)
    requires Join(chunks, "") + Join(current, "") == whole
    ensures Join(chunks + [Join(current, "")], "") + Join([], "") == whole
  {
    JoinSnocEmpty(chunks, Join(current, ""));
  }

  /** The chunks `_smart_split` has built once every piece is seen: the flushed ones, then the pending pieces, if any. */
  function SmartChunks(text: string, numParts: int): (r: seq<string>)
    requires numParts > 1
    ensures |r| <= numParts
  {
    var parts := SplitKeep(Operator, text);
    var (chunks, current) := Recombine(parts, |parts|, numParts, |text| / numParts);
    if current != [] then chunks + [Join(current, "")] else chunks
  }

  /** Every string stripped. */
  function StripEach(xs: seq<string>): (r: seq<string>)
    ensures |r| == |xs| && forall k :: 0 <= k < |r| ==> r[k] == Strip(xs[k])
  {
    seq(|xs|, k requires 0 <= k < |xs| => Strip(xs[k]))
  }

  /** `_smart_split`: at most `num_parts` pieces, and the text itself unless it splits. */
  function SmartSplit(text: string, numParts: int): (r: seq<string>)
    ensures numParts <= 1 ==> r == [text]
    ensures 1 <= |r| && (numParts > 1 ==> |r| <= numParts)
    ensures |r| == 1 ==> r == [text]
    ensures |r| > 1 ==> forall k :: 0 <= k < |r| ==> Trimmed(r[k])
  {
    if numParts <= 1 then [text]
    else
      var all := StripEach(SmartChunks(text, numParts));
      if |all| > 1 then all else [text]
  }

  /**
   * A text that splits comes back as consecutive chunks of itself, each stripped: the
   * chunks, operators included, put the text back together.
   */
  lemma {:induction false} SmartSplitChunks(text: string, numParts: int)
    requires numParts > 1 && |SmartSplit(text, numParts)| > 1
    ensures var chunks := SmartChunks(text, numParts);
      var r := SmartSplit(text, numParts);
      && Join(chunks, "") == text
      && |r| == |chunks|
      && forall k :: 0 <= k < |r| ==> r[k] == Strip(chunks[k])
  {
    var parts := SplitKeep(Operator, text);
    OperatorSplitJoins(text);
    assert parts[..|parts|] == parts;
    var (chunks, current) := Recombine(parts, |parts|, numParts, |text| / numParts);
    if current != [] {
      JoinSnocEmpty(chunks, Join(current, ""));
    }
  }
}
