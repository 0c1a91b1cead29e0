/**
 * The two text parsers of the grading front end. A rubric ("gold steps") is one step per
 * line, written `content | points | required`. The last two fields are optional. Student
 * work is one step per line. Reading the number in the points field is the parameter
 * `parseFloat`. It stands for Python's `float`, whose `ValueError` becomes a `Failure`.
 */
module App {
  import opened Wrappers
  import opened Text
  import opened MathGrader

  /** The lower-cased third-field values that mark a step as optional. */
  const NotRequiredWords: set<string> := {"n", "no", "false", "0"}

  /** `[p.strip() for p in line.split("|")]`. */
  function Fields(line: string): (r: seq<string>)
    ensures |r| == |Split(line, '|')| >= 1
    ensures forall k :: 0 <= k < |r| ==> r[k] == Strip(Split(line, '|')[k])
    ensures forall k :: 0 <= k < |r| ==> Trimmed(r[k]) && '|' !in r[k]
  {
    var parts := Split(line, '|');
    var r := seq(|parts|, k requires 0 <= k < |parts| => Strip(parts[k]));
    forall k | 0 <= k < |r|
      ensures '|' !in r[k]
    {
      StripKeepsOut(parts[k], '|');
    }
    r
  }

  /** The points of a rubric line: its second field read as a number, or 1.0 when that field is absent or empty. */
  function LinePoints(fields: seq<string>, parseFloat: string -> Result<real, string>): (r: Result<real, string>)
    ensures |fields| < 2 || fields[1] == [] ==> r == Success(1.0)
    ensures |fields| >= 2 && fields[1] != [] ==> r == parseFloat(fields[1])
  {
    if |fields| > 1 && fields[1] != [] then parseFloat(fields[1]) else Success(1.0)
  }

  /** Whether a rubric line's step is required: yes, unless its third field is one of the "no" words. */
  predicate LineRequired(fields: seq<string>)
  {
    !(|fields| > 2 && fields[2] != [] && Lower(fields[2]) in NotRequiredWords)
  }

  /** One rubric line of `parse_gold_steps`. */
  function ParseGoldLine(line: string, parseFloat: string -> Result<real, string>): (r: Result<Step, string>)
    ensures r.Success? <==> LinePoints(Fields(line), parseFloat).Success?
    ensures r.Failure? ==> r.error == LinePoints(Fields(line), parseFloat).error
    ensures r.Success? ==> r.value.content == Fields(line)[0] && '|' !in r.value.content
    ensures r.Success? ==> r.value.points == LinePoints(Fields(line), parseFloat).value
    ensures r.Success? ==> (r.value.required <==> LineRequired(Fields(line)))
  {
    var fields := Fields(line);
    var points := LinePoints(fields, parseFloat);
    if points.Failure? then Failure(points.error)
    else
      StripOfStripped(fields[0]);
      Success(NewStep(fields[0], points.value, LineRequired(fields)))
  }

  /** Each line through `parse`, in order; the first line that fails fails them all. */
  function ParseAll<T>(lines: seq<string>, parse: string -> Result<T, string>): (r: Result<seq<T>, string>)
    ensures r.Success? ==> |r.value| == |lines|
    ensures r.Success? ==> forall k :: 0 <= k < |lines| ==> parse(lines[k]) == Success(r.value[k])
    ensures r.Failure? ==> FirstFailure(lines, parse, r.error)
  {
    if lines == [] then Success([])
    else
      match parse(lines[0])
      case Failure(e) =>
        assert FailsFirstAt(lines, parse, e, 0);
        Failure(e)
      case Success(v) =>
        match ParseAll(lines[1..], parse)
        case Failure(e) =>
          FirstFailureCons(lines, parse, e);
          Failure(e)
        case Success(vs) =>
          assert forall k :: 0 < k < |lines| ==> lines[k] == lines[1..][k - 1];
          Success([v] + vs)
  }

  /** Line `k` is the first line that fails to parse, and it fails with `error`. */
  predicate FailsFirstAt<T>(lines: seq<string>, parse: string -> Result<T, string>, error: string, k: nat)
  {
    && k < |lines|
    && parse(lines[k]) == Failure(error)
    && forall j :: 0 <= j < k ==> parse(lines[j]).Success?
  }

  /** Some line is the first to fail, with `error`. */
  predicate FirstFailure<T>(lines: seq<string>, parse: string -> Result<T, string>, error: string)
  {
    exists k :: 0 <= k < |lines| && FailsFirstAt(lines, parse, error, k)
  }

  /** A first line that parses does not change which line fails first behind it. */
  lemma {:induction false} FirstFailureCons<T>(lines: seq<string>, parse: string -> Result<T, string>, error: string)
    requires lines != [] && parse(lines[0]).Success? && FirstFailure(lines[1..], parse, error)
    ensures FirstFailure(lines, parse, error)
  {
    var k :| 0 <= k < |lines| - 1 && FailsFirstAt(lines[1..], parse, error, k);
    assert lines[1..][k] == lines[k + 1];
    forall j | 0 <= j < k + 1
      ensures parse(lines[j]).Success?
    {
      if j > 0 {
        assert lines[1..][j - 1] == lines[j];
      }
    }
    assert FailsFirstAt(lines, parse, error, k + 1);
  }

  /** When every line parses, the parse of the lines is their values, in order. */
  lemma {:induction false} ParseAllSucceeds<T>(lines: seq<string>, parse: string -> Result<T, string>, vs: seq<T>)
    requires |vs| == |lines| && forall k :: 0 <= k < |lines| ==> parse(lines[k]) == Success(vs[k])
    ensures ParseAll(lines, parse) == Success(vs)
    decreases |lines|
  {
    if lines != [] {
      assert forall k :: 0 <= k < |lines| - 1 ==> lines[1..][k] == lines[k + 1] && vs[1..][k] == vs[k + 1];
      ParseAllSucceeds(lines[1..], parse, vs[1..]);
      assert vs == [vs[0]] + vs[1..];
    }
  }

  /** `parse_gold_steps`: one step per non-blank line, in order, or the first failing line's error. */
  function ParseGoldSteps(raw: string, parseFloat: string -> Result<real, string>): (r: Result<seq<Step>, string>)
    ensures r.Success? ==> |r.value| <= |SplitLines(raw)|
    ensures (forall k :: 0 <= k < |SplitLines(raw)| ==> IsBlank(SplitLines(raw)[k])) ==> r == Success([])
    ensures var lines := DropBlank(SplitLines(raw));
      r.Success? ==>
        && |r.value| == |lines|
        && forall k :: 0 <= k < |lines| ==> ParseGoldLine(lines[k], parseFloat) == Success(r.value[k])
    ensures var lines := DropBlank(SplitLines(raw));
      r.Failure? ==> FirstFailure(lines, line => ParseGoldLine(line, parseFloat), r.error)
  {
    var lines := SplitLines(raw);
    assert (forall k :: 0 <= k < |lines| ==> IsBlank(lines[k])) ==> DropBlank(lines) == [] by {
      if DropBlank(lines) != [] {
        DropBlankFrom(lines, 0);
      }
    }
    ParseAll(DropBlank(lines), line => ParseGoldLine(line, parseFloat))
  }

  /** `parse_student_steps`: the stripped non-blank lines, in order. */
  function ParseStudentSteps(raw: string): (r: seq<string>)
    ensures forall k :: 0 <= k < |r| ==> r[k] != [] && Trimmed(r[k]) && SingleLine(r[k])
    ensures |r| <= |SplitLines(raw)|
    ensures var lines := DropBlank(SplitLines(raw));
      |r| == |lines| && forall k :: 0 <= k < |lines| ==> r[k] == Strip(lines[k])
  {
    var lines := SplitLines(raw);
    StrippedNonBlankOfKept(lines);
    var r := StrippedNonBlank(lines);
    forall k | 0 <= k < |r|
      ensures SingleLine(r[k])
    {
      StrippedNonBlankSound(lines, k);
    }
    r
  }

  /** Every kept line is a stripped line of the input. */
  lemma {:induction false} StrippedNonBlankSound(xs: seq<string>, k: nat)
    requires k < |StrippedNonBlank(xs)|
    ensures exists j :: 0 <= j < |xs| && StrippedNonBlank(xs)[k] == Strip(xs[j])
    decreases |xs|
  {
    var n := |xs| - 1;
    var front := StrippedNonBlank(xs[..n]);
    if k < |front| {
      StrippedNonBlankSound(xs[..n], k);
      var j :| 0 <= j < n && front[k] == Strip(xs[..n][j]);
      assert xs[..n][j] == xs[j];
    } else {
      assert StrippedNonBlank(xs)[k] == Strip(xs[n]);
    }
  }

  // ---------------------------------------------------------------------------------------------
  // Writing a rubric back out
  // ---------------------------------------------------------------------------------------------

  /** A field that survives a rubric line unchanged: non-empty, trimmed, one line, no `|`. */
  predicate Writable(x: string)
  {
    x != [] && Trimmed(x) && SingleLine(x) && '|' !in x
  }

  /** The rubric line that writes a step out, given the text of its points. */
  function FormatGoldLine(step: Step, points: string): string
  {
    step.content + " | " + points + " | " + (if step.required then "y" else "n")
  }

  /** The rubric lines for a list of steps. */
  function FormatGoldLines(steps: seq<Step>, points: seq<string>): (r: seq<string>)
    requires |points| == |steps|
    ensures |r| == |steps| && forall k :: 0 <= k < |r| ==> r[k] == FormatGoldLine(steps[k], points[k])
  {
    seq(|steps|, k requires 0 <= k < |steps| => FormatGoldLine(steps[k], points[k]))
  }

  /** Three bar-free pieces joined by bars split back into those pieces. */
  lemma {:induction false} SplitThree(a: string, b: string, c: string)
    requires '|' !in a && '|' !in b && '|' !in c
    ensures Split(a + ['|'] + (b + ['|'] + c), '|') == [a, b, c]
  {
    SplitAfter(a, '|', b + ['|'] + c);
    SplitAfter(b, '|', c);
    SplitNone(c, '|');
  }

  /** The pieces of a written line between its two bars. */
  lemma {:induction false} SplitFormatted(content: string, points: string, flag: string)
    requires '|' !in content && '|' !in points && '|' !in flag
    ensures Split(content + " | " + points + " | " + flag, '|') == [content + " ", " " + points + " ", " " + flag]
  {
    var a, b, c := content + " ", " " + points + " ", " " + flag;
    assert content + " | " + points + " | " + flag == a + ['|'] + (b + ['|'] + c);
    assert '|' !in a && '|' !in b && '|' !in c;
    SplitThree(a, b, c);
  }

  /** The fields of a written line are the fields it was written from. */
  lemma {:induction false} FieldsFormatted(content: string, points: string, flag: string)
    requires Writable(content) && Writable(points) && Writable(flag)
    ensures Fields(content + " | " + points + " | " + flag) == [content, points, flag]
  {
    var line := content + " | " + points + " | " + flag;
    SplitFormatted(content, points, flag);
    StripPadded([], content, " ");
    assert [] + content + " " == content + " ";
    StripPadded(" ", points, " ");
    StripPadded(" ", flag, []);
    assert " " + flag + [] == " " + flag;
    var fs := Fields(line);
    SeqOfThree(fs, content, points, flag);
  }

  /** The required flag a line is written with: a writable field that reads back as the flag. */
  lemma {:induction false} RequiredFlag(fields: seq<string>, required: bool)
    requires |fields| == 3 && fields[2] == (if required then "y" else "n")
    ensures Writable(fields[2])
    ensures LineRequired(fields) == required
  {
    var flag := fields[2];
    assert flag[0] != '|' && !IsSpace(flag[0]) && !IsLineBreak(flag[0]);
    assert Lower(flag) == flag;
  }

  /** A line whose three fields are a step's content, points and flag parses as that step. */
  lemma {:induction false} GoldLineOfFields(line: string, step: Step, parseFloat: string -> Result<real, string>)
    requires |Fields(line)| == 3 && Fields(line)[0] == step.content && step.content != [] && Trimmed(step.content)
    requires Fields(line)[1] != [] && parseFloat(Fields(line)[1]) == Success(step.points)
    requires LineRequired(Fields(line)) == step.required
    ensures ParseGoldLine(line, parseFloat) == Success(step)
  {
    StripOfStripped(step.content);
  }

  /** A written rubric line reads back as the step it was written from. */
  lemma {:induction false} GoldLineRoundTrip(step: Step, points: string, parseFloat: string -> Result<real, string>)
    requires Writable(step.content) && Writable(points)
    requires parseFloat(points) == Success(step.points)
    ensures ParseGoldLine(FormatGoldLine(step, points), parseFloat) == Success(step)
  {
    var flag := if step.required then "y" else "n";
    RequiredFlag([step.content, points, flag], step.required);
    FieldsFormatted(step.content, points, flag);
    GoldLineOfFields(FormatGoldLine(step, points), step, parseFloat);
  }

  /** A written line is a single non-blank line. */
  lemma {:induction false} FormatGoldLineShape(step: Step, points: string)
    requires Writable(step.content) && Writable(points)
    ensures FormatGoldLine(step, points) != [] && SingleLine(FormatGoldLine(step, points))
    ensures !IsBlank(FormatGoldLine(step, points))
  {
    var line := FormatGoldLine(step, points);
    assert line[0] == step.content[0];
  }

  /** A whole written rubric reads back as the steps it was written from, in order. */
  lemma {:induction false} GoldStepsRoundTrip(steps: seq<Step>, points: seq<string>, parseFloat: string -> Result<real, string>)
    requires |points| == |steps|
    requires forall k :: 0 <= k < |steps| ==> Writable(steps[k].content) && Writable(points[k])
    requires forall k :: 0 <= k < |steps| ==> parseFloat(points[k]) == Success(steps[k].points)
    ensures ParseGoldSteps(Join(FormatGoldLines(steps, points), "\n"), parseFloat) == Success(steps)
  {
    var lines := FormatGoldLines(steps, points);
    forall k | 0 <= k < |lines|
      ensures lines[k] != [] && SingleLine(lines[k]) && !IsBlank(lines[k])
      ensures ParseGoldLine(lines[k], parseFloat) == Success(steps[k])
    {
      FormatGoldLineShape(steps[k], points[k]);
      GoldLineRoundTrip(steps[k], points[k], parseFloat);
    }
    SplitLinesJoin(lines);
    DropBlankAll(lines);
    ParseAllSucceeds(lines, line => ParseGoldLine(line, parseFloat), steps);
  }

  /** Student steps written one per line read back unchanged. */
  lemma {:induction false} StudentStepsRoundTrip(steps: seq<string>)
    requires forall k :: 0 <= k < |steps| ==> steps[k] != [] && Trimmed(steps[k]) && SingleLine(steps[k])
    ensures ParseStudentSteps(Join(steps, "\n")) == steps
  {
    SplitLinesJoin(steps);
    StrippedNonBlankOfStripped(steps);
  }
}
