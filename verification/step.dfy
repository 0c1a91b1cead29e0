/**
 * The records of the rubric-based grading engine: a gold `Step` with its validation and
 * its dictionary form, and the `GradedStep` a grading run produces for one student step.
 * Dictionaries are modelled as maps from keys to a small JSON-like `Value` type.
 */
module GradingStep {
  import opened Wrappers
  import opened Text

  datatype Status = Correct | PartiallyCorrect | Incorrect | NotAttempted
  {
    /** The enum's string value. */
    function Value(): string
    {
      match this
      case Correct => "Correct"
      case PartiallyCorrect => "Partially Correct"
      case Incorrect => "Incorrect"
      case NotAttempted => "Not Attempted"
    }
  }

  /** Distinct statuses serialise to distinct strings. */
  lemma {:induction false} StatusValueInjective(a: Status, b: Status)
    requires a.Value() == b.Value()
    ensures a == b
  {
    match a
    case Correct => assert b.Value()[0] == 'C';
    case PartiallyCorrect => assert b.Value()[0] == 'P';
    case Incorrect => assert b.Value()[0] == 'I';
    case NotAttempted => assert b.Value()[0] == 'N';
  }

  /** A gold step. Points are kept as reals, since callers multiply them by match scores. */
  datatype Step = Step(text: string, points: real, required: bool, stepNumber: int, category: Option<string>)

  /** What `__post_init__` accepts. */
  predicate ValidStep(s: Step)
  {
    s.points >= 0.0 && !IsBlank(s.text)
  }

  const NegativePoints: string := "Points must be non-negative"
  const EmptyText: string := "Step text cannot be empty"

  /** Construction with `__post_init__` validation: the points are checked before the text. */
  function NewStep(text: string, points: real, required: bool, stepNumber: int, category: Option<string>)
    : (r: Result<Step, string>)
    ensures r.Success? <==> points >= 0.0 && !IsBlank(text)
    ensures r.Success? ==> r.value == Step(text, points, required, stepNumber, category) && ValidStep(r.value)
    ensures points < 0.0 ==> r == Failure(NegativePoints)
    ensures points >= 0.0 && IsBlank(text) ==> r == Failure(EmptyText)
  {
    if points < 0.0 then Failure(NegativePoints)
    else if text == [] || Strip(text) == [] then Failure(EmptyText)
    else Success(Step(text, points, required, stepNumber, category))
  }

  /** Values a serialised record can hold. */
  datatype Value =
    | VStr(s: string)
    | VNum(x: real)
    | VInt(i: int)
    | VBool(b: bool)
    | VNone
    | VDict(d: map<string, Value>)

  /** `to_dict`. */
  function ToDict(s: Step): (d: map<string, Value>)
    ensures d.Keys == {"text", "points", "required", "step_number", "category"}
  {
    map[
      "text" := VStr(s.text),
      "points" := VNum(s.points),
      "required" := VBool(s.required),
      "step_number" := VInt(s.stepNumber),
      "category" := if s.category.Some? then VStr(s.category.value) else VNone]
  }

  /** A number read from a record, integral or not. */
  function AsNumber(v: Value): Option<real>
  {
    match v
    case VNum(x) => Some(x)
    case VInt(i) => Some(i as real)
    case _ => None
  }

  const MissingText: string := "KeyError: 'text'"
  const MissingPoints: string := "KeyError: 'points'"
  const BadValue: string := "unsupported value"

  /**
   * `from_dict`: 'text' and 'points' are mandatory, the other fields fall back to their
   * defaults, and the result goes through the same validation as any construction.
   */
  function FromDict(d: map<string, Value>): (r: Result<Step, string>)
    ensures "text" !in d ==> r == Failure(MissingText)
    ensures "text" in d && "points" !in d ==> r == Failure(MissingPoints)
    ensures r.Success? ==> ValidStep(r.value)
    ensures r.Success? ==> d["text"] == VStr(r.value.text) && AsNumber(d["points"]) == Some(r.value.points)
    ensures r.Success? && "required" !in d ==> !r.value.required
    ensures r.Success? && "step_number" !in d ==> r.value.stepNumber == 0
    ensures r.Success? && "category" !in d ==> r.value.category == None
  {
    if "text" !in d then Failure(MissingText)
    else if "points" !in d then Failure(MissingPoints)
    else
      var required := if "required" in d then d["required"] else VBool(false);
      var stepNumber := if "step_number" in d then d["step_number"] else VInt(0);
      var category := if "category" in d then d["category"] else VNone;
      match (d["text"], AsNumber(d["points"]), required, stepNumber, category)
      case (VStr(text), Some(points), VBool(req), VInt(n), VStr(c)) => NewStep(text, points, req, n, Some(c))
      case (VStr(text), Some(points), VBool(req), VInt(n), VNone) => NewStep(text, points, req, n, None)
      case _ => Failure(BadValue)
  }

  /** Serialising a valid step and reading it back gives the same step. */
  lemma {:induction false} RoundTrip(s: Step)
    requires ValidStep(s)
    ensures FromDict(ToDict(s)) == Success(s)
  {
  }

  /** A record with only the mandatory fields gets the default flag, number and category. */
  lemma {:induction false} FromDictDefaults(text: string, points: real)
    requires points >= 0.0 && !IsBlank(text)
    ensures FromDict(map["text" := VStr(text), "points" := VNum(points)]) == Success(Step(text, points, false, 0, None))
  {
  }

  /** The record of grading one student step. */
  datatype GradedStep = GradedStep(
    studentText: string,
    matchedGoldStep: Option<Step>,
    status: Status,
    pointsEarned: real,
    pointsPossible: real,
    matchScore: real,
    feedback: string,
    penaltyApplied: bool)

  /** `GradedStep(student_text)` with every other field at its default. */
  function NewGradedStep(studentText: string): (g: GradedStep)
    ensures g.studentText == studentText && g.matchedGoldStep.None? && g.status == Incorrect
    ensures g.pointsEarned == 0.0 && g.pointsPossible == 0.0 && g.matchScore == 0.0
    ensures g.feedback == [] && !g.penaltyApplied
  {
    GradedStep(studentText, None, Incorrect, 0.0, 0.0, 0.0, "", false)
  }

  /** `GradedStep.to_dict`. */
  function GradedToDict(g: GradedStep): (d: map<string, Value>)
    ensures d.Keys == {"student_text", "matched_gold_step", "status", "points_earned", "points_possible",
                       "match_score", "feedback", "penalty_applied"}
    ensures d["matched_gold_step"] == VNone <==> g.matchedGoldStep.None?
    ensures d["status"] == VStr(g.status.Value())
  {
    map[
      "student_text" := VStr(g.studentText),
      "matched_gold_step" := if g.matchedGoldStep.Some? then VDict(ToDict(g.matchedGoldStep.value)) else VNone,
      "status" := VStr(g.status.Value()),
      "points_earned" := VNum(g.pointsEarned),
      "points_possible" := VNum(g.pointsPossible),
      "match_score" := VNum(g.matchScore),
      "feedback" := VStr(g.feedback),
      "penalty_applied" := VBool(g.penaltyApplied)]
  }

  /** The matched gold step and the status can both be read back from a graded step's record. */
  lemma {:induction false} GradedRoundTrip(g: GradedStep, st: Status)
    requires g.matchedGoldStep.Some? ==> ValidStep(g.matchedGoldStep.value)
    requires GradedToDict(g)["status"] == VStr(st.Value())
    ensures st == g.status
    ensures g.matchedGoldStep.Some? ==>
      GradedToDict(g)["matched_gold_step"].VDict? && FromDict(GradedToDict(g)["matched_gold_step"].d) == Success(g.matchedGoldStep.value)
  {
    StatusValueInjective(st, g.status);
    if g.matchedGoldStep.Some? {
      RoundTrip(g.matchedGoldStep.value);
    }
  }
}
