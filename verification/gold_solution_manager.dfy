/**
 * The name handling and record building of the gold-solution (answer key) store: the
 * sanitised file name a solution is saved under, the `.json` completion used when a
 * solution is looked up, the record written for a solution, and the name order of a listing.
 * Reading and writing files is not modelled; a listing starts from the entries already read.
 */
module GoldSolutionManager {
  import opened Wrappers
  import opened Text
  import opened Sums
  import opened GradingStep

  /** The characters `_sanitize_name` keeps as they are, before lower-casing. */
  predicate Kept(c: char)
  {
    IsAlnum(c) || c == '_' || c == '-'
  }

  /** The characters a sanitised name is made of. */
  predicate SafeChar(c: char)
  {
    IsLower(c) || IsDigit(c) || c == '_' || c == '-'
  }

  /** First pass: every character that is not alphanumeric, a space, `_` or `-` becomes `_`. */
  function ReplaceInvalid(name: string): (r: string)
    ensures |r| == |name|
    ensures forall i :: 0 <= i < |name| ==> r[i] == (if Kept(name[i]) || name[i] == ' ' then name[i] else '_')
  {
    seq(|name|, i requires 0 <= i < |name| => if Kept(name[i]) || name[i] == ' ' then name[i] else '_')
  }

  /** `s.replace(a, b)` for one character by another changes exactly the occurrences of `a`. */
  lemma {:induction false} ReplaceChar(s: string, a: char, b: char)
    ensures |Replace(s, [a], [b])| == |s|
    ensures forall i :: 0 <= i < |s| ==> Replace(s, [a], [b])[i] == (if s[i] == a then b else s[i])
    decreases |s|
  {
    if |s| >= 1 {
      ReplaceChar(s[1..], a, b);
      assert s[..1] == [s[0]];
      var rest := Replace(s[1..], [a], [b]);
      assert Replace(s, [a], [b]) == (if s[0] == a then [b] else [s[0]]) + rest;
    }
  }

  /** `_sanitize_name`: invalid characters to `_`, spaces to `_`, then lower case. */
  function SanitizeName(name: string): (r: string)
    ensures |r| == |name|
    ensures forall i :: 0 <= i < |r| ==> SafeChar(r[i])
    ensures forall i :: 0 <= i < |r| ==> (r[i] == '_' <==> !IsAlnum(name[i]) && name[i] != '-')
    ensures forall i :: 0 <= i < |r| ==> Kept(name[i]) ==> r[i] == LowerChar(name[i])
  {
    var first := ReplaceInvalid(name);
    var second := Replace(first, " ", "_");
    ReplaceChar(first, ' ', '_');
    Lower(second)
  }

  /** A name made of safe characters sanitises to itself. */
  lemma {:induction false} SanitizeSafe(name: string)
    requires forall i :: 0 <= i < |name| ==> SafeChar(name[i])
    ensures SanitizeName(name) == name
  {
    var r := SanitizeName(name);
    forall i | 0 <= i < |name|
      ensures r[i] == name[i]
    {
      assert Kept(name[i]);
    }
  }

  /** Sanitising twice is sanitising once. */
  lemma {:induction false} SanitizeIdempotent(name: string)
    ensures SanitizeName(SanitizeName(name)) == SanitizeName(name)
  {
    SanitizeSafe(SanitizeName(name));
  }

  const JsonSuffix: string := ".json"

  /** The name normalisation of `load_solution` and `delete_solution`: `.json` is appended unless present. */
  function WithJsonSuffix(name: string): (r: string)
    ensures EndsWith(r, JsonSuffix)
    ensures r == name <==> EndsWith(name, JsonSuffix)
    ensures !EndsWith(name, JsonSuffix) ==> |r| == |name| + |JsonSuffix| && r[..|name|] == name
  {
    if EndsWith(name, JsonSuffix) then name
    else
      var r := name + JsonSuffix;
      assert r[|r| - |JsonSuffix|..] == JsonSuffix;
      r
  }

  /** The file name `save_solution` writes: the sanitised name with `.json` always appended. */
  function SavedFileName(name: string): (r: string)
    ensures EndsWith(r, JsonSuffix) && |r| == |name| + |JsonSuffix|
  {
    var r := SanitizeName(name) + JsonSuffix;
    assert r[|r| - |JsonSuffix|..] == JsonSuffix;
    r
  }

  /**
   * Looking a solution up by its sanitised name finds the file it was saved under: a
   * sanitised name has no `.`, so the lookup appends `.json` exactly once.
   */
  lemma {:induction false} LoadFindsSaved(name: string)
    ensures WithJsonSuffix(SanitizeName(name)) == SavedFileName(name)
  {
    var s := SanitizeName(name);
    if |s| >= |JsonSuffix| {
      assert SafeChar(s[|s| - |JsonSuffix|]);
      assert s[|s| - |JsonSuffix|..][0] != JsonSuffix[0];
    }
  }

  /** The record `save_solution` writes. */
  datatype SolutionRecord = SolutionRecord(
    name: string,
    totalPoints: real,
    stepCount: nat,
    steps: seq<map<string, Value>>,
    metadata: map<string, Value>)

  function StepPoints(steps: seq<Step>): (r: seq<real>)
    ensures |r| == |steps| && forall k :: 0 <= k < |r| ==> r[k] == steps[k].points
  {
    seq(|steps|, k requires 0 <= k < |steps| => steps[k].points)
  }

  /** The data of `save_solution`; `metadata or {}` is the empty map when no metadata is given. */
  function BuildRecord(name: string, steps: seq<Step>, metadata: Option<map<string, Value>>): (r: SolutionRecord)
    ensures r.name == name && r.totalPoints == Sum(StepPoints(steps)) && r.stepCount == |steps|
    ensures |r.steps| == |steps|
    ensures forall k :: 0 <= k < |steps| ==> r.steps[k] == ToDict(steps[k])
    ensures metadata.None? ==> r.metadata == map[]
  {
    SolutionRecord(name, Sum(StepPoints(steps)), |steps|,
                   seq(|steps|, k requires 0 <= k < |steps| => ToDict(steps[k])),
                   if metadata.Some? then metadata.value else map[])
  }

  /** Loading the steps of a saved record gives back the valid steps that were saved, in order. */
  lemma {:induction false} RecordRoundTrip(name: string, steps: seq<Step>, metadata: Option<map<string, Value>>)
    requires forall k :: 0 <= k < |steps| ==> ValidStep(steps[k])
    ensures var r := BuildRecord(name, steps, metadata);
      |r.steps| == r.stepCount && forall k :: 0 <= k < |steps| ==> FromDict(r.steps[k]) == Success(steps[k])
  {
    forall k | 0 <= k < |steps|
      ensures FromDict(BuildRecord(name, steps, metadata).steps[k]) == Success(steps[k])
    {
      RoundTrip(steps[k]);
    }
  }

  /** One entry of `list_solutions`. */
  datatype Entry = Entry(fileName: string, name: string, totalPoints: Value, stepCount: Value, metadata: Value)

  /** Non-decreasing by name. */
  predicate SortedByName(es: seq<Entry>)
  {
    forall i :: 0 <= i < |es| - 1 ==> !StrLess(es[i + 1].name, es[i].name)
  }

  lemma {:induction false} StrLessAsymmetric(a: string, b: string)
    requires StrLess(a, b)
    ensures !StrLess(b, a)
  {
    if StrLess(b, a) {
      StrLessTransitive(a, b, a);
      StrLessIrreflexive(a);
    }
  }

  /** Insert `e` after every entry whose name is not greater: equal names keep their order. */
  function Insert(e: Entry, es: seq<Entry>): (r: seq<Entry>)
    requires SortedByName(es)
    ensures SortedByName(r)
    ensures multiset(r) == multiset(es) + multiset{e}
    ensures |r| == |es| + 1 && (es == [] || r[0] == e || r[0] == es[0])
  {
    if es == [] then [e]
    else if StrLess(e.name, es[0].name) then
      StrLessAsymmetric(e.name, es[0].name);
      [e] + es
    else
      var rest := Insert(e, es[1..]);
      StrLessTotal(e.name, es[0].name);
      assert es == [es[0]] + es[1..];
      [es[0]] + rest
  }

  /** `sorted(solutions, key=lambda x: x['name'])`. */
  function SortByName(es: seq<Entry>): (r: seq<Entry>)
    ensures SortedByName(r)
    ensures multiset(r) == multiset(es)
  {
    if es == [] then []
    else
      var n := |es| - 1;
      assert es == es[..n] + [es[n]];
      Insert(es[n], SortByName(es[..n]))
  }
}
