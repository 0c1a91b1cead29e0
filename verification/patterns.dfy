/**
 * The fixed regular expressions used by the step parser, the OCR pipeline and the
 * matching engine. Every one of them is deterministic: its greedy runs never have to
 * give characters back for the rest of the pattern to match, so whether it matches at
 * index `i`, and where the match (and its capture group) ends, is a plain function.
 * `re.finditer`, `re.findall` and `re.split` are the leftmost, non-overlapping scan
 * built on top of it. Letter classes under `re.IGNORECASE` and `\d` are taken as ASCII.
 */
module Patterns {
  import opened Wrappers
  import opened Text

  datatype Pattern =
    | NumberedStep           // \s*\d+[\.\)]\s*
    | LetteredStep           // \s*[a-z][\.\)]\s*           (ignore case)
    | StepWord               // \s*Step\s+\d+               (ignore case)
    | StepWordSpaced         // \s*Step\s+\d+\s*            (ignore case)
    | WordNumber             // \s*[A-Z][a-z]+\s+\d+        (ignore case)
    | QuestionNumber         // \s*[Qq]\d+
    | ProblemNumber          // \s*[Pp]\d+
    | StepLabel              // step\s*\d+[\.:]?            (ignore case)
    | NumberLabel            // \d+[\).\s]
    | LetterParen            // [a-z]\)                     (ignore case)
    | Semicolon              // \s*;\s*
    | CommaBeforeAlnum       // \s*,\s*(?=[A-Za-z0-9])
    | SpacedWord(word: string)   // \s+word\s+
    | Operator               // ([+\-*/=])
    | ZeroThenParen          // (=\s*0)\s+\(
    | ParenZeroThenStart     // \)\s*=\s*0\s+(?=[a-z(])     (ignore case)
    | ParenNumberThenLetter  // \)\s*=\s*\d+\s+(?=[a-z])    (ignore case)
    | Term                   // [a-z]\^?\d?

  /** A match starting at some index: where its first capture group ends, and where it ends. */
  datatype Hit = Hit(groupEnd: nat, end: nat)

  /** A match found by a scan. */
  datatype Found = Found(start: nat, groupEnd: nat, end: nat)

  /** Index just past the run of characters of class `p` that starts at `i`. */
  function Skip(s: string, i: nat, p: char -> bool): (j: nat)
    requires i <= |s|
    ensures i <= j <= |s|
    ensures forall k :: i <= k < j ==> p(s[k])
    ensures j < |s| ==> !p(s[j])
  {
    SpanFrom(s, p, i)
  }

  function SkipSpaces(s: string, i: nat): (j: nat)
    requires i <= |s|
    ensures i <= j <= |s|
  {
    Skip(s, i, IsSpace)
  }

  function SkipDigits(s: string, i: nat): (j: nat)
    requires i <= |s|
    ensures i <= j <= |s|
  {
    Skip(s, i, IsDigit)
  }

  function SkipLetters(s: string, i: nat): (j: nat)
    requires i <= |s|
    ensures i <= j <= |s|
  {
    Skip(s, i, IsLetter)
  }

  /** Case-insensitive test that `word` (lower case) occurs at `i`. */
  predicate WordAt(s: string, i: nat, word: string)
  {
    i + |word| <= |s| && Lower(s[i..i + |word|]) == word
  }

  function MatchNumberedStep(s: string, i: nat): (m: Option<Hit>)
    requires i <= |s|
    ensures m.Some? ==> i < m.value.end <= |s| && i <= m.value.groupEnd <= m.value.end
  {
    var j := SkipSpaces(s, i);
    var d := SkipDigits(s, j);
    if d > j && d < |s| && (s[d] == '.' || s[d] == ')') then
      var e := SkipSpaces(s, d + 1); Some(Hit(e, e))
    else None
  }

  function MatchLetteredStep(s: string, i: nat): (m: Option<Hit>)
    requires i <= |s|
    ensures m.Some? ==> i < m.value.end <= |s| && i <= m.value.groupEnd <= m.value.end
  {
    var j := SkipSpaces(s, i);
    if j + 1 < |s| && IsLetter(s[j]) && (s[j + 1] == '.' || s[j + 1] == ')') then
      var e := SkipSpaces(s, j + 2); Some(Hit(e, e))
    else None
  }

  function MatchStepWord(s: string, i: nat): (m: Option<Hit>)
    requires i <= |s|
    ensures m.Some? ==> i < m.value.end <= |s| && i <= m.value.groupEnd <= m.value.end
  {
    var j := SkipSpaces(s, i);
    if WordAt(s, j, "step") then
      var k := SkipSpaces(s, j + 4);
      var d := SkipDigits(s, k);
      if k > j + 4 && d > k then Some(Hit(d, d)) else None
    else None
  }

  function MatchStepWordSpaced(s: string, i: nat): (m: Option<Hit>)
    requires i <= |s|
    ensures m.Some? ==> i < m.value.end <= |s| && i <= m.value.groupEnd <= m.value.end
  {
    var j := SkipSpaces(s, i);
    if WordAt(s, j, "step") then
      var k := SkipSpaces(s, j + 4);
      var d := SkipDigits(s, k);
      if k > j + 4 && d > k then var e := SkipSpaces(s, d); Some(Hit(e, e)) else None
    else None
  }

  function MatchWordNumber(s: string, i: nat): (m: Option<Hit>)
    requires i <= |s|
    ensures m.Some? ==> i < m.value.end <= |s| && i <= m.value.groupEnd <= m.value.end
  {
    var j := SkipSpaces(s, i);
    var w := SkipLetters(s, j);
    var k := SkipSpaces(s, w);
    var d := SkipDigits(s, k);
    if w >= j + 2 && k > w && d > k then Some(Hit(d, d)) else None
  }

  function MatchQuestionNumber(s: string, i: nat): (m: Option<Hit>)
    requires i <= |s|
    ensures m.Some? ==> i < m.value.end <= |s| && i <= m.value.groupEnd <= m.value.end
  {
    var j := SkipSpaces(s, i);
    if j < |s| && (s[j] == 'Q' || s[j] == 'q') && SkipDigits(s, j + 1) > j + 1 then
      var d := SkipDigits(s, j + 1); Some(Hit(d, d))
    else None
  }

  function MatchProblemNumber(s: string, i: nat): (m: Option<Hit>)
    requires i <= |s|
    ensures m.Some? ==> i < m.value.end <= |s| && i <= m.value.groupEnd <= m.value.end
  {
    var j := SkipSpaces(s, i);
    if j < |s| && (s[j] == 'P' || s[j] == 'p') && SkipDigits(s, j + 1) > j + 1 then
      var d := SkipDigits(s, j + 1); Some(Hit(d, d))
    else None
  }

  function MatchStepLabel(s: string, i: nat): (m: Option<Hit>)
    requires i <= |s|
    ensures m.Some? ==> i < m.value.end <= |s| && i <= m.value.groupEnd <= m.value.end
  {
    if WordAt(s, i, "step") then
      var k := SkipSpaces(s, i + 4);
      var d := SkipDigits(s, k);
      if d > k then
        var e := if d < |s| && (s[d] == '.' || s[d] == ':') then d + 1 else d;
        Some(Hit(e, e))
      else None
    else None
  }

  function MatchNumberLabel(s: string, i: nat): (m: Option<Hit>)
    requires i <= |s|
    ensures m.Some? ==> i < m.value.end <= |s| && i <= m.value.groupEnd <= m.value.end
  {
    var d := SkipDigits(s, i);
    if d > i && d < |s| && (s[d] == ')' || s[d] == '.' || IsSpace(s[d])) then Some(Hit(d + 1, d + 1))
    else None
  }

  function MatchLetterParen(s: string, i: nat): (m: Option<Hit>)
    requires i <= |s|
    ensures m.Some? ==> i < m.value.end <= |s| && i <= m.value.groupEnd <= m.value.end
  {
    if i + 1 < |s| && IsLetter(s[i]) && s[i + 1] == ')' then Some(Hit(i + 2, i + 2)) else None
  }

  function MatchSemicolon(s: string, i: nat): (m: Option<Hit>)
    requires i <= |s|
    ensures m.Some? ==> i < m.value.end <= |s| && i <= m.value.groupEnd <= m.value.end
  {
    var j := SkipSpaces(s, i);
    if j < |s| && s[j] == ';' then var e := SkipSpaces(s, j + 1); Some(Hit(e, e)) else None
  }

  function MatchCommaBeforeAlnum(s: string, i: nat): (m: Option<Hit>)
    requires i <= |s|
    ensures m.Some? ==> i < m.value.end <= |s| && i <= m.value.groupEnd <= m.value.end
  {
    var j := SkipSpaces(s, i);
    if j < |s| && s[j] == ',' then
      var e := SkipSpaces(s, j + 1);
      if e < |s| && IsAlnum(s[e]) then Some(Hit(e, e)) else None
    else None
  }

  function MatchSpacedWord(w: string, s: string, i: nat): (m: Option<Hit>)
    requires i <= |s|
    ensures m.Some? ==> i < m.value.end <= |s| && i <= m.value.groupEnd <= m.value.end
  {
    if i < |s| && IsSpace(s[i]) then
      var j := SkipSpaces(s, i);
      var k := j + |w|;
      if k < |s| && s[j..k] == w && IsSpace(s[k]) then var e := SkipSpaces(s, k); Some(Hit(e, e))
      else None
    else None
  }

  function MatchOperator(s: string, i: nat): (m: Option<Hit>)
    requires i <= |s|
    ensures m.Some? ==> i < m.value.end <= |s| && i <= m.value.groupEnd <= m.value.end
  {
    if i < |s| && s[i] in "+-*/=" then Some(Hit(i + 1, i + 1)) else None
  }

  function MatchZeroThenParen(s: string, i: nat): (m: Option<Hit>)
    requires i <= |s|
    ensures m.Some? ==> i < m.value.end <= |s| && i <= m.value.groupEnd <= m.value.end
  {
    if i < |s| && s[i] == '=' then
      var j := SkipSpaces(s, i + 1);
      if j < |s| && s[j] == '0' then
        var k := SkipSpaces(s, j + 1);
        if k > j + 1 && k < |s| && s[k] == '(' then Some(Hit(j + 1, k + 1)) else None
      else None
    else None
  }

  function MatchParenZeroThenStart(s: string, i: nat): (m: Option<Hit>)
    requires i <= |s|
    ensures m.Some? ==> i < m.value.end <= |s| && i <= m.value.groupEnd <= m.value.end
  {
    if i < |s| && s[i] == ')' then
      var a := SkipSpaces(s, i + 1);
      if a < |s| && s[a] == '=' then
        var b := SkipSpaces(s, a + 1);
        if b < |s| && s[b] == '0' then
          var c := SkipSpaces(s, b + 1);
          if c > b + 1 && c < |s| && (IsLetter(s[c]) || s[c] == '(') then Some(Hit(c, c)) else None
        else None
      else None
    else None
  }

  function MatchParenNumberThenLetter(s: string, i: nat): (m: Option<Hit>)
    requires i <= |s|
    ensures m.Some? ==> i < m.value.end <= |s| && i <= m.value.groupEnd <= m.value.end
  {
    if i < |s| && s[i] == ')' then
      var a := SkipSpaces(s, i + 1);
      if a < |s| && s[a] == '=' then
        var b := SkipSpaces(s, a + 1);
        var d := SkipDigits(s, b);
        var c := SkipSpaces(s, d);
        if d > b && c > d && c < |s| && IsLetter(s[c]) then Some(Hit(c, c)) else None
      else None
    else None
  }

  function MatchTerm(s: string, i: nat): (m: Option<Hit>)
    requires i <= |s|
    ensures m.Some? ==> i < m.value.end <= |s| && i <= m.value.groupEnd <= m.value.end
  {
    if i < |s| && IsLower(s[i]) then
      var j := if i + 1 < |s| && s[i + 1] == '^' then i + 2 else i + 1;
      var e := if j < |s| && IsDigit(s[j]) then j + 1 else j;
      Some(Hit(e, e))
    else None
  }

  /** A match of `p` that begins exactly at `i`, if any. */
  function MatchAt(p: Pattern, s: string, i: nat): (m: Option<Hit>)
    requires i <= |s|
    ensures m.Some? ==> i < m.value.end <= |s| && i <= m.value.groupEnd <= m.value.end
  {
    match p
    case NumberedStep => MatchNumberedStep(s, i)
    case LetteredStep => MatchLetteredStep(s, i)
    case StepWord => MatchStepWord(s, i)
    case StepWordSpaced => MatchStepWordSpaced(s, i)
    case WordNumber => MatchWordNumber(s, i)
    case QuestionNumber => MatchQuestionNumber(s, i)
    case ProblemNumber => MatchProblemNumber(s, i)
    case StepLabel => MatchStepLabel(s, i)
    case NumberLabel => MatchNumberLabel(s, i)
    case LetterParen => MatchLetterParen(s, i)
    case Semicolon => MatchSemicolon(s, i)
    case CommaBeforeAlnum => MatchCommaBeforeAlnum(s, i)
    case SpacedWord(w) => MatchSpacedWord(w, s, i)
    case Operator => MatchOperator(s, i)
    case ZeroThenParen => MatchZeroThenParen(s, i)
    case ParenZeroThenStart => MatchParenZeroThenStart(s, i)
    case ParenNumberThenLetter => MatchParenNumberThenLetter(s, i)
    case Term => MatchTerm(s, i)
  }

  /** `re.match(p, s)`: the pattern matches at the very start. */
  predicate MatchesStart(p: Pattern, s: string)
  {
    MatchAt(p, s, 0).Some?
  }

  /** The match of `p` at every position of `s`, the end included. */
  function MatchTable(p: Pattern, s: string): (t: seq<Option<Hit>>)
    ensures |t| == |s| + 1
    ensures forall i :: 0 <= i <= |s| ==> t[i] == MatchAt(p, s, i)
    ensures HitTable(t)
  {
    seq(|s| + 1, i requires 0 <= i <= |s| => MatchAt(p, s, i))
  }

  /** Every hit in the table ends after its start and within the text, its group inside it. */
  predicate HitTable(t: seq<Option<Hit>>)
  {
    forall i :: 0 <= i < |t| && t[i].Some? ==> i < t[i].value.end < |t| && i <= t[i].value.groupEnd <= t[i].value.end
  }

  /**
   * The scan of `re.finditer` over a table of matches: from `from`, take the match at the
   * current position and continue at its end, or move one position on.
   */
  function ScanTable(t: seq<Option<Hit>>, from: nat): (r: seq<Found>)
    requires HitTable(t) && from < |t|
    ensures forall k :: 0 <= k < |r| ==>
      from <= r[k].start < r[k].end < |t| && r[k].start <= r[k].groupEnd <= r[k].end
    ensures forall k :: 0 <= k < |r| - 1 ==> r[k].end <= r[k + 1].start
    ensures forall k :: 0 <= k < |r| ==> t[r[k].start] == Some(Hit(r[k].groupEnd, r[k].end))
    ensures r == [] ==> forall i :: from <= i < |t| ==> t[i].None?
    ensures r != [] ==> forall i :: from <= i < r[0].start ==> t[i].None?
    decreases |t| - from
  {
    if from == |t| - 1 then
      assert t[from].None?;
      []
    else if t[from].Some? then
      var h := t[from].value;
      var rest := ScanTable(t, h.end);
      ScanCons(t, from, rest);
      [Found(from, h.groupEnd, h.end)] + rest
    else ScanTable(t, from + 1)
  }

  /** The properties `ScanTable` promises of its result `r` for a scan from `from`. */
  predicate Scanned(t: seq<Option<Hit>>, from: nat, r: seq<Found>)
  {
    && (forall k :: 0 <= k < |r| ==>
          from <= r[k].start < r[k].end < |t| && r[k].start <= r[k].groupEnd <= r[k].end)
    && (forall k :: 0 <= k < |r| - 1 ==> r[k].end <= r[k + 1].start)
    && (forall k :: 0 <= k < |r| ==> r[k].start < |t| && t[r[k].start] == Some(Hit(r[k].groupEnd, r[k].end)))
    && (r == [] ==> forall i :: from <= i < |t| ==> t[i].None?)
    && (r != [] ==> forall i :: from <= i < r[0].start && i < |t| ==> t[i].None?)
  }

  /** A match taken at `from`, followed by the scan from its end. */
  lemma {:induction false} ScanCons(t: seq<Option<Hit>>, from: nat, rest: seq<Found>)
    requires HitTable(t) && from < |t| && t[from].Some?
    requires Scanned(t, t[from].value.end, rest)
    ensures Scanned(t, from, [Found(from, t[from].value.groupEnd, t[from].value.end)] + rest)
  {
    var r := [Found(from, t[from].value.groupEnd, t[from].value.end)] + rest;
    assert forall k :: 1 <= k < |r| ==> r[k] == rest[k - 1];
  }

  /** `re.finditer(p, s)` from index `from`: leftmost, non-overlapping matches, in order. */
  function FindAll(p: Pattern, s: string, from: nat): (r: seq<Found>)
    requires from <= |s|
    ensures forall k :: 0 <= k < |r| ==>
      from <= r[k].start < r[k].end <= |s| && r[k].start <= r[k].groupEnd <= r[k].end
    ensures forall k :: 0 <= k < |r| - 1 ==> r[k].end <= r[k + 1].start
  {
    ScanTable(MatchTable(p, s), from)
  }

  /** Every match found is a match of `p` at its start. */
  lemma {:induction false} FindAllMatches(p: Pattern, s: string, from: nat)
    requires from <= |s|
    ensures var r := FindAll(p, s, from);
      forall k :: 0 <= k < |r| ==> MatchAt(p, s, r[k].start) == Some(Hit(r[k].groupEnd, r[k].end))
  {
    var t := MatchTable(p, s);
    var r := ScanTable(t, from);
    forall k | 0 <= k < |r|
      ensures MatchAt(p, s, r[k].start) == Some(Hit(r[k].groupEnd, r[k].end))
    {
      assert t[r[k].start] == MatchAt(p, s, r[k].start);
    }
  }

  /** The scan skips no match: none before the first one found, none at all when nothing is found. */
  lemma {:induction false} FindAllFirst(p: Pattern, s: string, from: nat)
    requires from <= |s|
    ensures FindAll(p, s, from) == [] ==> forall i :: from <= i <= |s| ==> MatchAt(p, s, i).None?
    ensures FindAll(p, s, from) != [] ==> forall i :: from <= i < FindAll(p, s, from)[0].start ==> MatchAt(p, s, i).None?
  {
    var t := MatchTable(p, s);
    var r := ScanTable(t, from);
    forall i | from <= i <= |s| && (r == [] || i < r[0].start)
      ensures MatchAt(p, s, i).None?
    {
      assert t[i] == MatchAt(p, s, i);
    }
  }

  /** `re.search(p, s) is not None`. */
  predicate Occurs(p: Pattern, s: string)
  {
    FindAll(p, s, 0) != []
  }

  /**
   * `re.split(p, s)` continued from index `i`, with the current piece starting at
   * `pieceStart`; with `keepGroups` the text of the first capture group of every
   * match is kept between the pieces, as `re.split` does for a grouped pattern.
   */
  function SplitFrom(p: Pattern, s: string, pieceStart: nat, i: nat, keepGroups: bool): (r: seq<string>)
    requires pieceStart <= i <= |s|
    ensures |r| >= 1
    ensures |Join(r, "")| <= |s| - pieceStart
  {
    SplitScan(MatchTable(p, s), s, pieceStart, i, keepGroups)
  }

  /** The scan of `re.split` over the table of matches of the pattern in `s`. */
  function SplitScan(t: seq<Option<Hit>>, s: string, pieceStart: nat, i: nat, keepGroups: bool): (r: seq<string>)
    requires HitTable(t) && |t| == |s| + 1
    requires pieceStart <= i <= |s|
    ensures |r| >= 1
    ensures |Join(r, "")| <= |s| - pieceStart
    decreases |s| - i
  {
    if i == |s| then [s[pieceStart..]]
    else if t[i].Some? then
      var h := t[i].value;
      var rest := SplitScan(t, s, h.end, h.end, keepGroups);
      var front := if keepGroups then [s[pieceStart..i], s[i..h.groupEnd]] else [s[pieceStart..i]];
      JoinLength(front, rest);
      front + rest
    else SplitScan(t, s, pieceStart, i + 1, keepGroups)
  }

  lemma {:induction false} JoinLength(front: seq<string>, rest: seq<string>)
    requires rest != []
    ensures |Join(front + rest, "")| == |Join(front, "")| + |Join(rest, "")|
  {
    if |front| == 1 {
      assert front + rest == [front[0]] + rest;
    } else if |front| > 1 {
      assert (front + rest)[1..] == front[1..] + rest;
      JoinLength(front[1..], rest);
    } else {
      assert front + rest == rest;
    }
  }

  /** Every match in the table is captured whole by its group, as for the operator pattern. */
  predicate WholeGroup(t: seq<Option<Hit>>)
  {
    forall i :: 0 <= i < |t| && t[i].Some? ==> t[i].value.groupEnd == t[i].value.end
  }

  /** When the group is the whole match, the pieces of `re.split` put the text back together. */
  lemma {:induction false} ScanKeepJoins(t: seq<Option<Hit>>, s: string, pieceStart: nat, i: nat)
    requires HitTable(t) && |t| == |s| + 1 && WholeGroup(t)
    requires pieceStart <= i <= |s|
    ensures Join(SplitScan(t, s, pieceStart, i, true), "") == s[pieceStart..]
    decreases |s| - i
  {
    if i < |s| {
      if t[i].Some? {
        var h := t[i].value;
        var rest := SplitScan(t, s, h.end, h.end, true);
        ScanKeepJoins(t, s, h.end, h.end);
        JoinCons(s[i..h.end], rest, "");
        JoinCons(s[pieceStart..i], [s[i..h.end]] + rest, "");
        assert [s[pieceStart..i], s[i..h.groupEnd]] + rest == [s[pieceStart..i]] + ([s[i..h.end]] + rest);
        assert s[pieceStart..] == s[pieceStart..i] + s[i..h.end] + s[h.end..];
      } else {
        ScanKeepJoins(t, s, pieceStart, i + 1);
      }
    }
  }

  /** Splitting at the operators and keeping them loses no text. */
  lemma {:induction false} OperatorSplitJoins(s: string)
    ensures Join(SplitKeep(Operator, s), "") == s
  {
    var t := MatchTable(Operator, s);
    forall i | 0 <= i < |t| && t[i].Some?
      ensures t[i].value.groupEnd == t[i].value.end
    {
      assert t[i] == MatchAt(Operator, s, i);
    }
    ScanKeepJoins(t, s, 0, 0);
  }

  /** `re.split(p, s)` for a pattern without groups. */
  function Split(p: Pattern, s: string): (r: seq<string>)
    ensures |r| >= 1
  {
    SplitFrom(p, s, 0, 0, false)
  }

  /** `re.split(p, s)` for a pattern with one capture group. */
  function SplitKeep(p: Pattern, s: string): (r: seq<string>)
    ensures |r| >= 1
    ensures |Join(r, "")| <= |s|
  {
    SplitFrom(p, s, 0, 0, true)
  }

  /** Up to the first match, `re.split` with a group yields the text before it and the group's text. */
  lemma {:induction false} SplitKeepFirst(p: Pattern, s: string, pieceStart: nat, i: nat, q: nat, h: Hit)
    requires pieceStart <= i <= q < |s|
    requires forall k :: i <= k < q ==> MatchAt(p, s, k).None?
    requires MatchAt(p, s, q) == Some(h)
    ensures SplitFrom(p, s, pieceStart, i, true)
      == [s[pieceStart..q], s[q..h.groupEnd]] + SplitFrom(p, s, h.end, h.end, true)
  {
    var t := MatchTable(p, s);
    ScanKeepFirst(t, s, pieceStart, i, q, h);
  }

  lemma {:induction false} ScanKeepFirst(t: seq<Option<Hit>>, s: string, pieceStart: nat, i: nat, q: nat, h: Hit)
    requires HitTable(t) && |t| == |s| + 1
    requires pieceStart <= i <= q < |s|
    requires forall k :: i <= k < q ==> t[k].None?
    requires t[q] == Some(h)
    ensures SplitScan(t, s, pieceStart, i, true)
      == [s[pieceStart..q], s[q..h.groupEnd]] + SplitScan(t, s, h.end, h.end, true)
    decreases q - i
  {
    if i < q {
      ScanKeepFirst(t, s, pieceStart, i + 1, q, h);
    }
  }

  /** `re.findall(p, s)` for a pattern without groups: the matched texts. */
  function FindTexts(p: Pattern, s: string): (r: seq<string>)
  {
    var found := FindAll(p, s, 0);
    seq(|found|, k requires 0 <= k < |found| => s[found[k].start..found[k].end])
  }

  // ---------------------------------------------------------------------------------------------
  // Letter case: the classes the patterns use do not change under lower-casing
  // ---------------------------------------------------------------------------------------------

  lemma {:induction false} SkipLower(s: string, i: nat, p: char -> bool)
    requires i <= |s|
    requires forall c :: p(LowerChar(c)) == p(c)
    ensures Skip(Lower(s), i, p) == Skip(s, i, p)
    decreases |s| - i
  {
    if i < |s| {
      assert Lower(s)[i] == LowerChar(s[i]);
      if p(s[i]) {
        SkipLower(s, i + 1, p);
      }
    }
  }

  lemma {:induction false} LowerClasses()
    ensures forall c :: IsSpace(LowerChar(c)) == IsSpace(c)
    ensures forall c :: IsDigit(LowerChar(c)) == IsDigit(c)
    ensures forall c :: IsLetter(LowerChar(c)) == IsLetter(c)
  {
  }

  lemma {:induction false} WordAtLower(s: string, i: nat, word: string)
    ensures WordAt(Lower(s), i, word) == WordAt(s, i, word)
  {
    if i + |word| <= |s| {
      assert Lower(s)[i..i + |word|] == Lower(s[i..i + |word|]);
      assert Lower(Lower(s[i..i + |word|])) == Lower(s[i..i + |word|]);
    }
  }

  /** A character lowers to the lower-case letter `lower` exactly when it is that letter in either case. */
  lemma {:induction false} LowerIs(c: char, upper: char, lower: char)
    requires IsUpper(upper) && lower == LowerChar(upper)
    ensures LowerChar(c) == lower <==> c == upper || c == lower
  {
  }
}
