/**
 * The structural part of the LaTeX-to-plain-math converter: the brace scanner, the recursive
 * `\frac{A}{B}` rewriter, the conversion pipeline around them, and the LaTeX detector.
 * The regular-expression substitution table (formatting commands, roots, powers, Greek
 * letters, operator spacing) is a parameter `rewrite`: only the steps the pipeline performs
 * after it are characterised.
 */
module LatexConverter {
  import opened Text

  const Frac: string := "\\frac"

  // ---------------------------------------------------------------------------------------------
  // Brace nesting
  // ---------------------------------------------------------------------------------------------

  function Delta(c: char): int
  {
    if c == '{' then 1 else if c == '}' then -1 else 0
  }

  /** Opening braces minus closing braces. */
  function Depth(s: string): int
  {
    if s == [] then 0 else Delta(s[0]) + Depth(s[1..])
  }

  lemma {:induction false} DepthAppend(a: string, b: string)
    ensures Depth(a + b) == Depth(a) + Depth(b)
    decreases |a|
  {
    if a != [] {
      assert (a + b)[0] == a[0] && (a + b)[1..] == a[1..] + b;
      DepthAppend(a[1..], b);
      assert Depth(a + b) == Delta(a[0]) + Depth(a[1..] + b);
    } else {
      assert a + b == b;
    }
  }

  lemma {:induction false} DepthCons(text: string, i: nat, k: nat)
    requires i < k <= |text|
    ensures Depth(text[i..k]) == Delta(text[i]) + Depth(text[i + 1..k])
  {
    assert text[i..k][1..] == text[i + 1..k];
  }

  /** No prefix closes more braces than it opens. */
  predicate Nested(s: string)
  {
    forall m :: 0 <= m <= |s| ==> Depth(s[..m]) >= 0
  }

  /** Braces balanced: nested, and every opened brace closed. */
  predicate Balanced(s: string)
  {
    Nested(s) && Depth(s) == 0
  }

  // ---------------------------------------------------------------------------------------------
  // `_extract_braced_content`
  // ---------------------------------------------------------------------------------------------

  /**
   * The loop of `_extract_braced_content` from index `i` at nesting `depth`: the index it
   * stops at and the depth there. It stops at the end of the text or once the depth reaches 0.
   */
  function Scan(text: string, i: nat, depth: int): (r: (nat, int))
    requires i <= |text|
    ensures i <= r.0 <= |text|
    ensures r.0 < |text| ==> r.1 <= 0
    ensures depth > 0 ==> r.1 >= 0
    ensures depth > 0 && r.1 == 0 ==> i < r.0 && text[r.0 - 1] == '}'
    decreases |text| - i
  {
    if i < |text| && depth > 0 then Scan(text, i + 1, depth + Delta(text[i])) else (i, depth)
  }

  /**
   * The depth the scan stops at is the starting depth plus the net depth of what it read, and
   * every point it passed was still inside the brace.
   */
  lemma {:induction false} ScanDepth(text: string, i: nat, depth: int)
    requires i <= |text|
    ensures var r := Scan(text, i, depth);
      && r.1 == depth + Depth(text[i..r.0])
      && forall k :: i <= k < r.0 ==> depth + Depth(text[i..k]) > 0
    decreases |text| - i
  {
    if i < |text| && depth > 0 {
      var d := depth + Delta(text[i]);
      var r := Scan(text, i + 1, d);
      ScanDepth(text, i + 1, d);
      DepthCons(text, i, r.0);
      forall k | i < k < r.0
        ensures depth + Depth(text[i..k]) > 0
      {
        DepthCons(text, i, k);
      }
    }
  }

  /** `text[start-1]` with Python's negative index: index `-1` is the last character. */
  function Before(text: string, start: nat): char
    requires start <= |text| && text != []
  {
    if start == 0 then text[|text| - 1] else text[start - 1]
  }

  /** The guard of `_extract_braced_content`: no opening brace just before `start`. */
  predicate Unopened(text: string, start: nat)
  {
    start >= |text| || Before(text, start) != '{'
  }

  /**
   * `_extract_braced_content`: the index of the brace closing the one just before `start`, and
   * the content strictly between; when the brace never closes, the last index and the rest of the
   * text.
   */
  function ExtractBraced(text: string, start: nat): (r: (nat, string))
    ensures Unopened(text, start) ==> r == (start, [])
    ensures !Unopened(text, start) ==> start <= r.0 < |text| && |r.1| <= |text| - start
  {
    if Unopened(text, start) then (start, [])
    else
      var s := Scan(text, start, 1);
      if s.1 == 0 then (s.0 - 1, text[start..s.0 - 1]) else (s.0 - 1, text[start..])
  }

  /**
   * What `_extract_braced_content` finds after an opening brace: either the brace closes, at the
   * returned index, around a balanced content, or it never closes and the content is the rest
   * of the text, which never dips below depth 0.
   */
  lemma {:induction false} ExtractBracedShape(text: string, start: nat)
    requires !Unopened(text, start)
    ensures var r := ExtractBraced(text, start);
      && Nested(r.1)
      && (|| (text[r.0] == '}' && r.1 == text[start..r.0] && Depth(r.1) == 0)
          || (r.0 == |text| - 1 && r.1 == text[start..]))
  {
    ScanDepth(text, start, 1);
    var j, d := Scan(text, start, 1).0, Scan(text, start, 1).1;
    var e := if d == 0 then j - 1 else |text|;
    assert forall k :: start <= k <= e ==> Depth(text[start..k]) >= 0 by {
      if d != 0 {
        assert |text| == j;
      }
    }
    PrefixesNested(text, start, e);
    if d == 0 {
      assert text[start..j] == text[start..e] + [text[j - 1]];
      DepthAppend(text[start..e], [text[j - 1]]);
    } else {
      assert text[start..e] == text[start..];
    }
  }

  /** A slice all of whose prefixes have depth zero or more is nested. */
  lemma {:induction false} PrefixesNested(text: string, start: nat, e: nat)
    requires start <= e <= |text|
    requires forall k :: start <= k <= e ==> Depth(text[start..k]) >= 0
    ensures Nested(text[start..e])
  {
    var content := text[start..e];
    forall m | 0 <= m <= |content|
      ensures Depth(content[..m]) >= 0
    {
      assert content[..m] == text[start..start + m];
    }
  }

  /** A balanced content followed by `}` is extracted exactly. */
  lemma {:induction false} ExtractBalanced(text: string, start: nat, a: string)
    requires 1 <= start && start + |a| < |text|
    requires text[start - 1] == '{' && text[start..start + |a|] == a && text[start + |a|] == '}'
    requires Balanced(a)
    ensures ExtractBraced(text, start) == (start + |a|, a)
  {
    ScanDepth(text, start, 1);
    var (j, d) := Scan(text, start, 1);
    var e := start + |a|;
    assert text[start..e + 1] == a + "}";
    DepthAppend(a, "}");
    assert Depth("}") == -1;
    forall k | start <= k <= e
      ensures 1 + Depth(text[start..k]) > 0
    {
      assert text[start..k] == a[..k - start];
    }
    assert j == e + 1;
    assert d == 0;
    assert text[start..j - 1] == a;
  }

  // ---------------------------------------------------------------------------------------------
  // `_convert_nested_braces`
  // ---------------------------------------------------------------------------------------------

  predicate FracAt(text: string, i: nat)
  {
    OccursAt(text, Frac, i)
  }

  /** One argument of a fraction at `i`: its raw braced content and the index after it. */
  function Operand(text: string, i: nat): (r: (string, nat))
    ensures r.0 == [] || |r.0| < |text|
    ensures r.1 == i || (i < |text| && i < r.1 <= |text| + 1)
  {
    if i < |text| && text[i] == '{' then
      var x := ExtractBraced(text, i + 1);
      (x.1, x.0 + 1)
    else ([], i)
  }

  /** The plain-text form `(A)/(B)` of a fraction. */
  function Quotient(numerator: string, denominator: string): string
  {
    "(" + numerator + ")/(" + denominator + ")"
  }

  /**
   * `_convert_nested_braces(text, i)`: every `\frac{A}{B}` becomes `(A')/(B')` with `A'` and `B'`
   * converted in turn, every other character is copied, and the index the loop stops at is
   * returned with the text.
   */
  function ConvertNestedBraces(text: string, i: nat): (r: (string, nat))
    ensures i <= |text| ==> |text| <= r.1 <= |text| + 1
    ensures i > |text| ==> r.1 == i
    decreases |text|, |text| - i
  {
    if i >= |text| then ([], i)
    else if FracAt(text, i) then
      var num := Operand(text, i + |Frac|);
      var den := Operand(text, num.1);
      var rest := ConvertNestedBraces(text, den.1);
      var numerator := ConvertNestedBraces(num.0, 0).0;
      var denominator := ConvertNestedBraces(den.0, 0).0;
      (Quotient(numerator, denominator) + rest.0, rest.1)
    else
      var rest := ConvertNestedBraces(text, i + 1);
      ([text[i]] + rest.0, rest.1)
  }

  predicate NoFracFrom(text: string, i: nat)
  {
    forall k :: i <= k <= |text| ==> !FracAt(text, k)
  }

  /** Without `\frac`, the text from `i` is copied unchanged and the loop stops at its end. */
  lemma {:induction false} NoFracUnchanged(text: string, i: nat)
    requires i <= |text| && NoFracFrom(text, i)
    ensures ConvertNestedBraces(text, i) == (text[i..], |text|)
    decreases |text| - i
  {
    if i < |text| {
      assert !FracAt(text, i);
      NoFracUnchanged(text, i + 1);
      assert text[i..] == [text[i]] + text[i + 1..];
    }
  }

  /** The case of the source's docstring: a text without `\frac` comes back as it is, with index `len(text)`. */
  lemma {:induction false} NoFracIdentity(text: string)
    requires !Contains(text, Frac)
    ensures ConvertNestedBraces(text, 0) == (text, |text|)
  {
    forall k | 0 <= k <= |text|
      ensures !FracAt(text, k)
    {
    }
    NoFracUnchanged(text, 0);
  }

  /** A braced balanced argument is taken whole, and the loop continues after its closing brace. */
  lemma {:induction false} OperandBalanced(text: string, f: nat, a: string)
    requires BracedAt(text, f, a) && Balanced(a)
    ensures Operand(text, f) == (a, f + |a| + 2)
  {
    ExtractBalanced(text, f + 1, a);
  }

  /** `{a}` stands at index `f`. */
  predicate BracedAt(text: string, f: nat, a: string)
  {
    f + |a| + 1 < |text| && text[f] == '{' && text[f + 1..f + 1 + |a|] == a && text[f + 1 + |a|] == '}'
  }

  /** The layout of `\frac{A}{B}` at index `i`, piece by piece. */
  predicate FracLayout(text: string, i: nat, a: string, b: string)
  {
    FracAt(text, i) && BracedAt(text, i + |Frac|, a) && BracedAt(text, i + |Frac| + |a| + 2, b)
  }

  lemma {:induction false} SliceOfSlice(s: string, i: nat, j: nat, x: nat, y: nat)
    requires i <= j <= |s| && x <= y <= j - i
    ensures s[i..j][x..y] == s[i + x..i + y]
  {
    assert forall k :: 0 <= k < y - x ==> s[i..j][x..y][k] == s[i + x + k];
  }

  /** A slice that reads `x + y + z` reads `x`, then `y`, then `z`. */
  lemma {:induction false} SliceOfThree(text: string, i: nat, x: string, y: string, z: string)
    requires i + |x| + |y| + |z| <= |text| && text[i..i + |x| + |y| + |z|] == x + y + z
    ensures text[i..i + |x|] == x
    ensures text[i + |x|..i + |x| + |y|] == y
    ensures text[i + |x| + |y|..i + |x| + |y| + |z|] == z
  {
    var j := i + |x| + |y| + |z|;
    SliceOfSlice(text, i, j, 0, |x|);
    SliceOfSlice(text, i, j, |x|, |x| + |y|);
    SliceOfSlice(text, i, j, |x| + |y|, |x| + |y| + |z|);
    assert (x + y + z)[..|x|] == x;
    assert (x + y + z)[|x|..|x| + |y|] == y;
    assert (x + y + z)[|x| + |y|..] == z;
  }

  /** A slice that reads `{a}` puts `{a}` at its start. */
  lemma {:induction false} BracedAtOf(text: string, f: nat, a: string)
    requires f + |a| + 2 <= |text| && text[f..f + |a| + 2] == "{" + a + "}"
    ensures BracedAt(text, f, a)
  {
    SliceOfThree(text, f, "{", a, "}");
    assert text[f..f + 1][0] == text[f];
    assert text[f + 1 + |a|..f + |a| + 2][0] == text[f + 1 + |a|];
  }

  /** The text `\frac{A}{B}` written out is laid out as `FracLayout` says. */
  lemma {:induction false} FracLayoutOf(text: string, i: nat, a: string, b: string)
    requires i + |Frac| + |a| + |b| + 4 <= |text|
    requires text[i..i + |Frac| + |a| + |b| + 4] == Frac + "{" + a + "}{" + b + "}"
    ensures FracLayout(text, i, a, b)
  {
    var x, y, z := Frac, "{" + a + "}", "{" + b + "}";
    assert Frac + "{" + a + "}{" + b + "}" == x + y + z;
    SliceOfThree(text, i, x, y, z);
    BracedAtOf(text, i + |Frac|, a);
    BracedAtOf(text, i + |Frac| + |a| + 2, b);
  }

  /**
   * A fraction at `i` whose arguments are `a`, ending at `g`, and `b`, ending at `next`, is
   * rewritten as the quotient of their conversions followed by the conversion from `next`.
   */
  lemma {:induction false} FracStep(text: string, i: nat, a: string, b: string, g: nat, next: nat)
    requires i < |text| && FracAt(text, i)
    requires Operand(text, i + |Frac|) == (a, g) && Operand(text, g) == (b, next)
    ensures ConvertNestedBraces(text, i).0
      == Quotient(ConvertNestedBraces(a, 0).0, ConvertNestedBraces(b, 0).0) + ConvertNestedBraces(text, next).0
  {
  }

  /**
   * `\frac{A}{B}` with balanced `A` and `B` becomes `(A')/(B')`, where `A'` and `B'` are the
   * conversions of `A` and `B`, and the conversion goes on after the closing brace of `B`.
   */
  lemma {:induction false} FracRewrite(text: string, i: nat, a: string, b: string)
    requires Balanced(a) && Balanced(b)
    requires i + |Frac| + |a| + |b| + 4 <= |text|
    requires text[i..i + |Frac| + |a| + |b| + 4] == Frac + "{" + a + "}{" + b + "}"
    ensures ConvertNestedBraces(text, i).0
      == Quotient(ConvertNestedBraces(a, 0).0, ConvertNestedBraces(b, 0).0)
         + ConvertNestedBraces(text, i + |Frac| + |a| + |b| + 4).0
  {
    FracLayoutOf(text, i, a, b);
    var f := i + |Frac|;
    var g := f + |a| + 2;
    OperandBalanced(text, f, a);
    OperandBalanced(text, g, b);
    FracStep(text, i, a, b, g, g + |b| + 2);
  }

  // ---------------------------------------------------------------------------------------------
  // `convert`
  // ---------------------------------------------------------------------------------------------

  // The operator class of the final clean-up: + - * / = and the symbols ± × ÷ ≤ ≥ ≠ ≈ ≡.
  predicate IsOperatorChar(c: char)
  {
    c in {'+', '-', '*', '/', '=', '\U{00B1}', '\U{00D7}', '\U{00F7}', '\U{2264}', '\U{2265}', '\U{2260}', '\U{2248}', '\U{2261}'}
  }

  /** One removal of a run of operators at each end of the text. */
  function DropBorderOperators(s: string): (r: string)
    ensures Span(s, IsOperatorChar) + |r| <= |s|
    ensures r == s[Span(s, IsOperatorChar)..Span(s, IsOperatorChar) + |r|]
  {
    var t := s[Span(s, IsOperatorChar)..];
    t[..|t| - BackSpan(t, IsOperatorChar)]
  }

  /**
   * `convert`: blank input is returned as it is; otherwise the stripped text has its fractions
   * rewritten when it mentions `\frac`, goes through the substitution table `rewrite`, is
   * stripped, loses its border operators and has its whitespace squeezed.
   */
  function Convert(text: string, rewrite: string -> string): (r: string)
    ensures IsBlank(text) ==> r == text
    ensures !IsBlank(text) ==> SingleSpaced(r) && Trimmed(r)
  {
    if IsBlank(text) then text
    else
      var s := Strip(text);
      var f := if Contains(s, Frac) then ConvertNestedBraces(s, 0).0 else s;
      Squeeze(DropBorderOperators(Strip(rewrite(f))))
  }

  /** The result of a non-blank conversion is already squeezed: converting settles whitespace once. */
  lemma {:induction false} ConvertSqueezed(text: string, rewrite: string -> string)
    requires !IsBlank(text)
    ensures Squeeze(Convert(text, rewrite)) == Convert(text, rewrite)
  {
    SqueezeOfSqueezed(Convert(text, rewrite));
  }

  /** The fraction rewriter only runs on text that mentions `\frac`; on other text it would change nothing. */
  lemma {:induction false} FracStepInert(text: string)
    requires !Contains(text, Frac)
    ensures ConvertNestedBraces(text, 0).0 == text
  {
    NoFracIdentity(text);
  }

  /** `convert_multiple`: element-wise, same length and order. */
  function ConvertMultiple(texts: seq<string>, rewrite: string -> string): (r: seq<string>)
    ensures |r| == |texts|
    ensures forall k :: 0 <= k < |texts| ==> r[k] == Convert(texts[k], rewrite)
  {
    if texts == [] then []
    else [Convert(texts[0], rewrite)] + ConvertMultiple(texts[1..], rewrite)
  }

  // ---------------------------------------------------------------------------------------------
  // `is_latex`
  // ---------------------------------------------------------------------------------------------

  /** The indicators of `is_latex` that are plain literals once the regex escapes are read. */
  const LiteralIndicators: seq<string> := [
    "\\frac", "\\sqrt", "\\overline", "\\underline", "\\_{", "\\alpha", "\\beta", "\\pm",
    "\\times", "\\leq", "\\geq", "\\infty"
  ]

  /**
   * The indicator `r'\\^\{'` read as a regular expression: a backslash, then the start-of-string
   * anchor `^`, then `{`. The anchor can only hold at index 0, and the backslash before it has
   * already consumed a character.
   */
  predicate AnchoredBraceAt(text: string, q: nat)
  {
    q + 1 < |text| && text[q] == '\\' && text[q + 1] == '{' && q + 1 == 0
  }

  predicate AnyLiteral(text: string, indicators: seq<string>)
  {
    exists k :: 0 <= k < |indicators| && Contains(text, indicators[k])
  }

  /** `is_latex` as written. */
  predicate IsLatexAsWritten(text: string)
  {
    AnyLiteral(text, LiteralIndicators) || exists q :: 0 <= q < |text| && AnchoredBraceAt(text, q)
  }

  /** The caret indicator never matches, so `is_latex` as written only sees the literal indicators. */
  lemma {:induction false} CaretIndicatorInert(text: string)
    ensures IsLatexAsWritten(text) <==> AnyLiteral(text, LiteralIndicators)
  {
  }

  const Superscript: string := "^{"

  /** `is_latex` with the caret indicator read as the superscript `^{` it is evidently meant to find. */
  predicate IsLatex(text: string)
  {
    AnyLiteral(text, LiteralIndicators) || Contains(text, Superscript)
  }

  /** The corrected detector finds everything the written one finds, and superscripts besides. */
  lemma {:induction false} IsLatexExtends(text: string)
    ensures IsLatexAsWritten(text) ==> IsLatex(text)
    ensures Contains(text, Superscript) ==> IsLatex(text)
    ensures IsLatex(text) <==> IsLatexAsWritten(text) || Contains(text, Superscript)
  {
    CaretIndicatorInert(text);
  }

  /** A text without a backslash contains none of the literal indicators. */
  lemma {:induction false} NoBackslashNoLiteral(text: string)
    requires forall q :: 0 <= q < |text| ==> text[q] != '\\'
    ensures !AnyLiteral(text, LiteralIndicators)
  {
    forall k | 0 <= k < |LiteralIndicators|
      ensures !Contains(text, LiteralIndicators[k])
    {
      var ind := LiteralIndicators[k];
      assert ind[0] == '\\';
    }
  }

  /** `x^{2}` is a superscript the written detector misses and the corrected one finds. */
  lemma {:induction false} SuperscriptMissed()
    ensures !IsLatexAsWritten("x^{2}")
    ensures IsLatex("x^{2}")
  {
    var t := "x^{2}";
    NoBackslashNoLiteral(t);
    CaretIndicatorInert(t);
    assert OccursAt(t, Superscript, 1);
  }
}
