/**
 * `detect_math_content` of the math OCR processor: a text counts as mathematical when at
 * least two of a fixed list of indicators occur in its lower-cased form. The indicators are
 * symbols, brackets, function names and differentials.
 */
module MathDetect {
  import opened Text

  /** The indicator list, in source order; `'\U{221A}'` is the radical sign, `'\U{03C0}'` is pi. */
  const Indicators: seq<string> := [
    "=", "+", "-", "*", "/", "^", "\U{221A}",
    "\U{222B}", "\U{2211}", "\U{220F}", "\U{03C0}", "\U{00B1}", "\U{2264}", "\U{2265}",
    "(", ")", "[", "]", "{", "}",
    "sin", "cos", "tan", "log", "ln",
    "lim", "dx", "dy", "dt"]

  /** How many of `inds` occur in `text`. */
  function Hits(text: string, inds: seq<string>): (n: nat)
    ensures n <= |inds|
  {
    if inds == [] then 0
    else (if Contains(text, inds[0]) then 1 else 0) + Hits(text, inds[1..])
  }

  /** Two different positions of `inds` whose indicators both occur in `text`. */
  predicate TwoOccur(text: string, inds: seq<string>)
  {
    exists i, j :: 0 <= i < j < |inds| && Contains(text, inds[i]) && Contains(text, inds[j])
  }

  /** Some indicator of `inds` occurs in `text`. */
  predicate OneOccurs(text: string, inds: seq<string>)
  {
    exists i :: 0 <= i < |inds| && Contains(text, inds[i])
  }

  /** At least one hit is an occurring indicator. */
  lemma {:induction false} HitsOne(text: string, inds: seq<string>)
    ensures Hits(text, inds) >= 1 <==> OneOccurs(text, inds)
    decreases |inds|
  {
    if inds != [] {
      HitsOne(text, inds[1..]);
      if OneOccurs(text, inds[1..]) {
        var i :| 0 <= i < |inds| - 1 && Contains(text, inds[1..][i]);
        assert inds[1..][i] == inds[i + 1];
      }
      if OneOccurs(text, inds) && !Contains(text, inds[0]) {
        var i :| 0 <= i < |inds| && Contains(text, inds[i]);
        assert inds[1..][i - 1] == inds[i];
      }
    }
  }

  /** At least two hits are two occurring indicators at different positions. */
  lemma {:induction false} HitsTwo(text: string, inds: seq<string>)
    ensures Hits(text, inds) >= 2 <==> TwoOccur(text, inds)
    decreases |inds|
  {
    if inds != [] {
      var rest := inds[1..];
      HitsTwo(text, rest);
      HitsOne(text, rest);
      if Hits(text, inds) >= 2 {
        if Contains(text, inds[0]) {
          var j :| 0 <= j < |rest| && Contains(text, rest[j]);
          assert rest[j] == inds[j + 1];
        } else {
          var i, j :| 0 <= i < j < |rest| && Contains(text, rest[i]) && Contains(text, rest[j]);
          assert rest[i] == inds[i + 1] && rest[j] == inds[j + 1];
        }
      }
      if TwoOccur(text, inds) {
        var i, j :| 0 <= i < j < |inds| && Contains(text, inds[i]) && Contains(text, inds[j]);
        assert rest[j - 1] == inds[j];
        if i > 0 {
          assert rest[i - 1] == inds[i];
        }
      }
    }
  }

  /** `detect_math_content`. */
  function DetectMathContent(text: string): (r: bool)
    ensures r <==> TwoOccur(Lower(text), Indicators)
  {
    HitsTwo(Lower(text), Indicators);
    Hits(Lower(text), Indicators) >= 2
  }

  /** The indicators are pairwise different, so two positions are two different indicators. */
  lemma {:induction false} IndicatorsDistinct()
    ensures forall i, j :: 0 <= i < j < |Indicators| ==> Indicators[i] != Indicators[j]
  {
  }

  /** Non-empty indicators never occur in the empty text. */
  lemma {:induction false} NoHitsInEmpty(inds: seq<string>)
    requires forall k :: 0 <= k < |inds| ==> inds[k] != []
    ensures Hits([], inds) == 0
    decreases |inds|
  {
    if inds != [] {
      assert !Contains([], inds[0]);
      NoHitsInEmpty(inds[1..]);
    }
  }

  /** No indicator is empty, so the empty text has none. */
  lemma {:induction false} EmptyIsNotMath()
    ensures !DetectMathContent([])
  {
    assert Lower([]) == [];
    NoHitsInEmpty(Indicators);
  }

  /** Appending text never takes away an indicator. */
  lemma {:induction false} DetectExtend(text: string, more: string)
    requires DetectMathContent(text)
    ensures DetectMathContent(text + more)
  {
    var t := Lower(text);
    var i, j :| 0 <= i < j < |Indicators| && Contains(t, Indicators[i]) && Contains(t, Indicators[j]);
    LowerAppend(text, more);
    ContainsExtend(t, Lower(more), Indicators[i]);
    ContainsExtend(t, Lower(more), Indicators[j]);
  }

  /** Lower-casing twice is lower-casing once. */
  lemma {:induction false} LowerIdempotent(s: string)
    ensures Lower(Lower(s)) == Lower(s)
  {
    assert forall i :: 0 <= i < |s| ==> LowerChar(LowerChar(s[i])) == LowerChar(s[i]);
  }

  /**
   * Letter indicators match in any letter case: a text and its lower-cased form, and any two
   * texts with the same lower-cased form, are judged alike.
   */
  lemma {:induction false} DetectIgnoresCase(text: string, other: string)
    requires Lower(other) == Lower(text)
    ensures DetectMathContent(Lower(text)) == DetectMathContent(text)
    ensures DetectMathContent(other) == DetectMathContent(text)
  {
    LowerIdempotent(text);
  }

  /** An upper-case function name next to a sign is enough. */
  lemma {:induction false} UpperCaseSine()
    ensures DetectMathContent("SIN=")
  {
    var t := Lower("SIN=");
    assert t == "sin=";
    assert OccursAt(t, Indicators[0], 3);
    assert OccursAt(t, Indicators[20], 0);
    BothOccur(t, Indicators, 20, 0, 3);
  }

  /** Two indicators found at known places are two occurring indicators. */
  lemma {:induction false} BothOccur(text: string, inds: seq<string>, j: nat, at: nat, at0: nat)
    requires 0 < j < |inds| && OccursAt(text, inds[0], at0) && OccursAt(text, inds[j], at)
    ensures TwoOccur(text, inds)
  {
    assert Contains(text, inds[0]) && Contains(text, inds[j]);
  }
}
