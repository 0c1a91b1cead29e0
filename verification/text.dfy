/**
 * The behaviour of Python's `str` that the grading code relies on: character classes,
 * `strip`, `split`, `splitlines`, `join`, substring tests, `replace`, `lower`, the
 * whitespace-run rewrites `re.sub(r'\s+', ...)`, decimal rendering and string ordering.
 */
module Text {

  /** `str.isspace()` for one character; the class `\s` of a `str` regular expression is the same set. */
  predicate IsSpace(c: char)
  {
    || ('\t' <= c <= '\r')
    || ('\U{1C}' <= c <= '\U{1F}')
    || c == ' ' || c == '\U{85}' || c == '\U{A0}' || c == '\U{1680}'
    || ('\U{2000}' <= c <= '\U{200A}')
    || c == '\U{2028}' || c == '\U{2029}' || c == '\U{202F}' || c == '\U{205F}' || c == '\U{3000}'
  }

  /** The characters at which `str.splitlines()` ends a line. */
  predicate IsLineBreak(c: char)
  {
    ('\n' <= c <= '\r') || ('\U{1C}' <= c <= '\U{1E}') || c == '\U{85}' || c == '\U{2028}' || c == '\U{2029}'
  }

  predicate IsDigit(c: char) { '0' <= c <= '9' }

  predicate IsUpper(c: char) { 'A' <= c <= 'Z' }

  predicate IsLower(c: char) { 'a' <= c <= 'z' }

  predicate IsLetter(c: char) { IsUpper(c) || IsLower(c) }

  predicate IsAlnum(c: char) { IsLetter(c) || IsDigit(c) }

  /** Every character of `s` satisfies `p`. */
  predicate All(s: string, p: char -> bool)
  {
    forall i :: 0 <= i < |s| ==> p(s[i])
  }

  /** `not s.strip()`: the string is empty or only whitespace. */
  predicate IsBlank(s: string)
  {
    All(s, IsSpace)
  }

  /** No two neighbouring characters both satisfy `p`. */
  predicate NoAdjacent(s: string, p: char -> bool)
  {
    forall i :: 0 <= i < |s| - 1 ==> !(p(s[i]) && p(s[i + 1]))
  }

  function LowerChar(c: char): char
  {
    if IsUpper(c) then (c as int + 32) as char else c
  }

  /** `str.lower()` on the ASCII letters; other characters are kept. */
  function Lower(s: string): (r: string)
    ensures |r| == |s|
    ensures forall i :: 0 <= i < |s| ==> r[i] == LowerChar(s[i])
  {
    seq(|s|, i requires 0 <= i < |s| => LowerChar(s[i]))
  }

  lemma {:induction false} LowerAppend(a: string, b: string)
    ensures Lower(a + b) == Lower(a) + Lower(b)
  {
  }

  /** The length of the longest prefix of `s` whose characters satisfy `p`. */
  function Span(s: string, p: char -> bool): (n: nat)
    ensures n <= |s|
    ensures forall i :: 0 <= i < n ==> p(s[i])
    ensures n < |s| ==> !p(s[n])
  {
    SpanFrom(s, p, 0)
  }

  /** The end of the run of characters satisfying `p` that starts at index `i`. */
  function SpanFrom(s: string, p: char -> bool, i: nat): (n: nat)
    requires i <= |s|
    ensures i <= n <= |s|
    ensures forall k :: i <= k < n ==> p(s[k])
    ensures n < |s| ==> !p(s[n])
    decreases |s| - i
  {
    if i == |s| || !p(s[i]) then i else SpanFrom(s, p, i + 1)
  }

  /** The length of the longest suffix of `s` whose characters satisfy `p`. */
  function BackSpan(s: string, p: char -> bool): (n: nat)
    ensures n <= |s|
    ensures forall i :: |s| - n <= i < |s| ==> p(s[i])
    ensures n < |s| ==> !p(s[|s| - n - 1])
  {
    |s| - BackSpanTo(s, p, |s|)
  }

  /** The start of the run of characters satisfying `p` that ends just before index `j`. */
  function BackSpanTo(s: string, p: char -> bool, j: nat): (n: nat)
    requires j <= |s|
    ensures n <= j
    ensures forall k :: n <= k < j ==> p(s[k])
    ensures n > 0 ==> !p(s[n - 1])
  {
    if j == 0 || !p(s[j - 1]) then j else BackSpanTo(s, p, j - 1)
  }

  /** `s.strip(chars)`, for the character class `p`. */
  function TrimBy(s: string, p: char -> bool): (r: string)
    ensures Span(s, p) + |r| <= |s|
    ensures r == s[Span(s, p)..Span(s, p) + |r|]
    ensures r == [] <==> All(s, p)
    ensures r != [] ==> !p(r[0]) && !p(r[|r| - 1])
    ensures forall i :: 0 <= i < Span(s, p) ==> p(s[i])
    ensures forall i :: Span(s, p) + |r| <= i < |s| ==> p(s[i])
  {
    var a := Span(s, p);
    if a == |s| then []
    else
      var b := BackSpanTo(s, p, |s|);
      assert !p(s[a]) && a < b;
      s[a..b]
  }

  /** `s.lstrip()`. */
  function TrimStart(s: string): (r: string)
    ensures r == s[Span(s, IsSpace)..]
  {
    s[Span(s, IsSpace)..]
  }

  /** `s.strip()`. */
  function Strip(s: string): (r: string)
    ensures r == [] <==> IsBlank(s)
    ensures r != [] ==> !IsSpace(r[0]) && !IsSpace(r[|r| - 1])
    ensures |r| <= |s|
    ensures PaddedAt(s, r, Span(s, IsSpace))
  {
    var r := TrimBy(s, IsSpace);
    var a := Span(s, IsSpace);
    var b := a + |r|;
    assert forall i :: 0 <= i < a ==> s[..a][i] == s[i];
    assert forall i :: b <= i < |s| ==> s[b..][i - b] == s[i];
    r
  }

  /** `s` is `r` with whitespace before it (the first `a` characters of `s`) and after it. */
  predicate PaddedAt(s: string, r: string, a: nat)
  {
    && a + |r| <= |s|
    && r == s[a..a + |r|]
    && All(s[..a], IsSpace)
    && All(s[a + |r|..], IsSpace)
  }

  /** No whitespace at either end: what `strip()` leaves. */
  predicate Trimmed(s: string)
  {
    s == [] || (!IsSpace(s[0]) && !IsSpace(s[|s| - 1]))
  }

  lemma {:induction false} StripOfStripped(s: string)
    requires s == [] || (!IsSpace(s[0]) && !IsSpace(s[|s| - 1]))
    ensures Strip(s) == s
  {
  }

  /** Stripping keeps a string free of neighbouring characters of a class. */
  lemma {:induction false} TrimKeepsNoAdjacent(s: string, p: char -> bool, q: char -> bool)
    requires NoAdjacent(s, q)
    ensures NoAdjacent(TrimBy(s, p), q)
  {
    var r := TrimBy(s, p);
    var a := Span(s, p);
    forall i | 0 <= i < |r| - 1
      ensures !(q(r[i]) && q(r[i + 1]))
    {
      assert r[i] == s[a + i] && r[i + 1] == s[a + i + 1];
    }
  }

  /** `sep.join(parts)`. */
  function Join(parts: seq<string>, sep: string): string
  {
    if parts == [] then []
    else if |parts| == 1 then parts[0]
    else parts[0] + sep + Join(parts[1..], sep)
  }

  /** The index of the first `c` in `s`, or `|s|` when there is none. */
  function SepIndex(s: string, c: char): (n: nat)
    ensures n <= |s|
    ensures forall i :: 0 <= i < n ==> s[i] != c
    ensures n < |s| ==> s[n] == c
  {
    SepIndexFrom(s, c, 0)
  }

  /** The index of the first `c` in `s` at or after `i`, or `|s|` when there is none. */
  function SepIndexFrom(s: string, c: char, i: nat): (n: nat)
    requires i <= |s|
    ensures i <= n <= |s|
    ensures forall k :: i <= k < n ==> s[k] != c
    ensures n < |s| ==> s[n] == c
    decreases |s| - i
  {
    if i == |s| || s[i] == c then i else SepIndexFrom(s, c, i + 1)
  }

  /** `SepIndex` is the one index before which no `c` occurs and at which `c` stands, if it is inside the string. */
  lemma {:induction false} SepIndexIs(s: string, c: char, n: nat)
    requires n <= |s|
    requires forall i :: 0 <= i < n ==> s[i] != c
    requires n < |s| ==> s[n] == c
    ensures SepIndex(s, c) == n
  {
  }

  /** `s.split(c)` for a one-character separator: the pieces between separators, never empty as a list. */
  function Split(s: string, c: char): (r: seq<string>)
    ensures |r| >= 1
    ensures forall k :: 0 <= k < |r| ==> c !in r[k]
    ensures |r[0]| <= |s| && |r[|r| - 1]| <= |s|
    decreases |s|
  {
    var n := SepIndex(s, c);
    assert c !in s[..n] by {
      assert forall i :: 0 <= i < n ==> s[..n][i] == s[i];
    }
    if n == |s| then [s] else [s[..n]] + Split(s[n + 1..], c)
  }

  /** One unfolding of `Join` in front of two or more parts. */
  lemma {:induction false} JoinCons(x: string, rest: seq<string>, sep: string)
    requires |rest| >= 1
    ensures Join([x] + rest, sep) == x + sep + Join(rest, sep)
  {
    assert ([x] + rest)[1..] == rest;
  }

  /** One unfolding of `Split` at its first separator. */
  lemma {:induction false} SplitUnfold(s: string, c: char)
    requires SepIndex(s, c) < |s|
    ensures Split(s, c) == [s[..SepIndex(s, c)]] + Split(s[SepIndex(s, c) + 1..], c)
  {
  }

  /** A string is its part before an index, the character there, and its part after. */
  lemma {:induction false} CutAround(s: string, n: nat)
    requires n < |s|
    ensures s[..n] + [s[n]] + s[n + 1..] == s
  {
  }

  /** The pieces of a split, joined by the separator, give back the string. */
  lemma {:induction false} SplitJoinsBack(s: string, c: char)
    ensures Join(Split(s, c), [c]) == s
    decreases |s|
  {
    var n := SepIndex(s, c);
    if n < |s| {
      SplitJoinsBack(s[n + 1..], c);
      SplitUnfold(s, c);
      JoinCons(s[..n], Split(s[n + 1..], c), [c]);
      CutAround(s, n);
    }
  }

  /** `s.split()`: the maximal runs of non-whitespace characters, in order. */
  function Words(s: string): (r: seq<string>)
    ensures forall k :: 0 <= k < |r| ==> r[k] != [] && !exists i :: 0 <= i < |r[k]| && IsSpace(r[k][i])
    decreases |s|
  {
    var t := TrimStart(s);
    if t == [] then []
    else
      var n := Span(t, c => !IsSpace(c));
      [t[..n]] + Words(t[n..])
  }

  predicate NotLineBreak(c: char) { !IsLineBreak(c) }

  /** A string with no line terminator in it. */
  predicate SingleLine(s: string)
  {
    All(s, NotLineBreak)
  }

  /** `s.splitlines()`: lines without their terminators; `"\r\n"` ends one line; no empty last line. */
  function SplitLines(s: string): (r: seq<string>)
    ensures forall k :: 0 <= k < |r| ==> !exists i :: 0 <= i < |r[k]| && IsLineBreak(r[k][i])
    decreases |s|
  {
    if s == [] then []
    else
      var n := Span(s, NotLineBreak);
      if n == |s| then [s]
      else
        var next := if s[n] == '\r' && n + 1 < |s| && s[n + 1] == '\n' then n + 2 else n + 1;
        [s[..n]] + SplitLines(s[next..])
  }

  /** A line splits into itself alone; the empty string into no lines. */
  lemma {:induction false} SplitLinesSingle(s: string)
    requires SingleLine(s)
    ensures SplitLines(s) == (if s == [] then [] else [s])
  {
    if s != [] {
      SpanIs(s, NotLineBreak, |s|);
    }
  }

  /** Non-empty lines joined with `"\n"` split back into the same lines. */
  lemma {:induction false} SplitLinesJoin(ls: seq<string>)
    requires forall k :: 0 <= k < |ls| ==> ls[k] != [] && SingleLine(ls[k])
    ensures SplitLines(Join(ls, "\n")) == ls
    decreases |ls|
  {
    if |ls| == 1 {
      SplitLinesSingle(ls[0]);
    } else if |ls| > 1 {
      var s := Join(ls, "\n");
      var rest := Join(ls[1..], "\n");
      var n := |ls[0]|;
      assert s == ls[0] + "\n" + rest;
      assert forall i :: 0 <= i < n ==> s[i] == ls[0][i];
      assert s[n] == '\n';
      SpanIs(s, NotLineBreak, n);
      assert s[n + 1..] == rest;
      assert s[..n] == ls[0];
      SplitLinesJoin(ls[1..]);
    }
  }

  /** `Span` is the one length whose prefix satisfies `p` and that no further such character follows. */
  lemma {:induction false} SpanIs(s: string, p: char -> bool, n: nat)
    requires n <= |s|
    requires forall i :: 0 <= i < n ==> p(s[i])
    requires n < |s| ==> !p(s[n])
    ensures Span(s, p) == n
  {
  }

  /** `BackSpan` is the one length whose suffix satisfies `p` and that no further such character precedes. */
  lemma {:induction false} BackSpanIs(s: string, p: char -> bool, n: nat)
    requires n <= |s|
    requires forall i :: |s| - n <= i < |s| ==> p(s[i])
    requires n < |s| ==> !p(s[|s| - n - 1])
    ensures BackSpan(s, p) == n
  {
  }

  /** Whitespace around a trimmed, non-empty string is exactly what stripping removes. */
  lemma {:induction false} StripPadded(pre: string, x: string, post: string)
    requires IsBlank(pre) && IsBlank(post) && x != [] && Trimmed(x)
    ensures Strip(pre + x + post) == x
  {
    var s := pre + x + post;
    assert s[|pre|] == x[0];
    SpanIs(s, IsSpace, |pre|);
    var t := s[|pre|..];
    assert t == x + post;
    assert t[|t| - |post| - 1] == x[|x| - 1];
    BackSpanIs(t, IsSpace, |post|);
    assert t[..|t| - |post|] == x;
  }

  /** Stripping only removes characters. */
  lemma {:induction false} StripKeepsOut(s: string, c: char)
    requires c !in s
    ensures c !in Strip(s)
  {
    var a := Span(s, IsSpace);
    var r := Strip(s);
    assert r == s[a..a + |r|];
  }

  /** A string without the separator is a single piece. */
  lemma {:induction false} SplitNone(s: string, c: char)
    requires c !in s
    ensures Split(s, c) == [s]
  {
    SepIndexIs(s, c, |s|);
  }

  /** The text before the first separator is the first piece; the rest splits on its own. */
  lemma {:induction false} SplitAfter(a: string, c: char, b: string)
    requires c !in a
    ensures Split(a + [c] + b, c) == [a] + Split(b, c)
  {
    var s := a + [c] + b;
    assert forall i :: 0 <= i < |a| ==> s[i] == a[i];
    SepIndexIs(s, c, |a|);
    assert s[..|a|] == a && s[|a| + 1..] == b;
  }

  /** The first and the last part are the two ends of the joined string. */
  lemma {:induction false} JoinEnds(parts: seq<string>, sep: string)
    requires |parts| >= 1
    ensures |parts[0]| <= |Join(parts, sep)| && Join(parts, sep)[..|parts[0]|] == parts[0]
    ensures var j, last := Join(parts, sep), parts[|parts| - 1];
      |last| <= |j| && j[|j| - |last|..] == last
    decreases |parts|
  {
    if |parts| > 1 {
      JoinEnds(parts[1..], sep);
      var rest := Join(parts[1..], sep);
      assert Join(parts, sep) == parts[0] + sep + rest;
      assert parts[|parts| - 1] == parts[1..][|parts| - 2];
    }
  }

  /** Pieces without the separator, joined by it, split back into the same pieces. */
  lemma {:induction false} SplitJoin(parts: seq<string>, c: char)
    requires |parts| >= 1 && forall k :: 0 <= k < |parts| ==> c !in parts[k]
    ensures Split(Join(parts, [c]), c) == parts
    decreases |parts|
  {
    if |parts| == 1 {
      SplitNone(parts[0], c);
    } else {
      SplitAfter(parts[0], c, Join(parts[1..], [c]));
      SplitJoin(parts[1..], c);
      assert parts == [parts[0]] + parts[1..];
    }
  }

  /** Around a separator outside the class, neighbouring pairs lie on one side of it. */
  lemma {:induction false} NoAdjacentAround(a: string, c: char, b: string, p: char -> bool)
    requires !p(c)
    ensures NoAdjacent(a + [c] + b, p) <==> NoAdjacent(a, p) && NoAdjacent(b, p)
  {
    var s := a + [c] + b;
    assert forall i :: 0 <= i < |a| ==> s[i] == a[i];
    assert forall i :: 0 <= i < |b| ==> s[|a| + 1 + i] == b[i];
    if NoAdjacent(s, p) {
      forall i | 0 <= i < |b| - 1
        ensures !(p(b[i]) && p(b[i + 1]))
      {
        assert s[|a| + 1 + i] == b[i] && s[|a| + 1 + i + 1] == b[i + 1];
      }
    }
  }

  /** Joined by a character outside the class, the parts have no neighbouring pair of it exactly when the whole has none. */
  lemma {:induction false} NoAdjacentJoin(parts: seq<string>, c: char, p: char -> bool)
    requires !p(c)
    ensures NoAdjacent(Join(parts, [c]), p) <==> forall k :: 0 <= k < |parts| ==> NoAdjacent(parts[k], p)
    decreases |parts|
  {
    if |parts| > 1 {
      NoAdjacentJoin(parts[1..], c, p);
      NoAdjacentAround(parts[0], c, Join(parts[1..], [c]), p);
      assert forall k :: 1 <= k < |parts| ==> parts[k] == parts[1..][k - 1];
    }
  }

  /** The first piece is where the string starts. */
  lemma {:induction false} SplitFirstPiece(s: string, c: char)
    ensures s[..|Split(s, c)[0]|] == Split(s, c)[0]
  {
    if SepIndex(s, c) < |s| {
      SplitUnfold(s, c);
    }
  }

  /** The last piece is where the string ends. */
  lemma {:induction false} SplitLastPiece(s: string, c: char)
    ensures var ps := Split(s, c); s[|s| - |ps[|ps| - 1]|..] == ps[|ps| - 1]
  {
    var ps := Split(s, c);
    if |ps| == 1 {
      SplitSingle(s, c);
    } else {
      var j := SplitInit(s, c);
      SuffixOfAppend(j + [c], ps[|ps| - 1]);
    }
  }

  /** The back of a concatenation, as long as its second part, is that part. */
  lemma {:induction false} SuffixOfAppend<T>(a: seq<T>, b: seq<T>)
    ensures (a + b)[|a + b| - |b|..] == b
  {
  }

  /** Cutting the front of the first piece off the string cuts it off that piece only. */
  lemma {:induction false} SplitDropFront(s: string, c: char, a: nat)
    requires a <= |Split(s, c)[0]|
    ensures Split(s[a..], c) == [Split(s, c)[0][a..]] + Split(s, c)[1..]
  {
    var n := SepIndex(s, c);
    var t := s[a..];
    assert a <= n;
    SepIndexDrop(s, c, a);
    if n < |s| {
      SplitUnfold(s, c);
      SplitUnfold(t, c);
      SliceDrop(s, a, n);
    }
  }

  /** Dropping a front part that holds no separator moves the first separator back by as much. */
  lemma {:induction false} SepIndexDrop(s: string, c: char, a: nat)
    requires a <= SepIndex(s, c)
    ensures SepIndex(s[a..], c) == SepIndex(s, c) - a
  {
    var n := SepIndex(s, c);
    var t := s[a..];
    assert forall i :: 0 <= i < n - a ==> t[i] == s[a + i];
    SepIndexIs(t, c, n - a);
  }

  /** The parts of `s[a..]` around index `n - a` are those of `s` around `n`. */
  lemma {:induction false} SliceDrop(s: string, a: nat, n: nat)
    requires a <= n < |s|
    ensures s[a..][..n - a] == s[..n][a..] && s[a..][n - a + 1..] == s[n + 1..]
  {
  }

  /** A string without the separator keeps it out of every prefix. */
  lemma {:induction false} NotInPrefix(s: string, c: char, k: nat)
    requires c !in s && k <= |s|
    ensures c !in s[..k]
  {
    assert forall i :: 0 <= i < k ==> s[..k][i] == s[i];
  }

  /** Cutting the back off a string that ends with `t` cuts it off `t`. */
  lemma {:induction false} DropBackRegroup(a: string, c: char, t: string, b: nat)
    requires b <= |t|
    ensures (a + [c] + t)[..|a + [c] + t| - b] == a + [c] + t[..|t| - b]
  {
  }

  /** One unfolding of `Join` behind two or more parts. */
  lemma {:induction false} JoinSnoc(p: seq<string>, x: string, sep: string)
    requires |p| >= 1
    ensures Join(p + [x], sep) == Join(p, sep) + sep + x
    decreases |p|
  {
    if |p| > 1 {
      JoinSnoc(p[1..], x, sep);
      assert (p + [x])[1..] == p[1..] + [x];
      JoinCons(p[0], p[1..] + [x], sep);
      JoinCons(p[0], p[1..], sep);
      assert [p[0]] + (p[1..] + [x]) == p + [x];
      assert [p[0]] + p[1..] == p;
    } else {
      assert p + [x] == [p[0]] + [x];
      JoinCons(p[0], [x], sep);
    }
  }

  /** Concatenating one more string at the back. */
  lemma {:induction false} JoinSnocEmpty(p: seq<string>, x: string)
    ensures Join(p + [x], "") == Join(p, "") + x
  {
    if p == [] {
      assert p + [x] == [x];
    } else {
      JoinSnoc(p, x, "");
    }
  }

  /** A sequence of one or more elements is its front and its last element. */
  lemma {:induction false} SnocLast<T>(p: seq<T>)
    requires |p| >= 1
    ensures p == p[..|p| - 1] + [p[|p| - 1]]
    ensures forall k :: 0 <= k < |p| - 1 ==> p[..|p| - 1][k] == p[k]
  {
  }

  /** With two or more pieces, the string is a front that splits into all but the last piece, a separator, and the last piece. */
  lemma {:induction false} SplitInit(s: string, c: char) returns (j: string)
    requires |Split(s, c)| >= 2
    ensures var ps := Split(s, c);
      s == j + [c] + ps[|ps| - 1] && Split(j, c) == ps[..|ps| - 1]
  {
    var ps := Split(s, c);
    var init, last := ps[..|ps| - 1], ps[|ps| - 1];
    j := Join(init, [c]);
    SplitJoinsBack(s, c);
    SnocLast(ps);
    JoinSnoc(init, last, [c]);
    SplitJoin(init, c);
  }

  /** A separator-free last piece, cut short, follows the pieces of the front. */
  lemma {:induction false} SplitCutLast(j: string, c: char, last: string, b: nat)
    requires c !in last && b <= |last|
    ensures Split(j + [c] + last[..|last| - b], c) == Split(j, c) + [last[..|last| - b]]
  {
    SplitAppend(j, c, last[..|last| - b]);
    NotInPrefix(last, c, |last| - b);
    SplitNone(last[..|last| - b], c);
  }

  /** Cutting the back of the last piece off the string cuts it off that piece only. */
  lemma {:induction false} SplitDropBack(s: string, c: char, b: nat)
    requires b <= |Split(s, c)[|Split(s, c)| - 1]|
    ensures var ps := Split(s, c); var last := ps[|ps| - 1];
      b <= |s| && Split(s[..|s| - b], c) == ps[..|ps| - 1] + [last[..|last| - b]]
  {
    var ps := Split(s, c);
    if |ps| == 1 {
      SplitSingle(s, c);
      NotInPrefix(s, c, |s| - b);
      SplitNone(s[..|s| - b], c);
    } else {
      SplitDropBackMany(s, c, b);
    }
  }

  /** `SplitDropBack` for a string with a separator: only the piece after the last one is cut. */
  lemma {:induction false} SplitDropBackMany(s: string, c: char, b: nat)
    requires |Split(s, c)| > 1 && b <= |Split(s, c)[|Split(s, c)| - 1]|
    ensures var ps := Split(s, c); var last := ps[|ps| - 1];
      b <= |s| && Split(s[..|s| - b], c) == ps[..|ps| - 1] + [last[..|last| - b]]
  {
    var ps := Split(s, c);
    var last := ps[|ps| - 1];
    var j := SplitInit(s, c);
    var cut := last[..|last| - b];
    DropBackRegroup(j, c, last, b);
    assert s[..|s| - b] == j + [c] + cut;
    SplitCutLast(j, c, last, b);
  }

  /** A single piece is the whole string, which has no separator. */
  lemma {:induction false} SplitSingle(s: string, c: char)
    requires |Split(s, c)| == 1
    ensures Split(s, c) == [s] && c !in s
  {
    if SepIndex(s, c) < |s| {
      SplitUnfold(s, c);
    }
  }

  /** Separating `a + [c] + t` from `b` by another `c` is separating `a` from `t + [c] + b`. */
  lemma {:induction false} AppendRegroup(a: string, c: char, t: string, b: string)
    ensures a + [c] + t + [c] + b == a + [c] + (t + [c] + b)
  {
  }

  /** Splitting at a separator splits the two sides on their own. */
  lemma {:induction false} SplitAppend(a: string, c: char, b: string)
    ensures Split(a + [c] + b, c) == Split(a, c) + Split(b, c)
    decreases |a|
  {
    var n := SepIndex(a, c);
    if n == |a| {
      SplitAfter(a, c, b);
    } else {
      var a0, t := a[..n], a[n + 1..];
      SplitUnfold(a, c);
      SplitAppend(t, c, b);
      CutAround(a, n);
      AppendRegroup(a0, c, t, b);
      SplitAfter(a0, c, t + [c] + b);
      ConsAssoc(a0, Split(t, c), Split(b, c));
    }
  }

  /** Putting an element in front of a concatenation is putting it in front of the first part. */
  lemma {:induction false} ConsAssoc<T>(x: T, p: seq<T>, q: seq<T>)
    ensures [x] + (p + q) == ([x] + p) + q
  {
  }

  /** Two elements in front of `b` shift its indices by two. */
  lemma {:induction false} AfterTwo<T>(x: T, y: T, b: seq<T>)
    ensures |[x, y] + b| == |b| + 2 && ([x, y] + b)[1] == y
    ensures forall k :: 0 <= k < |b| ==> ([x, y] + b)[k + 2] == b[k]
  {
  }

  /** A sequence of length three is the display of its elements. */
  lemma {:induction false} SeqOfThree<T>(s: seq<T>, a: T, b: T, c: T)
    requires |s| == 3 && s[0] == a && s[1] == b && s[2] == c
    ensures s == [a, b, c]
  {
  }

  /** Putting an element in front commutes with replacing the last element. */
  lemma {:induction false} ConsDropLast<T>(x: T, p: seq<T>, y: T)
    requires |p| >= 1
    ensures ([x] + p)[|p|] == p[|p| - 1]
    ensures [x] + (p[..|p| - 1] + [y]) == ([x] + p)[..|p|] + [y]
  {
  }

  /** The strings of `xs` that are not blank, unchanged and in order. */
  function DropBlank(xs: seq<string>): (r: seq<string>)
    ensures |r| <= |xs|
    ensures forall k :: 0 <= k < |r| ==> !IsBlank(r[k])
  {
    if xs == [] then []
    else if IsBlank(xs[0]) then DropBlank(xs[1..])
    else [xs[0]] + DropBlank(xs[1..])
  }

  /** Keeping the non-blank strings from the back: the last string is kept unless it is blank. */
  lemma {:induction false} DropBlankSnoc(xs: seq<string>, x: string)
    ensures DropBlank(xs + [x]) == DropBlank(xs) + (if IsBlank(x) then [] else [x])
    decreases |xs|
  {
    if xs == [] {
      assert [x][1..] == [];
    } else {
      assert (xs + [x])[1..] == xs[1..] + [x];
      DropBlankSnoc(xs[1..], x);
    }
  }

  /** Every non-blank string is kept. */
  lemma {:induction false} DropBlankKeeps(xs: seq<string>, k: nat)
    requires k < |xs| && !IsBlank(xs[k])
    ensures xs[k] in DropBlank(xs)
    decreases |xs|
  {
    if k > 0 {
      assert xs[1..][k - 1] == xs[k];
      DropBlankKeeps(xs[1..], k - 1);
    }
  }

  /** Every kept string is one of the given strings. */
  lemma {:induction false} DropBlankFrom(xs: seq<string>, k: nat)
    requires k < |DropBlank(xs)|
    ensures DropBlank(xs)[k] in xs
    decreases |xs|
  {
    if !IsBlank(xs[0]) && k == 0 {
    } else {
      var j := if IsBlank(xs[0]) then k else k - 1;
      DropBlankFrom(xs[1..], j);
    }
  }

  /** With no blank string, every string is kept. */
  lemma {:induction false} DropBlankAll(xs: seq<string>)
    requires forall k :: 0 <= k < |xs| ==> !IsBlank(xs[k])
    ensures DropBlank(xs) == xs
    decreases |xs|
  {
    if xs != [] {
      DropBlankAll(xs[1..]);
    }
  }

  /** `sub` occurs in `s` starting at index `i`. */
  predicate OccursAt(s: string, sub: string, i: nat)
  {
    i + |sub| <= |s| && s[i..i + |sub|] == sub
  }

  /** `sub in s`. */
  predicate Contains(s: string, sub: string)
  {
    exists i: nat :: i <= |s| && OccursAt(s, sub, i)
  }

  lemma {:induction false} ContainsExtend(s: string, t: string, sub: string)
    requires Contains(s, sub)
    ensures Contains(s + t, sub)
  {
    var i: nat :| i <= |s| && OccursAt(s, sub, i);
    assert (s + t)[i..i + |sub|] == s[i..i + |sub|];
    assert OccursAt(s + t, sub, i);
  }

  predicate StartsWith(s: string, prefix: string)
  {
    |prefix| <= |s| && s[..|prefix|] == prefix
  }

  predicate EndsWith(s: string, suffix: string)
  {
    |suffix| <= |s| && s[|s| - |suffix|..] == suffix
  }

  /** `s.replace(pat, rep)`: left-to-right, non-overlapping occurrences. */
  function Replace(s: string, pat: string, rep: string): (r: string)
    requires pat != []
    ensures forall i :: 0 <= i < |r| ==> r[i] in s || r[i] in rep
    ensures |pat| == 1 && pat[0] !in rep ==> pat[0] !in r
    decreases |s|
  {
    if |s| < |pat| then s
    else if s[..|pat|] == pat then rep + Replace(s[|pat|..], pat, rep)
    else [s[0]] + Replace(s[1..], pat, rep)
  }

  /** A pattern whose first character never occurs is never replaced. */
  lemma {:induction false} ReplaceAbsent(s: string, pat: string, rep: string)
    requires pat != [] && pat[0] !in s
    ensures Replace(s, pat, rep) == s
    decreases |s|
  {
    if |s| >= |pat| {
      assert s[..|pat|][0] == s[0];
      assert s[1..] == s[1..] && forall c :: c in s[1..] ==> c in s;
      ReplaceAbsent(s[1..], pat, rep);
      assert s == [s[0]] + s[1..];
    }
  }

  /** `re.sub(run, ' ', s)` where `run` is a maximal run of characters of class `p` (`p` holds of the space). */
  function CollapseRuns(s: string, p: char -> bool): (r: string)
    requires p(' ')
    ensures NoAdjacent(r, p)
    ensures forall i :: 0 <= i < |r| ==> p(r[i]) ==> r[i] == ' '
    ensures r == [] <==> s == []
    ensures r != [] ==> (p(r[0]) <==> p(s[0])) && (p(r[|r| - 1]) <==> p(s[|s| - 1]))
    ensures forall c :: c in r ==> c == ' ' || (c in s && !p(c))
    decreases |s|
  {
    if s == [] then []
    else if p(s[0]) then
      var n := Span(s, p);
      var rest := CollapseRuns(s[n..], p);
      CollapseCons(' ', s, n, rest, p);
      [' '] + rest
    else
      var rest := CollapseRuns(s[1..], p);
      CollapseCons(s[0], s, 1, rest, p);
      [s[0]] + rest
  }

  /** The properties `CollapseRuns` promises of its result `r` for the input `s`. */
  predicate Collapsed(r: string, s: string, p: char -> bool)
  {
    && NoAdjacent(r, p)
    && (forall i :: 0 <= i < |r| ==> p(r[i]) ==> r[i] == ' ')
    && (r == [] <==> s == [])
    && (r != [] ==> (p(r[0]) <==> p(s[0])) && (p(r[|r| - 1]) <==> p(s[|s| - 1])))
    && (forall c :: c in r ==> c == ' ' || (c in s && !p(c)))
  }

  /** One step of `CollapseRuns`: a run collapsed to a space, or a kept character, before the rest. */
  lemma {:induction false} CollapseCons(c: char, s: string, n: nat, rest: string, p: char -> bool)
    requires p(' ') && 0 < n <= |s|
    requires (p(s[0]) && c == ' ' && (n < |s| ==> !p(s[n])) && forall i :: 0 <= i < n ==> p(s[i]))
          || (!p(s[0]) && c == s[0] && n == 1)
    requires NoAdjacent(rest, p)
    requires forall i :: 0 <= i < |rest| ==> p(rest[i]) ==> rest[i] == ' '
    requires rest == [] <==> s[n..] == []
    requires rest != [] ==> (p(rest[0]) <==> p(s[n..][0])) && (p(rest[|rest| - 1]) <==> p(s[n..][|s[n..]| - 1]))
    requires forall x :: x in rest ==> x == ' ' || (x in s[n..] && !p(x))
    ensures Collapsed([c] + rest, s, p)
  {
    var r := [c] + rest;
    assert forall i :: 0 < i < |r| ==> r[i] == rest[i - 1];
    assert forall x :: x in s[n..] ==> x in s;
    if rest != [] {
      assert s[n..][0] == s[n];
      assert s[n..][|s[n..]| - 1] == s[|s| - 1];
    }
  }

  /** `re.sub(r'\s+', '', s)`: every whitespace character removed. */
  function RemoveSpaces(s: string): (r: string)
    ensures forall i :: 0 <= i < |r| ==> r[i] in s && !IsSpace(r[i])
    ensures forall i :: 0 <= i < |s| && !IsSpace(s[i]) ==> s[i] in r
  {
    if s == [] then []
    else if IsSpace(s[0]) then RemoveSpaces(s[1..])
    else [s[0]] + RemoveSpaces(s[1..])
  }

  /** `c * n`. */
  function Repeat(c: char, n: nat): (r: string)
    ensures |r| == n && forall i :: 0 <= i < n ==> r[i] == c
  {
    seq(n, _ => c)
  }

  /** `f"{s:<width}"`: left-aligned, padded with spaces, never cut. */
  function PadRight(s: string, width: nat): (r: string)
    ensures |s| <= width ==> |r| == width
    ensures |s| > width ==> r == s
    ensures r[..|s|] == s
  {
    if |s| < width then s + Repeat(' ', width - |s|) else s
  }

  function DigitChar(d: nat): (c: char)
    requires d < 10
    ensures IsDigit(c)
  {
    ('0' as int + d) as char
  }

  /** `str(n)` for a non-negative integer. */
  function NatToString(n: nat): (r: string)
    ensures r != [] && All(r, IsDigit)
  {
    if n < 10 then [DigitChar(n)] else NatToString(n / 10) + [DigitChar(n % 10)]
  }

  /** `str(n)` for an integer. */
  function IntToString(n: int): string
  {
    if n < 0 then "-" + NatToString(-n) else NatToString(n)
  }

  /** Python's `a < b` on strings: code-point lexicographic order. */
  predicate StrLess(a: string, b: string)
  {
    if a == [] then b != []
    else if b == [] then false
    else if a[0] != b[0] then a[0] < b[0]
    else StrLess(a[1..], b[1..])
  }

  lemma {:induction false} StrLessIrreflexive(a: string)
    ensures !StrLess(a, a)
  {
    if a != [] {
      StrLessIrreflexive(a[1..]);
    }
  }

  lemma {:induction false} StrLessTransitive(a: string, b: string, c: string)
    requires StrLess(a, b) && StrLess(b, c)
    ensures StrLess(a, c)
  {
    if a != [] && b != [] && c != [] && a[0] == b[0] && b[0] == c[0] {
      StrLessTransitive(a[1..], b[1..], c[1..]);
    }
  }

  lemma {:induction false} StrLessTotal(a: string, b: string)
    ensures a == b || StrLess(a, b) || StrLess(b, a)
  {
    if a != [] && b != [] && a[0] == b[0] {
      StrLessTotal(a[1..], b[1..]);
      if a[1..] == b[1..] {
        assert a == [a[0]] + a[1..] && b == [b[0]] + b[1..];
      }
    }
  }

  /** The stripped forms of the non-blank strings of `xs`, in order. */
  function StrippedNonBlank(xs: seq<string>): (r: seq<string>)
    ensures forall k :: 0 <= k < |r| ==> r[k] != [] && Trimmed(r[k])
    ensures |r| <= |xs|
    ensures r == [] <==> forall k :: 0 <= k < |xs| ==> IsBlank(xs[k])
  {
    if xs == [] then []
    else
      var n := |xs| - 1;
      var front := StrippedNonBlank(xs[..n]);
      assert forall k :: 0 <= k < n ==> xs[..n][k] == xs[k];
      front + (if IsBlank(xs[n]) then [] else [Strip(xs[n])])
  }


  /** The stripped non-blank strings are the strings `DropBlank` keeps, each stripped, in order. */
  lemma {:induction false} StrippedNonBlankOfKept(xs: seq<string>)
    ensures |StrippedNonBlank(xs)| == |DropBlank(xs)|
    ensures forall k :: 0 <= k < |DropBlank(xs)| ==> StrippedNonBlank(xs)[k] == Strip(DropBlank(xs)[k])
    decreases |xs|
  {
    if xs != [] {
      var n := |xs| - 1;
      StrippedNonBlankOfKept(xs[..n]);
      DropBlankSnoc(xs[..n], xs[n]);
      assert xs[..n] + [xs[n]] == xs;
    }
  }

  /** Every non-blank string is kept, stripped. */
  lemma {:induction false} StrippedNonBlankComplete(xs: seq<string>, k: nat)
    requires k < |xs| && !IsBlank(xs[k])
    ensures Strip(xs[k]) in StrippedNonBlank(xs)
    decreases |xs|
  {
    var n := |xs| - 1;
    var front := StrippedNonBlank(xs[..n]);
    var r := StrippedNonBlank(xs);
    if k < n {
      assert xs[..n][k] == xs[k];
      StrippedNonBlankComplete(xs[..n], k);
      var j :| 0 <= j < |front| && front[j] == Strip(xs[k]);
      assert r[j] == front[j];
    } else {
      assert r[|front|] == Strip(xs[k]);
    }
  }

  /** Keeping the stripped non-blank strings keeps exactly those: doing it again changes nothing. */
  lemma {:induction false} StrippedNonBlankIdempotent(xs: seq<string>)
    ensures StrippedNonBlank(StrippedNonBlank(xs)) == StrippedNonBlank(xs)
  {
    StrippedNonBlankOfStripped(StrippedNonBlank(xs));
  }

  lemma {:induction false} StrippedNonBlankOfStripped(xs: seq<string>)
    requires forall k :: 0 <= k < |xs| ==> xs[k] != [] && Trimmed(xs[k])
    ensures StrippedNonBlank(xs) == xs
    decreases |xs|
  {
    if xs != [] {
      var n := |xs| - 1;
      StripOfStripped(xs[n]);
      StrippedNonBlankOfStripped(xs[..n]);
      assert xs == xs[..n] + [xs[n]];
    }
  }

  // ---------------------------------------------------------------------------------------------
  // Whitespace squeezing: `re.sub(r'\s+', ' ', s).strip()`
  // ---------------------------------------------------------------------------------------------

  /** Whitespace only as single plain spaces. */
  predicate SingleSpaced(s: string)
  {
    NoAdjacent(s, IsSpace) && forall i :: 0 <= i < |s| ==> IsSpace(s[i]) ==> s[i] == ' '
  }

  lemma {:induction false} TrimKeepsSingleSpaced(s: string, p: char -> bool)
    requires SingleSpaced(s)
    ensures SingleSpaced(TrimBy(s, p))
  {
    TrimKeepsNoAdjacent(s, p, IsSpace);
    var r := TrimBy(s, p);
    var a := Span(s, p);
    forall i | 0 <= i < |r|
      ensures IsSpace(r[i]) ==> r[i] == ' '
    {
      assert r[i] == s[a + i];
    }
  }

  /** `re.sub(r'\s+', ' ', s).strip()`: single-spaced, with no space at either end. */
  function Squeeze(s: string): (r: string)
    ensures SingleSpaced(r) && Trimmed(r)
    ensures |r| <= |s|
    ensures r == [] <==> IsBlank(s)
  {
    var collapsed := CollapseRuns(s, IsSpace);
    CollapseLength(s);
    TrimKeepsSingleSpaced(collapsed, IsSpace);
    CollapseBlank(s);
    Strip(collapsed)
  }

  lemma {:induction false} CollapseLength(s: string)
    ensures |CollapseRuns(s, IsSpace)| <= |s|
    decreases |s|
  {
    if s != [] {
      if IsSpace(s[0]) {
        CollapseLength(s[Span(s, IsSpace)..]);
      } else {
        CollapseLength(s[1..]);
      }
    }
  }

  /** Collapsing whitespace runs keeps a blank string blank. */
  lemma {:induction false} CollapseKeepsBlank(s: string)
    requires IsBlank(s)
    ensures IsBlank(CollapseRuns(s, IsSpace))
  {
    var r := CollapseRuns(s, IsSpace);
    forall i | 0 <= i < |r|
      ensures IsSpace(r[i])
    {
      assert r[i] in r;
    }
  }

  /** Collapsing whitespace runs keeps a non-blank string non-blank. */
  lemma {:induction false} CollapseKeepsNonBlank(s: string, k: nat)
    requires k < |s| && !IsSpace(s[k])
    ensures !IsBlank(CollapseRuns(s, IsSpace))
    decreases |s|
  {
    if IsSpace(s[0]) {
      var n := Span(s, IsSpace);
      assert n <= k;
      var t := s[n..];
      assert t[k - n] == s[k];
      CollapseKeepsNonBlank(t, k - n);
      var rt := CollapseRuns(t, IsSpace);
      var j :| 0 <= j < |rt| && !IsSpace(rt[j]);
      assert CollapseRuns(s, IsSpace)[j + 1] == rt[j];
    }
  }

  lemma {:induction false} CollapseBlank(s: string)
    ensures IsBlank(CollapseRuns(s, IsSpace)) == IsBlank(s)
  {
    if IsBlank(s) {
      CollapseKeepsBlank(s);
    } else {
      var k :| 0 <= k < |s| && !IsSpace(s[k]);
      CollapseKeepsNonBlank(s, k);
    }
  }

  /** A single-spaced string without spaces at its ends is its own squeeze. */
  lemma {:induction false} SqueezeOfSqueezed(s: string)
    requires SingleSpaced(s) && Trimmed(s)
    ensures Squeeze(s) == s
  {
    CollapseClean(s);
    StripOfStripped(s);
  }

  /** Squeezing twice is squeezing once. */
  lemma {:induction false} SqueezeIdempotent(s: string)
    ensures Squeeze(Squeeze(s)) == Squeeze(s)
  {
    SqueezeOfSqueezed(Squeeze(s));
  }

  /** Trimming a string whose ends are outside the class changes nothing. */
  lemma {:induction false} TrimByUntouched(s: string, p: char -> bool)
    requires s != [] ==> !p(s[0]) && !p(s[|s| - 1])
    ensures TrimBy(s, p) == s
  {
    if s != [] {
      assert Span(s, p) == 0;
      assert BackSpan(s, p) == 0;
    }
  }

  lemma {:induction false} CollapseClean(s: string)
    requires SingleSpaced(s)
    ensures CollapseRuns(s, IsSpace) == s
    decreases |s|
  {
    if s != [] {
      SingleSpacedTail(s);
      CollapseClean(s[1..]);
      CollapseCleanStep(s);
    }
  }

  /** A single-spaced string whose tail collapses to itself collapses to itself. */
  lemma {:induction false} CollapseCleanStep(s: string)
    requires SingleSpaced(s) && s != [] && CollapseRuns(s[1..], IsSpace) == s[1..]
    ensures CollapseRuns(s, IsSpace) == s
  {
    if IsSpace(s[0]) {
      assert Span(s, IsSpace) == 1 by {
        if |s| > 1 {
          assert !IsSpace(s[1]);
        }
      }
      assert s == [' '] + s[1..];
    } else {
      assert s == [s[0]] + s[1..];
    }
  }

  /** Dropping the first character keeps a string single-spaced. */
  lemma {:induction false} SingleSpacedTail(s: string)
    requires SingleSpaced(s) && s != []
    ensures SingleSpaced(s[1..])
  {
    var t := s[1..];
    assert forall i :: 0 <= i < |t| ==> t[i] == s[i + 1];
  }
}
