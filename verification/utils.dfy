/**
 * The text utilities of the OCR tools: `clean_text`, `create_output_filename` with the
 * parts of POSIX path handling it relies on (`Path.name`, `Path.stem`, `os.path.join`), and
 * the table and text layouts of `format_results`.
 */
module Utils {
  import opened Wrappers
  import opened Text

  // ---------------------------------------------------------------------------------------------
  // `clean_text`
  // ---------------------------------------------------------------------------------------------

  /** The one character `re.sub(r' +', ' ', text)` works on: the space. */
  predicate IsPlainSpace(c: char) { c == ' ' }

  /** `re.sub(r' +', ' ', text)`: every run of spaces becomes one space. */
  function SqueezeSpaces(text: string): (r: string)
    ensures NoAdjacent(r, IsPlainSpace)
  {
    CollapseRuns(text, IsPlainSpace)
  }

  /** `'\n'.join(line for line in text.split('\n') if line.strip())`. */
  function KeepInkedLines(s: string): string
  {
    Join(DropBlank(Split(s, '\n')), "\n")
  }

  /** `clean_text`: squeeze space runs, drop blank lines, strip the ends, each step on its flag. */
  function CleanText(text: string, removeExtraSpaces: bool, removeEmptyLines: bool, stripWhitespace: bool): (r: string)
    ensures !removeExtraSpaces && !removeEmptyLines && !stripWhitespace ==> r == text
    ensures removeExtraSpaces ==> NoAdjacent(r, IsPlainSpace)
    ensures removeEmptyLines && r != [] ==> NoBlankLine(r)
    ensures stripWhitespace ==> Trimmed(r)
  {
    var spaced := if removeExtraSpaces then SqueezeSpaces(text) else text;
    var lined := if removeEmptyLines then KeepInkedLines(spaced) else spaced;
    var r := if stripWhitespace then Strip(lined) else lined;
    assert removeExtraSpaces ==> NoAdjacent(r, IsPlainSpace) by {
      if removeExtraSpaces {
        if removeEmptyLines {
          KeptLinesNoAdjacent(spaced);
        }
        TrimKeepsNoAdjacent(lined, IsSpace, IsPlainSpace);
      }
    }
    assert removeEmptyLines && r != [] ==> NoBlankLine(r) by {
      if removeEmptyLines && r != [] {
        KeptLinesInked(spaced);
        if stripWhitespace {
          StripKeepsInkedLines(lined);
        }
      }
    }
    r
  }

  /** Every `"\n"`-separated line has a character that is not whitespace. */
  predicate NoBlankLine(s: string)
  {
    forall k :: 0 <= k < |Split(s, '\n')| ==> !IsBlank(Split(s, '\n')[k])
  }

  /** Keeping the non-blank lines keeps a text free of double spaces. */
  lemma {:induction false} KeptLinesNoAdjacent(s: string)
    requires NoAdjacent(s, IsPlainSpace)
    ensures NoAdjacent(KeepInkedLines(s), IsPlainSpace)
  {
    var ps := Split(s, '\n');
    var kept := DropBlank(ps);
    SplitJoinsBack(s, '\n');
    NoAdjacentJoin(ps, '\n', IsPlainSpace);
    forall k | 0 <= k < |kept|
      ensures NoAdjacent(kept[k], IsPlainSpace)
    {
      DropBlankFrom(ps, k);
    }
    NoAdjacentJoin(kept, '\n', IsPlainSpace);
  }

  /** The lines of a text made of its non-blank lines are those lines. */
  lemma {:induction false} KeptLinesInked(s: string)
    ensures KeepInkedLines(s) != [] ==> NoBlankLine(KeepInkedLines(s))
  {
    var ps := Split(s, '\n');
    var kept := DropBlank(ps);
    if kept != [] {
      forall k | 0 <= k < |kept|
        ensures '\n' !in kept[k]
      {
        DropBlankFrom(ps, k);
      }
      SplitJoin(kept, '\n');
    }
  }

  /**
   * Stripping a text whose lines are all non-blank leaves lines that are all non-blank: what
   * goes is whitespace at the front of the first line and at the back of the last one.
   */
  lemma {:induction false} StripKeepsInkedLines(s: string)
    requires NoBlankLine(s)
    ensures NoBlankLine(Strip(s))
  {
    var t := s[Span(s, IsSpace)..];
    DropFrontKeepsInked(s);
    StripIsCutOfRest(s);
    CutSpacesKeepsInked(t, |t| - |Strip(s)|);
  }

  /** Stripping is dropping the leading whitespace, then cutting whitespace off the back of the rest. */
  lemma {:induction false} StripIsCutOfRest(s: string)
    ensures var t := s[Span(s, IsSpace)..]; var m := |t| - |Strip(s)|;
      && 0 <= m
      && (forall i :: |t| - m <= i < |t| ==> IsSpace(t[i]))
      && t[..|t| - m] == Strip(s)
  {
    var a := Span(s, IsSpace);
    var r := Strip(s);
    var t := s[a..];
    var m := |t| - |r|;
    forall i | |t| - m <= i < |t|
      ensures IsSpace(t[i])
    {
      assert t[i] == s[a + i];
    }
    assert t[..|t| - m] == r;
  }

  /** Leading whitespace lies inside the first line, which keeps a non-blank rest. */
  lemma {:induction false} DropFrontKeepsInked(s: string)
    requires NoBlankLine(s)
    ensures NoBlankLine(s[Span(s, IsSpace)..])
  {
    var ps := Split(s, '\n');
    var i := FirstLineInk(s);
    var a := Span(s, IsSpace);
    SplitDropFront(s, '\n', a);
    InkedAfterDrop(ps, Split(s[a..], '\n'), a, i);
  }

  /** A non-space character of the first line, which leading whitespace does not reach. */
  lemma {:induction false} FirstLineInk(s: string) returns (i: nat)
    requires NoBlankLine(s)
    ensures var p0 := Split(s, '\n')[0]; Span(s, IsSpace) <= i < |p0| && !IsSpace(p0[i])
  {
    var p0 := Split(s, '\n')[0];
    i :| 0 <= i < |p0| && !IsSpace(p0[i]);
    SplitFirstPiece(s, '\n');
    assert s[i] == p0[i];
  }

  /** Dropping the front of the first of some non-blank lines, short of a non-space character, leaves them non-blank. */
  lemma {:induction false} InkedAfterDrop(ps: seq<string>, qs: seq<string>, a: nat, i: nat)
    requires |ps| >= 1 && forall k :: 0 <= k < |ps| ==> !IsBlank(ps[k])
    requires a <= i < |ps[0]| && !IsSpace(ps[0][i])
    requires qs == [ps[0][a..]] + ps[1..]
    ensures forall k :: 0 <= k < |qs| ==> !IsBlank(qs[k])
  {
    assert ps[0][a..][i - a] == ps[0][i];
    forall k | 0 <= k < |qs|
      ensures !IsBlank(qs[k])
    {
      if k > 0 {
        assert qs[k] == ps[k];
      }
    }
  }

  /** Cutting whitespace off the back of a text with no blank line leaves no blank line. */
  lemma {:induction false} CutSpacesKeepsInked(t: string, m: nat)
    requires NoBlankLine(t) && m <= |t|
    requires forall i :: |t| - m <= i < |t| ==> IsSpace(t[i])
    ensures NoBlankLine(t[..|t| - m])
  {
    var j := LastLineInk(t, m);
    CutLastInked(t, m, j);
  }

  /** A non-space character of the last line that a cut of trailing whitespace does not reach. */
  lemma {:induction false} LastLineInk(t: string, m: nat) returns (j: nat)
    requires NoBlankLine(t) && m <= |t|
    requires forall i :: |t| - m <= i < |t| ==> IsSpace(t[i])
    ensures var qs := Split(t, '\n'); var last := qs[|qs| - 1];
      j < |last| - m && !IsSpace(last[j])
  {
    var qs := Split(t, '\n');
    var last := qs[|qs| - 1];
    j :| 0 <= j < |last| && !IsSpace(last[j]);
    LastLineChars(t);
    assert !IsSpace(t[|t| - |last| + j]);
  }

  /** The last line's characters are the text's last characters. */
  lemma {:induction false} LastLineChars(t: string)
    ensures var qs := Split(t, '\n'); var last := qs[|qs| - 1];
      |last| <= |t| && forall j :: 0 <= j < |last| ==> t[|t| - |last| + j] == last[j]
  {
    SplitLastPiece(t, '\n');
  }

  /** Cutting the back of a text short of a non-space character of its last line leaves every line non-blank. */
  lemma {:induction false} CutLastInked(t: string, b: nat, j: nat)
    requires NoBlankLine(t)
    requires var qs := Split(t, '\n'); var last := qs[|qs| - 1]; j < |last| - b && !IsSpace(last[j])
    ensures b <= |t| && NoBlankLine(t[..|t| - b])
  {
    SplitDropBack(t, '\n', b);
    InkedAfterCut(Split(t, '\n'), Split(t[..|t| - b], '\n'), b, j);
  }

  /** Cutting the back of the last of some non-blank lines, short of a non-space character, leaves them non-blank. */
  lemma {:induction false} InkedAfterCut(qs: seq<string>, rs: seq<string>, b: nat, j: nat)
    requires |qs| >= 1 && forall k :: 0 <= k < |qs| ==> !IsBlank(qs[k])
    requires var last := qs[|qs| - 1]; j < |last| - b && !IsSpace(last[j])
    requires rs == qs[..|qs| - 1] + [qs[|qs| - 1][..|qs[|qs| - 1]| - b]]
    ensures forall k :: 0 <= k < |rs| ==> !IsBlank(rs[k])
  {
    var last := qs[|qs| - 1];
    assert last[..|last| - b][j] == last[j];
    forall k | 0 <= k < |rs|
      ensures !IsBlank(rs[k])
    {
      if k < |rs| - 1 {
        assert rs[k] == qs[k];
      }
    }
  }

  /** A space run squeezed once has no run left: squeezing again changes nothing. */
  lemma {:induction false} CollapseSpacesClean(s: string)
    requires NoAdjacent(s, IsPlainSpace)
    ensures SqueezeSpaces(s) == s
    decreases |s|
  {
    if s != [] {
      CollapseSpacesClean(s[1..]);
      if s[0] == ' ' {
        SpanIs(s, IsPlainSpace, 1);
      }
    }
  }

  /** A text with no blank line, or the empty text, keeps all its lines. */
  lemma {:induction false} KeepInkedLinesOfInked(s: string)
    requires s == [] || NoBlankLine(s)
    ensures KeepInkedLines(s) == s
  {
    var ps := Split(s, '\n');
    if s == [] {
      assert ps == [[]];
      assert DropBlank(ps) == DropBlank(ps[1..]);
    } else {
      DropBlankAll(ps);
      SplitJoinsBack(s, '\n');
    }
  }

  /** Cleaning with every step on twice is cleaning once. */
  lemma {:induction false} CleanTextIdempotent(text: string)
    ensures var once := CleanText(text, true, true, true);
      CleanText(once, true, true, true) == once
  {
    var once := CleanText(text, true, true, true);
    CollapseSpacesClean(once);
    KeepInkedLinesOfInked(once);
    StripOfStripped(once);
  }

  // ---------------------------------------------------------------------------------------------
  // Paths: `Path.name`, `Path.stem`, `os.path.join` for POSIX paths
  // ---------------------------------------------------------------------------------------------

  /** The non-empty path components other than `.`, in order. */
  function Components(pieces: seq<string>): (r: seq<string>)
    ensures forall k :: 0 <= k < |r| ==> r[k] in pieces && r[k] != [] && r[k] != "."
  {
    if pieces == [] then []
    else if pieces[0] == [] || pieces[0] == "." then Components(pieces[1..])
    else [pieces[0]] + Components(pieces[1..])
  }

  lemma {:induction false} ComponentsAppend(xs: seq<string>, ys: seq<string>)
    ensures Components(xs + ys) == Components(xs) + Components(ys)
    decreases |xs|
  {
    if xs == [] {
      assert xs + ys == ys;
    } else {
      assert (xs + ys)[0] == xs[0];
      assert (xs + ys)[1..] == xs[1..] + ys;
      ComponentsAppend(xs[1..], ys);
    }
  }

  /** `Path(path).name`: the last component, or the empty string for the root or an empty path. */
  function PathName(path: string): (r: string)
    ensures '/' !in r && r != "."
  {
    var cs := Components(Split(path, '/'));
    if cs == [] then [] else cs[|cs| - 1]
  }

  /** `s.rfind(c)`: the last index of `c`, or -1. */
  function LastIndexOf(s: string, c: char): (r: int)
    ensures -1 <= r < |s|
    ensures r >= 0 ==> s[r] == c
    ensures forall k :: r < k < |s| ==> s[k] != c
  {
    if s == [] then -1
    else if s[|s| - 1] == c then |s| - 1
    else LastIndexOf(s[..|s| - 1], c)
  }

  /** `Path.stem`: the name without its last `.suffix`; a leading or trailing dot is not a suffix. */
  function Stem(name: string): (r: string)
    ensures StartsWith(name, r)
  {
    var i := LastIndexOf(name, '.');
    if 0 < i < |name| - 1 then
      assert name[..i][..i] == name[..i];
      name[..i]
    else name
  }

  /** A path from the root: `os.path.join` drops what comes before it. */
  predicate Absolute(path: string)
  {
    path != [] && path[0] == '/'
  }

  /** `os.path.join(dir, name)` for two POSIX parts. */
  function PathJoin(dir: string, name: string): (r: string)
    ensures EndsWith(r, name)
    ensures !Absolute(name) ==> StartsWith(r, dir)
  {
    if Absolute(name) then name
    else if dir == [] || dir[|dir| - 1] == '/' then dir + name
    else dir + "/" + name
  }

  /** `create_output_filename`: `<output_dir>/<input stem><suffix>.<extension>`. */
  function CreateOutputFilename(inputPath: string, outputDir: string, suffix: string, extension: string): (r: string)
    ensures EndsWith(r, Stem(PathName(inputPath)) + suffix + "." + extension)
    ensures !Absolute(Stem(PathName(inputPath)) + suffix) ==> StartsWith(r, outputDir)
  {
    var base := Stem(PathName(inputPath)) + suffix;
    var name := base + "." + extension;
    assert name[0] == if base != [] then base[0] else '.';
    PathJoin(outputDir, name)
  }

  /** A name without `/` that is not `.` is the name of any path that ends in it. */
  lemma {:induction false} NameOfJoin(dir: string, name: string)
    requires name != [] && name != "." && '/' !in name
    ensures PathName(PathJoin(dir, name)) == name
  {
    if dir == [] {
      SplitNone(name, '/');
    } else if dir[|dir| - 1] == '/' {
      var d := dir[..|dir| - 1];
      assert dir + name == d + ['/'] + name;
      NameAfterSlash(d, name);
    } else {
      assert dir + "/" + name == dir + ['/'] + name;
      NameAfterSlash(dir, name);
    }
  }

  /** The name of a path that ends in a slash and then a plain name is that name. */
  lemma {:induction false} NameAfterSlash(d: string, name: string)
    requires name != [] && name != "." && '/' !in name
    ensures PathName(d + ['/'] + name) == name
  {
    SplitAppend(d, '/', name);
    SplitNone(name, '/');
    ComponentsAppend(Split(d, '/'), [name]);
  }

  /** The last `.` of `pre + "." + ext` is the one before `ext` when `ext` has none. */
  lemma {:induction false} LastDot(pre: string, ext: string)
    requires '.' !in ext
    ensures LastIndexOf(pre + "." + ext, '.') == |pre|
  {
    var s := pre + "." + ext;
    assert s[|pre|] == '.';
    assert forall k :: |pre| < k < |s| ==> s[k] == ext[k - |pre| - 1];
  }

  /**
   * The output file is found where it was named: its name is the base name written, and its
   * stem is the input's stem followed by the suffix, when the extension is a plain non-empty
   * word and something precedes the dot.
   */
  lemma {:induction false} OutputNameRoundTrip(inputPath: string, outputDir: string, suffix: string, extension: string)
    requires '/' !in suffix && '/' !in extension && '.' !in extension && extension != []
    requires Stem(PathName(inputPath)) + suffix != []
    ensures var base := Stem(PathName(inputPath)) + suffix;
      PathName(CreateOutputFilename(inputPath, outputDir, suffix, extension)) == base + "." + extension &&
      Stem(PathName(CreateOutputFilename(inputPath, outputDir, suffix, extension))) == base
  {
    var base := Stem(PathName(inputPath)) + suffix;
    StemHasNoSlash(inputPath);
    PlainFileName(base, extension);
    NameOfJoin(outputDir, base + "." + extension);
  }

  /** The stem of a path's name has no slash. */
  lemma {:induction false} StemHasNoSlash(path: string)
    ensures '/' !in Stem(PathName(path))
  {
    var stem := Stem(PathName(path));
    assert forall k :: 0 <= k < |stem| ==> stem[k] == PathName(path)[k];
  }

  /** A base name, a dot and a plain extension make a relative name whose stem is the base. */
  lemma {:induction false} PlainFileName(base: string, extension: string)
    requires base != [] && '/' !in base
    requires '/' !in extension && '.' !in extension && extension != []
    ensures var name := base + "." + extension;
      '/' !in name && name != [] && name != "." && !Absolute(name) && Stem(name) == base
  {
    var name := base + "." + extension;
    assert |name| >= 2 && name[0] == base[0];
    LastDot(base, extension);
    assert name[..|base|] == base;
  }

  // ---------------------------------------------------------------------------------------------
  // `format_results`
  // ---------------------------------------------------------------------------------------------

  /** One OCR result: its file, its status, and the `text` and `error` entries when present. */
  datatype OcrResult = OcrResult(file: string, status: string, text: Option<string>, error: Option<string>)

  /** `result.get('text', '')`. */
  function TextOf(res: OcrResult): string
  {
    if res.text.Some? then res.text.value else []
  }

  const FileWidth: nat := 40
  const ColumnWidth: nat := 10
  const RuleWidth: nat := 80
  const OkCell: string := "\U{2713} OK"
  const ErrorCell: string := "\U{2717} Error"

  /** The file column: the file's base name, cut to 37 characters and `...` when longer than 40. */
  function FileCell(file: string): (r: string)
    ensures |r| <= FileWidth
    ensures r == PathName(file) <==> |PathName(file)| <= FileWidth
    ensures |PathName(file)| > FileWidth ==> r == PathName(file)[..37] + "..."
  {
    var name := PathName(file);
    if |name| > FileWidth then name[..37] + "..." else name
  }

  /** The status column: the tick exactly for the `success` status. */
  function StatusCell(status: string): (r: string)
    ensures r == OkCell <==> status == "success"
    ensures r == ErrorCell <==> status != "success"
    ensures |r| <= ColumnWidth
  {
    if status == "success" then OkCell else ErrorCell
  }

  /** `f"{a:<40} {b:<10} {c:<10}"`. */
  function TableLine(a: string, b: string, c: string): string
  {
    PadRight(a, FileWidth) + " " + PadRight(b, ColumnWidth) + " " + PadRight(c, ColumnWidth)
  }

  function TableRow(res: OcrResult): string
  {
    TableLine(FileCell(res.file), StatusCell(res.status), NatToString(|TextOf(res)|))
  }

  /** The lines of the table layout: rule, header, rule, one row per result, rule. */
  function TableLines(results: seq<OcrResult>): (r: seq<string>)
    ensures |r| == |results| + 4
    ensures r[0] == r[2] == r[|r| - 1] == Repeat('=', RuleWidth)
    ensures r[1] == TableLine("File", "Status", "Length")
    ensures forall k :: 0 <= k < |results| ==> r[k + 3] == TableRow(results[k])
  {
    var rule := Repeat('=', RuleWidth);
    [rule, TableLine("File", "Status", "Length"), rule]
      + seq(|results|, k requires 0 <= k < |results| => TableRow(results[k]))
      + [rule]
  }

  /** The columns of a table line start at fixed places when the first two cells fit their widths. */
  lemma {:induction false} TableLineColumns(a: string, b: string, c: string)
    requires |a| <= FileWidth && |b| <= ColumnWidth
    ensures var line := TableLine(a, b, c);
      |line| >= FileWidth + 1 + ColumnWidth &&
      line[..FileWidth] == PadRight(a, FileWidth) && line[FileWidth] == ' ' &&
      line[FileWidth + 1..FileWidth + 1 + ColumnWidth] == PadRight(b, ColumnWidth)
  {
    var pa, pb := PadRight(a, FileWidth), PadRight(b, ColumnWidth);
    var rest := " " + PadRight(c, ColumnWidth);
    assert TableLine(a, b, c) == pa + (" " + (pb + rest));
  }

  /** The status of a row starts after 41 characters, whatever the file name. */
  lemma {:induction false} TableRowColumns(res: OcrResult)
    ensures var row := TableRow(res);
      |row| >= FileWidth + 1 + ColumnWidth &&
      row[..FileWidth] == PadRight(FileCell(res.file), FileWidth) && row[FileWidth] == ' ' &&
      row[FileWidth + 1..FileWidth + 1 + ColumnWidth] == PadRight(StatusCell(res.status), ColumnWidth)
  {
    TableLineColumns(FileCell(res.file), StatusCell(res.status), NatToString(|TextOf(res)|));
  }

  /** The `text` layout of one result. */
  function TextBlock(res: OcrResult): (r: seq<string>)
    ensures |r| == (if res.status == "success" then 8 else 5)
    ensures r[0] == "\n" + Repeat('=', RuleWidth) && r[|r| - 1] == Repeat('=', RuleWidth)
    ensures r[1] == "File: " + res.file && r[2] == "Status: " + res.status
    ensures res.status == "success" ==> r[6] == TextOf(res)
  {
    var rule := Repeat('=', RuleWidth);
    var head := ["\n" + rule, "File: " + res.file, "Status: " + res.status];
    var body :=
      if res.status == "success" then
        ["Text Length: " + NatToString(|TextOf(res)|) + " characters", "\nExtracted Text:",
         Repeat('-', RuleWidth), TextOf(res)]
      else
        ["Error: " + (if res.error.Some? then res.error.value else "Unknown error")];
    head + body + [rule]
  }

  function TextLines(results: seq<OcrResult>): seq<string>
  {
    if results == [] then [] else TextBlock(results[0]) + TextLines(results[1..])
  }

  /** `format_results`: `json` through the serialiser `dumps`, `table`, or the text layout for any other type. */
  function FormatResults(results: seq<OcrResult>, formatType: string, dumps: seq<OcrResult> -> string): (r: string)
    ensures formatType == "table" ==> r == Join(TableLines(results), "\n")
    ensures formatType != "json" && formatType != "table" ==> r == Join(TextLines(results), "\n")
  {
    if formatType == "json" then dumps(results)
    else if formatType == "table" then Join(TableLines(results), "\n")
    else Join(TextLines(results), "\n")
  }

  /** A table whose file names have no line break reads back line by line: header, one row per result, footer. */
  lemma {:induction false} TableSplitsIntoRows(results: seq<OcrResult>)
    requires forall k :: 0 <= k < |results| ==> '\n' !in results[k].file
    ensures Split(FormatResults(results, "table", _ => []), '\n') == TableLines(results)
  {
    var lines := TableLines(results);
    forall k | 0 <= k < |lines|
      ensures '\n' !in lines[k]
    {
      TableLineUnbroken(results, k);
    }
    SplitJoin(lines, '\n');
  }

  /** No line of the table layout holds a line break when no file name does. */
  lemma {:induction false} TableLineUnbroken(results: seq<OcrResult>, k: nat)
    requires forall k :: 0 <= k < |results| ==> '\n' !in results[k].file
    requires k < |results| + 4
    ensures '\n' !in TableLines(results)[k]
  {
    var lines := TableLines(results);
    if 3 <= k < |lines| - 1 {
      RowHasNoBreak(results[k - 3]);
    } else if k == 1 {
      TableLineNoBreak("File", "Status", "Length");
    } else {
      assert lines[k] == Repeat('=', RuleWidth);
    }
  }

  lemma {:induction false} TableLineNoBreak(a: string, b: string, c: string)
    requires '\n' !in a && '\n' !in b && '\n' !in c
    ensures '\n' !in TableLine(a, b, c)
  {
  }

  lemma {:induction false} RowHasNoBreak(res: OcrResult)
    requires '\n' !in res.file
    ensures '\n' !in TableRow(res)
  {
    var name := PathName(res.file);
    assert '\n' !in name by {
      var cs := Components(Split(res.file, '/'));
      if cs != [] {
        assert cs[|cs| - 1] in Split(res.file, '/');
        SplitPiecesWithin(res.file, '/', '\n');
      }
    }
    var cell := FileCell(res.file);
    assert '\n' !in cell by {
      if |name| > FileWidth {
        assert forall k :: 0 <= k < 37 ==> cell[k] == name[k];
      }
    }
    var n := NatToString(|TextOf(res)|);
    assert '\n' !in n by {
      assert All(n, IsDigit);
    }
    TableLineNoBreak(cell, StatusCell(res.status), n);
  }

  /** A character that is not in a string is in none of its pieces. */
  lemma {:induction false} SplitPiecesWithin(s: string, c: char, d: char)
    requires d !in s
    ensures forall k :: 0 <= k < |Split(s, c)| ==> d !in Split(s, c)[k]
  {
    var ps := Split(s, c);
    SplitJoinsBack(s, c);
    forall k | 0 <= k < |ps|
      ensures d !in ps[k]
    {
      JoinHasParts(ps, [c], k);
    }
  }

  /** Every character of a part is a character of the joined string. */
  lemma {:induction false} JoinHasParts(parts: seq<string>, sep: string, k: nat)
    requires k < |parts|
    ensures forall x :: x in parts[k] ==> x in Join(parts, sep)
    decreases |parts|
  {
    if |parts| > 1 {
      if k > 0 {
        JoinHasParts(parts[1..], sep, k - 1);
      }
      assert Join(parts, sep) == parts[0] + sep + Join(parts[1..], sep);
    }
  }
}
