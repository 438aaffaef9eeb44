/** `DiffSyntaxFacts`: the two-line diffs that describe a code fix result. A
    diff is one line starting with '-' holding the line to replace and one line
    starting with '+' holding its replacement, optionally with a blank line
    before and after. */
module DiffSyntaxFacts {
  import opened Wrappers
  import opened Text
  import opened SourceTextExt

  /** The exceptions `ApplyDiff` throws: `NotImplementedException` for any other
      diff shape, `ArgumentException` for a line that is missing or repeated. */
  datatype DiffError = NotImplemented | LineNotFound | LineNotUnique

  // -------------------------------------------------------- diff indicators

  /** `GetLineWithoutDiffIndicator`: the line without its leading '-' or '+';
      when a space follows the indicator, the indicator becomes a space so that
      the columns of the rest of the line are kept. */
  function GetLineWithoutDiffIndicator(line: string): (r: string)
    requires line != []
    ensures |line| - 1 <= |r| <= |line|
    ensures r[|r| - (|line| - 1)..] == line[1..]
    ensures |r| == |line| <==> |line| >= 2 && line[1] == ' '
    ensures |r| == |line| ==> r[0] == ' '
  {
    (if |line| >= 2 && line[1] == ' ' then " " else "") + line[1..]
  }

  /** A code line a diff line can denote: one that does not start with exactly
      one space. */
  predicate Expressible(code: string) {
    !(code != [] && code[0] == ' ' && (|code| == 1 || code[1] != ' '))
  }

  /** The diff line that denotes `code`: the indicator takes the place of the
      first of two leading spaces, and otherwise goes in front. */
  function DiffLine(indicator: char, code: string): string {
    if |code| >= 2 && code[0] == ' ' && code[1] == ' ' then [indicator] + code[1..] else [indicator] + code
  }

  /** Stripping the indicator of a written diff line gives back the code line. */
  lemma DiffLineRoundTrip(indicator: char, code: string)
    requires Expressible(code)
    ensures GetLineWithoutDiffIndicator(DiffLine(indicator, code)) == code
  {
    var line := DiffLine(indicator, code);
    if |code| >= 2 && code[0] == ' ' && code[1] == ' ' {
      assert line[1..] == code[1..];
      assert " " + code[1..] == code;
    } else {
      assert line[1..] == code;
    }
  }

  /** A code line that starts with exactly one space is denoted by no diff line. */
  lemma SingleSpaceIndentInexpressible(code: string, line: string)
    requires !Expressible(code) && line != []
    ensures GetLineWithoutDiffIndicator(line) != code
  {
    var r := GetLineWithoutDiffIndicator(line);
    if |r| == |line| {
      assert r[1..] == line[1..] && r[0] == ' ';
      assert |r| >= 2 && r[1] == ' ';
      assert |r| != |code| || r[1] != code[1];
    } else {
      assert r == line[1..];
      assert r == [] || r[0] != ' ';
    }
  }

  // ------------------------------------------------------------ the diff

  /** The diff with one leading and one trailing blank line dropped. */
  function CleanDiff(diff: string): string {
    WithoutFinalBlankLine(WithoutInitialBlankLine(diff))
  }

  /** The shape `ApplyDiff` supports: exactly two lines, the first starting with
      '-' and the second with '+'. */
  predicate IsTwoLineDiff(diff: string) {
    var d := CleanDiff(diff);
    && |Lines(d)| == 2
    && LineText(d, 0) != [] && LineText(d, 0)[0] == '-'
    && LineText(d, 1) != [] && LineText(d, 1)[0] == '+'
  }

  /** The code line the diff removes. */
  function DiffFind(diff: string): string
    requires IsTwoLineDiff(diff)
  {
    GetLineWithoutDiffIndicator(LineText(CleanDiff(diff), 0))
  }

  /** The code line the diff puts in its place. */
  function DiffReplacement(diff: string): string
    requires IsTwoLineDiff(diff)
  {
    GetLineWithoutDiffIndicator(LineText(CleanDiff(diff), 1))
  }

  // ------------------------------------------------------------ applying

  /** The lines from `k` on whose content is `find`, in increasing order. */
  function MatchingLines(s: string, find: string, k: nat): (r: seq<nat>)
    requires k <= |Lines(s)|
    ensures forall j :: 0 <= j < |r| ==> k <= r[j] < |Lines(s)| && LineText(s, r[j]) == find
    ensures forall j :: k <= j < |Lines(s)| && LineText(s, j) == find ==> j in r
    ensures forall i, j :: 0 <= i < j < |r| ==> r[i] < r[j]
    decreases |Lines(s)| - k
  {
    if k == |Lines(s)| then []
    else if LineText(s, k) == find then [k] + MatchingLines(s, find, k + 1)
    else MatchingLines(s, find, k + 1)
  }

  /** A strictly increasing sequence spreads over at least its length. */
  lemma {:induction false} IncreasingSpread(r: seq<nat>)
    requires forall i, j :: 0 <= i < j < |r| ==> r[i] < r[j]
    ensures r != [] ==> r[0] + |r| - 1 <= r[|r| - 1]
  {
    if |r| > 1 {
      IncreasingSpread(r[..|r| - 1]);
      assert r[|r| - 2] < r[|r| - 1];
    }
  }

  /** `SourceText.WithChanges` with the one change that puts `t` in place of `span`. */
  function Splice(s: string, span: TextSpan, t: string): (r: string)
    requires span.End() <= |s|
    ensures |r| == |s| - span.length + |t|
    ensures r[..span.start] == s[..span.start]
    ensures r[span.start..span.start + |t|] == t
    ensures r[span.start + |t|..] == s[span.End()..]
  {
    s[..span.start] + t + s[span.End()..]
  }

  /** The change `ApplyDiff` makes once it has read the diff: the unique line
      whose content is `find` gets the content `replacement`. */
  function ReplaceUniqueLine(s: string, find: string, replacement: string): (r: Result<string, DiffError>)
    ensures r.Failure? ==> r.error == LineNotFound || r.error == LineNotUnique
    ensures r == Failure(LineNotFound) <==> forall k :: 0 <= k < |Lines(s)| ==> LineText(s, k) != find
    ensures r == Failure(LineNotUnique) <==>
      exists i, j :: 0 <= i < j < |Lines(s)| && LineText(s, i) == find && LineText(s, j) == find
    ensures r.Success? ==>
      exists k :: 0 <= k < |Lines(s)| && LineText(s, k) == find
        && (forall j :: 0 <= j < |Lines(s)| && j != k ==> LineText(s, j) != find)
        && r.value == Splice(s, LineSpan(s, k), replacement)
  {
    var found := MatchingLines(s, find, 0);
    if |found| == 0 then
      Failure(LineNotFound)
    else if |found| > 1 then
      assert found[0] < found[1];
      Failure(LineNotUnique)
    else
      var k := found[0];
      assert forall j :: 0 <= j < |Lines(s)| && LineText(s, j) == find ==> j == k;
      Success(Splice(s, LineSpan(s, k), replacement))
  }

  /** `ApplyDiff`: the text with the unique line that reads like the diff's
      '-' line replaced by its '+' line; any other diff shape is not supported. */
  function ApplyDiff(s: string, diff: string): (r: Result<string, DiffError>)
    ensures r == Failure(NotImplemented) <==> !IsTwoLineDiff(diff)
    ensures IsTwoLineDiff(diff) ==> r == ReplaceUniqueLine(s, DiffFind(diff), DiffReplacement(diff))
  {
    if IsTwoLineDiff(diff) then ReplaceUniqueLine(s, DiffFind(diff), DiffReplacement(diff))
    else Failure(NotImplemented)
  }

  // ------------------------------------------------------ written diffs

  /** The line table of two break-free lines joined by '\n'. */
  lemma TwoLines(a: string, b: string)
    requires forall i :: 0 <= i < |a| ==> !IsBreakChar(a[i])
    requires forall i :: 0 <= i < |b| ==> !IsBreakChar(b[i])
    ensures var d := a + "\n" + b;
      && |Lines(d)| == 2 && LineText(d, 0) == a && LineText(d, 1) == b
  {
    var d := a + "\n" + b;
    var e := LineEnd(d, 0);
    assert d[|a|] == '\n';
    assert e == |a| by {
      assert forall i :: 0 <= i < |a| ==> d[i] == a[i];
    }
    var f := LineEnd(d, |a| + 1);
    assert f == |d| by {
      assert forall i :: |a| + 1 <= i < |d| ==> d[i] == b[i - |a| - 1];
    }
    assert BreakLength(d, |a|) == 1;
    assert LinesFrom(d, |a| + 1) == [TextLine(|a| + 1, |d|, |d|)];
    assert Lines(d) == [TextLine(0, |a|, |a| + 1), TextLine(|a| + 1, |d|, |d|)];
    assert d[..|a|] == a && d[|a| + 1..] == b;
  }

  /** The diff the library's convention writes for replacing `removed` by
      `added`: a blank line, the '-' line, the '+' line and a blank line. */
  function WrittenDiff(removed: string, added: string): string {
    "\n" + DiffLine('-', removed) + "\n" + DiffLine('+', added) + "\n"
  }

  /** A written diff reads back as the two code lines it was written from. */
  lemma WrittenDiffReadsBack(removed: string, added: string)
    requires Expressible(removed) && Expressible(added)
    requires forall i :: 0 <= i < |removed| ==> !IsBreakChar(removed[i])
    requires forall i :: 0 <= i < |added| ==> !IsBreakChar(added[i])
    ensures IsTwoLineDiff(WrittenDiff(removed, added))
    ensures DiffFind(WrittenDiff(removed, added)) == removed
    ensures DiffReplacement(WrittenDiff(removed, added)) == added
  {
    var a := DiffLine('-', removed);
    var b := DiffLine('+', added);
    var body := a + "\n" + b;
    var diff := WrittenDiff(removed, added);
    DiffLineBreakFree('-', removed);
    DiffLineBreakFree('+', added);
    CleanFramedLines(a, b);
    assert CleanDiff(diff) == body;
    TwoLines(a, b);
    DiffLineRoundTrip('-', removed);
    DiffLineRoundTrip('+', added);
  }

  /** A diff line of a code line holds no line break. */
  lemma DiffLineBreakFree(indicator: char, code: string)
    requires !IsBreakChar(indicator)
    requires forall i :: 0 <= i < |code| ==> !IsBreakChar(code[i])
    ensures var line := DiffLine(indicator, code);
      forall i :: 0 <= i < |line| ==> !IsBreakChar(line[i])
  {
    var line := DiffLine(indicator, code);
    var skip := if |code| >= 2 && code[0] == ' ' && code[1] == ' ' then 1 else 0;
    assert line == [indicator] + code[skip..];
    forall i | 1 <= i < |line|
      ensures line[i] == code[skip + i - 1]
    {
    }
  }

  /** Dropping the blank lines around two lines joined by '\n', the second
      of which does not end with '\r'. */
  lemma CleanFramedLines(a: string, b: string)
    requires b == [] || b[|b| - 1] != '\r'
    ensures CleanDiff("\n" + a + "\n" + b + "\n") == a + "\n" + b
  {
    var body := a + "\n" + b;
    assert body[|body| - 1] != '\r';
    InitialBlankLineRemoved(body + "\n");
    assert "\n" + a + "\n" + b + "\n" == "\n" + (body + "\n");
    FinalBlankLineRemoved(body);
  }

  /** When exactly line `k` reads `find`, that line's content is replaced. */
  lemma ReplaceTheUniqueLine(s: string, k: nat, find: string, replacement: string)
    requires k < |Lines(s)| && LineText(s, k) == find
    requires forall j :: 0 <= j < |Lines(s)| && j != k ==> LineText(s, j) != find
    ensures ReplaceUniqueLine(s, find, replacement) == Success(Splice(s, LineSpan(s, k), replacement))
  {
    var found := MatchingLines(s, find, 0);
    assert k in found;
    assert found[0] == k && found[|found| - 1] == k;
    IncreasingSpread(found);
  }

  /** A diff written with the library's convention replaces exactly the one
      line it names, and nothing else. */
  lemma ApplyWrittenDiff(s: string, k: nat, removed: string, added: string)
    requires k < |Lines(s)| && LineText(s, k) == removed
    requires forall j :: 0 <= j < |Lines(s)| && j != k ==> LineText(s, j) != removed
    requires Expressible(removed) && Expressible(added)
    requires forall i :: 0 <= i < |added| ==> !IsBreakChar(added[i])
    ensures ApplyDiff(s, WrittenDiff(removed, added)) == Success(Splice(s, LineSpan(s, k), added))
  {
    WrittenDiffReadsBack(removed, added);
    ReplaceTheUniqueLine(s, k, removed, added);
  }
}
