/** The parts of the compiler's text model the library uses: spans, the line
    table of a source text, line/character positions and text removal.

    A text is split into lines at "\r\n", at a lone '\r' and at '\n'. A text
    always has at least one line, and a text that ends with a line break has a
    final empty line. */
module Text {
  import opened Wrappers

  function Max(a: nat, b: nat): nat { if a < b then b else a }
  function Min(a: nat, b: nat): nat { if a < b then a else b }

  /** `TextSpan`: `length` characters starting at `start`. */
  datatype TextSpan = TextSpan(start: nat, length: nat) {
    function End(): nat { start + length }
    predicate IsEmpty() { length == 0 }
  }

  /** `TextSpan.FromBounds`. */
  function FromBounds(start: nat, end: nat): (r: TextSpan)
    requires start <= end
    ensures r.start == start && r.End() == end
  {
    TextSpan(start, end - start)
  }

  /** `TextSpan.OverlapsWith`: the two spans share at least one position. */
  predicate OverlapsWith(a: TextSpan, b: TextSpan) {
    Max(a.start, b.start) < Min(a.End(), b.End())
  }

  /** `TextSpan.Overlap`: the positions that lie in both spans, if there are any. */
  function Overlap(a: TextSpan, b: TextSpan): (r: Option<TextSpan>)
    ensures r.Some? <==> OverlapsWith(a, b)
    ensures r.Some? ==> r.value.start == Max(a.start, b.start) && r.value.End() == Min(a.End(), b.End())
  {
    if OverlapsWith(a, b) then Some(FromBounds(Max(a.start, b.start), Min(a.End(), b.End()))) else None
  }

  function Slice(s: string, span: TextSpan): string
    requires span.End() <= |s|
  {
    s[span.start..span.End()]
  }

  // ---------------------------------------------------------------- lines

  predicate IsBreakChar(c: char) { c == '\r' || c == '\n' }

  /** Length of the line break that starts at `i`: 2 for "\r\n", 1 for a lone
      '\r' or '\n', 0 when `s[i]` is not a line break. */
  function BreakLength(s: string, i: nat): (n: nat)
    requires i < |s|
    ensures n <= 2 && i + n <= |s|
    ensures n > 0 <==> IsBreakChar(s[i])
  {
    if s[i] == '\r' then (if i + 1 < |s| && s[i + 1] == '\n' then 2 else 1)
    else if s[i] == '\n' then 1
    else 0
  }

  /** The first line-break character at or after `i`, or `|s|`. */
  function LineEnd(s: string, i: nat): (e: nat)
    requires i <= |s|
    ensures i <= e <= |s|
    ensures forall k :: i <= k < e ==> !IsBreakChar(s[k])
    ensures e < |s| ==> IsBreakChar(s[e])
    decreases |s| - i
  {
    if i == |s| || IsBreakChar(s[i]) then i else LineEnd(s, i + 1)
  }

  /** `TextLine`: a line's content is `start..end`; its break runs to `endIncludingLineBreak`. */
  datatype TextLine = TextLine(start: nat, end: nat, endIncludingLineBreak: nat)

  function LinesFrom(s: string, i: nat): seq<TextLine>
    requires i <= |s|
    decreases |s| - i
  {
    var e := LineEnd(s, i);
    if e == |s| then [TextLine(i, e, e)]
    else [TextLine(i, e, e + BreakLength(s, e))] + LinesFrom(s, e + BreakLength(s, e))
  }

  /** `SourceText.Lines`. */
  function Lines(s: string): seq<TextLine> {
    LinesFrom(s, 0)
  }

  /** A line table of `s` whose first line starts at `from`: consecutive lines,
      no break inside a line's content, exactly one break after each line but the
      last, and the last line ends the text. */
  predicate ValidLinesFrom(s: string, from: nat, ls: seq<TextLine>) {
    && |ls| > 0
    && ls[0].start == from
    && ls[|ls| - 1].end == |s|
    && ls[|ls| - 1].endIncludingLineBreak == |s|
    && (forall k :: 0 <= k < |ls| ==> ls[k].start <= ls[k].end <= ls[k].endIncludingLineBreak <= |s|)
    && (forall k :: 0 <= k < |ls| - 1 ==> BrokenAfter(s, ls, k))
    && (forall k, j :: 0 <= k < |ls| && ls[k].start <= j < ls[k].end ==> !IsBreakChar(s[j]))
  }

  /** Line `k` is followed by exactly one line break, after which line `k + 1` starts. */
  predicate BrokenAfter(s: string, ls: seq<TextLine>, k: nat)
    requires k + 1 < |ls|
  {
    && ls[k].end < |s|
    && IsBreakChar(s[ls[k].end])
    && ls[k].endIncludingLineBreak == ls[k].end + BreakLength(s, ls[k].end)
    && ls[k + 1].start == ls[k].endIncludingLineBreak
  }

  predicate ValidLines(s: string, ls: seq<TextLine>) {
    ValidLinesFrom(s, 0, ls)
  }

  lemma {:induction false} LinesFromValid(s: string, i: nat)
    requires i <= |s|
    ensures ValidLinesFrom(s, i, LinesFrom(s, i))
    decreases |s| - i
  {
    var e := LineEnd(s, i);
    if e < |s| {
      var b := e + BreakLength(s, e);
      LinesFromValid(s, b);
      ConsValidLines(s, TextLine(i, e, b), LinesFrom(s, b));
    }
  }

  /** A line ended by a line break, followed by a valid table of the rest. */
  lemma ConsValidLines(s: string, line: TextLine, rest: seq<TextLine>)
    requires line.start <= line.end < |s| && IsBreakChar(s[line.end])
    requires forall j :: line.start <= j < line.end ==> !IsBreakChar(s[j])
    requires line.endIncludingLineBreak == line.end + BreakLength(s, line.end)
    requires ValidLinesFrom(s, line.endIncludingLineBreak, rest)
    ensures ValidLinesFrom(s, line.start, [line] + rest)
  {
    var ls := [line] + rest;
    assert ls[|ls| - 1] == rest[|rest| - 1];
    forall k | 0 < k < |ls|
      ensures ls[k] == rest[k - 1]
    {
    }
    forall k | 0 <= k < |ls| - 1
      ensures BrokenAfter(s, ls, k)
    {
      if k > 0 {
        assert BrokenAfter(s, rest, k - 1);
      }
    }
  }

  /** The computed line table is a valid line table of the text. */
  lemma LinesValid(s: string)
    ensures ValidLines(s, Lines(s))
  {
    LinesFromValid(s, 0);
  }

  /** The content of line `k`, without its line break. */
  function LineText(s: string, k: nat): (r: string)
    requires k < |Lines(s)|
    ensures forall j :: 0 <= j < |r| ==> !IsBreakChar(r[j])
  {
    LinesValid(s);
    var line := Lines(s)[k];
    s[line.start..line.end]
  }

  /** The span of line `k`'s content (`TextLine.Span`). */
  function LineSpan(s: string, k: nat): (r: TextSpan)
    requires k < |Lines(s)|
    ensures r.End() <= |s|
    ensures r.start == Lines(s)[k].start && r.End() == Lines(s)[k].end
  {
    LinesValid(s);
    FromBounds(Lines(s)[k].start, Lines(s)[k].end)
  }

  function FindLine(ls: seq<TextLine>, pos: nat, i: nat): (k: nat)
    requires i < |ls|
    ensures i <= k < |ls|
    ensures forall j :: i <= j < k ==> ls[j].endIncludingLineBreak <= pos
    ensures pos < ls[k].endIncludingLineBreak || k == |ls| - 1
    decreases |ls| - i
  {
    if pos < ls[i].endIncludingLineBreak || i == |ls| - 1 then i else FindLine(ls, pos, i + 1)
  }

  /** `TextLineCollection.IndexOf(position)`: the line holding `pos`; the end of
      the text belongs to the last line. */
  function LineIndexOf(s: string, pos: nat): (k: nat)
    requires pos <= |s|
    ensures k < |Lines(s)|
    ensures Lines(s)[k].start <= pos
    ensures pos < Lines(s)[k].endIncludingLineBreak || (k == |Lines(s)| - 1 && pos == |s|)
  {
    LinesValid(s);
    var k := FindLine(Lines(s), pos, 0);
    assert k > 0 ==> BrokenAfter(s, Lines(s), k - 1);
    k
  }

  /** A position within a line's content, or at its end, belongs to that line. */
  lemma LineIndexOfWithin(s: string, k: nat, pos: nat)
    requires k < |Lines(s)|
    requires Lines(s)[k].start <= pos <= Lines(s)[k].end
    ensures pos <= |s| && LineIndexOf(s, pos) == k
  {
    LinesValid(s);
    var ls := Lines(s);
    forall j | 0 <= j < k
      ensures ls[j].endIncludingLineBreak <= pos
    {
      assert BrokenAfter(s, ls, j);
      LinesOrdered(s, j + 1, k);
    }
    if k < |ls| - 1 {
      assert BrokenAfter(s, ls, k);
    }
    FindLineIs(ls, pos, 0, k);
  }

  lemma {:induction false} FindLineIs(ls: seq<TextLine>, pos: nat, i: nat, k: nat)
    requires i <= k < |ls|
    requires forall j :: i <= j < k ==> ls[j].endIncludingLineBreak <= pos
    requires pos < ls[k].endIncludingLineBreak || k == |ls| - 1
    ensures FindLine(ls, pos, i) == k
    decreases k - i
  {
    if i < k {
      FindLineIs(ls, pos, i + 1, k);
    }
  }

  /** Later lines start no earlier than earlier lines. */
  lemma {:induction false} LinesOrdered(s: string, i: nat, j: nat)
    requires i <= j < |Lines(s)|
    ensures Lines(s)[i].start <= Lines(s)[j].start
    decreases j - i
  {
    LinesValid(s);
    if i < j {
      assert BrokenAfter(s, Lines(s), i);
      LinesOrdered(s, i + 1, j);
    }
  }

  // ------------------------------------------------------------ positions

  /** `LinePosition`: a zero-based line and character. */
  datatype LinePosition = LinePosition(line: nat, character: nat)

  /** `LinePositionSpan`. */
  datatype LinePositionSpan = LinePositionSpan(start: LinePosition, end: LinePosition)

  /** `TextLineCollection.GetLinePosition`. */
  function GetLinePosition(s: string, pos: nat): (p: LinePosition)
    requires pos <= |s|
    ensures p.line < |Lines(s)| && Lines(s)[p.line].start + p.character == pos
  {
    var k := LineIndexOf(s, pos);
    LinePosition(k, pos - Lines(s)[k].start)
  }

  /** `TextLineCollection.GetLinePositionSpan`. */
  function GetLinePositionSpan(s: string, span: TextSpan): LinePositionSpan
    requires span.End() <= |s|
  {
    LinePositionSpan(GetLinePosition(s, span.start), GetLinePosition(s, span.End()))
  }

  /** `TextLineCollection.GetPosition`: the line's start plus the character; the
      character is not checked against the line's length. */
  function GetPosition(s: string, p: LinePosition): nat
    requires p.line < |Lines(s)|
  {
    Lines(s)[p.line].start + p.character
  }

  /** `TextLineCollection.GetTextSpan`. */
  function GetTextSpan(s: string, span: LinePositionSpan): (r: TextSpan)
    requires span.start.line < |Lines(s)| && span.end.line < |Lines(s)|
    requires GetPosition(s, span.start) <= GetPosition(s, span.end)
    ensures r.start == GetPosition(s, span.start) && r.End() == GetPosition(s, span.end)
  {
    FromBounds(GetPosition(s, span.start), GetPosition(s, span.end))
  }

  // ------------------------------------------------------------- removals

  /** The spans lie in `pos..n`, in order and without overlapping. */
  predicate OrderedFrom(rs: seq<TextSpan>, pos: nat, n: nat)
    decreases |rs|
  {
    if rs == [] then pos <= n
    else pos <= rs[0].start && OrderedFrom(rs[1..], rs[0].End(), n)
  }

  lemma {:induction false} OrderedLimit(rs: seq<TextSpan>, pos: nat, n: nat)
    requires OrderedFrom(rs, pos, n)
    ensures pos <= n
    decreases |rs|
  {
    if rs != [] {
      OrderedLimit(rs[1..], rs[0].End(), n);
    }
  }

  lemma {:induction false} OrderedElem(rs: seq<TextSpan>, pos: nat, n: nat, k: nat)
    requires OrderedFrom(rs, pos, n) && k < |rs|
    ensures pos <= rs[k].start && rs[k].End() <= n
    decreases |rs|
  {
    if k == 0 {
      OrderedLimit(rs[1..], rs[0].End(), n);
    } else {
      OrderedElem(rs[1..], rs[0].End(), n, k - 1);
      assert rs[k] == rs[1..][k - 1];
    }
  }

  lemma OrderedHead(rs: seq<TextSpan>, pos: nat, n: nat)
    requires rs != []
    ensures OrderedFrom(rs, pos, n) ==> rs[0].End() <= n
  {
    if OrderedFrom(rs, pos, n) {
      OrderedLimit(rs[1..], rs[0].End(), n);
    }
  }

  function SumLengths(rs: seq<TextSpan>): nat {
    if rs == [] then 0 else rs[0].length + SumLengths(rs[1..])
  }

  /** The text from `pos` on with the spans `rs` cut out. */
  function Keep(s: string, rs: seq<TextSpan>, pos: nat): string
    requires pos <= |s| && OrderedFrom(rs, pos, |s|)
    decreases |rs|
  {
    if rs == [] then s[pos..]
    else
      OrderedElem(rs, pos, |s|, 0);
      s[pos..rs[0].start] + Keep(s, rs[1..], rs[0].End())
  }

  /** Errors of `SourceText.WithChanges`. */
  datatype ChangeError = ChangeOutOfBounds | ChangesOverlap

  /** `SourceText.WithChanges` for changes that delete text: each change must
      end inside the text and start at or after the previous change's end. */
  function WithRemovals(s: string, rs: seq<TextSpan>, pos: nat): (r: Result<string, ChangeError>)
    requires pos <= |s|
    ensures r.Success? <==> OrderedFrom(rs, pos, |s|)
    ensures r.Success? ==> r.value == Keep(s, rs, pos)
    ensures r.Failure? && (forall k :: 0 <= k < |rs| ==> rs[k].End() <= |s|) ==> r.error == ChangesOverlap
    decreases |rs|
  {
    if rs == [] then Success(s[pos..])
    else if rs[0].End() > |s| then
      OrderedHead(rs, pos, |s|);
      Failure(ChangeOutOfBounds)
    else if rs[0].start < pos then Failure(ChangesOverlap)
    else
      assert OrderedFrom(rs, pos, |s|) <==> OrderedFrom(rs[1..], rs[0].End(), |s|);
      match WithRemovals(s, rs[1..], rs[0].End())
      case Failure(e) => Failure(e)
      case Success(rest) => Success(s[pos..rs[0].start] + rest)
  }

  /** Cutting out spans shortens the text by exactly their total length. */
  lemma {:induction false} KeepLength(s: string, rs: seq<TextSpan>, pos: nat)
    requires pos <= |s| && OrderedFrom(rs, pos, |s|)
    ensures |s| - pos >= SumLengths(rs)
    ensures |Keep(s, rs, pos)| == |s| - pos - SumLengths(rs)
    decreases |rs|
  {
    if rs != [] {
      OrderedElem(rs, pos, |s|, 0);
      KeepLength(s, rs[1..], rs[0].End());
    }
  }

  /** Where the gap before `rs[k]` begins: `pos` or the end of `rs[k - 1]`. */
  function GapStart(rs: seq<TextSpan>, pos: nat, k: nat): nat
    requires k <= |rs|
  {
    if k == 0 then pos else rs[k - 1].End()
  }

  /** Where the gap before `rs[k]` ends: the start of `rs[k]` or the end of the text. */
  function GapEnd(rs: seq<TextSpan>, n: nat, k: nat): nat
    requires k <= |rs|
  {
    if k == |rs| then n else rs[k].start
  }

  /** Text between two removals survives, moved left by the length of the
      removals before it. */
  lemma {:induction false} KeepPreserves(s: string, rs: seq<TextSpan>, pos: nat, k: nat, p: nat, q: nat)
    requires pos <= |s| && OrderedFrom(rs, pos, |s|)
    requires k <= |rs|
    requires GapStart(rs, pos, k) <= p <= q <= GapEnd(rs, |s|, k)
    ensures q <= |s| && pos + SumLengths(rs[..k]) <= p
    ensures q - pos - SumLengths(rs[..k]) <= |Keep(s, rs, pos)|
    ensures Keep(s, rs, pos)[p - pos - SumLengths(rs[..k]) .. q - pos - SumLengths(rs[..k])] == s[p..q]
    decreases |rs|
  {
    if k == 0 {
      KeepPreservesFirstGap(s, rs, pos, p, q);
    } else {
      var tail := rs[1..];
      var pos' := rs[0].End();
      OrderedElem(rs, pos, |s|, 0);
      SumLengthsPrefix(rs, k);
      assert GapStart(rs, pos, k) == GapStart(tail, pos', k - 1);
      assert GapEnd(rs, |s|, k) == GapEnd(tail, |s|, k - 1);
      KeepPreserves(s, tail, pos', k - 1, p, q);
      var head := s[pos..rs[0].start];
      var rest := Keep(s, tail, pos');
      assert Keep(s, rs, pos) == head + rest;
      SliceOfConcat(head, rest, p - pos - SumLengths(rs[..k]), q - pos - SumLengths(rs[..k]));
    }
  }

  lemma SumLengthsPrefix(rs: seq<TextSpan>, k: nat)
    requires 0 < k <= |rs|
    ensures SumLengths(rs[..k]) == rs[0].length + SumLengths(rs[1..][..k - 1])
  {
    assert rs[..k] == [rs[0]] + rs[1..][..k - 1];
  }

  lemma SliceOfConcat(a: string, b: string, i: nat, j: nat)
    requires |a| <= i <= j <= |a| + |b|
    ensures (a + b)[i..j] == b[i - |a|..j - |a|]
  {
  }

  /** A slice of a slice is a slice of the whole. */
  lemma SliceOfSlice(s: string, a: nat, b: nat, i: nat, j: nat)
    requires a <= b <= |s| && i <= j <= b - a
    ensures s[a..b][i..j] == s[a + i..a + j]
  {
    forall t | 0 <= t < j - i
      ensures s[a..b][i..j][t] == s[a + i..a + j][t]
    {
      assert s[a..b][i + t] == s[a + i + t];
    }
  }

  lemma KeepPreservesFirstGap(s: string, rs: seq<TextSpan>, pos: nat, p: nat, q: nat)
    requires pos <= |s| && OrderedFrom(rs, pos, |s|)
    requires pos <= p <= q <= GapEnd(rs, |s|, 0)
    ensures q <= |s|
    ensures q - pos <= |Keep(s, rs, pos)|
    ensures Keep(s, rs, pos)[p - pos .. q - pos] == s[p..q]
  {
    if rs != [] {
      OrderedElem(rs, pos, |s|, 0);
      var head := s[pos..rs[0].start];
      var rest := Keep(s, rs[1..], rs[0].End());
      assert Keep(s, rs, pos) == head + rest;
      assert (head + rest)[p - pos .. q - pos] == head[p - pos .. q - pos];
      assert q <= rs[0].start;
      forall i | 0 <= i < q - p
        ensures head[p - pos .. q - pos][i] == s[p..q][i]
      {
        assert head[p - pos + i] == s[p + i];
      }
      assert head[p - pos .. q - pos] == s[p..q];
    }
  }

  /** Removing nothing leaves the text unchanged. */
  lemma KeepNothing(s: string)
    ensures OrderedFrom([], 0, |s|) && Keep(s, [], 0) == s
  {
  }
}
