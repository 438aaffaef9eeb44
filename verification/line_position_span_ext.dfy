/** Extension methods on `LinePositionSpan`. */
module LinePositionSpanExt {
  import opened Wrappers
  import opened Text

  /** `LinePosition.AddLineDelta`: the position `delta` lines further down, at the
      same character. A `LinePosition` cannot have a negative line, so a delta
      that moves above the first line has no result. */
  function AddLineDeltaToPosition(p: LinePosition, delta: int): (r: Option<LinePosition>)
    ensures r.Some? <==> p.line + delta >= 0
    ensures r.Some? ==> r.value.line == p.line + delta && r.value.character == p.character
  {
    if p.line + delta < 0 then None else Some(LinePosition(p.line + delta, p.character))
  }

  /** `AddLineDelta`: both ends of the span moved `delta` lines down. */
  function AddLineDelta(span: LinePositionSpan, delta: int): (r: Option<LinePositionSpan>)
    ensures r.Some? <==> span.start.line + delta >= 0 && span.end.line + delta >= 0
    ensures r.Some? ==> r.value.start.line == span.start.line + delta && r.value.end.line == span.end.line + delta
    ensures r.Some? ==> r.value.start.character == span.start.character && r.value.end.character == span.end.character
  {
    var start :- AddLineDeltaToPosition(span.start, delta);
    var end :- AddLineDeltaToPosition(span.end, delta);
    Some(LinePositionSpan(start, end))
  }

  /** Moving by zero lines is the identity. */
  lemma AddLineDeltaZero(span: LinePositionSpan)
    ensures AddLineDelta(span, 0) == Some(span)
  {
  }

  /** Moving by `d1` and then by `d2` is moving by `d1 + d2`. */
  lemma AddLineDeltaCompose(span: LinePositionSpan, d1: int, d2: int)
    requires AddLineDelta(span, d1).Some?
    ensures AddLineDelta(AddLineDelta(span, d1).value, d2) == AddLineDelta(span, d1 + d2)
  {
  }

  /** `ExistsIn`: both ends of the span resolve to an index of `text`;
      `tryGetIndex` stands for `LinePosition.TryGetIndex`. */
  function ExistsIn(span: LinePositionSpan, text: string, tryGetIndex: (LinePosition, string) -> Option<nat>): bool
  {
    && tryGetIndex(span.start, text).Some?
    && tryGetIndex(span.end, text).Some?
  }

  /** An index resolver over the text's line table: a position resolves when its
      line exists and its character lies within that line's content or at its end. */
  function IndexInLines(p: LinePosition, text: string): (r: Option<nat>)
    ensures r.Some? ==> r.value <= |text|
    ensures r.Some? <==> p.line < |Lines(text)| && Lines(text)[p.line].start + p.character <= Lines(text)[p.line].end
  {
    LinesValid(text);
    if p.line < |Lines(text)| && Lines(text)[p.line].start + p.character <= Lines(text)[p.line].end
    then Some(GetPosition(text, p))
    else None
  }

  /** A position lies on a line of `text`: its line exists and its character
      is within that line's content or at its end. */
  predicate OnTextLine(text: string, p: LinePosition) {
    p.line < |Lines(text)| && Lines(text)[p.line].start + p.character <= Lines(text)[p.line].end
  }

  /** With the line-table resolver, a span exists in the text exactly when both
      of its ends lie on lines of the text; its ends then convert to indices of
      the text that convert back to the same positions. */
  lemma ExistsInLines(span: LinePositionSpan, text: string)
    ensures ExistsIn(span, text, IndexInLines) <==> OnTextLine(text, span.start) && OnTextLine(text, span.end)
    ensures ExistsIn(span, text, IndexInLines) ==>
      && GetPosition(text, span.start) <= |text| && GetPosition(text, span.end) <= |text|
      && GetLinePosition(text, GetPosition(text, span.start)) == span.start
      && GetLinePosition(text, GetPosition(text, span.end)) == span.end
  {
    if ExistsIn(span, text, IndexInLines) {
      LineIndexOfWithin(text, span.start.line, GetPosition(text, span.start));
      LineIndexOfWithin(text, span.end.line, GetPosition(text, span.end));
    }
  }
}
