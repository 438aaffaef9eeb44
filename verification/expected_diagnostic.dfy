/** `ExpectedDiagnostic`: a diagnostic a test expects, by id, optional message
    and position, built from explicit coordinates or from code with `↓` marks,
    and matched against a reported diagnostic. */
module ExpectedDiagnostics {
  import opened Wrappers
  import opened Strings
  import opened Text
  import opened CodeReader

  /** `FileLinePositionSpan`: an optional path (null when not known) and the
      start and end line positions. */
  datatype FileLinePositionSpan = FileLinePositionSpan(path: Option<string>, start: LinePosition, end: LinePosition)

  datatype ExpectedDiagnostic = ExpectedDiagnostic(id: string, message: Option<string>, span: FileLinePositionSpan)

  /** What a reported diagnostic offers for matching: its id, its message, and
      its mapped line span. */
  datatype ActualDiagnostic = ActualDiagnostic(id: string, message: string, path: string, span: LinePositionSpan)

  /** The exceptions of construction: `ArgumentNullException` for a null id,
      `ArgumentOutOfRangeException` from `LinePosition` for a negative line or
      character, and the two `ArgumentException`s about the number of marks. */
  datatype CreateError = IdIsNull | NegativePosition | NoPositionIndicated | ManyPositionsIndicated(count: nat)

  /** The constructor: every id except null is accepted and stored unchanged,
      together with the message and span. */
  function New(id: Option<string>, message: Option<string>, span: FileLinePositionSpan): (r: Result<ExpectedDiagnostic, CreateError>)
    ensures r.Failure? <==> id.None?
    ensures r.Failure? ==> r.error == IdIsNull
    ensures r.Success? ==> r.value.id == id.value && r.value.message == message && r.value.span == span
  {
    match id
    case None => Failure(IdIsNull)
    case Some(i) => Success(ExpectedDiagnostic(i, message, span))
  }

  /** A zero-length span at one position. */
  predicate IsPointAt(span: FileLinePositionSpan, p: LinePosition) {
    span.start == p && span.end == p
  }

  /** `Create(id, message, line, character)`: a zero-length span at the given
      position with no path; the position is checked before the id. */
  function CreateAt(id: Option<string>, message: Option<string>, line: int, character: int): (r: Result<ExpectedDiagnostic, CreateError>)
    ensures line < 0 || character < 0 ==> r == Failure(NegativePosition)
    ensures line >= 0 && character >= 0 && id.None? ==> r == Failure(IdIsNull)
    ensures r.Success? ==> (r.value.id == id.value && r.value.message == message
      && r.value.span.path.None? && IsPointAt(r.value.span, LinePosition(line, character)))
  {
    if line < 0 || character < 0 then Failure(NegativePosition)
    else
      var position := LinePosition(line, character);
      New(id, message, FileLinePositionSpan(None, position, position))
  }

  /** `Create(id, line, character)`: the same without an expected message. */
  function CreateAtWithoutMessage(id: Option<string>, line: int, character: int): (r: Result<ExpectedDiagnostic, CreateError>)
    ensures r.Success? ==> r.value.message.None?
    ensures r.Success? <==> id.Some? && line >= 0 && character >= 0
  {
    CreateAt(id, None, line, character)
  }

  /** `Create(id, message, code, out cleanedSources)`: the code must hold
      exactly one mark; the expectation is a zero-length span at the mark's
      position in the file `FileName(code)`, and the cleaned code is the code
      with every mark removed. The mark count is checked before the id. */
  function CreateFromCode(m: Matchers, id: Option<string>, message: Option<string>, code: string): (r: Result<(ExpectedDiagnostic, string), CreateError>)
    ensures r == Failure(NoPositionIndicated) <==> Mark !in code
    ensures r.Failure? && r.error.ManyPositionsIndicated? ==> r.error.count == Count(Mark, code) > 1
    ensures Count(Mark, code) > 1 ==> r == Failure(ManyPositionsIndicated(Count(Mark, code)))
    ensures Count(Mark, code) == 1 && id.None? ==> r == Failure(IdIsNull)
    ensures r.Success? <==> Count(Mark, code) == 1 && id.Some?
    ensures r.Success? ==> var (e, cleaned) := r.value;
      && cleaned == Remove(Mark, code)
      && e.id == id.value && e.message == message
      && e.span.path == Some(FileName(m, code))
      && IsPointAt(e.span, MarkPositions(code)[0])
  {
    var positions := MarkPositions(code);
    CountZero(Mark, code);
    if |positions| == 0 then Failure(NoPositionIndicated)
    else if |positions| > 1 then Failure(ManyPositionsIndicated(|positions|))
    else
      var position := positions[0];
      var e :- New(id, message, FileLinePositionSpan(Some(FileName(m, code)), position, position));
      Success((e, Remove(Mark, code)))
  }

  /** `Create(id, code, out cleanedSources)`: the same without an expected
      message. */
  function CreateFromCodeWithoutMessage(m: Matchers, id: Option<string>, code: string): (r: Result<(ExpectedDiagnostic, string), CreateError>)
    ensures r.Success? ==> r.value.0.message.None? && r.value.1 == Remove(Mark, code)
    ensures r.Success? <==> id.Some? && Count(Mark, code) == 1
  {
    CreateFromCode(m, id, None, code)
  }

  /** One expectation per position, all sharing id, message and path. */
  function PointsAt(id: string, message: Option<string>, path: Option<string>, positions: seq<LinePosition>): (r: seq<ExpectedDiagnostic>)
    ensures |r| == |positions|
    ensures forall k :: 0 <= k < |r| ==>
      r[k].id == id && r[k].message == message && r[k].span.path == path && IsPointAt(r[k].span, positions[k])
  {
    if positions == [] then []
    else
      var p := positions[0];
      [ExpectedDiagnostic(id, message, FileLinePositionSpan(path, p, p))] + PointsAt(id, message, path, positions[1..])
  }

  /** `CreateMany`: at least one mark is required; the result holds one
      zero-length expectation per mark, in text order, all in the file
      `FileName(code)`. */
  function CreateMany(m: Matchers, id: Option<string>, message: Option<string>, code: string): (r: Result<(seq<ExpectedDiagnostic>, string), CreateError>)
    ensures r == Failure(NoPositionIndicated) <==> Mark !in code
    ensures Mark in code && id.None? ==> r == Failure(IdIsNull)
    ensures r.Success? <==> Mark in code && id.Some?
    ensures r.Success? ==> var (es, cleaned) := r.value;
      && cleaned == Remove(Mark, code)
      && |es| == Count(Mark, code)
      && forall k :: 0 <= k < |es| ==>
        && es[k].id == id.value && es[k].message == message
        && es[k].span.path == Some(FileName(m, code))
        && IsPointAt(es[k].span, MarkPositions(code)[k])
  {
    var positions := MarkPositions(code);
    CountZero(Mark, code);
    if |positions| == 0 then Failure(NoPositionIndicated)
    else match id
      case None => Failure(IdIsNull)
      case Some(i) => Success((PointsAt(i, message, Some(FileName(m, code)), positions), Remove(Mark, code)))
  }

  /** `Matches`: the ids must be equal; so must the messages when one is
      expected, the start positions, the paths when one is expected, and the
      end positions when the expected span is not empty. */
  function Matches(e: ExpectedDiagnostic, actual: ActualDiagnostic): bool {
    if e.id != actual.id then false
    else if e.message.Some? && e.message.value != actual.message then false
    else if e.span.start != actual.span.start then false
    else if e.span.path.Some? && e.span.path.value != actual.path then false
    else if e.span.start != e.span.end then e.span.end == actual.span.end
    else true
  }

  /** Each of the five checks of `Matches` is necessary, and together they are
      sufficient: the reference form of the early returns of `Matches`, as one
      conjunction in which each check stands on its own. */
  lemma MatchesIff(e: ExpectedDiagnostic, actual: ActualDiagnostic)
    ensures Matches(e, actual) <==>
      && e.id == actual.id
      && (e.message.Some? ==> e.message.value == actual.message)
      && e.span.start == actual.span.start
      && (e.span.path.Some? ==> e.span.path.value == actual.path)
      && (e.span.start != e.span.end ==> e.span.end == actual.span.end)
  {
  }

  /** An expectation created at a position without a message matches exactly
      the diagnostics with that id that start there, wherever they end and
      whatever their path and message. */
  lemma CreatedAtMatches(id: string, line: nat, character: nat, actual: ActualDiagnostic)
    ensures CreateAtWithoutMessage(Some(id), line, character).Success?
    ensures Matches(CreateAtWithoutMessage(Some(id), line, character).value, actual)
      <==> actual.id == id && actual.span.start == LinePosition(line, character)
  {
  }

  /** An expectation created from marked code matches exactly the diagnostics
      with that id, that message if one is given, reported in the code's file
      and starting at the mark's position. */
  lemma CreatedFromCodeMatches(m: Matchers, id: string, message: Option<string>, code: string, actual: ActualDiagnostic)
    requires CreateFromCode(m, Some(id), message, code).Success?
    ensures var e := CreateFromCode(m, Some(id), message, code).value.0;
      Matches(e, actual) <==>
        && actual.id == id
        && (message.Some? ==> message.value == actual.message)
        && actual.path == FileName(m, code)
        && actual.span.start == MarkPositions(code)[0]
  {
  }

  /** The position of a single mark refers to the cleaned code: it is the
      position reached in the cleaned code where the mark was. */
  lemma MarkPositionInCleaned(s: string, t: string)
    requires Mark !in s && Mark !in t
    ensures MarkPositions(s + [Mark] + t) == [Current(s)]
    ensures Remove(Mark, s + [Mark] + t) == s + t
  {
    SingleMarkPosition(s, t);
    SingleMarkRemoved(s, t);
  }

  lemma SingleMarkPosition(s: string, t: string)
    requires Mark !in s && Mark !in t
    ensures MarkPositions(s + [Mark] + t) == [Current(s)]
  {
    MarkPositionsSplit(s + [Mark], t);
    NoMarksNoPositions(s);
    assert (s + [Mark])[..|s|] == s;
  }

  lemma SingleMarkRemoved(s: string, t: string)
    requires Mark !in s && Mark !in t
    ensures Remove(Mark, s + [Mark] + t) == s + t
  {
    RemoveInsert(Mark, s, t);
    assert Mark !in s + t;
    RemoveOfAbsent(Mark, s + t);
  }

  lemma {:induction false} NoMarksNoPositions(s: string)
    requires Mark !in s
    ensures MarkPositions(s) == []
  {
    if s != [] {
      assert s[|s| - 1] != Mark;
      assert forall c :: c in s[..|s| - 1] ==> c in s;
      NoMarksNoPositions(s[..|s| - 1]);
    }
  }

  /** The marks of `s + t` are those of `s` followed by those of `t`, when `t`
      holds none. */
  lemma {:induction false} MarkPositionsSplit(s: string, t: string)
    requires Mark !in t
    ensures MarkPositions(s + t) == MarkPositions(s)
    decreases |t|
  {
    if t == [] {
      assert s + t == s;
    } else {
      var u := s + t;
      assert u[..|u| - 1] == s + t[..|t| - 1];
      assert u[|u| - 1] == t[|t| - 1];
      assert forall c :: c in t[..|t| - 1] ==> c in t;
      MarkPositionsSplit(s, t[..|t| - 1]);
    }
  }
}
