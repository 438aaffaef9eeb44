/** `CodeReader`: the file name and namespace a test source is given, and the
    positions of the `↓` marks that indicate expected diagnostics. */
module CodeReader {
  import opened Wrappers
  import opened Strings
  import opened Text

  /** The mark that indicates the position of an expected diagnostic. */
  const Mark: char := '\U{2193}'

  /** The regular-expression searches the file name and namespace rely on,
      left uninterpreted: the type name (with its type arguments) of the first
      type declaration, the name after the first `namespace`, and the name in
      an `[assembly: AssemblyTitle("...")]` attribute, each `None` without a
      match. */
  datatype Matchers = Matchers(
    typeName: string -> Option<string>,
    namespaceName: string -> Option<string>,
    assemblyTitle: string -> Option<string>)

  /** `FileName`: "Test.cs" for empty code, "AssemblyInfo.cs" when no type is
      declared, otherwise the declared type's name with ".cs" appended. */
  function FileName(m: Matchers, code: string): (r: string)
    ensures |r| >= 3 && r[|r| - 3..] == ".cs"
    ensures code == [] ==> r == "Test.cs"
    ensures code != [] && m.typeName(code).None? ==> r == "AssemblyInfo.cs"
    ensures code != [] && m.typeName(code).Some? ==> r[..|r| - 3] == m.typeName(code).value
  {
    if code == [] then "Test.cs"
    else match m.typeName(code)
      case None => "AssemblyInfo.cs"
      case Some(name) => name + ".cs"
  }

  /** `Namespace`: the declared namespace, else the assembly title, else
      "Unknown". */
  function Namespace(m: Matchers, code: string): (r: string)
    ensures m.namespaceName(code).Some? ==> r == m.namespaceName(code).value
    ensures m.namespaceName(code).None? && m.assemblyTitle(code).Some? ==> r == m.assemblyTitle(code).value
    ensures m.namespaceName(code).None? && m.assemblyTitle(code).None? ==> r == "Unknown"
  {
    match m.namespaceName(code)
    case Some(name) => name
    case None =>
      match m.assemblyTitle(code)
      case Some(title) => title
      case None => "Unknown"
  }

  // ------------------------------------------------ mark positions

  /** The characters on the current line of `s` that are not marks: those
      after the last '\n'. */
  function Column(s: string): nat {
    if s == [] then 0
    else if s[|s| - 1] == '\n' then 0
    else if s[|s| - 1] == Mark then Column(s[..|s| - 1])
    else Column(s[..|s| - 1]) + 1
  }

  /** The 1-based position reached after reading `s`: one line per '\n' passed,
      one character per non-mark character since the last '\n'. */
  function Current(s: string): LinePosition {
    LinePosition(1 + Count('\n', s), 1 + Column(s))
  }

  /** The position of every mark in `s`, in text order: the position reached
      just before it. */
  function MarkPositions(s: string): (r: seq<LinePosition>)
    ensures |r| == Count(Mark, s)
  {
    if s == [] then []
    else
      var init := s[..|s| - 1];
      MarkPositions(init) + (if s[|s| - 1] == Mark then [Current(init)] else [])
  }

  /** `FindDiagnosticsPositions`: one pass over the code with a line and a
      character counter; '\n' moves to the next line and resets the character
      to 1, a mark yields the current position without advancing, any other
      character (including '\r') advances the character. */
  method FindDiagnosticsPositions(code: string) returns (positions: seq<LinePosition>)
    ensures positions == MarkPositions(code)
  {
    var line := 1;
    var character := 1;
    positions := [];
    var i := 0;
    while i < |code|
      invariant i <= |code|
      invariant line == 1 + Count('\n', code[..i])
      invariant character == 1 + Column(code[..i])
      invariant positions == MarkPositions(code[..i])
    {
      var c := code[i];
      assert code[..i + 1][..i] == code[..i];
      if c == '\n' {
        line := line + 1;
        character := 1;
      } else if c == Mark {
        positions := positions + [LinePosition(line, character)];
      } else {
        character := character + 1;
      }
      i := i + 1;
    }
    assert code[..|code|] == code;
  }

  /** Position order: by line, then by character. */
  predicate Before(p: LinePosition, q: LinePosition) {
    p.line < q.line || (p.line == q.line && p.character <= q.character)
  }

  predicate NonDecreasing(ps: seq<LinePosition>) {
    forall i, j :: 0 <= i < j < |ps| ==> Before(ps[i], ps[j])
  }

  /** Reading one more character never moves the position backwards. */
  lemma CurrentAdvances(s: string)
    requires s != []
    ensures Before(Current(s[..|s| - 1]), Current(s))
  {
  }

  /** Every mark seen so far is at or before the position reached. */
  lemma {:induction false} MarksBeforeCurrent(s: string)
    ensures forall k :: 0 <= k < |MarkPositions(s)| ==> Before(MarkPositions(s)[k], Current(s))
  {
    if s != [] {
      var init := s[..|s| - 1];
      MarksBeforeCurrent(init);
      CurrentAdvances(s);
    }
  }

  /** The yielded positions are non-decreasing in (line, character) order. */
  lemma {:induction false} MarkPositionsNonDecreasing(s: string)
    ensures NonDecreasing(MarkPositions(s))
  {
    if s != [] {
      var init := s[..|s| - 1];
      MarkPositionsNonDecreasing(init);
      MarksBeforeCurrent(init);
    }
  }

  /** Marks do not count, so the position reached in the code is the position
      reached in the code with every mark removed: each mark's position is a
      position of the cleaned text. */
  lemma {:induction false} CurrentOfCleaned(s: string)
    ensures Current(Remove(Mark, s)) == Current(s)
  {
    CountRemove(Mark, '\n', s);
    ColumnOfCleaned(s);
  }

  lemma {:induction false} ColumnOfCleaned(s: string)
    ensures Column(Remove(Mark, s)) == Column(s)
  {
    if s != [] {
      var init := s[..|s| - 1];
      ColumnOfCleaned(init);
      var r := Remove(Mark, s);
      if s[|s| - 1] != Mark {
        assert r == Remove(Mark, init) + [s[|s| - 1]];
        assert r[..|r| - 1] == Remove(Mark, init) && r[|r| - 1] == s[|s| - 1];
      } else {
        assert r == Remove(Mark, init);
      }
    }
  }

  /** Two adjacent marks share one position. */
  lemma AdjacentMarksShare(s: string)
    ensures MarkPositions(s + [Mark, Mark]) == MarkPositions(s) + [Current(s), Current(s)]
  {
    var u := s + [Mark];
    assert u + [Mark] == s + [Mark, Mark];
    calc {
      MarkPositions(u + [Mark]);
      { MarkAdded(u); }
      MarkPositions(u) + [Current(u)];
      { MarkAdded(s); }
      MarkPositions(s) + [Current(s)] + [Current(s)];
    }
  }

  /** A mark yields the current position and does not move it. */
  lemma MarkAdded(s: string)
    ensures MarkPositions(s + [Mark]) == MarkPositions(s) + [Current(s)]
    ensures Current(s + [Mark]) == Current(s)
  {
    var u := s + [Mark];
    assert u[..|s|] == s;
  }
}
