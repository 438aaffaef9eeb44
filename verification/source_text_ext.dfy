/** `SourceTextExt`: dropping a blank first or last line of a text. A line is
    blank when its content (the text without the line break) is empty. */
module SourceTextExt {
  import opened Text

  /** The text starts with a line break, so its first line is blank. */
  predicate StartsWithBreak(s: string) {
    s != [] && IsBreakChar(s[0])
  }

  /** The text ends with a line break, so its last line is blank. */
  predicate EndsWithBreak(s: string) {
    s != [] && IsBreakChar(s[|s| - 1])
  }

  /** `WithoutInitialBlankLine`: when the first line is empty, the text after
      that line's break; otherwise the text itself. The result is the text with
      its leading line break, if it has one, cut off. */
  function WithoutInitialBlankLine(s: string): (r: string)
    ensures |r| <= |s| && r == s[|s| - |r|..]
    ensures |r| < |s| <==> StartsWithBreak(s)
    ensures |r| < |s| ==> |s| - |r| == BreakLength(s, 0)
  {
    LinesValid(s);
    var first := Lines(s)[0];
    if first.start == first.end then s[first.endIncludingLineBreak..] else s
  }

  /** The length of the line break that ends `s`: 2 for "\r\n", otherwise 1. */
  function FinalBreakLength(s: string): nat
    requires EndsWithBreak(s)
  {
    if |s| >= 2 && s[|s| - 2] == '\r' && s[|s| - 1] == '\n' then 2 else 1
  }

  /** `WithoutFinalBlankLine`: when there are two lines or more and the last is
      empty, the text up to the end of the second-to-last line's content;
      otherwise the text itself. The result is the text with its trailing line
      break, if it has one, cut off. */
  function WithoutFinalBlankLine(s: string): (r: string)
    ensures |r| <= |s| && r == s[..|r|]
    ensures |Lines(s)| < 2 ==> r == s
    ensures |r| < |s| <==> EndsWithBreak(s)
    ensures |r| < |s| ==> |s| - |r| == FinalBreakLength(s)
  {
    LinesValid(s);
    var ls := Lines(s);
    var n := |ls|;
    if n >= 2 && ls[n - 1].start == ls[n - 1].end then
      FinalBreakOfLines(s);
      s[..ls[n - 2].end]
    else
      assert EndsWithBreak(s) ==> IsBreakChar(s[|s| - 1]);
      s
  }

  /** When the last line is empty, the break after the second-to-last line is
      the whole line break that ends the text. */
  lemma FinalBreakOfLines(s: string)
    requires |Lines(s)| >= 2 && Lines(s)[|Lines(s)| - 1].start == Lines(s)[|Lines(s)| - 1].end
    ensures EndsWithBreak(s)
    ensures Lines(s)[|Lines(s)| - 2].end + FinalBreakLength(s) == |s|
  {
    LinesValid(s);
    var ls := Lines(s);
    var n := |ls|;
    assert BrokenAfter(s, ls, n - 2);
    var e := ls[n - 2].end;
    if BreakLength(s, e) == 1 && s[e] == '\n' && e > 0 {
      if ls[n - 2].start < e {
        assert !IsBreakChar(s[e - 1]);
      } else {
        assert n - 2 > 0;
        assert BrokenAfter(s, ls, n - 3);
        var f := ls[n - 3].end;
        assert f + BreakLength(s, f) == e;
        assert s[e - 1] != '\r';
      }
    }
  }

  /** A line break put in front of a text is what `WithoutInitialBlankLine` removes. */
  lemma InitialBlankLineRemoved(s: string)
    ensures WithoutInitialBlankLine("\n" + s) == s
    ensures WithoutInitialBlankLine("\r\n" + s) == s
  {
    assert ("\n" + s)[1..] == s;
    assert ("\r\n" + s)[2..] == s;
  }

  /** A line break put after a text is what `WithoutFinalBlankLine` removes,
      unless a lone '\n' would join a trailing '\r' into one "\r\n" break. */
  lemma FinalBlankLineRemoved(s: string)
    ensures WithoutFinalBlankLine(s + "\r\n") == s
    ensures s == [] || s[|s| - 1] != '\r' ==> WithoutFinalBlankLine(s + "\n") == s
  {
    var t := s + "\r\n";
    assert EndsWithBreak(t) && FinalBreakLength(t) == 2;
    assert t[..|s|] == s;
    if s == [] || s[|s| - 1] != '\r' {
      var u := s + "\n";
      assert EndsWithBreak(u) && FinalBreakLength(u) == 1;
      assert u[..|s|] == s;
    }
  }
}
