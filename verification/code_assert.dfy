/** `CodeAssert.AreEqual`: comparing two code texts while ignoring every
    carriage return, so that "\r\n" and "\n" line endings compare equal. */
module CodeAssert {
  import opened Wrappers
  import opened Strings

  /** The two forms of the `AssertException` the comparison throws. Both carry
      the optional message header; the file name and the texts echoed in the
      message are not modelled. */
  datatype CodeMismatch =
    | MismatchOnLine(header: Option<string>, line: nat, expectedLine: string, actualLine: string, caret: nat)
    | MismatchAtEnd(header: Option<string>)

  /** The text the comparison effectively sees: every '\r' deleted. */
  function Filtered(s: string): string {
    Remove('\r', s)
  }

  /** Piece `n` of the text split at '\n', with '\r' trimmed from both ends:
      how the message shows the offending line. */
  function LineOf(s: string, n: nat): string
    requires n <= Count('\n', s)
  {
    TrimChar('\r', Split(s, '\n')[n])
  }

  /** Counting line feeds is blind to deleted carriage returns. */
  lemma LineFeedsOfFiltered(s: string)
    ensures Count('\n', Filtered(s)) == Count('\n', s)
  {
    CountRemove('\r', '\n', s);
  }

  /** The outcome of comparing `expected` with `actual`, stated on the filtered
      texts: they pass when equal; when they differ at some index, the mismatch
      is on the line holding that index, with the caret where the two offending
      lines first differ; when one is a proper prefix of the other, the
      mismatch is at the end of the file. */
  function Comparison(expected: string, actual: string, header: Option<string>): Outcome<CodeMismatch> {
    var f := Filtered(expected);
    var g := Filtered(actual);
    var n := CommonPrefixLength(f, g);
    if n < |f| && n < |g| then
      LineFeedsOfFiltered(expected);
      LineFeedsOfFiltered(actual);
      CountPrefix('\n', f, n);
      CountPrefix('\n', g, n);
      Fail(LineMismatch(header, Count('\n', f[..n]), expected, actual))
    else if f == g then Pass
    else Fail(MismatchAtEnd(header))
  }

  /** The mismatch reported on the line after `k` line feeds: its number is
      `k + 1`, and it carries both texts' versions of that line and the caret. */
  function LineMismatch(header: Option<string>, k: nat, expected: string, actual: string): CodeMismatch
    requires k <= Count('\n', expected) && k <= Count('\n', actual)
  {
    var expectedLine := LineOf(expected, k);
    var actualLine := LineOf(actual, k);
    CodeMismatch.MismatchOnLine(header, k + 1, expectedLine, actualLine, CommonPrefixLength(expectedLine, actualLine))
  }

  /** One character more of `s`: filtering keeps it unless it is '\r', and
      the line feeds grow by one exactly when it is '\n'. */
  lemma FilteredSnoc(s: string, i: nat)
    requires i < |s|
    ensures Filtered(s[..i + 1]) == Filtered(s[..i]) + (if s[i] == '\r' then [] else [s[i]])
    ensures Count('\n', s[..i + 1]) == Count('\n', s[..i]) + (if s[i] == '\n' then 1 else 0)
  {
    assert s[..i + 1][..i] == s[..i];
  }

  /** Filtering around one kept character: the filtered text is the filtered
      part before it, the character, and the filtered part after it. */
  lemma FilteredAround(s: string, pos: nat)
    requires pos < |s| && s[pos] != '\r'
    ensures Filtered(s) == Filtered(s[..pos]) + [s[pos]] + Filtered(s[pos + 1..])
  {
    assert s == s[..pos] + ([s[pos]] + s[pos + 1..]);
    RemoveAppend('\r', s[..pos], [s[pos]] + s[pos + 1..]);
    RemoveAppend('\r', [s[pos]], s[pos + 1..]);
    assert Remove('\r', [s[pos]]) == [s[pos]];
  }

  /** The first unequal characters after equal filtered prefixes decide the
      common prefix of the filtered texts. */
  lemma DifferAt(e: string, a: string, pos: nat, otherPos: nat)
    requires pos < |e| && otherPos < |a|
    requires Filtered(e[..pos]) == Filtered(a[..otherPos])
    requires e[pos] != '\r' && a[otherPos] != '\r' && e[pos] != a[otherPos]
    ensures var n := |Filtered(e[..pos])|;
      && n < |Filtered(e)| && n < |Filtered(a)|
      && CommonPrefixLength(Filtered(e), Filtered(a)) == n
      && Filtered(e)[..n] == Filtered(e[..pos])
  {
    var p := Filtered(e[..pos]);
    FilteredAround(e, pos);
    FilteredAround(a, otherPos);
    DifferAfter(p, e[pos], a[otherPos], Filtered(e[pos + 1..]), Filtered(a[otherPos + 1..]));
  }

  lemma DifferAfter(p: string, x: char, y: char, u: string, v: string)
    requires x != y
    ensures CommonPrefixLength(p + [x] + u, p + [y] + v) == |p|
    ensures (p + [x] + u)[..|p|] == p
  {
    var f := p + [x] + u;
    var g := p + [y] + v;
    assert f[..|p|] == p && g[..|p|] == p;
    assert f[|p|] == x && g[|p|] == y;
    CommonPrefixIs(f, g, |p|);
  }

  /** When `s` still holds a character that is not '\r' at `pos`, its filtered
      text properly extends the filtered prefix before `pos`. */
  lemma LongerWhenLeft(s: string, pos: nat)
    requires pos < |s| && s[pos] != '\r'
    ensures var p := Filtered(s[..pos]);
      |p| < |Filtered(s)| && Filtered(s)[..|p|] == p
  {
    FilteredAround(s, pos);
    var p := Filtered(s[..pos]);
    assert (p + [s[pos]] + Filtered(s[pos + 1..]))[..|p|] == p;
  }

  /** The message of a mismatch found inside both texts is the one the
      reference comparison reports. */
  lemma MismatchIsComparison(e: string, a: string, pos: nat, otherPos: nat, header: Option<string>)
    requires pos < |e| && otherPos < |a|
    requires Filtered(e[..pos]) == Filtered(a[..otherPos])
    requires e[pos] != '\r' && a[otherPos] != '\r' && e[pos] != a[otherPos]
    ensures Count('\n', e[..pos]) <= Count('\n', e) && Count('\n', e[..pos]) <= Count('\n', a)
    ensures Comparison(e, a, header) == Fail(LineMismatch(header, Count('\n', e[..pos]), e, a))
  {
    DifferAt(e, a, pos, otherPos);
    var f := Filtered(e);
    var g := Filtered(a);
    var p := Filtered(e[..pos]);
    var n := CommonPrefixLength(f, g);
    assert n == |p| && f[..n] == p;
    LineFeedsOfFiltered(e[..pos]);
    var k := Count('\n', e[..pos]);
    assert Count('\n', f[..n]) == k;
    LineFeedsOfFiltered(a[..otherPos]);
    CountPrefix('\n', e, pos);
    CountPrefix('\n', a, otherPos);
    assert n < |f| && n < |g|;
  }

  /** When at least one text is used up and the other holds no further
      character, or a character that is not '\r', the reference comparison
      passes exactly when both are used up, and otherwise fails at the end. */
  lemma EndIsComparison(e: string, a: string, pos: nat, otherPos: nat, header: Option<string>)
    requires pos <= |e| && otherPos <= |a|
    requires pos == |e| || otherPos == |a|
    requires Filtered(e[..pos]) == Filtered(a[..otherPos])
    requires pos < |e| ==> e[pos] != '\r'
    requires otherPos < |a| ==> a[otherPos] != '\r'
    ensures Comparison(e, a, header) == if pos == |e| && otherPos == |a| then Pass else Fail(MismatchAtEnd(header))
  {
    var f := Filtered(e);
    var g := Filtered(a);
    if pos == |e| && otherPos == |a| {
      assert e[..pos] == e && a[..otherPos] == a;
      CommonPrefixIs(f, g, |f|);
    } else if pos < |e| {
      assert a[..otherPos] == a;
      LongerWhenLeft(e, pos);
      CommonPrefixIs(f, g, |g|);
    } else {
      assert e[..pos] == e;
      LongerWhenLeft(a, otherPos);
      CommonPrefixIs(f, g, |f|);
    }
  }

  /** The caret loop: the first index where two lines differ, or the shorter
      length when one is a prefix of the other. */
  method Caret(expectedLine: string, actualLine: string) returns (diffPos: nat)
    ensures diffPos == CommonPrefixLength(expectedLine, actualLine)
  {
    var shorter := if |expectedLine| < |actualLine| then |expectedLine| else |actualLine|;
    diffPos := shorter;
    var i := 0;
    while i < shorter
      invariant i <= shorter
      invariant expectedLine[..i] == actualLine[..i]
    {
      if expectedLine[i] != actualLine[i] {
        diffPos := i;
        break;
      }
      assert expectedLine[..i + 1] == expectedLine[..i] + [expectedLine[i]];
      assert actualLine[..i + 1] == actualLine[..i] + [actualLine[i]];
      i := i + 1;
    }
    CommonPrefixIs(expectedLine, actualLine, diffPos);
  }

  /** The message of a mismatch on the 1-based `line`: the line of each text,
      '\r' trimmed, and the caret under their first difference. */
  method ReportMismatch(header: Option<string>, line: nat, expected: string, actual: string) returns (m: CodeMismatch)
    requires 1 <= line
    requires line - 1 <= Count('\n', expected) && line - 1 <= Count('\n', actual)
    ensures m == LineMismatch(header, line - 1, expected, actual)
  {
    var expectedLine := LineOf(expected, line - 1);
    var actualLine := LineOf(actual, line - 1);
    var diffPos := Caret(expectedLine, actualLine);
    m := CodeMismatch.MismatchOnLine(header, line, expectedLine, actualLine, diffPos);
  }

  /** The main loop of `AreEqual`: two positions advance together over the
      texts, each skipping '\r' on its own, and `line` counts the line feeds
      passed. It stops at the first unequal pair (`differs`) or when one text
      is used up. */
  method Walk(expected: string, actual: string) returns (pos: nat, otherPos: nat, line: nat, differs: bool)
    ensures pos <= |expected| && otherPos <= |actual|
    ensures Filtered(expected[..pos]) == Filtered(actual[..otherPos])
    ensures line == 1 + Count('\n', expected[..pos])
    ensures differs ==> (pos < |expected| && otherPos < |actual|
      && expected[pos] != '\r' && actual[otherPos] != '\r' && expected[pos] != actual[otherPos])
    ensures !differs ==> pos == |expected| || otherPos == |actual|
  {
    pos, otherPos, line := 0, 0, 1;
    while pos < |expected| && otherPos < |actual|
      invariant pos <= |expected| && otherPos <= |actual|
      invariant Filtered(expected[..pos]) == Filtered(actual[..otherPos])
      invariant line == 1 + Count('\n', expected[..pos])
      decreases |expected| - pos + |actual| - otherPos
    {
      if expected[pos] == '\r' {
        FilteredSnoc(expected, pos);
        pos := pos + 1;
        continue;
      }
      if actual[otherPos] == '\r' {
        FilteredSnoc(actual, otherPos);
        otherPos := otherPos + 1;
        continue;
      }
      if expected[pos] != actual[otherPos] {
        return pos, otherPos, line, true;
      }
      FilteredSnoc(expected, pos);
      FilteredSnoc(actual, otherPos);
      if expected[pos] == '\n' {
        line := line + 1;
      }
      pos := pos + 1;
      otherPos := otherPos + 1;
    }
    differs := false;
  }

  /** `AreEqual`: the main loop, the mismatch message when it stopped at an
      unequal pair, and otherwise the skipping of trailing '\r' after which
      both texts must be used up. */
  method AreEqual(expected: string, actual: string, header: Option<string>) returns (r: Outcome<CodeMismatch>)
    ensures r == Comparison(expected, actual, header)
  {
    var pos, otherPos, line, differs := Walk(expected, actual);
    if differs {
      MismatchIsComparison(expected, actual, pos, otherPos, header);
      var mismatch := ReportMismatch(header, line, expected, actual);
      return Fail(mismatch);
    }
    while pos < |expected| && expected[pos] == '\r'
      invariant pos <= |expected|
      invariant Filtered(expected[..pos]) == Filtered(actual[..otherPos])
      invariant pos == |expected| || otherPos == |actual|
    {
      FilteredSnoc(expected, pos);
      pos := pos + 1;
    }
    while otherPos < |actual| && actual[otherPos] == '\r'
      invariant otherPos <= |actual|
      invariant Filtered(expected[..pos]) == Filtered(actual[..otherPos])
      invariant pos == |expected| || otherPos == |actual|
      invariant pos < |expected| ==> expected[pos] != '\r'
    {
      FilteredSnoc(actual, otherPos);
      otherPos := otherPos + 1;
    }
    EndIsComparison(expected, actual, pos, otherPos, header);
    if pos == |expected| && otherPos == |actual| {
      return Pass;
    }
    return Fail(MismatchAtEnd(header));
  }

  // ---------------------------------------------------------- properties

  /** The comparison passes exactly when the texts agree once every '\r' is
      deleted. */
  lemma ComparisonPasses(expected: string, actual: string, header: Option<string>)
    ensures Comparison(expected, actual, header).Pass? <==> Filtered(expected) == Filtered(actual)
  {
    if Filtered(expected) == Filtered(actual) {
      CommonPrefixIs(Filtered(expected), Filtered(actual), |Filtered(expected)|);
    }
  }

  /** Every text equals itself. */
  lemma ComparisonReflexive(code: string, header: Option<string>)
    ensures Comparison(code, code, header) == Pass
  {
    ComparisonPasses(code, code, header);
  }

  /** Which pairs pass does not depend on which text is the expected one. */
  lemma ComparisonSymmetric(expected: string, actual: string, header: Option<string>)
    ensures Comparison(expected, actual, header).Pass? <==> Comparison(actual, expected, header).Pass?
  {
    ComparisonPasses(expected, actual, header);
    ComparisonPasses(actual, expected, header);
  }

  /** A '\r' inserted anywhere, not only before a '\n', changes nothing about
      whether the comparison passes. */
  lemma CarriageReturnAnywhere(expected: string, actual: string, i: nat, header: Option<string>)
    requires i <= |expected|
    ensures Comparison(expected[..i] + "\r" + expected[i..], actual, header).Pass?
      <==> Comparison(expected, actual, header).Pass?
  {
    FilteredInsert(expected, i);
    ComparisonPasses(expected[..i] + "\r" + expected[i..], actual, header);
    ComparisonPasses(expected, actual, header);
  }

  lemma FilteredInsert(s: string, i: nat)
    requires i <= |s|
    ensures Filtered(s[..i] + "\r" + s[i..]) == Filtered(s)
  {
    RemoveInsert('\r', s[..i], s[i..]);
    assert s[..i] + s[i..] == s;
  }
}
