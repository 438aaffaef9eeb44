/** Reading diagnostic assertions written as comments into code:

      // ❌ ID message
      // ↓↓↓
      code the diagnostic is expected on

    The syntax tree is an input: a document is its text plus every trivia of
    the tree in document order, each with its kind, its span and the token
    trivia list it belongs to. */
module AssertionSyntaxFacts {
  import opened Wrappers
  import opened Strings
  import opened Text
  import opened Diagnostics
  import opened SyntaxAssertions
  import LinePositionSpanExt

  const ErrorEmoji: char := '\U{274C}'
  const WarningEmoji: char := '\U{26A0}'
  const InfoEmoji: char := '\U{2139}'
  const Mark: char := '\U{2193}'

  // ------------------------------------------------------------- the input

  datatype TriviaKind = SingleLineComment | MultiLineComment | OtherTrivia

  /** A trivia of the syntax tree; trivia with the same `list` belong to the same
      leading or trailing trivia list of one token. */
  datatype Trivia = Trivia(kind: TriviaKind, span: TextSpan, list: nat)

  /** A parsed text: the text and all trivia of its syntax tree in document order. */
  datatype Document = Document(text: string, trivia: seq<Trivia>)

  predicate WithinText(s: string, ts: seq<Trivia>) {
    forall t :: t in ts ==> t.span.End() <= |s|
  }

  /** What the parser guarantees about its trivia: every span lies in the text. */
  predicate ValidDocument(d: Document) {
    WithinText(d.text, d.trivia)
  }

  /** The exceptions `ParseSyntaxAssertions` can throw. */
  datatype ParseError =
    | CommentTooShort             // a comment's delimiters do not fit in its span
    | MarkPastEndOfNextLine(line: nat)
    | NegativeSpanStart           // a shifted location would start before the text
    | InvalidChanges(error: ChangeError)

  // -------------------------------------------------- severity and annotation

  /** `TryParseSeverityEmoji`: exactly three characters name a severity. */
  function TryParseSeverityEmoji(c: char): (r: Option<Severity>)
    ensures r == Some(Error) <==> c == ErrorEmoji
    ensures r == Some(Warning) <==> c == WarningEmoji
    ensures r == Some(Info) <==> c == InfoEmoji
    ensures r != Some(Hidden)
  {
    if c == ErrorEmoji then Some(Error)
    else if c == WarningEmoji then Some(Warning)
    else if c == InfoEmoji then Some(Info)
    else None
  }

  /** The character that writes a severity in an annotation; hidden has none. */
  function SeverityEmoji(severity: Severity): Option<char> {
    match severity
    case Error => Some(ErrorEmoji)
    case Warning => Some(WarningEmoji)
    case Info => Some(InfoEmoji)
    case Hidden => None
  }

  /** Reading an emoji back gives the severity it was written for, and only
      severities that have an emoji can be read. */
  lemma SeverityEmojiRoundTrip(severity: Severity, c: char)
    ensures TryParseSeverityEmoji(c) == Some(severity) <==> SeverityEmoji(severity) == Some(c)
  {
  }

  /** The parts of an annotation line `❌ ID message`. */
  datatype Annotation = Annotation(severity: Severity, id: string, message: string)

  /** The text before the first space and the text after it. */
  datatype IdSplit = IdSplit(id: string, rest: string)

  function SplitAtSpace(text: string): (r: Option<IdSplit>)
    ensures r.Some? <==> ' ' in text
    ensures r.Some? ==> text == r.value.id + " " + r.value.rest && ' ' !in r.value.id
  {
    match IndexOf(text, ' ')
    case None => None
    case Some(i) =>
      assert text == text[..i] + " " + text[i + 1..];
      Some(IdSplit(text[..i], text[i + 1..]))
  }

  /** `TryParsePreviousCommentLineText`: a severity emoji, optional white space,
      the id up to the first space, and the trimmed rest as the message. */
  function TryParsePreviousCommentLineText(text: string): (r: Option<Annotation>)
    ensures r.Some? <==> text != [] && TryParseSeverityEmoji(text[0]).Some? && ' ' in TrimStart(text[1..])
    ensures r.Some? ==> r.value.severity == TryParseSeverityEmoji(text[0]).value
    ensures r.Some? ==> ' ' !in r.value.id && IsTrimmed(r.value.message)
    ensures r.Some? ==> exists rest :: TrimStart(text[1..]) == r.value.id + " " + rest && r.value.message == Trim(rest)
  {
    if text == [] then None
    else
      var severity := TryParseSeverityEmoji(text[0]);
      var split := SplitAtSpace(TrimStart(text[1..]));
      if severity.None? || split.None? then None
      else Some(Annotation(severity.value, split.value.id, Trim(split.value.rest)))
  }

  /** An annotation that can be written as one comment line and read back. */
  predicate Writable(a: Annotation) {
    && a.severity != Hidden
    && a.id != []
    && !IsWhiteSpace(a.id[0])
    && ' ' !in a.id
    && IsTrimmed(a.message)
  }

  /** The comment line `❌ ID message` for an annotation. */
  function FormatAnnotation(a: Annotation): string
    requires a.severity != Hidden
  {
    [SeverityEmoji(a.severity).value] + " " + a.id + " " + a.message
  }

  /** The first space of `id + " " + rest` is the one after `id`. */
  lemma SplitAtSpaceOf(id: string, rest: string)
    requires ' ' !in id
    ensures SplitAtSpace(id + " " + rest) == Some(IdSplit(id, rest))
  {
    var text := id + " " + rest;
    assert text[..|id|] == id;
    assert text[|id|] == ' ';
    var i := IndexOf(text, ' ').value;
    assert i <= |id| by {
      assert ' ' !in text[..i];
      assert forall j :: 0 <= j < i ==> text[j] != ' ' by {
        forall j | 0 <= j < i ensures text[j] != ' ' {
          assert text[j] == text[..i][j];
        }
      }
    }
    assert i >= |id| by {
      assert text[i] == ' ';
      assert forall j :: 0 <= j < |id| ==> text[j] != ' ' by {
        forall j | 0 <= j < |id| ensures text[j] != ' ' {
          assert text[j] == id[j];
        }
      }
    }
    assert text[i + 1..] == rest;
  }

  /** Reading a written annotation gives it back. */
  lemma ParseFormatted(a: Annotation)
    requires Writable(a)
    ensures TryParsePreviousCommentLineText(FormatAnnotation(a)) == Some(a)
  {
    var text := FormatAnnotation(a);
    var body := a.id + " " + a.message;
    assert text[0] == SeverityEmoji(a.severity).value;
    assert TryParseSeverityEmoji(text[0]) == Some(a.severity);
    assert text[1..] == " " + body;
    assert body[0] == a.id[0];
    TrimStartSkipsWhiteSpace(" ", body);
    assert TrimStart(text[1..]) == body;
    SplitAtSpaceOf(a.id, a.message);
    TrimOfTrimmed(a.message);
  }

  // ---------------------------------------------------------- comment content

  /** `GetCommentContentSpan`: the text between the delimiters of a comment;
      `FromBounds` throws when a comment is too short to hold them. */
  function GetCommentContentSpan(t: Trivia): (r: Result<Option<TextSpan>, ParseError>)
    ensures t.kind == OtherTrivia ==> r == Success(None)
    ensures t.kind == SingleLineComment ==> (r.Success? <==> 2 <= t.span.length)
    ensures t.kind == MultiLineComment ==> (r.Success? <==> 4 <= t.span.length)
    ensures r.Success? && t.kind == SingleLineComment ==>
      r.value.Some? && r.value.value.start == t.span.start + 2 && r.value.value.End() == t.span.End()
    ensures r.Success? && t.kind == MultiLineComment ==>
      r.value.Some? && r.value.value.start == t.span.start + 2 && r.value.value.End() + 2 == t.span.End()
  {
    match t.kind
    case MultiLineComment =>
      if t.span.length < 4 then Failure(CommentTooShort)
      else Success(Some(FromBounds(t.span.start + 2, t.span.End() - 2)))
    case SingleLineComment =>
      if t.span.length < 2 then Failure(CommentTooShort)
      else Success(Some(FromBounds(t.span.start + 2, t.span.End())))
    case OtherTrivia => Success(None)
  }

  /** The content of `// c` is `c`. */
  lemma SingleLineContent(s: string, t: Trivia, c: string)
    requires t.kind == SingleLineComment && t.span.End() <= |s|
    requires Slice(s, t.span) == "//" + c
    ensures GetCommentContentSpan(t).Success? && GetCommentContentSpan(t).value.Some?
    ensures Slice(s, GetCommentContentSpan(t).value.value) == c
  {
    var whole := Slice(s, t.span);
    assert whole[2..] == c;
    SliceOfSlice(s, t.span.start, t.span.End(), 2, t.span.length);
  }

  /** The content of `/* c */` is `c`. */
  lemma MultiLineContent(s: string, t: Trivia, c: string)
    requires t.kind == MultiLineComment && t.span.End() <= |s|
    requires Slice(s, t.span) == "/*" + c + "*/"
    ensures GetCommentContentSpan(t).Success? && GetCommentContentSpan(t).value.Some?
    ensures Slice(s, GetCommentContentSpan(t).value.value) == c
  {
    var whole := Slice(s, t.span);
    assert whole[2..|whole| - 2] == c;
    SliceOfSlice(s, t.span.start, t.span.End(), 2, t.span.length - 2);
  }

  // ---------------------------------------------------------- trivia lists

  /** The trivia of `ts` in list `list`, in order. */
  function SameList(ts: seq<Trivia>, list: nat): (r: seq<Trivia>)
    ensures forall x :: x in r <==> x in ts && x.list == list
    ensures |r| <= |ts|
  {
    if ts == [] then []
    else (if ts[0].list == list then [ts[0]] else []) + SameList(ts[1..], list)
  }

  /** `GetParentTriviaList`: the trivia list that holds `t`. */
  function GetParentTriviaList(d: Document, t: Trivia): (r: seq<Trivia>)
    requires ValidDocument(d)
    ensures WithinText(d.text, r)
    ensures t in d.trivia ==> t in r
    ensures forall x :: x in r ==> x.list == t.list
  {
    SameList(d.trivia, t.list)
  }

  /** The trivia of `ts` that share a position with `span`, in order. */
  function Overlapping(ts: seq<Trivia>, span: TextSpan): (r: seq<Trivia>)
    ensures forall x :: x in r <==> x in ts && OverlapsWith(x.span, span)
  {
    if ts == [] then []
    else (if OverlapsWith(ts[0].span, span) then [ts[0]] else []) + Overlapping(ts[1..], span)
  }

  /** `GetSingleCommentContentSpan`: when exactly one trivia of the list touches
      `span`, the part of its comment content that lies in `span`. */
  function GetSingleCommentContentSpan(list: seq<Trivia>, span: TextSpan): (r: Result<Option<TextSpan>, ParseError>)
    ensures |Overlapping(list, span)| != 1 ==> r == Success(None)
    ensures |Overlapping(list, span)| == 1 ==>
      (r.Success? <==> GetCommentContentSpan(Overlapping(list, span)[0]).Success?)
    ensures r.Success? && r.value.Some? ==>
      && |Overlapping(list, span)| == 1
      && var content := GetCommentContentSpan(Overlapping(list, span)[0]).value;
      && content.Some?
      && OverlapsWith(content.value, span)
      && r.value.value.start == Max(content.value.start, span.start)
      && r.value.value.End() == Min(content.value.End(), span.End())
    ensures r.Success? && r.value.Some? ==>
      span.start <= r.value.value.start && r.value.value.End() <= span.End() && !r.value.value.IsEmpty()
  {
    var touching := Overlapping(list, span);
    if |touching| != 1 then Success(None)
    else
      var content :- GetCommentContentSpan(touching[0]);
      if content.None? then Success(None) else Success(Overlap(content.value, span))
  }

  // ------------------------------------------------------- the walk upwards

  /** The comment content on line `k`: the content of the single comment of
      `list` on that line, or `None` when the line is not such a comment line. */
  function CommentLine(s: string, list: seq<Trivia>, k: nat): (r: Result<Option<string>, ParseError>)
    requires k < |Lines(s)|
  {
    var span := LineSpan(s, k);
    var content :- GetSingleCommentContentSpan(list, span);
    if content.None? then Success(None) else Success(Some(Slice(s, content.value)))
  }

  /** The reader of the comment lines of `list` in `s`. */
  function LineReader(s: string, list: seq<Trivia>): nat --> Result<Option<string>, ParseError> {
    (k: nat) requires k < |Lines(s)| => CommentLine(s, list, k)
  }

  /** The reader answers for every line of the text. */
  lemma ReaderDefined(s: string, list: seq<Trivia>, hi: nat)
    requires hi <= |Lines(s)|
    ensures forall j: nat :: j < hi ==> LineReader(s, list).requires(j)
  {
  }

  /** The comment lines found walking up from line `k - 1` while `read` finds a
      comment: their trimmed non-empty texts from top to bottom, and the topmost
      comment line (`k` when there is none). */
  datatype CommentBlock = CommentBlock(lines: seq<string>, top: nat)

  function WalkUp(read: nat --> Result<Option<string>, ParseError>, k: nat): (r: Result<CommentBlock, ParseError>)
    requires forall j: nat :: j < k ==> read.requires(j)
    ensures r.Success? ==> r.value.top <= k && |r.value.lines| <= k - r.value.top
    ensures r.Success? ==> forall i :: 0 <= i < |r.value.lines| ==> r.value.lines[i] != [] && IsTrimmed(r.value.lines[i])
    decreases k
  {
    if k == 0 then Success(CommentBlock([], 0))
    else
      var line :- read(k - 1);
      match line
      case None => Success(CommentBlock([], k))
      case Some(content) =>
        var above :- WalkUp(read, k - 1);
        var text := Trim(content);
        Success(CommentBlock(above.lines + (if text == [] then [] else [text]), above.top))
  }

  /** The walk stops at the first line above `k` that `read` does not take as a
      comment line: `read` finds a comment on every line from `top` to `k - 1`,
      and none on line `top - 1`. */
  lemma {:induction false} WalkUpStops(read: nat --> Result<Option<string>, ParseError>, k: nat)
    requires forall j: nat :: j < k ==> read.requires(j)
    requires WalkUp(read, k).Success?
    ensures var top := WalkUp(read, k).value.top;
      && (forall j: nat :: top <= j < k ==> read(j).Success? && read(j).value.Some?)
      && (0 < top ==> read(top - 1) == Success(None))
    decreases k
  {
    if k > 0 {
      assert read(k - 1).Success?;
      if read(k - 1).value.Some? {
        assert WalkUp(read, k).value.top == WalkUp(read, k - 1).value.top;
        WalkUpStops(read, k - 1);
      } else {
        assert WalkUp(read, k).value.top == k;
      }
    }
  }

  /** What one line adds to the comment texts: the trimmed comment, unless
      the line holds no comment or the comment is blank. */
  function Piece(line: Result<Option<string>, ParseError>): seq<string> {
    match line
    case Success(Some(c)) => if Trim(c) == [] then [] else [Trim(c)]
    case _ => []
  }

  /** The trimmed, non-empty comment texts that `read` finds on lines
      `lo..hi - 1`, from top to bottom; a line without a comment adds nothing. */
  function CommentTexts(read: nat --> Result<Option<string>, ParseError>, lo: nat, hi: nat): seq<string>
    requires lo <= hi && forall j: nat :: j < hi ==> read.requires(j)
    decreases hi - lo
  {
    if lo == hi then [] else CommentTexts(read, lo, hi - 1) + Piece(read(hi - 1))
  }

  /** The lines the walk collects are exactly the trimmed, non-empty comment
      texts of the lines from its topmost line down to line `k - 1`, in order. */
  lemma {:induction false} WalkUpLines(read: nat --> Result<Option<string>, ParseError>, k: nat)
    requires forall j: nat :: j < k ==> read.requires(j)
    requires WalkUp(read, k).Success?
    ensures WalkUp(read, k).value.lines == CommentTexts(read, WalkUp(read, k).value.top, k)
    decreases k
  {
    if k > 0 && read(k - 1).value.Some? {
      var below := k - 1;
      var above := WalkUp(read, below).value;
      WalkUpLines(read, below);
      assert WalkUp(read, k).value == CommentBlock(above.lines + Piece(read(below)), above.top);
    }
  }

  /** Reading line `j` fails, and every line from `j + 1` to `k - 1` reads as a
      comment line: the walk up from `k` reaches `j` and fails there. */
  predicate FailsAt(read: nat --> Result<Option<string>, ParseError>, k: nat, j: nat)
    requires forall i: nat :: i < k ==> read.requires(i)
  {
    && j < k && read(j).Failure?
    && forall i: nat :: j < i < k ==> read(i).Success? && read(i).value.Some?
  }

  /** The walk fails exactly when it reaches a line whose reading fails. */
  lemma {:induction false} WalkUpFails(read: nat --> Result<Option<string>, ParseError>, k: nat)
    requires forall j: nat :: j < k ==> read.requires(j)
    ensures WalkUp(read, k).Failure? <==> exists j: nat :: FailsAt(read, k, j)
    decreases k
  {
    if k > 0 {
      match read(k - 1)
      case Failure(_) =>
        assert FailsAt(read, k, k - 1);
      case Success(None) =>
        forall j: nat | j < k
          ensures !FailsAt(read, k, j)
        {
          if j < k - 1 {
            assert !(read(k - 1).Success? && read(k - 1).value.Some?);
          }
        }
      case Success(Some(_)) =>
        var below := k - 1;
        WalkUpFails(read, below);
        if j: nat :| FailsAt(read, below, j) {
          assert FailsAt(read, k, j);
        }
        if j: nat :| FailsAt(read, k, j) {
          assert FailsAt(read, below, j);
        }
    }
  }

  /** The walk upwards from line `k` through the comment lines of `list`. */
  function CommentLinesAbove(s: string, list: seq<Trivia>, k: nat): Result<CommentBlock, ParseError>
    requires k < |Lines(s)|
  {
    WalkUp(LineReader(s, list), k)
  }

  /** The annotation text above a mark line and the line it starts on. */
  datatype PreviousText = PreviousText(text: string, startingLine: nat)

  /** Where the walk up from line `m` stops: every line from its topmost line
      to `m - 1` holds a single comment, and the line above does not. */
  lemma {:induction false} CommentLinesAboveStop(s: string, list: seq<Trivia>, m: nat)
    requires m < |Lines(s)| && CommentLinesAbove(s, list, m).Success?
    ensures var top := CommentLinesAbove(s, list, m).value.top;
      && top <= m
      && (forall j: nat :: top <= j < m ==> CommentLine(s, list, j).Success? && CommentLine(s, list, j).value.Some?)
      && (0 < top ==> CommentLine(s, list, top - 1) == Success(None))
  {
    var read := LineReader(s, list);
    WalkUpStops(read, m);
    var top := CommentLinesAbove(s, list, m).value.top;
    forall j: nat | top <= j < m
      ensures CommentLine(s, list, j).Success? && CommentLine(s, list, j).value.Some?
    {
      assert read(j) == CommentLine(s, list, j);
    }
    if 0 < top {
      assert read(top - 1) == CommentLine(s, list, top - 1);
    }
  }

  /** `GetPreviousCommentLineText`: the non-empty comment lines directly above
      line `m`, joined with single spaces from top to bottom; absent when there
      are none. It fails when reading a comment line on the way up fails. */
  function GetPreviousCommentLineText(s: string, m: nat, list: seq<Trivia>): (r: Result<Option<PreviousText>, ParseError>)
    requires m < |Lines(s)|
    ensures r.Success? <==> CommentLinesAbove(s, list, m).Success?
    ensures r.Failure? <==> exists j: nat :: FailsAt(LineReader(s, list), m, j)
    ensures r.Success? ==>
      && var top := CommentLinesAbove(s, list, m).value.top;
      && top <= m
      && (forall j: nat :: top <= j < m ==> CommentLine(s, list, j).Success? && CommentLine(s, list, j).value.Some?)
      && (0 < top ==> CommentLine(s, list, top - 1) == Success(None))
      && (r.value.None? <==> CommentTexts(LineReader(s, list), top, m) == [])
      && (r.value.Some? ==>
           top < m && r.value.value == PreviousText(Join(" ", CommentTexts(LineReader(s, list), top, m)), top))
  {
    WalkUpFails(LineReader(s, list), m);
    var block :- CommentLinesAbove(s, list, m);
    CommentLinesAboveStop(s, list, m);
    WalkUpLines(LineReader(s, list), m);
    if block.lines == [] then Success(None)
    else Success(Some(PreviousText(Join(" ", block.lines), block.top)))
  }

  // ------------------------------------------------------------ mark runs

  /** Where the run of marks starting at `i` ends. */
  function RunEnd(s: string, i: nat, limit: nat): (e: nat)
    requires i <= limit <= |s|
    ensures i <= e <= limit
    ensures forall p :: i <= p < e ==> s[p] == Mark
    ensures e < limit ==> s[e] != Mark
    decreases limit - i
  {
    if i < limit && s[i] == Mark then RunEnd(s, i + 1, limit) else i
  }

  /** Every run of `↓` in `s[i..limit]` spans only marks and cannot be extended. */
  predicate IsMarkRun(s: string, i: nat, limit: nat, run: TextSpan)
    requires limit <= |s|
  {
    && i <= run.start && run.End() <= limit && !run.IsEmpty()
    && (forall p :: run.start <= p < run.End() ==> s[p] == Mark)
    && (run.start == i || s[run.start - 1] != Mark)
    && (run.End() == limit || s[run.End()] != Mark)
  }

  /** The maximal runs of `↓` in `s[i..limit]`, left to right. */
  function MarkRuns(s: string, i: nat, limit: nat): (r: seq<TextSpan>)
    requires i <= limit <= |s|
    ensures forall k :: 0 <= k < |r| ==> IsMarkRun(s, i, limit, r[k])
    ensures forall k, j :: 0 <= k < j < |r| ==> r[k].End() < r[j].start
    decreases limit - i, 1
  {
    if i == limit then []
    else if s[i] != Mark then MarkRunsFrom(s, i, limit); MarkRuns(s, i + 1, limit)
    else
      var e := RunEnd(s, i, limit);
      MarkRunsAfter(s, e, limit);
      [FromBounds(i, e)] + MarkRuns(s, e, limit)
  }

  /** Runs found from `i + 1` are runs from `i` when `s[i]` is not a mark. */
  lemma MarkRunsFrom(s: string, i: nat, limit: nat)
    requires i < limit <= |s| && s[i] != Mark
    ensures var rest := MarkRuns(s, i + 1, limit); forall k :: 0 <= k < |rest| ==> IsMarkRun(s, i, limit, rest[k])
    decreases limit - i, 0
  {
  }

  /** Runs found after the end `e` of a run start beyond `e`. */
  lemma MarkRunsAfter(s: string, e: nat, limit: nat)
    requires 0 < e <= limit <= |s| && s[e - 1] == Mark
    requires e < limit ==> s[e] != Mark
    ensures forall k :: 0 <= k < |MarkRuns(s, e, limit)| ==>
      IsMarkRun(s, e - 1, limit, MarkRuns(s, e, limit)[k]) && e < MarkRuns(s, e, limit)[k].start
    decreases limit - e + 1, 0
  {
    var rest := MarkRuns(s, e, limit);
    forall k | 0 <= k < |rest|
      ensures IsMarkRun(s, e - 1, limit, rest[k]) && e < rest[k].start
    {
      assert IsMarkRun(s, e, limit, rest[k]);
    }
  }

  /** Every mark of `s[i..limit]` lies in one of the runs. */
  lemma {:induction false} MarkRunsCover(s: string, i: nat, limit: nat, p: nat)
    requires i <= p < limit <= |s| && s[p] == Mark
    ensures exists k :: 0 <= k < |MarkRuns(s, i, limit)| && MarkRuns(s, i, limit)[k].start <= p < MarkRuns(s, i, limit)[k].End()
    decreases limit - i
  {
    var r := MarkRuns(s, i, limit);
    if s[i] != Mark {
      MarkRunsCover(s, i + 1, limit, p);
    } else {
      var e := RunEnd(s, i, limit);
      if p < e {
        assert r[0].start <= p < r[0].End();
      } else {
        MarkRunsCover(s, e, limit, p);
        var rest := MarkRuns(s, e, limit);
        var k :| 0 <= k < |rest| && rest[k].start <= p < rest[k].End();
        assert r[k + 1] == rest[k];
      }
    }
  }

  /** There are no runs exactly when there are no marks. */
  lemma MarkRunsEmpty(s: string, i: nat, limit: nat)
    requires i <= limit <= |s|
    ensures MarkRuns(s, i, limit) == [] <==> forall p :: i <= p < limit ==> s[p] != Mark
  {
    if exists p :: i <= p < limit && s[p] == Mark {
      var p :| i <= p < limit && s[p] == Mark;
      MarkRunsCover(s, i, limit, p);
    } else if MarkRuns(s, i, limit) != [] {
      var run := MarkRuns(s, i, limit)[0];
      assert IsMarkRun(s, i, limit, run);
      assert s[run.start] == Mark;
    }
  }

  /** `GetLastLineOfSpan`: the part of `content` on the line where it ends. */
  datatype LastLine = LastLine(span: TextSpan, line: nat)

  function GetLastLineOfSpan(s: string, content: TextSpan): (r: LastLine)
    requires content.End() <= |s|
    ensures r.line < |Lines(s)| && r.line == LineIndexOf(s, content.End())
    ensures r.span.End() == content.End()
    ensures content.start <= r.span.start && Lines(s)[r.line].start <= r.span.start
    ensures r.span.start == content.start || r.span.start == Lines(s)[r.line].start
  {
    var line := LineIndexOf(s, content.End());
    LastLine(FromBounds(Max(Lines(s)[line].start, content.start), content.End()), line)
  }

  /** The characters between a line's content and the next line are its break. */
  lemma InLineBreak(s: string, k: nat, p: nat)
    requires k < |Lines(s)|
    requires Lines(s)[k].end <= p < Lines(s)[k].endIncludingLineBreak
    ensures p < |s| && IsBreakChar(s[p])
  {
    LinesValid(s);
    var ls := Lines(s);
    if k < |ls| - 1 {
      assert BrokenAfter(s, ls, k);
    }
  }

  /** A mark line: the mark runs on the last content line of a comment, and that line. */
  datatype MarkLine = MarkLine(spans: seq<TextSpan>, line: nat)

  /** The span lies within the content of line `m`. */
  predicate SpanOnLine(s: string, m: nat, span: TextSpan)
    requires m < |Lines(s)|
  {
    Lines(s)[m].start <= span.start && span.End() <= Lines(s)[m].end
  }

  /** Every span lies within the content of line `m`. */
  predicate OnLine(s: string, m: nat, spans: seq<TextSpan>)
    requires m < |Lines(s)|
  {
    forall k :: 0 <= k < |spans| ==> SpanOnLine(s, m, spans[k])
  }

  /** `GetMarkSpansOnLastLine`: the runs of `↓` in the last line of a comment's
      non-empty content, when there is at least one. */
  function GetMarkSpansOnLastLine(s: string, t: Trivia): (r: Result<Option<MarkLine>, ParseError>)
    requires t.span.End() <= |s|
    ensures r.Success? <==> GetCommentContentSpan(t).Success?
    ensures r.Success? && r.value.Some? ==>
      && var content := GetCommentContentSpan(t).value;
      && content.Some? && !content.value.IsEmpty()
      && var last := GetLastLineOfSpan(s, content.value);
      && r.value.value.line == last.line
      && r.value.value.spans == MarkRuns(s, last.span.start, last.span.End())
      && r.value.value.spans != []
    ensures r.Success? && r.value.Some? ==> r.value.value.line < |Lines(s)| && OnLine(s, r.value.value.line, r.value.value.spans)
  {
    var content :- GetCommentContentSpan(t);
    if content.None? || content.value.IsEmpty() then Success(None)
    else
      var last := GetLastLineOfSpan(s, content.value);
      var spans := MarkRuns(s, last.span.start, last.span.End());
      if spans == [] then Success(None)
      else
        MarksOnLine(s, last, spans);
        Success(Some(MarkLine(spans, last.line)))
  }

  lemma MarksOnLine(s: string, last: LastLine, spans: seq<TextSpan>)
    requires last.line < |Lines(s)| && last.span.End() <= |s|
    requires Lines(s)[last.line].start <= last.span.start
    requires last.span.End() <= |s| && LineIndexOf(s, last.span.End()) == last.line
    requires forall k :: 0 <= k < |spans| ==> IsMarkRun(s, last.span.start, last.span.End(), spans[k])
    ensures OnLine(s, last.line, spans)
  {
    LinesValid(s);
    var line := Lines(s)[last.line];
    forall k | 0 <= k < |spans|
      ensures SpanOnLine(s, last.line, spans[k])
    {
      var p := spans[k].End() - 1;
      assert s[p] == Mark;
      if line.end <= p {
        assert p < line.endIncludingLineBreak;
        InLineBreak(s, last.line, p);
      }
    }
  }

  // ------------------------------------------------------------- projection

  /** The column of position `p` on line `m`. */
  function Column(s: string, m: nat, p: nat): int
    requires m < |Lines(s)|
  {
    p - Lines(s)[m].start
  }

  /** A mark span on line `m` converted to line positions lies on line `m`, at
      the mark's columns. */
  lemma MarkLinePosition(s: string, m: nat, mark: TextSpan)
    requires m < |Lines(s)| && SpanOnLine(s, m, mark)
    ensures mark.End() <= |s|
    ensures GetLinePositionSpan(s, mark).start == LinePosition(m, mark.start - Lines(s)[m].start)
    ensures GetLinePositionSpan(s, mark).end == LinePosition(m, mark.End() - Lines(s)[m].start)
  {
    LinesValid(s);
    LineIndexOfWithin(s, m, mark.start);
    LineIndexOfWithin(s, m, mark.End());
  }

  /** Whether a mark can be placed: it ends within the next line, and its
      shifted start is not before the text. */
  predicate Fits(s: string, m: nat, mark: TextSpan, removed: nat)
    requires m + 1 < |Lines(s)|
  {
    && Lines(s)[m + 1].start + Column(s, m, mark.End()) <= Lines(s)[m + 1].end
    && removed <= Lines(s)[m + 1].start + Column(s, m, mark.start)
  }

  /** The location of one mark: its columns moved to line `m + 1`, shifted left
      by `removed`, the length of all text removed so far. */
  function ProjectMark(s: string, m: nat, mark: TextSpan, removed: nat): (r: Result<TextSpan, ParseError>)
    requires m + 1 < |Lines(s)| && SpanOnLine(s, m, mark)
    ensures r.Success? <==> Fits(s, m, mark, removed)
    ensures r.Success? ==>
      && r.value.length == mark.length
      && r.value.start + removed == Lines(s)[m + 1].start + Column(s, m, mark.start)
    ensures r.Failure? ==> r.error == MarkPastEndOfNextLine(m) || r.error == NegativeSpanStart
  {
    MarkLinePosition(s, m, mark);
    var lineSpan := GetLinePositionSpan(s, mark);
    assert lineSpan.start.line == m && lineSpan.end.line == m;
    var moved := LinePositionSpanExt.AddLineDelta(lineSpan, 1).value;
    var next := GetTextSpan(s, moved);
    if next.End() > Lines(s)[m + 1].end then Failure(MarkPastEndOfNextLine(lineSpan.start.line))
    else if next.start < removed then Failure(NegativeSpanStart)
    else Success(TextSpan(next.start - removed, next.length))
  }

  /** The locations of all marks of a mark line, in order; the first mark that
      cannot be placed decides the error. */
  function ProjectMarks(s: string, m: nat, marks: seq<TextSpan>, removed: nat): (r: Result<seq<TextSpan>, ParseError>)
    requires m + 1 < |Lines(s)| && OnLine(s, m, marks)
    ensures r.Success? <==> forall k :: 0 <= k < |marks| ==> Fits(s, m, marks[k], removed)
    ensures r.Success? ==> |r.value| == |marks|
    ensures r.Success? ==> forall k :: 0 <= k < |marks| ==>
      && r.value[k].length == marks[k].length
      && r.value[k].start + removed == Lines(s)[m + 1].start + Column(s, m, marks[k].start)
    ensures r.Failure? ==> r.error == MarkPastEndOfNextLine(m) || r.error == NegativeSpanStart
  {
    if marks == [] then Success([])
    else
      assert SpanOnLine(s, m, marks[0]);
      var first := ProjectMark(s, m, marks[0], removed);
      if first.Failure? then Failure(first.error)
      else
        var rest := ProjectMarks(s, m, marks[1..], removed);
        if rest.Failure? then Failure(rest.error)
        else
          ProjectMarksCons(s, m, marks, removed, first.value, rest.value);
          Success([first.value] + rest.value)
  }

  lemma ProjectMarksCons(s: string, m: nat, marks: seq<TextSpan>, removed: nat, first: TextSpan, rest: seq<TextSpan>)
    requires m + 1 < |Lines(s)| && marks != []
    requires |rest| == |marks| - 1
    requires first.length == marks[0].length
    requires first.start + removed == Lines(s)[m + 1].start + Column(s, m, marks[0].start)
    requires forall k :: 0 <= k < |rest| ==>
      && rest[k].length == marks[1..][k].length
      && rest[k].start + removed == Lines(s)[m + 1].start + Column(s, m, marks[1..][k].start)
    ensures forall k :: 0 <= k < |marks| ==>
      && ([first] + rest)[k].length == marks[k].length
      && ([first] + rest)[k].start + removed == Lines(s)[m + 1].start + Column(s, m, marks[k].start)
  {
    forall k | 0 < k < |marks|
      ensures ([first] + rest)[k] == rest[k - 1] && marks[k] == marks[1..][k - 1]
    {
    }
  }

  // ------------------------------------------------------------ the fold

  /** A comment block that is turned into an assertion. */
  datatype Block = Block(annotation: Annotation, markLine: nat, startingLine: nat, marks: seq<TextSpan>)

  /** Block `b` is the one trivia `t` ends: `t`'s last content line is line
      `b.markLine`, not the last line of the text, and holds the marks
      `b.marks`; the lines from `b.startingLine` to the mark line's predecessor
      each hold a single comment of `t`'s trivia list and the line above them
      does not; and the annotation is what those comments' trimmed, non-empty
      texts, joined with spaces, read as. */
  predicate IsBlockOf(d: Document, t: Trivia, b: Block)
    requires ValidDocument(d) && t.span.End() <= |d.text|
  {
    var list := GetParentTriviaList(d, t);
    && GetMarkSpansOnLastLine(d.text, t) == Success(Some(MarkLine(b.marks, b.markLine)))
    && b.startingLine < b.markLine && b.markLine + 1 < |Lines(d.text)|
    && (forall j: nat :: b.startingLine <= j < b.markLine ==>
         CommentLine(d.text, list, j).Success? && CommentLine(d.text, list, j).value.Some?)
    && (0 < b.startingLine ==> CommentLine(d.text, list, b.startingLine - 1) == Success(None))
    && (ReaderDefined(d.text, list, b.markLine);
        TryParsePreviousCommentLineText(Join(" ", CommentTexts(LineReader(d.text, list), b.startingLine, b.markLine)))
        == Some(b.annotation))
  }

  /** The mark line of trivia `t` when it is not the last line of the text. */
  predicate HasMarkLine(d: Document, t: Trivia)
    requires t.span.End() <= |d.text|
  {
    var marks := GetMarkSpansOnLastLine(d.text, t);
    marks.Success? && marks.value.Some? && marks.value.value.line + 1 < |Lines(d.text)|
  }

  /** Whether trivia `t` ends an assertion block: its last content line holds
      marks, that line is not the last of the text, and the comment lines above
      it read as an annotation. A comment whose text does not read as an
      annotation is no block. */
  function AcceptedBlock(d: Document, t: Trivia): (r: Result<Option<Block>, ParseError>)
    requires ValidDocument(d) && t.span.End() <= |d.text|
    ensures r.Success? && r.value.Some? ==>
      && var b := r.value.value;
      && b.startingLine < b.markLine && b.markLine + 1 < |Lines(d.text)|
      && b.marks != [] && OnLine(d.text, b.markLine, b.marks)
    ensures GetCommentContentSpan(t).Success? && GetCommentContentSpan(t).value.None? ==> r == Success(None)
    ensures r.Failure? <==>
      || GetMarkSpansOnLastLine(d.text, t).Failure?
      || (HasMarkLine(d, t)
          && GetPreviousCommentLineText(d.text, GetMarkSpansOnLastLine(d.text, t).value.value.line, GetParentTriviaList(d, t)).Failure?)
    ensures r.Success? ==>
      (r.value.Some? <==>
        && HasMarkLine(d, t)
        && var m := GetMarkSpansOnLastLine(d.text, t).value.value.line;
        && var list := GetParentTriviaList(d, t);
        && var top := CommentLinesAbove(d.text, list, m).value.top;
        && TryParsePreviousCommentLineText(Join(" ", CommentTexts(LineReader(d.text, list), top, m))).Some?)
    ensures r.Success? && r.value.Some? ==> IsBlockOf(d, t, r.value.value)
  {
    var markLine :- GetMarkSpansOnLastLine(d.text, t);
    if markLine.None? || markLine.value.line >= |Lines(d.text)| - 1 then Success(None)
    else
      var m := markLine.value.line;
      var previous :- GetPreviousCommentLineText(d.text, m, GetParentTriviaList(d, t));
      if previous.None? then
        assert TryParsePreviousCommentLineText([]).None?;
        Success(None)
      else
        match TryParsePreviousCommentLineText(previous.value.text)
        case None => Success(None)
        case Some(a) => Success(Some(Block(a, m, previous.value.startingLine, markLine.value.spans)))
  }

  /** The text an accepted block removes: from the start of its first annotation
      line through the line break of its mark line. */
  function Removal(s: string, b: Block): (r: TextSpan)
    requires b.startingLine < b.markLine < |Lines(s)|
    ensures r.start == Lines(s)[b.startingLine].start
    ensures r.End() == Lines(s)[b.markLine].endIncludingLineBreak
    ensures r.End() <= |s| && !r.IsEmpty()
  {
    LinesValid(s);
    LinesOrdered(s, b.startingLine + 1, b.markLine);
    assert BrokenAfter(s, Lines(s), b.startingLine);
    FromBounds(Lines(s)[b.startingLine].start, Lines(s)[b.markLine].endIncludingLineBreak)
  }

  /** What the loop has collected: the assertions, the removals in the order they
      were found, and the total length removed (the negated edit offset). */
  datatype ParseState = ParseState(assertions: seq<DiagnosticAssertion>, removals: seq<TextSpan>, removed: nat)

  /** The mark line of a block lies between its first annotation line and
      the last line of the text, and holds its marks. */
  predicate WellPlaced(s: string, b: Block) {
    && b.startingLine < b.markLine && b.markLine + 1 < |Lines(s)|
    && b.marks != [] && OnLine(s, b.markLine, b.marks)
  }

  /** The assertion of an accepted block: its annotation, and its marks
      projected onto the next line and shifted left by `removed`. */
  function BlockAssertion(s: string, b: Block, removed: nat): Result<DiagnosticAssertion, ParseError>
    requires WellPlaced(s, b)
  {
    var locations := ProjectMarks(s, b.markLine, b.marks, removed);
    if locations.Failure? then Failure(locations.error)
    else Success(DiagnosticAssertion(b.annotation.id, b.annotation.message, b.annotation.severity, locations.value))
  }

  /** What `BlockAssertion` builds: the annotation's id, message and severity,
      and one location per mark, with the mark's length, at the mark's column
      on the next line less `removed`; it succeeds exactly when every mark fits
      that line. */
  lemma BlockAssertionIs(s: string, b: Block, removed: nat)
    requires WellPlaced(s, b)
    ensures var r := BlockAssertion(s, b, removed);
      r.Success? <==> forall k :: 0 <= k < |b.marks| ==> Fits(s, b.markLine, b.marks[k], removed)
    ensures var r := BlockAssertion(s, b, removed);
      r.Success? ==>
      && r.value.diagnosticId == b.annotation.id
      && r.value.message == b.annotation.message
      && r.value.severity == b.annotation.severity
      && |r.value.locations| == |b.marks|
    ensures var r := BlockAssertion(s, b, removed);
      r.Success? ==> forall k :: 0 <= k < |b.marks| ==>
      && r.value.locations[k].length == b.marks[k].length
      && r.value.locations[k].start + removed
         == Lines(s)[b.markLine + 1].start + Column(s, b.markLine, b.marks[k].start)
  {
    var locations := ProjectMarks(s, b.markLine, b.marks, removed);
    if locations.Success? {
      assert BlockAssertion(s, b, removed).value.locations == locations.value;
    }
  }

  /** An accepted block added to the state: its removal is recorded, and its
      assertion is computed with everything removed so far, the block's own
      removal included. */
  function AddBlock(s: string, st: ParseState, b: Block): (r: Result<ParseState, ParseError>)
    requires WellPlaced(s, b)
    ensures r.Success? <==> BlockAssertion(s, b, st.removed + Removal(s, b).length).Success?
    ensures r.Success? ==> r.value == ParseState(
      st.assertions + [BlockAssertion(s, b, st.removed + Removal(s, b).length).value],
      st.removals + [Removal(s, b)],
      st.removed + Removal(s, b).length)
  {
    var removal := Removal(s, b);
    var removed := st.removed + removal.length;
    var a := BlockAssertion(s, b, removed);
    if a.Failure? then Failure(a.error)
    else Success(ParseState(st.assertions + [a.value], st.removals + [removal], removed))
  }

  /** One iteration of the loop over the trivia: trivia that ends an
      assertion block adds it, any other trivia changes nothing. */
  function Step(d: Document, st: ParseState, t: Trivia): (r: Result<ParseState, ParseError>)
    requires ValidDocument(d) && t.span.End() <= |d.text|
    ensures r.Success? ==> AcceptedBlock(d, t).Success?
    ensures r.Success? && AcceptedBlock(d, t).value.None? ==> r.value == st
    ensures AcceptedBlock(d, t).Success? && AcceptedBlock(d, t).value.Some? ==>
      WellPlaced(d.text, AcceptedBlock(d, t).value.value) && r == AddBlock(d.text, st, AcceptedBlock(d, t).value.value)
  {
    var block :- AcceptedBlock(d, t);
    if block.None? then Success(st)
    else AddBlock(d.text, st, block.value)
  }

  /** The bookkeeping the loop keeps: one removal per assertion, the removed
      total, and removals inside the text. */
  predicate Tracked(s: string, st: ParseState) {
    && |st.assertions| == |st.removals|
    && st.removed == SumLengths(st.removals)
    && forall k :: 0 <= k < |st.removals| ==> st.removals[k].End() <= |s|
  }

  /** The loop over the trivia `ts`, in document order. */
  function ProcessTrivia(d: Document, ts: seq<Trivia>): (r: Result<ParseState, ParseError>)
    requires ValidDocument(d) && WithinText(d.text, ts)
    ensures r.Success? ==> Tracked(d.text, r.value)
    decreases |ts|
  {
    if ts == [] then Success(ParseState([], [], 0))
    else
      var init := ts[..|ts| - 1];
      var t := ts[|ts| - 1];
      assert WithinText(d.text, init) && t.span.End() <= |d.text| by {
        assert t in ts;
        assert forall x :: x in init ==> x in ts;
      }
      var st :- ProcessTrivia(d, init);
      var r := Step(d, st, t);
      if r.Success? then
        StepTracked(d, st, t);
        r
      else r
  }

  /** One step keeps the bookkeeping. */
  lemma {:induction false} StepTracked(d: Document, st: ParseState, t: Trivia)
    requires ValidDocument(d) && t.span.End() <= |d.text|
    requires Tracked(d.text, st) && Step(d, st, t).Success?
    ensures Tracked(d.text, Step(d, st, t).value)
  {
    if AcceptedBlock(d, t).value.Some? {
      AddBlockTracked(d.text, st, AcceptedBlock(d, t).value.value);
    }
  }

  lemma {:induction false} AddBlockTracked(s: string, st: ParseState, b: Block)
    requires WellPlaced(s, b) && Tracked(s, st) && AddBlock(s, st, b).Success?
    ensures Tracked(s, AddBlock(s, st, b).value)
  {
    SumLengthsAppend(st.removals, Removal(s, b));
  }

  lemma {:induction false} SumLengthsAppend(rs: seq<TextSpan>, x: TextSpan)
    ensures SumLengths(rs + [x]) == SumLengths(rs) + x.length
    decreases |rs|
  {
    if rs == [] {
      assert rs + [x] == [x];
    } else {
      assert (rs + [x])[1..] == rs[1..] + [x];
      SumLengthsAppend(rs[1..], x);
    }
  }

  /** The blocks that the trivia `ts` end, in document order: one for each
      trivia that `AcceptedBlock` accepts. */
  function AcceptedBlocks(d: Document, ts: seq<Trivia>): (r: seq<Block>)
    requires ValidDocument(d) && WithinText(d.text, ts)
    ensures |r| <= |ts|
    ensures AllWellPlaced(d.text, r)
    decreases |ts|
  {
    if ts == [] then []
    else
      var init := ts[..|ts| - 1];
      var t := ts[|ts| - 1];
      assert WithinText(d.text, init) && t.span.End() <= |d.text| by {
        assert t in ts;
        assert forall x :: x in init ==> x in ts;
      }
      var bs := AcceptedBlocks(d, init);
      match AcceptedBlock(d, t)
      case Success(Some(b)) => WellPlacedSnoc(d.text, bs, b); bs + [b]
      case _ => bs
  }

  predicate AllWellPlaced(s: string, bs: seq<Block>) {
    forall i :: 0 <= i < |bs| ==> WellPlaced(s, bs[i])
  }

  lemma WellPlacedSnoc(s: string, bs: seq<Block>, b: Block)
    requires AllWellPlaced(s, bs) && WellPlaced(s, b)
    ensures AllWellPlaced(s, bs + [b])
  {
    assert forall i :: 0 <= i < |bs| ==> (bs + [b])[i] == bs[i];
  }

  /** The removals of the blocks `bs`, in the same order. */
  function Removals(s: string, bs: seq<Block>): (r: seq<TextSpan>)
    requires AllWellPlaced(s, bs)
    ensures |r| == |bs|
    decreases |bs|
  {
    if bs == [] then []
    else
      assert forall i :: 0 <= i < |bs| - 1 ==> bs[..|bs| - 1][i] == bs[i];
      Removals(s, bs[..|bs| - 1]) + [Removal(s, bs[|bs| - 1])]
  }

  /** Removal `i` of the blocks `bs` is block `i`'s. */
  lemma {:induction false} RemovalsAt(s: string, bs: seq<Block>, i: nat)
    requires AllWellPlaced(s, bs) && i < |bs|
    ensures Removals(s, bs)[i] == Removal(s, bs[i])
    decreases |bs|
  {
    var init := bs[..|bs| - 1];
    assert AllWellPlaced(s, init) by {
      assert forall k :: 0 <= k < |init| ==> init[k] == bs[k];
    }
    if i < |bs| - 1 {
      RemovalsAt(s, init, i);
      assert init[i] == bs[i];
    }
  }

  /** The assertion of each block of `bs`, in order, each computed with the
      removals of the blocks up to and including it taken away. */
  function Assertions(s: string, bs: seq<Block>): (r: seq<Result<DiagnosticAssertion, ParseError>>)
    requires AllWellPlaced(s, bs)
    ensures |r| == |bs|
    decreases |bs|
  {
    if bs == [] then []
    else
      assert AllWellPlaced(s, bs[..|bs| - 1]) by {
        assert forall i :: 0 <= i < |bs| - 1 ==> bs[..|bs| - 1][i] == bs[i];
      }
      Assertions(s, bs[..|bs| - 1]) + [BlockAssertion(s, bs[|bs| - 1], SumLengths(Removals(s, bs)))]
  }

  /** Every block's marks fit the line below it. */
  predicate AssertionsFit(s: string, bs: seq<Block>)
    requires AllWellPlaced(s, bs)
  {
    AllSucceed(Assertions(s, bs))
  }

  /** State `st` holds exactly the removals and the assertions of the blocks `bs`. */
  predicate BuiltFrom(s: string, bs: seq<Block>, st: ParseState)
    requires AllWellPlaced(s, bs)
  {
    st.removals == Removals(s, bs) && Assertions(s, bs) == Successes(st.assertions)
  }

  predicate AllSucceed<T, E>(rs: seq<Result<T, E>>) {
    forall i :: 0 <= i < |rs| ==> rs[i].Success?
  }

  function Successes<T, E>(xs: seq<T>): (r: seq<Result<T, E>>)
    ensures |r| == |xs| && forall i :: 0 <= i < |xs| ==> r[i] == Success(xs[i])
  {
    seq(|xs|, i requires 0 <= i < |xs| => Success(xs[i]))
  }

  lemma AllSucceedSnoc<T, E>(rs: seq<Result<T, E>>, y: Result<T, E>)
    ensures AllSucceed(rs + [y]) <==> AllSucceed(rs) && y.Success?
  {
    assert forall i :: 0 <= i < |rs| ==> (rs + [y])[i] == rs[i];
    assert (rs + [y])[|rs|] == y;
  }

  lemma SuccessesSnoc<T, E>(xs: seq<T>, x: T)
    ensures Successes<T, E>(xs + [x]) == Successes<T, E>(xs) + [Success(x)]
  {
  }

  /** Assertion `i` of the blocks `bs` is block `i`'s, computed with the
      removals of blocks `0..i` taken away. */
  lemma {:induction false} AssertionsAt(s: string, bs: seq<Block>, i: nat)
    requires AllWellPlaced(s, bs) && i < |bs|
    ensures Assertions(s, bs)[i] == BlockAssertion(s, bs[i], SumLengths(Removals(s, bs)[..i + 1]))
    decreases |bs|
  {
    var init := bs[..|bs| - 1];
    var last := bs[|bs| - 1];
    assert bs == init + [last];
    assert AllWellPlaced(s, init) by {
      assert forall k :: 0 <= k < |init| ==> init[k] == bs[k];
    }
    assert Removals(s, bs) == Removals(s, init) + [Removal(s, last)];
    if i == |bs| - 1 {
      assert Removals(s, bs)[..i + 1] == Removals(s, bs);
    } else {
      AssertionsAt(s, init, i);
      PrefixSnoc(Removals(s, init), Removal(s, last), i);
      assert init[i] == bs[i];
      assert Assertions(s, bs)[i] == Assertions(s, init)[i];
    }
  }

  /** No trivia of `ts` makes `AcceptedBlock` fail. */
  predicate NoneFails(d: Document, ts: seq<Trivia>)
    requires ValidDocument(d) && WithinText(d.text, ts)
  {
    forall t :: t in ts ==> AcceptedBlock(d, t).Success?
  }

  /** The loop over the trivia in terms of the blocks they end: it succeeds
      exactly when no trivia makes `AcceptedBlock` fail and every block's marks
      fit; it then holds one removal and one assertion per block, in order,
      and assertion `i` is block `i`'s computed with the removals `0..i`
      taken away. */
  lemma {:induction false} ProcessTriviaBlocks(d: Document, ts: seq<Trivia>)
    requires ValidDocument(d) && WithinText(d.text, ts)
    ensures ProcessTrivia(d, ts).Success? <==> NoneFails(d, ts) && AssertionsFit(d.text, AcceptedBlocks(d, ts))
    ensures ProcessTrivia(d, ts).Success? ==>
      BuiltFrom(d.text, AcceptedBlocks(d, ts), ProcessTrivia(d, ts).value)
    decreases |ts|
  {
    if ts != [] {
      var init := ts[..|ts| - 1];
      NoneFailsSnoc(d, ts);
      ProcessTriviaBlocks(d, init);
      var bs := AcceptedBlocks(d, init);
      var a := AcceptedBlock(d, ts[|ts| - 1]);
      LoopStep(d, ts);
      if a.Success? && a.value.Some? {
        BlockStep(d, ts, a.value.value);
      }
    }
  }

  /** The induction step of `ProcessTriviaBlocks` for a last trivia that
      ends block `b`. */
  lemma {:induction false} BlockStep(d: Document, ts: seq<Trivia>, b: Block)
    requires ValidDocument(d) && WithinText(d.text, ts) && ts != []
    requires WithinText(d.text, ts[..|ts| - 1]) && ts[|ts| - 1].span.End() <= |d.text|
    requires AcceptedBlock(d, ts[|ts| - 1]) == Success(Some(b))
    requires AcceptedBlocks(d, ts) == AcceptedBlocks(d, ts[..|ts| - 1]) + [b]
    requires ProcessTrivia(d, ts[..|ts| - 1]).Failure? ==> ProcessTrivia(d, ts).Failure?
    requires ProcessTrivia(d, ts[..|ts| - 1]).Success? ==>
      ProcessTrivia(d, ts) == AddBlock(d.text, ProcessTrivia(d, ts[..|ts| - 1]).value, b)
    requires NoneFails(d, ts) <==> NoneFails(d, ts[..|ts| - 1])
    requires var init := ts[..|ts| - 1];
      && (ProcessTrivia(d, init).Success? <==> NoneFails(d, init) && AssertionsFit(d.text, AcceptedBlocks(d, init)))
      && (ProcessTrivia(d, init).Success? ==> BuiltFrom(d.text, AcceptedBlocks(d, init), ProcessTrivia(d, init).value))
    ensures ProcessTrivia(d, ts).Success? <==> NoneFails(d, ts) && AssertionsFit(d.text, AcceptedBlocks(d, ts))
    ensures ProcessTrivia(d, ts).Success? ==> BuiltFrom(d.text, AcceptedBlocks(d, ts), ProcessTrivia(d, ts).value)
  {
    var init := ts[..|ts| - 1];
    AddedStep(d.text, AcceptedBlocks(d, init), b, ProcessTrivia(d, init), ProcessTrivia(d, ts), NoneFails(d, init), NoneFails(d, ts));
  }

  /** Adding block `b` to the loop's result `before` gives `after`: the loop
      still succeeds exactly when no trivia fails and every block's marks fit,
      and still holds what the blocks `bs + [b]` produce. */
  lemma {:induction false} AddedStep(s: string, bs: seq<Block>, b: Block, before: Result<ParseState, ParseError>,
                                     after: Result<ParseState, ParseError>, noneBefore: bool, noneAfter: bool)
    requires AllWellPlaced(s, bs) && WellPlaced(s, b)
    requires before.Failure? ==> after.Failure?
    requires before.Success? ==> Tracked(s, before.value) && after == AddBlock(s, before.value, b)
    requires noneAfter <==> noneBefore
    requires before.Success? <==> noneBefore && AssertionsFit(s, bs)
    requires before.Success? ==> BuiltFrom(s, bs, before.value)
    ensures AllWellPlaced(s, bs + [b])
    ensures after.Success? <==> noneAfter && AssertionsFit(s, bs + [b])
    ensures after.Success? ==> BuiltFrom(s, bs + [b], after.value)
  {
    RemovalsSnoc(s, bs, b);
    AssertionsSnoc(s, bs, b);
    var y := BlockAssertion(s, b, SumLengths(Removals(s, bs)) + Removal(s, b).length);
    if before.Success? {
      AddBlockFits(s, bs, b, before.value);
    }
    ValueStep(Assertions(s, bs), y, Assertions(s, bs + [b]), Removals(s, bs), Removal(s, b), Removals(s, bs + [b]),
              before, after, noneBefore, noneAfter);
  }

  /** `AddedStep` on the values alone: the assertions `a` of the blocks so
      far grow by `y`, their removals `rs` by `x`. */
  lemma {:induction false} ValueStep(a: seq<Result<DiagnosticAssertion, ParseError>>, y: Result<DiagnosticAssertion, ParseError>,
                                     a': seq<Result<DiagnosticAssertion, ParseError>>,
                                     rs: seq<TextSpan>, x: TextSpan, rs': seq<TextSpan>,
                                     before: Result<ParseState, ParseError>, after: Result<ParseState, ParseError>,
                                     noneBefore: bool, noneAfter: bool)
    requires a' == a + [y] && rs' == rs + [x]
    requires before.Failure? ==> after.Failure?
    requires before.Success? ==>
      && (after.Success? <==> y.Success?)
      && (after.Success? ==>
           after.value.assertions == before.value.assertions + [y.value] && after.value.removals == before.value.removals + [x])
    requires noneAfter <==> noneBefore
    requires before.Success? <==> noneBefore && AllSucceed(a)
    requires before.Success? ==> before.value.removals == rs && a == Successes(before.value.assertions)
    ensures after.Success? <==> noneAfter && AllSucceed(a')
    ensures after.Success? ==> after.value.removals == rs' && a' == Successes(after.value.assertions)
  {
    AllSucceedSnoc(a, y);
    if after.Success? {
      SuccessesSnoc<DiagnosticAssertion, ParseError>(before.value.assertions, y.value);
    }
  }

  /** The last trivia of `ts` in the loop and in the block list. */
  lemma LoopStep(d: Document, ts: seq<Trivia>)
    requires ValidDocument(d) && WithinText(d.text, ts) && ts != []
    ensures WithinText(d.text, ts[..|ts| - 1]) && ts[|ts| - 1].span.End() <= |d.text|
    ensures var init := ts[..|ts| - 1];
      match AcceptedBlock(d, ts[|ts| - 1])
      case Failure(_) => ProcessTrivia(d, ts).Failure?
      case Success(None) =>
        && ProcessTrivia(d, ts) == ProcessTrivia(d, init)
        && AcceptedBlocks(d, ts) == AcceptedBlocks(d, init)
      case Success(Some(b)) =>
        && AcceptedBlocks(d, ts) == AcceptedBlocks(d, init) + [b]
        && (ProcessTrivia(d, init).Failure? ==> ProcessTrivia(d, ts).Failure?)
        && (ProcessTrivia(d, init).Success? ==> ProcessTrivia(d, ts) == AddBlock(d.text, ProcessTrivia(d, init).value, b))
  {
    NoneFailsSnoc(d, ts);
  }

  lemma NoneFailsSnoc(d: Document, ts: seq<Trivia>)
    requires ValidDocument(d) && WithinText(d.text, ts) && ts != []
    ensures WithinText(d.text, ts[..|ts| - 1]) && ts[|ts| - 1].span.End() <= |d.text|
    ensures NoneFails(d, ts) <==> NoneFails(d, ts[..|ts| - 1]) && AcceptedBlock(d, ts[|ts| - 1]).Success?
  {
    var init := ts[..|ts| - 1];
    assert ts == init + [ts[|ts| - 1]];
    assert ts[|ts| - 1] in ts;
    assert forall x :: x in init ==> x in ts;
  }

  lemma {:induction false} RemovalsSnoc(s: string, bs: seq<Block>, b: Block)
    requires AllWellPlaced(s, bs) && WellPlaced(s, b)
    ensures AllWellPlaced(s, bs + [b])
    ensures Removals(s, bs + [b]) == Removals(s, bs) + [Removal(s, b)]
  {
    WellPlacedSnoc(s, bs, b);
    assert (bs + [b])[..|bs|] == bs;
  }

  /** The removals up to block `i < |bs|` do not see a block appended later. */
  lemma PrefixSnoc(rs: seq<TextSpan>, x: TextSpan, i: nat)
    requires i < |rs|
    ensures (rs + [x])[..i + 1] == rs[..i + 1]
  {
  }

  /** Appending a block appends its assertion, computed with everything
      removed so far and its own removal. */
  lemma {:induction false} AssertionsSnoc(s: string, bs: seq<Block>, b: Block)
    requires AllWellPlaced(s, bs) && WellPlaced(s, b)
    ensures AllWellPlaced(s, bs + [b])
    ensures Assertions(s, bs + [b])
         == Assertions(s, bs) + [BlockAssertion(s, b, SumLengths(Removals(s, bs)) + Removal(s, b).length)]
  {
    var bs' := bs + [b];
    RemovalsSnoc(s, bs, b);
    SumLengthsAppend(Removals(s, bs), Removal(s, b));
    assert bs'[..|bs'| - 1] == bs && bs'[|bs'| - 1] == b;
  }

  lemma AddBlockFits(s: string, bs: seq<Block>, b: Block, st: ParseState)
    requires AllWellPlaced(s, bs) && WellPlaced(s, b)
    requires st.removals == Removals(s, bs) && st.removed == SumLengths(st.removals)
    ensures AddBlock(s, st, b).Success? <==> BlockAssertion(s, b, SumLengths(Removals(s, bs)) + Removal(s, b).length).Success?
    ensures AddBlock(s, st, b).Success? ==>
      && AddBlock(s, st, b).value.assertions
         == st.assertions + [BlockAssertion(s, b, SumLengths(Removals(s, bs)) + Removal(s, b).length).value]
      && AddBlock(s, st, b).value.removals == st.removals + [Removal(s, b)]
  {
    assert st.removed + Removal(s, b).length == SumLengths(Removals(s, bs)) + Removal(s, b).length;
  }

  /** `ParseSyntaxAssertions`: the assertions written in the comments, and the
      text with their comment blocks removed. */
  function ParseSyntaxAssertions(d: Document): (r: Result<SourceTextWithAssertions, ParseError>)
    requires ValidDocument(d)
    ensures r.Success? ==> ProcessTrivia(d, d.trivia).Success?
    ensures r.Success? ==>
      && var st := ProcessTrivia(d, d.trivia).value;
      && OrderedFrom(st.removals, 0, |d.text|)
      && r.value.sourceText == Keep(d.text, st.removals, 0)
      && r.value.diagnosticAssertions == st.assertions
    ensures ProcessTrivia(d, d.trivia).Success? && r.Failure? ==>
      r.error == InvalidChanges(ChangesOverlap) && !OrderedFrom(ProcessTrivia(d, d.trivia).value.removals, 0, |d.text|)
  {
    var st :- ProcessTrivia(d, d.trivia);
    match WithRemovals(d.text, st.removals, 0)
    case Failure(e) => Failure(InvalidChanges(e))
    case Success(text) => Success(SourceTextWithAssertions(text, st.assertions))
  }

  /** `ParseSyntaxAssertions` in terms of the blocks of the document's trivia:
      it succeeds exactly when no trivia makes `AcceptedBlock` fail, every
      block's marks fit, and the blocks' removals are in order and apart; the
      cleaned text is then the original without the blocks' lines, and the
      assertions are the blocks' own, in order. */
  lemma ParsedFromBlocks(d: Document)
    requires ValidDocument(d)
    ensures var bs := AcceptedBlocks(d, d.trivia);
      ParseSyntaxAssertions(d).Success? <==>
        && NoneFails(d, d.trivia)
        && AssertionsFit(d.text, bs)
        && OrderedFrom(Removals(d.text, bs), 0, |d.text|)
    ensures ParseSyntaxAssertions(d).Success? ==>
      && var bs := AcceptedBlocks(d, d.trivia);
      && var rs := Removals(d.text, bs);
      && var r := ParseSyntaxAssertions(d).value;
      && OrderedFrom(rs, 0, |d.text|)
      && r.sourceText == Keep(d.text, rs, 0)
      && (forall i :: 0 <= i < |bs| ==> rs[i] == Removal(d.text, bs[i]))
      && |r.diagnosticAssertions| == |bs|
      && forall i :: 0 <= i < |bs| ==>
           BlockAssertion(d.text, bs[i], SumLengths(rs[..i + 1])) == Success(r.diagnosticAssertions[i])
  {
    ProcessTriviaBlocks(d, d.trivia);
    var bs := AcceptedBlocks(d, d.trivia);
    if ParseSyntaxAssertions(d).Success? {
      var assertions := ParseSyntaxAssertions(d).value.diagnosticAssertions;
      assert Assertions(d.text, bs) == Successes(assertions);
      forall i | 0 <= i < |bs|
        ensures BlockAssertion(d.text, bs[i], SumLengths(Removals(d.text, bs)[..i + 1])) == Success(assertions[i])
      {
        AssertionsAt(d.text, bs, i);
        assert Assertions(d.text, bs)[i] == Successes<DiagnosticAssertion, ParseError>(assertions)[i];
      }
      forall i | 0 <= i < |bs|
        ensures Removals(d.text, bs)[i] == Removal(d.text, bs[i])
      {
        RemovalsAt(d.text, bs, i);
      }
    }
  }

  // ---------------------------------------------------------- properties

  /** A text without comments parses to itself and no assertions. */
  lemma ParseWithoutComments(d: Document)
    requires ValidDocument(d)
    requires forall t :: t in d.trivia ==> t.kind == OtherTrivia
    ensures ParseSyntaxAssertions(d) == Success(SourceTextWithAssertions(d.text, []))
  {
    NoCommentsNoBlocks(d, d.trivia);
    assert d.text[0..] == d.text;
  }

  lemma {:induction false} NoCommentsNoBlocks(d: Document, ts: seq<Trivia>)
    requires ValidDocument(d) && WithinText(d.text, ts)
    requires forall t :: t in ts ==> t.kind == OtherTrivia
    ensures ProcessTrivia(d, ts) == Success(ParseState([], [], 0))
    decreases |ts|
  {
    if ts != [] {
      NoCommentsNoBlocks(d, ts[..|ts| - 1]);
      assert ts[|ts| - 1] in ts;
    }
  }

  /** The cleaned text is the original without the removed blocks: it is shorter
      by exactly their total length. */
  lemma CleanedLength(d: Document)
    requires ValidDocument(d) && ParseSyntaxAssertions(d).Success?
    ensures var st := ProcessTrivia(d, d.trivia).value;
      |ParseSyntaxAssertions(d).value.sourceText| + st.removed == |d.text|
  {
    var st := ProcessTrivia(d, d.trivia).value;
    KeepLength(d.text, st.removals, 0);
  }

  /** Location `loc` of assertion `i`, moved back by the length of removals `0..i`,
      lies in the original text after removal `i`. */
  predicate Anchored(s: string, rs: seq<TextSpan>, i: nat, loc: TextSpan) {
    && i < |rs|
    && rs[i].End() <= loc.start + SumLengths(rs[..i + 1])
    && loc.start + SumLengths(rs[..i + 1]) + loc.length <= |s|
  }

  predicate AllAnchored(s: string, st: ParseState) {
    forall i, j :: 0 <= i < |st.assertions| && 0 <= j < |st.assertions[i].locations| ==>
      Anchored(s, st.removals, i, st.assertions[i].locations[j])
  }

  /** Every location the loop computes is anchored behind its own block's removal. */
  lemma {:induction false} ProcessTriviaAnchored(d: Document, ts: seq<Trivia>)
    requires ValidDocument(d) && WithinText(d.text, ts) && ProcessTrivia(d, ts).Success?
    ensures AllAnchored(d.text, ProcessTrivia(d, ts).value)
    decreases |ts|
  {
    if ts != [] {
      var init := ts[..|ts| - 1];
      ProcessTriviaAnchored(d, init);
      StepAnchored(d, ProcessTrivia(d, init).value, ts[|ts| - 1]);
    }
  }

  /** One step keeps every location anchored. */
  lemma {:induction false} StepAnchored(d: Document, st: ParseState, t: Trivia)
    requires ValidDocument(d) && t.span.End() <= |d.text|
    requires |st.assertions| == |st.removals| && st.removed == SumLengths(st.removals)
    requires AllAnchored(d.text, st) && Step(d, st, t).Success?
    ensures AllAnchored(d.text, Step(d, st, t).value)
  {
    if AcceptedBlock(d, t).value.Some? {
      AddBlockAnchored(d.text, st, AcceptedBlock(d, t).value.value);
    }
  }

  lemma {:induction false} AddBlockAnchored(s: string, st: ParseState, b: Block)
    requires WellPlaced(s, b)
    requires |st.assertions| == |st.removals| && st.removed == SumLengths(st.removals)
    requires AllAnchored(s, st) && AddBlock(s, st, b).Success?
    ensures AllAnchored(s, AddBlock(s, st, b).value)
  {
    var x := Removal(s, b);
    var removed := st.removed + x.length;
    var a := BlockAssertion(s, b, removed).value;
    SumLengthsAppend(st.removals, x);
    BlockAssertionAnchored(s, st.removals, x, b, a);
    ExtendAnchored(s, st, x, a, removed);
  }

  /** The assertion of a block, computed with the removals `rs` and the block's
      own removal `x`, has every location behind `x`. */
  lemma {:induction false} BlockAssertionAnchored(s: string, rs: seq<TextSpan>, x: TextSpan, b: Block, a: DiagnosticAssertion)
    requires WellPlaced(s, b) && x == Removal(s, b)
    requires BlockAssertion(s, b, SumLengths(rs + [x])) == Success(a)
    ensures forall k :: 0 <= k < |a.locations| ==> Anchored(s, rs + [x], |rs|, a.locations[k])
  {
    var m := b.markLine;
    BlockAssertionIs(s, b, SumLengths(rs + [x]));
    LinesValid(s);
    assert BrokenAfter(s, Lines(s), m);
    assert (rs + [x])[..|rs| + 1] == rs + [x];
    forall k | 0 <= k < |a.locations|
      ensures Anchored(s, rs + [x], |rs|, a.locations[k])
    {
      assert SpanOnLine(s, m, b.marks[k]);
      assert Fits(s, m, b.marks[k], SumLengths(rs + [x]));
    }
  }

  /** Appending an assertion anchored behind a new last removal keeps the whole
      state anchored. */
  lemma {:induction false} ExtendAnchored(s: string, st: ParseState, x: TextSpan, a: DiagnosticAssertion, removed: nat)
    requires |st.assertions| == |st.removals| && AllAnchored(s, st)
    requires forall j :: 0 <= j < |a.locations| ==> Anchored(s, st.removals + [x], |st.removals|, a.locations[j])
    ensures AllAnchored(s, ParseState(st.assertions + [a], st.removals + [x], removed))
  {
    var assertions := st.assertions + [a];
    var rs := st.removals + [x];
    forall i, j | 0 <= i < |assertions| && 0 <= j < |assertions[i].locations|
      ensures Anchored(s, rs, i, assertions[i].locations[j])
    {
      if i < |st.assertions| {
        assert assertions[i] == st.assertions[i];
        AnchoredExtend(s, st.removals, x, i, st.assertions[i].locations[j]);
      }
    }
  }

  /** Appending a removal leaves the anchoring of earlier locations unchanged. */
  lemma AnchoredExtend(s: string, rs: seq<TextSpan>, x: TextSpan, i: nat, loc: TextSpan)
    requires Anchored(s, rs, i, loc)
    ensures Anchored(s, rs + [x], i, loc)
  {
    assert (rs + [x])[..i + 1] == rs[..i + 1];
  }

  /** The code at a location in the cleaned text is the code that the marks
      pointed at in the original, as long as no later block removed it. */
  lemma {:induction false} LocationMapsBack(d: Document, st: ParseState, r: SourceTextWithAssertions, i: nat, j: nat)
    requires ValidDocument(d)
    requires ProcessTrivia(d, d.trivia) == Success(st) && ParseSyntaxAssertions(d) == Success(r)
    requires i < |st.assertions| && j < |st.assertions[i].locations| && i < |st.removals|
    requires var loc := st.assertions[i].locations[j];
      loc.start + SumLengths(st.removals[..i + 1]) + loc.length <= GapEnd(st.removals, |d.text|, i + 1)
    ensures Survives(d.text, r.sourceText, st.removals, i, st.assertions[i].locations[j])
  {
    var loc := st.assertions[i].locations[j];
    ParsedState(d, st, r, i, j);
    AnchoredSurvives(d.text, st.removals, i, loc, r.sourceText);
  }

  /** What a successful parse leaves: ordered removals, the text without them,
      and location `j` of assertion `i` anchored. */
  lemma {:induction false} ParsedState(d: Document, st: ParseState, r: SourceTextWithAssertions, i: nat, j: nat)
    requires ValidDocument(d)
    requires ProcessTrivia(d, d.trivia) == Success(st) && ParseSyntaxAssertions(d) == Success(r)
    requires i < |st.assertions| && j < |st.assertions[i].locations|
    ensures OrderedFrom(st.removals, 0, |d.text|) && r.sourceText == Keep(d.text, st.removals, 0)
    ensures Anchored(d.text, st.removals, i, st.assertions[i].locations[j])
  {
    ProcessTriviaAnchored(d, d.trivia);
  }

  /** Location `loc` of assertion `i` lies in the cleaned text, and the code
      there is the code of the original text at `loc` moved back by the
      removals `0..i`. */
  predicate Survives(s: string, cleaned: string, rs: seq<TextSpan>, i: nat, loc: TextSpan)
    requires i < |rs|
  {
    var original := TextSpan(loc.start + SumLengths(rs[..i + 1]), loc.length);
    && loc.End() <= |cleaned|
    && original.End() <= |s|
    && Slice(cleaned, loc) == Slice(s, original)
  }

  /** An anchored span that no later removal touches survives the removals. */
  lemma AnchoredSurvives(s: string, rs: seq<TextSpan>, i: nat, loc: TextSpan, cleaned: string)
    requires OrderedFrom(rs, 0, |s|) && cleaned == Keep(s, rs, 0) && Anchored(s, rs, i, loc)
    requires loc.start + SumLengths(rs[..i + 1]) + loc.length <= GapEnd(rs, |s|, i + 1)
    ensures Survives(s, cleaned, rs, i, loc)
  {
    var shift := SumLengths(rs[..i + 1]);
    var p := loc.start + shift;
    var q := p + loc.length;
    KeepPreserves(s, rs, 0, i + 1, p, q);
    assert p - 0 - shift == loc.start && q - 0 - shift == loc.End();
    assert cleaned[loc.start..loc.End()] == s[p..q];
  }
}
