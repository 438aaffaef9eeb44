# Gu.Roslyn.Asserts in Dafny

A model of the assertion core of Gu.Roslyn.Asserts, a library for unit-testing
Roslyn analyzers and code fixes, with proofs about it. Tests state what they
expect in two ways, and the model covers both.

The older way marks positions with `↓` inside the code. `ExpectedDiagnostic`
and `CodeReader` turn the marks into expected positions, a file name and a
namespace. `RoslynAssert` checks that an analyzer supports the expected ids,
merges and finds the expected documents of a fix, and decides which
diagnostics a fix introduced. `CodeAssert.AreEqual` compares code while
ignoring carriage returns.

The newer way writes the expected diagnostic as a comment block above the
code:

    // ❌ ID message
    // ↓↓↓
    code the diagnostic is expected on

`AssertionSyntaxFacts.ParseSyntaxAssertions` reads these blocks into
diagnostic assertions and removes them from the text. `DiffSyntaxFacts.ApplyDiff`
reads a two-line `-`/`+` diff that describes a fix result. `DiagnosticFixAssert`
combines the two in `NoDiagnostics`, `DiagnosticsWithNoFix` and `SingleFix`,
with the `NoFixVerifier` and `SingleFixVerifier` callbacks that a code-fix
provider calls to register its actions.

Parts of the system that are not this library are inputs to the model:

- The Roslyn syntax tree is a list of trivia, each with its kind, its span and
  the trivia list it belongs to.
- The analyzer's diagnostics are given as a list of values.
- A code-fix provider is the sequence of registrations it makes for a
  diagnostic, plus whether it swallows the exceptions its callback throws.
- The regular expressions of `CodeReader` are uninterpreted functions.

Texts are `seq<char>`. Line tables are computed from the text, as
`SourceText.Lines` does, and proved consistent. Every exception the library
throws is a variant of an error datatype.

The files:

| file | contents |
|---|---|
| `wrappers.dfy` | `Option`, `Result`, `Outcome` |
| `strings.dfy` | trimming, splitting, joining, counting and removing characters |
| `sequences.dfy` | distinctness, occurrence counts, first match, replace-where |
| `text.dfy` | text spans, the line table, line positions, text with removals applied |
| `diagnostics.dfy`, `syntax_assertions.dfy` | severities; `DiagnosticAssertion`, `SourceTextWithAssertions` |
| `line_position_span_ext.dfy`, `source_text_ext.dfy` | the two extension classes |
| `assertion_syntax_facts.dfy`, `diff_syntax_facts.dfy` | parsing the comment assertions and the diff |
| `code_assert.dfy`, `code_reader.dfy`, `expected_diagnostic.dfy` | the comparison, marks, file names, expected diagnostics |
| `roslyn_assert.dfy`, `fix_all.dfy` | the `RoslynAssert` checks and `MergeFixedCode` |
| `code_actions.dfy`, `no_fix_verifier.dfy`, `single_fix_verifier.dfy`, `diagnostic_fix_assert.dfy` | code actions, the two verifiers, the three assertions |

## Model

| member | source | states |
|---|---|---|
| AssertionSyntaxFacts.TryParseSeverityEmoji | Gu.Roslyn.Asserts/SyntaxAssertions/AssertionSyntaxFacts.cs:116-133 | ❌, ⚠ and ℹ, and no other character, read as error, warning and info. No character reads as hidden. |
| AssertionSyntaxFacts.SeverityEmojiRoundTrip | Gu.Roslyn.Asserts/SyntaxAssertions/AssertionSyntaxFacts.cs:116-133 | A character reads as a severity exactly when it is the emoji written for that severity. |
| AssertionSyntaxFacts.SplitAtSpace | Gu.Roslyn.Asserts/SyntaxAssertions/AssertionSyntaxFacts.cs:100-104 | Succeeds exactly when the text holds a space. The id before it has no space, and id, space and rest rebuild the text. |
| AssertionSyntaxFacts.TryParsePreviousCommentLineText | Gu.Roslyn.Asserts/SyntaxAssertions/AssertionSyntaxFacts.cs:88-114 | Succeeds exactly when the text is non-empty, starts with a severity emoji, and holds a space after the leading white space. The id has no space, and the message is the trimmed text after the id's space. |
| AssertionSyntaxFacts.ParseFormatted | Gu.Roslyn.Asserts/SyntaxAssertions/AssertionSyntaxFacts.cs:88-114 | An annotation written as `emoji id message` reads back as itself. This holds for any non-hidden severity, non-empty id without spaces and trimmed message. |
| AssertionSyntaxFacts.GetCommentContentSpan | Gu.Roslyn.Asserts/SyntaxAssertions/AssertionSyntaxFacts.cs:232-240 | `//` content runs from two past the start to the end, and `/* */` content from two past the start to two before the end. Other trivia has none. A comment too short for its delimiters fails, as `FromBounds` throws. |
| AssertionSyntaxFacts.SingleLineContent | Gu.Roslyn.Asserts/SyntaxAssertions/AssertionSyntaxFacts.cs:237 | The content of the comment `//c` is `c`. |
| AssertionSyntaxFacts.MultiLineContent | Gu.Roslyn.Asserts/SyntaxAssertions/AssertionSyntaxFacts.cs:236 | The content of the comment `/*c*/` is `c`. |
| AssertionSyntaxFacts.GetParentTriviaList | Gu.Roslyn.Asserts/SyntaxAssertions/AssertionSyntaxFacts.cs:175-182 | The list holds only trivia of the same token trivia list, all inside the text. It holds the trivia itself when that is one of the document's trivia. |
| AssertionSyntaxFacts.Overlapping | Gu.Roslyn.Asserts/SyntaxAssertions/AssertionSyntaxFacts.cs:170 | Exactly the trivia of the list whose span overlaps the given span. |
| AssertionSyntaxFacts.GetSingleCommentContentSpan | Gu.Roslyn.Asserts/SyntaxAssertions/AssertionSyntaxFacts.cs:168-173 | Absent unless exactly one trivia touches the span (`TrySingle`). Otherwise it is the overlap of that trivia's comment content with the span, which is non-empty and inside the span. |
| AssertionSyntaxFacts.WalkUp | Gu.Roslyn.Asserts/SyntaxAssertions/AssertionSyntaxFacts.cs:137-158 | Walking up collects at most one line per comment line passed. Every collected line is non-empty and trimmed, and the topmost line is not below the start. |
| AssertionSyntaxFacts.WalkUpLines | Gu.Roslyn.Asserts/SyntaxAssertions/AssertionSyntaxFacts.cs:140-158 | The collected lines are exactly the trimmed, non-empty comment texts of the lines from the topmost comment line down to the line above the start, from top to bottom. Blank comment lines are passed but add nothing. |
| AssertionSyntaxFacts.WalkUpFails | Gu.Roslyn.Asserts/SyntaxAssertions/AssertionSyntaxFacts.cs:140-158 | The walk fails exactly when it reaches a line whose reading fails, with only comment lines between that line and the start. |
| AssertionSyntaxFacts.WalkUpStops | Gu.Roslyn.Asserts/SyntaxAssertions/AssertionSyntaxFacts.cs:140-157 | Every line from the topmost line to the line above the start holds a single comment. The line above the topmost one does not. |
| AssertionSyntaxFacts.GetPreviousCommentLineText | Gu.Roslyn.Asserts/SyntaxAssertions/AssertionSyntaxFacts.cs:135-166 | Fails exactly when some line on the way up fails to read, with only comment lines below it. Otherwise the starting line is where the comment lines above the mark line begin: every line from it to the mark line holds a single comment, and the line above it does not. The result is absent exactly when those lines hold no non-empty comment text. Otherwise it is their trimmed, non-empty texts joined with spaces from top to bottom, with that starting line above the mark line. |
| AssertionSyntaxFacts.RunEnd | Gu.Roslyn.Asserts/SyntaxAssertions/AssertionSyntaxFacts.cs:198-204 | The run from the start holds only marks. It ends at the limit or at a character that is not a mark. |
| AssertionSyntaxFacts.MarkRuns | Gu.Roslyn.Asserts/SyntaxAssertions/AssertionSyntaxFacts.cs:193-212 | Each span is a non-empty run of `↓` that cannot be extended either way. The runs are in order and separated. |
| AssertionSyntaxFacts.MarkRunsCover | Gu.Roslyn.Asserts/SyntaxAssertions/AssertionSyntaxFacts.cs:193-212 | Every `↓` of the scanned range lies in one of the runs. |
| AssertionSyntaxFacts.MarkRunsEmpty | Gu.Roslyn.Asserts/SyntaxAssertions/AssertionSyntaxFacts.cs:193-217 | There are no runs exactly when the range holds no `↓`. |
| AssertionSyntaxFacts.GetLastLineOfSpan | Gu.Roslyn.Asserts/SyntaxAssertions/AssertionSyntaxFacts.cs:223-230 | The line is the one holding the content's end. The span ends there and starts at the later of the content's start and that line's start. |
| AssertionSyntaxFacts.GetMarkSpansOnLastLine | Gu.Roslyn.Asserts/SyntaxAssertions/AssertionSyntaxFacts.cs:184-221 | Fails exactly when the comment content fails. It is present only for non-empty content whose last line holds at least one run of marks. The result is those runs and that line, and every run lies within the line's content. |
| AssertionSyntaxFacts.ProjectMark | Gu.Roslyn.Asserts/SyntaxAssertions/AssertionSyntaxFacts.cs:61-72 | The location has the mark's length. It starts at the mark's column on the next line, less the text removed so far. It fails exactly when it would end past the next line or start before the text. |
| AssertionSyntaxFacts.ProjectMarks | Gu.Roslyn.Asserts/SyntaxAssertions/AssertionSyntaxFacts.cs:58-73 | There is one location per mark, in order, each placed as above. It succeeds exactly when every mark can be placed. |
| AssertionSyntaxFacts.AcceptedBlock | Gu.Roslyn.Asserts/SyntaxAssertions/AssertionSyntaxFacts.cs:34-50 | Fails exactly when reading the marks fails, or when the marks lie on a line that is not the last and reading the comment lines above fails. Otherwise a block is accepted exactly when marks lie on a line that is not the last and the comment texts above it, joined with spaces, read as an annotation. An accepted block is the trivia's own (`IsBlockOf`): its marks and mark line are the trivia's runs, its starting line is where the comment lines above begin, and its annotation is what their texts read as. Trivia that is not a comment is never a block. |
| AssertionSyntaxFacts.Removal | Gu.Roslyn.Asserts/SyntaxAssertions/AssertionSyntaxFacts.cs:52-54 | The removed text runs from the start of the first annotation line through the mark line's line break. It is non-empty and inside the text. |
| AssertionSyntaxFacts.BlockAssertionIs | Gu.Roslyn.Asserts/SyntaxAssertions/AssertionSyntaxFacts.cs:58-79 | The assertion has the annotation's id, message and severity, and one location per mark, placed as `ProjectMark` says. It succeeds exactly when every mark can be placed. |
| AssertionSyntaxFacts.AssertionsAt | Gu.Roslyn.Asserts/SyntaxAssertions/AssertionSyntaxFacts.cs:52-79 | The assertion of block `i` is computed with the removals of blocks `0..i` taken away, its own included. |
| AssertionSyntaxFacts.RemovalsAt | Gu.Roslyn.Asserts/SyntaxAssertions/AssertionSyntaxFacts.cs:52-55 | The removal recorded for block `i` is that block's lines. |
| AssertionSyntaxFacts.ProcessTrivia | Gu.Roslyn.Asserts/SyntaxAssertions/AssertionSyntaxFacts.cs:27-81 | The loop records one removal per assertion, all inside the text. The offset is the total length of the removals. |
| AssertionSyntaxFacts.ProcessTriviaBlocks | Gu.Roslyn.Asserts/SyntaxAssertions/AssertionSyntaxFacts.cs:27-81 | The loop succeeds exactly when no trivia makes `AcceptedBlock` fail and the marks of every block the trivia end fit the line below. It then holds one removal and one assertion per such block, in trivia order. Trivia that end no block add nothing. |
| AssertionSyntaxFacts.StepTracked | Gu.Roslyn.Asserts/SyntaxAssertions/AssertionSyntaxFacts.cs:52-56 | Each step keeps one removal per assertion and keeps the offset equal to the removed total. |
| AssertionSyntaxFacts.ParseSyntaxAssertions | Gu.Roslyn.Asserts/SyntaxAssertions/AssertionSyntaxFacts.cs:22-86 | On success the removals are in text order and the text is the original with them deleted. The assertions are those the loop found. After the loop, it fails only with overlapping removals (`WithChanges`). |
| AssertionSyntaxFacts.ParsedFromBlocks | Gu.Roslyn.Asserts/SyntaxAssertions/AssertionSyntaxFacts.cs:22-86 | Parsing succeeds exactly when no trivia makes `AcceptedBlock` fail, every block's marks fit, and the blocks' removals are in text order and apart. The cleaned text is then the original without each block's lines. There is one assertion per block, in order, and assertion `i` is block `i`'s annotation with its marks placed after the removals of blocks `0..i`. |
| AssertionSyntaxFacts.ParseWithoutComments | Gu.Roslyn.Asserts/SyntaxAssertions/AssertionSyntaxFacts.cs:22-86 | A text without comments parses to itself, with no assertions. |
| AssertionSyntaxFacts.CleanedLength | Gu.Roslyn.Asserts/SyntaxAssertions/AssertionSyntaxFacts.cs:83 | The cleaned text is shorter than the original by exactly the removed length. |
| AssertionSyntaxFacts.ProcessTriviaAnchored | Gu.Roslyn.Asserts/SyntaxAssertions/AssertionSyntaxFacts.cs:52-72 | Every location, moved back by the removals up to its own block's, lies after that block's removal and inside the text. |
| AssertionSyntaxFacts.LocationMapsBack | Gu.Roslyn.Asserts/SyntaxAssertions/AssertionSyntaxFacts.cs:52-83 | A location of the cleaned text holds the code that its marks pointed at in the original, on the line below them. This holds unless a later block removed that code. |
| LinePositionSpanExt.AddLineDelta | Gu.Roslyn.Asserts/Internals/LinePositionSpanExt.cs:25-30 | Both ends move `delta` lines and keep their characters. There is no result when a line would become negative, as `LinePosition` throws. |
| LinePositionSpanExt.AddLineDeltaZero | Gu.Roslyn.Asserts/Internals/LinePositionSpanExt.cs:25-30 | A delta of zero changes nothing. |
| LinePositionSpanExt.AddLineDeltaCompose | Gu.Roslyn.Asserts/Internals/LinePositionSpanExt.cs:25-30 | Moving by `d1` and then by `d2` is moving by `d1 + d2`. |
| LinePositionSpanExt.ExistsInLines | Gu.Roslyn.Asserts/Internals/LinePositionSpanExt.cs:16-20 | With the line table as resolver, a span exists in the text exactly when both ends lie on lines of the text, within the line's content or at its end. The ends then convert to positions inside the text that convert back to the same line and character. |
| SourceTextExt.WithoutInitialBlankLine | Gu.Roslyn.Asserts/Internals/SourceTextExt.cs:14-22 | The result is a suffix of the text. It is shorter exactly when the text starts with a line break, and then by that break's length. |
| SourceTextExt.WithoutFinalBlankLine | Gu.Roslyn.Asserts/Internals/SourceTextExt.cs:27-35 | The result is a prefix of the text, and a one-line text is kept. It is shorter exactly when the text ends with a line break, and then by that break's length. |
| SourceTextExt.FinalBreakOfLines | Gu.Roslyn.Asserts/Internals/SourceTextExt.cs:27-35 | An empty last line means the text ends with a break. The second-to-last line's content ends right before that break. |
| SourceTextExt.InitialBlankLineRemoved | Gu.Roslyn.Asserts/Internals/SourceTextExt.cs:14-22 | `"\n" + s` and `"\r\n" + s` both give back `s`. |
| SourceTextExt.FinalBlankLineRemoved | Gu.Roslyn.Asserts/Internals/SourceTextExt.cs:27-35 | `s + "\r\n"` gives back `s`. So does `s + "\n"`, unless `s` ends with `\r`. |
| DiffSyntaxFacts.GetLineWithoutDiffIndicator | Gu.Roslyn.Asserts/SyntaxAssertions/DiffSyntaxFacts.cs:72-75 | The result ends with the line after its indicator. The indicator is kept as a space exactly when a space follows it. |
| DiffSyntaxFacts.DiffLineRoundTrip | Gu.Roslyn.Asserts/SyntaxAssertions/DiffSyntaxFacts.cs:72-75 | Stripping the indicator gives back any code line written as a diff line, unless it starts with exactly one space. |
| DiffSyntaxFacts.SingleSpaceIndentInexpressible | Gu.Roslyn.Asserts/SyntaxAssertions/DiffSyntaxFacts.cs:72-75 | A code line that starts with exactly one space is what no diff line strips to. |
| DiffSyntaxFacts.MatchingLines | Gu.Roslyn.Asserts/SyntaxAssertions/DiffSyntaxFacts.cs:34 | Exactly the lines whose content equals the searched line, in increasing order. |
| DiffSyntaxFacts.Splice | Gu.Roslyn.Asserts/SyntaxAssertions/DiffSyntaxFacts.cs:46 | The text before the span and after it is kept, and the replacement sits in between. |
| DiffSyntaxFacts.ReplaceUniqueLine | Gu.Roslyn.Asserts/SyntaxAssertions/DiffSyntaxFacts.cs:34-46 | "Not found" exactly when no line reads as the searched line, and "not unique" exactly when two lines do. Otherwise the content of the one such line is replaced. |
| DiffSyntaxFacts.ApplyDiff | Gu.Roslyn.Asserts/SyntaxAssertions/DiffSyntaxFacts.cs:20-51 | The diff is read without one blank first and last line. It is not supported exactly when it is not a `-` line followed by a `+` line. Otherwise the stripped `-` line is replaced by the stripped `+` line. |
| DiffSyntaxFacts.WrittenDiffReadsBack | Gu.Roslyn.Asserts/SyntaxAssertions/DiffSyntaxFacts.cs:22-32 | A diff written as a blank line, a `-` line, a `+` line and a blank line reads back as the two code lines. |
| DiffSyntaxFacts.ReplaceTheUniqueLine | Gu.Roslyn.Asserts/SyntaxAssertions/DiffSyntaxFacts.cs:34-46 | When exactly one line reads as the searched line, that line's content is replaced. |
| DiffSyntaxFacts.ApplyWrittenDiff | Gu.Roslyn.Asserts/SyntaxAssertions/DiffSyntaxFacts.cs:20-51 | A written diff for the one line that reads as its `-` line puts its `+` line in that line's place and leaves the rest of the text unchanged. |
| CodeAssert.Walk | Gu.Roslyn.Asserts/CodeAssert.cs:66-124 | The loop stops at the first unequal pair of characters that are not `\r`, or when one text is used up. At that point both texts agree up to there once `\r` is deleted, and `line` is one more than the line feeds passed. |
| CodeAssert.Caret | Gu.Roslyn.Asserts/CodeAssert.cs:94-102 | The caret is the length of the two lines' common prefix. |
| CodeAssert.ReportMismatch | Gu.Roslyn.Asserts/CodeAssert.cs:83-115 | The mismatch on line `n` shows piece `n` of each text split at `\n`, trimmed of `\r`, with the caret under their first difference. |
| CodeAssert.AreEqual | Gu.Roslyn.Asserts/CodeAssert.cs:64-148 | The outcome is the reference comparison on the texts with `\r` deleted. Equal texts pass. A difference inside both fails on its line, and a proper prefix fails at the end of the file. |
| CodeAssert.MismatchIsComparison | Gu.Roslyn.Asserts/CodeAssert.cs:83-115 | Where the loop stops at an unequal pair, the reference comparison reports the same line and lines. |
| CodeAssert.EndIsComparison | Gu.Roslyn.Asserts/CodeAssert.cs:126-147 | After trailing `\r` are skipped, both texts used up means the reference comparison passes. Otherwise it fails at the end. |
| CodeAssert.ComparisonPasses | Gu.Roslyn.Asserts/CodeAssert.cs:64-148 | The comparison passes exactly when the texts are equal once every `\r` is deleted. |
| CodeAssert.ComparisonReflexive | Gu.Roslyn.Asserts/CodeAssert.cs:64-148 | Every text equals itself. |
| CodeAssert.ComparisonSymmetric | Gu.Roslyn.Asserts/CodeAssert.cs:64-148 | Whether two texts pass does not depend on which one is expected. |
| CodeAssert.CarriageReturnAnywhere | Gu.Roslyn.Asserts/CodeAssert.cs:69-81 | A `\r` inserted anywhere, not only before `\n`, does not change whether the comparison passes. |
| CodeReader.FileName | Gu.Roslyn.Asserts/CodeReader.cs:10-36 | Empty code is `Test.cs`. Code without a type declaration is `AssemblyInfo.cs`. Other code is the declared type's name followed by `.cs`. |
| CodeReader.Namespace | Gu.Roslyn.Asserts/CodeReader.cs:38-54 | The declared namespace, else the assembly title, else `Unknown`. |
| CodeReader.MarkPositions | Gu.Roslyn.Asserts/CodeReader.cs:56-77 | There is one position per `↓` in the code. |
| CodeReader.FindDiagnosticsPositions | Gu.Roslyn.Asserts/CodeReader.cs:56-77 | The scan yields exactly the reference positions. Each is the 1-based line, one per `\n` passed, and the 1-based character, counting characters that are not marks since the last `\n`. |
| CodeReader.MarkPositionsNonDecreasing | Gu.Roslyn.Asserts/CodeReader.cs:56-77 | The positions never decrease in (line, character) order. |
| CodeReader.CurrentOfCleaned | Gu.Roslyn.Asserts/CodeReader.cs:56-77 | Marks do not count, so a position reached in the code is also reached in the code with every mark removed. |
| CodeReader.AdjacentMarksShare | Gu.Roslyn.Asserts/CodeReader.cs:69-73 | Two adjacent marks yield the same position twice. |
| ExpectedDiagnostics.New | Gu.Roslyn.Asserts/ExpectedDiagnostic.cs:38-43 | Only a null id is rejected. The id, message and span are stored unchanged. |
| ExpectedDiagnostics.CreateAt | Gu.Roslyn.Asserts/ExpectedDiagnostic.cs:71-75 | A negative line or character fails first, then a null id. On success the span is empty, at the position, without a path. |
| ExpectedDiagnostics.CreateAtWithoutMessage | Gu.Roslyn.Asserts/ExpectedDiagnostic.cs:66-69 | Succeeds exactly with a non-null id and a non-negative position, and expects no message. |
| ExpectedDiagnostics.CreateFromCode | Gu.Roslyn.Asserts/ExpectedDiagnostic.cs:82-99 | Code without a mark fails with "no position", and code with several marks fails with their count, both before a null id does. On success the span is empty at the one mark's position in the code's file. The cleaned code is the code without marks. |
| ExpectedDiagnostics.CreateFromCodeWithoutMessage | Gu.Roslyn.Asserts/ExpectedDiagnostic.cs:77-80 | Succeeds exactly with a non-null id and exactly one mark, and expects no message. |
| ExpectedDiagnostics.CreateMany | Gu.Roslyn.Asserts/ExpectedDiagnostic.cs:101-113 | Code without a mark fails first, then a null id. It succeeds exactly when the code holds a mark and the id is non-null. There is then one expectation per mark, in text order, each an empty span at its mark's position in the code's file with the given id and message. |
| ExpectedDiagnostics.MatchesIff | Gu.Roslyn.Asserts/ExpectedDiagnostic.cs:119-150 | Both directions hold. A match needs equal ids and equal start positions. It needs equal messages and paths when those are expected, and equal ends when the expected span is not empty. |
| ExpectedDiagnostics.CreatedAtMatches | Gu.Roslyn.Asserts/ExpectedDiagnostic.cs:66-75 | An expectation created at a position matches exactly the diagnostics with its id that start there. |
| ExpectedDiagnostics.CreatedFromCodeMatches | Gu.Roslyn.Asserts/ExpectedDiagnostic.cs:82-99 | An expectation created from marked code matches exactly the diagnostics with its id, with its message when one is given, in the code's file and starting at the mark's position. |
| ExpectedDiagnostics.MarkPositionInCleaned | Gu.Roslyn.Asserts/ExpectedDiagnostic.cs:84-95 | With one mark, the expected position is where the mark was, counted in the cleaned code. |
| RoslynAssert.VerifySingleSupportedDiagnostic | Gu.Roslyn.Asserts/RoslynAssert.cs:69-90 | Succeeds exactly with one non-null supported descriptor, and returns it. Otherwise it fails, in order, for none, for several, and for null. |
| RoslynAssert.VerifyAnalyzerSupportsDiagnostic | Gu.Roslyn.Asserts/RoslynAssert.cs:97-122 | Passes exactly when the supported ids are distinct and include the expected id. A reported duplicate id occurs twice. The "multiple with this id" failure cannot happen. |
| RoslynAssert.VerifyAnalyzerSupportsDiagnostics | Gu.Roslyn.Asserts/RoslynAssert.cs:43-62 | Passes exactly when the single check passes for every expected id. |
| RoslynAssert.SupportsAllFailsAtFirst | Gu.Roslyn.Asserts/RoslynAssert.cs:43-62 | A failure is the single check's failure for one expected id, and every id before it is supported. |
| RoslynAssert.SupportsAllIff | Gu.Roslyn.Asserts/RoslynAssert.cs:43-62 | Passes exactly when nothing is expected, or when the supported ids are distinct and hold every expected id. |
| RoslynAssert.VerifyCodeFixSupportsAnalyzer | Gu.Roslyn.Asserts/RoslynAssert.cs:124-133 | Passes exactly when an analyzer id is also a fixable id. |
| RoslynAssert.Format | Gu.Roslyn.Asserts/RoslynAssert.cs:135-147 | Exactly one id is shown quoted as `'id'`. Any other number of ids is shown as `{a, b}`. |
| RoslynAssert.IsIncluded | Gu.Roslyn.Asserts/RoslynAssert.cs:239-248 | With `Warnings` allowed only errors count. With `None` allowed errors and warnings count. With `WarningsAndErrors` allowed nothing counts. |
| RoslynAssert.IsIncludedOrdered | Gu.Roslyn.Asserts/RoslynAssert.cs:239-248 | Allowing more never makes more count. Hidden and info never count, and errors count under the two stricter settings. |
| RoslynAssert.VerifyNoCompilerErrors | Gu.Roslyn.Asserts/RoslynAssert.cs:189-201 | Fails exactly when a counted diagnostic has an id that is not suppressed. The failure lists every counted diagnostic. |
| RoslynAssert.NothingIntroducedWhenAllAllowed | Gu.Roslyn.Asserts/RoslynAssert.cs:189-201 | With warnings and errors allowed no fix introduces anything. |
| RoslynAssert.FindExpected | Gu.Roslyn.Asserts/RoslynAssert.cs:166-186 | Returns an expected document equal to the fixed one, if there is one. Otherwise it returns the first with the same namespace and file name. It fails exactly when neither exists. |
| RoslynAssert.AreEqualDocuments | Gu.Roslyn.Asserts/RoslynAssert.cs:149-164 | Unequal document counts fail first. Otherwise it passes exactly when every fixed document finds an expected one that equals it up to `\r`. |
| RoslynAssert.SameDocumentsPass | Gu.Roslyn.Asserts/RoslynAssert.cs:149-186 | A fixed solution made of expected documents, in any order and with the same count, passes. |
| RoslynAssertFixAll.ReplacePass | Gu.Roslyn.Asserts/RoslynAssert.FixAll.cs:509-527 | A pass stops exactly when a second source qualifies. Otherwise it puts the fixed code in place of the one qualifying source, and `found` says whether there was one. |
| RoslynAssertFixAll.MergeFixedCode | Gu.Roslyn.Asserts/RoslynAssert.FixAll.cs:507-563 | Computes the reference merge: replace the one marked source, or else the one source named like the fixed code. Several marked sources, several named sources or none fail. |
| RoslynAssertFixAll.MergedReplacesOne | Gu.Roslyn.Asserts/RoslynAssert.FixAll.cs:507-563 | A merge keeps the number of sources, replaces exactly one with the fixed code, and keeps every other in place. |
| RoslynAssertFixAll.MarkedSourceReplaced | Gu.Roslyn.Asserts/RoslynAssert.FixAll.cs:511-532 | A single marked source is replaced, whatever the names of the sources. |
| RoslynAssertFixAll.NamedSourceReplaced | Gu.Roslyn.Asserts/RoslynAssert.FixAll.cs:534-562 | Without marks, the one source with the fixed code's namespace and file name is replaced. |
| NoFixVerifier.RegisterCodeFix | Gu.Roslyn.Asserts/DiagnosticFixAssert.NoFixVerifier.cs:16-21 | Every registration records the "no code fix expected" assertion and throws it. |
| NoFixVerifier.Run | Gu.Roslyn.Asserts/DiagnosticFixAssert.NoFixVerifier.cs:13-21 | No registration leaves the state unchanged, and any registration records the assertion. The run fails exactly when there was a registration and the provider does not swallow. |
| SingleFixVerifier.CheckDiagnostics | Gu.Roslyn.Asserts/DiagnosticFixAssert.SingleFixVerifier.cs:38-41 | The intended guard: it passes exactly when the registration is for the expected diagnostic alone. |
| SingleFixVerifier.CheckDiagnosticsAsWritten | Gu.Roslyn.Asserts/DiagnosticFixAssert.SingleFixVerifier.cs:38-41 | The guard as written: it throws only when there is not exactly one diagnostic and the first is the expected one. An empty list fails on the index. |
| SingleFixVerifier.GuardAsWrittenLetsOthersThrough | Gu.Roslyn.Asserts/DiagnosticFixAssert.SingleFixVerifier.cs:38-41 | A single other diagnostic, or two starting with another, pass the guard as written and fail the intended one. |
| SingleFixVerifier.Apply | Gu.Roslyn.Asserts/DiagnosticFixAssert.SingleFixVerifier.cs:43-77 | Passes exactly for the first action with the title whose one operation yields the expected text. A wrong title or a second action changes nothing. Otherwise the action counts as registered, and only a content mismatch is recorded as the thrown assertion. |
| SingleFixVerifier.RegisterCodeFix | Gu.Roslyn.Asserts/DiagnosticFixAssert.SingleFixVerifier.cs:36-78 | With the intended guard, a registration for anything but the expected diagnostic is rejected and changes nothing. Any other registration is checked as `Apply` says. |
| SingleFixVerifier.RegisterCodeFixAsWritten | Gu.Roslyn.Asserts/DiagnosticFixAssert.SingleFixVerifier.cs:36-78 | As written, an empty list fails on the index. A single diagnostic of any kind gets through to the title and content checks. With several diagnostics, the registration is rejected when the first is the expected one and otherwise goes on to those checks. |
| SingleFixVerifier.ExpectedFixForOtherDiagnostic | Gu.Roslyn.Asserts/DiagnosticFixAssert.SingleFixVerifier.cs:36-78 | The expected fix registered for another diagnostic is accepted as written and rejected by the intended guard. |
| SingleFixVerifier.RegisteredRejectsAll | Gu.Roslyn.Asserts/DiagnosticFixAssert.SingleFixVerifier.cs:48-51 | Once an action is registered, every further registration fails and changes nothing. |
| SingleFixVerifier.Run | Gu.Roslyn.Asserts/DiagnosticFixAssert.SingleFixVerifier.cs:36-78 | The provider's registrations go in turn to the verifier. A run fails only when a provider that does not swallow registers something. A registered action stays registered, and a recorded assertion is never replaced. |
| SingleFixVerifier.RunAfterRegistered | Gu.Roslyn.Asserts/DiagnosticFixAssert.SingleFixVerifier.cs:48-51 | After an action is registered, further registrations change nothing. Unless swallowed, the first of them ends the run with a failure. |
| SingleFixVerifier.OnlyTheExpectedFixPasses | Gu.Roslyn.Asserts/DiagnosticFixAssert.SingleFixVerifier.cs:36-78 | With a provider that lets exceptions out, a run passes with an action registered and nothing thrown exactly when the provider makes one registration. That registration is the expected action for the expected diagnostic. |
| SingleFixVerifier.SwallowedRunDecidedByFirstAccepted | Gu.Roslyn.Asserts/DiagnosticFixAssert.SingleFixVerifier.cs:36-78 | With a swallowing provider, the final state is the one the first accepted registration leads to. An accepted registration has the expected diagnostic and title. |
| SingleFixVerifier.SwallowedRunWithoutAccepted | Gu.Roslyn.Asserts/DiagnosticFixAssert.SingleFixVerifier.cs:36-78 | With a swallowing provider and no accepted registration, nothing is registered. |
| DiagnosticFixAssert.ValuesOf | Gu.Roslyn.Asserts/DiagnosticFixAssert.cs:202-208 | Succeeds exactly when every location lies in the text. Each location then gives the assertion's id, message and severity with the location's line span. |
| DiagnosticFixAssert.GetAssertedValues | Gu.Roslyn.Asserts/DiagnosticFixAssert.cs:202-208 | Succeeds exactly when every location lies in the text, with one value per location over all assertions. |
| DiagnosticFixAssert.AssertedValuesOfOne | Gu.Roslyn.Asserts/DiagnosticFixAssert.cs:202-208 | One assertion yields its own values, in location order. |
| DiagnosticFixAssert.AssertedValuesAppend | Gu.Roslyn.Asserts/DiagnosticFixAssert.cs:202-208 | The values of two runs of assertions are the first run's values followed by the second's. |
| DiagnosticFixAssert.NoDiagnostics | Gu.Roslyn.Asserts/DiagnosticFixAssert.cs:54-71 | A parse failure is passed on, and any assertion comment is rejected first. It passes exactly when the code has no assertion comments and the analyzer reports nothing. |
| DiagnosticFixAssert.CheckNoFix | Gu.Roslyn.Asserts/DiagnosticFixAssert.cs:97-115 | Passes exactly when the provider registers nothing for any diagnostic, whether it swallows or not. A swallowed assertion is rethrown. |
| DiagnosticFixAssert.DiagnosticsWithNoFixAsWritten | Gu.Roslyn.Asserts/DiagnosticFixAssert.cs:83-116 | As written it fails when the asserted values are the same set as the reported ones. It passes only when the two sets differ. |
| DiagnosticFixAssert.DiagnosticsWithNoFix | Gu.Roslyn.Asserts/DiagnosticFixAssert.cs:83-116 | The intended assertion passes exactly when the comments parse, the reported values are the asserted set, and the provider registers no fix. |
| DiagnosticFixAssert.NoFixAsWrittenRejectsExactMatch | Gu.Roslyn.Asserts/DiagnosticFixAssert.cs:91-95 | Code without assertions, for which nothing is reported, fails as written and passes as intended. |
| DiagnosticFixAssert.NoFixAsWrittenAcceptsUnasserted | Gu.Roslyn.Asserts/DiagnosticFixAssert.cs:91-95 | An unasserted diagnostic without a fix passes as written and fails as intended. |
| DiagnosticFixAssert.NoDiagnosticsIsNoFixOfNothing | Gu.Roslyn.Asserts/DiagnosticFixAssert.cs:54-116 | Without assertion comments, the intended `DiagnosticsWithNoFix` passes exactly when `NoDiagnostics` does, whatever the provider. |
| DiagnosticFixAssert.FixStage | Gu.Roslyn.Asserts/DiagnosticFixAssert.cs:155-175 | A provider that registers nothing fails with "no code fix registered with the title". |
| DiagnosticFixAssert.FixStagePassesIff | Gu.Roslyn.Asserts/DiagnosticFixAssert.cs:155-175 | With a provider that lets exceptions out, the fix stage passes exactly when the provider registers only the expected action, for the expected diagnostic. |
| DiagnosticFixAssert.SwallowedFixStage | Gu.Roslyn.Asserts/DiagnosticFixAssert.cs:155-175 | With a swallowing provider, the first registration with the expected diagnostic and title decides. Only a content mismatch in it fails. |
| DiagnosticFixAssert.Prepare | Gu.Roslyn.Asserts/DiagnosticFixAssert.cs:130-143 | The checks come in this order: the parse, exactly one asserted location, the diff, the location in the text. On success the verifier's target is the cleaned text, the title, the asserted values and the diff's result. |
| DiagnosticFixAssert.Decide | Gu.Roslyn.Asserts/DiagnosticFixAssert.cs:143-175 | Intended: fails unless exactly one reported diagnostic has the asserted values. Otherwise the fix stage runs for that diagnostic. |
| DiagnosticFixAssert.DecideAsWritten | Gu.Roslyn.Asserts/DiagnosticFixAssert.cs:143-175 | As written it agrees with `Decide` for at most one reported diagnostic. With one match among several diagnostics it fails on `Single()`. |
| DiagnosticFixAssert.SingleFix | Gu.Roslyn.Asserts/DiagnosticFixAssert.cs:128-176 | The checks of `Prepare` come first, whatever the analyzer reports. A pass needs exactly one matching diagnostic and some registration for it. |
| DiagnosticFixAssert.SingleFixAsWritten | Gu.Roslyn.Asserts/DiagnosticFixAssert.cs:128-176 | As written it agrees with the intended assertion for at most one reported diagnostic. It fails when the matching diagnostic comes with others. |
| DiagnosticFixAssert.SingleFixPassesIff | Gu.Roslyn.Asserts/DiagnosticFixAssert.cs:128-176 | With a provider that lets exceptions out, it passes exactly under three conditions. `Prepare` passes, one reported diagnostic has the asserted values, and the provider registers only the titled action whose change yields the diff's text. |
| DiagnosticFixAssert.OtherDiagnosticsIgnored | Gu.Roslyn.Asserts/DiagnosticFixAssert.cs:145-153 | A reported diagnostic without the asserted values does not change the intended decision. |
| DiagnosticFixAssert.AsWrittenFailsOnOtherDiagnostic | Gu.Roslyn.Asserts/DiagnosticFixAssert.cs:157-163 | As written, a second diagnostic next to the matching one fails before the provider is asked. As intended, the decision is the one taken without it. |

## Left out

- The Roslyn parser and `DescendantTrivia` are inputs, as the document's trivia in order with their kinds, spans and trivia lists. `GetParentTriviaList` picks the list by id rather than by the token's leading-trivia span.
- Line breaks are limited to `\r\n`, `\r` and `\n`. Roslyn's `SourceText` also breaks lines at U+0085, U+2028 and U+2029.
- The analyzer run (`GetAllAnalyzerDiagnostics`), the workspace and the compilation are not modelled. The reported diagnostics are an input, and each is compared by the values of `GetComparedValues`.
- The mapping from a `Location` to its line span inside `GetComparedValues` is not modelled.
- `GetOperationsAsync`, solutions and documents are not modelled. An action is its title plus a list of operations, each an `ApplyChangesOperation` with the changed document's text or another kind.
- A code-fix provider is its registrations per diagnostic and a flag for swallowing. A swallowing provider catches around each registration and goes on. Other exceptions a provider throws itself are not modelled.
- `ReferenceEquals` of diagnostics in `SingleFixVerifier` is modelled as equality of their compared values.
- The regular expressions behind `CodeReader.FileName` and `CodeReader.Namespace` are uninterpreted functions. This includes the `{T,U}` suffix for generic type arguments, which is part of the type-name function's result.
- Exception messages are error variants without their text. `DiffSyntaxFacts.FormatActualAndExpectedMessage` and its writer, and the file name and full texts that `CodeAssert` echoes, are not modelled.
- `SourceText.WithChanges` is modelled for changes in text order and otherwise fails. Roslyn's sorting of unordered changes is not modelled, because the loop always records removals in text order when trivia arrive in document order.
- The obsolete `ExpectedDiagnostic(analyzer, span)` constructor and the `RoslynAssert` overloads that only forward an id are not modelled. `MetaDataReferencesAttribute` and the analyzers' own fixes such as `StandardNamesFix` are not part of this model.
- `VerifyNoCompilerErrorsAsync` builds an error report after deciding to fail. Only the decision and the list of included diagnostics are modelled.
- Null descriptors are modelled only in `VerifySingleSupportedDiagnostic`, the one place that checks for them.
- Running the test suite's C# tests is outside the model. Their expectations are stated as lemmas, for example `ParseFormatted`, `CreatedFromCodeMatches` and `FixStagePassesIff`.
- Characters are Unicode scalar values. .NET strings and `SourceText` count UTF-16 code units, so every position, column and span after a character outside the Basic Multilingual Plane is one less here per such character, and a lone surrogate cannot be written at all.
- AssertionSyntaxFacts.WalkUp: the ensures gives only bounds and the shape of the lines. The collected lines are stated by `WalkUpLines`, where the walk stops by `WalkUpStops`, and when it fails by `WalkUpFails`.
- AssertionSyntaxFacts.ProcessTrivia: the ensures states only the bookkeeping. What the loop collects is stated by `ProcessTriviaBlocks`.
- AssertionSyntaxFacts.ParseSyntaxAssertions: the ensures relates the result to the loop. Its relation to the blocks of the comments is stated by `ParsedFromBlocks`.
- DiagnosticFixAssert.FixStage: the ensures states only the no-registration case. The full behaviour is stated by `FixStagePassesIff` and `SwallowedFixStage`.

## Findings

| source | as written | input that shows it | evidently intended | confidence | as-written member | corrected member |
|---|---|---|---|---|---|---|
| Gu.Roslyn.Asserts/DiagnosticFixAssert.cs:91-95 | `DiagnosticsWithNoFix` throws when the asserted values equal the reported ones (`SetEquals` without negation) | code with no assertion comments, for which the analyzer reports nothing; or one unasserted diagnostic, which passes | throw when the sets differ, as the method's documentation says | not executed | DiagnosticFixAssert.DiagnosticsWithNoFixAsWritten (with NoFixAsWrittenRejectsExactMatch, NoFixAsWrittenAcceptsUnasserted) | DiagnosticFixAssert.DiagnosticsWithNoFix |
| Gu.Roslyn.Asserts/DiagnosticFixAssert.cs:157-163 | the provider's context is built with `diagnostics.Single()` over all reported diagnostics | the matching diagnostic plus any other reported diagnostic: `Single()` throws | pass the one matching diagnostic, `matchingDiagnostics.Single()`, as the verifier already receives | not executed | DiagnosticFixAssert.DecideAsWritten (with AsWrittenFailsOnOtherDiagnostic) | DiagnosticFixAssert.Decide (with OtherDiagnosticsIgnored) |
| Gu.Roslyn.Asserts/DiagnosticFixAssert.SingleFixVerifier.cs:38-41 | the guard is `diagnostics.Length != 1 && ReferenceEquals(diagnostics[0], expected)` | an action registered for one other diagnostic passes; an empty list throws on the index | reject unless the one diagnostic is the expected one: `Length != 1 \|\| !ReferenceEquals(...)` | not executed | SingleFixVerifier.CheckDiagnosticsAsWritten (with GuardAsWrittenLetsOthersThrough, ExpectedFixForOtherDiagnostic) | SingleFixVerifier.CheckDiagnostics (with OnlyTheExpectedFixPasses) |
