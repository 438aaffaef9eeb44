/** The immutable results of parsing code whose expected diagnostics are
    written as comments. Both are plain records: every accessor returns the
    value given at construction, and nothing is validated. */
module SyntaxAssertions {
  import opened Text
  import opened Diagnostics

  /** `DiagnosticAssertion`: the diagnostic expected at the given spans of the
      cleaned text. */
  datatype DiagnosticAssertion = DiagnosticAssertion(
    diagnosticId: string,
    message: string,
    severity: Severity,
    locations: seq<TextSpan>)

  /** `SourceTextWithAssertions`: the text with the assertion comments removed,
      and the assertions that were read from them. */
  datatype SourceTextWithAssertions = SourceTextWithAssertions(
    sourceText: string,
    diagnosticAssertions: seq<DiagnosticAssertion>)
}
