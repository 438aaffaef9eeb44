/** The compiler's diagnostic vocabulary shared by the assertion routines. */
module Diagnostics {
  import opened Text

  /** `DiagnosticSeverity`, in increasing order of importance. */
  datatype Severity = Hidden | Info | Warning | Error

  /** A reported diagnostic, reduced to what the assertions compare: its id,
      its location, its formatted message and its severity. */
  datatype Diagnostic = Diagnostic(id: string, span: TextSpan, message: string, severity: Severity)
}
