/** The records that stand in for the compiler's diagnostics, code actions and
    code-fix providers in the fix assertions, and the exceptions the two
    `RegisterCodeFix` verifiers throw. */
module CodeActions {
  import opened Wrappers
  import opened Text
  import opened Diagnostics

  /** `GetComparedValues`: what the fix assertions compare of a diagnostic, its
      id, its line span, its formatted message and its severity. A reported
      diagnostic is identified with these values. */
  datatype DiagnosticValues = DiagnosticValues(id: string, span: LinePositionSpan, message: string, severity: Severity)

  /** One operation of a code action: an `ApplyChangesOperation`, holding the
      text of the tested document in its changed solution (`None` when that
      solution no longer has the document), or an operation of another kind. */
  datatype Operation = ApplyChanges(changedText: Option<string>) | OtherOperation

  /** A code action: its title and the operations `GetOperationsAsync` yields. */
  datatype CodeAction = CodeAction(title: string, operations: seq<Operation>)

  /** One call a provider makes to `context.RegisterCodeFix`. */
  datatype Registration = Registration(action: CodeAction, diagnostics: seq<DiagnosticValues>)

  /** A code-fix provider: the registrations `RegisterCodeFixesAsync` makes
      for the diagnostic of its context, in order. When one of them throws, a
      provider either lets the exception out, which ends its call, or
      (`swallows`) catches it and goes on with the next registration. */
  datatype Provider = Provider(registrations: DiagnosticValues -> seq<Registration>, swallows: bool)

  /** The exceptions the verifiers throw from `RegisterCodeFix`. */
  datatype FixException =
    | DiagnosticNotPassed              // ArgumentException: the registration is for another diagnostic
    | IndexOutOfRange                  // indexing an empty diagnostics list
    | TitleDiffers(title: string)      // ArgumentException: an action with an unexpected title
    | MoreThanOneAction                // ArgumentException: a second action with the title
    | OperationCountNotOne(count: nat) // NotImplementedException
    | NotApplyChanges                  // NotImplementedException: another kind of operation
    | DocumentMissing                  // ArgumentException: the changed solution lost the document
    | FixDiffers(actual: string)       // AssertException: the fixed text is not the expected one
    | ExpectedNoFix                    // AssertException: a fix was registered where none may be
}
