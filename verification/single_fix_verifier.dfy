/** `SingleFixVerifier`: the `RegisterCodeFix` callback of `SingleFix`. It
    accepts one action, with the expected title, for the expected diagnostic,
    whose one operation changes the document to the expected text. */
module SingleFixVerifier {
  import opened Wrappers
  import opened CodeActions

  /** What the verifier is constructed with. */
  datatype Target = Target(originalSource: string, title: string, expectedDiagnostic: DiagnosticValues, expectedFixResult: string)

  /** `ActionWasRegistered` and `ThrownAssertion`. */
  datatype State = State(actionWasRegistered: bool, thrownAssertion: Option<FixException>)

  const Initial := State(false, None)

  /** What the state can hold: an assertion is thrown only for an action that
      was registered, and it is always a content mismatch. */
  predicate Consistent(st: State) {
    st.thrownAssertion.Some? ==> st.actionWasRegistered && st.thrownAssertion.value.FixDiffers?
  }

  /** The action `SingleFix` expects: the title, and one operation that
      changes the document to the expected text. */
  predicate IsExpected(t: Target, action: CodeAction) {
    action.title == t.title && action.operations == [ApplyChanges(Some(t.expectedFixResult))]
  }

  /** A registration the verifier does not reject before looking at whether an
      action was already registered: it is for the expected diagnostic alone,
      and the action has the expected title. */
  predicate Accepted(t: Target, reg: Registration) {
    reg.diagnostics == [t.expectedDiagnostic] && reg.action.title == t.title
  }

  // ------------------------------------------------------ diagnostics guard

  /** The diagnostics guard as intended: the action must be registered for
      the expected diagnostic and no other. */
  function CheckDiagnostics(expected: DiagnosticValues, diagnostics: seq<DiagnosticValues>): (r: Outcome<FixException>)
    ensures r == Pass <==> diagnostics == [expected]
    ensures r.Fail? ==> r.error == DiagnosticNotPassed
  {
    if |diagnostics| != 1 || diagnostics[0] != expected then Fail(DiagnosticNotPassed) else Pass
  }

  /** The diagnostics guard as written: it throws only when the list does not
      hold exactly one diagnostic and its first diagnostic is the expected one;
      an empty list fails on the index. */
  function CheckDiagnosticsAsWritten(expected: DiagnosticValues, diagnostics: seq<DiagnosticValues>): (r: Outcome<FixException>)
    ensures r.Fail? <==> |diagnostics| != 1 && (|diagnostics| == 0 || diagnostics[0] == expected)
    ensures |diagnostics| == 0 ==> r == Fail(IndexOutOfRange)
    ensures r.Fail? && |diagnostics| > 0 ==> r.error == DiagnosticNotPassed
  {
    if |diagnostics| != 1 then
      if |diagnostics| == 0 then Fail(IndexOutOfRange)
      else if diagnostics[0] == expected then Fail(DiagnosticNotPassed)
      else Pass
    else Pass
  }

  /** An action with the same title as a single diagnostic that is not the
      expected one passes the guard as written, and so does a list of two
      diagnostics that starts with another one; the intended guard rejects
      both. */
  lemma GuardAsWrittenLetsOthersThrough(expected: DiagnosticValues, other: DiagnosticValues)
    requires other != expected
    ensures CheckDiagnosticsAsWritten(expected, [other]) == Pass
    ensures CheckDiagnosticsAsWritten(expected, [other, expected]) == Pass
    ensures CheckDiagnostics(expected, [other]) == Fail(DiagnosticNotPassed)
    ensures CheckDiagnostics(expected, [other, expected]) == Fail(DiagnosticNotPassed)
    ensures CheckDiagnosticsAsWritten(expected, []) == Fail(IndexOutOfRange)
  {
  }

  // ------------------------------------------------------------ registering

  /** Everything after the diagnostics guard: the title is checked, then
      whether an action was already registered; the action is then marked as
      registered before its operations are looked at, and only a content
      mismatch is recorded as the thrown assertion. */
  function Apply(t: Target, st: State, action: CodeAction): (r: (State, Outcome<FixException>))
    ensures action.title != t.title ==> r == (st, Fail(TitleDiffers(action.title)))
    ensures action.title == t.title && st.actionWasRegistered ==> r == (st, Fail(MoreThanOneAction))
    ensures action.title == t.title && !st.actionWasRegistered ==> r.0.actionWasRegistered
    ensures action.title == t.title && !st.actionWasRegistered && |action.operations| != 1 ==>
      r == (st.(actionWasRegistered := true), Fail(OperationCountNotOne(|action.operations|)))
    ensures r.1 == Pass <==> !st.actionWasRegistered && IsExpected(t, action)
    ensures r.1 == Pass ==> r.0 == st.(actionWasRegistered := true)
    ensures r.0.thrownAssertion != st.thrownAssertion ==>
      r.0.thrownAssertion.Some? && r.0.thrownAssertion.value.FixDiffers? && r.1 == Fail(r.0.thrownAssertion.value)
    ensures Consistent(st) ==> Consistent(r.0)
  {
    if action.title != t.title then (st, Fail(TitleDiffers(action.title)))
    else if st.actionWasRegistered then (st, Fail(MoreThanOneAction))
    else
      var registered := st.(actionWasRegistered := true);
      if |action.operations| != 1 then (registered, Fail(OperationCountNotOne(|action.operations|)))
      else match action.operations[0]
        case OtherOperation => (registered, Fail(NotApplyChanges))
        case ApplyChanges(None) => (registered, Fail(DocumentMissing))
        case ApplyChanges(Some(actual)) =>
          if actual != t.expectedFixResult then
            var thrown := FixDiffers(actual);
            (registered.(thrownAssertion := Some(thrown)), Fail(thrown))
          else (registered, Pass)
  }

  /** `RegisterCodeFix` with the intended guard: a registration for anything
      but the expected diagnostic is rejected and changes nothing. */
  function RegisterCodeFix(t: Target, st: State, action: CodeAction, diagnostics: seq<DiagnosticValues>): (r: (State, Outcome<FixException>))
    ensures diagnostics != [t.expectedDiagnostic] ==> r == (st, Fail(DiagnosticNotPassed))
    ensures diagnostics == [t.expectedDiagnostic] ==> r == Apply(t, st, action)
  {
    match CheckDiagnostics(t.expectedDiagnostic, diagnostics)
    case Fail(e) => (st, Fail(e))
    case Pass => Apply(t, st, action)
  }

  /** `RegisterCodeFix` as written: the guard lets a registration for a
      single other diagnostic through to the title and content checks, and of
      several diagnostics it rejects only those that start with the expected
      one. */
  function RegisterCodeFixAsWritten(t: Target, st: State, action: CodeAction, diagnostics: seq<DiagnosticValues>): (r: (State, Outcome<FixException>))
    ensures |diagnostics| == 1 ==> r == Apply(t, st, action)
    ensures diagnostics == [] ==> r == (st, Fail(IndexOutOfRange))
    ensures |diagnostics| > 1 && diagnostics[0] == t.expectedDiagnostic ==> r == (st, Fail(DiagnosticNotPassed))
    ensures |diagnostics| > 1 && diagnostics[0] != t.expectedDiagnostic ==> r == Apply(t, st, action)
  {
    match CheckDiagnosticsAsWritten(t.expectedDiagnostic, diagnostics)
    case Fail(e) => (st, Fail(e))
    case Pass => Apply(t, st, action)
  }

  /** The expected fix, registered for another diagnostic, is accepted as
      written and rejected with the intended guard. */
  lemma ExpectedFixForOtherDiagnostic(t: Target, action: CodeAction, other: DiagnosticValues)
    requires IsExpected(t, action) && other != t.expectedDiagnostic
    ensures RegisterCodeFixAsWritten(t, Initial, action, [other]) == (State(true, None), Pass)
    ensures RegisterCodeFix(t, Initial, action, [other]) == (Initial, Fail(DiagnosticNotPassed))
  {
  }

  /** Once an action is registered, every further registration is rejected
      and leaves the state as it was. */
  lemma RegisteredRejectsAll(t: Target, st: State, action: CodeAction, diagnostics: seq<DiagnosticValues>)
    requires st.actionWasRegistered
    ensures RegisterCodeFix(t, st, action, diagnostics).0 == st
    ensures RegisterCodeFix(t, st, action, diagnostics).1.Fail?
  {
  }

  // ------------------------------------------------------------------ runs

  /** A provider's registrations for one diagnostic, with the verifier as the
      callback: an exception the provider does not swallow ends the run. */
  function Run(t: Target, st: State, regs: seq<Registration>, swallows: bool): (r: (State, Outcome<FixException>))
    ensures r.1.Fail? ==> !swallows && regs != []
    ensures st.actionWasRegistered ==> r.0.actionWasRegistered
    ensures Consistent(st) ==> Consistent(r.0)
    ensures Consistent(st) && st.thrownAssertion.Some? ==> r.0.thrownAssertion == st.thrownAssertion
    decreases |regs|
  {
    if regs == [] then (st, Pass)
    else
      var (st1, out) := RegisterCodeFix(t, st, regs[0].action, regs[0].diagnostics);
      if out.Fail? && !swallows then (st1, out)
      else Run(t, st1, regs[1..], swallows)
  }

  /** Registrations that come after an action was registered change nothing;
      unless they are swallowed, the first of them ends the run. */
  lemma {:induction false} RunAfterRegistered(t: Target, st: State, regs: seq<Registration>, swallows: bool)
    requires st.actionWasRegistered
    ensures Run(t, st, regs, swallows).0 == st
    ensures Run(t, st, regs, swallows).1.Fail? <==> regs != [] && !swallows
    decreases |regs|
  {
    if regs != [] {
      RegisteredRejectsAll(t, st, regs[0].action, regs[0].diagnostics);
      RunAfterRegistered(t, st, regs[1..], swallows);
    }
  }

  /** With a provider that lets exceptions out, the run ends normally with
      an action registered and nothing thrown exactly when the provider makes
      one registration, of the expected action for the expected diagnostic. */
  lemma OnlyTheExpectedFixPasses(t: Target, regs: seq<Registration>)
    ensures var (st, out) := Run(t, Initial, regs, false);
      (out == Pass && st.actionWasRegistered && st.thrownAssertion.None?) <==>
      (|regs| == 1 && regs[0].diagnostics == [t.expectedDiagnostic] && IsExpected(t, regs[0].action))
  {
    if regs != [] {
      var (st1, out1) := RegisterCodeFix(t, Initial, regs[0].action, regs[0].diagnostics);
      if out1 == Pass {
        RunAfterRegistered(t, st1, regs[1..], false);
      }
    }
  }

  /** With a provider that swallows exceptions, registrations before the first
      accepted one change nothing, and those after it change nothing either:
      the run ends in the state that first accepted action leads to. */
  lemma {:induction false} SwallowedRunDecidedByFirstAccepted(t: Target, regs: seq<Registration>, k: nat)
    requires k < |regs| && Accepted(t, regs[k])
    requires forall j :: 0 <= j < k ==> !Accepted(t, regs[j])
    ensures Run(t, Initial, regs, true).0 == Apply(t, Initial, regs[k].action).0
    decreases k
  {
    var r0 := regs[0];
    if k == 0 {
      var st1 := Apply(t, Initial, r0.action).0;
      RunAfterRegistered(t, st1, regs[1..], true);
    } else {
      assert !Accepted(t, r0);
      assert RegisterCodeFix(t, Initial, r0.action, r0.diagnostics).0 == Initial;
      var rest := regs[1..];
      assert forall j :: 0 <= j < k - 1 ==> rest[j] == regs[j + 1];
      SwallowedRunDecidedByFirstAccepted(t, rest, k - 1);
    }
  }

  /** With a provider that swallows exceptions and makes no acceptable
      registration, no action is registered. */
  lemma {:induction false} SwallowedRunWithoutAccepted(t: Target, regs: seq<Registration>)
    requires forall j :: 0 <= j < |regs| ==> !Accepted(t, regs[j])
    ensures Run(t, Initial, regs, true) == (Initial, Pass)
    decreases |regs|
  {
    if regs != [] {
      var rest := regs[1..];
      assert forall j :: 0 <= j < |rest| ==> rest[j] == regs[j + 1];
      assert !Accepted(t, regs[0]);
      SwallowedRunWithoutAccepted(t, rest);
    }
  }
}
