/** `NoFixVerifier`: the `RegisterCodeFix` callback used where no fix may be
    registered. Its only state is the assertion it threw, kept so that it can
    be rethrown when the provider swallows it. */
module NoFixVerifier {
  import opened Wrappers
  import opened CodeActions

  datatype State = State(thrownAssertion: Option<FixException>)

  /** A new verifier has thrown nothing. */
  const Initial := State(None)

  /** Every registration, whatever its action and diagnostics, records the
      "no code fix expected" assertion and throws that same assertion. */
  function RegisterCodeFix(st: State, action: CodeAction, diagnostics: seq<DiagnosticValues>): (r: (State, Outcome<FixException>))
    ensures r.0.thrownAssertion == Some(ExpectedNoFix)
    ensures r.1 == Fail(r.0.thrownAssertion.value)
  {
    var thrown := ExpectedNoFix;
    (State(Some(thrown)), Fail(thrown))
  }

  /** A provider's registrations for one diagnostic, with the verifier as the
      callback: an exception the provider does not swallow ends the run. */
  function Run(st: State, regs: seq<Registration>, swallows: bool): (r: (State, Outcome<FixException>))
    ensures regs == [] ==> r == (st, Pass)
    ensures regs != [] ==> r.0.thrownAssertion == Some(ExpectedNoFix)
    ensures r.1.Fail? <==> regs != [] && !swallows
    ensures r.1.Fail? ==> r.1 == Fail(ExpectedNoFix)
    decreases |regs|
  {
    if regs == [] then (st, Pass)
    else
      var (st1, out) := RegisterCodeFix(st, regs[0].action, regs[0].diagnostics);
      if out.Fail? && !swallows then (st1, out)
      else Run(st1, regs[1..], swallows)
  }
}
