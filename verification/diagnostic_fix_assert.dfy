/** `DiagnosticFixAssert`: assertions over code whose expected diagnostics are
    written as comments. The comments are parsed first; the analyzer's
    diagnostics for the cleaned text and the code-fix provider's behaviour are
    given as inputs. */
module DiagnosticFixAssert {
  import opened Wrappers
  import opened Text
  import opened SyntaxAssertions
  import opened CodeActions
  import AssertionSyntaxFacts
  import DiffSyntaxFacts
  import NoFix = NoFixVerifier
  import SingleFixVerifier

  /** What `ParseSyntaxAssertions` returns for the code under test. */
  type Parsed = Result<SourceTextWithAssertions, AssertionSyntaxFacts.ParseError>

  /** The exceptions of the three assertions. */
  datatype FixAssertError =
    | ParseFailed(parseError: AssertionSyntaxFacts.ParseError)  // from parsing the comments
    | AssertionsPresent                  // ArgumentException: NoDiagnostics with assertion comments
    | DiagnosticsMismatch                // AssertException: the diagnostics are not the asserted ones
    | NotSingleLocation(count: nat)      // ArgumentException: SingleFix needs exactly one location
    | DiffFailed(diffError: DiffSyntaxFacts.DiffError)
    | LocationOutOfRange                 // a location past the end of the cleaned text
    | NotSingleMatch(count: nat)         // AssertException: not exactly one matching diagnostic
    | NotSingleDiagnostic(count: nat)    // InvalidOperationException from Single()
    | FixFailed(exception: FixException) // thrown by the verifier, directly or rethrown
    | NoActionRegistered(title: string)  // AssertException: no fix with the title

  // ------------------------------------------------------- asserted values

  /** The number of locations over all assertions. */
  function TotalLocations(assertions: seq<DiagnosticAssertion>): nat {
    if assertions == [] then 0
    else TotalLocations(assertions[..|assertions| - 1]) + |assertions[|assertions| - 1].locations|
  }

  predicate LocationsInText(text: string, locations: seq<TextSpan>) {
    forall k :: 0 <= k < |locations| ==> locations[k].End() <= |text|
  }

  predicate AllInText(text: string, assertions: seq<DiagnosticAssertion>) {
    forall i :: 0 <= i < |assertions| ==> LocationsInText(text, assertions[i].locations)
  }

  /** The values asserted at each of the given locations of one assertion:
      its id, message and severity, and the location's line span. */
  function ValuesOf(text: string, a: DiagnosticAssertion, locations: seq<TextSpan>): (r: Result<seq<DiagnosticValues>, FixAssertError>)
    ensures r.Success? <==> LocationsInText(text, locations)
    ensures r.Failure? ==> r.error == LocationOutOfRange
    ensures r.Success? ==> |r.value| == |locations| && forall k :: 0 <= k < |locations| ==>
      r.value[k] == ValueAt(text, a, locations[k])
  {
    if locations == [] then Success([])
    else
      var init := locations[..|locations| - 1];
      var last := locations[|locations| - 1];
      assert LocationsInText(text, locations) <==> LocationsInText(text, init) && last.End() <= |text| by {
        assert forall k :: 0 <= k < |init| ==> init[k] == locations[k];
      }
      var values := ValuesOf(text, a, init);
      if values.Failure? || last.End() > |text| then Failure(LocationOutOfRange)
      else Success(values.value + [ValueAt(text, a, last)])
  }

  /** The values asserted at one location: the assertion's id, message and
      severity, and the location's line span. */
  function ValueAt(text: string, a: DiagnosticAssertion, location: TextSpan): DiagnosticValues
    requires location.End() <= |text|
  {
    DiagnosticValues(a.diagnosticId, GetLinePositionSpan(text, location), a.message, a.severity)
  }

  /** `GetAssertedValues`: the values of every location of every assertion,
      assertion by assertion; a location outside the text fails. */
  function GetAssertedValues(text: string, assertions: seq<DiagnosticAssertion>): (r: Result<seq<DiagnosticValues>, FixAssertError>)
    ensures r.Success? <==> AllInText(text, assertions)
    ensures r.Failure? ==> r.error == LocationOutOfRange
    ensures r.Success? ==> |r.value| == TotalLocations(assertions)
  {
    if assertions == [] then Success([])
    else
      var init := assertions[..|assertions| - 1];
      var a := assertions[|assertions| - 1];
      assert forall i :: 0 <= i < |init| ==> init[i] == assertions[i];
      var values := GetAssertedValues(text, init);
      var more := ValuesOf(text, a, a.locations);
      if values.Failure? || more.Failure? then Failure(LocationOutOfRange)
      else Success(values.value + more.value)
  }

  /** One assertion yields its own values, in location order. */
  lemma AssertedValuesOfOne(text: string, a: DiagnosticAssertion)
    ensures GetAssertedValues(text, [a]) == ValuesOf(text, a, a.locations)
  {
    assert [a][..0] == [];
    assert GetAssertedValues(text, []) == Success([]);
    if ValuesOf(text, a, a.locations).Success? {
      assert [] + ValuesOf(text, a, a.locations).value == ValuesOf(text, a, a.locations).value;
    }
  }

  /** The values of two runs of assertions are the values of the first
      followed by those of the second. */
  lemma {:induction false} AssertedValuesAppend(text: string, xs: seq<DiagnosticAssertion>, ys: seq<DiagnosticAssertion>)
    requires AllInText(text, xs) && AllInText(text, ys)
    ensures GetAssertedValues(text, xs + ys).Success?
    ensures GetAssertedValues(text, xs + ys).value == GetAssertedValues(text, xs).value + GetAssertedValues(text, ys).value
    decreases |ys|
  {
    var zs := xs + ys;
    assert forall i :: 0 <= i < |zs| ==> zs[i] == if i < |xs| then xs[i] else ys[i - |xs|];
    if ys == [] {
      assert zs == xs;
    } else {
      var init := ys[..|ys| - 1];
      assert forall i :: 0 <= i < |init| ==> init[i] == ys[i];
      AssertedValuesAppend(text, xs, init);
      assert zs[..|zs| - 1] == xs + init;
    }
  }

  // -------------------------------------------------------- NoDiagnostics

  /** `NoDiagnostics`: the code may hold no assertion comment, and the
      analyzer may report nothing for it. */
  function NoDiagnostics(parsed: Parsed, diagnostics: seq<DiagnosticValues>): (r: Outcome<FixAssertError>)
    ensures parsed.Failure? ==> r == Fail(ParseFailed(parsed.error))
    ensures parsed.Success? && parsed.value.diagnosticAssertions != [] ==> r == Fail(AssertionsPresent)
    ensures r == Pass <==> parsed.Success? && parsed.value.diagnosticAssertions == [] && diagnostics == []
  {
    match parsed
    case Failure(e) => Fail(ParseFailed(e))
    case Success(p) =>
      if p.diagnosticAssertions != [] then Fail(AssertionsPresent)
      else if diagnostics != [] then Fail(DiagnosticsMismatch)
      else Pass
  }

  // ------------------------------------------------- DiagnosticsWithNoFix

  /** `SetEquals`: the same values, ignoring order and repetition. */
  predicate SameElements(a: seq<DiagnosticValues>, b: seq<DiagnosticValues>) {
    (forall x :: x in a ==> x in b) && (forall x :: x in b ==> x in a)
  }

  /** The provider registers nothing for any of the diagnostics. */
  predicate NothingRegistered(diagnostics: seq<DiagnosticValues>, provider: Provider) {
    forall k :: 0 <= k < |diagnostics| ==> provider.registrations(diagnostics[k]) == []
  }

  /** The provider is asked for fixes for each diagnostic in turn, with a
      `NoFixVerifier` as the callback; an exception it does not swallow leaves
      the loop. */
  function RunNoFix(st: NoFix.State, diagnostics: seq<DiagnosticValues>, provider: Provider): (r: (NoFix.State, Outcome<FixException>))
    ensures NothingRegistered(diagnostics, provider) ==> r == (st, Pass)
    ensures !NothingRegistered(diagnostics, provider) ==> r.0.thrownAssertion == Some(ExpectedNoFix)
    ensures r.1.Fail? ==> r.1 == Fail(ExpectedNoFix)
    decreases |diagnostics|
  {
    if diagnostics == [] then (st, Pass)
    else
      var rest := diagnostics[1..];
      assert forall k :: 0 <= k < |rest| ==> rest[k] == diagnostics[k + 1];
      var (st1, out) := NoFix.Run(st, provider.registrations(diagnostics[0]), provider.swallows);
      if out.Fail? then (st1, out)
      else RunNoFix(st1, rest, provider)
  }

  /** The fix stage of `DiagnosticsWithNoFix`: an exception that left the
      provider is thrown on, and one it swallowed is rethrown. It passes
      exactly when no fix is registered for any diagnostic. */
  function CheckNoFix(diagnostics: seq<DiagnosticValues>, provider: Provider): (r: Outcome<FixAssertError>)
    ensures r == Pass <==> NothingRegistered(diagnostics, provider)
    ensures r.Fail? ==> r.error == FixFailed(ExpectedNoFix)
  {
    var (st, out) := RunNoFix(NoFix.Initial, diagnostics, provider);
    if out.Fail? then Fail(FixFailed(out.error))
    else if st.thrownAssertion.Some? then Fail(FixFailed(st.thrownAssertion.value))
    else Pass
  }

  /** `DiagnosticsWithNoFix` as written: it fails when the asserted values are
      the same set as the reported ones, and goes on to the fix stage when
      they differ. */
  function DiagnosticsWithNoFixAsWritten(parsed: Parsed, diagnostics: seq<DiagnosticValues>, provider: Provider): (r: Outcome<FixAssertError>)
    ensures parsed.Success? && AllInText(parsed.value.sourceText, parsed.value.diagnosticAssertions) ==>
      (SameElements(GetAssertedValues(parsed.value.sourceText, parsed.value.diagnosticAssertions).value, diagnostics) ==>
        r == Fail(DiagnosticsMismatch))
    ensures r == Pass ==> (parsed.Success? && AllInText(parsed.value.sourceText, parsed.value.diagnosticAssertions)
      && !SameElements(GetAssertedValues(parsed.value.sourceText, parsed.value.diagnosticAssertions).value, diagnostics))
  {
    match parsed
    case Failure(e) => Fail(ParseFailed(e))
    case Success(p) =>
      match GetAssertedValues(p.sourceText, p.diagnosticAssertions)
      case Failure(e) => Fail(e)
      case Success(asserted) =>
        if SameElements(asserted, diagnostics) then Fail(DiagnosticsMismatch)
        else CheckNoFix(diagnostics, provider)
  }

  /** `DiagnosticsWithNoFix` with the comparison the documentation describes:
      it passes exactly when the reported diagnostics are the asserted ones
      and the provider registers no fix for any of them. */
  function DiagnosticsWithNoFix(parsed: Parsed, diagnostics: seq<DiagnosticValues>, provider: Provider): (r: Outcome<FixAssertError>)
    ensures parsed.Failure? ==> r == Fail(ParseFailed(parsed.error))
    ensures r == Pass <==>
      && parsed.Success?
      && AllInText(parsed.value.sourceText, parsed.value.diagnosticAssertions)
      && SameElements(GetAssertedValues(parsed.value.sourceText, parsed.value.diagnosticAssertions).value, diagnostics)
      && NothingRegistered(diagnostics, provider)
  {
    match parsed
    case Failure(e) => Fail(ParseFailed(e))
    case Success(p) =>
      match GetAssertedValues(p.sourceText, p.diagnosticAssertions)
      case Failure(e) => Fail(e)
      case Success(asserted) =>
        if !SameElements(asserted, diagnostics) then Fail(DiagnosticsMismatch)
        else CheckNoFix(diagnostics, provider)
  }

  /** Code without assertions, for which the analyzer reports nothing, fails
      as written although it is exactly what was asserted; the intended
      comparison passes it. */
  lemma NoFixAsWrittenRejectsExactMatch(text: string, provider: Provider)
    ensures DiagnosticsWithNoFixAsWritten(Success(SourceTextWithAssertions(text, [])), [], provider) == Fail(DiagnosticsMismatch)
    ensures DiagnosticsWithNoFix(Success(SourceTextWithAssertions(text, [])), [], provider) == Pass
  {
  }

  /** As written, a diagnostic that no comment asserts, and for which the
      provider has no fix, passes; the intended comparison rejects it. */
  lemma NoFixAsWrittenAcceptsUnasserted(text: string, d: DiagnosticValues, provider: Provider)
    requires provider.registrations(d) == []
    ensures DiagnosticsWithNoFixAsWritten(Success(SourceTextWithAssertions(text, [])), [d], provider) == Pass
    ensures DiagnosticsWithNoFix(Success(SourceTextWithAssertions(text, [])), [d], provider) == Fail(DiagnosticsMismatch)
  {
    assert !SameElements([], [d]) by {
      assert d in [d];
    }
  }

  /** Without assertion comments, `DiagnosticsWithNoFix` passes exactly when
      `NoDiagnostics` does, whatever the provider. */
  lemma NoDiagnosticsIsNoFixOfNothing(parsed: Parsed, diagnostics: seq<DiagnosticValues>, provider: Provider)
    requires parsed.Success? ==> parsed.value.diagnosticAssertions == []
    ensures NoDiagnostics(parsed, diagnostics) == Pass <==> DiagnosticsWithNoFix(parsed, diagnostics, provider) == Pass
  {
    if parsed.Success? && diagnostics != [] {
      assert diagnostics[0] in diagnostics;
    }
  }

  // ------------------------------------------------------------- SingleFix

  /** The number of reported diagnostics with the given values. */
  function CountEqual(diagnostics: seq<DiagnosticValues>, v: DiagnosticValues): (n: nat)
    ensures n <= |diagnostics|
    ensures n == 0 <==> v !in diagnostics
  {
    if diagnostics == [] then 0
    else
      var init := diagnostics[..|diagnostics| - 1];
      assert diagnostics == init + [diagnostics[|diagnostics| - 1]];
      CountEqual(init, v) + (if diagnostics[|diagnostics| - 1] == v then 1 else 0)
  }

  /** The action `SingleFix` expects. */
  function ExpectedAction(t: SingleFixVerifier.Target): CodeAction {
    CodeAction(t.title, [ApplyChanges(Some(t.expectedFixResult))])
  }

  /** The fix stage of `SingleFix`: the provider is asked for fixes for `d`
      with a `SingleFixVerifier` as the callback. An exception that left the
      provider is thrown on, one it swallowed is rethrown, and otherwise an
      action must have been registered. */
  function FixStage(t: SingleFixVerifier.Target, d: DiagnosticValues, provider: Provider): (r: Outcome<FixAssertError>)
    ensures provider.registrations(d) == [] ==> r == Fail(NoActionRegistered(t.title))
  {
    var (st, out) := SingleFixVerifier.Run(t, SingleFixVerifier.Initial, provider.registrations(d), provider.swallows);
    if out.Fail? then Fail(FixFailed(out.error))
    else if st.thrownAssertion.Some? then Fail(FixFailed(st.thrownAssertion.value))
    else if !st.actionWasRegistered then Fail(NoActionRegistered(t.title))
    else Pass
  }

  /** With a provider that lets exceptions out, the fix stage passes exactly
      when the provider makes one registration: the expected action for the
      expected diagnostic. */
  lemma FixStagePassesIff(t: SingleFixVerifier.Target, provider: Provider)
    requires !provider.swallows
    ensures FixStage(t, t.expectedDiagnostic, provider) == Pass <==>
      provider.registrations(t.expectedDiagnostic) == [Registration(ExpectedAction(t), [t.expectedDiagnostic])]
  {
    SingleFixVerifier.OnlyTheExpectedFixPasses(t, provider.registrations(t.expectedDiagnostic));
  }

  /** With a provider that swallows exceptions, the first registration that
      names the expected diagnostic and title decides: a content mismatch in
      it is rethrown, but one whose operations the verifier rejects for their
      number or kind passes, because only content mismatches are recorded. */
  lemma SwallowedFixStage(t: SingleFixVerifier.Target, provider: Provider, k: nat)
    requires provider.swallows
    requires k < |provider.registrations(t.expectedDiagnostic)|
    requires SingleFixVerifier.Accepted(t, provider.registrations(t.expectedDiagnostic)[k])
    requires forall j :: 0 <= j < k ==> !SingleFixVerifier.Accepted(t, provider.registrations(t.expectedDiagnostic)[j])
    ensures var action := provider.registrations(t.expectedDiagnostic)[k].action;
      FixStage(t, t.expectedDiagnostic, provider) == Pass <==>
        !(|action.operations| == 1 && action.operations[0].ApplyChanges? && action.operations[0].changedText.Some?
          && action.operations[0].changedText.value != t.expectedFixResult)
  {
    SingleFixVerifier.SwallowedRunDecidedByFirstAccepted(t, provider.registrations(t.expectedDiagnostic), k);
  }

  /** The values of the single asserted location, when there is exactly one
      and it lies in the text. */
  function AssertedValue(p: SourceTextWithAssertions): Option<DiagnosticValues> {
    if TotalLocations(p.diagnosticAssertions) == 1 && AllInText(p.sourceText, p.diagnosticAssertions) then
      Some(GetAssertedValues(p.sourceText, p.diagnosticAssertions).value[0])
    else None
  }

  /** The checks of `SingleFix` before the analyzer's diagnostics are looked
      at, in their order: exactly one location must be asserted, the diff must
      apply to the cleaned text, and the location must lie in it. The result
      is what the verifier is built with. */
  function Prepare(parsed: Parsed, title: string, expectedDiff: string): (r: Result<SingleFixVerifier.Target, FixAssertError>)
    ensures parsed.Failure? ==> r == Failure(ParseFailed(parsed.error))
    ensures parsed.Success? && TotalLocations(parsed.value.diagnosticAssertions) != 1 ==>
      r == Failure(NotSingleLocation(TotalLocations(parsed.value.diagnosticAssertions)))
    ensures parsed.Success? && TotalLocations(parsed.value.diagnosticAssertions) == 1 ==>
      (DiffSyntaxFacts.ApplyDiff(parsed.value.sourceText, expectedDiff).Failure? ==>
        r == Failure(DiffFailed(DiffSyntaxFacts.ApplyDiff(parsed.value.sourceText, expectedDiff).error)))
    ensures r.Success? <==> (parsed.Success? && AssertedValue(parsed.value).Some?
      && DiffSyntaxFacts.ApplyDiff(parsed.value.sourceText, expectedDiff).Success?)
    ensures r.Success? ==> r.value == SingleFixVerifier.Target(parsed.value.sourceText, title,
      AssertedValue(parsed.value).value, DiffSyntaxFacts.ApplyDiff(parsed.value.sourceText, expectedDiff).value)
  {
    match parsed
    case Failure(e) => Failure(ParseFailed(e))
    case Success(p) =>
      var count := TotalLocations(p.diagnosticAssertions);
      if count != 1 then Failure(NotSingleLocation(count))
      else match DiffSyntaxFacts.ApplyDiff(p.sourceText, expectedDiff)
        case Failure(e) => Failure(DiffFailed(e))
        case Success(expectedFix) =>
          match GetAssertedValues(p.sourceText, p.diagnosticAssertions)
          case Failure(e) => Failure(e)
          case Success(asserted) => Success(SingleFixVerifier.Target(p.sourceText, title, asserted[0], expectedFix))
  }

  /** The decision of `SingleFix` once `Prepare` has built the target:
      exactly one reported diagnostic must have the asserted values, and the
      provider, asked for fixes for that diagnostic, must fix it as the diff
      says. */
  function Decide(t: SingleFixVerifier.Target, diagnostics: seq<DiagnosticValues>, provider: Provider): (r: Outcome<FixAssertError>)
    ensures CountEqual(diagnostics, t.expectedDiagnostic) != 1 ==> r == Fail(NotSingleMatch(CountEqual(diagnostics, t.expectedDiagnostic)))
    ensures CountEqual(diagnostics, t.expectedDiagnostic) == 1 ==> r == FixStage(t, t.expectedDiagnostic, provider)
  {
    var matching := CountEqual(diagnostics, t.expectedDiagnostic);
    if matching != 1 then Fail(NotSingleMatch(matching))
    else FixStage(t, t.expectedDiagnostic, provider)
  }

  /** The decision as written: the provider's context is built with
      `diagnostics.Single()`, which fails when the analyzer reports any other
      diagnostic besides the matching one. */
  function DecideAsWritten(t: SingleFixVerifier.Target, diagnostics: seq<DiagnosticValues>, provider: Provider): (r: Outcome<FixAssertError>)
    ensures |diagnostics| <= 1 ==> r == Decide(t, diagnostics, provider)
    ensures CountEqual(diagnostics, t.expectedDiagnostic) == 1 && |diagnostics| > 1 ==> r == Fail(NotSingleDiagnostic(|diagnostics|))
  {
    var matching := CountEqual(diagnostics, t.expectedDiagnostic);
    if matching != 1 then Fail(NotSingleMatch(matching))
    else if |diagnostics| != 1 then Fail(NotSingleDiagnostic(|diagnostics|))
    else
      assert diagnostics[0] == t.expectedDiagnostic by {
        assert diagnostics == [] + [diagnostics[0]];
      }
      FixStage(t, diagnostics[0], provider)
  }

  /** `SingleFix` with the matching diagnostic handed to the provider: the
      checks of `Prepare` come first, whatever the analyzer reports, and a pass
      needs one matching diagnostic for which the provider registers a fix. */
  function SingleFix(parsed: Parsed, title: string, expectedDiff: string, diagnostics: seq<DiagnosticValues>, provider: Provider): (r: Outcome<FixAssertError>)
    ensures Prepare(parsed, title, expectedDiff).Failure? ==> r == Fail(Prepare(parsed, title, expectedDiff).error)
    ensures r == Pass ==> (Prepare(parsed, title, expectedDiff).Success?
      && var v := Prepare(parsed, title, expectedDiff).value.expectedDiagnostic;
      CountEqual(diagnostics, v) == 1 && provider.registrations(v) != [])
  {
    match Prepare(parsed, title, expectedDiff)
    case Failure(e) => Fail(e)
    case Success(t) => Decide(t, diagnostics, provider)
  }

  /** `SingleFix` as written: it agrees with the intended one while the
      analyzer reports at most one diagnostic, and fails on `Single()` when it
      reports the matching one and others. */
  function SingleFixAsWritten(parsed: Parsed, title: string, expectedDiff: string, diagnostics: seq<DiagnosticValues>, provider: Provider): (r: Outcome<FixAssertError>)
    ensures |diagnostics| <= 1 ==> r == SingleFix(parsed, title, expectedDiff, diagnostics, provider)
    ensures (Prepare(parsed, title, expectedDiff).Success? && |diagnostics| > 1
      && CountEqual(diagnostics, Prepare(parsed, title, expectedDiff).value.expectedDiagnostic) == 1) ==>
      r == Fail(NotSingleDiagnostic(|diagnostics|))
  {
    match Prepare(parsed, title, expectedDiff)
    case Failure(e) => Fail(e)
    case Success(t) => DecideAsWritten(t, diagnostics, provider)
  }

  /** With a provider that lets exceptions out, `SingleFix` passes exactly
      when the checks of `Prepare` pass, one reported diagnostic has the
      asserted values, and the provider registers, for it, only the action
      with the title whose one change yields the text the diff describes. */
  lemma SingleFixPassesIff(parsed: Parsed, title: string, expectedDiff: string, diagnostics: seq<DiagnosticValues>, provider: Provider)
    requires !provider.swallows
    ensures SingleFix(parsed, title, expectedDiff, diagnostics, provider) == Pass <==>
      && Prepare(parsed, title, expectedDiff).Success?
      && var t := Prepare(parsed, title, expectedDiff).value;
      && CountEqual(diagnostics, t.expectedDiagnostic) == 1
      && provider.registrations(t.expectedDiagnostic) == [Registration(ExpectedAction(t), [t.expectedDiagnostic])]
  {
    if Prepare(parsed, title, expectedDiff).Success? {
      FixStagePassesIff(Prepare(parsed, title, expectedDiff).value, provider);
    }
  }

  /** A reported diagnostic without the asserted values does not change the
      decision. */
  lemma OtherDiagnosticsIgnored(t: SingleFixVerifier.Target, diagnostics: seq<DiagnosticValues>, other: DiagnosticValues, provider: Provider)
    requires other != t.expectedDiagnostic
    ensures Decide(t, diagnostics + [other], provider) == Decide(t, diagnostics, provider)
  {
    var ds := diagnostics + [other];
    assert ds[..|ds| - 1] == diagnostics;
  }

  /** As written, a second reported diagnostic next to the matching one makes
      `Single()` fail before the provider is asked, while the intended
      decision is the one taken without it. */
  lemma AsWrittenFailsOnOtherDiagnostic(t: SingleFixVerifier.Target, other: DiagnosticValues, provider: Provider)
    requires other != t.expectedDiagnostic
    ensures DecideAsWritten(t, [t.expectedDiagnostic, other], provider) == Fail(NotSingleDiagnostic(2))
    ensures Decide(t, [t.expectedDiagnostic, other], provider) == Decide(t, [t.expectedDiagnostic], provider)
  {
    var v := t.expectedDiagnostic;
    assert [v, other][..1] == [v] && [v][..0] == [];
    OtherDiagnosticsIgnored(t, [v], other, provider);
    assert [v] + [other] == [v, other];
  }
}
