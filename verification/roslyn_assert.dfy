/** The decisions `RoslynAssert` takes once the analyzers and fixes have run:
    which diagnostics an analyzer supports, how ids are listed in messages,
    which diagnostics count as introduced by a fix, and which expected document
    a fixed document is compared with. */
module RoslynAssert {
  import opened Wrappers
  import opened Strings
  import opened Sequences
  import opened Diagnostics
  import opened CodeReader
  import opened CodeAssert

  /** `DiagnosticDescriptor`, reduced to its id. */
  datatype DiagnosticDescriptor = DiagnosticDescriptor(id: string)

  /** `DiagnosticSettings.AllowedDiagnostics()`: which severities a fixed
      solution may contain. `NoneAllowed` is the setting named `None`. */
  datatype AllowedDiagnostics = Warnings | NoneAllowed | WarningsAndErrors

  /** The `AssertException`s of these checks. */
  datatype AssertError =
    | NoSupportedDiagnostics
    | ManySupportedDiagnostics
    | NullDescriptor
    | DuplicateId(id: string)
    | IdNotSupported(id: string)
    | MultipleWithId(id: string)
    | NotFixable
    | DocumentCountMismatch(expected: nat, actual: nat)
    | DocumentNotExpected(fileName: string, namespaceName: string)
    | CodeDiffers(mismatch: CodeMismatch)
    | IntroducedDiagnostics(introduced: seq<Diagnostic>)

  // ------------------------------------------- supported diagnostics

  /** `VerifySingleSupportedDiagnostic`: the analyzer must support exactly one
      descriptor, and it must not be null; that descriptor is the result. */
  function VerifySingleSupportedDiagnostic(supported: seq<Option<DiagnosticDescriptor>>): (r: Result<DiagnosticDescriptor, AssertError>)
    ensures r.Success? <==> |supported| == 1 && supported[0].Some?
    ensures r.Success? ==> r.value == supported[0].value
    ensures supported == [] ==> r == Failure(NoSupportedDiagnostics)
    ensures |supported| > 1 ==> r == Failure(ManySupportedDiagnostics)
    ensures |supported| == 1 && supported[0].None? ==> r == Failure(NullDescriptor)
  {
    if |supported| == 0 then Failure(NoSupportedDiagnostics)
    else if |supported| > 1 then Failure(ManySupportedDiagnostics)
    else match supported[0]
      case None => Failure(NullDescriptor)
      case Some(descriptor) => Success(descriptor)
  }

  /** The first id, in order, that occurs more than once: the key of the first
      group of more than one in `ToLookup(x => x.Id)`. */
  function FirstRepeated(ids: seq<string>): (r: Option<string>)
    ensures r.None? <==> forall k :: 0 <= k < |ids| ==> Occurrences(ids, ids[k]) <= 1
    ensures r.Some? ==> r.value in ids && Occurrences(ids, r.value) > 1
  {
    FirstRepeatedFrom(ids, 0)
  }

  function FirstRepeatedFrom(ids: seq<string>, i: nat): (r: Option<string>)
    requires i <= |ids|
    ensures r.None? <==> forall k :: i <= k < |ids| ==> Occurrences(ids, ids[k]) <= 1
    ensures r.Some? ==> r.value in ids && Occurrences(ids, r.value) > 1
    decreases |ids| - i
  {
    if i == |ids| then None
    else if Occurrences(ids, ids[i]) > 1 then Some(ids[i])
    else FirstRepeatedFrom(ids, i + 1)
  }

  /** `VerifyAnalyzerSupportsDiagnostic`: a non-empty list of supported ids
      with fewer distinct ids than entries fails first; then the expected id
      must occur, and must not occur twice. */
  function VerifyAnalyzerSupportsDiagnostic(ids: seq<string>, expectedId: string): (r: Outcome<AssertError>)
    ensures r.Pass? <==> Distinct(ids) && expectedId in ids
    ensures r.Fail? && r.error.DuplicateId? ==> !Distinct(ids) && Occurrences(ids, r.error.id) > 1
    ensures r.Fail? && r.error.IdNotSupported? ==> Distinct(ids) && expectedId !in ids && r.error.id == expectedId
    ensures !(r.Fail? && r.error.MultipleWithId?)
  {
    DistinctIffSetSize(ids);
    if |ids| > 0 && |ids| != |ToSet(ids)| then
      DuplicateFound(ids);
      Fail(DuplicateId(FirstRepeated(ids).value))
    else
      var descriptors := Occurrences(ids, expectedId);
      OccurrencesOfDistinct(ids, expectedId);
      if descriptors == 0 then Fail(IdNotSupported(expectedId))
      else if descriptors > 1 then Fail(MultipleWithId(expectedId))
      else Pass
  }

  /** When the ids are not distinct some id occurs twice. */
  lemma DuplicateFound(ids: seq<string>)
    requires !Distinct(ids)
    ensures FirstRepeated(ids).Some?
  {
    var i, j :| 0 <= i < j < |ids| && ids[i] == ids[j];
    TwoOccurrences(ids, i, j);
  }

  lemma {:induction false} TwoOccurrences(ids: seq<string>, i: nat, j: nat)
    requires i < j < |ids| && ids[i] == ids[j]
    ensures Occurrences(ids, ids[i]) > 1
  {
    if i > 0 {
      TwoOccurrences(ids[1..], i - 1, j - 1);
    } else {
      assert ids[1..][j - 1] == ids[j];
    }
  }

  /** `VerifyAnalyzerSupportsDiagnostics`: the single check for each expected
      id in order; the first failure is the result. */
  function VerifyAnalyzerSupportsDiagnostics(ids: seq<string>, expectedIds: seq<string>): (r: Outcome<AssertError>)
    ensures r.Pass? <==> forall k :: 0 <= k < |expectedIds| ==> VerifyAnalyzerSupportsDiagnostic(ids, expectedIds[k]).Pass?
  {
    if expectedIds == [] then Pass
    else
      var first := VerifyAnalyzerSupportsDiagnostic(ids, expectedIds[0]);
      if first.Fail? then first
      else
        var rest := VerifyAnalyzerSupportsDiagnostics(ids, expectedIds[1..]);
        assert forall k :: 1 <= k < |expectedIds| ==> expectedIds[k] == expectedIds[1..][k - 1];
        rest
  }

  /** A failure of the plural check is the failure of the single check for
      one expected id, all of whose predecessors are supported. */
  lemma {:induction false} SupportsAllFailsAtFirst(ids: seq<string>, expectedIds: seq<string>)
    requires VerifyAnalyzerSupportsDiagnostics(ids, expectedIds).Fail?
    ensures exists k :: (0 <= k < |expectedIds|
      && VerifyAnalyzerSupportsDiagnostics(ids, expectedIds) == VerifyAnalyzerSupportsDiagnostic(ids, expectedIds[k])
      && forall j :: 0 <= j < k ==> expectedIds[j] in ids)
  {
    if VerifyAnalyzerSupportsDiagnostic(ids, expectedIds[0]).Pass? {
      var rest := expectedIds[1..];
      SupportsAllFailsAtFirst(ids, rest);
      var k :| 0 <= k < |rest|
        && VerifyAnalyzerSupportsDiagnostics(ids, rest) == VerifyAnalyzerSupportsDiagnostic(ids, rest[k])
        && forall j :: 0 <= j < k ==> rest[j] in ids;
      assert expectedIds[k + 1] == rest[k];
      assert forall j :: 1 <= j < k + 1 ==> expectedIds[j] == rest[j - 1];
    }
  }

  /** The plural check passes exactly when there is nothing to check, or the
      supported ids are distinct and contain every expected id. */
  lemma SupportsAllIff(ids: seq<string>, expectedIds: seq<string>)
    ensures VerifyAnalyzerSupportsDiagnostics(ids, expectedIds).Pass?
      <==> expectedIds == [] || (Distinct(ids) && forall k :: 0 <= k < |expectedIds| ==> expectedIds[k] in ids)
  {
    if expectedIds != [] {
      assert VerifyAnalyzerSupportsDiagnostic(ids, expectedIds[0]).Pass? <==> Distinct(ids) && expectedIds[0] in ids;
    }
  }

  /** Whether two id lists share an id, scanning the first. */
  function AnyShared(a: seq<string>, b: seq<string>): (r: bool)
    ensures r <==> exists x :: x in a && x in b
  {
    if a == [] then false
    else if a[0] in b then true
    else
      var r := AnyShared(a[1..], b);
      assert forall x :: x in a ==> x == a[0] || x in a[1..];
      r
  }

  /** `VerifyCodeFixSupportsAnalyzer`: the analyzer's ids and the fix's fixable
      ids must intersect. */
  function VerifyCodeFixSupportsAnalyzer(analyzerIds: seq<string>, fixableIds: seq<string>): (r: Outcome<AssertError>)
    ensures r.Pass? <==> exists x :: x in analyzerIds && x in fixableIds
    ensures r.Fail? ==> r.error == NotFixable
  {
    if AnyShared(analyzerIds, fixableIds) then Pass else Fail(NotFixable)
  }

  // ------------------------------------------------------- messages

  /** `Format`: one id as `'id'`, any other number of ids as `{a, b, ...}`
      (`TrySingle` succeeds only for exactly one element). */
  function Format(ids: seq<string>): (r: string)
    ensures |r| >= 2
    ensures r[0] == '\'' <==> |ids| == 1
    ensures |ids| == 1 ==> r[1..|r| - 1] == ids[0] && r[|r| - 1] == '\''
    ensures |ids| != 1 ==> r[0] == '{' && r[1..|r| - 1] == Join(", ", ids) && r[|r| - 1] == '}'
  {
    if |ids| == 1 then "'" + ids[0] + "'"
    else "{" + Join(", ", ids) + "}"
  }

  // ------------------------------------------- introduced diagnostics

  /** `IsIncluded`: which severities count as introduced by a fix under each
      setting. */
  function IsIncluded(severity: Severity, allowed: AllowedDiagnostics): (r: bool)
    ensures allowed == Warnings ==> (r <==> severity == Error)
    ensures allowed == NoneAllowed ==> (r <==> severity == Error || severity == Warning)
    ensures allowed == WarningsAndErrors ==> !r
  {
    match allowed
    case Warnings => severity == Error
    case NoneAllowed => severity == Error || severity == Warning
    case WarningsAndErrors => false
  }

  /** Allowing more lets fewer diagnostics count: whatever is included when
      warnings are allowed is included when nothing is allowed, and hidden and
      info diagnostics never count. */
  lemma IsIncludedOrdered(severity: Severity)
    ensures IsIncluded(severity, WarningsAndErrors) ==> IsIncluded(severity, Warnings)
    ensures IsIncluded(severity, Warnings) ==> IsIncluded(severity, NoneAllowed)
    ensures severity == Hidden || severity == Info ==> forall a: AllowedDiagnostics :: !IsIncluded(severity, a)
    ensures severity == Error ==> (IsIncluded(severity, Warnings) && IsIncluded(severity, NoneAllowed))
  {
  }

  /** The diagnostics of the fixed solution that count under the setting, in
      order. */
  function Included(diagnostics: seq<Diagnostic>, allowed: AllowedDiagnostics): (r: seq<Diagnostic>)
    ensures |r| <= |diagnostics|
    ensures forall d :: d in r <==> d in diagnostics && IsIncluded(d.severity, allowed)
  {
    if diagnostics == [] then []
    else
      var rest := Included(diagnostics[1..], allowed);
      assert forall d :: d in diagnostics <==> d == diagnostics[0] || d in diagnostics[1..];
      if IsIncluded(diagnostics[0].severity, allowed) then [diagnostics[0]] + rest else rest
  }

  /** Whether some diagnostic has an id outside `suppressed`: `Except(...).Any()`. */
  function AnyNotSuppressed(ds: seq<Diagnostic>, suppressed: seq<string>): (r: bool)
    ensures r <==> exists d :: d in ds && d.id !in suppressed
  {
    if ds == [] then false
    else if ds[0].id !in suppressed then true
    else
      var r := AnyNotSuppressed(ds[1..], suppressed);
      assert forall d :: d in ds ==> d == ds[0] || d in ds[1..];
      r
  }

  /** The decision of `VerifyNoCompilerErrorsAsync`: the fix fails exactly
      when an included diagnostic has an id that is not suppressed, and then
      the error lists every included diagnostic. */
  function VerifyNoCompilerErrors(diagnostics: seq<Diagnostic>, allowed: AllowedDiagnostics, suppressed: seq<string>): (r: Outcome<AssertError>)
    ensures r.Fail? <==> exists d :: d in diagnostics && IsIncluded(d.severity, allowed) && d.id !in suppressed
    ensures r.Fail? ==> r.error == IntroducedDiagnostics(Included(diagnostics, allowed))
  {
    var introduced := Included(diagnostics, allowed);
    if AnyNotSuppressed(introduced, suppressed) then Fail(IntroducedDiagnostics(introduced)) else Pass
  }

  /** When warnings and errors are allowed no fix introduces anything. */
  lemma NothingIntroducedWhenAllAllowed(diagnostics: seq<Diagnostic>, suppressed: seq<string>)
    ensures VerifyNoCompilerErrors(diagnostics, WarningsAndErrors, suppressed) == Pass
  {
  }

  // ---------------------------------------------- fixed documents

  /** The two documents have the same namespace and the same file name. */
  predicate SameNames(m: Matchers, a: string, b: string) {
    Namespace(m, a) == Namespace(m, b) && FileName(m, a) == FileName(m, b)
  }

  /** `FindExpected`: the expected document equal to the fixed one if there
      is one, otherwise the first with the same namespace and file name. */
  function FindExpected(m: Matchers, expected: seq<string>, fixedSource: string): (r: Result<string, AssertError>)
    ensures fixedSource in expected ==> r == Success(fixedSource)
    ensures r.Success? ==> r.value in expected
    ensures r.Success? && fixedSource !in expected ==> exists k :: (0 <= k < |expected| && r.value == expected[k]
      && SameNames(m, expected[k], fixedSource) && forall j :: 0 <= j < k ==> !SameNames(m, expected[j], fixedSource))
    ensures r.Failure? <==> fixedSource !in expected && forall k :: 0 <= k < |expected| ==> !SameNames(m, expected[k], fixedSource)
    ensures r.Failure? ==> r.error == DocumentNotExpected(FileName(m, fixedSource), Namespace(m, fixedSource))
  {
    if fixedSource in expected then Success(fixedSource)
    else match FirstWhere(expected, c => SameNames(m, c, fixedSource))
      case Some(k) => Success(expected[k])
      case None => Failure(DocumentNotExpected(FileName(m, fixedSource), Namespace(m, fixedSource)))
  }

  /** Each fixed document in turn against the expected document it finds. */
  function CompareDocuments(m: Matchers, expected: seq<string>, fixedSources: seq<string>, header: Option<string>): (r: Outcome<AssertError>)
    ensures r.Pass? <==> forall k :: 0 <= k < |fixedSources| ==> DocumentMatches(m, expected, fixedSources[k], header)
  {
    if fixedSources == [] then Pass
    else
      var doc := fixedSources[0];
      var found := FindExpected(m, expected, doc);
      if found.Failure? then Fail(found.error)
      else
        var compared := Comparison(found.value, doc, header);
        if compared.Fail? then Fail(CodeDiffers(compared.error))
        else
          var rest := CompareDocuments(m, expected, fixedSources[1..], header);
          assert forall k :: 1 <= k < |fixedSources| ==> fixedSources[k] == fixedSources[1..][k - 1];
          rest
  }

  /** A fixed document is accepted when an expected document is found for it
      and the two agree up to carriage returns. */
  predicate DocumentMatches(m: Matchers, expected: seq<string>, fixedSource: string, header: Option<string>) {
    var found := FindExpected(m, expected, fixedSource);
    found.Success? && Comparison(found.value, fixedSource, header).Pass?
  }

  /** `AreEqualAsync`: the document counts must agree, then every fixed
      document must match its expected document. */
  function AreEqualDocuments(m: Matchers, expected: seq<string>, fixedSources: seq<string>, header: Option<string>): (r: Outcome<AssertError>)
    ensures |expected| != |fixedSources| ==> r == Fail(DocumentCountMismatch(|expected|, |fixedSources|))
    ensures r.Pass? <==> (|expected| == |fixedSources|
      && forall k :: 0 <= k < |fixedSources| ==> DocumentMatches(m, expected, fixedSources[k], header))
  {
    if |expected| != |fixedSources| then Fail(DocumentCountMismatch(|expected|, |fixedSources|))
    else CompareDocuments(m, expected, fixedSources, header)
  }

  /** A fixed solution holding exactly the expected documents, in any order,
      passes. */
  lemma SameDocumentsPass(m: Matchers, expected: seq<string>, fixedSources: seq<string>, header: Option<string>)
    requires |expected| == |fixedSources|
    requires forall k :: 0 <= k < |fixedSources| ==> fixedSources[k] in expected
    ensures AreEqualDocuments(m, expected, fixedSources, header) == Pass
  {
    forall k | 0 <= k < |fixedSources|
      ensures DocumentMatches(m, expected, fixedSources[k], header)
    {
      ComparisonReflexive(fixedSources[k], header);
    }
  }
}
