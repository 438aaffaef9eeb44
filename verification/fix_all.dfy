/** `MergeFixedCode`: the expected solution after a fix, given the sources
    before it and the one fixed source. */
module RoslynAssertFixAll {
  import opened Wrappers
  import opened Sequences
  import opened CodeReader
  import opened RoslynAssert

  /** The `AssertException`s of the merge. */
  datatype MergeError = ManyWithErrors | NotUniqueClassNames | NoMatch

  /** The source has a `↓` mark (`IndexOf('↓') >= 0`). */
  predicate HasMark(code: string) {
    Mark in code
  }

  /** The test of the second pass: the source has the namespace and the file
      name of `after`. */
  function NamedLike(m: Matchers, after: string): string -> bool {
    c => SameNames(m, c, after)
  }

  /** The merge as a decision: when some source has a mark, that source, which
      must be the only one, is replaced; otherwise the source with the
      namespace and file name of `after`, which must be unique, is replaced. */
  function Merged(m: Matchers, codes: seq<string>, after: string): Result<seq<string>, MergeError> {
    var marked := CountWhere(codes, HasMark);
    var named := CountWhere(codes, NamedLike(m, after));
    if marked > 1 then Failure(ManyWithErrors)
    else if marked == 1 then Success(ReplaceWhere(codes, HasMark, after))
    else if named > 1 then Failure(NotUniqueClassNames)
    else if named == 0 then Failure(NoMatch)
    else Success(ReplaceWhere(codes, NamedLike(m, after), after))
  }

  /** One pass of `MergeFixedCode`: copy the sources, putting `after` in
      place of the first one satisfying `p`; a second one ends the pass with
      `None`. `found` tells whether one was replaced. */
  method ReplacePass(codes: seq<string>, p: string -> bool, after: string) returns (r: Option<seq<string>>, found: bool)
    ensures r.None? <==> CountWhere(codes, p) > 1
    ensures r.Some? ==> r.value == ReplaceWhere(codes, p, after) && (found <==> CountWhere(codes, p) == 1)
  {
    var merged: seq<string> := [];
    found := false;
    var i := 0;
    while i < |codes|
      invariant i <= |codes|
      invariant CountWhere(codes[..i], p) <= 1
      invariant found <==> CountWhere(codes[..i], p) == 1
      invariant merged == ReplaceWhere(codes[..i], p, after)
    {
      assert codes[..i + 1][..i] == codes[..i];
      if p(codes[i]) {
        if found {
          CountWherePrefix(codes, p, i + 1);
          return None, found;
        }
        merged := merged + [after];
        found := true;
      } else {
        merged := merged + [codes[i]];
      }
      i := i + 1;
    }
    assert codes[..|codes|] == codes;
    return Some(merged), found;
  }

  /** `MergeFixedCode`: a pass over the marked sources; when none is marked, a
      second pass over the sources with the namespace and file name of
      `after`, which must find one. */
  method MergeFixedCode(m: Matchers, codes: seq<string>, after: string) returns (r: Result<seq<string>, MergeError>)
    ensures r == Merged(m, codes, after)
  {
    var first, found := ReplacePass(codes, HasMark, after);
    if first.None? {
      return Failure(ManyWithErrors);
    }
    if found {
      return Success(first.value);
    }
    var second, foundByName := ReplacePass(codes, NamedLike(m, after), after);
    if second.None? {
      return Failure(NotUniqueClassNames);
    }
    if !foundByName {
      return Failure(NoMatch);
    }
    return Success(second.value);
  }

  /** A prefix holds at most as many elements satisfying `p` as the whole. */
  lemma {:induction false} CountWherePrefix(xs: seq<string>, p: string -> bool, i: nat)
    requires i <= |xs|
    ensures CountWhere(xs[..i], p) <= CountWhere(xs, p)
    decreases |xs| - i
  {
    if i < |xs| {
      CountWherePrefix(xs, p, i + 1);
      assert xs[..i + 1][..i] == xs[..i];
    } else {
      assert xs[..i] == xs;
    }
  }

  /** On success exactly one source is replaced by `after` and every other is
      kept in place. */
  lemma MergedReplacesOne(m: Matchers, codes: seq<string>, after: string)
    requires Merged(m, codes, after).Success?
    ensures |Merged(m, codes, after).value| == |codes|
    ensures exists k :: (0 <= k < |codes| && Merged(m, codes, after).value[k] == after
      && forall j :: 0 <= j < |codes| && j != k ==> Merged(m, codes, after).value[j] == codes[j])
  {
    if CountWhere(codes, HasMark) == 1 {
      CountWhereOne(codes, HasMark, after);
    } else {
      CountWhereOne(codes, NamedLike(m, after), after);
    }
  }

  /** A single marked source is replaced, whatever the names of the sources. */
  lemma MarkedSourceReplaced(m: Matchers, codes: seq<string>, k: nat, after: string)
    requires k < |codes| && HasMark(codes[k])
    requires forall j :: 0 <= j < |codes| && j != k ==> !HasMark(codes[j])
    ensures Merged(m, codes, after) == Success(codes[k := after])
  {
    OneWhere(codes, HasMark, k, after);
  }

  /** Without marks, the source with the names of `after` is replaced when it
      is the only one with those names. */
  lemma NamedSourceReplaced(m: Matchers, codes: seq<string>, k: nat, after: string)
    requires forall j :: 0 <= j < |codes| ==> !HasMark(codes[j])
    requires k < |codes| && SameNames(m, codes[k], after)
    requires forall j :: 0 <= j < |codes| && j != k ==> !SameNames(m, codes[j], after)
    ensures Merged(m, codes, after) == Success(codes[k := after])
  {
    CountWhereZero(codes, HasMark);
    OneWhere(codes, NamedLike(m, after), k, after);
  }

  /** The element at `k` is the only one satisfying `p`. */
  lemma {:induction false} OneWhere(xs: seq<string>, p: string -> bool, k: nat, y: string)
    requires k < |xs| && p(xs[k])
    requires forall j :: 0 <= j < |xs| && j != k ==> !p(xs[j])
    ensures CountWhere(xs, p) == 1
    ensures ReplaceWhere(xs, p, y) == xs[k := y]
  {
    var init := xs[..|xs| - 1];
    assert forall j :: 0 <= j < |init| ==> init[j] == xs[j];
    if k == |xs| - 1 {
      CountWhereZero(init, p);
    } else {
      OneWhere(init, p, k, y);
    }
  }
}
