/** The LINQ-style queries over sequences of strings (ids, sources) that the
    assertion checks use: counting, `Distinct().Count()`, and pairwise
    distinctness. */
module Sequences {
  import opened Wrappers

  /** `xs.Count(y => y == x)`. */
  function Occurrences(xs: seq<string>, x: string): (n: nat)
    ensures n <= |xs|
    ensures n == 0 <==> x !in xs
  {
    if xs == [] then 0 else (if xs[0] == x then 1 else 0) + Occurrences(xs[1..], x)
  }

  /** The elements of `xs` as a set: what `Distinct()` enumerates. */
  function ToSet(xs: seq<string>): (r: set<string>)
    ensures forall x :: x in r <==> x in xs
  {
    if xs == [] then {} else {xs[0]} + ToSet(xs[1..])
  }

  /** No element occurs twice. */
  predicate Distinct(xs: seq<string>) {
    forall i, j :: 0 <= i < j < |xs| ==> xs[i] != xs[j]
  }

  /** `xs.Length == xs.Distinct().Count()` holds exactly when the elements are
      pairwise distinct; otherwise there are fewer distinct elements. */
  lemma {:induction false} DistinctIffSetSize(xs: seq<string>)
    ensures |ToSet(xs)| <= |xs|
    ensures |ToSet(xs)| == |xs| <==> Distinct(xs)
  {
    if xs != [] {
      var rest := xs[1..];
      DistinctIffSetSize(rest);
      if xs[0] in rest {
        assert ToSet(xs) == ToSet(rest);
        var j :| 0 <= j < |rest| && rest[j] == xs[0];
        assert xs[j + 1] == xs[0];
      } else {
        assert xs[0] !in ToSet(rest);
        assert |ToSet(xs)| == 1 + |ToSet(rest)|;
        DistinctCons(xs);
      }
    }
  }

  lemma DistinctCons(xs: seq<string>)
    requires xs != [] && xs[0] !in xs[1..]
    ensures Distinct(xs) <==> Distinct(xs[1..])
  {
    if Distinct(xs[1..]) {
      forall i, j | 0 <= i < j < |xs|
        ensures xs[i] != xs[j]
      {
        if i > 0 {
          assert xs[i] == xs[1..][i - 1] && xs[j] == xs[1..][j - 1];
        } else {
          assert xs[j] == xs[1..][j - 1];
        }
      }
    }
    if Distinct(xs) {
      forall i, j | 0 <= i < j < |xs| - 1
        ensures xs[1..][i] != xs[1..][j]
      {
        assert xs[1..][i] == xs[i + 1] && xs[1..][j] == xs[j + 1];
      }
    }
  }

  /** In a sequence without repetitions every value occurs at most once. */
  lemma {:induction false} OccurrencesOfDistinct(xs: seq<string>, x: string)
    requires Distinct(xs)
    ensures Occurrences(xs, x) <= 1
  {
    if xs != [] {
      var rest := xs[1..];
      assert Distinct(rest) by {
        forall i, j | 0 <= i < j < |rest|
          ensures rest[i] != rest[j]
        {
          assert rest[i] == xs[i + 1] && rest[j] == xs[j + 1];
        }
      }
      OccurrencesOfDistinct(rest, x);
      if xs[0] == x {
        assert x !in rest by {
          forall j | 0 <= j < |rest|
            ensures rest[j] != x
          {
            assert rest[j] == xs[j + 1];
          }
        }
      }
    }
  }

  /** The index of the first element satisfying `p` (`FirstOrDefault`). */
  function FirstWhere(xs: seq<string>, p: string -> bool): (r: Option<nat>)
    ensures r.None? <==> forall k :: 0 <= k < |xs| ==> !p(xs[k])
    ensures r.Some? ==> (r.value < |xs| && p(xs[r.value]) && forall k :: 0 <= k < r.value ==> !p(xs[k]))
  {
    if xs == [] then None
    else if p(xs[0]) then Some(0)
    else
      var rest := FirstWhere(xs[1..], p);
      assert forall k :: 1 <= k < |xs| ==> xs[k] == xs[1..][k - 1];
      match rest
      case None => None
      case Some(k) => Some(k + 1)
  }

  /** `xs.Count(p)`, counted from the end. */
  function CountWhere(xs: seq<string>, p: string -> bool): (n: nat)
    ensures n <= |xs|
  {
    if xs == [] then 0 else CountWhere(xs[..|xs| - 1], p) + (if p(xs[|xs| - 1]) then 1 else 0)
  }

  /** `xs` with every element satisfying `p` replaced by `y`. */
  function ReplaceWhere(xs: seq<string>, p: string -> bool, y: string): (r: seq<string>)
    ensures |r| == |xs|
    ensures forall k :: 0 <= k < |xs| ==> r[k] == if p(xs[k]) then y else xs[k]
  {
    if xs == [] then [] else ReplaceWhere(xs[..|xs| - 1], p, y) + [if p(xs[|xs| - 1]) then y else xs[|xs| - 1]]
  }

  /** No element satisfies `p` exactly when the count is zero. */
  lemma {:induction false} CountWhereZero(xs: seq<string>, p: string -> bool)
    ensures CountWhere(xs, p) == 0 <==> forall k :: 0 <= k < |xs| ==> !p(xs[k])
  {
    if xs != [] {
      var init := xs[..|xs| - 1];
      CountWhereZero(init, p);
      assert forall k :: 0 <= k < |init| ==> init[k] == xs[k];
    }
  }

  /** With exactly one element satisfying `p`, replacing those elements
      replaces just that one. */
  lemma {:induction false} CountWhereOne(xs: seq<string>, p: string -> bool, y: string)
    requires CountWhere(xs, p) == 1
    ensures exists k :: 0 <= k < |xs| && p(xs[k]) && ReplaceWhere(xs, p, y) == xs[k := y]
  {
    var init := xs[..|xs| - 1];
    var last := |xs| - 1;
    assert forall k :: 0 <= k < |init| ==> init[k] == xs[k];
    if p(xs[last]) {
      CountWhereZero(init, p);
      assert ReplaceWhere(xs, p, y) == xs[last := y];
    } else {
      CountWhereOne(init, p, y);
      var k :| 0 <= k < |init| && p(init[k]) && ReplaceWhere(init, p, y) == init[k := y];
      assert ReplaceWhere(xs, p, y) == xs[k := y];
    }
  }
}
