/** The few .NET string operations the library relies on, over `seq<char>`. */
module Strings {
  import opened Wrappers

  /** `char.IsWhiteSpace`: the Unicode space separators, line and paragraph
      separators, the control characters U+0009..U+000D and U+0085. */
  predicate IsWhiteSpace(c: char) {
    || ('\U{0009}' <= c <= '\U{000D}')
    || c == ' '
    || c == '\U{0085}'
    || c == '\U{00A0}'
    || c == '\U{1680}'
    || ('\U{2000}' <= c <= '\U{200A}')
    || c == '\U{2028}'
    || c == '\U{2029}'
    || c == '\U{202F}'
    || c == '\U{205F}'
    || c == '\U{3000}'
  }

  /** No leading and no trailing white space. */
  predicate IsTrimmed(s: string) {
    s == [] || (!IsWhiteSpace(s[0]) && !IsWhiteSpace(s[|s| - 1]))
  }

  predicate AllWhiteSpace(s: string) {
    forall i :: 0 <= i < |s| ==> IsWhiteSpace(s[i])
  }

  /** `TrimStart()`: the longest suffix that does not start with white space. */
  function TrimStart(s: string): (r: string)
    ensures |r| <= |s| && r == s[|s| - |r|..]
    ensures AllWhiteSpace(s[..|s| - |r|])
    ensures r == [] || !IsWhiteSpace(r[0])
  {
    if s != [] && IsWhiteSpace(s[0]) then TrimStart(s[1..]) else s
  }

  /** `TrimEnd()`: the longest prefix that does not end with white space. */
  function TrimEnd(s: string): (r: string)
    ensures |r| <= |s| && r == s[..|r|]
    ensures AllWhiteSpace(s[|r|..])
    ensures r == [] || !IsWhiteSpace(r[|r| - 1])
  {
    if s != [] && IsWhiteSpace(s[|s| - 1]) then
      var r := TrimEnd(s[..|s| - 1]);
      assert s[|r|..] == s[..|s| - 1][|r|..] + [s[|s| - 1]];
      r
    else s
  }

  /** `Trim()`: `s` without its leading and trailing white space. */
  function Trim(s: string): (r: string)
    ensures IsTrimmed(r)
    ensures |r| <= |s|
    decreases |s|
  {
    if s == [] then s
    else if IsWhiteSpace(s[0]) then Trim(s[1..])
    else if IsWhiteSpace(s[|s| - 1]) then Trim(s[..|s| - 1])
    else s
  }

  /** Trimming both ends is trimming the start and then the end, so the result
      is the slice of `s` that `TrimStart` and `TrimEnd` describe. */
  lemma {:induction false} TrimIsTrimEndOfTrimStart(s: string)
    ensures Trim(s) == TrimEnd(TrimStart(s))
    decreases |s|
  {
    if s == [] {
    } else if IsWhiteSpace(s[0]) {
      TrimIsTrimEndOfTrimStart(s[1..]);
    } else if IsWhiteSpace(s[|s| - 1]) {
      var init := s[..|s| - 1];
      TrimIsTrimEndOfTrimStart(init);
      assert init != [] && init[0] == s[0];
      TrimStartOfTrimmed(init);
      TrimStartOfTrimmed(s);
    } else {
      TrimStartOfTrimmed(s);
      TrimEndOfTrimmed(s);
    }
  }

  lemma {:induction false} TrimStartOfTrimmed(s: string)
    requires s == [] || !IsWhiteSpace(s[0])
    ensures TrimStart(s) == s
  {
  }

  lemma {:induction false} TrimEndOfTrimmed(s: string)
    requires s == [] || !IsWhiteSpace(s[|s| - 1])
    ensures TrimEnd(s) == s
  {
  }

  /** Trimming a string that is already trimmed changes nothing. */
  lemma TrimOfTrimmed(s: string)
    requires IsTrimmed(s)
    ensures Trim(s) == s
  {
  }

  /** Leading white space is skipped by `TrimStart`. */
  lemma {:induction false} TrimStartSkipsWhiteSpace(w: string, s: string)
    requires AllWhiteSpace(w)
    requires s == [] || !IsWhiteSpace(s[0])
    ensures TrimStart(w + s) == s
  {
    if w == [] {
      assert w + s == s;
    } else {
      assert (w + s)[1..] == w[1..] + s;
      TrimStartSkipsWhiteSpace(w[1..], s);
    }
  }

  /** `IndexOf(c)`: the first index holding `c`, or `None` for -1. */
  function IndexOf(s: string, c: char): (r: Option<nat>)
    ensures r.None? <==> c !in s
    ensures r.Some? ==> r.value < |s| && s[r.value] == c && c !in s[..r.value]
  {
    if s == [] then None
    else if s[0] == c then Some(0)
    else
      match IndexOf(s[1..], c)
      case None => None
      case Some(i) =>
        assert s[..i + 1] == [s[0]] + s[1..][..i];
        Some(i + 1)
  }

  /** `string.Join(sep, parts)`. */
  function Join(sep: string, parts: seq<string>): string {
    if parts == [] then []
    else if |parts| == 1 then parts[0]
    else parts[0] + sep + Join(sep, parts[1..])
  }

  /** Total length of a sequence of strings. */
  function TotalLength(parts: seq<string>): nat {
    if parts == [] then 0 else |parts[0]| + TotalLength(parts[1..])
  }

  /** A join inserts exactly one separator between neighbouring parts. */
  lemma {:induction false} JoinLength(sep: string, parts: seq<string>)
    requires parts != []
    ensures |Join(sep, parts)| == TotalLength(parts) + (|parts| - 1) * |sep|
  {
    if |parts| > 1 {
      JoinLength(sep, parts[1..]);
    }
  }

  /** Number of occurrences of `c` in `s`. */
  function Count(c: char, s: string): nat
    ensures Count(c, s) <= |s|
  {
    if s == [] then 0 else (if s[|s| - 1] == c then 1 else 0) + Count(c, s[..|s| - 1])
  }

  lemma {:induction false} CountAppend(c: char, s: string, t: string)
    ensures Count(c, s + t) == Count(c, s) + Count(c, t)
  {
    if t != [] {
      assert (s + t)[..|s + t| - 1] == s + t[..|t| - 1];
      CountAppend(c, s, t[..|t| - 1]);
    } else {
      assert s + t == s;
    }
  }

  lemma CountZero(c: char, s: string)
    ensures Count(c, s) == 0 <==> c !in s
  {
    if s != [] {
      CountZero(c, s[..|s| - 1]);
      assert s == s[..|s| - 1] + [s[|s| - 1]];
    }
  }

  /** `s` with every occurrence of `c` deleted (`Replace(c, "")`). */
  function Remove(c: char, s: string): (r: string)
    ensures c !in r
    ensures |r| == |s| - Count(c, s)
  {
    if s == [] then []
    else Remove(c, s[..|s| - 1]) + (if s[|s| - 1] == c then [] else [s[|s| - 1]])
  }

  lemma {:induction false} RemoveAppend(c: char, s: string, t: string)
    ensures Remove(c, s + t) == Remove(c, s) + Remove(c, t)
  {
    if t == [] {
      assert s + t == s;
    } else {
      assert (s + t)[..|s + t| - 1] == s + t[..|t| - 1];
      RemoveAppend(c, s, t[..|t| - 1]);
    }
  }

  /** Deleting a character that does not occur changes nothing. */
  lemma {:induction false} RemoveOfAbsent(c: char, s: string)
    requires c !in s
    ensures Remove(c, s) == s
  {
    if s != [] {
      assert forall x :: x in s[..|s| - 1] ==> x in s;
      RemoveOfAbsent(c, s[..|s| - 1]);
      assert s == s[..|s| - 1] + [s[|s| - 1]];
    }
  }

  /** Inserting a copy of `c` anywhere changes nothing once `c` is deleted. */
  lemma RemoveInsert(c: char, p: string, q: string)
    ensures Remove(c, p + [c] + q) == Remove(c, p + q)
  {
    var cs: string := [c];
    assert Remove(c, cs) == [] by {
      assert cs[..|cs| - 1] == [];
    }
    RemoveAppend(c, p + cs, q);
    RemoveAppend(c, p, cs);
    RemoveAppend(c, p, q);
  }

  /** Deleting a character keeps the occurrences of every other character. */
  lemma {:induction false} CountRemove(c: char, d: char, s: string)
    requires c != d
    ensures Count(d, Remove(c, s)) == Count(d, s)
  {
    if s != [] {
      var init := s[..|s| - 1];
      var last := if s[|s| - 1] == c then [] else [s[|s| - 1]];
      CountRemove(c, d, init);
      CountAppend(d, Remove(c, init), last);
    }
  }

  /** Occurrences in a prefix are occurrences in the whole. */
  lemma CountPrefix(c: char, s: string, i: nat)
    requires i <= |s|
    ensures Count(c, s[..i]) <= Count(c, s)
  {
    CountAppend(c, s[..i], s[i..]);
    assert s[..i] + s[i..] == s;
  }

  /** `s.Split(c)`: the pieces between the occurrences of `c`. */
  function Split(s: string, c: char): (r: seq<string>)
    ensures |r| == Count(c, s) + 1
    ensures forall k :: 0 <= k < |r| ==> c !in r[k]
    decreases |s|
  {
    if s == [] then [[]]
    else
      var init := Split(s[..|s| - 1], c);
      var last := s[|s| - 1];
      if last == c then init + [[]]
      else init[..|init| - 1] + [init[|init| - 1] + [last]]
  }

  lemma {:induction false} JoinSnoc(sep: string, parts: seq<string>, x: string)
    requires parts != []
    ensures Join(sep, parts + [x]) == Join(sep, parts) + sep + x
    decreases |parts|
  {
    if |parts| == 1 {
      assert parts + [x] == [parts[0], x];
    } else {
      assert (parts + [x])[1..] == parts[1..] + [x];
      JoinSnoc(sep, parts[1..], x);
    }
  }

  /** Joining the pieces with the separator gives back the text. */
  lemma {:induction false} JoinSplit(s: string, c: char)
    ensures Join([c], Split(s, c)) == s
    decreases |s|
  {
    if s != [] {
      var init := Split(s[..|s| - 1], c);
      JoinSplit(s[..|s| - 1], c);
      var last := s[|s| - 1];
      assert s == s[..|s| - 1] + [last];
      if last == c {
        JoinSnoc([c], init, []);
      } else {
        var n := |init|;
        var front := init[..n - 1];
        assert init == front + [init[n - 1]];
        if n == 1 {
          assert Split(s, c) == [init[0] + [last]];
        } else {
          JoinSnoc([c], front, init[n - 1]);
          JoinSnoc([c], front, init[n - 1] + [last]);
        }
      }
    }
  }

  /** `s.TrimStart(c)`: the longest suffix that does not start with `c`. */
  function TrimStartChar(c: char, s: string): (r: string)
    ensures |r| <= |s| && r == s[|s| - |r|..]
    ensures forall k :: 0 <= k < |s| - |r| ==> s[k] == c
    ensures r == [] || r[0] != c
  {
    if s != [] && s[0] == c then TrimStartChar(c, s[1..]) else s
  }

  /** `s.TrimEnd(c)`: the longest prefix that does not end with `c`. */
  function TrimEndChar(c: char, s: string): (r: string)
    ensures |r| <= |s| && r == s[..|r|]
    ensures forall k :: |r| <= k < |s| ==> s[k] == c
    ensures r == [] || r[|r| - 1] != c
  {
    if s != [] && s[|s| - 1] == c then TrimEndChar(c, s[..|s| - 1]) else s
  }

  /** `s.Trim(c)`: `s` without the copies of `c` at either end. */
  function TrimChar(c: char, s: string): (r: string)
    ensures |r| <= |s|
    ensures r == [] || (r[0] != c && r[|r| - 1] != c)
  {
    var t := TrimStartChar(c, s);
    var r := TrimEndChar(c, t);
    assert r != [] ==> r[0] == t[0];
    r
  }

  /** The length of the longest common prefix: the first index where the two
      texts differ, or the shorter length when one is a prefix of the other. */
  function CommonPrefixLength(a: string, b: string): (n: nat)
    ensures n <= |a| && n <= |b| && a[..n] == b[..n]
    ensures n < |a| && n < |b| ==> a[n] != b[n]
  {
    if a == [] || b == [] || a[0] != b[0] then 0
    else
      var m := CommonPrefixLength(a[1..], b[1..]);
      assert a[..m + 1] == [a[0]] + a[1..][..m];
      assert b[..m + 1] == [b[0]] + b[1..][..m];
      m + 1
  }

  /** The common prefix length is the one index that satisfies its contract. */
  lemma {:induction false} CommonPrefixIs(a: string, b: string, n: nat)
    requires n <= |a| && n <= |b| && a[..n] == b[..n]
    requires n < |a| && n < |b| ==> a[n] != b[n]
    ensures CommonPrefixLength(a, b) == n
    decreases n
  {
    if n > 0 {
      assert a[0] == a[..n][0] == b[..n][0] == b[0];
      assert a[1..][..n - 1] == a[1..n] && b[1..][..n - 1] == b[1..n];
      assert a[1..n] == a[..n][1..] == b[..n][1..] == b[1..n];
      CommonPrefixIs(a[1..], b[1..], n - 1);
    }
  }
}
