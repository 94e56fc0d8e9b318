/** Sequence helpers shared by the roster parser and the election:
    removing every copy of one value, the subsequence relation, and the
    values in front of the first failure. */
module Seqs {
  import opened Wrappers

  /** `r` can be obtained from `s` by deleting elements, keeping the order. */
  predicate IsSubseq<T(==)>(r: seq<T>, s: seq<T>)
    decreases |s|
  {
    if |r| == 0 then true
    else if |s| == 0 then false
    else if r[0] == s[0] then IsSubseq(r[1..], s[1..])
    else IsSubseq(r, s[1..])
  }

  /** `s` with every occurrence of `x` deleted (a list comprehension
      `[y for y in s if y != x]`). */
  function Without<T(==)>(s: seq<T>, x: T): (r: seq<T>)
    ensures x !in r
  {
    if |s| == 0 then []
    else
      var rest := Without(s[1..], x);
      if s[0] == x then rest else [s[0]] + rest
  }

  /** What is left keeps its original order. */
  lemma {:induction false} WithoutIsSubseq<T>(s: seq<T>, x: T)
    ensures IsSubseq(Without(s, x), s)
    decreases |s|
  {
    if |s| > 0 {
      WithoutIsSubseq(s[1..], x);
      var rest := Without(s[1..], x);
      if s[0] == x {
        assert |rest| == 0 || rest[0] != s[0];
      } else {
        assert ([s[0]] + rest)[1..] == rest;
      }
    }
  }

  /** Deleting `x` removes exactly its copies: every other value keeps its
      multiplicity. */
  lemma {:induction false} WithoutCounts<T>(s: seq<T>, x: T)
    ensures multiset(Without(s, x)) == multiset(s)[x := 0]
    decreases |s|
  {
    if |s| > 0 {
      WithoutCounts(s[1..], x);
      assert s == [s[0]] + s[1..];
      assert multiset(s) == multiset([s[0]]) + multiset(s[1..]);
    }
  }

  /** Deleting from a sequence with a known head. */
  lemma WithoutCons<T>(y: T, s: seq<T>, x: T)
    ensures Without([y] + s, x) == (if y == x then [] else [y]) + Without(s, x)
  {
    assert ([y] + s)[0] == y;
    assert ([y] + s)[1..] == s;
  }

  /** The values in front of the first `None`, in order. */
  function TakeSome<T>(s: seq<Option<T>>): (r: seq<T>)
    ensures |r| <= |s|
    ensures forall i :: 0 <= i < |r| ==> s[i] == Some(r[i])
    ensures |r| < |s| ==> s[|r|].None?
  {
    if |s| == 0 || s[0].None? then []
    else
      var rest := TakeSome(s[1..]);
      assert forall i :: 1 <= i <= |rest| ==> s[i] == s[1..][i - 1];
      [s[0].value] + rest
  }

  /** With no `None` at all, every value is taken. */
  lemma TakeSomeAll<T>(s: seq<Option<T>>, xs: seq<T>)
    requires |s| == |xs|
    requires forall i :: 0 <= i < |s| ==> s[i] == Some(xs[i])
    ensures TakeSome(s) == xs
  {
  }
}
