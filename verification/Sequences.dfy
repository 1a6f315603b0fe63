/**
 Sequences without repetitions, and the elements of a sequence.
 */
module Sequences {

  function Elems<T(==)>(s: seq<T>): set<T> {
    set x | x in s
  }

  ghost predicate Distinct<T>(s: seq<T>) {
    forall i, j :: 0 <= i < j < |s| ==> s[i] != s[j]
  }

  lemma {:induction false} DistinctBound<T(!new)>(p: seq<T>, s: set<T>)
    requires Distinct(p) && forall i :: 0 <= i < |p| ==> p[i] in s
    ensures |p| <= |s|
  {
    if p != [] {
      var x := p[|p| - 1];
      DistinctBound(p[..|p| - 1], s - {x});
    }
  }

  lemma {:induction false} DistinctPermutation<T(!new)>(s: seq<T>, r: seq<T>)
    requires Distinct(s) && multiset(s) == multiset(r)
    ensures Distinct(r)
  {
    forall i, j | 0 <= i < j < |r| ensures r[i] != r[j] {
      assert r == r[..i] + [r[i]] + r[i + 1..j] + [r[j]] + r[j + 1..];
      assert multiset(r)[r[i]] >= 1 + multiset([r[j]])[r[i]];
      DistinctCounts(s, r[i]);
    }
  }

  lemma {:induction false} DistinctCounts<T(!new)>(s: seq<T>, x: T)
    requires Distinct(s)
    ensures multiset(s)[x] <= 1
  {
    if s != [] {
      DistinctCounts(s[1..], x);
      assert s == [s[0]] + s[1..];
    }
  }

  lemma {:induction false} OnlyOnce<T>(s: seq<T>, x: T)
    requires x in s && Distinct(s)
    ensures multiset(s)[x] == 1
  {
    var i :| 0 <= i < |s| && s[i] == x;
    assert s == s[..i] + [x] + s[i + 1..];
    assert x !in s[..i] && x !in s[i + 1..];
  }
}
