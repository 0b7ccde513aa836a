/** Sequences used as sprite groups: a pygame Group holds each sprite at most
    once and removes a sprite by identity. */
module Seqs {

  /** No element occurs twice. */
  predicate Distinct<T(==)>(s: seq<T>) {
    forall i, j :: 0 <= i < j < |s| ==> s[i] != s[j]
  }

  /** `s` with every occurrence of `x` removed, the rest in order. */
  function Without<T(==)>(s: seq<T>, x: T): seq<T> {
    if s == [] then []
    else (if s[0] == x then [] else [s[0]]) + Without(s[1..], x)
  }

  /** Removing an element that does not occur changes nothing. */
  lemma {:induction false} WithoutAbsent<T>(s: seq<T>, x: T)
    requires x !in s
    ensures Without(s, x) == s
  {
    if s != [] {
      assert s[0] != x && x !in s[1..];
      WithoutAbsent(s[1..], x);
      assert s == [s[0]] + s[1..];
    }
  }

  /** Removing an element that sits exactly once between `p` and `q`. */
  lemma {:induction false} WithoutSplit<T>(p: seq<T>, x: T, q: seq<T>)
    requires x !in p && x !in q
    ensures Without(p + ([x] + q), x) == p + q
  {
    var s := p + ([x] + q);
    if p == [] {
      assert s == [x] + q;
      assert s[0] == x && s[1..] == q;
      WithoutAbsent(q, x);
      assert Without(s, x) == [] + q;
    } else {
      var t := p[1..] + ([x] + q);
      assert s[0] == p[0] && s[1..] == t;
      assert p[0] != x && x !in p[1..];
      WithoutSplit(p[1..], x, q);
      assert Without(s, x) == [p[0]] + (p[1..] + q);
      assert [p[0]] + (p[1..] + q) == p + q;
    }
  }

  /** A prefix of a sequence without duplicates has none either. */
  lemma DistinctPrefix<T>(s: seq<T>, n: int)
    requires Distinct(s) && 0 <= n <= |s|
    ensures Distinct(s[..n])
  {
    assert forall i :: 0 <= i < n ==> s[..n][i] == s[i];
  }

  /** In a duplicate-free sequence the element at `j` occurs nowhere else. */
  lemma DistinctAt<T>(s: seq<T>, j: int)
    requires Distinct(s) && 0 <= j < |s|
    ensures s[j] !in s[..j] && s[j] !in s[j + 1..]
  {
  }

  /** Cutting a sequence at `j`, and moving the cut one place on. */
  lemma SplitAt<T>(s: seq<T>, j: int)
    requires 0 <= j < |s|
    ensures s[j..] == [s[j]] + s[j + 1..]
    ensures s[..j + 1] == s[..j] + [s[j]]
  {
  }

  /** Concatenation is associative. */
  lemma AppendAssoc<T>(a: seq<T>, b: seq<T>, c: seq<T>)
    ensures a + (b + c) == a + b + c
  {
  }
}
