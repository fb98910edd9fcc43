/**
 Row-order-preserving selection, the model of a boolean-mask filter
 `df[mask]`: which rows survive, in which order, and how many times.
 */
module Seqs {

  /** `sub` is obtained from `s` by deleting elements, without reordering. */
  ghost predicate IsSubseq<T>(sub: seq<T>, s: seq<T>)
    decreases |s|
  {
    if |sub| == 0 then true
    else if |s| == 0 then false
    else (sub[0] == s[0] && IsSubseq(sub[1..], s[1..])) || IsSubseq(sub, s[1..])
  }

  /**
   The elements of `s` satisfying `p`, in their original order: an
   order-preserving subsequence that keeps every satisfying occurrence and
   drops every other one.
   */
  function Filter<T(==,!new)>(s: seq<T>, p: T -> bool): (r: seq<T>)
    ensures IsSubseq(r, s)
    ensures |r| <= |s|
    ensures forall i :: 0 <= i < |r| ==> p(r[i])
    ensures forall x :: multiset(r)[x] == if p(x) then multiset(s)[x] else 0
    ensures (forall i :: 0 <= i < |s| ==> p(s[i])) ==> r == s
  {
    if |s| == 0 then []
    else
      var rest := Filter(s[1..], p);
      assert s == [s[0]] + s[1..];
      if p(s[0]) then
        var r := [s[0]] + rest;
        assert r[1..] == rest;
        r
      else rest
  }

  /** One step of `Filter`: the head is kept exactly when it satisfies `p`. */
  lemma FilterStep<T(!new)>(s: seq<T>, p: T -> bool)
    requires |s| > 0
    ensures |Filter(s, p)| == (if p(s[0]) then 1 else 0) + |Filter(s[1..], p)|
  {
  }

  /** Filtering by one predicate and then another does not depend on the order. */
  lemma {:induction false} FilterCommutes<T(!new)>(s: seq<T>, p: T -> bool, q: T -> bool)
    ensures Filter(Filter(s, p), q) == Filter(Filter(s, q), p)
  {
    if |s| > 0 {
      FilterCommutes(s[1..], p, q);
      var fp := Filter(s, p);
      var fq := Filter(s, q);
      if p(s[0]) {
        assert fp == [s[0]] + Filter(s[1..], p);
        assert fp[1..] == Filter(s[1..], p);
      }
      if q(s[0]) {
        assert fq == [s[0]] + Filter(s[1..], q);
        assert fq[1..] == Filter(s[1..], q);
      }
    }
  }

  /**
   The contract of `Filter` determines its result: any order-preserving
   subsequence with the same multiplicities is `Filter(s, p)`.
   */
  lemma {:induction false} FilterUnique<T(!new)>(s: seq<T>, p: T -> bool, r: seq<T>)
    requires IsSubseq(r, s)
    requires forall x :: multiset(r)[x] == if p(x) then multiset(s)[x] else 0
    ensures r == Filter(s, p)
    decreases |s|
  {
    if |s| == 0 {
      assert |multiset(r)| == |r|;
    } else {
      var a := s[0];
      assert s == [a] + s[1..];
      if |r| > 0 && r[0] == a && IsSubseq(r[1..], s[1..]) {
        assert r == [a] + r[1..];
        FilterUnique(s[1..], p, r[1..]);
      } else {
        SubseqMultiset(r, s[1..]);
        FilterUnique(s[1..], p, r);
      }
    }
  }

  /** A subsequence never holds an element more often than the whole. */
  lemma {:induction false} SubseqMultiset<T>(sub: seq<T>, s: seq<T>)
    requires IsSubseq(sub, s)
    ensures multiset(sub) <= multiset(s)
    decreases |s|
  {
    if |sub| > 0 {
      assert s == [s[0]] + s[1..];
      if sub[0] == s[0] && IsSubseq(sub[1..], s[1..]) {
        SubseqMultiset(sub[1..], s[1..]);
        assert sub == [sub[0]] + sub[1..];
      } else {
        SubseqMultiset(sub, s[1..]);
      }
    }
  }

  /** A subsequence of a subsequence is a subsequence. */
  lemma {:induction false} SubseqTransitive<T>(a: seq<T>, b: seq<T>, c: seq<T>)
    requires IsSubseq(a, b) && IsSubseq(b, c)
    ensures IsSubseq(a, c)
    decreases |c|
  {
    if |a| > 0 {
      assert |b| > 0 && |c| > 0;
      if b[0] == c[0] && IsSubseq(b[1..], c[1..]) {
        if a[0] == b[0] && IsSubseq(a[1..], b[1..]) {
          SubseqTransitive(a[1..], b[1..], c[1..]);
        } else {
          SubseqTransitive(a, b[1..], c[1..]);
        }
      } else {
        SubseqTransitive(a, b, c[1..]);
      }
    }
  }

  /** The position of the first occurrence of `x` in `s`. */
  function IndexOf<T(==)>(s: seq<T>, x: T): (i: nat)
    requires x in s
    ensures i < |s| && s[i] == x
  {
    if s[0] == x then 0 else 1 + IndexOf(s[1..], x)
  }
}
