/** Order-preserving filtering and mapping of sequences, the two shapes every
    table operation of the application is built from (a pandas boolean mask
    and a per-row `apply`). */
module Seqs {

  /** True iff `a` can be obtained from `b` by deleting elements, keeping the
      order of what remains. */
  ghost predicate IsSubseq<T>(a: seq<T>, b: seq<T>)
    decreases |b|
  {
    if a == [] then true
    else if b == [] then false
    else (a[0] == b[0] && IsSubseq(a[1..], b[1..])) || IsSubseq(a, b[1..])
  }

  /** The elements of `s` that satisfy `p`, in their original order; every
      copy of a kept element is kept. */
  function Filter<T(!new)>(p: T -> bool, s: seq<T>): (r: seq<T>)
    ensures |r| <= |s|
    ensures forall x :: x in r <==> x in s && p(x)
    ensures forall x :: multiset(r)[x] == if p(x) then multiset(s)[x] else 0
  {
    if s == [] then []
    else
      assert s == [s[0]] + s[1..];
      (if p(s[0]) then [s[0]] else []) + Filter(p, s[1..])
  }

  /** Applies `f` to every element, keeping positions. */
  function Map<A, B>(f: A -> B, s: seq<A>): (r: seq<B>)
    ensures |r| == |s|
    ensures forall i :: 0 <= i < |s| ==> r[i] == f(s[i])
  {
    if s == [] then [] else [f(s[0])] + Map(f, s[1..])
  }

  lemma {:induction false} SubseqRefl<T>(s: seq<T>)
    ensures IsSubseq(s, s)
    decreases |s|
  {
    if s != [] {
      SubseqRefl(s[1..]);
    }
  }

  /** Filtering deletes elements and never reorders them. */
  lemma {:induction false} FilterIsSubseq<T(!new)>(p: T -> bool, s: seq<T>)
    ensures IsSubseq(Filter(p, s), s)
    decreases |s|
  {
    if s != [] {
      FilterIsSubseq(p, s[1..]);
      var rest := Filter(p, s[1..]);
      if p(s[0]) {
        assert Filter(p, s) == [s[0]] + rest;
        assert ([s[0]] + rest)[1..] == rest;
      } else {
        assert Filter(p, s) == rest;
      }
    }
  }

  /** A filter whose predicate holds everywhere is the identity. */
  lemma {:induction false} FilterAll<T(!new)>(p: T -> bool, s: seq<T>)
    requires forall x :: x in s ==> p(x)
    ensures Filter(p, s) == s
    decreases |s|
  {
    if s != [] {
      assert s[0] in s;
      assert forall x :: x in s[1..] ==> x in s;
      FilterAll(p, s[1..]);
      assert [s[0]] + s[1..] == s;
    }
  }

  /** Two predicates that agree on every element select the same elements. */
  lemma {:induction false} FilterExt<T(!new)>(p: T -> bool, q: T -> bool, s: seq<T>)
    requires forall x :: x in s ==> p(x) == q(x)
    ensures Filter(p, s) == Filter(q, s)
    decreases |s|
  {
    if s != [] {
      assert s[0] in s;
      assert forall x :: x in s[1..] ==> x in s;
      FilterExt(p, q, s[1..]);
    }
  }

  /** Filtering by `p` and then by `q` is filtering once by their conjunction `pq`. */
  lemma {:induction false} FilterFilter<T(!new)>(p: T -> bool, q: T -> bool, pq: T -> bool, s: seq<T>)
    requires forall x :: pq(x) == (p(x) && q(x))
    ensures Filter(q, Filter(p, s)) == Filter(pq, s)
    decreases |s|
  {
    if s != [] {
      FilterFilter(p, q, pq, s[1..]);
      var rest := Filter(p, s[1..]);
      if p(s[0]) {
        assert Filter(p, s) == [s[0]] + rest;
        assert ([s[0]] + rest)[1..] == rest;
      } else {
        assert Filter(p, s) == rest;
      }
    }
  }

  /** Filtering twice with the same predicate is filtering once. */
  lemma FilterIdempotent<T(!new)>(p: T -> bool, s: seq<T>)
    ensures Filter(p, Filter(p, s)) == Filter(p, s)
  {
    FilterAll(p, Filter(p, s));
  }
}
