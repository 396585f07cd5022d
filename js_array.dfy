/**
 The three JavaScript array operations the inventory page is built from:
 `Array.prototype.filter`, `Array.prototype.some` and `Array.prototype.slice`
 (non-negative arguments only), stated on sequences, together with the
 subsequence relation that describes what `filter` and `slice` return.
 */
module JsArray {

  function Min(a: int, b: int): int { if a <= b then a else b }

  /** `a` is obtained from `b` by deleting elements: same elements, same order. */
  predicate SubseqOf<T(==)>(a: seq<T>, b: seq<T>)
    decreases |b|
  {
    if a == [] then true
    else if b == [] then false
    else (a[0] == b[0] && SubseqOf(a[1..], b[1..])) || SubseqOf(a, b[1..])
  }

  /** `xs.filter(keep)`: the elements that pass `keep`, kept in their order. */
  function Filter<T>(xs: seq<T>, keep: T -> bool): (r: seq<T>)
    ensures |r| <= |xs|
    ensures forall x :: x in r ==> keep(x)
  {
    if xs == [] then []
    else if keep(xs[0]) then [xs[0]] + Filter(xs[1..], keep)
    else Filter(xs[1..], keep)
  }

  /** `xs.some(test)`: whether at least one element passes `test`. */
  function Any<T>(xs: seq<T>, test: T -> bool): (r: bool)
    ensures r <==> exists i :: 0 <= i < |xs| && test(xs[i])
  {
    if xs == [] then false
    else if test(xs[0]) then true
    else
      var rest := Any(xs[1..], test);
      assert forall i :: 1 <= i < |xs| ==> xs[i] == xs[1..][i - 1];
      rest
  }

  /** `xs.slice(begin, end)` for non-negative `begin` and `end`: both bounds are
      clamped to the length, and an end at or before the begin gives nothing. */
  function Slice<T>(xs: seq<T>, begin: nat, end: nat): (r: seq<T>)
    ensures |r| == if end <= begin || |xs| <= begin then 0 else Min(end, |xs|) - begin
    ensures forall k :: 0 <= k < |r| ==> r[k] == xs[begin + k]
  {
    var lo := Min(begin, |xs|);
    var hi := Min(end, |xs|);
    if hi <= lo then [] else xs[lo..hi]
  }

  /** Putting an element in front of the larger sequence keeps a subsequence one. */
  lemma SubseqCons<T>(a: seq<T>, c: T, b: seq<T>)
    requires SubseqOf(a, b)
    ensures SubseqOf(a, [c] + b)
  {
  }

  /** Every element of a subsequence is an element of the larger sequence. */
  lemma {:induction false} SubseqMembers<T>(a: seq<T>, b: seq<T>)
    requires SubseqOf(a, b)
    ensures forall x :: x in a ==> x in b
    decreases |b|
  {
    if a != [] {
      if a[0] == b[0] && SubseqOf(a[1..], b[1..]) {
        SubseqMembers(a[1..], b[1..]);
        assert forall x :: x in a ==> x == a[0] || x in a[1..];
      } else {
        SubseqMembers(a, b[1..]);
      }
    }
  }

  /** A contiguous segment of a sequence is a subsequence of it. */
  lemma {:induction false} SegmentSubseq<T>(s: seq<T>, i: nat, j: nat)
    requires i <= j <= |s|
    ensures SubseqOf(s[i..j], s)
    decreases |s|
  {
    if i == j {
    } else if i > 0 {
      SegmentSubseq(s[1..], i - 1, j - 1);
      assert s[1..][i - 1..j - 1] == s[i..j];
    } else {
      SegmentSubseq(s[1..], 0, j - 1);
      assert s[0..j][1..] == s[1..][0..j - 1];
    }
  }

  /** What `filter` returns is an order-preserving subsequence of its input. */
  lemma {:induction false} FilterSubseq<T>(xs: seq<T>, keep: T -> bool)
    ensures SubseqOf(Filter(xs, keep), xs)
  {
    if xs != [] {
      FilterSubseq(xs[1..], keep);
      if keep(xs[0]) {
        assert ([xs[0]] + Filter(xs[1..], keep))[1..] == Filter(xs[1..], keep);
      }
    }
  }

  /** `filter` keeps every passing element as often as it occurs and drops
      every other one entirely. */
  lemma {:induction false} FilterCount<T>(xs: seq<T>, keep: T -> bool, x: T)
    ensures multiset(Filter(xs, keep))[x] == if keep(x) then multiset(xs)[x] else 0
  {
    if xs != [] {
      FilterCount(xs[1..], keep, x);
      assert xs == [xs[0]] + xs[1..];
      assert multiset(xs) == multiset([xs[0]]) + multiset(xs[1..]);
    }
  }

  /** An element is in the filtered sequence exactly when it is in the input and passes. */
  lemma FilterMembers<T>(xs: seq<T>, keep: T -> bool, x: T)
    ensures x in Filter(xs, keep) <==> x in xs && keep(x)
  {
  }

  /** When every element passes, `filter` returns its input unchanged. */
  lemma {:induction false} FilterKeepsAll<T>(xs: seq<T>, keep: T -> bool)
    requires forall i :: 0 <= i < |xs| ==> keep(xs[i])
    ensures Filter(xs, keep) == xs
  {
    if xs != [] {
      FilterKeepsAll(xs[1..], keep);
      assert [xs[0]] + xs[1..] == xs;
    }
  }

  /** When no element passes, `filter` returns the empty sequence. */
  lemma {:induction false} FilterDropsAll<T>(xs: seq<T>, keep: T -> bool)
    requires forall i :: 0 <= i < |xs| ==> !keep(xs[i])
    ensures Filter(xs, keep) == []
  {
    if xs != [] {
      FilterDropsAll(xs[1..], keep);
    }
  }

  /** Filtering twice with the same test is filtering once. */
  lemma FilterIdempotent<T>(xs: seq<T>, keep: T -> bool)
    ensures Filter(Filter(xs, keep), keep) == Filter(xs, keep)
  {
  }

  /** Two tests that agree on every element of the input filter it alike. */
  lemma {:induction false} FilterCongruent<T>(xs: seq<T>, k1: T -> bool, k2: T -> bool)
    requires forall i :: 0 <= i < |xs| ==> k1(xs[i]) == k2(xs[i])
    ensures Filter(xs, k1) == Filter(xs, k2)
  {
    if xs != [] {
      FilterCongruent(xs[1..], k1, k2);
    }
  }

  /** Filtering a subsequence gives a subsequence of the filtered whole. */
  lemma {:induction false} FilterMonotone<T>(a: seq<T>, b: seq<T>, keep: T -> bool)
    requires SubseqOf(a, b)
    ensures SubseqOf(Filter(a, keep), Filter(b, keep))
    decreases |b|
  {
    if a == [] {
    } else if a[0] == b[0] && SubseqOf(a[1..], b[1..]) {
      FilterMonotone(a[1..], b[1..], keep);
      if keep(a[0]) {
        var fa, fb := Filter(a[1..], keep), Filter(b[1..], keep);
        assert ([a[0]] + fa)[1..] == fa;
        assert ([b[0]] + fb)[1..] == fb;
      }
    } else {
      FilterMonotone(a, b[1..], keep);
      if keep(b[0]) {
        SubseqCons(Filter(a, keep), b[0], Filter(b[1..], keep));
      }
    }
  }

  /** A slice is a subsequence of the sequence it is taken from. */
  lemma SliceSubseq<T>(xs: seq<T>, begin: nat, end: nat)
    ensures SubseqOf(Slice(xs, begin, end), xs)
  {
    var lo := Min(begin, |xs|);
    var hi := Min(end, |xs|);
    if lo < hi {
      SegmentSubseq(xs, lo, hi);
    }
  }
}
