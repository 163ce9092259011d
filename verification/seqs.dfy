/**
 * The array operations the list pages are built from: `Array.prototype.filter`,
 * `Array.from(new Set(xs))` and `Array.prototype.slice`.
 */
module Seqs {

  /** `a` is `b` with some elements removed, the rest kept in order. */
  predicate IsSubsequence<T(==)>(a: seq<T>, b: seq<T>)
    decreases |b|
  {
    if a == [] then true
    else if b == [] then false
    else (a[0] == b[0] && IsSubsequence(a[1..], b[1..])) || IsSubsequence(a, b[1..])
  }

  /** `xs.filter(keep)`. */
  function Filter<T(==,!new)>(xs: seq<T>, keep: T -> bool): (r: seq<T>)
    ensures forall x :: x in r <==> x in xs && keep(x)
    ensures forall x :: multiset(r)[x] == if keep(x) then multiset(xs)[x] else 0
    ensures IsSubsequence(r, xs)
    decreases |xs|
  {
    if xs == [] then []
    else
      assert xs == [xs[0]] + xs[1..];
      var rest := Filter(xs[1..], keep);
      if keep(xs[0]) then
        assert ([xs[0]] + rest)[1..] == rest;
        [xs[0]] + rest
      else rest
  }

  /** A predicate that every element satisfies removes nothing. */
  lemma {:induction false} FilterAll<T(!new)>(xs: seq<T>, keep: T -> bool)
    requires forall x | x in xs :: keep(x)
    ensures Filter(xs, keep) == xs
    decreases |xs|
  {
    if xs != [] {
      FilterAll(xs[1..], keep);
    }
  }

  predicate NoDuplicates<T(==)>(xs: seq<T>) {
    forall i, j | 0 <= i < j < |xs| :: xs[i] != xs[j]
  }

  /** Index of the first occurrence of `x` in `xs`. */
  ghost function FirstIndex<T>(xs: seq<T>, x: T): (k: nat)
    requires x in xs
    ensures k < |xs| && xs[k] == x && x !in xs[..k]
  {
    if xs[0] == x then 0 else 1 + FirstIndex(xs[1..], x)
  }

  /**
   * `Array.from(new Set(xs))`: each distinct element once, in the order in
   * which it first occurs.
   */
  function Distinct<T(==,!new)>(xs: seq<T>): (r: seq<T>)
    ensures forall x :: x in r <==> x in xs
    ensures NoDuplicates(r)
    ensures IsSubsequence(r, xs)
    decreases |xs|
  {
    if xs == [] then []
    else
      var last := xs[|xs| - 1];
      var d := Distinct(xs[..|xs| - 1]);
      assert xs == xs[..|xs| - 1] + [last];
      SubsequenceAppend(d, xs[..|xs| - 1], last);
      if last in d then d else d + [last]
  }

  /** Appending one element to the longer sequence, or to both, keeps a subsequence. */
  lemma {:induction false} SubsequenceAppend<T>(a: seq<T>, b: seq<T>, x: T)
    requires IsSubsequence(a, b)
    ensures IsSubsequence(a, b + [x])
    ensures IsSubsequence(a + [x], b + [x])
    decreases |b|
  {
    if b == [] {
      assert a == [];
      assert ([x] + [])[1..] == [];
    } else if a == [] {
      SubsequenceAppend(a, b[1..], x);
      assert (b + [x])[1..] == b[1..] + [x];
      assert ([] + [x])[1..] == [];
      assert IsSubsequence([x], [x]);
      assert IsSubsequence(a + [x], b[1..] + [x]);
    } else {
      assert (b + [x])[1..] == b[1..] + [x];
      assert (a + [x])[1..] == a[1..] + [x];
      if a[0] == b[0] && IsSubsequence(a[1..], b[1..]) {
        SubsequenceAppend(a[1..], b[1..], x);
      } else {
        SubsequenceAppend(a, b[1..], x);
      }
    }
  }

  lemma {:induction false} FirstIndexInPrefix<T>(xs: seq<T>, n: nat, x: T)
    requires n <= |xs| && x in xs[..n]
    ensures x in xs && FirstIndex(xs, x) == FirstIndex(xs[..n], x)
    decreases n
  {
    if xs[0] != x {
      assert xs[..n][1..] == xs[1..][..n - 1];
      FirstIndexInPrefix(xs[1..], n - 1, x);
    }
  }

  /**
   * The distinct elements come in the order of their first occurrences:
   * an element listed earlier first occurs earlier in the input.
   */
  lemma {:induction false} DistinctFirstOccurrenceOrder<T(!new)>(xs: seq<T>)
    ensures forall i, j | 0 <= i < j < |Distinct(xs)| ::
      Distinct(xs)[i] in xs && Distinct(xs)[j] in xs &&
      FirstIndex(xs, Distinct(xs)[i]) < FirstIndex(xs, Distinct(xs)[j])
    decreases |xs|
  {
    if xs != [] {
      var n := |xs| - 1;
      var pre, last := xs[..n], xs[n];
      var d, r := Distinct(pre), Distinct(xs);
      assert xs == pre + [last];
      assert r == if last in d then d else d + [last];
      DistinctFirstOccurrenceOrder(pre);
      forall i, j | 0 <= i < j < |r|
        ensures r[i] in xs && r[j] in xs && FirstIndex(xs, r[i]) < FirstIndex(xs, r[j])
      {
        assert r[i] == d[i] && d[i] in pre;
        FirstIndexInPrefix(xs, n, d[i]);
        if j < |d| {
          assert r[j] == d[j] && d[j] in pre;
          FirstIndexInPrefix(xs, n, d[j]);
        } else {
          assert r[j] == last && last !in pre;
          assert FirstIndex(xs, last) == n;
        }
      }
    }
  }

  /** The start or end argument of `slice`: a negative one counts from the end, then both are clamped. */
  function SliceIndex(k: int, n: nat): (r: nat)
    ensures r <= n
    ensures 0 <= k <= n ==> r == k
    ensures k > n ==> r == n
    ensures k < 0 ==> r == if n + k < 0 then 0 else n + k
  {
    if k < 0 then (if n + k < 0 then 0 else n + k) else if k > n then n else k
  }

  /** `xs.slice(start, end)`. */
  function Slice<T>(xs: seq<T>, start: int, end: int): (r: seq<T>)
    ensures |r| == if SliceIndex(start, |xs|) < SliceIndex(end, |xs|)
                   then SliceIndex(end, |xs|) - SliceIndex(start, |xs|) else 0
    ensures forall k | 0 <= k < |r| :: r[k] == xs[SliceIndex(start, |xs|) + k]
  {
    var from, to := SliceIndex(start, |xs|), SliceIndex(end, |xs|);
    if from < to then xs[from..to] else []
  }
}
