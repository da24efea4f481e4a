/** Order-preserving selections from sequences, shared by the line decoder and the connection list. */
module Seqs {

  /** `a` is obtained from `b` by deleting elements, keeping the rest in their original order. */
  ghost predicate SubsequenceOf<T>(a: seq<T>, b: seq<T>)
    decreases |b|
  {
    if a == [] then true
    else if b == [] then false
    else (a[0] == b[0] && SubsequenceOf(a[1..], b[1..])) || SubsequenceOf(a, b[1..])
  }

  /** The elements of `xs` other than `x`, in their original order (`Array.prototype.filter` with `!==`). */
  function Without<T(==)>(xs: seq<T>, x: T): (r: seq<T>)
    ensures x !in r
    ensures forall i :: 0 <= i < |r| ==> r[i] in xs
    decreases |xs|
  {
    if xs == [] then []
    else if xs[0] == x then Without(xs[1..], x)
    else [xs[0]] + Without(xs[1..], x)
  }

  /** Filtering out `x` keeps every other element, as often as it occurred and in its
      original order; with the `x !in` guarantee this pins the result down. */
  lemma {:induction false} WithoutKeepsOthers<T(!new)>(xs: seq<T>, x: T)
    ensures SubsequenceOf(Without(xs, x), xs)
    ensures forall y :: y != x ==> multiset(Without(xs, x))[y] == multiset(xs)[y]
    decreases |xs|
  {
    if xs != [] {
      WithoutKeepsOthers(xs[1..], x);
      assert xs == [xs[0]] + xs[1..];
      if xs[0] != x {
        var rest := Without(xs[1..], x);
        assert ([xs[0]] + rest)[1..] == rest;
      }
    }
  }

  /** Removing an element that is not there leaves the sequence as it was. */
  lemma {:induction false} WithoutAbsent<T(!new)>(xs: seq<T>, x: T)
    requires x !in xs
    ensures Without(xs, x) == xs
    decreases |xs|
  {
    if xs != [] {
      WithoutAbsent(xs[1..], x);
    }
  }

  /** Filtering distributes over concatenation. */
  lemma {:induction false} WithoutAppend<T(!new)>(xs: seq<T>, ys: seq<T>, x: T)
    ensures Without(xs + ys, x) == Without(xs, x) + Without(ys, x)
    decreases |xs|
  {
    if xs == [] {
      assert xs + ys == ys;
    } else {
      assert (xs + ys)[1..] == xs[1..] + ys;
      WithoutAppend(xs[1..], ys, x);
    }
  }
}
