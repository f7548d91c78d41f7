/** Generic sequence operations the parser uses on JavaScript arrays. */
module Sequences {

  /** `Array.prototype.indexOf`: the first position of `x`, or -1. */
  function IndexOf<T(==)>(xs: seq<T>, x: T): (i: int)
    ensures -1 <= i < |xs|
    ensures i == -1 <==> x !in xs
    ensures 0 <= i ==> xs[i] == x && x !in xs[..i]
  {
    if |xs| == 0 then -1
    else if xs[0] == x then 0
    else
      var j := IndexOf(xs[1..], x);
      assert j >= 0 ==> xs[..j + 1] == [xs[0]] + xs[1..][..j];
      if j == -1 then -1 else j + 1
  }

  /** The first `n` positions of `xs` filtered by
      `(x, i, arr) => arr.indexOf(x) === i`. */
  function KeepFirstUpTo<T(==)>(xs: seq<T>, n: nat): seq<T>
    requires n <= |xs|
  {
    if n == 0 then []
    else
      KeepFirstUpTo(xs, n - 1)
      + (if IndexOf(xs, xs[n - 1]) == n - 1 then [xs[n - 1]] else [])
  }

  /** Deduplication that keeps each value at its first occurrence. */
  function FirstOccurrences<T(==)>(xs: seq<T>): seq<T> {
    KeepFirstUpTo(xs, |xs|)
  }

  predicate NoDuplicates<T(==)>(xs: seq<T>) {
    forall i, j :: 0 <= i < j < |xs| ==> xs[i] != xs[j]
  }

  lemma {:induction false} KeepFirstUpToSpec<T>(xs: seq<T>, n: nat)
    requires n <= |xs|
    ensures forall x :: x in KeepFirstUpTo(xs, n) <==> x in xs[..n]
    ensures forall i :: 0 <= i < |KeepFirstUpTo(xs, n)| ==>
              0 <= IndexOf(xs, KeepFirstUpTo(xs, n)[i]) < n
    ensures forall i, j :: 0 <= i < j < |KeepFirstUpTo(xs, n)| ==>
              IndexOf(xs, KeepFirstUpTo(xs, n)[i]) < IndexOf(xs, KeepFirstUpTo(xs, n)[j])
  {
    if n > 0 {
      KeepFirstUpToSpec(xs, n - 1);
      var x := xs[n - 1];
      assert xs[..n] == xs[..n - 1] + [x];
      if IndexOf(xs, x) != n - 1 {
        assert x in xs[..n - 1];
      }
    }
  }

  /** Deduplication keeps exactly the values of `xs`, once each, in the order
      of their first occurrence. */
  lemma FirstOccurrencesSpec<T>(xs: seq<T>)
    ensures forall x :: x in FirstOccurrences(xs) <==> x in xs
    ensures NoDuplicates(FirstOccurrences(xs))
    ensures forall i, j :: 0 <= i < j < |FirstOccurrences(xs)| ==>
              IndexOf(xs, FirstOccurrences(xs)[i]) < IndexOf(xs, FirstOccurrences(xs)[j])
  {
    KeepFirstUpToSpec(xs, |xs|);
    assert xs[..|xs|] == xs;
  }
}
