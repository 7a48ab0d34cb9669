/** Small sequence combinators shared by the other modules. */
module Seqs {

  /** `f` applied to every element, in order (`Array.prototype.map`). */
  function Map<T, U>(f: T -> U, xs: seq<T>): (r: seq<U>)
    ensures |r| == |xs|
    ensures forall i :: 0 <= i < |xs| ==> r[i] == f(xs[i])
  {
    if |xs| == 0 then [] else [f(xs[0])] + Map(f, xs[1..])
  }

  /** The sum of `size` over the elements of `xs`. */
  function SumBy<T>(size: T -> nat, xs: seq<T>): nat
  {
    if |xs| == 0 then 0 else size(xs[0]) + SumBy(size, xs[1..])
  }

  /** Summing splits over concatenation. */
  lemma {:induction false} SumByAppend<T>(size: T -> nat, a: seq<T>, b: seq<T>)
    ensures SumBy(size, a + b) == SumBy(size, a) + SumBy(size, b)
    decreases |a|
  {
    if |a| == 0 {
      assert a + b == b;
    } else {
      assert (a + b)[1..] == a[1..] + b;
      SumByAppend(size, a[1..], b);
    }
  }

  /** Mapping splits over concatenation. */
  lemma {:induction false} MapAppend<T, U>(f: T -> U, a: seq<T>, b: seq<T>)
    ensures Map(f, a + b) == Map(f, a) + Map(f, b)
  {
  }

  /** Sequences with equal elements are equal. */
  lemma {:induction false} Extensionality<T>(a: seq<T>, b: seq<T>)
    requires |a| == |b|
    requires forall i :: 0 <= i < |a| ==> a[i] == b[i]
    ensures a == b
  {
  }

  /** Taking out the element at `k` takes it out of the multiset. */
  lemma {:induction false} RemoveAt<T>(b: seq<T>, k: nat)
    requires k < |b|
    ensures multiset(b) == multiset{b[k]} + multiset(b[..k] + b[k + 1..])
  {
    assert b == b[..k] + [b[k]] + b[k + 1..];
  }

  /** Taking out the element at `k` before or after mapping is the same. */
  lemma {:induction false} MapRemoveAt<T, U>(f: T -> U, b: seq<T>, k: nat)
    requires k < |b|
    ensures multiset(Map(f, b)) == multiset{f(b[k])} + multiset(Map(f, b[..k] + b[k + 1..]))
  {
    var m := Map(f, b);
    RemoveAt(m, k);
    Extensionality(m[..k] + m[k + 1..], Map(f, b[..k] + b[k + 1..]));
  }

  /** Mapping the two sides of a permutation gives a permutation. */
  lemma {:induction false} MapMultiset<T, U>(f: T -> U, a: seq<T>, b: seq<T>)
    requires multiset(a) == multiset(b)
    ensures multiset(Map(f, a)) == multiset(Map(f, b))
    decreases |a|
  {
    if |a| > 0 {
      var x := a[0];
      assert x in multiset(b);
      var k :| 0 <= k < |b| && b[k] == x;
      var b' := b[..k] + b[k + 1..];
      RemoveAt(b, k);
      assert a == [x] + a[1..];
      assert multiset(a[1..]) == multiset(a) - multiset{x};
      assert multiset(b') == multiset(b) - multiset{x};
      MapMultiset(f, a[1..], b');
      MapRemoveAt(f, b, k);
      assert Map(f, a) == [f(x)] + Map(f, a[1..]);
    }
  }
}
