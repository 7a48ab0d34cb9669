/** A stable sort in non-increasing order of an integer rank. This is what
    `Array.prototype.sort` returns for a comparator `(a, b) => rank(b) - rank(a)`:
    the language guarantees the sort is stable, and for a consistent comparator
    a stable sort has exactly one possible result (see `SortIsUnique`). */
module StableSort {
  import opened Seqs

  /** `xs` is in non-increasing order of `rank`. */
  predicate Sorted<T>(rank: T -> int, xs: seq<T>) {
    forall i, j :: 0 <= i < j < |xs| ==> rank(xs[i]) >= rank(xs[j])
  }

  /** The elements of `xs` whose rank is `v`, in their order in `xs`. Two
      sequences with the same tiers for every `v` are stable permutations of
      each other: equal-ranked elements keep their relative order. */
  function Tier<T>(rank: T -> int, v: int, xs: seq<T>): seq<T> {
    if |xs| == 0 then []
    else (if rank(xs[0]) == v then [xs[0]] else []) + Tier(rank, v, xs[1..])
  }

  /** A sorted sequence stays sorted without its head. */
  lemma {:induction false} TailSorted<T>(rank: T -> int, s: seq<T>)
    requires Sorted(rank, s) && |s| > 0
    ensures Sorted(rank, s[1..])
  {
  }

  /** Putting an element of at least the head's rank in front keeps a
      sequence sorted. */
  lemma {:induction false} ConsSorted<T>(rank: T -> int, y: T, s: seq<T>)
    requires Sorted(rank, s)
    requires |s| == 0 || rank(y) >= rank(s[0])
    ensures Sorted(rank, [y] + s)
  {
    var r := [y] + s;
    forall i, j | 0 <= i < j < |r| ensures rank(r[i]) >= rank(r[j]) {
      if i == 0 && j > 1 {
        assert rank(s[0]) >= rank(s[j - 1]);
      }
    }
  }

  /** The tier of a sequence with a given head. */
  lemma {:induction false} TierCons<T>(rank: T -> int, v: int, y: T, s: seq<T>)
    ensures Tier(rank, v, [y] + s) == (if rank(y) == v then [y] else []) + Tier(rank, v, s)
  {
    assert ([y] + s)[1..] == s;
  }

  /** Inserts `x` into sorted `s` before every element of rank at most its own. */
  function Insert<T>(rank: T -> int, x: T, s: seq<T>): (r: seq<T>)
    requires Sorted(rank, s)
    ensures |r| == |s| + 1
    ensures multiset(r) == multiset(s) + multiset{x}
    ensures r[0] == x || (|s| > 0 && r[0] == s[0])
    ensures Sorted(rank, r)
  {
    if |s| == 0 || rank(s[0]) <= rank(x) then
      ConsSorted(rank, x, s);
      [x] + s
    else
      TailSorted(rank, s);
      assert s == [s[0]] + s[1..];
      var rest := Insert(rank, x, s[1..]);
      ConsSorted(rank, s[0], rest);
      [s[0]] + rest
  }

  /** Inserting `x` adds it at the front of its own tier and leaves every
      other tier alone. */
  lemma {:induction false} InsertTier<T>(rank: T -> int, x: T, s: seq<T>, v: int)
    requires Sorted(rank, s)
    ensures Tier(rank, v, Insert(rank, x, s)) == (if rank(x) == v then [x] else []) + Tier(rank, v, s)
  {
    if |s| == 0 || rank(s[0]) <= rank(x) {
      TierCons(rank, v, x, s);
    } else {
      TailSorted(rank, s);
      var rest := Insert(rank, x, s[1..]);
      InsertTier(rank, x, s[1..], v);
      TierCons(rank, v, s[0], rest);
      TierCons(rank, v, s[0], s[1..]);
      assert s == [s[0]] + s[1..];
      var hx: seq<T> := if rank(x) == v then [x] else [];
      var hs: seq<T> := if rank(s[0]) == v then [s[0]] else [];
      assert hx == [] || hs == [];
    }
  }

  /** Stable insertion sort, highest rank first. */
  function Sort<T>(rank: T -> int, xs: seq<T>): (r: seq<T>)
    ensures |r| == |xs|
    ensures multiset(r) == multiset(xs)
    ensures Sorted(rank, r)
    ensures forall v :: Tier(rank, v, r) == Tier(rank, v, xs)
  {
    if |xs| == 0 then []
    else
      assert xs == [xs[0]] + xs[1..];
      var rest := Sort(rank, xs[1..]);
      assert forall v :: Tier(rank, v, Insert(rank, xs[0], rest)) == Tier(rank, v, xs) by {
        forall v ensures Tier(rank, v, Insert(rank, xs[0], rest)) == Tier(rank, v, xs) {
          InsertTier(rank, xs[0], rest, v);
        }
      }
      Insert(rank, xs[0], rest)
  }

  /** An element is in a tier exactly when it is in the sequence with that rank. */
  lemma {:induction false} TierMembers<T>(rank: T -> int, v: int, xs: seq<T>, y: T)
    ensures y in Tier(rank, v, xs) <==> y in xs && rank(y) == v
  {
    if |xs| > 0 {
      TierMembers(rank, v, xs[1..], y);
      assert xs == [xs[0]] + xs[1..];
    }
  }

  /** The first element of a sorted sequence has the highest rank. */
  lemma {:induction false} HeadIsMax<T>(rank: T -> int, xs: seq<T>, y: T)
    requires Sorted(rank, xs) && y in xs
    ensures rank(xs[0]) >= rank(y)
  {
    var j :| 0 <= j < |xs| && xs[j] == y;
    if j > 0 {
      assert rank(xs[0]) >= rank(xs[j]);
    }
  }

  /** A sorted sequence is determined by its tiers: two sorted sequences that
      are stable permutations of each other are equal. */
  lemma {:induction false} SortedTiersUnique<T>(rank: T -> int, a: seq<T>, b: seq<T>)
    requires Sorted(rank, a) && Sorted(rank, b)
    requires forall v :: Tier(rank, v, a) == Tier(rank, v, b)
    ensures a == b
    decreases |a|
  {
    if |a| == 0 || |b| == 0 {
      assert |a| == |b| == 0 by {
        if |a| > 0 {
          assert Tier(rank, rank(a[0]), a) != Tier(rank, rank(a[0]), b);
        } else if |b| > 0 {
          assert Tier(rank, rank(b[0]), a) != Tier(rank, rank(b[0]), b);
        }
      }
    } else {
      var va, vb := rank(a[0]), rank(b[0]);
      TierMembers(rank, va, a, a[0]);
      TierMembers(rank, va, b, a[0]);
      HeadIsMax(rank, b, a[0]);
      TierMembers(rank, vb, b, b[0]);
      TierMembers(rank, vb, a, b[0]);
      HeadIsMax(rank, a, b[0]);
      assert va == vb;
      assert Tier(rank, va, a)[0] == a[0];
      assert Tier(rank, va, b)[0] == b[0];
      forall v ensures Tier(rank, v, a[1..]) == Tier(rank, v, b[1..]) {
        assert Tier(rank, v, a) == Tier(rank, v, b);
        var ha: seq<T> := if v == va then [a[0]] else [];
        assert Tier(rank, v, a) == ha + Tier(rank, v, a[1..]);
        assert Tier(rank, v, b) == ha + Tier(rank, v, b[1..]);
        assert Tier(rank, v, a[1..]) == Tier(rank, v, a)[|ha|..];
      }
      SortedTiersUnique(rank, a[1..], b[1..]);
      assert a == [a[0]] + a[1..];
      assert b == [b[0]] + b[1..];
    }
  }

  /** `Sort` is THE stable sort: any sequence that is sorted and keeps every
      tier of `xs` is `Sort(rank, xs)`. */
  lemma {:induction false} SortIsUnique<T>(rank: T -> int, xs: seq<T>, r: seq<T>)
    requires Sorted(rank, r)
    requires forall v :: Tier(rank, v, r) == Tier(rank, v, xs)
    ensures r == Sort(rank, xs)
  {
    SortedTiersUnique(rank, r, Sort(rank, xs));
  }

  /** When all ranks are equal, sorting changes nothing. */
  lemma {:induction false} SortConstant<T>(rank: T -> int, xs: seq<T>, c: int)
    requires forall i :: 0 <= i < |xs| ==> rank(xs[i]) == c
    ensures Sort(rank, xs) == xs
  {
    if |xs| > 0 {
      SortConstant(rank, xs[1..], c);
      assert xs == [xs[0]] + xs[1..];
    }
  }

  /** Mapping with a function that keeps the rank commutes with inserting. */
  lemma {:induction false} InsertMap<T, U>(rank: T -> int, rank': U -> int, f: T -> U, x: T, s: seq<T>)
    requires forall y :: rank'(f(y)) == rank(y)
    requires Sorted(rank, s)
    ensures Sorted(rank', Map(f, s))
    ensures Insert(rank', f(x), Map(f, s)) == Map(f, Insert(rank, x, s))
  {
    MapSorted(rank, rank', f, s);
    if |s| == 0 || rank(s[0]) <= rank(x) {
      assert Map(f, [x] + s) == [f(x)] + Map(f, s);
    } else {
      InsertMap(rank, rank', f, x, s[1..]);
      assert Map(f, s)[1..] == Map(f, s[1..]);
      assert Map(f, [s[0]] + Insert(rank, x, s[1..])) == [f(s[0])] + Map(f, Insert(rank, x, s[1..]));
    }
  }

  /** Mapping with a function that keeps the rank keeps a sequence sorted. */
  lemma {:induction false} MapSorted<T, U>(rank: T -> int, rank': U -> int, f: T -> U, s: seq<T>)
    requires forall y :: rank'(f(y)) == rank(y)
    requires Sorted(rank, s)
    ensures Sorted(rank', Map(f, s))
  {
    forall i, j | 0 <= i < j < |s| ensures rank'(Map(f, s)[i]) >= rank'(Map(f, s)[j]) {
      assert rank(s[i]) >= rank(s[j]);
    }
  }

  /** Mapping with a function that keeps the rank commutes with sorting. */
  lemma {:induction false} SortMap<T, U>(rank: T -> int, rank': U -> int, f: T -> U, xs: seq<T>)
    requires forall y :: rank'(f(y)) == rank(y)
    ensures Sort(rank', Map(f, xs)) == Map(f, Sort(rank, xs))
  {
    if |xs| > 0 {
      SortMap(rank, rank', f, xs[1..]);
      assert Map(f, xs)[1..] == Map(f, xs[1..]);
      InsertMap(rank, rank', f, xs[0], Sort(rank, xs[1..]));
    }
  }

  /** Mapping with a function that keeps the rank maps each tier. */
  lemma {:induction false} TierMap<T, U>(rank: T -> int, rank': U -> int, f: T -> U, v: int, xs: seq<T>)
    requires forall y :: rank'(f(y)) == rank(y)
    ensures Tier(rank', v, Map(f, xs)) == Map(f, Tier(rank, v, xs))
  {
    if |xs| > 0 {
      TierMap(rank, rank', f, v, xs[1..]);
      assert Map(f, xs)[1..] == Map(f, xs[1..]);
      var h: seq<T> := if rank(xs[0]) == v then [xs[0]] else [];
      MapAppend(f, h, Tier(rank, v, xs[1..]));
      assert Map(f, h) == if rank(xs[0]) == v then [f(xs[0])] else [];
    }
  }

  /** Sorting keeps the total of any size measure. */
  lemma {:induction false} SortSumBy<T>(rank: T -> int, size: T -> nat, xs: seq<T>)
    ensures SumBy(size, Sort(rank, xs)) == SumBy(size, xs)
  {
    if |xs| > 0 {
      SortSumBy(rank, size, xs[1..]);
      InsertSumBy(rank, size, xs[0], Sort(rank, xs[1..]));
    }
  }

  lemma {:induction false} InsertSumBy<T>(rank: T -> int, size: T -> nat, x: T, s: seq<T>)
    requires Sorted(rank, s)
    ensures SumBy(size, Insert(rank, x, s)) == size(x) + SumBy(size, s)
  {
    if |s| == 0 || rank(s[0]) <= rank(x) {
      assert ([x] + s)[1..] == s;
    } else {
      InsertSumBy(rank, size, x, s[1..]);
      var r := Insert(rank, x, s);
      assert r[1..] == Insert(rank, x, s[1..]);
    }
  }

  /** No two elements share a key. */
  predicate DistinctBy<T, K(==)>(key: T -> K, xs: seq<T>) {
    forall i, j :: 0 <= i < j < |xs| ==> key(xs[i]) != key(xs[j])
  }

  /** Sorting keeps keys distinct. */
  lemma {:induction false} SortDistinctBy<T, K>(rank: T -> int, key: T -> K, xs: seq<T>)
    requires DistinctBy(key, xs)
    ensures DistinctBy(key, Sort(rank, xs))
  {
    if |xs| > 0 {
      TailDistinct(key, xs);
      SortDistinctBy(rank, key, xs[1..]);
      var s := Sort(rank, xs[1..]);
      forall y | y in s ensures key(y) != key(xs[0]) {
        assert y in multiset(s);
        var j :| 0 <= j < |xs[1..]| && xs[1..][j] == y;
        assert key(xs[0]) != key(xs[j + 1]);
      }
      InsertDistinctBy(rank, key, xs[0], s);
    }
  }

  lemma {:induction false} InsertDistinctBy<T, K>(rank: T -> int, key: T -> K, x: T, s: seq<T>)
    requires Sorted(rank, s) && DistinctBy(key, s)
    requires forall y :: y in s ==> key(y) != key(x)
    ensures DistinctBy(key, Insert(rank, x, s))
  {
    if |s| == 0 || rank(s[0]) <= rank(x) {
      ConsDistinct(key, x, s);
    } else {
      TailSorted(rank, s);
      TailDistinct(key, s);
      InsertDistinctBy(rank, key, x, s[1..]);
      var rest := Insert(rank, x, s[1..]);
      forall y | y in rest ensures key(y) != key(s[0]) {
        assert y in multiset(rest);
        if y != x {
          assert y in multiset(s[1..]);
          var j :| 0 <= j < |s[1..]| && s[1..][j] == y;
          assert key(s[0]) != key(s[j + 1]);
        } else {
          assert s[0] in s;
        }
      }
      ConsDistinct(key, s[0], rest);
    }
  }

  lemma {:induction false} TailDistinct<T, K>(key: T -> K, s: seq<T>)
    requires DistinctBy(key, s) && |s| > 0
    ensures DistinctBy(key, s[1..])
  {
    forall i, j | 0 <= i < j < |s[1..]| ensures key(s[1..][i]) != key(s[1..][j]) {
      assert key(s[i + 1]) != key(s[j + 1]);
    }
  }

  lemma {:induction false} ConsDistinct<T, K>(key: T -> K, y: T, s: seq<T>)
    requires DistinctBy(key, s)
    requires forall z :: z in s ==> key(z) != key(y)
    ensures DistinctBy(key, [y] + s)
  {
    var r := [y] + s;
    forall i, j | 0 <= i < j < |r| ensures key(r[i]) != key(r[j]) {
      if i == 0 {
        assert r[j] == s[j - 1] && r[j] in s;
      } else {
        assert r[i] == s[i - 1] && r[j] == s[j - 1];
      }
    }
  }
}
