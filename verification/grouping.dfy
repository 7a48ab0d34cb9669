/** Grouping keyed entries into an object of arrays, as the `forEach` loop of
    `fetchStandings` does: each entry is pushed onto the array stored under its
    key, and a key seen for the first time gets a fresh array. The object's
    own insertion order of keys is the order in which keys were first seen;
    the order `Object.entries` reports is modelled separately in
    `PropertyOrder`. */
module Grouping {
  import opened Wrappers
  import opened Seqs
  import opened StableSort

  /** The array stored under one key of the grouping object. */
  datatype Group<V> = Group(key: string, members: seq<V>)

  function KeyOf<V>(g: Group<V>): string { g.key }

  function Size<V>(g: Group<V>): nat { |g.members| }

  function EntryKey<V>(e: (string, V)): string { e.0 }

  /** The keys of the groups, in group order. */
  function Keys<V>(gs: seq<Group<V>>): seq<string> { Map(KeyOf, gs) }

  /** The keys of the entries, in input order (repeats included). */
  function EntryKeys<V>(xs: seq<(string, V)>): seq<string> { Map(EntryKey, xs) }

  /** The position of the group stored under `k`, if there is one. */
  function Find<V>(gs: seq<Group<V>>, k: string): (r: Option<nat>)
    ensures r.Some? ==> r.value < |gs| && gs[r.value].key == k
    ensures r.Some? ==> forall j :: 0 <= j < r.value ==> gs[j].key != k
    ensures r.None? ==> forall i :: 0 <= i < |gs| ==> gs[i].key != k
  {
    if |gs| == 0 then None
    else if gs[0].key == k then Some(0)
    else match Find(gs[1..], k)
      case None => None
      case Some(i) => Some(i + 1)
  }

  /** One step of the loop: push `v` onto the array under `k`, creating the
      array (at the end of the key order) when `k` is new. */
  function Add<V>(gs: seq<Group<V>>, k: string, v: V): seq<Group<V>> {
    match Find(gs, k)
    case Some(i) => gs[i := Group(k, gs[i].members + [v])]
    case None => gs + [Group(k, [v])]
  }

  /** The grouping object after the loop has visited every entry of `xs`. */
  function GroupBy<V>(xs: seq<(string, V)>): seq<Group<V>>
    decreases |xs|
  {
    if |xs| == 0 then []
    else
      var last := xs[|xs| - 1];
      Add(GroupBy(xs[..|xs| - 1]), last.0, last.1)
  }

  /** The values of the entries whose key is `k`, in input order. */
  function Select<V>(xs: seq<(string, V)>, k: string): seq<V>
    decreases |xs|
  {
    if |xs| == 0 then []
    else
      var last := xs[|xs| - 1];
      Select(xs[..|xs| - 1], k) + (if last.0 == k then [last.1] else [])
  }

  /** The position of the first occurrence of `k` in `ks`. */
  function FirstIndex(ks: seq<string>, k: string): (i: nat)
    requires k in ks
    ensures i < |ks| && ks[i] == k
    ensures forall j :: 0 <= j < i ==> ks[j] != k
  {
    if ks[0] == k then 0 else 1 + FirstIndex(ks[1..], k)
  }

  /** Extending a sequence does not move the first occurrence of a key it
      already holds. */
  lemma {:induction false} FirstIndexPrefix(ks: seq<string>, n: nat, k: string)
    requires n <= |ks| && k in ks[..n]
    ensures FirstIndex(ks, k) == FirstIndex(ks[..n], k)
  {
    var a, b := FirstIndex(ks, k), FirstIndex(ks[..n], k);
    assert ks[b] == k;
    assert a <= b;
    assert ks[..n][a] == k;
  }

  lemma {:induction false} EntryKeysPrefix<V>(xs: seq<(string, V)>)
    requires |xs| > 0
    ensures EntryKeys(xs) == EntryKeys(xs[..|xs| - 1]) + [xs[|xs| - 1].0]
  {
  }

  /** Distinct keys, every key from the input, every input key present, and
      each array holding exactly the values with its key, in input order. */
  lemma {:induction false} GroupByContents<V>(xs: seq<(string, V)>)
    ensures DistinctBy(KeyOf, GroupBy(xs))
    ensures forall k :: k in Keys(GroupBy(xs)) <==> k in EntryKeys(xs)
    ensures forall i :: 0 <= i < |GroupBy(xs)| ==> GroupBy(xs)[i].members == Select(xs, GroupBy(xs)[i].key)
    decreases |xs|
  {
    if |xs| > 0 {
      var pre := xs[..|xs| - 1];
      var (k, v) := xs[|xs| - 1];
      GroupByContents(pre);
      EntryKeysPrefix(xs);
      forall key ensures Select(xs, key) == Select(pre, key) + (if k == key then [v] else []) { }
      match Find(GroupBy(pre), k)
      case Some(i) => AddExistingContents(pre, xs, GroupBy(pre), GroupBy(xs), k, v, i);
      case None => AddNewContents(pre, xs, GroupBy(pre), GroupBy(xs), k, v);
    }
  }

  /** The step of `GroupByContents` for a key that already has an array. */
  lemma {:induction false} AddExistingContents<V>(pre: seq<(string, V)>, xs: seq<(string, V)>, gs: seq<Group<V>>,
                               gs': seq<Group<V>>, k: string, v: V, i: nat)
    requires Find(gs, k) == Some(i) && gs' == Add(gs, k, v)
    requires EntryKeys(xs) == EntryKeys(pre) + [k]
    requires forall key :: Select(xs, key) == Select(pre, key) + (if k == key then [v] else [])
    requires DistinctBy(KeyOf, gs)
    requires forall key :: key in Keys(gs) <==> key in EntryKeys(pre)
    requires forall j :: 0 <= j < |gs| ==> gs[j].members == Select(pre, gs[j].key)
    ensures DistinctBy(KeyOf, gs')
    ensures forall key :: key in Keys(gs') <==> key in EntryKeys(xs)
    ensures forall j :: 0 <= j < |gs'| ==> gs'[j].members == Select(xs, gs'[j].key)
  {
    assert gs' == gs[i := Group(k, gs[i].members + [v])];
    assert Keys(gs') == Keys(gs);
    assert k in Keys(gs) by { assert Keys(gs)[i] == k; }
    forall j | 0 <= j < |gs'| ensures gs'[j].members == Select(xs, gs'[j].key) {
      if j != i {
        assert gs'[j] == gs[j];
        assert KeyOf(gs[j]) != KeyOf(gs[i]);
      }
    }
  }

  /** The step of `GroupByContents` for a key seen for the first time. */
  lemma {:induction false} AddNewContents<V>(pre: seq<(string, V)>, xs: seq<(string, V)>, gs: seq<Group<V>>,
                          gs': seq<Group<V>>, k: string, v: V)
    requires Find(gs, k).None? && gs' == Add(gs, k, v)
    requires EntryKeys(xs) == EntryKeys(pre) + [k]
    requires forall key :: Select(xs, key) == Select(pre, key) + (if k == key then [v] else [])
    requires DistinctBy(KeyOf, gs)
    requires forall key :: key in Keys(gs) <==> key in EntryKeys(pre)
    requires forall j :: 0 <= j < |gs| ==> gs[j].members == Select(pre, gs[j].key)
    ensures DistinctBy(KeyOf, gs')
    ensures forall key :: key in Keys(gs') <==> key in EntryKeys(xs)
    ensures forall j :: 0 <= j < |gs'| ==> gs'[j].members == Select(xs, gs'[j].key)
  {
    var n := |gs|;
    assert gs' == gs + [Group(k, [v])];
    assert Keys(gs') == Keys(gs) + [k];
    forall j | 0 <= j < n ensures gs'[j] == gs[j] && gs[j].key != k {
      assert Keys(gs)[j] == gs[j].key;
    }
    forall i, j | 0 <= i < j < |gs'| ensures KeyOf(gs'[i]) != KeyOf(gs'[j]) {
      if j < n {
        assert KeyOf(gs[i]) != KeyOf(gs[j]);
      }
    }
    forall key ensures key in Keys(gs') <==> key in EntryKeys(xs) {
      assert key in Keys(gs) + [k] <==> key in Keys(gs) || key == k;
      assert key in EntryKeys(pre) + [k] <==> key in EntryKeys(pre) || key == k;
    }
    assert k !in EntryKeys(pre);
    SelectAbsent(pre, k);
    forall j | 0 <= j < |gs'| ensures gs'[j].members == Select(xs, gs'[j].key) {
      if j == n {
        assert gs'[j] == Group(k, [v]);
      }
    }
  }

  /** A key the input never mentions selects nothing. */
  lemma {:induction false} SelectAbsent<V>(xs: seq<(string, V)>, k: string)
    requires k !in EntryKeys(xs)
    ensures Select(xs, k) == []
    decreases |xs|
  {
    if |xs| > 0 {
      EntryKeysPrefix(xs);
      SelectAbsent(xs[..|xs| - 1], k);
    }
  }

  /** Everything selected is the value of some entry. */
  lemma {:induction false} SelectValues<V>(xs: seq<(string, V)>, k: string, v: V)
    requires v in Select(xs, k)
    ensures exists i :: 0 <= i < |xs| && xs[i] == (k, v)
    decreases |xs|
  {
    var n := |xs| - 1;
    if v in Select(xs[..n], k) {
      SelectValues(xs[..n], k, v);
      var i :| 0 <= i < n && xs[..n][i] == (k, v);
      assert xs[i] == (k, v);
    } else {
      assert xs[n] == (k, v);
    }
  }

  /** Every entry's value is selected by its own key. */
  lemma {:induction false} SelectMember<V>(xs: seq<(string, V)>, i: nat)
    requires i < |xs|
    ensures xs[i].1 in Select(xs, xs[i].0)
    decreases |xs|
  {
    if i < |xs| - 1 {
      SelectMember(xs[..|xs| - 1], i);
    }
  }

  /** Every group is non-empty: its key was mentioned by some entry. */
  lemma {:induction false} GroupByNonEmpty<V>(xs: seq<(string, V)>)
    ensures forall g :: g in GroupBy(xs) ==> |g.members| > 0
  {
    GroupByContents(xs);
    forall g | g in GroupBy(xs) ensures |g.members| > 0 {
      var i :| 0 <= i < |GroupBy(xs)| && GroupBy(xs)[i] == g;
      assert Keys(GroupBy(xs))[i] == g.key;
      assert g.key in Keys(GroupBy(xs));
      assert g.key in EntryKeys(xs);
      var j :| 0 <= j < |xs| && EntryKeys(xs)[j] == g.key;
      SelectMember(xs, j);
    }
  }

  /** Permuting groups keeps the set of keys. */
  lemma {:induction false} KeysPermutation<V>(a: seq<Group<V>>, b: seq<Group<V>>)
    requires multiset(a) == multiset(b)
    ensures forall k :: k in Keys(a) <==> k in Keys(b)
  {
    forall k | k in Keys(a) ensures k in Keys(b) {
      var i :| 0 <= i < |a| && Keys(a)[i] == k;
      assert a[i] in multiset(b);
      var j :| 0 <= j < |b| && b[j] == a[i];
      assert Keys(b)[j] == k;
    }
    forall k | k in Keys(b) ensures k in Keys(a) {
      var i :| 0 <= i < |b| && Keys(b)[i] == k;
      assert b[i] in multiset(a);
      var j :| 0 <= j < |a| && a[j] == b[i];
      assert Keys(a)[j] == k;
    }
  }

  /** Every key of `keys` occurs in `ks`, and `keys` are ordered by the
      position where `ks` first mentions them. */
  ghost predicate FirstSeenOrder(ks: seq<string>, keys: seq<string>) {
    && (forall i :: 0 <= i < |keys| ==> keys[i] in ks)
    && (forall i, j :: 0 <= i < j < |keys| ==> FirstIndex(ks, keys[i]) < FirstIndex(ks, keys[j]))
  }

  /** Keys come out in the order in which the input first mentions them. */
  lemma {:induction false} GroupByFirstSeen<V>(xs: seq<(string, V)>)
    ensures FirstSeenOrder(EntryKeys(xs), Keys(GroupBy(xs)))
    decreases |xs|
  {
    if |xs| > 0 {
      var pre := xs[..|xs| - 1];
      GroupByFirstSeen(pre);
      GroupByContents(pre);
      EntryKeysPrefix(xs);
      AddFirstSeen(EntryKeys(pre), GroupBy(pre), xs[|xs| - 1].0, xs[|xs| - 1].1);
    }
  }

  /** The step of `GroupByFirstSeen`: one more entry keeps the order. */
  lemma {:induction false} AddFirstSeen<V>(ks: seq<string>, gs: seq<Group<V>>, k: string, v: V)
    requires FirstSeenOrder(ks, Keys(gs))
    requires forall key :: key in Keys(gs) <==> key in ks
    ensures FirstSeenOrder(ks + [k], Keys(Add(gs, k, v)))
  {
    FirstSeenExtend(ks, k, gs);
    var gs' := Add(gs, k, v);
    match Find(gs, k)
    case Some(p) =>
      FirstSeenSameKeys(ks + [k], gs, gs');
    case None =>
      assert k !in Keys(gs);
      assert k !in ks;
      var n := |ks|;
      assert FirstIndex(ks + [k], k) == n;
      FirstSeenAppend(ks + [k], gs, Group(k, [v]));
  }

  /** Mentioning one more key leaves the first mentions of the others alone. */
  lemma {:induction false} FirstSeenExtend<V>(ks: seq<string>, k: string, gs: seq<Group<V>>)
    requires FirstSeenOrder(ks, Keys(gs))
    ensures FirstSeenOrder(ks + [k], Keys(gs))
    ensures forall i :: 0 <= i < |gs| ==> FirstIndex(ks + [k], gs[i].key) < |ks|
  {
    var ks' := ks + [k];
    assert ks'[..|ks|] == ks;
    forall i | 0 <= i < |gs| ensures FirstIndex(ks', gs[i].key) == FirstIndex(ks, gs[i].key) {
      FirstIndexPrefix(ks', |ks|, gs[i].key);
    }
  }

  /** Changing members but not keys keeps the order. */
  lemma {:induction false} FirstSeenSameKeys<V>(ks: seq<string>, gs: seq<Group<V>>, gs': seq<Group<V>>)
    requires FirstSeenOrder(ks, Keys(gs))
    requires |gs'| == |gs| && forall i :: 0 <= i < |gs| ==> gs'[i].key == gs[i].key
    ensures FirstSeenOrder(ks, Keys(gs'))
  {
    assert Keys(gs') == Keys(gs);
  }

  /** A group whose key is first mentioned after every other group's goes last. */
  lemma {:induction false} FirstSeenAppend<V>(ks: seq<string>, gs: seq<Group<V>>, g: Group<V>)
    requires FirstSeenOrder(ks, Keys(gs))
    requires g.key in ks
    requires forall i :: 0 <= i < |gs| ==> FirstIndex(ks, gs[i].key) < FirstIndex(ks, g.key)
    ensures FirstSeenOrder(ks, Keys(gs + [g]))
  {
    var gs' := gs + [g];
    forall i | 0 <= i < |gs| ensures gs'[i] == gs[i] { }
    assert Keys(gs') == Keys(gs) + [g.key];
  }

  /** Updating one element changes the total by the change in that element. */
  lemma {:induction false} SumByUpdate<T>(size: T -> nat, s: seq<T>, i: nat, y: T)
    requires i < |s|
    ensures SumBy(size, s[i := y]) + size(s[i]) == SumBy(size, s) + size(y)
  {
    assert s == s[..i] + ([s[i]] + s[i + 1..]);
    assert s[i := y] == s[..i] + ([y] + s[i + 1..]);
    SumByAppend(size, s[..i], [s[i]] + s[i + 1..]);
    SumByAppend(size, s[..i], [y] + s[i + 1..]);
    SumByAppend(size, [s[i]], s[i + 1..]);
    SumByAppend(size, [y], s[i + 1..]);
  }

  /** Every entry lands in some array: the arrays hold as many values as
      there were entries. */
  lemma {:induction false} GroupBySize<V>(xs: seq<(string, V)>)
    ensures SumBy(Size, GroupBy(xs)) == |xs|
    decreases |xs|
  {
    if |xs| > 0 {
      var pre := xs[..|xs| - 1];
      var (k, v) := xs[|xs| - 1];
      GroupBySize(pre);
      var gs := GroupBy(pre);
      match Find(gs, k)
      case Some(i) =>
        SumByUpdate(Size, gs, i, Group(k, gs[i].members + [v]));
      case None =>
        SumByAppend(Size, gs, [Group(k, [v])]);
    }
  }

  /** Mapping the values commutes with grouping: grouping depends on keys only. */
  function MapValues<V, W>(f: V -> W, xs: seq<(string, V)>): (r: seq<(string, W)>)
    ensures |r| == |xs|
    ensures forall i :: 0 <= i < |xs| ==> r[i] == (xs[i].0, f(xs[i].1))
  {
    if |xs| == 0 then [] else [(xs[0].0, f(xs[0].1))] + MapValues(f, xs[1..])
  }

  /** `f` applied to every value of every group. */
  function MapGroups<V, W>(f: V -> W, gs: seq<Group<V>>): (r: seq<Group<W>>)
    ensures |r| == |gs|
    ensures forall i :: 0 <= i < |gs| ==> r[i] == Group(gs[i].key, Map(f, gs[i].members))
  {
    if |gs| == 0 then [] else [Group(gs[0].key, Map(f, gs[0].members))] + MapGroups(f, gs[1..])
  }

  /** `MapGroups` is `Map` with the function that maps one group. */
  lemma {:induction false} MapGroupsIsMap<V, W>(f: V -> W, h: Group<V> -> Group<W>, gs: seq<Group<V>>)
    requires forall x :: h(x) == Group(x.key, Map(f, x.members))
    ensures MapGroups(f, gs) == Map(h, gs)
  {
  }

  lemma {:induction false} GroupByMap<V, W>(f: V -> W, xs: seq<(string, V)>)
    ensures GroupBy(MapValues(f, xs)) == MapGroups(f, GroupBy(xs))
    decreases |xs|
  {
    if |xs| > 0 {
      var pre := xs[..|xs| - 1];
      var (k, v) := xs[|xs| - 1];
      assert MapValues(f, xs)[..|xs| - 1] == MapValues(f, pre);
      GroupByMap(f, pre);
      AddMap(f, GroupBy(pre), k, v);
    }
  }

  lemma {:induction false} AddMap<V, W>(f: V -> W, gs: seq<Group<V>>, k: string, v: V)
    ensures Add(MapGroups(f, gs), k, f(v)) == MapGroups(f, Add(gs, k, v))
  {
    var hs := MapGroups(f, gs);
    FindMap(f, gs, k);
    match Find(gs, k)
    case Some(i) =>
      assert Map(f, gs[i].members + [v]) == Map(f, gs[i].members) + [f(v)];
      assert MapGroups(f, gs[i := Group(k, gs[i].members + [v])]) == hs[i := Group(k, hs[i].members + [f(v)])];
    case None =>
      assert Map(f, [v]) == [f(v)];
      assert MapGroups(f, gs + [Group(k, [v])]) == hs + [Group(k, [f(v)])];
  }

  lemma {:induction false} FindMap<V, W>(f: V -> W, gs: seq<Group<V>>, k: string)
    ensures Find(MapGroups(f, gs), k) == Find(gs, k)
  {
    var hs := MapGroups(f, gs);
    assert forall i :: 0 <= i < |gs| ==> hs[i].key == gs[i].key;
    match Find(gs, k)
    case None =>
    case Some(i) =>
      FindUnique(hs, k, i);
      FindUnique(gs, k, i);
  }

  /** `Find` returns the first group under `k`. */
  lemma {:induction false} FindUnique<V>(gs: seq<Group<V>>, k: string, i: nat)
    requires i < |gs| && gs[i].key == k
    requires forall j :: 0 <= j < i ==> gs[j].key != k
    ensures Find(gs, k) == Some(i)
  {
    if i > 0 {
      FindUnique(gs[1..], k, i - 1);
    }
  }
}
