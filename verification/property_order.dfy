/** The order in which `Object.entries` lists the own string-keyed
    properties of an ordinary object (section 10.1.11.1,
    OrdinaryOwnPropertyKeys, of ECMA-262): first every key that is an array
    index, in ascending numeric order, then every other string key in the
    order it was created. The standings code relies on this to list
    divisions; the source does not guard against array-index division names. */
module PropertyOrder {
  import opened StableSort
  import opened Grouping

  predicate IsDigit(c: char) { '0' <= c <= '9' }

  predicate AllDigits(s: string) { forall i :: 0 <= i < |s| ==> IsDigit(s[i]) }

  /** The number a string of decimal digits denotes. */
  function DigitsValue(s: string): nat
    requires AllDigits(s)
  {
    if |s| == 0 then 0 else DigitsValue(s[..|s| - 1]) * 10 + (s[|s| - 1] as int - '0' as int)
  }

  /** A non-empty digit string without a leading zero (other than "0" itself):
      the form `ToString` gives a non-negative integer. */
  predicate CanonicalDigits(s: string) {
    |s| > 0 && AllDigits(s) && (s[0] != '0' || |s| == 1)
  }

  /** An array index: a canonical integer string whose value is below 2^32 - 1
      (section 6.1.7 of ECMA-262). */
  predicate IsArrayIndex(s: string) {
    CanonicalDigits(s) && DigitsValue(s) < 0xFFFF_FFFF
  }

  /** The rank `Object.entries` sorts by, highest first: array indices before
      all other keys, smaller indices first; every other key ties at 0, so
      the stable sort keeps those in creation order. */
  function KeyRank<V>(g: Group<V>): int {
    if IsArrayIndex(g.key) then 0x1_0000_0000 - DigitsValue(g.key) else 0
  }

  /** The groups in `Object.entries` order, given in creation order. */
  function Entries<V>(gs: seq<Group<V>>): (r: seq<Group<V>>)
    ensures multiset(r) == multiset(gs)
    ensures forall i, j :: 0 <= i < j < |r| && IsArrayIndex(r[j].key) ==>
      IsArrayIndex(r[i].key) && DigitsValue(r[i].key) <= DigitsValue(r[j].key)
    ensures Tier(KeyRank, 0, r) == Tier(KeyRank, 0, gs)
  {
    var r := Sort(KeyRank, gs);
    assert forall i, j :: 0 <= i < j < |r| ==> KeyRank(r[i]) >= KeyRank(r[j]);
    r
  }

  /** With no array-index keys, `Object.entries` lists keys in creation order. */
  lemma {:induction false} EntriesWithoutIndexKeys<V>(gs: seq<Group<V>>)
    requires forall i :: 0 <= i < |gs| ==> !IsArrayIndex(gs[i].key)
    ensures Entries(gs) == gs
  {
    SortConstant(KeyRank, gs, 0);
  }

  /** Entries keep distinct keys distinct, and then array indices come out
      in strictly ascending order. */
  lemma {:induction false} EntriesDistinct<V>(gs: seq<Group<V>>)
    requires DistinctBy(KeyOf, gs)
    ensures DistinctBy(KeyOf, Entries(gs))
    ensures forall i, j :: 0 <= i < j < |Entries(gs)| && IsArrayIndex(Entries(gs)[j].key) ==>
      DigitsValue(Entries(gs)[i].key) < DigitsValue(Entries(gs)[j].key)
  {
    SortDistinctBy(KeyRank, KeyOf, gs);
    var r := Entries(gs);
    forall i, j | 0 <= i < j < |r| && IsArrayIndex(r[j].key)
      ensures DigitsValue(r[i].key) < DigitsValue(r[j].key)
    {
      assert KeyOf(r[i]) != KeyOf(r[j]);
      if DigitsValue(r[i].key) == DigitsValue(r[j].key) {
        CanonicalDigitsInjective(r[i].key, r[j].key);
      }
    }
  }

  /** A canonical digit string with a non-zero first digit denotes a positive number. */
  lemma {:induction false} LeadingNonZeroPositive(s: string)
    requires |s| > 0 && AllDigits(s) && s[0] != '0'
    ensures DigitsValue(s) > 0
    decreases |s|
  {
    if |s| > 1 {
      LeadingNonZeroPositive(s[..|s| - 1]);
    }
  }

  /** Different canonical digit strings denote different numbers. */
  lemma {:induction false} CanonicalDigitsInjective(a: string, b: string)
    requires CanonicalDigits(a) && CanonicalDigits(b)
    requires DigitsValue(a) == DigitsValue(b)
    ensures a == b
    decreases |a|
  {
    var pa, pb := a[..|a| - 1], b[..|b| - 1];
    assert DigitsValue(a) % 10 == a[|a| - 1] as int - '0' as int;
    assert DigitsValue(b) % 10 == b[|b| - 1] as int - '0' as int;
    assert DigitsValue(pa) == DigitsValue(a) / 10;
    assert DigitsValue(pb) == DigitsValue(b) / 10;
    if |a| == 1 && |b| == 1 {
    } else if |a| == 1 {
      LeadingNonZeroPositive(pb);
    } else if |b| == 1 {
      LeadingNonZeroPositive(pa);
    } else {
      CanonicalDigitsInjective(pa, pb);
      assert a == pa + [a[|a| - 1]];
      assert b == pb + [b[|b| - 1]];
    }
  }

  /** Mapping the values of the groups commutes with listing them. */
  lemma {:induction false} EntriesMap<V, W>(f: V -> W, gs: seq<Group<V>>)
    ensures Entries(MapGroups(f, gs)) == MapGroups(f, Entries(gs))
  {
    var g := (x: Group<V>) => Group(x.key, Seqs.Map(f, x.members));
    MapGroupsIsMap(f, g, gs);
    MapGroupsIsMap(f, g, Entries(gs));
    SortMap(KeyRank, KeyRank, g, gs);
  }
}
