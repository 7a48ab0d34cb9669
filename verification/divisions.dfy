/** The standings aggregation that both copies of `fetchStandings` perform
    once their records are adapted: group the teams by division name, list
    the groups as `Object.entries` does, and rank every group. The input is
    each adapted team tagged with its record's `divisionName`, in the order of
    the `standings` array. */
module Divisions {
  import opened Seqs
  import opened StableSort
  import opened Types
  import opened Grouping
  import opened PropertyOrder
  import opened GamesBehind

  /** One output division from one non-empty group. */
  function Division(g: Group<Team>): DivisionStandings
    requires |g.members| > 0
  {
    DivisionStandings(g.key, RankDivision(g.members))
  }

  /** The groups in the order `Object.entries` lists them. */
  function ListedGroups(xs: seq<(string, Team)>): seq<Group<Team>> {
    Entries(GroupBy(xs))
  }

  lemma {:induction false} ListedGroupsNonEmpty(xs: seq<(string, Team)>)
    ensures forall g :: g in ListedGroups(xs) ==> |g.members| > 0
  {
    GroupByNonEmpty(xs);
    forall g | g in ListedGroups(xs) ensures |g.members| > 0 {
      assert g in multiset(ListedGroups(xs));
    }
  }

  /** The whole aggregation: one ranked division per distinct division name. */
  function BuildDivisions(xs: seq<(string, Team)>): (r: seq<DivisionStandings>)
    ensures |xs| == 0 ==> r == []
  {
    var gs := ListedGroups(xs);
    ListedGroupsNonEmpty(xs);
    seq(|gs|, i requires 0 <= i < |gs| && |gs[i].members| > 0 => Division(gs[i]))
  }

  function NameOf(d: DivisionStandings): string { d.divisionName }

  /** The division names, in output order. */
  function Names(ds: seq<DivisionStandings>): seq<string> { Map(NameOf, ds) }

  /** Each listed group comes out as one division, in the same place. */
  lemma {:induction false} BuildDivisionsShape(xs: seq<(string, Team)>)
    ensures |BuildDivisions(xs)| == |ListedGroups(xs)|
    ensures forall i :: 0 <= i < |ListedGroups(xs)| ==>
      |ListedGroups(xs)[i].members| > 0 && BuildDivisions(xs)[i] == Division(ListedGroups(xs)[i])
    ensures Names(BuildDivisions(xs)) == Keys(ListedGroups(xs))
  {
    ListedGroupsNonEmpty(xs);
    var gs := ListedGroups(xs);
    forall i | 0 <= i < |gs| ensures |gs[i].members| > 0 {
      assert gs[i] in gs;
    }
  }

  /** The division at one position, from the group at that position. */
  lemma {:induction false} BuildDivisionAt(xs: seq<(string, Team)>, i: nat)
    requires i < |ListedGroups(xs)|
    ensures |BuildDivisions(xs)| == |ListedGroups(xs)|
    ensures |ListedGroups(xs)[i].members| > 0 && BuildDivisions(xs)[i] == Division(ListedGroups(xs)[i])
  {
    ListedGroupsNonEmpty(xs);
    assert ListedGroups(xs)[i] in ListedGroups(xs);
  }

  /** Facts about every listed group: its key is an input division name and
      it holds exactly the teams tagged with that name, in input order. */
  lemma {:induction false} ListedGroupsContents(xs: seq<(string, Team)>)
    ensures DistinctBy(KeyOf, ListedGroups(xs))
    ensures forall k :: k in Keys(ListedGroups(xs)) <==> k in EntryKeys(xs)
    ensures forall g :: g in ListedGroups(xs) ==> g.members == Select(xs, g.key)
  {
    GroupByContents(xs);
    EntriesDistinct(GroupBy(xs));
    KeysPermutation(ListedGroups(xs), GroupBy(xs));
    ListedGroupsMembers(xs);
  }

  lemma {:induction false} ListedGroupsMembers(xs: seq<(string, Team)>)
    ensures forall g :: g in ListedGroups(xs) ==> g.members == Select(xs, g.key)
  {
    GroupByContents(xs);
    var gs, ls := GroupBy(xs), ListedGroups(xs);
    forall g | g in ls ensures g.members == Select(xs, g.key) {
      assert g in multiset(ls);
      var i :| 0 <= i < |gs| && gs[i] == g;
    }
  }

  /** The group a division was built from. */
  lemma {:induction false} DivisionOrigin(xs: seq<(string, Team)>, d: DivisionStandings) returns (g: Group<Team>)
    requires d in BuildDivisions(xs)
    ensures |g.members| > 0 && d == Division(g)
    ensures g.members == Select(xs, d.divisionName)
  {
    BuildDivisionsShape(xs);
    ListedGroupsMembers(xs);
    var r, gs := BuildDivisions(xs), ListedGroups(xs);
    var i :| 0 <= i < |r| && r[i] == d;
    g := gs[i];
    assert g in gs;
  }

  /** Grouping is a partition: division names are distinct and are exactly
      the input's names, no division is empty, each division holds a
      permutation of the teams tagged with its name, and no team is lost. */
  lemma {:induction false} DivisionsPartition(xs: seq<(string, Team)>)
    ensures DistinctBy(NameOf, BuildDivisions(xs))
    ensures forall k :: k in Names(BuildDivisions(xs)) <==> k in EntryKeys(xs)
    ensures forall d :: d in BuildDivisions(xs) ==> |d.teams| > 0
    ensures forall d :: d in BuildDivisions(xs) ==>
      multiset(Map(WithoutGb, d.teams)) == multiset(Map(WithoutGb, Select(xs, d.divisionName)))
    ensures SumBy(TeamCount, BuildDivisions(xs)) == |xs|
  {
    BuildDivisionsShape(xs);
    ListedGroupsContents(xs);
    var r, gs := BuildDivisions(xs), ListedGroups(xs);
    forall i, j | 0 <= i < j < |r| ensures NameOf(r[i]) != NameOf(r[j]) {
      assert KeyOf(gs[i]) != KeyOf(gs[j]);
    }
    forall d | d in r ensures |d.teams| > 0 && multiset(Map(WithoutGb, d.teams)) == multiset(Map(WithoutGb, Select(xs, d.divisionName))) {
      var g := DivisionOrigin(xs, d);
    }
    DivisionsCount(gs, r);
    GroupBySize(xs);
    SortSumBy(KeyRank, Size, GroupBy(xs));
  }

  lemma {:induction false} DivisionsCount(gs: seq<Group<Team>>, r: seq<DivisionStandings>)
    requires |r| == |gs|
    requires forall i :: 0 <= i < |gs| ==> |gs[i].members| > 0 && r[i] == Division(gs[i])
    ensures SumBy(TeamCount, r) == SumBy(Size, gs)
  {
    if |gs| > 0 {
      DivisionsCount(gs[1..], r[1..]);
    }
  }

  /** Every input team is placed in the division named by its tag, and that
      division exists. */
  lemma {:induction false} EveryTeamPlaced(xs: seq<(string, Team)>, i: nat)
    requires i < |xs|
    ensures forall d :: d in BuildDivisions(xs) ==>
      (WithoutGb(xs[i].1) in Map(WithoutGb, d.teams) <== d.divisionName == xs[i].0)
    ensures exists d :: d in BuildDivisions(xs) && d.divisionName == xs[i].0
  {
    DivisionsPartition(xs);
    var r := BuildDivisions(xs);
    SelectMember(xs, i);
    forall d | d in r && d.divisionName == xs[i].0 ensures WithoutGb(xs[i].1) in Map(WithoutGb, d.teams) {
      var sel := Select(xs, xs[i].0);
      var p :| 0 <= p < |sel| && sel[p] == xs[i].1;
      assert Map(WithoutGb, sel)[p] == WithoutGb(xs[i].1);
      assert WithoutGb(xs[i].1) in multiset(Map(WithoutGb, sel));
    }
    assert EntryKeys(xs)[i] == xs[i].0;
    assert xs[i].0 in Names(r);
    var j :| 0 <= j < |r| && Names(r)[j] == xs[i].0;
    assert r[j] in r;
  }

  /** Within each division the teams are a stable sort by points, highest
      first, of the teams tagged with its name; the leader has the most points
      and is 0 games behind; every team is `leader - points` half-games behind,
      which is never negative. */
  lemma {:induction false} DivisionsRanked(xs: seq<(string, Team)>)
    ensures forall d :: d in BuildDivisions(xs) ==>
      && |d.teams| > 0
      && Sorted(PointsOf, d.teams)
      && d.teams[0].gb2 == 0
      && (forall t :: t in Select(xs, d.divisionName) ==> d.teams[0].points >= t.points)
      && (forall i :: 0 <= i < |d.teams| ==> d.teams[i].gb2 == d.teams[0].points - d.teams[i].points >= 0)
    ensures forall d, v :: d in BuildDivisions(xs) ==>
      Tier(PointsOf, v, Map(WithoutGb, d.teams)) == Tier(PointsOf, v, Map(WithoutGb, Select(xs, d.divisionName)))
  {
    forall d | d in BuildDivisions(xs)
      ensures && |d.teams| > 0
              && Sorted(PointsOf, d.teams)
              && d.teams[0].gb2 == 0
              && (forall t :: t in Select(xs, d.divisionName) ==> d.teams[0].points >= t.points)
              && (forall i :: 0 <= i < |d.teams| ==> d.teams[i].gb2 == d.teams[0].points - d.teams[i].points >= 0)
              && (forall v :: Tier(PointsOf, v, Map(WithoutGb, d.teams)) == Tier(PointsOf, v, Map(WithoutGb, Select(xs, d.divisionName))))
    {
      var g := DivisionOrigin(xs, d);
    }
  }

  /** With no division named like an array index, divisions come out in
      the order in which the input first mentions their names (not, say,
      alphabetically). */
  lemma {:induction false} DivisionsFirstSeen(xs: seq<(string, Team)>)
    requires forall i :: 0 <= i < |xs| ==> !IsArrayIndex(xs[i].0)
    ensures Names(BuildDivisions(xs)) == Keys(GroupBy(xs))
    ensures FirstSeenOrder(EntryKeys(xs), Names(BuildDivisions(xs)))
  {
    var gs := GroupBy(xs);
    GroupByFirstSeen(xs);
    forall i | 0 <= i < |gs| ensures !IsArrayIndex(gs[i].key) {
      assert Keys(gs)[i] == gs[i].key;
      var j := FirstIndex(EntryKeys(xs), gs[i].key);
      assert xs[j].0 == gs[i].key;
    }
    EntriesWithoutIndexKeys(gs);
    BuildDivisionsShape(xs);
  }

  /** The names that are not array indices, in order. */
  function OtherNames(ks: seq<string>): seq<string> {
    if |ks| == 0 then []
    else (if IsArrayIndex(ks[0]) then [] else [ks[0]]) + OtherNames(ks[1..])
  }

  /** In general `Object.entries` puts array-index names first, in strictly
      ascending numeric order, and all other names after them in the order
      they were first seen. */
  lemma {:induction false} DivisionsKeyOrder(xs: seq<(string, Team)>)
    ensures forall i, j :: 0 <= i < j < |BuildDivisions(xs)| && IsArrayIndex(BuildDivisions(xs)[j].divisionName) ==>
      && IsArrayIndex(BuildDivisions(xs)[i].divisionName)
      && DigitsValue(BuildDivisions(xs)[i].divisionName) < DigitsValue(BuildDivisions(xs)[j].divisionName)
    ensures OtherNames(Names(BuildDivisions(xs))) == OtherNames(Keys(GroupBy(xs)))
  {
    var gs := GroupBy(xs);
    var ls := ListedGroups(xs);
    GroupByContents(xs);
    EntriesDistinct(gs);
    BuildDivisionsShape(xs);
    var r := BuildDivisions(xs);
    forall i | 0 <= i < |r| ensures r[i].divisionName == ls[i].key {
      assert Names(r)[i] == Keys(ls)[i];
    }
    OtherNamesTier(ls);
    OtherNamesTier(gs);
  }

  /** The non-index names of some groups are the keys of their rank-0 tier. */
  lemma {:induction false} OtherNamesTier(gs: seq<Group<Team>>)
    ensures OtherNames(Keys(gs)) == Keys(Tier(KeyRank, 0, gs))
  {
    if |gs| > 0 {
      OtherNamesTier(gs[1..]);
      assert Keys(gs)[1..] == Keys(gs[1..]);
      var h: seq<Group<Team>> := if KeyRank(gs[0]) == 0 then [gs[0]] else [];
      MapAppend(KeyOf, h, Tier(KeyRank, 0, gs[1..]));
      assert KeyRank(gs[0]) == 0 <==> !IsArrayIndex(gs[0].key);
      assert Keys(h) == if IsArrayIndex(gs[0].key) then [] else [gs[0].key];
    }
  }

  /** Every team of every division without its `abbr` property. */
  function DropAbbrs(ds: seq<DivisionStandings>): (r: seq<DivisionStandings>)
    ensures |r| == |ds|
    ensures forall i :: 0 <= i < |ds| ==> r[i] == DivisionStandings(ds[i].divisionName, Map(DropAbbr, ds[i].teams))
  {
    if |ds| == 0 then [] else [DivisionStandings(ds[0].divisionName, Map(DropAbbr, ds[0].teams))] + DropAbbrs(ds[1..])
  }

  /** Ranking ignores `abbr`: dropping it before or after gives the same. */
  lemma {:induction false} RankDivisionDropAbbr(ts: seq<Team>)
    requires |ts| > 0
    ensures RankDivision(Map(DropAbbr, ts)) == Map(DropAbbr, RankDivision(ts))
  {
    var sorted := Sort(PointsOf, ts);
    SortDropAbbr(ts);
    AssignGbDropAbbr(sorted);
    assert RankDivision(Map(DropAbbr, ts)) == AssignGb(Map(DropAbbr, sorted));
    assert RankDivision(ts) == AssignGb(sorted);
  }

  lemma {:induction false} SortDropAbbr(ts: seq<Team>)
    ensures Sort(PointsOf, Map(DropAbbr, ts)) == Map(DropAbbr, Sort(PointsOf, ts))
  {
    assert forall y :: PointsOf(DropAbbr(y)) == PointsOf(y);
    SortMap(PointsOf, PointsOf, DropAbbr, ts);
  }

  /** The aggregation ignores `abbr`: dropping it from the input teams drops
      it from the output and changes nothing else. */
  lemma {:induction false} BuildDivisionsDropAbbr(xs: seq<(string, Team)>)
    ensures BuildDivisions(MapValues(DropAbbr, xs)) == DropAbbrs(BuildDivisions(xs))
  {
    BuildDivisionsDropped(xs, MapValues(DropAbbr, xs));
  }

  lemma {:induction false} BuildDivisionsDropped(xs: seq<(string, Team)>, ys: seq<(string, Team)>)
    requires ys == MapValues(DropAbbr, xs)
    ensures BuildDivisions(ys) == DropAbbrs(BuildDivisions(xs))
  {
    GroupByMap(DropAbbr, xs);
    EntriesMap(DropAbbr, GroupBy(xs));
    var ls, ms := ListedGroups(xs), ListedGroups(ys);
    assert ms == MapGroups(DropAbbr, ls);
    BuildDivisionsShape(xs);
    BuildDivisionsShape(ys);
    var a, b := BuildDivisions(ys), DropAbbrs(BuildDivisions(xs));
    forall i | 0 <= i < |a| ensures a[i] == b[i] {
      assert ms[i] == Group(ls[i].key, Map(DropAbbr, ls[i].members));
      RankDivisionDropAbbr(ls[i].members);
    }
    Extensionality(a, b);
  }
}
