/** The older copy of `fetchStandings` in `src/api/nlh.ts`. It is the copy
    the standings screen imports (`src/app/(tabs)/index.tsx:6`), so it is
    the one the app runs. It runs the same aggregation as `nhl.ts`, but the
    `Team` objects it builds have no `abbr` property. Errors are those of
    the newer copy. */
module LegacyStandings {
  import opened Wrappers
  import opened Seqs
  import opened StableSort
  import opened Types
  import opened Grouping
  import opened Divisions
  import opened PropertyOrder
  import Standings

  /** The `Team` object the older copy builds for one record: the newer
      copy's object without `abbr`. */
  function AdaptLegacy(r: Standings.StandingsRecord): (t: Team)
    requires Standings.Named(r)
    ensures t.abbr.None?
    ensures t.name == r.teamName.value
    ensures t.wins == r.wins && t.losses == r.losses && t.otl == r.otLosses
    ensures t.points == r.points && t.logo == r.teamLogo && t.gb2 == 0
    ensures t == DropAbbr(Standings.Adapt(r))
  {
    Team(r.teamName.value, None, r.wins, r.losses, r.otLosses, r.points, 0, r.teamLogo)
  }

  function TaggedLegacy(recs: seq<Standings.StandingsRecord>): (xs: seq<(string, Team)>)
    requires Standings.AllNamed(recs)
    ensures |xs| == |recs|
    ensures forall i :: 0 <= i < |recs| ==> xs[i] == (recs[i].divisionName, AdaptLegacy(recs[i]))
  {
    if |recs| == 0 then [] else [(recs[0].divisionName, AdaptLegacy(recs[0]))] + TaggedLegacy(recs[1..])
  }

  /** The pure part of the older `fetchStandings`. */
  function FetchStandings(resp: Standings.StandingsResponse): (r: Result<seq<DivisionStandings>, Standings.StandingsError>)
    ensures resp.standings.None? ==> r == Failure(Standings.MissingStandings)
    ensures resp.standings.Some? ==> (r.Success? <==> Standings.AllNamed(resp.standings.value))
    ensures resp.standings.Some? && r.Failure? ==>
      r.error == Standings.MissingTeamName(Standings.FirstUnnamed(resp.standings.value).value)
    ensures r.Success? ==> r.value == BuildDivisions(TaggedLegacy(resp.standings.value))
  {
    match resp.standings
    case None => Failure(Standings.MissingStandings)
    case Some(recs) =>
      match Standings.FirstUnnamed(recs)
      case Some(i) => Failure(Standings.MissingTeamName(i))
      case None => Success(BuildDivisions(TaggedLegacy(recs)))
  }

  /** The two copies agree: the older one fails exactly when and how the
      newer one does, and otherwise returns the same divisions in the same
      order with the same teams and games-behind values, minus `abbr`. */
  lemma {:induction false} LegacyMatchesCurrent(resp: Standings.StandingsResponse)
    ensures FetchStandings(resp).Failure? <==> Standings.FetchStandings(resp).Failure?
    ensures FetchStandings(resp).Failure? ==> FetchStandings(resp).error == Standings.FetchStandings(resp).error
    ensures FetchStandings(resp).Success? ==>
      FetchStandings(resp).value == DropAbbrs(Standings.FetchStandings(resp).value)
  {
    if resp.standings.Some? && Standings.AllNamed(resp.standings.value) {
      var recs := resp.standings.value;
      assert TaggedLegacy(recs) == MapValues(DropAbbr, Standings.Tagged(recs));
      BuildDivisionsDropAbbr(Standings.Tagged(recs));
    }
  }

  /** The older copy's divisions are a partition of its records, ranked as
      in the newer copy: names distinct, no record lost, every division
      non-empty and a stable sort by points of the teams tagged with its
      name, whose leader is 0 games behind and every team `leader - points`
      half-games behind; no team has an `abbr`. */
  lemma {:induction false} LegacyRanked(resp: Standings.StandingsResponse)
    requires FetchStandings(resp).Success?
    ensures var ds := FetchStandings(resp).value;
      && DistinctBy(NameOf, ds)
      && SumBy(TeamCount, ds) == |resp.standings.value|
      && forall d :: d in ds ==>
        && |d.teams| > 0
        && d.teams[0].gb2 == 0
        && Sorted(PointsOf, d.teams)
        && (forall i :: 0 <= i < |d.teams| ==> d.teams[i].abbr.None? && d.teams[i].gb2 == d.teams[0].points - d.teams[i].points >= 0)
    ensures var ds, xs := FetchStandings(resp).value, TaggedLegacy(resp.standings.value);
      forall d, v :: d in ds ==>
        Tier(PointsOf, v, Map(WithoutGb, d.teams)) == Tier(PointsOf, v, Map(WithoutGb, Select(xs, d.divisionName)))
  {
    var xs := TaggedLegacy(resp.standings.value);
    DivisionsPartition(xs);
    DivisionsRanked(xs);
    forall d, i | d in BuildDivisions(xs) && 0 <= i < |d.teams| ensures d.teams[i].abbr.None? {
      assert d.teams[i] in d.teams;
      AbbrAbsentKept(xs, d);
    }
  }

  /** No team of the older copy's output has an `abbr`. */
  lemma {:induction false} AbbrAbsentKept(xs: seq<(string, Team)>, d: DivisionStandings)
    requires forall i :: 0 <= i < |xs| ==> xs[i].1.abbr.None?
    requires d in BuildDivisions(xs)
    ensures forall t :: t in d.teams ==> t.abbr.None?
  {
    var g := DivisionOrigin(xs, d);
    var sel := Select(xs, d.divisionName);
    forall t | t in d.teams ensures t.abbr.None? {
      var i :| 0 <= i < |d.teams| && d.teams[i] == t;
      assert Map(WithoutGb, d.teams)[i] == WithoutGb(t);
      assert WithoutGb(t) in multiset(Map(WithoutGb, sel));
      var j :| 0 <= j < |sel| && Map(WithoutGb, sel)[j] == WithoutGb(t);
      SelectValues(xs, d.divisionName, sel[j]);
    }
  }

  /** With no division named like an array index, the older copy also lists
      divisions in the order the records first mention them. */
  lemma {:induction false} LegacyFirstSeen(resp: Standings.StandingsResponse)
    requires FetchStandings(resp).Success?
    requires forall r :: r in resp.standings.value ==> !IsArrayIndex(r.divisionName)
    ensures FirstSeenOrder(Standings.DivisionNames(resp.standings.value), Names(FetchStandings(resp).value))
  {
    LegacyMatchesCurrent(resp);
    Standings.StandingsFirstSeen(resp);
    DropAbbrsFirstSeen(Standings.DivisionNames(resp.standings.value), Standings.FetchStandings(resp).value);
  }

  /** Dropping `abbr` keeps every division name in place. */
  lemma {:induction false} DropAbbrsFirstSeen(names: seq<string>, ds: seq<DivisionStandings>)
    requires FirstSeenOrder(names, Names(ds))
    ensures FirstSeenOrder(names, Names(DropAbbrs(ds)))
  {
    var r := DropAbbrs(ds);
    forall i | 0 <= i < |ds| ensures Names(r)[i] == Names(ds)[i] { }
    assert Names(r) == Names(ds);
  }
}
