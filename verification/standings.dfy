/** `fetchStandings` of `src/api/nhl.ts`, from the parsed response body on:
    adapt every record of `data.standings` into a `Team`, group the teams by
    `divisionName`, and rank each division (see `Divisions`). The HTTP
    request, the proxy prefix and the logging are not part of this model. */
module Standings {
  import opened Wrappers
  import opened Seqs
  import opened StableSort
  import opened Types
  import opened Grouping
  import opened PropertyOrder
  import opened Divisions

  /** One element of `data.standings` after JSON parsing. `teamName` is
      `teamName.default`, `None` when the record has no `teamName` object;
      `teamAbbrev` is `teamAbbrev?.default`, `None` when either is missing. */
  datatype StandingsRecord = StandingsRecord(
    teamName: Option<string>,
    teamAbbrev: Option<string>,
    divisionName: string,
    wins: int,
    losses: int,
    otLosses: int,
    points: int,
    teamLogo: Option<string>)

  /** The parsed response body; `standings` is `None` when it has no such property. */
  datatype StandingsResponse = StandingsResponse(standings: Option<seq<StandingsRecord>>)

  /** What `fetchStandings` throws once the response has arrived. */
  datatype StandingsError =
    | MissingStandings            // `forEach` called on an absent `data.standings`
    | MissingTeamName(index: nat) // `.default` read from an absent `teamName`, at this record

  predicate Named(r: StandingsRecord) { r.teamName.Some? }

  predicate AllNamed(recs: seq<StandingsRecord>) {
    forall i :: 0 <= i < |recs| ==> Named(recs[i])
  }

  /** `teamAbbrev?.default || ''`: the empty string is falsy, so both an
      absent and an empty abbreviation give "". */
  function AbbrevOrEmpty(a: Option<string>): (s: string)
    ensures s == a.GetOr("")
  {
    match a
    case Some(t) => if t != "" then t else ""
    case None => ""
  }

  /** The `Team` object built for one record. */
  function Adapt(r: StandingsRecord): (t: Team)
    requires Named(r)
    ensures t.name == r.teamName.value
    ensures t.abbr == Some(r.teamAbbrev.GetOr(""))
    ensures t.wins == r.wins && t.losses == r.losses && t.otl == r.otLosses
    ensures t.points == r.points && t.logo == r.teamLogo
    ensures t.gb2 == 0
  {
    Team(r.teamName.value, Some(AbbrevOrEmpty(r.teamAbbrev)), r.wins, r.losses, r.otLosses, r.points, 0, r.teamLogo)
  }

  /** Every adapted team tagged with its record's division name, in input order. */
  function Tagged(recs: seq<StandingsRecord>): (xs: seq<(string, Team)>)
    requires AllNamed(recs)
    ensures |xs| == |recs|
    ensures forall i :: 0 <= i < |recs| ==> xs[i] == (recs[i].divisionName, Adapt(recs[i]))
  {
    if |recs| == 0 then [] else [(recs[0].divisionName, Adapt(recs[0]))] + Tagged(recs[1..])
  }

  /** The position of the first record without a team name, if any. */
  function FirstUnnamed(recs: seq<StandingsRecord>): (r: Option<nat>)
    ensures r.None? <==> AllNamed(recs)
    ensures r.Some? ==> r.value < |recs| && !Named(recs[r.value])
    ensures r.Some? ==> forall j :: 0 <= j < r.value ==> Named(recs[j])
  {
    if |recs| == 0 then None
    else if !Named(recs[0]) then Some(0)
    else match FirstUnnamed(recs[1..])
      case None => None
      case Some(i) => Some(i + 1)
  }

  /** The pure part of `fetchStandings`: a missing `standings` array or a
      record without a `teamName` throws; otherwise one ranked division per
      distinct division name. */
  function FetchStandings(resp: StandingsResponse): (r: Result<seq<DivisionStandings>, StandingsError>)
    ensures resp.standings.None? ==> r == Failure(MissingStandings)
    ensures resp.standings.Some? ==> (r.Success? <==> AllNamed(resp.standings.value))
    ensures r.Failure? && r.error.MissingTeamName? ==>
      && resp.standings.Some?
      && r.error.index < |resp.standings.value|
      && !Named(resp.standings.value[r.error.index])
      && forall j :: 0 <= j < r.error.index ==> Named(resp.standings.value[j])
    ensures resp.standings.Some? && r.Failure? ==>
      r.error == MissingTeamName(FirstUnnamed(resp.standings.value).value)
    ensures r.Success? ==> r.value == BuildDivisions(Tagged(resp.standings.value))
    ensures resp.standings == Some([]) ==> r == Success([])
  {
    match resp.standings
    case None => Failure(MissingStandings)
    case Some(recs) =>
      match FirstUnnamed(recs)
      case Some(i) => Failure(MissingTeamName(i))
      case None => Success(BuildDivisions(Tagged(recs)))
  }

  function DivisionNameOf(r: StandingsRecord): string { r.divisionName }

  /** The division names of the records, in input order (repeats included). */
  function DivisionNames(recs: seq<StandingsRecord>): seq<string> { Map(DivisionNameOf, recs) }

  /** The teams adapted from the records of division `k`, in input order. */
  function DivisionInput(recs: seq<StandingsRecord>, k: string): seq<Team>
    requires AllNamed(recs)
    decreases |recs|
  {
    if |recs| == 0 then []
    else
      var last := recs[|recs| - 1];
      DivisionInput(recs[..|recs| - 1], k) + (if last.divisionName == k then [Adapt(last)] else [])
  }

  /** Grouping the tagged teams selects exactly a division's input teams,
      which still have no games-behind value. */
  lemma {:induction false} TaggedSelect(recs: seq<StandingsRecord>, k: string)
    requires AllNamed(recs)
    ensures Select(Tagged(recs), k) == DivisionInput(recs, k)
    ensures Map(WithoutGb, DivisionInput(recs, k)) == DivisionInput(recs, k)
    decreases |recs|
  {
    if |recs| > 0 {
      var n := |recs| - 1;
      assert Tagged(recs)[..n] == Tagged(recs[..n]);
      TaggedSelect(recs[..n], k);
      var tail: seq<Team> := if recs[n].divisionName == k then [Adapt(recs[n])] else [];
      MapAppend(WithoutGb, DivisionInput(recs[..n], k), tail);
      assert Map(WithoutGb, tail) == tail;
    }
  }

  lemma {:induction false} TaggedKeys(recs: seq<StandingsRecord>)
    requires AllNamed(recs)
    ensures EntryKeys(Tagged(recs)) == DivisionNames(recs)
  {
  }

  /** Every record ends up in exactly one division, the one its
      `divisionName` names: the names are distinct and are exactly the
      input's names, each division is non-empty and holds a permutation of
      its records' teams, and the divisions hold as many teams as there
      were records. */
  lemma {:induction false} StandingsPartition(resp: StandingsResponse)
    requires FetchStandings(resp).Success?
    ensures var ds, recs := FetchStandings(resp).value, resp.standings.value;
      && DistinctBy(NameOf, ds)
      && (forall k :: k in Names(ds) <==> k in DivisionNames(recs))
      && (forall d :: d in ds ==> |d.teams| > 0)
      && (forall d :: d in ds ==> multiset(Map(WithoutGb, d.teams)) == multiset(DivisionInput(recs, d.divisionName)))
      && SumBy(TeamCount, ds) == |recs|
  {
    var recs := resp.standings.value;
    DivisionsPartition(Tagged(recs));
    TaggedKeys(recs);
    forall k ensures Select(Tagged(recs), k) == DivisionInput(recs, k) && Map(WithoutGb, DivisionInput(recs, k)) == DivisionInput(recs, k) {
      TaggedSelect(recs, k);
    }
  }

  /** Each division is ranked: a stable sort of its records' teams by
      points, highest first, whose leader has the most points and is 0 games
      behind, every team being `leader - points` half-games behind. */
  lemma {:induction false} StandingsRanked(resp: StandingsResponse)
    requires FetchStandings(resp).Success?
    ensures var ds, recs := FetchStandings(resp).value, resp.standings.value;
      forall d :: d in ds ==>
        && |d.teams| > 0
        && Sorted(PointsOf, d.teams)
        && d.teams[0].gb2 == 0
        && (forall t :: t in DivisionInput(recs, d.divisionName) ==> d.teams[0].points >= t.points)
        && (forall i :: 0 <= i < |d.teams| ==> d.teams[i].gb2 == d.teams[0].points - d.teams[i].points >= 0)
        && (forall v :: Tier(PointsOf, v, Map(WithoutGb, d.teams)) == Tier(PointsOf, v, DivisionInput(recs, d.divisionName)))
  {
    var recs := resp.standings.value;
    DivisionsRanked(Tagged(recs));
    forall k ensures Select(Tagged(recs), k) == DivisionInput(recs, k) && Map(WithoutGb, DivisionInput(recs, k)) == DivisionInput(recs, k) {
      TaggedSelect(recs, k);
    }
  }

  /** With no division named like an array index, divisions come out in
      the order the records first mention them. */
  lemma {:induction false} StandingsFirstSeen(resp: StandingsResponse)
    requires FetchStandings(resp).Success?
    requires forall r :: r in resp.standings.value ==> !IsArrayIndex(r.divisionName)
    ensures FirstSeenOrder(DivisionNames(resp.standings.value), Names(FetchStandings(resp).value))
  {
    var recs := resp.standings.value;
    TaggedKeys(recs);
    forall i | 0 <= i < |Tagged(recs)| ensures !IsArrayIndex(Tagged(recs)[i].0) {
      assert recs[i] in recs;
    }
    DivisionsFirstSeen(Tagged(recs));
  }
}
