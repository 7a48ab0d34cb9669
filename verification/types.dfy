/** The view-model types of `src/types.ts`. */
module Types {
  import opened Wrappers

  /** One row of a division table. `gb2` is the games-behind value in
      half-games: the `gb` number the table shows is `gb2 / 2` (see
      `GamesBehind.DisplayedGb`). `abbr` is `None` when the object has no
      `abbr` property at all, as the older `nlh.ts` copy builds it. */
  datatype Team = Team(
    name: string,
    abbr: Option<string>,
    wins: int,
    losses: int,
    otl: int,
    points: int,
    gb2: int,
    logo: Option<string>)

  /** One division: its name and its teams, leader first. */
  datatype DivisionStandings = DivisionStandings(divisionName: string, teams: seq<Team>)

  /** The sort key of the standings: a team's points. */
  function PointsOf(t: Team): int { t.points }

  /** The team with its derived games-behind value cleared, i.e. as the
      adapter first builds it. */
  function WithoutGb(t: Team): Team { t.(gb2 := 0) }

  /** The team without its `abbr` property. */
  function DropAbbr(t: Team): Team { t.(abbr := None) }

  /** The number of teams in a division. */
  function TeamCount(d: DivisionStandings): nat { |d.teams| }
}
