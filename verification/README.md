# NHL standings aggregation, modelled in Dafny

This project models the standings aggregation of the NHLStatas app. It also
models the date selection of its scoreboard fetch.

`fetchStandings` exists in two copies. The current copy is in `src/api/nhl.ts`. The older copy is in
`src/api/nlh.ts`, and it is the one the app runs: the standings screen
imports it (`src/app/(tabs)/index.tsx:6`). Each copy takes the parsed `standings` array of the NHL web API and
does four things:

1. It adapts every record into a `Team`.
2. It groups the teams by `divisionName` into an object of arrays.
3. It lists the object with `Object.entries`.
4. For each division, it sorts the teams by points with a stable sort, highest
   first. It then gives every team a games-behind value: half its point gap
   to the leader, rounded with `toFixed(1)`.

The model takes the parsed response as a value and returns either the
divisions or the error the JavaScript would throw. It proves:

- grouping is a partition of the records;
- each division is the unique stable sort of its teams by points;
- the games-behind closed form holds;
- the division order is the one `Object.entries` produces, which is
  first-seen order when no division name looks like an array index;
- the older copy returns the same result as the current one, without `abbr`.

## Modules

| file | module | models |
|---|---|---|
| `wrappers.dfy` | `Wrappers` | `Option` (absent JSON properties) and `Result` (thrown errors) |
| `seqs.dfy` | `Seqs` | `map`, sums and permutation facts over sequences |
| `types.dfy` | `Types` | `Team` and `DivisionStandings` of `src/types.ts` |
| `stable_sort.dfy` | `StableSort` | `Array.prototype.sort` with a numeric descending comparator, as a stable insertion sort |
| `grouping.dfy` | `Grouping` | the `forEach` loop that pushes each team onto `divisionGroups[division]` |
| `property_order.dfy` | `PropertyOrder` | the order in which `Object.entries` lists keys (array indices first, then creation order) |
| `games_behind.dfy` | `GamesBehind` | sorting one division and deriving `gb` |
| `divisions.dfy` | `Divisions` | the whole aggregation after adaptation |
| `standings.dfy` | `Standings` | `fetchStandings` of `nhl.ts` from the parsed body on |
| `legacy_standings.dfy` | `LegacyStandings` | `fetchStandings` of `nlh.ts`, and how it relates to `nhl.ts` |
| `scores.dfy` | `Scores` | the target date and the find-or-empty selection of `fetchScores` |
| `standings_example.dfy` | `StandingsExample` | a worked example with three records in two divisions |

The functions that compute what the code computes are `Standings.Tagged` (the `forEach` that adapts each record and reads its division name), `Grouping.Add` (one push onto `divisionGroups[division]`), `Grouping.GroupBy` (the whole `forEach` loop), `StableSort.Sort`, `GamesBehind.AssignGb`, `GamesBehind.ToFixed1` (`toFixed(1)` followed by `parseFloat`) and `Divisions.BuildDivisions`. The rows of "## Model" name the lemmas that state what `GroupBy`, `Add` and `ToFixed1` mean, such as `Grouping.GroupByContents` and `GamesBehind.HalvesSurviveRounding`.

Representation choices:

- **Games behind.** `gb` is kept exactly, as the integer `gb2 = leaderPoints - points` (half-games). Points are integers, so `(leaderPoints - points) / 2` is a whole or half number. `GamesBehind.DisplayedGb` applies the model of `toFixed(1)` and proves that the rounding changes nothing.
- **Absent properties.** A property that may be absent is an `Option`. `Team.abbr` is `None` exactly when the object has no `abbr` property, which is how the older copy builds every team.
- **Errors.** Two errors are kept as `Failure` values:
  - `data.standings` missing: `forEach` is called on `undefined`;
  - a record without `teamName`: `.default` is read from `undefined`, which throws at the first such record.

Facts about the code that the model keeps:

- **Division order.** `Object.entries` lists array-index keys such as `"7"` first, in ascending numeric order, and only then the other keys in creation order. `PropertyOrder.Entries` models that rule. So divisions come out in the order the records first mention them only when no division name is an array index, and that is the hypothesis of the first-seen lemmas.
- **Point values.** The code never checks `points >= 0`. The model allows any integer, and `gb2 >= 0` still holds because the leader is the maximum.
- **Empty abbreviation.** `|| ''` maps both an absent and an empty abbreviation to `""`. The older copy sets no `abbr` at all.

## Model

| member | source | states |
|---|---|---|
| Standings.AbbrevOrEmpty | src/api/nhl.ts:29 | the abbreviation is `teamAbbrev.default` when present, otherwise "" |
| Standings.Adapt | src/api/nhl.ts:27-36 | the Team built from a named record copies name, wins, losses, otLosses as otl, points and logo; abbr is the abbreviation or ""; gb starts at 0 |
| Standings.Tagged | src/api/nhl.ts:23-36 | every record, in input order, becomes the pair of its `divisionName` and the Team adapted from it |
| Standings.FirstUnnamed | src/api/nhl.ts:24-28 | finds the first record without `teamName`, the one at which reading `.default` throws; there is none exactly when every record is named |
| Standings.FetchStandings | src/api/nhl.ts:21-58 | a missing `standings` array fails with `MissingStandings`; when the array is present, any failure is `MissingTeamName` at the first record without a team name; otherwise it succeeds with the aggregated divisions, and with no divisions for an empty array |
| Standings.StandingsPartition | src/api/nhl.ts:21-42 | every record lands in exactly the division its `divisionName` names: names are distinct and are exactly the input names, no division is empty, each holds a permutation of its records' teams, and the team count equals the record count |
| Standings.StandingsRanked | src/api/nhl.ts:45-56 | in each division: teams in non-increasing order of points; equal-point teams keep input order; the leader has the most points and gb 0; every team is `leader - points` half-games behind, never negative |
| Standings.StandingsFirstSeen | src/api/nhl.ts:38-45 | when no division name is an array index, divisions come out in the order the records first mention them, not alphabetically |
| Divisions.BuildDivisionAt | src/api/nhl.ts:45-56 | one division per listed group, at the same position, built from that group |
| Divisions.BuildDivisionsShape | src/api/nhl.ts:45-56 | there are as many divisions as listed groups, each named by its group's key and ranked from its members |
| Divisions.ListedGroupsContents | src/api/nhl.ts:22-45 | the listed groups have distinct keys, exactly the input's division names, each holding the teams with that name in input order |
| Divisions.DivisionsPartition | src/api/nhl.ts:21-45 | grouping then ranking is a partition: distinct names, exactly the input names, non-empty divisions, per-division permutation of the tagged teams, total count kept |
| Divisions.EveryTeamPlaced | src/api/nhl.ts:38-41 | every input team appears in the division named by its tag, and that division exists |
| Divisions.DivisionsRanked | src/api/nhl.ts:46-53 | each division is sorted by points, a stable permutation of its tagged teams, led by a team with the most points and gb 0, with `gb2 == leader - points >= 0` for every team |
| Divisions.DivisionsFirstSeen | src/api/nhl.ts:38-45 | without array-index names the divisions follow the first mention of their names in the input |
| Divisions.DivisionsKeyOrder | src/api/nhl.ts:45 | in general array-index names come first, in strictly ascending numeric order, and the other names keep first-seen order |
| Divisions.RankDivisionDropAbbr | src/api/nlh.ts:37-52 | ranking a division ignores `abbr`: dropping it before or after ranking gives the same teams |
| Divisions.BuildDivisionsDropAbbr | src/api/nlh.ts:15-52 | the whole aggregation ignores `abbr`: aggregating teams without it equals dropping it from the result |
| GamesBehind.AssignGb | src/api/nhl.ts:49-52 | every team keeps all fields but gb, the first team has gb 0, each team is `first - points` half-games behind, and none is negative when the teams are sorted |
| GamesBehind.RankDivision | src/api/nhl.ts:47-52 | a ranked division is sorted by points and is a stable permutation of its input; its leader has the most points and gb 0; gb2 is `leader - points`, at least 0 |
| GamesBehind.DisplayedGb | src/api/nhl.ts:51 | the number `parseFloat(((leader - points) / 2).toFixed(1))` is exactly half of gb2 |
| GamesBehind.HalvesSurviveRounding | src/api/nhl.ts:51 | `toFixed(1)` leaves every whole or half number unchanged |
| StableSort.Insert | src/api/nhl.ts:48 | inserting into a sorted sequence keeps it sorted and adds exactly the element |
| StableSort.InsertTier | src/api/nhl.ts:48 | inserting puts the element in front of its own tier and leaves the other tiers alone |
| StableSort.Sort | src/api/nhl.ts:48 | the sort returns a permutation, in non-increasing rank order, in which every group of equal-rank elements keeps its input order |
| StableSort.SortedTiersUnique | src/api/nhl.ts:48 | two sorted sequences with the same equal-rank groups are equal |
| StableSort.SortIsUnique | src/api/nhl.ts:48 | any sorted stable permutation of the input is the sort's result, so a stable sort has one possible outcome |
| StableSort.HeadIsMax | src/api/nhl.ts:49 | the first element of a sorted sequence has the highest rank, so `teams[0].points` is the division maximum |
| StableSort.SortDistinctBy | src/api/nhl.ts:45 | sorting keeps distinct keys distinct |
| Grouping.Find | src/api/nhl.ts:38 | `divisionGroups[division]` finds the first group with that key, or none |
| Grouping.GroupByContents | src/api/nhl.ts:22-42 | after the loop the groups have distinct keys, exactly the keys of the input, and each holds exactly the values with its key in input order |
| Grouping.GroupByNonEmpty | src/api/nhl.ts:38-41 | every group created by the loop is non-empty |
| Grouping.GroupBySize | src/api/nhl.ts:24-42 | the groups hold as many values as there were entries |
| Grouping.GroupByFirstSeen | src/api/nhl.ts:38-41 | the groups are in the order their keys are first mentioned |
| Grouping.SelectMember | src/api/nhl.ts:41 | every entry's value is among the values selected by its key |
| PropertyOrder.Entries | src/api/nhl.ts:45 | `Object.entries` keeps the groups; array-index keys come first in non-decreasing numeric order; the other keys keep creation order |
| PropertyOrder.EntriesWithoutIndexKeys | src/api/nhl.ts:45 | with no array-index keys, `Object.entries` lists keys in creation order |
| PropertyOrder.EntriesDistinct | src/api/nhl.ts:45 | with distinct keys, array-index keys come out in strictly ascending numeric order |
| PropertyOrder.CanonicalDigitsInjective | src/api/nhl.ts:45 | two different canonical integer strings denote different numbers |
| LegacyStandings.AdaptLegacy | src/api/nlh.ts:20-28 | the older Team has no abbr and copies the other fields as the current copy does |
| LegacyStandings.FetchStandings | src/api/nlh.ts:15-54 | the older copy fails with `MissingStandings` on a missing `standings` array and with `MissingTeamName` at the first record without a team name, and otherwise aggregates like the current one |
| LegacyStandings.LegacyMatchesCurrent | src/api/nlh.ts:15-52 | the two copies fail on the same inputs with the same error; on success the older one returns the same divisions, order and gb values, without abbr |
| LegacyStandings.LegacyRanked | src/api/nlh.ts:30-45 | the older copy's divisions partition its records; each is a stable sort by points with its leader at gb 0 and `gb2 == leader - points >= 0`; no team has an abbr |
| LegacyStandings.LegacyFirstSeen | src/api/nlh.ts:30-37 | without array-index names the older copy also lists divisions in first-seen order |
| Scores.TargetDate | src/api/nhl.ts:66 | the requested date is used unless absent or empty; otherwise the first ten characters of the current ISO timestamp |
| Scores.FindDate | src/api/nhl.ts:78 | `find` returns the first entry whose date equals the target, or nothing |
| Scores.GamesForDate | src/api/nhl.ts:78 | the games of the first entry dated the target; `[]` when `gamesByDate` is absent, no entry matches, or the match has no games |
| Scores.GamesAreFromTargetDate | src/api/nhl.ts:78 | every returned game is listed under the target date |
| StandingsExample.ExampleGroups | src/api/nhl.ts:24-42 | records of divisions B, A, A group into B then A, with A's teams in input order |
| StandingsExample.ExampleRanks | src/api/nhl.ts:48-52 | the 80-point team leads the 76-point one, which is 2 games (4 half-games) behind |
| StandingsExample.ExampleTwoDivisions | src/api/nhl.ts:21-58 | the three records give division B then division A, not alphabetical order, with A sorted by points |

## Left out

- HTTP transport: the `fetch` calls, the `response.ok` checks, `response.json()`, `console.error` and the rethrow. These are I/O; the model starts from the parsed body.
- The CORS proxy prefix chosen by `Platform.OS`. It is URL addressing with no logic.
- `fetchTeamSchedule`, `fetchTeamRoster` and `fetchGameDetails`. They pass data through; the hard-coded season string needs no model.
- The UI components under `src/components` and the screens under `src/app`. They render only.
- The current time. `Scores.TargetDate` takes the ISO timestamp as a parameter instead of reading the clock.
- JSON values of the wrong type: a non-string `divisionName`, non-number points or wins, or a `teamName` object without `default`. The model types these fields; in the source the last case would give an `undefined` name.
- Division names that are properties of `Object.prototype`, such as "constructor" or "__proto__". In the source `divisionGroups[division]` then finds the inherited value and the push throws or misbehaves. The model treats every name as a fresh own property.
- Floating point. Points are integers and the model keeps gb in exact half-units. IEEE doubles represent these exactly below 2^53. `toFixed` switches to exponential notation at 10^21, far above any point total.
- PropertyOrder.Entries: its ensures states non-decreasing order of array-index keys. The strict order for distinct keys is in `PropertyOrder.EntriesDistinct`.
- Divisions.BuildDivisions: its own ensures states only that no input gives no divisions. What it computes is stated by `BuildDivisionsShape`, `DivisionsPartition`, `DivisionsRanked` and `DivisionsKeyOrder`.
- Period tallies, scoring plays, top scorers, status labels and season resolution. No code for them exists in the repository's API layer.
