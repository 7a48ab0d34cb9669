/** The pure parts of `fetchScores` in `src/api/nhl.ts`: which date is asked
    for, and which games of the scoreboard response are returned. The games
    themselves are passed through untouched, so their type is a parameter. */
module Scores {
  import opened Wrappers

  /** One element of `data.gamesByDate`; `games` is `None` when absent. */
  datatype DateEntry<G> = DateEntry(date: string, games: Option<seq<G>>)

  /** The parsed scoreboard body; `gamesByDate` is `None` when absent. */
  datatype ScoreboardResponse<G> = ScoreboardResponse(gamesByDate: Option<seq<DateEntry<G>>>)

  /** `date || new Date().toISOString().slice(0, 10)`: the requested date,
      unless it is absent or empty, else the first ten characters (the
      YYYY-MM-DD part) of the current instant in ISO form, which is a
      parameter here. */
  function TargetDate(date: Option<string>, nowIso: string): (d: string)
    ensures date.Some? && date.value != "" ==> d == date.value
    ensures (date.None? || date.value == "") ==> d == nowIso[..if |nowIso| < 10 then |nowIso| else 10]
    ensures (date.None? || date.value == "") ==> |d| <= 10 && nowIso[..|d|] == d
  {
    match date
    case Some(s) => if s != "" then s else Prefix10(nowIso)
    case None => Prefix10(nowIso)
  }

  /** `slice(0, 10)`: at most the first ten characters. */
  function Prefix10(s: string): string {
    if |s| <= 10 then s else s[..10]
  }

  /** The position of the first entry for `target`, if any (`Array.prototype.find`). */
  function FindDate<G>(entries: seq<DateEntry<G>>, target: string): (r: Option<nat>)
    ensures r.Some? ==> r.value < |entries| && entries[r.value].date == target
    ensures r.Some? ==> forall j :: 0 <= j < r.value ==> entries[j].date != target
    ensures r.None? ==> forall j :: 0 <= j < |entries| ==> entries[j].date != target
  {
    if |entries| == 0 then None
    else if entries[0].date == target then Some(0)
    else match FindDate(entries[1..], target)
      case None => None
      case Some(i) => Some(i + 1)
  }

  /** `data.gamesByDate?.find(d => d.date === targetDate)?.games || []`. */
  function GamesForDate<G>(resp: ScoreboardResponse<G>, target: string): (games: seq<G>)
    ensures resp.gamesByDate.None? ==> games == []
    ensures resp.gamesByDate.Some? && (forall j :: 0 <= j < |resp.gamesByDate.value| ==> resp.gamesByDate.value[j].date != target)
      ==> games == []
    ensures forall i ::
              && resp.gamesByDate.Some?
              && 0 <= i < |resp.gamesByDate.value|
              && resp.gamesByDate.value[i].date == target
              && (forall j :: 0 <= j < i ==> resp.gamesByDate.value[j].date != target)
              ==> games == resp.gamesByDate.value[i].games.GetOr([])
  {
    match resp.gamesByDate
    case None => []
    case Some(entries) =>
      match FindDate(entries, target)
      case None => []
      case Some(i) =>
        match entries[i].games
        case Some(gs) => gs
        case None => []
  }

  /** Every game returned is listed under the target date in the response. */
  lemma {:induction false} GamesAreFromTargetDate<G>(resp: ScoreboardResponse<G>, target: string, g: G)
    requires g in GamesForDate(resp, target)
    ensures exists e :: e in resp.gamesByDate.value && e.date == target && e.games.Some? && g in e.games.value
  {
    var entries := resp.gamesByDate.value;
    var i := FindDate(entries, target).value;
    assert entries[i] in entries;
  }
}
