/** Ranking one division and deriving games-behind, as the `map` callback of
    `fetchStandings` does: sort the division's teams by points, highest
    first, take the first team's points as the leader's, and give every team
    `gb = (leaderPoints - points) / 2`, rounded with `toFixed(1)`. Points are
    integers, so the model keeps the exact half-game count `gb2`. */
module GamesBehind {
  import opened Seqs
  import opened StableSort
  import opened Types

  /** Every team's games-behind relative to the first team of `ts`. */
  function AssignGb(ts: seq<Team>): (r: seq<Team>)
    requires |ts| > 0
    ensures |r| == |ts|
    ensures forall i :: 0 <= i < |r| ==> WithoutGb(r[i]) == WithoutGb(ts[i])
    ensures r[0].gb2 == 0
    ensures forall i :: 0 <= i < |r| ==> r[i].gb2 == r[0].points - r[i].points
    ensures Sorted(PointsOf, ts) ==> forall i :: 0 <= i < |r| ==> r[i].gb2 >= 0
  {
    seq(|ts|, i requires 0 <= i < |ts| => ts[i].(gb2 := ts[0].points - ts[i].points))
  }

  /** One division as the table shows it: its teams as a stable sort by
      points (highest first), each team with its games-behind from the
      leader, who has the most points and is 0 games behind. */
  function RankDivision(ts: seq<Team>): (r: seq<Team>)
    requires |ts| > 0
    ensures |r| == |ts|
    ensures Sorted(PointsOf, r)
    ensures multiset(Map(WithoutGb, r)) == multiset(Map(WithoutGb, ts))
    ensures forall v :: Tier(PointsOf, v, Map(WithoutGb, r)) == Tier(PointsOf, v, Map(WithoutGb, ts))
    ensures forall t :: t in ts ==> r[0].points >= t.points
    ensures r[0].gb2 == 0
    ensures forall i :: 0 <= i < |r| ==> r[i].gb2 == r[0].points - r[i].points && r[i].gb2 >= 0
  {
    var sorted := Sort(PointsOf, ts);
    RankStable(sorted, AssignGb(sorted), ts);
    AssignGb(sorted)
  }

  /** The first team of the sorted division has the most points. */
  lemma {:induction false} LeaderHasMostPoints(sorted: seq<Team>, ts: seq<Team>)
    requires |ts| > 0 && sorted == Sort(PointsOf, ts)
    ensures forall t :: t in ts ==> sorted[0].points >= t.points
  {
    forall t | t in ts ensures sorted[0].points >= t.points {
      assert t in multiset(sorted);
      HeadIsMax(PointsOf, sorted, t);
    }
  }

  /** The helper that moves the facts about the sort through `AssignGb`. */
  lemma {:induction false} RankStable(sorted: seq<Team>, r: seq<Team>, ts: seq<Team>)
    requires |ts| > 0 && sorted == Sort(PointsOf, ts) && r == AssignGb(sorted)
    ensures Sorted(PointsOf, r)
    ensures multiset(Map(WithoutGb, r)) == multiset(Map(WithoutGb, ts))
    ensures forall v :: Tier(PointsOf, v, Map(WithoutGb, r)) == Tier(PointsOf, v, Map(WithoutGb, ts))
    ensures forall t :: t in ts ==> r[0].points >= t.points
    ensures forall i :: 0 <= i < |r| ==> r[i].gb2 >= 0
  {
    LeaderHasMostPoints(sorted, ts);
    assert WithoutGb(r[0]) == WithoutGb(sorted[0]);
    var m := Map(WithoutGb, r);
    assert m == Map(WithoutGb, sorted);
    SameGapsSorted(sorted, r);
    forall v ensures Tier(PointsOf, v, m) == Tier(PointsOf, v, Map(WithoutGb, ts)) {
      WithoutGbKeepsPoints();
      TierMap(PointsOf, PointsOf, WithoutGb, v, sorted);
      TierMap(PointsOf, PointsOf, WithoutGb, v, ts);
    }
    MapMultiset(WithoutGb, sorted, ts);
  }

  lemma {:induction false} WithoutGbKeepsPoints()
    ensures forall y :: PointsOf(WithoutGb(y)) == PointsOf(y)
  {
  }

  /** Rewriting `gb2` leaves the points, and so the order, alone. */
  lemma {:induction false} SameGapsSorted(a: seq<Team>, b: seq<Team>)
    requires Sorted(PointsOf, a)
    requires Map(WithoutGb, a) == Map(WithoutGb, b)
    ensures Sorted(PointsOf, b)
  {
    forall i, j | 0 <= i < j < |b| ensures PointsOf(b[i]) >= PointsOf(b[j]) {
      assert WithoutGb(a[i]) == WithoutGb(b[i]);
      assert WithoutGb(a[j]) == WithoutGb(b[j]);
    }
  }

  /** Deriving games-behind ignores `abbr`. */
  lemma {:induction false} AssignGbDropAbbr(ts: seq<Team>)
    requires |ts| > 0
    ensures AssignGb(Map(DropAbbr, ts)) == Map(DropAbbr, AssignGb(ts))
  {
    AssignGbDropped(ts, Map(DropAbbr, ts));
  }

  lemma {:induction false} AssignGbDropped(ts: seq<Team>, m: seq<Team>)
    requires |ts| > 0 && m == Map(DropAbbr, ts)
    ensures AssignGb(m) == Map(DropAbbr, AssignGb(ts))
  {
    var a, b := AssignGb(m), Map(DropAbbr, AssignGb(ts));
    forall i | 0 <= i < |ts| ensures a[i] == b[i] {
      AssignGbDropAbbrAt(ts, i);
    }
    Extensionality(a, b);
  }

  lemma {:induction false} AssignGbDropAbbrAt(ts: seq<Team>, i: nat)
    requires i < |ts|
    ensures AssignGb(Map(DropAbbr, ts))[i] == DropAbbr(AssignGb(ts)[i])
  {
    var m := Map(DropAbbr, ts);
    assert m[i] == DropAbbr(ts[i]);
    assert m[0] == DropAbbr(ts[0]);
  }

  /** `Number.prototype.toFixed(1)` read back with `parseFloat`, for values
      below 10^21 in magnitude: the nearest multiple of 0.1, ties going to
      the larger magnitude (section 21.1.3.3 of ECMA-262 rounds the magnitude
      and restores the sign). */
  function ToFixed1(x: real): real {
    if x < 0.0 then -RoundTenths(-x) else RoundTenths(x)
  }

  function RoundTenths(x: real): real {
    (x * 10.0 + 0.5).Floor as real / 10.0
  }

  /** The `gb` number the table shows for a ranked team: half its point gap
      to the leader, rounded to one decimal, which loses nothing. */
  function DisplayedGb(t: Team): (g: real)
    ensures 2.0 * g == t.gb2 as real
  {
    HalvesSurviveRounding(t.gb2);
    ToFixed1(t.gb2 as real / 2.0)
  }

  /** A whole or half number is already a multiple of 0.1, so `toFixed(1)`
      returns it unchanged. */
  lemma {:induction false} HalvesSurviveRounding(d: int)
    ensures ToFixed1(d as real / 2.0) == d as real / 2.0
  {
    var x := d as real / 2.0;
    if d < 0 {
      assert -x * 10.0 + 0.5 == (-5 * d) as real + 0.5;
      FloorAddHalf(-5 * d);
      assert RoundTenths(-x) == (-5 * d) as real / 10.0;
    } else {
      assert x * 10.0 + 0.5 == (5 * d) as real + 0.5;
      FloorAddHalf(5 * d);
      assert RoundTenths(x) == (5 * d) as real / 10.0;
    }
  }

  lemma {:induction false} FloorAddHalf(n: int)
    ensures (n as real + 0.5).Floor == n
  {
  }
}
