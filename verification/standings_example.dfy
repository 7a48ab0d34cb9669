/** A worked example of `fetchStandings`: three records, division "B" first
    in the input, division "A" holding two teams out of points order, one of
    them without an abbreviation. The output lists "B" before "A" (first-seen
    order, not alphabetical), sorts "A" by points and puts its second team
    two games (four half-games) behind. */
module StandingsExample {
  import opened Wrappers
  import opened Seqs
  import opened StableSort
  import opened Types
  import opened Grouping
  import opened PropertyOrder
  import opened GamesBehind
  import opened Standings
  import opened Divisions

  /** The three records, in the order the response lists them: B1, A2, A1. */
  function A1(): StandingsRecord { StandingsRecord(Some("T1"), Some("AAA"), "A", 40, 20, 0, 80, None) }
  function A2(): StandingsRecord { StandingsRecord(Some("T2"), None, "A", 38, 22, 0, 76, None) }
  function B1(): StandingsRecord { StandingsRecord(Some("T3"), Some("BBB"), "B", 45, 15, 0, 90, None) }

  /** Grouping keeps first-seen order and input order within a division. */
  lemma {:induction false} ExampleGroups()
    ensures GroupBy(Tagged([B1(), A2(), A1()])) == [Group("B", [Adapt(B1())]), Group("A", [Adapt(A2()), Adapt(A1())])]
  {
    var t1, t2, t3 := Adapt(A1()), Adapt(A2()), Adapt(B1());
    var xs := Tagged([B1(), A2(), A1()]);
    assert xs == [("B", t3), ("A", t2), ("A", t1)];
    assert xs[..2][..1] == [("B", t3)];
    assert GroupBy(xs[..2][..1]) == [Group("B", [t3])];
    var g2 := [Group("B", [t3]), Group("A", [t2])];
    assert GroupBy(xs[..2]) == g2;
    assert Find(g2, "A") == Some(1);
    assert xs[..|xs| - 1] == xs[..2];
    assert GroupBy(xs) == Add(g2, "A", t1) == g2[1 := Group("A", [t2] + [t1])];
    assert [t2] + [t1] == [t2, t1];
  }

  /** Ranking a division: the stable sort puts the 80-point team first. */
  lemma {:induction false} ExampleRanks()
    ensures RankDivision([Adapt(A2()), Adapt(A1())]) == [Adapt(A1()), Adapt(A2()).(gb2 := 4)]
    ensures RankDivision([Adapt(B1())]) == [Adapt(B1())]
  {
    var t1, t2, t3 := Adapt(A1()), Adapt(A2()), Adapt(B1());
    assert Sort(PointsOf, [t1]) == [t1];
    assert Sort(PointsOf, [t2, t1]) == Insert(PointsOf, t2, [t1]) == [t1, t2];
    assert AssignGb([t1, t2]) == [t1, t2.(gb2 := 4)];
    assert Sort(PointsOf, [t3]) == [t3];
  }

  /** The divisions the response yields. */
  function ExpectedDivisions(): seq<DivisionStandings> {
    [DivisionStandings("B", [Adapt(B1())]), DivisionStandings("A", [Adapt(A1()), Adapt(A2()).(gb2 := 4)])]
  }

  /** Neither name is an array index, so `Object.entries` keeps that order. */
  lemma {:induction false} ExampleListed()
    ensures ListedGroups(Tagged([B1(), A2(), A1()])) == [Group("B", [Adapt(B1())]), Group("A", [Adapt(A2()), Adapt(A1())])]
  {
    ExampleGroups();
    var gs := GroupBy(Tagged([B1(), A2(), A1()]));
    assert !IsArrayIndex(gs[0].key) && !IsArrayIndex(gs[1].key);
    EntriesWithoutIndexKeys(gs);
  }

  /** Ranking the listed groups gives the expected divisions. */
  lemma {:induction false} BuildFromListed(xs: seq<(string, Team)>)
    requires ListedGroups(xs) == [Group("B", [Adapt(B1())]), Group("A", [Adapt(A2()), Adapt(A1())])]
    ensures BuildDivisions(xs) == ExpectedDivisions()
  {
    ExampleDivisions();
    BuildTwo(xs, Group("B", [Adapt(B1())]), Group("A", [Adapt(A2()), Adapt(A1())]), ExpectedDivisions()[0], ExpectedDivisions()[1]);
  }

  /** Each listed group ranked on its own. */
  lemma {:induction false} ExampleDivisions()
    ensures Division(Group("B", [Adapt(B1())])) == ExpectedDivisions()[0]
    ensures Division(Group("A", [Adapt(A2()), Adapt(A1())])) == ExpectedDivisions()[1]
  {
    ExampleRanks();
  }

  /** Two listed groups give two divisions, in the same order. */
  lemma {:induction false} BuildTwo(xs: seq<(string, Team)>, g0: Group<Team>, g1: Group<Team>, d0: DivisionStandings, d1: DivisionStandings)
    requires ListedGroups(xs) == [g0, g1]
    requires |g0.members| > 0 && |g1.members| > 0
    requires Division(g0) == d0 && Division(g1) == d1
    ensures BuildDivisions(xs) == [d0, d1]
  {
    DivisionAtIs(xs, 0, g0, d0);
    DivisionAtIs(xs, 1, g1, d1);
    PairIs(BuildDivisions(xs), d0, d1);
  }

  /** The division at position `i` is the one built from the group there. */
  lemma {:induction false} DivisionAtIs(xs: seq<(string, Team)>, i: nat, g: Group<Team>, d: DivisionStandings)
    requires i < |ListedGroups(xs)| && ListedGroups(xs)[i] == g
    requires |g.members| > 0 && Division(g) == d
    ensures |BuildDivisions(xs)| == |ListedGroups(xs)| && BuildDivisions(xs)[i] == d
  {
    BuildDivisionAt(xs, i);
  }

  /** A sequence of length two is the pair of its elements. */
  lemma {:induction false} PairIs<T>(r: seq<T>, a: T, b: T)
    requires |r| == 2 && r[0] == a && r[1] == b
    ensures r == [a, b]
  {
  }

  /** The whole call on the example response. */
  lemma {:induction false} ExampleTwoDivisions(recs: seq<StandingsRecord>)
    requires recs == [B1(), A2(), A1()]
    ensures FetchStandings(StandingsResponse(Some(recs))) == Success(ExpectedDivisions())
  {
    ExampleListedFor(recs);
    BuildFromListed(Tagged(recs));
  }

  /** `ExampleListed`, stated for a sequence equal to the example records. */
  lemma {:induction false} ExampleListedFor(recs: seq<StandingsRecord>)
    requires recs == [B1(), A2(), A1()]
    ensures AllNamed(recs)
    ensures ListedGroups(Tagged(recs)) == [Group("B", [Adapt(B1())]), Group("A", [Adapt(A2()), Adapt(A1())])]
  {
    ExampleListed();
  }
}
