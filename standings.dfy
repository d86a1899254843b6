/** The league table: `computeStandings` starts every team of the roster
    at zero, adds each completed fixture with two known teams and two
    scores to both teams' rows, and sorts the rows by points, goal
    difference, goals scored and team name. */
module Standings {
  import opened Optional
  import opened Text

  datatype TeamEntry = TeamEntry(id: string, name: string)

  /** What the table reads from a fixture; the status is the stored enum
      name. */
  datatype FixtureInput = FixtureInput(
    homeTeamId: Option<string>,
    awayTeamId: Option<string>,
    homeScore: Option<int>,
    awayScore: Option<int>,
    status: string)

  /** `StandingRow`. */
  datatype Row = Row(
    teamId: string,
    teamName: string,
    played: int,
    won: int,
    drawn: int,
    lost: int,
    goalsFor: int,
    goalsAgainst: int,
    goalDiff: int,
    points: int)

  /** The tournament's points for a win, a draw and a loss. */
  datatype Points = Points(win: int, draw: int, loss: int)

  /** A team's row before any fixture. */
  function ZeroRow(t: TeamEntry): Row {
    Row(t.id, t.name, 0, 0, 0, 0, 0, 0, 0, 0)
  }

  /** Every counter of the row is zero. */
  predicate IsZero(r: Row) {
    r.played == 0 && r.won == 0 && r.drawn == 0 && r.lost == 0
    && r.goalsFor == 0 && r.goalsAgainst == 0 && r.goalDiff == 0 && r.points == 0
  }

  /** The identities every row keeps: matches played are wins, draws and
      losses; points follow from them; goal difference is goals for minus
      goals against. */
  predicate Consistent(r: Row, pts: Points) {
    r.won >= 0 && r.drawn >= 0 && r.lost >= 0
    && r.played == r.won + r.drawn + r.lost
    && r.points == r.won * pts.win + r.drawn * pts.draw + r.lost * pts.loss
    && r.goalDiff == r.goalsFor - r.goalsAgainst
  }

  // ------------------------------------------------------------- roster

  /** The keys of the row map after the first loop, in the map's
      insertion order: each team id once, where it first occurs. */
  function RosterKeys(teams: seq<TeamEntry>): (keys: seq<string>)
    ensures forall k :: k in keys <==> exists i :: 0 <= i < |teams| && teams[i].id == k
    ensures forall i, j :: 0 <= i < |keys| && 0 <= j < |keys| && keys[i] == keys[j] ==> i == j
  {
    if teams == [] then []
    else
      var init := teams[..|teams| - 1];
      var prev := RosterKeys(init);
      var id := teams[|teams| - 1].id;
      assert forall i :: 0 <= i < |init| ==> init[i] == teams[i];
      if id in prev then prev else prev + [id]
  }

  /** The row map after the first loop: a zero row per team id, named
      after the last team with that id. */
  function RosterRows(teams: seq<TeamEntry>): (rows: map<string, Row>)
    ensures forall k :: k in rows <==> k in RosterKeys(teams)
    ensures forall k :: k in rows ==> rows[k].teamId == k && IsZero(rows[k])
  {
    if teams == [] then map[]
    else
      var t := teams[|teams| - 1];
      RosterRows(teams[..|teams| - 1])[t.id := ZeroRow(t)]
  }

  // ------------------------------------------------------------ fixtures

  /** `!!v` for an optional id: present and not empty. */
  predicate Present(v: Option<string>) {
    v.Some? && v.value != []
  }

  /** The fixture counts: it is COMPLETED, both team ids are present, both
      scores are present and both teams are in the table. */
  predicate Counted(ids: set<string>, f: FixtureInput) {
    f.status == "COMPLETED" && Present(f.homeTeamId) && Present(f.awayTeamId)
    && f.homeScore.Some? && f.awayScore.Some?
    && f.homeTeamId.value in ids && f.awayTeamId.value in ids
  }

  /** One side's row after a counted result where it scored `gf` and
      conceded `ga`. */
  function Record(r: Row, gf: int, ga: int, pts: Points): (s: Row)
    ensures s.teamId == r.teamId && s.teamName == r.teamName
    ensures s.played == r.played + 1
    ensures s.goalsFor == r.goalsFor + gf && s.goalsAgainst == r.goalsAgainst + ga
    ensures s.won >= r.won && s.drawn >= r.drawn && s.lost >= r.lost
    ensures s.won + s.drawn + s.lost == r.won + r.drawn + r.lost + 1
    ensures s.won > r.won <==> gf > ga
    ensures s.drawn > r.drawn <==> gf == ga
    ensures s.lost > r.lost <==> gf < ga
    ensures Consistent(r, pts) ==> Consistent(s, pts)
  {
    var s := r.(played := r.played + 1,
                won := r.won + (if gf > ga then 1 else 0),
                drawn := r.drawn + (if gf == ga then 1 else 0),
                lost := r.lost + (if gf < ga then 1 else 0),
                goalsFor := r.goalsFor + gf,
                goalsAgainst := r.goalsAgainst + ga,
                goalDiff := (r.goalsFor + gf) - (r.goalsAgainst + ga),
                points := r.points + (if gf > ga then pts.win else if gf == ga then pts.draw else pts.loss));
    assert s.won * pts.win == r.won * pts.win + (if gf > ga then pts.win else 0);
    assert s.drawn * pts.draw == r.drawn * pts.draw + (if gf == ga then pts.draw else 0);
    assert s.lost * pts.loss == r.lost * pts.loss + (if gf < ga then pts.loss else 0);
    s
  }

  /** Every row is stored under its own team id. */
  predicate WellKeyed(rows: map<string, Row>) {
    forall k :: k in rows ==> rows[k].teamId == k
  }

  /** Every row is consistent. */
  predicate AllConsistent(rows: map<string, Row>, pts: Points) {
    forall k :: k in rows ==> Consistent(rows[k], pts)
  }

  /** The fixture counts and team `id` is one of its two sides. */
  predicate Plays(ids: set<string>, f: FixtureInput, id: string) {
    Counted(ids, f) && (f.homeTeamId.value == id || f.awayTeamId.value == id)
  }

  /** How often team `id` is a side of a counted fixture of `fixtures` (twice
      for a fixture against itself). */
  function Appearances(ids: set<string>, fixtures: seq<FixtureInput>, id: string): (n: nat)
    ensures n <= 2 * |fixtures|
  {
    if fixtures == [] then 0
    else
      var f := fixtures[|fixtures| - 1];
      Appearances(ids, fixtures[..|fixtures| - 1], id)
      + (if Counted(ids, f) && f.homeTeamId.value == id then 1 else 0)
      + (if Counted(ids, f) && f.awayTeamId.value == id then 1 else 0)
  }

  /** The loop body for one fixture: a fixture that does not count leaves
      the rows alone; otherwise the home row records the result, then the
      away row (the same row when a team meets itself). Only the rows of the
      fixture's two teams change, each gaining one match per side it plays,
      and rows stay under their ids and consistent. */
  function Apply(rows: map<string, Row>, f: FixtureInput, pts: Points): (next: map<string, Row>)
    ensures next.Keys == rows.Keys
    ensures forall k :: k in rows && !Plays(rows.Keys, f, k) ==> next[k] == rows[k]
    ensures Counted(rows.Keys, f) ==> forall k :: k in rows ==>
      next[k].played == rows[k].played + (if f.homeTeamId.value == k then 1 else 0)
        + (if f.awayTeamId.value == k then 1 else 0)
    ensures WellKeyed(rows) ==> WellKeyed(next)
    ensures AllConsistent(rows, pts) ==> AllConsistent(next, pts)
  {
    if !Counted(rows.Keys, f) then rows
    else
      var h, a := f.homeTeamId.value, f.awayTeamId.value;
      var hs, aws := f.homeScore.value, f.awayScore.value;
      var r1 := rows[h := Record(rows[h], hs, aws, pts)];
      r1[a := Record(r1[a], aws, hs, pts)]
  }

  /** The row map after the fixture loop has run over `fixtures`. */
  function Fold(rows: map<string, Row>, fixtures: seq<FixtureInput>, pts: Points): (next: map<string, Row>)
    ensures next.Keys == rows.Keys
    ensures WellKeyed(rows) ==> WellKeyed(next)
    ensures AllConsistent(rows, pts) ==> AllConsistent(next, pts)
    ensures forall k :: k in rows ==> next[k].played == rows[k].played + Appearances(rows.Keys, fixtures, k)
  {
    if fixtures == [] then rows
    else Apply(Fold(rows, fixtures[..|fixtures| - 1], pts), fixtures[|fixtures| - 1], pts)
  }

  // -------------------------------------------- results team by team

  /** Team `id` is the home side of a counted fixture. */
  predicate AtHome(ids: set<string>, f: FixtureInput, id: string) {
    Counted(ids, f) && f.homeTeamId.value == id
  }

  /** Team `id` is the away side of a counted fixture. */
  predicate AwayFrom(ids: set<string>, f: FixtureInput, id: string) {
    Counted(ids, f) && f.awayTeamId.value == id
  }

  /** Wins team `id` takes from fixture `f`: at home with the higher home
      score, away with the higher away score. */
  function WonIn(ids: set<string>, f: FixtureInput, id: string): nat {
    (if AtHome(ids, f, id) && f.homeScore.value > f.awayScore.value then 1 else 0)
    + (if AwayFrom(ids, f, id) && f.awayScore.value > f.homeScore.value then 1 else 0)
  }

  /** Draws team `id` takes from fixture `f`. */
  function DrewIn(ids: set<string>, f: FixtureInput, id: string): nat {
    (if AtHome(ids, f, id) && f.homeScore.value == f.awayScore.value then 1 else 0)
    + (if AwayFrom(ids, f, id) && f.awayScore.value == f.homeScore.value then 1 else 0)
  }

  /** Losses team `id` takes from fixture `f`. */
  function LostIn(ids: set<string>, f: FixtureInput, id: string): nat {
    (if AtHome(ids, f, id) && f.homeScore.value < f.awayScore.value then 1 else 0)
    + (if AwayFrom(ids, f, id) && f.awayScore.value < f.homeScore.value then 1 else 0)
  }

  /** Goals team `id` scores in fixture `f`: the home score where it is at
      home, the away score where it is away. */
  function ScoredIn(ids: set<string>, f: FixtureInput, id: string): int {
    (if AtHome(ids, f, id) then f.homeScore.value else 0)
    + (if AwayFrom(ids, f, id) then f.awayScore.value else 0)
  }

  /** Goals team `id` concedes in fixture `f`. */
  function ConcededIn(ids: set<string>, f: FixtureInput, id: string): int {
    (if AtHome(ids, f, id) then f.awayScore.value else 0)
    + (if AwayFrom(ids, f, id) then f.homeScore.value else 0)
  }

  /** The counted fixtures team `id` won. */
  function WinsOf(ids: set<string>, fixtures: seq<FixtureInput>, id: string): nat {
    if fixtures == [] then 0
    else WinsOf(ids, fixtures[..|fixtures| - 1], id) + WonIn(ids, fixtures[|fixtures| - 1], id)
  }

  /** The counted fixtures team `id` drew. */
  function DrawsOf(ids: set<string>, fixtures: seq<FixtureInput>, id: string): nat {
    if fixtures == [] then 0
    else DrawsOf(ids, fixtures[..|fixtures| - 1], id) + DrewIn(ids, fixtures[|fixtures| - 1], id)
  }

  /** The counted fixtures team `id` lost. */
  function LossesOf(ids: set<string>, fixtures: seq<FixtureInput>, id: string): nat {
    if fixtures == [] then 0
    else LossesOf(ids, fixtures[..|fixtures| - 1], id) + LostIn(ids, fixtures[|fixtures| - 1], id)
  }

  /** The goals team `id` scored in counted fixtures. */
  function GoalsScoredBy(ids: set<string>, fixtures: seq<FixtureInput>, id: string): int {
    if fixtures == [] then 0
    else GoalsScoredBy(ids, fixtures[..|fixtures| - 1], id) + ScoredIn(ids, fixtures[|fixtures| - 1], id)
  }

  /** The goals team `id` conceded in counted fixtures. */
  function GoalsConcededBy(ids: set<string>, fixtures: seq<FixtureInput>, id: string): int {
    if fixtures == [] then 0
    else GoalsConcededBy(ids, fixtures[..|fixtures| - 1], id) + ConcededIn(ids, fixtures[|fixtures| - 1], id)
  }

  /** Row `k` after one fixture: it gains exactly that fixture's wins,
      draws, losses and goals for team `k`, from the side or sides it
      plays. */
  lemma ApplyCredits(rows: map<string, Row>, f: FixtureInput, pts: Points, k: string)
    requires k in rows
    ensures var next := Apply(rows, f, pts)[k];
      next.won == rows[k].won + WonIn(rows.Keys, f, k)
      && next.drawn == rows[k].drawn + DrewIn(rows.Keys, f, k)
      && next.lost == rows[k].lost + LostIn(rows.Keys, f, k)
      && next.goalsFor == rows[k].goalsFor + ScoredIn(rows.Keys, f, k)
      && next.goalsAgainst == rows[k].goalsAgainst + ConcededIn(rows.Keys, f, k)
  {
  }

  /** Row `k` after the fixture loop: its wins, draws, losses and goals
      grow by exactly team `k`'s results in the counted fixtures. */
  lemma {:induction false} FoldCredits(rows: map<string, Row>, fixtures: seq<FixtureInput>, pts: Points, k: string)
    requires k in rows
    ensures var next := Fold(rows, fixtures, pts)[k];
      next.won == rows[k].won + WinsOf(rows.Keys, fixtures, k)
      && next.drawn == rows[k].drawn + DrawsOf(rows.Keys, fixtures, k)
      && next.lost == rows[k].lost + LossesOf(rows.Keys, fixtures, k)
      && next.goalsFor == rows[k].goalsFor + GoalsScoredBy(rows.Keys, fixtures, k)
      && next.goalsAgainst == rows[k].goalsAgainst + GoalsConcededBy(rows.Keys, fixtures, k)
  {
    if fixtures != [] {
      var init := fixtures[..|fixtures| - 1];
      FoldCredits(rows, init, pts, k);
      ApplyCredits(Fold(rows, init, pts), fixtures[|fixtures| - 1], pts, k);
    }
  }

  /** `Array.from(map.values())`: the rows in key order. */
  function Values(keys: seq<string>, rows: map<string, Row>): (vals: seq<Row>)
    requires forall k :: k in keys ==> k in rows
    ensures |vals| == |keys|
    ensures forall i :: 0 <= i < |keys| ==> vals[i] == rows[keys[i]]
  {
    seq(|keys|, i requires 0 <= i < |keys| => rows[keys[i]])
  }

  // --------------------------------------------------------------- sort

  /** `localeCompare` on team names, as plain lexicographic order. */
  function NameOrder(a: string, b: string): int {
    if a == b then 0 else if LexLe(a, b) then -1 else 1
  }

  /** The comparator handed to `sort`: negative when `a` goes first. */
  function Compare(a: Row, b: Row): int {
    if b.points != a.points then b.points - a.points
    else if b.goalDiff != a.goalDiff then b.goalDiff - a.goalDiff
    else if b.goalsFor != a.goalsFor then b.goalsFor - a.goalsFor
    else NameOrder(a.teamName, b.teamName)
  }

  /** `a` may come before `b`. */
  predicate RankLe(a: Row, b: Row) {
    Compare(a, b) <= 0
  }

  /** Swapping the arguments negates the comparator. */
  lemma CompareFlip(a: Row, b: Row)
    ensures Compare(b, a) == -Compare(a, b)
  {
    if a.points == b.points && a.goalDiff == b.goalDiff && a.goalsFor == b.goalsFor && a.teamName != b.teamName {
      LexLeTotal(a.teamName, b.teamName);
      if LexLe(a.teamName, b.teamName) && LexLe(b.teamName, a.teamName) {
        LexLeAntisymmetric(a.teamName, b.teamName);
      }
    }
  }

  /** The ranking is transitive. */
  lemma RankLeTransitive(a: Row, b: Row, c: Row)
    requires RankLe(a, b) && RankLe(b, c)
    ensures RankLe(a, c)
  {
    if a.points == b.points == c.points && a.goalDiff == b.goalDiff == c.goalDiff
       && a.goalsFor == b.goalsFor == c.goalsFor {
      var x, y, z := a.teamName, b.teamName, c.teamName;
      if x != y && y != z {
        LexLeTransitive(x, y, z);
        if x == z {
          LexLeAntisymmetric(x, y);
        }
      }
    }
  }

  /** Each row ranks no lower than the next. */
  predicate Sorted(s: seq<Row>) {
    forall i :: 0 <= i < |s| - 1 ==> RankLe(s[i], s[i + 1])
  }

  /** Where `x` goes in the sorted `s`: after every row that strictly
      ranks above it, before the rest. Placing an earlier row before the
      equal rows that follow it keeps the sort stable. */
  function Pos(x: Row, s: seq<Row>): (p: nat)
    ensures p <= |s|
    ensures forall i :: 0 <= i < p ==> Compare(s[i], x) < 0
    ensures p < |s| ==> Compare(s[p], x) >= 0
  {
    if s == [] || Compare(s[0], x) >= 0 then 0 else 1 + Pos(x, s[1..])
  }

  function Insert(x: Row, s: seq<Row>): (r: seq<Row>)
    ensures |r| == |s| + 1
  {
    s[..Pos(x, s)] + [x] + s[Pos(x, s)..]
  }

  /** Inserting adds exactly `x` to the rows. */
  lemma InsertMultiset(x: Row, s: seq<Row>)
    ensures multiset(Insert(x, s)) == multiset(s) + multiset{x}
  {
    var p := Pos(x, s);
    assert s == s[..p] + s[p..];
  }

  /** Inserting into a sorted sequence keeps it sorted. */
  lemma InsertSorted(x: Row, s: seq<Row>)
    requires Sorted(s)
    ensures Sorted(Insert(x, s))
  {
    var p := Pos(x, s);
    var t := Insert(x, s);
    forall i | 0 <= i < |t| - 1
      ensures RankLe(t[i], t[i + 1])
    {
      if i + 1 < p {
        assert t[i] == s[i] && t[i + 1] == s[i + 1];
      } else if i + 1 == p {
        assert t[i] == s[i] && t[i + 1] == x;
      } else if i == p {
        assert t[i] == x && t[i + 1] == s[p];
        CompareFlip(s[p], x);
      } else {
        assert t[i] == s[i - 1] && t[i + 1] == s[i];
      }
    }
  }

  /** `sort` with the comparator: a stable insertion sort. The result is
      sorted and a permutation of the input. */
  function SortRows(s: seq<Row>): (r: seq<Row>)
    ensures |r| == |s|
    ensures Sorted(r)
    ensures multiset(r) == multiset(s)
  {
    if s == [] then []
    else
      var rest := SortRows(s[1..]);
      InsertSorted(s[0], rest);
      InsertMultiset(s[0], rest);
      assert s == [s[0]] + s[1..];
      Insert(s[0], rest)
  }

  /** A sorted sequence ranks every row no lower than every later one. */
  lemma {:induction false} SortedAll(s: seq<Row>, i: int, j: int)
    requires Sorted(s) && 0 <= i < j < |s|
    ensures RankLe(s[i], s[j])
    decreases j - i
  {
    if j > i + 1 {
      SortedAll(s, i + 1, j);
      RankLeTransitive(s[i], s[i + 1], s[j]);
    }
  }

  // ----------------------------------------------------------- the table

  /** `computeStandings(teams, fixtures, win, draw, loss)`. */
  function Standings(teams: seq<TeamEntry>, fixtures: seq<FixtureInput>, pts: Points): (table: seq<Row>)
    ensures |table| == |RosterKeys(teams)|
    ensures Sorted(table)
  {
    var rows := Fold(RosterRows(teams), fixtures, pts);
    SortRows(Values(RosterKeys(teams), rows))
  }

  /** The two loops of `computeStandings` and the sort, one row value per
      team in a map that each counted fixture updates field by field. */
  method ComputeStandings(teams: seq<TeamEntry>, fixtures: seq<FixtureInput>,
                          pointsForWin: int, pointsForDraw: int, pointsForLoss: int)
    returns (table: seq<Row>)
    ensures table == Standings(teams, fixtures, Points(pointsForWin, pointsForDraw, pointsForLoss))
  {
    var pts := Points(pointsForWin, pointsForDraw, pointsForLoss);
    var keys, rows := BuildRoster(teams);
    for j := 0 to |fixtures|
      invariant rows == Fold(RosterRows(teams), fixtures[..j], pts)
    {
      assert fixtures[..j + 1][..j] == fixtures[..j];
      rows := AddFixture(rows, fixtures[j], pointsForWin, pointsForDraw, pointsForLoss);
    }
    assert fixtures[..|fixtures|] == fixtures;
    table := SortRows(Values(keys, rows));
  }

  /** The first loop: a zero row per team, in a map keyed by team id, and
      the map's keys in insertion order. */
  method BuildRoster(teams: seq<TeamEntry>) returns (keys: seq<string>, rows: map<string, Row>)
    ensures keys == RosterKeys(teams) && rows == RosterRows(teams)
  {
    keys := [];
    rows := map[];
    for i := 0 to |teams|
      invariant keys == RosterKeys(teams[..i]) && rows == RosterRows(teams[..i])
    {
      var team := teams[i];
      assert teams[..i + 1][..i] == teams[..i];
      if team.id !in rows {
        keys := keys + [team.id];
      }
      rows := rows[team.id := ZeroRow(team)];
    }
    assert teams[..|teams|] == teams;
  }

  /** The body of the second loop for one fixture, updating the home row
      and then the away row field by field. */
  method AddFixture(rows0: map<string, Row>, f: FixtureInput,
                    pointsForWin: int, pointsForDraw: int, pointsForLoss: int)
    returns (rows: map<string, Row>)
    ensures rows == Apply(rows0, f, Points(pointsForWin, pointsForDraw, pointsForLoss))
  {
    ghost var pts := Points(pointsForWin, pointsForDraw, pointsForLoss);
    rows := rows0;
    if f.status == "COMPLETED" && Present(f.homeTeamId) && Present(f.awayTeamId)
       && f.homeScore.Some? && f.awayScore.Some?
       && f.homeTeamId.value in rows && f.awayTeamId.value in rows {
      var hs, aws := f.homeScore.value, f.awayScore.value;
      var home := rows[f.homeTeamId.value];
      home := home.(played := home.played + 1, goalsFor := home.goalsFor + hs,
                    goalsAgainst := home.goalsAgainst + aws);
      if hs > aws {
        home := home.(won := home.won + 1, points := home.points + pointsForWin);
      } else if hs == aws {
        home := home.(drawn := home.drawn + 1, points := home.points + pointsForDraw);
      } else {
        home := home.(lost := home.lost + 1, points := home.points + pointsForLoss);
      }
      home := home.(goalDiff := home.goalsFor - home.goalsAgainst);
      assert home == Record(rows0[f.homeTeamId.value], hs, aws, pts);
      rows := rows[f.homeTeamId.value := home];
      var away := rows[f.awayTeamId.value];
      away := away.(played := away.played + 1, goalsFor := away.goalsFor + aws,
                    goalsAgainst := away.goalsAgainst + hs);
      if hs > aws {
        away := away.(lost := away.lost + 1, points := away.points + pointsForLoss);
      } else if hs == aws {
        away := away.(drawn := away.drawn + 1, points := away.points + pointsForDraw);
      } else {
        away := away.(won := away.won + 1, points := away.points + pointsForWin);
      }
      away := away.(goalDiff := away.goalsFor - away.goalsAgainst);
      assert away == Record(rows[f.awayTeamId.value], aws, hs, pts);
      rows := rows[f.awayTeamId.value := away];
    }
  }

  /** `a` is ahead of `b`, or level with it, in the published order:
      points descending, then goal difference descending, then goals
      scored descending, then team name ascending. */
  predicate Ahead(a: Row, b: Row) {
    a.points > b.points
    || (a.points == b.points && a.goalDiff > b.goalDiff)
    || (a.points == b.points && a.goalDiff == b.goalDiff && a.goalsFor > b.goalsFor)
    || (a.points == b.points && a.goalDiff == b.goalDiff && a.goalsFor == b.goalsFor
        && (a.teamName == b.teamName || LexLe(a.teamName, b.teamName)))
  }

  /** Every row of the table is ahead of, or level with, every later row. */
  lemma StandingsOrdered(teams: seq<TeamEntry>, fixtures: seq<FixtureInput>, pts: Points)
    ensures var table := Standings(teams, fixtures, pts);
      forall i, j :: 0 <= i < j < |table| ==> Ahead(table[i], table[j])
  {
    var table := Standings(teams, fixtures, pts);
    forall i, j | 0 <= i < j < |table|
      ensures Ahead(table[i], table[j])
    {
      SortedAll(table, i, j);
    }
  }

  // -------------------------------------------------------------- totals

  /** The sum of `f` over the rows. */
  function Total(s: seq<Row>, f: Row -> int): int {
    if s == [] then 0 else f(s[0]) + Total(s[1..], f)
  }

  lemma {:induction false} TotalAppend(a: seq<Row>, b: seq<Row>, f: Row -> int)
    ensures Total(a + b, f) == Total(a, f) + Total(b, f)
  {
    if a != [] {
      assert (a + b)[0] == a[0];
      assert (a + b)[1..] == a[1..] + b;
      TotalAppend(a[1..], b, f);
    } else {
      assert a + b == b;
    }
  }

  /** Inserting a row adds its value to a total. */
  lemma TotalInsert(x: Row, s: seq<Row>, f: Row -> int)
    ensures Total(Insert(x, s), f) == f(x) + Total(s, f)
  {
    var p := Pos(x, s);
    TotalAppend(s[..p] + [x], s[p..], f);
    TotalAppend(s[..p], [x], f);
    TotalAppend(s[..p], s[p..], f);
    assert s[..p] + s[p..] == s;
    assert Total([x], f) == f(x);
  }

  /** Sorting does not change a total. */
  lemma {:induction false} TotalSort(s: seq<Row>, f: Row -> int)
    ensures Total(SortRows(s), f) == Total(s, f)
  {
    if s != [] {
      TotalSort(s[1..], f);
      TotalInsert(s[0], SortRows(s[1..]), f);
    }
  }

  /** Replacing the row of one key (which occurs once) changes the total
      over the keys by the difference of the two rows. */
  lemma {:induction false} TotalUpdate(keys: seq<string>, rows: map<string, Row>, h: string, r: Row, f: Row -> int)
    requires forall k :: k in keys ==> k in rows
    requires h in rows
    requires forall i, j :: 0 <= i < |keys| && 0 <= j < |keys| && keys[i] == keys[j] ==> i == j
    ensures Total(Values(keys, rows[h := r]), f)
      == Total(Values(keys, rows), f) + (if h in keys then f(r) - f(rows[h]) else 0)
  {
    if keys != [] {
      var tail := keys[1..];
      assert Values(keys, rows)[1..] == Values(tail, rows);
      assert Values(keys, rows[h := r])[1..] == Values(tail, rows[h := r]);
      assert forall i, j :: 0 <= i < |tail| && 0 <= j < |tail| && tail[i] == tail[j] ==> i == j by {
        assert forall i :: 0 <= i < |tail| ==> tail[i] == keys[i + 1];
      }
      TotalUpdate(tail, rows, h, r, f);
      if keys[0] == h {
        assert h !in tail by {
          assert forall i :: 0 <= i < |tail| ==> tail[i] == keys[i + 1];
        }
      }
    }
  }

  /** A total over rows whose every value is zero is zero. */
  lemma {:induction false} TotalZero(keys: seq<string>, rows: map<string, Row>, f: Row -> int)
    requires forall k :: k in keys ==> k in rows && f(rows[k]) == 0
    ensures Total(Values(keys, rows), f) == 0
  {
    if keys != [] {
      assert Values(keys, rows)[1..] == Values(keys[1..], rows);
      TotalZero(keys[1..], rows, f);
    }
  }

  function GoalBalance(r: Row): int { r.goalsFor - r.goalsAgainst }
  function ResultBalance(r: Row): int { r.won - r.lost }

  /** The total of `f` over the table is that over the row map. */
  lemma TableTotal(teams: seq<TeamEntry>, fixtures: seq<FixtureInput>, pts: Points, f: Row -> int)
    ensures Total(Standings(teams, fixtures, pts), f)
      == Total(Values(RosterKeys(teams), Fold(RosterRows(teams), fixtures, pts)), f)
  {
    TotalSort(Values(RosterKeys(teams), Fold(RosterRows(teams), fixtures, pts)), f);
  }

  /** A fixture changes neither the goal balance nor the win/loss balance
      of the table: what one side gains the other concedes. */
  lemma ApplyBalanced(keys: seq<string>, rows: map<string, Row>, fx: FixtureInput, pts: Points)
    requires forall k :: k in keys <==> k in rows
    requires forall i, j :: 0 <= i < |keys| && 0 <= j < |keys| && keys[i] == keys[j] ==> i == j
    ensures Total(Values(keys, Apply(rows, fx, pts)), GoalBalance) == Total(Values(keys, rows), GoalBalance)
    ensures Total(Values(keys, Apply(rows, fx, pts)), ResultBalance) == Total(Values(keys, rows), ResultBalance)
  {
    if Counted(rows.Keys, fx) {
      var h, a := fx.homeTeamId.value, fx.awayTeamId.value;
      var hs, aws := fx.homeScore.value, fx.awayScore.value;
      var r1 := rows[h := Record(rows[h], hs, aws, pts)];
      TotalUpdate(keys, rows, h, Record(rows[h], hs, aws, pts), GoalBalance);
      TotalUpdate(keys, r1, a, Record(r1[a], aws, hs, pts), GoalBalance);
      TotalUpdate(keys, rows, h, Record(rows[h], hs, aws, pts), ResultBalance);
      TotalUpdate(keys, r1, a, Record(r1[a], aws, hs, pts), ResultBalance);
    }
  }

  /** Goals scored equal goals conceded across the table, and so do wins
      and losses. */
  lemma {:induction false} FoldBalanced(teams: seq<TeamEntry>, fixtures: seq<FixtureInput>, pts: Points)
    ensures Total(Values(RosterKeys(teams), Fold(RosterRows(teams), fixtures, pts)), GoalBalance) == 0
    ensures Total(Values(RosterKeys(teams), Fold(RosterRows(teams), fixtures, pts)), ResultBalance) == 0
  {
    var keys := RosterKeys(teams);
    if fixtures == [] {
      TotalZero(keys, RosterRows(teams), GoalBalance);
      TotalZero(keys, RosterRows(teams), ResultBalance);
    } else {
      FoldBalanced(teams, fixtures[..|fixtures| - 1], pts);
      ApplyBalanced(keys, Fold(RosterRows(teams), fixtures[..|fixtures| - 1], pts), fixtures[|fixtures| - 1], pts);
    }
  }

  function GoalsFor(r: Row): int { r.goalsFor }
  function GoalsAgainst(r: Row): int { r.goalsAgainst }
  function Won(r: Row): int { r.won }
  function Lost(r: Row): int { r.lost }

  lemma TotalDifference(s: seq<Row>, f: Row -> int, g: Row -> int, d: Row -> int)
    requires forall r :: d(r) == f(r) - g(r)
    ensures Total(s, d) == Total(s, f) - Total(s, g)
  {
  }

  /** Across the table the goals scored equal the goals conceded, and the
      wins equal the losses. */
  lemma StandingsBalanced(teams: seq<TeamEntry>, fixtures: seq<FixtureInput>, pts: Points)
    ensures Total(Standings(teams, fixtures, pts), GoalsFor) == Total(Standings(teams, fixtures, pts), GoalsAgainst)
    ensures Total(Standings(teams, fixtures, pts), Won) == Total(Standings(teams, fixtures, pts), Lost)
  {
    var table := Standings(teams, fixtures, pts);
    FoldBalanced(teams, fixtures, pts);
    TableTotal(teams, fixtures, pts, GoalBalance);
    TableTotal(teams, fixtures, pts, ResultBalance);
    TotalDifference(table, GoalsFor, GoalsAgainst, GoalBalance);
    TotalDifference(table, Won, Lost, ResultBalance);
  }

  // ------------------------------------------------------ per-team facts

  /** Counts the rows of team `id`. */
  function IdCount(id: string): Row -> int {
    (r: Row) => if r.teamId == id then 1 else 0
  }

  /** Over distinct keys whose rows carry their own key, team `id` has one
      row if it is a key and none otherwise. */
  lemma {:induction false} ValuesIdCount(keys: seq<string>, rows: map<string, Row>, id: string)
    requires forall k :: k in keys ==> k in rows
    requires WellKeyed(rows)
    requires forall i, j :: 0 <= i < |keys| && 0 <= j < |keys| && keys[i] == keys[j] ==> i == j
    ensures Total(Values(keys, rows), IdCount(id)) == if id in keys then 1 else 0
  {
    if keys != [] {
      var tail := keys[1..];
      assert Values(keys, rows)[1..] == Values(tail, rows);
      assert forall i :: 0 <= i < |tail| ==> tail[i] == keys[i + 1];
      ValuesIdCount(tail, rows, id);
      assert id in keys <==> id == keys[0] || id in tail;
    }
  }

  /** The table has exactly one row per distinct team id of the roster,
      and no other row. */
  lemma StandingsOneRowPerTeam(teams: seq<TeamEntry>, fixtures: seq<FixtureInput>, pts: Points, id: string)
    ensures Total(Standings(teams, fixtures, pts), IdCount(id))
      == if exists i :: 0 <= i < |teams| && teams[i].id == id then 1 else 0
  {
    var keys := RosterKeys(teams);
    var rows := Fold(RosterRows(teams), fixtures, pts);
    TotalSort(Values(keys, rows), IdCount(id));
    ValuesIdCount(keys, rows, id);
  }

  /** Sorting keeps exactly the rows it was given. */
  lemma SortedMember(v: seq<Row>, r: Row)
    requires r in SortRows(v)
    ensures r in v
  {
    assert r in multiset(SortRows(v));
  }

  /** A row among the map's values is the row of its own key. */
  lemma ValuesMember(keys: seq<string>, rows: map<string, Row>, r: Row)
    requires forall k :: k in keys ==> k in rows
    requires WellKeyed(rows) && r in Values(keys, rows)
    ensures r.teamId in rows && r == rows[r.teamId]
  {
    var v := Values(keys, rows);
    var i :| 0 <= i < |v| && v[i] == r;
  }

  /** A row of the table is the folded row of its team. */
  lemma TableRow(teams: seq<TeamEntry>, fixtures: seq<FixtureInput>, pts: Points, r: Row)
    requires r in Standings(teams, fixtures, pts)
    ensures r.teamId in RosterRows(teams)
    ensures r == Fold(RosterRows(teams), fixtures, pts)[r.teamId]
  {
    var keys := RosterKeys(teams);
    var rows := Fold(RosterRows(teams), fixtures, pts);
    SortedMember(Values(keys, rows), r);
    assert WellKeyed(RosterRows(teams));
    ValuesMember(keys, rows, r);
  }

  /** The roster's zero rows are consistent whatever the points. */
  lemma RosterConsistent(teams: seq<TeamEntry>, pts: Points)
    ensures AllConsistent(RosterRows(teams), pts)
  {
    forall k | k in RosterRows(teams)
      ensures Consistent(RosterRows(teams)[k], pts)
    {
      var r := RosterRows(teams)[k];
      assert r.won * pts.win == 0 && r.drawn * pts.draw == 0 && r.lost * pts.loss == 0;
    }
  }

  /** Every row of the table is consistent: played is won + drawn + lost,
      points are computed from them, goal difference is goals for minus
      goals against. */
  lemma StandingsConsistent(teams: seq<TeamEntry>, fixtures: seq<FixtureInput>, pts: Points)
    ensures forall r :: r in Standings(teams, fixtures, pts) ==> Consistent(r, pts)
  {
    RosterConsistent(teams, pts);
    var rows := Fold(RosterRows(teams), fixtures, pts);
    assert AllConsistent(rows, pts);
    forall r | r in Standings(teams, fixtures, pts)
      ensures Consistent(r, pts)
    {
      TableRow(teams, fixtures, pts, r);
    }
  }

  /** A team's matches played are its appearances in counted fixtures. */
  lemma StandingsPlayed(teams: seq<TeamEntry>, fixtures: seq<FixtureInput>, pts: Points)
    ensures forall r :: r in Standings(teams, fixtures, pts) ==>
      r.played == Appearances(RosterRows(teams).Keys, fixtures, r.teamId)
  {
    forall r | r in Standings(teams, fixtures, pts)
      ensures r.played == Appearances(RosterRows(teams).Keys, fixtures, r.teamId)
    {
      TableRow(teams, fixtures, pts, r);
    }
  }

  /** Fixtures that a team does not play in leave its row alone. */
  lemma {:induction false} FoldUntouched(rows: map<string, Row>, fixtures: seq<FixtureInput>, pts: Points, id: string)
    requires id in rows
    requires forall j :: 0 <= j < |fixtures| ==> !Plays(rows.Keys, fixtures[j], id)
    ensures Fold(rows, fixtures, pts)[id] == rows[id]
  {
    if fixtures != [] {
      FoldUntouched(rows, fixtures[..|fixtures| - 1], pts, id);
    }
  }

  /** Row `r` holds team `r.teamId`'s results over `fixtures`: the counted
      fixtures it won, drew and lost, the goals it scored and conceded,
      their difference, and the points awarded for them. */
  predicate HoldsResults(r: Row, ids: set<string>, fixtures: seq<FixtureInput>, pts: Points) {
    var w, d, l := WinsOf(ids, fixtures, r.teamId), DrawsOf(ids, fixtures, r.teamId), LossesOf(ids, fixtures, r.teamId);
    r.won == w && r.drawn == d && r.lost == l
    && r.goalsFor == GoalsScoredBy(ids, fixtures, r.teamId)
    && r.goalsAgainst == GoalsConcededBy(ids, fixtures, r.teamId)
    && r.goalDiff == r.goalsFor - r.goalsAgainst
    && r.points == w * pts.win + d * pts.draw + l * pts.loss
  }

  /** One row of the table holds its team's results. */
  lemma TableRowResults(teams: seq<TeamEntry>, fixtures: seq<FixtureInput>, pts: Points, r: Row)
    requires r in Standings(teams, fixtures, pts)
    ensures HoldsResults(r, RosterRows(teams).Keys, fixtures, pts)
  {
    var roster := RosterRows(teams);
    RosterConsistent(teams, pts);
    TableRow(teams, fixtures, pts, r);
    FoldCredits(roster, fixtures, pts, r.teamId);
    assert Consistent(r, pts);
  }

  /** Every row of the table holds its team's results: wins, draws,
      losses and goals are those of its counted fixtures, from the side it
      played, and the points follow from them. */
  lemma StandingsResults(teams: seq<TeamEntry>, fixtures: seq<FixtureInput>, pts: Points)
    ensures forall r :: r in Standings(teams, fixtures, pts) ==>
      HoldsResults(r, RosterRows(teams).Keys, fixtures, pts)
  {
    forall r | r in Standings(teams, fixtures, pts)
      ensures HoldsResults(r, RosterRows(teams).Keys, fixtures, pts)
    {
      TableRowResults(teams, fixtures, pts, r);
    }
  }

  /** A team that plays in no counted fixture keeps its zero row. */
  lemma StandingsUntouched(teams: seq<TeamEntry>, fixtures: seq<FixtureInput>, pts: Points, id: string)
    requires forall j :: 0 <= j < |fixtures| ==> !Plays(RosterRows(teams).Keys, fixtures[j], id)
    ensures forall r :: r in Standings(teams, fixtures, pts) && r.teamId == id ==> IsZero(r)
  {
    forall r | r in Standings(teams, fixtures, pts) && r.teamId == id
      ensures IsZero(r)
    {
      TableRow(teams, fixtures, pts, r);
      FoldUntouched(RosterRows(teams), fixtures, pts, id);
    }
  }

  // ---------------------------------------------------------- skipping

  /** The fixtures that count, in order. */
  function CountedOnly(ids: set<string>, fixtures: seq<FixtureInput>): (kept: seq<FixtureInput>)
    ensures |kept| <= |fixtures|
    ensures forall f :: f in kept ==> f in fixtures && Counted(ids, f)
  {
    if fixtures == [] then []
    else
      var f := fixtures[|fixtures| - 1];
      var init := CountedOnly(ids, fixtures[..|fixtures| - 1]);
      if Counted(ids, f) then init + [f] else init
  }

  /** Dropping the fixtures that do not count does not change the rows. */
  lemma {:induction false} FoldCountedOnly(rows: map<string, Row>, fixtures: seq<FixtureInput>, pts: Points)
    ensures Fold(rows, fixtures, pts) == Fold(rows, CountedOnly(rows.Keys, fixtures), pts)
  {
    if fixtures != [] {
      var init := fixtures[..|fixtures| - 1];
      var last := fixtures[|fixtures| - 1];
      var kept := CountedOnly(rows.Keys, init);
      FoldCountedOnly(rows, init, pts);
      var mid := Fold(rows, init, pts);
      assert Fold(rows, fixtures, pts) == Apply(mid, last, pts);
      if Counted(rows.Keys, last) {
        FoldSnoc(rows, kept, last, pts);
      } else {
        assert Apply(mid, last, pts) == mid;
      }
    }
  }

  /** One more fixture is one more step of the loop. */
  lemma FoldSnoc(rows: map<string, Row>, fixtures: seq<FixtureInput>, f: FixtureInput, pts: Points)
    ensures Fold(rows, fixtures + [f], pts) == Apply(Fold(rows, fixtures, pts), f, pts)
  {
    assert (fixtures + [f])[..|fixtures|] == fixtures;
  }

  /** The table is the same with only the fixtures that count: a fixture
      not COMPLETED, with a missing or empty team id, a missing score or a
      team outside the roster has no effect. */
  lemma StandingsIgnoreUncounted(teams: seq<TeamEntry>, fixtures: seq<FixtureInput>, pts: Points)
    ensures Standings(teams, fixtures, pts)
      == Standings(teams, CountedOnly(RosterRows(teams).Keys, fixtures), pts)
  {
    FoldCountedOnly(RosterRows(teams), fixtures, pts);
  }
}
