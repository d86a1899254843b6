/** The fixture server actions: `generateFixtures`, which checks its guards
    in order and then stores the schedule the tournament's format calls
    for, and the two record updates a fixture goes through afterwards,
    `updateFixtureScore` and `updateFixtureStatus`. */
module FixtureActions {
  import opened Optional
  import opened Schedule
  import opened Store
  import RoundRobin
  import Knockout

  /** `fixtures.map(f => ({ ...f, tournamentId, status: SCHEDULED }))`:
      the rows `createMany` inserts, with no score yet. */
  function ToRecords(tid: string, pairings: seq<Pairing>): (rows: seq<Fixture>)
    ensures |rows| == |pairings|
    ensures forall k :: 0 <= k < |rows| ==>
      rows[k].tournamentId == tid && rows[k].status == Scheduled
      && rows[k].homeScore.None? && rows[k].awayScore.None?
      && rows[k].homeTeamId == Some(pairings[k].homeTeamId)
      && rows[k].awayTeamId == Some(pairings[k].awayTeamId)
      && rows[k].round == pairings[k].round && rows[k].matchNumber == pairings[k].matchNumber
  {
    seq(|pairings|, k requires 0 <= k < |pairings| =>
      Fixture(tid, Some(pairings[k].homeTeamId), Some(pairings[k].awayTeamId),
              pairings[k].round, pairings[k].matchNumber, None, None, Scheduled))
  }

  /** The schedule `generateFixtures` asks for: round robin for the
      ROUND_ROBIN and GROUP_KNOCKOUT formats, a knockout first round for
      SINGLE_ELIMINATION. */
  function ScheduleFor(format: Format, teamIds: seq<string>): (s: seq<Pairing>)
    ensures format != SingleElimination ==> s == RoundRobin.RoundRobinSchedule(teamIds)
    ensures format == SingleElimination ==> s == Knockout.KnockoutSchedule(teamIds)
  {
    match format
    case RoundRobin => RoundRobin.RoundRobinSchedule(teamIds)
    case GroupKnockout => RoundRobin.RoundRobinSchedule(teamIds)
    case SingleElimination => Knockout.KnockoutSchedule(teamIds)
  }

  /** `generateFixtures(tournamentId)`. The guards, in order: signed in,
      tournament found, caller is its organizer, no fixtures yet, at least
      two approved teams. Only when all pass are rows inserted, one per
      generated pairing, all SCHEDULED, and their number is returned. */
  method GenerateFixtures(db: Database, userId: Option<string>, tournamentId: string) returns (out: Outcome)
    requires db.Valid()
    modifies db
    ensures db.Valid()
    ensures db.tournaments == old(db.tournaments) && db.teams == old(db.teams)
    ensures db.players == old(db.players) && db.nextId == old(db.nextId)
    ensures !SignedIn(userId) ==> out == Failure(NotAuthenticated)
    ensures SignedIn(userId) && tournamentId !in old(db.tournaments) ==> out == Failure(TournamentNotFound)
    ensures SignedIn(userId) && tournamentId in old(db.tournaments) && !OrganizedBy(old(db.tournaments), tournamentId, userId)
      ==> out == Failure(NotAuthorized)
    ensures OrganizedBy(old(db.tournaments), tournamentId, userId) && FixtureCount(old(db.fixtures), tournamentId) > 0
      ==> out == Failure(FixturesExist)
    ensures OrganizedBy(old(db.tournaments), tournamentId, userId) && FixtureCount(old(db.fixtures), tournamentId) == 0
      && |ApprovedTeamIds(old(db.teams), tournamentId)| < 2
      ==> out == Failure(TooFewTeams)
    ensures out.Generated? <==>
      OrganizedBy(old(db.tournaments), tournamentId, userId) && FixtureCount(old(db.fixtures), tournamentId) == 0
      && |ApprovedTeamIds(old(db.teams), tournamentId)| >= 2
    ensures out.Generated? ==>
      var made := ScheduleFor(old(db.tournaments)[tournamentId].format, ApprovedTeamIds(old(db.teams), tournamentId));
      db.fixtures == old(db.fixtures) + ToRecords(tournamentId, made) && out.count == |made|
    ensures !out.Generated? ==> db.fixtures == old(db.fixtures)
  {
    if !SignedIn(userId) {
      return Failure(NotAuthenticated);
    }
    if tournamentId !in db.tournaments {
      return Failure(TournamentNotFound);
    }
    var tournament := db.tournaments[tournamentId];
    if tournament.organizerId != userId.value {
      return Failure(NotAuthorized);
    }
    if FixtureCount(db.fixtures, tournamentId) > 0 {
      return Failure(FixturesExist);
    }
    var teamIds := ApprovedTeamIds(db.teams, tournamentId);
    if |teamIds| < 2 {
      return Failure(TooFewTeams);
    }
    var fixtures := Generate(tournament.format, teamIds);
    db.InsertFixtures(ToRecords(tournamentId, fixtures));
    out := Generated(|fixtures|);
  }

  /** The dispatch on the tournament's format. */
  method Generate(format: Format, teamIds: seq<string>) returns (fixtures: seq<Pairing>)
    ensures fixtures == ScheduleFor(format, teamIds)
  {
    match format {
      case RoundRobin =>
        fixtures := RoundRobin.GenerateRoundRobin(teamIds);
      case GroupKnockout =>
        fixtures := RoundRobin.GenerateRoundRobin(teamIds);
      case SingleElimination =>
        fixtures := Knockout.GenerateKnockout(teamIds);
    }
  }

  /** The organizer of the tournament fixture `fixtureId` belongs to is
      the caller. A fixture's id is its position in the table. */
  predicate OwnsFixture(ts: map<string, Tournament>, fixtures: seq<Fixture>, userId: Option<string>, fixtureId: int) {
    0 <= fixtureId < |fixtures| && OrganizedBy(ts, fixtures[fixtureId].tournamentId, userId)
  }

  /** `updateFixtureScore`: after the guards (signed in, fixture found,
      caller organizes its tournament) both scores are set and the fixture
      is COMPLETED, in one update; no other row changes. Scores are not
      negative (the score form refuses negative numbers). */
  method UpdateFixtureScore(db: Database, userId: Option<string>, fixtureId: int, homeScore: nat, awayScore: nat)
    returns (out: Outcome)
    requires db.Valid()
    modifies db
    ensures db.Valid()
    ensures db.tournaments == old(db.tournaments) && db.teams == old(db.teams)
    ensures db.players == old(db.players) && db.nextId == old(db.nextId)
    ensures !SignedIn(userId) ==> out == Failure(NotAuthenticated)
    ensures SignedIn(userId) && !(0 <= fixtureId < |old(db.fixtures)|) ==> out == Failure(FixtureNotFound)
    ensures SignedIn(userId) && 0 <= fixtureId < |old(db.fixtures)| && !OwnsFixture(old(db.tournaments), old(db.fixtures), userId, fixtureId)
      ==> out == Failure(NotAuthorized)
    ensures out == Done <==> OwnsFixture(old(db.tournaments), old(db.fixtures), userId, fixtureId)
    ensures out == Done ==>
      db.fixtures == old(db.fixtures)[fixtureId :=
        old(db.fixtures)[fixtureId].(homeScore := Some(homeScore), awayScore := Some(awayScore), status := Completed)]
    ensures out != Done ==> db.fixtures == old(db.fixtures)
  {
    if !SignedIn(userId) {
      return Failure(NotAuthenticated);
    }
    if !(0 <= fixtureId < |db.fixtures|) {
      return Failure(FixtureNotFound);
    }
    var fixture := db.fixtures[fixtureId];
    if db.tournaments[fixture.tournamentId].organizerId != userId.value {
      return Failure(NotAuthorized);
    }
    db.SetFixture(fixtureId, fixture.(homeScore := Some(homeScore), awayScore := Some(awayScore), status := Completed));
    out := Done;
  }

  /** `updateFixtureStatus`: after the same guards only the status changes;
      the scores stay as they were. */
  method UpdateFixtureStatus(db: Database, userId: Option<string>, fixtureId: int, status: FixtureStatus)
    returns (out: Outcome)
    requires db.Valid()
    modifies db
    ensures db.Valid()
    ensures db.tournaments == old(db.tournaments) && db.teams == old(db.teams)
    ensures db.players == old(db.players) && db.nextId == old(db.nextId)
    ensures !SignedIn(userId) ==> out == Failure(NotAuthenticated)
    ensures SignedIn(userId) && !(0 <= fixtureId < |old(db.fixtures)|) ==> out == Failure(FixtureNotFound)
    ensures SignedIn(userId) && 0 <= fixtureId < |old(db.fixtures)| && !OwnsFixture(old(db.tournaments), old(db.fixtures), userId, fixtureId)
      ==> out == Failure(NotAuthorized)
    ensures out == Done <==> OwnsFixture(old(db.tournaments), old(db.fixtures), userId, fixtureId)
    ensures out == Done ==> db.fixtures == old(db.fixtures)[fixtureId := old(db.fixtures)[fixtureId].(status := status)]
    ensures out != Done ==> db.fixtures == old(db.fixtures)
  {
    if !SignedIn(userId) {
      return Failure(NotAuthenticated);
    }
    if !(0 <= fixtureId < |db.fixtures|) {
      return Failure(FixtureNotFound);
    }
    var fixture := db.fixtures[fixtureId];
    if db.tournaments[fixture.tournamentId].organizerId != userId.value {
      return Failure(NotAuthorized);
    }
    db.SetFixture(fixtureId, fixture.(status := status));
    out := Done;
  }

  // ------------------------------------------------------------------
  // What the generated rows look like

  /** The approved team ids of a valid team table are distinct, non-empty
      and never the bye placeholder, so every guarantee the two generators
      make for such lists holds for the fixtures `generateFixtures`
      stores. */
  lemma ApprovedIdsUsable(teams: seq<Team>, next: nat, tid: string)
    requires TeamsValid(teams, next)
    ensures Distinct(ApprovedTeamIds(teams, tid))
    ensures RoundRobin.BYE !in ApprovedTeamIds(teams, tid)
    ensures Knockout.NonEmptyIds(ApprovedTeamIds(teams, tid))
  {
    var ids := ApprovedTeamIds(teams, tid);
    forall x | x in ids
      ensures x != RoundRobin.BYE && x != ""
    {
      var i :| 0 <= i < |teams| && teams[i].id == x && teams[i].tournamentId == tid && teams[i].status == Approved;
      IssuedBefore(x, next);
    }
    ApprovedIdsDistinct(teams, tid);
  }

  /** Filtering a table with unique ids gives unique ids. */
  lemma {:induction false} ApprovedIdsDistinct(teams: seq<Team>, tid: string)
    requires forall i, j :: 0 <= i < |teams| && 0 <= j < |teams| && teams[i].id == teams[j].id ==> i == j
    ensures Distinct(ApprovedTeamIds(teams, tid))
  {
    if teams != [] {
      var n := |teams| - 1;
      var pre := teams[..n];
      assert forall i :: 0 <= i < n ==> pre[i] == teams[i];
      ApprovedIdsDistinct(pre, tid);
      var last := teams[n];
      if last.tournamentId == tid && last.status == Approved {
        assert last.id !in ApprovedTeamIds(pre, tid);
        DistinctAppend(ApprovedTeamIds(pre, tid), last.id);
      }
    }
  }

  /** The rows `generateFixtures` stores, for a valid team table with at
      least two approved teams: every row pits two different approved
      teams against each other. Round robin stores `c(c-1)/2` rows for `c`
      approved teams; single elimination stores `c - size/2` rows, all in
      round 1, where `size` is the bracket size. */
  lemma GeneratedSchedule(teams: seq<Team>, next: nat, tid: string, format: Format)
    requires TeamsValid(teams, next)
    requires |ApprovedTeamIds(teams, tid)| >= 2
    ensures forall k :: 0 <= k < |ScheduleFor(format, ApprovedTeamIds(teams, tid))| ==>
      var f := ScheduleFor(format, ApprovedTeamIds(teams, tid))[k];
      f.homeTeamId in ApprovedTeamIds(teams, tid) && f.awayTeamId in ApprovedTeamIds(teams, tid)
      && f.homeTeamId != f.awayTeamId
    ensures format != SingleElimination ==>
      |ScheduleFor(format, ApprovedTeamIds(teams, tid))|
        == RoundRobin.PairCount(|ApprovedTeamIds(teams, tid)|)
    ensures format == SingleElimination ==>
      |ScheduleFor(format, ApprovedTeamIds(teams, tid))|
        == |ApprovedTeamIds(teams, tid)| - Knockout.BracketSize(|ApprovedTeamIds(teams, tid)|) / 2
    ensures format == SingleElimination ==>
      forall k :: 0 <= k < |ScheduleFor(format, ApprovedTeamIds(teams, tid))| ==>
        ScheduleFor(format, ApprovedTeamIds(teams, tid))[k].round == 1
  {
    var ids := ApprovedTeamIds(teams, tid);
    ApprovedIdsUsable(teams, next, tid);
    if format == SingleElimination {
      KnockoutRows(ids);
      assert ScheduleFor(format, ids) == Knockout.KnockoutSchedule(ids);
    } else {
      RoundRobin.RoundRobinFixturesWellFormed(ids);
      RoundRobin.RoundRobinCount(ids);
      assert ScheduleFor(format, ids) == RoundRobin.RoundRobinSchedule(ids);
    }
  }

  /** The single-elimination half of `GeneratedSchedule`, for any distinct
      non-empty ids. */
  lemma KnockoutRows(ids: seq<string>)
    requires Knockout.NonEmptyIds(ids) && Distinct(ids) && |ids| >= 2
    ensures forall k :: 0 <= k < |Knockout.KnockoutSchedule(ids)| ==>
      var f := Knockout.KnockoutSchedule(ids)[k];
      f.homeTeamId in ids && f.awayTeamId in ids && f.homeTeamId != f.awayTeamId && f.round == 1
    ensures |Knockout.KnockoutSchedule(ids)| == |ids| - Knockout.BracketSize(|ids|) / 2
  {
    var s := Knockout.KnockoutSchedule(ids);
    Knockout.KnockoutShape(ids);
    Knockout.KnockoutRoundOne(ids);
    forall k | 0 <= k < |s|
      ensures s[k].homeTeamId in ids && s[k].awayTeamId in ids && s[k].homeTeamId != s[k].awayTeamId
    {
      Knockout.KnockoutDisjoint(ids, k, k);
    }
  }

  /** Under the round-robin formats, every two different approved teams
      meet in exactly one stored row, row `k`. */
  lemma GeneratedPairMeetsOnce(teams: seq<Team>, next: nat, tid: string, format: Format, a: string, b: string)
    returns (k: nat)
    requires TeamsValid(teams, next) && format != SingleElimination
    requires a in ApprovedTeamIds(teams, tid) && b in ApprovedTeamIds(teams, tid) && a != b
    ensures k < |ScheduleFor(format, ApprovedTeamIds(teams, tid))|
    ensures Meets(ScheduleFor(format, ApprovedTeamIds(teams, tid))[k], a, b)
    ensures forall k' ::
      (0 <= k' < |ScheduleFor(format, ApprovedTeamIds(teams, tid))| &&
       Meets(ScheduleFor(format, ApprovedTeamIds(teams, tid))[k'], a, b)) ==> k' == k
  {
    var ids := ApprovedTeamIds(teams, tid);
    ApprovedIdsUsable(teams, next, tid);
    k := RoundRobin.RoundRobinPairMeets(ids, a, b);
    RoundRobin.RoundRobinPairAtMostOnce(ids, a, b);
  }
}
