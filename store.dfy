/** The persisted records the server actions read and write (tournaments,
    teams, players and fixtures), their enumerations, the outcomes an action
    reports back to the page, and the database holding the four tables.

    Record ids are opaque strings issued by the database; the model issues
    them from a counter (`IdOf(nextId)`), which gives what the actions rely
    on: a new id differs from every id already in a table. */
module Store {
  import opened Optional
  import opened Text
  import Lifecycle

  datatype Format = RoundRobin | SingleElimination | GroupKnockout

  datatype TeamStatus = Pending | Approved | Rejected | Withdrawn

  datatype FixtureStatus = Scheduled | InProgress | Completed | Postponed | Cancelled

  /** The enum's stored name (the value a fixture's `status` has as a
      string). */
  function FixtureStatusName(s: FixtureStatus): (name: string)
    ensures name != []
  {
    match s
    case Scheduled => "SCHEDULED"
    case InProgress => "IN_PROGRESS"
    case Completed => "COMPLETED"
    case Postponed => "POSTPONED"
    case Cancelled => "CANCELLED"
  }

  /** A tournament row. Dates are kept as the text the form supplied. */
  datatype Tournament = Tournament(
    id: string,
    name: string,
    slug: string,
    description: Option<string>,
    sport: string,
    format: Format,
    gender: string,
    startDate: string,
    endDate: Option<string>,
    registrationStart: Option<string>,
    registrationEnd: Option<string>,
    maxTeams: int,
    minPlayersPerTeam: int,
    maxPlayersPerTeam: int,
    pointsForWin: int,
    pointsForDraw: int,
    pointsForLoss: int,
    numberOfGroups: Option<int>,
    teamsPerGroup: Option<int>,
    advancePerGroup: Option<int>,
    venue: Option<string>,
    location: Option<string>,
    status: Lifecycle.TournamentStatus,
    organizerId: string)

  datatype Team = Team(
    id: string,
    tournamentId: string,
    name: string,
    shortName: Option<string>,
    contactEmail: Option<string>,
    contactPhone: Option<string>,
    status: TeamStatus)

  /** A player row. The jersey number and the date of birth are kept as the
      text the form supplied. */
  datatype Player = Player(
    id: string,
    teamId: string,
    firstName: string,
    lastName: string,
    jerseyNumber: Option<string>,
    position: Option<string>,
    gender: Option<string>,
    phone: Option<string>,
    email: Option<string>,
    dateOfBirth: Option<string>)

  /** A fixture row; its id is its position in the fixture table. */
  datatype Fixture = Fixture(
    tournamentId: string,
    homeTeamId: Option<string>,
    awayTeamId: Option<string>,
    round: int,
    matchNumber: int,
    homeScore: Option<int>,
    awayScore: Option<int>,
    status: FixtureStatus)

  /** The `error` messages the actions report, one constructor per message
      text; `MessageText` spells each out. */
  datatype Message =
    | NotAuthenticated
    | TournamentNotFound
    | NotAuthorized
    | FixturesExist
    | TooFewTeams
    | FixtureNotFound
    | TeamNotFound
    | PlayerNotFound
    | TournamentUnavailable
    | TournamentFull(maxTeams: int)
    | CannotTransition(from: Lifecycle.TournamentStatus, to: Lifecycle.TournamentStatus)

  /** The message text the page shows. */
  function MessageText(m: Message): (text: string)
    ensures text != []
  {
    match m
    case NotAuthenticated => "Not authenticated"
    case TournamentNotFound => "Tournament not found"
    case NotAuthorized => "Not authorized"
    case FixturesExist => "Fixtures already exist. Delete them first before regenerating."
    case TooFewTeams => "Need at least 2 approved teams to generate fixtures"
    case FixtureNotFound => "Fixture not found"
    case TeamNotFound => "Team not found"
    case PlayerNotFound => "Player not found"
    case TournamentUnavailable => "Tournament not found or not authorized"
    case TournamentFull(n) => "Tournament is full (max " + IntToString(n) + " teams)"
    case CannotTransition(a, b) =>
      "Cannot transition from " + Lifecycle.StatusName(a) + " to " + Lifecycle.StatusName(b)
  }

  /** What a server action hands back to the page: `{}`, `{ success: true }`,
      `{ error }`, `{ errors }` (messages per form field), `{ count }`, or a
      redirect. */
  datatype Outcome =
    | Done
    | Success
    | Failure(error: Message)
    | FieldErrors(errors: map<string, seq<string>>)
    | Generated(count: nat)
    | Redirect(path: string)

  /** `session?.user?.id` is truthy. */
  predicate SignedIn(userId: Option<string>) {
    userId.Some? && userId.value != []
  }

  /** A form value that JavaScript treats as true: present and non-empty. */
  predicate Truthy(v: Option<string>) {
    v.Some? && v.value != []
  }

  /** `(formData.get(k) as string)?.trim() || null`: a missing or blank
      field becomes null, any other value is kept trimmed. */
  function TrimmedOrNull(v: Option<string>): (r: Option<string>)
    ensures r.None? <==> v.None? || Trim(v.value) == []
    ensures r.Some? ==> r.value == Trim(v.value) && r.value != []
    ensures r.Some? ==> !IsSpace(r.value[0]) && !IsSpace(r.value[|r.value| - 1])
  {
    if v.Some? && Trim(v.value) != [] then Some(Trim(v.value)) else None
  }

  /** `(formData.get(k) as string) || null`: a missing or empty field
      becomes null, any other value is kept as it is. */
  function OrNull(v: Option<string>): (r: Option<string>)
    ensures r.None? <==> !Truthy(v)
    ensures r.Some? ==> r == v
  {
    if Truthy(v) then v else None
  }

  /** The caller is signed in, tournament `tid` exists, and the caller is
      its organizer: the ownership check every action on a tournament's
      records makes. */
  predicate OrganizedBy(ts: map<string, Tournament>, tid: string, userId: Option<string>) {
    SignedIn(userId) && tid in ts && ts[tid].organizerId == userId.value
  }

  // ------------------------------------------------------------------ ids

  /** The `n`th id the database issues. */
  function IdOf(n: nat): (id: string)
    ensures |id| >= 2 && id[0] == 'c'
  {
    "c" + NatToString(n)
  }

  /** Ids issued at different times differ. */
  lemma IdOfInjective(i: nat, j: nat)
    requires IdOf(i) == IdOf(j)
    ensures i == j
  {
    assert IdOf(i)[1..] == NatToString(i);
    assert IdOf(j)[1..] == NatToString(j);
    NatToStringInjective(i, j);
  }

  /** `id` is one of the first `next` ids the database issued. */
  ghost predicate Issued(id: string, next: nat) {
    exists k: nat :: k < next && id == IdOf(k)
  }

  /** An id issued before the counter reached `next` is not the `next`th
      one, stays issued as the counter grows, and is never empty and never
      starts with an underscore. */
  lemma IssuedBefore(id: string, next: nat)
    requires Issued(id, next)
    ensures id != IdOf(next) && Issued(id, next + 1)
    ensures id != [] && id[0] == 'c'
  {
    var k: nat :| k < next && id == IdOf(k);
    if id == IdOf(next) {
      IdOfInjective(k, next);
    }
  }

  // ------------------------------------------------------ table invariants

  /** The tournament table: each row stored under its own issued id, and
      slugs unique (the slug column is unique). */
  ghost predicate TournamentsValid(ts: map<string, Tournament>, next: nat) {
    (forall id :: id in ts ==> ts[id].id == id && Issued(id, next))
    && (forall a, b :: a in ts && b in ts && ts[a].slug == ts[b].slug ==> a == b)
  }

  /** The team table: ids issued and unique, and names unique within a
      tournament (the `(tournamentId, name)` unique key). */
  ghost predicate TeamsValid(teams: seq<Team>, next: nat) {
    (forall i :: 0 <= i < |teams| ==> Issued(teams[i].id, next))
    && (forall i, j :: 0 <= i < |teams| && 0 <= j < |teams| && teams[i].id == teams[j].id ==> i == j)
    && (forall i, j ::
          0 <= i < |teams| && 0 <= j < |teams| &&
          teams[i].tournamentId == teams[j].tournamentId && teams[i].name == teams[j].name
          ==> i == j)
  }

  /** The player table: ids issued and unique. */
  ghost predicate PlayersValid(players: seq<Player>, next: nat) {
    (forall i :: 0 <= i < |players| ==> Issued(players[i].id, next))
    && (forall i, j :: 0 <= i < |players| && 0 <= j < |players| && players[i].id == players[j].id ==> i == j)
  }

  /** Issuing an id keeps every table valid. */
  lemma TablesGrow(ts: map<string, Tournament>, teams: seq<Team>, players: seq<Player>, next: nat)
    requires TournamentsValid(ts, next) && TeamsValid(teams, next) && PlayersValid(players, next)
    ensures TournamentsValid(ts, next + 1) && TeamsValid(teams, next + 1) && PlayersValid(players, next + 1)
  {
    forall id | id in ts
      ensures Issued(id, next + 1)
    {
      IssuedBefore(id, next);
    }
    forall i | 0 <= i < |teams|
      ensures Issued(teams[i].id, next + 1)
    {
      IssuedBefore(teams[i].id, next);
    }
    forall i | 0 <= i < |players|
      ensures Issued(players[i].id, next + 1)
    {
      IssuedBefore(players[i].id, next);
    }
  }

  /** Team `teams[i]` is already called `name` in tournament `tid`. */
  predicate NameTakenAt(teams: seq<Team>, i: int, tid: string, name: string)
    requires 0 <= i < |teams|
  {
    teams[i].tournamentId == tid && teams[i].name == name
  }

  /** Inserting a team under the next id, with a name not yet used in its
      tournament, keeps the team table valid. */
  lemma TeamsAppend(teams: seq<Team>, t: Team, next: nat)
    requires TeamsValid(teams, next)
    requires t.id == IdOf(next)
    requires forall i :: 0 <= i < |teams| ==> !NameTakenAt(teams, i, t.tournamentId, t.name)
    ensures TeamsValid(teams + [t], next + 1)
  {
    var s := teams + [t];
    forall i | 0 <= i < |teams|
      ensures s[i] == teams[i] && teams[i].id != t.id && Issued(s[i].id, next + 1)
      ensures teams[i].tournamentId != t.tournamentId || teams[i].name != t.name
    {
      IssuedBefore(teams[i].id, next);
      assert !NameTakenAt(teams, i, t.tournamentId, t.name);
    }
    assert Issued(s[|teams|].id, next + 1);
  }

  /** Changing one team's status keeps the team table valid. */
  lemma TeamsSetStatus(teams: seq<Team>, i: int, status: TeamStatus, next: nat)
    requires TeamsValid(teams, next) && 0 <= i < |teams|
    ensures TeamsValid(teams[i := teams[i].(status := status)], next)
  {
    var s := teams[i := teams[i].(status := status)];
    assert forall j :: 0 <= j < |s| ==>
      s[j].id == teams[j].id && s[j].name == teams[j].name && s[j].tournamentId == teams[j].tournamentId;
  }

  /** Removing one team keeps the team table valid. */
  lemma TeamsRemove(teams: seq<Team>, i: int, next: nat)
    requires TeamsValid(teams, next) && 0 <= i < |teams|
    ensures TeamsValid(teams[..i] + teams[i + 1..], next)
  {
    var s := teams[..i] + teams[i + 1..];
    assert forall j :: 0 <= j < |s| ==> s[j] == teams[if j < i then j else j + 1];
  }

  /** Ids are unique, so removing the team at `i` leaves none with its id. */
  lemma RemovedIdGone(teams: seq<Team>, i: nat, next: nat)
    requires TeamsValid(teams, next) && i < |teams|
    ensures TeamIndex(teams[..i] + teams[i + 1..], teams[i].id).None?
  {
    var s := teams[..i] + teams[i + 1..];
    forall j | 0 <= j < |s|
      ensures s[j].id != teams[i].id
    {
      if j < i {
        assert s[j] == teams[j];
      } else {
        assert s[j] == teams[j + 1];
      }
    }
  }

  /** Inserting a player under the next id keeps the player table valid. */
  lemma PlayersAppend(players: seq<Player>, p: Player, next: nat)
    requires PlayersValid(players, next)
    requires p.id == IdOf(next)
    ensures PlayersValid(players + [p], next + 1)
  {
    var s := players + [p];
    forall i | 0 <= i < |players|
      ensures s[i] == players[i] && players[i].id != p.id && Issued(s[i].id, next + 1)
    {
      IssuedBefore(players[i].id, next);
    }
    assert Issued(s[|players|].id, next + 1);
  }

  /** Removing one player keeps the player table valid. */
  lemma PlayersRemove(players: seq<Player>, i: int, next: nat)
    requires PlayersValid(players, next) && 0 <= i < |players|
    ensures PlayersValid(players[..i] + players[i + 1..], next)
  {
    var s := players[..i] + players[i + 1..];
    assert forall j :: 0 <= j < |s| ==> s[j] == players[if j < i then j else j + 1];
  }

  /** Inserting a tournament under the next id, with a slug no tournament
      has, keeps the tournament table valid. */
  lemma TournamentsInsert(ts: map<string, Tournament>, t: Tournament, next: nat)
    requires TournamentsValid(ts, next)
    requires t.id == IdOf(next)
    requires forall id :: id in ts ==> ts[id].slug != t.slug
    ensures t.id !in ts
    ensures TournamentsValid(ts[t.id := t], next + 1)
  {
    forall id | id in ts
      ensures id != t.id && Issued(id, next + 1)
    {
      IssuedBefore(id, next);
    }
    assert Issued(t.id, next + 1);
  }

  // ------------------------------------------------------------ lookups

  /** `findUnique` on the team table: the position of the team with id `id`. */
  function TeamIndex(teams: seq<Team>, id: string): (r: Option<nat>)
    ensures r.Some? ==> r.value < |teams| && teams[r.value].id == id
    ensures r.None? ==> forall i :: 0 <= i < |teams| ==> teams[i].id != id
  {
    if teams == [] then None
    else if teams[|teams| - 1].id == id then Some(|teams| - 1)
    else TeamIndex(teams[..|teams| - 1], id)
  }

  /** `findUnique` on the player table. */
  function PlayerIndex(players: seq<Player>, id: string): (r: Option<nat>)
    ensures r.Some? ==> r.value < |players| && players[r.value].id == id
    ensures r.None? ==> forall i :: 0 <= i < |players| ==> players[i].id != id
  {
    if players == [] then None
    else if players[|players| - 1].id == id then Some(|players| - 1)
    else PlayerIndex(players[..|players| - 1], id)
  }

  /** `_count.teams` of tournament `tid`: how many teams it has, whatever
      their status. */
  function TeamCount(teams: seq<Team>, tid: string): (n: nat)
    ensures n <= |teams|
    ensures n == 0 <==> forall i :: 0 <= i < |teams| ==> teams[i].tournamentId != tid
  {
    if teams == [] then 0
    else
      TeamCount(teams[..|teams| - 1], tid) + (if teams[|teams| - 1].tournamentId == tid then 1 else 0)
  }

  /** Adding a team to the table adds one to its tournament's count and
      leaves every other tournament's count alone. */
  lemma TeamCountAppend(teams: seq<Team>, t: Team, tid: string)
    ensures TeamCount(teams + [t], tid) == TeamCount(teams, tid) + (if t.tournamentId == tid then 1 else 0)
  {
    assert (teams + [t])[..|teams|] == teams;
  }

  /** `_count.fixtures` of tournament `tid`. */
  function FixtureCount(fixtures: seq<Fixture>, tid: string): (n: nat)
    ensures n <= |fixtures|
    ensures n == 0 <==> forall i :: 0 <= i < |fixtures| ==> fixtures[i].tournamentId != tid
  {
    if fixtures == [] then 0
    else
      FixtureCount(fixtures[..|fixtures| - 1], tid)
        + (if fixtures[|fixtures| - 1].tournamentId == tid then 1 else 0)
  }

  /** `tournament.teams` filtered to status APPROVED, mapped to ids, in
      table order. */
  function ApprovedTeamIds(teams: seq<Team>, tid: string): (ids: seq<string>)
    ensures |ids| <= |teams|
    ensures forall x :: x in ids <==>
      exists i :: 0 <= i < |teams| && teams[i].id == x && teams[i].tournamentId == tid
        && teams[i].status == Approved
  {
    if teams == [] then []
    else
      var rest := ApprovedTeamIds(teams[..|teams| - 1], tid);
      var last := teams[|teams| - 1];
      assert forall i :: 0 <= i < |teams| - 1 ==> teams[..|teams| - 1][i] == teams[i];
      if last.tournamentId == tid && last.status == Approved then rest + [last.id] else rest
  }

  // ------------------------------------------------------------ database

  /** The four tables and the id counter. */
  class Database {
    var tournaments: map<string, Tournament>
    var teams: seq<Team>
    var players: seq<Player>
    var fixtures: seq<Fixture>
    var nextId: nat

    /** The table invariants, plus: every team and every fixture belongs
        to a tournament in the table (their tournament relation is
        required). */
    ghost predicate Valid()
      reads this
    {
      TournamentsValid(tournaments, nextId)
      && TeamsValid(teams, nextId)
      && PlayersValid(players, nextId)
      && (forall i :: 0 <= i < |teams| ==> teams[i].tournamentId in tournaments)
      && (forall i :: 0 <= i < |fixtures| ==> fixtures[i].tournamentId in tournaments)
    }

    constructor ()
      ensures Valid()
      ensures tournaments == map[] && teams == [] && players == [] && fixtures == [] && nextId == 0
    {
      tournaments := map[];
      teams := [];
      players := [];
      fixtures := [];
      nextId := 0;
    }

    /** `tournament.create`: store `t` under a fresh id; its slug must be
        free (the slug column is unique). */
    method InsertTournament(t: Tournament) returns (id: string)
      requires Valid()
      requires forall k :: k in tournaments ==> tournaments[k].slug != t.slug
      modifies this
      ensures Valid()
      ensures id == IdOf(old(nextId)) && id !in old(tournaments) && nextId == old(nextId) + 1
      ensures tournaments == old(tournaments)[id := t.(id := id)]
      ensures teams == old(teams) && players == old(players) && fixtures == old(fixtures)
    {
      id := IdOf(nextId);
      TournamentsInsert(tournaments, t.(id := id), nextId);
      TablesGrow(tournaments, teams, players, nextId);
      tournaments := tournaments[id := t.(id := id)];
      nextId := nextId + 1;
    }

    /** `tournament.update` of the status column. */
    method SetTournamentStatus(id: string, status: Lifecycle.TournamentStatus)
      requires Valid() && id in tournaments
      modifies this
      ensures Valid()
      ensures tournaments == old(tournaments)[id := old(tournaments)[id].(status := status)]
      ensures teams == old(teams) && players == old(players) && fixtures == old(fixtures)
      ensures nextId == old(nextId)
    {
      tournaments := tournaments[id := tournaments[id].(status := status)];
    }

    /** `team.create`: store a team under a fresh id; its tournament must
        exist and its name must be free within that tournament. */
    method InsertTeam(tournamentId: string, name: string, shortName: Option<string>,
                      contactEmail: Option<string>, contactPhone: Option<string>, status: TeamStatus)
      returns (id: string)
      requires Valid() && tournamentId in tournaments
      requires forall i :: 0 <= i < |teams| ==> !NameTakenAt(teams, i, tournamentId, name)
      modifies this
      ensures Valid()
      ensures id == IdOf(old(nextId)) && nextId == old(nextId) + 1
      ensures teams == old(teams) + [Team(id, tournamentId, name, shortName, contactEmail, contactPhone, status)]
      ensures tournaments == old(tournaments) && players == old(players) && fixtures == old(fixtures)
    {
      id := IdOf(nextId);
      var t := Team(id, tournamentId, name, shortName, contactEmail, contactPhone, status);
      TeamsAppend(teams, t, nextId);
      TablesGrow(tournaments, teams, players, nextId);
      teams := teams + [t];
      nextId := nextId + 1;
    }

    /** `team.update` of the status column of `teams[i]`. */
    method SetTeamStatus(i: int, status: TeamStatus)
      requires Valid() && 0 <= i < |teams|
      modifies this
      ensures Valid()
      ensures teams == old(teams)[i := old(teams)[i].(status := status)]
      ensures tournaments == old(tournaments) && players == old(players) && fixtures == old(fixtures)
      ensures nextId == old(nextId)
    {
      TeamsSetStatus(teams, i, status, nextId);
      teams := teams[i := teams[i].(status := status)];
    }

    /** `team.delete` of `teams[i]`. */
    method DeleteTeam(i: int)
      requires Valid() && 0 <= i < |teams|
      modifies this
      ensures Valid()
      ensures teams == old(teams)[..i] + old(teams)[i + 1..]
      ensures TeamIndex(teams, old(teams)[i].id).None?
      ensures tournaments == old(tournaments) && players == old(players) && fixtures == old(fixtures)
      ensures nextId == old(nextId)
    {
      TeamsRemove(teams, i, nextId);
      RemovedIdGone(teams, i, nextId);
      teams := teams[..i] + teams[i + 1..];
    }

    /** `player.create`: store `p` under a fresh id. */
    method InsertPlayer(p: Player) returns (id: string)
      requires Valid()
      modifies this
      ensures Valid()
      ensures id == IdOf(old(nextId)) && nextId == old(nextId) + 1
      ensures players == old(players) + [p.(id := id)]
      ensures tournaments == old(tournaments) && teams == old(teams) && fixtures == old(fixtures)
    {
      id := IdOf(nextId);
      PlayersAppend(players, p.(id := id), nextId);
      TablesGrow(tournaments, teams, players, nextId);
      players := players + [p.(id := id)];
      nextId := nextId + 1;
    }

    /** `player.delete` of `players[i]`. */
    method DeletePlayer(i: int)
      requires Valid() && 0 <= i < |players|
      modifies this
      ensures Valid()
      ensures players == old(players)[..i] + old(players)[i + 1..]
      ensures tournaments == old(tournaments) && teams == old(teams) && fixtures == old(fixtures)
      ensures nextId == old(nextId)
    {
      PlayersRemove(players, i, nextId);
      players := players[..i] + players[i + 1..];
    }

    /** `fixture.createMany`: append rows, each of a tournament in the
        table. */
    method InsertFixtures(rows: seq<Fixture>)
      requires Valid()
      requires forall k :: 0 <= k < |rows| ==> rows[k].tournamentId in tournaments
      modifies this
      ensures Valid()
      ensures fixtures == old(fixtures) + rows
      ensures tournaments == old(tournaments) && teams == old(teams) && players == old(players)
      ensures nextId == old(nextId)
    {
      fixtures := fixtures + rows;
    }

    /** `fixture.update` of `fixtures[i]`, keeping its tournament. */
    method SetFixture(i: int, f: Fixture)
      requires Valid() && 0 <= i < |fixtures| && f.tournamentId == fixtures[i].tournamentId
      modifies this
      ensures Valid()
      ensures fixtures == old(fixtures)[i := f]
      ensures tournaments == old(tournaments) && teams == old(teams) && players == old(players)
      ensures nextId == old(nextId)
    {
      fixtures := fixtures[i := f];
    }
  }

  /** The caller organizes the tournament of the team with id `teamId`:
      the ownership check of the team and player actions. */
  predicate OwnsTeam(ts: map<string, Tournament>, teams: seq<Team>, userId: Option<string>, teamId: string) {
    var i := TeamIndex(teams, teamId);
    i.Some? && OrganizedBy(ts, teams[i.value].tournamentId, userId)
  }
}
