/** The team server actions. `addTeam` collects the form's field errors,
    then checks the tournament (found and owned by the caller), its
    capacity and the uniqueness of the team name within it, and inserts an
    APPROVED team; `updateTeamStatus` and `deleteTeam` change or remove one
    team after an ownership check through the team's tournament. */
module TeamActions {
  import opened Optional
  import opened Text
  import opened Store

  /** The fields `addTeam` reads from the form; a missing field is absent. */
  datatype TeamForm = TeamForm(
    tournamentId: Option<string>,
    name: Option<string>,
    shortName: Option<string>,
    contactEmail: Option<string>,
    contactPhone: Option<string>)

  const SelectTournament := "Please select a tournament"
  const NameTooShort := "Team name must be at least 2 characters"
  const NameExists := "A team with this name already exists in this tournament"

  /** `(formData.get("name") as string)?.trim()` is missing or shorter than
      two characters. */
  predicate ShortName(name: Option<string>) {
    name.None? || |Trim(name.value)| < 2
  }

  /** The field errors of the form: the tournament is required and the
      trimmed name needs two characters; both are reported together. */
  function TeamFormErrors(f: TeamForm): (errors: map<string, seq<string>>)
    ensures "tournamentId" in errors <==> !Truthy(f.tournamentId)
    ensures "name" in errors <==> ShortName(f.name)
    ensures forall k :: k in errors ==> k == "tournamentId" || k == "name"
    ensures "tournamentId" in errors ==> errors["tournamentId"] == [SelectTournament]
    ensures "name" in errors ==> errors["name"] == [NameTooShort]
    ensures errors == map[] <==> Truthy(f.tournamentId) && !ShortName(f.name)
  {
    var e := if Truthy(f.tournamentId) then map[] else map["tournamentId" := [SelectTournament]];
    if ShortName(f.name) then e["name" := [NameTooShort]] else e
  }

  /** The `errors` record filled one check after the other. */
  method CollectTeamErrors(f: TeamForm) returns (errors: map<string, seq<string>>)
    ensures errors == TeamFormErrors(f)
  {
    errors := map[];
    if !Truthy(f.tournamentId) {
      errors := errors["tournamentId" := [SelectTournament]];
    }
    if f.name.None? || |Trim(f.name.value)| < 2 {
      errors := errors["name" := [NameTooShort]];
    }
  }

  /** `team.findUnique` on the `(tournamentId, name)` key: the position of
      the team called `name` in tournament `tid`. */
  function TeamByName(teams: seq<Team>, tid: string, name: string): (r: Option<nat>)
    ensures r.Some? ==> r.value < |teams| && NameTakenAt(teams, r.value, tid, name)
    ensures r.None? ==> forall i :: 0 <= i < |teams| ==> !NameTakenAt(teams, i, tid, name)
  {
    if teams == [] then None
    else if NameTakenAt(teams, |teams| - 1, tid, name) then Some(|teams| - 1)
    else
      var r := TeamByName(teams[..|teams| - 1], tid, name);
      assert forall i :: 0 <= i < |teams| - 1 ==>
        NameTakenAt(teams[..|teams| - 1], i, tid, name) == NameTakenAt(teams, i, tid, name);
      r
  }

  /** Every tournament has at most `maxTeams` teams. */
  ghost predicate WithinCapacity(ts: map<string, Tournament>, teams: seq<Team>) {
    forall tid :: tid in ts ==> TeamCount(teams, tid) <= ts[tid].maxTeams
  }

  /** `addTeam`. Guards, in order: signed in; the field errors (all of
      them at once); the tournament exists and the caller organizes it; it
      is not full; no team of that tournament has the trimmed name. Then
      exactly one APPROVED team is appended, with its name trimmed and
      blank optional fields stored as null. Adding never takes a
      tournament over its capacity. */
  method AddTeam(db: Database, userId: Option<string>, f: TeamForm) returns (out: Outcome)
    requires db.Valid()
    modifies db
    ensures db.Valid()
    ensures db.tournaments == old(db.tournaments) && db.players == old(db.players) && db.fixtures == old(db.fixtures)
    ensures !SignedIn(userId) ==> out == Failure(NotAuthenticated)
    ensures SignedIn(userId) && TeamFormErrors(f) != map[] ==> out == FieldErrors(TeamFormErrors(f))
    ensures SignedIn(userId) && TeamFormErrors(f) == map[] && !OrganizedBy(old(db.tournaments), f.tournamentId.value, userId)
      ==> out == Failure(TournamentUnavailable)
    ensures SignedIn(userId) && TeamFormErrors(f) == map[] && OrganizedBy(old(db.tournaments), f.tournamentId.value, userId)
      && TeamCount(old(db.teams), f.tournamentId.value) >= old(db.tournaments)[f.tournamentId.value].maxTeams
      ==> out == Failure(TournamentFull(old(db.tournaments)[f.tournamentId.value].maxTeams))
    ensures out == Success <==>
      SignedIn(userId) && TeamFormErrors(f) == map[] && OrganizedBy(old(db.tournaments), f.tournamentId.value, userId)
      && TeamCount(old(db.teams), f.tournamentId.value) < old(db.tournaments)[f.tournamentId.value].maxTeams
      && TeamByName(old(db.teams), f.tournamentId.value, Trim(f.name.value)).None?
    ensures out == FieldErrors(map["name" := [NameExists]]) <==>
      SignedIn(userId) && TeamFormErrors(f) == map[] && OrganizedBy(old(db.tournaments), f.tournamentId.value, userId)
      && TeamCount(old(db.teams), f.tournamentId.value) < old(db.tournaments)[f.tournamentId.value].maxTeams
      && TeamByName(old(db.teams), f.tournamentId.value, Trim(f.name.value)).Some?
    ensures out == Success ==>
      db.teams == old(db.teams) + [Team(IdOf(old(db.nextId)), f.tournamentId.value, Trim(f.name.value),
        TrimmedOrNull(f.shortName), TrimmedOrNull(f.contactEmail), TrimmedOrNull(f.contactPhone), Approved)]
    ensures out != Success ==> db.teams == old(db.teams) && db.nextId == old(db.nextId)
    ensures old(WithinCapacity(db.tournaments, db.teams)) ==> WithinCapacity(db.tournaments, db.teams)
  {
    if !SignedIn(userId) {
      return Failure(NotAuthenticated);
    }
    var errors := CollectTeamErrors(f);
    if |errors| > 0 {
      return FieldErrors(errors);
    }
    assert errors == map[];
    var tournamentId := f.tournamentId.value;
    var name := Trim(f.name.value);
    if tournamentId !in db.tournaments || db.tournaments[tournamentId].organizerId != userId.value {
      return Failure(TournamentUnavailable);
    }
    var tournament := db.tournaments[tournamentId];
    if TeamCount(db.teams, tournamentId) >= tournament.maxTeams {
      return Failure(TournamentFull(tournament.maxTeams));
    }
    if TeamByName(db.teams, tournamentId, name).Some? {
      return FieldErrors(map["name" := [NameExists]]);
    }
    ghost var before := db.teams;
    var _ := db.InsertTeam(tournamentId, name, TrimmedOrNull(f.shortName), TrimmedOrNull(f.contactEmail),
                           TrimmedOrNull(f.contactPhone), Approved);
    CapacityKept(db.tournaments, before, db.teams[|db.teams| - 1], tournamentId);
    out := Success;
  }

  /** Appending a team to a tournament below capacity keeps every
      tournament within capacity. */
  lemma CapacityKept(ts: map<string, Tournament>, teams: seq<Team>, t: Team, tid: string)
    requires tid in ts && t.tournamentId == tid && TeamCount(teams, tid) < ts[tid].maxTeams
    ensures WithinCapacity(ts, teams) ==> WithinCapacity(ts, teams + [t])
  {
    forall u | u in ts
      ensures TeamCount(teams + [t], u) == TeamCount(teams, u) + (if u == tid then 1 else 0)
    {
      TeamCountAppend(teams, t, u);
    }
  }

  /** `updateTeamStatus`. Guards: signed in, team found, caller organizes
      its tournament. Success changes that team's status and nothing else. */
  method UpdateTeamStatus(db: Database, userId: Option<string>, teamId: string, status: TeamStatus)
    returns (out: Outcome)
    requires db.Valid()
    modifies db
    ensures db.Valid()
    ensures db.tournaments == old(db.tournaments) && db.players == old(db.players) && db.fixtures == old(db.fixtures)
    ensures db.nextId == old(db.nextId)
    ensures !SignedIn(userId) ==> out == Failure(NotAuthenticated)
    ensures SignedIn(userId) && TeamIndex(old(db.teams), teamId).None? ==> out == Failure(TeamNotFound)
    ensures SignedIn(userId) && TeamIndex(old(db.teams), teamId).Some? && !OwnsTeam(old(db.tournaments), old(db.teams), userId, teamId)
      ==> out == Failure(NotAuthorized)
    ensures out == Done <==> OwnsTeam(old(db.tournaments), old(db.teams), userId, teamId)
    ensures out == Done ==>
      var i := TeamIndex(old(db.teams), teamId).value;
      db.teams == old(db.teams)[i := old(db.teams)[i].(status := status)]
    ensures out != Done ==> db.teams == old(db.teams)
  {
    if !SignedIn(userId) {
      return Failure(NotAuthenticated);
    }
    var i := TeamIndex(db.teams, teamId);
    if i.None? {
      return Failure(TeamNotFound);
    }
    if db.tournaments[db.teams[i.value].tournamentId].organizerId != userId.value {
      return Failure(NotAuthorized);
    }
    db.SetTeamStatus(i.value, status);
    out := Done;
  }

  /** `deleteTeam`. The same guards; success removes exactly that team,
      keeping the others in order, and afterwards no team has its id. */
  method DeleteTeam(db: Database, userId: Option<string>, teamId: string) returns (out: Outcome)
    requires db.Valid()
    modifies db
    ensures db.Valid()
    ensures db.tournaments == old(db.tournaments) && db.players == old(db.players) && db.fixtures == old(db.fixtures)
    ensures db.nextId == old(db.nextId)
    ensures !SignedIn(userId) ==> out == Failure(NotAuthenticated)
    ensures SignedIn(userId) && TeamIndex(old(db.teams), teamId).None? ==> out == Failure(TeamNotFound)
    ensures SignedIn(userId) && TeamIndex(old(db.teams), teamId).Some? && !OwnsTeam(old(db.tournaments), old(db.teams), userId, teamId)
      ==> out == Failure(NotAuthorized)
    ensures out == Done <==> OwnsTeam(old(db.tournaments), old(db.teams), userId, teamId)
    ensures out == Done ==>
      var i := TeamIndex(old(db.teams), teamId).value;
      db.teams == old(db.teams)[..i] + old(db.teams)[i + 1..] && TeamIndex(db.teams, teamId).None?
    ensures out != Done ==> db.teams == old(db.teams)
  {
    ghost var owns := OwnsTeam(db.tournaments, db.teams, userId, teamId);
    if !SignedIn(userId) {
      return Failure(NotAuthenticated);
    }
    var i := TeamIndex(db.teams, teamId);
    if i.None? {
      return Failure(TeamNotFound);
    }
    if db.tournaments[db.teams[i.value].tournamentId].organizerId != userId.value {
      assert !owns;
      return Failure(NotAuthorized);
    }
    assert owns;
    db.DeleteTeam(i.value);
    out := Done;
  }
}
