/** The player server actions. `addPlayer` collects the form's field
    errors, normalises the optional fields, checks that the caller
    organizes the tournament of the chosen team and inserts the player;
    `deletePlayer` removes a player after the same ownership check, made
    through the player's team. */
module PlayerActions {
  import opened Optional
  import opened Text
  import opened Store

  /** The fields `addPlayer` reads from the form; a missing field is absent. */
  datatype PlayerForm = PlayerForm(
    teamId: Option<string>,
    firstName: Option<string>,
    lastName: Option<string>,
    jerseyNumber: Option<string>,
    position: Option<string>,
    gender: Option<string>,
    phone: Option<string>,
    email: Option<string>,
    dateOfBirth: Option<string>)

  const SelectTeam := "Please select a team"
  const FirstNameRequired := "First name is required"
  const LastNameRequired := "Last name is required"

  /** `(formData.get(k) as string)?.trim()` is missing or empty. */
  predicate BlankName(v: Option<string>) {
    v.None? || |Trim(v.value)| < 1
  }

  /** The field errors of the form: a team, a first name and a last name
      are each required, and every missing one is reported at once. */
  function PlayerFormErrors(f: PlayerForm): (errors: map<string, seq<string>>)
    ensures "teamId" in errors <==> !Truthy(f.teamId)
    ensures "firstName" in errors <==> BlankName(f.firstName)
    ensures "lastName" in errors <==> BlankName(f.lastName)
    ensures forall k :: k in errors ==> k == "teamId" || k == "firstName" || k == "lastName"
    ensures "teamId" in errors ==> errors["teamId"] == [SelectTeam]
    ensures "firstName" in errors ==> errors["firstName"] == [FirstNameRequired]
    ensures "lastName" in errors ==> errors["lastName"] == [LastNameRequired]
    ensures errors == map[] <==> Truthy(f.teamId) && !BlankName(f.firstName) && !BlankName(f.lastName)
  {
    var e1 := if Truthy(f.teamId) then map[] else map["teamId" := [SelectTeam]];
    var e2 := if BlankName(f.firstName) then e1["firstName" := [FirstNameRequired]] else e1;
    if BlankName(f.lastName) then e2["lastName" := [LastNameRequired]] else e2
  }

  /** The `errors` record filled one check after the other. */
  method CollectPlayerErrors(f: PlayerForm) returns (errors: map<string, seq<string>>)
    ensures errors == PlayerFormErrors(f)
  {
    errors := map[];
    if !Truthy(f.teamId) {
      errors := errors["teamId" := [SelectTeam]];
    }
    ghost var e1 := errors;
    if f.firstName.None? || |Trim(f.firstName.value)| < 1 {
      errors := errors["firstName" := [FirstNameRequired]];
    }
    assert errors == if BlankName(f.firstName) then e1["firstName" := [FirstNameRequired]] else e1;
    if f.lastName.None? || |Trim(f.lastName.value)| < 1 {
      errors := errors["lastName" := [LastNameRequired]];
    }
  }

  /** An optional value that is never the empty string. */
  predicate NoEmpty(v: Option<string>) {
    v.None? || v.value != []
  }

  /** `v` is the input `w` trimmed, and null exactly when that is blank;
      a stored value never starts or ends with white space. */
  predicate TrimmedOf(v: Option<string>, w: Option<string>) {
    (v.None? <==> w.None? || Trim(w.value) == [])
    && (v.Some? ==> v.value == Trim(w.value) && !IsSpace(v.value[0]) && !IsSpace(v.value[|v.value| - 1]))
  }

  /** The player row `player.create` receives for a form without field
      errors (before the id is issued). The names are trimmed; position,
      phone and email are trimmed and null when blank; gender, jersey
      number and date of birth are kept as given and null when empty. */
  function NewPlayer(f: PlayerForm): (p: Player)
    requires f.teamId.Some? && f.firstName.Some? && f.lastName.Some?
    ensures p.teamId == f.teamId.value
    ensures p.firstName == Trim(f.firstName.value) && p.lastName == Trim(f.lastName.value)
    ensures p.jerseyNumber.None? <==> !Truthy(f.jerseyNumber)
    ensures p.dateOfBirth.None? <==> !Truthy(f.dateOfBirth)
    ensures p.gender.None? <==> !Truthy(f.gender)
    ensures NoEmpty(p.jerseyNumber) && NoEmpty(p.gender) && NoEmpty(p.dateOfBirth)
    ensures TrimmedOf(p.position, f.position) && TrimmedOf(p.phone, f.phone) && TrimmedOf(p.email, f.email)
  {
    Player("", f.teamId.value, Trim(f.firstName.value), Trim(f.lastName.value),
           OrNull(f.jerseyNumber), TrimmedOrNull(f.position), OrNull(f.gender),
           TrimmedOrNull(f.phone), TrimmedOrNull(f.email), OrNull(f.dateOfBirth))
  }

  /** `addPlayer`. Guards, in order: signed in; the field errors (all at
      once); the team exists; the caller organizes its tournament. Then
      exactly one player is appended. */
  method AddPlayer(db: Database, userId: Option<string>, f: PlayerForm) returns (out: Outcome)
    requires db.Valid()
    modifies db
    ensures db.Valid()
    ensures db.tournaments == old(db.tournaments) && db.teams == old(db.teams) && db.fixtures == old(db.fixtures)
    ensures !SignedIn(userId) ==> out == Failure(NotAuthenticated)
    ensures SignedIn(userId) && PlayerFormErrors(f) != map[] ==> out == FieldErrors(PlayerFormErrors(f))
    ensures SignedIn(userId) && PlayerFormErrors(f) == map[] && TeamIndex(old(db.teams), f.teamId.value).None?
      ==> out == Failure(TeamNotFound)
    ensures SignedIn(userId) && PlayerFormErrors(f) == map[] && TeamIndex(old(db.teams), f.teamId.value).Some?
      && !OwnsTeam(old(db.tournaments), old(db.teams), userId, f.teamId.value)
      ==> out == Failure(NotAuthorized)
    ensures out == Success <==>
      SignedIn(userId) && PlayerFormErrors(f) == map[] && OwnsTeam(old(db.tournaments), old(db.teams), userId, f.teamId.value)
    ensures out == Success ==>
      db.players == old(db.players) + [NewPlayer(f).(id := IdOf(old(db.nextId)))]
    ensures out != Success ==> db.players == old(db.players) && db.nextId == old(db.nextId)
  {
    if !SignedIn(userId) {
      return Failure(NotAuthenticated);
    }
    var errors := CollectPlayerErrors(f);
    if |errors| > 0 {
      return FieldErrors(errors);
    }
    assert errors == map[];
    var teamId := f.teamId.value;
    var i := TeamIndex(db.teams, teamId);
    if i.None? {
      return Failure(TeamNotFound);
    }
    if db.tournaments[db.teams[i.value].tournamentId].organizerId != userId.value {
      return Failure(NotAuthorized);
    }
    var _ := db.InsertPlayer(NewPlayer(f));
    out := Success;
  }

  /** The caller organizes the tournament of the team of player
      `playerId`. A player whose team row is gone has no organizer. */
  predicate OwnsPlayer(ts: map<string, Tournament>, teams: seq<Team>, players: seq<Player>,
                       userId: Option<string>, playerId: string) {
    var p := PlayerIndex(players, playerId);
    p.Some? && OwnsTeam(ts, teams, userId, players[p.value].teamId)
  }

  /** `deletePlayer`. Guards: signed in, player found, caller organizes
      the tournament of the player's team. Success removes exactly that
      player, keeping the others in order. */
  method DeletePlayer(db: Database, userId: Option<string>, playerId: string) returns (out: Outcome)
    requires db.Valid()
    modifies db
    ensures db.Valid()
    ensures db.tournaments == old(db.tournaments) && db.teams == old(db.teams) && db.fixtures == old(db.fixtures)
    ensures db.nextId == old(db.nextId)
    ensures !SignedIn(userId) ==> out == Failure(NotAuthenticated)
    ensures SignedIn(userId) && PlayerIndex(old(db.players), playerId).None? ==> out == Failure(PlayerNotFound)
    ensures SignedIn(userId) && PlayerIndex(old(db.players), playerId).Some? && !OwnsPlayer(old(db.tournaments), old(db.teams), old(db.players), userId, playerId)
      ==> out == Failure(NotAuthorized)
    ensures out == Done <==> OwnsPlayer(old(db.tournaments), old(db.teams), old(db.players), userId, playerId)
    ensures out == Done ==>
      var i := PlayerIndex(old(db.players), playerId).value;
      db.players == old(db.players)[..i] + old(db.players)[i + 1..]
    ensures out != Done ==> db.players == old(db.players)
  {
    ghost var owns := OwnsPlayer(db.tournaments, db.teams, db.players, userId, playerId);
    if !SignedIn(userId) {
      return Failure(NotAuthenticated);
    }
    var p := PlayerIndex(db.players, playerId);
    if p.None? {
      return Failure(PlayerNotFound);
    }
    var t := TeamIndex(db.teams, db.players[p.value].teamId);
    if t.None? || db.tournaments[db.teams[t.value].tournamentId].organizerId != userId.value {
      assert !owns;
      return Failure(NotAuthorized);
    }
    assert owns;
    db.DeletePlayer(p.value);
    out := Done;
  }
}
