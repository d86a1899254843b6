/** The tournament server actions: `createTournament`, which turns the
    submitted form into a record (blank fields become absent, the group
    settings are kept only for the group-knockout format, the slug is the
    first free one) and `updateTournamentStatus`, which moves a tournament
    along the status table after its guards. */
module TournamentActions {
  import opened Optional
  import opened Store
  import Slug
  import Lifecycle

  // ------------------------------------------------ form normalisation

  /** A submitted form: its entries in order, key then value. */
  type FormEntries = seq<(string, string)>

  /** The value of the last entry with key `key`, if any. */
  function LastValue(entries: FormEntries, key: string): (v: Option<string>)
    ensures v.None? <==> forall i :: 0 <= i < |entries| ==> entries[i].0 != key
    ensures v.Some? ==> exists i :: 0 <= i < |entries| && entries[i] == (key, v.value)
  {
    if entries == [] then None
    else if entries[|entries| - 1].0 == key then Some(entries[|entries| - 1].1)
    else LastValue(entries[..|entries| - 1], key)
  }

  /** `value === "" ? undefined : value`. */
  function Blank(value: string): (v: Option<string>)
    ensures v.None? <==> value == []
    ensures v.Some? ==> v.value == value
  {
    if value == [] then None else Some(value)
  }

  /** The record validation sees: one field per key of the form, holding
      the key's last value, with an empty string turned into an absent
      value. */
  function FormRecord(entries: FormEntries): (raw: map<string, Option<string>>)
    ensures forall k :: k in raw <==> LastValue(entries, k).Some?
    ensures forall k :: k in raw ==> raw[k] != Some("")
  {
    var keys := set i | 0 <= i < |entries| :: entries[i].0;
    map k | k in keys :: Blank(LastValue(entries, k).value)
  }

  /** One more entry overrides any earlier value of its key. */
  lemma {:induction false} FormRecordSnoc(entries: FormEntries, e: (string, string))
    ensures FormRecord(entries + [e]) == FormRecord(entries)[e.0 := Blank(e.1)]
  {
    var s := entries + [e];
    assert s[..|s| - 1] == entries;
    forall k
      ensures LastValue(s, k) == (if k == e.0 then Some(e.1) else LastValue(entries, k))
    {
    }
    var a, b := FormRecord(s), FormRecord(entries)[e.0 := Blank(e.1)];
    assert a.Keys == b.Keys;
    forall k | k in a
      ensures a[k] == b[k]
    {
    }
  }

  /** The loop `raw[key] = value === "" ? undefined : value` over the
      form's entries. The record it builds has every key of the form, each
      with its last value, and no empty string anywhere. */
  method NormalizeForm(entries: FormEntries) returns (raw: map<string, Option<string>>)
    ensures raw == FormRecord(entries)
    ensures forall k :: k in raw ==> raw[k] != Some("")
  {
    raw := map[];
    var i := 0;
    assert entries[..0] == [];
    assert FormRecord([]) == map[];
    while i < |entries|
      invariant 0 <= i <= |entries|
      invariant raw == FormRecord(entries[..i])
    {
      var (key, value) := entries[i];
      raw := raw[key := if value == "" then None else Some(value)];
      FormRecordSnoc(entries[..i], entries[i]);
      assert entries[..i + 1] == entries[..i] + [entries[i]];
      i := i + 1;
    }
    assert entries[..i] == entries;
  }

  // ------------------------------------------------------- validation

  /** What validation hands back on success: the form's fields, typed. */
  datatype TournamentData = TournamentData(
    name: string,
    description: Option<string>,
    sport: string,
    format: Format,
    gender: string,
    startDate: string,
    endDate: Option<string>,
    registrationStart: Option<string>,
    registrationEnd: Option<string>,
    maxTeams: int,
    minPlayersPerTeam: int,
    maxPlayersPerTeam: int,
    pointsForWin: int,
    pointsForDraw: int,
    pointsForLoss: int,
    numberOfGroups: Option<int>,
    teamsPerGroup: Option<int>,
    advancePerGroup: Option<int>,
    venue: Option<string>,
    location: Option<string>)

  /** The outcome of validating the normalised record. */
  datatype Validation =
    | Parsed(data: TournamentData)
    | Rejected(fieldErrors: map<string, seq<string>>)

  /** The record `tournament.create` stores: the validated fields, the
      slug, the caller as organizer, and DRAFT, the status the schema gives
      a new row (the create call itself sets none). A date
      given as an empty value is stored as null, and the three group
      settings are stored only for the group-knockout format. The id is
      left empty: the insert assigns it. */
  function NewTournament(d: TournamentData, slug: string, organizerId: string): (t: Tournament)
    ensures t.name == d.name && t.slug == slug && t.format == d.format && t.organizerId == organizerId
    ensures t.status == Lifecycle.Draft
    ensures t.startDate == d.startDate
    ensures t.endDate == OrNull(d.endDate) && t.registrationStart == OrNull(d.registrationStart)
    ensures t.registrationEnd == OrNull(d.registrationEnd)
    ensures t.format != GroupKnockout ==>
      t.numberOfGroups.None? && t.teamsPerGroup.None? && t.advancePerGroup.None?
    ensures t.format == GroupKnockout ==>
      t.numberOfGroups == d.numberOfGroups && t.teamsPerGroup == d.teamsPerGroup
      && t.advancePerGroup == d.advancePerGroup
    ensures t.maxTeams == d.maxTeams && t.pointsForWin == d.pointsForWin
    ensures t.pointsForDraw == d.pointsForDraw && t.pointsForLoss == d.pointsForLoss
    ensures t.description == d.description && t.sport == d.sport && t.gender == d.gender
    ensures t.minPlayersPerTeam == d.minPlayersPerTeam && t.maxPlayersPerTeam == d.maxPlayersPerTeam
    ensures t.venue == d.venue && t.location == d.location
    ensures t.id == ""
  {
    var group := d.format == GroupKnockout;
    Tournament(
      "", d.name, slug, d.description, d.sport, d.format, d.gender, d.startDate,
      if Truthy(d.endDate) then d.endDate else None,
      if Truthy(d.registrationStart) then d.registrationStart else None,
      if Truthy(d.registrationEnd) then d.registrationEnd else None,
      d.maxTeams, d.minPlayersPerTeam, d.maxPlayersPerTeam,
      d.pointsForWin, d.pointsForDraw, d.pointsForLoss,
      if group then d.numberOfGroups else None,
      if group then d.teamsPerGroup else None,
      if group then d.advancePerGroup else None,
      d.venue, d.location, Lifecycle.Draft, organizerId)
  }

  /** The slugs already in use. */
  function TakenSlugs(ts: map<string, Tournament>): (taken: set<string>)
    ensures forall id :: id in ts ==> ts[id].slug in taken
    ensures forall s :: s in taken ==> exists id :: id in ts && ts[id].slug == s
  {
    set id | id in ts :: ts[id].slug
  }

  /** `createTournament`. Guards: signed in, then the normalised form
      validates (its field errors are returned otherwise). Then the
      tournament is stored under a fresh id with the first free slug for
      its name, and the page is sent to the new tournament. `validate`
      stands for the form schema. */
  method CreateTournament(db: Database, userId: Option<string>, entries: FormEntries,
                          validate: map<string, Option<string>> -> Validation)
    returns (out: Outcome)
    requires db.Valid()
    modifies db
    ensures db.Valid()
    ensures db.teams == old(db.teams) && db.players == old(db.players) && db.fixtures == old(db.fixtures)
    ensures !SignedIn(userId) ==> out == Failure(NotAuthenticated)
    ensures SignedIn(userId) && validate(FormRecord(entries)).Rejected? ==>
      out == FieldErrors(validate(FormRecord(entries)).fieldErrors)
    ensures out.Redirect? <==> SignedIn(userId) && validate(FormRecord(entries)).Parsed?
    ensures !out.Redirect? ==> db.tournaments == old(db.tournaments) && db.nextId == old(db.nextId)
    ensures out.Redirect? ==>
      var id := IdOf(old(db.nextId));
      && id !in old(db.tournaments) && id in db.tournaments
      && out.path == "/dashboard/tournaments/" + id
      && db.tournaments == old(db.tournaments)[id :=
           NewTournament(validate(FormRecord(entries)).data, db.tournaments[id].slug, userId.value).(id := id)]
      && Slug.IsSlug(db.tournaments[id].slug)
      && Slug.IsFirstFree(Slug.Slugify(validate(FormRecord(entries)).data.name),
           TakenSlugs(old(db.tournaments)), db.tournaments[id].slug)
  {
    if !SignedIn(userId) {
      return Failure(NotAuthenticated);
    }
    var raw := NormalizeForm(entries);
    var parsed := validate(raw);
    if parsed.Rejected? {
      return FieldErrors(parsed.fieldErrors);
    }
    var id := InsertNew(db, parsed.data, userId.value);
    out := Redirect("/dashboard/tournaments/" + id);
  }

  /** `uniqueSlug(d.name)` followed by `tournament.create`: the new row
      gets the next id and a slug no other tournament has, the first free
      one derived from its name. */
  method InsertNew(db: Database, d: TournamentData, organizerId: string) returns (id: string)
    requires db.Valid()
    modifies db
    ensures db.Valid()
    ensures db.teams == old(db.teams) && db.players == old(db.players) && db.fixtures == old(db.fixtures)
    ensures id == IdOf(old(db.nextId)) && id !in old(db.tournaments) && id in db.tournaments
    ensures db.tournaments == old(db.tournaments)[id := NewTournament(d, db.tournaments[id].slug, organizerId).(id := id)]
    ensures Slug.IsSlug(db.tournaments[id].slug)
    ensures Slug.IsFirstFree(Slug.Slugify(d.name), TakenSlugs(old(db.tournaments)), db.tournaments[id].slug)
    ensures Slug.Slugify(d.name) !in TakenSlugs(old(db.tournaments)) ==>
      db.tournaments[id].slug == Slug.Slugify(d.name)
  {
    var slug := Slug.UniqueSlug(d.name, TakenSlugs(db.tournaments));
    var t := NewTournament(d, slug, organizerId);
    id := db.InsertTournament(t);
    assert db.tournaments[id] == t.(id := id);
  }

  // -------------------------------------------- updateTournamentStatus

  /** `updateTournamentStatus`. Guards, in order: signed in, tournament
      found, caller is its organizer, the move is in the status table. A
      failed guard changes nothing; success sets exactly the new status of
      exactly that tournament. */
  method UpdateTournamentStatus(db: Database, userId: Option<string>, tournamentId: string,
                                newStatus: Lifecycle.TournamentStatus)
    returns (out: Outcome)
    requires db.Valid()
    modifies db
    ensures db.Valid()
    ensures db.teams == old(db.teams) && db.players == old(db.players) && db.fixtures == old(db.fixtures)
    ensures db.nextId == old(db.nextId)
    ensures !SignedIn(userId) ==> out == Failure(NotAuthenticated)
    ensures SignedIn(userId) && tournamentId !in old(db.tournaments) ==> out == Failure(TournamentNotFound)
    ensures SignedIn(userId) && tournamentId in old(db.tournaments) && !OrganizedBy(old(db.tournaments), tournamentId, userId)
      ==> out == Failure(NotAuthorized)
    ensures OrganizedBy(old(db.tournaments), tournamentId, userId)
      && !Lifecycle.CanMove(old(db.tournaments)[tournamentId].status, newStatus)
      ==> out == Failure(CannotTransition(old(db.tournaments)[tournamentId].status, newStatus))
    ensures out == Done <==>
      OrganizedBy(old(db.tournaments), tournamentId, userId)
      && Lifecycle.CanMove(old(db.tournaments)[tournamentId].status, newStatus)
    ensures out == Done ==>
      db.tournaments == old(db.tournaments)[tournamentId := old(db.tournaments)[tournamentId].(status := newStatus)]
    ensures out != Done ==> db.tournaments == old(db.tournaments)
  {
    if !SignedIn(userId) {
      return Failure(NotAuthenticated);
    }
    if tournamentId !in db.tournaments {
      return Failure(TournamentNotFound);
    }
    var tournament := db.tournaments[tournamentId];
    if tournament.organizerId != userId.value {
      return Failure(NotAuthorized);
    }
    var allowed := Lifecycle.AllowedTransitions(tournament.status);
    if newStatus !in allowed {
      return Failure(CannotTransition(tournament.status, newStatus));
    }
    db.SetTournamentStatus(tournamentId, newStatus);
    out := Done;
  }
}
