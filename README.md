# TournaPilot360 core, modelled in Dafny

TournaPilot360 is a web application in which an organizer creates
tournaments, registers teams and players, generates fixtures, records
results and publishes league tables. This project models the parts of it
that carry rules. The rest of the application is page rendering and
database or session wiring.

- **Fixture generation** (`src/app/dashboard/fixtures/actions.ts`).
  - Round-robin generation uses the circle method, with a bye for an odd
    team count (`RoundRobin`).
  - Single elimination pads the team list to a power-of-two bracket
    (`Knockout`).
  - The `generateFixtures` server action applies its guards and dispatches
    on the tournament format. The score and status updates define how a
    fixture record changes (`FixtureActions`).
- **League table** (`src/lib/standings.ts`). `computeStandings` folds the
  completed fixtures into one row per team, then sorts by four keys
  (`Standings`).
- **Tournament life cycle.** The status transition table and the
  `updateTournamentStatus` action that enforces it (`Lifecycle`,
  `TournamentActions`).
- **Slugs.** `slugify` and the probing loop `uniqueSlug` (`Slug`).
- **Tournament creation.** The empty-string normalisation of the form,
  the group fields that only the group-knockout format keeps, and the
  insert (`TournamentActions`).
- **Registration.** Validation, capacity, duplicate-name and ownership
  guards for teams and players, over an in-memory database (`TeamActions`,
  `PlayerActions`, `Store`).
- **Fixtures page.** Fixtures are grouped by tournament and round, with
  rounds in ascending order (`FixtureGrouping`).
- **Navigation.**
  - The dashboard breadcrumb (`Breadcrumb`).
  - The middleware's public-route test and redirect decision
    (`Middleware`).
  - The sidebar's initials and active-link rule (`Sidebar`).

The database is the class `Store.Database`. It holds the tournaments (a map
keyed by id), the teams, players and fixtures (sequences in insertion
order), and the counter that issues ids. Every server action is a method
over it. The signed-in user arrives as an `Option<string>` parameter.
`Text` holds the JavaScript string operations the code relies on:
whitespace trimming, `split`, `join`, decimal printing and lexicographic
order. `Schedule` holds the fixture-pairing record that both generators
produce.

The model follows the code wherever the two could be read differently.

- **Breadcrumb on `/dashboard`.** The comment at
  `src/components/dashboard-breadcrumb.tsx:53` suggests that a path whose
  only segment is `dashboard` shows "Overview". The code keeps that last
  segment, so the trail is a single "Dashboard" crumb. "Overview" appears
  only for a path with no segments at all. `Breadcrumb.DashboardHome`
  states the behaviour as written.
- **Five-team knockout.** Pairing slot `i` with slot `size-1-i` over a
  bracket of 8 gives five teams one real match, the fourth team against the
  fifth (`Knockout.KnockoutFiveTeams`). The general count is
  `count - size/2` (`Knockout.KnockoutShape`).

## Model

| member | source | states |
|---|---|---|
| Text.Trim | src/app/dashboard/teams/actions.ts:24 | `trim()` yields the contiguous middle of the input; everything cut from either end is whitespace, and a non-empty result starts and ends with a non-space |
| Text.TrimAllSpace | src/app/dashboard/teams/actions.ts:24-31 | a name of whitespace alone trims to the empty string, so it is reported as too short |
| Text.Split | src/components/app-sidebar.tsx:53 | `split` always yields at least one piece, and no piece contains the separator |
| Text.JoinSplit | src/components/app-sidebar.tsx:53-55 | joining the pieces of `split` with the separator gives back the original string |
| Text.NonEmpty | src/components/dashboard-breadcrumb.tsx:27 | `filter(Boolean)` keeps exactly the non-empty pieces, and nothing else |
| Text.NonEmptyKeeps | src/components/dashboard-breadcrumb.tsx:27 | filtering a list that has no empty piece leaves it unchanged |
| Text.UpperAscii | src/components/app-sidebar.tsx:56 | `toUpperCase` keeps the length and upper-cases each letter in place |
| Text.NatToString | src/app/dashboard/tournaments/actions.ts:73 | the printed number is a non-empty string of decimal digits |
| Text.IntToString | src/app/dashboard/teams/actions.ts:45 | a number prints as its digits, with a leading minus sign when negative |
| Text.DecimalRoundTrip | src/app/dashboard/tournaments/actions.ts:73 | reading the printed digits back gives the number again |
| Text.NatToStringInjective | src/app/dashboard/tournaments/actions.ts:73 | different counters print as different suffixes |
| Text.LexLeTotal | src/lib/standings.ts:87 | any two team names are ordered one way or the other |
| Text.LexLeTransitive | src/lib/standings.ts:87 | the name order is transitive |
| Text.LexLeAntisymmetric | src/lib/standings.ts:87 | two names each ordered before the other are equal |
| Lifecycle.AllowedTransitions | src/app/dashboard/tournaments/tournament-utils.ts:3-16 | the exact successor set of each status. No status lists itself and nothing leads to DRAFT. Exactly COMPLETED and CANCELLED have no moves, and CANCELLED is reachable from every other status. Every move increases the stage |
| Lifecycle.StatusName | src/app/dashboard/tournaments/actions.ts:175 | each status has a non-empty enum name for the rejection message |
| Lifecycle.PathClimbs | src/app/dashboard/tournaments/tournament-utils.ts:3-12 | along any chain of allowed moves the stage rises by at least one per step |
| Lifecycle.NoCycle | src/app/dashboard/tournaments/tournament-utils.ts:3-12 | no chain of one or more allowed moves returns to its starting status |
| Lifecycle.PathsEnd | src/app/dashboard/tournaments/tournament-utils.ts:3-12 | a chain of moves has at most six statuses, and one that cannot continue ends in COMPLETED or CANCELLED |
| Lifecycle.TerminalReachable | src/app/dashboard/tournaments/tournament-utils.ts:4-11 | from every status a terminal status is reachable in at most one move |
| Store.MessageText | src/app/dashboard/fixtures/actions.ts:16-92 | every error outcome carries a non-empty message |
| Store.FixtureStatusName | src/app/dashboard/fixtures/actions.ts:31 | each fixture status has a non-empty enum name |
| Store.TrimmedOrNull | src/app/dashboard/teams/actions.ts:25-27 | `?.trim() \|\| null` is null exactly when the field is missing or blank; otherwise it is the trimmed, non-empty text |
| Store.OrNull | src/app/dashboard/tournaments/actions.ts:114-116 | a date field is kept exactly when it is truthy and is null otherwise |
| Store.IdOfInjective | src/app/dashboard/teams/actions.ts:56 | ids issued at different counter values differ |
| Store.TeamsAppend | src/app/dashboard/teams/actions.ts:49-65 | adding a team with a fresh id and an unused name keeps ids and (tournament, name) pairs unique |
| Store.TeamsRemove | src/app/dashboard/teams/actions.ts:111 | removing a team keeps the table's invariants |
| Store.RemovedIdGone | src/app/dashboard/teams/actions.ts:111 | after a team is deleted its id is no longer found |
| Store.PlayersAppend | src/app/dashboard/players/actions.ts:48-60 | adding a player with a fresh id keeps player ids unique |
| Store.TournamentsInsert | src/app/dashboard/tournaments/actions.ts:105-133 | a tournament inserted under a fresh id with an unused slug keeps ids and slugs unique |
| Store.TeamIndex | src/app/dashboard/teams/actions.ts:82-87 | finds the position of the team with the given id, or reports that no team has it |
| Store.PlayerIndex | src/app/dashboard/players/actions.ts:75-84 | finds the position of the player with the given id, or reports that none has it |
| Store.TeamCount | src/app/dashboard/teams/actions.ts:37-44 | counts a tournament's teams; the count is zero exactly when no team belongs to it |
| Store.TeamCountAppend | src/app/dashboard/teams/actions.ts:44-65 | adding a team to a tournament raises its count by one and leaves the others unchanged |
| Store.FixtureCount | src/app/dashboard/fixtures/actions.ts:78-85 | counts a tournament's fixtures; the count is zero exactly when it has none |
| Store.ApprovedTeamIds | src/app/dashboard/fixtures/actions.ts:77-89 | lists exactly the ids of the tournament's APPROVED teams |
| Store.Database.InsertTournament | src/app/dashboard/tournaments/actions.ts:105-133 | stores the tournament under the next id and changes nothing else |
| Store.Database.SetTournamentStatus | src/app/dashboard/tournaments/actions.ts:178-181 | changes only that tournament's status |
| Store.Database.InsertTeam | src/app/dashboard/teams/actions.ts:56-65 | appends the team under the next id and changes nothing else |
| Store.Database.SetTeamStatus | src/app/dashboard/teams/actions.ts:90 | changes only that team's status |
| Store.Database.DeleteTeam | src/app/dashboard/teams/actions.ts:111 | removes exactly that team, whose id is then gone |
| Store.Database.InsertPlayer | src/app/dashboard/players/actions.ts:48-60 | appends the player under the next id and changes nothing else |
| Store.Database.DeletePlayer | src/app/dashboard/players/actions.ts:89 | removes exactly that player |
| Store.Database.InsertFixtures | src/app/dashboard/fixtures/actions.ts:108-114 | appends the rows to the fixture table and changes nothing else |
| Store.Database.SetFixture | src/app/dashboard/fixtures/actions.ts:26-33 | replaces exactly one fixture row |
| RoundRobin.Working | src/app/dashboard/fixtures/actions.ts:126-127 | the working list is the team list with at most one bye appended, and its length is even |
| RoundRobin.Rotate | src/app/dashboard/fixtures/actions.ts:152-153 | the circle rotation keeps the length |
| RoundRobin.RotateAt | src/app/dashboard/fixtures/actions.ts:151-153 | the rotation keeps position 0, moves the last element to position 1 and shifts the rest one place right |
| RoundRobin.RotatePermutes | src/app/dashboard/fixtures/actions.ts:151-153 | the rotation is a permutation of the list |
| RoundRobin.RotateStep | src/app/dashboard/fixtures/actions.ts:137-154 | rotating the list of round `r` gives the closed-form list of round `r+1` |
| RoundRobin.RotatedHas | src/app/dashboard/fixtures/actions.ts:151-153 | every round's list holds the same teams as the working list |
| RoundRobin.RotatedDistinct | src/app/dashboard/fixtures/actions.ts:151-153 | every round's list stays duplicate-free |
| RoundRobin.GenerateRoundRobin | src/app/dashboard/fixtures/actions.ts:124-157 | the nested loops with their in-place rotation return exactly the circle-method schedule |
| RoundRobin.CircleStep | src/app/dashboard/fixtures/actions.ts:152-153 | the two `splice` calls perform one rotation |
| RoundRobin.PushRound | src/app/dashboard/fixtures/actions.ts:138-150 | the inner loop appends exactly one round's fixtures, numbered from 1 |
| RoundRobin.RoundAt | src/app/dashboard/fixtures/actions.ts:139-148 | each fixture of a round pairs position `j` with position `n-1-j`, neither of them the bye, and carries match number `i+1` |
| RoundRobin.RoundDisjointAt | src/app/dashboard/fixtures/actions.ts:139-148 | within a round, home differs from away and no team appears in two fixtures |
| RoundRobin.RoundCount | src/app/dashboard/fixtures/actions.ts:139-149 | a round has `n/2` fixtures, one fewer when the bye is in the list |
| RoundRobin.RoundNumbered | src/app/dashboard/fixtures/actions.ts:137-148 | every fixture of a round carries that round and match numbers 1, 2, ... in order |
| RoundRobin.WorkingDistinct | src/app/dashboard/fixtures/actions.ts:126-127 | the working list is duplicate-free, holds the bye exactly when the count is odd, and otherwise holds only input teams |
| RoundRobin.FixtureSides | src/app/dashboard/fixtures/actions.ts:140-147 | every emitted fixture pairs two different real teams, never the bye, and never has the first team as away side; its round lies in 1..n-1 |
| RoundRobin.RoundRobinFixturesWellFormed | src/app/dashboard/fixtures/actions.ts:137-154 | every fixture pairs two different input teams, its round lies in 1..n-1, and the first input team is always the home side |
| RoundRobin.RoundRobinOrder | src/app/dashboard/fixtures/actions.ts:137-148 | rounds never decrease along the output, and the match number restarts at 1 each round and otherwise rises by one |
| RoundRobin.RoundRobinOncePerRound | src/app/dashboard/fixtures/actions.ts:137-154 | no team plays twice in the same round |
| RoundRobin.RoundRobinPairMeets | src/app/dashboard/fixtures/actions.ts:137-154 | every two different teams meet in some fixture |
| RoundRobin.RoundRobinNoRematch | src/app/dashboard/fixtures/actions.ts:137-154 | no later fixture repeats an earlier pairing, in either orientation |
| RoundRobin.RoundRobinPairAtMostOnce | src/app/dashboard/fixtures/actions.ts:137-154 | two teams meet in at most one fixture |
| RoundRobin.RoundRobinEveryPairOnce | src/app/dashboard/fixtures/actions.ts:137-154 | every two different teams meet in exactly one fixture |
| RoundRobin.RoundRobinCount | src/app/dashboard/fixtures/actions.ts:127-154 | the schedule has exactly `c(c-1)/2` fixtures for `c` teams |
| RoundRobin.PairsDifferAcrossRounds | src/app/dashboard/fixtures/actions.ts:137-154 | the pairings of two different rounds are never the same two teams |
| RoundRobin.EveryPairSeated | src/app/dashboard/fixtures/actions.ts:137-154 | every two positions of the working list face each other in some round |
| Knockout.BracketSizeBounds | src/app/dashboard/fixtures/actions.ts:163 | the bracket size is a power of two, at least the team count and below twice it |
| Knockout.BracketSizeSmallest | src/app/dashboard/fixtures/actions.ts:163 | no power of two that holds all teams is smaller than the bracket size |
| Knockout.Padded | src/app/dashboard/fixtures/actions.ts:164-165 | the padded list has exactly the bracket's length |
| Knockout.GenerateKnockout | src/app/dashboard/fixtures/actions.ts:161-190 | the padding loop and the pairing loop return exactly the knockout schedule |
| Knockout.KnockoutShape | src/app/dashboard/fixtures/actions.ts:163-187 | with `size` the bracket size there are `count - size/2` fixtures; fixture `j` pits team `size-count+j` at home against team `count-1-j` |
| Knockout.KnockoutRoundOne | src/app/dashboard/fixtures/actions.ts:175-185 | every knockout fixture is in round 1, numbered 1, 2, ... in order |
| Knockout.KnockoutDisjoint | src/app/dashboard/fixtures/actions.ts:176-187 | home differs from away, and no team appears in two round-1 fixtures |
| Knockout.KnockoutByes | src/app/dashboard/fixtures/actions.ts:164-187 | a team plays in round 1 exactly when its position is at least `size-count`, so the byes go to the first `size-count` teams |
| Knockout.KnockoutSingleTeam | src/app/dashboard/fixtures/actions.ts:176-186 | a lone team fills a bracket of one and is paired with itself |
| Knockout.KnockoutFiveTeams | src/app/dashboard/fixtures/actions.ts:163-187 | five teams pad to eight slots and yield the single match of the fourth team against the fifth |
| FixtureActions.ToRecords | src/app/dashboard/fixtures/actions.ts:108-114 | each stored row copies its pairing, belongs to the tournament, is SCHEDULED and has no scores |
| FixtureActions.ScheduleFor | src/app/dashboard/fixtures/actions.ts:102-106 | ROUND_ROBIN and GROUP_KNOCKOUT use round robin; SINGLE_ELIMINATION uses the knockout |
| FixtureActions.Generate | src/app/dashboard/fixtures/actions.ts:102-106 | the format dispatch returns the schedule of that format |
| FixtureActions.GenerateFixtures | src/app/dashboard/fixtures/actions.ts:68-120 | checks in order: signed in, tournament exists, owner, no fixtures yet, at least 2 approved teams. Success appends exactly the generated rows and returns their count; every failure leaves the tables unchanged |
| FixtureActions.UpdateFixtureScore | src/app/dashboard/fixtures/actions.ts:10-40 | checks signed in, fixture exists, owner. Success sets both scores and COMPLETED on that row only; failure changes nothing |
| FixtureActions.UpdateFixtureStatus | src/app/dashboard/fixtures/actions.ts:44-64 | the same checks; success changes only that row's status, leaving its scores |
| FixtureActions.ApprovedIdsUsable | src/app/dashboard/fixtures/actions.ts:89 | the approved team ids are distinct, non-empty and never the bye placeholder |
| FixtureActions.GeneratedSchedule | src/app/dashboard/fixtures/actions.ts:102-119 | every generated fixture pairs two different approved teams. The count is `c(c-1)/2` for round robin and `c - size/2` for the knockout, all in round 1 |
| FixtureActions.KnockoutRows | src/app/dashboard/fixtures/actions.ts:161-190 | knockout fixtures pair two different teams from the input, in round 1, `count - size/2` of them |
| FixtureActions.GeneratedPairMeetsOnce | src/app/dashboard/fixtures/actions.ts:102-114 | under the round-robin formats every two approved teams meet in exactly one stored row |
| Standings.RosterKeys | src/lib/standings.ts:31-44 | the roster lists each input team id exactly once |
| Standings.RosterRows | src/lib/standings.ts:31-44 | every team starts with an all-zero row under its id |
| Standings.Record | src/lib/standings.ts:55-80 | one side's result: one more match played, the goals scored and conceded added, and exactly one of won, drawn and lost goes up, namely won when it scored more, drawn when level, lost when it scored fewer. The team's identity and the row's consistency (played = W+D+L, points from the formula, goal difference = GF-GA) are kept |
| Standings.Apply | src/lib/standings.ts:46-81 | a fixture that is not counted changes nothing. A counted one changes only its two teams' rows, each playing once more per side, and keeps every row consistent |
| Standings.Fold | src/lib/standings.ts:46-81 | after the loop each team has played once per counted appearance, and rows stay keyed and consistent |
| Standings.ApplyCredits | src/lib/standings.ts:47-80 | one counted fixture adds to a team's row exactly that fixture's win, draw or loss and goals for the team, taken from the home side's scores when it is at home and from the away side's when it is away; an uncounted fixture adds nothing |
| Standings.FoldCredits | src/lib/standings.ts:46-81 | after the fixture loop each row has gained exactly its team's wins, draws, losses, goals scored and goals conceded over the counted fixtures, as `WinsOf`, `DrawsOf`, `LossesOf`, `GoalsScoredBy` and `GoalsConcededBy` count them independently of the loop |
| Standings.TableRowResults | src/lib/standings.ts:22-89 | any one row of the table holds its team's results over the counted fixtures, with goal difference and points derived from them |
| Standings.StandingsResults | src/lib/standings.ts:22-89 | every row of the returned table holds its team's counted wins, draws, losses, goals for and against, goal difference and points = win-points x wins + draw-points x draws + loss-points x losses |
| Standings.FoldSnoc | src/lib/standings.ts:46-81 | one more fixture at the end of the list is one more loop step |
| Standings.SortRows | src/lib/standings.ts:83-88 | the sort returns a sorted permutation of the rows |
| Standings.InsertSorted | src/lib/standings.ts:83-88 | inserting a row into a sorted table keeps it sorted |
| Standings.InsertMultiset | src/lib/standings.ts:83-88 | inserting a row adds exactly that row |
| Standings.CompareFlip | src/lib/standings.ts:83-88 | the comparator is antisymmetric |
| Standings.RankLeTransitive | src/lib/standings.ts:83-88 | the comparator is transitive |
| Standings.Standings | src/lib/standings.ts:22-89 | the table has one row per distinct team and is sorted |
| Standings.ComputeStandings | src/lib/standings.ts:22-89 | the roster loop, fixture loop and sort return exactly the table `Standings` defines |
| Standings.BuildRoster | src/lib/standings.ts:31-44 | the roster loop produces the roster's keys and zero rows |
| Standings.AddFixture | src/lib/standings.ts:47-80 | one pass of the fixture loop body, with its early exits, is one application of the fixture |
| Standings.StandingsOrdered | src/lib/standings.ts:83-88 | each row is ahead of every later one: more points, else better goal difference, else more goals for, else a name that is not later |
| Standings.StandingsBalanced | src/lib/standings.ts:57-77 | across the table total goals for equal total goals against, and total wins equal total losses |
| Standings.StandingsOneRowPerTeam | src/lib/standings.ts:29-88 | a team id appears in exactly one row if it is in the input, and in none otherwise |
| Standings.StandingsConsistent | src/lib/standings.ts:55-80 | every row has played = W+D+L, the points formula, and goal difference = GF-GA, untouched rows included |
| Standings.StandingsPlayed | src/lib/standings.ts:55-56 | a team's played count is its number of appearances in counted fixtures |
| Standings.StandingsUntouched | src/lib/standings.ts:41-44 | a team in no counted fixture has an all-zero row |
| Standings.StandingsIgnoreUncounted | src/lib/standings.ts:47-53 | fixtures that are not COMPLETED, miss a team or a score, or name a team outside the roster do not affect the table |
| Standings.TableRow | src/lib/standings.ts:83 | every row of the table is the folded row of its own team |
| FixtureGrouping.Bucket | src/app/dashboard/fixtures/page.tsx:53-56 | a bucket holds exactly the fixtures of one tournament and round |
| FixtureGrouping.BucketAppend | src/app/dashboard/fixtures/page.tsx:56 | buckets keep input order: the bucket of a concatenation is the concatenation of buckets |
| FixtureGrouping.TournamentOrder | src/app/dashboard/fixtures/page.tsx:49-51 | lists each tournament that has a fixture once |
| FixtureGrouping.TournamentOrderPrefix | src/app/dashboard/fixtures/page.tsx:47-57 | groups appear in order of first occurrence: later fixtures only add groups at the end |
| FixtureGrouping.RoundOrder | src/app/dashboard/fixtures/page.tsx:53-55 | lists each round of a tournament once |
| FixtureGrouping.FirstName | src/app/dashboard/fixtures/page.tsx:50 | a group is named after the first fixture of its tournament |
| FixtureGrouping.GroupFixtures | src/app/dashboard/fixtures/page.tsx:39-57 | the loop builds one group per tournament, in first-occurrence order. Each group holds each of its rounds once, with that round's bucket |
| FixtureGrouping.Place | src/app/dashboard/fixtures/page.tsx:48-56 | one iteration of the loop keeps the grouping exact for the fixtures seen so far |
| FixtureGrouping.AddToGroup | src/app/dashboard/fixtures/page.tsx:53-56 | adding a fixture to its group keeps the group exact |
| FixtureGrouping.BucketsCoverList | src/app/dashboard/fixtures/page.tsx:47-57 | the bucket sizes add up to the number of fixtures, so each fixture lands in exactly one bucket |
| FixtureGrouping.SortRounds | src/app/dashboard/fixtures/page.tsx:121-122 | the sorted round list holds the same rounds in ascending order |
| FixtureGrouping.RoundSections | src/app/dashboard/fixtures/page.tsx:121-123 | one section per round, each pairing a round with its bucket |
| FixtureGrouping.RoundSectionsSorted | src/app/dashboard/fixtures/page.tsx:121-123 | the sections cover exactly the group's rounds, in strictly ascending order |
| Slug.Lower | src/app/dashboard/tournaments/actions.ts:61 | lower-casing leaves no upper-case ASCII letter |
| Slug.LowerChar | src/app/dashboard/tournaments/actions.ts:61 | a character lower-cases to no upper-case ASCII letter and leaves other characters alone |
| Slug.KeepSlugChars | src/app/dashboard/tournaments/actions.ts:62 | the result has only word characters, whitespace and hyphens, all taken from the input, and an input made only of those is kept whole |
| Slug.KeepSlugCharsAppend | src/app/dashboard/tournaments/actions.ts:62 | the filter works character by character: it distributes over concatenation and keeps a single character exactly when it is a word character, whitespace or hyphen, so the result is the kept characters in their original order |
| Slug.Collapse | src/app/dashboard/tournaments/actions.ts:63 | the result has no two adjacent hyphens, its other characters are non-separators from the input, it starts with the input's first character when that is no separator, and it is empty only for empty input |
| Slug.CollapseByRuns | src/app/dashboard/tournaments/actions.ts:63 | collapsing equals a left-to-right scan that writes one hyphen at the start of each run of whitespace, `_` and `-`, and copies every other character |
| Slug.CollapseKeepsWords | src/app/dashboard/tournaments/actions.ts:63 | collapsing keeps the non-separator characters unchanged and in order |
| Slug.TrimHyphens | src/app/dashboard/tournaments/actions.ts:64 | neither end of the result is a hyphen; slug characters and the absence of double hyphens carry over from the input |
| Slug.TrimHyphensCut | src/app/dashboard/tournaments/actions.ts:64 | the result is the input with a prefix and a suffix made only of hyphens cut off, and nothing else removed |
| Slug.Slugify | src/app/dashboard/tournaments/actions.ts:58-66 | the result is never empty, uses only `[a-z0-9-]`, has no hyphen at either end and no two consecutive hyphens |
| Slug.SlugifyWords | src/app/dashboard/tournaments/actions.ts:58-66 | words of lower-case letters and digits, joined by single spaces, slugify to the same words joined by hyphens |
| Slug.SlugifyOfSlug | src/app/dashboard/tournaments/actions.ts:58-66 | a string already in slug form slugifies to itself |
| Slug.SlugifyIdempotent | src/app/dashboard/tournaments/actions.ts:58-66 | slugifying twice is the same as slugifying once |
| Slug.CollapseOfSlug | src/app/dashboard/tournaments/actions.ts:63 | collapsing a hyphen-separated slug changes nothing |
| Slug.Candidate | src/app/dashboard/tournaments/actions.ts:70-73 | the first attempt is the base and the `n`-th retry is `base-(n+1)` |
| Slug.CandidateInjective | src/app/dashboard/tournaments/actions.ts:70-73 | different attempts are different slugs |
| Slug.CandidateIsSlug | src/app/dashboard/tournaments/actions.ts:73 | every attempt derived from a slug is itself a slug |
| Slug.TriedSize | src/app/dashboard/tournaments/actions.ts:72-74 | `n` attempts are `n` distinct slugs, so the loop cannot outlast the taken set |
| Slug.UniqueSlug | src/app/dashboard/tournaments/actions.ts:68-76 | returns the base if free, otherwise `base-i` for the smallest `i >= 2` not taken (every earlier attempt is taken); the result is a slug and is never taken |
| Slug.FirstFree | src/app/dashboard/tournaments/actions.ts:70-75 | the probing loop stops at the first free attempt, all earlier ones being taken |
| TournamentActions.LastValue | src/app/dashboard/tournaments/actions.ts:87-89 | a key's value is present exactly when the form has an entry for it, and it is that entry's value |
| TournamentActions.Blank | src/app/dashboard/tournaments/actions.ts:88 | an empty form string becomes absent, and anything else is kept |
| TournamentActions.FormRecord | src/app/dashboard/tournaments/actions.ts:86-89 | the record has a key for each form key, and no value is the empty string |
| TournamentActions.FormRecordSnoc | src/app/dashboard/tournaments/actions.ts:87-89 | a later entry for the same key overwrites the earlier one |
| TournamentActions.NormalizeForm | src/app/dashboard/tournaments/actions.ts:86-89 | the loop builds the record with empty strings turned into absent values |
| TournamentActions.NewTournament | src/app/dashboard/tournaments/actions.ts:105-133 | the row copies every parsed field (name, description, sport, format, gender, start date, team and player limits, points, venue, location), takes the slug and the organizer, has status DRAFT and an empty id that the insert replaces. Blank dates become null. The group fields are null unless the format is GROUP_KNOCKOUT, in which case they are copied |
| TournamentActions.TakenSlugs | src/app/dashboard/tournaments/actions.ts:72 | the taken set is exactly the slugs of the stored tournaments |
| TournamentActions.CreateTournament | src/app/dashboard/tournaments/actions.ts:78-137 | signed out gives an error; a rejected form gives its field errors and changes nothing. Otherwise one tournament is stored under a fresh id, and the page is redirected to it. Its slug is the first attempt from the slug of the submitted name that no existing tournament has: every earlier attempt is taken |
| TournamentActions.InsertNew | src/app/dashboard/tournaments/actions.ts:103-133 | the new tournament's slug is the first attempt from the slug of its name that no existing tournament has, every earlier attempt being taken; it is the plain slug of the name when that is free |
| TournamentActions.UpdateTournamentStatus | src/app/dashboard/tournaments/actions.ts:158-187 | checks in order: signed in, found, owner, transition allowed. Success sets exactly the new status; every failure leaves the status unchanged |
| TeamActions.TeamFormErrors | src/app/dashboard/teams/actions.ts:29-32 | the errors map reports a missing tournament and a trimmed name shorter than 2 together, and is empty exactly when neither applies |
| TeamActions.CollectTeamErrors | src/app/dashboard/teams/actions.ts:29-31 | the step-by-step filling of the errors map yields that map |
| TeamActions.TeamByName | src/app/dashboard/teams/actions.ts:49-51 | finds a team of the tournament with exactly that name, or reports that none exists |
| TeamActions.AddTeam | src/app/dashboard/teams/actions.ts:16-71 | checks in order: signed in, form errors, tournament missing or not owned, full, duplicate name. Success appends one APPROVED team with trimmed name and blank optional fields stored as null. Every failure inserts nothing, and capacity is preserved |
| TeamActions.CapacityKept | src/app/dashboard/teams/actions.ts:44-46 | adding a team to a tournament below its limit keeps every tournament within `maxTeams` |
| TeamActions.UpdateTeamStatus | src/app/dashboard/teams/actions.ts:75-95 | checks signed in, found, owner. Success changes only that team's status; failure changes nothing |
| TeamActions.DeleteTeam | src/app/dashboard/teams/actions.ts:99-117 | the same checks; success removes only that team; failure changes nothing |
| PlayerActions.PlayerFormErrors | src/app/dashboard/players/actions.ts:33-37 | a missing team, a blank first name and a blank last name each give their own field error, all collected together |
| PlayerActions.CollectPlayerErrors | src/app/dashboard/players/actions.ts:33-36 | the step-by-step filling of the errors map yields that map |
| PlayerActions.NewPlayer | src/app/dashboard/players/actions.ts:23-60 | names are trimmed. Position, phone and email are trimmed, with blanks null. A blank jersey number, gender or date of birth is stored as null |
| PlayerActions.AddPlayer | src/app/dashboard/players/actions.ts:16-67 | checks in order: signed in, form errors, team found, owner. Success appends exactly the new player; any failure creates nothing |
| PlayerActions.DeletePlayer | src/app/dashboard/players/actions.ts:71-96 | removes the player only when the caller owns the player's tournament; otherwise nothing changes |
| Breadcrumb.Segments | src/components/dashboard-breadcrumb.tsx:27 | the segments are exactly the non-empty pieces between slashes |
| Breadcrumb.SegmentsRoundTrip | src/components/dashboard-breadcrumb.tsx:27 | the segments of `/` followed by segments joined with `/` are those segments |
| Breadcrumb.Capitalize | src/components/dashboard-breadcrumb.tsx:48 | upper-cases only the first character |
| Breadcrumb.Label | src/components/dashboard-breadcrumb.tsx:42-48 | a known segment gets its mapped label, otherwise "Detail" above 16 characters, otherwise the segment capitalised |
| Breadcrumb.BuildCrumbs | src/components/dashboard-breadcrumb.tsx:27-56 | the loop with its path accumulator and fallback yields exactly the crumbs `Crumbs` defines |
| Breadcrumb.PathJoin | src/components/dashboard-breadcrumb.tsx:32-35 | the accumulated path after `n` segments is `/` plus the first `n` segments joined by `/` |
| Breadcrumb.CrumbsShape | src/components/dashboard-breadcrumb.tsx:33-56 | the trail is never empty, only its final crumb is last, and it is the lone "Overview" crumb exactly when the path has no segments |
| Breadcrumb.CrumbHrefs | src/components/dashboard-breadcrumb.tsx:32-50 | each crumb comes from a shown segment, with that segment's label and a link to the path up to and including it |
| Breadcrumb.ShownSegmentsListed | src/components/dashboard-breadcrumb.tsx:33-50 | every shown segment has its crumb in the trail |
| Breadcrumb.DashboardSkipped | src/components/dashboard-breadcrumb.tsx:39 | a `dashboard` segment that is not the last gets no crumb |
| Breadcrumb.DashboardHome | src/components/dashboard-breadcrumb.tsx:36-56 | the path whose only segment is `dashboard` yields a single "Dashboard" crumb |
| Middleware.MatchesRoute | src/middleware.ts:15 | a path matches when it equals one of the routes or lies below one |
| Middleware.MatchesPrefix | src/middleware.ts:16 | a path matches when it starts with one of the prefixes |
| Middleware.Gate | src/middleware.ts:14-29 | public paths pass; other paths pass with a session; a request without one is redirected to `/sign-in` with the path as `callbackUrl`, and that is the only redirect |
| Middleware.RoutesArePublic | src/middleware.ts:7-15 | each public route and every path below it is public |
| Middleware.PrefixesArePublic | src/middleware.ts:8-16 | every path under `/api/auth` or `/t/` is public |
| Middleware.RedirectTargetPasses | src/middleware.ts:7-26 | the sign-in page is public, so a redirected visitor is let through |
| Middleware.DashboardIsProtected | src/middleware.ts:14-27 | no dashboard path is public, so without a session it redirects to sign-in |
| Middleware.SegmentBoundary | src/middleware.ts:15 | a route opens only whole segments below it: `/landings` is not public |
| Sidebar.Heads | src/components/app-sidebar.tsx:54-55 | there are never more first letters than words |
| Sidebar.Initials | src/components/app-sidebar.tsx:51-58 | the initials are at most two characters, and "U" without a name |
| Sidebar.HeadsOfWords | src/components/app-sidebar.tsx:54-55 | non-empty words give exactly one first letter each, in order |
| Sidebar.InitialsOfWords | src/components/app-sidebar.tsx:52-57 | for a name, the initials are the upper-cased first letters of its first two space-separated words, in order |
| Sidebar.ActiveOnOwnPages | src/components/app-sidebar.tsx:77-80 | each link is active on its own page. Every link but the home one stays active below it; the home link is active only on `/dashboard` itself |
| Sidebar.AtMostOneActive | src/components/app-sidebar.tsx:38-80 | at most one navigation link is active for any path |

## Left out

- Prisma queries, sessions, `revalidatePath` and `redirect` are replaced by the in-memory `Store.Database` and an `Option<string>` user id. Cache revalidation has no effect in the model, and a redirect is an `Outcome` value.
- Cascade deletes (a team's players and fixtures) belong to the database schema, which is not part of this model. Deleting a team or player removes only that row.
- Record ids from `cuid()` are modelled as `IdOf(counter)`, a distinct string per insert. A fixture's id is its position in the fixture table, since the core never deletes fixtures.
- The zod schema `createSchema` (tournaments/actions.ts:17-51) is the parameter `validate` of `CreateTournament`. Its individual field rules are not modelled.
- `new Date(...)`, `parseInt` and `z.coerce.number` are not modelled. Dates and jersey numbers are kept as the submitted text, and numeric fields arrive already parsed.
- FormData values that are files are not modelled; every form value is a string.
- `Math.pow(2, Math.ceil(Math.log2(n)))` is floating point. It is modelled as the smallest power of two at least `n`, with 0 for no teams. The loop bound `i < size/2` is read as `2*i < size`.
- `localeCompare` depends on the locale. The name tiebreak is ordinary character-by-character order (`Text.LexLe`).
- Lengths are counted in characters, not UTF-16 code units.
- `toUpperCase` is modelled on `a`-`z` only. `toLowerCase` is modelled on `A`-`Z`, U+0130 and U+212A, the only characters whose lower case is ASCII. Every other character that slug generation keeps is already ASCII lower-case, and other scripts in initials are left as they are.
- The race between `uniqueSlug` and the insert is a concurrency matter and is not modelled; the slug check and the insert happen together.
- `SEGMENT_LABELS[seg]` on a JavaScript object also finds inherited keys such as `constructor`. The model looks up only the seven listed segments.
- The sign-in redirect is modelled as its path and `callbackUrl`. The origin taken from `req.url` and the `matcher` config (middleware.ts:32-36) are not modelled.
- The fixtures page's query order (page.tsx:34) is not modelled. The grouping is proved for whatever order the fixture list arrives in.
- React rendering of the pages, sheets, forms and the breadcrumb and sidebar markup is not modelled.
- The seed scenario in prisma/seed.ts:109-122 is not restated as a concrete table: evaluating the fold and the sort on six teams and nine fixtures is beyond the verifier's resource budget here. `Standings.StandingsResults` states, for any teams and fixtures, the wins, draws, losses, goals and points each row must hold, but the seed's particular table is not derived.
- FixtureActions.GenerateFixtures: the query for approved teams (fixtures/actions.ts:77-80) has no `orderBy`, so the database may return them in any order. `Store.ApprovedTeamIds` takes them in table order, which fixes the pairings. The structural properties (`RoundRobin.RoundRobinEveryPairOnce`, `Knockout.KnockoutByes` and the others) are proved for any list of ids and so hold for whatever order the query returns; only the particular pairing depends on table order.
- TournamentActions.NewTournament: the create call (tournaments/actions.ts:105-133) sets no status. DRAFT is the default the database schema gives a new row. The model writes it into the record because the schema is not part of this model.
- Knockout.KnockoutSingleTeam: a single team would be paired with itself, but `generateFixtures` never calls the knockout with fewer than two teams.
- The round-robin properties assume that no team id equals the bye placeholder `"__bye__"`. Store ids are issued by `IdOf`, which always starts with `c`, so stored ids never clash with it.
