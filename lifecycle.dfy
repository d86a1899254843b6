/** The tournament status state machine: the six statuses a tournament
    moves through and the table of allowed moves (`STATUS_TRANSITIONS`)
    that both the tournament pages and `updateTournamentStatus` consult. */
module Lifecycle {

  datatype TournamentStatus =
    | Draft
    | RegistrationOpen
    | RegistrationClosed
    | InProgress
    | Completed
    | Cancelled

  /** The enum's stored name, as it appears in error messages. */
  function StatusName(s: TournamentStatus): (name: string)
    ensures name != []
  {
    match s
    case Draft => "DRAFT"
    case RegistrationOpen => "REGISTRATION_OPEN"
    case RegistrationClosed => "REGISTRATION_CLOSED"
    case InProgress => "IN_PROGRESS"
    case Completed => "COMPLETED"
    case Cancelled => "CANCELLED"
  }

  /** A status with no way out. */
  predicate Terminal(s: TournamentStatus) {
    s == Completed || s == Cancelled
  }

  /** How far along the lifecycle a status is; every allowed move goes
      strictly up. */
  function Stage(s: TournamentStatus): nat {
    match s
    case Draft => 0
    case RegistrationOpen => 1
    case RegistrationClosed => 2
    case InProgress => 3
    case Completed => 4
    case Cancelled => 5
  }

  /** `getAllowedTransitions`: the moves the table lists for `current`, in
      table order; a status the table has no entry for gets none. The
      contract is the shape of the relation: no self-loops, nothing leads
      back to DRAFT, exactly the two terminal statuses have no moves,
      cancelling is always possible otherwise, and every move advances the
      stage (so the relation is acyclic). */
  function AllowedTransitions(current: TournamentStatus): (next: seq<TournamentStatus>)
    ensures current !in next
    ensures Draft !in next
    ensures next == [] <==> Terminal(current)
    ensures !Terminal(current) ==> Cancelled in next
    ensures forall t :: t in next ==> Stage(current) < Stage(t)
    ensures current == Draft ==> forall t :: t in next <==> t == RegistrationOpen || t == Cancelled
    ensures current == RegistrationOpen ==>
      forall t :: t in next <==> t == RegistrationClosed || t == InProgress || t == Cancelled
    ensures current == RegistrationClosed ==> forall t :: t in next <==> t == InProgress || t == Cancelled
    ensures current == InProgress ==> forall t :: t in next <==> t == Completed || t == Cancelled
  {
    match current
    case Draft => [RegistrationOpen, Cancelled]
    case RegistrationOpen => [RegistrationClosed, InProgress, Cancelled]
    case RegistrationClosed => [InProgress, Cancelled]
    case InProgress => [Completed, Cancelled]
    case Completed => []
    case Cancelled => []
  }

  /** The check `allowed.includes(newStatus)`. */
  predicate CanMove(from: TournamentStatus, to: TournamentStatus) {
    to in AllowedTransitions(from)
  }

  /** A sequence of statuses each reachable from the previous one by one
      allowed move. */
  predicate IsPath(p: seq<TournamentStatus>) {
    forall i :: 0 <= i < |p| - 1 ==> CanMove(p[i], p[i + 1])
  }

  /** Along a path the stage rises by at least one per move. */
  lemma {:induction false} PathClimbs(p: seq<TournamentStatus>)
    requires |p| >= 1 && IsPath(p)
    ensures Stage(p[0]) + |p| - 1 <= Stage(p[|p| - 1])
  {
    if |p| > 1 {
      var q := p[..|p| - 1];
      assert IsPath(q) by {
        forall i | 0 <= i < |q| - 1
          ensures CanMove(q[i], q[i + 1])
        {
          assert q[i] == p[i] && q[i + 1] == p[i + 1];
        }
      }
      PathClimbs(q);
      assert CanMove(p[|p| - 2], p[|p| - 1]);
    }
  }

  /** The transition relation is acyclic: no path of one or more moves
      returns to where it started. */
  lemma NoCycle(p: seq<TournamentStatus>)
    requires |p| >= 2 && IsPath(p)
    ensures p[0] != p[|p| - 1]
  {
    PathClimbs(p);
  }

  /** No path has more than five moves, so every sequence of status
      changes stops, and where it stops no move is left: at COMPLETED or
      CANCELLED. */
  lemma PathsEnd(p: seq<TournamentStatus>)
    requires |p| >= 1 && IsPath(p)
    ensures |p| <= 6
    ensures AllowedTransitions(p[|p| - 1]) == [] ==> Terminal(p[|p| - 1])
  {
    PathClimbs(p);
  }

  /** From every status a terminal one is reachable, in at most one move. */
  lemma {:induction false} TerminalReachable(s: TournamentStatus) returns (p: seq<TournamentStatus>)
    ensures IsPath(p) && 1 <= |p| <= 2 && p[0] == s && Terminal(p[|p| - 1])
  {
    if Terminal(s) {
      p := [s];
    } else {
      p := [s, Cancelled];
      assert CanMove(p[0], p[1]);
    }
  }
}
