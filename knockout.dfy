/** Single-elimination first round (`generateKnockout` in
    src/app/dashboard/fixtures/actions.ts).

    The team list is padded with empty slots up to the bracket size, the
    smallest power of two not below the team count, and slot `i` is paired
    with slot `size - 1 - i`. A pairing is emitted only when both slots
    hold a truthy team id (not an empty slot, not the empty string); all
    fixtures are in round 1 and match numbers count up from 1. */
module Knockout {
  import opened Optional
  import opened Schedule

  // ------------------------------------------------------------------
  // The bracket size

  /** `x` is a power of two. */
  ghost predicate IsPow2(x: nat) {
    x == 1 || (x >= 2 && x % 2 == 0 && IsPow2(x / 2))
  }

  /** Doubling `p` until it reaches `c`. */
  function BracketSizeFrom(p: nat, c: nat): nat
    requires p >= 1
    decreases c - p
  {
    if p >= c then p else BracketSizeFrom(2 * p, c)
  }

  /** `2 ** ceil(log2(c))`: 0 for no teams, otherwise the smallest power
      of two that is at least `c`. */
  function BracketSize(c: nat): nat {
    if c == 0 then 0 else BracketSizeFrom(1, c)
  }

  lemma {:induction false} BracketSizeFromBounds(p: nat, c: nat)
    requires p >= 1 && IsPow2(p) && p < 2 * c
    ensures IsPow2(BracketSizeFrom(p, c)) && c <= BracketSizeFrom(p, c) < 2 * c
    decreases c - p
  {
    if p < c {
      assert IsPow2(2 * p) by {
        assert (2 * p) / 2 == p;
      }
      BracketSizeFromBounds(2 * p, c);
    }
  }

  /** The bracket size is a power of two, holds every team, and is less
      than twice the team count. */
  lemma BracketSizeBounds(c: nat)
    requires c >= 1
    ensures IsPow2(BracketSize(c)) && c <= BracketSize(c) < 2 * c
  {
    BracketSizeFromBounds(1, c);
  }

  /** Of two different powers of two, the larger is at least twice the
      smaller. */
  lemma {:induction false} Pow2Gap(a: nat, b: nat)
    requires IsPow2(a) && IsPow2(b) && a > b
    ensures a >= 2 * b
    decreases b
  {
    if b != 1 {
      Pow2Gap(a / 2, b / 2);
    }
  }

  /** No smaller power of two holds every team. */
  lemma BracketSizeSmallest(c: nat, p: nat)
    requires c >= 1 && IsPow2(p) && c <= p
    ensures BracketSize(c) <= p
  {
    BracketSizeBounds(c);
    if BracketSize(c) > p {
      Pow2Gap(BracketSize(c), p);
    }
  }

  // ------------------------------------------------------------------
  // The first round

  /** JavaScript truthiness of a padded slot: `null` and `""` are falsy. */
  predicate Truthy(slot: Option<string>) {
    slot.Some? && slot.value != ""
  }

  /** The team list followed by empty slots, `n` slots in all. */
  function Padded(teamIds: seq<string>, n: nat): (padded: seq<Option<string>>)
    requires |teamIds| <= n
    ensures |padded| == n
  {
    seq(n, k requires 0 <= k < n => if k < |teamIds| then Some(teamIds[k]) else None)
  }

  /** The fixtures from the first `i` slot pairings of `padded`. */
  function KnockoutFrom(padded: seq<Option<string>>, i: nat): (fs: seq<Pairing>)
    requires i <= (|padded| + 1) / 2
  {
    if i == 0 then []
    else
      var prev := KnockoutFrom(padded, i - 1);
      var home := padded[i - 1];
      var away := padded[|padded| - i];
      if Truthy(home) && Truthy(away) then prev + [Pairing(home.value, away.value, 1, |prev| + 1)] else prev
  }

  /** What `generateKnockout` returns. The pairing loop runs while
      `i < size / 2` in floating point, that is `(size + 1) / 2` times. */
  function KnockoutSchedule(teamIds: seq<string>): seq<Pairing> {
    var size := BracketSize(|teamIds|);
    BracketSizeOfTeams(teamIds);
    KnockoutFrom(Padded(teamIds, size), (size + 1) / 2)
  }

  lemma BracketSizeOfTeams(teamIds: seq<string>)
    ensures |teamIds| <= BracketSize(|teamIds|)
  {
    if |teamIds| > 0 {
      BracketSizeBounds(|teamIds|);
    }
  }

  /** `generateKnockout`: pad with empty slots, then pair the slots from
      both ends. */
  method GenerateKnockout(teamIds: seq<string>) returns (fixtures: seq<Pairing>)
    ensures fixtures == KnockoutSchedule(teamIds)
  {
    var size := BracketSize(|teamIds|);
    BracketSizeOfTeams(teamIds);
    var padded: seq<Option<string>> := seq(|teamIds|, k requires 0 <= k < |teamIds| => Some(teamIds[k]));
    while |padded| < size
      invariant |teamIds| <= |padded| <= size
      invariant padded == Padded(teamIds, |padded|)
    {
      padded := padded + [None];
    }
    fixtures := [];
    var matchNumber := 1;
    var i := 0;
    while 2 * i < size
      invariant i <= (size + 1) / 2
      invariant fixtures == KnockoutFrom(padded, i)
      invariant matchNumber == |fixtures| + 1
    {
      var home := padded[i];
      var away := padded[size - 1 - i];
      if Truthy(home) && Truthy(away) {
        fixtures := fixtures + [Pairing(home.value, away.value, 1, matchNumber)];
        matchNumber := matchNumber + 1;
      }
      i := i + 1;
    }
  }

  // ------------------------------------------------------------------
  // Properties

  /** No team id is the empty string. */
  predicate NonEmptyIds(teamIds: seq<string>) {
    forall k :: 0 <= k < |teamIds| ==> teamIds[k] != ""
  }

  /** The first `n` fixtures in closed form: fixture `j` pits the team at
      index `size - c + j` against the team at index `c - 1 - j`. */
  function Closed(teamIds: seq<string>, size: nat, n: nat): (fs: seq<Pairing>)
    requires |teamIds| <= size && n <= |teamIds| && size - |teamIds| + n <= |teamIds|
    ensures |fs| == n
  {
    var c := |teamIds|;
    seq(n, j requires 0 <= j < n => Pairing(teamIds[size - c + j], teamIds[c - 1 - j], 1, j + 1))
  }

  /** With non-empty ids, the first `i` slot pairings emit a fixture
      exactly for the slots past the first `size - c`, in closed form. */
  lemma {:induction false} KnockoutFromClosed(teamIds: seq<string>, size: nat, i: nat)
    requires NonEmptyIds(teamIds) && |teamIds| <= size < 2 * |teamIds|
    requires i <= (size + 1) / 2
    ensures KnockoutFrom(Padded(teamIds, size), i) ==
      Closed(teamIds, size, if i > size - |teamIds| then i - (size - |teamIds|) else 0)
  {
    var c := |teamIds|;
    if i > 0 {
      KnockoutFromClosed(teamIds, size, i - 1);
      var padded := Padded(teamIds, size);
      assert padded[i - 1] == Some(teamIds[i - 1]);
      if i > size - c {
        assert padded[size - i] == Some(teamIds[size - i]);
        var n := i - (size - c);
        assert Closed(teamIds, size, n) == Closed(teamIds, size, n - 1) + [Pairing(teamIds[size - c + n - 1], teamIds[c - n], 1, n)];
      } else {
        assert padded[size - i] == None;
      }
    }
  }

  /** With non-empty ids and at least one team, the schedule has
      `c - size / 2` fixtures, fixture `j` pitting the team at index
      `size - c + j` at home against the team at index `c - 1 - j`, all in
      round 1 with match number `j + 1`. */
  lemma KnockoutShape(teamIds: seq<string>)
    requires NonEmptyIds(teamIds) && |teamIds| >= 1
    ensures |teamIds| <= BracketSize(|teamIds|) < 2 * |teamIds|
    ensures |KnockoutSchedule(teamIds)| == |teamIds| - BracketSize(|teamIds|) / 2
    ensures forall j :: 0 <= j < |KnockoutSchedule(teamIds)| ==>
      KnockoutSchedule(teamIds)[j] ==
        Pairing(teamIds[BracketSize(|teamIds|) - |teamIds| + j], teamIds[|teamIds| - 1 - j], 1, j + 1)
  {
    var c, size := |teamIds|, BracketSize(|teamIds|);
    BracketSizeBounds(c);
    KnockoutFromClosed(teamIds, size, (size + 1) / 2);
  }

  /** Every knockout fixture is in round 1 and match numbers count 1, 2, ... */
  lemma {:induction false} KnockoutFromNumbered(padded: seq<Option<string>>, i: nat)
    requires i <= (|padded| + 1) / 2
    ensures forall j :: 0 <= j < |KnockoutFrom(padded, i)| ==>
      KnockoutFrom(padded, i)[j].round == 1 && KnockoutFrom(padded, i)[j].matchNumber == j + 1
  {
    if i > 0 {
      KnockoutFromNumbered(padded, i - 1);
    }
  }

  /** Every fixture is in round 1, numbered from 1 in order. */
  lemma KnockoutRoundOne(teamIds: seq<string>)
    ensures forall j :: 0 <= j < |KnockoutSchedule(teamIds)| ==>
      KnockoutSchedule(teamIds)[j].round == 1 && KnockoutSchedule(teamIds)[j].matchNumber == j + 1
  {
    var size := BracketSize(|teamIds|);
    BracketSizeOfTeams(teamIds);
    KnockoutFromNumbered(Padded(teamIds, size), (size + 1) / 2);
  }

  /** With at least two distinct non-empty ids, no team plays itself and
      no team appears in two first-round fixtures. */
  lemma KnockoutDisjoint(teamIds: seq<string>, j1: nat, j2: nat)
    requires NonEmptyIds(teamIds) && Distinct(teamIds) && |teamIds| >= 2
    requires j1 < |KnockoutSchedule(teamIds)| && j2 < |KnockoutSchedule(teamIds)|
    ensures KnockoutSchedule(teamIds)[j1].homeTeamId != KnockoutSchedule(teamIds)[j1].awayTeamId
    ensures j1 != j2 ==>
      !Involves(KnockoutSchedule(teamIds)[j2], KnockoutSchedule(teamIds)[j1].homeTeamId) &&
      !Involves(KnockoutSchedule(teamIds)[j2], KnockoutSchedule(teamIds)[j1].awayTeamId)
  {
    var c, size := |teamIds|, BracketSize(|teamIds|);
    KnockoutShape(teamIds);
    BracketSizeBounds(c);
    Pow2Even(size);
    var h1, a1 := size - c + j1, c - 1 - j1;
    var h2, a2 := size - c + j2, c - 1 - j2;
    if teamIds[h1] == teamIds[a1] { DistinctAt(teamIds, h1, a1); }
    if j1 != j2 {
      if teamIds[h2] == teamIds[h1] { DistinctAt(teamIds, h2, h1); }
      if teamIds[h2] == teamIds[a1] { DistinctAt(teamIds, h2, a1); }
      if teamIds[a2] == teamIds[h1] { DistinctAt(teamIds, a2, h1); }
      if teamIds[a2] == teamIds[a1] { DistinctAt(teamIds, a2, a1); }
    }
  }

  /** A power of two above 1 is even. */
  lemma Pow2Even(x: nat)
    requires IsPow2(x) && x >= 2
    ensures x % 2 == 0
  {
  }

  /** With distinct non-empty ids, the teams that draw a bye are exactly
      the first `size - c` teams of the list: a team plays in round 1 if
      and only if its index is at least `size - c`. */
  lemma KnockoutByes(teamIds: seq<string>, k: nat)
    requires NonEmptyIds(teamIds) && Distinct(teamIds) && k < |teamIds|
    ensures (exists j :: 0 <= j < |KnockoutSchedule(teamIds)| && Involves(KnockoutSchedule(teamIds)[j], teamIds[k]))
      <==> k >= BracketSize(|teamIds|) - |teamIds|
  {
    var c, size := |teamIds|, BracketSize(|teamIds|);
    var s := KnockoutSchedule(teamIds);
    KnockoutShape(teamIds);
    BracketSizeBounds(c);
    if k >= size - c {
      var j := if k < size / 2 then k - (size - c) else c - 1 - k;
      assert Involves(s[j], teamIds[k]);
    }
    if j :| 0 <= j < |s| && Involves(s[j], teamIds[k]) {
      if teamIds[k] == teamIds[size - c + j] {
        DistinctAt(teamIds, k, size - c + j);
      } else {
        DistinctAt(teamIds, k, c - 1 - j);
      }
    }
  }

  /** A single team is paired with itself: the one slot is both ends of
      the bracket. */
  lemma KnockoutSingleTeam(t: string)
    requires t != ""
    ensures KnockoutSchedule([t]) == [Pairing(t, t, 1, 1)]
  {
    assert BracketSize(1) == 1;
    var padded := Padded([t], 1);
    assert padded[0] == Some(t);
    assert KnockoutFrom(padded, 1) == KnockoutFrom(padded, 0) + [Pairing(t, t, 1, 1)];
  }

  /** Five teams pad to a bracket of eight: slots 0-2 face empty slots, so
      round 1 is the single match of the fourth team against the fifth. */
  lemma KnockoutFiveTeams(a: string, b: string, c: string, d: string, e: string)
    requires a != "" && b != "" && c != "" && d != "" && e != ""
    ensures KnockoutSchedule([a, b, c, d, e]) == [Pairing(d, e, 1, 1)]
  {
    var ids := [a, b, c, d, e];
    assert BracketSize(5) == 8;
    KnockoutShape(ids);
  }
}
