/** Round-robin scheduling by the circle method
    (`generateRoundRobin` in src/app/dashboard/fixtures/actions.ts).

    The working list is the team list, plus one bye placeholder when the
    count is odd, so its length `n` is even. For each of the `n - 1`
    rounds, position `i` is paired with position `n - 1 - i`, pairings
    that involve the bye are dropped, and the match number restarts at 1.
    Between rounds the last element is moved to position 1, so position 0
    never moves. */
module RoundRobin {
  import opened Schedule

  /** The bye placeholder. A team whose id equals it would be treated as a
      bye; the properties below assume no team has this id. */
  const BYE: string := "__bye__"

  /** The team list padded to even length. */
  function Working(teamIds: seq<string>): (list: seq<string>)
    ensures |list| % 2 == 0
    ensures |teamIds| <= |list| <= |teamIds| + 1 && list[..|teamIds|] == teamIds
  {
    if |teamIds| % 2 == 0 then teamIds else teamIds + [BYE]
  }

  // ------------------------------------------------------------------
  // The circle rotation

  /** One circle rotation: remove the last element and insert it at
      position 1. Position 0 stays put. */
  function Rotate(list: seq<string>): (r: seq<string>)
    requires |list| >= 2
    ensures |r| == |list|
  {
    var last := list[|list| - 1];
    var rest := list[..|list| - 1];
    rest[..1] + [last] + rest[1..]
  }

  lemma RotateAt(list: seq<string>, p: nat)
    requires 2 <= |list| && p < |list|
    ensures Rotate(list)[p] == if p == 0 then list[0] else if p == 1 then list[|list| - 1] else list[p - 1]
  {
  }

  /** A rotation only rearranges the list. */
  lemma RotatePermutes(list: seq<string>)
    requires |list| >= 2
    ensures multiset(Rotate(list)) == multiset(list)
  {
    var last := list[|list| - 1];
    var rest := list[..|list| - 1];
    assert list == rest + [last];
    assert rest == rest[..1] + rest[1..];
  }

  /** `z` reduced into `[0, m)` when it lies in `[-m, m)`. */
  function Wrap(z: int, m: int): int {
    if z < 0 then z + m else z
  }

  /** The index into the initial list of the entry at position `p` in round
      `r`, for a list of length `m + 1`: position 0 never moves and the
      others turn through the `m` remaining seats, one step per round. */
  function Seat(r: nat, p: nat, m: nat): int {
    if p == 0 then 0 else 1 + Wrap(p - 1 - r, m)
  }

  /** The working list at the start of round `r + 1`, in closed form. */
  function Rotated(w: seq<string>, r: nat): (l: seq<string>)
    requires |w| >= 2 && r <= |w| - 1
    ensures |l| == |w|
  {
    seq(|w|, p requires 0 <= p < |w| => w[Seat(r, p, |w| - 1)])
  }

  /** The entry at position `p` of round `r + 1` is the initial list's
      entry at seat `Seat(r, p, |w| - 1)`. */
  lemma RotatedAt(w: seq<string>, r: nat, p: nat)
    requires |w| >= 2 && r <= |w| - 1 && p < |w|
    ensures 0 <= Seat(r, p, |w| - 1) < |w| && Rotated(w, r)[p] == w[Seat(r, p, |w| - 1)]
  {
  }

  /** The first round uses the working list as it is. */
  lemma RotatedStart(w: seq<string>)
    requires |w| >= 2
    ensures Rotated(w, 0) == w
  {
    assert forall p :: 0 <= p < |w| ==> Rotated(w, 0)[p] == w[p];
  }

  /** One circle rotation takes the list of one round to that of the next. */
  lemma RotateStep(w: seq<string>, r: nat)
    requires |w| >= 2 && r < |w| - 1
    ensures Rotate(Rotated(w, r)) == Rotated(w, r + 1)
  {
    var list := Rotated(w, r);
    forall p | 0 <= p < |w|
      ensures Rotate(list)[p] == Rotated(w, r + 1)[p]
    {
      RotateAt(list, p);
    }
  }

  /** Every round's list holds the same entries as the initial one. */
  lemma RotatedHas(w: seq<string>, r: nat, x: string)
    requires |w| >= 2 && r <= |w| - 1
    ensures x in Rotated(w, r) <==> x in w
  {
    var list, m := Rotated(w, r), |w| - 1;
    if x in w {
      var q :| 0 <= q < |w| && w[q] == x;
      var p := if q == 0 then 0 else if q - 1 + r < m then q + r else q + r - m;
      assert list[p] == x;
    }
    if x in list {
      var p :| 0 <= p < |list| && list[p] == x;
      assert w[Seat(r, p, m)] == x;
    }
  }

  /** Every round's list of distinct entries has distinct entries. */
  lemma RotatedDistinct(w: seq<string>, r: nat)
    requires |w| >= 2 && r <= |w| - 1 && Distinct(w)
    ensures Distinct(Rotated(w, r))
  {
    var list := Rotated(w, r);
    forall a, b | 0 <= a < |list| && 0 <= b < |list| && At(list, a) == At(list, b)
      ensures a == b
    {
      DistinctAt(w, Seat(r, a, |w| - 1), Seat(r, b, |w| - 1));
    }
  }

  // ------------------------------------------------------------------
  // The schedule

  /** The fixtures of one round from the first `i` pairings of `list`:
      position `j` against position `|list| - 1 - j`, byes skipped, match
      numbers counting up from 1. */
  function RoundFrom(list: seq<string>, round: int, i: nat): (fs: seq<Pairing>)
    requires 2 * i <= |list|
  {
    if i == 0 then []
    else
      var prev := RoundFrom(list, round, i - 1);
      var home := list[i - 1];
      var away := list[|list| - i];
      if home != BYE && away != BYE then prev + [Pairing(home, away, round, |prev| + 1)] else prev
  }

  /** All the fixtures of one round. */
  function Round(list: seq<string>, round: int): seq<Pairing> {
    RoundFrom(list, round, |list| / 2)
  }

  /** The rounds' fixtures one after the other. */
  function Concat(rounds: seq<seq<Pairing>>): seq<Pairing> {
    if |rounds| == 0 then []
    else Concat(rounds[..|rounds| - 1]) + rounds[|rounds| - 1]
  }

  /** The fixtures of rounds `1..R`, round `r + 1` paired over the working
      list rotated `r` times. */
  function RoundLists(w: seq<string>, R: nat): (rounds: seq<seq<Pairing>>)
    requires |w| >= 2 && R <= |w| - 1
    ensures |rounds| == R
  {
    seq(R, r requires 0 <= r < R => Round(Rotated(w, r), r + 1))
  }

  lemma RoundListsAt(w: seq<string>, R: nat, r: nat)
    requires |w| >= 2 && R <= |w| - 1 && r < R
    ensures RoundLists(w, R)[r] == Round(Rotated(w, r), r + 1)
  {
  }

  /** What `generateRoundRobin` returns: `n - 1` rounds over the working
      list (none when there are no teams). */
  function RoundRobinSchedule(teamIds: seq<string>): seq<Pairing> {
    var w := Working(teamIds);
    if |w| < 2 then [] else Concat(RoundLists(w, |w| - 1))
  }

  /** `generateRoundRobin`: the outer loop over rounds, rotating the
      working list in place after each round. */
  method GenerateRoundRobin(teamIds: seq<string>) returns (fixtures: seq<Pairing>)
    ensures fixtures == RoundRobinSchedule(teamIds)
  {
    var list := if |teamIds| % 2 == 0 then teamIds else teamIds + [BYE];
    ghost var w := Working(teamIds);
    assert list == w;
    var n := |list|;
    var numRounds := n - 1;
    fixtures := [];
    var round := 0;
    if n >= 2 {
      RotatedStart(w);
    }
    while round < numRounds
      invariant n == |w|
      invariant 0 <= round && (n >= 2 ==> round <= numRounds)
      invariant n >= 2 ==> list == Rotated(w, round) && fixtures == Concat(RoundLists(w, round))
      invariant n < 2 ==> fixtures == []
    {
      RotateStep(w, round);
      RoundListsStep(w, round);
      fixtures := PushRound(fixtures, list, round + 1);
      list := CircleStep(list);
      round := round + 1;
    }
  }

  /** One more round appends that round's fixtures. */
  lemma RoundListsStep(w: seq<string>, round: nat)
    requires |w| >= 2 && round < |w| - 1
    ensures Concat(RoundLists(w, round + 1)) == Concat(RoundLists(w, round)) + Round(Rotated(w, round), round + 1)
  {
    assert RoundLists(w, round + 1)[..round] == RoundLists(w, round);
  }

  /** One circle rotation done the way the loop does it: pop the last
      element and splice it back in at position 1. */
  method CircleStep(list: seq<string>) returns (rotated: seq<string>)
    requires |list| >= 2
    ensures rotated == Rotate(list)
  {
    var last := list[|list| - 1];
    rotated := list[..|list| - 1];
    rotated := rotated[..1] + [last] + rotated[1..];
  }

  /** The inner loop of `generateRoundRobin`: pair position `i` with
      position `n - 1 - i`, push the pairing unless it involves the bye,
      and bump the match number, which starts at 1 in every round. */
  method PushRound(fixtures: seq<Pairing>, list: seq<string>, round: int) returns (out: seq<Pairing>)
    ensures out == fixtures + Round(list, round)
  {
    var n := |list|;
    out := fixtures;
    var matchNumber := 1;
    var i := 0;
    while i < n / 2
      invariant i <= n / 2
      invariant matchNumber == |RoundFrom(list, round, i)| + 1
      invariant out == fixtures + RoundFrom(list, round, i)
    {
      var home := list[i];
      var away := list[n - 1 - i];
      if home != BYE && away != BYE {
        out := out + [Pairing(home, away, round, matchNumber)];
        matchNumber := matchNumber + 1;
      }
      i := i + 1;
    }
  }

  // ------------------------------------------------------------------
  // One round

  /** The fixture at index `k` of the first `i` pairings comes from
      position `j`: `list[j]` at home against `list[|list| - 1 - j]`,
      neither of them the bye, with the round number and match number
      `k + 1`; exactly `k` fixtures come from the positions before `j`. */
  lemma {:induction false} RoundFromAt(list: seq<string>, round: int, i: nat, k: nat) returns (j: nat)
    requires 2 * i <= |list| && k < |RoundFrom(list, round, i)|
    ensures j < i && |RoundFrom(list, round, j)| == k
    ensures RoundFrom(list, round, i)[k] == Pairing(list[j], list[|list| - 1 - j], round, k + 1)
    ensures list[j] != BYE && list[|list| - 1 - j] != BYE
  {
    var prev := RoundFrom(list, round, i - 1);
    if k < |prev| {
      j := RoundFromAt(list, round, i - 1, k);
      assert RoundFrom(list, round, i)[k] == prev[k];
    } else {
      j := i - 1;
    }
  }

  /** Fixture `i` of a round pits the entries at mirrored positions `j`
      and `|list| - 1 - j` against each other, neither of them the bye, as
      match `i + 1`. */
  lemma RoundAt(list: seq<string>, round: int, i: nat) returns (j: nat)
    requires i < |Round(list, round)|
    ensures 2 * j < |list| - 1
    ensures Round(list, round)[i] == Pairing(list[j], list[|list| - 1 - j], round, i + 1)
    ensures list[j] != BYE && list[|list| - 1 - j] != BYE
  {
    j := RoundFromAt(list, round, |list| / 2, i);
  }

  /** Every pairing of two real teams in the first `i` positions is emitted. */
  lemma {:induction false} RoundFromContains(list: seq<string>, round: int, i: nat, j: nat) returns (k: nat)
    requires 2 * i <= |list| && j < i
    requires list[j] != BYE && list[|list| - 1 - j] != BYE
    ensures k < |RoundFrom(list, round, i)|
    ensures RoundFrom(list, round, i)[k].homeTeamId == list[j]
    ensures RoundFrom(list, round, i)[k].awayTeamId == list[|list| - 1 - j]
  {
    var prev := RoundFrom(list, round, i - 1);
    if j < i - 1 {
      k := RoundFromContains(list, round, i - 1, j);
      assert RoundFrom(list, round, i)[k] == prev[k];
    } else {
      k := |prev|;
    }
  }

  /** With distinct entries, no fixture of a round pits a team against
      itself and two different fixtures of a round share no team. */
  lemma RoundDisjointAt(list: seq<string>, round: int, k1: nat, k2: nat)
    requires Distinct(list) && k1 < |Round(list, round)| && k2 < |Round(list, round)|
    ensures Round(list, round)[k1].homeTeamId != Round(list, round)[k1].awayTeamId
    ensures k1 != k2 ==>
      !Involves(Round(list, round)[k2], Round(list, round)[k1].homeTeamId) &&
      !Involves(Round(list, round)[k2], Round(list, round)[k1].awayTeamId)
  {
    var n := |list|;
    var j1 := RoundFromAt(list, round, n / 2, k1);
    var j2 := RoundFromAt(list, round, n / 2, k2);
    if list[j1] == list[n - 1 - j1] { DistinctAt(list, j1, n - 1 - j1); }
    if k1 != k2 {
      if list[j2] == list[j1] { DistinctAt(list, j2, j1); }
      if list[j2] == list[n - 1 - j1] { DistinctAt(list, j2, n - 1 - j1); }
      if list[n - 1 - j2] == list[j1] { DistinctAt(list, n - 1 - j2, j1); }
      if list[n - 1 - j2] == list[n - 1 - j1] { DistinctAt(list, n - 1 - j2, n - 1 - j1); }
    }
  }

  /** How many of the first `i` mirrored position pairs involve the bye. */
  function ByeSlots(list: seq<string>, i: nat): nat
    requires 2 * i <= |list|
  {
    if i == 0 then 0
    else ByeSlots(list, i - 1) + (if list[i - 1] == BYE || list[|list| - i] == BYE then 1 else 0)
  }

  /** Every position pair not involving the bye yields one fixture. */
  lemma {:induction false} RoundFromCount(list: seq<string>, round: int, i: nat)
    requires 2 * i <= |list|
    ensures |RoundFrom(list, round, i)| + ByeSlots(list, i) == i
  {
    if i > 0 {
      RoundFromCount(list, round, i - 1);
    }
  }

  /** With no bye in the list, no position pair involves it. */
  lemma {:induction false} ByeSlotsNone(list: seq<string>, i: nat)
    requires 2 * i <= |list| && BYE !in list
    ensures ByeSlots(list, i) == 0
  {
    if i > 0 {
      ByeSlotsNone(list, i - 1);
    }
  }

  /** With the bye once, at position `q`, exactly the pair holding `q` involves it. */
  lemma {:induction false} ByeSlotsOne(list: seq<string>, i: nat, q: nat)
    requires 2 * i <= |list| && Distinct(list) && q < |list| && list[q] == BYE
    ensures ByeSlots(list, i) == if q < i || |list| - 1 - q < i then 1 else 0
  {
    if i > 0 {
      ByeSlotsOne(list, i - 1, q);
      if list[i - 1] == BYE { DistinctAt(list, i - 1, q); }
      if list[|list| - i] == BYE { DistinctAt(list, |list| - i, q); }
    }
  }

  /** A round of a list of `n` distinct entries has `n / 2` fixtures, one
      fewer when the bye is among them. */
  lemma RoundCount(list: seq<string>, round: int)
    requires Distinct(list) && |list| % 2 == 0
    ensures |Round(list, round)| == |list| / 2 - (if BYE in list then 1 else 0)
  {
    RoundFromCount(list, round, |list| / 2);
    if BYE in list {
      var q :| 0 <= q < |list| && list[q] == BYE;
      ByeSlotsOne(list, |list| / 2, q);
    } else {
      ByeSlotsNone(list, |list| / 2);
    }
  }

  /** Each fixture of a round carries that round's number and its place
      in the round, counting from 1. */
  lemma RoundNumbered(list: seq<string>, round: int)
    ensures forall i :: 0 <= i < |Round(list, round)| ==>
      Round(list, round)[i].round == round && Round(list, round)[i].matchNumber == i + 1
  {
    forall i | 0 <= i < |Round(list, round)|
      ensures Round(list, round)[i].round == round && Round(list, round)[i].matchNumber == i + 1
    {
      var j := RoundAt(list, round, i);
    }
  }

  // ------------------------------------------------------------------
  // Rounds one after the other

  /** Round `r + 1`'s fixtures carry the round number `r + 1` and match
      numbers counting from 1. */
  ghost predicate Numbered(rounds: seq<seq<Pairing>>) {
    forall r, i :: 0 <= r < |rounds| && 0 <= i < |rounds[r]| ==>
      rounds[r][i].round == r + 1 && rounds[r][i].matchNumber == i + 1
  }

  /** The fixture at index `k` is fixture `i` of round `r + 1`, right
      after the fixtures of the rounds before it. */
  lemma {:induction false} ConcatOf(rounds: seq<seq<Pairing>>, k: nat) returns (r: nat, i: nat)
    requires k < |Concat(rounds)|
    ensures r < |rounds| && i < |rounds[r]| && k == |Concat(rounds[..r])| + i
    ensures Concat(rounds)[k] == rounds[r][i]
  {
    var R := |rounds|;
    var P := Concat(rounds[..R - 1]);
    if k < |P| {
      r, i := ConcatOf(rounds[..R - 1], k);
      assert rounds[..R - 1][..r] == rounds[..r];
      assert Concat(rounds)[k] == P[k];
    } else {
      r, i := R - 1, k - |P|;
    }
  }

  /** Conversely, fixture `i` of round `r + 1` sits right after the
      fixtures of the rounds before it. */
  lemma {:induction false} ConcatAt(rounds: seq<seq<Pairing>>, r: nat, i: nat)
    requires r < |rounds| && i < |rounds[r]|
    ensures |Concat(rounds[..r])| + i < |Concat(rounds)|
    ensures Concat(rounds)[|Concat(rounds[..r])| + i] == rounds[r][i]
  {
    var R := |rounds|;
    if r < R - 1 {
      ConcatAt(rounds[..R - 1], r, i);
      assert rounds[..R - 1][..r] == rounds[..r];
    } else {
      assert rounds[..R - 1] == rounds[..r];
    }
  }

  /** More rounds never mean fewer fixtures. */
  lemma {:induction false} ConcatGrow(rounds: seq<seq<Pairing>>, a: nat, b: nat)
    requires b <= |rounds|
    ensures a <= b ==> |Concat(rounds[..a])| <= |Concat(rounds[..b])|
  {
    if a < b {
      ConcatGrow(rounds, a, b - 1);
      assert rounds[..b][..b - 1] == rounds[..b - 1];
    }
  }

  /** The fixtures of the first `r + 1` rounds are those of the first `r`
      and then those of round `r + 1`. */
  lemma ConcatPrefixStep(rounds: seq<seq<Pairing>>, r: nat)
    requires r < |rounds|
    ensures |Concat(rounds[..r + 1])| == |Concat(rounds[..r])| + |rounds[r]|
  {
    assert rounds[..r + 1][..r] == rounds[..r];
  }

  /** With numbered rounds, the fixture at index `k` belongs to the round
      `r + 1` whose fixtures occupy the indexes from `|Concat(rounds[..r])|`
      up to `|Concat(rounds[..r + 1])|`, and its match number is its place
      there, counting from 1. */
  lemma ConcatNumberAt(rounds: seq<seq<Pairing>>, k: nat) returns (r: nat)
    requires Numbered(rounds) && k < |Concat(rounds)|
    ensures r < |rounds| && |Concat(rounds[..r])| <= k < |Concat(rounds[..r + 1])|
    ensures Concat(rounds)[k].round == r + 1
    ensures Concat(rounds)[k].matchNumber == k - |Concat(rounds[..r])| + 1
  {
    var i;
    r, i := ConcatOf(rounds, k);
    ConcatPrefixStep(rounds, r);
  }

  /** With numbered rounds, round numbers never go down. */
  lemma ConcatOrderAt(rounds: seq<seq<Pairing>>, k1: nat, k2: nat)
    requires Numbered(rounds) && k1 <= k2 < |Concat(rounds)|
    ensures Concat(rounds)[k1].round <= Concat(rounds)[k2].round
  {
    var r1 := ConcatNumberAt(rounds, k1);
    var r2 := ConcatNumberAt(rounds, k2);
    ConcatGrow(rounds, r2 + 1, r1);
  }

  /** With numbered rounds, the match number is 1 for the first fixture of
      a round and one more than the previous fixture's within a round. */
  lemma ConcatMatchNumberAt(rounds: seq<seq<Pairing>>, k: nat)
    requires Numbered(rounds) && k < |Concat(rounds)|
    ensures Concat(rounds)[k].matchNumber ==
      if k > 0 && Concat(rounds)[k - 1].round == Concat(rounds)[k].round
      then Concat(rounds)[k - 1].matchNumber + 1 else 1
  {
    var r := ConcatNumberAt(rounds, k);
    if k > 0 {
      var r' := ConcatNumberAt(rounds, k - 1);
      ConcatGrow(rounds, r' + 1, r);
      ConcatGrow(rounds, r + 1, r');
    }
  }

  /** Rounds of `x` fixtures each add up to `|rounds| * x` fixtures. */
  lemma {:induction false} ConcatCount(rounds: seq<seq<Pairing>>, x: int)
    requires forall r :: 0 <= r < |rounds| ==> |rounds[r]| == x
    ensures |Concat(rounds)| == |rounds| * x
  {
    if |rounds| > 0 {
      var R := |rounds|;
      ConcatCount(rounds[..R - 1], x);
      MulStep(R, x);
    }
  }

  lemma MulStep(R: int, x: int)
    ensures (R - 1) * x + x == R * x
  {
  }

  // ------------------------------------------------------------------
  // Where each team sits

  /** The same two seats are never paired in two different rounds: with
      `m` odd, the seats paired at position `j` in round `r` determine `r`. */
  lemma MeetingRoundUnique(m: nat, r1: nat, j1: nat, r2: nat, j2: nat, a1: int, b1: int, a2: int, b2: int)
    requires m % 2 == 1 && r1 < m && r2 < m && 2 * j1 < m && 2 * j2 < m
    requires a1 == Seat(r1, j1, m) && b1 == Seat(r1, m - j1, m)
    requires a2 == Seat(r2, j2, m) && b2 == Seat(r2, m - j2, m)
    requires (a1 == a2 && b1 == b2) || (a1 == b2 && b1 == a2)
    ensures r1 == r2
  {
  }

  /** Any two different seats are paired in some round. */
  lemma MeetingExists(m: nat, a: nat, b: nat) returns (r: nat, j: nat)
    requires m % 2 == 1 && a <= m && b <= m && a != b
    ensures r < m && 2 * j < m
    ensures (Seat(r, j, m) == a && Seat(r, m - j, m) == b) ||
            (Seat(r, j, m) == b && Seat(r, m - j, m) == a)
  {
    if a == 0 {
      r, j := m - b, 0;
    } else if b == 0 {
      r, j := m - a, 0;
    } else {
      r := OppositeRound(m, a - 1, b - 1);
      var px := 1 + (if a - 1 + r < m then a - 1 + r else a - 1 + r - m);
      var py := 1 + (if b - 1 + r < m then b - 1 + r else b - 1 + r - m);
      j := if px < py then px else py;
    }
  }

  /** The round in which the seats `x + 1` and `y + 1` sit at positions
      adding up to `m`, that is, facing each other. */
  lemma OppositeRound(m: nat, x: nat, y: nat) returns (r: nat)
    requires m % 2 == 1 && x < m && y < m && x != y
    ensures r < m
    ensures (if x + r < m then x + r else x + r - m) + (if y + r < m then y + r else y + r - m) == m - 2
  {
    var t := x + y + 2;
    r := if t % 2 == 0 then m - t / 2 else if t <= m then (m - t) / 2 else (3 * m - t) / 2;
  }

  /** The two seats paired at mirrored positions in one round are never
      paired in another round. */
  lemma SeatPairsDiffer(m: nat, r1: nat, j1: nat, r2: nat, j2: nat, a1: int, b1: int, a2: int, b2: int)
    requires m % 2 == 1 && r1 < m && r2 < m && r1 != r2 && 2 * j1 < m && 2 * j2 < m
    requires a1 == Seat(r1, j1, m) && b1 == Seat(r1, m - j1, m)
    requires a2 == Seat(r2, j2, m) && b2 == Seat(r2, m - j2, m)
    ensures !(a1 == a2 && b1 == b2) && !(a1 == b2 && b1 == a2)
  {
    if (a1 == a2 && b1 == b2) || (a1 == b2 && b1 == a2) {
      MeetingRoundUnique(m, r1, j1, r2, j2, a1, b1, a2, b2);
    }
  }

  /** With distinct entries, the two teams paired at mirrored positions
      in one round are never paired again in another round. */
  lemma PairsDifferAcrossRounds(w: seq<string>, r1: nat, j1: nat, r2: nat, j2: nat)
    requires |w| >= 2 && |w| % 2 == 0 && Distinct(w)
    requires r1 < |w| - 1 && r2 < |w| - 1 && r1 != r2 && 2 * j1 < |w| && 2 * j2 < |w|
    ensures !Meets(Pairing(Rotated(w, r2)[j2], Rotated(w, r2)[|w| - 1 - j2], 0, 0),
                   Rotated(w, r1)[j1], Rotated(w, r1)[|w| - 1 - j1])
  {
    OddCount(|w|, j1);
    OddCount(|w|, j2);
    var a1, b1 := PairSeats(w, r1, j1);
    var a2, b2 := PairSeats(w, r2, j2);
    SeatPairsDiffer(|w| - 1, r1, j1, r2, j2, a1, b1, a2, b2);
    DistinctPairs(w, a1, b1, a2, b2);
  }

  /** The seats of the working list that play each other at position `j`
      of round `r + 1`. */
  lemma PairSeats(w: seq<string>, r: nat, j: nat) returns (a: nat, b: nat)
    requires |w| >= 2 && r <= |w| - 1 && 2 * j < |w|
    ensures a == Seat(r, j, |w| - 1) && b == Seat(r, |w| - 1 - j, |w| - 1)
    ensures a < |w| && b < |w|
    ensures Rotated(w, r)[j] == w[a] && Rotated(w, r)[|w| - 1 - j] == w[b]
  {
    RotatedAt(w, r, j);
    RotatedAt(w, r, |w| - 1 - j);
    a, b := Seat(r, j, |w| - 1), Seat(r, |w| - 1 - j, |w| - 1);
  }

  /** An even length less one is odd, and a position in the first half
      of the list lies in the first half of the rounds' range too. */
  lemma OddCount(n: int, j: int)
    requires n >= 2 && n % 2 == 0 && 2 * j < n
    ensures (n - 1) % 2 == 1 && 2 * j < n - 1
  {
  }

  /** Distinct entries at two different pairs of positions make two
      different pairings. */
  lemma DistinctPairs(w: seq<string>, a1: int, b1: int, a2: int, b2: int)
    requires Distinct(w) && 0 <= a1 < |w| && 0 <= b1 < |w| && 0 <= a2 < |w| && 0 <= b2 < |w|
    requires !(a1 == a2 && b1 == b2) && !(a1 == b2 && b1 == a2)
    ensures !Meets(Pairing(w[a2], w[b2], 0, 0), w[a1], w[b1])
  {
    if w[a1] == w[a2] { DistinctAt(w, a1, a2); }
    if w[b1] == w[b2] { DistinctAt(w, b1, b2); }
    if w[a1] == w[b2] { DistinctAt(w, a1, b2); }
    if w[b1] == w[a2] { DistinctAt(w, b1, a2); }
  }

  /** Any two different entries of the list sit at mirrored positions in
      some round. */
  lemma EveryPairSeated(w: seq<string>, A: nat, B: nat) returns (r: nat, j: nat)
    requires |w| >= 2 && |w| % 2 == 0 && A < |w| && B < |w| && A != B
    ensures r < |w| - 1 && 2 * j < |w|
    ensures (Rotated(w, r)[j] == w[A] && Rotated(w, r)[|w| - 1 - j] == w[B]) ||
            (Rotated(w, r)[j] == w[B] && Rotated(w, r)[|w| - 1 - j] == w[A])
  {
    r, j := MeetingExists(|w| - 1, A, B);
  }

  // ------------------------------------------------------------------
  // Properties of the generated schedule

  /** The working list of distinct team ids is distinct, holds the bye
      exactly when the team count is odd, and holds nothing else. */
  lemma WorkingDistinct(teamIds: seq<string>)
    requires Distinct(teamIds) && BYE !in teamIds
    ensures Distinct(Working(teamIds))
    ensures BYE in Working(teamIds) <==> |teamIds| % 2 == 1
    ensures forall t :: t in Working(teamIds) && t != BYE ==> t in teamIds
  {
    var w := Working(teamIds);
    var c := |teamIds|;
    if c % 2 == 1 {
      assert w == teamIds + [BYE] && w[c] == BYE;
    }
    forall a, b | 0 <= a < |w| && 0 <= b < |w| && At(w, a) == At(w, b)
      ensures a == b
    {
      if a < c && b < c {
        DistinctAt(teamIds, a, b);
      }
    }
  }

  /** In any round, the two entries at mirrored positions are different
      entries of the list, and the first entry is never on the away side. */
  lemma MirroredSides(w: seq<string>, r: nat, j: nat)
    requires |w| >= 2 && |w| % 2 == 0 && Distinct(w) && r < |w| - 1 && 2 * j < |w|
    ensures Rotated(w, r)[j] in w && Rotated(w, r)[|w| - 1 - j] in w
    ensures Rotated(w, r)[j] != Rotated(w, r)[|w| - 1 - j]
    ensures Rotated(w, r)[|w| - 1 - j] != w[0]
  {
    var m := |w| - 1;
    assert m % 2 == 1 && 2 * j < m;
    var h, a := Seat(r, j, m), Seat(r, m - j, m);
    assert a != 0 && h != a;
    if w[a] == w[0] {
      DistinctAt(w, a, 0);
    }
    if w[h] == w[a] {
      DistinctAt(w, h, a);
    }
  }

  /** The fixture at index `k` of the first `R` rounds is match `i + 1` of
      round `r + 1`, between the entries at mirrored positions `j` and
      `|w| - 1 - j` of the list rotated `r` times, neither of them the bye. */
  lemma ScheduleFixtureAt(w: seq<string>, R: nat, k: nat) returns (r: nat, i: nat, j: nat)
    requires |w| >= 2 && |w| % 2 == 0 && R <= |w| - 1 && k < |Concat(RoundLists(w, R))|
    ensures r < R && 2 * j < |w| && i < |Round(Rotated(w, r), r + 1)|
    ensures k == |Concat(RoundLists(w, R)[..r])| + i
    ensures Concat(RoundLists(w, R))[k] == Round(Rotated(w, r), r + 1)[i]
    ensures Concat(RoundLists(w, R))[k] == Pairing(Rotated(w, r)[j], Rotated(w, r)[|w| - 1 - j], r + 1, i + 1)
    ensures Rotated(w, r)[j] != BYE && Rotated(w, r)[|w| - 1 - j] != BYE
  {
    var rounds := RoundLists(w, R);
    r, i := ConcatOf(rounds, k);
    RoundListsAt(w, R, r);
    j := RoundAt(Rotated(w, r), r + 1, i);
  }

  /** Both sides of the fixture at index `k` are different entries of the
      list, neither the bye, the round lies in `1..R`, and the first entry
      is never the away side. */
  lemma FixtureSides(w: seq<string>, R: nat, k: nat)
    requires |w| >= 2 && |w| % 2 == 0 && Distinct(w) && R <= |w| - 1 && k < |Concat(RoundLists(w, R))|
    ensures Concat(RoundLists(w, R))[k].homeTeamId in w && Concat(RoundLists(w, R))[k].awayTeamId in w
    ensures Concat(RoundLists(w, R))[k].homeTeamId != Concat(RoundLists(w, R))[k].awayTeamId
    ensures Concat(RoundLists(w, R))[k].homeTeamId != BYE && Concat(RoundLists(w, R))[k].awayTeamId != BYE
    ensures 1 <= Concat(RoundLists(w, R))[k].round <= R
    ensures Concat(RoundLists(w, R))[k].awayTeamId != w[0]
  {
    var r, i, j := ScheduleFixtureAt(w, R, k);
    MirroredSides(w, r, j);
  }

  /** With distinct entries and at most `|w| - 1` rounds, a later fixture
      never pairs the two teams of an earlier one again, and two fixtures
      of the same round share no team. */
  lemma SchedulePairOnceAt(w: seq<string>, R: nat, k1: nat, k2: nat)
    requires |w| >= 2 && |w| % 2 == 0 && Distinct(w) && R <= |w| - 1
    requires k1 < k2 < |Concat(RoundLists(w, R))|
    ensures !Meets(Concat(RoundLists(w, R))[k2], Concat(RoundLists(w, R))[k1].homeTeamId, Concat(RoundLists(w, R))[k1].awayTeamId)
    ensures Concat(RoundLists(w, R))[k1].round == Concat(RoundLists(w, R))[k2].round ==>
      !Involves(Concat(RoundLists(w, R))[k2], Concat(RoundLists(w, R))[k1].homeTeamId) &&
      !Involves(Concat(RoundLists(w, R))[k2], Concat(RoundLists(w, R))[k1].awayTeamId)
  {
    var r1, i1, j1 := ScheduleFixtureAt(w, R, k1);
    var r2, i2, j2 := ScheduleFixtureAt(w, R, k2);
    if r1 == r2 {
      RotatedDistinct(w, r1);
      RoundDisjointAt(Rotated(w, r1), r1 + 1, i1, i2);
    } else {
      PairsDifferAcrossRounds(w, r1, j1, r2, j2);
    }
  }

  /** Every fixture is between two different teams of the list, in a round
      from 1 to the number of rounds, and the first team never plays away. */
  lemma RoundRobinFixturesWellFormed(teamIds: seq<string>)
    requires Distinct(teamIds) && BYE !in teamIds
    ensures forall k :: 0 <= k < |RoundRobinSchedule(teamIds)| ==>
      var f := RoundRobinSchedule(teamIds)[k];
      && f.homeTeamId in teamIds && f.awayTeamId in teamIds && f.homeTeamId != f.awayTeamId
      && 1 <= f.round <= |Working(teamIds)| - 1
      && f.awayTeamId != teamIds[0]
  {
    forall k | 0 <= k < |RoundRobinSchedule(teamIds)|
      ensures var f := RoundRobinSchedule(teamIds)[k];
        && f.homeTeamId in teamIds && f.awayTeamId in teamIds && f.homeTeamId != f.awayTeamId
        && 1 <= f.round <= |Working(teamIds)| - 1
        && f.awayTeamId != teamIds[0]
    {
      RoundRobinFixtureAt(teamIds, k);
    }
  }

  /** `RoundRobinFixturesWellFormed` for the fixture at index `k`. */
  lemma RoundRobinFixtureAt(teamIds: seq<string>, k: nat)
    requires Distinct(teamIds) && BYE !in teamIds && k < |RoundRobinSchedule(teamIds)|
    ensures var f := RoundRobinSchedule(teamIds)[k];
      && f.homeTeamId in teamIds && f.awayTeamId in teamIds && f.homeTeamId != f.awayTeamId
      && 1 <= f.round <= |Working(teamIds)| - 1
      && f.awayTeamId != teamIds[0]
  {
    var w := Working(teamIds);
    WorkingDistinct(teamIds);
    assert RoundRobinSchedule(teamIds) == Concat(RoundLists(w, |w| - 1));
    FixtureSides(w, |w| - 1, k);
    assert w[0] == teamIds[0];
  }

  /** The rounds of the working list are numbered. */
  lemma RoundListsNumbered(w: seq<string>, R: nat)
    requires |w| >= 2 && R <= |w| - 1
    ensures Numbered(RoundLists(w, R))
  {
    var rounds := RoundLists(w, R);
    forall r, i | 0 <= r < |rounds| && 0 <= i < |rounds[r]|
      ensures rounds[r][i] == Round(Rotated(w, r), r + 1)[i]
      ensures rounds[r][i].round == r + 1 && rounds[r][i].matchNumber == i + 1
    {
      RoundNumbered(Rotated(w, r), r + 1);
    }
  }

  /** Rounds come out in ascending order, and match numbers restart at 1
      in each round and count up within it. */
  lemma RoundRobinOrder(teamIds: seq<string>)
    ensures forall k1, k2 :: 0 <= k1 <= k2 < |RoundRobinSchedule(teamIds)| ==>
      RoundRobinSchedule(teamIds)[k1].round <= RoundRobinSchedule(teamIds)[k2].round
    ensures forall k :: 0 <= k < |RoundRobinSchedule(teamIds)| ==>
      RoundRobinSchedule(teamIds)[k].matchNumber ==
        if k > 0 && RoundRobinSchedule(teamIds)[k - 1].round == RoundRobinSchedule(teamIds)[k].round
        then RoundRobinSchedule(teamIds)[k - 1].matchNumber + 1 else 1
  {
    var w := Working(teamIds);
    if |w| >= 2 {
      var rounds := RoundLists(w, |w| - 1);
      RoundListsNumbered(w, |w| - 1);
      var s := Concat(rounds);
      assert RoundRobinSchedule(teamIds) == s;
      forall k1, k2 | 0 <= k1 <= k2 < |s|
        ensures s[k1].round <= s[k2].round
      {
        ConcatOrderAt(rounds, k1, k2);
      }
      forall k | 0 <= k < |s|
        ensures s[k].matchNumber == if k > 0 && s[k - 1].round == s[k].round then s[k - 1].matchNumber + 1 else 1
      {
        ConcatMatchNumberAt(rounds, k);
      }
    }
  }

  /** No team plays twice in one round. */
  lemma RoundRobinOncePerRound(teamIds: seq<string>)
    requires Distinct(teamIds) && BYE !in teamIds
    ensures forall k1, k2 ::
      (0 <= k1 < k2 < |RoundRobinSchedule(teamIds)| &&
       RoundRobinSchedule(teamIds)[k1].round == RoundRobinSchedule(teamIds)[k2].round) ==>
      !Involves(RoundRobinSchedule(teamIds)[k2], RoundRobinSchedule(teamIds)[k1].homeTeamId) &&
      !Involves(RoundRobinSchedule(teamIds)[k2], RoundRobinSchedule(teamIds)[k1].awayTeamId)
  {
    var w := Working(teamIds);
    WorkingDistinct(teamIds);
    if |w| >= 2 {
      var s := Concat(RoundLists(w, |w| - 1));
      assert RoundRobinSchedule(teamIds) == s;
      forall k1, k2 | 0 <= k1 < k2 < |s| && s[k1].round == s[k2].round
        ensures !Involves(s[k2], s[k1].homeTeamId) && !Involves(s[k2], s[k1].awayTeamId)
      {
        SchedulePairOnceAt(w, |w| - 1, k1, k2);
      }
    }
  }

  /** Any two different non-bye entries of the list meet in the full
      schedule over it. */
  lemma ScheduleContainsPair(w: seq<string>, A: nat, B: nat) returns (k: nat)
    requires |w| >= 2 && |w| % 2 == 0 && A < |w| && B < |w| && A != B
    requires w[A] != BYE && w[B] != BYE
    ensures k < |Concat(RoundLists(w, |w| - 1))| && Meets(Concat(RoundLists(w, |w| - 1))[k], w[A], w[B])
  {
    var rounds := RoundLists(w, |w| - 1);
    var r, i := RoundWithPair(w, A, B);
    RoundListsAt(w, |w| - 1, r);
    k := ConcatMeets(rounds, r, i, w[A], w[B]);
  }

  /** A fixture between `a` and `b` in one round is one in the
      concatenation of the rounds. */
  lemma ConcatMeets(rounds: seq<seq<Pairing>>, r: nat, i: nat, a: string, b: string) returns (k: nat)
    requires r < |rounds| && i < |rounds[r]| && Meets(rounds[r][i], a, b)
    ensures k < |Concat(rounds)| && Meets(Concat(rounds)[k], a, b)
  {
    ConcatAt(rounds, r, i);
    k := |Concat(rounds[..r])| + i;
  }

  /** Any two different non-bye entries of the list meet in one of the
      `|w| - 1` rounds. */
  lemma RoundWithPair(w: seq<string>, A: nat, B: nat) returns (r: nat, i: nat)
    requires |w| >= 2 && |w| % 2 == 0 && A < |w| && B < |w| && A != B
    requires w[A] != BYE && w[B] != BYE
    ensures r < |w| - 1 && i < |Round(Rotated(w, r), r + 1)|
    ensures Meets(Round(Rotated(w, r), r + 1)[i], w[A], w[B])
  {
    var j;
    r, j := EveryPairSeated(w, A, B);
    i := RoundFromContains(Rotated(w, r), r + 1, |w| / 2, j);
  }

  /** Two different teams meet in some fixture. */
  lemma RoundRobinPairMeets(teamIds: seq<string>, a: string, b: string) returns (k: nat)
    requires BYE !in teamIds
    requires a in teamIds && b in teamIds && a != b
    ensures k < |RoundRobinSchedule(teamIds)| && Meets(RoundRobinSchedule(teamIds)[k], a, b)
  {
    var w := Working(teamIds);
    var A :| 0 <= A < |teamIds| && teamIds[A] == a;
    var B :| 0 <= B < |teamIds| && teamIds[B] == b;
    assert w[A] == a && w[B] == b;
    k := ScheduleContainsPair(w, A, B);
    assert RoundRobinSchedule(teamIds) == Concat(RoundLists(w, |w| - 1));
  }

  /** No two fixtures pair the same two teams. */
  lemma RoundRobinNoRematch(teamIds: seq<string>)
    requires Distinct(teamIds) && BYE !in teamIds
    ensures forall k1, k2 :: 0 <= k1 < k2 < |RoundRobinSchedule(teamIds)| ==>
      !Meets(RoundRobinSchedule(teamIds)[k2], RoundRobinSchedule(teamIds)[k1].homeTeamId, RoundRobinSchedule(teamIds)[k1].awayTeamId)
  {
    var w := Working(teamIds);
    WorkingDistinct(teamIds);
    if |w| >= 2 {
      var s := Concat(RoundLists(w, |w| - 1));
      assert RoundRobinSchedule(teamIds) == s;
      forall k1, k2 | 0 <= k1 < k2 < |s|
        ensures !Meets(s[k2], s[k1].homeTeamId, s[k1].awayTeamId)
      {
        SchedulePairOnceAt(w, |w| - 1, k1, k2);
      }
    }
  }

  /** Two teams meet in at most one fixture. */
  lemma RoundRobinPairAtMostOnce(teamIds: seq<string>, a: string, b: string)
    requires Distinct(teamIds) && BYE !in teamIds
    ensures forall k1, k2 ::
      (0 <= k1 < |RoundRobinSchedule(teamIds)| && 0 <= k2 < |RoundRobinSchedule(teamIds)| &&
       Meets(RoundRobinSchedule(teamIds)[k1], a, b) && Meets(RoundRobinSchedule(teamIds)[k2], a, b)) ==> k1 == k2
  {
    RoundRobinNoRematch(teamIds);
  }

  /** Two different teams meet in exactly one fixture. */
  lemma RoundRobinEveryPairOnce(teamIds: seq<string>, a: string, b: string)
    requires Distinct(teamIds) && BYE !in teamIds
    requires a in teamIds && b in teamIds && a != b
    ensures exists k :: (0 <= k < |RoundRobinSchedule(teamIds)| && Meets(RoundRobinSchedule(teamIds)[k], a, b) &&
      forall k' :: 0 <= k' < |RoundRobinSchedule(teamIds)| && Meets(RoundRobinSchedule(teamIds)[k'], a, b) ==> k' == k)
  {
    var k := RoundRobinPairMeets(teamIds, a, b);
    RoundRobinPairAtMostOnce(teamIds, a, b);
  }

  /** Every round of the working list has the same number of fixtures. */
  lemma RotatedRoundCount(w: seq<string>, r: nat, round: int)
    requires |w| >= 2 && |w| % 2 == 0 && Distinct(w) && r <= |w| - 1
    ensures |Round(Rotated(w, r), round)| == |w| / 2 - (if BYE in w then 1 else 0)
  {
    RotatedHas(w, r, BYE);
    RotatedDistinct(w, r);
    RoundCount(Rotated(w, r), round);
  }

  /** The number of unordered pairs of `c` teams. */
  function PairCount(c: nat): nat {
    c * (c - 1) / 2
  }

  /** `n` teams get `n * (n - 1) / 2` fixtures. */
  lemma RoundRobinCount(teamIds: seq<string>)
    requires Distinct(teamIds) && BYE !in teamIds
    ensures |RoundRobinSchedule(teamIds)| == PairCount(|teamIds|)
  {
    var w := Working(teamIds);
    var c := |teamIds|;
    if |w| >= 2 {
      var x, rounds := FixturesPerRound(teamIds);
      ConcatCount(rounds, x);
      RoundsTimesFixtures(c, |w| - 1, x);
    } else if c == 1 {
      assert PairCount(c) == 0;
    }
  }

  /** Every round of the working list holds the same number `x` of
      fixtures: half the working list, less one when it carries a bye. */
  lemma FixturesPerRound(teamIds: seq<string>) returns (x: int, rounds: seq<seq<Pairing>>)
    requires Distinct(teamIds) && BYE !in teamIds && |Working(teamIds)| >= 2
    ensures rounds == RoundLists(Working(teamIds), |Working(teamIds)| - 1)
    ensures forall r :: 0 <= r < |rounds| ==> |rounds[r]| == x
    ensures |teamIds| % 2 == 0 ==> 2 * x == |teamIds| && |Working(teamIds)| == |teamIds|
    ensures |teamIds| % 2 == 1 ==> 2 * x == |teamIds| - 1 && |Working(teamIds)| == |teamIds| + 1
  {
    var w := Working(teamIds);
    WorkingDistinct(teamIds);
    x := |w| / 2 - (if BYE in w then 1 else 0);
    rounds := RoundLists(w, |w| - 1);
    forall r | 0 <= r < |rounds|
      ensures |rounds[r]| == x
    {
      RotatedRoundCount(w, r, r + 1);
    }
    if |teamIds| % 2 == 1 {
      assert w[|teamIds|] == BYE;
    }
  }

  /** `c * (c - 1) / 2` as rounds times fixtures per round. */
  lemma RoundsTimesFixtures(c: nat, rounds: int, x: int)
    requires c % 2 == 0 ==> rounds == c - 1 && 2 * x == c
    requires c % 2 == 1 ==> rounds == c && 2 * x == c - 1
    ensures rounds * x == c * (c - 1) / 2
  {
    if c % 2 == 0 {
      assert c * (c - 1) == 2 * (x * (c - 1));
    } else {
      assert c * (c - 1) == 2 * (c * x);
    }
  }
}
