/** The fixtures page groups the organizer's fixtures by tournament, then
    by round, in nested insertion-ordered maps, and shows each
    tournament's rounds in ascending order. */
module FixtureGrouping {

  /** A listed fixture with its tournament; `id` stands for the fields the
      grouping only carries along. */
  datatype Listed = Listed(id: string, tournamentId: string, tournamentName: string, round: int)

  /** The fixtures of tournament `t` and round `r`, in list order. */
  function Bucket(fs: seq<Listed>, t: string, r: int): (b: seq<Listed>)
    ensures |b| <= |fs|
    ensures forall x :: x in b <==> x in fs && x.tournamentId == t && x.round == r
  {
    if fs == [] then []
    else
      var last := fs[|fs| - 1];
      assert fs == fs[..|fs| - 1] + [last];
      var init := Bucket(fs[..|fs| - 1], t, r);
      if last.tournamentId == t && last.round == r then init + [last] else init
  }

  /** Bucketing a concatenation concatenates the buckets: within a bucket,
      fixtures keep the order they had in the list. */
  lemma {:induction false} BucketAppend(fs1: seq<Listed>, fs2: seq<Listed>, t: string, r: int)
    ensures Bucket(fs1 + fs2, t, r) == Bucket(fs1, t, r) + Bucket(fs2, t, r)
  {
    if fs2 == [] {
      assert fs1 + fs2 == fs1;
    } else {
      var init := fs2[..|fs2| - 1];
      BucketAppend(fs1, init, t, r);
      assert (fs1 + fs2)[..|fs1 + fs2| - 1] == fs1 + init;
    }
  }

  /** The tournament ids of the list, each once, in order of first
      occurrence: the key order of the outer map. */
  function TournamentOrder(fs: seq<Listed>): (order: seq<string>)
    ensures forall t :: t in order <==> exists i :: 0 <= i < |fs| && fs[i].tournamentId == t
    ensures forall i, j :: 0 <= i < |order| && 0 <= j < |order| && order[i] == order[j] ==> i == j
  {
    if fs == [] then []
    else
      var init := fs[..|fs| - 1];
      var prev := TournamentOrder(init);
      var t := fs[|fs| - 1].tournamentId;
      assert forall i :: 0 <= i < |init| ==> init[i] == fs[i];
      if t in prev then prev else prev + [t]
  }

  /** The rounds of tournament `t`, each once, in order of first
      occurrence: the key order of its inner map. */
  function RoundOrder(fs: seq<Listed>, t: string): (order: seq<int>)
    ensures forall r :: r in order <==> exists i :: 0 <= i < |fs| && fs[i].tournamentId == t && fs[i].round == r
    ensures forall i, j :: 0 <= i < |order| && 0 <= j < |order| && order[i] == order[j] ==> i == j
  {
    if fs == [] then []
    else
      var init := fs[..|fs| - 1];
      var prev := RoundOrder(init, t);
      var last := fs[|fs| - 1];
      assert forall i :: 0 <= i < |init| ==> init[i] == fs[i];
      if last.tournamentId != t || last.round in prev then prev else prev + [last.round]
  }

  /** Groups seen earlier keep their place when more fixtures follow: the
      order of groups is the order of first occurrence. */
  lemma {:induction false} TournamentOrderPrefix(fs1: seq<Listed>, fs2: seq<Listed>)
    ensures TournamentOrder(fs1) <= TournamentOrder(fs1 + fs2)
  {
    if fs2 != [] {
      var init := fs2[..|fs2| - 1];
      TournamentOrderPrefix(fs1, init);
      assert (fs1 + fs2)[..|fs1 + fs2| - 1] == fs1 + init;
    } else {
      assert fs1 + fs2 == fs1;
    }
  }

  /** The name the group of tournament `t` is shown under: that of its
      first fixture, which created the group. */
  function FirstName(fs: seq<Listed>, t: string): (name: string)
    ensures (exists i :: 0 <= i < |fs| && fs[i].tournamentId == t) ==>
      exists i :: 0 <= i < |fs| && fs[i].tournamentId == t && fs[i].tournamentName == name
        && forall j :: 0 <= j < i ==> fs[j].tournamentId != t
  {
    if fs == [] then ""
    else
      var init := fs[..|fs| - 1];
      assert forall i :: 0 <= i < |init| ==> init[i] == fs[i];
      if t in TournamentOrder(init) then FirstName(init, t)
      else if fs[|fs| - 1].tournamentId == t then fs[|fs| - 1].tournamentName
      else ""
  }

  /** A tournament's entry of the outer map: the tournament and the inner
      map from round to fixtures, with the inner map's key order. */
  datatype Group = Group(tournamentId: string, tournamentName: string, roundOrder: seq<int>, rounds: map<int, seq<Listed>>)

  /** `g` is the group the loop builds for tournament `t` from `fs`. */
  ghost predicate GroupOf(fs: seq<Listed>, t: string, g: Group) {
    && g.tournamentId == t
    && g.tournamentName == FirstName(fs, t)
    && g.roundOrder == RoundOrder(fs, t)
    && (forall r :: r in g.rounds <==> r in g.roundOrder)
    && (forall r :: r in g.rounds ==> g.rounds[r] == Bucket(fs, t, r))
  }

  /** One more fixture: a new tournament id is appended to the order. */
  lemma SnocOrder(fs: seq<Listed>, f: Listed)
    ensures TournamentOrder(fs + [f]) ==
      if f.tournamentId in TournamentOrder(fs) then TournamentOrder(fs) else TournamentOrder(fs) + [f.tournamentId]
  {
    assert (fs + [f])[..|fs|] == fs;
  }

  /** One more fixture: only its own tournament can gain a round, and only
      a tournament seen for the first time takes the fixture's name. */
  lemma SnocGroup(fs: seq<Listed>, f: Listed, t: string)
    ensures FirstName(fs + [f], t) ==
      if t == f.tournamentId && t !in TournamentOrder(fs) then f.tournamentName else FirstName(fs, t)
    ensures RoundOrder(fs + [f], t) ==
      if t == f.tournamentId && f.round !in RoundOrder(fs, t) then RoundOrder(fs, t) + [f.round] else RoundOrder(fs, t)
  {
    assert (fs + [f])[..|fs|] == fs;
  }

  /** One more fixture: it is appended to its own bucket only. */
  lemma SnocBucket(fs: seq<Listed>, f: Listed, t: string, r: int)
    ensures Bucket(fs + [f], t, r) ==
      if t == f.tournamentId && r == f.round then Bucket(fs, t, r) + [f] else Bucket(fs, t, r)
  {
    assert (fs + [f])[..|fs|] == fs;
  }

  /** A tournament without fixtures has no rounds and empty buckets. */
  lemma Absent(fs: seq<Listed>, t: string)
    requires t !in TournamentOrder(fs)
    ensures RoundOrder(fs, t) == []
    ensures forall r :: Bucket(fs, t, r) == []
  {
    forall r
      ensures Bucket(fs, t, r) == []
    {
      if Bucket(fs, t, r) != [] {
        assert Bucket(fs, t, r)[0] in Bucket(fs, t, r);
      }
    }
  }

  /** A round not yet seen in a tournament has an empty bucket. */
  lemma NoRound(fs: seq<Listed>, t: string, r: int)
    requires r !in RoundOrder(fs, t)
    ensures Bucket(fs, t, r) == []
  {
    if Bucket(fs, t, r) != [] {
      assert Bucket(fs, t, r)[0] in Bucket(fs, t, r);
    }
  }

  /** The group of the fixture's tournament after the fixture is placed:
      its round is added to the key order if new, and the fixture is
      appended to that round's list. */
  lemma PlaceStep(fs: seq<Listed>, f: Listed, g0: Group, g: Group)
    requires f.tournamentId in TournamentOrder(fs) ==> GroupOf(fs, f.tournamentId, g0)
    requires f.tournamentId !in TournamentOrder(fs) ==> g0 == Group(f.tournamentId, f.tournamentName, [], map[])
    requires g.tournamentId == g0.tournamentId && g.tournamentName == g0.tournamentName
    requires g.roundOrder == if f.round in g0.rounds then g0.roundOrder else g0.roundOrder + [f.round]
    requires g.rounds == g0.rounds[f.round := (if f.round in g0.rounds then g0.rounds[f.round] else []) + [f]]
    ensures GroupOf(fs + [f], f.tournamentId, g)
  {
    var t := f.tournamentId;
    assert g0.roundOrder == RoundOrder(fs, t) by {
      if t !in TournamentOrder(fs) {
        Absent(fs, t);
      }
    }
    assert g.tournamentName == FirstName(fs + [f], t) && g.roundOrder == RoundOrder(fs + [f], t) by {
      SnocGroup(fs, f, t);
    }
    assert forall r :: r in g.rounds ==> g.rounds[r] == Bucket(fs + [f], t, r) by {
      if t !in TournamentOrder(fs) {
        Absent(fs, t);
      }
      BucketsStep(fs, f, g0.rounds, g.rounds);
    }
    assert forall r :: r in g.rounds <==> r in g.roundOrder by {
      KeysStep(g0.roundOrder, g0.rounds, f.round, g.rounds[f.round]);
    }
  }

  /** Setting a key of the inner map, and appending it to the key order
      when new, keeps the two in step. */
  lemma KeysStep(order0: seq<int>, rounds0: map<int, seq<Listed>>, k: int, v: seq<Listed>)
    requires forall r :: r in rounds0 <==> r in order0
    ensures k in rounds0 ==> forall r :: r in rounds0[k := v] <==> r in order0
    ensures k !in rounds0 ==> forall r :: r in rounds0[k := v] <==> r in order0 + [k]
  {
  }

  /** The inner map after the push holds the buckets of the longer list. */
  lemma BucketsStep(fs: seq<Listed>, f: Listed, rounds0: map<int, seq<Listed>>, rounds: map<int, seq<Listed>>)
    requires forall r :: r in rounds0 <==> r in RoundOrder(fs, f.tournamentId)
    requires forall r :: r in rounds0 ==> rounds0[r] == Bucket(fs, f.tournamentId, r)
    requires rounds == rounds0[f.round := (if f.round in rounds0 then rounds0[f.round] else []) + [f]]
    ensures forall r :: r in rounds ==> rounds[r] == Bucket(fs + [f], f.tournamentId, r)
  {
    var t := f.tournamentId;
    forall r | r in rounds
      ensures rounds[r] == Bucket(fs + [f], t, r)
    {
      SnocBucket(fs, f, t, r);
      if r == f.round && f.round !in rounds0 {
        NoRound(fs, t, r);
      }
    }
  }

  /** The groups of other tournaments are unaffected by the fixture. */
  lemma OtherStep(fs: seq<Listed>, f: Listed, t: string, g: Group)
    requires t != f.tournamentId && GroupOf(fs, t, g)
    ensures GroupOf(fs + [f], t, g)
  {
    SnocGroup(fs, f, t);
    forall r | r in g.rounds
      ensures g.rounds[r] == Bucket(fs + [f], t, r)
    {
      SnocBucket(fs, f, t, r);
    }
  }

  /** A second update of the same key replaces the first. */
  lemma Overwrite(m: map<int, seq<Listed>>, k: int, a: seq<Listed>, b: seq<Listed>)
    ensures m[k := a][k := b] == m[k := b]
  {
  }

  /** `order` and `grouped` are what the loop has built from `fs`. */
  ghost predicate Grouping(fs: seq<Listed>, order: seq<string>, grouped: map<string, Group>) {
    && order == TournamentOrder(fs)
    && (forall t :: t in grouped <==> t in order)
    && (forall t :: t in grouped ==> GroupOf(fs, t, grouped[t]))
  }

  /** The grouping loop. The outer keys are the tournaments in order of
      first occurrence; each group holds, per round of that tournament,
      exactly the fixtures of that tournament and round in list order. */
  method GroupFixtures(fixtures: seq<Listed>) returns (order: seq<string>, grouped: map<string, Group>)
    ensures order == TournamentOrder(fixtures)
    ensures forall t :: t in grouped <==> t in order
    ensures forall t :: t in grouped ==> GroupOf(fixtures, t, grouped[t])
  {
    order := [];
    grouped := map[];
    for i := 0 to |fixtures|
      invariant Grouping(fixtures[..i], order, grouped)
    {
      assert fixtures[..i + 1] == fixtures[..i] + [fixtures[i]];
      order, grouped := Place(fixtures[..i], fixtures[i], order, grouped);
    }
    assert fixtures[..|fixtures|] == fixtures;
  }

  /** One pass of the loop body: `get`/`set` on the outer map, then on the
      inner map, then `push`. */
  method Place(ghost fs: seq<Listed>, f: Listed, order0: seq<string>, grouped0: map<string, Group>)
    returns (order: seq<string>, grouped: map<string, Group>)
    requires Grouping(fs, order0, grouped0)
    ensures Grouping(fs + [f], order, grouped)
  {
    order, grouped := order0, grouped0;
    SnocOrder(fs, f);
    if f.tournamentId !in grouped {
      order := order + [f.tournamentId];
      grouped := grouped[f.tournamentId := Group(f.tournamentId, f.tournamentName, [], map[])];
    }
    var g := AddToGroup(fs, f, grouped[f.tournamentId]);
    grouped := grouped[f.tournamentId := g];
    forall t | t in grouped && t != f.tournamentId
      ensures GroupOf(fs + [f], t, grouped[t])
    {
      OtherStep(fs, f, t, grouped0[t]);
    }
  }

  /** The inner half of the loop body: the round's bucket is created if
      missing, then the fixture is pushed onto it. */
  method AddToGroup(ghost fs: seq<Listed>, f: Listed, g0: Group) returns (g: Group)
    requires f.tournamentId in TournamentOrder(fs) ==> GroupOf(fs, f.tournamentId, g0)
    requires f.tournamentId !in TournamentOrder(fs) ==> g0 == Group(f.tournamentId, f.tournamentName, [], map[])
    ensures GroupOf(fs + [f], f.tournamentId, g)
  {
    g := g0;
    if f.round !in g.rounds {
      g := g.(roundOrder := g.roundOrder + [f.round], rounds := g.rounds[f.round := []]);
      Overwrite(g0.rounds, f.round, [], [] + [f]);
    }
    g := g.(rounds := g.rounds[f.round := g.rounds[f.round] + [f]]);
    PlaceStep(fs, f, g0, g);
  }

  // ------------------------------------------------------------ counting

  /** The number of fixtures in the buckets of tournament `t` for the
      rounds `rs`. */
  function RoundsTotal(fs: seq<Listed>, t: string, rs: seq<int>): nat {
    if rs == [] then 0
    else RoundsTotal(fs, t, rs[..|rs| - 1]) + |Bucket(fs, t, rs[|rs| - 1])|
  }

  /** The number of fixtures in all buckets of the tournaments `ts`. */
  function GroupsTotal(fs: seq<Listed>, ts: seq<string>): nat {
    if ts == [] then 0
    else
      var t := ts[|ts| - 1];
      GroupsTotal(fs, ts[..|ts| - 1]) + RoundsTotal(fs, t, RoundOrder(fs, t))
  }

  /** A new fixture adds one to the total of the rounds holding its bucket. */
  lemma {:induction false} RoundsTotalSnoc(fs: seq<Listed>, f: Listed, t: string, rs: seq<int>)
    requires forall i, j :: 0 <= i < |rs| && 0 <= j < |rs| && rs[i] == rs[j] ==> i == j
    ensures RoundsTotal(fs + [f], t, rs)
      == RoundsTotal(fs, t, rs) + (if t == f.tournamentId && f.round in rs then 1 else 0)
  {
    if rs != [] {
      var init := rs[..|rs| - 1];
      assert forall i :: 0 <= i < |init| ==> init[i] == rs[i];
      RoundsTotalSnoc(fs, f, t, init);
      SnocBucket(fs, f, t, rs[|rs| - 1]);
      assert f.round in rs <==> f.round in init || f.round == rs[|rs| - 1];
    }
  }

  /** A new fixture adds one to the total of its own tournament's rounds. */
  lemma RoundsOfGroupSnoc(fs: seq<Listed>, f: Listed, t: string)
    ensures RoundsTotal(fs + [f], t, RoundOrder(fs + [f], t))
      == RoundsTotal(fs, t, RoundOrder(fs, t)) + (if t == f.tournamentId then 1 else 0)
  {
    var rs := RoundOrder(fs, t);
    SnocGroup(fs, f, t);
    RoundsTotalSnoc(fs, f, t, rs);
    if t == f.tournamentId && f.round !in rs {
      var rs' := rs + [f.round];
      assert rs'[..|rs'| - 1] == rs;
      SnocBucket(fs, f, t, f.round);
      NoRound(fs, t, f.round);
      assert RoundsTotal(fs + [f], t, rs') == RoundsTotal(fs + [f], t, rs) + 1;
    }
  }

  /** A new fixture adds one to the total of the groups holding it. */
  lemma {:induction false} GroupsTotalSnoc(fs: seq<Listed>, f: Listed, ts: seq<string>)
    requires forall i, j :: 0 <= i < |ts| && 0 <= j < |ts| && ts[i] == ts[j] ==> i == j
    ensures GroupsTotal(fs + [f], ts) == GroupsTotal(fs, ts) + (if f.tournamentId in ts then 1 else 0)
  {
    if ts != [] {
      var init := ts[..|ts| - 1];
      var t := ts[|ts| - 1];
      assert forall i :: 0 <= i < |init| ==> init[i] == ts[i];
      GroupsTotalSnoc(fs, f, init);
      RoundsOfGroupSnoc(fs, f, t);
      assert f.tournamentId in ts <==> f.tournamentId in init || f.tournamentId == t;
    }
  }

  /** Every fixture lands in exactly one bucket: the buckets of all
      groups hold as many fixtures as the list. */
  lemma {:induction false} BucketsCoverList(fs: seq<Listed>)
    ensures GroupsTotal(fs, TournamentOrder(fs)) == |fs|
  {
    if fs != [] {
      var init := fs[..|fs| - 1];
      var f := fs[|fs| - 1];
      assert fs == init + [f];
      BucketsCoverList(init);
      SnocOrder(init, f);
      var ts := TournamentOrder(init);
      GroupsTotalSnoc(init, f, ts);
      if f.tournamentId !in ts {
        var t := f.tournamentId;
        var ts' := ts + [t];
        assert ts'[..|ts'| - 1] == ts;
        assert GroupsTotal(fs, ts') == GroupsTotal(fs, ts) + RoundsTotal(fs, t, RoundOrder(fs, t));
        NewGroupTotal(init, f);
      }
    }
  }

  /** The fixture of a tournament seen for the first time is its only one. */
  lemma NewGroupTotal(fs: seq<Listed>, f: Listed)
    requires f.tournamentId !in TournamentOrder(fs)
    ensures RoundsTotal(fs + [f], f.tournamentId, RoundOrder(fs + [f], f.tournamentId)) == 1
  {
    var t := f.tournamentId;
    Absent(fs, t);
    SnocGroup(fs, f, t);
    assert RoundOrder(fs + [f], t) == [f.round];
    SnocBucket(fs, f, t, f.round);
    assert Bucket(fs + [f], t, f.round) == [f];
    var one := [f.round];
    assert one[..0] == [];
  }

  // ------------------------------------------------------------- display

  /** Inserts `x` before the first larger element. */
  function InsertRound(x: int, s: seq<int>): (r: seq<int>)
    ensures |r| == |s| + 1
    ensures forall y :: y in r <==> y == x || y in s
    ensures (forall i :: 0 <= i < |s| - 1 ==> s[i] < s[i + 1]) && x !in s ==>
      forall i :: 0 <= i < |r| - 1 ==> r[i] < r[i + 1]
  {
    if s == [] || x <= s[0] then [x] + s
    else [s[0]] + InsertRound(x, s[1..])
  }

  /** `sort(([a], [b]) => a - b)` on distinct round numbers. */
  function SortRounds(s: seq<int>): (r: seq<int>)
    ensures |r| == |s|
    ensures forall y :: y in r <==> y in s
    ensures (forall i, j :: 0 <= i < |s| && 0 <= j < |s| && s[i] == s[j] ==> i == j) ==>
      forall i :: 0 <= i < |r| - 1 ==> r[i] < r[i + 1]
  {
    if s == [] then []
    else
      assert forall i :: 0 <= i < |s| - 1 ==> s[1..][i] == s[i + 1];
      InsertRound(s[0], SortRounds(s[1..]))
  }

  /** A strictly increasing sequence increases between any two positions. */
  lemma {:induction false} Increasing(s: seq<int>, i: int, j: int)
    requires forall k :: 0 <= k < |s| - 1 ==> s[k] < s[k + 1]
    requires 0 <= i < j < |s|
    ensures s[i] < s[j]
    decreases j - i
  {
    if j > i + 1 {
      Increasing(s, i + 1, j);
    }
  }

  /** Distinct rounds, once sorted, ascend strictly between any two
      positions. */
  lemma SortedAscending(s: seq<int>)
    requires forall i, j :: 0 <= i < |s| && 0 <= j < |s| && s[i] == s[j] ==> i == j
    ensures forall i, j :: 0 <= i < j < |SortRounds(s)| ==> SortRounds(s)[i] < SortRounds(s)[j]
  {
    var r := SortRounds(s);
    forall i, j | 0 <= i < j < |r|
      ensures r[i] < r[j]
    {
      Increasing(r, i, j);
    }
  }

  /** The round cards of a group: its rounds sorted, each with that
      round's fixtures. */
  function RoundSections(g: Group): (sections: seq<(int, seq<Listed>)>)
    requires forall r :: r in g.roundOrder ==> r in g.rounds
    ensures |sections| == |g.roundOrder|
    ensures forall i :: 0 <= i < |sections| ==> sections[i].0 in g.rounds && sections[i].1 == g.rounds[sections[i].0]
  {
    var rs := SortRounds(g.roundOrder);
    SortedKnown(g.roundOrder, rs, g.rounds);
    Cards(rs, g.rounds)
  }

  /** Every round of a reordering of `order` has fixtures when every
      round of `order` does. */
  lemma SortedKnown(order: seq<int>, rs: seq<int>, rounds: map<int, seq<Listed>>)
    requires forall r :: r in order ==> r in rounds
    requires forall y :: y in rs <==> y in order
    ensures forall i :: 0 <= i < |rs| ==> rs[i] in rounds
  {
    forall i | 0 <= i < |rs|
      ensures rs[i] in rounds
    {
      var y := rs[i];
      assert y in rs;
      assert y in order;
    }
  }

  /** A group whose rounds are distinct shows one card per round, in
      ascending round order. */
  lemma RoundSectionsSorted(g: Group)
    requires forall r :: r in g.roundOrder ==> r in g.rounds
    requires forall i, j :: (0 <= i < |g.roundOrder| && 0 <= j < |g.roundOrder|
      && g.roundOrder[i] == g.roundOrder[j]) ==> i == j
    ensures forall r :: r in g.roundOrder <==> exists i :: 0 <= i < |RoundSections(g)| && RoundSections(g)[i].0 == r
    ensures forall i, j :: 0 <= i < j < |RoundSections(g)| ==> RoundSections(g)[i].0 < RoundSections(g)[j].0
  {
    var rs := SortRounds(g.roundOrder);
    var sections := RoundSections(g);
    assert sections == Cards(rs, g.rounds);
    SortedAscending(g.roundOrder);
    forall r | r in g.roundOrder
      ensures exists i :: 0 <= i < |sections| && sections[i].0 == r
    {
      assert r in rs;
      var i :| 0 <= i < |rs| && rs[i] == r;
      assert sections[i].0 == r;
    }
    forall r | exists i :: 0 <= i < |sections| && sections[i].0 == r
      ensures r in g.roundOrder
    {
      var i :| 0 <= i < |sections| && sections[i].0 == r;
      assert rs[i] in rs;
    }
  }

  /** Each round of `rs` paired with its fixtures. */
  function Cards(rs: seq<int>, rounds: map<int, seq<Listed>>): (cards: seq<(int, seq<Listed>)>)
    requires forall i :: 0 <= i < |rs| ==> rs[i] in rounds
    ensures |cards| == |rs|
    ensures forall i :: 0 <= i < |rs| ==> cards[i] == (rs[i], rounds[rs[i]])
  {
    seq(|rs|, i requires 0 <= i < |rs| => (rs[i], rounds[rs[i]]))
  }
}
