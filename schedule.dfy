/** The record both fixture generators emit: a home side, an away side, a
    1-based round and a 1-based match number within the round. */
module Schedule {

  datatype Pairing = Pairing(homeTeamId: string, awayTeamId: string, round: int, matchNumber: int)

  /** The fixture is a match between `a` and `b`, in either orientation. */
  predicate Meets(f: Pairing, a: string, b: string) {
    (f.homeTeamId == a && f.awayTeamId == b) || (f.homeTeamId == b && f.awayTeamId == a)
  }

  /** Team `t` takes part in fixture `f`. */
  predicate Involves(f: Pairing, t: string) {
    f.homeTeamId == t || f.awayTeamId == t
  }

  /** `s[i]`, under a name of its own so that the quantifier in `Distinct`
      is only instantiated where a proof asks for it (`DistinctAt`). */
  function At<T>(s: seq<T>, i: int): T
    requires 0 <= i < |s|
  {
    s[i]
  }

  /** No two positions of `s` hold the same value. */
  predicate Distinct<T(==)>(s: seq<T>) {
    forall a, b :: 0 <= a < |s| && 0 <= b < |s| && At(s, a) == At(s, b) ==> a == b
  }

  lemma DistinctAt<T>(s: seq<T>, a: int, b: int)
    requires Distinct(s) && 0 <= a < |s| && 0 <= b < |s| && s[a] == s[b]
    ensures a == b
  {
    assert At(s, a) == At(s, b);
  }

  /** Appending a value the sequence does not hold keeps it free of
      repetitions. */
  lemma DistinctAppend<T>(s: seq<T>, x: T)
    requires Distinct(s) && x !in s
    ensures Distinct(s + [x])
  {
    var t := s + [x];
    assert forall a :: 0 <= a < |s| ==> t[a] == s[a] && s[a] != x;
    forall a, b | 0 <= a < |t| && 0 <= b < |t| && At(t, a) == At(t, b)
      ensures a == b
    {
      if a < |s| && b < |s| {
        DistinctAt(s, a, b);
      }
    }
  }
}
