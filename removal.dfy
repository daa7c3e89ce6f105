/** Removing a mayor from every ballot: `removeIndex`, `removeCandidate`
    (social-choice-functions.py) and `Profile.removeMayor`
    (social_choice_functions.py).

    The source collects the shortened pairs into a set, so two pairs that
    become identical collapse into one and their voters are lost (its authors
    flag this as a bug). `RemoveCandidateAsWritten` keeps that behaviour and
    `AsWrittenLosesVoters` exhibits it; `RemoveCandidate` merges the voters of
    identical shortened ballots instead, keeps the number of voters and every
    net preference between the remaining mayors, and is what the elimination
    rules of the model use. */
module Removal {
  import opened Seqs
  import opened Ballots

  /** `removeIndex(aTuple, index)`: the ballot without its `i`-th entry. */
  function RemoveIndex(b: Ballot, i: nat): (r: Ballot)
    requires i < |b|
    ensures |r| == |b| - 1
    ensures forall k | 0 <= k < i :: r[k] == b[k]
    ensures forall k | i <= k < |r| :: r[k] == b[k + 1]
  {
    b[..i] + b[i + 1..]
  }

  /** `removeIndex(ballot, ballot.index(m))`; a ballot without `m` (where
      Python raises) is left as it is. */
  function Strike(b: Ballot, m: Mayor): Ballot {
    if m in b then RemoveIndex(b, Position(b, m)) else b
  }

  /** Striking `c` moves every mayor behind it one place forward and leaves
      the mayors before it in place. */
  lemma StrikePosition(b: Ballot, c: Mayor, x: Mayor)
    requires Distinct(b) && c in b && x in b && x != c
    ensures Position(Strike(b, c), x)
         == if Position(b, x) < Position(b, c) then Position(b, x) else Position(b, x) - 1
  {
    var r, k, p := Strike(b, c), Position(b, c), Position(b, x);
    assert r == RemoveIndex(b, k);
    assert b[p] == x && b[k] == c;
    var q := if p < k then p else p - 1;
    if p < k {
      assert r[q] == b[p];
    } else {
      assert r[q] == b[q + 1];
    }
    forall j | 0 <= j < q ensures r[j] != x {
      if j < k {
        assert r[j] == b[j];
      } else {
        assert r[j] == b[j + 1];
      }
    }
  }

  /** A struck ballot ranks the remaining mayors exactly once. */
  lemma StrikeRanking(b: Ballot, ms: set<Mayor>, c: Mayor)
    requires IsRankingOf(b, ms) && c in ms
    ensures IsRankingOf(Strike(b, c), ms - {c})
  {
    var r, k := Strike(b, c), Position(b, c);
    forall i, j | 0 <= i < j < |r| ensures r[i] != r[j] {
      var i', j' := if i < k then i else i + 1, if j < k then j else j + 1;
      assert r[i] == b[i'] && r[j] == b[j'];
    }
    forall x | x in Elems(r) ensures x in ms - {c} {
      var i :| 0 <= i < |r| && r[i] == x;
      var i' := if i < k then i else i + 1;
      assert b[i'] == x && i' != k;
    }
    forall x | x in ms - {c} ensures x in Elems(r) {
      StrikePosition(b, c, x);
      assert r[Position(r, x)] == x;
    }
  }

  /** Striking a third mayor keeps the order of two others. */
  lemma StrikeKeepsOrder(b: Ballot, c: Mayor, x: Mayor, y: Mayor)
    requires Distinct(b) && c in b && x in b && y in b && x != c && y != c
    ensures Position(Strike(b, c), x) < Position(Strike(b, c), y) <==> Position(b, x) < Position(b, y)
    ensures Position(Strike(b, c), x) == Position(Strike(b, c), y) <==> Position(b, x) == Position(b, y)
  {
    var k := Position(b, c);
    StrikePosition(b, c, x);
    StrikePosition(b, c, y);
    assert Position(b, x) != k by { assert b[Position(b, x)] == x && b[k] == c; }
    assert Position(b, y) != k by { assert b[Position(b, y)] == y && b[k] == c; }
  }

  /** Striking a third mayor keeps every voter's preference between two
      others. */
  lemma StrikeMargin(b: Ballot, c: Mayor, x: Mayor, y: Mayor)
    requires Distinct(b) && c in b && x in b && y in b && x != c && y != c
    ensures Margin(Strike(b, c), x, y) == Margin(b, x, y)
  {
    StrikeKeepsOrder(b, c, x, y);
  }

  /** Every pair with `c` struck from its ballot, in the same order. */
  function StrikeAll(pairs: seq<Pair>, c: Mayor): (r: seq<Pair>)
    ensures |r| == |pairs|
    ensures forall i | 0 <= i < |r| :: r[i] == Pair(pairs[i].votes, Strike(pairs[i].ballot, c))
  {
    seq(|pairs|, i requires 0 <= i < |pairs| => Pair(pairs[i].votes, Strike(pairs[i].ballot, c)))
  }

  lemma {:induction false} WeightedStrikeAll(pairs: seq<Pair>, c: Mayor, w: Ballot -> int, v: Ballot -> int)
    requires forall b :: v(b) == w(Strike(b, c))
    ensures Weighted(StrikeAll(pairs, c), w) == Weighted(pairs, v)
  {
    if pairs != [] {
      var init := pairs[..|pairs| - 1];
      assert StrikeAll(pairs, c)[..|pairs| - 1] == StrikeAll(init, c);
      WeightedStrikeAll(init, c, w, v);
    }
  }

  // ---------------------------------------------------------------------
  // Merging pairs with the same ballot

  /** The ballots of some pairs. */
  function BallotsOf(ps: seq<Pair>): set<Ballot> {
    set i | 0 <= i < |ps| :: ps[i].ballot
  }

  /** No ballot occurs in two pairs. */
  predicate DistinctBallots(ps: seq<Pair>) {
    forall i, j | 0 <= i < j < |ps| :: ps[i].ballot != ps[j].ballot
  }

  /** Index of the pair holding ballot `b`, or `|ps|` when there is none. */
  function FindBallot(ps: seq<Pair>, b: Ballot): (i: nat)
    ensures i <= |ps|
    ensures i < |ps| ==> ps[i].ballot == b
    ensures i == |ps| ==> b !in BallotsOf(ps)
  {
    if ps == [] then 0
    else if ps[|ps| - 1].ballot == b then |ps| - 1
    else
      var i := FindBallot(ps[..|ps| - 1], b);
      if i < |ps| - 1 then i else |ps|
  }

  /** Add the voters of `p` to the pair with the same ballot, or append `p`. */
  function AddPair(acc: seq<Pair>, p: Pair): seq<Pair> {
    var i := FindBallot(acc, p.ballot);
    if i < |acc| then acc[i := Pair(acc[i].votes + p.votes, p.ballot)] else acc + [p]
  }

  /** The pairs with the voters of equal ballots combined, each ballot where
      it first occurs. */
  function Merge(ps: seq<Pair>): (r: seq<Pair>)
    ensures DistinctBallots(r)
    ensures BallotsOf(r) == BallotsOf(ps)
    ensures ps != [] ==> r != [] && r[0].ballot == ps[0].ballot
    ensures (forall j | 0 <= j < |ps| :: ps[j].votes > 0) ==> forall i | 0 <= i < |r| :: r[i].votes > 0
  {
    if ps == [] then []
    else
      var init, p := ps[..|ps| - 1], ps[|ps| - 1];
      var acc := Merge(init);
      assert ps == init + [p];
      assert init != [] ==> init[0] == ps[0];
      BallotsOfSnoc(init, p);
      assert (forall j | 0 <= j < |ps| :: ps[j].votes > 0) ==> p.votes > 0 && forall j | 0 <= j < |init| :: init[j].votes > 0;
      AddPairSound(acc, p);
      AddPair(acc, p)
  }

  lemma BallotsOfSnoc(ps: seq<Pair>, p: Pair)
    ensures BallotsOf(ps + [p]) == BallotsOf(ps) + {p.ballot}
  {
    var qs := ps + [p];
    forall b | b in BallotsOf(ps) ensures b in BallotsOf(qs) {
      var j :| 0 <= j < |ps| && ps[j].ballot == b;
      assert qs[j].ballot == b;
    }
    assert qs[|ps|].ballot == p.ballot;
  }

  /** Adding a pair adds its ballot, keeps ballots distinct, keeps the first
      pair's ballot and keeps the numbers of voters positive. */
  lemma AddPairSound(acc: seq<Pair>, p: Pair)
    ensures BallotsOf(AddPair(acc, p)) == BallotsOf(acc) + {p.ballot}
    ensures DistinctBallots(acc) ==> DistinctBallots(AddPair(acc, p))
    ensures |AddPair(acc, p)| > 0
    ensures acc != [] ==> AddPair(acc, p)[0].ballot == acc[0].ballot
    ensures acc == [] ==> AddPair(acc, p) == [p]
    ensures (forall i | 0 <= i < |acc| :: acc[i].votes > 0) && p.votes > 0 ==>
      forall i | 0 <= i < |AddPair(acc, p)| :: AddPair(acc, p)[i].votes > 0
  {
    var r := AddPair(acc, p);
    var i := FindBallot(acc, p.ballot);
    if i < |acc| {
      forall b | b in BallotsOf(acc) ensures b in BallotsOf(r) {
        var j :| 0 <= j < |acc| && acc[j].ballot == b;
        assert r[j].ballot == b;
      }
    } else {
      BallotsOfSnoc(acc, p);
    }
  }

  lemma {:induction false} WeightedUpdate(acc: seq<Pair>, i: nat, v: nat, w: Ballot -> int)
    requires i < |acc|
    ensures Weighted(acc[i := Pair(v, acc[i].ballot)], w)
         == Weighted(acc, w) + (v - acc[i].votes) * w(acc[i].ballot)
  {
    var upd := acc[i := Pair(v, acc[i].ballot)];
    var n := |acc|;
    if i == n - 1 {
      assert upd[..n - 1] == acc[..n - 1];
    } else {
      assert upd[..n - 1] == acc[..n - 1][i := Pair(v, acc[i].ballot)];
      WeightedUpdate(acc[..n - 1], i, v, w);
    }
  }

  /** Adding a pair adds its voters' weight to the tally. */
  lemma WeightedAddPair(acc: seq<Pair>, p: Pair, w: Ballot -> int)
    ensures Weighted(AddPair(acc, p), w) == Weighted(acc, w) + p.votes * w(p.ballot)
  {
    var i := FindBallot(acc, p.ballot);
    if i < |acc| {
      WeightedUpdate(acc, i, acc[i].votes + p.votes, w);
      assert acc[i := Pair(acc[i].votes + p.votes, p.ballot)]
          == acc[i := Pair(acc[i].votes + p.votes, acc[i].ballot)];
    } else {
      assert (acc + [p])[..|acc|] == acc;
    }
  }

  /** Merging keeps every weighted tally. */
  lemma {:induction false} WeightedMerge(ps: seq<Pair>, w: Ballot -> int)
    ensures Weighted(Merge(ps), w) == Weighted(ps, w)
  {
    if ps != [] {
      var init, p := ps[..|ps| - 1], ps[|ps| - 1];
      WeightedMerge(init, w);
      WeightedAddPair(Merge(init), p, w);
    }
  }

  // ---------------------------------------------------------------------
  // Removing a mayor from a profile

  /** The profile without mayor `c`, the voters of ballots that become equal
      combined. */
  function RemoveCandidate(pairs: seq<Pair>, c: Mayor): seq<Pair> {
    Merge(StrikeAll(pairs, c))
  }

  /** The pairs without repeats, each where it first occurs: what building a
      Python set from them keeps. */
  function Dedup(ps: seq<Pair>): (r: seq<Pair>)
    ensures Distinct(r)
    ensures forall i | 0 <= i < |r| :: r[i] in ps
    ensures forall p | p in ps :: p in r
  {
    if ps == [] then []
    else
      var d := Dedup(ps[..|ps| - 1]);
      var p := ps[|ps| - 1];
      if p in d then d else d + [p]
  }

  /** `removeCandidate` / `removeMayor` as written: the shortened pairs are
      collected into a set, so equal ones collapse. */
  function RemoveCandidateAsWritten(pairs: seq<Pair>, c: Mayor): (r: seq<Pair>)
    ensures Distinct(r)
    ensures forall i | 0 <= i < |pairs| :: Pair(pairs[i].votes, Strike(pairs[i].ballot, c)) in r
    ensures forall p | p in r :: exists i | 0 <= i < |pairs| :: p == Pair(pairs[i].votes, Strike(pairs[i].ballot, c))
  {
    var struck := StrikeAll(pairs, c);
    assert forall i | 0 <= i < |pairs| :: struck[i] in struck;
    Dedup(struck)
  }

  /** Removing a mayor of a valid profile gives a valid profile of the other
      mayors, with the same number of voters. */
  lemma RemoveCandidateValid(pairs: seq<Pair>, c: Mayor)
    requires ValidPairs(pairs) && c in Candidates(pairs)
    ensures ValidPairs(RemoveCandidate(pairs, c))
    ensures DistinctBallots(RemoveCandidate(pairs, c))
    ensures Candidates(RemoveCandidate(pairs, c)) == Candidates(pairs) - {c}
    ensures Mayors(RemoveCandidate(pairs, c)) == Without(Mayors(pairs), c)
    ensures TotalVotes(RemoveCandidate(pairs, c)) == TotalVotes(pairs)
  {
    RemoveCandidateRanks(pairs, c);
    RemoveCandidateMayors(pairs, c);
    WeightedRemoveCandidate(pairs, c, (b: Ballot) => 1, (b: Ballot) => 1);
  }

  lemma RemoveCandidateRanks(pairs: seq<Pair>, c: Mayor)
    requires ValidPairs(pairs) && c in Candidates(pairs)
    ensures ValidPairs(RemoveCandidate(pairs, c))
    ensures DistinctBallots(RemoveCandidate(pairs, c))
    ensures Candidates(RemoveCandidate(pairs, c)) == Candidates(pairs) - {c}
  {
    var ms := Candidates(pairs);
    var struck := StrikeAll(pairs, c);
    var r := Merge(struck);
    forall i | 0 <= i < |struck| ensures IsRankingOf(struck[i].ballot, ms - {c}) {
      StrikeRanking(pairs[i].ballot, ms, c);
    }
    forall i | 0 <= i < |r| ensures IsRankingOf(r[i].ballot, ms - {c}) {
      assert r[i].ballot in BallotsOf(struck);
    }
    assert r[0].ballot == struck[0].ballot;
    forall i, j | 0 <= i < j < |r| ensures r[i] != r[j] {
      assert r[i].ballot != r[j].ballot;
    }
  }

  lemma RemoveCandidateMayors(pairs: seq<Pair>, c: Mayor)
    requires |pairs| > 0 && |RemoveCandidate(pairs, c)| > 0
    requires Candidates(RemoveCandidate(pairs, c)) == Candidates(pairs) - {c}
    ensures Mayors(RemoveCandidate(pairs, c)) == Without(Mayors(pairs), c)
  {
    var ms := Candidates(pairs);
    var m, m' := Mayors(pairs), Mayors(RemoveCandidate(pairs, c));
    WithoutIncreasing(m, c);
    assert Elems(Without(m, c)) == ms - {c} by {
      forall x | x in ms - {c} ensures x in Elems(Without(m, c)) {
        assert x in m;
      }
    }
    IncreasingUnique(m', Without(m, c));
  }

  /** Removing a mayor leaves the net preference between any two of the
      others unchanged. */
  lemma RemoveCandidateNetPreference(pairs: seq<Pair>, c: Mayor, x: Mayor, y: Mayor)
    requires ValidPairs(pairs)
    requires c in Candidates(pairs) && x in Candidates(pairs) && y in Candidates(pairs)
    requires x != c && y != c
    ensures NetPreference(RemoveCandidate(pairs, c), x, y) == NetPreference(pairs, x, y)
  {
    var w := (ballot: Ballot) => Margin(ballot, x, y);
    var v := (ballot: Ballot) => w(Strike(ballot, c));
    WeightedRemoveCandidate(pairs, c, w, v);
    forall i | 0 <= i < |pairs| ensures v(pairs[i].ballot) == w(pairs[i].ballot) {
      var b := pairs[i].ballot;
      assert Distinct(b) && c in b && x in b && y in b;
      StrikeMargin(b, c, x, y);
    }
    WeightedCongruent(pairs, v, w);
  }

  /** A tally of the shortened profile is the tally of the original profile
      with the weight taken of the shortened ballots. */
  lemma WeightedRemoveCandidate(pairs: seq<Pair>, c: Mayor, w: Ballot -> int, v: Ballot -> int)
    requires forall b :: v(b) == w(Strike(b, c))
    ensures Weighted(RemoveCandidate(pairs, c), w) == Weighted(pairs, v)
  {
    WeightedMerge(StrikeAll(pairs, c), w);
    WeightedStrikeAll(pairs, c, w, v);
  }

  /** The source's set-based removal loses voters: two ballots that differ
      only in where mayor 2 stands collapse into one pair. */
  lemma AsWrittenLosesVoters()
    ensures var pairs := [Pair(1, [0, 1, 2]), Pair(1, [0, 2, 1])];
      && TotalVotes(pairs) == 2
      && RemoveCandidateAsWritten(pairs, 2) == [Pair(1, [0, 1])]
      && TotalVotes(RemoveCandidateAsWritten(pairs, 2)) == 1
      && TotalVotes(RemoveCandidate(pairs, 2)) == 2
  {
    var pairs := [Pair(1, [0, 1, 2]), Pair(1, [0, 2, 1])];
    var one := (b: Ballot) => 1;
    var struck := StrikeAll(pairs, 2);
    StruckExample();
    assert struck[..1] == [Pair(1, [0, 1])];
    assert Dedup(struck[..1]) == [Pair(1, [0, 1])];
    assert pairs[..1] == [Pair(1, [0, 1, 2])];
    assert [Pair(1, [0, 1])][..0] == [];
    WeightedRemoveCandidate(pairs, 2, one, one);
  }

  lemma StruckExample()
    ensures StrikeAll([Pair(1, [0, 1, 2]), Pair(1, [0, 2, 1])], 2) == [Pair(1, [0, 1]), Pair(1, [0, 1])]
  {
    assert Position([0, 1, 2], 2) == 2;
    assert Position([0, 2, 1], 2) == 1;
    assert Strike([0, 1, 2], 2) == [0, 1];
    assert Strike([0, 2, 1], 2) == [0, 1];
  }
}
