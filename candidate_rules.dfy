/** The earliest generation of the voting rules, social-choice-functions.py:
    free functions over a raw profile (a set of pairs of a number of voters
    and a ballot). Every rule that lists the candidates takes them from the
    first ballot of the profile, in that ballot's order; the Simpson score
    takes them from a set, whose order does not matter to a minimum.

    The functions are stated against the shared definitions of the newer
    generations (over the mayors in ascending order), so that each result
    is also shown to agree with them. */
module CandidateRules {
  import opened Seqs
  import opened Ballots
  import opened Removal
  import opened Scores
  import opened Sorting
  import opened Elimination
  import opened BordaMean

  /** `_, ballot = next(iter(profile))`: the candidates in the order of the
      first ballot. */
  function BallotOrder(pairs: seq<Pair>): (b: Ballot)
    requires ValidPairs(pairs)
    ensures Distinct(b) && Elems(b) == Candidates(pairs)
    ensures multiset(b) == multiset(Mayors(pairs)) && |b| == |Mayors(pairs)|
  {
    var b := pairs[0].ballot;
    DistinctMultiset(b, Mayors(pairs));
    SameElemsSameLength(b, Mayors(pairs));
    b
  }

  /** `netPreference(profile, c1, c2)`: the voters ranking `c1` above `c2`
      minus those ranking `c2` above `c1`. Swapping the candidates negates
      it, a candidate against itself gets 0, and it never exceeds the number
      of voters. */
  function NetPreferenceBetween(pairs: seq<Pair>, c1: Mayor, c2: Mayor): (r: int)
    requires ValidPairs(pairs) && c1 in Candidates(pairs) && c2 in Candidates(pairs)
    ensures r == -NetPreference(pairs, c2, c1)
    ensures c1 == c2 ==> r == 0
    ensures -TotalVotes(pairs) <= r <= TotalVotes(pairs)
  {
    NetPreferenceAntisymmetric(pairs, c1, c2);
    NetPreferenceBounds(pairs, c1, c2);
    Weighted(pairs, (ballot: Ballot) => Margin(ballot, c1, c2))
  }

  // ---------------------------------------------------------------------
  // Simple scores

  /** `copelandScore`: the signs of the candidate's net preferences over
      every candidate of the first ballot. It is the Copeland score of the
      newer generations, and lies within one point per other candidate. */
  function CopelandScore(pairs: seq<Pair>, c: Mayor): (r: int)
    requires ValidPairs(pairs) && c in Candidates(pairs)
    ensures r == Copeland(pairs, Mayors(pairs), c)
    ensures -(|Mayors(pairs)| - 1) <= r <= |Mayors(pairs)| - 1
  {
    var b := BallotOrder(pairs);
    SumPermutation(b, Mayors(pairs), (x: Mayor) => Sign(NetPreference(pairs, c, x)));
    assert c in Elems(Mayors(pairs));
    CopelandBounds(pairs, Mayors(pairs), c);
    Copeland(pairs, b, c)
  }

  /** `symmetricBordaScore`: the candidate's net preferences over every
      candidate of the first ballot, summed. It is the symmetric Borda score
      of the newer generations. */
  function SymmetricBordaScore(pairs: seq<Pair>, c: Mayor): (r: int)
    requires ValidPairs(pairs) && c in Candidates(pairs)
    ensures r == SymmetricBorda(pairs, Mayors(pairs), c)
    ensures -(|Mayors(pairs)| - 1) * TotalVotes(pairs) <= r <= (|Mayors(pairs)| - 1) * TotalVotes(pairs)
  {
    var b := BallotOrder(pairs);
    SumPermutation(b, Mayors(pairs), (x: Mayor) => NetPreference(pairs, c, x));
    assert c in Elems(Mayors(pairs));
    SymmetricBordaBounds(pairs, Mayors(pairs), c);
    SymmetricBorda(pairs, b, c)
  }

  /** `asymmetricBordaScore`: `len(ballot) - 1 - index` points per voter,
      with the length taken from the first ballot. It is the Borda score of
      the newer generations, lies between 0 and `n - 1` points per voter,
      and is the symmetric score shifted and halved. */
  function AsymmetricBordaScore(pairs: seq<Pair>, c: Mayor): (r: int)
    requires ValidPairs(pairs) && c in Candidates(pairs)
    ensures r == BordaScores(pairs)(c)
    ensures 0 <= r <= (|Mayors(pairs)| - 1) * TotalVotes(pairs)
    ensures 2 * r == SymmetricBordaScore(pairs, c) + (|Mayors(pairs)| - 1) * TotalVotes(pairs)
  {
    var topScore := |pairs[0].ballot| - 1;
    MayorsRanked(pairs);
    assert c in Elems(Mayors(pairs));
    BordaBounds(pairs, topScore, c);
    BordaSymmetric(pairs, c);
    Borda(pairs, topScore, c)
  }

  // ---------------------------------------------------------------------
  // Pareto dominance and the Condorcet winner

  /** `doesParetoDominate`: every ballot ranks `c1` before `c2`. Since every
      pair has at least one voter, that is the same as a net preference of
      every voter. */
  function DoesParetoDominate(pairs: seq<Pair>, c1: Mayor, c2: Mayor): (r: bool)
    requires ValidPairs(pairs) && c1 in Candidates(pairs) && c2 in Candidates(pairs)
    ensures r <==> NetPreference(pairs, c1, c2) == TotalVotes(pairs)
    ensures r ==> c1 != c2 && !ParetoDominates(pairs, c2, c1)
  {
    ParetoIffUnanimous(pairs, c1, c2);
    forall i | 0 <= i < |pairs| :: Position(pairs[i].ballot, c1) < Position(pairs[i].ballot, c2)
  }

  /** Pareto dominance is a net preference of every voter. */
  lemma ParetoIffUnanimous(pairs: seq<Pair>, a: Mayor, b: Mayor)
    requires ValidPairs(pairs)
    ensures ParetoDominates(pairs, a, b) <==> NetPreference(pairs, a, b) == TotalVotes(pairs)
    ensures ParetoDominates(pairs, a, b) ==> a != b && !ParetoDominates(pairs, b, a)
  {
    if ParetoDominates(pairs, a, b) {
      ParetoUnanimous(pairs, a, b);
    } else if NetPreference(pairs, a, b) == TotalVotes(pairs) {
      UnanimousDominates(pairs, a, b);
    }
  }

  /** A net preference of every voter is Pareto dominance, when every pair
      has at least one voter. */
  lemma {:induction false} UnanimousDominates(pairs: seq<Pair>, a: Mayor, b: Mayor)
    requires forall i | 0 <= i < |pairs| :: pairs[i].votes > 0
    requires NetPreference(pairs, a, b) == TotalVotes(pairs)
    ensures ParetoDominates(pairs, a, b)
  {
    if pairs != [] {
      var init, p := pairs[..|pairs| - 1], pairs[|pairs| - 1];
      var margin := (ballot: Ballot) => Margin(ballot, a, b);
      WeightedBounds(init, margin, -1, 1);
      assert Weighted(pairs, margin) == Weighted(init, margin) + p.votes * margin(p.ballot);
      assert TotalVotes(pairs) == TotalVotes(init) + p.votes;
      if margin(p.ballot) < 1 {
        MulMono(p.votes, margin(p.ballot), 0);
        assert false;
      }
      UnanimousDominates(init, a, b);
    }
  }

  /** Python's `any(netPreference(c2, c1) > 0 for c2 in ballot)`. */
  predicate Beaten(pairs: seq<Pair>, ms: seq<Mayor>, c: Mayor) {
    exists x | x in ms :: NetPreference(pairs, x, c) > 0
  }

  lemma BeatenIffNotWinner(pairs: seq<Pair>, ms: seq<Mayor>, c: Mayor)
    ensures Beaten(pairs, ms, c) <==> !IsCondorcetWinner(pairs, ms, c)
  {
    forall x ensures NetPreference(pairs, x, c) == -NetPreference(pairs, c, x) {
      NetPreferenceAntisymmetric(pairs, x, c);
    }
  }

  /** The loop of `condorcetWinner` from `xs` onwards: the first candidate
      that no candidate of `ms` beats, or none. */
  function FirstUnbeaten(pairs: seq<Pair>, ms: seq<Mayor>, xs: seq<Mayor>): (r: Option<Mayor>)
    ensures r.Some? ==> r.value in xs && IsCondorcetWinner(pairs, ms, r.value)
    ensures r.Some? ==> forall i | 0 <= i < Position(xs, r.value) :: !IsCondorcetWinner(pairs, ms, xs[i])
    ensures r.None? ==> forall x | x in xs :: !IsCondorcetWinner(pairs, ms, x)
  {
    if xs == [] then None
    else
      BeatenIffNotWinner(pairs, ms, xs[0]);
      if Beaten(pairs, ms, xs[0]) then
        var r := FirstUnbeaten(pairs, ms, xs[1..]);
        assert forall x | x in xs[1..] :: x in xs;
        assert r.Some? ==> Position(xs, r.value) == 1 + Position(xs[1..], r.value);
        assert forall i | 1 <= i < |xs| :: xs[i] == xs[1..][i - 1];
        r
      else Some(xs[0])
  }

  /** `condorcetWinner`: the first candidate of the first ballot that no
      candidate beats; `None` stands for the source's `False`. It finds a
      winner exactly when the newer generations' set of Condorcet winners is
      not empty, returns one of them, and skips none of them. */
  function CondorcetWinner(pairs: seq<Pair>): (r: Option<Mayor>)
    requires ValidPairs(pairs)
    ensures r.Some? <==> CondorcetWinners(pairs, Mayors(pairs)) != {}
    ensures r.Some? ==> r.value in CondorcetWinners(pairs, Mayors(pairs))
    ensures r.Some? ==> forall i | 0 <= i < Position(BallotOrder(pairs), r.value) ::
      BallotOrder(pairs)[i] !in CondorcetWinners(pairs, Mayors(pairs))
  {
    var b := BallotOrder(pairs);
    var ms := Mayors(pairs);
    SameCondorcetWinners(pairs, b, ms);
    var r := FirstUnbeaten(pairs, b, b);
    assert forall x | x in ms :: x in b by {
      assert forall x | x in ms :: x in Elems(ms);
    }
    if r.None? then
      NoneUnbeaten(pairs, b, ms);
      r
    else
      assert r.value in CondorcetWinners(pairs, ms) by {
        assert r.value in Elems(b);
      }
      r
  }

  lemma NoneUnbeaten(pairs: seq<Pair>, b: seq<Mayor>, ms: seq<Mayor>)
    requires Elems(b) == Elems(ms)
    requires forall x | x in b :: !IsCondorcetWinner(pairs, b, x)
    ensures CondorcetWinners(pairs, ms) == {}
  {
    SameCondorcetWinners(pairs, b, ms);
  }

  /** Whether a candidate loses to nobody does not depend on the order the
      candidates are listed in. */
  lemma SameCondorcetWinners(pairs: seq<Pair>, b: seq<Mayor>, ms: seq<Mayor>)
    requires Elems(b) == Elems(ms)
    ensures forall c :: IsCondorcetWinner(pairs, b, c) <==> IsCondorcetWinner(pairs, ms, c)
    ensures CondorcetWinners(pairs, b) == CondorcetWinners(pairs, ms)
  {
    assert forall x :: x in b <==> x in Elems(b);
    assert forall x :: x in ms <==> x in Elems(ms);
  }

  // ---------------------------------------------------------------------
  // Single transferable vote

  /** `singleTransferableVote`: tally the first places in the order of the
      first ballot; return the first candidate with at least
      `total // 2 + 1` of them, or remove the first candidate with the
      fewest and start again. */
  method SingleTransferableVote(pairs: seq<Pair>) returns (winner: Mayor)
    requires ValidPairs(pairs) && |Mayors(pairs)| > 0
    ensures winner == Stv(pairs, FirstBallot)
    decreases |Mayors(pairs)|
  {
    var majority := TotalVotes(pairs) / 2 + 1;
    var ballot := BallotOrder(pairs);
    var votersPerCandidate := TallyFirstPlaces(pairs, ballot);
    var at, worst := ScanTally(votersPerCandidate, ballot, FirstPlaces(pairs), majority - 1);
    StvRound(pairs, FirstBallot, at, worst);
    if at < |ballot| {
      return ballot[at];
    }
    winner := SingleTransferableVote(RemoveCandidate(pairs, ballot[worst]));
  }

  // ---------------------------------------------------------------------
  // Condorcet extensions

  /** `simpsonScore`: the candidate's worst net preference over the other
      candidates of the first ballot (a set, so their order does not
      matter); at least one other candidate is needed for Python's `min`. It
      is not negative exactly when the candidate is a Condorcet winner. */
  function SimpsonScore(pairs: seq<Pair>, c: Mayor): (r: int)
    requires ValidPairs(pairs) && c in Candidates(pairs) && |Candidates(pairs)| >= 2
    ensures exists x | x in Candidates(pairs) && x != c :: r == NetPreference(pairs, c, x)
    ensures forall x | x in Candidates(pairs) && x != c :: r <= NetPreference(pairs, c, x)
    ensures r >= 0 <==> c in CondorcetWinners(pairs, Mayors(pairs))
  {
    var ms := Mayors(pairs);
    DistinctCard(ms);
    OtherMayors(ms);
    assert c in Elems(ms);
    SimpsonBounds(pairs, ms, c);
    CondorcetIffSimpson(pairs, ms, c);
    assert forall x :: x in ms <==> x in Elems(ms);
    Simpson(pairs, ms, c)
  }

  /** The Simpson score of every candidate, as a total key (0 where the
      score is undefined). */
  function SimpsonKey(pairs: seq<Pair>): Mayor -> int
    requires |pairs| > 0
  {
    var ms := Mayors(pairs);
    (c: Mayor) => if Without(ms, c) != [] then Simpson(pairs, ms, c) else 0
  }

  lemma SimpsonKeyIsScore(pairs: seq<Pair>, c: Mayor)
    requires ValidPairs(pairs) && c in Candidates(pairs) && |Candidates(pairs)| >= 2
    ensures SimpsonKey(pairs)(c) == SimpsonScore(pairs, c)
  {
    DistinctCard(Mayors(pairs));
    OtherMayors(Mayors(pairs));
  }

  /** Python's `max(b, key=key)`: the first entry of `b` with the largest
      key. */
  function FirstBest(b: seq<Mayor>, key: Mayor -> int): (w: Mayor)
    requires |b| > 0 && Distinct(b)
    ensures w in b
    ensures forall c | c in b :: key(c) <= key(w)
    ensures forall i | 0 <= i < Position(b, w) :: key(b[i]) < key(w)
  {
    var k := FirstMax(b, key);
    assert forall c | c in b :: exists i | 0 <= i < |b| :: b[i] == c;
    assert Position(b, b[k]) == k;
    b[k]
  }

  /** `simpsonSCF`: the first candidate of the first ballot with the largest
      Simpson score. */
  function SimpsonScf(pairs: seq<Pair>): (w: Mayor)
    requires ValidPairs(pairs) && |Candidates(pairs)| >= 2
    ensures w in Candidates(pairs)
  {
    var b := BallotOrder(pairs);
    DistinctCard(b);
    var w := FirstBest(b, SimpsonKey(pairs));
    assert w in Elems(b);
    w
  }

  /** No candidate has a larger Simpson score than the winner, and every
      candidate before it in the first ballot has a smaller one. */
  lemma SimpsonScfMaximal(pairs: seq<Pair>, c: Mayor)
    requires ValidPairs(pairs) && |Candidates(pairs)| >= 2 && c in Candidates(pairs)
    ensures SimpsonScore(pairs, c) <= SimpsonScore(pairs, SimpsonScf(pairs))
    ensures Position(BallotOrder(pairs), c) < Position(BallotOrder(pairs), SimpsonScf(pairs)) ==>
      SimpsonScore(pairs, c) < SimpsonScore(pairs, SimpsonScf(pairs))
  {
    var w := SimpsonScf(pairs);
    var b := BallotOrder(pairs);
    DistinctCard(b);
    assert w == FirstBest(b, SimpsonKey(pairs));
    SimpsonKeyIsScore(pairs, c);
    SimpsonKeyIsScore(pairs, w);
    assert c in Elems(b);
    assert b[Position(b, c)] == c;
  }

  /** The Simpson rule is Condorcet-consistent: when some candidate loses
      to nobody, the winner loses to nobody either. */
  lemma SimpsonScfCondorcet(pairs: seq<Pair>, c: Mayor)
    requires ValidPairs(pairs) && |Candidates(pairs)| >= 2
    requires c in CondorcetWinners(pairs, Mayors(pairs))
    ensures SimpsonScf(pairs) in CondorcetWinners(pairs, Mayors(pairs))
  {
    var w := SimpsonScf(pairs);
    SimpsonScfMaximal(pairs, c);
    SimpsonWinnerCondorcet(pairs, c, w);
  }

  lemma SimpsonWinnerCondorcet(pairs: seq<Pair>, c: Mayor, w: Mayor)
    requires ValidPairs(pairs) && |Candidates(pairs)| >= 2
    requires c in CondorcetWinners(pairs, Mayors(pairs)) && w in Candidates(pairs)
    requires SimpsonScore(pairs, c) <= SimpsonScore(pairs, w)
    ensures w in CondorcetWinners(pairs, Mayors(pairs))
  {
    assert c in Elems(Mayors(pairs));
  }
}
