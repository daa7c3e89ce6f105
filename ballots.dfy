/** Ballots, weighted ballot pairs, and the quantities that every voting rule
    of the three generations of the source derives from them: the net
    preference between two mayors, the Borda score, the number of votes a
    mayor gets at a rank position, and Pareto dominance. */
module Ballots {
  import opened Seqs

  /** A candidate ("mayor"), identified by its index. */
  type Mayor = nat

  /** One voter's strict ranking, most preferred first. */
  type Ballot = seq<Mayor>

  /** `votes` voters cast `ballot`. A profile is a set of such pairs; it is
      modelled as a sequence in the set's iteration order. */
  datatype Pair = Pair(votes: nat, ballot: Ballot)

  function Sign(n: int): (s: int)
    ensures -1 <= s <= 1
    ensures s > 0 <==> n > 0
    ensures s < 0 <==> n < 0
  {
    if n > 0 then 1 else if n < 0 then -1 else 0
  }

  /** Python's `ballot.index(m)`: the first position of `m`. Where Python
      raises because `m` is absent this gives `|b|`; every caller in the model
      rules that case out. */
  function Position(b: Ballot, m: Mayor): (i: nat)
    ensures i <= |b|
    ensures i < |b| <==> m in b
    ensures i < |b| ==> b[i] == m
    ensures forall k | 0 <= k < i :: b[k] != m
  {
    if b == [] then 0 else if b[0] == m then 0 else 1 + Position(b[1..], m)
  }

  /** `b` ranks every mayor of `ms` exactly once. */
  predicate IsRankingOf(b: Ballot, ms: set<Mayor>) {
    Distinct(b) && Elems(b) == ms
  }

  /** What the source's `Profile` constructors rely on: at least one pair
      (`next(iter(pairs))`), no pair twice (it is a set), a positive number of
      voters behind each pair, and every ballot ranking the mayors of the
      first ballot exactly once. */
  predicate ValidPairs(pairs: seq<Pair>) {
    && |pairs| > 0
    && Distinct(pairs)
    && forall i | 0 <= i < |pairs| ::
         pairs[i].votes > 0 && IsRankingOf(pairs[i].ballot, Elems(pairs[0].ballot))
  }

  /** The set of mayors: those of the first ballot. */
  function Candidates(pairs: seq<Pair>): set<Mayor>
    requires |pairs| > 0
  {
    Elems(pairs[0].ballot)
  }

  /** `m` appears in every ballot (so Python's `ballot.index(m)` never raises). */
  predicate InAll(pairs: seq<Pair>, m: Mayor) {
    forall i | 0 <= i < |pairs| :: m in pairs[i].ballot
  }

  lemma CandidateInAll(pairs: seq<Pair>, m: Mayor)
    requires ValidPairs(pairs) && m in Candidates(pairs)
    ensures InAll(pairs, m)
  {
  }

  /** Sum over the pairs of (number of voters) x `w`(ballot): the shape of
      every tally the source computes with `sum(n * ... for n, ballot in pairs)`. */
  function Weighted(pairs: seq<Pair>, w: Ballot -> int): int {
    if pairs == [] then 0
    else Weighted(pairs[..|pairs| - 1], w) + pairs[|pairs| - 1].votes * w(pairs[|pairs| - 1].ballot)
  }

  /** `total_votes` / `totalVotes`: the number of voters. */
  function TotalVotes(pairs: seq<Pair>): int {
    Weighted(pairs, (b: Ballot) => 1)
  }

  /** One voter's preference of `a` over `b`: 1, -1, or 0 when `a` and `b`
      are the same mayor. */
  function Margin(ballot: Ballot, a: Mayor, b: Mayor): int {
    Sign(Position(ballot, b) - Position(ballot, a))
  }

  /** Net preference of `a` over `b`: the number of voters ranking `a` above
      `b` minus the number ranking `b` above `a`. */
  function NetPreference(pairs: seq<Pair>, a: Mayor, b: Mayor): int {
    Weighted(pairs, (ballot: Ballot) => Margin(ballot, a, b))
  }

  /** Borda score of `m` with `top` points for a first place. */
  function Borda(pairs: seq<Pair>, top: int, m: Mayor): int {
    Weighted(pairs, (ballot: Ballot) => top - Position(ballot, m))
  }

  /** Number of voters that put `m` at rank position `pos` (0 is first choice). */
  function VotesAt(pairs: seq<Pair>, pos: nat, m: Mayor): int {
    Weighted(pairs, (ballot: Ballot) => if pos < |ballot| && ballot[pos] == m then 1 else 0)
  }

  /** Every ballot ranks `a` above `b`, whatever its number of voters. */
  predicate ParetoDominates(pairs: seq<Pair>, a: Mayor, b: Mayor) {
    forall i | 0 <= i < |pairs| :: Position(pairs[i].ballot, a) < Position(pairs[i].ballot, b)
  }

  // ---------------------------------------------------------------------
  // Weighted sums

  lemma {:induction false} WeightedAppend(ps: seq<Pair>, qs: seq<Pair>, w: Ballot -> int)
    ensures Weighted(ps + qs, w) == Weighted(ps, w) + Weighted(qs, w)
    decreases |qs|
  {
    if qs == [] {
      assert ps + qs == ps;
    } else {
      assert (ps + qs)[..|ps + qs| - 1] == ps + qs[..|qs| - 1];
      WeightedAppend(ps, qs[..|qs| - 1], w);
    }
  }

  lemma {:induction false} WeightedCongruent(ps: seq<Pair>, w1: Ballot -> int, w2: Ballot -> int)
    requires forall i | 0 <= i < |ps| :: w1(ps[i].ballot) == w2(ps[i].ballot)
    ensures Weighted(ps, w1) == Weighted(ps, w2)
  {
    if ps != [] {
      WeightedCongruent(ps[..|ps| - 1], w1, w2);
    }
  }

  lemma {:induction false} WeightedNegated(ps: seq<Pair>, w1: Ballot -> int, w2: Ballot -> int)
    requires forall i | 0 <= i < |ps| :: w1(ps[i].ballot) == -w2(ps[i].ballot)
    ensures Weighted(ps, w1) == -Weighted(ps, w2)
  {
    if ps != [] {
      WeightedNegated(ps[..|ps| - 1], w1, w2);
    }
  }

  /** Tallies are additive in the weight. */
  lemma {:induction false} WeightedAdd(ps: seq<Pair>, w1: Ballot -> int, w2: Ballot -> int, w3: Ballot -> int)
    requires forall i | 0 <= i < |ps| :: w3(ps[i].ballot) == w1(ps[i].ballot) + w2(ps[i].ballot)
    ensures Weighted(ps, w3) == Weighted(ps, w1) + Weighted(ps, w2)
  {
    if ps != [] {
      var p := ps[|ps| - 1];
      WeightedAdd(ps[..|ps| - 1], w1, w2, w3);
      assert p.votes * w3(p.ballot) == p.votes * w1(p.ballot) + p.votes * w2(p.ballot);
    }
  }

  lemma MulMono(v: nat, x: int, y: int)
    requires x <= y
    ensures v * x <= v * y
  {
  }

  /** A weight between `lo` and `hi` on every ballot gives a tally between
      `lo` and `hi` times the number of voters. */
  lemma {:induction false} WeightedBounds(ps: seq<Pair>, w: Ballot -> int, lo: int, hi: int)
    requires forall i | 0 <= i < |ps| :: lo <= w(ps[i].ballot) <= hi
    ensures lo * TotalVotes(ps) <= Weighted(ps, w) <= hi * TotalVotes(ps)
  {
    if ps != [] {
      var init, p := ps[..|ps| - 1], ps[|ps| - 1];
      WeightedBounds(init, w, lo, hi);
      MulMono(p.votes, lo, w(p.ballot));
      MulMono(p.votes, w(p.ballot), hi);
      assert TotalVotes(ps) == TotalVotes(init) + p.votes;
      calc {
        lo * TotalVotes(ps);
        lo * TotalVotes(init) + p.votes * lo;
      }
      calc {
        hi * TotalVotes(ps);
        hi * TotalVotes(init) + p.votes * hi;
      }
    }
  }

  lemma TotalVotesPositive(pairs: seq<Pair>)
    requires ValidPairs(pairs)
    ensures TotalVotes(pairs) >= |pairs| > 0
  {
    forall k | 0 <= k <= |pairs|
      ensures TotalVotes(pairs[..k]) >= k
    {
      TotalVotesPrefix(pairs, k);
    }
    assert pairs[..|pairs|] == pairs;
  }

  lemma {:induction false} TotalVotesPrefix(pairs: seq<Pair>, k: nat)
    requires ValidPairs(pairs) && k <= |pairs|
    ensures TotalVotes(pairs[..k]) >= k
  {
    if k > 0 {
      TotalVotesPrefix(pairs, k - 1);
      assert pairs[..k][..k - 1] == pairs[..k - 1];
    }
  }

  // ---------------------------------------------------------------------
  // Net preference

  /** The net-preference graph is antisymmetric. */
  lemma NetPreferenceAntisymmetric(pairs: seq<Pair>, a: Mayor, b: Mayor)
    ensures NetPreference(pairs, a, b) == -NetPreference(pairs, b, a)
  {
    WeightedNegated(pairs,
      (ballot: Ballot) => Margin(ballot, a, b),
      (ballot: Ballot) => Margin(ballot, b, a));
  }

  /** A mayor has no net preference over itself. */
  lemma NetPreferenceSelf(pairs: seq<Pair>, a: Mayor)
    ensures NetPreference(pairs, a, a) == 0
  {
    NetPreferenceAntisymmetric(pairs, a, a);
  }

  /** The margin never exceeds the number of voters. */
  lemma NetPreferenceBounds(pairs: seq<Pair>, a: Mayor, b: Mayor)
    ensures -TotalVotes(pairs) <= NetPreference(pairs, a, b) <= TotalVotes(pairs)
  {
    WeightedBounds(pairs, (ballot: Ballot) => Margin(ballot, a, b), -1, 1);
  }

  /** Pareto dominance means a unanimous net preference, and is never
      mutual. */
  lemma ParetoUnanimous(pairs: seq<Pair>, a: Mayor, b: Mayor)
    requires |pairs| > 0 && ParetoDominates(pairs, a, b)
    ensures NetPreference(pairs, a, b) == TotalVotes(pairs)
    ensures !ParetoDominates(pairs, b, a)
  {
    var margin := (ballot: Ballot) => Margin(ballot, a, b);
    var one := (ballot: Ballot) => 1;
    forall i | 0 <= i < |pairs|
      ensures margin(pairs[i].ballot) == one(pairs[i].ballot)
    {
      assert Position(pairs[i].ballot, a) < Position(pairs[i].ballot, b);
    }
    WeightedCongruent(pairs, margin, one);
    assert Position(pairs[0].ballot, a) < Position(pairs[0].ballot, b);
  }

  // ---------------------------------------------------------------------
  // Votes per rank position

  /** The tallies of one rank position over all mayors add up to the number
      of voters, when every ballot has at that position one of the mayors. */
  lemma {:induction false} VotesAtSum(pairs: seq<Pair>, pos: nat, ms: seq<Mayor>)
    requires Distinct(ms)
    requires forall i | 0 <= i < |pairs| :: pos < |pairs[i].ballot| && pairs[i].ballot[pos] in ms
    ensures Sum(ms, (m: Mayor) => VotesAt(pairs, pos, m)) == TotalVotes(pairs)
  {
    if pairs == [] {
      SumSingleOut(ms, (m: Mayor) => VotesAt(pairs, pos, m), 0, 0);
    } else {
      var init, p := pairs[..|pairs| - 1], pairs[|pairs| - 1];
      VotesAtSum(init, pos, ms);
      var first := p.ballot[pos];
      SumAdd(ms,
        (m: Mayor) => VotesAt(init, pos, m),
        (m: Mayor) => if m == first then p.votes else 0,
        (m: Mayor) => VotesAt(pairs, pos, m));
      SumSingleOut(ms, (m: Mayor) => if m == first then p.votes else 0, first, p.votes);
    }
  }

  // ---------------------------------------------------------------------
  // Borda

  /** With `top` = (number of mayors) - 1, a Borda score lies between 0 and
      `top` times the number of voters. */
  lemma BordaBounds(pairs: seq<Pair>, top: int, m: Mayor)
    requires forall i | 0 <= i < |pairs| :: |pairs[i].ballot| == top + 1 && m in pairs[i].ballot
    ensures 0 <= Borda(pairs, top, m) <= top * TotalVotes(pairs)
  {
    WeightedBounds(pairs, (ballot: Ballot) => top - Position(ballot, m), 0, top);
  }

  // ---------------------------------------------------------------------
  // The mayors in iteration order

  /** The members of `s` below `n`, in ascending order. */
  function Upto(n: nat, s: set<Mayor>): (r: seq<Mayor>)
    ensures Increasing(r)
    ensures forall x | x in r :: x < n && x in s
    ensures forall x | x in s && x < n :: x in r
  {
    if n == 0 then []
    else
      var prev := Upto(n - 1, s);
      if n - 1 in s then
        AppendIncreasing(prev, n - 1);
        prev + [n - 1]
      else
        prev
  }

  lemma AppendIncreasing(s: seq<int>, x: int)
    requires Increasing(s)
    requires forall y | y in s :: y < x
    ensures Increasing(s + [x])
  {
    forall i, j | 0 <= i < j < |s| + 1 ensures (s + [x])[i] < (s + [x])[j] {
      if j == |s| {
        assert (s + [x])[i] == s[i] && s[i] in s;
      }
    }
  }

  lemma IncreasingBelowLast(init: seq<int>, last: int)
    requires Increasing(init + [last])
    ensures forall y | y in init :: y < last
  {
    forall y | y in init ensures y < last {
      var k :| 0 <= k < |init| && init[k] == y;
      assert (init + [last])[k] == y && (init + [last])[|init|] == last;
    }
  }

  /** A number above every mayor of `b`. */
  function Bound(b: Ballot): (n: nat)
    ensures forall x | x in b :: x < n
  {
    if b == [] then 0
    else
      var rest := Bound(b[1..]);
      assert forall x | x in b :: x == b[0] || x in b[1..];
      if b[0] + 1 > rest then b[0] + 1 else rest
  }

  /** `self.mayors`: the set of mayors of the first ballot, in the order in
      which Python iterates a set of small non-negative integers (ascending). */
  function Mayors(pairs: seq<Pair>): (r: seq<Mayor>)
    requires |pairs| > 0
    ensures Increasing(r) && Distinct(r)
    ensures Elems(r) == Candidates(pairs)
  {
    var r := Upto(Bound(pairs[0].ballot), Candidates(pairs));
    IncreasingDistinct(r);
    r
  }

  lemma IncreasingDistinct(r: seq<int>)
    requires Increasing(r)
    ensures Distinct(r)
  {
  }

  /** An increasing listing of a set is unique. */
  lemma {:induction false} IncreasingUnique(r1: seq<int>, r2: seq<int>)
    requires Increasing(r1) && Increasing(r2) && Elems(r1) == Elems(r2)
    ensures r1 == r2
    decreases |r1|
  {
    IncreasingDistinct(r1);
    IncreasingDistinct(r2);
    SameElemsSameLength(r1, r2);
    if r1 != [] {
      assert r2[0] in Elems(r1) && r1[0] in Elems(r2);
      assert r1[0] == r2[0];
      forall x | x in Elems(r1[1..]) ensures x in Elems(r2[1..]) {
        assert x in Elems(r1) && x != r1[0];
      }
      forall x | x in Elems(r2[1..]) ensures x in Elems(r1[1..]) {
        assert x in Elems(r2) && x != r2[0];
      }
      IncreasingUnique(r1[1..], r2[1..]);
    }
  }

  lemma {:induction false} WithoutIncreasing(s: seq<Mayor>, x: Mayor)
    requires Increasing(s)
    ensures Increasing(Without(s, x))
  {
    if s != [] {
      var init, last := s[..|s| - 1], s[|s| - 1];
      assert s == init + [last];
      WithoutIncreasing(init, x);
      if last != x {
        IncreasingBelowLast(init, last);
        AppendIncreasing(Without(init, x), last);
      }
    }
  }

  /** Filtering keeps an increasing sequence increasing. */
  lemma {:induction false} FilterOutIncreasing(xs: seq<Mayor>, p: Mayor -> bool)
    requires Increasing(xs)
    ensures Increasing(FilterOut(xs, p))
  {
    if xs != [] {
      var init, last := xs[..|xs| - 1], xs[|xs| - 1];
      assert xs == init + [last];
      FilterOutIncreasing(init, p);
      var r := FilterOut(init, p);
      forall i, j | 0 <= i < j < |r + [last]| ensures (r + [last])[i] < (r + [last])[j] {
        if j == |r| {
          assert r[i] in init;
          var k :| 0 <= k < |init| && init[k] == r[i];
          assert xs[k] == r[i];
        } else {
          assert (r + [last])[i] == r[i] && (r + [last])[j] == r[j];
        }
      }
    }
  }

  /** Every ballot of a valid profile ranks all the mayors. */
  lemma MayorsRanked(pairs: seq<Pair>)
    requires ValidPairs(pairs)
    ensures forall i | 0 <= i < |pairs| :: |pairs[i].ballot| == |Mayors(pairs)|
    ensures forall m | m in Mayors(pairs) :: InAll(pairs, m)
  {
    forall i | 0 <= i < |pairs| ensures |pairs[i].ballot| == |Mayors(pairs)| {
      SameElemsSameLength(pairs[i].ballot, Mayors(pairs));
    }
  }

  // ---------------------------------------------------------------------
  // Tallies per rank position

  /** A tally of one rank position (a row of `votes_per_mayor`): for every
      mayor, the voters that put it at rank position `pos`. */
  function TallyAt(pairs: seq<Pair>, pos: nat, ms: seq<Mayor>): (t: map<Mayor, int>)
    ensures forall m | m in ms :: m in t && t[m] == VotesAt(pairs, pos, m)
  {
    map m | m in ms :: VotesAt(pairs, pos, m)
  }

  /** Adding one more ballot to a row adds its voters to the mayor at that
      position. */
  lemma TallyStep(pairs: seq<Pair>, t: nat, pos: nat, ms: seq<Mayor>)
    requires t < |pairs| && pos < |pairs[t].ballot| && pairs[t].ballot[pos] in ms
    ensures var b := pairs[t].ballot;
      TallyAt(pairs[..t + 1], pos, ms)
      == TallyAt(pairs[..t], pos, ms)[b[pos] := TallyAt(pairs[..t], pos, ms)[b[pos]] + pairs[t].votes]
  {
    assert pairs[..t + 1][..t] == pairs[..t];
  }

  // ---------------------------------------------------------------------
  // Nested dictionaries

  /** `g[a][b] = v`. */
  function Put(g: map<Mayor, map<Mayor, int>>, a: Mayor, b: Mayor, v: int): map<Mayor, map<Mayor, int>>
    requires a in g
  {
    var row: map<Mayor, int> := g[a];
    g[a := row[b := v]]
  }
}
