/** Borda scores against the mean. Over a profile of `n` mayors, the Borda
    scores (with `n - 1` points for a first place) add up to
    0 + 1 + ... + (n - 1) points per voter, and twice a mayor's Borda score
    is its symmetric Borda score plus `n - 1` points per voter. So a mayor
    that beats every other one scores above the mean: neither Baldwin's rule
    nor Nanson's rule ever removes it. */
module BordaMean {
  import opened Seqs
  import opened Ballots
  import opened Scores

  /** 0 + 1 + ... + (n - 1). */
  function Tri(n: nat): (t: nat)
    ensures 2 * t == n * (n - 1)
  {
    if n == 0 then 0
    else
      var t := Tri(n - 1);
      assert n * (n - 1) == (n - 1) * (n - 2) + 2 * (n - 1);
      t + (n - 1)
  }

  /** Summing over the mayors and tallying over the ballots commute. */
  lemma {:induction false} WeightedSum(pairs: seq<Pair>, ms: seq<Mayor>, w: Mayor -> Ballot -> int)
    ensures Sum(ms, (m: Mayor) => Weighted(pairs, w(m)))
         == Weighted(pairs, (b: Ballot) => Sum(ms, (m: Mayor) => w(m)(b)))
  {
    if ms == [] {
      WeightedBounds(pairs, (b: Ballot) => Sum(ms, (m: Mayor) => w(m)(b)), 0, 0);
    } else {
      var init, last := ms[..|ms| - 1], ms[|ms| - 1];
      WeightedSum(pairs, init, w);
      WeightedAdd(pairs,
        (b: Ballot) => Sum(init, (m: Mayor) => w(m)(b)),
        w(last),
        (b: Ballot) => Sum(ms, (m: Mayor) => w(m)(b)));
    }
  }

  /** In a ballot without repeats, the mayor at position `k` is found at `k`. */
  lemma PositionAt(b: Ballot, k: nat)
    requires Distinct(b) && k < |b|
    ensures Position(b, b[k]) == k
  {
  }

  /** One ballot's Borda points over all the mayors it ranks. */
  lemma {:induction false} PointsPrefix(b: Ballot, k: nat)
    requires Distinct(b) && k <= |b|
    ensures Sum(b[..k], (m: Mayor) => |b| - 1 - Position(b, m)) == Tri(|b|) - Tri(|b| - k)
  {
    if k > 0 {
      PointsPrefix(b, k - 1);
      assert b[..k][..k - 1] == b[..k - 1];
      PositionAt(b, k - 1);
    }
  }

  lemma PointsTotal(b: Ballot, ms: seq<Mayor>)
    requires Distinct(b) && Distinct(ms) && Elems(b) == Elems(ms)
    ensures Sum(ms, (m: Mayor) => |b| - 1 - Position(b, m)) == Tri(|b|)
  {
    DistinctMultiset(ms, b);
    SumPermutation(ms, b, (m: Mayor) => |b| - 1 - Position(b, m));
    PointsPrefix(b, |b|);
    assert b[..|b|] == b;
  }

  /** One ballot's margins of `m` over every mayor. */
  lemma {:induction false} MarginsPrefix(b: Ballot, m: Mayor, k: nat)
    requires Distinct(b) && m in b && k <= |b|
    ensures var p := Position(b, m);
      Sum(b[..k], (x: Mayor) => Margin(b, m, x)) == if k <= p then -(k as int) else k - 1 - 2 * p
  {
    if k > 0 {
      MarginsPrefix(b, m, k - 1);
      assert b[..k][..k - 1] == b[..k - 1];
      PositionAt(b, k - 1);
    }
  }

  lemma MarginsTotal(b: Ballot, ms: seq<Mayor>, m: Mayor)
    requires Distinct(b) && Distinct(ms) && Elems(b) == Elems(ms) && m in b
    ensures Sum(ms, (x: Mayor) => Margin(b, m, x)) == |b| - 1 - 2 * Position(b, m)
  {
    DistinctMultiset(ms, b);
    SumPermutation(ms, b, (x: Mayor) => Margin(b, m, x));
    MarginsPrefix(b, m, |b|);
    assert b[..|b|] == b;
  }

  /** The Borda score of every mayor, with `n - 1` points for a first place. */
  function BordaScores(pairs: seq<Pair>): Mayor -> int
    requires |pairs| > 0
  {
    var top := |Mayors(pairs)| - 1;
    (m: Mayor) => Borda(pairs, top, m)
  }

  /** The Borda scores add up to 0 + 1 + ... + (n - 1) points per voter. */
  lemma BordaTotal(pairs: seq<Pair>)
    requires ValidPairs(pairs)
    ensures Sum(Mayors(pairs), BordaScores(pairs)) == Tri(|Mayors(pairs)|) * TotalVotes(pairs)
  {
    var ms := Mayors(pairs);
    var top := |ms| - 1;
    var w := (m: Mayor) => (b: Ballot) => top - Position(b, m);
    MayorsRanked(pairs);
    forall i | 0 <= i < |ms| ensures BordaScores(pairs)(ms[i]) == Weighted(pairs, w(ms[i])) {
      WeightedCongruent(pairs, (b: Ballot) => top - Position(b, ms[i]), w(ms[i]));
    }
    SumCongruent(ms, BordaScores(pairs), (m: Mayor) => Weighted(pairs, w(m)));
    WeightedSum(pairs, ms, w);
    forall i | 0 <= i < |pairs|
      ensures Sum(ms, (m: Mayor) => w(m)(pairs[i].ballot)) == Tri(|ms|)
    {
      var b := pairs[i].ballot;
      SumCongruent(ms, (m: Mayor) => w(m)(b), (m: Mayor) => |b| - 1 - Position(b, m));
      PointsTotal(b, ms);
    }
    WeightedBounds(pairs, (b: Ballot) => Sum(ms, (m: Mayor) => w(m)(b)), Tri(|ms|), Tri(|ms|));
  }

  lemma BordaTotalTwice(pairs: seq<Pair>)
    requires ValidPairs(pairs)
    ensures 2 * Sum(Mayors(pairs), BordaScores(pairs)) == |Mayors(pairs)| * (|Mayors(pairs)| - 1) * TotalVotes(pairs)
  {
    BordaTotal(pairs);
    var n, t := |Mayors(pairs)|, TotalVotes(pairs);
    Doubled(Tri(n), n * (n - 1), t);
  }

  lemma Doubled(x: int, y: int, t: int)
    requires 2 * x == y
    ensures 2 * (x * t) == y * t
  {
  }

  /** Twice a Borda score is the symmetric Borda score plus `n - 1` points
      per voter. */
  lemma BordaSymmetric(pairs: seq<Pair>, m: Mayor)
    requires ValidPairs(pairs) && m in Candidates(pairs)
    ensures var ms := Mayors(pairs);
      2 * BordaScores(pairs)(m) == SymmetricBorda(pairs, ms, m) + (|ms| - 1) * TotalVotes(pairs)
  {
    var ms := Mayors(pairs);
    var top := |ms| - 1;
    var v := (x: Mayor) => (b: Ballot) => Margin(b, m, x);
    MayorsRanked(pairs);
    forall i | 0 <= i < |ms| ensures NetPreference(pairs, m, ms[i]) == Weighted(pairs, v(ms[i])) {
      WeightedCongruent(pairs, (b: Ballot) => Margin(b, m, ms[i]), v(ms[i]));
    }
    SumCongruent(ms, (x: Mayor) => NetPreference(pairs, m, x), (x: Mayor) => Weighted(pairs, v(x)));
    WeightedSum(pairs, ms, v);
    var margins := (b: Ballot) => Sum(ms, (x: Mayor) => v(x)(b));
    var points := (b: Ballot) => top - Position(b, m);
    var twice := (b: Ballot) => 2 * (top - Position(b, m));
    var flat := (b: Ballot) => top;
    forall i | 0 <= i < |pairs| ensures twice(pairs[i].ballot) == margins(pairs[i].ballot) + flat(pairs[i].ballot) {
      var b := pairs[i].ballot;
      assert m in b by { CandidateInAll(pairs, m); }
      SumCongruent(ms, (x: Mayor) => v(x)(b), (x: Mayor) => Margin(b, m, x));
      MarginsTotal(b, ms, m);
    }
    WeightedAdd(pairs, margins, flat, twice);
    WeightedAdd(pairs, points, points, twice);
    WeightedBounds(pairs, flat, top, top);
  }

  /** A mayor that beats every other mayor scores above the mean. */
  lemma CondorcetAboveMean(pairs: seq<Pair>, w: Mayor)
    requires ValidPairs(pairs) && w in Candidates(pairs) && |Mayors(pairs)| >= 2
    requires forall x | x in Candidates(pairs) && x != w :: NetPreference(pairs, w, x) > 0
    ensures |Mayors(pairs)| * BordaScores(pairs)(w) > Sum(Mayors(pairs), BordaScores(pairs))
  {
    var ms := Mayors(pairs);
    var n := |ms|;
    var t := TotalVotes(pairs);
    var s := SymmetricBorda(pairs, ms, w);
    NetPreferenceSelf(pairs, w);
    SumAtLeastOthers(ms, (x: Mayor) => NetPreference(pairs, w, x), w);
    BordaSymmetric(pairs, w);
    BordaTotal(pairs);
    TotalVotesPositive(pairs);
    AboveMeanArithmetic(n, t, s, BordaScores(pairs)(w), Tri(n));
  }

  lemma AboveMeanArithmetic(n: nat, t: int, s: int, bw: int, tri: int)
    requires n >= 2 && t > 0 && s >= n - 1
    requires 2 * bw == s + (n - 1) * t
    requires 2 * tri == n * (n - 1)
    ensures n * bw > tri * t
  {
    assert n * s >= n * (n - 1) by { MulMono(n, n - 1, s); }
    assert 2 * (n * bw) == n * s + n * ((n - 1) * t);
    assert 2 * (tri * t) == n * (n - 1) * t;
    assert n * (n - 1) > 0;
  }

  /** The smallest Borda score is at most the mean. */
  lemma MinAtMostMean(pairs: seq<Pair>, k: nat)
    requires ValidPairs(pairs) && k < |Mayors(pairs)|
    requires forall i | 0 <= i < |Mayors(pairs)| :: BordaScores(pairs)(Mayors(pairs)[k]) <= BordaScores(pairs)(Mayors(pairs)[i])
    ensures |Mayors(pairs)| * BordaScores(pairs)(Mayors(pairs)[k]) <= Sum(Mayors(pairs), BordaScores(pairs))
  {
    var ms := Mayors(pairs);
    SumAtLeast(ms, BordaScores(pairs), BordaScores(pairs)(ms[k]));
  }

  /** When one mayor scores above the mean, another one scores below it. */
  lemma SomeBelowMean(pairs: seq<Pair>, w: Mayor) returns (k: nat)
    requires ValidPairs(pairs) && w in Candidates(pairs)
    requires |Mayors(pairs)| * BordaScores(pairs)(w) > Sum(Mayors(pairs), BordaScores(pairs))
    ensures k < |Mayors(pairs)|
    ensures |Mayors(pairs)| * BordaScores(pairs)(Mayors(pairs)[k]) < Sum(Mayors(pairs), BordaScores(pairs))
  {
    var ms := Mayors(pairs);
    assert w in Elems(ms);
    var j :| 0 <= j < |ms| && ms[j] == w;
    k := MeanUndercut(ms, BordaScores(pairs), j);
  }

  /** Not every mayor scores below the mean. */
  lemma NotAllBelowMean(pairs: seq<Pair>) returns (k: nat)
    requires ValidPairs(pairs) && |Mayors(pairs)| > 0
    ensures k < |Mayors(pairs)|
    ensures |Mayors(pairs)| * BordaScores(pairs)(Mayors(pairs)[k]) >= Sum(Mayors(pairs), BordaScores(pairs))
  {
    k := MeanReached(Mayors(pairs), BordaScores(pairs));
  }
}
