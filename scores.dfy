/** The pairwise scoring rules shared by the three generations of the
    source: Copeland, symmetric Borda, Simpson, and Condorcet winners. `ms` is
    the list of mayors in the order the source iterates them. */
module Scores {
  import opened Seqs
  import opened Ballots

  /** `copeland` / `copelandScore`: one point per mayor `m` beats, minus one
      per mayor that beats `m`, summed over every mayor including `m` itself. */
  function Copeland(pairs: seq<Pair>, ms: seq<Mayor>, m: Mayor): int {
    Sum(ms, (x: Mayor) => Sign(NetPreference(pairs, m, x)))
  }

  /** `symmetric_borda` / `symmetricBordaScore`: the sum of `m`'s net
      preferences over every mayor. */
  function SymmetricBorda(pairs: seq<Pair>, ms: seq<Mayor>, m: Mayor): int {
    Sum(ms, (x: Mayor) => NetPreference(pairs, m, x))
  }

  /** The Copeland score lies within one point per other mayor, because the
      comparison of `m` with itself contributes sign(0) = 0. */
  lemma CopelandBounds(pairs: seq<Pair>, ms: seq<Mayor>, m: Mayor)
    requires m in ms
    ensures -(|ms| - 1) <= Copeland(pairs, ms, m) <= |ms| - 1
  {
    NetPreferenceSelf(pairs, m);
    SumBoundsExcept(ms, (x: Mayor) => Sign(NetPreference(pairs, m, x)), m, -1, 1);
  }

  /** The symmetric Borda score lies within the number of voters per other
      mayor. */
  lemma SymmetricBordaBounds(pairs: seq<Pair>, ms: seq<Mayor>, m: Mayor)
    requires m in ms
    ensures -(|ms| - 1) * TotalVotes(pairs) <= SymmetricBorda(pairs, ms, m) <= (|ms| - 1) * TotalVotes(pairs)
  {
    var t := TotalVotes(pairs);
    NetPreferenceSelf(pairs, m);
    forall x | x in ms ensures -t <= NetPreference(pairs, m, x) <= t {
      NetPreferenceBounds(pairs, m, x);
    }
    SumBoundsExcept(ms, (x: Mayor) => NetPreference(pairs, m, x), m, -t, t);
    NegMul(t, |ms| - 1);
  }

  lemma NegMul(t: int, n: int)
    ensures -t * n == -n * t && t * n == n * t
  {
  }

  /** The smallest value of `f` over a non-empty list; Python's `min`. */
  function MinOf(xs: seq<Mayor>, f: Mayor -> int): (r: int)
    requires |xs| > 0
    ensures exists i | 0 <= i < |xs| :: r == f(xs[i])
    ensures forall i | 0 <= i < |xs| :: r <= f(xs[i])
  {
    if |xs| == 1 then f(xs[0])
    else
      var rest := MinOf(xs[1..], f);
      assert forall i | 1 <= i < |xs| :: xs[i] == xs[1..][i - 1];
      if f(xs[0]) <= rest then f(xs[0]) else rest
  }

  /** `simpson` / `simpsonScore`: the worst net preference of `m` over
      another mayor (Python's `min` raises when there is no other mayor).
      What it is, `SimpsonBounds` states. */
  function Simpson(pairs: seq<Pair>, ms: seq<Mayor>, m: Mayor): int
    requires Without(ms, m) != []
  {
    MinOf(Without(ms, m), (y: Mayor) => NetPreference(pairs, m, y))
  }

  /** The Simpson score is the net preference of `m` over some other mayor,
      and no larger than that over any other mayor. */
  lemma SimpsonBounds(pairs: seq<Pair>, ms: seq<Mayor>, m: Mayor)
    requires Without(ms, m) != []
    ensures exists x | x in ms && x != m :: Simpson(pairs, ms, m) == NetPreference(pairs, m, x)
    ensures forall x | x in ms && x != m :: Simpson(pairs, ms, m) <= NetPreference(pairs, m, x)
  {
    var others := Without(ms, m);
    var r := Simpson(pairs, ms, m);
    var i :| 0 <= i < |others| && r == NetPreference(pairs, m, others[i]);
    assert others[i] in others;
    forall y | y in ms && y != m ensures r <= NetPreference(pairs, m, y) {
      assert y in others;
      var j :| 0 <= j < |others| && others[j] == y;
    }
  }

  /** The Simpson score is the only value that is both attained and a
      lower bound. */
  lemma SimpsonIs(pairs: seq<Pair>, ms: seq<Mayor>, m: Mayor, v: int, y: Mayor)
    requires Without(ms, m) != []
    requires y in ms && y != m && v == NetPreference(pairs, m, y)
    requires forall x | x in ms && x != m :: v <= NetPreference(pairs, m, x)
    ensures v == Simpson(pairs, ms, m)
  {
    SimpsonBounds(pairs, ms, m);
  }

  /** The same, with the other mayors listed in order. */
  lemma SimpsonOfOthers(pairs: seq<Pair>, ms: seq<Mayor>, m: Mayor, v: int, at: nat)
    requires at < |Without(ms, m)| && v == NetPreference(pairs, m, Without(ms, m)[at])
    requires forall i | 0 <= i < |Without(ms, m)| :: v <= NetPreference(pairs, m, Without(ms, m)[i])
    ensures v == Simpson(pairs, ms, m)
  {
    var others := Without(ms, m);
    forall x | x in ms && x != m ensures v <= NetPreference(pairs, m, x) {
      assert x in others;
      var j :| 0 <= j < |others| && others[j] == x;
    }
    SimpsonIs(pairs, ms, m, v, others[at]);
  }

  /** Among two or more distinct mayors, every mayor has another one. */
  lemma OtherMayors(ms: seq<Mayor>)
    requires Distinct(ms) && |ms| >= 2
    ensures forall m: Mayor :: Without(ms, m) != []
  {
    forall m: Mayor ensures Without(ms, m) != [] {
      if m in ms {
        assert |Without(ms, m)| == |ms| - 1;
      } else {
        assert Without(ms, m) == ms;
      }
    }
  }

  /** `m` loses to no mayor. */
  predicate IsCondorcetWinner(pairs: seq<Pair>, ms: seq<Mayor>, m: Mayor) {
    forall x | x in ms :: NetPreference(pairs, m, x) >= 0
  }

  /** `condorcet_winners` / `condorcetWinners`. */
  function CondorcetWinners(pairs: seq<Pair>, ms: seq<Mayor>): (r: set<Mayor>)
    ensures r <= Elems(ms)
  {
    set m | m in ms && IsCondorcetWinner(pairs, ms, m)
  }

  /** A mayor is a Condorcet winner exactly when its Simpson score is not
      negative. */
  lemma CondorcetIffSimpson(pairs: seq<Pair>, ms: seq<Mayor>, m: Mayor)
    requires m in ms && Without(ms, m) != []
    ensures m in CondorcetWinners(pairs, ms) <==> Simpson(pairs, ms, m) >= 0
  {
    SimpsonBounds(pairs, ms, m);
    NetPreferenceSelf(pairs, m);
  }

  /** A mayor that beats every other mayor is the only Condorcet winner. */
  lemma StrictCondorcetUnique(pairs: seq<Pair>, ms: seq<Mayor>, w: Mayor)
    requires w in ms
    requires forall x | x in ms && x != w :: NetPreference(pairs, w, x) > 0
    ensures CondorcetWinners(pairs, ms) == {w}
  {
    NetPreferenceSelf(pairs, w);
    forall m | m in ms && m != w ensures !IsCondorcetWinner(pairs, ms, m) {
      NetPreferenceAntisymmetric(pairs, w, m);
    }
  }
}
