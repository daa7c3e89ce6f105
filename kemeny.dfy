/** Kendall-tau distance and the Kemeny-Young brute-force search of
    social_choice/profile.py (`kendalltau_dist`, `kemeny_young`).

    `kendalltau_dist` compares, for every pair of positions i < j, the order
    of the two entries of the first list with the order of the two entries of
    the second list, and counts the pairs where the orders are opposite
    (including, as written, the pairs where both lists hold equal entries).
    `kemeny_young` scans the permutations of 0 .. C-1 in the order
    `itertools.permutations` yields them and keeps the first one with the
    smallest total distance to the ballots. */
module Kemeny {
  import opened Seqs
  import opened Ballots

  // ---------------------------------------------------------------------
  // Kendall-tau distance

  /** 1 when positions `i` and `j` are ordered oppositely by `a` and `b`:
      `numpy.sign(a[i] - a[j]) == -numpy.sign(b[i] - b[j])`. */
  function Discordant(a: seq<int>, b: seq<int>, i: nat, j: nat): int
    requires i < |a| && j < |a| && |a| <= |b|
  {
    if Sign(a[i] - a[j]) == -Sign(b[i] - b[j]) then 1 else 0
  }

  /** The discordant pairs (i, k) with i < k < j. */
  function Row(a: seq<int>, b: seq<int>, i: nat, j: nat): int
    requires i < |a| && j <= |a| && |a| <= |b|
  {
    if j <= i + 1 then 0 else Row(a, b, i, j - 1) + Discordant(a, b, i, j - 1)
  }

  /** The discordant pairs whose first position is below `i`. */
  function Tau(a: seq<int>, b: seq<int>, i: nat): int
    requires i <= |a| <= |b|
  {
    if i == 0 then 0 else Tau(a, b, i - 1) + Row(a, b, i - 1, |a|)
  }

  /** `kendalltau_dist(a, b)`: the discordant pairs of positions of `a`
      (Python raises an `IndexError` when `b` is shorter). */
  function KendallTau(a: seq<int>, b: seq<int>): int
    requires |a| <= |b|
  {
    Tau(a, b, |a|)
  }

  lemma {:induction false} RowSymmetric(a: seq<int>, b: seq<int>, i: nat, j: nat)
    requires |a| == |b| && i < |a| && j <= |a|
    ensures Row(a, b, i, j) == Row(b, a, i, j)
  {
    if j > i + 1 {
      RowSymmetric(a, b, i, j - 1);
    }
  }

  lemma {:induction false} TauSymmetric(a: seq<int>, b: seq<int>, i: nat)
    requires |a| == |b| && i <= |a|
    ensures Tau(a, b, i) == Tau(b, a, i)
  {
    if i > 0 {
      TauSymmetric(a, b, i - 1);
      RowSymmetric(a, b, i - 1, |a|);
    }
  }

  /** The distance does not depend on the order of its arguments. */
  lemma KendallTauSymmetric(a: seq<int>, b: seq<int>)
    requires |a| == |b|
    ensures KendallTau(a, b) == KendallTau(b, a)
  {
    TauSymmetric(a, b, |a|);
  }

  lemma {:induction false} RowSelf(a: seq<int>, i: nat, j: nat)
    requires Distinct(a) && i < |a| && j <= |a|
    ensures Row(a, a, i, j) == 0
  {
    if j > i + 1 {
      RowSelf(a, i, j - 1);
      assert a[i] != a[j - 1];
    }
  }

  lemma {:induction false} TauSelf(a: seq<int>, i: nat)
    requires Distinct(a) && i <= |a|
    ensures Tau(a, a, i) == 0
  {
    if i > 0 {
      TauSelf(a, i - 1);
      RowSelf(a, i - 1, |a|);
    }
  }

  /** A ranking without repeats is at distance 0 from itself. */
  lemma KendallTauSelf(a: seq<int>)
    requires Distinct(a)
    ensures KendallTau(a, a) == 0
  {
    TauSelf(a, |a|);
  }

  lemma {:induction false} RowBounds(a: seq<int>, b: seq<int>, i: nat, j: nat)
    requires i < |a| && j <= |a| <= |b|
    ensures 0 <= Row(a, b, i, j) <= if j <= i + 1 then 0 else j - i - 1
  {
    if j > i + 1 {
      RowBounds(a, b, i, j - 1);
    }
  }

  lemma {:induction false} TauBounds(a: seq<int>, b: seq<int>, i: nat)
    requires i <= |a| <= |b|
    ensures 0 <= 2 * Tau(a, b, i) <= i * (2 * |a| - i - 1)
  {
    if i > 0 {
      TauBounds(a, b, i - 1);
      RowBounds(a, b, i - 1, |a|);
      var n := |a|;
      assert (i - 1) * (2 * n - (i - 1) - 1) + 2 * (n - i) == i * (2 * n - i - 1);
    }
  }

  /** At most every pair of positions is discordant: n(n-1)/2. */
  lemma KendallTauBounds(a: seq<int>, b: seq<int>)
    requires |a| <= |b|
    ensures 0 <= 2 * KendallTau(a, b) <= |a| * (|a| - 1)
  {
    TauBounds(a, b, |a|);
  }

  // ---------------------------------------------------------------------
  // Permutations in the order of itertools.permutations

  /** `x` put in front of every list of `ps`. */
  function PrependAll(x: Mayor, ps: seq<seq<Mayor>>): (r: seq<seq<Mayor>>)
    ensures |r| == |ps|
    ensures forall k | 0 <= k < |r| :: r[k] == [x] + ps[k]
  {
    seq(|ps|, k requires 0 <= k < |ps| => [x] + ps[k])
  }

  /** `s` without the entry at position `i`. */
  function Drop(s: seq<Mayor>, i: nat): (r: seq<Mayor>)
    requires i < |s|
    ensures |r| == |s| - 1
    ensures multiset(r) == multiset(s) - multiset{s[i]}
  {
    assert s == s[..i] + [s[i]] + s[i + 1..];
    s[..i] + s[i + 1..]
  }

  /** `list(itertools.permutations(s))`: every ordering of `s`, the first
      entry running through `s` in order, the rest ordered the same way. */
  function Perms(s: seq<Mayor>): seq<seq<Mayor>>
    decreases |s|, 1
  {
    if s == [] then [[]] else PermsFrom(s, 0)
  }

  /** The orderings of `s` whose first entry is taken from `s[i..]`. */
  function PermsFrom(s: seq<Mayor>, i: nat): seq<seq<Mayor>>
    requires i <= |s|
    decreases |s|, 0, |s| - i
  {
    if i == |s| then []
    else PrependAll(s[i], Perms(Drop(s, i))) + PermsFrom(s, i + 1)
  }

  /** Every enumerated list is a reordering of `s`. */
  lemma {:induction false} PermsSound(s: seq<Mayor>)
    ensures forall k | 0 <= k < |Perms(s)| :: multiset(Perms(s)[k]) == multiset(s)
    decreases |s|, 1
  {
    if s != [] {
      PermsFromSound(s, 0);
    }
  }

  lemma {:induction false} PermsFromSound(s: seq<Mayor>, i: nat)
    requires i <= |s|
    ensures forall k | 0 <= k < |PermsFrom(s, i)| :: multiset(PermsFrom(s, i)[k]) == multiset(s)
    decreases |s|, 0, |s| - i
  {
    if i < |s| {
      var sub := Perms(Drop(s, i));
      var head := PrependAll(s[i], sub);
      var tail := PermsFrom(s, i + 1);
      PermsSound(Drop(s, i));
      PermsFromSound(s, i + 1);
      assert multiset(s) == multiset(Drop(s, i)) + multiset{s[i]};
      forall k | 0 <= k < |head + tail| ensures multiset((head + tail)[k]) == multiset(s) {
        if k < |head| {
          assert (head + tail)[k] == [s[i]] + sub[k];
        } else {
          assert (head + tail)[k] == tail[k - |head|];
        }
      }
    }
  }

  lemma {:induction false} PermsFromContains(s: seq<Mayor>, i: nat, j: nat, p: seq<Mayor>)
    requires i <= j < |s| && p in Perms(Drop(s, j))
    ensures [s[j]] + p in PermsFrom(s, i)
    decreases j - i
  {
    if i == j {
      PermsFromHead(s, i, p);
    } else {
      var q := [s[j]] + p;
      PermsFromContains(s, i + 1, j, p);
      assert q in PermsFrom(s, i + 1);
      PermsFromTail(s, i, q);
    }
  }

  lemma PermsFromHead(s: seq<Mayor>, i: nat, p: seq<Mayor>)
    requires i < |s| && p in Perms(Drop(s, i))
    ensures [s[i]] + p in PermsFrom(s, i)
  {
    var head := PrependAll(s[i], Perms(Drop(s, i)));
    assert PermsFrom(s, i) == head + PermsFrom(s, i + 1);
    var k :| 0 <= k < |Perms(Drop(s, i))| && Perms(Drop(s, i))[k] == p;
    InLeft(head, PermsFrom(s, i + 1), k);
  }

  lemma PermsFromTail(s: seq<Mayor>, i: nat, q: seq<Mayor>)
    requires i < |s| && q in PermsFrom(s, i + 1)
    ensures q in PermsFrom(s, i)
  {
    var head := PrependAll(s[i], Perms(Drop(s, i)));
    var tail := PermsFrom(s, i + 1);
    assert PermsFrom(s, i) == head + tail;
    var k :| 0 <= k < |tail| && tail[k] == q;
    InRight(head, tail, k);
  }

  lemma InLeft(xs: seq<seq<Mayor>>, ys: seq<seq<Mayor>>, k: nat)
    requires k < |xs|
    ensures xs[k] in xs + ys
  {
    assert (xs + ys)[k] == xs[k];
  }

  lemma InRight(xs: seq<seq<Mayor>>, ys: seq<seq<Mayor>>, k: nat)
    requires k < |ys|
    ensures ys[k] in xs + ys
  {
    assert (xs + ys)[|xs| + k] == ys[k];
  }

  /** Every ordering of `s` is enumerated. */
  lemma {:induction false} PermsComplete(s: seq<Mayor>, p: seq<Mayor>)
    requires multiset(p) == multiset(s)
    ensures p in Perms(s)
    decreases |s|
  {
    if s == [] {
      assert p == [];
    } else {
      assert |p| == |s| by {
        assert |multiset(p)| == |p| && |multiset(s)| == |s|;
      }
      assert p[0] in multiset(s) by {
        assert p == [p[0]] + p[1..];
      }
      var j :| 0 <= j < |s| && s[j] == p[0];
      assert multiset(p[1..]) == multiset(Drop(s, j)) by {
        assert p == [p[0]] + p[1..];
      }
      PermsComplete(Drop(s, j), p[1..]);
      PermsFromContains(s, 0, j, p[1..]);
      assert [s[j]] + p[1..] == p;
    }
  }

  /** `range(n)`. */
  function Range(n: nat): (r: seq<Mayor>)
    ensures |r| == n
    ensures forall i | 0 <= i < n :: r[i] == i
  {
    seq(n, i requires 0 <= i < n => i)
  }

  // ---------------------------------------------------------------------
  // Kemeny-Young

  /** The sum, over the distinct ballots, of their distance to `rank`; the
      number of voters behind a ballot is not counted, as written. */
  function TotalDistance(rank: seq<Mayor>, pairs: seq<Pair>): int
    requires forall i | 0 <= i < |pairs| :: |rank| <= |pairs[i].ballot|
  {
    if pairs == [] then 0
    else TotalDistance(rank, pairs[..|pairs| - 1]) + KendallTau(rank, pairs[|pairs| - 1].ballot)
  }

  /** Every ballot is at least as long as the ranks compared with it. */
  predicate LongBallots(pairs: seq<Pair>, n: nat) {
    forall i | 0 <= i < |pairs| :: n <= |pairs[i].ballot|
  }

  /** Every rank of `ranks` has length `n`. */
  predicate RanksOfLength(ranks: seq<seq<Mayor>>, n: nat) {
    forall k | 0 <= k < |ranks| :: |ranks[k]| == n
  }

  /** The index of the first rank of `ranks` with the smallest total
      distance: a later rank replaces the current best only when it is
      strictly closer. */
  function FirstClosest(ranks: seq<seq<Mayor>>, pairs: seq<Pair>, n: nat): (k: nat)
    requires |ranks| > 0 && RanksOfLength(ranks, n) && LongBallots(pairs, n)
    ensures k < |ranks|
    ensures forall j | 0 <= j < |ranks| :: TotalDistance(ranks[k], pairs) <= TotalDistance(ranks[j], pairs)
    ensures forall j | 0 <= j < k :: TotalDistance(ranks[k], pairs) < TotalDistance(ranks[j], pairs)
  {
    if |ranks| == 1 then 0
    else
      var init := ranks[..|ranks| - 1];
      var k := FirstClosest(init, pairs, n);
      assert forall j | 0 <= j < |init| :: init[j] == ranks[j];
      if TotalDistance(ranks[|ranks| - 1], pairs) < TotalDistance(ranks[k], pairs) then |ranks| - 1 else k
  }

  /** The first rank alone is the closest of the first one. */
  lemma FirstClosestFirst(ranks: seq<seq<Mayor>>, pairs: seq<Pair>, n: nat)
    requires |ranks| > 0 && RanksOfLength(ranks, n) && LongBallots(pairs, n)
    ensures RanksOfLength(ranks[..1], n) && FirstClosest(ranks[..1], pairs, n) == 0
  {
  }

  /** A later rank takes over only when it is strictly closer. */
  lemma FirstClosestStep(ranks: seq<seq<Mayor>>, pairs: seq<Pair>, n: nat, k: nat)
    requires 0 < k < |ranks| && RanksOfLength(ranks, n) && LongBallots(pairs, n)
    ensures RanksOfLength(ranks[..k], n) && RanksOfLength(ranks[..k + 1], n)
    ensures var best := FirstClosest(ranks[..k], pairs, n);
      FirstClosest(ranks[..k + 1], pairs, n) ==
        if TotalDistance(ranks[k], pairs) < TotalDistance(ranks[best], pairs) then k else best
  {
    assert ranks[..k + 1][..k] == ranks[..k];
  }

  lemma PermsRangeLength(n: nat)
    ensures |Perms(Range(n))| > 0
    ensures RanksOfLength(Perms(Range(n)), n)
  {
    PermsComplete(Range(n), Range(n));
    PermsSound(Range(n));
    forall k | 0 <= k < |Perms(Range(n))| ensures |Perms(Range(n))[k]| == n {
      assert |multiset(Perms(Range(n))[k])| == |multiset(Range(n))|;
    }
  }

  /** The Kemeny-Young ranking is at least as close to the ballots as every
      ordering of 0 .. n-1. */
  lemma KemenyOptimal(pairs: seq<Pair>, n: nat, p: seq<Mayor>)
    requires LongBallots(pairs, n)
    requires multiset(p) == multiset(Range(n))
    ensures |Perms(Range(n))| > 0 && RanksOfLength(Perms(Range(n)), n)
    ensures |p| == n
    ensures var ranks := Perms(Range(n));
      TotalDistance(ranks[FirstClosest(ranks, pairs, n)], pairs) <= TotalDistance(p, pairs)
  {
    PermsRangeLength(n);
    PermsComplete(Range(n), p);
    assert |multiset(p)| == |multiset(Range(n))|;
  }
}
