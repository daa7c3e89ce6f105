/** The Schulze beat-path method of social_choice/profile.py
    (`__calc_paths`, `__calc_strength`, `schulze`).

    A path from `a` to `b` through the mayors `ms` is recorded as the list of
    its edge weights, the weight of edge x -> y being the net preference of x
    over y. The strength of `a` over `b` is the largest, over all paths, of
    the weakest edge on the path.

    `PathsAsWritten` follows `__calc_paths` as written: the list of weights
    is reset only after a path reaches the target, so the weights of earlier
    siblings that did not reach it stay at the front of later paths.
    `StrengthAsWrittenBelowDirect` shows the effect on a one-voter profile.
    `Paths` starts every sibling from a fresh list, is what the profile
    class computes, and is the definition every property below is proved
    of. */
module Schulze {
  import opened Seqs
  import opened Ballots

  /** `prefix + weights` for every `weights` of `paths`. */
  function AppendAll(prefix: seq<int>, paths: seq<seq<int>>): (r: seq<seq<int>>)
    ensures |r| == |paths|
    ensures forall i | 0 <= i < |r| :: r[i] == prefix + paths[i]
  {
    seq(|paths|, i requires 0 <= i < |paths| => prefix + paths[i])
  }

  /** One more path extended. */
  lemma AppendAllStep(prefix: seq<int>, paths: seq<seq<int>>, t: nat)
    requires t < |paths|
    ensures AppendAll(prefix, paths[..t + 1]) == AppendAll(prefix, paths[..t]) + [prefix + paths[t]]
  {
  }

  lemma AppendAllOne(prefix: seq<int>, p: seq<int>)
    ensures AppendAll(prefix, [p]) == [prefix + p]
  {
  }

  // ---------------------------------------------------------------------
  // Paths, as intended

  /** The last edge of every path enters `b` from `a` or from a mayor of
      `ms`. */
  ghost predicate EndsInto(pairs: seq<Pair>, paths: seq<seq<int>>, a: Mayor, b: Mayor, ms: seq<Mayor>) {
    forall i | 0 <= i < |paths| :: PathInto(pairs, paths[i], a, b, ms)
  }

  ghost predicate PathInto(pairs: seq<Pair>, p: seq<int>, a: Mayor, b: Mayor, ms: seq<Mayor>) {
    |p| > 0 && exists y: Mayor | (y == a || y in ms) && y != b :: p[|p| - 1] == NetPreference(pairs, y, b)
  }

  /** The weight lists of every simple path from `a` to `b` whose inner
      mayors are drawn from `ms`, in the order `__calc_paths` finds them. */
  function Paths(pairs: seq<Pair>, a: Mayor, b: Mayor, ms: seq<Mayor>): seq<seq<int>>
    requires a !in ms
    decreases |ms|, 2
  {
    PathsUpTo(pairs, a, b, ms, |ms|)
  }

  /** The paths found while scanning `ms[..k]`. */
  function PathsUpTo(pairs: seq<Pair>, a: Mayor, b: Mayor, ms: seq<Mayor>, k: nat): seq<seq<int>>
    requires a !in ms && k <= |ms|
    decreases |ms|, 1, k
  {
    if k == 0 then []
    else PathsUpTo(pairs, a, b, ms, k - 1) + Branch(pairs, a, b, ms, ms[k - 1])
  }

  /** The paths whose first step goes from `a` to `x`. */
  function Branch(pairs: seq<Pair>, a: Mayor, b: Mayor, ms: seq<Mayor>, x: Mayor): seq<seq<int>>
    requires a !in ms && x in ms
    decreases |ms|, 0
  {
    var path := [NetPreference(pairs, a, x)];
    if x == b then [path]
    else AppendAll(path, Paths(pairs, x, b, Without(ms, x)))
  }

  /** One more step of the scan of `ms`. */
  lemma PathsUpToStep(pairs: seq<Pair>, a: Mayor, b: Mayor, ms: seq<Mayor>, k: nat, preference: int)
    requires a !in ms && k < |ms| && preference == NetPreference(pairs, a, ms[k])
    ensures ms[k] != b ==> a !in Without(ms, ms[k]) && |Without(ms, ms[k])| < |ms|
    ensures PathsUpTo(pairs, a, b, ms, k + 1) == PathsUpTo(pairs, a, b, ms, k) +
      if ms[k] == b then [[preference]]
      else AppendAll([preference], Paths(pairs, ms[k], b, Without(ms, ms[k])))
  {
  }

  lemma EndsIntoAppend(pairs: seq<Pair>, ps: seq<seq<int>>, qs: seq<seq<int>>, a: Mayor, b: Mayor, ms: seq<Mayor>)
    requires EndsInto(pairs, ps, a, b, ms) && EndsInto(pairs, qs, a, b, ms)
    ensures EndsInto(pairs, ps + qs, a, b, ms)
  {
    forall i | 0 <= i < |ps + qs| ensures PathInto(pairs, (ps + qs)[i], a, b, ms) {
      if i < |ps| {
        assert (ps + qs)[i] == ps[i];
      } else {
        assert (ps + qs)[i] == qs[i - |ps|];
      }
    }
  }

  /** Every path is non-empty and its last edge enters `b` from `a` or from
      a mayor of `ms`. */
  lemma {:induction false} PathsEnd(pairs: seq<Pair>, a: Mayor, b: Mayor, ms: seq<Mayor>)
    requires a !in ms
    ensures EndsInto(pairs, Paths(pairs, a, b, ms), a, b, ms)
    decreases |ms|, 2
  {
    PathsUpToEnd(pairs, a, b, ms, |ms|);
  }

  lemma {:induction false} PathsUpToEnd(pairs: seq<Pair>, a: Mayor, b: Mayor, ms: seq<Mayor>, k: nat)
    requires a !in ms && k <= |ms|
    ensures EndsInto(pairs, PathsUpTo(pairs, a, b, ms, k), a, b, ms)
    decreases |ms|, 1, k
  {
    if k > 0 {
      PathsUpToEnd(pairs, a, b, ms, k - 1);
      BranchEnd(pairs, a, b, ms, ms[k - 1]);
      EndsIntoAppend(pairs, PathsUpTo(pairs, a, b, ms, k - 1), Branch(pairs, a, b, ms, ms[k - 1]), a, b, ms);
    }
  }

  lemma {:induction false} BranchEnd(pairs: seq<Pair>, a: Mayor, b: Mayor, ms: seq<Mayor>, x: Mayor)
    requires a !in ms && x in ms
    ensures EndsInto(pairs, Branch(pairs, a, b, ms, x), a, b, ms)
    decreases |ms|, 0
  {
    var path := [NetPreference(pairs, a, x)];
    if x == b {
      assert PathInto(pairs, path, a, b, ms);
    } else {
      var rest := Without(ms, x);
      var sub := Paths(pairs, x, b, rest);
      var r := AppendAll(path, sub);
      PathsEnd(pairs, x, b, rest);
      forall i | 0 <= i < |r| ensures PathInto(pairs, r[i], a, b, ms) {
        var p := sub[i];
        assert PathInto(pairs, p, x, b, rest);
        var y: Mayor :| (y == x || y in rest) && y != b && p[|p| - 1] == NetPreference(pairs, y, b);
        assert r[i][|r[i]| - 1] == p[|p| - 1];
      }
    }
  }

  /** The direct edge from `a` to `b` is one of the paths once `b` is
      scanned. */
  lemma {:induction false} PathsUpToDirect(pairs: seq<Pair>, a: Mayor, b: Mayor, ms: seq<Mayor>, k: nat)
    requires a !in ms && k <= |ms|
    ensures b in ms[..k] ==> [NetPreference(pairs, a, b)] in PathsUpTo(pairs, a, b, ms, k)
  {
    if k > 0 {
      var prev := PathsUpTo(pairs, a, b, ms, k - 1);
      var next := Branch(pairs, a, b, ms, ms[k - 1]);
      assert ms[..k] == ms[..k - 1] + [ms[k - 1]];
      PathsUpToDirect(pairs, a, b, ms, k - 1);
      if b in ms[..k - 1] {
        var j :| 0 <= j < |prev| && prev[j] == [NetPreference(pairs, a, b)];
        assert (prev + next)[j] == prev[j];
      } else if b in ms[..k] {
        assert ms[k - 1] == b;
        assert next == [[NetPreference(pairs, a, b)]];
        assert (prev + next)[|prev|] == next[0];
      }
    }
  }

  /** The direct edge is one of the paths. */
  lemma PathsDirect(pairs: seq<Pair>, a: Mayor, b: Mayor, ms: seq<Mayor>)
    requires a !in ms && b in ms
    ensures [NetPreference(pairs, a, b)] in Paths(pairs, a, b, ms)
  {
    PathsUpToDirect(pairs, a, b, ms, |ms|);
    assert ms[..|ms|] == ms;
  }

  /** The weakest edge of a path: Python's `min`. */
  function MinEdge(p: seq<int>): (r: int)
    requires |p| > 0
    ensures exists i | 0 <= i < |p| :: r == p[i]
    ensures forall i | 0 <= i < |p| :: r <= p[i]
  {
    if |p| == 1 then p[0]
    else
      var m := MinEdge(p[..|p| - 1]);
      if p[|p| - 1] < m then p[|p| - 1] else m
  }

  /** The strongest path: Python's `max(map(min, paths))`. */
  function MaxOfMins(paths: seq<seq<int>>): (r: int)
    requires |paths| > 0 && forall i | 0 <= i < |paths| :: |paths[i]| > 0
    ensures exists i | 0 <= i < |paths| :: r == MinEdge(paths[i])
    ensures forall i | 0 <= i < |paths| :: MinEdge(paths[i]) <= r
  {
    if |paths| == 1 then MinEdge(paths[0])
    else
      var m := MaxOfMins(paths[..|paths| - 1]);
      var last := MinEdge(paths[|paths| - 1]);
      if last > m then last else m
  }

  /** `__calc_strength(a, b)` with the mayors other than `a`. */
  function Strength(pairs: seq<Pair>, a: Mayor, b: Mayor, ms: seq<Mayor>): int
    requires a !in ms && b in ms
  {
    PathsEnd(pairs, a, b, ms);
    PathsDirect(pairs, a, b, ms);
    MaxOfMins(Paths(pairs, a, b, ms))
  }

  /** The strength is the weakest edge of some path, and at least the
      weakest edge of every path. */
  lemma StrengthBounds(pairs: seq<Pair>, a: Mayor, b: Mayor, ms: seq<Mayor>)
    requires a !in ms && b in ms
    ensures EndsInto(pairs, Paths(pairs, a, b, ms), a, b, ms)
    ensures exists i | 0 <= i < |Paths(pairs, a, b, ms)| :: Strength(pairs, a, b, ms) == MinEdge(Paths(pairs, a, b, ms)[i])
    ensures forall i | 0 <= i < |Paths(pairs, a, b, ms)| :: MinEdge(Paths(pairs, a, b, ms)[i]) <= Strength(pairs, a, b, ms)
  {
    PathsEnd(pairs, a, b, ms);
    PathsDirect(pairs, a, b, ms);
  }

  /** The beat path is never weaker than the direct comparison. */
  lemma StrengthAtLeastDirect(pairs: seq<Pair>, a: Mayor, b: Mayor, ms: seq<Mayor>)
    requires a !in ms && b in ms
    ensures Strength(pairs, a, b, ms) >= NetPreference(pairs, a, b)
  {
    var paths := Paths(pairs, a, b, ms);
    StrengthBounds(pairs, a, b, ms);
    PathsDirect(pairs, a, b, ms);
    var i :| 0 <= i < |paths| && paths[i] == [NetPreference(pairs, a, b)];
    assert MinEdge(paths[i]) == NetPreference(pairs, a, b);
  }

  /** Every path into a mayor that beats each of the others ends with an
      edge of negative weight, so the strength into that mayor is negative. */
  lemma StrengthIntoWinner(pairs: seq<Pair>, a: Mayor, w: Mayor, ms: seq<Mayor>)
    requires a !in ms && w in ms
    requires forall y | (y == a || y in ms) && y != w :: NetPreference(pairs, w, y) > 0
    ensures Strength(pairs, a, w, ms) < 0
  {
    var paths := Paths(pairs, a, w, ms);
    StrengthBounds(pairs, a, w, ms);
    PathsEnd(pairs, a, w, ms);
    var i :| 0 <= i < |paths| && Strength(pairs, a, w, ms) == MinEdge(paths[i]);
    var p := paths[i];
    var y: Mayor :| (y == a || y in ms) && y != w && p[|p| - 1] == NetPreference(pairs, y, w);
    NetPreferenceAntisymmetric(pairs, w, y);
  }

  // ---------------------------------------------------------------------
  // The Schulze score

  /** `a` wins the comparison with `b`: its strength over `b` (through the
      mayors other than `a`) is strictly above `b`'s over `a`. */
  predicate Beats(pairs: seq<Pair>, mayors: seq<Mayor>, a: Mayor, b: Mayor)
    requires a in mayors && b in mayors && a != b
  {
    Strength(pairs, a, b, Without(mayors, a)) > Strength(pairs, b, a, Without(mayors, b))
  }

  /** `int(strength(m, x) > strength(x, m))` for another mayor `x`. */
  function Win(pairs: seq<Pair>, mayors: seq<Mayor>, m: Mayor, x: Mayor): int {
    if m in mayors && x in mayors && x != m && Beats(pairs, mayors, m, x) then 1 else 0
  }

  /** `Win` for a fixed `m`, as the summed function. */
  function WinOf(pairs: seq<Pair>, mayors: seq<Mayor>, m: Mayor): Mayor -> int {
    (x: Mayor) => Win(pairs, mayors, m, x)
  }

  /** `schulze(m)`: the number of other mayors `m` beats. */
  function SchulzeWins(pairs: seq<Pair>, mayors: seq<Mayor>, m: Mayor): int
    requires m in mayors
  {
    Sum(Without(mayors, m), WinOf(pairs, mayors, m))
  }

  /** The wins counted over the first `k` other mayors. */
  function WinsUpTo(pairs: seq<Pair>, mayors: seq<Mayor>, m: Mayor, k: nat): int
    requires m in mayors && k <= |Without(mayors, m)|
  {
    Sum(Without(mayors, m)[..k], WinOf(pairs, mayors, m))
  }

  /** Counting one more mayor adds its win. */
  lemma WinsUpToStep(pairs: seq<Pair>, mayors: seq<Mayor>, m: Mayor, k: nat)
    requires m in mayors && k < |Without(mayors, m)|
    ensures WinsUpTo(pairs, mayors, m, k + 1) == WinsUpTo(pairs, mayors, m, k) + WinOf(pairs, mayors, m)(Without(mayors, m)[k])
  {
    var others := Without(mayors, m);
    assert others[..k + 1][..k] == others[..k];
  }

  /** The win is 1 exactly when `m` is the stronger. */
  lemma WinValue(pairs: seq<Pair>, mayors: seq<Mayor>, m: Mayor, x: Mayor, s1: int, s2: int)
    requires m in mayors && x in Without(mayors, m)
    requires s1 == Strength(pairs, m, x, Without(mayors, m)) && s2 == Strength(pairs, x, m, Without(mayors, x))
    ensures WinOf(pairs, mayors, m)(x) == if s1 > s2 then 1 else 0
  {
  }

  /** All the others counted. */
  lemma WinsUpToAll(pairs: seq<Pair>, mayors: seq<Mayor>, m: Mayor)
    requires m in mayors
    ensures WinsUpTo(pairs, mayors, m, |Without(mayors, m)|) == SchulzeWins(pairs, mayors, m)
  {
    var others := Without(mayors, m);
    assert others[..|others|] == others;
  }

  /** At most one of two mayors is credited with their comparison. */
  lemma BeatsAsymmetric(pairs: seq<Pair>, mayors: seq<Mayor>, a: Mayor, b: Mayor)
    requires a in mayors && b in mayors && a != b
    ensures !(Beats(pairs, mayors, a, b) && Beats(pairs, mayors, b, a))
  {
  }

  /** A Schulze score counts at most every other mayor. */
  lemma SchulzeWinsBounds(pairs: seq<Pair>, mayors: seq<Mayor>, m: Mayor)
    requires Distinct(mayors) && m in mayors
    ensures 0 <= SchulzeWins(pairs, mayors, m) <= |mayors| - 1
  {
    SumBounds(Without(mayors, m), WinOf(pairs, mayors, m), 0, 1);
  }

  /** A mayor that beats every other mayor head to head beats every other
      mayor on beat paths, and gets the highest possible Schulze score. */
  lemma CondorcetWinnerSchulze(pairs: seq<Pair>, mayors: seq<Mayor>, w: Mayor)
    requires Distinct(mayors) && w in mayors
    requires forall y | y in mayors && y != w :: NetPreference(pairs, w, y) > 0
    ensures SchulzeWins(pairs, mayors, w) == |mayors| - 1
  {
    var others := Without(mayors, w);
    var f := WinOf(pairs, mayors, w);
    forall i | 0 <= i < |others| ensures f(others[i]) == 1 {
      var x := others[i];
      StrengthAtLeastDirect(pairs, w, x, others);
      StrengthIntoWinner(pairs, x, w, Without(mayors, x));
    }
    SumBounds(others, f, 1, 1);
  }

  // ---------------------------------------------------------------------
  // Paths, as written

  /** `__calc_paths` as written, scanning `ms[i..]` with the weight list
      `path` carried over from the earlier siblings. */
  function WalkAsWritten(pairs: seq<Pair>, a: Mayor, b: Mayor, ms: seq<Mayor>, i: nat, path: seq<int>): seq<seq<int>>
    requires a !in ms
    decreases |ms|, 0, |ms| - i
  {
    if i >= |ms| then []
    else
      var x := ms[i];
      var path' := path + [NetPreference(pairs, a, x)];
      if x == b then
        [path'] + WalkAsWritten(pairs, a, b, ms, i + 1, [])
      else
        AppendAll(path', PathsAsWritten(pairs, x, b, Without(ms, x)))
          + WalkAsWritten(pairs, a, b, ms, i + 1, path')
  }

  function PathsAsWritten(pairs: seq<Pair>, a: Mayor, b: Mayor, ms: seq<Mayor>): seq<seq<int>>
    requires a !in ms
    decreases |ms|, 1
  {
    WalkAsWritten(pairs, a, b, ms, 0, [])
  }

  /** The one-voter profile (1, (1, 0, 2)). */
  lemma ExampleNetPreference()
    ensures OneVoter102([Pair(1, [1, 0, 2])])
  {
    var b: Ballot := [1, 0, 2];
    assert Position(b, 1) == 0 && Position(b, 0) == 1 && Position(b, 2) == 2;
    assert [Pair(1, b)][..0] == [];
  }

  /** The net preferences of mayors 0, 1, 2 under a single voter ranking 1,
      then 0, then 2. */
  predicate OneVoter102(pairs: seq<Pair>) {
    && NetPreference(pairs, 0, 1) == -1
    && NetPreference(pairs, 0, 2) == 1
    && NetPreference(pairs, 1, 2) == 1
  }

  /** With one voter ranking 1, 0, 2, mayor 0 beats 2 directly, yet the
      as-written strength of 0 over 2 is -1: the weight -1 of the edge 0 -> 1,
      recorded for the path through 1, stays in the list that then records the
      direct edge 0 -> 2. */
  lemma StrengthAsWrittenBelowDirect()
    ensures var pairs := [Pair(1, [1, 0, 2])];
      && PathsAsWritten(pairs, 0, 2, [1, 2]) == [[-1, 1], [-1, 1]]
      && MaxOfMins(PathsAsWritten(pairs, 0, 2, [1, 2])) == -1
      && NetPreference(pairs, 0, 2) == 1
  {
    ExampleNetPreference();
    PathsAsWrittenExample([Pair(1, [1, 0, 2])]);
  }

  lemma PathsAsWrittenExample(pairs: seq<Pair>)
    requires OneVoter102(pairs)
    ensures PathsAsWritten(pairs, 0, 2, [1, 2]) == [[-1, 1], [-1, 1]]
    ensures MaxOfMins(PathsAsWritten(pairs, 0, 2, [1, 2])) == -1
  {
    SubPathsAsWrittenExample(pairs);
    WalkTailAsWrittenExample(pairs);
    assert [] + [NetPreference(pairs, 0, 1)] == [-1];
    AppendAllOne([-1], [1]);
    assert [-1] + [1] == [-1, 1];
    assert PathsAsWritten(pairs, 0, 2, [1, 2]) == [[-1, 1], [-1, 1]];
    assert MinEdge([-1, 1]) == -1;
  }

  lemma SubPathsAsWrittenExample(pairs: seq<Pair>)
    requires OneVoter102(pairs)
    ensures PathsAsWritten(pairs, 1, 2, Without([1, 2], 1)) == [[1]]
  {
    assert Without([1, 2], 1) == [2] by {
      assert [1, 2][..1] == [1];
    }
    assert WalkAsWritten(pairs, 1, 2, [2], 1, []) == [];
    assert [] + [NetPreference(pairs, 1, 2)] == [1];
  }

  lemma WalkTailAsWrittenExample(pairs: seq<Pair>)
    requires OneVoter102(pairs)
    ensures WalkAsWritten(pairs, 0, 2, [1, 2], 1, [-1]) == [[-1, 1]]
  {
    assert WalkAsWritten(pairs, 0, 2, [1, 2], 2, []) == [];
    assert [-1] + [NetPreference(pairs, 0, 2)] == [-1, 1];
  }

  /** On the same profile the intended strength of 0 over 2 is 1. */
  lemma StrengthExample()
    ensures var pairs := [Pair(1, [1, 0, 2])];
      && Paths(pairs, 0, 2, [1, 2]) == [[-1, 1], [1]]
      && Strength(pairs, 0, 2, [1, 2]) == 1
  {
    ExampleNetPreference();
    PathsExample([Pair(1, [1, 0, 2])]);
  }

  lemma PathsExample(pairs: seq<Pair>)
    requires OneVoter102(pairs)
    ensures Paths(pairs, 0, 2, [1, 2]) == [[-1, 1], [1]]
    ensures Strength(pairs, 0, 2, [1, 2]) == 1
  {
    PathsTwo(pairs, 0, 1, 2);
    StrengthTwo(pairs, 0, 1, 2);
  }

  lemma StrengthTwo(pairs: seq<Pair>, a: Mayor, x: Mayor, b: Mayor)
    requires a != x && a != b && x != b
    ensures var m := if NetPreference(pairs, a, x) < NetPreference(pairs, x, b)
                     then NetPreference(pairs, a, x) else NetPreference(pairs, x, b);
            Strength(pairs, a, b, [x, b]) == if NetPreference(pairs, a, b) < m then m else NetPreference(pairs, a, b)
  {
    PathsTwo(pairs, a, x, b);
    MaxOfMinsTwo(NetPreference(pairs, a, x), NetPreference(pairs, x, b), NetPreference(pairs, a, b));
  }

  /** Through the single mayor `b` the only path is the direct edge. */
  lemma PathsOne(pairs: seq<Pair>, a: Mayor, b: Mayor)
    requires a != b
    ensures Paths(pairs, a, b, [b]) == [[NetPreference(pairs, a, b)]]
  {
    var ms := [b];
    assert PathsUpTo(pairs, a, b, ms, 0) == [];
    assert Branch(pairs, a, b, ms, ms[0]) == [[NetPreference(pairs, a, b)]];
    assert Paths(pairs, a, b, ms) == PathsUpTo(pairs, a, b, ms, 1);
  }

  /** Through the mayors `x`, `b`: first the path a -> x -> b, then the
      direct edge. */
  lemma PathsTwo(pairs: seq<Pair>, a: Mayor, x: Mayor, b: Mayor)
    requires a != x && a != b && x != b
    ensures Paths(pairs, a, b, [x, b])
         == [[NetPreference(pairs, a, x), NetPreference(pairs, x, b)], [NetPreference(pairs, a, b)]]
  {
    var ms := [x, b];
    assert Without(ms, x) == [b] by {
      assert ms[..1] == [x];
      assert Without([x], x) == [] by {
        assert [x][..0] == [];
      }
    }
    PathsOne(pairs, x, b);
    var ax, xb, ab := NetPreference(pairs, a, x), NetPreference(pairs, x, b), NetPreference(pairs, a, b);
    AppendAllOne([ax], [xb]);
    assert [ax] + [xb] == [ax, xb];
    assert Branch(pairs, a, b, ms, ms[0]) == [[ax, xb]];
    assert Branch(pairs, a, b, ms, ms[1]) == [[ab]];
    assert PathsUpTo(pairs, a, b, ms, 1) == [[ax, xb]] by {
      assert PathsUpTo(pairs, a, b, ms, 0) == [];
    }
    assert Paths(pairs, a, b, ms) == PathsUpTo(pairs, a, b, ms, 1) + Branch(pairs, a, b, ms, ms[1]);
  }

  lemma MaxOfMinsTwo(u: int, v: int, w: int)
    ensures MaxOfMins([[u, v], [w]]) == var m := if u < v then u else v; if w < m then m else w
  {
    var paths := [[u, v], [w]];
    assert paths[..1] == [[u, v]];
    assert [u, v][..1] == [u];
  }
}
