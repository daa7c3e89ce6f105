/** Sequence helpers shared by every part of the model: distinctness, sums
    taken from the back (so that a loop over a prefix can track them), and
    removal of one element with the order of the others kept. */
module Seqs {

  /** A value that may be missing: Python's `None` or a value. */
  datatype Option<T> = None | Some(value: T)

  /** No element occurs twice. */
  predicate Distinct<T(==)>(s: seq<T>) {
    forall i, j | 0 <= i < j < |s| :: s[i] != s[j]
  }

  /** Strictly increasing, hence also distinct. */
  predicate Increasing(s: seq<int>) {
    forall i, j | 0 <= i < j < |s| :: s[i] < s[j]
  }

  /** The sum of `f` over the elements of `xs`. */
  function Sum<T>(xs: seq<T>, f: T -> int): int {
    if xs == [] then 0 else Sum(xs[..|xs| - 1], f) + f(xs[|xs| - 1])
  }

  lemma {:induction false} SumAppend<T>(xs: seq<T>, ys: seq<T>, f: T -> int)
    ensures Sum(xs + ys, f) == Sum(xs, f) + Sum(ys, f)
    decreases |ys|
  {
    if ys == [] {
      assert xs + ys == xs;
    } else {
      assert (xs + ys)[..|xs + ys| - 1] == xs + ys[..|ys| - 1];
      SumAppend(xs, ys[..|ys| - 1], f);
    }
  }

  /** Sums are linear in the summed function. */
  lemma {:induction false} SumAdd<T>(xs: seq<T>, f: T -> int, g: T -> int, h: T -> int)
    requires forall x :: h(x) == f(x) + g(x)
    ensures Sum(xs, h) == Sum(xs, f) + Sum(xs, g)
  {
    if xs != [] {
      SumAdd(xs[..|xs| - 1], f, g, h);
    }
  }

  /** Two functions that agree on the elements have the same sum. */
  lemma {:induction false} SumCongruent<T>(xs: seq<T>, f: T -> int, g: T -> int)
    requires forall i | 0 <= i < |xs| :: f(xs[i]) == g(xs[i])
    ensures Sum(xs, f) == Sum(xs, g)
  {
    if xs != [] {
      SumCongruent(xs[..|xs| - 1], f, g);
    }
  }

  /** Over distinct elements, a function that is zero everywhere but at `k`
      sums to its value at `k` when `k` occurs, and to zero otherwise. */
  lemma {:induction false} SumSingleOut<T>(xs: seq<T>, f: T -> int, k: T, v: int)
    requires Distinct(xs)
    requires forall x :: f(x) == (if x == k then v else 0)
    ensures Sum(xs, f) == (if k in xs then v else 0)
  {
    if xs != [] {
      var init := xs[..|xs| - 1];
      assert xs == init + [xs[|xs| - 1]];
      SumSingleOut(init, f, k, v);
      if xs[|xs| - 1] == k {
        assert k !in init;
      }
    }
  }

  /** Bounds on every term bound the sum. */
  lemma {:induction false} SumBounds<T>(xs: seq<T>, f: T -> int, lo: int, hi: int)
    requires forall i | 0 <= i < |xs| :: lo <= f(xs[i]) <= hi
    ensures lo * |xs| <= Sum(xs, f) <= hi * |xs|
  {
    if xs != [] {
      var n := |xs|;
      SumBounds(xs[..n - 1], f, lo, hi);
      assert lo * n == lo * (n - 1) + lo;
      assert hi * n == hi * (n - 1) + hi;
    }
  }

  /** When one element contributes nothing, bounds on the other terms (that
      bracket zero) bound the sum by one term fewer. */
  lemma {:induction false} SumBoundsExcept<T>(xs: seq<T>, f: T -> int, k: T, lo: int, hi: int)
    requires k in xs && f(k) == 0 && lo <= 0 <= hi
    requires forall i | 0 <= i < |xs| :: xs[i] != k ==> lo <= f(xs[i]) <= hi
    ensures lo * (|xs| - 1) <= Sum(xs, f) <= hi * (|xs| - 1)
  {
    var n := |xs|;
    var init, last := xs[..n - 1], xs[n - 1];
    assert xs == init + [last];
    if last == k {
      assert forall i | 0 <= i < |init| :: lo <= f(init[i]) <= hi by {
        forall i | 0 <= i < |init| ensures lo <= f(init[i]) <= hi {
          assert init[i] == xs[i];
        }
      }
      SumBounds(init, f, lo, hi);
    } else {
      assert k in init;
      forall i | 0 <= i < |init| ensures init[i] != k ==> lo <= f(init[i]) <= hi {
        assert init[i] == xs[i];
      }
      SumBoundsExcept(init, f, k, lo, hi);
      assert Sum(xs, f) == Sum(init, f) + f(last);
      assert lo <= f(last) <= hi by {
        assert xs[n - 1] == last;
      }
      MulStep(lo, n - 2);
      MulStep(hi, n - 2);
    }
  }

  lemma MulStep(c: int, m: int)
    ensures c * (m + 1) == c * m + c
  {
  }

  /** `s` with every occurrence of `x` dropped, the rest in their order: the
      source's `set - {x}` over a set iterated in a fixed order. */
  function Without<T(==)>(s: seq<T>, x: T): (r: seq<T>)
    ensures forall y | y in r :: y in s && y != x
    ensures forall y | y in s && y != x :: y in r
    ensures Distinct(s) ==> Distinct(r)
    ensures Distinct(s) && x in s ==> |r| == |s| - 1
    ensures x in s ==> |r| < |s|
    ensures |r| <= |s|
    ensures x !in s ==> r == s
  {
    if s == [] then []
    else
      var init, last := s[..|s| - 1], s[|s| - 1];
      assert s == init + [last];
      assert Distinct(s) ==> Distinct(init) && last !in init;
      var r := Without(init, x) + (if last == x then [] else [last]);
      assert Distinct(s) ==> last !in Without(init, x);
      r
  }

  /** The elements of `s` as a set. */
  function Elems<T>(s: seq<T>): set<T> {
    set x | x in s
  }

  /** Without its last element a duplicate-free sequence stays duplicate-free
      and no longer holds that element. */
  lemma DistinctInit<T>(s: seq<T>)
    requires Distinct(s) && |s| > 0
    ensures Distinct(s[..|s| - 1]) && s[|s| - 1] !in s[..|s| - 1]
    ensures Elems(s) == Elems(s[..|s| - 1]) + {s[|s| - 1]}
  {
    var init := s[..|s| - 1];
    assert s == init + [s[|s| - 1]];
    ElemsSnoc(init, s[|s| - 1]);
  }

  lemma ElemsSnoc<T>(s: seq<T>, x: T)
    ensures Elems(s + [x]) == Elems(s) + {x}
  {
    assert forall y | y in s + [x] :: y in s || y == x;
  }

  /** A duplicate-free sequence has as many elements as its set. */
  lemma {:induction false} DistinctCard<T>(s: seq<T>)
    requires Distinct(s)
    ensures |Elems(s)| == |s|
  {
    if s != [] {
      var init := s[..|s| - 1];
      assert s == init + [s[|s| - 1]];
      DistinctCard(init);
      assert Elems(s) == Elems(init) + {s[|s| - 1]};
      assert s[|s| - 1] !in Elems(init);
    }
  }

  /** Two duplicate-free sequences over the same set have the same length. */
  lemma SameElemsSameLength<T>(s: seq<T>, t: seq<T>)
    requires Distinct(s) && Distinct(t) && Elems(s) == Elems(t)
    ensures |s| == |t|
  {
    DistinctCard(s);
    DistinctCard(t);
  }

  /** A duplicate-free sequence holds each value at most once. */
  lemma {:induction false} DistinctCount<T>(s: seq<T>, x: T)
    requires Distinct(s)
    ensures multiset(s)[x] <= 1
  {
    if s != [] {
      var init := s[..|s| - 1];
      assert s == init + [s[|s| - 1]];
      DistinctCount(init, x);
      if x == s[|s| - 1] {
        assert x !in init;
      }
    }
  }

  /** A value found at two positions occurs at least twice. */
  lemma RepeatCount<T>(s: seq<T>, i: nat, j: nat)
    requires i < j < |s| && s[i] == s[j]
    ensures multiset(s)[s[i]] >= 2
  {
    assert s == s[..i] + [s[i]] + s[i + 1..j] + [s[j]] + s[j + 1..];
  }

  /** Reordering keeps a sequence free of repeats. */
  lemma DistinctPermutation<T>(s: seq<T>, t: seq<T>)
    requires Distinct(s) && multiset(s) == multiset(t)
    ensures Distinct(t)
  {
    forall i, j | 0 <= i < j < |t| ensures t[i] != t[j] {
      if t[i] == t[j] {
        RepeatCount(t, i, j);
        DistinctCount(s, t[i]);
      }
    }
  }

  /** The elements of `xs` that satisfy `p`, in order. */
  function Filter<T(==)>(xs: seq<T>, p: T -> bool): (r: seq<T>)
    ensures |r| <= |xs|
    ensures forall x | x in r :: x in xs && p(x)
    ensures forall x | x in xs && p(x) :: x in r
    ensures |r| == |xs| ==> forall i | 0 <= i < |xs| :: p(xs[i])
  {
    if xs == [] then []
    else
      var init, last := xs[..|xs| - 1], xs[|xs| - 1];
      assert xs == init + [last];
      var r := Filter(init, p);
      assert |r| == |init| ==> forall i | 0 <= i < |init| :: p(xs[i]) by {
        if |r| == |init| {
          forall i | 0 <= i < |init| ensures p(xs[i]) {
            assert init[i] == xs[i];
          }
        }
      }
      if p(last) then r + [last] else r
  }

  /** The elements of `xs` that do not satisfy `p`, in order. */
  function FilterOut<T(==)>(xs: seq<T>, p: T -> bool): (r: seq<T>)
    ensures forall x | x in r :: x in xs && !p(x)
    ensures forall x | x in xs && !p(x) :: x in r
  {
    if xs == [] then []
    else
      var init, last := xs[..|xs| - 1], xs[|xs| - 1];
      assert xs == init + [last];
      var r := FilterOut(init, p);
      if p(last) then r else r + [last]
  }

  /** Every element is kept by exactly one of the two filters. */
  lemma {:induction false} FilterPartition<T>(xs: seq<T>, p: T -> bool)
    ensures |Filter(xs, p)| + |FilterOut(xs, p)| == |xs|
  {
    if xs != [] {
      FilterPartition(xs[..|xs| - 1], p);
    }
  }

  /** Filtering keeps a sequence free of repeats. */
  lemma {:induction false} FilterDistinct<T>(xs: seq<T>, p: T -> bool)
    requires Distinct(xs)
    ensures Distinct(Filter(xs, p))
  {
    if xs != [] {
      var init, last := xs[..|xs| - 1], xs[|xs| - 1];
      assert xs == init + [last];
      FilterDistinct(init, p);
      assert last !in init;
    }
  }

  // ---------------------------------------------------------------------
  // Sums over reorderings, scaled sums and means

  /** Two duplicate-free sequences over the same set are reorderings of
      each other. */
  lemma DistinctMultiset<T>(xs: seq<T>, ys: seq<T>)
    requires Distinct(xs) && Distinct(ys) && Elems(xs) == Elems(ys)
    ensures multiset(xs) == multiset(ys)
  {
    forall x ensures multiset(xs)[x] == multiset(ys)[x] {
      DistinctCount(xs, x);
      DistinctCount(ys, x);
      assert x in xs <==> x in Elems(xs);
      assert x in ys <==> x in Elems(ys);
    }
  }

  /** A sum does not depend on the order of its terms. */
  lemma {:induction false} SumPermutation<T>(xs: seq<T>, ys: seq<T>, f: T -> int)
    requires multiset(xs) == multiset(ys)
    ensures Sum(xs, f) == Sum(ys, f)
    decreases |xs|
  {
    if xs == [] {
      assert |ys| == |multiset(ys)| == 0;
    } else {
      var init, last := xs[..|xs| - 1], xs[|xs| - 1];
      assert xs == init + [last];
      assert last in multiset(ys);
      var j :| 0 <= j < |ys| && ys[j] == last;
      var rest := ys[..j] + ys[j + 1..];
      MultisetRemoveLast(xs, ys, j);
      SumPermutation(init, rest, f);
      SumRemoveAt(ys, j, f);
    }
  }

  /** Taking the last element off `xs` and the same element at `j` off a
      permutation `ys` leaves permutations of each other. */
  lemma MultisetRemoveLast<T>(xs: seq<T>, ys: seq<T>, j: nat)
    requires multiset(xs) == multiset(ys) && |xs| > 0 && j < |ys| && ys[j] == xs[|xs| - 1]
    ensures multiset(xs[..|xs| - 1]) == multiset(ys[..j] + ys[j + 1..])
  {
    var init, last := xs[..|xs| - 1], xs[|xs| - 1];
    var before, after := ys[..j], ys[j + 1..];
    assert xs == init + [last];
    assert ys == before + [last] + after;
    var m1, m2 := multiset(init), multiset(before + after);
    assert m1 + multiset{last} == m2 + multiset{last};
    forall z ensures m1[z] == m2[z] {
      assert (m1 + multiset{last})[z] == (m2 + multiset{last})[z];
    }
  }

  /** A sum is the term at `j` plus the sum of the others. */
  lemma SumRemoveAt<T>(ys: seq<T>, j: nat, f: T -> int)
    requires j < |ys|
    ensures Sum(ys, f) == Sum(ys[..j] + ys[j + 1..], f) + f(ys[j])
  {
    var upto, after := ys[..j + 1], ys[j + 1..];
    assert ys == upto + after;
    SumAppend(upto, after, f);
    assert upto[..j] == ys[..j];
    SumAppend(ys[..j], after, f);
  }

  /** Scaling every term scales the sum. */
  lemma {:induction false} SumScale<T>(xs: seq<T>, f: T -> int, g: T -> int, c: int)
    requires forall i | 0 <= i < |xs| :: g(xs[i]) == c * f(xs[i])
    ensures Sum(xs, g) == c * Sum(xs, f)
  {
    if xs != [] {
      var init := xs[..|xs| - 1];
      assert forall i | 0 <= i < |init| :: init[i] == xs[i];
      SumScale(init, f, g, c);
      assert c * Sum(xs, f) == c * Sum(init, f) + c * f(xs[|xs| - 1]);
    }
  }

  /** Terms of at least `c`, one of them above `c`, sum to more than `c`
      per term. */
  lemma {:induction false} SumAbove<T>(xs: seq<T>, f: T -> int, c: int, k: nat)
    requires k < |xs| && f(xs[k]) > c
    requires forall i | 0 <= i < |xs| :: f(xs[i]) >= c
    ensures Sum(xs, f) > c * |xs|
  {
    var n := |xs|;
    var init := xs[..n - 1];
    assert forall i | 0 <= i < n - 1 :: init[i] == xs[i];
    if k == n - 1 {
      SumAtLeast(init, f, c);
    } else {
      SumAbove(init, f, c, k);
    }
    assert c * n == c * (n - 1) + c;
  }

  /** Terms of at least `lo` sum to at least `lo` per term. */
  lemma {:induction false} SumAtLeast<T>(xs: seq<T>, f: T -> int, lo: int)
    requires forall i | 0 <= i < |xs| :: f(xs[i]) >= lo
    ensures Sum(xs, f) >= lo * |xs|
  {
    if xs != [] {
      var n := |xs|;
      assert forall i | 0 <= i < n - 1 :: xs[..n - 1][i] == xs[i];
      SumAtLeast(xs[..n - 1], f, lo);
      assert lo * n == lo * (n - 1) + lo;
    }
  }

  /** Terms of at most `hi` sum to at most `hi` per term. */
  lemma {:induction false} SumAtMost<T>(xs: seq<T>, f: T -> int, hi: int)
    requires forall i | 0 <= i < |xs| :: f(xs[i]) <= hi
    ensures Sum(xs, f) <= hi * |xs|
  {
    if xs != [] {
      var n := |xs|;
      assert forall i | 0 <= i < n - 1 :: xs[..n - 1][i] == xs[i];
      SumAtMost(xs[..n - 1], f, hi);
      assert hi * n == hi * (n - 1) + hi;
    }
  }

  /** Over distinct elements, a function that is 0 at `k` and at least 1
      everywhere else sums to at least one per other element. */
  lemma {:induction false} SumAtLeastOthers<T>(xs: seq<T>, f: T -> int, k: T)
    requires Distinct(xs) && k in xs && f(k) == 0
    requires forall i | 0 <= i < |xs| :: xs[i] != k ==> f(xs[i]) >= 1
    ensures Sum(xs, f) >= |xs| - 1
  {
    var n := |xs|;
    var init, last := xs[..n - 1], xs[n - 1];
    assert xs == init + [last];
    assert forall i | 0 <= i < n - 1 :: init[i] == xs[i];
    if last == k {
      assert forall i | 0 <= i < n - 1 :: init[i] != k;
      SumAtLeast(init, f, 1);
    } else {
      assert k in init;
      SumAtLeastOthers(init, f, k);
    }
  }

  /** Some term is at least the mean. */
  lemma MeanReached<T>(xs: seq<T>, f: T -> int) returns (k: nat)
    requires |xs| > 0
    ensures k < |xs| && |xs| * f(xs[k]) >= Sum(xs, f)
  {
    var n, total := |xs|, Sum(xs, f);
    var scaled := (x: T) => n * f(x);
    SumScale(xs, f, scaled, n);
    if forall i | 0 <= i < n :: scaled(xs[i]) < total {
      SumAtMost(xs, scaled, total - 1);
      assert false;
    }
    k :| 0 <= k < n && scaled(xs[k]) >= total;
  }

  /** When some term is above the mean, another one is below it. */
  lemma MeanUndercut<T>(xs: seq<T>, f: T -> int, j: nat) returns (k: nat)
    requires j < |xs| && |xs| * f(xs[j]) > Sum(xs, f)
    ensures k < |xs| && |xs| * f(xs[k]) < Sum(xs, f)
  {
    var n, total := |xs|, Sum(xs, f);
    var scaled := (x: T) => n * f(x);
    SumScale(xs, f, scaled, n);
    if forall i | 0 <= i < n :: scaled(xs[i]) >= total {
      SumAbove(xs, scaled, total, j);
      assert false;
    }
    k :| 0 <= k < n && scaled(xs[k]) < total;
  }
}
