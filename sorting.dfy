/** Python's stable `sorted(..., key=..., reverse=True)` and the `maxes`
    helper of social_choice_functions.py. */
module Sorting {
  import opened Seqs

  /** The elements of `xs` whose key is `v`, in their order in `xs`. */
  function WithKey<T>(xs: seq<T>, key: T -> real, v: real): seq<T> {
    if xs == [] then []
    else WithKey(xs[..|xs| - 1], key, v) + (if key(xs[|xs| - 1]) == v then [xs[|xs| - 1]] else [])
  }

  predicate SortedDesc<T>(xs: seq<T>, key: T -> real) {
    forall i, j | 0 <= i < j < |xs| :: key(xs[i]) >= key(xs[j])
  }

  lemma WithKeyAppend<T>(xs: seq<T>, y: T, key: T -> real, v: real)
    ensures WithKey(xs + [y], key, v) == WithKey(xs, key, v) + (if key(y) == v then [y] else [])
  {
    assert (xs + [y])[..|xs|] == xs;
  }

  /** `x` placed after every element whose key is at least its own. */
  function Insert<T>(s: seq<T>, x: T, key: T -> real): (r: seq<T>)
    requires SortedDesc(s, key)
    ensures SortedDesc(r, key)
    ensures multiset(r) == multiset(s) + multiset{x}
    ensures forall v :: WithKey(r, key, v) == WithKey(s, key, v) + (if key(x) == v then [x] else [])
  {
    if s == [] then
      assert forall v :: WithKey([x], key, v) == WithKey([], key, v) + (if key(x) == v then [x] else []) by {
        forall v { WithKeyAppend([], x, key, v); }
      }
      [x]
    else
      var init, last := s[..|s| - 1], s[|s| - 1];
      assert s == init + [last];
      if key(last) >= key(x) then
        forall v ensures WithKey(s + [x], key, v) == WithKey(s, key, v) + (if key(x) == v then [x] else []) {
          WithKeyAppend(s, x, key, v);
        }
        s + [x]
      else
        var r0 := Insert(init, x, key);
        InsertBefore(init, last, x, key, r0);
        r0 + [last]
  }

  /** The case of `Insert` where `x` goes before the last element. */
  lemma InsertBefore<T>(init: seq<T>, last: T, x: T, key: T -> real, r0: seq<T>)
    requires SortedDesc(init + [last], key) && key(last) < key(x)
    requires SortedDesc(r0, key)
    requires multiset(r0) == multiset(init) + multiset{x}
    requires forall v :: WithKey(r0, key, v) == WithKey(init, key, v) + (if key(x) == v then [x] else [])
    ensures SortedDesc(r0 + [last], key)
    ensures multiset(r0 + [last]) == multiset(init + [last]) + multiset{x}
    ensures forall v :: WithKey(r0 + [last], key, v)
                     == WithKey(init + [last], key, v) + (if key(x) == v then [x] else [])
  {
    InsertBeforeSorted(init, last, x, key, r0);
    forall v ensures WithKey(r0 + [last], key, v) == WithKey(init + [last], key, v) + (if key(x) == v then [x] else []) {
      WithKeyAppend(r0, last, key, v);
      WithKeyAppend(init, last, key, v);
    }
  }

  /** Every element before the insertion point keys at least as high as `last`. */
  lemma InsertBeforeAbove<T>(init: seq<T>, last: T, x: T, key: T -> real, r0: seq<T>)
    requires SortedDesc(init + [last], key) && key(last) < key(x)
    requires multiset(r0) == multiset(init) + multiset{x}
    ensures forall y | y in multiset(r0) :: key(y) >= key(last)
  {
    var s := init + [last];
    forall y | y in multiset(r0) ensures key(y) >= key(last) {
      if y in multiset(init) {
        var i :| 0 <= i < |init| && init[i] == y;
        assert s[i] == y && s[|init|] == last;
      }
    }
  }

  lemma InsertBeforeSorted<T>(init: seq<T>, last: T, x: T, key: T -> real, r0: seq<T>)
    requires SortedDesc(init + [last], key) && key(last) < key(x)
    requires SortedDesc(r0, key)
    requires multiset(r0) == multiset(init) + multiset{x}
    ensures SortedDesc(r0 + [last], key)
  {
    InsertBeforeAbove(init, last, x, key, r0);
    var r := r0 + [last];
    forall i, j | 0 <= i < j < |r| ensures key(r[i]) >= key(r[j]) {
      if j == |r0| {
        assert r[i] == r0[i];
        assert r[i] in multiset(r0);
      } else {
        assert r[i] == r0[i] && r[j] == r0[j];
      }
    }
  }

  /** A stable sort into descending key order: Python's
      `sorted(xs, key=key, reverse=True)`. */
  function SortDesc<T>(xs: seq<T>, key: T -> real): (r: seq<T>)
    ensures SortedDesc(r, key)
    ensures multiset(r) == multiset(xs)
    ensures forall v :: WithKey(r, key, v) == WithKey(xs, key, v)
  {
    if xs == [] then []
    else
      var init, last := xs[..|xs| - 1], xs[|xs| - 1];
      assert xs == init + [last];
      var r := Insert(SortDesc(init, key), last, key);
      forall v ensures WithKey(r, key, v) == WithKey(xs, key, v) {
        WithKeyAppend(init, last, key, v);
      }
      r
  }

  /** Sorting a list that is already in order leaves it as it is. */
  lemma {:induction false} SortDescSorted<T>(xs: seq<T>, key: T -> real)
    requires SortedDesc(xs, key)
    ensures SortDesc(xs, key) == xs
  {
    if xs != [] {
      var init, last := xs[..|xs| - 1], xs[|xs| - 1];
      assert xs == init + [last];
      SortDescSorted(init, key);
      if init != [] {
        assert init[|init| - 1] == xs[|xs| - 2];
      }
    }
  }

  /** Every element occurs among the elements with its own key. */
  lemma {:induction false} WithKeyHas<T>(xs: seq<T>, key: T -> real, i: nat)
    requires i < |xs|
    ensures xs[i] in WithKey(xs, key, key(xs[i]))
  {
    var n := |xs|;
    if i < n - 1 {
      WithKeyHas(xs[..n - 1], key, i);
    }
  }

  /** Two elements with the same key keep their relative order among the
      elements with that key. */
  lemma {:induction false} WithKeyOrder<T>(xs: seq<T>, key: T -> real, i: nat, j: nat) returns (p: nat, q: nat)
    requires i < j < |xs| && key(xs[i]) == key(xs[j])
    ensures p < q < |WithKey(xs, key, key(xs[i]))|
    ensures WithKey(xs, key, key(xs[i]))[p] == xs[i]
    ensures WithKey(xs, key, key(xs[i]))[q] == xs[j]
  {
    var n := |xs|;
    var init := xs[..n - 1];
    var v := key(xs[i]);
    if j < n - 1 {
      p, q := WithKeyOrder(init, key, i, j);
    } else {
      assert xs[i] == init[i];
      WithKeyHas(init, key, i);
      var w := WithKey(init, key, v);
      p :| 0 <= p < |w| && w[p] == xs[i];
      q := |w|;
    }
  }

  /** Keeping the elements with one key keeps an increasing order of ids. */
  lemma {:induction false} WithKeyIncreasing<T>(xs: seq<T>, key: T -> real, id: T -> int, v: real)
    requires forall i, j | 0 <= i < j < |xs| :: id(xs[i]) < id(xs[j])
    ensures var w := WithKey(xs, key, v);
      forall i, j | 0 <= i < j < |w| :: id(w[i]) < id(w[j])
  {
    if xs != [] {
      var n := |xs|;
      var init, last := xs[..n - 1], xs[n - 1];
      assert forall i, j | 0 <= i < j < |init| :: id(init[i]) < id(init[j]) by {
        forall i, j | 0 <= i < j < |init| ensures id(init[i]) < id(init[j]) {
          assert init[i] == xs[i] && init[j] == xs[j];
        }
      }
      WithKeyIncreasing(init, key, id, v);
      var w0 := WithKey(init, key, v);
      forall k | 0 <= k < |w0| ensures id(w0[k]) < id(last) {
        WithKeyFrom(init, key, v, w0[k]);
        var i :| 0 <= i < |init| && init[i] == w0[k];
        assert init[i] == xs[i];
      }
      var w := WithKey(xs, key, v);
      assert w == w0 + (if key(last) == v then [last] else []);
      forall i, j | 0 <= i < j < |w| ensures id(w[i]) < id(w[j]) {
        assert w[i] == w0[i];
        if j < |w0| {
          assert w[j] == w0[j];
        }
      }
    }
  }

  lemma {:induction false} WithKeyFrom<T>(xs: seq<T>, key: T -> real, v: real, y: T)
    requires y in WithKey(xs, key, v)
    ensures y in xs
  {
    var n := |xs|;
    if y != xs[n - 1] {
      WithKeyFrom(xs[..n - 1], key, v, y);
    }
  }

  /** A stable sort of a list ordered by increasing id puts equal keys in
      increasing id order. */
  lemma StableTies<T>(xs: seq<T>, r: seq<T>, key: T -> real, id: T -> int)
    requires forall v :: WithKey(r, key, v) == WithKey(xs, key, v)
    requires forall i, j | 0 <= i < j < |xs| :: id(xs[i]) < id(xs[j])
    ensures forall i, j | 0 <= i < j < |r| && key(r[i]) == key(r[j]) :: id(r[i]) < id(r[j])
  {
    forall i, j | 0 <= i < j < |r| && key(r[i]) == key(r[j]) ensures id(r[i]) < id(r[j]) {
      TieOrdered(xs, r, key, id, i, j);
    }
  }

  lemma TieOrdered<T>(xs: seq<T>, r: seq<T>, key: T -> real, id: T -> int, i: nat, j: nat)
    requires i < j < |r| && key(r[i]) == key(r[j])
    requires WithKey(r, key, key(r[i])) == WithKey(xs, key, key(r[i]))
    requires forall i, j | 0 <= i < j < |xs| :: id(xs[i]) < id(xs[j])
    ensures id(r[i]) < id(r[j])
  {
    var p, q := WithKeyOrder(r, key, i, j);
    WithKeyIncreasing(xs, key, id, key(r[i]));
  }

  // ---------------------------------------------------------------------
  // maxes

  /** The largest key of a non-empty list. */
  function MaxKey<T>(items: seq<T>, key: T -> int): (m: int)
    requires |items| > 0
    ensures exists i | 0 <= i < |items| :: key(items[i]) == m
    ensures forall i | 0 <= i < |items| :: key(items[i]) <= m
  {
    if |items| == 1 then key(items[0])
    else
      var init, last := items[..|items| - 1], items[|items| - 1];
      var m0 := MaxKey(init, key);
      assert forall i | 0 <= i < |items| - 1 :: items[i] == init[i];
      if key(last) > m0 then key(last) else m0
  }

  /** The items whose key is `v`, in order. */
  function KeyIs<T>(items: seq<T>, key: T -> int, v: int): (r: seq<T>)
    ensures |r| <= |items|
    ensures forall i | 0 <= i < |r| :: key(r[i]) == v
  {
    if items == [] then []
    else KeyIs(items[..|items| - 1], key, v) + (if key(items[|items| - 1]) == v then [items[|items| - 1]] else [])
  }

  lemma {:induction false} KeyIsNone<T>(items: seq<T>, key: T -> int, v: int)
    requires forall i | 0 <= i < |items| :: key(items[i]) < v
    ensures KeyIs(items, key, v) == []
  {
    if items != [] {
      KeyIsNone(items[..|items| - 1], key, v);
    }
  }

  lemma {:induction false} KeyIsAttained<T>(items: seq<T>, key: T -> int, i: nat)
    requires i < |items|
    ensures KeyIs(items, key, key(items[i])) != []
  {
    var n := |items|;
    if i < n - 1 {
      KeyIsAttained(items[..n - 1], key, i);
    }
  }

  /** The items whose key is `v` are exactly those of `items` with that key. */
  lemma {:induction false} KeyIsMember<T>(items: seq<T>, key: T -> int, v: int, x: T)
    ensures x in KeyIs(items, key, v) <==> x in items && key(x) == v
  {
    if items != [] {
      var init := items[..|items| - 1];
      assert items == init + [items[|items| - 1]];
      KeyIsMember(init, key, v, x);
    }
  }

  /** `maxes(items, key)`: every item whose key is the largest, in order.
      The first item always becomes the current best because Python 2 orders
      every number above `None`. */
  method Maxes<T>(items: seq<T>, key: T -> int) returns (bests: seq<T>)
    ensures items == [] ==> bests == []
    ensures items != [] ==> bests == KeyIs(items, key, MaxKey(items, key)) && bests != []
  {
    var keyOfBest: Option<int> := None;
    bests := [];
    var i := 0;
    while i < |items|
      invariant 0 <= i <= |items|
      invariant i == 0 ==> keyOfBest == None && bests == []
      invariant i > 0 ==> keyOfBest == Some(MaxKey(items[..i], key))
      invariant i > 0 ==> bests == KeyIs(items[..i], key, MaxKey(items[..i], key))
    {
      var item := items[i];
      var keyOfItem := key(item);
      assert items[..i + 1][..i] == items[..i];
      if keyOfBest == None || keyOfItem > keyOfBest.value {
        KeyIsNone(items[..i], key, keyOfItem);
        bests := [item];
        keyOfBest := Some(keyOfItem);
      } else if keyOfItem == keyOfBest.value {
        bests := bests + [item];
      }
      i := i + 1;
    }
    assert items[..i] == items;
    if items != [] {
      var j :| 0 <= j < |items| && key(items[j]) == MaxKey(items, key);
      KeyIsAttained(items, key, j);
    }
  }
}
