/** The `Profile` class of social_choice/profile.py: a set of (number of
    voters, ballot) pairs with the tables its constructor derives (the net
    preference graph and the votes at each rank position), the integer
    scoring rules read from those tables, the generic score / ranking /
    winners selection, Raynaud, Kendall-tau and Kemeny-Young, the lazily
    filled Schulze strength table, and the `ballot_box` front end.

    The set of pairs is a sequence without repeats and the set of mayors is
    the ascending sequence in which Python iterates a set of small
    non-negative integers. */
module CurrentProfile {
  import opened Seqs
  import opened Ballots
  import opened Scores
  import opened Sorting
  import opened Schulze
  import opened Kemeny

  /** `__preference(n_votes, i, j)`: the voters' weight with the sign of
      `i - j`, so that for `i` the position of the second mayor and `j` that
      of the first it is positive exactly when the first mayor is ranked
      higher. */
  function Preference(votes: nat, i: int, j: int): (r: int)
    ensures i == j ==> r == 0
    ensures i > j ==> r == votes
    ensures i < j ==> r == -(votes as int)
  {
    var n := i - j;
    if n == 0 then 0 else votes * Sign(n)
  }

  /** `(m, scorer(m))` for every mayor `m` of `ms`, in order. */
  function Listed(ms: seq<Mayor>, scorer: Mayor -> int): (r: seq<(Mayor, int)>)
    ensures |r| == |ms|
    ensures forall i | 0 <= i < |r| :: r[i] == (ms[i], scorer(ms[i]))
  {
    seq(|ms|, i requires 0 <= i < |ms| => (ms[i], scorer(ms[i])))
  }

  /** The sort key of `score`: larger for smaller ids. */
  function ById(x: (Mayor, int)): real {
    -(x.0 as real)
  }

  /** The sort key of `ranking`: the score. */
  function ByScore(x: (Mayor, int)): real {
    x.1 as real
  }

  /** In a list sorted by decreasing score, ties by increasing id, no entry
      has a larger score than the head, nor the same score with a smaller
      id. */
  lemma RankedHead(r: seq<(Mayor, int)>, x: (Mayor, int))
    requires x in r
    requires forall i, j | 0 <= i < j < |r| :: r[i].1 >= r[j].1
    requires forall i, j | 0 <= i < j < |r| && r[i].1 == r[j].1 :: r[i].0 < r[j].0
    ensures x.1 <= r[0].1
    ensures x.0 < r[0].0 ==> x.1 < r[0].1
  {
    var j :| 0 <= j < |r| && r[j] == x;
    if j > 0 {
      assert r[0].1 >= r[j].1;
    }
  }

  /** The head of a sorted permutation of the scores of `ms`. */
  lemma HeadOfRanking(ms: seq<Mayor>, scorer: Mayor -> int, scores: seq<(Mayor, int)>, r: seq<(Mayor, int)>)
    requires |ms| > 0 && |scores| == |ms|
    requires forall i | 0 <= i < |scores| :: scores[i].0 == ms[i] && scores[i].1 == scorer(ms[i])
    requires multiset(r) == multiset(scores)
    requires forall i, j | 0 <= i < j < |r| :: r[i].1 >= r[j].1
    requires forall i, j | 0 <= i < j < |r| && r[i].1 == r[j].1 :: r[i].0 < r[j].0
    ensures |r| == |ms| && r[0].0 in ms && r[0].1 == scorer(r[0].0)
    ensures forall x | x in ms :: scorer(x) <= r[0].1
    ensures forall x | x in ms && x < r[0].0 :: scorer(x) < r[0].1
  {
    assert |r| == |ms| by {
      assert |multiset(r)| == |multiset(scores)|;
    }
    assert r[0] in multiset(scores);
    var k :| 0 <= k < |scores| && scores[k] == r[0];
    forall x | x in ms ensures scorer(x) <= r[0].1 && (x < r[0].0 ==> scorer(x) < r[0].1) {
      var i :| 0 <= i < |ms| && ms[i] == x;
      assert scores[i] in multiset(r);
      RankedHead(r, scores[i]);
    }
  }

  /** The entries tied with the head of a sorted permutation of the scores
      of `ms` are those of the mayors with the top score. */
  lemma RankingMember(ms: seq<Mayor>, scorer: Mayor -> int, scores: seq<(Mayor, int)>, r: seq<(Mayor, int)>, m: Mayor)
    requires |ms| > 0 && |scores| == |ms|
    requires forall i | 0 <= i < |scores| :: scores[i].0 == ms[i] && scores[i].1 == scorer(ms[i])
    requires multiset(r) == multiset(scores)
    requires forall i, j | 0 <= i < j < |r| :: r[i].1 >= r[j].1
    requires forall i, j | 0 <= i < j < |r| && r[i].1 == r[j].1 :: r[i].0 < r[j].0
    ensures |r| > 0
    ensures (exists x | x in r :: x.1 == r[0].1 && x.0 == m) <==> m in ms && forall x | x in ms :: scorer(x) <= scorer(m)
  {
    HeadOfRanking(ms, scorer, scores, r);
    if x :| x in r && x.1 == r[0].1 && x.0 == m {
      assert x in multiset(scores);
      var i :| 0 <= i < |scores| && scores[i] == x;
    }
    if m in ms && forall x | x in ms :: scorer(x) <= scorer(m) {
      var i :| 0 <= i < |ms| && ms[i] == m;
      assert scores[i] in multiset(r);
      assert scores[i] in r;
    }
  }

  /** Listing ascending mayors gives a list the sort by id leaves as it is. */
  lemma ListedSorted(ms: seq<Mayor>, scorer: Mayor -> int)
    requires Increasing(ms)
    ensures SortDesc(Listed(ms, scorer), ById) == Listed(ms, scorer)
  {
    var listed := Listed(ms, scorer);
    assert SortedDesc(listed, ById) by {
      forall i, j | 0 <= i < j < |listed| ensures ById(listed[i]) >= ById(listed[j]) {
        assert listed[i].0 < listed[j].0;
      }
    }
    SortDescSorted(listed, ById);
  }

  /** `g[a][b]` is present and holds the net preference of `a` over `b`. */
  ghost predicate Holds(g: map<Mayor, map<Mayor, int>>, pairs: seq<Pair>, a: Mayor, b: Mayor) {
    a in g && b in g[a] && g[a][b] == NetPreference(pairs, a, b)
  }

  /** `net_preference_graph` is complete over the mayors. */
  ghost predicate IsNetPreferenceGraph(g: map<Mayor, map<Mayor, int>>, pairs: seq<Pair>, ms: seq<Mayor>) {
    forall a, b | a in ms && b in ms :: Holds(g, pairs, a, b)
  }

  /** The net preferences at positions `(x, y)` are in place once `(x, y)`
      comes before row `i`, column `j` of the filling order. */
  ghost predicate HeldBefore(g: map<Mayor, map<Mayor, int>>, pairs: seq<Pair>, ms: seq<Mayor>, i: nat, j: nat) {
    && (forall m | m in ms :: m in g)
    && forall x, y | 0 <= x < |ms| && 0 <= y < |ms| && (x < i || y < i || (x == i && y < j) || (y == i && x < j)) ::
         Holds(g, pairs, ms[x], ms[y])
  }

  /** A finished row `i` starts row `i + 1`. */
  lemma HeldRowEnd(g: map<Mayor, map<Mayor, int>>, pairs: seq<Pair>, ms: seq<Mayor>, i: nat)
    requires HeldBefore(g, pairs, ms, i, |ms|)
    ensures HeldBefore(g, pairs, ms, i + 1, 0)
  {
  }

  /** Every row filled: the graph is complete. */
  lemma HeldAll(g: map<Mayor, map<Mayor, int>>, pairs: seq<Pair>, ms: seq<Mayor>)
    requires HeldBefore(g, pairs, ms, |ms|, 0)
    ensures IsNetPreferenceGraph(g, pairs, ms)
  {
    forall a, b | a in ms && b in ms ensures Holds(g, pairs, a, b) {
      var x :| 0 <= x < |ms| && ms[x] == a;
      var y :| 0 <= y < |ms| && ms[y] == b;
    }
  }

  /** Storing the net preference of `(ms[i], ms[j])` in both directions
      fills column `j` of row `i`. */
  lemma StoreBoth(g: map<Mayor, map<Mayor, int>>, pairs: seq<Pair>, ms: seq<Mayor>, i: nat, j: nat, p: int)
    requires Distinct(ms) && i <= j < |ms| && HeldBefore(g, pairs, ms, i, j)
    requires p == NetPreference(pairs, ms[i], ms[j])
    ensures HeldBefore(Put(Put(g, ms[i], ms[j], p), ms[j], ms[i], -p), pairs, ms, i, j + 1)
  {
    var a, b := ms[i], ms[j];
    var g2 := Put(Put(g, a, b, p), b, a, -p);
    NetPreferenceAntisymmetric(pairs, a, b);
    if i == j {
      NetPreferenceSelf(pairs, a);
    }
    forall x, y | 0 <= x < |ms| && 0 <= y < |ms| && (x < i || y < i || (x == i && y < j + 1) || (y == i && x < j + 1))
      ensures Holds(g2, pairs, ms[x], ms[y])
    {
      if (x == i && y == j) || (x == j && y == i) {
      } else {
        assert ms[x] != a || ms[y] != b;
        assert ms[x] != b || ms[y] != a;
        assert Holds(g, pairs, ms[x], ms[y]);
      }
    }
  }

  /** `votes_per_mayor` holds one row per rank position. */
  ghost predicate IsTally(t: seq<map<Mayor, int>>, pairs: seq<Pair>, ms: seq<Mayor>) {
    |t| == |ms| && forall i | 0 <= i < |ms| :: t[i] == TallyAt(pairs, i, ms)
  }

  /** `g[a][b]` is the (intended) Schulze strength of `a` over `b`. */
  ghost predicate HoldsStrength(pg: map<Mayor, map<Mayor, int>>, pairs: seq<Pair>, ms: seq<Mayor>, a: Mayor, b: Mayor)
    requires a in ms && b in ms && a != b
  {
    a in pg && b in pg[a] && pg[a][b] == Strength(pairs, a, b, Without(ms, a))
  }

  /** `path_preference_graph` is filled for every pair of distinct mayors. */
  ghost predicate StrengthsStored(pg: map<Mayor, map<Mayor, int>>, pairs: seq<Pair>, ms: seq<Mayor>) {
    forall a, b | a in ms && b in ms && a != b :: HoldsStrength(pg, pairs, ms, a, b)
  }

  /** The strengths of every pair of distinct mayors at positions `(x, y)`
      are in place once `(x, y)` comes before row `i`, column `j` of the
      filling order. */
  ghost predicate FilledBefore(pg: map<Mayor, map<Mayor, int>>, pairs: seq<Pair>, ms: seq<Mayor>, i: nat, j: nat) {
    && Distinct(ms)
    && (forall m | m in ms :: m in pg)
    && forall x, y | 0 <= x < |ms| && 0 <= y < |ms| && x != y && (x < i || y < i || (x == i && y < j) || (y == i && x < j)) ::
         HoldsStrength(pg, pairs, ms, ms[x], ms[y])
  }

  /** Starting row `i`: the pairs with a coordinate below `i` cover every
      pair before column `i + 1`. */
  lemma FilledRowStart(pg: map<Mayor, map<Mayor, int>>, pairs: seq<Pair>, ms: seq<Mayor>, i: nat)
    requires FilledBefore(pg, pairs, ms, i, 0)
    ensures FilledBefore(pg, pairs, ms, i, i + 1)
  {
  }

  /** A finished row `i` starts row `i + 1`. */
  lemma FilledRowEnd(pg: map<Mayor, map<Mayor, int>>, pairs: seq<Pair>, ms: seq<Mayor>, i: nat)
    requires FilledBefore(pg, pairs, ms, i, |ms|)
    ensures FilledBefore(pg, pairs, ms, i + 1, 0)
  {
  }

  /** Every row filled: every strength is stored. */
  lemma FilledAll(pg: map<Mayor, map<Mayor, int>>, pairs: seq<Pair>, ms: seq<Mayor>)
    requires FilledBefore(pg, pairs, ms, |ms|, 0)
    ensures StrengthsStored(pg, pairs, ms)
  {
    forall a, b | a in ms && b in ms && a != b ensures HoldsStrength(pg, pairs, ms, a, b) {
      var x :| 0 <= x < |ms| && ms[x] == a;
      var y :| 0 <= y < |ms| && ms[y] == b;
    }
  }

  /** Storing the strengths of `(ms[i], ms[j])` in both directions fills
      column `j` of row `i`. */
  lemma StoreStrengths(pg: map<Mayor, map<Mayor, int>>, pairs: seq<Pair>, ms: seq<Mayor>, i: nat, j: nat, s1: int, s2: int)
    requires i < j < |ms| && FilledBefore(pg, pairs, ms, i, j)
    requires s1 == Strength(pairs, ms[i], ms[j], Without(ms, ms[i]))
    requires s2 == Strength(pairs, ms[j], ms[i], Without(ms, ms[j]))
    ensures FilledBefore(Put(Put(pg, ms[i], ms[j], s1), ms[j], ms[i], s2), pairs, ms, i, j + 1)
  {
    var a, b := ms[i], ms[j];
    var pg2 := Put(Put(pg, a, b, s1), b, a, s2);
    forall x, y | 0 <= x < |ms| && 0 <= y < |ms| && x != y && (x < i || y < i || (x == i && y < j + 1) || (y == i && x < j + 1))
      ensures HoldsStrength(pg2, pairs, ms, ms[x], ms[y])
    {
      if (x == i && y == j) || (x == j && y == i) {
      } else {
        assert ms[x] != a || ms[y] != b;
        assert ms[x] != b || ms[y] != a;
        assert HoldsStrength(pg, pairs, ms, ms[x], ms[y]);
      }
    }
  }

  /** `path_preference_graph` has a row per mayor, and either no row was
      filled yet or every strength is in place. */
  ghost predicate IsPathTable(pg: map<Mayor, map<Mayor, int>>, pairs: seq<Pair>, ms: seq<Mayor>) {
    && (forall m | m in ms :: m in pg)
    && (StrengthsStored(pg, pairs, ms) || forall m | m in ms :: pg[m] == map[])
  }

  class Profile {
    const pairs: seq<Pair>
    const mayors: seq<Mayor>
    const totalVotes: int
    var netPreferenceGraph: map<Mayor, map<Mayor, int>>
    var votesPerMayor: seq<map<Mayor, int>>
    var pathPreferenceGraph: map<Mayor, map<Mayor, int>>

    /** The tables agree with the pairs. */
    ghost predicate Valid()
      reads this
    {
      && Built()
      && GraphKept()
      && TallyKept()
      && PathsKept()
    }

    /** The mayors and the number of voters are those of the pairs. */
    ghost predicate Built() {
      && ValidPairs(pairs)
      && mayors == Mayors(pairs)
      && totalVotes == TotalVotes(pairs)
    }

    /** `net_preference_graph` is complete. */
    ghost predicate GraphKept()
      reads this`netPreferenceGraph
    {
      IsNetPreferenceGraph(netPreferenceGraph, pairs, mayors)
    }

    /** `votes_per_mayor` is right. */
    ghost predicate TallyKept()
      reads this`votesPerMayor
    {
      IsTally(votesPerMayor, pairs, mayors)
    }

    /** `path_preference_graph` is empty or filled. */
    ghost predicate PathsKept()
      reads this`pathPreferenceGraph
    {
      IsPathTable(pathPreferenceGraph, pairs, mayors)
    }

    /** `Profile(pairs)`: the mayors of the first ballot, the number of
        voters, both tables, and an empty strength row per mayor. */
    constructor (ps: seq<Pair>)
      requires ValidPairs(ps)
      ensures Valid()
      ensures pairs == ps && mayors == Mayors(ps) && totalVotes == TotalVotes(ps)
      ensures forall m | m in mayors :: pathPreferenceGraph[m] == map[]
    {
      pairs := ps;
      mayors := Mayors(ps);
      totalVotes := TotalVotes(ps);
      new;
      CalcNetPreference();
      CalcVotesPerMayor();
      pathPreferenceGraph := map m | m in mayors :: map[];
    }

    /** The sum over the ballots of `__preference(n_votes, index(b), index(a))`. */
    method SumPreferences(a: Mayor, b: Mayor) returns (preference: int)
      ensures preference == Ballots.NetPreference(pairs, a, b)
    {
      preference := 0;
      for t := 0 to |pairs|
        invariant preference == Ballots.NetPreference(pairs[..t], a, b)
      {
        var k := Position(pairs[t].ballot, b);
        var m := Position(pairs[t].ballot, a);
        preference := preference + Preference(pairs[t].votes, k, m);
        assert pairs[..t + 1][..t] == pairs[..t];
      }
      assert pairs[..|pairs|] == pairs;
    }

    /** `__calc_net_preference`: each unordered pair of mayors is computed
        once and stored in both directions with opposite signs. */
    method CalcNetPreference()
      requires ValidPairs(pairs) && mayors == Mayors(pairs)
      modifies this`netPreferenceGraph
      ensures IsNetPreferenceGraph(netPreferenceGraph, pairs, mayors)
    {
      var g := NetPreferenceTable();
      netPreferenceGraph := g;
    }

    /** The graph `__calc_net_preference` builds, row by row. */
    method NetPreferenceTable() returns (g: map<Mayor, map<Mayor, int>>)
      requires Distinct(mayors)
      ensures IsNetPreferenceGraph(g, pairs, mayors)
    {
      g := map m | m in mayors :: map[];
      for i := 0 to |mayors|
        invariant HeldBefore(g, pairs, mayors, i, 0)
      {
        g := FillFrom(g, i);
      }
      HeldAll(g, pairs, mayors);
    }

    /** The inner loop of `__calc_net_preference`: mayor `i` against every
        mayor from `i` on. */
    method FillFrom(g0: map<Mayor, map<Mayor, int>>, i: nat) returns (g: map<Mayor, map<Mayor, int>>)
      requires Distinct(mayors) && i < |mayors| && HeldBefore(g0, pairs, mayors, i, 0)
      ensures HeldBefore(g, pairs, mayors, i + 1, 0)
    {
      g := g0;
      var mayor1 := mayors[i];
      for j := i to |mayors|
        invariant HeldBefore(g, pairs, mayors, i, j)
      {
        var mayor2 := mayors[j];
        var preference := SumPreferences(mayor1, mayor2);
        StoreBoth(g, pairs, mayors, i, j, preference);
        g := Put(g, mayor1, mayor2, preference);
        g := Put(g, mayor2, mayor1, -preference);
      }
      HeldRowEnd(g, pairs, mayors, i);
    }

    /** `__calc_votes_per_mayor`: row `i` counts, for every mayor, the voters
        that put it at position `i`. */
    method CalcVotesPerMayor()
      requires ValidPairs(pairs) && mayors == Mayors(pairs)
      modifies this`votesPerMayor
      ensures IsTally(votesPerMayor, pairs, mayors)
    {
      var t := VotesPerMayorTable();
      votesPerMayor := t;
    }

    /** The rows `__calc_votes_per_mayor` builds, one per rank position. */
    method VotesPerMayorTable() returns (rows: seq<map<Mayor, int>>)
      requires ValidPairs(pairs) && mayors == Mayors(pairs)
      ensures IsTally(rows, pairs, mayors)
    {
      rows := [];
      for i := 0 to |mayors|
        invariant |rows| == i
        invariant forall x | 0 <= x < i :: rows[x] == TallyAt(pairs, x, mayors)
      {
        var row := CountPosition(i);
        rows := rows + [row];
      }
    }

    /** Row `i`: starts every mayor at 0 and adds each pair's voters to the
        mayor its ballot puts at position `i`. */
    method CountPosition(i: nat) returns (row: map<Mayor, int>)
      requires ValidPairs(pairs) && mayors == Mayors(pairs) && i < |mayors|
      ensures row == TallyAt(pairs, i, mayors)
    {
      MayorsRanked(pairs);
      row := map m | m in mayors :: 0;
      assert row == TallyAt(pairs[..0], i, mayors);
      for t := 0 to |pairs|
        invariant row == TallyAt(pairs[..t], i, mayors)
      {
        var ballot := pairs[t].ballot;
        assert ballot[i] in mayors by {
          assert ballot[i] in Elems(ballot);
        }
        TallyStep(pairs, t, i, mayors);
        row := row[ballot[i] := row[ballot[i]] + pairs[t].votes];
      }
      assert pairs[..|pairs|] == pairs;
    }

    // -------------------------------------------------------------------
    // Comparisons and simple scores

    /** `net_preference(a, b)`: a lookup in the graph. */
    function NetPreference(a: Mayor, b: Mayor): (r: int)
      reads this
      requires Valid() && a in mayors && b in mayors
      ensures r == Ballots.NetPreference(pairs, a, b)
      ensures r == -Ballots.NetPreference(pairs, b, a)
      ensures a == b ==> r == 0
      ensures -totalVotes <= r <= totalVotes
    {
      NetPreferenceAntisymmetric(pairs, a, b);
      NetPreferenceSelf(pairs, a);
      NetPreferenceBounds(pairs, a, b);
      netPreferenceGraph[a][b]
    }

    /** `does_pareto_dominate(a, b)`: every ballot ranks `a` above `b`; then
        every voter prefers `a`, and `b` does not dominate `a`. */
    function DoesParetoDominate(a: Mayor, b: Mayor): (r: bool)
      reads this
      requires Valid() && a in mayors && b in mayors
      ensures r <==> forall i | 0 <= i < |pairs| :: Position(pairs[i].ballot, a) < Position(pairs[i].ballot, b)
      ensures r ==> a != b && Ballots.NetPreference(pairs, a, b) == totalVotes
      ensures r ==> !ParetoDominates(pairs, b, a)
    {
      if ParetoDominates(pairs, a, b) then ParetoUnanimous(pairs, a, b); true else false
    }

    /** `copeland(m)`: the sum of the signs of `m`'s net preferences over
        every mayor, `m` included. */
    function Copeland(m: Mayor): (r: int)
      reads this
      requires Valid() && m in mayors
      ensures r == Scores.Copeland(pairs, mayors, m)
      ensures -(|mayors| - 1) <= r <= |mayors| - 1
    {
      CopelandBounds(pairs, mayors, m);
      Scores.Copeland(pairs, mayors, m)
    }

    /** `symmetric_borda(m)`: the sum of `m`'s net preferences. */
    function SymmetricBorda(m: Mayor): (r: int)
      reads this
      requires Valid() && m in mayors
      ensures r == Scores.SymmetricBorda(pairs, mayors, m)
      ensures -(|mayors| - 1) * totalVotes <= r <= (|mayors| - 1) * totalVotes
    {
      SymmetricBordaBounds(pairs, mayors, m);
      Scores.SymmetricBorda(pairs, mayors, m)
    }

    /** `borda(m)`: `len(mayors) - 1 - index` points per voter. */
    function Borda(m: Mayor): (r: int)
      reads this
      requires Valid() && m in mayors
      ensures r == Ballots.Borda(pairs, |mayors| - 1, m)
      ensures 0 <= r <= (|mayors| - 1) * totalVotes
    {
      MayorsRanked(pairs);
      BordaBounds(pairs, |mayors| - 1, m);
      Ballots.Borda(pairs, |mayors| - 1, m)
    }

    /** `simpson(m)`: the worst net preference of `m` over another mayor
        (`min` of an empty list raises when there is no other mayor). */
    function Simpson(m: Mayor): (r: int)
      reads this
      requires Valid() && m in mayors && |mayors| >= 2
      ensures r == Scores.Simpson(pairs, mayors, m)
      ensures exists x | x in mayors && x != m :: r == Ballots.NetPreference(pairs, m, x)
      ensures forall x | x in mayors && x != m :: r <= Ballots.NetPreference(pairs, m, x)
      ensures r >= 0 <==> m in Scores.CondorcetWinners(pairs, mayors)
    {
      OtherMayors(mayors);
      SimpsonBounds(pairs, mayors, m);
      CondorcetIffSimpson(pairs, mayors, m);
      Scores.Simpson(pairs, mayors, m)
    }

    /** `condorcet_winners()`: the mayors that lose to no mayor. */
    function CondorcetWinners(): (r: set<Mayor>)
      reads this
      requires Valid()
      ensures forall m :: m in r <==> m in mayors && forall x | x in mayors :: Ballots.NetPreference(pairs, m, x) >= 0
    {
      Scores.CondorcetWinners(pairs, mayors)
    }

    // -------------------------------------------------------------------
    // score, ranking, winners

    /** `score(scorer)`: `(mayor, scorer(mayor))` for every mayor, sorted by
        mayor id. */
    function Score(scorer: Mayor -> int): (r: seq<(Mayor, int)>)
      requires Built()
      ensures |r| == |mayors|
      ensures forall i | 0 <= i < |r| :: r[i].0 == mayors[i] && r[i].1 == scorer(mayors[i])
      ensures forall i, j | 0 <= i < j < |r| :: r[i].0 < r[j].0
    {
      ListedSorted(mayors, scorer);
      SortDesc(Listed(mayors, scorer), ById)
    }

    /** `ranking(scorer)`: the scores sorted by decreasing score, by a stable
        sort, so that equal scores stay in increasing id order. */
    function Ranking(scorer: Mayor -> int): (r: seq<(Mayor, int)>)
      requires Built()
      ensures multiset(r) == multiset(Score(scorer))
      ensures forall i, j | 0 <= i < j < |r| :: r[i].1 >= r[j].1
      ensures forall i, j | 0 <= i < j < |r| && r[i].1 == r[j].1 :: r[i].0 < r[j].0
    {
      var scores := Score(scorer);
      var r := SortDesc(scores, ByScore);
      StableTies(scores, r, ByScore, (x: (Mayor, int)) => x.0);
      r
    }

    /** The head of a ranking: a mayor with the top score, and the one with
        the smallest id among those. */
    lemma RankingHead(scorer: Mayor -> int)
      requires Built() && |mayors| > 0
      ensures var r := Ranking(scorer);
        && |r| == |mayors| && r[0].0 in mayors && r[0].1 == scorer(r[0].0)
        && (forall x | x in mayors :: scorer(x) <= r[0].1)
        && (forall x | x in mayors && x < r[0].0 :: scorer(x) < r[0].1)
    {
      HeadOfRanking(mayors, scorer, Score(scorer), Ranking(scorer));
    }

    /** `winners(scorer)`: the mayors whose score is the top score of the
        ranking; never empty (`ranking[0]` raises when there are no mayors). */
    function Winners(scorer: Mayor -> int): (r: set<Mayor>)
      requires Built() && |mayors| > 0
      ensures r != {}
      ensures forall m :: m in r <==> m in mayors && forall x | x in mayors :: scorer(x) <= scorer(m)
    {
      var ranking := Ranking(scorer);
      RankingHead(scorer);
      var best := ranking[0].1;
      var r := set x | x in ranking && x.1 == best :: x.0;
      assert ranking[0].0 in r;
      forall m ensures m in r <==> m in mayors && forall x | x in mayors :: scorer(x) <= scorer(m) {
        WinnersMember(scorer, m);
      }
      r
    }

    lemma WinnersMember(scorer: Mayor -> int, m: Mayor)
      requires Built() && |mayors| > 0
      ensures var ranking := Ranking(scorer);
        (exists x | x in ranking :: x.1 == ranking[0].1 && x.0 == m)
        <==> m in mayors && forall x | x in mayors :: scorer(x) <= scorer(m)
    {
      RankingMember(mayors, scorer, Score(scorer), Ranking(scorer), m);
    }

    /** `raynaud()`: the head of the Simpson ranking, that is the mayor with
        the largest Simpson score, the smallest id among equals. */
    function Raynaud(): (r: Mayor)
      reads this
      requires Valid() && |mayors| >= 2
      ensures r in mayors
      ensures forall x | x in mayors :: Simpson(x) <= Simpson(r)
      ensures forall x | x in mayors && x < r :: Simpson(x) < Simpson(r)
    {
      var ps, ms := pairs, mayors;
      OtherMayors(ms);
      var simpson := (m: Mayor) => Scores.Simpson(ps, ms, m);
      RankingHead(simpson);
      Ranking(simpson)[0].0
    }

    // -------------------------------------------------------------------
    // Schulze

    /** `schulze(m)`: the number of other mayors whose strength over `m` is
        below `m`'s strength over them. The strength table is filled on the
        first call whose row is still empty. */
    method Schulze(mayor: Mayor) returns (wins: int)
      requires Valid() && mayor in mayors
      modifies this`pathPreferenceGraph
      ensures Valid()
      ensures StrengthsStored(pathPreferenceGraph, pairs, mayors)
      ensures wins == SchulzeWins(pairs, mayors, mayor)
      ensures 0 <= wins <= |mayors| - 1
    {
      if |pathPreferenceGraph[mayor]| == 0 {
        CalcPathPreference();
      }
      wins := CountWins(mayor);
    }

    /** The counting loop of `schulze(m)`, once the strengths are stored. */
    method CountWins(mayor: Mayor) returns (wins: int)
      requires Distinct(mayors) && mayor in mayors
      requires StrengthsStored(pathPreferenceGraph, pairs, mayors)
      ensures wins == SchulzeWins(pairs, mayors, mayor)
      ensures 0 <= wins <= |mayors| - 1
    {
      SchulzeWinsBounds(pairs, mayors, mayor);
      var others := Without(mayors, mayor);
      wins := 0;
      for k := 0 to |others|
        invariant wins == WinsUpTo(pairs, mayors, mayor, k)
      {
        var mayor2 := others[k];
        assert mayor2 in others;
        assert HoldsStrength(pathPreferenceGraph, pairs, mayors, mayor, mayor2);
        assert HoldsStrength(pathPreferenceGraph, pairs, mayors, mayor2, mayor);
        var strength1 := pathPreferenceGraph[mayor][mayor2];
        var strength2 := pathPreferenceGraph[mayor2][mayor];
        WinsUpToStep(pairs, mayors, mayor, k);
        WinValue(pairs, mayors, mayor, mayor2, strength1, strength2);
        wins := wins + (if strength1 > strength2 then 1 else 0);
      }
      WinsUpToAll(pairs, mayors, mayor);
    }

    /** `__calc_path_preference`: the strength of every mayor over every
        other one. */
    method CalcPathPreference()
      requires ValidPairs(pairs) && mayors == Mayors(pairs)
      requires IsNetPreferenceGraph(netPreferenceGraph, pairs, mayors)
      requires forall m | m in mayors :: m in pathPreferenceGraph
      modifies this`pathPreferenceGraph
      ensures forall m | m in mayors :: m in pathPreferenceGraph
      ensures StrengthsStored(pathPreferenceGraph, pairs, mayors)
    {
      var pg := StrengthTable(pathPreferenceGraph);
      pathPreferenceGraph := pg;
    }

    /** The table `__calc_path_preference` fills, row by row. */
    method StrengthTable(pg0: map<Mayor, map<Mayor, int>>) returns (pg: map<Mayor, map<Mayor, int>>)
      requires Distinct(mayors) && IsNetPreferenceGraph(netPreferenceGraph, pairs, mayors)
      requires forall m | m in mayors :: m in pg0
      ensures forall m | m in mayors :: m in pg
      ensures StrengthsStored(pg, pairs, mayors)
    {
      pg := pg0;
      for i := 0 to |mayors|
        invariant FilledBefore(pg, pairs, mayors, i, 0)
      {
        pg := StrengthsFrom(pg, i);
      }
      FilledAll(pg, pairs, mayors);
    }

    /** The inner loop of `__calc_path_preference`: mayor `i` against every
        later mayor, in both directions. */
    method StrengthsFrom(pg0: map<Mayor, map<Mayor, int>>, i: nat) returns (pg: map<Mayor, map<Mayor, int>>)
      requires Distinct(mayors) && IsNetPreferenceGraph(netPreferenceGraph, pairs, mayors) && i < |mayors|
      requires FilledBefore(pg0, pairs, mayors, i, 0)
      ensures FilledBefore(pg, pairs, mayors, i + 1, 0)
    {
      pg := pg0;
      FilledRowStart(pg, pairs, mayors, i);
      var mayor1 := mayors[i];
      for j := i + 1 to |mayors|
        invariant FilledBefore(pg, pairs, mayors, i, j)
      {
        var mayor2 := mayors[j];
        var strength1 := CalcStrength(mayor1, mayor2);
        var strength2 := CalcStrength(mayor2, mayor1);
        StoreStrengths(pg, pairs, mayors, i, j, strength1, strength2);
        pg := Put(pg, mayor1, mayor2, strength1);
        pg := Put(pg, mayor2, mayor1, strength2);
      }
      FilledRowEnd(pg, pairs, mayors, i);
    }

    /** `__calc_strength(a, b)`: the largest, over the paths from `a` to `b`,
        of the weakest edge. */
    method CalcStrength(a: Mayor, b: Mayor) returns (strength: int)
      requires IsNetPreferenceGraph(netPreferenceGraph, pairs, mayors)
      requires a in mayors && b in mayors && a != b
      ensures strength == Strength(pairs, a, b, Without(mayors, a))
      ensures strength >= Ballots.NetPreference(pairs, a, b)
    {
      var paths := CalcPaths(a, b, Without(mayors, a));
      StrengthAtLeastDirect(pairs, a, b, Without(mayors, a));
      strength := MaxOfMins(paths);
    }

    /** `__calc_paths(a, b, ms)`, with the list of weights started afresh
        for every first step. */
    method CalcPaths(a: Mayor, b: Mayor, ms: seq<Mayor>) returns (paths: seq<seq<int>>)
      requires IsNetPreferenceGraph(netPreferenceGraph, pairs, mayors)
      requires a in mayors && a !in ms && forall x | x in ms :: x in mayors
      ensures paths == Paths(pairs, a, b, ms)
      decreases |ms|
    {
      paths := [];
      for k := 0 to |ms|
        invariant paths == PathsUpTo(pairs, a, b, ms, k)
      {
        var mayor := ms[k];
        assert mayor in ms;
        assert Holds(netPreferenceGraph, pairs, a, mayor);
        var preference := netPreferenceGraph[a][mayor];
        var path := [preference];
        PathsUpToStep(pairs, a, b, ms, k, preference);
        if mayor == b {
          paths := paths + [path];
        } else {
          var newMayors := Without(ms, mayor);
          var subpaths := CalcPaths(mayor, b, newMayors);
          paths := Extend(paths, path, subpaths);
        }
      }
    }

    /** The inner loop of `__calc_paths`: `path + p` appended for every path
        `p` found from the next mayor on. */
    static method Extend(paths0: seq<seq<int>>, path: seq<int>, subpaths: seq<seq<int>>) returns (paths: seq<seq<int>>)
      ensures paths == paths0 + AppendAll(path, subpaths)
    {
      paths := paths0;
      for t := 0 to |subpaths|
        invariant paths == paths0 + AppendAll(path, subpaths[..t])
      {
        AppendAllStep(path, subpaths, t);
        paths := paths + [path + subpaths[t]];
      }
      assert subpaths[..|subpaths|] == subpaths;
    }

    // -------------------------------------------------------------------
    // Kendall tau and Kemeny-Young

    /** `kendalltau_dist(a, b)`: the pairs of positions `i < j` of `a` whose
        entries `a` and `b` order oppositely. */
    method KendalltauDist(rankA: seq<int>, rankB: seq<int>) returns (tau: int)
      requires |rankA| <= |rankB|
      ensures tau == KendallTau(rankA, rankB)
      ensures 0 <= 2 * tau <= |rankA| * (|rankA| - 1)
    {
      KendallTauBounds(rankA, rankB);
      tau := 0;
      var n := |rankA|;
      for i := 0 to n
        invariant tau == Tau(rankA, rankB, i)
      {
        for j := i + 1 to n
          invariant tau == Tau(rankA, rankB, i) + Row(rankA, rankB, i, j)
        {
          tau := tau + (if Sign(rankA[i] - rankA[j]) == -Sign(rankB[i] - rankB[j]) then 1 else 0);
        }
      }
    }

    /** The distance from `rank` to every ballot, summed without weighting
        by the number of voters. */
    method SumDistances(rank: seq<Mayor>) returns (dist: int)
      requires LongBallots(pairs, |rank|)
      ensures dist == TotalDistance(rank, pairs)
    {
      dist := 0;
      for t := 0 to |pairs|
        invariant dist == TotalDistance(rank, pairs[..t])
      {
        var d := KendalltauDist(rank, pairs[t].ballot);
        assert pairs[..t + 1][..t] == pairs[..t];
        dist := dist + d;
      }
      assert pairs[..|pairs|] == pairs;
    }

    /** The scan of `kemeny_young`: the smallest distance seen so far starts
        at infinity (`None`), and a rank replaces the best one only when it
        is strictly closer. */
    method Closest(ranks: seq<seq<Mayor>>, n: nat) returns (bestRank: seq<Mayor>)
      requires |ranks| > 0 && RanksOfLength(ranks, n) && LongBallots(pairs, n)
      ensures bestRank == ranks[FirstClosest(ranks, pairs, n)]
    {
      var minDist: Option<int> := None;
      bestRank := [];
      ghost var bestIndex := 0;
      for k := 0 to |ranks|
        invariant k == 0 ==> minDist == None
        invariant k > 0 ==> RanksOfLength(ranks[..k], n) && bestIndex == FirstClosest(ranks[..k], pairs, n)
        invariant k > 0 ==> bestRank == ranks[bestIndex] && minDist == Some(TotalDistance(bestRank, pairs))
      {
        var rank := ranks[k];
        var dist := SumDistances(rank);
        if k == 0 {
          FirstClosestFirst(ranks, pairs, n);
        } else {
          FirstClosestStep(ranks, pairs, n, k);
        }
        if minDist == None || dist < minDist.value {
          minDist := Some(dist);
          bestRank := rank;
          bestIndex := k;
        }
      }
      assert ranks[..|ranks|] == ranks;
    }

    /** `kemeny_young()`: the first ordering of 0 .. C-1, in the order of
        `itertools.permutations`, at the smallest total distance from the
        ballots, zipped with the scores C, C-1, ..., 1. */
    method KemenyYoung() returns (result: seq<(Mayor, int)>)
      requires Valid()
      ensures |result| == |mayors|
      ensures forall i | 0 <= i < |result| :: result[i].1 == |mayors| - i
      ensures IsKemenyRank(pairs, |mayors|, Firsts(result))
      ensures KemenyOptimalRank(pairs, |mayors|, Firsts(result))
    {
      var n := |mayors|;
      KemenySetup(pairs);
      var ranks := Perms(Range(n));
      var bestRank := Closest(ranks, n);
      KemenyRankOptimal(pairs, n, bestRank);
      result := Ranked(bestRank);
    }

    // -------------------------------------------------------------------
    // ballot_box

    /** `ballot_box(choices)`: every voter's ballot, grouped into
        `(number of voters, ballot)` pairs, as a new profile. */
    static method BallotBox(choices: Choices) returns (profile: Profile)
      requires WellFormedRows(Rows(choices))
      ensures fresh(profile) && profile.Valid()
      ensures forall i | 0 <= i < |profile.pairs| ::
        var b := profile.pairs[i].ballot;
        b in Orderings(Rows(choices)) && profile.pairs[i].votes == multiset(Orderings(Rows(choices)))[b]
      ensures forall b | b in Orderings(Rows(choices)) :: exists i | 0 <= i < |profile.pairs| :: profile.pairs[i].ballot == b
      ensures profile.totalVotes == |Rows(choices)|
    {
      var rows := Rows(choices);
      var keys := seq(|rows|, k requires 0 <= k < |rows| => Ordering(rows[k]));
      assert keys == Orderings(rows);
      var pairs := CountBallots(keys);
      BallotBoxValid(rows, keys, pairs);
      profile := new Profile(pairs);
    }
  }

  /** The mayors of a list of `(mayor, score)` entries. */
  function Firsts<T>(xs: seq<(Mayor, T)>): (r: seq<Mayor>)
    ensures |r| == |xs|
    ensures forall i | 0 <= i < |xs| :: r[i] == xs[i].0
  {
    seq(|xs|, i requires 0 <= i < |xs| => xs[i].0)
  }

  /** `zip(rank, range(n, 0, -1))`: the scores n, n-1, ..., 1 in rank order. */
  function Ranked(rank: seq<Mayor>): (r: seq<(Mayor, int)>)
    ensures |r| == |rank| && Firsts(r) == rank
    ensures forall i | 0 <= i < |r| :: r[i].1 == |rank| - i
  {
    seq(|rank|, i requires 0 <= i < |rank| => (rank[i], |rank| - i))
  }

  /** What the scan of `kemeny_young` needs of a valid profile. */
  lemma KemenySetup(pairs: seq<Pair>)
    requires ValidPairs(pairs)
    ensures var n := |Mayors(pairs)|;
      |Perms(Range(n))| > 0 && RanksOfLength(Perms(Range(n)), n) && LongBallots(pairs, n)
  {
    MayorsRanked(pairs);
    PermsRangeLength(|Mayors(pairs)|);
  }

  /** `best` is the ordering `kemeny_young` keeps: the first one, in the
      order of `itertools.permutations(range(n))`, at the smallest total
      distance. */
  ghost predicate IsKemenyRank(pairs: seq<Pair>, n: nat, best: seq<Mayor>) {
    var ranks := Perms(Range(n));
    && |ranks| > 0 && RanksOfLength(ranks, n) && LongBallots(pairs, n)
    && best == ranks[FirstClosest(ranks, pairs, n)]
  }

  /** No ordering of 0 .. n-1 is closer to the ballots than `best`. */
  ghost predicate KemenyOptimalRank(pairs: seq<Pair>, n: nat, best: seq<Mayor>) {
    && LongBallots(pairs, n) && |best| == n
    && forall p: seq<Mayor> | multiset(p) == multiset(Range(n)) :: |p| == n && TotalDistance(best, pairs) <= TotalDistance(p, pairs)
  }

  // ---------------------------------------------------------------------
  // ballot_box

  /** A mayor with the score a voter gave it. */
  type Entry = (Mayor, real)

  /** The voters' choices: either one list of scores per voter, the mayor
      being the position of its score, or lists of `(mayor, score)` entries
      (the source tells the two apart by the type of the first entry). */
  datatype Choices = Unindexed(scores: seq<seq<real>>) | Indexed(entries: seq<seq<Entry>>)

  /** `list(enumerate(scores))`. */
  function Enumerate(scores: seq<real>): (r: seq<Entry>)
    ensures |r| == |scores|
    ensures forall i | 0 <= i < |r| :: r[i] == (i, scores[i])
  {
    seq(|scores|, i requires 0 <= i < |scores| => (i as Mayor, scores[i]))
  }

  /** Every voter's entries, enumerated first when they are bare scores. */
  function Rows(choices: Choices): (rows: seq<seq<Entry>>)
    ensures choices.Unindexed? ==>
      |rows| == |choices.scores| && forall i | 0 <= i < |rows| :: rows[i] == Enumerate(choices.scores[i])
    ensures choices.Indexed? ==> rows == choices.entries
  {
    match choices
    case Unindexed(scores) => seq(|scores|, i requires 0 <= i < |scores| => Enumerate(scores[i]))
    case Indexed(entries) => entries
  }

  /** The sort key of `ballot_box`: the score. */
  function EntryScore(e: Entry): real {
    e.1
  }

  function EntryId(e: Entry): int {
    e.0
  }

  /** One voter's ballot: the mayors by decreasing score, equal scores in the
      order of the entries (a stable sort). */
  function Ordering(row: seq<Entry>): (b: Ballot)
    ensures |b| == |row|
  {
    var sorted := SortDesc(row, EntryScore);
    assert |multiset(sorted)| == |multiset(row)|;
    Firsts(sorted)
  }

  /** Every voter's ballot, in the order of the voters. */
  function Orderings(rows: seq<seq<Entry>>): (keys: seq<Ballot>)
    ensures |keys| == |rows|
    ensures forall k | 0 <= k < |rows| :: keys[k] == Ordering(rows[k])
  {
    seq(|rows|, k requires 0 <= k < |rows| => Ordering(rows[k]))
  }

  /** What `ballot_box` needs to build a profile: at least one voter with at
      least one entry (it reads `choices[0][0]`), and every voter scoring
      the same mayors, each once. */
  predicate WellFormedRows(rows: seq<seq<Entry>>) {
    && |rows| > 0 && |rows[0]| > 0
    && forall i | 0 <= i < |rows| ::
         Distinct(Firsts(rows[i])) && Elems(Firsts(rows[i])) == Elems(Firsts(rows[0]))
  }

  /** Reordering entries with distinct mayors keeps the mayors distinct and
      the same. */
  lemma FirstsPermutation(row: seq<Entry>, r: seq<Entry>)
    requires Distinct(Firsts(row)) && multiset(r) == multiset(row)
    ensures Distinct(Firsts(r)) && Elems(Firsts(r)) == Elems(Firsts(row))
  {
    assert Distinct(row) by {
      forall i, j | 0 <= i < j < |row| ensures row[i] != row[j] {
        assert Firsts(row)[i] != Firsts(row)[j];
      }
    }
    DistinctPermutation(row, r);
    forall i, j | 0 <= i < j < |r| ensures r[i].0 != r[j].0 {
      assert r[i] in multiset(row) && r[j] in multiset(row);
      var p :| 0 <= p < |row| && row[p] == r[i];
      var q :| 0 <= q < |row| && row[q] == r[j];
      assert p != q;
      assert Firsts(row)[p] != Firsts(row)[q];
    }
    forall m | m in Elems(Firsts(row)) ensures m in Elems(Firsts(r)) {
      var p :| 0 <= p < |row| && row[p].0 == m;
      assert row[p] in multiset(r);
      var i :| 0 <= i < |r| && r[i] == row[p];
      assert Firsts(r)[i] == m;
    }
    forall m | m in Elems(Firsts(r)) ensures m in Elems(Firsts(row)) {
      var i :| 0 <= i < |r| && r[i].0 == m;
      assert r[i] in multiset(row);
      var p :| 0 <= p < |row| && row[p] == r[i];
      assert Firsts(row)[p] == m;
    }
  }

  /** A voter's ballot ranks exactly the mayors the voter scored. */
  lemma OrderingRanks(row: seq<Entry>)
    requires Distinct(Firsts(row))
    ensures IsRankingOf(Ordering(row), Elems(Firsts(row)))
  {
    FirstsPermutation(row, SortDesc(row, EntryScore));
  }

  /** For bare scores, the ballot lists every position 0 .. n-1 once, by
      decreasing score, and equal scores by increasing position. */
  lemma UnindexedOrdering(scores: seq<real>)
    ensures var b := Ordering(Enumerate(scores));
      && IsRankingOf(b, Elems(Range(|scores|)))
      && (forall i | 0 <= i < |b| :: b[i] < |scores|)
      && (forall i, j | 0 <= i < j < |b| :: scores[b[i]] >= scores[b[j]])
      && (forall i, j | 0 <= i < j < |b| && scores[b[i]] == scores[b[j]] :: b[i] < b[j])
  {
    var e := Enumerate(scores);
    var r := SortDesc(e, EntryScore);
    assert Firsts(e) == Range(|scores|);
    OrderingRanks(e);
    EntriesOwnScores(scores, r);
    StableTies(e, r, EntryScore, EntryId);
    assert Ordering(e) == Firsts(r);
    FirstsOrdered(scores, r, Firsts(r));
  }

  /** The mayors of entries sorted by score, ties by id, where every entry
      holds a position's own score. */
  lemma FirstsOrdered(scores: seq<real>, r: seq<Entry>, b: seq<Mayor>)
    requires |b| == |r| && forall i | 0 <= i < |r| :: b[i] == r[i].0
    requires forall i | 0 <= i < |r| :: r[i].0 < |scores| && r[i].1 == scores[r[i].0]
    requires SortedDesc(r, EntryScore)
    requires forall i, j | 0 <= i < j < |r| && EntryScore(r[i]) == EntryScore(r[j]) :: EntryId(r[i]) < EntryId(r[j])
    ensures forall i | 0 <= i < |b| :: b[i] < |scores|
    ensures forall i, j | 0 <= i < j < |b| :: scores[b[i]] >= scores[b[j]]
    ensures forall i, j | 0 <= i < j < |b| && scores[b[i]] == scores[b[j]] :: b[i] < b[j]
  {
    forall i, j | 0 <= i < j < |b| ensures scores[b[i]] >= scores[b[j]] {
      assert EntryScore(r[i]) >= EntryScore(r[j]);
    }
  }

  /** A permutation of the enumerated scores pairs every position with its
      own score. */
  lemma EntriesOwnScores(scores: seq<real>, r: seq<Entry>)
    requires multiset(r) == multiset(Enumerate(scores))
    ensures forall i | 0 <= i < |r| :: r[i].0 < |scores| && r[i].1 == scores[r[i].0]
  {
    var e := Enumerate(scores);
    forall i | 0 <= i < |r| ensures r[i].0 < |scores| && r[i].1 == scores[r[i].0] {
      assert r[i] in multiset(e);
      var k :| 0 <= k < |e| && e[k] == r[i];
    }
  }

  /** The number of rows with ballot `b`, as a summable function. */
  function CountIn(keys: seq<Ballot>): Ballot -> int {
    (b: Ballot) => multiset(keys)[b]
  }

  /** `(count, ballot)` for every ballot of `order`. */
  function PairsOf(order: seq<Ballot>, keys: seq<Ballot>): (r: seq<Pair>)
    ensures |r| == |order|
    ensures forall i | 0 <= i < |r| :: r[i] == Pair(multiset(keys)[order[i]], order[i])
  {
    seq(|order|, i requires 0 <= i < |order| => Pair(multiset(keys)[order[i]], order[i]))
  }

  /** The voters behind the pairs are the counts summed. */
  lemma {:induction false} PairsOfTotal(order: seq<Ballot>, keys: seq<Ballot>)
    ensures TotalVotes(PairsOf(order, keys)) == Sum(order, CountIn(keys))
  {
    if order != [] {
      var n := |order|;
      assert PairsOf(order, keys)[..n - 1] == PairsOf(order[..n - 1], keys);
      PairsOfTotal(order[..n - 1], keys);
    }
  }

  /** Counting the rows over a list that holds every ballot once gives the
      number of rows. */
  lemma {:induction false} CountsSum(order: seq<Ballot>, keys: seq<Ballot>)
    requires Distinct(order) && forall b | b in keys :: b in order
    ensures Sum(order, CountIn(keys)) == |keys|
  {
    if keys == [] {
      SumBounds(order, CountIn(keys), 0, 0);
    } else {
      var n := |keys|;
      var init, last := keys[..n - 1], keys[n - 1];
      assert keys == init + [last];
      CountsSum(order, init);
      var single := (b: Ballot) => if b == last then 1 else 0;
      SumSingleOut(order, single, last, 1);
      SumAdd(order, CountIn(init), single, CountIn(keys));
    }
  }

  /** The grouping loop of `ballot_box`: a dictionary from ballot to count,
      keyed in the order ballots first occur, turned into `(count, ballot)`
      pairs. */
  method CountBallots(keys: seq<Ballot>) returns (pairs: seq<Pair>)
    ensures forall i, j | 0 <= i < j < |pairs| :: pairs[i].ballot != pairs[j].ballot
    ensures forall i | 0 <= i < |pairs| :: pairs[i].ballot in keys && pairs[i].votes == multiset(keys)[pairs[i].ballot]
    ensures forall b | b in keys :: exists i | 0 <= i < |pairs| :: pairs[i].ballot == b
    ensures TotalVotes(pairs) == |keys|
  {
    var counts: map<Ballot, nat> := map[];
    var order: seq<Ballot> := [];
    for t := 0 to |keys|
      invariant Distinct(order)
      invariant forall b :: b in counts <==> b in order
      invariant forall b :: b in order <==> b in keys[..t]
      invariant forall b | b in counts :: counts[b] == multiset(keys[..t])[b]
    {
      var key := keys[t];
      assert keys[..t + 1] == keys[..t] + [key];
      if key !in counts {
        order := order + [key];
      }
      counts := counts[key := (if key in counts then counts[key] else 0) + 1];
    }
    assert keys[..|keys|] == keys;
    pairs := seq(|order|, i requires 0 <= i < |order| => Pair(counts[order[i]], order[i]));
    assert pairs == PairsOf(order, keys);
    PairsOfTotal(order, keys);
    CountsSum(order, keys);
    forall b | b in keys ensures exists i | 0 <= i < |pairs| :: pairs[i].ballot == b {
      var i :| 0 <= i < |order| && order[i] == b;
      assert pairs[i].ballot == b;
    }
  }

  /** The counted ballots of well-formed rows make a valid profile. */
  lemma BallotBoxValid(rows: seq<seq<Entry>>, keys: seq<Ballot>, pairs: seq<Pair>)
    requires WellFormedRows(rows)
    requires |keys| == |rows| && forall k | 0 <= k < |keys| :: keys[k] == Ordering(rows[k])
    requires forall i, j | 0 <= i < j < |pairs| :: pairs[i].ballot != pairs[j].ballot
    requires forall i | 0 <= i < |pairs| :: pairs[i].ballot in keys && pairs[i].votes == multiset(keys)[pairs[i].ballot]
    requires forall b | b in keys :: exists i | 0 <= i < |pairs| :: pairs[i].ballot == b
    ensures ValidPairs(pairs)
  {
    var mayors := Elems(Firsts(rows[0]));
    forall b | b in keys ensures IsRankingOf(b, mayors) && multiset(keys)[b] > 0 {
      var k :| 0 <= k < |keys| && keys[k] == b;
      OrderingRanks(rows[k]);
    }
    assert keys[0] in keys;
    assert |pairs| > 0;
  }

  /** The ordering `kemeny_young` keeps is at least as close to the ballots
      as every ordering of 0 .. n-1. */
  lemma KemenyRankOptimal(pairs: seq<Pair>, n: nat, best: seq<Mayor>)
    requires IsKemenyRank(pairs, n, best)
    ensures KemenyOptimalRank(pairs, n, best)
  {
    forall p: seq<Mayor> | multiset(p) == multiset(Range(n))
      ensures |p| == n && TotalDistance(best, pairs) <= TotalDistance(p, pairs)
    {
      KemenyOptimal(pairs, n, p);
    }
  }
}
