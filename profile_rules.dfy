/** The `Profile` class of social_choice_functions.py: a set of (number of
    voters, ballot) pairs whose net preferences are computed on demand and
    remembered, the scores read from them, and the voting rules that
    remove mayors and start again on the smaller profile (single
    transferable vote, Baldwin, Nanson), with sequential majority
    comparison.

    The set of mayors is the ascending sequence in which Python iterates a
    set of small non-negative integers; the first-place tally of the single
    transferable vote, a dictionary built from that set, is scanned in the
    same order. */
module ProfileRules {
  import opened Seqs
  import opened Ballots
  import opened Removal
  import opened Scores
  import opened Sorting
  import opened Elimination
  import opened BordaMean

  // ---------------------------------------------------------------------
  // Baldwin's rule

  /** `min(self.mayors, key=self.bordaScore)`: the first mayor with the
      smallest Borda score. */
  function BaldwinLoser(pairs: seq<Pair>): (m: Mayor)
    requires ValidPairs(pairs) && |Mayors(pairs)| > 0
    ensures m in Candidates(pairs)
    ensures forall x | x in Candidates(pairs) :: BordaScores(pairs)(m) <= BordaScores(pairs)(x)
  {
    var ms := Mayors(pairs);
    var k := FirstMin(ms, BordaScores(pairs));
    assert forall x | x in Candidates(pairs) :: BordaScores(pairs)(ms[k]) <= BordaScores(pairs)(x) by {
      forall x | x in Candidates(pairs) ensures BordaScores(pairs)(ms[k]) <= BordaScores(pairs)(x) {
        assert x in Elems(ms);
        var i :| 0 <= i < |ms| && ms[i] == x;
      }
    }
    ms[k]
  }

  /** `baldwinRule`: remove a mayor with the smallest Borda score until one
      is left. */
  function Baldwin(pairs: seq<Pair>): (r: set<Mayor>)
    requires ValidPairs(pairs) && |Mayors(pairs)| > 0
    ensures |r| == 1 && r <= Candidates(pairs)
    decreases |Mayors(pairs)|
  {
    var ms := Mayors(pairs);
    if |ms| == 1 then
      assert Elems(ms) == {ms[0]};
      Elems(ms)
    else
      var worst := BaldwinLoser(pairs);
      RemoveCandidateValid(pairs, worst);
      Baldwin(RemoveCandidate(pairs, worst))
  }

  /** A mayor that beats every other mayor is never the one Baldwin's rule
      removes, so it wins. */
  lemma {:induction false} BaldwinCondorcet(pairs: seq<Pair>, w: Mayor)
    requires ValidPairs(pairs) && w in Candidates(pairs)
    requires forall x | x in Candidates(pairs) && x != w :: NetPreference(pairs, w, x) > 0
    ensures Baldwin(pairs) == {w}
    decreases |Mayors(pairs)|
  {
    var ms := Mayors(pairs);
    assert w in Elems(ms);
    if |ms| == 1 {
      assert ms == [w];
    } else {
      var worst := BaldwinLoser(pairs);
      CondorcetAboveMean(pairs, w);
      var k := FirstMin(ms, BordaScores(pairs));
      MinAtMostMean(pairs, k);
      assert worst != w;
      var next := RemoveCandidate(pairs, worst);
      RemoveCandidateValid(pairs, worst);
      forall x | x in Candidates(next) && x != w ensures NetPreference(next, w, x) > 0 {
        RemoveCandidateNetPreference(pairs, worst, w, x);
      }
      BaldwinCondorcet(next, w);
    }
  }

  // ---------------------------------------------------------------------
  // Nanson's rule

  /** A Borda score below the mean: `score < sum / n`, written without the
      division. */
  function BelowMean(pairs: seq<Pair>): Mayor -> bool
    requires |pairs| > 0
  {
    var ms := Mayors(pairs);
    var total := Sum(ms, BordaScores(pairs));
    var f := BordaScores(pairs);
    (m: Mayor) => |ms| * f(m) < total
  }

  /** `badMayors`, in ascending order. */
  function BadMayors(pairs: seq<Pair>): (bad: seq<Mayor>)
    requires ValidPairs(pairs)
    ensures Distinct(bad)
    ensures forall m | m in bad :: m in Candidates(pairs) && BelowMean(pairs)(m)
    ensures forall m | m in Candidates(pairs) && BelowMean(pairs)(m) :: m in bad
  {
    FilterDistinct(Mayors(pairs), BelowMean(pairs));
    Filter(Mayors(pairs), BelowMean(pairs))
  }

  /** Removing distinct mayors `bad` of a valid profile leaves exactly the
      others, in ascending order. */
  lemma KeptMayors(pairs: seq<Pair>, bad: seq<Mayor>, p: Mayor -> bool)
    requires ValidPairs(pairs) && Distinct(bad)
    requires forall m | m in bad :: m in Candidates(pairs) && p(m)
    requires forall m | m in Candidates(pairs) && p(m) :: m in bad
    ensures ValidPairs(RemoveAll(pairs, bad))
    ensures Mayors(RemoveAll(pairs, bad)) == FilterOut(Mayors(pairs), p)
  {
    var ms := Mayors(pairs);
    var next := RemoveAll(pairs, bad);
    RemoveAllValid(pairs, bad);
    var kept := FilterOut(ms, p);
    FilterOutIncreasing(ms, p);
    assert Elems(kept) == Candidates(next) by {
      forall x | x in Candidates(next) ensures x in kept {
        assert x in Elems(ms) && x !in bad;
      }
    }
    IncreasingUnique(Mayors(next), kept);
  }

  /** Removing the mayors below the mean leaves a valid profile of the
      others, and at least one of them. */
  lemma NansonStep(pairs: seq<Pair>)
    requires ValidPairs(pairs) && |Mayors(pairs)| > 0
    ensures var next := RemoveAll(pairs, BadMayors(pairs));
      && ValidPairs(next)
      && Candidates(next) == Candidates(pairs) - Elems(BadMayors(pairs))
      && Mayors(next) == FilterOut(Mayors(pairs), BelowMean(pairs))
      && |Mayors(next)| == |Mayors(pairs)| - |BadMayors(pairs)| > 0
      && TotalVotes(next) == TotalVotes(pairs)
      && forall a, b | a in Candidates(next) && b in Candidates(next) ::
           NetPreference(next, a, b) == NetPreference(pairs, a, b)
  {
    var ms := Mayors(pairs);
    var bad := BadMayors(pairs);
    var p := BelowMean(pairs);
    RemoveAllValid(pairs, bad);
    KeptMayors(pairs, bad, p);
    FilterPartition(ms, p);
    var k := NotAllBelowMean(pairs);
    assert ms[k] in FilterOut(ms, p);
  }

  /** `nansonRule`: remove every mayor whose Borda score is below the mean,
      and start again, until one mayor is left or none is below the mean. */
  function Nanson(pairs: seq<Pair>): (r: set<Mayor>)
    requires ValidPairs(pairs) && |Mayors(pairs)| > 0
    ensures r != {} && r <= Candidates(pairs)
    decreases |Mayors(pairs)|
  {
    var ms := Mayors(pairs);
    assert ms[0] in Elems(ms);
    if |ms| == 1 then Elems(ms)
    else
      var bad := BadMayors(pairs);
      if bad == [] then Elems(ms)
      else
        NansonStep(pairs);
        Nanson(RemoveAll(pairs, bad))
  }

  /** A mayor that beats every other mayor scores above the mean, so it is
      never removed, and while another mayor is left some mayor is below
      the mean: Nanson's rule elects it alone. */
  lemma {:induction false} NansonCondorcet(pairs: seq<Pair>, w: Mayor)
    requires ValidPairs(pairs) && w in Candidates(pairs)
    requires forall x | x in Candidates(pairs) && x != w :: NetPreference(pairs, w, x) > 0
    ensures Nanson(pairs) == {w}
    decreases |Mayors(pairs)|
  {
    var ms := Mayors(pairs);
    assert w in Elems(ms);
    if |ms| == 1 {
      assert ms == [w];
    } else {
      CondorcetAboveMean(pairs, w);
      var k := SomeBelowMean(pairs, w);
      var bad := BadMayors(pairs);
      assert ms[k] in bad;
      assert w !in bad;
      NansonStep(pairs);
      var next := RemoveAll(pairs, bad);
      NansonCondorcet(next, w);
    }
  }

  // ---------------------------------------------------------------------
  // Sequential majority comparison

  /** The running winner after the first `k` mayors: each mayor in turn
      replaces it when it beats it. */
  function SmcUpTo(pairs: seq<Pair>, ms: seq<Mayor>, k: nat): (w: Mayor)
    requires 0 < k <= |ms|
    ensures w in ms[..k]
  {
    if k == 1 then ms[0]
    else
      var last := SmcUpTo(pairs, ms, k - 1);
      assert ms[..k - 1] == ms[..k][..k - 1];
      if NetPreference(pairs, ms[k - 1], last) > 0 then ms[k - 1] else last
  }

  /** `sequentialMajorityComparison`: the running winner after every mayor. */
  function Smc(pairs: seq<Pair>): (w: Mayor)
    requires ValidPairs(pairs) && |Mayors(pairs)| > 0
    ensures w in Candidates(pairs)
  {
    var ms := Mayors(pairs);
    var w := SmcUpTo(pairs, ms, |ms|);
    assert ms[..|ms|] == ms;
    assert w in Elems(ms);
    w
  }

  /** No mayor that comes after the running winner beats it. */
  lemma {:induction false} SmcUnbeatenLater(pairs: seq<Pair>, ms: seq<Mayor>, k: nat, j: nat)
    requires Distinct(ms) && 0 < k <= |ms| && j < k
    requires ms[j] == SmcUpTo(pairs, ms, k)
    ensures forall i | j < i < k :: NetPreference(pairs, ms[i], ms[j]) <= 0
  {
    if k > 1 {
      var last := SmcUpTo(pairs, ms, k - 1);
      if NetPreference(pairs, ms[k - 1], last) > 0 {
        assert ms[j] == ms[k - 1];
        assert j == k - 1;
      } else {
        assert last == ms[j];
        assert j < k - 1 by {
          assert last in ms[..k - 1];
        }
        SmcUnbeatenLater(pairs, ms, k - 1, j);
        forall i | j < i < k ensures NetPreference(pairs, ms[i], ms[j]) <= 0 {
          if i == k - 1 {
            assert NetPreference(pairs, ms[k - 1], last) <= 0;
          }
        }
      }
    }
  }

  /** A mayor that beats every other mayor takes over when its turn comes
      and keeps the lead. */
  lemma {:induction false} SmcKeepsCondorcet(pairs: seq<Pair>, ms: seq<Mayor>, w: Mayor, j: nat, k: nat)
    requires Distinct(ms) && j < k <= |ms| && ms[j] == w
    requires forall x | x in ms && x != w :: NetPreference(pairs, w, x) > 0
    ensures SmcUpTo(pairs, ms, k) == w
  {
    if k == j + 1 {
      if k > 1 {
        var last := SmcUpTo(pairs, ms, k - 1);
        assert last in ms[..j];
        assert last != w;
      }
    } else {
      SmcKeepsCondorcet(pairs, ms, w, j, k - 1);
      NetPreferenceAntisymmetric(pairs, w, ms[k - 1]);
    }
  }

  /** Sequential majority comparison elects a mayor that beats every other
      mayor. */
  lemma SmcCondorcet(pairs: seq<Pair>, w: Mayor)
    requires ValidPairs(pairs) && w in Candidates(pairs)
    requires forall x | x in Candidates(pairs) && x != w :: NetPreference(pairs, w, x) > 0
    ensures Smc(pairs) == w
  {
    var ms := Mayors(pairs);
    assert w in Elems(ms);
    var j :| 0 <= j < |ms| && ms[j] == w;
    SmcKeepsCondorcet(pairs, ms, w, j, |ms|);
  }

  /** The first places of all the mayors add up to the number of voters. */
  lemma FirstPlacesTotal(pairs: seq<Pair>)
    requires ValidPairs(pairs) && |Mayors(pairs)| > 0
    ensures Sum(Mayors(pairs), FirstPlaces(pairs)) == TotalVotes(pairs)
  {
    var ms := Mayors(pairs);
    MayorsRanked(pairs);
    forall i | 0 <= i < |pairs| ensures 0 < |pairs[i].ballot| && pairs[i].ballot[0] in ms {
      assert pairs[i].ballot[0] in Elems(pairs[i].ballot);
    }
    VotesAtSum(pairs, 0, ms);
  }

  // ---------------------------------------------------------------------
  // The profile

  /** Every remembered net preference is right and is remembered in both
      directions, and there is a (possibly empty) row for each mayor and for
      nothing else. */
  ghost predicate MemoSound(g: map<Mayor, map<Mayor, int>>, pairs: seq<Pair>, ms: seq<Mayor>) {
    && (forall m | m in ms :: m in g)
    && (forall a | a in g :: a in ms)
    && EntriesRight(g, pairs, ms)
    && EntriesPaired(g)
  }

  /** Every remembered value is the net preference over a mayor. */
  ghost predicate EntriesRight(g: map<Mayor, map<Mayor, int>>, pairs: seq<Pair>, ms: seq<Mayor>) {
    forall a, b | a in g && b in g[a] :: b in ms && g[a][b] == NetPreference(pairs, a, b)
  }

  /** Every remembered pair is remembered the other way round too. */
  ghost predicate EntriesPaired(g: map<Mayor, map<Mayor, int>>) {
    forall a, b | a in g && b in g[a] :: b in g && a in g[b]
  }

  /** Remembering a right value keeps every remembered value right and
      keeps the rows. */
  lemma PutRight(g: map<Mayor, map<Mayor, int>>, pairs: seq<Pair>, ms: seq<Mayor>, a: Mayor, b: Mayor, v: int)
    requires a in g && b in ms && EntriesRight(g, pairs, ms)
    requires v == NetPreference(pairs, a, b)
    ensures EntriesRight(Put(g, a, b, v), pairs, ms) && Put(g, a, b, v).Keys == g.Keys
  {
    var g1 := Put(g, a, b, v);
    forall x, y | x in g1 && y in g1[x] ensures y in ms && g1[x][y] == NetPreference(pairs, x, y) {
      if x == a && y == b {
      } else {
        assert y in g[x] && g1[x][y] == g[x][y];
      }
    }
  }

  /** Remembering a pair in both directions keeps every pair remembered
      both ways, and forgets nothing. */
  lemma PutPaired(g: map<Mayor, map<Mayor, int>>, a: Mayor, b: Mayor, v: int, w: int)
    requires a in g && b in g && EntriesPaired(g) && (a == b ==> v == w)
    ensures var g2 := Put(Put(g, a, b, v), b, a, w);
      && EntriesPaired(g2)
      && b in g2[a] && g2[a][b] == v && a in g2[b] && g2[b][a] == w
      && forall x, y | x in g && y in g[x] :: y in g2[x]
  {
    var g1 := Put(g, a, b, v);
    var g2 := Put(g1, b, a, w);
    assert g1.Keys == g.Keys && g2.Keys == g.Keys;
    assert forall x | x in g :: g[x].Keys <= g2[x].Keys;
    forall x, y | x in g2 && y in g2[x] ensures y in g2 && x in g2[y] {
      if !(x == a && y == b) && !(x == b && y == a) {
        assert y in g[x];
      }
    }
  }

  /** Remembering the net preference of `a` over `b`, and its negation for
      `b` over `a`, keeps the memo right and forgets nothing. */
  lemma MemoStore(g: map<Mayor, map<Mayor, int>>, pairs: seq<Pair>, ms: seq<Mayor>, a: Mayor, b: Mayor, v: int)
    requires MemoSound(g, pairs, ms) && a in ms && b in ms
    requires v == NetPreference(pairs, a, b)
    ensures var g2 := Put(Put(g, a, b, v), b, a, -v);
      && MemoSound(g2, pairs, ms)
      && b in g2[a] && g2[a][b] == v && a in g2[b] && g2[b][a] == -v
      && forall x, y | x in g && y in g[x] :: y in g2[x]
  {
    NetPreferenceAntisymmetric(pairs, a, b);
    if a == b {
      NetPreferenceSelf(pairs, a);
    }
    var g1 := Put(g, a, b, v);
    PutRight(g, pairs, ms, a, b, v);
    PutRight(g1, pairs, ms, b, a, -v);
    PutPaired(g, a, b, v, -v);
  }

  /** The body of `netPreference` on a memo `g`: the remembered value, or
      the sum over the ballots, then remembered in both directions. */
  method Remember(g: map<Mayor, map<Mayor, int>>, pairs: seq<Pair>, ms: seq<Mayor>, a: Mayor, b: Mayor)
    returns (answer: int, g2: map<Mayor, map<Mayor, int>>)
    requires MemoSound(g, pairs, ms) && a in ms && b in ms
    ensures MemoSound(g2, pairs, ms)
    ensures answer == NetPreference(pairs, a, b)
    ensures b in g2[a] && g2[a][b] == answer && a in g2[b] && g2[b][a] == -answer
    ensures forall x, y | x in g && y in g[x] :: y in g2[x]
  {
    NetPreferenceAntisymmetric(pairs, a, b);
    if b in g[a] {
      answer, g2 := g[a][b], g;
    } else {
      answer := NetPreference(pairs, a, b);
      MemoStore(g, pairs, ms, a, b, answer);
      g2 := Put(Put(g, a, b, answer), b, a, -answer);
    }
  }

  /** The loop of `copelandScore` over a memo. */
  method CopelandWith(g: map<Mayor, map<Mayor, int>>, pairs: seq<Pair>, ms: seq<Mayor>, m: Mayor)
    returns (score: int, g2: map<Mayor, map<Mayor, int>>)
    requires MemoSound(g, pairs, ms) && m in ms
    ensures MemoSound(g2, pairs, ms)
    ensures score == Copeland(pairs, ms, m)
  {
    g2 := g;
    score := 0;
    for k := 0 to |ms|
      invariant MemoSound(g2, pairs, ms)
      invariant score == Copeland(pairs, ms[..k], m)
    {
      var preference;
      preference, g2 := Remember(g2, pairs, ms, m, ms[k]);
      score := score + Sign(preference);
      assert ms[..k + 1][..k] == ms[..k];
    }
    assert ms[..|ms|] == ms;
  }

  /** The loop of `symmetricBordaScore` over a memo. */
  method SymmetricBordaWith(g: map<Mayor, map<Mayor, int>>, pairs: seq<Pair>, ms: seq<Mayor>, m: Mayor)
    returns (score: int, g2: map<Mayor, map<Mayor, int>>)
    requires MemoSound(g, pairs, ms) && m in ms
    ensures MemoSound(g2, pairs, ms)
    ensures score == SymmetricBorda(pairs, ms, m)
  {
    g2 := g;
    score := 0;
    for k := 0 to |ms|
      invariant MemoSound(g2, pairs, ms)
      invariant score == SymmetricBorda(pairs, ms[..k], m)
    {
      var preference;
      preference, g2 := Remember(g2, pairs, ms, m, ms[k]);
      score := score + preference;
      assert ms[..k + 1][..k] == ms[..k];
    }
    assert ms[..|ms|] == ms;
  }

  /** The `min` of `simpsonScore` over a memo. */
  method SimpsonWith(g: map<Mayor, map<Mayor, int>>, pairs: seq<Pair>, ms: seq<Mayor>, m: Mayor)
    returns (score: int, g2: map<Mayor, map<Mayor, int>>)
    requires MemoSound(g, pairs, ms) && m in ms && Without(ms, m) != []
    ensures MemoSound(g2, pairs, ms)
    ensures score == Simpson(pairs, ms, m)
    ensures score >= 0 <==> m in CondorcetWinners(pairs, ms)
  {
    ghost var at;
    score, g2, at := MinPreference(g, pairs, ms, m, Without(ms, m));
    SimpsonOfOthers(pairs, ms, m, score, at);
    CondorcetIffSimpson(pairs, ms, m);
  }

  /** The smallest net preference of `m` over the mayors of `others`, each
      looked up or computed and remembered. */
  method MinPreference(g: map<Mayor, map<Mayor, int>>, pairs: seq<Pair>, ms: seq<Mayor>, m: Mayor, others: seq<Mayor>)
    returns (score: int, g2: map<Mayor, map<Mayor, int>>, ghost at: nat)
    requires MemoSound(g, pairs, ms) && m in ms && others != []
    requires forall i | 0 <= i < |others| :: others[i] in ms
    ensures MemoSound(g2, pairs, ms)
    ensures at < |others| && score == NetPreference(pairs, m, others[at])
    ensures forall i | 0 <= i < |others| :: score <= NetPreference(pairs, m, others[i])
  {
    score, g2 := Remember(g, pairs, ms, m, others[0]);
    at := 0;
    for k := 1 to |others|
      invariant MinSoFar(g2, pairs, ms, m, others, k, score, at)
    {
      score, g2, at := MinStep(g2, pairs, ms, m, others, k, score, at);
    }
  }

  /** The loop state of `MinPreference` after the first `k` mayors of
      `others`: `score` is the net preference over the one at `at`, and no
      larger than that over any of them. */
  ghost predicate MinSoFar(g: map<Mayor, map<Mayor, int>>, pairs: seq<Pair>, ms: seq<Mayor>, m: Mayor, others: seq<Mayor>, k: nat, score: int, at: nat) {
    && MemoSound(g, pairs, ms)
    && at < k <= |others|
    && score == NetPreference(pairs, m, others[at])
    && forall i | 0 <= i < k :: score <= NetPreference(pairs, m, others[i])
  }

  /** One more mayor of `others` compared. */
  method MinStep(g: map<Mayor, map<Mayor, int>>, pairs: seq<Pair>, ms: seq<Mayor>, m: Mayor, others: seq<Mayor>, k: nat, score: int, ghost at: nat)
    returns (score2: int, g2: map<Mayor, map<Mayor, int>>, ghost at2: nat)
    requires k < |others| && m in ms && others[k] in ms
    requires MinSoFar(g, pairs, ms, m, others, k, score, at)
    ensures MinSoFar(g2, pairs, ms, m, others, k + 1, score2, at2)
  {
    var preference;
    preference, g2 := Remember(g, pairs, ms, m, others[k]);
    if preference < score {
      score2, at2 := preference, k;
    } else {
      score2, at2 := score, at;
    }
  }

  /** `all(netPreference(m, x) >= 0 for x in mayors)` over a memo: stops
      at the first mayor that beats `m`. */
  method BeatenByNone(g: map<Mayor, map<Mayor, int>>, pairs: seq<Pair>, ms: seq<Mayor>, m: Mayor)
    returns (ok: bool, g2: map<Mayor, map<Mayor, int>>)
    requires MemoSound(g, pairs, ms) && m in ms
    ensures MemoSound(g2, pairs, ms)
    ensures ok <==> IsCondorcetWinner(pairs, ms, m)
  {
    g2 := g;
    for k := 0 to |ms|
      invariant MemoSound(g2, pairs, ms)
      invariant forall i | 0 <= i < k :: NetPreference(pairs, m, ms[i]) >= 0
    {
      var preference;
      preference, g2 := Remember(g2, pairs, ms, m, ms[k]);
      if preference < 0 {
        ok := false;
        return;
      }
    }
    ok := true;
    forall x | x in ms ensures NetPreference(pairs, m, x) >= 0 {
      var i :| 0 <= i < |ms| && ms[i] == x;
    }
  }

  /** The comprehension of `condorcetWinners` over a memo. */
  method CondorcetWith(g: map<Mayor, map<Mayor, int>>, pairs: seq<Pair>, ms: seq<Mayor>)
    returns (winners: set<Mayor>, g2: map<Mayor, map<Mayor, int>>)
    requires MemoSound(g, pairs, ms)
    ensures MemoSound(g2, pairs, ms)
    ensures winners == CondorcetWinners(pairs, ms)
  {
    g2 := g;
    winners := {};
    for k := 0 to |ms|
      invariant MemoSound(g2, pairs, ms)
      invariant winners == set x | x in ms[..k] && IsCondorcetWinner(pairs, ms, x)
    {
      var ok;
      ok, g2 := BeatenByNone(g2, pairs, ms, ms[k]);
      if ok {
        winners := winners + {ms[k]};
      }
      assert ms[..k + 1] == ms[..k] + [ms[k]];
    }
    assert ms[..|ms|] == ms;
  }

  /** The loop of `sequentialMajorityComparison` over a memo: each mayor in
      turn replaces the running winner when it beats it. */
  method SmcWith(g: map<Mayor, map<Mayor, int>>, pairs: seq<Pair>, ms: seq<Mayor>)
    returns (winner: Mayor, g2: map<Mayor, map<Mayor, int>>)
    requires MemoSound(g, pairs, ms) && |ms| > 0
    ensures MemoSound(g2, pairs, ms)
    ensures winner == SmcUpTo(pairs, ms, |ms|)
  {
    g2 := g;
    winner := ms[0];
    for k := 1 to |ms|
      invariant MemoSound(g2, pairs, ms)
      invariant winner == SmcUpTo(pairs, ms, k)
    {
      var preference;
      preference, g2 := Remember(g2, pairs, ms, ms[k], winner);
      if preference > 0 {
        winner := ms[k];
      }
    }
  }

  /** One step of removing the mayors of `bad` one after the other: the next
      one is still a mayor, and removing it extends the prefix removed. */
  lemma RemoveAllStep(pairs: seq<Pair>, bad: seq<Mayor>, k: nat)
    requires ValidPairs(pairs) && Distinct(bad) && k < |bad|
    requires forall x | x in bad :: x in Candidates(pairs)
    ensures ValidPairs(RemoveAll(pairs, bad[..k]))
    ensures bad[k] in Mayors(RemoveAll(pairs, bad[..k]))
    ensures RemoveAll(pairs, bad[..k + 1]) == RemoveCandidate(RemoveAll(pairs, bad[..k]), bad[k])
  {
    RemoveAllValid(pairs, bad[..k]);
    assert bad[k] !in bad[..k];
    assert bad[k] in Elems(Mayors(RemoveAll(pairs, bad[..k])));
    assert bad[..k + 1][..k] == bad[..k];
  }

  /** `t` holds, for exactly the mayors of `ms`, their first places. */
  ghost predicate TallySound(t: map<Mayor, int>, pairs: seq<Pair>, ms: seq<Mayor>) {
    && (forall m | m in ms :: m in t && t[m] == VotesAt(pairs, 0, m))
    && forall m | m in t :: m in ms
  }

  class Profile {
    const pairs: seq<Pair>
    const mayors: seq<Mayor>
    const totalVotes: int
    var netPreferenceGraph: map<Mayor, map<Mayor, int>>
    var votesPerMayor: Option<map<Mayor, int>>

    /** The mayors and the number of voters are those of the pairs. */
    ghost predicate Built() {
      && ValidPairs(pairs)
      && mayors == Mayors(pairs)
      && totalVotes == TotalVotes(pairs)
    }

    /** The remembered values agree with the pairs. */
    ghost predicate Valid()
      reads this
    {
      && Built()
      && TallyKept()
      && MemoKept()
    }

    /** The first-place tally, once counted, is right. */
    ghost predicate TallyKept()
      reads this`votesPerMayor
    {
      votesPerMayor.Some? ==> TallySound(votesPerMayor.value, pairs, mayors)
    }

    /** The remembered net preferences are right. */
    ghost predicate MemoKept()
      reads this`netPreferenceGraph
    {
      MemoSound(netPreferenceGraph, pairs, mayors)
    }

    /** `Profile(pairs)`: the mayors of the first ballot, the number of
        voters, an empty row of net preferences per mayor and no plurality
        tally yet. */
    constructor (ps: seq<Pair>)
      requires ValidPairs(ps)
      ensures Valid()
      ensures pairs == ps && mayors == Mayors(ps) && totalVotes == TotalVotes(ps)
      ensures netPreferenceGraph == map m | m in mayors :: map[]
      ensures votesPerMayor == None
    {
      pairs := ps;
      mayors := Mayors(ps);
      totalVotes := TotalVotes(ps);
      netPreferenceGraph := map m | m in Mayors(ps) :: map[];
      votesPerMayor := None;
    }

    // -------------------------------------------------------------------
    // Mayor comparisons

    /** `netPreference(a, b)`: the remembered value, or the sum over the
        ballots, then remembered for `(a, b)` and, negated, for `(b, a)`. */
    method NetPreference(a: Mayor, b: Mayor) returns (answer: int)
      requires Valid() && a in mayors && b in mayors
      modifies this`netPreferenceGraph
      ensures Valid()
      ensures answer == Ballots.NetPreference(pairs, a, b)
      ensures b in netPreferenceGraph[a] && netPreferenceGraph[a][b] == answer
      ensures a in netPreferenceGraph[b] && netPreferenceGraph[b][a] == -answer
      ensures forall x, y | x in old(netPreferenceGraph) && y in old(netPreferenceGraph)[x] ::
        y in netPreferenceGraph[x]
    {
      answer, netPreferenceGraph := Remember(netPreferenceGraph, pairs, mayors, a, b);
    }

    /** `doesParetoDominate(a, b)`: every ballot ranks `a` above `b`; then
        `a` beats `b` with every voter, so `b` is no Condorcet winner. */
    function DoesParetoDominate(a: Mayor, b: Mayor): (r: bool)
      reads this
      requires Valid() && a in mayors && b in mayors
      ensures r <==> forall i | 0 <= i < |pairs| :: Position(pairs[i].ballot, a) < Position(pairs[i].ballot, b)
      ensures r ==> Ballots.NetPreference(pairs, b, a) == -totalVotes < 0
      ensures r ==> b !in Scores.CondorcetWinners(pairs, mayors)
    {
      if ParetoDominates(pairs, a, b) then
        ParetoUnanimous(pairs, a, b);
        NetPreferenceAntisymmetric(pairs, b, a);
        TotalVotesPositive(pairs);
        true
      else false
    }

    // -------------------------------------------------------------------
    // Simple scores

    /** `copelandScore(m)`: the signs of `m`'s net preferences over every
        mayor, `m` included, each looked up or computed and remembered. */
    method CopelandScore(m: Mayor) returns (score: int)
      requires Valid() && m in mayors
      modifies this`netPreferenceGraph
      ensures Valid()
      ensures score == Scores.Copeland(pairs, mayors, m)
      ensures -(|mayors| - 1) <= score <= |mayors| - 1
    {
      score, netPreferenceGraph := CopelandWith(netPreferenceGraph, pairs, mayors, m);
      CopelandBounds(pairs, mayors, m);
    }

    /** `symmetricBordaScore(m)`: the sum of `m`'s net preferences; twice
        the Borda score is this plus `len(mayors) - 1` points per voter. */
    method SymmetricBordaScore(m: Mayor) returns (score: int)
      requires Valid() && m in mayors
      modifies this`netPreferenceGraph
      ensures Valid()
      ensures score == Scores.SymmetricBorda(pairs, mayors, m)
      ensures 2 * BordaScores(pairs)(m) == score + (|mayors| - 1) * totalVotes
    {
      BordaSymmetric(pairs, m);
      score, netPreferenceGraph := SymmetricBordaWith(netPreferenceGraph, pairs, mayors, m);
    }

    /** `bordaScore(m)`: `len(mayors) - 1 - index` points per voter. Its
        mean over the mayors is `(len(mayors) - 1) / 2` points per voter. */
    function BordaScore(m: Mayor): (r: int)
      requires Built() && m in mayors
      ensures r == BordaScores(pairs)(m)
      ensures 0 <= r <= (|mayors| - 1) * totalVotes
      ensures 2 * Sum(mayors, BordaScores(pairs)) == |mayors| * (|mayors| - 1) * totalVotes
    {
      MayorsRanked(pairs);
      BordaBounds(pairs, |mayors| - 1, m);
      BordaTotalTwice(pairs);
      Ballots.Borda(pairs, |mayors| - 1, m)
    }

    /** `simpsonScore(m)`: the smallest net preference of `m` over another
        mayor (`min` of an empty sequence raises when there is none); it is
        not negative exactly for a Condorcet winner. */
    method SimpsonScore(m: Mayor) returns (score: int)
      requires Valid() && m in mayors && |mayors| >= 2
      modifies this`netPreferenceGraph
      ensures Valid()
      ensures score == Scores.Simpson(pairs, mayors, m)
      ensures score >= 0 <==> m in Scores.CondorcetWinners(pairs, mayors)
    {
      OtherMayors(mayors);
      score, netPreferenceGraph := SimpsonWith(netPreferenceGraph, pairs, mayors, m);
    }

    /** `pluralityScore(m)`: the first places of `m`, from the first-place
        tally, which is counted on the first call and remembered. */
    method PluralityScore(m: Mayor) returns (score: int)
      requires Valid() && m in mayors
      modifies this`votesPerMayor
      ensures Valid()
      ensures votesPerMayor.Some?
      ensures score == VotesAt(pairs, 0, m)
    {
      if votesPerMayor.None? {
        var tally := FirstPlaceTally();
        votesPerMayor := Some(tally);
      }
      score := votesPerMayor.value[m];
    }

    /** The first-place tally `pluralityScore` and `singleTransferableVote`
        count: every mayor starts at 0 and each pair adds its voters to the
        mayor its ballot puts first. The tallies add up to the number of
        voters. */
    method FirstPlaceTally() returns (tally: map<Mayor, int>)
      requires ValidPairs(pairs) && mayors == Mayors(pairs) && |mayors| > 0
      ensures TallySound(tally, pairs, mayors)
      ensures Sum(mayors, FirstPlaces(pairs)) == TotalVotes(pairs)
    {
      tally := TallyFirstPlaces(pairs, mayors);
      FirstPlacesTotal(pairs);
    }

    // -------------------------------------------------------------------
    // Social choice functions

    /** `scoreWinners(scoreFunction)`: the mayors with the largest score. */
    method ScoreWinners(key: Mayor -> int) returns (winners: set<Mayor>)
      ensures winners == set m | m in mayors && forall x | x in mayors :: key(x) <= key(m)
      ensures mayors != [] ==> winners != {}
    {
      var bests := Maxes(mayors, key);
      winners := set m | m in bests;
      if mayors != [] {
        var top := MaxKey(mayors, key);
        forall m ensures m in winners <==> m in mayors && forall x | x in mayors :: key(x) <= key(m) {
          KeyIsMember(mayors, key, top, m);
          if m in mayors && forall x | x in mayors :: key(x) <= key(m) {
            var i :| 0 <= i < |mayors| && key(mayors[i]) == top;
          }
        }
        assert bests[0] in winners;
      }
    }

    /** `condorcetWinners()`: the mayors no mayor beats. */
    method CondorcetWinners() returns (winners: set<Mayor>)
      requires Valid()
      modifies this`netPreferenceGraph
      ensures Valid()
      ensures winners == Scores.CondorcetWinners(pairs, mayors)
    {
      winners, netPreferenceGraph := CondorcetWith(netPreferenceGraph, pairs, mayors);
    }

    /** `removeMayor(m)`: a new profile without `m`, the voters of ballots
        that become equal combined. */
    method RemoveMayor(m: Mayor) returns (next: Profile)
      requires Valid() && m in mayors
      ensures fresh(next) && next.Valid()
      ensures next.pairs == RemoveCandidate(pairs, m)
      ensures next.mayors == Without(mayors, m) && next.totalVotes == totalVotes
    {
      RemoveCandidateValid(pairs, m);
      next := new Profile(RemoveCandidate(pairs, m));
    }

    /** `singleTransferableVote()`: tally the first places; return the first
        mayor (in ascending order) with more than half of the voters, or
        remove the first mayor with the fewest first places and start
        again. */
    method SingleTransferableVote() returns (winners: set<Mayor>)
      requires Valid() && |mayors| > 0
      ensures winners == {Stv(pairs, AscendingIds)}
      decreases |mayors|
    {
      var tally := FirstPlaceTally();
      var at, worst := ScanTally(tally, mayors, FirstPlaces(pairs), totalVotes / 2);
      StvRound(pairs, AscendingIds, at, worst);
      if at < |mayors| {
        return {mayors[at]};
      }
      var next := RemoveMayor(mayors[worst]);
      winners := next.SingleTransferableVote();
    }

    /** `sequentialMajorityComparison()`: the running winner after every
        mayor in ascending order. */
    method SequentialMajorityComparison() returns (winner: Mayor)
      requires Valid() && |mayors| > 0
      modifies this`netPreferenceGraph
      ensures Valid()
      ensures winner == Smc(pairs)
    {
      winner, netPreferenceGraph := SmcWith(netPreferenceGraph, pairs, mayors);
    }

    /** `baldwinRule()`: remove the first mayor with the smallest Borda
        score until one is left. */
    method BaldwinRule() returns (winners: set<Mayor>)
      requires Valid() && |mayors| > 0
      ensures winners == Baldwin(pairs)
      decreases |mayors|
    {
      if |mayors| == 1 {
        return Elems(mayors);
      }
      var worst := mayors[FirstMin(mayors, BordaScores(pairs))];
      RemoveCandidateValid(pairs, worst);
      var next := RemoveMayor(worst);
      winners := next.BaldwinRule();
    }

    /** The loop of `nansonRule` that removes the mayors of `bad` one after
        the other. */
    method RemoveMayors(bad: seq<Mayor>) returns (next: Profile)
      requires Valid() && Distinct(bad) && forall x | x in bad :: x in mayors
      ensures next.Valid() && next.pairs == RemoveAll(pairs, bad)
    {
      next := this;
      for k := 0 to |bad|
        invariant next.Valid() && next.pairs == RemoveAll(pairs, bad[..k])
      {
        RemoveAllStep(pairs, bad, k);
        next := next.RemoveMayor(bad[k]);
      }
      assert bad[..|bad|] == bad;
    }

    /** `nansonRule()`: remove every mayor whose Borda score is below the
        mean, one after the other, and start again; stop when one mayor is
        left or none is below the mean. */
    method NansonRule() returns (winners: set<Mayor>)
      requires Valid() && |mayors| > 0
      ensures winners == Nanson(pairs)
      decreases |mayors|
    {
      if |mayors| == 1 {
        return Elems(mayors);
      }
      var bad := BadMayors(pairs);
      if bad == [] {
        return Elems(mayors);
      }
      var next := RemoveMayors(bad);
      NansonStep(pairs);
      winners := next.NansonRule();
    }
  }
}
