/** What the elimination rules of social_choice_functions.py and
    social-choice-functions.py share: the scans that pick a mayor from a
    tally (`min`, `max`, and the STV loop that returns on a majority and
    otherwise keeps the first strictly smallest tally), removing several
    mayors one after the other, and single transferable vote itself.

    Both generations scan the first-place tally in an order of their own:
    the newer one in the order of its set of mayors (ascending ids), the
    older one in the order of the first ballot of the profile. `ScanOrder`
    names the two, so that the rule is defined, and its properties proved,
    once. */
module Elimination {
  import opened Seqs
  import opened Ballots
  import opened Removal

  // ---------------------------------------------------------------------
  // Scans

  /** The first position with the smallest key: Python's `min(xs, key=key)`,
      and also what a scan keeps that starts from an infinite "worst" and
      replaces it only on a strictly smaller key. */
  function FirstMin(xs: seq<Mayor>, key: Mayor -> int): (k: nat)
    requires |xs| > 0
    ensures k < |xs|
    ensures forall i | 0 <= i < |xs| :: key(xs[k]) <= key(xs[i])
    ensures forall i | 0 <= i < k :: key(xs[k]) < key(xs[i])
  {
    if |xs| == 1 then 0
    else
      var init := xs[..|xs| - 1];
      var k := FirstMin(init, key);
      assert forall i | 0 <= i < |init| :: init[i] == xs[i];
      if key(xs[|xs| - 1]) < key(xs[k]) then |xs| - 1 else k
  }

  /** Scanning one more element: it becomes the first minimum only when its
      key is strictly below the one found so far. */
  lemma FirstMinStep(xs: seq<Mayor>, key: Mayor -> int, k: nat)
    requires k < |xs|
    ensures FirstMin(xs[..k + 1], key)
         == if k == 0 then 0
            else var w := FirstMin(xs[..k], key); if key(xs[k]) < key(xs[w]) then k else w
  {
    var s := xs[..k + 1];
    assert s[..k] == xs[..k];
  }

  /** The first position with the largest key: Python's `max(xs, key=key)`. */
  function FirstMax(xs: seq<Mayor>, key: Mayor -> int): (k: nat)
    requires |xs| > 0
    ensures k < |xs|
    ensures forall i | 0 <= i < |xs| :: key(xs[i]) <= key(xs[k])
    ensures forall i | 0 <= i < k :: key(xs[i]) < key(xs[k])
  {
    if |xs| == 1 then 0
    else
      var init := xs[..|xs| - 1];
      var k := FirstMax(init, key);
      assert forall i | 0 <= i < |init| :: init[i] == xs[i];
      if key(xs[|xs| - 1]) > key(xs[k]) then |xs| - 1 else k
  }

  /** The first position whose key is above `bar`, or `|xs|` when there is
      none. */
  function FirstAbove(xs: seq<Mayor>, key: Mayor -> int, bar: int): (k: nat)
    ensures k <= |xs|
    ensures forall i | 0 <= i < k :: key(xs[i]) <= bar
    ensures k < |xs| ==> key(xs[k]) > bar
  {
    if xs == [] then 0
    else if key(xs[0]) > bar then 0
    else
      var k := FirstAbove(xs[1..], key, bar);
      assert forall i | 0 <= i < |xs| - 1 :: xs[1..][i] == xs[i + 1];
      k + 1
  }

  /** The positions found by the scans are the only ones with their
      properties. */
  lemma FirstMinUnique(xs: seq<Mayor>, key: Mayor -> int, k: nat)
    requires k < |xs|
    requires forall i | 0 <= i < |xs| :: key(xs[k]) <= key(xs[i])
    requires forall i | 0 <= i < k :: key(xs[k]) < key(xs[i])
    ensures k == FirstMin(xs, key)
  {
  }

  lemma FirstAboveUnique(xs: seq<Mayor>, key: Mayor -> int, bar: int, k: nat)
    requires k <= |xs|
    requires forall i | 0 <= i < k :: key(xs[i]) <= bar
    requires k < |xs| ==> key(xs[k]) > bar
    ensures k == FirstAbove(xs, key, bar)
  {
  }

  // ---------------------------------------------------------------------
  // First places

  /** The first-place votes of every mayor. */
  function FirstPlaces(pairs: seq<Pair>): Mayor -> int {
    (m: Mayor) => VotesAt(pairs, 0, m)
  }

  /** Two different mayors share at most all the voters between their first
      places, so at most one of them holds more than half of them. */
  lemma {:induction false} TwoFirstPlaces(pairs: seq<Pair>, a: Mayor, b: Mayor)
    requires a != b
    ensures VotesAt(pairs, 0, a) + VotesAt(pairs, 0, b) <= TotalVotes(pairs)
    ensures 0 <= VotesAt(pairs, 0, a)
  {
    if pairs != [] {
      TwoFirstPlaces(pairs[..|pairs| - 1], a, b);
    }
  }

  /** With one mayor left, every voter puts it first. */
  lemma SingleMayorFirst(pairs: seq<Pair>)
    requires ValidPairs(pairs) && |Mayors(pairs)| == 1
    ensures VotesAt(pairs, 0, Mayors(pairs)[0]) == TotalVotes(pairs) > 0
  {
    var ms := Mayors(pairs);
    MayorsRanked(pairs);
    forall i | 0 <= i < |pairs| ensures 0 < |pairs[i].ballot| && pairs[i].ballot[0] in ms {
      assert pairs[i].ballot[0] in Elems(pairs[i].ballot);
    }
    VotesAtSum(pairs, 0, ms);
    assert ms == [ms[0]];
    TotalVotesPositive(pairs);
  }

  /** The first-place tally of the STV rules: a count per mayor of `ms`,
      starting at 0, to which each pair adds its voters at its first
      choice. */
  method TallyFirstPlaces(pairs: seq<Pair>, ms: seq<Mayor>) returns (tally: map<Mayor, int>)
    requires ValidPairs(pairs) && |Mayors(pairs)| > 0 && Elems(ms) == Candidates(pairs)
    ensures tally == TallyAt(pairs, 0, ms)
  {
    tally := map m | m in ms :: 0;
    assert tally == TallyAt(pairs[..0], 0, ms);
    for t := 0 to |pairs|
      invariant tally == TallyAt(pairs[..t], 0, ms)
    {
      var ballot := pairs[t].ballot;
      FirstPlaceStep(pairs, ms, t, tally);
      tally := tally[ballot[0] := tally[ballot[0]] + pairs[t].votes];
    }
    assert pairs[..|pairs|] == pairs;
  }

  /** Ballot `t` has a first choice among `ms`, and counting it adds its
      voters there. */
  lemma FirstPlaceStep(pairs: seq<Pair>, ms: seq<Mayor>, t: nat, tally: map<Mayor, int>)
    requires ValidPairs(pairs) && |Mayors(pairs)| > 0 && Elems(ms) == Candidates(pairs) && t < |pairs|
    requires tally == TallyAt(pairs[..t], 0, ms)
    ensures |pairs[t].ballot| > 0 && pairs[t].ballot[0] in tally
    ensures var b := pairs[t].ballot;
      tally[b[0] := tally[b[0]] + pairs[t].votes] == TallyAt(pairs[..t + 1], 0, ms)
  {
    MayorsRanked(pairs);
    var ballot := pairs[t].ballot;
    assert ballot[0] in ms by {
      assert ballot[0] in Elems(ballot);
    }
    TallyStep(pairs, t, 0, ms);
  }

  /** The scan of the STV rules: the position it returns on (the
      first mayor whose tally is above `bar`, or `|ms|`), and the position of
      the first mayor with the smallest tally, which replaces the running
      worst one only on a strictly smaller tally. */
  method ScanTally(tally: map<Mayor, int>, ms: seq<Mayor>, key: Mayor -> int, bar: int)
    returns (at: nat, worst: nat)
    requires forall m | m in ms :: m in tally && tally[m] == key(m)
    ensures at == FirstAbove(ms, key, bar)
    ensures at == |ms| && |ms| > 0 ==> worst < |ms| && worst == FirstMin(ms, key)
  {
    var worstVotes := 0;
    worst := 0;
    for k := 0 to |ms|
      invariant ScannedUpTo(ms, key, bar, k, worst, worstVotes)
    {
      var numVotes := tally[ms[k]];
      if numVotes > bar {
        FirstAboveUnique(ms, key, bar, k);
        return k, worst;
      }
      ScanStep(ms, key, bar, k, worst, worstVotes);
      if k == 0 || numVotes < worstVotes {
        worst, worstVotes := k, numVotes;
      }
    }
    ScanDone(ms, key, bar, worst, worstVotes);
    at := |ms|;
  }

  /** The loop invariant of `ScanTally` after `k` mayors: none above `bar`,
      and the running worst is the first minimum so far. */
  ghost predicate ScannedUpTo(ms: seq<Mayor>, key: Mayor -> int, bar: int, k: nat, worst: nat, worstVotes: int) {
    && k <= |ms|
    && (forall i | 0 <= i < k :: key(ms[i]) <= bar)
    && (k > 0 ==> worst < k && worst == FirstMin(ms[..k], key) && worstVotes == key(ms[worst]))
  }

  lemma ScanStep(ms: seq<Mayor>, key: Mayor -> int, bar: int, k: nat, worst: nat, worstVotes: int)
    requires ScannedUpTo(ms, key, bar, k, worst, worstVotes) && k < |ms| && key(ms[k]) <= bar
    ensures var better := k == 0 || key(ms[k]) < worstVotes;
      ScannedUpTo(ms, key, bar, k + 1, if better then k else worst, if better then key(ms[k]) else worstVotes)
  {
    FirstMinStep(ms, key, k);
  }

  lemma ScanDone(ms: seq<Mayor>, key: Mayor -> int, bar: int, worst: nat, worstVotes: int)
    requires ScannedUpTo(ms, key, bar, |ms|, worst, worstVotes)
    ensures FirstAbove(ms, key, bar) == |ms|
    ensures |ms| > 0 ==> worst < |ms| && worst == FirstMin(ms, key)
  {
    FirstAboveUnique(ms, key, bar, |ms|);
    assert ms[..|ms|] == ms;
  }

  // ---------------------------------------------------------------------
  // Single transferable vote

  /** The order a first-place tally is scanned in: the set of mayors
      (ascending ids) or the first ballot of the profile. */
  datatype ScanOrder = AscendingIds | FirstBallot

  function Scanned(pairs: seq<Pair>, order: ScanOrder): (r: seq<Mayor>)
    requires ValidPairs(pairs)
    ensures Distinct(r) && Elems(r) == Candidates(pairs) && |r| == |Mayors(pairs)|
  {
    MayorsRanked(pairs);
    match order
    case AscendingIds => Mayors(pairs)
    case FirstBallot => pairs[0].ballot
  }

  /** The position the STV scan returns on: the first mayor with more than
      half of the voters as first places, or `|ms|`. */
  function MajorityAt(pairs: seq<Pair>, order: ScanOrder): (k: nat)
    requires ValidPairs(pairs)
    ensures k <= |Mayors(pairs)|
  {
    FirstAbove(Scanned(pairs, order), FirstPlaces(pairs), TotalVotes(pairs) / 2)
  }

  /** The mayor STV removes when no mayor has a majority: the first one
      with the fewest first places. */
  function Weakest(pairs: seq<Pair>, order: ScanOrder): (m: Mayor)
    requires ValidPairs(pairs) && |Mayors(pairs)| > 0
    ensures m in Candidates(pairs)
  {
    var ms := Scanned(pairs, order);
    ms[FirstMin(ms, FirstPlaces(pairs))]
  }

  /** Without a majority there are at least two mayors left, and removing
      the weakest one leaves a valid profile of the others with the same
      voters. */
  lemma NoMajority(pairs: seq<Pair>, order: ScanOrder)
    requires ValidPairs(pairs) && |Mayors(pairs)| > 0
    requires MajorityAt(pairs, order) == |Mayors(pairs)|
    ensures |Mayors(pairs)| >= 2
    ensures var next := RemoveCandidate(pairs, Weakest(pairs, order));
      && ValidPairs(next)
      && Mayors(next) == Without(Mayors(pairs), Weakest(pairs, order))
      && |Mayors(next)| == |Mayors(pairs)| - 1 > 0
      && TotalVotes(next) == TotalVotes(pairs)
  {
    if |Mayors(pairs)| == 1 {
      SingleMayorFirst(pairs);
    }
    RemoveCandidateValid(pairs, Weakest(pairs, order));
  }

  /** `singleTransferableVote`: return the mayor with a majority of first
      places, or remove the weakest mayor and start again. */
  function Stv(pairs: seq<Pair>, order: ScanOrder): (w: Mayor)
    requires ValidPairs(pairs) && |Mayors(pairs)| > 0
    ensures w in Candidates(pairs)
    decreases |Mayors(pairs)|
  {
    var ms := Scanned(pairs, order);
    var k := MajorityAt(pairs, order);
    if k < |ms| then ms[k]
    else
      var worst := Weakest(pairs, order);
      NoMajority(pairs, order);
      var w := Stv(RemoveCandidate(pairs, worst), order);
      assert w in Elems(Mayors(RemoveCandidate(pairs, worst)));
      w
  }

  /** One round of STV, given the scan of the tally: a majority at `at`
      wins; otherwise the mayor at `worst` is the weakest, and STV goes on
      without it. */
  lemma StvRound(pairs: seq<Pair>, order: ScanOrder, at: nat, worst: nat)
    requires ValidPairs(pairs) && |Mayors(pairs)| > 0
    requires at == FirstAbove(Scanned(pairs, order), FirstPlaces(pairs), TotalVotes(pairs) / 2)
    requires at == |Mayors(pairs)| ==> worst < |Mayors(pairs)| && worst == FirstMin(Scanned(pairs, order), FirstPlaces(pairs))
    ensures at < |Mayors(pairs)| ==> Stv(pairs, order) == Scanned(pairs, order)[at]
    ensures at == |Mayors(pairs)| ==>
      var next := RemoveCandidate(pairs, Scanned(pairs, order)[worst]);
      && ValidPairs(next)
      && Mayors(next) == Without(Mayors(pairs), Scanned(pairs, order)[worst])
      && |Mayors(next)| == |Mayors(pairs)| - 1 > 0
      && TotalVotes(next) == TotalVotes(pairs)
      && Stv(pairs, order) == Stv(next, order)
  {
    if at == |Mayors(pairs)| {
      NoMajority(pairs, order);
    }
  }

  /** The profile STV ends on: the one in which a mayor has a majority. */
  function StvFinal(pairs: seq<Pair>, order: ScanOrder): (r: seq<Pair>)
    requires ValidPairs(pairs) && |Mayors(pairs)| > 0
    decreases |Mayors(pairs)|
  {
    if MajorityAt(pairs, order) < |Mayors(pairs)| then pairs
    else
      NoMajority(pairs, order);
      StvFinal(RemoveCandidate(pairs, Weakest(pairs, order)), order)
  }

  /** The STV winner holds more than half of all the voters as first places
      in the profile STV ends on, a profile of some of the mayors with all of
      the voters. */
  lemma {:induction false} StvMajority(pairs: seq<Pair>, order: ScanOrder)
    requires ValidPairs(pairs) && |Mayors(pairs)| > 0
    ensures var f := StvFinal(pairs, order);
      && ValidPairs(f) && |Mayors(f)| > 0
      && TotalVotes(f) == TotalVotes(pairs)
      && Candidates(f) <= Candidates(pairs)
      && Stv(pairs, order) in Candidates(f)
      && VotesAt(f, 0, Stv(pairs, order)) > TotalVotes(pairs) / 2
    decreases |Mayors(pairs)|
  {
    if MajorityAt(pairs, order) == |Mayors(pairs)| {
      NoMajority(pairs, order);
      var next := RemoveCandidate(pairs, Weakest(pairs, order));
      StvMajority(next, order);
      assert Elems(Mayors(next)) <= Elems(Mayors(pairs));
    }
  }

  /** A mayor with more than half of the first places wins STV at once,
      whatever order the tally is scanned in. */
  lemma StvMajorityWins(pairs: seq<Pair>, order: ScanOrder, m: Mayor)
    requires ValidPairs(pairs) && m in Candidates(pairs)
    requires VotesAt(pairs, 0, m) > TotalVotes(pairs) / 2
    ensures Stv(pairs, order) == m
  {
    var ms := Scanned(pairs, order);
    var k := MajorityAt(pairs, order);
    assert m in Elems(ms);
    var j :| 0 <= j < |ms| && ms[j] == m;
    assert k <= j;
    if ms[k] != m {
      TwoFirstPlaces(pairs, ms[k], m);
    }
  }

  // ---------------------------------------------------------------------
  // Removing several mayors

  /** Removing the mayors of `xs` one after the other. */
  function RemoveAll(pairs: seq<Pair>, xs: seq<Mayor>): seq<Pair> {
    if xs == [] then pairs
    else RemoveCandidate(RemoveAll(pairs, xs[..|xs| - 1]), xs[|xs| - 1])
  }

  /** Removing distinct mayors of a valid profile one after the other gives
      a valid profile of the others, with the same voters and the same net
      preferences between the mayors that remain. */
  lemma {:induction false} RemoveAllValid(pairs: seq<Pair>, xs: seq<Mayor>)
    requires ValidPairs(pairs) && Distinct(xs)
    requires forall x | x in xs :: x in Candidates(pairs)
    ensures ValidPairs(RemoveAll(pairs, xs))
    ensures Candidates(RemoveAll(pairs, xs)) == Candidates(pairs) - Elems(xs)
    ensures TotalVotes(RemoveAll(pairs, xs)) == TotalVotes(pairs)
    ensures forall a, b | a in Candidates(RemoveAll(pairs, xs)) && b in Candidates(RemoveAll(pairs, xs)) ::
      NetPreference(RemoveAll(pairs, xs), a, b) == NetPreference(pairs, a, b)
  {
    if xs != [] {
      var init, last := xs[..|xs| - 1], xs[|xs| - 1];
      DistinctInit(xs);
      assert forall x | x in init :: x in xs;
      RemoveAllValid(pairs, init);
      RemoveOneMore(pairs, RemoveAll(pairs, init), last);
    }
  }

  /** One more removal from a profile that keeps the net preferences of
      `pairs` keeps them too. */
  lemma RemoveOneMore(pairs: seq<Pair>, prev: seq<Pair>, c: Mayor)
    requires ValidPairs(prev) && c in Candidates(prev)
    requires forall a, b | a in Candidates(prev) && b in Candidates(prev) ::
      NetPreference(prev, a, b) == NetPreference(pairs, a, b)
    ensures ValidPairs(RemoveCandidate(prev, c))
    ensures Candidates(RemoveCandidate(prev, c)) == Candidates(prev) - {c}
    ensures TotalVotes(RemoveCandidate(prev, c)) == TotalVotes(prev)
    ensures forall a, b | a in Candidates(RemoveCandidate(prev, c)) && b in Candidates(RemoveCandidate(prev, c)) ::
      NetPreference(RemoveCandidate(prev, c), a, b) == NetPreference(pairs, a, b)
  {
    var next := RemoveCandidate(prev, c);
    RemoveCandidateValid(prev, c);
    forall a, b | a in Candidates(next) && b in Candidates(next)
      ensures NetPreference(next, a, b) == NetPreference(pairs, a, b)
    {
      RemoveCandidateNetPreference(prev, c, a, b);
    }
  }
}
