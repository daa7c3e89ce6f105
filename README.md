# socho voting rules in Dafny

This project models the ballot-aggregation core of socho, a small Python
library of social choice functions ("mayors" are the candidates, a profile
is a set of `(number of voters, ballot)` pairs, a ballot ranks every mayor
once, most preferred first). The library has three generations of the same
idea, and each has its own module here:

- `social_choice/profile.py` (the current `Profile` class) is
  `CurrentProfile` (profile.dfy). It has a class with the tables its
  constructor fills: the net-preference graph, the votes at every rank
  position, and the lazily filled Schulze strength table. It also holds
  the integer scoring rules, `score` / `ranking` / `winners`,
  `condorcet_winners`, Raynaud, Kendall-tau, Kemeny-Young and
  `ballot_box`. The Schulze beat paths are in `Schulze` (schulze.dfy) and
  the Kendall-tau and permutation search in `Kemeny` (kemeny.dfy).
- `social_choice_functions.py` (the older `Profile` class) is
  `ProfileRules` (profile_rules.dfy). It has a class with the memoised
  `netPreference`, the memoised plurality tally, the score methods,
  `scoreWinners`, `condorcetWinners`, `removeMayor`, and the recursive
  elimination rules: STV, Baldwin, Nanson and sequential majority
  comparison.
- `social-choice-functions.py` (the earliest free functions) is
  `CandidateRules` (candidate_rules.dfy).

The definitions the generations share are stated once:

- `Ballots` (ballots.dfy): net preference, Borda, votes per rank position,
  Pareto dominance and the ascending list of mayors.
- `Scores` (scores.dfy): Copeland, symmetric Borda, Simpson and Condorcet
  winners.
- `Removal` (removal.dfy): deleting a mayor from every ballot.
- `Elimination` (elimination.dfy): the scans that pick a mayor from a
  tally, STV in both scan orders, and removing several mayors.
- `BordaMean` (borda.dfy): the sum of the Borda scores and the Borda mean.
- `Sorting` (sorting.dfy): Python's stable descending sort and `maxes`.
- `Seqs` (seqs.dfy): sums over sequences, filters and reorderings.

Modelling conventions:

- A profile is a sequence of distinct pairs, in the order Python iterates
  the set.
- `ValidPairs` states what every constructor relies on:
  - at least one pair;
  - a positive number of voters in every pair;
  - every ballot ranks the mayors of the first ballot exactly once.
- The set of mayors is modelled, by choice, as the ascending sequence of
  its ids. CPython iterates a set by hash slot, so this matches the program
  only while the ids fit the set's table (a small set has 8 slots: `{1, 8}`
  iterates 8 first). Tie-breaks that depend on set order can differ once
  ids of 8 or more remain; see "## Left out".
- Where the source would raise (`next` on an empty set, `ballot.index` of
  an absent mayor, `min` of nothing), the model has a `requires`.
- Methods are used where the source loops or updates a dictionary. Pure
  comprehensions and recursion are functions. Every method is proved equal
  to the function that specifies it, and the properties are lemmas about
  those functions.

## Model

| member | source | states |
|---|---|---|
| Ballots.Sign | social-choice-functions.py:10-11 | the result is -1, 0 or 1 and has the sign of `n` |
| Ballots.Position | social_choice_functions.py:22-24 | `ballot.index(m)`: the first position holding `m`, below the length exactly when `m` is on the ballot |
| Ballots.Mayors | social_choice_functions.py:12 | the mayors of the first ballot, strictly increasing, without repeats, and exactly the candidates |
| Ballots.MayorsRanked | social_choice/profile.py:50-59 | in a valid profile every ballot is as long as the list of mayors and contains every mayor |
| Ballots.TotalVotes | social_choice_functions.py:13 | definition (no contract): the voters of every pair summed; TotalVotesPositive and the removal lemmas state its properties |
| Ballots.NetPreference | social-choice-functions.py:13-16 | definition (no contract): each pair's voters times the sign of where the ballot puts b minus where it puts a, summed; NetPreferenceAntisymmetric, NetPreferenceSelf and NetPreferenceBounds state its properties |
| Ballots.TotalVotesPositive | social_choice_functions.py:13 | the number of voters is at least the number of pairs, so positive |
| Ballots.NetPreferenceAntisymmetric | social_choice/profile.py:579-580 | the net preference of a over b is minus that of b over a |
| Ballots.NetPreferenceSelf | social_choice/profile.py:561-563 | a mayor's net preference over itself is 0 |
| Ballots.NetPreferenceBounds | social_choice/profile.py:569-576 | a net preference lies between minus and plus the number of voters |
| Ballots.ParetoDominates | social_choice_functions.py:28-30 | definition (no contract): every ballot ranks a before b; ParetoUnanimous states what it implies |
| Ballots.ParetoUnanimous | social_choice/profile.py:88-101 | Pareto dominance gives a net preference of every voter and is never mutual |
| Ballots.VotesAt | social_choice/profile.py:591-596 | definition (no contract): the voters of the pairs whose ballot holds m at the position; VotesAtSum and TallyStep state its properties |
| Ballots.VotesAtSum | social_choice/profile.py:591-596 | the votes at one rank position, summed over all mayors, are the number of voters |
| Ballots.Borda | social_choice_functions.py:39-42 | definition (no contract): each pair's voters times `topScore - ballot.index(m)`, summed; BordaBounds and BordaMean.BordaSymmetric state its properties |
| Ballots.BordaBounds | social_choice/profile.py:139-146 | a Borda score lies between 0 and (n - 1) points per voter |
| Ballots.TallyStep | social_choice_functions.py:51-52 | adding one more pair to a rank-position tally adds its voters to the mayor at that position |
| Removal.RemoveIndex | social-choice-functions.py:76-77 | the tuple one shorter: the entries before the index kept, those after it moved one place forward |
| Removal.Strike | social_choice_functions.py:104 | definition (no contract): `removeIndex(ballot, ballot.index(m))`; StrikeRanking, StrikeKeepsOrder, StrikePosition and StrikeMargin state its properties |
| Removal.StrikeAll | social_choice_functions.py:104-105 | every pair, in order, with the same voters and the mayor struck from its ballot |
| Removal.StrikeRanking | social_choice_functions.py:104 | a ballot with the mayor removed ranks every other mayor exactly once |
| Removal.StrikeKeepsOrder | social_choice_functions.py:103-105 | removing a third mayor keeps the relative order of any two others on a ballot |
| Removal.StrikeMargin | social-choice-functions.py:73 | removing a third mayor keeps every voter's preference between two others |
| Removal.Dedup | social-choice-functions.py:73-74 | collecting the shortened pairs into a set: no repeats, each from the list |
| Removal.Merge | social_choice_functions.py:8 | combining pairs with equal ballots: distinct ballots, the same ballots, the first ballot first, voters kept positive |
| Removal.AddPairSound | social_choice_functions.py:8 | adding one pair adds its ballot, keeps ballots distinct and voters positive, and keeps the first ballot first |
| Removal.WeightedMerge | social_choice_functions.py:8 | combining equal ballots keeps every weighted tally, so the number of voters and all net preferences |
| Removal.RemoveCandidate | social_choice_functions.py:103-105 | definition (no contract): the corrected removal, striking the mayor and combining the voters of equal ballots; RemoveCandidateValid, RemoveCandidateNetPreference and WeightedRemoveCandidate state its properties |
| Removal.RemoveCandidateValid | social_choice_functions.py:103-105 | removing a mayor (voters of equal ballots combined) gives a valid profile of the other mayors, the mayor list without it, and the same number of voters |
| Removal.RemoveCandidateRanks | social_choice_functions.py:103-105 | every shortened ballot ranks exactly the other mayors, ballots stay distinct, and the mayors are the old ones less the removed one |
| Removal.RemoveCandidateMayors | social_choice_functions.py:10-12 | the ascending mayor list of the shortened profile is the old list without the removed mayor |
| Removal.WeightedRemoveCandidate | social_choice_functions.py:103-105 | any tally of the shortened profile equals the tally of the original profile weighted by the shortened ballots |
| Removal.RemoveCandidateNetPreference | social-choice-functions.py:70-74 | removing a mayor leaves the net preference between any two remaining mayors unchanged |
| Removal.RemoveCandidateAsWritten | social-choice-functions.py:70-74 | the removal as written, a set of shortened pairs: no repeats, every shortened pair present, nothing else |
| Removal.AsWrittenLosesVoters | social-choice-functions.py:70-74 | the set-based removal turns two voters ranking 0,1,2 and 0,2,1 into one pair of one voter, where the combined removal keeps both |
| Scores.Copeland | social_choice/profile.py:104-118 | definition (no contract): the signs of m's net preferences over every mayor, m included, summed; CopelandBounds states its range |
| Scores.SymmetricBorda | social_choice/profile.py:120-130 | definition (no contract): m's net preferences over every mayor summed; SymmetricBordaBounds states its range |
| Scores.CopelandBounds | social_choice/profile.py:104-118 | a Copeland score lies within one point per other mayor, since the self term is sign(0) = 0 |
| Scores.SymmetricBordaBounds | social_choice/profile.py:120-130 | a symmetric Borda score lies within the number of voters per other mayor |
| Scores.MinOf | social_choice/profile.py:174 | Python's `min`: a value taken by some element and below every element |
| Scores.Simpson | social_choice/profile.py:164-174 | definition (no contract): the least net preference of m over the other mayors; SimpsonBounds and CondorcetIffSimpson state its properties |
| Scores.SimpsonBounds | social_choice/profile.py:164-174 | the Simpson score is the net preference over some other mayor and no larger than that over any other mayor |
| Scores.SimpsonOfOthers | social_choice_functions.py:43-45 | the minimum found over the list of the other mayors is the Simpson score |
| Scores.OtherMayors | social_choice_functions.py:45 | with two or more mayors, `mayors - {m}` is never empty |
| Scores.CondorcetWinners | social_choice/profile.py:288-302 | the Condorcet winners are among the mayors |
| Scores.CondorcetIffSimpson | social_choice_functions.py:43-45 | a mayor is a Condorcet winner exactly when its Simpson score is not negative |
| Scores.StrictCondorcetUnique | social_choice_functions.py:58-61 | a mayor that beats every other mayor is the only Condorcet winner |
| Sorting.Insert | social_choice/profile.py:252 | inserting behind every element with a key at least its own keeps the list sorted, adds the element, and keeps equal keys in order |
| Sorting.SortDesc | social_choice/profile.py:252 | the stable descending sort: sorted, a permutation, and elements with equal keys in their original order |
| Sorting.SortDescSorted | social_choice/profile.py:252 | sorting a list already in descending order leaves it unchanged |
| Sorting.StableTies | social_choice/profile.py:251-252 | sorting a list of increasing ids puts equal scores in increasing id order |
| Sorting.MaxKey | social_choice_functions.py:119-129 | the largest key, taken by some item and at least every key |
| Sorting.KeyIsMember | social_choice_functions.py:127-128 | an item is kept exactly when it is in the list and has the given key |
| Sorting.KeyIsAttained | social_choice_functions.py:125-126 | the items with the key of a given item are not empty |
| Sorting.Maxes | social_choice_functions.py:119-129 | `maxes`: empty for no items, otherwise exactly the items with the largest key, in order, and not empty |
| Elimination.FirstMin | social_choice_functions.py:85 | `min(xs, key)`: the position of a smallest key, before which every key is strictly larger |
| Elimination.FirstMax | social-choice-functions.py:89 | `max(xs, key)`: the position of a largest key, before which every key is strictly smaller |
| Elimination.FirstAbove | social_choice_functions.py:67-69 | the first position whose tally is above the bar, every earlier tally at most the bar, or the length |
| Elimination.TwoFirstPlaces | social_choice_functions.py:68 | two mayors together hold at most all first places, so at most one has a majority |
| Elimination.SingleMayorFirst | social_choice_functions.py:83-84 | with one mayor left, every voter puts it first |
| Elimination.TallyFirstPlaces | social_choice_functions.py:63-65 | the first-place tally loop: every mayor's count is its number of first-place voters |
| Elimination.FirstPlaceStep | social_choice_functions.py:64-65 | each ballot has a first choice among the mayors, and counting it adds its voters to that mayor only |
| Elimination.ScanTally | social_choice_functions.py:66-71 | the STV scan returns at the first tally above half the voters; otherwise it keeps the first strictly smallest tally |
| Elimination.Scanned | social-choice-functions.py:57-58 | either scan order lists every mayor once |
| Elimination.NoMajority | social_choice_functions.py:72 | without a majority at least two mayors are left, and removing the weakest gives a valid profile of one mayor fewer with the same voters (so STV terminates) |
| Elimination.Weakest | social_choice_functions.py:70-72 | the mayor removed when nobody has a majority is one of the mayors |
| Elimination.StvRound | social_choice_functions.py:66-72 | one round: a majority at the scanned position wins; otherwise STV continues on the valid, one-mayor-smaller profile without the weakest mayor, with the same voters |
| Elimination.Stv | social_choice_functions.py:62-72 | STV returns one of the mayors |
| Elimination.StvFinal | social_choice_functions.py:62-72 | definition (no contract): the profile STV stops at, removing the weakest mayor until one has a majority; StvMajority states its properties |
| Elimination.StvMajority | social-choice-functions.py:54-68 | the STV winner holds more than `total // 2` first places in the profile STV stops at, which has the same voters and some of the mayors |
| Elimination.StvMajorityWins | social_choice_functions.py:68-69 | a mayor with more than half of the first places wins STV at once, in either scan order |
| Elimination.RemoveAll | social_choice_functions.py:96-98 | definition (no contract): the listed mayors removed one after another; RemoveAllValid states its properties |
| Elimination.RemoveAllValid | social_choice_functions.py:96-98 | removing distinct mayors one after another gives a valid profile of the others with the same voters and net preferences |
| BordaMean.BordaTotal | social_choice_functions.py:90-91 | the Borda scores add up to n(n-1)/2 points per voter |
| BordaMean.BordaTotalTwice | social_choice_functions.py:91 | twice the Borda total is n(n-1) times the number of voters |
| BordaMean.BordaSymmetric | social_choice_functions.py:36-42 | twice a Borda score is the symmetric Borda score plus (n-1) points per voter |
| BordaMean.PointsTotal | social_choice/profile.py:139-143 | one ballot's Borda points add up to n(n-1)/2 |
| BordaMean.MarginsTotal | social_choice_functions.py:36-38 | one ballot's margins of a mayor over all mayors add up to n - 1 - 2 * its position |
| BordaMean.CondorcetAboveMean | social_choice_functions.py:90-93 | a mayor that beats every other mayor has a Borda score strictly above the mean |
| BordaMean.MinAtMostMean | social_choice_functions.py:85 | some mayor's Borda score is at most the mean |
| BordaMean.SomeBelowMean | social_choice_functions.py:92-93 | if a mayor is above the mean, some mayor is strictly below it |
| BordaMean.NotAllBelowMean | social_choice_functions.py:92-98 | some mayor is not below the mean, so Nanson never removes every mayor |
| ProfileRules.BaldwinLoser | social_choice_functions.py:85 | the mayor Baldwin removes is a mayor with the smallest Borda score |
| ProfileRules.Baldwin | social_choice_functions.py:82-86 | Baldwin returns a single mayor of the profile |
| ProfileRules.BaldwinCondorcet | social_choice_functions.py:82-86 | a mayor that beats every other mayor is the Baldwin winner |
| ProfileRules.BadMayors | social_choice_functions.py:90-93 | the mayors below the Borda mean, in order, without repeats: a mayor is listed exactly when its score times n is below the total |
| ProfileRules.KeptMayors | social_choice_functions.py:96-98 | removing the listed mayors leaves a valid profile of exactly the unlisted mayors |
| ProfileRules.NansonStep | social_choice_functions.py:94-99 | a Nanson round keeps a valid, non-empty profile of the mayors not below the mean, strictly smaller, with the same voters and net preferences |
| ProfileRules.Nanson | social_choice_functions.py:87-99 | Nanson returns a non-empty set of mayors of the profile |
| ProfileRules.NansonCondorcet | social_choice_functions.py:87-99 | a mayor that beats every other mayor is the only Nanson winner |
| ProfileRules.SmcUpTo | social_choice_functions.py:74-79 | the running winner after the first k mayors is one of them |
| ProfileRules.Smc | social_choice_functions.py:73-81 | sequential majority comparison returns a mayor of the profile |
| ProfileRules.SmcUnbeatenLater | social_choice_functions.py:78-79 | once a mayor that beats every other is the running winner, it stays the winner |
| ProfileRules.SmcKeepsCondorcet | social_choice_functions.py:76-79 | a mayor that beats every other becomes the running winner when it is reached |
| ProfileRules.SmcCondorcet | social_choice_functions.py:73-81 | a mayor that beats every other wins sequential majority comparison |
| ProfileRules.FirstPlacesTotal | social_choice_functions.py:46-53 | the plurality tallies of all mayors add up to the number of voters |
| ProfileRules.MemoStore | social_choice_functions.py:25-26 | storing `answer` and `-answer` keeps every memo entry equal to the net preference and symmetric |
| ProfileRules.Remember | social_choice_functions.py:18-27 | the memoised net preference returns the net preference, stores it in both directions, and keeps every earlier entry |
| ProfileRules.CopelandWith | social_choice_functions.py:33-35 | the Copeland loop through the memo returns the Copeland score |
| ProfileRules.SymmetricBordaWith | social_choice_functions.py:36-38 | the symmetric Borda loop through the memo returns the symmetric Borda score |
| ProfileRules.MinPreference | social_choice_functions.py:44-45 | the `min` loop through the memo finds the smallest net preference over the other mayors and where it is |
| ProfileRules.SimpsonWith | social_choice_functions.py:43-45 | the Simpson loop through the memo returns the Simpson score, which is not negative exactly for Condorcet winners |
| ProfileRules.BeatenByNone | social_choice_functions.py:60-61 | the `all(...)` loop through the memo holds exactly for a mayor no mayor beats |
| ProfileRules.CondorcetWith | social_choice_functions.py:58-61 | the comprehension loop through the memo returns exactly the Condorcet winners |
| ProfileRules.SmcWith | social_choice_functions.py:74-79 | the comparison loop through the memo returns the running winner after every mayor |
| ProfileRules.RemoveAllStep | social_choice_functions.py:97-98 | each mayor still to be removed is still a mayor, and removing it extends the removed prefix |
| ProfileRules.Profile.constructor | social_choice_functions.py:10-15 | the mayors of the first ballot, the number of voters, one empty memo row per mayor, no plurality tally yet |
| ProfileRules.Profile.NetPreference | social_choice_functions.py:18-27 | returns the net preference and keeps the memo sound and the profile unchanged |
| ProfileRules.Profile.DoesParetoDominate | social_choice_functions.py:28-30 | true exactly when every ballot ranks a above b; then every voter prefers a, and b is no Condorcet winner |
| ProfileRules.Profile.CopelandScore | social_choice_functions.py:33-35 | the Copeland score, within one point per other mayor |
| ProfileRules.Profile.SymmetricBordaScore | social_choice_functions.py:36-38 | the symmetric Borda score, which is twice the Borda score less (n-1) points per voter |
| ProfileRules.Profile.BordaScore | social_choice_functions.py:39-42 | the Borda score with n - 1 points for a first place, between 0 and (n-1) points per voter, all scores adding up to n(n-1)/2 per voter |
| ProfileRules.Profile.SimpsonScore | social_choice_functions.py:43-45 | the Simpson score, not negative exactly for Condorcet winners |
| ProfileRules.Profile.PluralityScore | social_choice_functions.py:46-53 | the mayor's first-place voters, filling the tally on first use |
| ProfileRules.Profile.FirstPlaceTally | social_choice_functions.py:50-52 | the tally of first places of every mayor, adding up to the number of voters |
| ProfileRules.Profile.ScoreWinners | social_choice_functions.py:56-57 | exactly the mayors whose score is the largest, never empty when there are mayors |
| ProfileRules.Profile.CondorcetWinners | social_choice_functions.py:58-61 | exactly the mayors whose net preference over every mayor is at least 0 |
| ProfileRules.Profile.RemoveMayor | social_choice_functions.py:103-105 | a new valid profile without the mayor, its mayor list the old one without it, with the same voters |
| ProfileRules.Profile.SingleTransferableVote | social_choice_functions.py:62-72 | the singleton of the STV winner, scanning mayors in ascending order |
| ProfileRules.Profile.SequentialMajorityComparison | social_choice_functions.py:73-81 | the sequential majority comparison winner |
| ProfileRules.Profile.BaldwinRule | social_choice_functions.py:82-86 | the Baldwin winner set |
| ProfileRules.Profile.RemoveMayors | social_choice_functions.py:96-98 | a valid profile with the listed mayors removed one after another |
| ProfileRules.Profile.NansonRule | social_choice_functions.py:87-99 | the Nanson winner set |
| CandidateRules.BallotOrder | social-choice-functions.py:21 | the first ballot lists every candidate once, a reordering of the ascending mayors |
| CandidateRules.NetPreferenceBetween | social-choice-functions.py:13-16 | minus the net preference the other way, 0 against itself, within the number of voters |
| CandidateRules.CopelandScore | social-choice-functions.py:20-23 | summed in first-ballot order it equals the Copeland score of the newer generations and lies in [-(n-1), n-1] |
| CandidateRules.SymmetricBordaScore | social-choice-functions.py:25-28 | summed in first-ballot order it equals the symmetric Borda score and lies within the voters per other candidate |
| CandidateRules.AsymmetricBordaScore | social-choice-functions.py:30-34 | equals the Borda score, lies in [0, (n-1) * voters], and twice it is the symmetric score plus (n-1) points per voter |
| CandidateRules.ParetoIffUnanimous | social-choice-functions.py:38-42 | every ballot ranks a above b exactly when every voter's net preference favours a; then it is not mutual |
| CandidateRules.UnanimousDominates | social-choice-functions.py:39-42 | a net preference of every voter, with at least one voter per pair, means every ballot ranks a above b |
| CandidateRules.DoesParetoDominate | social-choice-functions.py:38-42 | true exactly when the net preference equals the number of voters; then the candidates differ and the dominance is not mutual |
| CandidateRules.BeatenIffNotWinner | social-choice-functions.py:47-48 | some candidate strictly beats c exactly when c is no Condorcet winner |
| CandidateRules.FirstUnbeaten | social-choice-functions.py:46-52 | the first candidate of the list that nobody beats, none before it qualifying, or none when no candidate qualifies |
| CandidateRules.CondorcetWinner | social-choice-functions.py:44-52 | finds a candidate exactly when a Condorcet winner exists; it is one, and no earlier candidate of the first ballot is one |
| CandidateRules.NoneUnbeaten | social-choice-functions.py:44-52 | when no candidate of the first ballot is a Condorcet winner, there is none at all |
| CandidateRules.SameCondorcetWinners | social-choice-functions.py:45-48 | the Condorcet winners do not depend on the order the candidates are listed in |
| CandidateRules.SingleTransferableVote | social-choice-functions.py:54-68 | the STV winner with the tally scanned in first-ballot order and a majority of `total // 2 + 1` |
| CandidateRules.SimpsonScore | social-choice-functions.py:82-85 | the net preference over some other candidate, at most that over every other, and not negative exactly for Condorcet winners |
| CandidateRules.FirstBest | social-choice-functions.py:89 | `max(ballot, key)`: an entry with the largest key, every earlier entry strictly smaller |
| CandidateRules.SimpsonScf | social-choice-functions.py:87-89 | the Simpson winner is a candidate |
| CandidateRules.SimpsonKeyIsScore | social-choice-functions.py:89 | the key `max` uses is the Simpson score of every candidate |
| CandidateRules.SimpsonScfMaximal | social-choice-functions.py:87-89 | no candidate has a larger Simpson score than the winner, and every candidate before it in the first ballot has a smaller one |
| CandidateRules.SimpsonScfCondorcet | social-choice-functions.py:87-89 | when a Condorcet winner exists, the Simpson winner is a Condorcet winner |
| CandidateRules.SimpsonWinnerCondorcet | social-choice-functions.py:84-85 | a candidate whose Simpson score is at least a Condorcet winner's is a Condorcet winner |
| CurrentProfile.Preference | social_choice/profile.py:525-543 | 0 for equal indices, otherwise the voters with the sign of the difference |
| CurrentProfile.Profile.constructor | social_choice/profile.py:39-74 | the pairs, the ascending mayors, the number of voters, a complete net-preference graph, the rank-position tallies and empty strength rows |
| CurrentProfile.Profile.SumPreferences | social_choice/profile.py:566-576 | the sum of `__preference` over the ballots is the net preference |
| CurrentProfile.Profile.CalcNetPreference | social_choice/profile.py:545-580 | fills the graph with every net preference, both directions, changing nothing else |
| CurrentProfile.Profile.NetPreferenceTable | social_choice/profile.py:555-580 | the graph built row by row is complete |
| CurrentProfile.Profile.FillFrom | social_choice/profile.py:561-580 | after row i every entry involving one of the first i + 1 mayors holds the net preference |
| CurrentProfile.StoreBoth | social_choice/profile.py:579-580 | storing a pair in both directions keeps the entries already correct |
| CurrentProfile.Profile.CalcVotesPerMayor | social_choice/profile.py:582-596 | fills one tally row per rank position, changing nothing else |
| CurrentProfile.Profile.VotesPerMayorTable | social_choice/profile.py:585-596 | the rows built are the tallies of positions 0 .. n-1 |
| CurrentProfile.Profile.CountPosition | social_choice/profile.py:592-596 | row i counts, for every mayor, the voters who put it at position i |
| CurrentProfile.Profile.NetPreference | social_choice/profile.py:77-86 | the graph lookup is the net preference, antisymmetric, 0 on itself, within the voters |
| CurrentProfile.Profile.DoesParetoDominate | social_choice/profile.py:88-101 | every ballot ranks a above b; then a differs from b, every voter prefers a, and not the other way |
| CurrentProfile.Profile.Copeland | social_choice/profile.py:104-118 | the Copeland score over the graph, in [-(n-1), n-1] |
| CurrentProfile.Profile.SymmetricBorda | social_choice/profile.py:120-130 | the symmetric Borda score over the graph, within the voters per other mayor |
| CurrentProfile.Profile.Borda | social_choice/profile.py:132-146 | the Borda score, between 0 and (n-1) points per voter |
| CurrentProfile.Profile.Simpson | social_choice/profile.py:164-174 | the smallest net preference over another mayor, not negative exactly for Condorcet winners |
| CurrentProfile.Profile.CondorcetWinners | social_choice/profile.py:288-302 | exactly the mayors whose net preference over every mayor is at least 0 |
| CurrentProfile.Profile.Score | social_choice/profile.py:256-268 | one (mayor, score) entry per mayor, sorted by increasing mayor id |
| CurrentProfile.Profile.Ranking | social_choice/profile.py:242-254 | a permutation of the scores in decreasing score order, ties in increasing id order |
| CurrentProfile.Profile.RankingHead | social_choice/profile.py:276-277 | the head of the ranking has the top score and the smallest id among the mayors with it |
| CurrentProfile.Profile.Winners | social_choice/profile.py:270-286 | exactly the mayors with the top score, never empty |
| CurrentProfile.Profile.WinnersMember | social_choice/profile.py:280-286 | a mayor is among the ranking entries with the best score exactly when its score is the top score |
| CurrentProfile.Profile.Raynaud | social_choice/profile.py:418-424 | a mayor with the largest Simpson score, every mayor with a smaller id having a smaller one |
| CurrentProfile.Profile.Schulze | social_choice/profile.py:218-240 | the number of other mayors whose beat-path strength it exceeds, between 0 and n - 1, filling the strength table on first use |
| CurrentProfile.Profile.CountWins | social_choice/profile.py:227-240 | the loop counts exactly the Schulze wins, at most n - 1 |
| CurrentProfile.Profile.CalcPathPreference | social_choice/profile.py:598-621 | stores the strength of every mayor over every other, changing nothing else |
| CurrentProfile.Profile.StrengthTable | social_choice/profile.py:602-621 | the table built row by row holds every strength |
| CurrentProfile.Profile.StrengthsFrom | social_choice/profile.py:611-621 | after row i every pair involving one of the first i + 1 mayors holds its strengths |
| CurrentProfile.StoreStrengths | social_choice/profile.py:620-621 | storing one pair's two strengths keeps the entries already correct |
| CurrentProfile.Profile.CalcStrength | social_choice/profile.py:623-638 | the strongest path's weakest edge, never below the direct net preference |
| CurrentProfile.Profile.CalcPaths | social_choice/profile.py:641-678 | the weight lists of every simple path, one list per branch |
| CurrentProfile.Profile.Extend | social_choice/profile.py:674-675 | `path + weights` appended for every sub-path, in order |
| CurrentProfile.Profile.KendalltauDist | social_choice/profile.py:427-441 | the discordant position pairs, at most n(n-1)/2 |
| CurrentProfile.Profile.SumDistances | social_choice/profile.py:209 | the distance to every distinct ballot, summed without weights |
| CurrentProfile.Profile.Closest | social_choice/profile.py:207-213 | the first rank with the smallest total distance, later equal ranks not replacing it |
| CurrentProfile.Profile.KemenyYoung | social_choice/profile.py:195-216 | the first closest permutation of 0 .. n-1, scores n, n-1, ..., 1, and no permutation closer |
| CurrentProfile.Profile.BallotBox | social_choice/profile.py:711-753 | a valid profile whose ballots are the voters' orderings, each counted by its voters, all voters counted |
| CurrentProfile.Firsts | social_choice/profile.py:283 | the mayors of the entries, in order |
| CurrentProfile.Enumerate | social_choice/profile.py:728 | `list(enumerate(scores))`: entry i is (i, scores[i]) |
| CurrentProfile.Rows | social_choice/profile.py:725-728 | bare scores are enumerated, indexed rows are kept |
| CurrentProfile.Orderings | social_choice/profile.py:738-740 | one ordering per voter, in voter order |
| CurrentProfile.Ordering | social_choice/profile.py:731 | one mayor per entry: a voter's entries sorted by decreasing score, mayors kept; FirstsPermutation and UnindexedOrdering state the ordering |
| CurrentProfile.FirstsPermutation | social_choice/profile.py:731 | sorting a voter's entries keeps its mayors distinct and the same |
| CurrentProfile.OrderingRanks | social_choice/profile.py:731-740 | a voter's ordering ranks every mayor it scored exactly once |
| CurrentProfile.UnindexedOrdering | social_choice/profile.py:728-731 | for bare scores the ordering lists 0 .. n-1 once, by decreasing score, ties by index |
| CurrentProfile.PairsOf | social_choice/profile.py:747-750 | one (count, ballot) pair per distinct ballot |
| CurrentProfile.PairsOfTotal | social_choice/profile.py:747-753 | the voters of the pairs are the counts summed |
| CurrentProfile.CountsSum | social_choice/profile.py:738-743 | the counts over every distinct ballot add up to the number of voters |
| CurrentProfile.CountBallots | social_choice/profile.py:735-750 | distinct ballots, each from a voter and counted by its voters, every voter's ballot present, all voters counted |
| CurrentProfile.BallotBoxValid | social_choice/profile.py:745-753 | the counted orderings of well-formed rows form a valid profile |
| CurrentProfile.KemenyRankOptimal | social_choice/profile.py:207-213 | the permutation kept is at least as close as every permutation |
| Schulze.Paths | social_choice/profile.py:641-678 | definition (no contract): the corrected enumeration, one weight list per first step; PathsEnd, PathsDirect, PathsOne and PathsTwo state its properties |
| Schulze.AppendAll | social_choice/profile.py:674-675 | the prefix put in front of every sub-path |
| Schulze.PathsEnd | social_choice/profile.py:641-678 | every path is non-empty and its last edge enters the target from the start or from one of the other mayors |
| Schulze.PathsUpToEnd | social_choice/profile.py:658-676 | the same for the paths found over the first k mayors |
| Schulze.BranchEnd | social_choice/profile.py:661-675 | the same for the paths through one first step; for the target itself only the direct edge |
| Schulze.PathsUpToStep | social_choice/profile.py:658-676 | one more mayor scanned adds its branch |
| Schulze.PathsUpToDirect | social_choice/profile.py:661-667 | once the target is scanned the direct edge is among the paths |
| Schulze.PathsDirect | social_choice/profile.py:641-678 | the direct edge is one of the paths |
| Schulze.PathsOne | social_choice/profile.py:661-667 | through the target alone the only path is the direct edge |
| Schulze.PathsTwo | social_choice/profile.py:658-676 | through one other mayor x and the target: the path via x first, then the direct edge |
| Schulze.MinEdge | social_choice/profile.py:635 | the weakest edge, taken by the path and at most every edge |
| Schulze.MaxOfMins | social_choice/profile.py:635-638 | the largest weakest edge over the paths, taken by some path |
| Schulze.StrengthBounds | social_choice/profile.py:623-638 | the strength is some path's weakest edge and at least every path's |
| Schulze.StrengthTwo | social_choice/profile.py:623-638 | with one other mayor x the strength is the larger of the direct edge and the weaker of a-x, x-b |
| Schulze.Strength | social_choice/profile.py:623-638 | definition (no contract): the largest weakest edge over the corrected paths; StrengthBounds, StrengthTwo and StrengthAtLeastDirect state its properties |
| Schulze.StrengthAtLeastDirect | social_choice/profile.py:661-667 | the strength is never below the direct net preference |
| Schulze.StrengthIntoWinner | social_choice/profile.py:623-638 | the strength into a mayor that beats everyone is negative |
| Schulze.WinsUpToStep | social_choice/profile.py:231-237 | counting one more mayor adds its win |
| Schulze.WinValue | social_choice/profile.py:236 | a win is 1 exactly when the mayor's strength is strictly larger |
| Schulze.WinsUpToAll | social_choice/profile.py:231-240 | counting all the others gives the Schulze score |
| Schulze.BeatsAsymmetric | social_choice/profile.py:236 | at most one of two distinct mayors is credited with their comparison |
| Schulze.SchulzeWins | social_choice/profile.py:228-240 | definition (no contract): the other mayors over which m's strength is strictly larger, counted; WinsUpToAll, SchulzeWinsBounds and CondorcetWinnerSchulze state its properties |
| Schulze.SchulzeWinsBounds | social_choice/profile.py:228-240 | a Schulze score lies in [0, n - 1] |
| Schulze.CondorcetWinnerSchulze | social_choice/profile.py:218-240 | a mayor that beats every other gets the largest Schulze score n - 1 |
| Schulze.WalkAsWritten | social_choice/profile.py:654-676 | definition (no contract): the scan as written, carrying one `path` list that is reset only after reaching the target |
| Schulze.PathsAsWritten | social_choice/profile.py:641-678 | definition (no contract): `__calc_paths` as written; PathsAsWrittenExample and StrengthAsWrittenBelowDirect show where it departs from the intended paths |
| Schulze.StrengthAsWrittenBelowDirect | social_choice/profile.py:655-667 | with one voter ranking 1, 0, 2 the paths as written are [-1, 1] twice, giving strength -1 although 0 beats 2 directly by 1 |
| Schulze.PathsAsWrittenExample | social_choice/profile.py:654-676 | the as-written path lists on that profile |
| Schulze.StrengthExample | social_choice/profile.py:623-638 | on that profile the intended paths are [-1, 1] and [1], strength 1 |
| Kemeny.KendallTau | social_choice/profile.py:427-441 | definition (no contract): the pairs i < j with `sign(a[i] - a[j]) == -sign(b[i] - b[j])` (equal entries in both lists included), counted; KendallTauSymmetric, KendallTauSelf and KendallTauBounds state its properties |
| Kemeny.KendallTauSymmetric | social_choice/profile.py:427-441 | the distance is symmetric for equal lengths |
| Kemeny.KendallTauSelf | social_choice/profile.py:437-439 | a ranking without repeats is at distance 0 from itself |
| Kemeny.KendallTauBounds | social_choice/profile.py:434-441 | 0 <= distance <= n(n-1)/2 |
| Kemeny.Drop | social_choice/profile.py:207 | the list without one entry, one shorter |
| Kemeny.Perms | social_choice/profile.py:207 | definition (no contract): `permutations` of a list, in the order itertools yields them; PermsSound and PermsComplete state its properties |
| Kemeny.PermsSound | social_choice/profile.py:207 | every enumerated list is a reordering of the input |
| Kemeny.PermsComplete | social_choice/profile.py:207 | every reordering of the input is enumerated |
| Kemeny.Range | social_choice/profile.py:207 | `range(n)` |
| Kemeny.TotalDistance | social_choice/profile.py:209 | definition (no contract): the distances of a rank to every distinct ballot, summed once per ballot whatever its number of voters, as written |
| Kemeny.FirstClosest | social_choice/profile.py:207-213 | the first rank with the smallest total distance |
| Kemeny.FirstClosestStep | social_choice/profile.py:211-213 | a later rank takes over only when strictly closer |
| Kemeny.KemenyOptimal | social_choice/profile.py:195-216 | the Kemeny-Young rank is at least as close to the ballots as every permutation |

## Left out

- `dowdall` (social_choice/profile.py:148-162) divides floats.
- The static `plurality` (social_choice/profile.py:443-503) averages floating-point classifier outputs.
- `aggr_rank` (social_choice/profile.py:756-784) dispatches by `eval`.
- `_build_graph` (social_choice/profile.py:680-708) builds a numpy float matrix that nothing uses.
- `makeRandProfile` (social_choice_functions.py:107-113) draws random numbers.
- social_choice/profile.py's `single_transferable_vote`, `sequential_majority_comparison`, `baldwin`, `nanson` and `__distribute_votes` (lines 304-416 and 505-523) cannot run:
  - they assign into tuples;
  - they call the two-argument static `plurality` as a scorer;
  - they use Python 2 `.next()`;
  - they delete from a list while indexing it.
  These rules are modelled from social_choice_functions.py instead.
- The prints in `sequentialMajorityComparison` and `sys.setrecursionlimit` have no effect on results. The command-line front ends, CSV input and output, `examples.py` and `setup.py` are I/O.
- Exceptions are not modelled. Where the source raises (an empty profile, a mayor missing from a ballot, `min` or `max` of nothing, `ranking[0]` with no mayors), the member requires the input that avoids it.
- The iteration order of Python sets and dictionaries is fixed:
  - mayors and the keys of mayor-indexed dictionaries iterate in ascending order. This is a modelling choice, not CPython's order in general: CPython iterates by hash slot, so `{1, 8}` and `{2, 9}` iterate the larger id first. Once ids of 8 or more remain, the tie-breaks that follow set order may differ from the program's: STV's weakest mayor (social_choice_functions.py:67-71), Baldwin's `min` (social_choice_functions.py:85) and the first running winner of sequential majority comparison (social_choice_functions.py:74-75);
  - the pairs iterate in the order of the sequence.
  Every result the model proves order-independent is unaffected by this.
- `ballot_box` returns `set(pairs)`. The model keeps the dictionary's insertion order, which no later rule can observe beyond the first ballot.
- CurrentProfile.Profile.BallotBox: the voters' scores are exact `real` numbers, so NaN and floating-point rounding (which can make `sorted` order ties differently) are not modelled. WellFormedRows also requires each voter's row to name distinct mayors, the same set in every row; the source assumes this, and a row that breaks it gives ballots that later `ballot.index` calls cannot rely on.
- ProfileRules.Profile.ScoreWinners: the score function is a pure `Mayor -> int`. The source passes bound methods, which can also fill the memo.
- ProfileRules.Profile.BaldwinRule: ranks mayors by the Borda specification function, not by calls to the `bordaScore` method, which computes the same value.
- ProfileRules.Profile.NansonRule: compares `n * score < total` exactly. The source compares with the float mean `total / n`. The two agree except where float rounding would change a comparison.
- CandidateRules.CondorcetWinner: returns `None` where the source returns `False`. The source's `False` compares equal to a candidate numbered 0; the option type keeps the two apart.
- The earliest file is read with Python 3 semantics: `votersPerCandidate` iterates in insertion order, the order of the first ballot. The older class is read with Python 2 semantics: dictionaries and sets of mayors iterate in ascending order, and `maxes` starts from `None`, which compares below every number.
- Elimination and `removeMayor` / `removeCandidate` use the corrected removal, which combines the voters of ballots that become equal. See Findings.
- Schulze strengths use the corrected path enumeration. See Findings.
- Kemeny-Young enumerates the permutations by a function whose order matches `itertools.permutations`. The model proves completeness and the first-minimum choice, not the lexicographic order itself.

## Findings

| source | as written | input that shows it | evidently intended | confidence | as-written member | corrected member |
|---|---|---|---|---|---|---|
| social_choice/profile.py:655-667 | `path` is reset only after reaching the target, so a non-terminal sibling's weight stays in later paths | one voter ranking 1, 0, 2: the paths from 0 to 2 become [-1, 1] twice, strength -1, although 0 beats 2 directly by 1 | every simple path gets its own weight list, so the strength is never below the direct net preference | not executed | Schulze.StrengthAsWrittenBelowDirect | Schulze.StrengthAtLeastDirect |
| social-choice-functions.py:70-74 | the shortened pairs are collected into a set, so equal (count, ballot) pairs merge and voters are lost (the same in social_choice_functions.py:103-105) | one voter each on 0,1,2 and 0,2,1, removing 2: one pair (1, (0, 1)) remains, 1 voter instead of 2 | combine the voters of equal ballots, keeping every voter | not executed | Removal.AsWrittenLosesVoters | Removal.RemoveCandidateValid |
