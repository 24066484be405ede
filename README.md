# Voting paradoxes in real-world elections, modelled in Dafny

The repository studies voting paradoxes in two real ranked-ballot elections:
the baseball MVP vote, where each writer ranks ten players, and the weekly
college football polls, where each voter ranks 25 teams. This project models
its computational engine and proves properties of it:

- **Positional (Borda) scoring.** The candidate at 0-based rank `i` of a
  ballot earns `weights[i]`, and empty cells earn nothing. The score table is
  then sorted by points, descending and stable. The MVP weights are
  14, 9, 8, …, 1; the college weights are 25, 24, …, 1.
- **Removal recomputation.** The scripts rescore after deleting candidates in
  three ways:
  - the single-removal delta (`Borda_IIA.py`, `Borda_IIA_parallel.py`);
  - the exact rescan (`temp.py`, `temp_original.py`);
  - the precomputed additive effect maps (`Borda_IIA_parallel_v2.py`,
    `temp_new.py`, `temp_new_2.py`).

  The model keeps the three apart and proves how they relate. Summing
  single-removal deltas is exact on every ballot if and only if all
  consecutive weight gaps are equal (`Removal.AdditiveExactIff`). With the MVP
  weights 14, 9, 8 it is not: on the ballot X, Y, Z, removing X and Y gives Z
  6 points exactly but 2 by the deltas.
- **The Independence-of-Irrelevant-Alternatives (IIA) paradox search.** For
  one contest the search:
  - filters the eligible candidates;
  - forms every removal set of a given size;
  - shifts the target positions (baseball only);
  - tests whether the target list changed;
  - records the original ranks.
- **Pairwise tabulation** under the two absence policies in the source:
  "present beats absent", and "only ballots naming both count".
- **The Condorcet winner check.** The baseball and college variants are both
  modelled; the college one catches exceptions.
- **The majority-cycle finder** for rings of 3, 4 and 5 players.
- **The rank-list filter and file naming** of `Borda_difference_finder.py`.

Candidates are natural-number identifiers (`Ballots.Cand`). Their numeric
order stands for the string order Python uses on names. Ballots are sequences
of candidates. The CSV scorer keeps optional cells, so an empty cell is
`None`. Score tables (pandas frames or dictionaries) are sequences of
`Entry(player, points)` in row order, and a player's rank is its position plus
one. Where a script raises (`KeyError`, `IndexError`, `ValueError`) on the
inputs the model admits, the model returns `None` or a `LookupFailed` outcome.
Where it catches the exception and carries on, the model does the same. The one
input excluded by precondition rather than modelled is a target rank outside
the table in the baseball IIA searches (see "Left out").

Imperative code is modelled as methods with loops. Each method is proved equal
to a specification function, and the properties are proved about those
functions:
- the score dictionaries and effect maps are Dafny maps;
- the pairwise counter dictionary is a `map<Key, Tally>`;
- per-row counters such as `idx` and `removed_player_idxs` are loop variables.

## Model

| member | source | states |
|---|---|---|
| Wrappers.PyAt | src/baseball/Borda/Borda_IIA_parallel.py:136-139 | Python indexing: defined exactly for `-len <= k < len`; a non-negative index reads that element. |
| Ballots.IndexOf | src/baseball/Borda/Borda_IIA.py:17 | `list.index`: the first position holding the candidate. |
| Ballots.Dedup | src/college-polls/Borda/IIA_results/temp_new_2.py:72-89 | The keys of a dictionary built from a list: repeat-free, with the same members as the list. |
| Ballots.DedupOrder | src/baseball/Pairwise/pairwise.py:20 | The keys keep first-insertion order, as a Python dictionary does: an earlier key occurs in the list before the first occurrence of any later key. |
| Ballots.TakeUpTo | src/baseball/Pairwise/condorcet.py:7 | `head(n)` / `s[:n]`: a prefix of length at most `n`, and the whole list when it is shorter. |
| Ballots.Strike | src/college-polls/Borda/IIA_results/temp_original.py:16-18 | Striking candidates keeps exactly the others, in order. |
| Ballots.StrikeStrike | src/college-polls/Borda/IIA_results/temp_original.py:16-18 | Striking two lists one after the other is striking their concatenation. |
| Ballots.StrikeLength | src/baseball/Borda/temp.py:22-25 | A struck ballot is shorter by the number of removed entries it held. |
| Ballots.WeightMonotone | src/baseball/Borda/Borda_IIA.py:11 | A decreasing weight vector never pays a worse rank more. |
| Ranking.SortDescProps | data/baseball/processed_data/Borda/calculate_Borda_count.py:25 | The descending sort returns a non-increasing permutation of its input. |
| Ranking.SortDescStable | data/baseball/processed_data/Borda/calculate_Borda_count.py:25 | Stability: for every score, the rows with that score keep their input order. |
| Ranking.SortDescSum | src/baseball/Borda/Borda_IIA_parallel.py:74 | Sorting neither creates nor destroys points. |
| Ranking.Drop | src/baseball/Borda/Borda_IIA.py:26-27 | `drop(..., errors='ignore')`: exactly the rows of the other players remain, and unknown names are ignored. |
| Ranking.DropPlayers | src/baseball/Borda/Borda_IIA_parallel.py:71 | Dropping rows strikes their players from the player column, keeping the order. |
| Ranking.RankOf | src/baseball/Borda/Borda_IIA_parallel.py:126 | A player's rank is the 1-based position of its first row. |
| Ranking.AddPoints | src/baseball/Borda/Borda_IIA.py:21-23 | `loc[p] += v`: `p`'s rows gain `v`, and every other row and the order stay as they were. |
| Positional.Choices | data/baseball/processed_data/Borda/calculate_Borda_count.py:19 | `row[5:15]`: at most the first ten rank cells. |
| Positional.Seen | data/baseball/processed_data/Borda/calculate_Borda_count.py:20-22 | The score dictionary's keys, in insertion order, are repeat-free. |
| Positional.SeenMembers | data/baseball/processed_data/Borda/calculate_Borda_count.py:13-22 | A player has a score entry iff a row of that year and league names it among its ten choices; empty cells create none. |
| Positional.Tabulate | data/baseball/processed_data/Borda/calculate_Borda_count.py:20-22 | The unsorted table lists each seen player with its total `weights[i]` over every matching ballot. |
| Positional.UnseenTotal | data/baseball/processed_data/Borda/calculate_Borda_count.py:21 | A player no contributing cell names has no points. |
| Positional.BordaResultProps | src/baseball/Borda/Borda_count.py:26-38 | The result is non-increasing, lists every seen player once, carries each player's Borda total, and keeps ties in first-appearance order. |
| Positional.TotalPoints | data/baseball/processed_data/Borda/calculate_Borda_count.py:19-25 | The scores add up to the weight of the occupied ranks over all contributing ballots. |
| Positional.FullBallotWeight | data/baseball/processed_data/Borda/calculate_Borda_count.py:44 | A ballot filling all ten ranks is worth 59 points under 14, 9, …, 1. |
| Scorer.ScoreCells | data/baseball/processed_data/Borda/calculate_Borda_count.py:20-22 | The inner loop adds the cell weights of one row to the dictionary and appends new keys in cell order. |
| Scorer.BordaMvpSpecific | data/baseball/processed_data/Borda/calculate_Borda_count.py:4-25 | `borda_mvp_specific` returns the sorted table: non-increasing, each player with its Borda total, and a permutation of the seen players. |
| Scorer.BordaMvpDebug | src/baseball/Borda/Borda_count.py:79-105 | The debug total is the player's Borda total from `borda_mvp_specific`, the sum of the printed terms, and Σ weight × `weight_count[weight]`. |
| Removal.StrikeAll | src/college-polls/Borda/IIA_results/temp_original.py:16-18 | Every ballot with the removed candidates struck. |
| Removal.StrikeIndex | src/baseball/Borda/temp.py:27-33 | On a struck ballot a survivor's rank is the number of survivors ahead of it, which is the `idx` counter. |
| Removal.StrikeScore | src/baseball/Borda/temp.py:27-37 | A survivor's score on the struck ballots is its old score plus its exact-rescan gains. |
| Removal.ExactAdjustEmpty | src/baseball/Borda/temp.py:22-33 | An empty removal list changes no score. |
| Removal.ExactGainNonNegative | src/baseball/Borda/temp.py:31 | With decreasing weights an exact-rescan gain is never negative. |
| Removal.DeltaGainNonNegative | src/baseball/Borda/Borda_IIA.py:11-22 | With decreasing weights a single-removal delta is never negative. |
| Removal.AheadOfRemovedGainsNothing | src/baseball/Borda/temp.py:28-33 | A candidate ahead of every removed one on a ballot gains nothing from it. |
| Removal.LastPlaceRemoval | src/baseball/Borda/Borda_IIA.py:20 | Deleting a candidate that is last on every ballot naming it changes no other score, by delta or by rescan. |
| Removal.AdditiveIsExact | src/baseball/Borda/Borda_IIA_parallel.py:39-51 | With equal weight gaps, summing single-removal deltas over a removal set is the exact rescan. |
| Removal.AdditiveCounterexample | src/baseball/Borda/Borda_IIA_parallel.py:7-8 | Weights 14, 9, 8, ballot [X, Y, Z], removing X and Y: exact gain 6, additive 2. |
| Removal.UnequalGapsDiffer | src/baseball/Borda/Borda_IIA_parallel.py:39-51 | Wherever two adjacent gaps differ, a range ballot and a two-player removal make the sum of deltas inexact. |
| Removal.AdditiveExactIff | src/baseball/Borda/Borda_IIA_parallel.py:39-51 | Summing deltas is exact on every repeat-free ballot and removal set iff all consecutive weight gaps are equal. |
| Removal.UnitDelta | src/college-polls/Borda/IIA_results/temp_new.py:24-43 | With unit gaps each single-removal delta is one point for each candidate after the removed one. |
| Removal.EffectsAreExact | src/college-polls/Borda/IIA_results/temp_new.py:62-67 | With unit gaps, summing the +1 effects of the removed candidates is the exact rescan. |
| Removal.SingleDeltaIsExact | src/baseball/Borda/Borda_IIA.py:14-23 | For one removed candidate, the deltas are the exact gains whatever the weights. |
| BallotRows.CellIndex | src/baseball/Borda/Borda_IIA.py:17 | `list(row.values).index(name)`: the first cell holding the name. |
| BallotRows.Credit | src/baseball/Borda/Borda_IIA_parallel.py:58-63 | Adding the credits changes points only; the players and their order stay. |
| BallotRows.CreditNoRows | src/baseball/Borda/Borda_IIA_parallel.py:58-63 | With no ballot rows the credited table is the original table. |
| BallotRows.RowGainIsDelta | src/baseball/Borda/Borda_IIA.py:20-22 | On a full repeat-free row a deletion credits a later player with `w[k-1] - w[k]`, the single-removal delta. |
| BallotRows.NamesGainIsDeltaAdjust | src/baseball/Borda/Borda_IIA_parallel.py:39-51 | Over full rows, the credits of a removal set are the summed single-removal deltas. |
| IIASingle.CreditRow | src/baseball/Borda/Borda_IIA.py:20-23 | The loop over one row's later cells succeeds iff every later cell names a listed player, and adds each one's delta. |
| IIASingle.RemoveAndRecalculate | src/baseball/Borda/Borda_IIA.py:3-29 | `remove_and_recalculate` is the single-removal specification on the loaded rows and table. |
| IIASingle.SingleRemovalRescores | src/baseball/Borda/Borda_IIA.py:14-27 | On full repeat-free ballots the result is exactly the rescore of the struck ballots, the removed player dropped. |
| IIASingle.SingleRemovalDrops | src/baseball/Borda/Borda_IIA.py:26-27 | The removed player is gone, every other row keeps its place, and an unknown name drops nothing. |
| IIAParallel.AddRowCredits | src/baseball/Borda/Borda_IIA_parallel.py:44-51 | One row's loop adds `rank_diff.get(i - 6, 0)` for each later cell, and records an empty cell when it meets one. |
| IIAParallel.CollectCredits | src/baseball/Borda/Borda_IIA_parallel.py:37-55 | The nested loops build the summed deltas of every removed player over every row. |
| IIAParallel.ApplyCredits | src/baseball/Borda/Borda_IIA_parallel.py:58-63 | Applying the adjustments raises iff an empty cell was credited; otherwise each indexed player gains its adjustment. |
| IIAParallel.RemoveAndRecalculate | src/baseball/Borda/Borda_IIA_parallel.py:10-76 | `remove_and_recalculate` is the additive specification: credit, drop the removed, sort. |
| IIAParallel.DetectIIASpecific | src/baseball/Borda/Borda_IIA_parallel.py:97-174 | The search collects, over the combinations of the eligible players, the paradox records, skipping combinations that raise. |
| IIAParallel.ParallelNoSkips | src/baseball/Borda/Borda_IIA_parallel.py:167-170 | On full repeat-free ballots no combination raises, so none is skipped. |
| IIAParallel.ParallelEqualGapsRescores | src/baseball/Borda/Borda_IIA_parallel.py:39-74 | With equal gaps the result is sorted, without the removed players, and scores each survivor on the struck ballots. |
| IIAParallel.UnequalGapsMisscore | src/baseball/Borda/Borda_IIA_parallel.py:39-51 | Wherever adjacent gaps differ, the script's credits differ from the exact rescan on some ballot. |
| IIAParallel.ParallelMisscores | src/baseball/Borda/Borda_IIA_parallel.py:7-8 | With the MVP weights the script's credits differ from the exact rescan on [X, Y, Z]. |
| IIARescan.RemovedIdxs | src/baseball/Borda/temp.py:22-25 | `removed_player_idxs` holds only positions of removed players. |
| IIARescan.Kept | src/baseball/Borda/temp.py:27-33 | The `idx` counter never exceeds the position. |
| IIARescan.StruckPositions | src/baseball/Borda/temp.py:22-25 | The loop over the removed names builds `removed_player_idxs`. |
| IIARescan.RescanRow | src/baseball/Borda/temp.py:27-33 | One row's loop with the `idx` counter adds each survivor's rescan credit and records an empty cell when it meets one. |
| IIARescan.RescanRows | src/baseball/Borda/temp.py:21-33 | The loop over the rows builds every player's total rescan credit. |
| IIARescan.RemoveAndRecalculate | src/baseball/Borda/temp.py:8-42 | `remove_and_recalculate` is the rescan specification: credit, drop, sort; `None` where it raises. |
| IIARescan.DetectIIASpecific | src/baseball/Borda/temp.py:45-92 | The search returns the paradox records over every combination, or fails as a whole when one raises. |
| IIARescan.KeptStrike | src/baseball/Borda/temp.py:27-33 | On a full row the counter at a position is the number of survivors before it. |
| IIARescan.RescanGainIsExact | src/baseball/Borda/temp.py:27-33 | Over full repeat-free rows the rescan credits a survivor with its exact gain. |
| IIARescan.RescanRescores | src/baseball/Borda/temp.py:8-42 | On full repeat-free ballots the result is sorted, without the removed players, and scores each survivor on the struck ballots. |
| IIARescan.RescanNoNames | src/baseball/Borda/temp.py:22-33 | An empty removal list credits nothing. |
| IIARescan.KeptBeforeStruck | src/baseball/Borda/temp.py:28-33 | Positions before every struck one keep their rank, so they gain nothing. |
| IIARescan.RescanNonNegative | src/baseball/Borda/temp.py:31 | With decreasing weights no credit is negative. |
| IIARescan.RescanNeverAborts | src/baseball/Borda/temp.py:45-92 | On full repeat-free ballots the search never raises and returns every paradox record. |
| IIAEffects.Adjusted | src/baseball/Borda/Borda_IIA_parallel_v2.py:34-42 | One row's map has a key for each later cell, counting its occurrences there. |
| IIAEffects.CountAfter | src/baseball/Borda/Borda_IIA_parallel_v2.py:40-42 | The inner loop builds that map. |
| IIAEffects.EffectsOf | src/baseball/Borda/Borda_IIA_parallel_v2.py:31-45 | The row loop merges each row's map with `update`: the last row's count wins. |
| IIAEffects.PreprocessRemovalEffects | src/baseball/Borda/Borda_IIA_parallel_v2.py:24-47 | Every nominee gets exactly its overwritten effect map. |
| IIAEffects.SumEffects | src/baseball/Borda/Borda_IIA_parallel_v2.py:58-62 | Summing the removed players' maps succeeds iff each has a map, and gives their summed effects. |
| IIAEffects.ApplyTotals | src/baseball/Borda/Borda_IIA_parallel_v2.py:65-67 | Each indexed player gains its total adjustment; other keys are ignored. |
| IIAEffects.RemoveAndRecalculateOptimized | src/baseball/Borda/Borda_IIA_parallel_v2.py:50-74 | `remove_and_recalculate_optimized` is the optimised specification on the given maps. |
| IIAEffects.IndexedAttempt | src/baseball/Borda/Borda_IIA_parallel_v2.py:132 | On the indexed frame, reading `['Player']` raises whenever there is a target, so no attempt finds a paradox. |
| IIAEffects.DetectIIASpecific | src/baseball/Borda/Borda_IIA_parallel_v2.py:87-168 | The search as written reports nothing. |
| IIAEffects.LastEffectsPresence | src/baseball/Borda/Borda_IIA_parallel_v2.py:45 | After the overwriting merge a stored effect is 1 when some ballot ranks the player after the removed one, otherwise 0. |
| IIAEffects.SummedIsEffectCount | src/baseball/Borda/Borda_IIA_parallel_v2.py:34-45 | The summed maps count the ballots ranking the player after the removed one. |
| IIAEffects.UpdateOverwrites | src/baseball/Borda/Borda_IIA_parallel_v2.py:45 | Two equal ballots store an effect of 1, where the count is 2. |
| IIAEffects.OptimizedKeepsOrder | src/baseball/Borda/Borda_IIA_parallel_v2.py:72-74 | The returned table keeps the original row order minus the removed rows. |
| IIAEffects.CorrectedTotal | src/baseball/Borda/Borda_IIA_parallel_v2.py:58-62 | With summed maps a survivor's total adjustment is the unit effect of the removal set. |
| IIAEffects.CorrectedRescores | src/baseball/Borda/Borda_IIA_parallel_v2.py:50-74 | With summed maps and unit-gap weights, the sorted result scores each survivor on the struck ballots. |
| Search.CombinationsCount | src/baseball/Borda/Borda_IIA_parallel.py:121 | There are C(n, k) combinations. |
| Search.Combinations | src/baseball/Borda/Borda_IIA_parallel.py:121 | Each combination holds `k` members of the list, repeat-free when the list is. |
| Search.AtRanks | src/baseball/Borda/Borda_IIA_parallel.py:108 | The targets are the players at the given 1-based ranks. |
| Search.Eligible | src/baseball/Borda/Borda_IIA_parallel.py:110-115 | Eligible players are exactly the non-targets with rank below `max_removed_ranking`. |
| Search.AdjustedInRange | src/baseball/Borda/Borda_IIA_parallel.py:129-133 | The shifted target position lies in 1..rank and within the shrunk table. |
| Search.RanksOf | src/baseball/Borda/Borda_IIA_parallel.py:126 | Original ranks are found iff every player is in the table, and are their ranks. |
| Search.PlayersAt | src/baseball/Borda/Borda_IIA_parallel.py:136-139 | The new target players are found iff every shifted index is valid. |
| Search.Step | src/baseball/Borda/Borda_IIA_parallel.py:126-166 | No paradox iff the new target list equals the original one; a paradox record carries the combination and the original ranks. |
| Search.LookupRanks | src/baseball/Borda/Borda_IIA_parallel.py:126 | The loop over the removed players' ranks. |
| Search.LookupShifted | src/baseball/Borda/Borda_IIA_parallel.py:129-139 | The adjustment dictionary and the lookups of the new target players. |
| Search.RunStep | src/baseball/Borda/Borda_IIA_parallel.py:121-166 | The body of the `try` block for one removal set. |
| Search.StepSucceeds | src/baseball/Borda/Borda_IIA_parallel.py:126-153 | On a repeat-free table and an eligible removal set no lookup fails. |
| Search.Attempt | src/baseball/Borda/Borda_IIA_parallel.py:121-170 | An attempt that does not raise is the search step on the recalculated table. |
| Search.CollectProps | src/baseball/Borda/Borda_IIA_parallel.py:156-166 | Every report row comes from a combination and records the original ranks of the targets and of the new target players. |
| Search.ComboEligible | src/baseball/Borda/Borda_IIA_parallel.py:110-121 | Each removal set has `k` distinct players, each an eligible non-target. |
| Search.RemovedAreEligible | src/baseball/Borda/Borda_IIA_parallel.py:110-166 | Every report row removes `k` distinct eligible players. |
| CollegeScores.CollegeWeightsShape | src/college-polls/Borda/IIA_results/temp_new.py:105-109 | The college weights are 25 values with unit gaps, strictly decreasing. |
| CollegeScores.KeyOrder | src/college-polls/Borda/IIA_results/temp_original.py:19-22 | The score dictionary's key order is repeat-free. |
| CollegeScores.ScoreTable | src/college-polls/Borda/IIA_results/temp_original.py:19-22 | Each key carries its positional score. |
| CollegeScores.UnkeyedScoresNothing | src/college-polls/Borda/IIA_results/temp_new.py:105-109 | A team without a key has scored nothing. |
| CollegeScores.TallyBallot | src/college-polls/Borda/IIA_results/temp_original.py:19-22 | The loop over one ballot adds `weights[idx]` when `idx < len(weights)`, creating keys as the script does. |
| CollegeScores.Tally | src/college-polls/Borda/IIA_results/temp_original.py:19-22 | The tally is the score table in key order. |
| CollegeScores.KeyOrderStrike | src/college-polls/Borda/IIA_results/temp_original.py:16-22 | Keys created for every team met on the struck ballots are the struck key order of the baseline. |
| CollegeScores.PosScoreIsScore | src/college-polls/Borda/IIA_results/temp_original.py:19-22 | On repeat-free ballots the tally is the positional score. |
| CollegeScores.Picks | src/college-polls/Borda/IIA_results/temp_new.py:115-125 | `[s[i - 1] for i in ranks]` is defined iff every index is valid. |
| CollegeScores.PositionsIn | src/college-polls/Borda/IIA_results/temp_original.py:29-33 | 1-based positions in the original ranking, defined iff each team is in it. |
| CollegeScores.LazyStepMeaning | src/college-polls/Borda/IIA_results/temp_new.py:115-125 | No paradox iff the unshifted new target list equals the original one; a paradox records original positions. |
| CollegeScores.EagerRefinesLazy | src/college-polls/Borda/IIA_results/temp_original.py:29-38 | Computing every lookup first only adds failures; otherwise it agrees with the later scripts. |
| CollegeScores.RecordsFrom | src/college-polls/Borda/IIA_results/temp_original.py:76 | A record is reported exactly when some removal set found that paradox. |
| CollegeScores.NonTargetsMembers | src/college-polls/Borda/IIA_results/temp_new.py:157-162 | The eligible teams are exactly those at non-target positions, repeat-free. |
| CollegeScores.NonTargetsLength | src/college-polls/Borda/IIA_results/temp_new.py:157-162 | One team fewer per target position within the ranking. |
| CollegeOriginal.RemoveFirst | src/college-polls/Borda/IIA_results/temp_original.py:16-18 | `list.remove`: exactly one occurrence goes when present. |
| CollegeOriginal.StrikeBallot | src/college-polls/Borda/IIA_results/temp_original.py:16-18 | The loop over the removed teams on one ballot. |
| CollegeOriginal.RemoveEachIsStrike | src/college-polls/Borda/IIA_results/temp_original.py:16-18 | On a repeat-free ballot the removals strike the teams and later teams shift up. |
| CollegeOriginal.StruckBallots | src/college-polls/Borda/IIA_results/temp_original.py:16-18 | Every ballot with the removed teams deleted. |
| CollegeOriginal.ParadoxFinder | src/college-polls/Borda/IIA_results/temp_original.py:4-47 | A missing ballot file gives `None`; otherwise the finder's outcome. |
| CollegeOriginal.FinderTableIsExact | src/college-polls/Borda/IIA_results/temp_original.py:16-22 | The finder's scores are the positional scores on the struck ballots. |
| CollegeOriginal.PopAt | src/college-polls/Borda/IIA_results/temp_original.py:66-73 | `pop(k)` is defined iff the index is valid, and shortens the list by one. |
| CollegeOriginal.PopTargets | src/college-polls/Borda/IIA_results/temp_original.py:66-73 | The pop loop on the shrinking list. |
| CollegeOriginal.ParadoxFileMaker | src/college-polls/Borda/IIA_results/temp_original.py:52-79 | `paradox_file_maker` is the file-maker specification. |
| CollegeOriginal.PopTargetsMisses | src/college-polls/Borda/IIA_results/temp_original.py:66-73 | Targets 1 and 2 on [a, b, c] pop a and c, leaving b eligible where the filter leaves c. |
| CollegeOriginal.SinglePopIsFilter | src/college-polls/Borda/IIA_results/temp_original.py:66-73 | With a single target the pop removes exactly the team at that position. |
| CollegeOriginal.NonTargetsNone | src/college-polls/Borda/IIA_results/temp_new.py:157-162 | With no target among the positions every team stays eligible. |
| CollegeEffects.AdjustedPoints | src/college-polls/Borda/IIA_results/temp_new.py:24-43 | One ballot's `adjusted_points`: +1 for each team after the removed one. |
| CollegeEffects.MergeInto | src/college-polls/Borda/IIA_results/temp_new.py:24-43 | Merging adds the counts to the existing entries. |
| CollegeEffects.EffectsOfTeam | src/college-polls/Borda/IIA_results/temp_new.py:24-43 | The effect of a team accumulated over the ballots. |
| CollegeEffects.PreprocessRemovalEffects | src/college-polls/Borda/IIA_results/temp_new.py:10-45 | The effect dictionary fits the ballots: each team, empty or not, has its summed effects. |
| CollegeEffects.PopEach | src/college-polls/Borda/IIA_results/temp_new.py:70-71 | Popping every removed team drops their rows. |
| CollegeEffects.ApplyEffects | src/college-polls/Borda/IIA_results/temp_new.py:62-67 | One removed team's effects added to the survivors only. |
| CollegeEffects.RecalculateScores | src/college-polls/Borda/IIA_results/temp_new.py:47-73 | `recalculate_scores` is its specification, computed on a copy. |
| CollegeEffects.RecalcKeys | src/college-polls/Borda/IIA_results/temp_new.py:60-71 | The result's keys are the original keys minus the removed teams, in order. |
| CollegeEffects.RecalcScores | src/college-polls/Borda/IIA_results/temp_new.py:62-67 | A survivor's new score is its original score plus the removed teams' effects on it. |
| CollegeEffects.RecalcEmpty | src/college-polls/Borda/IIA_results/temp_new.py:60-73 | Removing nothing returns the original scores. |
| CollegeEffects.RecalcFit | src/college-polls/Borda/IIA_results/temp_new.py:10-73 | Any two effect dictionaries that fit the ballots recount alike. |
| CollegeEffects.FollowTotalIsEffectCount | src/college-polls/Borda/IIA_results/temp_new.py:24-43 | On repeat-free ballots a team's effect is the number of ballots ranking it after the removed one. |
| CollegeEffects.EffectsFromRepeated | src/college-polls/Borda/IIA_results/temp_new.py:10-45 | A team listed twice has its effects stored twice. |
| CollegeEffects.RecalcMatchesFinder | src/college-polls/Borda/IIA_results/temp_new.py:47-73 | The precomputed recount equals the strike-and-rescore of `temp_original.py`. |
| CollegeEffects.DetectMatchesFinder | src/college-polls/Borda/IIA_results/temp_new.py:75-145 | Where the finder does not raise, the precomputed search reaches the same outcome. |
| CollegeEffects.DetectParadox | src/college-polls/Borda/IIA_results/temp_new.py:75-145 | `detect_paradox` is its specification. |
| CollegeEffects.ProcessYearWeek | src/college-polls/Borda/IIA_results/temp_new.py:147-175 | `process_year_week` is its specification over the first ten non-target teams. |
| CollegeEffects.LoadOrPreprocessData | src/college-polls/Borda/IIA_results/temp_new_2.py:56-102 | No data iff a file is missing; loaded data fits the ballots. |
| CollegeEffects.DetectParadoxCached | src/college-polls/Borda/IIA_results/temp_new_2.py:104-169 | No data gives `None`; otherwise the step on the loaded scores and effects. |
| CollegeEffects.CachedStep | src/college-polls/Borda/IIA_results/temp_new_2.py:132-152 | Loaded data decides a removal set as the ballots themselves do. |
| CollegeEffects.ProcessYearWeekCached | src/college-polls/Borda/IIA_results/temp_new_2.py:171-202 | `process_year_week` is its specification; missing data gives no rows. |
| Pairwise.KeyOf | src/baseball/Pairwise/pairwise.py:20 | The key of a pair is `(min, max)` of its two players. |
| Pairwise.PairKeys | src/baseball/Pairwise/pairwise.py:20 | The dictionary's keys are repeat-free. |
| Pairwise.AllPairsMembers | src/baseball/Pairwise/pairwise.py:20 | A key is present iff two positions of the player list form it. |
| Pairwise.PresentBallot | src/baseball/Pairwise/pairwise.py:27-39 | One ballot adds its "present beats absent" vote to every counter, and the keys stay. |
| Pairwise.PairwiseComparison | src/baseball/Pairwise/pairwise.py:16-47 | `pairwise_comparison` writes one row per key, counted under "present beats absent". |
| Pairwise.PresentSwap | src/baseball/Pairwise/pairwise.py:31-39 | The second count of a counter is the first count of the swapped pair. |
| Pairwise.PresentTotal | src/baseball/Pairwise/pairwise.py:30-39 | A>B + B>A is the number of ballots naming at least one of the pair. |
| Pairwise.CountPairsFrom | data/baseball/processed_data/Condorcet/pairwise_comparison.py:14-24 | The pairs starting at one position of a ballot, applied to the counters. |
| Pairwise.CountBallot | data/baseball/processed_data/Condorcet/pairwise_comparison.py:14-24 | One ballot adds its both-present vote to every counter; non-key pairs change nothing. |
| Pairwise.PairwiseComparisonSpecific | src/baseball/Pairwise/pairwise.py:58-85 | `pairwise_comparison_specific` writes one row per key, counting only ballots naming both. |
| Pairwise.BothVoteDistinct | src/baseball/Pairwise/pairwise.py:67-75 | On a repeat-free ballot the vote goes to whichever of the two is ranked higher, and is nothing if either is missing. |
| Pairwise.BothCounts | data/baseball/processed_data/Condorcet/pairwise_comparison.py:14-22 | A>B counts the ballots ranking A above B, and A>B + B>A counts the ballots naming both. |
| Pairwise.PresentIsBothPlusAlone | src/baseball/Pairwise/pairwise.py:36-39 | The two policies differ by the ballots naming one player of the pair, each a win for that player. |
| Condorcet.FindCondorcetWinner | src/baseball/Pairwise/condorcet.py:3-34 | `find_condorcet_winner` tries the first `top_n` Borda players in order. |
| Condorcet.WinnerMeaning | src/baseball/Pairwise/condorcet.py:13-34 | The winner is the first candidate winning every row naming it strictly; there is none iff no candidate does. |
| Condorcet.AtMostOneWinner | src/baseball/Pairwise/condorcet.py:17-27 | Two players sharing a row cannot both win every row. |
| Condorcet.BeatsAllIsMajority | src/baseball/Pairwise/condorcet.py:17-27 | On the `pairwise_comparison` table, winning every row is beating every other nominee by majority. |
| Condorcet.SameIffBordaWins | src/baseball/Pairwise/condorcet.py:50-54 | "Same?" holds iff the Borda winner itself wins every row naming it. |
| Condorcet.FindCondorcetWinnerCf | src/college-polls/Pairwise/condorcet_cf.py:3-47 | The college `find_condorcet_winner` is its specification. |
| Condorcet.CfAgreesWhenComparable | src/college-polls/Pairwise/condorcet_cf.py:25-47 | When no comparison raises, the college check picks the same winner as the baseball check. |
| Condorcet.RaisingIsSkipped | src/college-polls/Pairwise/condorcet_cf.py:38-40 | A candidate whose row cannot be compared is never the winner. |
| Condorcet.CfWinnerBeatsAll | src/college-polls/Pairwise/condorcet_cf.py:29-37 | The college winner is among the candidates and wins every row naming it. |
| Condorcet.IndicatorMeaning | src/college-polls/Pairwise/condorcet_cf.py:70-75 | The indicator is 1 iff there is no winner, 0 iff the Borda winner wins every row, and 2 otherwise. |
| Cycles.PreprocessPairwiseData | src/baseball/Pairwise/cycle_finder.py:4-18 | The loop builds the lookup table. |
| Cycles.LookupSymmetric | src/baseball/Pairwise/cycle_finder.py:14-16 | `(B, A)` maps to the swapped counts of `(A, B)`. |
| Cycles.LookupMembers | src/baseball/Pairwise/cycle_finder.py:11-16 | A pair has an entry iff some row names its two players, in either order. |
| Cycles.SortAsc | src/baseball/Pairwise/cycle_finder.py:42 | `sorted(combo)`: an ascending permutation. |
| Cycles.ReportedIsRing | src/baseball/Pairwise/cycle_finder.py:58-168 | The written conditions for 3, 4 and 5 hold iff every pair is known and the sorted ring or its reverse is a cycle of strict wins. |
| Cycles.RankIn | src/baseball/Pairwise/cycle_finder.py:21-30 | The rank is defined iff the player is in the results, and is the row of its last line. |
| Cycles.RingEdges | src/baseball/Pairwise/cycle_finder.py:76-94 | One pair of counts per edge of the ring. |
| Cycles.CycleFinder | src/baseball/Pairwise/cycle_finder.py:33-200 | The loop over the combinations appends exactly the report's rows. |
| Cycles.OtherSizesReportNothing | src/baseball/Pairwise/cycle_finder.py:58-196 | A `cycle_size` outside 3..5 reports nothing. |
| Cycles.ReportedRowsAreCycles | src/baseball/Pairwise/cycle_finder.py:58-196 | Every reported row is a sorted combination, all its pairs known, that is a cycle of strict wins one way or the other. |
| Cycles.CyclesAreReported | src/baseball/Pairwise/cycle_finder.py:58-196 | Every combination whose sorted ring is such a cycle is reported. |
| Difference.LastSegment | src/baseball/Borda/Borda_difference_finder.py:10 | `split("-")[-1]`: a hyphen-free suffix that is the whole string or follows a '-'. |
| Difference.RanksColumnShape | src/baseball/Borda/Borda_difference_finder.py:10 | The ranks column is "Ranks-" followed by that segment. |
| Difference.Split | src/baseball/Borda/Borda_difference_finder.py:16 | `str.split` gives at least one piece, none holding the separator. |
| Difference.SplitJoin | src/baseball/Borda/Borda_difference_finder.py:16 | Joining the pieces of a split gives the string back. |
| Difference.JoinSplit | src/baseball/Borda/Borda_difference_finder.py:16 | Splitting what was joined from separator-free pieces gives the pieces back. |
| Difference.Strip | src/baseball/Borda/Borda_difference_finder.py:16 | Trimming the ASCII whitespace `int()` skips around a token leaves none of it at either end, never lengthens, and keeps a string already free of it at both ends. |
| Difference.StripAllSpace | src/baseball/Borda/Borda_difference_finder.py:16 | A string of the whitespace `int()` skips trims to the empty string. |
| Difference.StripPadded | src/baseball/Borda/Borda_difference_finder.py:16 | Trimming removes exactly the ASCII whitespace `int()` skips around a token (space, tab, line feed, vertical tab, form feed, carriage return): any such padding around a core that starts and ends with another character gives back that core. |
| Difference.ParseIntPadded | src/baseball/Borda/Borda_difference_finder.py:16 | `int()` ignores surrounding whitespace: a padded token reads as the token itself. |
| Difference.ParseShow | src/baseball/Borda/Borda_difference_finder.py:16 | `int()` reads back what `str()` writes, with or without a minus sign. |
| Difference.ParseAll | src/baseball/Borda/Borda_difference_finder.py:16 | `map(int, ...)` succeeds iff every piece parses. |
| Difference.MissingIsDropped | src/baseball/Borda/Borda_difference_finder.py:16-18 | A non-string cell parses to [] and is dropped. |
| Difference.DroppedIff | src/baseball/Borda/Borda_difference_finder.py:16-18 | A parsed cell is dropped iff its ranks are 1, 2, …, n with n at most `top_n`, and kept otherwise. |
| Difference.PrefixListDropped | src/baseball/Borda/Borda_difference_finder.py:16-18 | The cell "1,2,…,n" is dropped iff n ≤ `top_n`. |
| Difference.KeepValidMeaning | src/baseball/Borda/Borda_difference_finder.py:15-21 | The filter raises iff some cell fails to parse; otherwise it keeps exactly the rows judged valid. |
| Difference.Lower | src/baseball/Borda/Borda_difference_finder.py:34 | `str.lower` maps each character. |
| Difference.GenerateBordaMethods | src/baseball/Borda/Borda_difference_finder.py:27-37 | One (method, path) pair per method, in the fixed order. |
| Difference.PathNamesMethod | src/baseball/Borda/Borda_difference_finder.py:34 | The lowercased method name can be read back out of its path. |
| Difference.OutputPathsDistinct | src/baseball/Borda/Borda_difference_finder.py:29-35 | The five methods write five different files. |

## Left out

- CSV and pandas reading and writing, `to_csv`, path construction and timing prints are left out. Ballots and tables are in-memory sequences; a missing file is an `Option` parameter.
- The process pools in `detect_IIA_all` and `analyze_all_paradoxes` are concurrency and are not modelled; only the per-contest functions are.
- The MD5 cache key and the pickle load and store of `temp_new_2.py` are hashing and file I/O. The model loads without a cache.
- The Dowdall float weights in `Borda_count.py` are left out; weights are integer sequences.
- The driver functions are loops over years and files: `borda_mvp_entire`, `detect_IIA_all`, `IIA_per_target_rank`, `analyze_all_paradoxes`, `pairwise_comparison_all` and the loop of `borda_condorcet`. Module-level script code is left out too.
- `cycle_finder_all` and `cycle_finder_cutoff_3cycle` are left out. The latter reads columns that `cycle_finder` never writes.
- Plotting, data preparation, report assembly and scraping are not part of this model.
- Whitespace around names is not normalised; candidates are ids. In the removal scripts the raise of `.strip()` on an empty-cell key is modelled as `None`. `row.values` scans over non-rank columns are not modelled. Lemmas about the results assume full, repeat-free ballots where they say so.
- Pairwise.PairwiseComparisonSpecific: pairwise ballots are taken gap-free. The `TypeError` that `min(name, NaN)` raises in `pairwise_comparison_specific` on a ballot with an empty slot is not modelled; a short ballot is counted instead.
- Candidates are numbers standing for names. Python's string order on names becomes their numeric order.
- Ranking.SortDescStable: pandas `sort_values` uses quicksort by default, which is not guaranteed stable. The model uses one stable sort for it and for Python's `sorted`.
- Dictionary iteration order is left unspecified where the result does not depend on it. Set iteration (`removed_player_idxs`) is modelled as a set.
- In `condorcet_cf.py` the exceptions the loop catches are modelled as rows whose counts cannot be compared. Reading the files is left out.
- Cycles.RankIn: the `Points` field of `get_player_rankings` is left out; `cycle_finder` never writes it.
- Cycles.CycleFinder: the Year and League columns and the column labels of the output rows are left out.
- Difference.ParseInt: Unicode whitespace and non-ASCII digits, which Python's `int()` accepts, are not modelled; only ASCII is.
- Difference.Lower: only ASCII letters are lowered.
- `process_borda_method`'s file I/O is left out. Its filter is modelled as `Difference.KeepValid` on in-memory rows.
- The file reading that `Borda_IIA_parallel_v2.py` does at import is left out.
- Record labels (`Year`, `Week`, `League`, CSV column names) are left out of the records.
- Search.AtRanks: requires every target rank in 1..len(table). A rank of 0, which `iloc` wraps to the last row, and a rank past the table, which raises `IndexError` before the combination loop, are not modelled.
- Search.Step, Search.Attempt, Search.Collect, Search.RunStep, Search.StepSucceeds, Search.CollectProps, Search.RemovedAreEligible: require in-range target ranks, as Search.AtRanks does; rank 0, which wraps to the last row and reaches the combination loop, and ranks past the table are not modelled.
- IIAParallel.DetectIIASpecific: requires in-range target ranks. Out-of-range ranks (wrap-around at 0, `IndexError` past the table, caught by the driver) are not modelled.
- IIARescan.DetectIIASpecific: requires in-range target ranks. Out-of-range ranks (wrap-around at 0, an uncaught `IndexError` past the table) are not modelled.
- IIAEffects.DetectIIASpecific: requires in-range target ranks. Out-of-range ranks (wrap-around at 0, `IndexError` past the table, caught by the driver) are not modelled.
- CollegeEffects.NewDetect, CollegeEffects.DetectParadox: take the weights as a sequence, so `temp_new.py`'s default `weights=None` (a `TypeError` at `len(weights)`, caught to `None`) is not modelled; every caller supplies weights.

## Findings

| source | as written | input that shows it | evidently intended | confidence | as-written member | corrected member |
|---|---|---|---|---|---|---|
| src/college-polls/Borda/IIA_results/temp_original.py:66-73 | `pop(idx - 1)` for each target in turn, on a list that shrinks after every pop | targets [1, 2] on the ranking [a, b, c]: a and c are popped and b stays eligible | drop the teams at the target positions, as `temp_new.py` does | not executed | CollegeOriginal.PopTargetsMisses | CollegeScores.NonTargetsMembers |
| src/baseball/Borda/Borda_IIA_parallel_v2.py:45 | `dict.update` merges each ballot's effect map by overwriting | two equal ballots [x, y]: x's stored effect on y is 1 | the effect counts the ballots, 2 here | not executed | IIAEffects.UpdateOverwrites | IIAEffects.SummedIsEffectCount |
| src/baseball/Borda/Borda_IIA_parallel_v2.py:72-74 | returns the frame indexed by `Player`, so `['Player']` at line 132 raises `KeyError`, caught at 161-162 | any contest with a target rank: every combination is skipped | the recalculated table with a `Player` column, sorted | not executed | IIAEffects.DetectIIASpecific | IIAEffects.CorrectedRescores |
| src/baseball/Borda/Borda_IIA_parallel.py:39-51 | sums each removed player's single-removal deltas, computed on the original ballot | weights 14, 9, 8 and the ballot [X, Y, Z], removing X and Y: Z gains 2 | Z gains 6, as the rescan of `temp.py` gives | not executed | IIAParallel.ParallelMisscores | IIARescan.RescanRescores |
