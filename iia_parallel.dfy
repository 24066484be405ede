/**
 * The batch removal script: for a removal set, every removed player's
 * deletion from every ballot row credits the players after it with the value
 * of moving up one rank (`rank_diff`), all computed on the original rows and
 * summed in a dictionary; the sums are applied to the results table, the
 * removed rows dropped and the table sorted by points. The search then
 * tries every removal set of eligible players and reports those that change
 * the players at the target ranks.
 *
 * An empty cell after a removed player becomes a dictionary key that is not
 * a string; applying the sums then raises, and the search skips the set.
 */
module IIAParallel {
  import opened Wrappers
  import opened Ballots
  import opened Ranking
  import opened Removal
  import opened Positional
  import opened BallotRows
  import opened Search

  /** The dictionary `adj` has exactly the keys listed, in insertion order, in `keys`. */
  ghost predicate KeysOf(adj: map<Option<Cand>, int>, keys: seq<Option<Cand>>)
  {
    Distinct(keys) && forall x :: x in adj <==> x in keys
  }

  /**
   * What the script returns: the credited table without the removed players,
   * sorted by points; `None` where applying the sums raises.
   */
  function ParallelRemoval(t: seq<Entry>, rows: seq<Cells>, names: seq<Cand>, w: seq<int>): (r: Option<seq<Entry>>)
  {
    if NamesHits(rows, names, None) > 0 then None else Some(SortDesc(Drop(Credit(t, rows, names, w), names)))
  }

  /** `points_adjustments[row.iloc[i]] += rank_diff.get(i - 6, 0)` for each cell after position `k`. */
  method AddRowCredits(adj0: map<Option<Cand>, int>, keys0: seq<Option<Cand>>, cells: Cells, k: nat, w: seq<int>)
    returns (adj: map<Option<Cand>, int>, keys: seq<Option<Cand>>)
    requires k < |cells| == MaxRanks && KeysOf(adj0, keys0)
    ensures KeysOf(adj, keys)
    ensures forall x :: Get(adj, x) == Get(adj0, x) + GainBetween(cells, k, |cells|, x, w)
    ensures None in adj <==> None in adj0 || HitsBetween(cells, k, |cells|, None) > 0
  {
    adj, keys := adj0, keys0;
    var j := k + 1;
    while j < MaxRanks
      invariant k + 1 <= j <= MaxRanks
      invariant KeysOf(adj, keys)
      invariant forall x :: Get(adj, x) == Get(adj0, x) + GainBetween(cells, k, j, x, w)
      invariant None in adj <==> None in adj0 || HitsBetween(cells, k, j, None) > 0
    {
      var x := cells[j];
      if x !in adj {
        keys := keys + [x];
      }
      adj := adj[x := Get(adj, x) + RankDiff(w, j - 1)];
      j := j + 1;
    }
  }

  /** The loop over the ballot rows for one removed player. */
  method AddNameCredits(adj0: map<Option<Cand>, int>, keys0: seq<Option<Cand>>, rows: seq<Cells>, name: Cand, w: seq<int>)
    returns (adj: map<Option<Cand>, int>, keys: seq<Option<Cand>>)
    requires (forall cells | cells in rows :: |cells| == MaxRanks) && KeysOf(adj0, keys0)
    ensures KeysOf(adj, keys)
    ensures forall x :: Get(adj, x) == Get(adj0, x) + TotalGain(rows, name, x, w)
    ensures None in adj <==> None in adj0 || TotalHits(rows, name, None) > 0
  {
    adj, keys := adj0, keys0;
    var n := 0;
    while n < |rows|
      invariant 0 <= n <= |rows|
      invariant KeysOf(adj, keys)
      invariant forall x :: Get(adj, x) == Get(adj0, x) + TotalGain(rows[..n], name, x, w)
      invariant None in adj <==> None in adj0 || TotalHits(rows[..n], name, None) > 0
    {
      var cells := rows[n];
      assert rows[..n + 1][..n] == rows[..n];
      assert cells in rows;
      if Some(name) in cells {
        adj, keys := AddRowCredits(adj, keys, cells, CellIndex(cells, name), w);
      }
      n := n + 1;
    }
    assert rows[..n] == rows;
  }

  /** The loops of the `try` block: every removed player, every row. */
  method CollectCredits(rows: seq<Cells>, names: seq<Cand>, w: seq<int>)
    returns (adj: map<Option<Cand>, int>, keys: seq<Option<Cand>>)
    requires forall cells | cells in rows :: |cells| == MaxRanks
    ensures KeysOf(adj, keys)
    ensures forall x :: Get(adj, x) == NamesGain(rows, names, x, w)
    ensures None in adj <==> NamesHits(rows, names, None) > 0
  {
    adj, keys := map[], [];
    var a := 0;
    while a < |names|
      invariant 0 <= a <= |names|
      invariant KeysOf(adj, keys)
      invariant forall x :: Get(adj, x) == NamesGain(rows, names[..a], x, w)
      invariant None in adj <==> NamesHits(rows, names[..a], None) > 0
    {
      assert names[..a + 1][..a] == names[..a];
      adj, keys := AddNameCredits(adj, keys, rows, names[a], w);
      a := a + 1;
    }
    assert names[..a] == names;
  }

  /**
   * Applying the sums in key order: a player's key adds to its rows when the
   * table lists it; an empty-cell key raises on `.strip()`.
   */
  method ApplyCredits(t0: seq<Entry>, adj: map<Option<Cand>, int>, keys: seq<Option<Cand>>) returns (r: Option<seq<Entry>>)
    requires KeysOf(adj, keys)
    ensures r.None? <==> None in adj
    ensures r.Some? ==> |r.value| == |t0| && forall i | 0 <= i < |t0| ::
      r.value[i].player == t0[i].player && r.value[i].points == t0[i].points + Get(adj, Some(t0[i].player))
  {
    var t := t0;
    var n := 0;
    while n < |keys|
      invariant 0 <= n <= |keys|
      invariant None !in keys[..n]
      invariant |t| == |t0| && Players(t) == Players(t0)
      invariant forall i | 0 <= i < |t| ::
        t[i].player == t0[i].player &&
        t[i].points == t0[i].points + (if Some(t0[i].player) in keys[..n] then adj[Some(t0[i].player)] else 0)
    {
      assert keys[..n + 1] == keys[..n] + [keys[n]];
      match keys[n] {
        case None =>
          return None;
        case Some(p) =>
          assert Some(p) !in keys[..n];
          if p in Players(t) {
            t := AddPoints(t, p, adj[Some(p)]);
          } else {
            forall i | 0 <= i < |t| ensures t0[i].player != p {
              assert Players(t)[i] == t0[i].player;
            }
          }
      }
      n := n + 1;
    }
    assert keys[..n] == keys;
    return Some(t);
  }

  /** `remove_and_recalculate(league, year, names_to_remove, ballots, borda_results)`. */
  method RemoveAndRecalculate(t0: seq<Entry>, rows: seq<Cells>, names: seq<Cand>) returns (r: Option<seq<Entry>>)
    requires forall cells | cells in rows :: |cells| == MaxRanks
    ensures r == ParallelRemoval(t0, rows, names, MvpWeights)
  {
    var adj, keys := CollectCredits(rows, names, MvpWeights);
    var applied := ApplyCredits(t0, adj, keys);
    if applied.None? {
      return None;
    }
    var t := applied.value;
    assert t == Credit(t0, rows, names, MvpWeights);
    t := Drop(t, names);
    return Some(SortDesc(t));
  }

  // -------------------------------------------------------------- the search

  /** The recalculated table for each removal set. */
  function ParallelTables(t: seq<Entry>, rows: seq<Cells>, combos: seq<seq<Cand>>, w: seq<int>): (ts: seq<Option<seq<Entry>>>)
    ensures |ts| == |combos| && forall i | 0 <= i < |combos| :: ts[i] == ParallelRemoval(t, rows, combos[i], w)
  {
    seq(|combos|, i requires 0 <= i < |combos| => ParallelRemoval(t, rows, combos[i], w))
  }

  /**
   * `detect_IIA_specific`: every `removalAmount`-subset of the players ranked
   * above `maxRank` other than the targets is removed in turn; the sets that
   * change the players at the shifted target ranks are reported; a set whose
   * recalculation or lookups raise is skipped.
   */
  method DetectIIASpecific(t: seq<Entry>, rows: seq<Cells>, targetRanks: seq<nat>, removalAmount: nat, maxRank: int)
    returns (out: seq<IIARecord>)
    requires forall i | 0 <= i < |targetRanks| :: 1 <= targetRanks[i] <= |t|
    requires forall cells | cells in rows :: |cells| == MaxRanks
    ensures var combos := Combinations(Eligible(t, AtRanks(t, targetRanks), maxRank), removalAmount);
      out == Collect(t, ParallelTables(t, rows, combos, MvpWeights), combos, targetRanks)
  {
    var targets := AtRanks(t, targetRanks);
    var combos := Combinations(Eligible(t, targets, maxRank), removalAmount);
    out := TryRemovals(t, rows, targetRanks, combos);
  }

  /** The loop of `detect_IIA_specific` over the removal sets. */
  method TryRemovals(t: seq<Entry>, rows: seq<Cells>, targetRanks: seq<nat>, combos: seq<seq<Cand>>) returns (out: seq<IIARecord>)
    requires forall i | 0 <= i < |targetRanks| :: 1 <= targetRanks[i] <= |t|
    requires forall cells | cells in rows :: |cells| == MaxRanks
    ensures out == Collect(t, ParallelTables(t, rows, combos, MvpWeights), combos, targetRanks)
  {
    ghost var tables := ParallelTables(t, rows, combos, MvpWeights);
    out := [];
    var i := 0;
    while i < |combos|
      invariant 0 <= i <= |combos|
      invariant out == Collect(t, tables[..i], combos[..i], targetRanks)
    {
      var rec := TryRemoval(t, rows, targetRanks, combos, tables, i);
      out := out + rec;
      i := i + 1;
    }
    assert tables[..i] == tables && combos[..i] == combos;
  }

  /** One removal set: its record, if it shows a paradox. */
  method TryRemoval(t: seq<Entry>, rows: seq<Cells>, targetRanks: seq<nat>, combos: seq<seq<Cand>>, ghost tables: seq<Option<seq<Entry>>>, i: nat)
    returns (rec: seq<IIARecord>)
    requires forall j | 0 <= j < |targetRanks| :: 1 <= targetRanks[j] <= |t|
    requires forall cells | cells in rows :: |cells| == MaxRanks
    requires i < |combos| && tables == ParallelTables(t, rows, combos, MvpWeights)
    ensures Collect(t, tables[..i + 1], combos[..i + 1], targetRanks) == Collect(t, tables[..i], combos[..i], targetRanks) + rec
  {
    var nt := RemoveAndRecalculate(t, rows, combos[i]);
    var o := AttemptStep(t, nt, combos[i], targetRanks);
    CollectSnoc(t, tables, combos, targetRanks, i);
    rec := if o.Paradox? then [o.record] else [];
  }

  // -------------------------------------------------------------- properties

  /**
   * On full ballot rows and a table without repeated players, no removal set
   * of the search is skipped: the recalculation and every lookup succeed.
   */
  lemma ParallelNoSkips(t: seq<Entry>, ballots: seq<Ballot>, targetRanks: seq<nat>, k: nat, maxRank: int, combo: seq<Cand>, w: seq<int>)
    requires forall i | 0 <= i < |targetRanks| :: 1 <= targetRanks[i] <= |t|
    requires Distinct(Players(t))
    requires combo in Combinations(Eligible(t, AtRanks(t, targetRanks), maxRank), k)
    ensures !Attempt(t, ParallelRemoval(t, FullRows(ballots), combo, w), combo, targetRanks).LookupFailed?
  {
    var rows := FullRows(ballots);
    FullRowsNoEmpty(ballots, combo);
    ComboEligible(t, AtRanks(t, targetRanks), maxRank, k, combo);
    var c := Credit(t, rows, combo, w);
    DropSortShape(c, combo);
    StepSucceeds(t, SortDesc(Drop(c, combo)), combo, targetRanks);
  }

  /**
   * With equal gaps between consecutive weights the summed credits are
   * exact: on full repeat-free ballots, with the table holding each player's
   * positional score, the recalculated table is the re-scored ranking of the
   * ballots with the removed players struck out.
   */
  lemma ParallelEqualGapsRescores(t: seq<Entry>, ballots: seq<Ballot>, names: seq<Cand>, w: seq<int>)
    requires EqualGaps(w) && WellFormed(ballots, w) && Distinct(names)
    requires forall i | 0 <= i < |t| :: t[i].points == Score(ballots, w, t[i].player)
    ensures ParallelRemoval(t, FullRows(ballots), names, w).Some?
    ensures NonIncreasing(ParallelRemoval(t, FullRows(ballots), names, w).value)
    ensures forall e | e in ParallelRemoval(t, FullRows(ballots), names, w).value ::
      e.player !in names && e.points == Score(StrikeAll(ballots, names), w, e.player)
  {
    FullRowsNoEmpty(ballots, names);
    var c := Credit(t, FullRows(ballots), names, w);
    var d := Drop(c, names);
    SortDescProps(d);
    SortDescMembers(d);
    forall e | e in SortDesc(d) ensures e.player !in names && e.points == Score(StrikeAll(ballots, names), w, e.player) {
      EqualGapsRow(t, ballots, names, w, e);
    }
  }

  /** A row kept by the summed credits holds the survivor's score on the struck ballots. */
  lemma EqualGapsRow(t: seq<Entry>, ballots: seq<Ballot>, names: seq<Cand>, w: seq<int>, e: Entry)
    requires EqualGaps(w) && WellFormed(ballots, w) && Distinct(names)
    requires forall i | 0 <= i < |t| :: t[i].points == Score(ballots, w, t[i].player)
    requires e in Drop(Credit(t, FullRows(ballots), names, w), names)
    ensures e.player !in names && e.points == Score(StrikeAll(ballots, names), w, e.player)
  {
    var c := Credit(t, FullRows(ballots), names, w);
    var i :| 0 <= i < |c| && c[i] == e;
    EqualGapsEntry(t, ballots, names, w, i);
  }

  /** One entry of `ParallelEqualGapsRescores`. */
  lemma EqualGapsEntry(t: seq<Entry>, ballots: seq<Ballot>, names: seq<Cand>, w: seq<int>, i: nat)
    requires EqualGaps(w) && WellFormed(ballots, w) && Distinct(names)
    requires i < |t| && t[i].player !in names && t[i].points == Score(ballots, w, t[i].player)
    ensures Credit(t, FullRows(ballots), names, w)[i].points == Score(StrikeAll(ballots, names), w, t[i].player)
  {
    var p := t[i].player;
    NamesGainIsDeltaAdjust(ballots, names, p, w);
    AdditiveIsExact(ballots, names, p, w);
    StrikeScore(ballots, names, w, p);
  }

  /**
   * Wherever two consecutive weight gaps differ, the summed credits are not
   * exact: on the one ballot ranking 0, 1, ..., j + 1, removing the players
   * at ranks j and j + 1 credits the player behind them differently from
   * re-scoring the struck ballot.
   */
  lemma {:induction false} UnequalGapsMisscore(w: seq<int>, j: nat)
    requires 1 <= j && j + 1 < |w| && w[j - 1] - w[j] != w[j] - w[j + 1]
    ensures var b := Range(j + 2);
      NamesGain(FullRows([b]), [j - 1, j], Some(j + 1), w) != ExactAdjust([b], [j - 1, j], j + 1, w)
  {
    var b := Range(j + 2);
    var r: seq<Cand> := [j - 1, j];
    UnequalGapsDiffer(w, j);
    NamesGainIsDeltaAdjust([b], r, j + 1, w);
    DeltaAdjustByBallot([b], r, j + 1, w);
    var none: seq<Ballot> := [];
    assert [b][..0] == none;
  }

  /**
   * The 14, 9, 8, ... weights have unequal gaps: on the ballot ranking 0, 1
   * and 2, removing 0 and 1 credits player 2 with 2 points where re-scoring
   * gives it 6.
   */
  lemma ParallelMisscores()
    ensures NamesGain(FullRows([Range(3)]), [0, 1], Some(2), MvpWeights) !=
      ExactAdjust([Range(3)], [0, 1], 2, MvpWeights)
  {
    UnequalGapsMisscore(MvpWeights, 1);
  }
}
