/**
 * The precomputed-effects removal script: for every nominee, a map from
 * each cell value to the number of positions after the nominee on a row is
 * built once; a removal set then credits every listed player with the sum
 * of the removed players' entries, drops the removed rows and returns the
 * table.
 *
 * As written, the per-row maps are merged with `dict.update`, which keeps
 * the last row's count instead of adding, and the returned table still has
 * the player as its index, so the search's `['Player']` lookups raise and
 * every removal set is skipped. The corrected forms beside them sum the
 * counts and return the table sorted with a player column.
 */
module IIAEffects {
  import opened Wrappers
  import opened Ballots
  import opened Ranking
  import opened Removal
  import opened Positional
  import opened BallotRows
  import opened Search

  type EffectMap = map<Option<Cand>, int>

  /** `adjusted_points` of one row whose removed player sits at position `k`: each later key counted. */
  function Adjusted(cells: Cells, k: nat): (m: EffectMap)
    requires k < |cells|
    ensures forall x :: x in m <==> x in cells[k + 1..]
    ensures forall x | x in m :: m[x] == HitsBetween(cells, k, |cells|, x)
  {
    map x | x in cells[k + 1..] :: HitsBetween(cells, k, |cells|, x)
  }

  /** The row's contribution to `r`'s effects: its counts if it names `r`, nothing otherwise. */
  function RowEffect(cells: Cells, r: Cand): EffectMap
  {
    if Some(r) in cells then Adjusted(cells, CellIndex(cells, r)) else map[]
  }

  /** `removal_effects[r]` as written: every row naming `r` overwrites the keys it counts. */
  function LastEffects(rows: seq<Cells>, r: Cand): EffectMap
  {
    if rows == [] then map[] else LastEffects(rows[..|rows| - 1], r) + RowEffect(rows[|rows| - 1], r)
  }

  /** The intended `removal_effects[r]`: the rows' counts added up. */
  function SummedEffects(rows: seq<Cells>, r: Cand, x: Option<Cand>): int
  {
    if rows == [] then 0 else SummedEffects(rows[..|rows| - 1], r, x) + Get(RowEffect(rows[|rows| - 1], r), x)
  }

  // ------------------------------------------------------------ preprocessing

  /** The inner loop: `adjusted_points[row.iloc[i]] += 1` for every position after `k`. */
  method CountAfter(cells: Cells, k: nat) returns (adj: EffectMap)
    requires k < |cells| == MaxRanks
    ensures adj == Adjusted(cells, k)
  {
    adj := map[];
    var i := k + 1;
    while i < MaxRanks
      invariant k + 1 <= i <= MaxRanks
      invariant forall x :: x in adj <==> x in cells[k + 1..i]
      invariant forall x :: Get(adj, x) == HitsBetween(cells, k, i, x)
    {
      assert cells[k + 1..i + 1] == cells[k + 1..i] + [cells[i]];
      adj := adj[cells[i] := Get(adj, cells[i]) + 1];
      i := i + 1;
    }
    assert cells[k + 1..i] == cells[k + 1..];
  }

  /** The loop over the rows for one nominee, merging each row's counts with `update`. */
  method EffectsOf(m0: EffectMap, rows: seq<Cells>, r: Cand) returns (m: EffectMap)
    requires forall cells | cells in rows :: |cells| == MaxRanks
    ensures m == m0 + LastEffects(rows, r)
  {
    m := m0;
    var n := 0;
    while n < |rows|
      invariant 0 <= n <= |rows|
      invariant m == m0 + LastEffects(rows[..n], r)
    {
      assert rows[n] in rows;
      m := MergeRow(m, rows[n], r);
      LastEffectsSnoc(rows, n, r);
      MergeAssoc(m0, LastEffects(rows[..n], r), RowEffect(rows[n], r));
      n := n + 1;
    }
    assert rows[..n] == rows;
  }

  /** One row: `update` with the counts after `r`'s cell, when the row names `r`. */
  method MergeRow(m0: EffectMap, cells: Cells, r: Cand) returns (m: EffectMap)
    requires |cells| == MaxRanks
    ensures m == m0 + RowEffect(cells, r)
  {
    m := m0;
    if Some(r) in cells {
      var adj := CountAfter(cells, CellIndex(cells, r));
      m := m + adj;
    } else {
      assert m0 + map[] == m0;
    }
  }

  lemma LastEffectsSnoc(rows: seq<Cells>, n: nat, r: Cand)
    requires n < |rows|
    ensures LastEffects(rows[..n + 1], r) == LastEffects(rows[..n], r) + RowEffect(rows[n], r)
  {
    assert rows[..n + 1][..n] == rows[..n];
  }

  lemma MergeAssoc(a: EffectMap, b: EffectMap, c: EffectMap)
    ensures (a + b) + c == a + (b + c)
  {
  }

  /** Merging a map into one whose keys it already holds yields that map. */
  lemma OverriddenKeys(m0: EffectMap, m: EffectMap)
    requires m0.Keys <= m.Keys
    ensures m0 + m == m
  {
  }

  /** `preprocess_removal_effects(ballots, player_names)`: every nominee's map, empty where no row names it. */
  method PreprocessRemovalEffects(rows: seq<Cells>, nominees: seq<Cand>) returns (effects: map<Cand, EffectMap>)
    requires forall cells | cells in rows :: |cells| == MaxRanks
    ensures forall r :: r in effects <==> r in nominees
    ensures forall r | r in effects :: effects[r] == LastEffects(rows, r)
  {
    effects := map r | r in nominees :: map[];
    ghost var done: set<Cand> := {};
    var a := 0;
    while a < |nominees|
      invariant 0 <= a <= |nominees|
      invariant forall r :: r in effects <==> r in nominees
      invariant forall i | 0 <= i < a :: nominees[i] in done
      invariant forall r | r in effects :: effects[r] == if r in done then LastEffects(rows, r) else map[]
    {
      var r := nominees[a];
      var m := EffectsOf(effects[r], rows, r);
      OverriddenKeys(effects[r], LastEffects(rows, r));
      effects := effects[r := m];
      done := done + {r};
      a := a + 1;
    }
  }

  // ------------------------------------------------------------- recalculation

  /** `total_adjustments[x]`: the removed players' entries for key `x`, summed. */
  function TotalEffect(effects: map<Cand, EffectMap>, names: seq<Cand>, x: Option<Cand>): int
    requires forall n | n in names :: n in effects
  {
    if names == [] then 0 else TotalEffect(effects, names[..|names| - 1], x) + Get(effects[names[|names| - 1]], x)
  }

  /** The table with each player's total adjustment added; players and order unchanged. */
  function EffectCredit(t: seq<Entry>, effects: map<Cand, EffectMap>, names: seq<Cand>): (u: seq<Entry>)
    requires forall n | n in names :: n in effects
    ensures |u| == |t| && Players(u) == Players(t)
    ensures forall i | 0 <= i < |t| :: u[i].player == t[i].player && u[i].points == t[i].points + TotalEffect(effects, names, Some(t[i].player))
  {
    var u := seq(|t|, i requires 0 <= i < |t| => Entry(t[i].player, t[i].points + TotalEffect(effects, names, Some(t[i].player))));
    assert Players(u) == Players(t);
    u
  }

  /**
   * `remove_and_recalculate_optimized` as written: `None` where a removed
   * player has no effect map (a `KeyError`); otherwise the credited table
   * without the removed rows, in its original order (the sorted copy is
   * discarded) and indexed by player.
   */
  function OptimizedRemoval(t: seq<Entry>, effects: map<Cand, EffectMap>, names: seq<Cand>): Option<seq<Entry>>
  {
    if forall n | n in names :: n in effects then Some(Drop(EffectCredit(t, effects, names), names)) else None
  }

  /** The loops over the removed players and their maps' items, building `total_adjustments`. */
  method SumEffects(effects: map<Cand, EffectMap>, names: seq<Cand>) returns (ok: bool, total: EffectMap)
    ensures ok <==> forall n | n in names :: n in effects
    ensures ok ==> forall x :: Get(total, x) == TotalEffect(effects, names, x)
  {
    total := map[];
    var a := 0;
    while a < |names|
      invariant 0 <= a <= |names|
      invariant forall n | n in names[..a] :: n in effects
      invariant forall x :: Get(total, x) == TotalEffect(effects, names[..a], x)
    {
      assert names[..a + 1] == names[..a] + [names[a]];
      assert names[..a + 1][..a] == names[..a];
      if names[a] !in effects {
        return false, total;
      }
      var m := effects[names[a]];
      var ks := m.Keys;
      ghost var total0 := total;
      while ks != {}
        invariant ks <= m.Keys
        invariant forall x :: Get(total, x) == Get(total0, x) + (if x in m && x !in ks then m[x] else 0)
        decreases |ks|
      {
        var k :| k in ks;
        total := total[k := Get(total, k) + m[k]];
        ks := ks - {k};
      }
      a := a + 1;
    }
    assert names[..a] == names;
    return true, total;
  }

  /** Applying the totals: each key that is a listed player adds to its rows; other keys are ignored. */
  method ApplyTotals(t0: seq<Entry>, total: EffectMap) returns (t: seq<Entry>)
    ensures |t| == |t0| && forall i | 0 <= i < |t0| ::
      t[i].player == t0[i].player && t[i].points == t0[i].points + Get(total, Some(t0[i].player))
  {
    t := t0;
    var ks := total.Keys;
    while ks != {}
      invariant ks <= total.Keys
      invariant |t| == |t0| && Players(t) == Players(t0)
      invariant forall i | 0 <= i < |t| ::
        t[i].player == t0[i].player &&
        t[i].points == t0[i].points + (if Some(t0[i].player) in total && Some(t0[i].player) !in ks then total[Some(t0[i].player)] else 0)
      decreases |ks|
    {
      var k :| k in ks;
      match k {
        case None =>
        case Some(p) =>
          if p in Players(t) {
            t := AddPoints(t, p, total[k]);
          } else {
            forall i | 0 <= i < |t| ensures t0[i].player != p {
              assert Players(t)[i] == t0[i].player;
            }
          }
      }
      ks := ks - {k};
    }
  }

  method RemoveAndRecalculateOptimized(t0: seq<Entry>, names: seq<Cand>, effects: map<Cand, EffectMap>) returns (r: Option<seq<Entry>>)
    ensures r == OptimizedRemoval(t0, effects, names)
  {
    var ok, total := SumEffects(effects, names);
    if !ok {
      return None;
    }
    var t := ApplyTotals(t0, total);
    assert t == EffectCredit(t0, effects, names);
    return Some(Drop(t, names));
  }

  // ------------------------------------------------------------------ search

  /**
   * The lookups of one removal set against the returned table: a missing
   * effect map raises; otherwise the first `['Player']` lookup on the
   * player-indexed table raises, and with no target ranks the empty target
   * lists agree.
   */
  function IndexedAttempt(nt: Option<seq<Entry>>, targetRanks: seq<nat>): (o: Outcome)
    ensures !o.Paradox?
    ensures o.NoParadox? <==> nt.Some? && targetRanks == []
  {
    if nt.None? || targetRanks != [] then LookupFailed else NoParadox
  }

  /**
   * `detect_IIA_specific` as written: the effects are precomputed for the
   * nominees, every removal set is tried, and every attempt either raises
   * and is skipped or finds the empty target lists equal, so no row is ever
   * reported.
   */
  method DetectIIASpecific(t: seq<Entry>, rows: seq<Cells>, nominees: seq<Cand>, targetRanks: seq<nat>, removalAmount: nat, maxRank: int)
    returns (out: seq<IIARecord>)
    requires forall i | 0 <= i < |targetRanks| :: 1 <= targetRanks[i] <= |t|
    requires forall cells | cells in rows :: |cells| == MaxRanks
    ensures out == []
  {
    var targets := AtRanks(t, targetRanks);
    var combos := Combinations(Eligible(t, targets, maxRank), removalAmount);
    var effects := PreprocessRemovalEffects(rows, nominees);
    out := [];
    var i := 0;
    while i < |combos|
      invariant 0 <= i <= |combos|
      invariant out == []
    {
      var nt := RemoveAndRecalculateOptimized(t, combos[i], effects);
      var o := IndexedAttempt(nt, targetRanks);
      match o {
        case Paradox(_) =>
          assert false;
        case _ =>
      }
      i := i + 1;
    }
  }

  // ---------------------------------------------------------------- properties

  /** On a repeat-free full row the cells between `k` and `j` hold `p` once if it lies there. */
  lemma {:induction false} HitsBetweenFull(b: Ballot, k: nat, j: nat, p: Cand)
    requires Distinct(b) && j <= |b|
    ensures HitsBetween(Full(b), k, j, Some(p)) == if p in b && k < IndexOf(b, p) < j then 1 else 0
    decreases j
  {
    if j > k + 1 {
      HitsBetweenFull(b, k, j - 1, p);
      if b[j - 1] == p {
        IndexOfAt(b, j - 1);
      }
    }
  }

  /** On a repeat-free full row a removed player's counts are 1 exactly for the players after it. */
  lemma RowEffectFull(b: Ballot, r: Cand, c: Cand)
    requires Distinct(b)
    ensures Some(c) in RowEffect(Full(b), r) <==> Follows(b, r, c)
    ensures Follows(b, r, c) ==> RowEffect(Full(b), r)[Some(c)] == 1
  {
    FullCellIndex(b, r);
    if r in b {
      var k := IndexOf(b, r);
      var cells := Full(b);
      HitsBetweenFull(b, k, |b|, c);
      if Some(c) in cells[k + 1..] {
        var i :| k + 1 <= i < |b| && cells[i] == Some(c);
        IndexOfAt(b, i);
      }
      if Follows(b, r, c) {
        assert cells[IndexOf(b, c)] == Some(c);
        assert cells[k + 1..][IndexOf(b, c) - k - 1] == Some(c);
      }
    }
  }

  /** Some ballot ranks `c` after `r`. */
  predicate FollowsOnSome(ballots: seq<Ballot>, r: Cand, c: Cand)
  {
    exists i | 0 <= i < |ballots| :: Follows(ballots[i], r, c)
  }

  lemma FollowsOnSomeSnoc(ballots: seq<Ballot>, r: Cand, c: Cand)
    requires ballots != []
    ensures var n := |ballots| - 1;
      FollowsOnSome(ballots, r, c) <==> FollowsOnSome(ballots[..n], r, c) || Follows(ballots[n], r, c)
  {
    var n := |ballots| - 1;
    if FollowsOnSome(ballots[..n], r, c) {
      var i :| 0 <= i < n && Follows(ballots[..n][i], r, c);
      assert Follows(ballots[i], r, c);
    }
    if FollowsOnSome(ballots, r, c) {
      var i :| 0 <= i < |ballots| && Follows(ballots[i], r, c);
      if i < n {
        assert Follows(ballots[..n][i], r, c);
      }
    }
  }

  /**
   * What the stored effect is on full repeat-free rows: 1 when some ballot
   * ranks `c` after `r`, 0 otherwise; a presence flag, not a count.
   */
  lemma {:induction false} LastEffectsPresence(ballots: seq<Ballot>, r: Cand, c: Cand)
    requires forall b | b in ballots :: Distinct(b)
    ensures Get(LastEffects(FullRows(ballots), r), Some(c)) == if FollowsOnSome(ballots, r, c) then 1 else 0
  {
    if ballots != [] {
      var n := |ballots| - 1;
      assert FullRows(ballots)[..n] == FullRows(ballots[..n]);
      assert forall b | b in ballots[..n] :: b in ballots;
      LastEffectsPresence(ballots[..n], r, c);
      assert ballots[n] in ballots;
      RowEffectFull(ballots[n], r, c);
      FollowsOnSomeSnoc(ballots, r, c);
    }
  }

  /** The intended sum counts the ballots on which `c` follows `r`: the unit effect. */
  lemma {:induction false} SummedIsEffectCount(ballots: seq<Ballot>, r: Cand, c: Cand)
    requires forall b | b in ballots :: Distinct(b)
    ensures SummedEffects(FullRows(ballots), r, Some(c)) == EffectCount(ballots, r, c)
  {
    if ballots != [] {
      var n := |ballots| - 1;
      assert FullRows(ballots)[..n] == FullRows(ballots[..n]);
      assert forall b | b in ballots[..n] :: b in ballots;
      SummedIsEffectCount(ballots[..n], r, c);
      assert ballots[n] in ballots;
      RowEffectFull(ballots[n], r, c);
    }
  }

  /**
   * The overwrite loses counts: two copies of a repeat-free ballot store an
   * effect of 1 for the player right after the first, where it follows the
   * first on 2 ballots.
   */
  lemma UpdateOverwrites(b: Ballot)
    requires Distinct(b) && 2 <= |b|
    ensures Get(LastEffects(FullRows([b, b]), b[0]), Some(b[1])) == 1
    ensures EffectCount([b, b], b[0], b[1]) == 2
    ensures SummedEffects(FullRows([b, b]), b[0], Some(b[1])) == 2
  {
    var two := [b, b];
    IndexOfAt(b, 0);
    IndexOfAt(b, 1);
    assert Follows(b, b[0], b[1]);
    assert Follows(two[0], b[0], b[1]);
    assert FollowsOnSome(two, b[0], b[1]);
    LastEffectsPresence(two, b[0], b[1]);
    SummedIsEffectCount(two, b[0], b[1]);
    var none: seq<Ballot> := [];
    assert EffectCount([b], b[0], b[1]) == 1 by {
      assert [b][..0] == none;
    }
    assert EffectCount(two, b[0], b[1]) == 2 by {
      assert two[..1] == [b];
    }
  }

  /** The returned table keeps the original order: no reordering, the removed rows gone. */
  lemma OptimizedKeepsOrder(t: seq<Entry>, effects: map<Cand, EffectMap>, names: seq<Cand>)
    requires OptimizedRemoval(t, effects, names).Some?
    ensures Players(OptimizedRemoval(t, effects, names).value) == Strike(Players(t), names)
  {
    DropPlayers(EffectCredit(t, effects, names), names);
  }

  // ------------------------------------------------------------ corrected form

  /** The intended effect maps: summed counts for every nominee. */
  function SummedMaps(rows: seq<Cells>, nominees: seq<Cand>): (effects: map<Cand, EffectMap>)
    ensures forall r :: r in effects <==> r in nominees
  {
    map r | r in nominees :: map x | x in EffectKeys(rows, r) :: SummedEffects(rows, r, x)
  }

  /** Every key some row counts for `r`. */
  function EffectKeys(rows: seq<Cells>, r: Cand): set<Option<Cand>>
  {
    if rows == [] then {} else EffectKeys(rows[..|rows| - 1], r) + RowEffect(rows[|rows| - 1], r).Keys
  }

  /** Keys no row counts have a zero sum. */
  lemma {:induction false} SummedOutsideKeys(rows: seq<Cells>, r: Cand, x: Option<Cand>)
    requires x !in EffectKeys(rows, r)
    ensures SummedEffects(rows, r, x) == 0
  {
    if rows != [] {
      SummedOutsideKeys(rows[..|rows| - 1], r, x);
    }
  }

  /** The corrected recalculation: summed effects, the removed rows dropped, sorted by points with a player column. */
  function CorrectedRemoval(t: seq<Entry>, rows: seq<Cells>, nominees: seq<Cand>, names: seq<Cand>): Option<seq<Entry>>
  {
    var effects := SummedMaps(rows, nominees);
    if forall n | n in names :: n in effects then Some(SortDesc(Drop(EffectCredit(t, effects, names), names))) else None
  }

  /** A survivor's corrected adjustment is the unit effects of the removal set on it. */
  lemma {:induction false} CorrectedTotal(ballots: seq<Ballot>, nominees: seq<Cand>, names: seq<Cand>, c: Cand)
    requires forall b | b in ballots :: Distinct(b)
    requires forall n | n in names :: n in nominees
    ensures TotalEffect(SummedMaps(FullRows(ballots), nominees), names, Some(c)) == EffectAdjust(ballots, names, c)
  {
    if names != [] {
      var n := names[|names| - 1];
      CorrectedTotal(ballots, nominees, names[..|names| - 1], c);
      SummedIsEffectCount(ballots, n, c);
      if Some(c) !in EffectKeys(FullRows(ballots), n) {
        SummedOutsideKeys(FullRows(ballots), n, Some(c));
      }
    }
  }

  /**
   * The corrected script is exact for unit-gap weights: on full repeat-free
   * ballots, removing nominees, with the table holding each player's
   * positional score, every survivor gets its score on the struck ballots
   * and the result is sorted by points.
   */
  lemma CorrectedRescores(t: seq<Entry>, ballots: seq<Ballot>, nominees: seq<Cand>, names: seq<Cand>, w: seq<int>)
    requires UnitGaps(w) && WellFormed(ballots, w) && Distinct(names)
    requires forall n | n in names :: n in nominees
    requires forall i | 0 <= i < |t| :: t[i].points == Score(ballots, w, t[i].player)
    ensures CorrectedRemoval(t, FullRows(ballots), nominees, names).Some?
    ensures NonIncreasing(CorrectedRemoval(t, FullRows(ballots), nominees, names).value)
    ensures forall e | e in CorrectedRemoval(t, FullRows(ballots), nominees, names).value ::
      e.player !in names && e.points == Score(StrikeAll(ballots, names), w, e.player)
  {
    var effects := SummedMaps(FullRows(ballots), nominees);
    assert forall n | n in names :: n in effects;
    var d := Drop(EffectCredit(t, effects, names), names);
    SortDescProps(d);
    SortDescMembers(d);
    forall e | e in SortDesc(d) ensures e.player !in names && e.points == Score(StrikeAll(ballots, names), w, e.player) {
      CorrectedRow(t, ballots, nominees, names, w, e);
    }
  }

  /** A row kept by the corrected removal holds the survivor's score on the struck ballots. */
  lemma CorrectedRow(t: seq<Entry>, ballots: seq<Ballot>, nominees: seq<Cand>, names: seq<Cand>, w: seq<int>, e: Entry)
    requires UnitGaps(w) && WellFormed(ballots, w) && Distinct(names)
    requires forall n | n in names :: n in nominees
    requires forall i | 0 <= i < |t| :: t[i].points == Score(ballots, w, t[i].player)
    requires forall n | n in names :: n in SummedMaps(FullRows(ballots), nominees)
    requires e in Drop(EffectCredit(t, SummedMaps(FullRows(ballots), nominees), names), names)
    ensures e.player !in names && e.points == Score(StrikeAll(ballots, names), w, e.player)
  {
    var c := EffectCredit(t, SummedMaps(FullRows(ballots), nominees), names);
    var i :| 0 <= i < |c| && c[i] == e;
    CorrectedEntry(t, ballots, nominees, names, w, i);
  }

  lemma CorrectedEntry(t: seq<Entry>, ballots: seq<Ballot>, nominees: seq<Cand>, names: seq<Cand>, w: seq<int>, i: nat)
    requires UnitGaps(w) && WellFormed(ballots, w) && Distinct(names)
    requires forall n | n in names :: n in nominees
    requires i < |t| && t[i].player !in names && t[i].points == Score(ballots, w, t[i].player)
    ensures EffectCredit(t, SummedMaps(FullRows(ballots), nominees), names)[i].points == Score(StrikeAll(ballots, names), w, t[i].player)
  {
    var p := t[i].player;
    CorrectedTotal(ballots, nominees, names, p);
    EffectsAreExact(ballots, names, p, w);
    StrikeScore(ballots, names, w, p);
  }
}
