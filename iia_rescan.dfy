/**
 * The rescan removal script: on every ballot row the positions of the
 * removed players are struck, and each remaining cell at position `i` is
 * credited with `w[idx] - w[i]`, `idx` counting the remaining cells before
 * it, so it earns the weight of its new rank. The sums, kept in a
 * dictionary keyed by cell value, are applied to the results table, the
 * removed rows dropped and the table sorted by points.
 *
 * A remaining empty cell becomes a key that is not a string, and applying
 * the sums raises. The search around it has no exception handler, so one
 * raising removal set aborts the whole search.
 */
module IIARescan {
  import opened Wrappers
  import opened Ballots
  import opened Ranking
  import opened Removal
  import opened Positional
  import opened BallotRows
  import opened Search
  import opened IIAParallel

  /** `removed_player_idxs`: the first cell of each removed player the row names. */
  function RemovedIdxs(cells: Cells, names: seq<Cand>): (s: set<nat>)
    ensures forall i | i in s :: i < |cells| && cells[i].Some? && cells[i].value in names
  {
    if names == [] then {}
    else
      var n := names[|names| - 1];
      RemovedIdxs(cells, names[..|names| - 1]) + (if Some(n) in cells then {CellIndex(cells, n)} else {})
  }

  /** The `idx` counter on reaching position `i`: the positions before `i` that are not struck. */
  function Kept(rem: set<nat>, i: nat): (k: nat)
    ensures k <= i
  {
    if i == 0 then 0 else Kept(rem, i - 1) + (if i - 1 in rem then 0 else 1)
  }

  /** The credits to key `x` from the positions of one row before `j`. */
  function RescanUpTo(cells: Cells, rem: set<nat>, j: nat, x: Option<Cand>, w: seq<int>): int
    requires j <= |cells|
  {
    if j == 0 then 0
    else
      var gain := if j - 1 !in rem && cells[j - 1] == x then WeightAt(w, Kept(rem, j - 1)) - WeightAt(w, j - 1) else 0;
      RescanUpTo(cells, rem, j - 1, x, w) + gain
  }

  function RowRescan(cells: Cells, names: seq<Cand>, x: Option<Cand>, w: seq<int>): int
  {
    RescanUpTo(cells, RemovedIdxs(cells, names), |cells|, x, w)
  }

  /** The credits to key `x` over every row. */
  function RescanGain(rows: seq<Cells>, names: seq<Cand>, x: Option<Cand>, w: seq<int>): int
  {
    if rows == [] then 0 else RescanGain(rows[..|rows| - 1], names, x, w) + RowRescan(rows[|rows| - 1], names, x, w)
  }

  /** No cell left on the row is empty. */
  predicate RowClean(cells: Cells, names: seq<Cand>)
  {
    forall i | 0 <= i < |cells| && i !in RemovedIdxs(cells, names) :: cells[i].Some?
  }

  predicate Clean(rows: seq<Cells>, names: seq<Cand>)
  {
    forall cells | cells in rows :: RowClean(cells, names)
  }

  /** The table with each player's rescan credits added; players and order unchanged. */
  function RescanCredit(t: seq<Entry>, rows: seq<Cells>, names: seq<Cand>, w: seq<int>): (u: seq<Entry>)
    ensures |u| == |t| && Players(u) == Players(t)
    ensures forall i | 0 <= i < |t| :: u[i].player == t[i].player && u[i].points == t[i].points + RescanGain(rows, names, Some(t[i].player), w)
  {
    var u := seq(|t|, i requires 0 <= i < |t| => Entry(t[i].player, t[i].points + RescanGain(rows, names, Some(t[i].player), w)));
    assert Players(u) == Players(t);
    u
  }

  /** What the script returns: the credited table without the removed players, sorted by points; `None` where it raises. */
  function RescanRemoval(t: seq<Entry>, rows: seq<Cells>, names: seq<Cand>, w: seq<int>): Option<seq<Entry>>
  {
    if Clean(rows, names) then Some(SortDesc(Drop(RescanCredit(t, rows, names, w), names))) else None
  }

  // ------------------------------------------------------------------ methods

  /** The loop over `names_to_remove` for one row. */
  method StruckPositions(cells: Cells, names: seq<Cand>) returns (rem: set<nat>)
    ensures rem == RemovedIdxs(cells, names)
  {
    rem := {};
    var a := 0;
    while a < |names|
      invariant 0 <= a <= |names|
      invariant rem == RemovedIdxs(cells, names[..a])
    {
      assert names[..a + 1][..a] == names[..a];
      if Some(names[a]) in cells {
        rem := rem + {CellIndex(cells, names[a])};
      }
      a := a + 1;
    }
    assert names[..a] == names;
  }

  /** The loop over the ten positions of one row, with the `idx` counter. */
  method RescanRow(adj0: map<Option<Cand>, int>, keys0: seq<Option<Cand>>, cells: Cells, names: seq<Cand>, w: seq<int>)
    returns (adj: map<Option<Cand>, int>, keys: seq<Option<Cand>>)
    requires |cells| == MaxRanks <= |w| && KeysOf(adj0, keys0)
    ensures KeysOf(adj, keys)
    ensures forall x :: Get(adj, x) == Get(adj0, x) + RowRescan(cells, names, x, w)
    ensures None in adj <==> None in adj0 || !RowClean(cells, names)
  {
    var rem := StruckPositions(cells, names);
    adj, keys := adj0, keys0;
    var idx := 0;
    var i := 0;
    while i < MaxRanks
      invariant 0 <= i <= MaxRanks
      invariant idx == Kept(rem, i)
      invariant KeysOf(adj, keys)
      invariant forall x :: Get(adj, x) == Get(adj0, x) + RescanUpTo(cells, rem, i, x, w)
      invariant None in adj <==> None in adj0 || exists k | 0 <= k < i && k !in rem :: cells[k].None?
    {
      if i !in rem {
        var x := cells[i];
        if x !in adj {
          keys := keys + [x];
        }
        adj := adj[x := Get(adj, x) + (w[idx] - w[i])];
        idx := idx + 1;
      }
      i := i + 1;
    }
  }

  /** The loop over the ballot rows. */
  method RescanRows(rows: seq<Cells>, names: seq<Cand>, w: seq<int>) returns (adj: map<Option<Cand>, int>, keys: seq<Option<Cand>>)
    requires MaxRanks <= |w| && forall cells | cells in rows :: |cells| == MaxRanks
    ensures KeysOf(adj, keys)
    ensures forall x :: Get(adj, x) == RescanGain(rows, names, x, w)
    ensures None in adj <==> !Clean(rows, names)
  {
    adj, keys := map[], [];
    var n := 0;
    while n < |rows|
      invariant 0 <= n <= |rows|
      invariant KeysOf(adj, keys)
      invariant forall x :: Get(adj, x) == RescanGain(rows[..n], names, x, w)
      invariant None in adj <==> !Clean(rows[..n], names)
    {
      var cells := rows[n];
      assert rows[..n + 1] == rows[..n] + [cells];
      assert rows[..n + 1][..n] == rows[..n];
      assert cells in rows;
      adj, keys := RescanRow(adj, keys, cells, names, w);
      n := n + 1;
    }
    assert rows[..n] == rows;
  }

  /** `remove_and_recalculate(league, year, names_to_remove, ballots, borda_results)`; `None` where it raises. */
  method RemoveAndRecalculate(t0: seq<Entry>, rows: seq<Cells>, names: seq<Cand>) returns (r: Option<seq<Entry>>)
    requires forall cells | cells in rows :: |cells| == MaxRanks
    ensures r == RescanRemoval(t0, rows, names, MvpWeights)
  {
    var adj, keys := RescanRows(rows, names, MvpWeights);
    var applied := ApplyCredits(t0, adj, keys);
    if applied.None? {
      return None;
    }
    var t := applied.value;
    assert t == RescanCredit(t0, rows, names, MvpWeights);
    t := Drop(t, names);
    return Some(SortDesc(t));
  }

  /** The recalculated table for each removal set. */
  function RescanTables(t: seq<Entry>, rows: seq<Cells>, combos: seq<seq<Cand>>, w: seq<int>): (ts: seq<Option<seq<Entry>>>)
    ensures |ts| == |combos| && forall i | 0 <= i < |combos| :: ts[i] == RescanRemoval(t, rows, combos[i], w)
  {
    if combos == [] then []
    else
      var n := |combos| - 1;
      RescanTables(t, rows, combos[..n], w) + [RescanRemoval(t, rows, combos[n], w)]
  }

  /**
   * `detect_IIA_specific` of the rescan script: as in the batch script, but
   * without an exception handler, so a removal set that raises aborts the
   * search (`None`).
   */
  method DetectIIASpecific(t: seq<Entry>, rows: seq<Cells>, targetRanks: seq<nat>, removalAmount: nat, maxRank: int)
    returns (out: Option<seq<IIARecord>>)
    requires forall i | 0 <= i < |targetRanks| :: 1 <= targetRanks[i] <= |t|
    requires forall cells | cells in rows :: |cells| == MaxRanks
    ensures var combos := Combinations(Eligible(t, AtRanks(t, targetRanks), maxRank), removalAmount);
      out == CollectStrict(t, RescanTables(t, rows, combos, MvpWeights), combos, targetRanks)
  {
    var targets := AtRanks(t, targetRanks);
    var combos := Combinations(Eligible(t, targets, maxRank), removalAmount);
    out := TryRemovals(t, rows, targetRanks, combos);
  }

  /** The loop of `detect_IIA_specific` over the removal sets; the first that raises ends it. */
  method TryRemovals(t: seq<Entry>, rows: seq<Cells>, targetRanks: seq<nat>, combos: seq<seq<Cand>>) returns (out: Option<seq<IIARecord>>)
    requires forall i | 0 <= i < |targetRanks| :: 1 <= targetRanks[i] <= |t|
    requires forall cells | cells in rows :: |cells| == MaxRanks
    ensures out == CollectStrict(t, RescanTables(t, rows, combos, MvpWeights), combos, targetRanks)
  {
    ghost var tables := RescanTables(t, rows, combos, MvpWeights);
    var found := [];
    for i := 0 to |combos|
      invariant found == Collect(t, tables[..i], combos[..i], targetRanks)
      invariant !AnyFails(t, tables[..i], combos[..i], targetRanks)
    {
      var failed, rec := TryRemoval(t, rows, targetRanks, combos, tables, i);
      if failed {
        return None;
      }
      found := found + rec;
    }
    AllAttempted(t, tables, combos, targetRanks);
    return Some(found);
  }

  /** After the last removal set, the prefixes are the whole lists. */
  lemma AllAttempted(t: seq<Entry>, tables: seq<Option<seq<Entry>>>, combos: seq<seq<Cand>>, targetRanks: seq<nat>)
    requires |tables| == |combos|
    requires forall j | 0 <= j < |targetRanks| :: 1 <= targetRanks[j] <= |t|
    requires !AnyFails(t, tables[..|combos|], combos[..|combos|], targetRanks)
    ensures CollectStrict(t, tables, combos, targetRanks) == Some(Collect(t, tables[..|combos|], combos[..|combos|], targetRanks))
  {
    assert tables[..|combos|] == tables && combos[..|combos|] == combos;
  }

  /** One removal set's attempt on the rescanned table. */
  method TryRemoval(t: seq<Entry>, rows: seq<Cells>, targetRanks: seq<nat>, combos: seq<seq<Cand>>, ghost tables: seq<Option<seq<Entry>>>, i: nat)
    returns (failed: bool, rec: seq<IIARecord>)
    requires forall j | 0 <= j < |targetRanks| :: 1 <= targetRanks[j] <= |t|
    requires forall cells | cells in rows :: |cells| == MaxRanks
    requires i < |combos| && tables == RescanTables(t, rows, combos, MvpWeights)
    requires !AnyFails(t, tables[..i], combos[..i], targetRanks)
    ensures failed ==> AnyFails(t, tables, combos, targetRanks)
    ensures !failed ==> !AnyFails(t, tables[..i + 1], combos[..i + 1], targetRanks)
    ensures !failed ==> Collect(t, tables[..i + 1], combos[..i + 1], targetRanks) == Collect(t, tables[..i], combos[..i], targetRanks) + rec
  {
    var nt := RemoveAndRecalculate(t, rows, combos[i]);
    var o := AttemptStep(t, nt, combos[i], targetRanks);
    failed := o.LookupFailed?;
    if failed {
      FailsAt(t, tables, combos, targetRanks, i);
    } else {
      NoFailSnoc(t, tables, combos, targetRanks, i);
      CollectSnoc(t, tables, combos, targetRanks, i);
    }
    rec := if o.Paradox? then [o.record] else [];
  }

  lemma FailsAt(t: seq<Entry>, tables: seq<Option<seq<Entry>>>, combos: seq<seq<Cand>>, targetRanks: seq<nat>, i: nat)
    requires |tables| == |combos| && i < |combos|
    requires forall j | 0 <= j < |targetRanks| :: 1 <= targetRanks[j] <= |t|
    requires Attempt(t, tables[i], combos[i], targetRanks).LookupFailed?
    ensures AnyFails(t, tables, combos, targetRanks)
  {
  }

  lemma NoFailSnoc(t: seq<Entry>, tables: seq<Option<seq<Entry>>>, combos: seq<seq<Cand>>, targetRanks: seq<nat>, i: nat)
    requires |tables| == |combos| && i < |combos|
    requires forall j | 0 <= j < |targetRanks| :: 1 <= targetRanks[j] <= |t|
    requires !AnyFails(t, tables[..i], combos[..i], targetRanks)
    requires !Attempt(t, tables[i], combos[i], targetRanks).LookupFailed?
    ensures !AnyFails(t, tables[..i + 1], combos[..i + 1], targetRanks)
  {
    var tp, cp := tables[..i + 1], combos[..i + 1];
    forall j | 0 <= j < i + 1 ensures !Attempt(t, tp[j], cp[j], targetRanks).LookupFailed? {
      if j < i {
        assert tp[j] == tables[..i][j] && cp[j] == combos[..i][j];
      }
    }
  }

  // --------------------------------------------------------------- properties

  /** On a full repeat-free row the struck positions are exactly those of removed players. */
  lemma {:induction false} RemovedFull(b: Ballot, names: seq<Cand>, k: nat)
    requires Distinct(b) && k < |b|
    ensures k in RemovedIdxs(Full(b), names) <==> b[k] in names
  {
    if names != [] {
      var n := names[|names| - 1];
      var pre := names[..|names| - 1];
      RemovedFull(b, pre, k);
      assert names == pre + [n];
      FullCellIndex(b, n);
      if n in b {
        IndexOfAt(b, k);
      }
    }
  }

  /** The counter at position `i` of a full row is the number of survivors before it. */
  lemma KeptStrike(b: Ballot, names: seq<Cand>, i: nat)
    requires Distinct(b) && i <= |b|
    ensures Kept(RemovedIdxs(Full(b), names), i) == |Strike(b[..i], names)|
  {
    var rem := RemovedIdxs(Full(b), names);
    forall k | 0 <= k < |b| ensures k in rem <==> b[k] in names {
      RemovedFull(b, names, k);
    }
    KeptCounts(b, names, rem, i);
    StrikeLength(b[..i], names);
  }

  /** A counter skipping exactly the positions of removed players counts the survivors. */
  lemma {:induction false} KeptCounts(b: Ballot, names: seq<Cand>, rem: set<nat>, i: nat)
    requires i <= |b|
    requires forall k {:trigger k in rem} | 0 <= k < |b| :: k in rem <==> b[k] in names
    ensures Kept(rem, i) == i - CountIn(b[..i], names)
  {
    if i > 0 {
      KeptCounts(b, names, rem, i - 1);
      assert b[..i][..i - 1] == b[..i - 1];
    }
  }

  /** On a full repeat-free row the credits to a survivor `p` before `j` are its exact gain, if it lies there. */
  lemma RescanUpToFull(b: Ballot, names: seq<Cand>, j: nat, p: Cand, w: seq<int>)
    requires Distinct(b) && j <= |b| && p !in names
    ensures RescanUpTo(Full(b), RemovedIdxs(Full(b), names), j, Some(p), w) ==
      if p in b && IndexOf(b, p) < j then ExactGain(b, names, p, w) else 0
  {
    var rem := RemovedIdxs(Full(b), names);
    forall k | 0 <= k < |b| ensures k in rem <==> b[k] in names {
      RemovedFull(b, names, k);
    }
    RescanUpToRem(b, names, rem, j, p, w);
  }

  /** The same, for any set skipping exactly the positions of removed players. */
  lemma {:induction false} RescanUpToRem(b: Ballot, names: seq<Cand>, rem: set<nat>, j: nat, p: Cand, w: seq<int>)
    requires Distinct(b) && j <= |b| && p !in names
    requires forall k {:trigger k in rem} | 0 <= k < |b| :: k in rem <==> b[k] in names
    ensures RescanUpTo(Full(b), rem, j, Some(p), w) ==
      if p in b && IndexOf(b, p) < j then ExactGain(b, names, p, w) else 0
  {
    if j > 0 {
      RescanUpToRem(b, names, rem, j - 1, p, w);
      assert Full(b)[j - 1] == Some(b[j - 1]);
      if b[j - 1] == p {
        KeptGainAt(b, names, rem, j - 1, w);
      } else if p in b {
        assert IndexOf(b, p) != j - 1;
      }
    }
  }

  /** The credit at the position of a survivor is its exact gain. */
  lemma KeptGainAt(b: Ballot, names: seq<Cand>, rem: set<nat>, i: nat, w: seq<int>)
    requires Distinct(b) && i < |b| && b[i] !in names
    requires forall k {:trigger k in rem} | 0 <= k < |b| :: k in rem <==> b[k] in names
    ensures i !in rem && IndexOf(b, b[i]) == i
    ensures WeightAt(w, Kept(rem, i)) - WeightAt(w, i) == ExactGain(b, names, b[i], w)
  {
    IndexOfAt(b, i);
    KeptCounts(b, names, rem, i);
    StrikeLength(b[..i], names);
  }

  /** Over full repeat-free rows the rescan credits a survivor with its exact gain. */
  lemma {:induction false} RescanGainIsExact(ballots: seq<Ballot>, names: seq<Cand>, p: Cand, w: seq<int>)
    requires (forall i | 0 <= i < |ballots| :: Distinct(ballots[i])) && p !in names
    ensures RescanGain(FullRows(ballots), names, Some(p), w) == ExactAdjust(ballots, names, p, w)
  {
    if ballots != [] {
      var n := |ballots| - 1;
      assert FullRows(ballots)[..n] == FullRows(ballots[..n]);
      RescanGainIsExact(ballots[..n], names, p, w);
      RescanUpToFull(ballots[n], names, |ballots[n]|, p, w);
    }
  }

  /** Full rows leave no empty cell, so the script never raises on them. */
  lemma FullRowsClean(ballots: seq<Ballot>, names: seq<Cand>)
    ensures Clean(FullRows(ballots), names)
  {
  }

  /**
   * The rescan is exact for any weights: on full repeat-free ballots with
   * the table holding each player's positional score, the recalculated table
   * is sorted by points and holds the survivors with their scores on the
   * ballots with the removed players struck out.
   */
  lemma RescanRescores(t: seq<Entry>, ballots: seq<Ballot>, names: seq<Cand>, w: seq<int>)
    requires forall b | b in ballots :: Distinct(b)
    requires forall i | 0 <= i < |t| :: t[i].points == Score(ballots, w, t[i].player)
    ensures RescanRemoval(t, FullRows(ballots), names, w).Some?
    ensures NonIncreasing(RescanRemoval(t, FullRows(ballots), names, w).value)
    ensures forall e | e in RescanRemoval(t, FullRows(ballots), names, w).value ::
      e.player !in names && e.points == Score(StrikeAll(ballots, names), w, e.player)
  {
    FullRowsClean(ballots, names);
    var d := Drop(RescanCredit(t, FullRows(ballots), names, w), names);
    SortDescProps(d);
    SortDescMembers(d);
    forall e | e in SortDesc(d) ensures e.player !in names && e.points == Score(StrikeAll(ballots, names), w, e.player) {
      RescanKeptRow(t, ballots, names, w, e);
    }
  }

  /** A row kept by the rescan holds the survivor's score on the struck ballots. */
  lemma RescanKeptRow(t: seq<Entry>, ballots: seq<Ballot>, names: seq<Cand>, w: seq<int>, e: Entry)
    requires forall b | b in ballots :: Distinct(b)
    requires forall i | 0 <= i < |t| :: t[i].points == Score(ballots, w, t[i].player)
    requires Clean(FullRows(ballots), names)
    requires e in Drop(RescanCredit(t, FullRows(ballots), names, w), names)
    ensures e.player !in names && e.points == Score(StrikeAll(ballots, names), w, e.player)
  {
    var c := RescanCredit(t, FullRows(ballots), names, w);
    var i :| 0 <= i < |c| && c[i] == e;
    assert forall j | 0 <= j < |ballots| :: Distinct(ballots[j]) by {
      forall j | 0 <= j < |ballots| ensures Distinct(ballots[j]) {
        assert ballots[j] in ballots;
      }
    }
    RescanGainIsExact(ballots, names, e.player, w);
    StrikeScore(ballots, names, w, e.player);
  }

  /** Nothing struck: the counter keeps pace with the position. */
  lemma {:induction false} KeptNone(i: nat)
    ensures Kept({}, i) == i
  {
    if i > 0 {
      KeptNone(i - 1);
    }
  }

  /** An empty removal list credits nothing. */
  lemma {:induction false} RescanNoNames(cells: Cells, j: nat, x: Option<Cand>, w: seq<int>)
    requires j <= |cells|
    ensures RescanUpTo(cells, RemovedIdxs(cells, []), j, x, w) == 0
  {
    if j > 0 {
      RescanNoNames(cells, j - 1, x, w);
      KeptNone(j - 1);
    }
  }

  /** Positions before every struck one keep their rank: no credit. */
  lemma {:induction false} KeptBeforeStruck(rem: set<nat>, i: nat)
    requires forall k | k in rem :: k >= i
    ensures Kept(rem, i) == i
  {
    if i > 0 {
      KeptBeforeStruck(rem, i - 1);
    }
  }

  /** With decreasing weights no credit is negative: the new rank is never worse. */
  lemma {:induction false} RescanNonNegative(cells: Cells, rem: set<nat>, j: nat, x: Option<Cand>, w: seq<int>)
    requires StrictlyDecreasing(w) && j <= |cells| <= |w|
    ensures RescanUpTo(cells, rem, j, x, w) >= 0
  {
    if j > 0 {
      RescanNonNegative(cells, rem, j - 1, x, w);
      WeightMonotone(w, Kept(rem, j - 1), j - 1);
    }
  }

  /**
   * On full ballot rows and a table without repeated players, no removal set
   * raises, so the search never aborts and reports what the skipping search
   * would.
   */
  lemma RescanNeverAborts(t: seq<Entry>, ballots: seq<Ballot>, targetRanks: seq<nat>, k: nat, maxRank: int, w: seq<int>)
    requires forall i | 0 <= i < |targetRanks| :: 1 <= targetRanks[i] <= |t|
    requires Distinct(Players(t))
    ensures var combos := Combinations(Eligible(t, AtRanks(t, targetRanks), maxRank), k);
      CollectStrict(t, RescanTables(t, FullRows(ballots), combos, w), combos, targetRanks) ==
      Some(Collect(t, RescanTables(t, FullRows(ballots), combos, w), combos, targetRanks))
  {
    var combos := Combinations(Eligible(t, AtRanks(t, targetRanks), maxRank), k);
    var tables := RescanTables(t, FullRows(ballots), combos, w);
    forall i | 0 <= i < |combos| ensures !Attempt(t, tables[i], combos[i], targetRanks).LookupFailed? {
      RescanAttempt(t, ballots, targetRanks, k, maxRank, combos[i], w);
    }
  }

  lemma RescanAttempt(t: seq<Entry>, ballots: seq<Ballot>, targetRanks: seq<nat>, k: nat, maxRank: int, combo: seq<Cand>, w: seq<int>)
    requires forall i | 0 <= i < |targetRanks| :: 1 <= targetRanks[i] <= |t|
    requires Distinct(Players(t))
    requires combo in Combinations(Eligible(t, AtRanks(t, targetRanks), maxRank), k)
    ensures !Attempt(t, RescanRemoval(t, FullRows(ballots), combo, w), combo, targetRanks).LookupFailed?
  {
    FullRowsClean(ballots, combo);
    ComboEligible(t, AtRanks(t, targetRanks), maxRank, k, combo);
    var c := RescanCredit(t, FullRows(ballots), combo, w);
    DropSortShape(c, combo);
    StepSucceeds(t, SortDesc(Drop(c, combo)), combo, targetRanks);
  }
}
