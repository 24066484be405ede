/**
 * The first removal script: delete one player from every ballot row of a
 * contest and credit each player ranked after it on a row with the value of
 * moving up one rank, updating the results table in place, then drop the
 * player's row. The table keeps its order; it is not re-sorted.
 *
 * The weights are the fixed 14, 9, 8, ..., 1 vector. A row whose cells after
 * the deleted player include an empty cell, or a player the table does not
 * list, makes the in-place update raise; the model returns `None` then.
 */
module IIASingle {
  import opened Wrappers
  import opened Ballots
  import opened Ranking
  import opened Removal
  import opened Positional
  import opened BallotRows

  /** Every cell after position `k` names a player of the table. */
  predicate CellsListed(cells: Cells, k: nat, t: seq<Entry>)
  {
    forall i | k < i < |cells| :: cells[i].Some? && cells[i].value in Players(t)
  }

  /** No lookup of the update raises: on every row naming `name`, the cells after it name listed players. */
  predicate RowsListed(rows: seq<Cells>, name: Cand, t: seq<Entry>)
  {
    forall cells | cells in rows && Some(name) in cells :: CellsListed(cells, CellIndex(cells, name), t)
  }

  /**
   * What the script returns: the table with the credits added and the
   * removed player's row dropped, in table order; `None` where it raises.
   */
  function SingleRemoval(t: seq<Entry>, rows: seq<Cells>, name: Cand, w: seq<int>): (r: Option<seq<Entry>>)
  {
    if RowsListed(rows, name, t) then Some(Drop(Credit(t, rows, [name], w), [name])) else None
  }

  /**
   * The inner loop over one row: each cell after the removed player's, at
   * position `j`, gains `w[j - 1] - w[j]`; `ok` is false where a cell is
   * empty or names an unlisted player.
   */
  method CreditRow(t0: seq<Entry>, cells: Cells, k: nat, w: seq<int>) returns (ok: bool, t: seq<Entry>)
    requires k < |cells| == MaxRanks
    ensures ok <==> CellsListed(cells, k, t0)
    ensures ok ==> |t| == |t0| && forall i | 0 <= i < |t| ::
      t[i].player == t0[i].player && t[i].points == t0[i].points + GainBetween(cells, k, |cells|, Some(t0[i].player), w)
  {
    t := t0;
    for j := k + 1 to MaxRanks
      invariant forall i | k < i < j :: cells[i].Some? && cells[i].value in Players(t0)
      invariant t == Credited(t0, cells, k, j, w)
    {
      var listedHere;
      listedHere, t := CreditCell(t0, t, cells, k, j, w);
      if !listedHere {
        return false, t;
      }
    }
    CreditRowDone(t0, cells, k, w);
    return true, t;
  }

  /** One pass of the inner loop: the cell at `j` is credited, or it is empty or unlisted and the update raises. */
  method CreditCell(t0: seq<Entry>, t: seq<Entry>, cells: Cells, k: nat, j: nat, w: seq<int>) returns (ok: bool, t': seq<Entry>)
    requires k < j < |cells|
    requires forall i | k < i < j :: cells[i].Some? && cells[i].value in Players(t0)
    requires t == Credited(t0, cells, k, j, w)
    ensures ok ==> forall i | k < i < j + 1 :: cells[i].Some? && cells[i].value in Players(t0)
    ensures ok ==> t' == Credited(t0, cells, k, j + 1, w)
    ensures !ok ==> !CellsListed(cells, k, t0)
  {
    if cells[j].None? || cells[j].value !in Players(t0) {
      return false, t;
    }
    CreditedSnoc(t0, cells, k, j, w);
    return true, AddPoints(t, cells[j].value, RankDiff(w, j - 1));
  }

  /** Once every cell after `k` has been credited, the row was fully listed and each player gained its cells' credits. */
  lemma CreditRowDone(t0: seq<Entry>, cells: Cells, k: nat, w: seq<int>)
    requires k < |cells| == MaxRanks
    requires forall i | k < i < MaxRanks :: cells[i].Some? && cells[i].value in Players(t0)
    ensures CellsListed(cells, k, t0)
    ensures var t := Credited(t0, cells, k, MaxRanks, w);
      |t| == |t0| && forall i | 0 <= i < |t| ::
        t[i].player == t0[i].player && t[i].points == t0[i].points + GainBetween(cells, k, |cells|, Some(t0[i].player), w)
  {
    CreditedPoints(t0, cells, k, MaxRanks, w);
  }

  /**
   * The table after crediting the cells strictly between `k` and `j`, one
   * `loc +=` per cell (the loop stops at an empty cell, so none is credited).
   */
  function Credited(t0: seq<Entry>, cells: Cells, k: nat, j: nat, w: seq<int>): seq<Entry>
    requires k + 1 <= j <= |cells|
    decreases j
  {
    if j == k + 1 then t0
    else
      var prev := Credited(t0, cells, k, j - 1, w);
      if cells[j - 1].Some? then AddPoints(prev, cells[j - 1].value, RankDiff(w, j - 2)) else prev
  }

  /** One more credited cell: the table gains that cell's credit. */
  lemma CreditedSnoc(t0: seq<Entry>, cells: Cells, k: nat, j: nat, w: seq<int>)
    requires k + 1 <= j < |cells| && cells[j].Some?
    ensures Credited(t0, cells, k, j + 1, w) == AddPoints(Credited(t0, cells, k, j, w), cells[j].value, RankDiff(w, j - 1))
  {
  }

  /** Crediting the cells one by one adds to each player the credits of its cells. */
  lemma {:induction false} CreditedPoints(t0: seq<Entry>, cells: Cells, k: nat, j: nat, w: seq<int>)
    requires k + 1 <= j <= |cells|
    requires forall i | k < i < j :: cells[i].Some?
    ensures var t := Credited(t0, cells, k, j, w);
      |t| == |t0| && forall i | 0 <= i < |t| ::
        t[i].player == t0[i].player && t[i].points == t0[i].points + GainBetween(cells, k, j, Some(t0[i].player), w)
    decreases j
  {
    if j > k + 1 {
      CreditedPoints(t0, cells, k, j - 1, w);
      CreditStep(t0, Credited(t0, cells, k, j - 1, w), cells, k, j - 1, cells[j - 1].value, w);
    }
  }

  /** One more cell credited keeps the running totals. */
  lemma CreditStep(t0: seq<Entry>, t: seq<Entry>, cells: Cells, k: nat, j: nat, p: Cand, w: seq<int>)
    requires k + 1 <= j < |cells| && cells[j] == Some(p)
    requires |t| == |t0| && forall i | 0 <= i < |t| ::
      t[i].player == t0[i].player && t[i].points == t0[i].points + GainBetween(cells, k, j, Some(t0[i].player), w)
    ensures var u := AddPoints(t, p, RankDiff(w, j - 1));
      |u| == |t0| && forall i | 0 <= i < |u| ::
        u[i].player == t0[i].player && u[i].points == t0[i].points + GainBetween(cells, k, j + 1, Some(t0[i].player), w)
  {
  }

  /** A single removed player's credits are its credits over the rows. */
  lemma OneName(rows: seq<Cells>, name: Cand, x: Option<Cand>, w: seq<int>)
    ensures NamesGain(rows, [name], x, w) == TotalGain(rows, name, x, w)
  {
    assert [name][..0] == [];
  }

  /** `remove_and_recalculate(league, year, name)` on the loaded ballot rows and results table. */
  method RemoveAndRecalculate(t0: seq<Entry>, rows: seq<Cells>, name: Cand) returns (r: Option<seq<Entry>>)
    requires forall cells | cells in rows :: |cells| == MaxRanks
    ensures r == SingleRemoval(t0, rows, name, MvpWeights)
  {
    var w := MvpWeights;
    var t := t0;
    for n := 0 to |rows|
      invariant RowsListed(rows[..n], name, t0)
      invariant Totals(t0, t, rows[..n], name, w)
    {
      var ok, t' := CreditNextRow(t0, t, rows, n, name, w);
      if !ok {
        return None;
      }
      t := t';
    }
    assert rows[..|rows|] == rows;
    CreditedIsCredit(t0, t, rows, name, w);
    if name in Players(t) {
      t := Drop(t, [name]);
    } else {
      DropAbsent(t, [name]);
    }
    return Some(t);
  }

  /** Every player's running total is its starting points plus its credits over `rows`. */
  predicate Totals(t0: seq<Entry>, t: seq<Entry>, rows: seq<Cells>, name: Cand, w: seq<int>)
  {
    |t| == |t0| && forall i | 0 <= i < |t| ::
      t[i].player == t0[i].player && t[i].points == t0[i].points + TotalGain(rows, name, Some(t0[i].player), w)
  }

  /** One pass of the outer loop: the row at `n` is credited, or the update raises. */
  method CreditNextRow(t0: seq<Entry>, t: seq<Entry>, rows: seq<Cells>, n: nat, name: Cand, w: seq<int>)
    returns (ok: bool, t': seq<Entry>)
    requires n < |rows| && forall cells | cells in rows :: |cells| == MaxRanks
    requires RowsListed(rows[..n], name, t0) && Totals(t0, t, rows[..n], name, w)
    ensures ok ==> RowsListed(rows[..n + 1], name, t0) && Totals(t0, t', rows[..n + 1], name, w)
    ensures !ok ==> !RowsListed(rows, name, t0)
  {
    var cells := rows[n];
    assert rows[..n + 1] == rows[..n] + [cells];
    assert cells in rows;
    t' := t;
    ok := true;
    if Some(name) in cells {
      ok, t' := CreditRow(t, cells, CellIndex(cells, name), w);
      if !ok {
        UnlistedRow(rows, n, name, t0, t);
      }
    }
  }

  /** A row naming `name` whose later cells are not all listed makes the whole update raise. */
  lemma UnlistedRow(rows: seq<Cells>, n: nat, name: Cand, t0: seq<Entry>, t: seq<Entry>)
    requires n < |rows| && Some(name) in rows[n]
    requires |t| == |t0| && forall i | 0 <= i < |t| :: t[i].player == t0[i].player
    requires !CellsListed(rows[n], CellIndex(rows[n], name), t)
    ensures !RowsListed(rows, name, t0)
  {
    assert Players(t) == Players(t0);
    assert rows[n] in rows;
  }

  /** The running totals after every row are the credits of the single removal. */
  lemma CreditedIsCredit(t0: seq<Entry>, t: seq<Entry>, rows: seq<Cells>, name: Cand, w: seq<int>)
    requires |t| == |t0| && forall i | 0 <= i < |t| ::
      t[i].player == t0[i].player && t[i].points == t0[i].points + TotalGain(rows, name, Some(t0[i].player), w)
    ensures t == Credit(t0, rows, [name], w)
  {
    forall x ensures NamesGain(rows, [name], x, w) == TotalGain(rows, name, x, w) {
      OneName(rows, name, x, w);
    }
  }

  // ---------------------------------------------------------------- properties

  /**
   * On full repeat-free ballots whose players the table lists, with the
   * table holding each player's positional score, the script returns every
   * other player with exactly the score it gets when the ballots are
   * re-scored with the removed player struck out, in table order.
   */
  lemma SingleRemovalRescores(t: seq<Entry>, ballots: seq<Ballot>, name: Cand, w: seq<int>)
    requires forall b | b in ballots :: Distinct(b) && |b| <= |w|
    requires forall b, p | b in ballots && p in b :: p in Players(t)
    requires forall i | 0 <= i < |t| :: t[i].points == Score(ballots, w, t[i].player)
    ensures SingleRemoval(t, FullRows(ballots), name, w).Some?
    ensures Players(SingleRemoval(t, FullRows(ballots), name, w).value) == Strike(Players(t), [name])
    ensures forall e | e in SingleRemoval(t, FullRows(ballots), name, w).value ::
      e.player != name && e.points == Score(StrikeAll(ballots, [name]), w, e.player)
  {
    var rows := FullRows(ballots);
    FullRowsListed(t, ballots, name);
    var c := Credit(t, rows, [name], w);
    DropPlayers(c, [name]);
    forall e | e in Drop(c, [name]) ensures e.player != name && e.points == Score(StrikeAll(ballots, [name]), w, e.player) {
      RescoredRow(t, ballots, name, w, e);
    }
  }

  /** A row kept by the single removal holds the survivor's score on the struck ballots. */
  lemma RescoredRow(t: seq<Entry>, ballots: seq<Ballot>, name: Cand, w: seq<int>, e: Entry)
    requires forall b | b in ballots :: Distinct(b) && |b| <= |w|
    requires forall i | 0 <= i < |t| :: t[i].points == Score(ballots, w, t[i].player)
    requires e in Drop(Credit(t, FullRows(ballots), [name], w), [name])
    ensures e.player != name && e.points == Score(StrikeAll(ballots, [name]), w, e.player)
  {
    var c := Credit(t, FullRows(ballots), [name], w);
    var i :| 0 <= i < |c| && c[i] == e;
    RescoredEntry(t, ballots, name, w, i);
  }

  /** Full rows whose players the table lists never make the update raise. */
  lemma FullRowsListed(t: seq<Entry>, ballots: seq<Ballot>, name: Cand)
    requires forall b, p | b in ballots && p in b :: p in Players(t)
    ensures RowsListed(FullRows(ballots), name, t)
  {
    var rows := FullRows(ballots);
    forall cells: Cells | cells in rows && Some(name) in cells ensures CellsListed(cells, CellIndex(cells, name), t) {
      var n :| 0 <= n < |rows| && rows[n] == cells;
      assert ballots[n] in ballots;
      forall i: nat | CellIndex(cells, name) < i < |cells| ensures cells[i].Some? && cells[i].value in Players(t) {
        assert ballots[n][i] in ballots[n];
      }
    }
  }

  lemma RescoredEntry(t: seq<Entry>, ballots: seq<Ballot>, name: Cand, w: seq<int>, i: nat)
    requires forall b | b in ballots :: Distinct(b) && |b| <= |w|
    requires i < |t| && t[i].player != name && t[i].points == Score(ballots, w, t[i].player)
    ensures Credit(t, FullRows(ballots), [name], w)[i].points == Score(StrikeAll(ballots, [name]), w, t[i].player)
  {
    var p := t[i].player;
    NamesGainIsDeltaAdjust(ballots, [name], p, w);
    assert [name][..0] == [];
    SingleDeltaIsExact(ballots, name, p, w);
    StrikeScore(ballots, [name], w, p);
  }

  /** The removed player is gone and every other row stays, in order, even when the table does not list it. */
  lemma SingleRemovalDrops(t: seq<Entry>, rows: seq<Cells>, name: Cand, w: seq<int>)
    requires SingleRemoval(t, rows, name, w).Some?
    ensures Players(SingleRemoval(t, rows, name, w).value) == Strike(Players(t), [name])
    ensures name !in Players(SingleRemoval(t, rows, name, w).value)
  {
    DropPlayers(Credit(t, rows, [name], w), [name]);
  }
}
