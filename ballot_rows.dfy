/**
 * Ballot rows as the removal scripts read them: the ten rank cells of one
 * row of a ballot file, best first, where an empty cell is `None`.
 *
 * Deleting a player from a row moves every cell after it up one rank; the
 * single-removal scripts credit a cell at rank `i` with `rank_diff[i - 1]`
 * for that move. The sums below collect those credits per row, per removed
 * player and over a removal set, for any key a cell can hold (an empty cell
 * included, since the scripts use the cell's value as a dictionary key).
 */
module BallotRows {
  import opened Wrappers
  import opened Ballots
  import opened Ranking
  import opened Removal

  type Cells = seq<Option<Cand>>

  /** `list(row.values).index(name)`, counted from the first rank cell. */
  function CellIndex(cells: Cells, name: Cand): (k: nat)
    requires Some(name) in cells
    ensures k < |cells| && cells[k] == Some(name)
    ensures forall j | 0 <= j < k :: cells[j] != Some(name)
  {
    if cells[0] == Some(name) then 0 else 1 + CellIndex(cells[1..], name)
  }

  /** The credits to key `x` from the cells strictly between position `k` and position `j`. */
  function GainBetween(cells: Cells, k: nat, j: nat, x: Option<Cand>, w: seq<int>): int
    requires j <= |cells|
  {
    if j <= k + 1 then 0
    else GainBetween(cells, k, j - 1, x, w) + (if cells[j - 1] == x then RankDiff(w, j - 2) else 0)
  }

  /** The number of cells strictly between position `k` and position `j` holding `x`. */
  function HitsBetween(cells: Cells, k: nat, j: nat, x: Option<Cand>): nat
    requires j <= |cells|
  {
    if j <= k + 1 then 0
    else HitsBetween(cells, k, j - 1, x) + (if cells[j - 1] == x then 1 else 0)
  }

  /** The credits to `x` when `name` is deleted from one row (nothing when the row does not name it). */
  function RowGain(cells: Cells, name: Cand, x: Option<Cand>, w: seq<int>): int
  {
    if Some(name) in cells then GainBetween(cells, CellIndex(cells, name), |cells|, x, w) else 0
  }

  function RowHits(cells: Cells, name: Cand, x: Option<Cand>): nat
  {
    if Some(name) in cells then HitsBetween(cells, CellIndex(cells, name), |cells|, x) else 0
  }

  /** The credits to `x` when `name` is deleted, over every row. */
  function TotalGain(rows: seq<Cells>, name: Cand, x: Option<Cand>, w: seq<int>): int
  {
    if rows == [] then 0 else TotalGain(rows[..|rows| - 1], name, x, w) + RowGain(rows[|rows| - 1], name, x, w)
  }

  function TotalHits(rows: seq<Cells>, name: Cand, x: Option<Cand>): nat
  {
    if rows == [] then 0 else TotalHits(rows[..|rows| - 1], name, x) + RowHits(rows[|rows| - 1], name, x)
  }

  /** The credits to `x` summed over the removal set, each player's computed on the original rows. */
  function NamesGain(rows: seq<Cells>, names: seq<Cand>, x: Option<Cand>, w: seq<int>): int
  {
    if names == [] then 0 else NamesGain(rows, names[..|names| - 1], x, w) + TotalGain(rows, names[|names| - 1], x, w)
  }

  function NamesHits(rows: seq<Cells>, names: seq<Cand>, x: Option<Cand>): nat
  {
    if names == [] then 0 else NamesHits(rows, names[..|names| - 1], x) + TotalHits(rows, names[|names| - 1], x)
  }

  /** The table with `extra(p)` added to the points of every row of player `p`; players and order unchanged. */
  function Credit(t: seq<Entry>, rows: seq<Cells>, names: seq<Cand>, w: seq<int>): (u: seq<Entry>)
    ensures |u| == |t| && Players(u) == Players(t)
    ensures forall i | 0 <= i < |t| :: u[i].player == t[i].player && u[i].points == t[i].points + NamesGain(rows, names, Some(t[i].player), w)
  {
    var u := seq(|t|, i requires 0 <= i < |t| => Entry(t[i].player, t[i].points + NamesGain(rows, names, Some(t[i].player), w)));
    assert Players(u) == Players(t);
    u
  }

  /** Without rows there is nothing to credit. */
  lemma {:induction false} NamesGainNoRows(names: seq<Cand>, x: Option<Cand>, w: seq<int>)
    ensures NamesGain([], names, x, w) == 0
  {
    if names != [] {
      NamesGainNoRows(names[..|names| - 1], x, w);
    }
  }

  /** With no ballot rows nothing is credited: the table comes back unchanged. */
  lemma CreditNoRows(t: seq<Entry>, names: seq<Cand>, w: seq<int>)
    ensures Credit(t, [], names, w) == t
  {
    forall x ensures NamesGain([], names, x, w) == 0 {
      NamesGainNoRows(names, x, w);
    }
  }

  // ------------------------------------------------------------ full ballots

  /** A ballot with every rank filled, as a row. */
  function Full(b: Ballot): (cells: Cells)
    ensures |cells| == |b| && forall i | 0 <= i < |b| :: cells[i] == Some(b[i])
  {
    if b == [] then [] else Full(b[..|b| - 1]) + [Some(b[|b| - 1])]
  }

  function FullRows(ballots: seq<Ballot>): (rows: seq<Cells>)
    ensures |rows| == |ballots| && forall i | 0 <= i < |ballots| :: rows[i] == Full(ballots[i])
  {
    if ballots == [] then [] else FullRows(ballots[..|ballots| - 1]) + [Full(ballots[|ballots| - 1])]
  }

  /** On a full row, finding a player's cell is finding it on the ballot. */
  lemma FullCellIndex(b: Ballot, name: Cand)
    ensures Some(name) in Full(b) <==> name in b
    ensures name in b ==> CellIndex(Full(b), name) == IndexOf(b, name)
  {
    if name in b {
      var k := IndexOf(b, name);
      assert Full(b)[k] == Some(name);
      var j := CellIndex(Full(b), name);
      assert b[j] == name;
    }
    if Some(name) in Full(b) {
      var i :| 0 <= i < |b| && Full(b)[i] == Some(name);
      assert b[i] == name;
    }
  }

  /** On a repeat-free row the credits to `p` between `k` and `j` are those of its one cell, if it lies there. */
  lemma {:induction false} GainBetweenFull(b: Ballot, k: nat, j: nat, p: Cand, w: seq<int>)
    requires Distinct(b) && j <= |b|
    ensures GainBetween(Full(b), k, j, Some(p), w) ==
      if p in b && k < IndexOf(b, p) < j then RankDiff(w, IndexOf(b, p) - 1) else 0
    decreases j
  {
    if j > k + 1 {
      GainBetweenFull(b, k, j - 1, p, w);
      if b[j - 1] == p {
        IndexOfAt(b, j - 1);
      }
    }
  }

  /** On a full repeat-free row, a deletion credits `p` with exactly its single-removal delta. */
  lemma RowGainIsDelta(b: Ballot, name: Cand, p: Cand, w: seq<int>)
    requires Distinct(b)
    ensures RowGain(Full(b), name, Some(p), w) == DeltaGain(b, name, p, w)
  {
    FullCellIndex(b, name);
    if name in b {
      var k := IndexOf(b, name);
      assert RowGain(Full(b), name, Some(p), w) == GainBetween(Full(b), k, |b|, Some(p), w);
      GainBetweenFull(b, k, |b|, p, w);
    } else {
      assert RowGain(Full(b), name, Some(p), w) == 0;
    }
  }

  /** Over full repeat-free rows, a deletion credits `p` with its single-removal deltas. */
  lemma {:induction false} TotalGainIsDeltaOver(ballots: seq<Ballot>, name: Cand, p: Cand, w: seq<int>)
    requires forall b | b in ballots :: Distinct(b)
    ensures TotalGain(FullRows(ballots), name, Some(p), w) == DeltaOver(ballots, name, p, w)
  {
    if ballots != [] {
      var n := |ballots| - 1;
      assert FullRows(ballots)[..n] == FullRows(ballots[..n]);
      assert forall b | b in ballots[..n] :: b in ballots;
      TotalGainIsDeltaOver(ballots[..n], name, p, w);
      assert ballots[n] in ballots;
      RowGainIsDelta(ballots[n], name, p, w);
    }
  }

  /** Over full repeat-free rows, a removal set credits `p` with the summed single-removal deltas. */
  lemma {:induction false} NamesGainIsDeltaAdjust(ballots: seq<Ballot>, names: seq<Cand>, p: Cand, w: seq<int>)
    requires forall b | b in ballots :: Distinct(b)
    ensures NamesGain(FullRows(ballots), names, Some(p), w) == DeltaAdjust(ballots, names, p, w)
  {
    if names != [] {
      NamesGainIsDeltaAdjust(ballots, names[..|names| - 1], p, w);
      TotalGainIsDeltaOver(ballots, names[|names| - 1], p, w);
    }
  }

  /** A full row has no empty cell to hit. */
  lemma {:induction false} FullHitsNoEmpty(b: Ballot, k: nat, j: nat)
    requires j <= |b|
    ensures HitsBetween(Full(b), k, j, None) == 0
    decreases j
  {
    if j > k + 1 {
      FullHitsNoEmpty(b, k, j - 1);
    }
  }

  lemma {:induction false} FullRowsNoEmpty(ballots: seq<Ballot>, names: seq<Cand>)
    ensures NamesHits(FullRows(ballots), names, None) == 0
  {
    if names != [] {
      FullRowsNoEmpty(ballots, names[..|names| - 1]);
      FullTotalNoEmpty(ballots, names[|names| - 1]);
    }
  }

  lemma {:induction false} FullTotalNoEmpty(ballots: seq<Ballot>, name: Cand)
    ensures TotalHits(FullRows(ballots), name, None) == 0
  {
    if ballots != [] {
      var n := |ballots| - 1;
      assert FullRows(ballots)[..n] == FullRows(ballots[..n]);
      FullTotalNoEmpty(ballots[..n], name);
      var cells := Full(ballots[n]);
      if Some(name) in cells {
        FullHitsNoEmpty(ballots[n], CellIndex(cells, name), |cells|);
      }
    }
  }
}
