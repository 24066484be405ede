/**
 * Positional (Borda) scoring of the ballot file.
 *
 * A line of the file carries the year and league in its first two columns and
 * the voter's choices from the sixth column on; only the first ten choice
 * cells are read. The choice at 0-based rank `i` earns `weights[i]`; an empty
 * cell earns nothing and creates no score entry. Scores are kept in a
 * dictionary whose keys are ordered by first appearance, and the result is
 * that dictionary sorted by points, descending and stable.
 */
module Positional {
  import opened Wrappers
  import opened Ballots
  import opened Ranking

  /** One line of the ballot file; `cells` are the columns from the sixth on, `None` for an empty cell. */
  datatype Row = Row(year: string, league: string, cells: seq<Option<Cand>>)

  /** `row[5:15]`: the ten choice columns. */
  const MaxRanks := 10

  /** The choices read from a row: at most the first ten cells. */
  function Choices(row: Row): (c: seq<Option<Cand>>)
    ensures |c| <= MaxRanks && |c| <= |row.cells| && c == row.cells[..|c|]
    ensures |row.cells| <= MaxRanks ==> c == row.cells
  {
    if |row.cells| <= MaxRanks then row.cells else row.cells[..MaxRanks]
  }

  /** `str(n)` for a natural number. */
  function DecimalString(n: nat): string
  {
    if n < 10 then ["0123456789"[n]] else DecimalString(n / 10) + ["0123456789"[n % 10]]
  }

  /** A row contributes when its year field is `str(year)` and its league field is `league`. */
  predicate Contributes(row: Row, year: nat, league: string)
  {
    row.year == DecimalString(year) && row.league == league
  }

  /** Points `p` earns from a list of choice cells. */
  function CellPoints(cells: seq<Option<Cand>>, w: seq<int>, p: Cand): int
    requires |cells| <= |w|
  {
    if cells == [] then 0
    else CellPoints(cells[..|cells| - 1], w, p) + (if cells[|cells| - 1] == Some(p) then w[|cells| - 1] else 0)
  }

  /** The Borda score of `p`: its points over all contributing rows. */
  function Total(rows: seq<Row>, w: seq<int>, year: nat, league: string, p: Cand): int
    requires |w| >= MaxRanks
  {
    if rows == [] then 0
    else
      var last := rows[|rows| - 1];
      Total(rows[..|rows| - 1], w, year, league, p)
        + (if Contributes(last, year, league) then CellPoints(Choices(last), w, p) else 0)
  }

  /** `seen` extended by the players of `cells` it does not hold yet, in cell order. */
  function AddCells(seen: seq<Cand>, cells: seq<Option<Cand>>): (s: seq<Cand>)
    ensures Distinct(seen) ==> Distinct(s)
    ensures |seen| <= |s| && s[..|seen|] == seen
    ensures forall p :: p in s <==> p in seen || Some(p) in cells
  {
    if cells == [] then seen
    else
      var init := cells[..|cells| - 1];
      assert cells == init + [cells[|cells| - 1]];
      var s := AddCells(seen, init);
      match cells[|cells| - 1]
      case Some(p) => if p in s then s else s + [p]
      case None => s
  }

  /** The keys of the score dictionary in insertion order: every player of a contributing row, by first appearance. */
  function Seen(rows: seq<Row>, year: nat, league: string): (s: seq<Cand>)
    ensures Distinct(s)
  {
    if rows == [] then []
    else
      var s := Seen(rows[..|rows| - 1], year, league);
      var last := rows[|rows| - 1];
      if Contributes(last, year, league) then AddCells(s, Choices(last)) else s
  }

  /** The unsorted score table: one row per seen player, in insertion order. */
  function Tabulate(players: seq<Cand>, rows: seq<Row>, w: seq<int>, year: nat, league: string): (t: seq<Entry>)
    requires |w| >= MaxRanks
    ensures Players(t) == players
    ensures forall i | 0 <= i < |t| :: t[i].points == Total(rows, w, year, league, players[i])
  {
    if players == [] then []
    else
      var n := |players| - 1;
      Tabulate(players[..n], rows, w, year, league) + [Entry(players[n], Total(rows, w, year, league, players[n]))]
  }

  /** The published result: the score table sorted by points, descending, ties in first-appearance order. */
  function BordaResult(rows: seq<Row>, w: seq<int>, year: nat, league: string): seq<Entry>
    requires |w| >= MaxRanks
  {
    SortDesc(Tabulate(Seen(rows, year, league), rows, w, year, league))
  }

  // ------------------------------------------------------------------ lemmas

  /** A player has a score entry iff some contributing row names it among its ten choices. */
  lemma {:induction false} SeenMembers(rows: seq<Row>, year: nat, league: string, p: Cand)
    ensures p in Seen(rows, year, league) <==>
      exists i | 0 <= i < |rows| :: Contributes(rows[i], year, league) && Some(p) in Choices(rows[i])
  {
    if p in Seen(rows, year, league) {
      var i := SeenSound(rows, year, league, p);
    }
    forall i | 0 <= i < |rows| && Contributes(rows[i], year, league) && Some(p) in Choices(rows[i])
      ensures p in Seen(rows, year, league)
    {
      SeenComplete(rows, year, league, p, i);
    }
  }

  /** Every seen player comes from a contributing row. */
  lemma {:induction false} SeenSound(rows: seq<Row>, year: nat, league: string, p: Cand) returns (i: nat)
    requires p in Seen(rows, year, league)
    ensures i < |rows| && Contributes(rows[i], year, league) && Some(p) in Choices(rows[i])
  {
    var n := |rows| - 1;
    if p in Seen(rows[..n], year, league) {
      i := SeenSound(rows[..n], year, league, p);
      assert rows[..n][i] == rows[i];
    } else {
      i := n;
    }
  }

  /** Every player a contributing row names is seen. */
  lemma {:induction false} SeenComplete(rows: seq<Row>, year: nat, league: string, p: Cand, i: nat)
    requires i < |rows| && Contributes(rows[i], year, league) && Some(p) in Choices(rows[i])
    ensures p in Seen(rows, year, league)
  {
    var n := |rows| - 1;
    if i < n {
      assert rows[..n][i] == rows[i];
      SeenComplete(rows[..n], year, league, p, i);
    }
  }

  lemma {:induction false} CellPointsAbsent(cells: seq<Option<Cand>>, w: seq<int>, p: Cand)
    requires |cells| <= |w| && Some(p) !in cells
    ensures CellPoints(cells, w, p) == 0
  {
    if cells != [] {
      CellPointsAbsent(cells[..|cells| - 1], w, p);
    }
  }

  /** A player nobody names has no points. */
  lemma {:induction false} UnseenTotal(rows: seq<Row>, w: seq<int>, year: nat, league: string, p: Cand)
    requires |w| >= MaxRanks && p !in Seen(rows, year, league)
    ensures Total(rows, w, year, league, p) == 0
  {
    if rows != [] {
      var n := |rows| - 1;
      var last := rows[n];
      UnseenTotal(rows[..n], w, year, league, p);
      if Contributes(last, year, league) {
        CellPointsAbsent(Choices(last), w, p);
      }
    }
  }

  /** The result is ordered by points, lists every named player once, carries each player's Borda score, and keeps ties in first-appearance order. */
  lemma BordaResultProps(rows: seq<Row>, w: seq<int>, year: nat, league: string)
    requires |w| >= MaxRanks
    ensures var t := BordaResult(rows, w, year, league);
      && NonIncreasing(t)
      && multiset(Players(t)) == multiset(Seen(rows, year, league))
      && (forall e | e in t :: e.points == Total(rows, w, year, league, e.player))
      && (forall v :: WithPoints(t, v) == WithPoints(Tabulate(Seen(rows, year, league), rows, w, year, league), v))
  {
    var u := Tabulate(Seen(rows, year, league), rows, w, year, league);
    var t := SortDesc(u);
    SortDescProps(u);
    forall v ensures WithPoints(t, v) == WithPoints(u, v) {
      SortDescStable(u, v);
    }
    SortDescPlayers(u);
    forall e | e in t ensures e.points == Total(rows, w, year, league, e.player) {
      assert e in multiset(u);
    }
  }

  // ---------------------------------------------------------- total points

  /** The weights at the occupied ranks of a list of cells. */
  function OccupiedWeight(cells: seq<Option<Cand>>, w: seq<int>): int
    requires |cells| <= |w|
  {
    if cells == [] then 0
    else OccupiedWeight(cells[..|cells| - 1], w) + (if cells[|cells| - 1].Some? then w[|cells| - 1] else 0)
  }

  /** The occupied weight of every contributing row. */
  function BallotWeight(rows: seq<Row>, w: seq<int>, year: nat, league: string): int
    requires |w| >= MaxRanks
  {
    if rows == [] then 0
    else
      var last := rows[|rows| - 1];
      BallotWeight(rows[..|rows| - 1], w, year, league)
        + (if Contributes(last, year, league) then OccupiedWeight(Choices(last), w) else 0)
  }

  /** Σ over `players` of their points from `cells`. */
  function SumCellPoints(players: seq<Cand>, cells: seq<Option<Cand>>, w: seq<int>): int
    requires |cells| <= |w|
  {
    if players == [] then 0
    else SumCellPoints(players[..|players| - 1], cells, w) + CellPoints(cells, w, players[|players| - 1])
  }

  /** Σ over `players` of their Borda scores. */
  function SumTotals(players: seq<Cand>, rows: seq<Row>, w: seq<int>, year: nat, league: string): int
    requires |w| >= MaxRanks
  {
    if players == [] then 0
    else SumTotals(players[..|players| - 1], rows, w, year, league) + Total(rows, w, year, league, players[|players| - 1])
  }

  /** Σ over distinct `players` of a term that only `q` receives. */
  function Indicator(players: seq<Cand>, q: Cand, v: int): int
  {
    if players == [] then 0
    else Indicator(players[..|players| - 1], q, v) + (if players[|players| - 1] == q then v else 0)
  }

  lemma {:induction false} IndicatorSum(players: seq<Cand>, q: Cand, v: int)
    requires Distinct(players)
    ensures Indicator(players, q, v) == if q in players then v else 0
  {
    if players != [] {
      var n := |players| - 1;
      assert players == players[..n] + [players[n]];
      IndicatorSum(players[..n], q, v);
    }
  }

  lemma {:induction false} SumCellPointsSnoc(players: seq<Cand>, cells: seq<Option<Cand>>, x: Option<Cand>, w: seq<int>)
    requires |cells| + 1 <= |w|
    ensures SumCellPoints(players, cells + [x], w)
         == SumCellPoints(players, cells, w) + Indicator(players, if x.Some? then x.value else 0, if x.Some? then w[|cells|] else 0)
  {
    if players != [] {
      var n := |players| - 1;
      SumCellPointsSnoc(players[..n], cells, x, w);
      assert (cells + [x])[..|cells|] == cells;
    }
  }

  /** Splitting the players' points by cell: the players holding every named cell share out exactly the occupied weight. */
  lemma {:induction false} SumCellPointsAll(players: seq<Cand>, cells: seq<Option<Cand>>, w: seq<int>)
    requires |cells| <= |w| && Distinct(players)
    requires forall p | Some(p) in cells :: p in players
    ensures SumCellPoints(players, cells, w) == OccupiedWeight(cells, w)
  {
    if cells == [] {
      SumCellPointsEmpty(players, w);
    } else {
      var n := |cells| - 1;
      var x := cells[n];
      assert cells == cells[..n] + [x];
      SumCellPointsAll(players, cells[..n], w);
      SumCellPointsSnoc(players, cells[..n], x, w);
      IndicatorSum(players, if x.Some? then x.value else 0, if x.Some? then w[n] else 0);
    }
  }

  lemma {:induction false} SumCellPointsEmpty(players: seq<Cand>, w: seq<int>)
    ensures SumCellPoints(players, [], w) == 0
  {
    if players != [] {
      SumCellPointsEmpty(players[..|players| - 1], w);
    }
  }

  lemma {:induction false} SumTotalsSnoc(players: seq<Cand>, rows: seq<Row>, row: Row, w: seq<int>, year: nat, league: string)
    requires |w| >= MaxRanks
    ensures SumTotals(players, rows + [row], w, year, league)
         == SumTotals(players, rows, w, year, league)
            + (if Contributes(row, year, league) then SumCellPoints(players, Choices(row), w) else 0)
  {
    if players != [] {
      SumTotalsSnoc(players[..|players| - 1], rows, row, w, year, league);
      assert (rows + [row])[..|rows|] == rows;
    }
  }

  lemma {:induction false} SumTotalsEmpty(players: seq<Cand>, w: seq<int>, year: nat, league: string)
    requires |w| >= MaxRanks
    ensures SumTotals(players, [], w, year, league) == 0
  {
    if players != [] {
      SumTotalsEmpty(players[..|players| - 1], w, year, league);
    }
  }

  /** Σ of the Borda scores of any set of players covering every named player is the occupied weight of every contributing ballot. */
  lemma {:induction false} SumTotalsAll(players: seq<Cand>, rows: seq<Row>, w: seq<int>, year: nat, league: string)
    requires |w| >= MaxRanks && Distinct(players)
    requires forall p | p in Seen(rows, year, league) :: p in players
    ensures SumTotals(players, rows, w, year, league) == BallotWeight(rows, w, year, league)
  {
    if rows == [] {
      SumTotalsEmpty(players, w, year, league);
    } else {
      var n := |rows| - 1;
      var row := rows[n];
      assert rows == rows[..n] + [row];
      assert forall p | p in Seen(rows[..n], year, league) :: p in players by {
        forall p | p in Seen(rows[..n], year, league) ensures p in players {
          if Contributes(row, year, league) {
            assert p in AddCells(Seen(rows[..n], year, league), Choices(row));
          }
        }
      }
      SumTotalsAll(players, rows[..n], w, year, league);
      SumTotalsSnoc(players, rows[..n], row, w, year, league);
      if Contributes(row, year, league) {
        forall p | Some(p) in Choices(row) ensures p in players {
          assert p in AddCells(Seen(rows[..n], year, league), Choices(row));
        }
        SumCellPointsAll(players, Choices(row), w);
      }
    }
  }

  lemma {:induction false} TabulateSum(players: seq<Cand>, rows: seq<Row>, w: seq<int>, year: nat, league: string)
    requires |w| >= MaxRanks
    ensures SumPoints(Tabulate(players, rows, w, year, league)) == SumTotals(players, rows, w, year, league)
  {
    if players != [] {
      var n := |players| - 1;
      TabulateSum(players[..n], rows, w, year, league);
      var t := Tabulate(players, rows, w, year, league);
      assert t[..n] == Tabulate(players[..n], rows, w, year, league);
    }
  }

  /** The scores in the result add up to the weight of the occupied ranks of every contributing ballot. */
  lemma TotalPoints(rows: seq<Row>, w: seq<int>, year: nat, league: string)
    requires |w| >= MaxRanks
    ensures SumPoints(BordaResult(rows, w, year, league)) == BallotWeight(rows, w, year, league)
  {
    var players := Seen(rows, year, league);
    SortDescSum(Tabulate(players, rows, w, year, league));
    TabulateSum(players, rows, w, year, league);
    SumTotalsAll(players, rows, w, year, league);
  }

  /** The integer weights of the baseball scorer. */
  const MvpWeights: seq<int> := [14, 9, 8, 7, 6, 5, 4, 3, 2, 1]

  /** A ballot filling all ten ranks is worth 59 points under those weights. */
  lemma FullBallotWeight(cells: seq<Option<Cand>>)
    requires |cells| == MaxRanks && forall i | 0 <= i < |cells| :: cells[i].Some?
    ensures OccupiedWeight(cells, MvpWeights) == 59
  {
    OccupiedAllSome(cells, MvpWeights);
    var w := MvpWeights;
    assert w[..10] == w;
    assert SumInts(w[..1]) == 14;
    assert SumInts(w[..2]) == 23 by { assert w[..2][..1] == w[..1]; }
    assert SumInts(w[..3]) == 31 by { assert w[..3][..2] == w[..2]; }
    assert SumInts(w[..4]) == 38 by { assert w[..4][..3] == w[..3]; }
    assert SumInts(w[..5]) == 44 by { assert w[..5][..4] == w[..4]; }
    assert SumInts(w[..6]) == 49 by { assert w[..6][..5] == w[..5]; }
    assert SumInts(w[..7]) == 53 by { assert w[..7][..6] == w[..6]; }
    assert SumInts(w[..8]) == 56 by { assert w[..8][..7] == w[..7]; }
    assert SumInts(w[..9]) == 58 by { assert w[..9][..8] == w[..8]; }
    assert w[..10][..9] == w[..9];
  }

  function SumInts(s: seq<int>): int
  {
    if s == [] then 0 else SumInts(s[..|s| - 1]) + s[|s| - 1]
  }

  /** With every cell occupied, the occupied weight is the sum of the leading weights. */
  lemma {:induction false} OccupiedAllSome(cells: seq<Option<Cand>>, w: seq<int>)
    requires |cells| <= |w| && forall i | 0 <= i < |cells| :: cells[i].Some?
    ensures OccupiedWeight(cells, w) == SumInts(w[..|cells|])
  {
    if cells != [] {
      var n := |cells| - 1;
      OccupiedAllSome(cells[..n], w);
      assert w[..n + 1][..n] == w[..n];
    }
  }
}
