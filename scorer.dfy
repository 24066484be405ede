/**
 * The scoring loops themselves: a dictionary of scores incremented cell by
 * cell, its keys kept in insertion order, then sorted; and the per-player
 * breakdown that accumulates a running total, the list of terms added and a
 * count of how often each weight was earned.
 */
module Scorer {
  import opened Wrappers
  import opened Ballots
  import opened Ranking
  import opened Positional

  /** The dictionary `scores` has exactly the keys listed in `order`. */
  ghost predicate KeysInOrder(scores: map<Cand, int>, order: seq<Cand>)
  {
    Distinct(order) && forall p :: p in scores <==> p in order
  }

  /** The inner loop over one row's choice cells: `borda_scores[player] += weights[i]` for each occupied cell. */
  method ScoreCells(scores0: map<Cand, int>, order0: seq<Cand>, cells: seq<Option<Cand>>, w: seq<int>)
    returns (scores: map<Cand, int>, order: seq<Cand>)
    requires |cells| <= |w| && KeysInOrder(scores0, order0)
    ensures KeysInOrder(scores, order)
    ensures order == AddCells(order0, cells)
    ensures forall p :: Get(scores, p) == Get(scores0, p) + CellPoints(cells, w, p)
  {
    scores, order := scores0, order0;
    var i := 0;
    while i < |cells|
      invariant 0 <= i <= |cells|
      invariant KeysInOrder(scores, order)
      invariant order == AddCells(order0, cells[..i])
      invariant forall p :: Get(scores, p) == Get(scores0, p) + CellPoints(cells[..i], w, p)
    {
      CellsSnoc(order0, cells, w, i);
      scores, order := ScoreCell(scores, order, cells[i], w[i]);
      i := i + 1;
    }
    assert cells[..i] == cells;
  }

  /** One cell: an occupied cell adds its weight to its player, creating the key if needed. */
  method ScoreCell(scores0: map<Cand, int>, order0: seq<Cand>, cell: Option<Cand>, v: int)
    returns (scores: map<Cand, int>, order: seq<Cand>)
    requires KeysInOrder(scores0, order0)
    ensures KeysInOrder(scores, order)
    ensures order == match cell case Some(p) => (if p in order0 then order0 else order0 + [p]) case None => order0
    ensures forall p: Cand :: Get(scores, p) == Get(scores0, p) + (if cell == Some(p) then v else 0)
  {
    scores, order := scores0, order0;
    match cell {
      case Some(p) =>
        if p !in scores {
          order := order + [p];
        }
        scores := scores[p := Get(scores, p) + v];
      case None =>
    }
  }

  /** The cell prefix grown by one cell, for both the key order and the points. */
  lemma CellsSnoc(seen: seq<Cand>, cells: seq<Option<Cand>>, w: seq<int>, i: nat)
    requires i < |cells| <= |w|
    ensures AddCells(seen, cells[..i + 1]) ==
      var s := AddCells(seen, cells[..i]);
      match cells[i] case Some(p) => (if p in s then s else s + [p]) case None => s
    ensures forall p: Cand :: CellPoints(cells[..i + 1], w, p) == CellPoints(cells[..i], w, p) + (if cells[i] == Some(p) then w[i] else 0)
  {
    assert cells[..i + 1][..i] == cells[..i];
  }

  /** `scores.items()`: the (key, value) pairs in key insertion order. */
  function Items(order: seq<Cand>, scores: map<Cand, int>): seq<Entry>
    requires forall p | p in order :: p in scores
  {
    if order == [] then []
    else Items(order[..|order| - 1], scores) + [Entry(order[|order| - 1], scores[order[|order| - 1]])]
  }

  lemma {:induction false} ItemsAreTabulate(order: seq<Cand>, scores: map<Cand, int>, rows: seq<Row>, w: seq<int>, year: nat, league: string)
    requires |w| >= MaxRanks
    requires forall p | p in order :: p in scores
    requires forall p :: Get(scores, p) == Total(rows, w, year, league, p)
    ensures Items(order, scores) == Tabulate(order, rows, w, year, league)
  {
    if order != [] {
      ItemsAreTabulate(order[..|order| - 1], scores, rows, w, year, league);
    }
  }

  /**
   * Scores every player named in the contributing rows and returns the table
   * sorted by points, descending; ties stay in the order in which the players
   * were first met.
   */
  method BordaMvpSpecific(rows: seq<Row>, w: seq<int>, year: nat, league: string) returns (sorted: seq<Entry>)
    requires |w| >= MaxRanks
    ensures sorted == BordaResult(rows, w, year, league)
    ensures NonIncreasing(sorted)
    ensures forall e | e in sorted :: e.points == Total(rows, w, year, league, e.player)
    ensures multiset(Players(sorted)) == multiset(Seen(rows, year, league))
  {
    var scores: map<Cand, int> := map[];
    var order: seq<Cand> := [];
    var r := 0;
    while r < |rows|
      invariant 0 <= r <= |rows|
      invariant KeysInOrder(scores, order)
      invariant order == Seen(rows[..r], year, league)
      invariant forall p :: Get(scores, p) == Total(rows[..r], w, year, league, p)
    {
      var row := rows[r];
      assert rows[..r + 1][..r] == rows[..r];
      if row.year == DecimalString(year) && row.league == league {
        scores, order := ScoreCells(scores, order, Choices(row), w);
      }
      r := r + 1;
    }
    assert rows[..r] == rows;
    ItemsAreTabulate(order, scores, rows, w, year, league);
    sorted := SortDesc(Items(order, scores));
    BordaResultProps(rows, w, year, league);
  }

  /** Σ of `k * counts[k]` over the keys in `keys`. */
  function WeightedSum(keys: seq<int>, counts: map<int, nat>): int
  {
    if keys == [] then 0
    else
      var k := keys[|keys| - 1];
      WeightedSum(keys[..|keys| - 1], counts) + k * (if k in counts then counts[k] else 0)
  }

  /** Bumping the count of a listed key adds that key once to the weighted sum. */
  lemma {:induction false} WeightedSumBump(keys: seq<int>, counts: map<int, nat>, k: int)
    requires Distinct(keys) && k in keys && k in counts
    ensures WeightedSum(keys, counts[k := counts[k] + 1]) == WeightedSum(keys, counts) + k
  {
    var n := |keys| - 1;
    if keys[n] == k {
      WeightedSumOther(keys[..n], counts, k, counts[k] + 1);
    } else {
      assert k in keys[..n] by {
        var j :| 0 <= j < |keys| && keys[j] == k;
        assert j != n;
        assert keys[..n][j] == k;
      }
      WeightedSumBump(keys[..n], counts, k);
    }
  }

  /** Changing the count of an unlisted key leaves the weighted sum alone. */
  lemma {:induction false} WeightedSumOther(keys: seq<int>, counts: map<int, nat>, k: int, v: nat)
    requires k !in keys
    ensures WeightedSum(keys, counts[k := v]) == WeightedSum(keys, counts)
  {
    if keys != [] {
      WeightedSumOther(keys[..|keys| - 1], counts, k, v);
    }
  }

  /**
   * The debug breakdown for one player: the running total, the terms of the
   * `"w + w + ..."` string in order, and how many times each weight was
   * earned, with its keys in insertion order.
   */
  method BordaMvpDebug(rows: seq<Row>, w: seq<int>, year: nat, league: string, player: Cand)
    returns (output: int, terms: seq<int>, weightCount: map<int, nat>, countOrder: seq<int>)
    requires |w| >= MaxRanks
    ensures output == Total(rows, w, year, league, player)
    ensures output == SumInts(terms)
    ensures Distinct(countOrder) && forall k :: k in weightCount <==> k in countOrder
    ensures output == WeightedSum(countOrder, weightCount)
  {
    output, terms, weightCount, countOrder := 0, [], map[], [];
    var r := 0;
    while r < |rows|
      invariant 0 <= r <= |rows|
      invariant output == Total(rows[..r], w, year, league, player) == SumInts(terms)
      invariant Distinct(countOrder) && forall k :: k in weightCount <==> k in countOrder
      invariant output == WeightedSum(countOrder, weightCount)
    {
      var row := rows[r];
      assert rows[..r + 1][..r] == rows[..r];
      if row.year == DecimalString(year) && row.league == league {
        output, terms, weightCount, countOrder := DebugCells(Choices(row), w, player, output, terms, weightCount, countOrder);
      }
      r := r + 1;
    }
    assert rows[..r] == rows;
  }

  /** The inner loop of the debug breakdown: one row's ten cells. */
  method DebugCells(cells: seq<Option<Cand>>, w: seq<int>, player: Cand,
                    output0: int, terms0: seq<int>, weightCount0: map<int, nat>, countOrder0: seq<int>)
    returns (output: int, terms: seq<int>, weightCount: map<int, nat>, countOrder: seq<int>)
    requires |cells| <= |w|
    requires output0 == SumInts(terms0)
    requires Distinct(countOrder0) && forall k :: k in weightCount0 <==> k in countOrder0
    requires output0 == WeightedSum(countOrder0, weightCount0)
    ensures output == output0 + CellPoints(cells, w, player) == SumInts(terms)
    ensures Distinct(countOrder) && forall k :: k in weightCount <==> k in countOrder
    ensures output == WeightedSum(countOrder, weightCount)
  {
    output, terms, weightCount, countOrder := output0, terms0, weightCount0, countOrder0;
    var i := 0;
    while i < |cells|
      invariant 0 <= i <= |cells|
      invariant output == output0 + CellPoints(cells[..i], w, player) == SumInts(terms)
      invariant Distinct(countOrder) && forall k :: k in weightCount <==> k in countOrder
      invariant output == WeightedSum(countOrder, weightCount)
    {
      assert cells[..i + 1][..i] == cells[..i];
      if cells[i] == Some(player) {
        output, terms, weightCount, countOrder := DebugTerm(w[i], output, terms, weightCount, countOrder);
      }
      i := i + 1;
    }
    assert cells[..i] == cells;
  }

  /** One earned weight `v`: a new term, and its count bumped or started. */
  method DebugTerm(v: int, output0: int, terms0: seq<int>, weightCount0: map<int, nat>, countOrder0: seq<int>)
    returns (output: int, terms: seq<int>, weightCount: map<int, nat>, countOrder: seq<int>)
    requires output0 == SumInts(terms0)
    requires Distinct(countOrder0) && forall k :: k in weightCount0 <==> k in countOrder0
    requires output0 == WeightedSum(countOrder0, weightCount0)
    ensures output == output0 + v == SumInts(terms) && terms == terms0 + [v]
    ensures Distinct(countOrder) && forall k :: k in weightCount <==> k in countOrder
    ensures output == WeightedSum(countOrder, weightCount)
  {
    output := output0 + v;
    terms := terms0 + [v];
    SumIntsSnoc(terms0, v);
    if v in weightCount0 {
      WeightedSumBump(countOrder0, weightCount0, v);
      weightCount, countOrder := weightCount0[v := weightCount0[v] + 1], countOrder0;
    } else {
      countOrder := countOrder0 + [v];
      weightCount := weightCount0[v := 1];
      NewWeight(countOrder0, weightCount0, v);
    }
  }

  /** A weight met for the first time: listed last, counted once. */
  lemma NewWeight(keys: seq<int>, counts: map<int, nat>, v: int)
    requires Distinct(keys) && (forall k :: k in counts <==> k in keys) && v !in counts
    ensures Distinct(keys + [v]) && forall k :: k in counts[v := 1] <==> k in keys + [v]
    ensures WeightedSum(keys + [v], counts[v := 1]) == WeightedSum(keys, counts) + v
  {
    assert v !in keys;
    DistinctSnoc(keys, v);
    WeightedSumOther(keys, counts, v, 1);
    WeightedSumSnoc(keys, counts[v := 1], v);
  }

  lemma DistinctSnoc(keys: seq<int>, v: int)
    requires Distinct(keys) && v !in keys
    ensures Distinct(keys + [v])
  {
    var s := keys + [v];
    forall i, j | 0 <= i < j < |s| ensures s[i] != s[j] {
      assert s[i] == keys[i];
      if j == |keys| {
        assert keys[i] in keys;
      } else {
        assert s[j] == keys[j];
      }
    }
  }

  lemma SumIntsSnoc(s: seq<int>, v: int)
    ensures SumInts(s + [v]) == SumInts(s) + v
  {
    assert (s + [v])[..|s|] == s;
  }

  lemma WeightedSumSnoc(keys: seq<int>, counts: map<int, nat>, k: int)
    ensures WeightedSum(keys + [k], counts) == WeightedSum(keys, counts) + k * (if k in counts then counts[k] else 0)
  {
    assert (keys + [k])[..|keys|] == keys;
  }
}
