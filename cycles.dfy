/**
 * Majority cycles among MVP nominees (`src/baseball/Pairwise/cycle_finder.py`):
 * the pairwise table becomes a lookup by ordered pair, every `cycle_size`
 * combination of nominees is sorted, and it is reported when its ring, in
 * sorted order or reversed, is a cycle of strict pairwise wins.
 */
module Cycles {
  import opened Wrappers
  import opened Ballots
  import opened Pairwise
  import opened Search

  /** `pairwise_dict`: an ordered pair of names to `(A>B, B>A)` as seen from the first name. */
  type Lookup = map<(Cand, Cand), Tally>

  function Swap(t: Tally): Tally
  {
    Tally(t.ba, t.ab)
  }

  /** Both orientations of every row; a later row naming the same two players overwrites an earlier one. */
  function LookupOf(rows: seq<Row>): Lookup
  {
    if rows == [] then map[]
    else
      var r := rows[|rows| - 1];
      LookupOf(rows[..|rows| - 1])[(r.a, r.b) := Tally(r.ab, r.ba)][(r.b, r.a) := Tally(r.ba, r.ab)]
  }

  /** `preprocess_pairwise_data`. */
  method PreprocessPairwiseData(rows: seq<Row>) returns (d: Lookup)
    ensures d == LookupOf(rows)
  {
    d := map[];
    for i := 0 to |rows|
      invariant d == LookupOf(rows[..i])
    {
      var row := rows[i];
      var ab := Tally(row.ab, row.ba);
      d := d[(row.a, row.b) := ab];
      d := d[(row.b, row.a) := Tally(ab.ba, ab.ab)];
      assert rows[..i + 1][..i] == rows[..i];
    }
    assert rows[..|rows|] == rows;
  }

  /** Each ordered pair's entry is the swap of the reverse pair's. */
  ghost predicate Symmetric(d: Lookup)
  {
    forall x, y | (x, y) in d :: (y, x) in d && d[(y, x)] == Swap(d[(x, y)])
  }

  /** A table whose rows each pair two different players gives a symmetric lookup. */
  lemma {:induction false} LookupSymmetric(rows: seq<Row>)
    requires forall i | 0 <= i < |rows| :: rows[i].a != rows[i].b
    ensures Symmetric(LookupOf(rows))
  {
    if rows != [] {
      var n := |rows| - 1;
      var r := rows[n];
      LookupSymmetric(rows[..n]);
      var d0 := LookupOf(rows[..n]);
      var d := LookupOf(rows);
      assert r.a != r.b;
      forall x, y | (x, y) in d ensures (y, x) in d && d[(y, x)] == Swap(d[(x, y)]) {
        if (x, y) != (r.a, r.b) && (x, y) != (r.b, r.a) {
          assert (x, y) in d0;
        }
      }
    }
  }

  /** A pair has an entry exactly when some row names its two players, in either order. */
  lemma {:induction false} LookupMembers(rows: seq<Row>, x: Cand, y: Cand)
    ensures (x, y) in LookupOf(rows) <==> exists i | 0 <= i < |rows| :: (rows[i].a == x && rows[i].b == y) || (rows[i].a == y && rows[i].b == x)
  {
    if rows != [] {
      var n := |rows| - 1;
      LookupMembers(rows[..n], x, y);
      if exists i | 0 <= i < n :: (rows[..n][i].a == x && rows[..n][i].b == y) || (rows[..n][i].a == y && rows[..n][i].b == x) {
        var i :| 0 <= i < n && ((rows[..n][i].a == x && rows[..n][i].b == y) || (rows[..n][i].a == y && rows[..n][i].b == x));
        assert rows[i] == rows[..n][i];
      }
      if exists i | 0 <= i < |rows| :: (rows[i].a == x && rows[i].b == y) || (rows[i].a == y && rows[i].b == x) {
        var i :| 0 <= i < |rows| && ((rows[i].a == x && rows[i].b == y) || (rows[i].a == y && rows[i].b == x));
        if i < n {
          assert rows[..n][i] == rows[i];
        }
      }
    }
  }

  // --------------------------------------------------- the combinations

  predicate Ascending(s: seq<Cand>)
  {
    forall i, j | 0 <= i < j < |s| :: s[i] <= s[j]
  }

  function Insert(x: Cand, s: seq<Cand>): (r: seq<Cand>)
    ensures multiset(r) == multiset(s) + multiset{x}
  {
    if s == [] || x <= s[0] then [x] + s
    else
      assert s == [s[0]] + s[1..];
      [s[0]] + Insert(x, s[1..])
  }

  lemma {:induction false} InsertAscending(x: Cand, s: seq<Cand>)
    requires Ascending(s)
    ensures Ascending(Insert(x, s))
  {
    if s != [] && x > s[0] {
      var t := Insert(x, s[1..]);
      InsertAscending(x, s[1..]);
      InsertAtLeast(x, s[1..], s[0]);
      AscendingCons(s[0], t);
    }
  }

  /** Inserting into a list bounded below by `lo` a value above `lo` keeps the bound. */
  lemma {:induction false} InsertAtLeast(x: Cand, s: seq<Cand>, lo: Cand)
    requires lo <= x && forall i | 0 <= i < |s| :: lo <= s[i]
    ensures forall i | 0 <= i < |Insert(x, s)| :: lo <= Insert(x, s)[i]
  {
    if s != [] && x > s[0] {
      InsertAtLeast(x, s[1..], lo);
      assert Insert(x, s) == [s[0]] + Insert(x, s[1..]);
    }
  }

  lemma AscendingCons(y: Cand, t: seq<Cand>)
    requires Ascending(t) && forall i | 0 <= i < |t| :: y <= t[i]
    ensures Ascending([y] + t)
  {
    var r := [y] + t;
    forall i, j | 0 <= i < j < |r| ensures r[i] <= r[j] {
      assert r[j] == t[j - 1];
      if i > 0 {
        assert r[i] == t[i - 1];
      }
    }
  }

  /** `sorted(combo)`. */
  function SortAsc(s: seq<Cand>): (r: seq<Cand>)
    ensures Ascending(r) && multiset(r) == multiset(s) && |r| == |s|
  {
    if s == [] then []
    else
      assert s == [s[0]] + s[1..];
      var r := Insert(s[0], SortAsc(s[1..]));
      InsertAscending(s[0], SortAsc(s[1..]));
      assert |r| == |multiset(r)|;
      r
  }

  /** Every pair of the combination has an entry; otherwise a lookup raises `KeyError` and the combination is skipped. */
  predicate AllPairsKnown(d: Lookup, c: seq<Cand>)
  {
    forall i, j | 0 <= i < j < |c| :: (c[i], c[j]) in d
  }

  /** The conditions of `cycle_finder` for three, four and five players, on the sorted combination `a, b, c, …`. */
  predicate SourceCondition(d: Lookup, c: seq<Cand>)
    requires 3 <= |c| <= 5 && AllPairsKnown(d, c)
  {
    if |c| == 3 then
      var ab, ac, bc := d[(c[0], c[1])], d[(c[0], c[2])], d[(c[1], c[2])];
      || (ab.ab > ab.ba && bc.ab > bc.ba && ac.ba > ac.ab)
      || (ab.ba > ab.ab && bc.ba > bc.ab && ac.ab > ac.ba)
    else if |c| == 4 then
      var ab, bc, cd, ad := d[(c[0], c[1])], d[(c[1], c[2])], d[(c[2], c[3])], d[(c[0], c[3])];
      || (ab.ab > ab.ba && bc.ab > bc.ba && cd.ab > cd.ba && ad.ba > ad.ab)
      || (ab.ba > ab.ab && bc.ba > bc.ab && cd.ba > cd.ab && ad.ab > ad.ba)
    else
      var ab, bc, cd, de, ae := d[(c[0], c[1])], d[(c[1], c[2])], d[(c[2], c[3])], d[(c[3], c[4])], d[(c[0], c[4])];
      || (ab.ab > ab.ba && bc.ab > bc.ba && cd.ab > cd.ba && de.ab > de.ba && ae.ba > ae.ab)
      || (ab.ba > ab.ab && bc.ba > bc.ab && cd.ba > cd.ab && de.ba > de.ab && ae.ab > ae.ba)
  }

  /** A sorted combination `cycle_finder` reports. */
  predicate Reported(d: Lookup, c: seq<Cand>)
  {
    3 <= |c| <= 5 && AllPairsKnown(d, c) && SourceCondition(d, c)
  }

  // ------------------------------------------------------- as a ring

  /** `x` strictly beats `y` by the entry for `(x, y)`; a tie is no win. */
  predicate Wins(d: Lookup, x: Cand, y: Cand)
  {
    (x, y) in d && d[(x, y)].ab > d[(x, y)].ba
  }

  /** The ring edge leaving the `i`-th player, in sorted order. */
  predicate StepWins(d: Lookup, c: seq<Cand>, i: nat)
    requires i + 1 < |c|
  {
    Wins(d, c[i], c[i + 1])
  }

  /** The ring edge leaving the `i`-th player, in reverse order. */
  predicate StepLoses(d: Lookup, c: seq<Cand>, i: nat)
    requires i + 1 < |c|
  {
    Wins(d, c[i + 1], c[i])
  }

  /** Each player beats the next one around the ring, the last beating the first. */
  predicate ForwardRing(d: Lookup, c: seq<Cand>)
  {
    && |c| >= 2
    && (forall i: nat | i + 1 < |c| :: StepWins(d, c, i))
    && Wins(d, c[|c| - 1], c[0])
  }

  /** Each player beats the previous one around the ring, the first beating the last. */
  predicate BackwardRing(d: Lookup, c: seq<Cand>)
  {
    && |c| >= 2
    && (forall i: nat | i + 1 < |c| :: StepLoses(d, c, i))
    && Wins(d, c[0], c[|c| - 1])
  }

  /** On a symmetric lookup, the source's conditions say: the sorted ring or its reverse is a cycle of strict wins. */
  lemma ReportedIsRing(d: Lookup, c: seq<Cand>)
    requires Symmetric(d)
    ensures Reported(d, c) <==> 3 <= |c| <= 5 && AllPairsKnown(d, c) && (ForwardRing(d, c) || BackwardRing(d, c))
  {
    if 3 <= |c| <= 5 && AllPairsKnown(d, c) {
      var k := |c|;
      assert (c[0], c[k - 1]) in d;
      assert (c[0], c[1]) in d && (c[1], c[2]) in d;
      if k == 3 {
        RingOf3(d, c);
      } else if k == 4 {
        assert (c[2], c[3]) in d;
        RingOf4(d, c);
      } else {
        assert (c[2], c[3]) in d && (c[3], c[4]) in d;
        RingOf5(d, c);
      }
    }
  }

  lemma RingOf3(d: Lookup, c: seq<Cand>)
    requires |c| == 3
    requires (c[0], c[1]) in d && (c[1], c[2]) in d && (c[0], c[2]) in d
    ensures ForwardRing(d, c) <==> StepWins(d, c, 0) && StepWins(d, c, 1) && Wins(d, c[2], c[0])
    ensures BackwardRing(d, c) <==> StepLoses(d, c, 0) && StepLoses(d, c, 1) && Wins(d, c[0], c[2])
  {
  }

  lemma RingOf4(d: Lookup, c: seq<Cand>)
    requires |c| == 4
    requires (c[0], c[1]) in d && (c[1], c[2]) in d && (c[2], c[3]) in d && (c[0], c[3]) in d
    ensures ForwardRing(d, c) <==> StepWins(d, c, 0) && StepWins(d, c, 1) && StepWins(d, c, 2) && Wins(d, c[3], c[0])
    ensures BackwardRing(d, c) <==> StepLoses(d, c, 0) && StepLoses(d, c, 1) && StepLoses(d, c, 2) && Wins(d, c[0], c[3])
  {
  }

  lemma RingOf5(d: Lookup, c: seq<Cand>)
    requires |c| == 5
    requires (c[0], c[1]) in d && (c[1], c[2]) in d && (c[2], c[3]) in d && (c[3], c[4]) in d && (c[0], c[4]) in d
    ensures ForwardRing(d, c) <==> StepWins(d, c, 0) && StepWins(d, c, 1) && StepWins(d, c, 2) && StepWins(d, c, 3) && Wins(d, c[4], c[0])
    ensures BackwardRing(d, c) <==> StepLoses(d, c, 0) && StepLoses(d, c, 1) && StepLoses(d, c, 2) && StepLoses(d, c, 3) && Wins(d, c[0], c[4])
  {
  }

  // ---------------------------------------------------------- the report

  /** A reported combination: the players, their official ranks (`None` for 'N/A') and the ring's counts, edge by edge. */
  datatype CycleRow = CycleRow(combo: seq<Cand>, ranks: seq<Option<nat>>, edges: seq<Tally>)

  /** `get_player_rankings`: the 1-based row of the player's last line in the official results. */
  function RankIn(ranking: seq<Cand>, p: Cand): (r: Option<nat>)
    ensures r.Some? <==> p in ranking
    ensures r.Some? ==> 1 <= r.value <= |ranking| && ranking[r.value - 1] == p && forall j | r.value <= j < |ranking| :: ranking[j] != p
  {
    if ranking == [] then None
    else if ranking[|ranking| - 1] == p then Some(|ranking|)
    else
      var r := RankIn(ranking[..|ranking| - 1], p);
      assert forall x | x in ranking :: x in ranking[..|ranking| - 1] || x == ranking[|ranking| - 1];
      r
  }

  /** The counts around the ring: `(x>y, y>x)` for each edge `x→y`, closing with the last player against the first. */
  function RingEdges(d: Lookup, c: seq<Cand>): (edges: seq<Tally>)
    requires |c| >= 2 && AllPairsKnown(d, c)
    ensures |edges| == |c|
  {
    seq(|c|, i requires 0 <= i < |c| => if i < |c| - 1 then d[(c[i], c[i + 1])] else Swap(d[(c[0], c[|c| - 1])]))
  }

  function RowFor(d: Lookup, ranking: seq<Cand>, c: seq<Cand>): CycleRow
    requires Reported(d, c)
  {
    CycleRow(c, seq(|c|, i requires 0 <= i < |c| => RankIn(ranking, c[i])), RingEdges(d, c))
  }

  /** The rows for the combinations, each sorted, in order. */
  function ReportFrom(d: Lookup, ranking: seq<Cand>, combos: seq<seq<Cand>>): seq<CycleRow>
  {
    if combos == [] then []
    else
      var c := SortAsc(combos[|combos| - 1]);
      ReportFrom(d, ranking, combos[..|combos| - 1]) + (if Reported(d, c) then [RowFor(d, ranking, c)] else [])
  }

  lemma ReportStep(d: Lookup, ranking: seq<Cand>, combos: seq<seq<Cand>>, i: nat)
    requires i < |combos|
    ensures ReportFrom(d, ranking, combos[..i + 1]) == ReportFrom(d, ranking, combos[..i])
      + (if Reported(d, SortAsc(combos[i])) then [RowFor(d, ranking, SortAsc(combos[i]))] else [])
  {
    assert combos[..i + 1][..i] == combos[..i];
  }

  /** What `cycle_finder` returns for one league and year. */
  function CycleReport(names: seq<Cand>, table: seq<Row>, ranking: seq<Cand>, k: nat): seq<CycleRow>
  {
    ReportFrom(LookupOf(table), ranking, Combinations(names, k))
  }

  method CycleFinder(names: seq<Cand>, table: seq<Row>, ranking: seq<Cand>, k: nat) returns (found: seq<CycleRow>)
    ensures found == CycleReport(names, table, ranking, k)
  {
    var combos := Combinations(names, k);
    var d := PreprocessPairwiseData(table);
    found := [];
    for i := 0 to |combos|
      invariant found == ReportFrom(d, ranking, combos[..i])
    {
      var combo := SortAsc(combos[i]);
      ReportStep(d, ranking, combos, i);
      CombinationsMembers(names, k, combos[i]);
      if 3 <= k <= 5 && AllPairsKnown(d, combo) && SourceCondition(d, combo) {
        found := found + [RowFor(d, ranking, combo)];
      }
    }
    assert combos[..|combos|] == combos;
  }

  /** A `cycle_size` other than 3, 4 or 5 reports nothing. */
  lemma {:induction false} OtherSizesReportNothing(d: Lookup, ranking: seq<Cand>, combos: seq<seq<Cand>>, k: nat)
    requires k < 3 || k > 5
    requires forall i | 0 <= i < |combos| :: |combos[i]| == k
    ensures ReportFrom(d, ranking, combos) == []
  {
    if combos != [] {
      var n := |combos| - 1;
      OtherSizesReportNothing(d, ranking, combos[..n], k);
      assert |SortAsc(combos[n])| == k;
    }
  }

  /** Every reported row is a sorted combination that is a cycle of strict wins one way or the other. */
  lemma {:induction false} ReportedRowsAreCycles(table: seq<Row>, ranking: seq<Cand>, combos: seq<seq<Cand>>)
    requires forall i | 0 <= i < |table| :: table[i].a != table[i].b
    ensures forall r | r in ReportFrom(LookupOf(table), ranking, combos) ::
      && Ascending(r.combo) && 3 <= |r.combo| <= 5
      && AllPairsKnown(LookupOf(table), r.combo)
      && (ForwardRing(LookupOf(table), r.combo) || BackwardRing(LookupOf(table), r.combo))
  {
    if combos != [] {
      var d := LookupOf(table);
      ReportedRowsAreCycles(table, ranking, combos[..|combos| - 1]);
      LookupSymmetric(table);
      ReportedIsRing(d, SortAsc(combos[|combos| - 1]));
    }
  }

  /** Every combination whose sorted ring is a cycle of strict wins, with all its pairs known, is reported. */
  lemma {:induction false} CyclesAreReported(table: seq<Row>, ranking: seq<Cand>, combos: seq<seq<Cand>>, c: seq<Cand>)
    requires forall i | 0 <= i < |table| :: table[i].a != table[i].b
    requires c in combos
    requires 3 <= |SortAsc(c)| <= 5 && AllPairsKnown(LookupOf(table), SortAsc(c))
    requires ForwardRing(LookupOf(table), SortAsc(c)) || BackwardRing(LookupOf(table), SortAsc(c))
    ensures exists r | r in ReportFrom(LookupOf(table), ranking, combos) :: r.combo == SortAsc(c)
  {
    var n := |combos| - 1;
    if c == combos[n] {
      LookupSymmetric(table);
      ReportedIsRing(LookupOf(table), SortAsc(c));
      assert RowFor(LookupOf(table), ranking, SortAsc(c)) in ReportFrom(LookupOf(table), ranking, combos);
    } else {
      assert c in combos[..n] by {
        var i :| 0 <= i < |combos| && combos[i] == c;
        assert i < n && combos[..n][i] == c;
      }
      CyclesAreReported(table, ranking, combos[..n], c);
      var r :| r in ReportFrom(LookupOf(table), ranking, combos[..n]) && r.combo == SortAsc(c);
      assert r in ReportFrom(LookupOf(table), ranking, combos);
    }
  }
}
