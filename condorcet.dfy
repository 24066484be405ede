/**
 * The Condorcet winner check over a pairwise results table, and its
 * comparison with the Borda winner: `src/baseball/Pairwise/condorcet.py` for
 * the MVP votes and `src/college-polls/Pairwise/condorcet_cf.py` for the
 * weekly polls. Candidates are tried in Borda order among the first `top_n`;
 * the first one that strictly wins every row naming it is the winner.
 */
module Condorcet {
  import opened Wrappers
  import opened Ballots
  import opened Pairwise

  /** A row does not stop `p`: named first it needs `A>B` above `B>A`, named second the reverse; other rows do not matter. */
  predicate RowClears(row: Row, p: Cand)
  {
    if row.a == p then row.ab > row.ba
    else if row.b == p then row.ba > row.ab
    else true
  }

  /** `p` strictly wins every row of the table naming it. */
  predicate BeatsAll(rows: seq<Row>, p: Cand)
  {
    forall i | 0 <= i < |rows| :: RowClears(rows[i], p)
  }

  /** The first candidate, in the given order, that wins every row naming it. */
  function Winner(top: seq<Cand>, rows: seq<Row>): Option<Cand>
  {
    if top == [] then None
    else if BeatsAll(rows, top[0]) then Some(top[0])
    else Winner(top[1..], rows)
  }

  /** `find_condorcet_winner` of `condorcet.py`, the Borda ranking and the pairwise table given. */
  method FindCondorcetWinner(borda: seq<Cand>, rows: seq<Row>, topN: nat) returns (w: Option<Cand>)
    ensures w == Winner(TakeUpTo(borda, topN), rows)
  {
    var top := TakeUpTo(borda, topN);
    for c := 0 to |top|
      invariant Winner(top, rows) == Winner(top[c..], rows)
    {
      var player := top[c];
      var isWinner := true;
      for i := 0 to |rows|
        invariant isWinner && forall m | 0 <= m < i :: RowClears(rows[m], player)
      {
        var row := rows[i];
        if row.a == player {
          if row.ab <= row.ba {
            isWinner := false;
            break;
          }
        } else if row.b == player {
          if row.ba <= row.ab {
            isWinner := false;
            break;
          }
        }
      }
      if isWinner {
        return Some(player);
      }
      assert top[c..][1..] == top[c + 1..];
    }
    return None;
  }

  /** The winner is the first candidate of the list that wins all its rows; there is none when no candidate does. */
  lemma {:induction false} WinnerMeaning(top: seq<Cand>, rows: seq<Row>)
    ensures Winner(top, rows).None? <==> forall i | 0 <= i < |top| :: !BeatsAll(rows, top[i])
    ensures Winner(top, rows).Some? ==> exists i | 0 <= i < |top| ::
      && top[i] == Winner(top, rows).value
      && BeatsAll(rows, top[i])
      && forall j | 0 <= j < i :: !BeatsAll(rows, top[j])
  {
    if top != [] && !BeatsAll(rows, top[0]) {
      WinnerMeaning(top[1..], rows);
      if Winner(top, rows).Some? {
        var i :| 0 <= i < |top[1..]| && top[1..][i] == Winner(top, rows).value && BeatsAll(rows, top[1..][i])
          && forall j | 0 <= j < i :: !BeatsAll(rows, top[1..][j]);
        assert top[i + 1] == top[1..][i];
        forall j | 0 <= j < i + 1 ensures !BeatsAll(rows, top[j]) {
          if j > 0 {
            assert top[j] == top[1..][j - 1];
          }
        }
      } else {
        forall i | 0 <= i < |top| ensures !BeatsAll(rows, top[i]) {
          if i > 0 {
            assert top[i] == top[1..][i - 1];
          }
        }
      }
    }
  }

  /** Two candidates sharing a row cannot both win every row: the table has at most one Condorcet winner among them. */
  lemma AtMostOneWinner(rows: seq<Row>, i: nat, p: Cand, q: Cand)
    requires i < |rows| && p != q
    requires (rows[i].a == p && rows[i].b == q) || (rows[i].a == q && rows[i].b == p)
    ensures !(BeatsAll(rows, p) && BeatsAll(rows, q))
  {
    if BeatsAll(rows, p) {
      assert RowClears(rows[i], p);
    }
  }

  // ---------------------------------------------- against the ballots

  /** `p` is preferred to `q` by a strict majority of the ballots that name either. */
  predicate Majority(ballots: seq<Ballot>, p: Cand, q: Cand)
  {
    Prefers(ballots, p, q) > Prefers(ballots, q, p)
  }

  /** On the table `pairwise_comparison` writes for repeat-free nominees, winning every row means beating every other nominee by majority. */
  lemma BeatsAllIsMajority(players: seq<Cand>, ballots: seq<Ballot>, p: Cand)
    requires Distinct(players) && p in players
    ensures BeatsAll(PresentRows(PairKeys(players), ballots), p) <==> forall q | q in players && q != p :: Majority(ballots, p, q)
  {
    var keys := PairKeys(players);
    var rows := PresentRows(keys, ballots);
    if BeatsAll(rows, p) {
      forall q | q in players && q != p ensures Majority(ballots, p, q) {
        KeyListed(players, p, q);
        var i :| 0 <= i < |keys| && keys[i] == KeyOf(p, q);
        assert RowClears(rows[i], p);
        RowIsMajority(ballots, keys[i], p);
      }
    } else {
      var i :| 0 <= i < |rows| && !RowClears(rows[i], p);
      var k := keys[i];
      KeyIsPair(players, k);
      RowIsMajority(ballots, k, p);
    }
  }

  /** Every pair of distinct nominees has a counter. */
  lemma KeyListed(players: seq<Cand>, p: Cand, q: Cand)
    requires p in players && q in players && p != q
    ensures KeyOf(p, q) in PairKeys(players)
  {
    var ip :| 0 <= ip < |players| && players[ip] == p;
    var iq :| 0 <= iq < |players| && players[iq] == q;
    if ip < iq {
      AllPairsMembers(players, KeyOf(p, q));
    } else {
      assert KeyOf(p, q) == KeyOf(players[iq], players[ip]);
      AllPairsMembers(players, KeyOf(p, q));
    }
  }

  /** Every counter of repeat-free nominees pairs two different nominees, the smaller first. */
  lemma KeyIsPair(players: seq<Cand>, k: Key)
    requires Distinct(players) && k in PairKeys(players)
    ensures k.lo < k.hi && k.lo in players && k.hi in players
  {
    AllPairsMembers(players, k);
    var x, y :| 0 <= x < y < |players| && k == KeyOf(players[x], players[y]);
  }

  /** A row clears one of its two players exactly when that player has the majority over the other. */
  lemma RowIsMajority(ballots: seq<Ballot>, k: Key, p: Cand)
    requires k.lo != k.hi && (p == k.lo || p == k.hi)
    ensures RowClears(Row(k.lo, k.hi, PresentVotes(ballots, k).ab, PresentVotes(ballots, k).ba), p)
      <==> Majority(ballots, p, if p == k.lo then k.hi else k.lo)
  {
    PresentSwap(ballots, k.lo, k.hi);
  }

  // -------------------------------------------- condorcet.py: the comparison

  /** A line of `borda_condorcet_results.csv`: the two winners and whether they agree. */
  datatype Comparison = Comparison(bordaWinner: Cand, condorcetWinner: Option<Cand>, same: bool)

  /** The comparison for one league and year; `None` when the Borda table is empty and `iloc[0]` raises. */
  function CompareWinners(borda: seq<Cand>, rows: seq<Row>, topN: nat): Option<Comparison>
  {
    if borda == [] then None
    else
      var cw := Winner(TakeUpTo(borda, topN), rows);
      Some(Comparison(borda[0], cw, Some(borda[0]) == cw))
  }

  /** "Same?" holds exactly when the Borda winner itself wins every row naming it. */
  lemma SameIffBordaWins(borda: seq<Cand>, rows: seq<Row>, topN: nat)
    requires borda != [] && topN >= 1
    ensures CompareWinners(borda, rows, topN).value.same <==> BeatsAll(rows, borda[0])
  {
    var top := TakeUpTo(borda, topN);
    assert top[0] == borda[0];
    if Winner(top, rows) == Some(borda[0]) {
      WinnerMeaning(top, rows);
      var i :| 0 <= i < |top| && top[i] == borda[0] && BeatsAll(rows, top[i]);
    }
  }

  // ---------------------------------------------------- condorcet_cf.py

  /** A row of the poll table; a count that cannot be compared (the comparison raises) is `None`. */
  datatype CfRow = CfRow(a: Cand, b: Cand, ab: Option<nat>, ba: Option<nat>)

  /** The comparison of the row naming `p` succeeds and `p` wins it; rows not naming `p` never raise. */
  predicate CfClears(row: CfRow, p: Cand)
  {
    if row.a == p then row.ab.Some? && row.ba.Some? && row.ab.value > row.ba.value
    else if row.b == p then row.ab.Some? && row.ba.Some? && row.ba.value > row.ab.value
    else true
  }

  predicate CfBeatsAll(rows: seq<CfRow>, p: Cand)
  {
    forall i | 0 <= i < |rows| :: CfClears(rows[i], p)
  }

  /** The first candidate that wins every row; a candidate whose evaluation raises is skipped. */
  function CfWinner(top: seq<Cand>, rows: seq<CfRow>): Option<Cand>
  {
    if top == [] then None
    else if CfBeatsAll(rows, top[0]) then Some(top[0])
    else CfWinner(top[1..], rows)
  }

  /** `find_condorcet_winner` of `condorcet_cf.py`: an unreadable file gives `None`. */
  function CfFind(borda: Option<seq<Cand>>, table: Option<seq<CfRow>>, topN: nat): Option<Cand>
  {
    if borda.None? || table.None? then None else CfWinner(TakeUpTo(borda.value, topN), table.value)
  }

  method FindCondorcetWinnerCf(borda: Option<seq<Cand>>, table: Option<seq<CfRow>>, topN: nat) returns (w: Option<Cand>)
    ensures w == CfFind(borda, table, topN)
  {
    if borda.None? {
      return None;
    }
    var top := TakeUpTo(borda.value, topN);
    if table.None? {
      return None;
    }
    var rows := table.value;
    for c := 0 to |top|
      invariant CfWinner(top, rows) == CfWinner(top[c..], rows)
    {
      var player := top[c];
      var isWinner := true;
      var raised := false;
      for i := 0 to |rows|
        invariant isWinner && !raised && forall m | 0 <= m < i :: CfClears(rows[m], player)
      {
        var row := rows[i];
        if row.a == player {
          if row.ab.None? || row.ba.None? {
            raised := true;
            break;
          }
          if row.ab.value <= row.ba.value {
            isWinner := false;
            break;
          }
        } else if row.b == player {
          if row.ab.None? || row.ba.None? {
            raised := true;
            break;
          }
          if row.ba.value <= row.ab.value {
            isWinner := false;
            break;
          }
        }
      }
      assert top[c..][1..] == top[c + 1..];
      if raised {
        continue;
      }
      if isWinner {
        return Some(player);
      }
    }
    return None;
  }

  /** The poll table with every count comparable, as a plain table. */
  function Plain(rows: seq<CfRow>): (plain: seq<Row>)
    requires forall i | 0 <= i < |rows| :: rows[i].ab.Some? && rows[i].ba.Some?
    ensures |plain| == |rows|
  {
    seq(|rows|, i requires 0 <= i < |rows| && rows[i].ab.Some? && rows[i].ba.Some? => Row(rows[i].a, rows[i].b, rows[i].ab.value, rows[i].ba.value))
  }

  /** When no comparison can raise, the poll check and the MVP check pick the same winner. */
  lemma {:induction false} CfAgreesWhenComparable(top: seq<Cand>, rows: seq<CfRow>)
    requires forall i | 0 <= i < |rows| :: rows[i].ab.Some? && rows[i].ba.Some?
    ensures CfWinner(top, rows) == Winner(top, Plain(rows))
  {
    if top != [] {
      var p := top[0];
      assert CfBeatsAll(rows, p) <==> BeatsAll(Plain(rows), p) by {
        forall i | 0 <= i < |rows| ensures CfClears(rows[i], p) <==> RowClears(Plain(rows)[i], p) {
        }
      }
      CfAgreesWhenComparable(top[1..], rows);
    }
  }

  /** A candidate whose row cannot be compared is never the winner, whatever its counts elsewhere. */
  lemma RaisingIsSkipped(top: seq<Cand>, rows: seq<CfRow>, i: nat, p: Cand)
    requires i < |rows| && (rows[i].a == p || rows[i].b == p) && (rows[i].ab.None? || rows[i].ba.None?)
    ensures CfWinner(top, rows) != Some(p)
  {
    assert !CfClears(rows[i], p);
    CfWinnerBeatsAll(top, rows);
  }

  lemma {:induction false} CfWinnerBeatsAll(top: seq<Cand>, rows: seq<CfRow>)
    ensures CfWinner(top, rows).Some? ==> CfWinner(top, rows).value in top && CfBeatsAll(rows, CfWinner(top, rows).value)
  {
    if top != [] && !CfBeatsAll(rows, top[0]) {
      CfWinnerBeatsAll(top[1..], rows);
    }
  }

  /** The `Paradox` indicator of `borda_condorcet`: 1 without a Condorcet winner, 0 when it is the Borda winner, 2 otherwise. */
  function Indicator(bordaWinner: Option<Cand>, condorcetWinner: Option<Cand>): nat
  {
    if condorcetWinner.None? then 1
    else if bordaWinner == condorcetWinner then 0
    else 2
  }

  /** One week's line: the Borda winner (`None` when the file is unreadable or empty), the Condorcet winner and the indicator. */
  datatype WeekResult = WeekResult(bordaWinner: Option<Cand>, condorcetWinner: Option<Cand>, paradox: nat)

  function BordaCondorcetWeek(borda: Option<seq<Cand>>, table: Option<seq<CfRow>>, topN: nat): WeekResult
  {
    var bw := if borda.Some? && borda.value != [] then Some(borda.value[0]) else None;
    var cw := CfFind(borda, table, topN);
    WeekResult(bw, cw, Indicator(bw, cw))
  }

  /**
   * The indicator is 0 exactly when the top Borda team wins every row naming
   * it, 1 exactly when no candidate among the first `top_n` does, and 2
   * exactly when one does but the top Borda team does not.
   */
  lemma IndicatorMeaning(borda: Option<seq<Cand>>, table: Option<seq<CfRow>>, topN: nat)
    requires topN >= 1
    ensures var r := BordaCondorcetWeek(borda, table, topN);
      && (r.paradox == 0 <==> borda.Some? && borda.value != [] && table.Some? && CfBeatsAll(table.value, borda.value[0]))
      && (r.paradox == 1 <==> r.condorcetWinner.None?)
      && (r.paradox == 2 <==> r.condorcetWinner.Some? && !(borda.Some? && borda.value != [] && table.Some? && CfBeatsAll(table.value, borda.value[0])))
  {
    if borda.Some? && table.Some? {
      var top := TakeUpTo(borda.value, topN);
      CfWinnerBeatsAll(top, table.value);
      if borda.value != [] {
        assert top[0] == borda.value[0];
      }
    }
  }
}
