/**
 * What deleting candidates from every ballot does to the scores, in the three
 * forms the scripts compute it:
 *
 *  - exact rescan: on each ballot every survivor is re-positioned among the
 *    survivors and gains the weight of its new rank minus that of its old one;
 *  - single-removal delta: deleting one candidate moves each candidate ranked
 *    after it up one slot, worth `rank_diff` of its old rank; for several
 *    candidates these deltas are summed, each computed on the original ballot;
 *  - unit effects: each removed candidate adds one point to every candidate
 *    that follows it on a ballot, once per such ballot.
 *
 * The main results: the summed deltas equal the exact rescan exactly when all
 * consecutive weight differences are equal (and can differ otherwise), and
 * the unit effects equal it for the unit-decrement weights.
 */
module Removal {
  import opened Ballots

  /** Every ballot lists distinct candidates and has no more ranks than there are weights. */
  predicate WellFormed(ballots: seq<Ballot>, w: seq<int>)
  {
    forall b | b in ballots :: Distinct(b) && |b| <= |w|
  }

  /** Points a candidate earns from one ballot. */
  function BallotPoints(b: Ballot, w: seq<int>, c: Cand): int
  {
    if c in b then WeightAt(w, IndexOf(b, c)) else 0
  }

  /** The positional score of `c`: the sum of its points over all ballots. */
  function Score(ballots: seq<Ballot>, w: seq<int>, c: Cand): int
  {
    if ballots == [] then 0
    else Score(ballots[..|ballots| - 1], w, c) + BallotPoints(ballots[|ballots| - 1], w, c)
  }

  /** Every ballot with the removed candidates struck out. */
  function StrikeAll(ballots: seq<Ballot>, r: seq<Cand>): (s: seq<Ballot>)
    ensures |s| == |ballots|
    ensures forall i | 0 <= i < |s| :: s[i] == Strike(ballots[i], r)
  {
    if ballots == [] then [] else StrikeAll(ballots[..|ballots| - 1], r) + [Strike(ballots[|ballots| - 1], r)]
  }

  // ---------------------------------------------------------------- exact rescan

  /** The exact gain of a survivor on one ballot: the weight of its rank among the survivors minus the weight of its old rank. */
  function ExactGain(b: Ballot, r: seq<Cand>, c: Cand, w: seq<int>): int
  {
    if c in b && c !in r then WeightAt(w, |Strike(b[..IndexOf(b, c)], r)|) - WeightAt(w, IndexOf(b, c)) else 0
  }

  function ExactAdjust(ballots: seq<Ballot>, r: seq<Cand>, c: Cand, w: seq<int>): int
  {
    if ballots == [] then 0
    else ExactAdjust(ballots[..|ballots| - 1], r, c, w) + ExactGain(ballots[|ballots| - 1], r, c, w)
  }

  // ------------------------------------------------------ single-removal deltas

  /** `c` is ranked after `r` on `b`. */
  predicate Follows(b: Ballot, r: Cand, c: Cand)
  {
    r in b && c in b && IndexOf(b, r) < IndexOf(b, c)
  }

  /** Deleting `r` from `b` moves `c` up one slot when it follows `r`: it gains `rank_diff[k - 1]` for its 0-based rank `k`. */
  function DeltaGain(b: Ballot, r: Cand, c: Cand, w: seq<int>): int
  {
    if Follows(b, r, c) then RankDiff(w, IndexOf(b, c) - 1) else 0
  }

  /** The deltas of one removed candidate, over all ballots. */
  function DeltaOver(ballots: seq<Ballot>, r: Cand, c: Cand, w: seq<int>): int
  {
    if ballots == [] then 0
    else DeltaOver(ballots[..|ballots| - 1], r, c, w) + DeltaGain(ballots[|ballots| - 1], r, c, w)
  }

  /** The deltas of every removed candidate, each computed on the original ballots, summed. */
  function DeltaAdjust(ballots: seq<Ballot>, r: seq<Cand>, c: Cand, w: seq<int>): int
  {
    if r == [] then 0 else DeltaAdjust(ballots, r[..|r| - 1], c, w) + DeltaOver(ballots, r[|r| - 1], c, w)
  }

  /** The summed deltas of the removed candidates on one ballot. */
  function BallotDelta(b: Ballot, r: seq<Cand>, c: Cand, w: seq<int>): int
  {
    if r == [] then 0 else BallotDelta(b, r[..|r| - 1], c, w) + DeltaGain(b, r[|r| - 1], c, w)
  }

  // --------------------------------------------------------------- unit effects

  /** `effect[r][c]`: the number of ballots on which `c` follows `r`. */
  function EffectCount(ballots: seq<Ballot>, r: Cand, c: Cand): nat
  {
    if ballots == [] then 0
    else EffectCount(ballots[..|ballots| - 1], r, c) + (if Follows(ballots[|ballots| - 1], r, c) then 1 else 0)
  }

  /** The effects of every removed candidate on `c`, summed. */
  function EffectAdjust(ballots: seq<Ballot>, r: seq<Cand>, c: Cand): int
  {
    if r == [] then 0 else EffectAdjust(ballots, r[..|r| - 1], c) + EffectCount(ballots, r[|r| - 1], c)
  }

  // =================================================================== lemmas

  /** On a struck ballot a survivor's rank is the number of survivors ahead of it. */
  lemma StrikeIndex(b: Ballot, r: seq<Cand>, c: Cand)
    requires c in b && c !in r
    ensures c in Strike(b, r)
    ensures IndexOf(Strike(b, r), c) == |Strike(b[..IndexOf(b, c)], r)|
  {
    var k := IndexOf(b, c);
    var head, tail := b[..k], b[k + 1..];
    assert b == head + ([c] + tail);
    StrikeAppend(head, [c] + tail, r);
    StrikeAppend([c], tail, r);
    StrikeSingle(c, r);
    var pre := Strike(head, r);
    assert c !in head;
    IndexAfter(pre, c, Strike(tail, r));
  }

  lemma StrikeSingle(c: Cand, r: seq<Cand>)
    requires c !in r
    ensures Strike([c], r) == [c]
  {
    assert [c][..0] == [];
  }

  lemma {:induction false} IndexAfter(pre: seq<Cand>, c: Cand, post: seq<Cand>)
    requires c !in pre
    ensures c in pre + ([c] + post) && IndexOf(pre + ([c] + post), c) == |pre|
  {
    if pre != [] {
      assert (pre + ([c] + post))[1..] == pre[1..] + ([c] + post);
      IndexAfter(pre[1..], c, post);
    }
  }

  /** Exact rescan is re-scoring: a survivor's score on the struck ballots is its old score plus its exact gains. */
  lemma {:induction false} StrikeScore(ballots: seq<Ballot>, r: seq<Cand>, w: seq<int>, c: Cand)
    requires c !in r
    ensures Score(StrikeAll(ballots, r), w, c) == Score(ballots, w, c) + ExactAdjust(ballots, r, c, w)
  {
    if ballots != [] {
      var n := |ballots| - 1;
      var b := ballots[n];
      StrikeScore(ballots[..n], r, w, c);
      assert StrikeAll(ballots, r)[..n] == StrikeAll(ballots[..n], r);
      if c in b {
        StrikeIndex(b, r, c);
      }
    }
  }

  /** Removing nothing changes nothing. */
  lemma {:induction false} ExactAdjustEmpty(ballots: seq<Ballot>, c: Cand, w: seq<int>)
    ensures ExactAdjust(ballots, [], c, w) == 0
  {
    if ballots != [] {
      ExactAdjustEmpty(ballots[..|ballots| - 1], c, w);
      var b := ballots[|ballots| - 1];
      if c in b {
        var pre := b[..IndexOf(b, c)];
        StrikeLength(pre, []);
        CountInNone(pre, []);
      }
    }
  }

  /** With a decreasing weight vector no survivor loses points. */
  lemma ExactGainNonNegative(b: Ballot, r: seq<Cand>, c: Cand, w: seq<int>)
    requires StrictlyDecreasing(w) && |b| <= |w|
    ensures ExactGain(b, r, c, w) >= 0
  {
    if c in b && c !in r {
      var k := IndexOf(b, c);
      WeightMonotone(w, |Strike(b[..k], r)|, k);
    }
  }

  lemma DeltaGainNonNegative(b: Ballot, r: Cand, c: Cand, w: seq<int>)
    requires StrictlyDecreasing(w)
    ensures DeltaGain(b, r, c, w) >= 0
  {
  }

  /** A candidate ranked ahead of every removed one on a ballot gains nothing from it. */
  lemma AheadOfRemovedGainsNothing(b: Ballot, r: seq<Cand>, c: Cand, w: seq<int>)
    requires c in b
    requires forall x | x in r && x in b :: IndexOf(b, c) < IndexOf(b, x)
    ensures ExactGain(b, r, c, w) == 0
  {
    if c !in r {
      var pre := b[..IndexOf(b, c)];
      NoneAhead(b, r, c);
      StrikeLength(pre, r);
      CountInNone(pre, r);
    }
  }

  /** Nothing ranked ahead of `c` is removed when every removed candidate is behind it. */
  lemma NoneAhead(b: Ballot, r: seq<Cand>, c: Cand)
    requires c in b
    requires forall x | x in r && x in b :: IndexOf(b, c) < IndexOf(b, x)
    ensures forall x | x in b[..IndexOf(b, c)] :: x !in r
  {
    forall x | x in b[..IndexOf(b, c)]
      ensures x !in r
    {
      AheadNotRemoved(b, r, c, x);
    }
  }

  lemma AheadNotRemoved(b: Ballot, r: seq<Cand>, c: Cand, x: Cand)
    requires c in b && x in b[..IndexOf(b, c)]
    requires forall x | x in r && x in b :: IndexOf(b, c) < IndexOf(b, x)
    ensures x !in r
  {
    var j :| 0 <= j < IndexOf(b, c) && b[j] == x;
    assert IndexOf(b, x) <= j;
  }

  /** Deleting a candidate that is last on every ballot naming it leaves every other score unchanged, in either form. */
  lemma {:induction false} LastPlaceRemoval(ballots: seq<Ballot>, x: Cand, c: Cand, w: seq<int>)
    requires forall i | 0 <= i < |ballots| && x in ballots[i] :: IndexOf(ballots[i], x) == |ballots[i]| - 1
    requires c != x
    ensures DeltaOver(ballots, x, c, w) == 0
    ensures ExactAdjust(ballots, [x], c, w) == 0
  {
    if ballots != [] {
      var n := |ballots| - 1;
      var init := ballots[..n];
      assert forall i | 0 <= i < n :: init[i] == ballots[i];
      LastPlaceRemoval(init, x, c, w);
      LastPlaceBallot(ballots[n], x, c, w);
    }
  }

  /** One ballot of `LastPlaceRemoval`. */
  lemma LastPlaceBallot(b: Ballot, x: Cand, c: Cand, w: seq<int>)
    requires x in b ==> IndexOf(b, x) == |b| - 1
    requires c != x
    ensures DeltaGain(b, x, c, w) == 0
    ensures ExactGain(b, [x], c, w) == 0
  {
    if c in b {
      AheadOfRemovedGainsNothing(b, [x], c, w);
    }
  }

  // ------------------------------------------------------- additive vs exact

  /** One more removed candidate: the survivors ahead of `c` lose one iff the new one is ahead of `c`. */
  lemma SurvivorsSnoc(b: Ballot, r: seq<Cand>, x: Cand, k: nat)
    requires Distinct(b) && k <= |b| && x !in r
    ensures |Strike(b[..k], r + [x])| == |Strike(b[..k], r)| - (if x in b[..k] then 1 else 0)
  {
    var pre := b[..k];
    assert Distinct(pre);
    StrikeLength(pre, r + [x]);
    StrikeLength(pre, r);
    CountInSnoc(pre, r, x);
  }

  /**
   * On one ballot, with equal weight gaps, the summed single-removal deltas are
   * the exact gain: each removed candidate ahead of `c` is worth one gap.
   */
  lemma {:induction false} BallotAdditiveExact(b: Ballot, r: seq<Cand>, c: Cand, w: seq<int>)
    requires EqualGaps(w) && Distinct(b) && |b| <= |w| && Distinct(r) && c !in r
    ensures BallotDelta(b, r, c, w) == ExactGain(b, r, c, w)
  {
    if c !in b {
      BallotDeltaAbsent(b, r, c, w);
    } else if r == [] {
      var pre := b[..IndexOf(b, c)];
      StrikeLength(pre, []);
      CountInNone(pre, []);
    } else {
      var n := |r| - 1;
      var x := r[n];
      var init := r[..n];
      assert r == init + [x];
      assert Distinct(init);
      BallotAdditiveExact(b, init, c, w);
      var k := IndexOf(b, c);
      SurvivorsSnoc(b, init, x, k);
      var s := |Strike(b[..k], init)|;
      if x in b[..k] {
        var j :| 0 <= j < k && b[j] == x;
        IndexOfAt(b, j);
        assert Follows(b, x, c);
        assert x in Strike(b[..k], init);
        assert s >= 1 by {
          assert Strike(b[..k], init) != [];
        }
        assert DeltaGain(b, x, c, w) == w[k - 1] - w[k] == w[0] - w[1];
        assert w[s - 1] - w[s] == w[0] - w[1];
      } else {
      }
    }
  }

  lemma {:induction false} BallotDeltaAbsent(b: Ballot, r: seq<Cand>, c: Cand, w: seq<int>)
    requires c !in b
    ensures BallotDelta(b, r, c, w) == 0
  {
    if r != [] {
      BallotDeltaAbsent(b, r[..|r| - 1], c, w);
    }
  }

  /** Summing per removed candidate then per ballot equals summing per ballot then per removed candidate. */
  lemma {:induction false} DeltaAdjustByBallot(ballots: seq<Ballot>, r: seq<Cand>, c: Cand, w: seq<int>)
    ensures DeltaAdjust(ballots, r, c, w) == SumBallotDelta(ballots, r, c, w)
  {
    if r == [] {
      SumBallotDeltaEmpty(ballots, c, w);
    } else {
      var n := |r| - 1;
      assert r[..n] + [r[n]] == r;
      DeltaAdjustByBallot(ballots, r[..n], c, w);
      SumBallotDeltaSnoc(ballots, r[..n], r[n], c, w);
      calc {
        DeltaAdjust(ballots, r, c, w);
        DeltaAdjust(ballots, r[..n], c, w) + DeltaOver(ballots, r[n], c, w);
        SumBallotDelta(ballots, r[..n] + [r[n]], c, w);
      }
    }
  }

  lemma {:induction false} SumBallotDeltaEmpty(ballots: seq<Ballot>, c: Cand, w: seq<int>)
    ensures SumBallotDelta(ballots, [], c, w) == 0
  {
    if ballots != [] {
      SumBallotDeltaEmpty(ballots[..|ballots| - 1], c, w);
    }
  }

  function SumBallotDelta(ballots: seq<Ballot>, r: seq<Cand>, c: Cand, w: seq<int>): int
  {
    if ballots == [] then 0
    else SumBallotDelta(ballots[..|ballots| - 1], r, c, w) + BallotDelta(ballots[|ballots| - 1], r, c, w)
  }

  lemma {:induction false} SumBallotDeltaSnoc(ballots: seq<Ballot>, r: seq<Cand>, x: Cand, c: Cand, w: seq<int>)
    ensures SumBallotDelta(ballots, r + [x], c, w) == SumBallotDelta(ballots, r, c, w) + DeltaOver(ballots, x, c, w)
  {
    if ballots != [] {
      var n := |ballots| - 1;
      SumBallotDeltaSnoc(ballots[..n], r, x, c, w);
      assert (r + [x])[..|r|] == r;
    }
  }

  /**
   * The headline result, forward direction: with equal consecutive weight
   * differences the additive composition of single-removal deltas is the
   * exact rescan, for every survivor.
   */
  lemma {:induction false} AdditiveIsExact(ballots: seq<Ballot>, r: seq<Cand>, c: Cand, w: seq<int>)
    requires EqualGaps(w) && WellFormed(ballots, w) && Distinct(r) && c !in r
    ensures DeltaAdjust(ballots, r, c, w) == ExactAdjust(ballots, r, c, w)
  {
    DeltaAdjustByBallot(ballots, r, c, w);
    SumIsExact(ballots, r, c, w);
  }

  lemma {:induction false} SumIsExact(ballots: seq<Ballot>, r: seq<Cand>, c: Cand, w: seq<int>)
    requires EqualGaps(w) && WellFormed(ballots, w) && Distinct(r) && c !in r
    ensures SumBallotDelta(ballots, r, c, w) == ExactAdjust(ballots, r, c, w)
  {
    if ballots != [] {
      var n := |ballots| - 1;
      assert WellFormed(ballots[..n], w) by {
        forall b | b in ballots[..n] ensures b in ballots { }
      }
      SumIsExact(ballots[..n], r, c, w);
      BallotAdditiveExact(ballots[n], r, c, w);
    }
  }

  /**
   * The worked counterexample: weights 14, 9, 8 and the ballot [X, Y, Z].
   * Deleting X and Y moves Z from third to first, an exact gain of 6; the
   * summed single-removal deltas give it `rank_diff[1] + rank_diff[1]` = 2.
   */
  lemma AdditiveCounterexample()
    ensures ExactGain([0, 1, 2], [0, 1], 2, [14, 9, 8]) == 6
    ensures BallotDelta([0, 1, 2], [0, 1], 2, [14, 9, 8]) == 2
  {
    var b: seq<Cand> := [0, 1, 2];
    assert b[..2] == [0, 1];
    assert Strike([0, 1], [0, 1]) == [] by {
      assert [0, 1][..1] == [0];
      assert [0][..0] == [];
    }
    assert [0, 1][..1] == [0];
    assert IndexOf(b, 2) == 2;
    assert IndexOf(b, 1) == 1;
    assert IndexOf(b, 0) == 0;
  }

  /** The range 0, 1, ..., n - 1 as a ballot. */
  function Range(n: nat): (s: seq<Cand>)
    ensures |s| == n && forall i | 0 <= i < n :: s[i] == i
  {
    if n == 0 then [] else Range(n - 1) + [n - 1]
  }

  /**
   * The headline result, converse direction: wherever two consecutive gaps
   * differ, deleting the two candidates at those ranks makes the summed deltas
   * differ from the exact gain of the candidate just behind them.
   */
  lemma UnequalGapsDiffer(w: seq<int>, j: nat)
    requires 1 <= j && j + 1 < |w| && w[j - 1] - w[j] != w[j] - w[j + 1]
    ensures var b := Range(j + 2);
            Distinct(b) && |b| <= |w| &&
            BallotDelta(b, [j - 1, j], j + 1, w) != ExactGain(b, [j - 1, j], j + 1, w)
  {
    var b := Range(j + 2);
    RangeIndex(j + 2, j + 1);
    assert BallotDelta(b, [j - 1, j], j + 1, w) == 2 * (w[j] - w[j + 1]) by {
      DeltaBehind(j, j - 1, w);
      DeltaBehind(j, j, w);
      TwoDeltas(b, j - 1, j, j + 1, w);
    }
    assert ExactGain(b, [j - 1, j], j + 1, w) == w[j - 1] - w[j + 1] by {
      ExactBehindTwo(j, w);
    }
  }

  /** On the range ballot, deleting either of the two candidates just ahead of `j + 1` moves it up from rank `j + 1` to rank `j`. */
  lemma DeltaBehind(j: nat, x: Cand, w: seq<int>)
    requires 1 <= j && j + 1 < |w| && (x == j - 1 || x == j)
    ensures DeltaGain(Range(j + 2), x, j + 1, w) == w[j] - w[j + 1]
  {
    RangeIndex(j + 2, j + 1);
    RangeIndex(j + 2, x);
  }

  /** In the range ballot every candidate sits at its own number. */
  lemma RangeIndex(n: nat, i: nat)
    requires i < n
    ensures Distinct(Range(n)) && i in Range(n) && IndexOf(Range(n), i) == i
  {
    IndexOfAt(Range(n), i);
  }

  lemma TwoDeltas(b: Ballot, x: Cand, y: Cand, c: Cand, w: seq<int>)
    ensures BallotDelta(b, [x, y], c, w) == DeltaGain(b, x, c, w) + DeltaGain(b, y, c, w)
  {
    assert [x, y][..1] == [x];
    assert [x][..0] == [];
    calc {
      BallotDelta(b, [x, y], c, w);
      BallotDelta(b, [x], c, w) + DeltaGain(b, y, c, w);
      BallotDelta(b, [], c, w) + DeltaGain(b, x, c, w) + DeltaGain(b, y, c, w);
    }
  }

  lemma CountInTwo(head: seq<Cand>, x: Cand, y: Cand, r: seq<Cand>)
    requires x in r && y in r
    ensures CountIn(head + [x, y], r) == CountIn(head, r) + 2
  {
    var s := head + [x, y];
    assert s[..|s| - 1] == head + [x];
    assert (head + [x])[..|head|] == head;
  }

  lemma ExactBehindTwo(j: nat, w: seq<int>)
    requires 1 <= j
    ensures ExactGain(Range(j + 2), [j - 1, j], j + 1, w) == WeightAt(w, j - 1) - WeightAt(w, j + 1)
  {
    RangeIndex(j + 2, j + 1);
    StrikeBehindTwo(j);
  }

  /** Striking the two candidates just ahead of `j + 1` leaves `j - 1` candidates ahead of it. */
  lemma StrikeBehindTwo(j: nat)
    requires 1 <= j
    ensures |Strike(Range(j + 2)[..j + 1], [j - 1, j])| == j - 1
  {
    var r: seq<Cand> := [j - 1, j];
    var pre := Range(j + 2)[..j + 1];
    RangePrefix(j + 2, j + 1);
    assert pre == Range(j - 1) + [j - 1, j];
    CountInTwo(Range(j - 1), j - 1, j, r);
    CountInNone(Range(j - 1), r);
    StrikeLength(pre, r);
  }

  /** A prefix of the range ballot is the shorter range. */
  lemma {:induction false} RangePrefix(n: nat, m: nat)
    requires m <= n
    ensures Range(n)[..m] == Range(m)
  {
    var s := Range(n);
    assert forall i | 0 <= i < m :: s[..m][i] == i;
  }

  /** Unequal gaps somewhere mean two adjacent gaps differ. */
  lemma {:induction false} AdjacentUnequalGaps(w: seq<int>, i: nat) returns (j: nat)
    requires i + 1 < |w| && w[i] - w[i + 1] != w[0] - w[1]
    ensures 1 <= j && j + 1 < |w| && w[j - 1] - w[j] != w[j] - w[j + 1]
    decreases i
  {
    if w[i - 1] - w[i] != w[i] - w[i + 1] {
      j := i;
    } else {
      j := AdjacentUnequalGaps(w, i - 1);
    }
  }

  /** The headline result as an equivalence: summing deltas is exact on every ballot iff the gaps are equal. */
  lemma AdditiveExactIff(w: seq<int>)
    ensures EqualGaps(w) <==>
      forall b: Ballot, r: seq<Cand>, c: Cand
        | Distinct(b) && |b| <= |w| && Distinct(r) && c !in r
        :: BallotDelta(b, r, c, w) == ExactGain(b, r, c, w)
  {
    if EqualGaps(w) {
      forall b: Ballot, r: seq<Cand>, c: Cand | Distinct(b) && |b| <= |w| && Distinct(r) && c !in r
        ensures BallotDelta(b, r, c, w) == ExactGain(b, r, c, w)
      {
        BallotAdditiveExact(b, r, c, w);
      }
    } else {
      var i: nat :| i + 1 < |w| && w[i] - w[i + 1] != w[0] - w[1];
      var j := AdjacentUnequalGaps(w, i);
      UnequalGapsDiffer(w, j);
      var b := Range(j + 2);
      assert Distinct([j - 1, j]);
    }
  }

  // ------------------------------------------------------------ unit effects

  /** With unit gaps every single-removal delta is worth one point. */
  lemma UnitDelta(b: Ballot, x: Cand, c: Cand, w: seq<int>)
    requires UnitGaps(w) && |b| <= |w|
    ensures DeltaGain(b, x, c, w) == if Follows(b, x, c) then 1 else 0
  {
  }

  lemma {:induction false} EffectIsDelta(ballots: seq<Ballot>, r: seq<Cand>, c: Cand, w: seq<int>)
    requires UnitGaps(w) && WellFormed(ballots, w)
    ensures EffectAdjust(ballots, r, c) == DeltaAdjust(ballots, r, c, w)
  {
    if r != [] {
      EffectIsDelta(ballots, r[..|r| - 1], c, w);
      EffectCountIsDelta(ballots, r[|r| - 1], c, w);
    }
  }

  lemma {:induction false} EffectCountIsDelta(ballots: seq<Ballot>, x: Cand, c: Cand, w: seq<int>)
    requires UnitGaps(w) && WellFormed(ballots, w)
    ensures EffectCount(ballots, x, c) == DeltaOver(ballots, x, c, w)
  {
    if ballots != [] {
      var n := |ballots| - 1;
      assert WellFormed(ballots[..n], w) by {
        forall b | b in ballots[..n] ensures b in ballots { }
      }
      EffectCountIsDelta(ballots[..n], x, c, w);
      UnitDelta(ballots[n], x, c, w);
    }
  }

  /** For the unit-decrement weights, summing the precomputed effects is the exact rescan. */
  lemma EffectsAreExact(ballots: seq<Ballot>, r: seq<Cand>, c: Cand, w: seq<int>)
    requires UnitGaps(w) && WellFormed(ballots, w) && Distinct(r) && c !in r
    ensures EffectAdjust(ballots, r, c) == ExactAdjust(ballots, r, c, w)
  {
    EffectIsDelta(ballots, r, c, w);
    if |w| >= 2 {
      assert EqualGaps(w);
    }
    AdditiveIsExact(ballots, r, c, w);
  }

  // ------------------------------------------------------- a single removal

  /** For one removed candidate the single-removal delta is the exact gain, whatever the weights. */
  lemma SingleBallotDeltaIsExact(b: Ballot, x: Cand, c: Cand, w: seq<int>)
    requires Distinct(b) && |b| <= |w| && c != x
    ensures DeltaGain(b, x, c, w) == ExactGain(b, [x], c, w)
  {
    if c in b {
      var k := IndexOf(b, c);
      StrikeOneLength(b, x, k);
      FollowsIsAhead(b, x, c);
    }
  }

  /** Striking one candidate from a prefix shortens it by one exactly when the prefix holds it. */
  lemma StrikeOneLength(b: Ballot, x: Cand, k: nat)
    requires Distinct(b) && k <= |b|
    ensures |Strike(b[..k], [x])| == k - (if x in b[..k] then 1 else 0)
  {
    SurvivorsSnoc(b, [], x, k);
    StrikeLength(b[..k], []);
    CountInNone(b[..k], []);
    assert [] + [x] == [x];
  }

  /** `c` follows `x` exactly when `x` sits in the part of the ballot ahead of `c`. */
  lemma FollowsIsAhead(b: Ballot, x: Cand, c: Cand)
    requires c in b
    ensures Follows(b, x, c) <==> x in b[..IndexOf(b, c)]
  {
    var k := IndexOf(b, c);
    if x in b[..k] {
      var j :| 0 <= j < k && b[j] == x;
      assert IndexOf(b, x) <= j;
    } else if x in b {
      assert IndexOf(b, x) >= k;
    }
  }

  /** Removing one candidate: the deltas over all ballots are the exact rescan's gains. */
  lemma {:induction false} SingleDeltaIsExact(ballots: seq<Ballot>, x: Cand, c: Cand, w: seq<int>)
    requires WellFormed(ballots, w) && c != x
    ensures DeltaOver(ballots, x, c, w) == ExactAdjust(ballots, [x], c, w)
  {
    if ballots != [] {
      var n := |ballots| - 1;
      assert forall b | b in ballots[..n] :: b in ballots;
      SingleDeltaIsExact(ballots[..n], x, c, w);
      assert ballots[n] in ballots;
      SingleBallotDeltaIsExact(ballots[n], x, c, w);
    }
  }
}
