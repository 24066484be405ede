/**
 * Candidates, ballots and weight vectors shared by every part of the model.
 *
 * A candidate (a player or a team) is an id; ids compare as the candidates'
 * names do in Python, so `min`, `max` and `sorted` on names are `<` on ids.
 * A ballot is the ordered list of the candidates a voter ranked, best first.
 */
module Ballots {

  type Cand = nat
  type Ballot = seq<Cand>

  /** No entry occurs twice. */
  predicate Distinct<T(==)>(s: seq<T>)
  {
    forall i, j | 0 <= i < j < |s| :: s[i] != s[j]
  }

  /** Python's `list.index`: the position of the first occurrence of `c`. */
  function IndexOf(b: seq<Cand>, c: Cand): (k: nat)
    requires c in b
    ensures k < |b| && b[k] == c
    ensures forall j | 0 <= j < k :: b[j] != c
  {
    if b[0] == c then 0 else 1 + IndexOf(b[1..], c)
  }

  /**
   * The distinct entries of `s` in first-appearance order: the keys of a
   * dictionary filled from `s`, or `set(s)` listed in that order.
   */
  function Dedup<T(==,!new)>(s: seq<T>): (d: seq<T>)
    ensures Distinct(d) && forall x :: x in d <==> x in s
  {
    if s == [] then []
    else
      var d := Dedup(s[..|s| - 1]);
      assert forall x | x in s[..|s| - 1] :: x in s;
      assert s == s[..|s| - 1] + [s[|s| - 1]];
      if s[|s| - 1] in d then d else d + [s[|s| - 1]]
  }

  /**
   * The entries are kept in first-appearance order: an earlier entry of
   * `Dedup(s)` occurs in `s` before the first occurrence of any later one.
   */
  lemma {:induction false} DedupOrder<T(!new)>(s: seq<T>, i: nat, j: nat)
    requires i < j < |Dedup(s)|
    ensures exists k | 0 <= k < |s| :: s[k] == Dedup(s)[i] && Dedup(s)[j] !in s[..k + 1]
  {
    var n := |s| - 1;
    var p, y := s[..n], s[n];
    var dp := Dedup(p);
    assert s == p + [y];
    if y in dp || j < |dp| {
      assert Dedup(s)[..|dp|] == dp;
      DedupOrder(p, i, j);
      var k :| 0 <= k < |p| && p[k] == dp[i] && dp[j] !in p[..k + 1];
      assert s[..k + 1] == p[..k + 1];
    } else {
      assert Dedup(s) == dp + [y];
      assert dp[i] in dp;
      var k :| 0 <= k < |p| && p[k] == dp[i];
      assert y !in p;
      assert s[..k + 1] == p[..k + 1];
      assert forall x | x in p[..k + 1] :: x in p;
    }
  }

  /** `s[:n]`, or `.head(n)`: the first `n` entries, all of them when there are fewer. */
  function TakeUpTo<T>(s: seq<T>, n: nat): (r: seq<T>)
    ensures |r| <= n && |r| <= |s| && r == s[..|r|]
    ensures |s| <= n ==> r == s
  {
    if |s| <= n then s else s[..n]
  }

  /** Two positions holding the same candidate of a distinct list coincide. */
  lemma IndexOfAt(b: seq<Cand>, k: nat)
    requires Distinct(b) && k < |b|
    ensures IndexOf(b, b[k]) == k
  {
  }

  /** The weight earned at 0-based rank `i`; ranks past the vector earn nothing. */
  function WeightAt(w: seq<int>, i: nat): int
  {
    if i < |w| then w[i] else 0
  }

  /** `rank_diff.get(i, 0)` with `rank_diff[i] = w[i] - w[i+1]`: the value of moving up from rank i+1 to rank i. */
  function RankDiff(w: seq<int>, i: int): int
  {
    if 0 <= i && i + 1 < |w| then w[i] - w[i + 1] else 0
  }

  predicate StrictlyDecreasing(w: seq<int>)
  {
    forall i | 0 <= i < |w| - 1 :: w[i] > w[i + 1]
  }

  /** Every consecutive difference equals the first one. */
  predicate EqualGaps(w: seq<int>)
  {
    forall i | 0 <= i < |w| - 1 :: w[i] - w[i + 1] == w[0] - w[1]
  }

  /** The unit-decrement scheme: consecutive weights differ by exactly one. */
  predicate UnitGaps(w: seq<int>)
  {
    forall i | 0 <= i < |w| - 1 :: w[i] - w[i + 1] == 1
  }

  /** A decreasing weight vector never rewards a worse rank more. */
  lemma {:induction false} WeightMonotone(w: seq<int>, i: nat, j: nat)
    requires StrictlyDecreasing(w) && i <= j < |w|
    ensures w[i] >= w[j]
    decreases j - i
  {
    if i < j {
      WeightMonotone(w, i, j - 1);
    }
  }

  /** `b` with every candidate of `r` struck out; the survivors keep their order. */
  function Strike(b: seq<Cand>, r: seq<Cand>): (s: seq<Cand>)
    ensures |s| <= |b|
    ensures forall x :: x in s <==> x in b && x !in r
  {
    if b == [] then []
    else Strike(b[..|b| - 1], r) + (if b[|b| - 1] in r then [] else [b[|b| - 1]])
  }

  lemma {:induction false} StrikeAppend(a: seq<Cand>, b: seq<Cand>, r: seq<Cand>)
    ensures Strike(a + b, r) == Strike(a, r) + Strike(b, r)
    decreases |b|
  {
    if b == [] {
      assert a + b == a;
    } else {
      var n := |b| - 1;
      assert (a + b)[..|a + b| - 1] == a + b[..n];
      StrikeAppend(a, b[..n], r);
    }
  }

  /** Striking candidates a list does not hold leaves it as it is. */
  lemma StrikeNone(s: seq<Cand>, r: seq<Cand>)
    requires forall x | x in s :: x !in r
    ensures Strike(s, r) == s
  {
    assert forall i | 0 <= i < |s| :: s[i] !in r by {
      forall i | 0 <= i < |s| ensures s[i] !in r {
        assert s[i] in s;
      }
    }
    StrikeNoneAt(s, r);
  }

  lemma {:induction false} StrikeNoneAt(s: seq<Cand>, r: seq<Cand>)
    requires forall i | 0 <= i < |s| :: s[i] !in r
    ensures Strike(s, r) == s
  {
    if s != [] {
      var n := |s| - 1;
      var init := s[..n];
      assert s == init + [s[n]];
      assert forall i | 0 <= i < n :: init[i] == s[i];
      StrikeNoneAt(init, r);
    }
  }

  /** Striking keeps a list repeat-free. */
  lemma {:induction false} StrikeDistinct(s: seq<Cand>, r: seq<Cand>)
    requires Distinct(s)
    ensures Distinct(Strike(s, r))
  {
    if s != [] {
      var n := |s| - 1;
      assert Distinct(s[..n]);
      StrikeDistinct(s[..n], r);
      assert s[n] !in s[..n];
    }
  }

  /** Striking twice is striking both lists at once. */
  lemma {:induction false} StrikeStrike(s: seq<Cand>, a: seq<Cand>, b: seq<Cand>)
    ensures Strike(Strike(s, a), b) == Strike(s, a + b)
  {
    if s != [] {
      var n := |s| - 1;
      StrikeStrike(s[..n], a, b);
      var tail := if s[n] in a then [] else [s[n]];
      StrikeAppend(Strike(s[..n], a), tail, b);
      if tail != [] {
        assert tail[..0] == [];
      }
    }
  }

  /** The number of entries of `s` that are candidates of `r`. */
  function CountIn(s: seq<Cand>, r: seq<Cand>): (n: nat)
    ensures n <= |s|
  {
    if s == [] then 0 else CountIn(s[..|s| - 1], r) + (if s[|s| - 1] in r then 1 else 0)
  }

  /** Striking removes exactly the entries counted by `CountIn`. */
  lemma {:induction false} StrikeLength(s: seq<Cand>, r: seq<Cand>)
    ensures |Strike(s, r)| == |s| - CountIn(s, r)
  {
    if s != [] {
      StrikeLength(s[..|s| - 1], r);
    }
  }

  /** Counting a longer removal list: a new candidate adds one iff it occurs in `s` (once, as `s` is distinct). */
  lemma {:induction false} CountInSnoc(s: seq<Cand>, r: seq<Cand>, x: Cand)
    requires Distinct(s) && x !in r
    ensures CountIn(s, r + [x]) == CountIn(s, r) + (if x in s then 1 else 0)
  {
    if s != [] {
      var p := s[..|s| - 1];
      assert Distinct(p);
      CountInSnoc(p, r, x);
      assert s == p + [s[|s| - 1]];
      assert x in s <==> x in p || x == s[|s| - 1];
      assert x == s[|s| - 1] ==> x !in p;
    }
  }

  /** Nothing of `r` in `s`: nothing is counted. */
  lemma {:induction false} CountInNone(s: seq<Cand>, r: seq<Cand>)
    requires forall x | x in s :: x !in r
    ensures CountIn(s, r) == 0
  {
    if s != [] {
      CountInNone(s[..|s| - 1], r);
    }
  }

  /** All of a repeat-free `r` inside a repeat-free `s`: every one of them is counted. */
  lemma {:induction false} CountInAll(s: seq<Cand>, r: seq<Cand>)
    requires Distinct(s) && Distinct(r) && forall x | x in r :: x in s
    ensures CountIn(s, r) == |r|
  {
    if r == [] {
      CountInNone(s, r);
    } else {
      var n := |r| - 1;
      assert r == r[..n] + [r[n]];
      assert r[n] in s;
      CountInAll(s, r[..n]);
      CountInSnoc(s, r[..n], r[n]);
    }
  }
}
