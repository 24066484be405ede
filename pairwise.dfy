/**
 * Pairwise tabulation of MVP ballots: one `[A>B, B>A]` counter per unordered
 * pair of nominees, keyed `(min, max)`. Two absence policies exist side by
 * side: `pairwise_comparison` in `src/baseball/Pairwise/pairwise.py` lets a
 * named player beat an unnamed one, while `pairwise_comparison_specific` there
 * and both functions of the `Condorcet/pairwise_comparison.py` data script
 * count only the ballots naming both players.
 */
module Pairwise {
  import opened Ballots

  /** A counter key: the two names ordered, `(min(p1, p2), max(p1, p2))`. */
  datatype Key = Key(lo: Cand, hi: Cand)

  /** A `[A>B, B>A]` counter. */
  datatype Tally = Tally(ab: nat, ba: nat)

  /** A line of the results file: `PlayerA,PlayerB,A>B,B>A`. */
  datatype Row = Row(a: Cand, b: Cand, ab: nat, ba: nat)

  function KeyOf(p1: Cand, p2: Cand): (k: Key)
    ensures k.lo <= k.hi
    ensures (k.lo == p1 && k.hi == p2) || (k.lo == p2 && k.hi == p1)
  {
    if p1 <= p2 then Key(p1, p2) else Key(p2, p1)
  }

  function Add(x: Tally, y: Tally): Tally
  {
    Tally(x.ab + y.ab, x.ba + y.ba)
  }

  /** The ballots `f` holds for. */
  function CountIf(ballots: seq<Ballot>, f: Ballot -> bool): nat
  {
    if ballots == [] then 0 else CountIf(ballots[..|ballots| - 1], f) + (if f(ballots[|ballots| - 1]) then 1 else 0)
  }

  // ------------------------------------------------------------ the keys

  /** The keys of `combinations(s, 2)`, in the combinations' order. */
  function AllPairs(s: seq<Cand>): seq<Key>
  {
    if s == [] then [] else seq(|s| - 1, j requires 0 <= j < |s| - 1 => KeyOf(s[0], s[j + 1])) + AllPairs(s[1..])
  }

  /** The keys of the counter dictionary, in its order: a repeated key keeps its first place. */
  function PairKeys(players: seq<Cand>): (keys: seq<Key>)
    ensures Distinct(keys)
  {
    Dedup(AllPairs(players))
  }

  /** A key is present exactly when two positions of the list form it. */
  lemma AllPairsMembers(s: seq<Cand>, k: Key)
    ensures k in AllPairs(s) <==> exists i, j | 0 <= i < j < |s| :: k == KeyOf(s[i], s[j])
  {
    if k in AllPairs(s) {
      AllPairsSound(s, k);
    }
    if exists i, j | 0 <= i < j < |s| :: k == KeyOf(s[i], s[j]) {
      var i, j :| 0 <= i < j < |s| && k == KeyOf(s[i], s[j]);
      AllPairsComplete(s, i, j);
    }
  }

  lemma {:induction false} AllPairsSound(s: seq<Cand>, k: Key)
    requires k in AllPairs(s)
    ensures exists i, j | 0 <= i < j < |s| :: k == KeyOf(s[i], s[j])
  {
    var head := seq(|s| - 1, j requires 0 <= j < |s| - 1 => KeyOf(s[0], s[j + 1]));
    assert AllPairs(s) == head + AllPairs(s[1..]);
    if k in head {
      var j :| 0 <= j < |head| && head[j] == k;
      assert k == KeyOf(s[0], s[j + 1]);
    } else {
      AllPairsSound(s[1..], k);
      var i, j :| 0 <= i < j < |s[1..]| && k == KeyOf(s[1..][i], s[1..][j]);
      assert k == KeyOf(s[i + 1], s[j + 1]);
    }
  }

  lemma {:induction false} AllPairsComplete(s: seq<Cand>, i: nat, j: nat)
    requires i < j < |s|
    ensures KeyOf(s[i], s[j]) in AllPairs(s)
  {
    var head := seq(|s| - 1, j requires 0 <= j < |s| - 1 => KeyOf(s[0], s[j + 1]));
    assert AllPairs(s) == head + AllPairs(s[1..]);
    if i == 0 {
      assert head[j - 1] == KeyOf(s[i], s[j]);
    } else {
      AllPairsComplete(s[1..], i - 1, j - 1);
      assert s[1..][i - 1] == s[i] && s[1..][j - 1] == s[j];
    }
  }

  // ----------------------------------------------- present beats absent

  /** What one ballot adds to a counter under `pairwise_comparison`: the earlier of the two, or the one named. */
  function PresentVote(b: Ballot, k: Key): Tally
  {
    if k.lo in b && k.hi in b then (if IndexOf(b, k.lo) < IndexOf(b, k.hi) then Tally(1, 0) else Tally(0, 1))
    else if k.lo in b then Tally(1, 0)
    else if k.hi in b then Tally(0, 1)
    else Tally(0, 0)
  }

  function PresentVotes(ballots: seq<Ballot>, k: Key): Tally
  {
    if ballots == [] then Tally(0, 0) else Add(PresentVotes(ballots[..|ballots| - 1], k), PresentVote(ballots[|ballots| - 1], k))
  }

  /** The results file under this policy, one row per key in the dictionary's order. */
  function PresentRows(keys: seq<Key>, ballots: seq<Ballot>): (rows: seq<Row>)
    ensures |rows| == |keys|
  {
    seq(|keys|, i requires 0 <= i < |keys| => Row(keys[i].lo, keys[i].hi, PresentVotes(ballots, keys[i]).ab, PresentVotes(ballots, keys[i]).ba))
  }

  /** One ballot applied to every counter, in the dictionary's order. */
  method PresentBallot(counts0: map<Key, Tally>, keys: seq<Key>, b: Ballot) returns (counts: map<Key, Tally>)
    requires Distinct(keys) && forall k :: k in counts0 <==> k in keys
    ensures counts.Keys == counts0.Keys
    ensures forall k | k in counts :: counts[k] == Add(counts0[k], PresentVote(b, k))
  {
    counts := counts0;
    ghost var done: set<Key> := {};
    for i := 0 to |keys|
      invariant counts.Keys == counts0.Keys
      invariant forall j | 0 <= j < i :: keys[j] in done
      invariant forall j | i <= j < |keys| :: keys[j] !in done
      invariant forall k | k in counts :: counts[k] == if k in done then Add(counts0[k], PresentVote(b, k)) else counts0[k]
    {
      var c := PresentCounter(counts[keys[i]], keys[i], b);
      counts := counts[keys[i] := c];
      done := done + {keys[i]};
    }
    forall k | k in counts ensures k in done {
      var j :| 0 <= j < |keys| && keys[j] == k;
    }
  }

  /** One counter's update: `ab` when `lo` is ranked ahead or alone, `ba` when `hi` is. */
  method PresentCounter(c0: Tally, k: Key, b: Ballot) returns (c: Tally)
    ensures c == Add(c0, PresentVote(b, k))
  {
    var p1, p2 := k.lo, k.hi;
    c := c0;
    if p1 in b && p2 in b {
      if IndexOf(b, p1) < IndexOf(b, p2) {
        c := Tally(c.ab + 1, c.ba);
      } else {
        c := Tally(c.ab, c.ba + 1);
      }
    } else if p1 in b && p2 !in b {
      c := Tally(c.ab + 1, c.ba);
    } else if p2 in b && p1 !in b {
      c := Tally(c.ab, c.ba + 1);
    }
  }

  /** `pairwise_comparison` of `pairwise.py`, its file written as rows. */
  method PairwiseComparison(players: seq<Cand>, ballots: seq<Ballot>) returns (rows: seq<Row>)
    ensures rows == PresentRows(PairKeys(players), ballots)
  {
    var keys := PairKeys(players);
    var counts := map k | k in keys :: Tally(0, 0);
    for n := 0 to |ballots|
      invariant forall k :: k in counts <==> k in keys
      invariant forall k | k in counts :: counts[k] == PresentVotes(ballots[..n], k)
    {
      assert ballots[..n + 1][..n] == ballots[..n];
      counts := PresentBallot(counts, keys, ballots[n]);
    }
    assert ballots[..|ballots|] == ballots;
    rows := [];
    for i := 0 to |keys|
      invariant rows == PresentRows(keys[..i], ballots)
    {
      var c := counts[keys[i]];
      PresentRowsSnoc(keys, i, ballots);
      rows := rows + [Row(keys[i].lo, keys[i].hi, c.ab, c.ba)];
    }
    assert keys[..|keys|] == keys;
  }

  lemma PresentRowsSnoc(keys: seq<Key>, i: nat, ballots: seq<Ballot>)
    requires i < |keys|
    ensures PresentRows(keys[..i + 1], ballots) == PresentRows(keys[..i], ballots) + [Row(keys[i].lo, keys[i].hi, PresentVotes(ballots, keys[i]).ab, PresentVotes(ballots, keys[i]).ba)]
  {
    var l, r := PresentRows(keys[..i + 1], ballots), PresentRows(keys[..i], ballots);
    forall m | 0 <= m < i ensures l[m] == r[m] {
      assert keys[..i + 1][m] == keys[..i][m];
    }
  }

  /** The ballots on which `x` beats `y` when the named beat the unnamed. */
  function Prefers(ballots: seq<Ballot>, x: Cand, y: Cand): nat
  {
    PresentVotes(ballots, Key(x, y)).ab
  }

  /** The second count of a counter is the first count of the swapped pair: the key's order is immaterial. */
  lemma {:induction false} PresentSwap(ballots: seq<Ballot>, x: Cand, y: Cand)
    requires x != y
    ensures PresentVotes(ballots, Key(x, y)).ba == Prefers(ballots, y, x)
  {
    if ballots != [] {
      var n := |ballots| - 1;
      var b := ballots[n];
      PresentSwap(ballots[..n], x, y);
      if x in b && y in b {
        assert IndexOf(b, x) != IndexOf(b, y);
      }
    }
  }

  /** Each ballot naming either player counts exactly once, for one of them. */
  lemma {:induction false} PresentTotal(ballots: seq<Ballot>, k: Key)
    ensures PresentVotes(ballots, k).ab + PresentVotes(ballots, k).ba == CountIf(ballots, b => k.lo in b || k.hi in b)
  {
    if ballots != [] {
      PresentTotal(ballots[..|ballots| - 1], k);
    }
  }

  // ------------------------------------------------- both present only

  /** The positions in `(i, j)` whose entry forms key `k` with the entry at `i`. */
  function KeyHits(b: Ballot, i: nat, j: nat, k: Key): nat
    requires i < |b| && j <= |b|
  {
    if j <= i + 1 then 0 else KeyHits(b, i, j - 1, k) + (if KeyOf(b[i], b[j - 1]) == k then 1 else 0)
  }

  /** The pairs of `combinations(rankings, 2)` starting before `n` that hit the counter `k`. */
  function PairHits(b: Ballot, n: nat, k: Key): nat
    requires n <= |b|
  {
    if n == 0 then 0 else PairHits(b, n - 1, k) + KeyHits(b, n - 1, |b|, k)
  }

  /** `h` hits on counter `k`, each for the player listed first. */
  function Credit(b: Ballot, k: Key, h: nat): Tally
  {
    if k.lo in b && k.hi in b then (if IndexOf(b, k.lo) < IndexOf(b, k.hi) then Tally(h, 0) else Tally(0, h)) else Tally(0, 0)
  }

  /** What one ballot adds to a counter under the both-present policy. */
  function BothVote(b: Ballot, k: Key): Tally
  {
    Credit(b, k, PairHits(b, |b|, k))
  }

  function BothVotes(ballots: seq<Ballot>, k: Key): Tally
  {
    if ballots == [] then Tally(0, 0) else Add(BothVotes(ballots[..|ballots| - 1], k), BothVote(ballots[|ballots| - 1], k))
  }

  /** The results file under this policy, one row per key in the dictionary's order. */
  function BothRows(keys: seq<Key>, ballots: seq<Ballot>): (rows: seq<Row>)
    ensures |rows| == |keys|
  {
    seq(|keys|, i requires 0 <= i < |keys| => Row(keys[i].lo, keys[i].hi, BothVotes(ballots, keys[i]).ab, BothVotes(ballots, keys[i]).ba))
  }

  /** The pairs `(i, j)` of one ballot for a fixed `i`, applied to the counters. */
  method CountPairsFrom(counts0: map<Key, Tally>, b: Ballot, i: nat) returns (counts: map<Key, Tally>)
    requires i < |b|
    ensures counts.Keys == counts0.Keys
    ensures forall k | k in counts :: counts[k] == Add(counts0[k], Credit(b, k, KeyHits(b, i, |b|, k)))
  {
    counts := counts0;
    for j := i + 1 to |b|
      invariant counts.Keys == counts0.Keys
      invariant forall k | k in counts :: counts[k] == Add(counts0[k], Credit(b, k, KeyHits(b, i, j, k)))
    {
      ghost var before := counts;
      counts := CountPair(counts, b, i, j);
      PairStep(counts0, before, counts, b, i, j);
    }
  }

  /** The pair `(i, j)`: the counter it forms, if listed, gains a vote for the one ranked higher. */
  function BumpPair(counts: map<Key, Tally>, b: Ballot, i: nat, j: nat): map<Key, Tally>
    requires i < j < |b|
  {
    var key := KeyOf(b[i], b[j]);
    if key !in counts then counts
    else if IndexOf(b, key.lo) < IndexOf(b, key.hi) then counts[key := Tally(counts[key].ab + 1, counts[key].ba)]
    else counts[key := Tally(counts[key].ab, counts[key].ba + 1)]
  }

  method CountPair(counts0: map<Key, Tally>, b: Ballot, i: nat, j: nat) returns (counts: map<Key, Tally>)
    requires i < j < |b|
    ensures counts == BumpPair(counts0, b, i, j)
  {
    counts := counts0;
    var key := KeyOf(b[i], b[j]);
    if key in counts {
      var p1, p2 := key.lo, key.hi;
      if IndexOf(b, p1) < IndexOf(b, p2) {
        counts := counts[key := Tally(counts[key].ab + 1, counts[key].ba)];
      } else {
        counts := counts[key := Tally(counts[key].ab, counts[key].ba + 1)];
      }
    }
  }

  /** Every counter after the pair `(i, j)`, from the counters before it. */
  lemma PairStep(counts0: map<Key, Tally>, before: map<Key, Tally>, counts: map<Key, Tally>, b: Ballot, i: nat, j: nat)
    requires i < j < |b|
    requires before.Keys == counts0.Keys && counts == BumpPair(before, b, i, j)
    requires forall k | k in before :: before[k] == Add(counts0[k], Credit(b, k, KeyHits(b, i, j, k)))
    ensures counts.Keys == counts0.Keys
    ensures forall k | k in counts :: counts[k] == Add(counts0[k], Credit(b, k, KeyHits(b, i, j + 1, k)))
  {
    var key := KeyOf(b[i], b[j]);
    assert counts.Keys == before.Keys;
    forall k | k in counts ensures counts[k] == Add(counts0[k], Credit(b, k, KeyHits(b, i, j + 1, k))) {
      HitStep(b, i, j, k, counts0[k], before[k], counts[k]);
    }
  }

  /** The counter `k` after the pair `(i, j)`, from its value before: one more hit when the pair forms `k`. */
  lemma HitStep(b: Ballot, i: nat, j: nat, k: Key, c0: Tally, c: Tally, d: Tally)
    requires i < j < |b|
    requires c == Add(c0, Credit(b, k, KeyHits(b, i, j, k)))
    requires d == if KeyOf(b[i], b[j]) != k then c
      else if IndexOf(b, k.lo) < IndexOf(b, k.hi) then Tally(c.ab + 1, c.ba) else Tally(c.ab, c.ba + 1)
    ensures d == Add(c0, Credit(b, k, KeyHits(b, i, j + 1, k)))
  {
    var hit := KeyOf(b[i], b[j]) == k;
    if hit {
      assert b[i] in b && b[j] in b;
    }
    TallyStep(b, k, KeyHits(b, i, j, k), hit, c0, c, d);
  }

  /** One more hit on a counter whose players are both on the ballot: one more vote for the one ranked higher. */
  lemma TallyStep(b: Ballot, k: Key, h: nat, hit: bool, c0: Tally, c: Tally, d: Tally)
    requires hit ==> k.lo in b && k.hi in b
    requires c == Add(c0, Credit(b, k, h))
    requires d == if !hit then c
      else if IndexOf(b, k.lo) < IndexOf(b, k.hi) then Tally(c.ab + 1, c.ba) else Tally(c.ab, c.ba + 1)
    ensures d == Add(c0, Credit(b, k, h + if hit then 1 else 0))
  {
  }

  /** One ballot's pairs of positions, applied to the counters. */
  method CountBallot(counts0: map<Key, Tally>, b: Ballot) returns (counts: map<Key, Tally>)
    ensures counts.Keys == counts0.Keys
    ensures forall k | k in counts :: counts[k] == Add(counts0[k], BothVote(b, k))
  {
    counts := counts0;
    for i := 0 to |b|
      invariant counts.Keys == counts0.Keys
      invariant forall k | k in counts :: counts[k] == Add(counts0[k], Credit(b, k, PairHits(b, i, k)))
    {
      ghost var mid := counts;
      counts := CountPairsFrom(counts, b, i);
      PositionStep(counts0, mid, counts, b, i);
    }
  }

  /** The pairs starting at position `i`, added to the pairs before it, are the pairs before `i + 1`. */
  lemma PositionStep(counts0: map<Key, Tally>, mid: map<Key, Tally>, counts: map<Key, Tally>, b: Ballot, i: nat)
    requires i < |b|
    requires mid.Keys == counts0.Keys && forall k | k in mid :: mid[k] == Add(counts0[k], Credit(b, k, PairHits(b, i, k)))
    requires counts.Keys == mid.Keys && forall k | k in counts :: counts[k] == Add(mid[k], Credit(b, k, KeyHits(b, i, |b|, k)))
    ensures forall k | k in counts :: counts[k] == Add(counts0[k], Credit(b, k, PairHits(b, i + 1, k)))
  {
    forall k | k in counts ensures counts[k] == Add(counts0[k], Credit(b, k, PairHits(b, i + 1, k))) {
      var h1, h2 := PairHits(b, i, k), KeyHits(b, i, |b|, k);
      assert PairHits(b, i + 1, k) == h1 + h2;
      CreditAdd(b, k, h1, h2);
      AddAssoc(counts0[k], Credit(b, k, h1), Credit(b, k, h2));
    }
  }

  lemma AddAssoc(x: Tally, y: Tally, z: Tally)
    ensures Add(Add(x, y), z) == Add(x, Add(y, z))
  {
  }

  lemma CreditAdd(b: Ballot, k: Key, h1: nat, h2: nat)
    ensures Credit(b, k, h1 + h2) == Add(Credit(b, k, h1), Credit(b, k, h2))
  {
  }

  /**
   * `pairwise_comparison_specific` of `pairwise.py`, and both functions of
   * the `Condorcet/pairwise_comparison.py` data script (there a pair of names
   * with no counter is only reported, and nothing changes).
   */
  method PairwiseComparisonSpecific(players: seq<Cand>, ballots: seq<Ballot>) returns (rows: seq<Row>)
    ensures rows == BothRows(PairKeys(players), ballots)
  {
    var keys := PairKeys(players);
    var counts := map k | k in keys :: Tally(0, 0);
    for n := 0 to |ballots|
      invariant forall k :: k in counts <==> k in keys
      invariant forall k | k in counts :: counts[k] == BothVotes(ballots[..n], k)
    {
      assert ballots[..n + 1][..n] == ballots[..n];
      counts := CountBallot(counts, ballots[n]);
    }
    assert ballots[..|ballots|] == ballots;
    rows := [];
    for i := 0 to |keys|
      invariant rows == BothRows(keys[..i], ballots)
    {
      var c := counts[keys[i]];
      BothRowsSnoc(keys, i, ballots);
      rows := rows + [Row(keys[i].lo, keys[i].hi, c.ab, c.ba)];
    }
    assert keys[..|keys|] == keys;
  }

  lemma BothRowsSnoc(keys: seq<Key>, i: nat, ballots: seq<Ballot>)
    requires i < |keys|
    ensures BothRows(keys[..i + 1], ballots) == BothRows(keys[..i], ballots) + [Row(keys[i].lo, keys[i].hi, BothVotes(ballots, keys[i]).ab, BothVotes(ballots, keys[i]).ba)]
  {
    var l, r := BothRows(keys[..i + 1], ballots), BothRows(keys[..i], ballots);
    forall m | 0 <= m < i ensures l[m] == r[m] {
      assert keys[..i + 1][m] == keys[..i][m];
    }
  }

  // ------------------------------------------------- both-present counts

  /** On a repeat-free ballot, position `i` pairs with `k`'s other player at most once, and only if that player comes later. */
  lemma {:induction false} KeyHitsDistinct(b: Ballot, i: nat, j: nat, k: Key)
    requires Distinct(b) && i < j <= |b| && k.lo < k.hi
    ensures KeyHits(b, i, j, k) == if (b[i] == k.lo && k.hi in b[i + 1..j]) || (b[i] == k.hi && k.lo in b[i + 1..j]) then 1 else 0
  {
    if j > i + 1 {
      KeyHitsDistinct(b, i, j - 1, k);
      assert b[i + 1..j] == b[i + 1..j - 1] + [b[j - 1]];
      assert b[i] != b[j - 1];
      assert b[j - 1] !in b[i + 1..j - 1] by {
        forall m | i + 1 <= m < j - 1 ensures b[m] != b[j - 1] {
        }
      }
    }
  }

  /** On a repeat-free ballot, the pairs starting before `n` hit `k` once when the earlier of its players sits before `n`. */
  lemma {:induction false} PairHitsDistinct(b: Ballot, n: nat, k: Key)
    requires Distinct(b) && n <= |b| && k.lo < k.hi
    ensures PairHits(b, n, k) == if k.lo in b && k.hi in b && (IndexOf(b, k.lo) < n || IndexOf(b, k.hi) < n) then 1 else 0
  {
    if n > 0 {
      var i := n - 1;
      PairHitsDistinct(b, i, k);
      KeyHitsDistinct(b, i, |b|, k);
      if b[i] == k.lo {
        IndexOfAt(b, i);
        HeldLater(b, i, k.hi);
      } else if b[i] == k.hi {
        IndexOfAt(b, i);
        HeldLater(b, i, k.lo);
      }
    }
  }

  /** For a player other than the one at `i`: held after `i` exactly when held at all and first met after `i`. */
  lemma HeldLater(b: Ballot, i: nat, x: Cand)
    requires Distinct(b) && i < |b| && b[i] != x
    ensures x in b[i + 1..] <==> x in b && IndexOf(b, x) > i
  {
    if x in b[i + 1..] {
      var m :| i + 1 <= m < |b| && b[m] == x;
      IndexOfAt(b, m);
    }
  }

  /** On a repeat-free ballot the both-present vote is one for whichever of the two is ranked higher, nothing if either is missing. */
  lemma BothVoteDistinct(b: Ballot, k: Key)
    requires Distinct(b) && k.lo < k.hi
    ensures BothVote(b, k) == if k.lo in b && k.hi in b then (if IndexOf(b, k.lo) < IndexOf(b, k.hi) then Tally(1, 0) else Tally(0, 1)) else Tally(0, 0)
  {
    PairHitsDistinct(b, |b|, k);
  }

  /** On repeat-free ballots, each ballot naming both players counts once, for the one ranked higher; no other ballot counts. */
  lemma {:induction false} BothCounts(ballots: seq<Ballot>, k: Key)
    requires forall i | 0 <= i < |ballots| :: Distinct(ballots[i])
    requires k.lo < k.hi
    ensures BothVotes(ballots, k).ab == CountIf(ballots, b => k.lo in b && k.hi in b && IndexOf(b, k.lo) < IndexOf(b, k.hi))
    ensures BothVotes(ballots, k).ab + BothVotes(ballots, k).ba == CountIf(ballots, b => k.lo in b && k.hi in b)
  {
    if ballots != [] {
      var n := |ballots| - 1;
      BothCounts(ballots[..n], k);
      BothVoteDistinct(ballots[n], k);
    }
  }

  /** The two policies differ by the ballots naming one player of the pair only, each a win for that player. */
  lemma {:induction false} PresentIsBothPlusAlone(ballots: seq<Ballot>, k: Key)
    requires forall i | 0 <= i < |ballots| :: Distinct(ballots[i])
    requires k.lo < k.hi
    ensures PresentVotes(ballots, k).ab == BothVotes(ballots, k).ab + CountIf(ballots, b => k.lo in b && k.hi !in b)
    ensures PresentVotes(ballots, k).ba == BothVotes(ballots, k).ba + CountIf(ballots, b => k.hi in b && k.lo !in b)
  {
    if ballots != [] {
      var n := |ballots| - 1;
      PresentIsBothPlusAlone(ballots[..n], k);
      BothVoteDistinct(ballots[n], k);
    }
  }
}
