/**
 * The pieces of the paradox search shared by its variants: removal sets drawn
 * as `itertools.combinations`, the eligibility filter on the original ranking,
 * the shift of a target position past removed candidates ranked above it, and
 * the record written when the candidates at the target positions change.
 */
module Search {
  import opened Wrappers
  import opened Ballots
  import opened Ranking

  // ------------------------------------------------------------ combinations

  /** `[x] + c` for every `c` in `cs`. */
  function PrependAll(x: Cand, cs: seq<seq<Cand>>): (r: seq<seq<Cand>>)
    ensures |r| == |cs| && forall i | 0 <= i < |cs| :: r[i] == [x] + cs[i]
  {
    if cs == [] then [] else PrependAll(x, cs[..|cs| - 1]) + [[x] + cs[|cs| - 1]]
  }

  /**
   * `itertools.combinations(s, k)`: every choice of `k` positions of `s`, the
   * chosen elements in their order in `s`, combinations in lexicographic order
   * of positions.
   */
  function Combinations(s: seq<Cand>, k: nat): (cs: seq<seq<Cand>>)
    ensures forall i | 0 <= i < |cs| :: |cs[i]| == k && forall x | x in cs[i] :: x in s
    ensures Distinct(s) ==> forall i | 0 <= i < |cs| :: Distinct(cs[i])
    decreases |s|
  {
    if k == 0 then [[]]
    else if s == [] then []
    else
      var with := PrependAll(s[0], Combinations(s[1..], k - 1));
      var rest := Combinations(s[1..], k);
      assert forall i | 0 <= i < |with| :: |with[i]| == k && forall x | x in with[i] :: x in s by {
        forall i | 0 <= i < |with| ensures |with[i]| == k && forall x | x in with[i] :: x in s {
          forall x | x in with[i] ensures x in s {
            if x != s[0] {
              assert x in s[1..];
            }
          }
        }
      }
      assert forall i | 0 <= i < |rest| :: forall x | x in rest[i] :: x in s by {
        forall i, x | 0 <= i < |rest| && x in rest[i] ensures x in s {
          assert x in s[1..];
        }
      }
      assert Distinct(s) ==> forall i | 0 <= i < |with| :: Distinct(with[i]) by {
        if Distinct(s) {
          assert Distinct(s[1..]);
          forall i | 0 <= i < |with| ensures Distinct(with[i]) {
            PrependDistinct(s, Combinations(s[1..], k - 1)[i]);
          }
        }
      }
      with + rest
  }

  function Binomial(n: nat, k: nat): nat
  {
    if k == 0 then 1 else if n == 0 then 0 else Binomial(n - 1, k - 1) + Binomial(n - 1, k)
  }

  /** There are `C(|s|, k)` combinations. */
  lemma {:induction false} CombinationsCount(s: seq<Cand>, k: nat)
    ensures |Combinations(s, k)| == Binomial(|s|, k)
    decreases |s|
  {
    if k != 0 && s != [] {
      CombinationsCount(s[1..], k - 1);
      CombinationsCount(s[1..], k);
    }
  }

  /** Each combination holds `k` elements of `s`, without repeats when `s` has none. */
  lemma CombinationsMembers(s: seq<Cand>, k: nat, c: seq<Cand>)
    requires c in Combinations(s, k)
    ensures |c| == k && (forall x | x in c :: x in s) && (Distinct(s) ==> Distinct(c))
  {
    var n :| 0 <= n < |Combinations(s, k)| && Combinations(s, k)[n] == c;
  }

  lemma PrependDistinct(s: seq<Cand>, d: seq<Cand>)
    requires s != [] && Distinct(s) && Distinct(d) && forall x | x in d :: x in s[1..]
    ensures Distinct([s[0]] + d)
  {
    var c := [s[0]] + d;
    forall a, b | 0 <= a < b < |c| ensures c[a] != c[b] {
      if a == 0 {
        assert c[b] == d[b - 1];
        assert d[b - 1] in s[1..];
      }
    }
  }

  // ------------------------------------------------------------- eligibility

  /** The players at 1-based ranks `ranks` of a table: `df.iloc[[r - 1 for r in ranks]]['Player']`. */
  function AtRanks(t: seq<Entry>, ranks: seq<nat>): (ps: seq<Cand>)
    requires forall i | 0 <= i < |ranks| :: 1 <= ranks[i] <= |t|
    ensures |ps| == |ranks| && forall i | 0 <= i < |ranks| :: ps[i] == t[ranks[i] - 1].player
  {
    if ranks == [] then [] else AtRanks(t, ranks[..|ranks| - 1]) + [t[ranks[|ranks| - 1] - 1].player]
  }

  /**
   * The players eligible for removal: those ranked above `maxRank` (rank
   * strictly less than it) that are not targets, in table order.
   */
  function Eligible(t: seq<Entry>, targets: seq<Cand>, maxRank: int): (e: seq<Cand>)
    ensures |e| <= |t|
    ensures forall p :: p in e <==> exists i | 0 <= i < |t| :: i + 1 < maxRank && t[i].player == p && p !in targets
    ensures Distinct(Players(t)) ==> Distinct(e)
  {
    if t == [] then []
    else
      var n := |t| - 1;
      var init := Eligible(t[..n], targets, maxRank);
      assert Players(t[..n]) == Players(t)[..n];
      var keep := n + 1 < maxRank && t[n].player !in targets;
      if keep then init + [t[n].player] else init
  }

  // ------------------------------------------------------- target positions

  /** `sum(1 for r in ranks if r < rank)`. */
  function CountBelow(ranks: seq<nat>, rank: nat): (n: nat)
    ensures n <= |ranks|
  {
    if ranks == [] then 0 else CountBelow(ranks[..|ranks| - 1], rank) + (if ranks[|ranks| - 1] < rank then 1 else 0)
  }

  /** A target's position after the removal: its rank less the number of removed candidates ranked above it. */
  function AdjustedPosition(rank: nat, removedRanks: seq<nat>): int
  {
    rank - CountBelow(removedRanks, rank)
  }

  /** Distinct integers drawn from `[lo, hi)` number at most `hi - lo`. */
  lemma {:induction false} Pigeonhole(s: seq<nat>, lo: nat, hi: nat)
    requires lo <= hi && Distinct(s) && forall x | x in s :: lo <= x < hi
    ensures |s| <= hi - lo
    decreases hi - lo
  {
    if s != [] {
      assert s[0] in s;
      var top: nat := hi - 1;
      if top in s {
        var j :| 0 <= j < |s| && s[j] == top;
        var s' := s[..j] + s[j + 1..];
        assert |s'| == |s| - 1;
        assert forall i | 0 <= i < |s'| :: s'[i] == if i < j then s[i] else s[i + 1];
        forall x | x in s' ensures lo <= x < top {
          var i :| 0 <= i < |s'| && s'[i] == x;
          var i' := if i < j then i else i + 1;
          assert x == s[i'] && i' != j;
          assert x in s;
          assert x != top;
        }
        assert Distinct(s') by {
          forall a, b | 0 <= a < b < |s'| ensures s'[a] != s'[b] {
            var a' := if a < j then a else a + 1;
            var b' := if b < j then b else b + 1;
            assert s'[a] == s[a'] && s'[b] == s[b'];
          }
        }
        Pigeonhole(s', lo, top);
      } else {
        forall x | x in s ensures lo <= x < top {
          assert x != top;
        }
        Pigeonhole(s, lo, top);
      }
    }
  }

  /** The entries of `s` below `rank`, and those above it. */
  function Below(s: seq<nat>, rank: nat): (b: seq<nat>)
    ensures |b| == CountBelow(s, rank)
    ensures forall x :: x in b <==> x in s && x < rank
    ensures Distinct(s) ==> Distinct(b)
  {
    if s == [] then []
    else
      var init := Below(s[..|s| - 1], rank);
      var x := s[|s| - 1];
      assert Distinct(s) ==> Distinct(s[..|s| - 1]) && x !in s[..|s| - 1];
      if x < rank then init + [x] else init
  }

  function Above(s: seq<nat>, rank: nat): (a: seq<nat>)
    ensures |a| == |s| - CountBelow(s, rank) - CountEqual(s, rank)
    ensures forall x :: x in a <==> x in s && x > rank
    ensures Distinct(s) ==> Distinct(a)
  {
    if s == [] then []
    else
      var init := Above(s[..|s| - 1], rank);
      var x := s[|s| - 1];
      assert Distinct(s) ==> Distinct(s[..|s| - 1]) && x !in s[..|s| - 1];
      if x > rank then init + [x] else init
  }

  function CountEqual(s: seq<nat>, rank: nat): (n: nat)
    ensures n <= |s|
    ensures rank !in s ==> n == 0
  {
    if s == [] then 0 else CountEqual(s[..|s| - 1], rank) + (if s[|s| - 1] == rank then 1 else 0)
  }

  /**
   * When the removed candidates hold distinct ranks of a table of `n` rows,
   * none of them the target's, the shifted target position lies in `1..rank`
   * and within the `n - |removed|` rows left.
   */
  lemma AdjustedInRange(rank: nat, removedRanks: seq<nat>, n: nat)
    requires 1 <= rank <= n
    requires Distinct(removedRanks) && forall r | r in removedRanks :: 1 <= r <= n && r != rank
    ensures 1 <= AdjustedPosition(rank, removedRanks) <= rank
    ensures AdjustedPosition(rank, removedRanks) <= n - |removedRanks|
  {
    var b := Below(removedRanks, rank);
    var a := Above(removedRanks, rank);
    Pigeonhole(b, 1, rank);
    Pigeonhole(a, rank + 1, n + 1);
  }

  // ---------------------------------------------------------- one removal set

  /** One row of the paradox report; the contest labels copied into it are not modelled. */
  datatype IIARecord = IIARecord(
    removed: seq<Cand>, removedRanks: seq<nat>,
    originalPlayers: seq<Cand>, originalRanks: seq<nat>,
    newPlayers: seq<Cand>, newRanks: seq<nat>)

  /** What one removal set yields: a report row, nothing, or a failed lookup (the `except` path). */
  datatype Outcome = Paradox(record: IIARecord) | NoParadox | LookupFailed

  /** The original ranks of `ps`; `None` when one of them is not in the table, where `.iloc[0]` raises. */
  function RanksOf(t: seq<Entry>, ps: seq<Cand>): (r: Option<seq<nat>>)
    ensures r.Some? <==> forall p | p in ps :: p in Players(t)
    ensures r.Some? ==> |r.value| == |ps| && forall i | 0 <= i < |ps| :: ps[i] in Players(t) && r.value[i] == RankOf(t, ps[i])
  {
    if ps == [] then Some([])
    else
      var n := |ps| - 1;
      assert forall p | p in ps :: p in ps[..n] || p == ps[n];
      match RanksOf(t, ps[..n])
      case None => None
      case Some(rs) => if ps[n] in Players(t) then Some(rs + [RankOf(t, ps[n])]) else None
  }

  /** The shifted target positions. */
  function Adjusted(targetRanks: seq<nat>, removedRanks: seq<nat>): (a: seq<int>)
    ensures |a| == |targetRanks| && forall i | 0 <= i < |a| :: a[i] == AdjustedPosition(targetRanks[i], removedRanks)
  {
    if targetRanks == [] then []
    else Adjusted(targetRanks[..|targetRanks| - 1], removedRanks) + [AdjustedPosition(targetRanks[|targetRanks| - 1], removedRanks)]
  }

  /** `new.iloc[a - 1]['Player']` for each shifted position; `None` where the lookup raises. */
  function PlayersAt(nt: seq<Entry>, positions: seq<int>): (r: Option<seq<Cand>>)
    ensures r.Some? <==> forall i | 0 <= i < |positions| :: PyAt(nt, positions[i] - 1).Some?
    ensures r.Some? ==> |r.value| == |positions|
    ensures r.Some? ==> forall i | 0 <= i < |positions| :: r.value[i] == PyAt(nt, positions[i] - 1).value.player
  {
    if positions == [] then Some([])
    else
      var n := |positions| - 1;
      match PlayersAt(nt, positions[..n])
      case None => None
      case Some(ps) =>
        match PyAt(nt, positions[n] - 1)
        case None => None
        case Some(e) => Some(ps + [e.player])
  }

  /**
   * One removal set: look up the removed players' original ranks, shift the
   * target positions past those ranked above them, read the players now at the
   * shifted positions of the new table, and report when they differ from the
   * original targets, giving the new players' original ranks.
   */
  function Step(t: seq<Entry>, nt: seq<Entry>, combo: seq<Cand>, targetRanks: seq<nat>): (o: Outcome)
    requires forall i | 0 <= i < |targetRanks| :: 1 <= targetRanks[i] <= |t|
    ensures o.NoParadox? <==>
      RanksOf(t, combo).Some? &&
      PlayersAt(nt, Adjusted(targetRanks, RanksOf(t, combo).value)) == Some(AtRanks(t, targetRanks))
    ensures o.Paradox? ==>
      && o.record.removed == combo && o.record.originalRanks == targetRanks
      && o.record.originalPlayers == AtRanks(t, targetRanks)
      && o.record.newPlayers != o.record.originalPlayers
      && RanksOf(t, combo) == Some(o.record.removedRanks)
      && PlayersAt(nt, Adjusted(targetRanks, o.record.removedRanks)) == Some(o.record.newPlayers)
      && RanksOf(t, o.record.newPlayers) == Some(o.record.newRanks)
  {
    match RanksOf(t, combo)
    case None => LookupFailed
    case Some(removedRanks) =>
      match PlayersAt(nt, Adjusted(targetRanks, removedRanks))
      case None => LookupFailed
      case Some(newPlayers) =>
        var targets := AtRanks(t, targetRanks);
        if newPlayers == targets then NoParadox
        else
          match RanksOf(t, newPlayers)
          case None => LookupFailed
          case Some(newRanks) => Paradox(IIARecord(combo, removedRanks, targets, targetRanks, newPlayers, newRanks))
  }

  /** `[df[df['Player'] == p]['Rank'].iloc[0] for p in ps]`, stopping at the first player that is missing. */
  method LookupRanks(t: seq<Entry>, ps: seq<Cand>) returns (r: Option<seq<nat>>)
    ensures r == RanksOf(t, ps)
  {
    var ranks: seq<nat> := [];
    for i := 0 to |ps|
      invariant RanksOf(t, ps[..i]) == Some(ranks)
    {
      if ps[i] !in Players(t) {
        assert ps[i] in ps;
        return None;
      }
      RanksOfSnoc(t, ps, i);
      ranks := ranks + [RankOf(t, ps[i])];
    }
    assert ps[..|ps|] == ps;
    return Some(ranks);
  }

  /** One more player found: its rank joins the ranks found so far. */
  lemma RanksOfSnoc(t: seq<Entry>, ps: seq<Cand>, i: nat)
    requires i < |ps| && ps[i] in Players(t) && RanksOf(t, ps[..i]).Some?
    ensures RanksOf(t, ps[..i + 1]) == Some(RanksOf(t, ps[..i]).value + [RankOf(t, ps[i])])
  {
    assert ps[..i + 1][..i] == ps[..i];
  }

  /** `new.iloc[adjustments[rank] - 1]['Player']` for each target rank, the adjustments kept in a dictionary. */
  method LookupShifted(nt: seq<Entry>, targetRanks: seq<nat>, removedRanks: seq<nat>) returns (r: Option<seq<Cand>>)
    ensures r == PlayersAt(nt, Adjusted(targetRanks, removedRanks))
  {
    var adjustments := AdjustmentsOf(targetRanks, removedRanks);
    r := LookupAdjusted(nt, targetRanks, adjustments, Adjusted(targetRanks, removedRanks));
  }

  /** The lookups `new.iloc[adjustments[rank] - 1]['Player']`, in target order; `None` at the first that raises. */
  method LookupAdjusted(nt: seq<Entry>, targetRanks: seq<nat>, adjustments: map<nat, int>, ghost positions: seq<int>) returns (r: Option<seq<Cand>>)
    requires |positions| == |targetRanks|
    requires forall j | 0 <= j < |targetRanks| :: targetRanks[j] in adjustments && adjustments[targetRanks[j]] == positions[j]
    ensures r == PlayersAt(nt, positions)
  {
    var found: seq<Cand> := [];
    var i := 0;
    while i < |targetRanks|
      invariant 0 <= i <= |targetRanks|
      invariant PlayersAt(nt, positions[..i]) == Some(found)
    {
      var a := adjustments[targetRanks[i]];
      match PyAt(nt, a - 1) {
        case None =>
          PlayersAtMissing(nt, positions, i);
          return None;
        case Some(e) =>
          PlayersAtStep(nt, positions, i, found);
          found := found + [e.player];
      }
      i := i + 1;
    }
    assert positions[..i] == positions;
    return Some(found);
  }

  /** The `adjustments` dictionary: each target rank mapped to its shifted position. */
  method AdjustmentsOf(targetRanks: seq<nat>, removedRanks: seq<nat>) returns (adjustments: map<nat, int>)
    ensures forall j | 0 <= j < |targetRanks| :: targetRanks[j] in adjustments
    ensures forall q | q in adjustments :: adjustments[q] == AdjustedPosition(q, removedRanks)
  {
    adjustments := map[];
    var i := 0;
    while i < |targetRanks|
      invariant 0 <= i <= |targetRanks|
      invariant forall j | 0 <= j < i :: targetRanks[j] in adjustments
      invariant forall q | q in adjustments :: adjustments[q] == AdjustedPosition(q, removedRanks)
    {
      adjustments := adjustments[targetRanks[i] := AdjustedPosition(targetRanks[i], removedRanks)];
      i := i + 1;
    }
  }

  /** One lookup that raises makes the whole lookup raise. */
  lemma PlayersAtMissing(nt: seq<Entry>, positions: seq<int>, i: nat)
    requires i < |positions| && PyAt(nt, positions[i] - 1).None?
    ensures PlayersAt(nt, positions).None?
  {
  }

  lemma PlayersAtStep(nt: seq<Entry>, positions: seq<int>, i: nat, found: seq<Cand>)
    requires i < |positions| && PlayersAt(nt, positions[..i]) == Some(found) && PyAt(nt, positions[i] - 1).Some?
    ensures PlayersAt(nt, positions[..i + 1]) == Some(found + [PyAt(nt, positions[i] - 1).value.player])
  {
    assert positions[..i + 1] == positions[..i] + [positions[i]];
    PlayersAtSnoc(nt, positions[..i], positions[i]);
  }

  lemma PlayersAtSnoc(nt: seq<Entry>, ps: seq<int>, a: int)
    requires PlayersAt(nt, ps).Some? && PyAt(nt, a - 1).Some?
    ensures PlayersAt(nt, ps + [a]) == Some(PlayersAt(nt, ps).value + [PyAt(nt, a - 1).value.player])
  {
    assert (ps + [a])[..|ps|] == ps;
  }

  /** One removal set's attempt: a failed recalculation raises, otherwise the step runs. */
  method AttemptStep(t: seq<Entry>, nt: Option<seq<Entry>>, combo: seq<Cand>, targetRanks: seq<nat>) returns (o: Outcome)
    requires forall i | 0 <= i < |targetRanks| :: 1 <= targetRanks[i] <= |t|
    ensures o == Attempt(t, nt, combo, targetRanks)
  {
    if nt.None? {
      return LookupFailed;
    }
    o := RunStep(t, nt.value, combo, targetRanks);
  }

  /** The body of the `try` block for one removal set. */
  method RunStep(t: seq<Entry>, nt: seq<Entry>, combo: seq<Cand>, targetRanks: seq<nat>) returns (o: Outcome)
    requires forall i | 0 <= i < |targetRanks| :: 1 <= targetRanks[i] <= |t|
    ensures o == Step(t, nt, combo, targetRanks)
  {
    var targets := AtRanks(t, targetRanks);
    var removedRanks := LookupRanks(t, combo);
    if removedRanks.None? {
      return LookupFailed;
    }
    var newPlayers := LookupShifted(nt, targetRanks, removedRanks.value);
    if newPlayers.None? {
      return LookupFailed;
    }
    if newPlayers.value == targets {
      return NoParadox;
    }
    var newRanks := LookupRanks(t, newPlayers.value);
    if newRanks.None? {
      return LookupFailed;
    }
    return Paradox(IIARecord(combo, removedRanks.value, targets, targetRanks, newPlayers.value, newRanks.value));
  }

  /** In a table without repeated players, different players hold different ranks. */
  lemma RankOfInjective(t: seq<Entry>, p: Cand, q: Cand)
    requires Distinct(Players(t)) && p in Players(t) && q in Players(t) && p != q
    ensures RankOf(t, p) != RankOf(t, q)
  {
  }

  /** Removing `combo` from a table without repeats, then sorting: `|combo|` fewer rows, all from the table. */
  lemma DropSortShape(t: seq<Entry>, combo: seq<Cand>)
    requires Distinct(Players(t)) && Distinct(combo) && forall p | p in combo :: p in Players(t)
    ensures |SortDesc(Drop(t, combo))| == |t| - |combo|
    ensures forall e | e in SortDesc(Drop(t, combo)) :: e.player in Players(t) && e.player !in combo
  {
    var d := Drop(t, combo);
    assert |d| == |t| - |combo| by {
      DropPlayers(t, combo);
      StrikeLength(Players(t), combo);
      CountInAll(Players(t), combo);
    }
    SortDescProps(d);
    SortDescMembers(d);
    forall e | e in SortDesc(d) ensures e.player in Players(t) && e.player !in combo {
      EntryPlayer(t, e);
    }
  }

  /** A row of the table puts its player in the candidate column. */
  lemma EntryPlayer(t: seq<Entry>, e: Entry)
    requires e in t
    ensures e.player in Players(t)
  {
    var k :| 0 <= k < |t| && t[k] == e;
    assert Players(t)[k] == e.player;
  }

  /**
   * On a table without repeats, with removed players drawn from the table
   * and none of them a target, and a new table of the remaining rows, no
   * lookup of the search step fails: the `except` branch is never taken.
   */
  lemma StepSucceeds(t: seq<Entry>, nt: seq<Entry>, combo: seq<Cand>, targetRanks: seq<nat>)
    requires forall i | 0 <= i < |targetRanks| :: 1 <= targetRanks[i] <= |t|
    requires Distinct(Players(t)) && Distinct(combo)
    requires forall p | p in combo :: p in Players(t) && p !in AtRanks(t, targetRanks)
    requires |nt| == |t| - |combo| && forall e | e in nt :: e.player in Players(t)
    ensures !Step(t, nt, combo, targetRanks).LookupFailed?
  {
    var rr := RanksOf(t, combo).value;
    RemovedRanksShape(t, combo, targetRanks);
    var adj := Adjusted(targetRanks, rr);
    AdjustedAllInRange(targetRanks, rr, |t|);
    NewPlayersFound(t, nt, adj);
    StepCases(t, nt, combo, targetRanks);
  }

  /** The step fails only where one of its three lookups does. */
  lemma StepCases(t: seq<Entry>, nt: seq<Entry>, combo: seq<Cand>, targetRanks: seq<nat>)
    requires forall i | 0 <= i < |targetRanks| :: 1 <= targetRanks[i] <= |t|
    requires RanksOf(t, combo).Some?
    requires PlayersAt(nt, Adjusted(targetRanks, RanksOf(t, combo).value)).Some?
    requires RanksOf(t, PlayersAt(nt, Adjusted(targetRanks, RanksOf(t, combo).value)).value).Some?
    ensures !Step(t, nt, combo, targetRanks).LookupFailed?
  {
    var rr := RanksOf(t, combo).value;
    var np := PlayersAt(nt, Adjusted(targetRanks, rr)).value;
    var targets := AtRanks(t, targetRanks);
    if np != targets {
      var nr := RanksOf(t, np).value;
      assert Step(t, nt, combo, targetRanks) == Paradox(IIARecord(combo, rr, targets, targetRanks, np, nr));
    }
  }

  lemma AdjustedAllInRange(targetRanks: seq<nat>, rr: seq<nat>, n: nat)
    requires forall i | 0 <= i < |targetRanks| :: 1 <= targetRanks[i] <= n
    requires Distinct(rr) && forall r | r in rr :: 1 <= r <= n && r !in targetRanks
    ensures forall i | 0 <= i < |targetRanks| :: 1 <= Adjusted(targetRanks, rr)[i] <= n - |rr|
  {
    forall i | 0 <= i < |targetRanks| ensures 1 <= Adjusted(targetRanks, rr)[i] <= n - |rr| {
      AdjustedInRange(targetRanks[i], rr, n);
    }
  }

  /** The removed players' ranks are distinct, in range, and none is a target rank. */
  lemma RemovedRanksShape(t: seq<Entry>, combo: seq<Cand>, targetRanks: seq<nat>)
    requires forall i | 0 <= i < |targetRanks| :: 1 <= targetRanks[i] <= |t|
    requires Distinct(Players(t)) && Distinct(combo)
    requires forall p | p in combo :: p in Players(t) && p !in AtRanks(t, targetRanks)
    ensures RanksOf(t, combo).Some?
    ensures Distinct(RanksOf(t, combo).value)
    ensures forall r | r in RanksOf(t, combo).value :: 1 <= r <= |t| && r !in targetRanks
  {
    var rr := RanksOf(t, combo).value;
    forall a, b | 0 <= a < b < |rr| ensures rr[a] != rr[b] {
      RankOfInjective(t, combo[a], combo[b]);
    }
    forall r | r in rr ensures 1 <= r <= |t| && r !in targetRanks {
      var j :| 0 <= j < |rr| && rr[j] == r;
      assert combo[j] in combo;
      RankNotTarget(t, targetRanks, combo[j]);
    }
  }

  /** A player not at a target rank does not hold one. */
  lemma RankNotTarget(t: seq<Entry>, targetRanks: seq<nat>, p: Cand)
    requires forall i | 0 <= i < |targetRanks| :: 1 <= targetRanks[i] <= |t|
    requires p in Players(t) && p !in AtRanks(t, targetRanks)
    ensures RankOf(t, p) !in targetRanks
  {
    var targets := AtRanks(t, targetRanks);
    var r := RankOf(t, p);
    assert forall i | 0 <= i < |targets| :: targets[i] != p;
    forall i | 0 <= i < |targetRanks| ensures targetRanks[i] != r {
      assert t[targetRanks[i] - 1].player != p;
    }
  }

  /** Positions within the new table find players, all of whom have an original rank. */
  lemma NewPlayersFound(t: seq<Entry>, nt: seq<Entry>, adj: seq<int>)
    requires forall i | 0 <= i < |adj| :: 1 <= adj[i] <= |nt|
    requires forall e | e in nt :: e.player in Players(t)
    ensures PlayersAt(nt, adj).Some?
    ensures RanksOf(t, PlayersAt(nt, adj).value).Some?
  {
    var np := PlayersAt(nt, adj);
    forall p | p in np.value ensures p in Players(t) {
      var i :| 0 <= i < |np.value| && np.value[i] == p;
      assert nt[adj[i] - 1] in nt;
    }
  }

  // ------------------------------------------------------------ the report

  /**
   * One removal set inside the `try` block: a recalculation that raised
   * (`None`) counts as a failed lookup; the except branch skips both.
   */
  function Attempt(t: seq<Entry>, nt: Option<seq<Entry>>, combo: seq<Cand>, targetRanks: seq<nat>): (o: Outcome)
    requires forall i | 0 <= i < |targetRanks| :: 1 <= targetRanks[i] <= |t|
    ensures !o.LookupFailed? ==> nt.Some? && o == Step(t, nt.value, combo, targetRanks)
  {
    match nt
    case None => LookupFailed
    case Some(n) => Step(t, n, combo, targetRanks)
  }

  /** The report rows of a run over `combos`, `tables[i]` being the new table for `combos[i]`. */
  function Collect(t: seq<Entry>, tables: seq<Option<seq<Entry>>>, combos: seq<seq<Cand>>, targetRanks: seq<nat>): seq<IIARecord>
    requires |tables| == |combos|
    requires forall i | 0 <= i < |targetRanks| :: 1 <= targetRanks[i] <= |t|
  {
    if combos == [] then []
    else
      var n := |combos| - 1;
      Collect(t, tables[..n], combos[..n], targetRanks)
        + (match Attempt(t, tables[n], combos[n], targetRanks) case Paradox(r) => [r] case _ => [])
  }

  /** One more attempt extends the report by its record, if it finds a paradox. */
  lemma CollectSnoc(t: seq<Entry>, tables: seq<Option<seq<Entry>>>, combos: seq<seq<Cand>>, targetRanks: seq<nat>, i: nat)
    requires |tables| == |combos| && i < |combos|
    requires forall j | 0 <= j < |targetRanks| :: 1 <= targetRanks[j] <= |t|
    ensures Collect(t, tables[..i + 1], combos[..i + 1], targetRanks) ==
      Collect(t, tables[..i], combos[..i], targetRanks) +
      (match Attempt(t, tables[i], combos[i], targetRanks) case Paradox(r) => [r] case _ => [])
  {
    assert tables[..i + 1][..i] == tables[..i] && combos[..i + 1][..i] == combos[..i];
  }

  /** Some attempt of the run raises. */
  predicate AnyFails(t: seq<Entry>, tables: seq<Option<seq<Entry>>>, combos: seq<seq<Cand>>, targetRanks: seq<nat>)
    requires |tables| == |combos|
    requires forall i | 0 <= i < |targetRanks| :: 1 <= targetRanks[i] <= |t|
  {
    exists i | 0 <= i < |combos| :: Attempt(t, tables[i], combos[i], targetRanks).LookupFailed?
  }

  /**
   * The report of a run without an exception handler: an attempt that
   * raises aborts the whole run; otherwise it is the skipping report.
   */
  function CollectStrict(t: seq<Entry>, tables: seq<Option<seq<Entry>>>, combos: seq<seq<Cand>>, targetRanks: seq<nat>): Option<seq<IIARecord>>
    requires |tables| == |combos|
    requires forall i | 0 <= i < |targetRanks| :: 1 <= targetRanks[i] <= |t|
  {
    if AnyFails(t, tables, combos, targetRanks) then None else Some(Collect(t, tables, combos, targetRanks))
  }

  /**
   * What a report row says: the original targets and their ranks, and the
   * original ranks of the removed and of the new players.
   */
  predicate ValidRecord(t: seq<Entry>, targetRanks: seq<nat>, r: IIARecord)
    requires forall i | 0 <= i < |targetRanks| :: 1 <= targetRanks[i] <= |t|
  {
    && r.originalPlayers == AtRanks(t, targetRanks) && r.originalRanks == targetRanks
    && |r.newPlayers| == |targetRanks|
    && RanksMatch(t, r.newPlayers, r.newRanks)
    && RanksMatch(t, r.removed, r.removedRanks)
  }

  /** `rs[i]` is the 1-based position of `ps[i]` in the table. */
  predicate RanksMatch(t: seq<Entry>, ps: seq<Cand>, rs: seq<nat>)
  {
    |rs| == |ps| && forall i | 0 <= i < |rs| :: 1 <= rs[i] <= |t| && t[rs[i] - 1].player == ps[i]
  }

  lemma StepRecord(t: seq<Entry>, nt: seq<Entry>, combo: seq<Cand>, targetRanks: seq<nat>)
    requires forall i | 0 <= i < |targetRanks| :: 1 <= targetRanks[i] <= |t|
    requires Step(t, nt, combo, targetRanks).Paradox?
    ensures Step(t, nt, combo, targetRanks).record.removed == combo
    ensures ValidRecord(t, targetRanks, Step(t, nt, combo, targetRanks).record)
  {
    var r := Step(t, nt, combo, targetRanks).record;
    RecordFrom(t, nt, targetRanks, r);
  }

  lemma RecordFrom(t: seq<Entry>, nt: seq<Entry>, targetRanks: seq<nat>, r: IIARecord)
    requires forall i | 0 <= i < |targetRanks| :: 1 <= targetRanks[i] <= |t|
    requires RanksOf(t, r.removed) == Some(r.removedRanks)
    requires PlayersAt(nt, Adjusted(targetRanks, r.removedRanks)) == Some(r.newPlayers)
    requires RanksOf(t, r.newPlayers) == Some(r.newRanks)
    requires r.originalPlayers == AtRanks(t, targetRanks) && r.originalRanks == targetRanks
    ensures ValidRecord(t, targetRanks, r)
  {
    assert |r.newPlayers| == |Adjusted(targetRanks, r.removedRanks)|;
    RanksOfPositions(t, r.newPlayers, r.newRanks);
    RanksOfPositions(t, r.removed, r.removedRanks);
  }

  /** The ranks found by `RanksOf` are the 1-based positions of the players. */
  lemma RanksOfPositions(t: seq<Entry>, ps: seq<Cand>, rs: seq<nat>)
    requires RanksOf(t, ps) == Some(rs)
    ensures RanksMatch(t, ps, rs)
  {
    forall i | 0 <= i < |rs| ensures 1 <= rs[i] <= |t| && t[rs[i] - 1].player == ps[i] {
      assert rs[i] == RankOf(t, ps[i]);
    }
  }

  /** Every report row is the row of one of the removal sets. */
  lemma {:induction false} CollectFrom(t: seq<Entry>, tables: seq<Option<seq<Entry>>>, combos: seq<seq<Cand>>, targetRanks: seq<nat>)
    requires |tables| == |combos|
    requires forall i | 0 <= i < |targetRanks| :: 1 <= targetRanks[i] <= |t|
    ensures forall r | r in Collect(t, tables, combos, targetRanks) ::
      exists i | 0 <= i < |combos| :: Attempt(t, tables[i], combos[i], targetRanks) == Paradox(r)
  {
    if combos != [] {
      var n := |combos| - 1;
      CollectFrom(t, tables[..n], combos[..n], targetRanks);
      forall r | r in Collect(t, tables, combos, targetRanks)
        ensures exists i | 0 <= i < |combos| :: Attempt(t, tables[i], combos[i], targetRanks) == Paradox(r)
      {
        if r in Collect(t, tables[..n], combos[..n], targetRanks) {
          var i :| 0 <= i < n && Attempt(t, tables[..n][i], combos[..n][i], targetRanks) == Paradox(r);
          assert tables[..n][i] == tables[i] && combos[..n][i] == combos[i];
        } else {
          assert Attempt(t, tables[n], combos[n], targetRanks) == Paradox(r);
        }
      }
    }
  }

  /**
   * Every report row comes from one of the removal sets and names different
   * players at the target positions than the original ranking did.
   */
  lemma CollectProps(t: seq<Entry>, tables: seq<Option<seq<Entry>>>, combos: seq<seq<Cand>>, targetRanks: seq<nat>)
    requires |tables| == |combos|
    requires forall i | 0 <= i < |targetRanks| :: 1 <= targetRanks[i] <= |t|
    ensures forall r | r in Collect(t, tables, combos, targetRanks) :: r.removed in combos && ValidRecord(t, targetRanks, r)
  {
    CollectFrom(t, tables, combos, targetRanks);
    forall r | r in Collect(t, tables, combos, targetRanks) ensures r.removed in combos && ValidRecord(t, targetRanks, r) {
      var i :| 0 <= i < |combos| && Attempt(t, tables[i], combos[i], targetRanks) == Paradox(r);
      StepRecord(t, tables[i].value, combos[i], targetRanks);
    }
  }

  /** An eligible player is a non-target ranked above `maxRank`. */
  lemma EligibleRank(t: seq<Entry>, targets: seq<Cand>, maxRank: int, p: Cand)
    requires Distinct(Players(t)) && p in Eligible(t, targets, maxRank)
    ensures p in Players(t) && p !in targets && RankOf(t, p) < maxRank
  {
    var i :| 0 <= i < |t| && i + 1 < maxRank && t[i].player == p && p !in targets;
    assert Players(t)[i] == p;
    IndexOfAt(Players(t), i);
  }

  /** Each removal set has `k` distinct players, each a non-target ranked above `maxRank`. */
  lemma ComboEligible(t: seq<Entry>, targets: seq<Cand>, maxRank: int, k: nat, c: seq<Cand>)
    requires Distinct(Players(t)) && c in Combinations(Eligible(t, targets, maxRank), k)
    ensures |c| == k && Distinct(c)
    ensures forall p | p in c :: p in Players(t) && p !in targets && RankOf(t, p) < maxRank
  {
    CombinationsMembers(Eligible(t, targets, maxRank), k, c);
    forall p | p in c ensures p in Players(t) && p !in targets && RankOf(t, p) < maxRank {
      EligibleRank(t, targets, maxRank, p);
    }
  }

  /** Over the combinations of the eligible players, every report row removes `k` distinct eligible players. */
  lemma RemovedAreEligible(t: seq<Entry>, tables: seq<Option<seq<Entry>>>, targetRanks: seq<nat>, k: nat, maxRank: int)
    requires forall i | 0 <= i < |targetRanks| :: 1 <= targetRanks[i] <= |t|
    requires Distinct(Players(t))
    requires |tables| == |Combinations(Eligible(t, AtRanks(t, targetRanks), maxRank), k)|
    ensures var targets := AtRanks(t, targetRanks);
      forall r | r in Collect(t, tables, Combinations(Eligible(t, targets, maxRank), k), targetRanks) ::
        |r.removed| == k && Distinct(r.removed) &&
        forall p | p in r.removed :: p in Players(t) && p !in targets && RankOf(t, p) < maxRank
  {
    var targets := AtRanks(t, targetRanks);
    var combos := Combinations(Eligible(t, targets, maxRank), k);
    CollectProps(t, tables, combos, targetRanks);
    forall r | r in Collect(t, tables, combos, targetRanks)
      ensures |r.removed| == k && Distinct(r.removed)
      ensures forall p | p in r.removed :: p in Players(t) && p !in targets && RankOf(t, p) < maxRank
    {
      ComboEligible(t, targets, maxRank, k, r.removed);
    }
  }
}
