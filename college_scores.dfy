/**
 * Poll ballots and their positional tally as the college-poll scripts
 * compute it: a ballot is the list of ranked teams, best first; a team at
 * 0-based position `idx` earns `weights[idx]` when `idx < len(weights)`;
 * the scores live in a dictionary whose keys follow the order in which the
 * teams are first met, which decides ties once the teams are sorted by
 * score.
 */
module CollegeScores {
  import opened Wrappers
  import opened Ballots
  import opened Ranking
  import opened Removal
  import opened Search

  /** `list(range(25, 0, -1))`: 25 points for first place down to 1 for 25th. */
  const CollegeWeights: seq<int> := seq(25, i requires 0 <= i < 25 => 25 - i)

  lemma CollegeWeightsShape()
    ensures |CollegeWeights| == 25 && UnitGaps(CollegeWeights) && StrictlyDecreasing(CollegeWeights)
  {
  }

  // -------------------------------------------------------------- the tally

  /** Whether meeting a team at position `idx` creates its key: always, or only when the position earns points. */
  predicate Keyed(keyAll: bool, w: seq<int>, idx: nat)
  {
    keyAll || idx < |w|
  }

  /** The keys after the positions of `b` before `j`: `seen`, then each newly met keyed team. */
  function AddKeysUpTo(seen: seq<Cand>, b: Ballot, j: nat, keyAll: bool, w: seq<int>): (s: seq<Cand>)
    requires j <= |b|
    ensures |seen| <= |s| && s[..|seen|] == seen
    ensures Distinct(seen) ==> Distinct(s)
  {
    if j == 0 then seen
    else
      var s := AddKeysUpTo(seen, b, j - 1, keyAll, w);
      if Keyed(keyAll, w, j - 1) && b[j - 1] !in s then s + [b[j - 1]] else s
  }

  /** The dictionary's key order after tallying `ballots`. */
  function KeyOrder(ballots: seq<Ballot>, keyAll: bool, w: seq<int>): (s: seq<Cand>)
    ensures Distinct(s)
  {
    if ballots == [] then []
    else
      var b := ballots[|ballots| - 1];
      AddKeysUpTo(KeyOrder(ballots[..|ballots| - 1], keyAll, w), b, |b|, keyAll, w)
  }

  /** The points `p` earns from the positions of `b` before `j`, every position holding it counted. */
  function CellSum(b: Ballot, j: nat, w: seq<int>, p: Cand): int
    requires j <= |b|
  {
    if j == 0 then 0 else CellSum(b, j - 1, w, p) + (if b[j - 1] == p then WeightAt(w, j - 1) else 0)
  }

  /** A team's positional score over all ballots. */
  function PosScore(ballots: seq<Ballot>, w: seq<int>, p: Cand): int
  {
    if ballots == [] then 0
    else
      var b := ballots[|ballots| - 1];
      PosScore(ballots[..|ballots| - 1], w, p) + CellSum(b, |b|, w, p)
  }

  /** The score dictionary: the keys in their order, each with its score. */
  function ScoreTable(order: seq<Cand>, ballots: seq<Ballot>, w: seq<int>): (t: seq<Entry>)
    ensures Players(t) == order
    ensures forall i | 0 <= i < |t| :: t[i].points == PosScore(ballots, w, order[i])
  {
    var t := seq(|order|, i requires 0 <= i < |order| => Entry(order[i], PosScore(ballots, w, order[i])));
    assert Players(t) == order;
    t
  }

  /** A team with no key yet has earned nothing from the positions met so far. */
  lemma {:induction false} UnkeyedEarnsNothing(seen: seq<Cand>, b: Ballot, j: nat, keyAll: bool, w: seq<int>, p: Cand)
    requires j <= |b| && p !in AddKeysUpTo(seen, b, j, keyAll, w)
    ensures CellSum(b, j, w, p) == 0
  {
    if j > 0 {
      UnkeyedEarnsNothing(seen, b, j - 1, keyAll, w, p);
    }
  }

  lemma {:induction false} UnkeyedScoresNothing(ballots: seq<Ballot>, keyAll: bool, w: seq<int>, p: Cand)
    requires p !in KeyOrder(ballots, keyAll, w)
    ensures PosScore(ballots, w, p) == 0
  {
    if ballots != [] {
      var n := |ballots| - 1;
      var b := ballots[n];
      UnkeyedScoresNothing(ballots[..n], keyAll, w, p);
      UnkeyedEarnsNothing(KeyOrder(ballots[..n], keyAll, w), b, |b|, keyAll, w, p);
    }
  }

  /** Every row holds its points before the ballot plus what the positions of `b` before `j` gave it. */
  predicate TalliedUpTo(t0: seq<Entry>, t: seq<Entry>, b: Ballot, j: nat, w: seq<int>)
    requires j <= |b|
  {
    forall i | 0 <= i < |t| :: t[i].points == (if i < |t0| then t0[i].points else 0) + CellSum(b, j, w, t[i].player)
  }

  /** The loop over one ballot's positions, on the dictionary as a table in key order. */
  method TallyBallot(t0: seq<Entry>, b: Ballot, w: seq<int>, keyAll: bool) returns (t: seq<Entry>)
    requires Distinct(Players(t0))
    ensures Players(t) == AddKeysUpTo(Players(t0), b, |b|, keyAll, w)
    ensures TalliedUpTo(t0, t, b, |b|, w)
  {
    t := t0;
    assert TalliedUpTo(t0, t, b, 0, w);
    assert Players(t) == AddKeysUpTo(Players(t0), b, 0, keyAll, w);
    var j := 0;
    while j < |b|
      invariant 0 <= j <= |b|
      invariant Players(t) == AddKeysUpTo(Players(t0), b, j, keyAll, w)
      invariant TalliedUpTo(t0, t, b, j, w)
    {
      t := TallyPosition(t0, t, b, j, w, keyAll);
      j := j + 1;
    }
  }

  /** Position `j` of the ballot: a new key, or points added to an existing one. */
  method TallyPosition(t0: seq<Entry>, t: seq<Entry>, b: Ballot, j: nat, w: seq<int>, keyAll: bool) returns (u: seq<Entry>)
    requires j < |b| && Distinct(Players(t0))
    requires Players(t) == AddKeysUpTo(Players(t0), b, j, keyAll, w)
    requires TalliedUpTo(t0, t, b, j, w)
    ensures Players(u) == AddKeysUpTo(Players(t0), b, j + 1, keyAll, w)
    ensures TalliedUpTo(t0, u, b, j + 1, w)
  {
    var team := b[j];
    if Keyed(keyAll, w, j) && team !in Players(t) {
      // a new key, holding the position's points if it earns any
      var v := if j < |w| then w[j] else 0;
      NewKeyStep(t0, t, b, j, w, keyAll);
      u := t + [Entry(team, v)];
    } else if j < |w| {
      var k := IndexOf(Players(t), team);
      PointsStep(t0, t, b, j, w, keyAll, k);
      u := t[k := Entry(team, t[k].points + w[j])];
    } else {
      UnpaidStep(t0, t, b, j, w, keyAll);
      u := t;
    }
  }

  lemma NewKeyStep(t0: seq<Entry>, t: seq<Entry>, b: Ballot, j: nat, w: seq<int>, keyAll: bool)
    requires j < |b| && Distinct(Players(t0))
    requires Players(t) == AddKeysUpTo(Players(t0), b, j, keyAll, w) && TalliedUpTo(t0, t, b, j, w)
    requires Keyed(keyAll, w, j) && b[j] !in Players(t)
    ensures Players(t + [Entry(b[j], WeightAt(w, j))]) == AddKeysUpTo(Players(t0), b, j + 1, keyAll, w)
    ensures TalliedUpTo(t0, t + [Entry(b[j], WeightAt(w, j))], b, j + 1, w)
  {
    UnkeyedEarnsNothing(Players(t0), b, j, keyAll, w, b[j]);
    PlayersAppend(t, [Entry(b[j], WeightAt(w, j))]);
    assert |t| >= |t0| by {
      assert |Players(t)| >= |Players(t0)|;
    }
  }

  lemma PointsStep(t0: seq<Entry>, t: seq<Entry>, b: Ballot, j: nat, w: seq<int>, keyAll: bool, k: nat)
    requires j < |b| && j < |w| && Distinct(Players(t0))
    requires Players(t) == AddKeysUpTo(Players(t0), b, j, keyAll, w) && TalliedUpTo(t0, t, b, j, w)
    requires k < |t| && t[k].player == b[j]
    ensures Players(t[k := Entry(b[j], t[k].points + w[j])]) == AddKeysUpTo(Players(t0), b, j + 1, keyAll, w)
    ensures TalliedUpTo(t0, t[k := Entry(b[j], t[k].points + w[j])], b, j + 1, w)
  {
    var t' := t[k := Entry(b[j], t[k].points + w[j])];
    assert Players(t') == Players(t);
    assert b[j] in Players(t) by {
      assert Players(t)[k] == b[j];
    }
    forall i | 0 <= i < |t'|
      ensures t'[i].points == (if i < |t0| then t0[i].points else 0) + CellSum(b, j + 1, w, t'[i].player)
    {
      if i != k {
        assert Players(t)[i] != Players(t)[k];
      }
    }
  }

  lemma UnpaidStep(t0: seq<Entry>, t: seq<Entry>, b: Ballot, j: nat, w: seq<int>, keyAll: bool)
    requires j < |b| && |w| <= j
    requires Players(t) == AddKeysUpTo(Players(t0), b, j, keyAll, w) && TalliedUpTo(t0, t, b, j, w)
    requires !(Keyed(keyAll, w, j) && b[j] !in Players(t))
    ensures Players(t) == AddKeysUpTo(Players(t0), b, j + 1, keyAll, w)
    ensures TalliedUpTo(t0, t, b, j + 1, w)
  {
  }

  /**
   * The tally: for every ballot, for every position, the team's key is
   * created (`keyAll`) or created on its first points (a `defaultdict`),
   * and `weights[idx]` is added when `idx < len(weights)`.
   */
  method Tally(ballots: seq<Ballot>, w: seq<int>, keyAll: bool) returns (t: seq<Entry>)
    ensures t == ScoreTable(KeyOrder(ballots, keyAll, w), ballots, w)
  {
    t := [];
    var n := 0;
    while n < |ballots|
      invariant 0 <= n <= |ballots|
      invariant Players(t) == KeyOrder(ballots[..n], keyAll, w)
      invariant forall i | 0 <= i < |t| :: t[i].points == PosScore(ballots[..n], w, t[i].player)
    {
      var b := ballots[n];
      assert ballots[..n + 1][..n] == ballots[..n];
      var t' := TallyBallot(t, b, w, keyAll);
      forall i | |t| <= i < |t'| ensures PosScore(ballots[..n], w, t'[i].player) == 0 {
        assert Players(t')[i] == t'[i].player;
        assert Players(t') == AddKeysUpTo(Players(t), b, |b|, keyAll, w);
        assert t'[i].player !in Players(t) by {
          assert Distinct(Players(t'));
          assert Players(t')[..|t|] == Players(t);
        }
        UnkeyedScoresNothing(ballots[..n], keyAll, w, t'[i].player);
      }
      t := t';
      n := n + 1;
    }
    assert ballots[..n] == ballots;
  }

  /** The keys `seen` extended by every team of `s` not yet among them, in order. */
  function AddKeys(seen: seq<Cand>, s: seq<Cand>): seq<Cand>
  {
    if s == [] then seen
    else
      var a := AddKeys(seen, s[..|s| - 1]);
      if s[|s| - 1] in a then a else a + [s[|s| - 1]]
  }

  /** When every position creates a key, the keys are the ballot's teams in first-met order. */
  lemma {:induction false} AllKeyedAddKeys(seen: seq<Cand>, b: Ballot, j: nat, keyAll: bool, w: seq<int>)
    requires j <= |b| && (keyAll || |b| <= |w|)
    ensures AddKeysUpTo(seen, b, j, keyAll, w) == AddKeys(seen, b[..j])
  {
    if j > 0 {
      AllKeyedAddKeys(seen, b, j - 1, keyAll, w);
      assert b[..j][..j - 1] == b[..j - 1];
    }
  }

  lemma {:induction false} AddKeysMembers(seen: seq<Cand>, s: seq<Cand>)
    ensures forall x :: x in AddKeys(seen, s) <==> x in seen || x in s
  {
    if s != [] {
      var n := |s| - 1;
      AddKeysMembers(seen, s[..n]);
      assert s == s[..n] + [s[n]];
    }
  }

  /** Striking teams from the keys is collecting keys from the struck lists. */
  lemma {:induction false} AddKeysStrike(seen: seq<Cand>, s: seq<Cand>, r: seq<Cand>)
    ensures AddKeys(Strike(seen, r), Strike(s, r)) == Strike(AddKeys(seen, s), r)
  {
    if s != [] {
      var init, y := s[..|s| - 1], s[|s| - 1];
      assert s == init + [y];
      AddKeysStrike(seen, init, r);
      AddKeysStrikeStep(seen, init, y, r);
    }
  }

  lemma StrikeSnoc(s: seq<Cand>, y: Cand, r: seq<Cand>)
    ensures Strike(s + [y], r) == Strike(s, r) + (if y in r then [] else [y])
  {
    assert (s + [y])[..|s|] == s;
  }

  lemma AddKeysSnoc(seen: seq<Cand>, s: seq<Cand>, y: Cand)
    ensures AddKeys(seen, s + [y]) == var a := AddKeys(seen, s); if y in a then a else a + [y]
  {
    assert (s + [y])[..|s|] == s;
  }

  lemma AddKeysStrikeStep(seen: seq<Cand>, s: seq<Cand>, y: Cand, r: seq<Cand>)
    requires AddKeys(Strike(seen, r), Strike(s, r)) == Strike(AddKeys(seen, s), r)
    ensures AddKeys(Strike(seen, r), Strike(s + [y], r)) == Strike(AddKeys(seen, s + [y]), r)
  {
    var a := AddKeys(seen, s);
    var sa := Strike(a, r);
    var ss := Strike(s, r);
    var lhs := AddKeys(Strike(seen, r), Strike(s + [y], r));
    var rhs := Strike(AddKeys(seen, s + [y]), r);
    AddKeysSnoc(seen, s, y);
    StrikeSnoc(s, y, r);
    if y in r {
      assert Strike(s + [y], r) == ss;
      assert lhs == sa;
      if y !in a {
        StrikeSnoc(a, y, r);
      }
      assert rhs == sa;
    } else {
      assert Strike(s + [y], r) == ss + [y];
      AddKeysSnoc(Strike(seen, r), ss, y);
      assert lhs == if y in sa then sa else sa + [y];
      StrikeMember(a, r, y);
      if y in a {
        assert rhs == sa;
      } else {
        StrikeSnoc(a, y, r);
        assert rhs == sa + [y];
      }
    }
  }

  lemma StrikeMember(a: seq<Cand>, r: seq<Cand>, y: Cand)
    requires y !in r
    ensures y in Strike(a, r) <==> y in a
  {
  }

  /**
   * When every ballot fits the weights, the keys of the tally of the struck
   * ballots are the original keys with the removed teams struck out, in the
   * same order, whichever way keys are created.
   */
  lemma {:induction false} KeyOrderStrike(ballots: seq<Ballot>, r: seq<Cand>, w: seq<int>)
    requires forall i | 0 <= i < |ballots| :: |ballots[i]| <= |w|
    ensures KeyOrder(StrikeAll(ballots, r), true, w) == Strike(KeyOrder(ballots, false, w), r)
  {
    if ballots == [] {
      StrikeNone([], r);
    } else {
      var n := |ballots| - 1;
      var init, b := ballots[..n], ballots[n];
      var struck := StrikeAll(ballots, r);
      assert struck == StrikeAll(init, r) + [Strike(b, r)];
      assert struck[..n] == StrikeAll(init, r);
      KeyOrderStrike(init, r, w);
      KeyOrderStrikeStep(KeyOrder(init, false, w), b, r, w);
    }
  }

  /** One ballot of `KeyOrderStrike`: the struck ballot adds the struck keys. */
  lemma KeyOrderStrikeStep(k: seq<Cand>, b: Ballot, r: seq<Cand>, w: seq<int>)
    requires |b| <= |w|
    ensures AddKeysUpTo(Strike(k, r), Strike(b, r), |Strike(b, r)|, true, w) == Strike(AddKeysUpTo(k, b, |b|, false, w), r)
  {
    var sb := Strike(b, r);
    calc {
      AddKeysUpTo(Strike(k, r), sb, |sb|, true, w);
      { AllKeyedAddKeys(Strike(k, r), sb, |sb|, true, w); assert sb[..|sb|] == sb; }
      AddKeys(Strike(k, r), sb);
      { AddKeysStrike(k, b, r); }
      Strike(AddKeys(k, b), r);
      { AllKeyedAddKeys(k, b, |b|, false, w); assert b[..|b|] == b; }
      Strike(AddKeysUpTo(k, b, |b|, false, w), r);
    }
  }

  // --------------------------------------------------------------- lemmas

  /** On a repeat-free ballot a team's points are the weight of its one position. */
  lemma {:induction false} CellSumDistinct(b: Ballot, j: nat, w: seq<int>, p: Cand)
    requires Distinct(b) && j <= |b|
    ensures CellSum(b, j, w, p) == if p in b && IndexOf(b, p) < j then WeightAt(w, IndexOf(b, p)) else 0
  {
    if j > 0 {
      CellSumDistinct(b, j - 1, w, p);
      if b[j - 1] == p {
        IndexOfAt(b, j - 1);
      }
    }
  }

  /** On repeat-free ballots the tally is the positional score. */
  lemma {:induction false} PosScoreIsScore(ballots: seq<Ballot>, w: seq<int>, p: Cand)
    requires forall b | b in ballots :: Distinct(b)
    ensures PosScore(ballots, w, p) == Score(ballots, w, p)
  {
    if ballots != [] {
      var n := |ballots| - 1;
      assert forall b | b in ballots[..n] :: b in ballots;
      PosScoreIsScore(ballots[..n], w, p);
      assert ballots[n] in ballots;
      CellSumDistinct(ballots[n], |ballots[n]|, w, p);
    }
  }

  // ------------------------------------------------- one removal set's test

  /** `[s[i - 1] for i in ranks]`; `None` where an index raises. */
  function Picks(s: seq<Cand>, ranks: seq<nat>): (r: Option<seq<Cand>>)
    ensures r.Some? <==> forall j | 0 <= j < |ranks| :: PyAt(s, ranks[j] as int - 1).Some?
    ensures r.Some? ==> |r.value| == |ranks| && forall j | 0 <= j < |ranks| :: r.value[j] == PyAt(s, ranks[j] as int - 1).value
  {
    if ranks == [] then Some([])
    else
      var n := |ranks| - 1;
      match Picks(s, ranks[..n])
      case None => None
      case Some(ps) =>
        match PyAt(s, ranks[n] as int - 1)
        case None => None
        case Some(x) => Some(ps + [x])
  }

  /** `[org.index(x) + 1 for x in ps]`; `None` where `index` raises. */
  function PositionsIn(org: seq<Cand>, ps: seq<Cand>): (r: Option<seq<nat>>)
    ensures r.Some? <==> forall x | x in ps :: x in org
    ensures r.Some? ==> |r.value| == |ps| && forall j | 0 <= j < |ps| :: ps[j] in org && r.value[j] == IndexOf(org, ps[j]) + 1
  {
    if ps == [] then Some([])
    else
      var n := |ps| - 1;
      assert forall x | x in ps :: x in ps[..n] || x == ps[n];
      match PositionsIn(org, ps[..n])
      case None => None
      case Some(rs) => if ps[n] in org then Some(rs + [IndexOf(org, ps[n]) + 1]) else None
  }

  /**
   * The test of `temp_new.py` and `temp_new_2.py`: the teams at the target
   * positions of the original and of the new ranking, positions not
   * shifted; the original positions of the removed and of the new teams are
   * looked up only when the two lists differ.
   */
  function LazyStep(org: seq<Cand>, sorted: seq<Cand>, removed: seq<Cand>, targets: seq<nat>): Outcome
  {
    match Picks(org, targets)
    case None => LookupFailed
    case Some(targetTeams) =>
      match Picks(sorted, targets)
      case None => LookupFailed
      case Some(newTeams) =>
        if newTeams == targetTeams then NoParadox
        else
          match PositionsIn(org, removed)
          case None => LookupFailed
          case Some(removedRanks) =>
            match PositionsIn(org, newTeams)
            case None => LookupFailed
            case Some(newRanks) => Paradox(IIARecord(removed, removedRanks, targetTeams, targets, newTeams, newRanks))
  }

  /**
   * The test of `temp_original.py`: the same lists and positions, but all
   * four are computed before the comparison, so a failed lookup raises even
   * when the target teams did not change.
   */
  function EagerStep(org: seq<Cand>, sorted: seq<Cand>, removed: seq<Cand>, targets: seq<nat>): Outcome
  {
    match PositionsIn(org, removed)
    case None => LookupFailed
    case Some(removedRanks) =>
      match Picks(org, targets)
      case None => LookupFailed
      case Some(targetTeams) =>
        match Picks(sorted, targets)
        case None => LookupFailed
        case Some(newTeams) =>
          match PositionsIn(org, newTeams)
          case None => LookupFailed
          case Some(newRanks) =>
            if targetTeams != newTeams then Paradox(IIARecord(removed, removedRanks, targetTeams, targets, newTeams, newRanks))
            else NoParadox
  }

  /**
   * What the test reports: a paradox exactly when every target position
   * exists in both rankings, the teams there differ and every position
   * lookup succeeds; the record holds the removed teams and their original
   * positions, the original and new teams at the target positions, and the
   * new teams' original positions.
   */
  lemma LazyStepMeaning(org: seq<Cand>, sorted: seq<Cand>, removed: seq<Cand>, targets: seq<nat>)
    ensures LazyStep(org, sorted, removed, targets).NoParadox? <==>
      Picks(org, targets).Some? && Picks(sorted, targets) == Picks(org, targets)
    ensures LazyStep(org, sorted, removed, targets).Paradox? <==>
      && Picks(org, targets).Some? && Picks(sorted, targets).Some?
      && Picks(sorted, targets) != Picks(org, targets)
      && (forall x | x in removed :: x in org)
      && (forall x | x in Picks(sorted, targets).value :: x in org)
    ensures match LazyStep(org, sorted, removed, targets)
      case Paradox(rec) =>
        && rec.removed == removed && rec.originalRanks == targets
        && |rec.originalPlayers| == |rec.newPlayers| == |targets| && rec.originalPlayers != rec.newPlayers
        && (forall j | 0 <= j < |targets| ::
              && PyAt(org, targets[j] as int - 1) == Some(rec.originalPlayers[j])
              && PyAt(sorted, targets[j] as int - 1) == Some(rec.newPlayers[j])
              && rec.newRanks[j] == IndexOf(org, rec.newPlayers[j]) + 1)
        && |rec.removedRanks| == |removed|
        && (forall j | 0 <= j < |removed| :: rec.removedRanks[j] == IndexOf(org, removed[j]) + 1)
      case _ => true
  {
    var o := LazyStep(org, sorted, removed, targets);
    if Picks(org, targets).Some? && Picks(sorted, targets).Some? {
      var tt, nt := Picks(org, targets).value, Picks(sorted, targets).value;
      if nt != tt && PositionsIn(org, removed).Some? && PositionsIn(org, nt).Some? {
        assert o == Paradox(IIARecord(removed, PositionsIn(org, removed).value, tt, targets, nt, PositionsIn(org, nt).value));
      } else {
        assert !o.Paradox?;
      }
    } else {
      assert o.LookupFailed?;
    }
  }

  /** Computing every lookup first only adds failures: where `temp_original.py` does not raise, it agrees with the later scripts. */
  lemma EagerRefinesLazy(org: seq<Cand>, sorted: seq<Cand>, removed: seq<Cand>, targets: seq<nat>)
    ensures !EagerStep(org, sorted, removed, targets).LookupFailed? ==>
      EagerStep(org, sorted, removed, targets) == LazyStep(org, sorted, removed, targets)
    ensures LazyStep(org, sorted, removed, targets).Paradox? ==>
      EagerStep(org, sorted, removed, targets) == LazyStep(org, sorted, removed, targets)
  {
  }

  // ------------------------------------------------------------- the report

  /** The records of a run, in order: the paradoxes found; everything else adds nothing. */
  function Records(os: seq<Outcome>): (rs: seq<IIARecord>)
    ensures |rs| <= |os|
  {
    if os == [] then []
    else Records(os[..|os| - 1]) + (match os[|os| - 1] case Paradox(r) => [r] case _ => [])
  }

  /** A record is reported exactly when some removal set found that paradox. */
  lemma {:induction false} RecordsFrom(os: seq<Outcome>, r: IIARecord)
    ensures r in Records(os) <==> Paradox(r) in os
  {
    if os != [] {
      var n := |os| - 1;
      RecordsFrom(os[..n], r);
      assert os == os[..n] + [os[n]];
    }
  }

  /** Some removal set raised. */
  predicate AnyRaised(os: seq<Outcome>)
  {
    exists i | 0 <= i < |os| :: os[i].LookupFailed?
  }

  lemma AnyRaisedSnoc(os: seq<Outcome>, o: Outcome)
    ensures AnyRaised(os + [o]) <==> AnyRaised(os) || o.LookupFailed?
  {
    if AnyRaised(os) {
      var i :| 0 <= i < |os| && os[i].LookupFailed?;
      assert (os + [o])[i] == os[i];
    }
    if o.LookupFailed? {
      assert (os + [o])[|os|] == o;
    }
  }

  lemma RecordsSnoc(os: seq<Outcome>, o: Outcome)
    ensures Records(os + [o]) == Records(os) + (match o case Paradox(r) => [r] case _ => [])
  {
    assert (os + [o])[..|os|] == os;
  }

  // ------------------------------------------------------------ eligibility

  /** The teams whose 1-based position in `org` is not a target, in order. */
  function NonTargets(org: seq<Cand>, targets: seq<nat>): (e: seq<Cand>)
    ensures |e| <= |org|
  {
    if org == [] then []
    else NonTargets(org[..|org| - 1], targets) + (if |org| in targets then [] else [org[|org| - 1]])
  }

  /** `[team for i, team in enumerate(org) if i + 1 not in targets][:limit]`. */
  function EligibleTeams(org: seq<Cand>, targets: seq<nat>, limit: nat): seq<Cand>
  {
    TakeUpTo(NonTargets(org, targets), limit)
  }

  /**
   * The filter keeps exactly the teams at non-target positions, in order:
   * a team is kept iff some position of it is not a target; with a
   * repeat-free `org`, no team at a target position is eligible.
   */
  lemma {:induction false} NonTargetsMembers(org: seq<Cand>, targets: seq<nat>)
    ensures forall x :: x in NonTargets(org, targets) <==> exists i | 0 <= i < |org| :: org[i] == x && i + 1 !in targets
    ensures Distinct(org) ==> Distinct(NonTargets(org, targets))
  {
    if org != [] {
      var n := |org| - 1;
      NonTargetsMembers(org[..n], targets);
      var e := NonTargets(org[..n], targets);
      forall x ensures x in NonTargets(org, targets) <==> exists i | 0 <= i < |org| :: org[i] == x && i + 1 !in targets {
        if x in NonTargets(org, targets) && x !in e {
          assert org[n] == x && n + 1 !in targets;
        }
        if exists i | 0 <= i < |org| :: org[i] == x && i + 1 !in targets {
          var i :| 0 <= i < |org| && org[i] == x && i + 1 !in targets;
          if i < n {
            assert org[..n][i] == x;
          }
        }
      }
      if Distinct(org) {
        assert Distinct(org[..n]);
        if n + 1 !in targets {
          assert org[n] !in org[..n];
          assert org[n] !in e;
        }
      }
    }
  }

  /** Every team at a non-target position counts toward the eligible list: the filter drops one team per target position. */
  lemma {:induction false} NonTargetsLength(org: seq<Cand>, targets: seq<nat>)
    ensures |NonTargets(org, targets)| == |org| - |set i | 1 <= i <= |org| && i in targets|
  {
    if org != [] {
      var n := |org| - 1;
      NonTargetsLength(org[..n], targets);
      var a := set i | 1 <= i <= n && i in targets;
      var b := set i | 1 <= i <= |org| && i in targets;
      if |org| in targets {
        assert b == a + {|org|};
      } else {
        assert b == a;
      }
    }
  }
}
