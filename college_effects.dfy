/**
 * The precomputed-effects college-poll searches (`temp_new.py` and
 * `temp_new_2.py`): for every team `r` of the original ranking, the effect
 * map counts, for every team `t`, the ballot positions after `r`'s that hold
 * `t`; removing a set of teams adds those counts to the survivors' original
 * scores instead of scoring the ballots again.
 */
module CollegeEffects {
  import opened Wrappers
  import opened Ballots
  import opened Ranking
  import opened Removal
  import opened Search
  import opened CollegeScores
  import opened CollegeOriginal

  /** `removal_effects[r]`: team to points gained when `r` goes. */
  type EffectMap = map<Cand, int>
  type Effects = map<Cand, EffectMap>

  // ---------------------------------------------------------- the counts

  /** The positions strictly between `k` and `j` that hold `t`. */
  function AfterCount(b: Ballot, k: nat, j: nat, t: Cand): nat
    requires j <= |b|
  {
    if j <= k + 1 then 0 else AfterCount(b, k, j - 1, t) + (if b[j - 1] == t then 1 else 0)
  }

  /** What one ballot adds to `removal_effects[r][t]`: the positions after `r`'s first holding `t`. */
  function BallotEffect(b: Ballot, r: Cand, t: Cand): nat
  {
    if r in b then AfterCount(b, IndexOf(b, r), |b|, t) else 0
  }

  /** The effect of `r` on `t` summed over the ballots. */
  function FollowTotal(ballots: seq<Ballot>, r: Cand, t: Cand): nat
  {
    if ballots == [] then 0 else FollowTotal(ballots[..|ballots| - 1], r, t) + BallotEffect(ballots[|ballots| - 1], r, t)
  }

  /** The stored effect after the loop over `teams`: each occurrence of `r` in `teams` adds the ballots' effect again. */
  function EffectsFrom(ballots: seq<Ballot>, teams: seq<Cand>, r: Cand, t: Cand): nat
  {
    if teams == [] then 0
    else EffectsFrom(ballots, teams[..|teams| - 1], r, t) + (if teams[|teams| - 1] == r then FollowTotal(ballots, r, t) else 0)
  }

  /** An effects dictionary as the preprocessing leaves it: one map per team, holding the summed counts. */
  ghost predicate EffectsFit(effects: Effects, ballots: seq<Ballot>, teams: seq<Cand>)
  {
    && (forall r :: r in effects <==> r in teams)
    && (forall r, t | r in effects :: Get(effects[r], t) == EffectsFrom(ballots, teams, r, t))
  }

  /** Every team on some ballot. */
  function BallotTeams(ballots: seq<Ballot>): set<Cand>
  {
    set i, j | 0 <= i < |ballots| && 0 <= j < |ballots[i]| :: ballots[i][j]
  }

  /** The effects dictionary as a value, its inner maps keyed by every team on a ballot. */
  function EffectsSpec(ballots: seq<Ballot>, teams: seq<Cand>): Effects
  {
    map r | r in teams :: map t | t in BallotTeams(ballots) :: EffectsFrom(ballots, teams, r, t)
  }

  // ------------------------------------------------- preprocess_removal_effects

  /** The `adjusted_points` defaultdict: +1 for the team at every position after `k`. */
  method AdjustedPoints(b: Ballot, k: nat) returns (adj: EffectMap)
    requires k < |b|
    ensures forall t :: Get(adj, t) == AfterCount(b, k, |b|, t)
  {
    adj := map[];
    for i := k + 1 to |b|
      invariant forall t :: Get(adj, t) == AfterCount(b, k, i, t)
    {
      adj := adj[b[i] := Get(adj, b[i]) + 1];
    }
  }

  /** `for team, points in adjusted_points.items()`: add to the entry, or create it. */
  method MergeInto(m0: EffectMap, adj: EffectMap) returns (m: EffectMap)
    ensures forall t :: Get(m, t) == Get(m0, t) + Get(adj, t)
  {
    m := m0;
    var keys := adj.Keys;
    while keys != {}
      invariant keys <= adj.Keys
      invariant forall t :: Get(m, t) == Get(m0, t) + (if t in adj && t !in keys then adj[t] else 0)
      decreases |keys|
    {
      var team :| team in keys;
      if team in m {
        m := m[team := m[team] + adj[team]];
      } else {
        m := m[team := adj[team]];
      }
      keys := keys - {team};
    }
  }

  /** The effect of `r` accumulated over the ballots into `m0`. */
  method EffectsOfTeam(m0: EffectMap, ballots: seq<Ballot>, r: Cand) returns (m: EffectMap)
    ensures forall t :: Get(m, t) == Get(m0, t) + FollowTotal(ballots, r, t)
  {
    m := m0;
    for n := 0 to |ballots|
      invariant forall t :: Get(m, t) == Get(m0, t) + FollowTotal(ballots[..n], r, t)
    {
      var b := ballots[n];
      assert ballots[..n + 1][..n] == ballots[..n];
      if r in b {
        var adj := AdjustedPoints(b, IndexOf(b, r));
        m := MergeInto(m, adj);
      }
    }
    assert ballots[..|ballots|] == ballots;
  }

  /**
   * `preprocess_removal_effects` and the same loop inside
   * `load_or_preprocess_data`: a map per team of `teams`, each holding, for
   * every team, the positions after it summed over the ballots.
   */
  method PreprocessRemovalEffects(ballots: seq<Ballot>, teams: seq<Cand>) returns (effects: Effects)
    ensures EffectsFit(effects, ballots, teams)
  {
    effects := map r | r in teams :: map[];
    for j := 0 to |teams|
      invariant forall r :: r in effects <==> r in teams
      invariant forall r, t | r in effects :: Get(effects[r], t) == EffectsFrom(ballots, teams[..j], r, t)
    {
      var r := teams[j];
      assert teams[..j + 1][..j] == teams[..j];
      var m := EffectsOfTeam(effects[r], ballots, r);
      effects := effects[r := m];
    }
    assert teams[..|teams|] == teams;
  }

  // -------------------------------------------------------- the recount

  /** The adjustment `t` receives: the removed teams' effects on it, summed. */
  function AdjSum(effects: Effects, removed: seq<Cand>, t: Cand): int
    requires forall r | r in removed :: r in effects
  {
    if removed == [] then 0
    else
      var n := |removed| - 1;
      assert forall r | r in removed[..n] :: r in removed;
      AdjSum(effects, removed[..n], t) + Get(effects[removed[n]], t)
  }

  /** The copied scores with every survivor adjusted; the removed teams' rows are left as they were. */
  function Credited(orig: seq<Entry>, effects: Effects, removed: seq<Cand>): (u: seq<Entry>)
    requires forall r | r in removed :: r in effects
    ensures |u| == |orig| && Players(u) == Players(orig)
    ensures forall i | 0 <= i < |orig| ::
      && u[i].player == orig[i].player
      && u[i].points == orig[i].points + (if orig[i].player in removed then 0 else AdjSum(effects, removed, orig[i].player))
  {
    var u := seq(|orig|, i requires 0 <= i < |orig| =>
      Entry(orig[i].player, orig[i].points + (if orig[i].player in removed then 0 else AdjSum(effects, removed, orig[i].player))));
    assert Players(u) == Players(orig);
    u
  }

  /** `recalculate_scores`: `None` where a removed team has no effect map (`KeyError`). */
  function RecalcWith(orig: seq<Entry>, effects: Effects, removed: seq<Cand>): Option<seq<Entry>>
  {
    if forall r | r in removed :: r in effects then Some(Drop(Credited(orig, effects, removed), removed)) else None
  }

  /** Popping one more key after the others drops the same rows as dropping them all together. */
  lemma {:induction false} DropSnoc(t: seq<Entry>, a: seq<Cand>, x: Cand)
    ensures Drop(Drop(t, a), [x]) == Drop(t, a + [x])
  {
    if t != [] {
      var n := |t| - 1;
      var e := t[n];
      DropSnoc(t[..n], a, x);
      var d := Drop(t[..n], a);
      if e.player in a {
        assert Drop(t, a) == d;
        assert e.player in a + [x];
        assert Drop(t, a + [x]) == Drop(t[..n], a + [x]);
      } else {
        assert Drop(t, a) == d + [e];
        assert (d + [e])[..|d|] == d;
        assert Drop(d + [e], [x]) == Drop(d, [x]) + (if e.player in [x] then [] else [e]);
        assert (e.player in a + [x]) == (e.player in [x]);
        assert Drop(t, a + [x]) == Drop(t[..n], a + [x]) + (if e.player in [x] then [] else [e]);
      }
    }
  }

  /** `new_scores.pop(team, None)` for every removed team. */
  method PopEach(t: seq<Entry>, removed: seq<Cand>) returns (u: seq<Entry>)
    ensures u == Drop(t, removed)
  {
    u := t;
    DropAbsent(t, []);
    assert removed[..0] == [];
    for j := 0 to |removed|
      invariant u == Drop(t, removed[..j])
    {
      u := Drop(u, [removed[j]]);
      DropSnoc(t, removed[..j], removed[j]);
      assert removed[..j + 1] == removed[..j] + [removed[j]];
    }
    assert removed[..|removed|] == removed;
  }

  /** The adjustment loop over one removed team's effect map, in the map's (unspecified) order. */
  method ApplyEffects(t0: seq<Entry>, orig: seq<Entry>, eff: EffectMap, removed: seq<Cand>, before: seq<Cand>, effects: Effects)
    returns (t: seq<Entry>)
    requires forall r | r in before :: r in effects
    requires |t0| == |orig|
    requires forall i | 0 <= i < |orig| ::
      && t0[i].player == orig[i].player
      && t0[i].points == orig[i].points + (if orig[i].player in removed then 0 else AdjSum(effects, before, orig[i].player))
    ensures |t| == |orig|
    ensures forall i | 0 <= i < |orig| ::
      && t[i].player == orig[i].player
      && t[i].points == orig[i].points + (if orig[i].player in removed then 0 else AdjSum(effects, before, orig[i].player) + Get(eff, orig[i].player))
  {
    t := t0;
    var keys := eff.Keys;
    while keys != {}
      invariant keys <= eff.Keys
      invariant |t| == |orig|
      invariant forall i | 0 <= i < |orig| ::
        && t[i].player == orig[i].player
        && t[i].points == orig[i].points + (if orig[i].player in removed then 0
          else AdjSum(effects, before, orig[i].player) + (if orig[i].player in eff && orig[i].player !in keys then eff[orig[i].player] else 0))
      decreases |keys|
    {
      var team :| team in keys;
      if team in Players(t) && team !in removed {
        t := AddPoints(t, team, eff[team]);
      }
      keys := keys - {team};
    }
  }

  method RecalculateScores(orig: seq<Entry>, removed: seq<Cand>, effects: Effects) returns (r: Option<seq<Entry>>)
    ensures r == RecalcWith(orig, effects, removed)
  {
    var t := orig;
    for j := 0 to |removed|
      invariant forall x | x in removed[..j] :: x in effects
      invariant |t| == |orig|
      invariant forall i | 0 <= i < |orig| ::
        && t[i].player == orig[i].player
        && t[i].points == orig[i].points + (if orig[i].player in removed then 0 else AdjSum(effects, removed[..j], orig[i].player))
    {
      var rt := removed[j];
      if rt !in effects {
        return None;
      }
      assert removed[..j + 1][..j] == removed[..j];
      assert removed[..j + 1] == removed[..j] + [rt];
      t := ApplyEffects(t, orig, effects[rt], removed, removed[..j], effects);
    }
    assert removed[..|removed|] == removed;
    assert t == Credited(orig, effects, removed);
    var u := PopEach(t, removed);
    r := Some(u);
  }

  // ------------------------------------------------------- properties

  /** Only the removed teams' rows go; every other key keeps its place. */
  lemma RecalcKeys(orig: seq<Entry>, effects: Effects, removed: seq<Cand>)
    requires RecalcWith(orig, effects, removed).Some?
    ensures Players(RecalcWith(orig, effects, removed).value) == Strike(Players(orig), removed)
  {
    DropPlayers(Credited(orig, effects, removed), removed);
  }

  /** Each surviving row holds its original score plus the removed teams' effects on it. */
  lemma RecalcScores(orig: seq<Entry>, effects: Effects, removed: seq<Cand>)
    requires RecalcWith(orig, effects, removed).Some?
    ensures forall e | e in RecalcWith(orig, effects, removed).value ::
      e.player !in removed && exists i | 0 <= i < |orig| :: orig[i].player == e.player && e.points == orig[i].points + AdjSum(effects, removed, e.player)
  {
    var c := Credited(orig, effects, removed);
    forall e | e in RecalcWith(orig, effects, removed).value
      ensures e.player !in removed && exists i | 0 <= i < |orig| :: orig[i].player == e.player && e.points == orig[i].points + AdjSum(effects, removed, e.player)
    {
      var i :| 0 <= i < |c| && c[i] == e;
      assert orig[i].player == e.player;
    }
  }

  /** Removing nothing returns the scores unchanged. */
  lemma RecalcEmpty(orig: seq<Entry>, effects: Effects)
    ensures RecalcWith(orig, effects, []) == Some(orig)
  {
    var c := Credited(orig, effects, []);
    assert c == orig;
    DropAbsent(c, []);
  }

  /** Two dictionaries that both fit the ballots give the same recount. */
  lemma {:induction false} AdjSumFit(e1: Effects, e2: Effects, ballots: seq<Ballot>, teams: seq<Cand>, removed: seq<Cand>, t: Cand)
    requires EffectsFit(e1, ballots, teams) && EffectsFit(e2, ballots, teams)
    requires forall r | r in removed :: r in teams
    ensures AdjSum(e1, removed, t) == AdjSum(e2, removed, t)
  {
    if removed != [] {
      var n := |removed| - 1;
      assert forall r | r in removed[..n] :: r in removed;
      AdjSumFit(e1, e2, ballots, teams, removed[..n], t);
      assert removed[n] in removed;
    }
  }

  lemma RecalcFit(orig: seq<Entry>, e1: Effects, e2: Effects, ballots: seq<Ballot>, teams: seq<Cand>, removed: seq<Cand>)
    requires EffectsFit(e1, ballots, teams) && EffectsFit(e2, ballots, teams)
    ensures RecalcWith(orig, e1, removed) == RecalcWith(orig, e2, removed)
  {
    if forall r | r in removed :: r in teams {
      forall t ensures AdjSum(e1, removed, t) == AdjSum(e2, removed, t) {
        AdjSumFit(e1, e2, ballots, teams, removed, t);
      }
      assert Credited(orig, e1, removed) == Credited(orig, e2, removed);
    }
  }

  /** A team on no ballot has no effect. */
  lemma {:induction false} FollowTotalAbsent(ballots: seq<Ballot>, r: Cand, t: Cand)
    requires t !in BallotTeams(ballots)
    ensures FollowTotal(ballots, r, t) == 0
  {
    if ballots != [] {
      var n := |ballots| - 1;
      assert BallotTeams(ballots[..n]) <= BallotTeams(ballots) by {
        forall x | x in BallotTeams(ballots[..n]) ensures x in BallotTeams(ballots) {
          var i, j :| 0 <= i < n && 0 <= j < |ballots[..n][i]| && ballots[..n][i][j] == x;
          assert ballots[i][j] == x;
        }
      }
      FollowTotalAbsent(ballots[..n], r, t);
      var b := ballots[n];
      if r in b {
        AfterCountAbsent(b, IndexOf(b, r), |b|, t, ballots, n);
      }
    }
  }

  lemma {:induction false} AfterCountAbsent(b: Ballot, k: nat, j: nat, t: Cand, ballots: seq<Ballot>, n: nat)
    requires n < |ballots| && b == ballots[n] && j <= |b| && t !in BallotTeams(ballots)
    ensures AfterCount(b, k, j, t) == 0
  {
    if j > k + 1 {
      AfterCountAbsent(b, k, j - 1, t, ballots, n);
      assert b[j - 1] in BallotTeams(ballots);
    }
  }

  /** The dictionary as a value fits, so any dictionary the preprocessing builds recounts as it does. */
  lemma EffectsSpecFits(ballots: seq<Ballot>, teams: seq<Cand>)
    ensures EffectsFit(EffectsSpec(ballots, teams), ballots, teams)
  {
    var e := EffectsSpec(ballots, teams);
    forall r, t | r in e ensures Get(e[r], t) == EffectsFrom(ballots, teams, r, t) {
      if t !in BallotTeams(ballots) {
        EffectsFromAbsent(ballots, teams, r, t);
      }
    }
  }

  lemma {:induction false} EffectsFromAbsent(ballots: seq<Ballot>, teams: seq<Cand>, r: Cand, t: Cand)
    requires t !in BallotTeams(ballots)
    ensures EffectsFrom(ballots, teams, r, t) == 0
  {
    if teams != [] {
      EffectsFromAbsent(ballots, teams[..|teams| - 1], r, t);
      FollowTotalAbsent(ballots, r, t);
    }
  }

  /** On a repeat-free ballot, `r` adds one for `t` exactly when `t` is ranked after it. */
  lemma {:induction false} AfterCountDistinct(b: Ballot, k: nat, j: nat, t: Cand)
    requires Distinct(b) && j <= |b|
    ensures AfterCount(b, k, j, t) == if t in b && k < IndexOf(b, t) < j then 1 else 0
  {
    if j > k + 1 {
      AfterCountDistinct(b, k, j - 1, t);
      if b[j - 1] == t {
        IndexOfAt(b, j - 1);
      }
    }
  }

  /** On repeat-free ballots the summed effect of `r` on `t` is the number of ballots ranking `t` after `r`. */
  lemma {:induction false} FollowTotalIsEffectCount(ballots: seq<Ballot>, r: Cand, t: Cand)
    requires forall b | b in ballots :: Distinct(b)
    ensures FollowTotal(ballots, r, t) == EffectCount(ballots, r, t)
  {
    if ballots != [] {
      var n := |ballots| - 1;
      var b := ballots[n];
      assert forall x | x in ballots[..n] :: x in ballots;
      FollowTotalIsEffectCount(ballots[..n], r, t);
      assert b in ballots;
      if r in b {
        AfterCountDistinct(b, IndexOf(b, r), |b|, t);
      }
    }
  }

  /** Each team listed once, the stored effect is the ballots' effect itself. */
  lemma {:induction false} EffectsFromDistinct(ballots: seq<Ballot>, teams: seq<Cand>, r: Cand, t: Cand)
    requires Distinct(teams)
    ensures EffectsFrom(ballots, teams, r, t) == if r in teams then FollowTotal(ballots, r, t) else 0
  {
    if teams != [] {
      var n := |teams| - 1;
      assert Distinct(teams[..n]);
      EffectsFromDistinct(ballots, teams[..n], r, t);
      assert teams == teams[..n] + [teams[n]];
      assert teams[n] !in teams[..n];
    }
  }

  /** A team listed twice has its effects stored twice, as the `+=` on an existing entry adds them again. */
  lemma EffectsFromRepeated(ballots: seq<Ballot>, r: Cand, t: Cand)
    ensures EffectsFrom(ballots, [r, r], r, t) == 2 * FollowTotal(ballots, r, t)
  {
    assert [r, r][..1] == [r];
    assert [r][..0] == [];
    assert EffectsFrom(ballots, [r], r, t) == FollowTotal(ballots, r, t);
  }

  /** The stored effects of the removed teams on `p`, summed, are their `EffectCount`s summed. */
  lemma {:induction false} AdjSumIsEffectAdjust(ballots: seq<Ballot>, teams: seq<Cand>, removed: seq<Cand>, p: Cand)
    requires forall b | b in ballots :: Distinct(b)
    requires Distinct(teams) && forall r | r in removed :: r in teams
    ensures AdjSum(EffectsSpec(ballots, teams), removed, p) == EffectAdjust(ballots, removed, p)
  {
    if removed != [] {
      var n := |removed| - 1;
      var r := removed[n];
      assert forall x | x in removed[..n] :: x in removed;
      AdjSumIsEffectAdjust(ballots, teams, removed[..n], p);
      assert r in removed;
      EffectsSpecFits(ballots, teams);
      EffectsFromDistinct(ballots, teams, r, p);
      FollowTotalIsEffectCount(ballots, r, p);
    }
  }

  /**
   * The precomputed recount agrees with scoring the struck ballots again, as
   * `paradox_finder` does: same teams, same order, same points. It needs
   * repeat-free ballots no longer than the weights, weights one point apart,
   * and removed teams listed once, all from the original ranking.
   */
  lemma RecalcMatchesFinder(org: seq<Cand>, ballots: seq<Ballot>, removed: seq<Cand>, w: seq<int>)
    requires WellFormed(ballots, w) && UnitGaps(w)
    requires Distinct(removed) && forall r | r in removed :: r in org
    ensures RecalcWith(Baseline(ballots, w), EffectsSpec(ballots, Dedup(org)), removed) == Some(FinderTable(ballots, removed, w))
  {
    var teams := Dedup(org);
    var e := EffectsSpec(ballots, teams);
    var base := Baseline(ballots, w);
    assert forall r | r in removed :: r in e;
    var R := Drop(Credited(base, e, removed), removed);
    var F := FinderTable(ballots, removed, w);
    RecalcPlayers(org, ballots, removed, w);
    forall i | 0 <= i < |R| ensures R[i] == F[i] {
      RecalcEntry(org, ballots, removed, w, i);
    }
    assert |R| == |Players(R)| == |Players(F)| == |F|;
    assert R == F;
  }

  /** The recount and the finder list the same teams in the same order. */
  lemma RecalcPlayers(org: seq<Cand>, ballots: seq<Ballot>, removed: seq<Cand>, w: seq<int>)
    requires WellFormed(ballots, w)
    requires forall r | r in removed :: r in org
    ensures forall r | r in removed :: r in EffectsSpec(ballots, Dedup(org))
    ensures Players(Drop(Credited(Baseline(ballots, w), EffectsSpec(ballots, Dedup(org)), removed), removed))
         == Players(FinderTable(ballots, removed, w))
  {
    var e := EffectsSpec(ballots, Dedup(org));
    assert forall r | r in removed :: r in e;
    RecalcKeys(Baseline(ballots, w), e, removed);
    StruckIsStrikeAll(ballots, removed);
    assert forall i | 0 <= i < |ballots| :: |ballots[i]| <= |w| by {
      forall i | 0 <= i < |ballots| ensures |ballots[i]| <= |w| {
        assert ballots[i] in ballots;
      }
    }
    KeyOrderStrike(ballots, removed, w);
  }

  /** Row `i` of the recount is row `i` of the finder's table. */
  lemma RecalcEntry(org: seq<Cand>, ballots: seq<Ballot>, removed: seq<Cand>, w: seq<int>, i: nat)
    requires WellFormed(ballots, w) && UnitGaps(w)
    requires Distinct(removed) && forall r | r in removed :: r in org
    requires forall r | r in removed :: r in EffectsSpec(ballots, Dedup(org))
    requires Players(Drop(Credited(Baseline(ballots, w), EffectsSpec(ballots, Dedup(org)), removed), removed))
          == Players(FinderTable(ballots, removed, w))
    requires i < |Drop(Credited(Baseline(ballots, w), EffectsSpec(ballots, Dedup(org)), removed), removed)|
    ensures Drop(Credited(Baseline(ballots, w), EffectsSpec(ballots, Dedup(org)), removed), removed)[i]
         == FinderTable(ballots, removed, w)[i]
  {
    var e := EffectsSpec(ballots, Dedup(org));
    var R := Drop(Credited(Baseline(ballots, w), e, removed), removed);
    var F := FinderTable(ballots, removed, w);
    var p := R[i].player;
    assert F[i].player == p by {
      assert Players(R)[i] == p;
    }
    var sc := Score(StrikeAll(ballots, removed), w, p);
    assert R[i] in R;
    RecalcRowPoints(org, ballots, removed, w, R[i]);
    assert F[i].points == sc by {
      FinderTableIsExact(ballots, removed, w);
      assert F[i] in F;
    }
  }

  /** A row of the recount holds the survivor's score on the struck ballots. */
  lemma RecalcRowPoints(org: seq<Cand>, ballots: seq<Ballot>, removed: seq<Cand>, w: seq<int>, x: Entry)
    requires WellFormed(ballots, w) && UnitGaps(w)
    requires Distinct(removed) && forall r | r in removed :: r in org
    requires forall r | r in removed :: r in EffectsSpec(ballots, Dedup(org))
    requires x in Drop(Credited(Baseline(ballots, w), EffectsSpec(ballots, Dedup(org)), removed), removed)
    ensures x.points == Score(StrikeAll(ballots, removed), w, x.player)
  {
    BaselineRow(ballots, w, EffectsSpec(ballots, Dedup(org)), removed, x);
    RecalcPoint(ballots, Dedup(org), removed, w, x.player);
  }

  /** A row of the recount from the original scores: a survivor, its original score plus its adjustment. */
  lemma BaselineRow(ballots: seq<Ballot>, w: seq<int>, e: Effects, removed: seq<Cand>, x: Entry)
    requires forall r | r in removed :: r in e
    requires x in Drop(Credited(Baseline(ballots, w), e, removed), removed)
    ensures x.player !in removed && x.points == PosScore(ballots, w, x.player) + AdjSum(e, removed, x.player)
  {
    var base := Baseline(ballots, w);
    var c := Credited(base, e, removed);
    var k :| 0 <= k < |c| && c[k] == x;
    assert Players(base)[k] == base[k].player;
  }

  /** A survivor's recounted points are its points on the struck ballots. */
  lemma RecalcPoint(ballots: seq<Ballot>, teams: seq<Cand>, removed: seq<Cand>, w: seq<int>, p: Cand)
    requires WellFormed(ballots, w) && UnitGaps(w)
    requires Distinct(removed) && Distinct(teams) && (forall r | r in removed :: r in teams) && p !in removed
    ensures PosScore(ballots, w, p) + AdjSum(EffectsSpec(ballots, teams), removed, p) == Score(StrikeAll(ballots, removed), w, p)
  {
    PosScoreIsScore(ballots, w, p);
    AdjSumIsEffectAdjust(ballots, teams, removed, p);
    EffectsAreExact(ballots, removed, p, w);
    StrikeScore(ballots, removed, w, p);
  }

  /** Where `paradox_finder` does not raise, the precomputed search reaches the same outcome. */
  lemma DetectMatchesFinder(org: seq<Cand>, ballots: seq<Ballot>, removed: seq<Cand>, targets: seq<nat>, w: seq<int>)
    requires WellFormed(ballots, w) && UnitGaps(w) && Distinct(removed)
    requires !FinderOutcome(org, ballots, removed, targets, w).LookupFailed?
    ensures DetectOutcome(org, ballots, Dedup(org), removed, targets, w) == FinderOutcome(org, ballots, removed, targets, w)
  {
    var sorted := Players(SortDesc(FinderTable(ballots, removed, w)));
    assert PositionsIn(org, removed).Some?;
    RecalcMatchesFinder(org, ballots, removed, w);
    EagerRefinesLazy(org, sorted, removed, targets);
  }

  // ------------------------------------------------- temp_new.py: detect

  /** The original scores: only positions that earn points create keys (a `defaultdict`). */
  function Baseline(ballots: seq<Ballot>, w: seq<int>): seq<Entry>
  {
    ScoreTable(KeyOrder(ballots, false, w), ballots, w)
  }

  /** One removal set, given the scores, the effects and the original ranking. */
  function StepWith(orig: seq<Entry>, effects: Effects, org: seq<Cand>, removed: seq<Cand>, targets: seq<nat>): Outcome
  {
    match RecalcWith(orig, effects, removed)
    case None => LookupFailed
    case Some(nt) => LazyStep(org, Players(SortDesc(nt)), removed, targets)
  }

  /** What `detect_paradox` decides for one removal set, the effects drawn from `teams`. */
  function DetectOutcome(org: seq<Cand>, ballots: seq<Ballot>, teams: seq<Cand>, removed: seq<Cand>, targets: seq<nat>, w: seq<int>): Outcome
  {
    StepWith(Baseline(ballots, w), EffectsSpec(ballots, teams), org, removed, targets)
  }

  /** The record `detect_paradox` of `temp_new.py` returns; every failure is caught and gives `None`. */
  function NewDetect(org: Option<seq<Cand>>, ballots: Option<seq<Ballot>>, removed: seq<Cand>, targets: seq<nat>, w: seq<int>): Option<IIARecord>
  {
    if org.None? || ballots.None? then None
    else
      match DetectOutcome(org.value, ballots.value, Dedup(org.value), removed, targets, w)
      case Paradox(rec) => Some(rec)
      case _ => None
  }

  method DetectParadox(org: Option<seq<Cand>>, ballots: Option<seq<Ballot>>, targets: seq<nat>, removed: seq<Cand>, w: seq<int>)
    returns (r: Option<IIARecord>)
    ensures r == NewDetect(org, ballots, removed, targets, w)
  {
    if org.None? || ballots.None? {
      return None;
    }
    var teams, bs := org.value, ballots.value;
    var effects := PreprocessRemovalEffects(bs, Dedup(teams));
    var scores := Tally(bs, w, false);
    var newScores := RecalculateScores(scores, removed, effects);
    EffectsSpecFits(bs, Dedup(teams));
    RecalcFit(scores, effects, EffectsSpec(bs, Dedup(teams)), bs, Dedup(teams), removed);
    if newScores.None? {
      return None;
    }
    var o := LazyStep(teams, Players(SortDesc(newScores.value)), removed, targets);
    r := if o.Paradox? then Some(o.record) else None;
  }

  // -------------------------------------- temp_new.py: process_year_week

  /** Every removal set's outcome. */
  function DetectOutcomes(org: seq<Cand>, ballots: seq<Ballot>, teams: seq<Cand>, combos: seq<seq<Cand>>, targets: seq<nat>, w: seq<int>): (os: seq<Outcome>)
    ensures |os| == |combos| && forall i | 0 <= i < |combos| :: os[i] == DetectOutcome(org, ballots, teams, combos[i], targets, w)
  {
    seq(|combos|, i requires 0 <= i < |combos| => DetectOutcome(org, ballots, teams, combos[i], targets, w))
  }

  /** The removal sets: pairs, triples, … of the first ten non-target teams. */
  function SearchCombos(org: seq<Cand>, targets: seq<nat>, removeAmount: nat): seq<seq<Cand>>
  {
    Combinations(EligibleTeams(org, targets, 10), removeAmount)
  }

  /** `process_year_week` of `temp_new.py`: no ranking file gives `[]`; a failed removal set is skipped. */
  function NewReport(org: Option<seq<Cand>>, ballots: Option<seq<Ballot>>, targets: seq<nat>, removeAmount: nat, w: seq<int>): seq<IIARecord>
  {
    if org.None? || ballots.None? then []
    else
      var teams := org.value;
      Records(DetectOutcomes(teams, ballots.value, Dedup(teams), SearchCombos(teams, targets, removeAmount), targets, w))
  }

  method ProcessYearWeek(org: Option<seq<Cand>>, ballots: Option<seq<Ballot>>, targets: seq<nat>, removeAmount: nat, w: seq<int>)
    returns (results: seq<IIARecord>)
    ensures results == NewReport(org, ballots, targets, removeAmount, w)
  {
    if org.None? {
      return [];
    }
    var combos := Combinations(EligibleTeams(org.value, targets, 10), removeAmount);
    results := DetectEach(org, ballots, combos, targets, w);
  }

  /** The loop of `process_year_week` over the removal sets. */
  method DetectEach(org: Option<seq<Cand>>, ballots: Option<seq<Ballot>>, combos: seq<seq<Cand>>, targets: seq<nat>, w: seq<int>)
    returns (results: seq<IIARecord>)
    requires org.Some?
    ensures ballots.Some? ==> results == Records(DetectOutcomes(org.value, ballots.value, Dedup(org.value), combos, targets, w))
    ensures ballots.None? ==> results == []
  {
    var teams := org.value;
    results := [];
    for i := 0 to |combos|
      invariant ballots.Some? ==> results == Records(DetectOutcomes(teams, ballots.value, Dedup(teams), combos[..i], targets, w))
      invariant ballots.None? ==> results == []
    {
      var r := DetectParadox(org, ballots, targets, combos[i], w);
      if ballots.Some? {
        var os := DetectOutcomes(teams, ballots.value, Dedup(teams), combos[..i], targets, w);
        var o := DetectOutcome(teams, ballots.value, Dedup(teams), combos[i], targets, w);
        RecordsSnoc(os, o);
        DetectOutcomesSnoc(teams, ballots.value, Dedup(teams), combos, targets, w, i);
      }
      if r.Some? {
        results := results + [r.value];
      }
    }
    assert combos[..|combos|] == combos;
  }

  // ---------------------------------------------------- temp_new_2.py

  /** What `load_or_preprocess_data` returns: the effects, the original scores and the original ranking. */
  datatype Data = Data(effects: Effects, scores: seq<Entry>, teams: seq<Cand>)

  /** The loaded data fits the ballots and the ranking they came from. */
  ghost predicate DataFits(data: Data, ballots: seq<Ballot>, w: seq<int>)
  {
    EffectsFit(data.effects, ballots, data.teams) && data.scores == Baseline(ballots, w)
  }

  /** `load_or_preprocess_data` without the cache: `None` when a file is missing. */
  method LoadOrPreprocessData(org: Option<seq<Cand>>, ballots: Option<seq<Ballot>>, w: seq<int>) returns (data: Option<Data>)
    ensures data.None? <==> org.None? || ballots.None?
    ensures data.Some? ==> data.value.teams == org.value && DataFits(data.value, ballots.value, w)
  {
    if org.None? || ballots.None? {
      return None;
    }
    var scores := Tally(ballots.value, w, false);
    var effects := PreprocessRemovalEffects(ballots.value, org.value);
    data := Some(Data(effects, scores, org.value));
  }

  /** `detect_paradox` of `temp_new_2.py`: `None` without data; otherwise the outcome, a failed lookup raising. */
  method DetectParadoxCached(data: Option<Data>, targets: seq<nat>, removed: seq<Cand>) returns (r: Option<Outcome>)
    ensures data.None? ==> r.None?
    ensures data.Some? ==> r == Some(StepWith(data.value.scores, data.value.effects, data.value.teams, removed, targets))
  {
    if data.None? {
      return None;
    }
    var d := data.value;
    var newScores := RecalculateScores(d.scores, removed, d.effects);
    if newScores.None? {
      return Some(LookupFailed);
    }
    r := Some(LazyStep(d.teams, Players(SortDesc(newScores.value)), removed, targets));
  }

  /**
   * `process_year_week` of `temp_new_2.py`: no data gives `[]`, and so does
   * a removal set that raises, since `detect_paradox` has no handler and the
   * whole week's loop is abandoned.
   */
  function CachedReport(org: Option<seq<Cand>>, ballots: Option<seq<Ballot>>, targets: seq<nat>, removeAmount: nat, w: seq<int>): seq<IIARecord>
  {
    if org.None? || ballots.None? then []
    else
      var teams := org.value;
      var os := DetectOutcomes(teams, ballots.value, teams, SearchCombos(teams, targets, removeAmount), targets, w);
      if AnyRaised(os) then [] else Records(os)
  }

  method ProcessYearWeekCached(org: Option<seq<Cand>>, ballots: Option<seq<Ballot>>, targets: seq<nat>, removeAmount: nat, w: seq<int>)
    returns (results: seq<IIARecord>)
    ensures results == CachedReport(org, ballots, targets, removeAmount, w)
  {
    var data := LoadOrPreprocessData(org, ballots, w);
    if data.None? {
      return [];
    }
    var d := data.value;
    var bs := ballots.value;
    var combos := Combinations(EligibleTeams(d.teams, targets, 10), removeAmount);
    results := [];
    ghost var os: seq<Outcome> := [];
    for i := 0 to |combos|
      invariant os == DetectOutcomes(d.teams, bs, d.teams, combos[..i], targets, w)
      invariant !AnyRaised(os) && results == Records(os)
    {
      var r := DetectParadoxCached(data, targets, combos[i]);
      var o := r.value;
      CachedStep(d, bs, combos[i], targets, w);
      DetectOutcomesSnoc(d.teams, bs, d.teams, combos, targets, w, i);
      AnyRaisedSnoc(os, o);
      RecordsSnoc(os, o);
      if o.LookupFailed? {
        RaisedWithin(d.teams, bs, combos, targets, w, i + 1);
        return [];
      }
      os := os + [o];
      if o.Paradox? {
        results := results + [o.record];
      }
    }
    assert combos[..|combos|] == combos;
  }

  /** Loaded data decides a removal set as the ballots themselves do. */
  lemma CachedStep(d: Data, ballots: seq<Ballot>, removed: seq<Cand>, targets: seq<nat>, w: seq<int>)
    requires DataFits(d, ballots, w)
    ensures StepWith(d.scores, d.effects, d.teams, removed, targets) == DetectOutcome(d.teams, ballots, d.teams, removed, targets, w)
  {
    EffectsSpecFits(ballots, d.teams);
    RecalcFit(d.scores, d.effects, EffectsSpec(ballots, d.teams), ballots, d.teams, removed);
  }

  lemma DetectOutcomesSnoc(org: seq<Cand>, ballots: seq<Ballot>, teams: seq<Cand>, combos: seq<seq<Cand>>, targets: seq<nat>, w: seq<int>, i: nat)
    requires i < |combos|
    ensures DetectOutcomes(org, ballots, teams, combos[..i + 1], targets, w)
      == DetectOutcomes(org, ballots, teams, combos[..i], targets, w) + [DetectOutcome(org, ballots, teams, combos[i], targets, w)]
  {
  }

  lemma RaisedWithin(org: seq<Cand>, ballots: seq<Ballot>, combos: seq<seq<Cand>>, targets: seq<nat>, w: seq<int>, j: nat)
    requires j <= |combos| && AnyRaised(DetectOutcomes(org, ballots, org, combos[..j], targets, w))
    ensures AnyRaised(DetectOutcomes(org, ballots, org, combos, targets, w))
  {
    var os := DetectOutcomes(org, ballots, org, combos[..j], targets, w);
    var i :| 0 <= i < |os| && os[i].LookupFailed?;
    assert DetectOutcomes(org, ballots, org, combos, targets, w)[i] == os[i];
  }
}
