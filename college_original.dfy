/**
 * The first college-poll paradox search (`temp_original.py`): for each
 * removal set the removed teams are deleted from every ballot, the ballots
 * are scored again from scratch, and the teams now at the target positions
 * are compared with the original ones. The eligible teams are the original
 * ranking with the target positions popped, cut to thirty.
 */
module CollegeOriginal {
  import opened Wrappers
  import opened Ballots
  import opened Ranking
  import opened Removal
  import opened Search
  import opened CollegeScores

  // ----------------------------------------------------- striking a ballot

  /** `if x in s: s.remove(x)`: the first occurrence of `x` goes. */
  function RemoveFirst(s: seq<Cand>, x: Cand): (r: seq<Cand>)
    ensures x !in s ==> r == s
    ensures x in s ==> |r| == |s| - 1 && multiset(r) + multiset{x} == multiset(s)
  {
    if x in s then
      var k := IndexOf(s, x);
      assert s == s[..k] + [x] + s[k + 1..];
      s[..k] + s[k + 1..]
    else s
  }

  /** Every removed team, in order, removed from the ballot. */
  function RemoveEach(s: seq<Cand>, removed: seq<Cand>): seq<Cand>
  {
    if removed == [] then s else RemoveFirst(RemoveEach(s, removed[..|removed| - 1]), removed[|removed| - 1])
  }

  /** The loop over `removed_teams` on one ballot's list. */
  method StrikeBallot(b: Ballot, removed: seq<Cand>) returns (s: seq<Cand>)
    ensures s == RemoveEach(b, removed)
  {
    s := b;
    for j := 0 to |removed|
      invariant s == RemoveEach(b, removed[..j])
    {
      assert removed[..j + 1][..j] == removed[..j];
      if removed[j] in s {
        var k := IndexOf(s, removed[j]);
        s := s[..k] + s[k + 1..];
      }
    }
    assert removed[..|removed|] == removed;
  }

  /** On a repeat-free ballot, removing the first occurrence strikes the team. */
  lemma RemoveFirstIsStrike(s: seq<Cand>, x: Cand)
    requires Distinct(s)
    ensures RemoveFirst(s, x) == Strike(s, [x])
  {
    if x in s {
      var k := IndexOf(s, x);
      var pre, post := s[..k], s[k + 1..];
      assert x !in post;
      assert s == pre + [x] + post;
      StrikeAround(pre, x, post);
    } else {
      StrikeNone(s, [x]);
    }
  }

  lemma StrikeAround(pre: seq<Cand>, x: Cand, post: seq<Cand>)
    requires x !in pre && x !in post
    ensures Strike(pre + [x] + post, [x]) == pre + post
  {
    var r := [x];
    calc {
      Strike(pre + r + post, r);
      { StrikeAppend(pre + r, post, r); }
      Strike(pre + r, r) + Strike(post, r);
      { StrikeAppend(pre, r, r); }
      Strike(pre, r) + Strike(r, r) + Strike(post, r);
      { StrikeSelf(x); StrikeNone(pre, r); StrikeNone(post, r); }
      pre + [] + post;
      pre + post;
    }
  }

  lemma StrikeSelf(x: Cand)
    ensures Strike([x], [x]) == []
  {
    assert [x][..0] == [];
  }

  /** On a repeat-free ballot, `list.remove` for every removed team is striking them all. */
  lemma {:induction false} RemoveEachIsStrike(s: seq<Cand>, removed: seq<Cand>)
    requires Distinct(s)
    ensures RemoveEach(s, removed) == Strike(s, removed)
    ensures Distinct(RemoveEach(s, removed))
  {
    if removed == [] {
      StrikeNone(s, removed);
    } else {
      var n := |removed| - 1;
      RemoveEachIsStrike(s, removed[..n]);
      RemoveFirstIsStrike(Strike(s, removed[..n]), removed[n]);
      StrikeStrike(s, removed[..n], [removed[n]]);
      assert removed[..n] + [removed[n]] == removed;
      StrikeDistinct(s, removed);
    }
  }

  // ------------------------------------------------------ paradox_finder

  /** Every ballot with the removed teams deleted. */
  function StruckBallots(ballots: seq<Ballot>, removed: seq<Cand>): (s: seq<Ballot>)
    ensures |s| == |ballots| && forall i | 0 <= i < |s| :: s[i] == RemoveEach(ballots[i], removed)
  {
    seq(|ballots|, i requires 0 <= i < |ballots| => RemoveEach(ballots[i], removed))
  }

  /** The score dictionary of the struck ballots: every team left on a ballot has a key, in first-met order. */
  function FinderTable(ballots: seq<Ballot>, removed: seq<Cand>, w: seq<int>): seq<Entry>
  {
    var struck := StruckBallots(ballots, removed);
    ScoreTable(KeyOrder(struck, true, w), struck, w)
  }

  /** What `paradox_finder` decides for one removal set, its ballots present. */
  function FinderOutcome(org: seq<Cand>, ballots: seq<Ballot>, removed: seq<Cand>, targets: seq<nat>, w: seq<int>): Outcome
  {
    EagerStep(org, Players(SortDesc(FinderTable(ballots, removed, w))), removed, targets)
  }

  /**
   * `paradox_finder`: `None` when the ballots are missing; otherwise the
   * outcome, `LookupFailed` standing for the exception it raises.
   */
  method ParadoxFinder(w: seq<int>, ballots: Option<seq<Ballot>>, org: seq<Cand>, removed: seq<Cand>, targets: seq<nat>)
    returns (r: Option<Outcome>)
    ensures ballots.None? ==> r.None?
    ensures ballots.Some? ==> r == Some(FinderOutcome(org, ballots.value, removed, targets, w))
  {
    if ballots.None? {
      return None;
    }
    var bs := ballots.value;
    var struck: seq<Ballot> := [];
    for i := 0 to |bs|
      invariant |struck| == i && forall j | 0 <= j < i :: struck[j] == RemoveEach(bs[j], removed)
    {
      var s := StrikeBallot(bs[i], removed);
      struck := struck + [s];
    }
    assert struck == StruckBallots(bs, removed);
    var scores := Tally(struck, w, true);
    var sortedTeams := Players(SortDesc(scores));
    r := Some(EagerStep(org, sortedTeams, removed, targets));
  }

  /** Removing the teams one `remove` at a time strikes them from every repeat-free ballot. */
  lemma StruckIsStrikeAll(ballots: seq<Ballot>, removed: seq<Cand>)
    requires forall b | b in ballots :: Distinct(b)
    ensures StruckBallots(ballots, removed) == StrikeAll(ballots, removed)
    ensures forall b | b in StruckBallots(ballots, removed) :: Distinct(b)
  {
    var struck := StruckBallots(ballots, removed);
    forall i | 0 <= i < |ballots| ensures struck[i] == StrikeAll(ballots, removed)[i] && Distinct(struck[i]) {
      assert ballots[i] in ballots;
      RemoveEachIsStrike(ballots[i], removed);
    }
    assert struck == StrikeAll(ballots, removed);
  }

  /**
   * On repeat-free ballots each team's score after the removal is its
   * positional score on the ballots with the removed teams struck out: the
   * survivors move up.
   */
  lemma FinderTableIsExact(ballots: seq<Ballot>, removed: seq<Cand>, w: seq<int>)
    requires forall b | b in ballots :: Distinct(b)
    ensures forall e | e in FinderTable(ballots, removed, w) :: e.points == Score(StrikeAll(ballots, removed), w, e.player)
  {
    var struck := StruckBallots(ballots, removed);
    StruckIsStrikeAll(ballots, removed);
    forall e | e in FinderTable(ballots, removed, w) ensures e.points == Score(struck, w, e.player) {
      var t := FinderTable(ballots, removed, w);
      var i :| 0 <= i < |t| && t[i] == e;
      assert Players(t)[i] == e.player;
      PosScoreIsScore(struck, w, e.player);
    }
  }

  // ---------------------------------------------------- paradox_file_maker

  /** `s.pop(k)` with Python's indexing; `None` where it raises `IndexError`. */
  function PopAt(s: seq<Cand>, k: int): (r: Option<seq<Cand>>)
    ensures r.Some? <==> -|s| <= k < |s|
    ensures r.Some? ==> |r.value| + 1 == |s|
  {
    if 0 <= k < |s| then Some(s[..k] + s[k + 1..])
    else if -|s| <= k < 0 then Some(s[..|s| + k] + s[|s| + k + 1..])
    else None
  }

  /** `for idx in targets: s.pop(idx - 1)`, each pop on the list the previous ones left. */
  function PoppedTargets(s: seq<Cand>, targets: seq<nat>): Option<seq<Cand>>
  {
    if targets == [] then Some(s)
    else
      match PoppedTargets(s, targets[..|targets| - 1])
      case None => None
      case Some(rest) => PopAt(rest, targets[|targets| - 1] as int - 1)
  }

  method PopTargets(s: seq<Cand>, targets: seq<nat>) returns (r: Option<seq<Cand>>)
    ensures r == PoppedTargets(s, targets)
  {
    var teams := s;
    for j := 0 to |targets|
      invariant PoppedTargets(s, targets[..j]) == Some(teams)
    {
      assert targets[..j + 1][..j] == targets[..j];
      var k := targets[j] as int - 1;
      if !(-|teams| <= k < |teams|) {
        assert PoppedTargets(s, targets[..j + 1]) == None;
        PoppedPrefixFails(s, targets, j + 1);
        return None;
      }
      teams := PopAt(teams, k).value;
    }
    assert targets[..|targets|] == targets;
    r := Some(teams);
  }

  /** Once a pop raises, the whole loop raises. */
  lemma {:induction false} PoppedPrefixFails(s: seq<Cand>, targets: seq<nat>, j: nat)
    requires j <= |targets| && PoppedTargets(s, targets[..j]).None?
    ensures PoppedTargets(s, targets).None?
    decreases |targets| - j
  {
    if j < |targets| {
      assert targets[..j + 1][..j] == targets[..j];
      PoppedPrefixFails(s, targets, j + 1);
    } else {
      assert targets[..j] == targets;
    }
  }

  /** How a run ends: no ranking file (`None`), an exception, or the report rows. */
  datatype RunResult = NoData | Raised | Report(records: seq<IIARecord>)

  /** The finder's outcome for every removal set. */
  function FinderOutcomes(org: seq<Cand>, ballots: seq<Ballot>, combos: seq<seq<Cand>>, targets: seq<nat>, w: seq<int>): (os: seq<Outcome>)
    ensures |os| == |combos| && forall i | 0 <= i < |combos| :: os[i] == FinderOutcome(org, ballots, combos[i], targets, w)
  {
    seq(|combos|, i requires 0 <= i < |combos| => FinderOutcome(org, ballots, combos[i], targets, w))
  }

  /** The removal sets `paradox_file_maker` tries, when the pops succeed. */
  function FileMakerCombos(org: seq<Cand>, targets: seq<nat>, removeAmount: nat): Option<seq<seq<Cand>>>
  {
    match PoppedTargets(org, targets)
    case None => None
    case Some(eligible) => Some(Combinations(TakeUpTo(eligible, 30), removeAmount))
  }

  /**
   * `paradox_file_maker`: no ranking file gives `None`; a pop or a finder
   * that raises aborts the run; missing ballots make every finder return
   * `None`, so the report is empty; otherwise the paradox rows in
   * combination order.
   */
  function FileMakerResult(org: Option<seq<Cand>>, ballots: Option<seq<Ballot>>, targets: seq<nat>, removeAmount: nat, w: seq<int>): RunResult
  {
    match org
    case None => NoData
    case Some(teams) =>
      match FileMakerCombos(teams, targets, removeAmount)
      case None => Raised
      case Some(combos) => FinderRun(teams, ballots, combos, targets, w)
  }

  /** The finder run over the removal sets: an empty report without ballots, else the paradox rows unless a finder raises. */
  function FinderRun(org: seq<Cand>, ballots: Option<seq<Ballot>>, combos: seq<seq<Cand>>, targets: seq<nat>, w: seq<int>): RunResult
  {
    match ballots
    case None => Report([])
    case Some(bs) =>
      var os := FinderOutcomes(org, bs, combos, targets, w);
      if AnyRaised(os) then Raised else Report(Records(os))
  }

  method ParadoxFileMaker(org: Option<seq<Cand>>, ballots: Option<seq<Ballot>>, targets: seq<nat>, removeAmount: nat)
    returns (result: RunResult)
    ensures result == FileMakerResult(org, ballots, targets, removeAmount, CollegeWeights)
  {
    if org.None? {
      return NoData;
    }
    var teams := org.value;
    var w := CollegeWeights;
    var popped := PopTargets(teams, targets);
    if popped.None? {
      return Raised;
    }
    var combos := Combinations(TakeUpTo(popped.value, 30), removeAmount);
    assert FileMakerCombos(teams, targets, removeAmount) == Some(combos);
    result := RunFinders(w, ballots, teams, combos, targets);
  }

  /** The loop of `paradox_file_maker` over the removal sets. */
  method RunFinders(w: seq<int>, ballots: Option<seq<Ballot>>, teams: seq<Cand>, combos: seq<seq<Cand>>, targets: seq<nat>)
    returns (result: RunResult)
    ensures result == FinderRun(teams, ballots, combos, targets, w)
  {
    var rows: seq<IIARecord> := [];
    ghost var os: seq<Outcome> := [];
    for i := 0 to |combos|
      invariant ballots.Some? ==> os == FinderOutcomes(teams, ballots.value, combos[..i], targets, w)
      invariant ballots.Some? ==> !AnyRaised(os) && rows == Records(os)
      invariant ballots.None? ==> rows == []
    {
      var r := ParadoxFinder(w, ballots, teams, combos[i], targets);
      if r.Some? {
        AnyRaisedSnoc(os, r.value);
        RecordsSnoc(os, r.value);
        FinderOutcomesSnoc(teams, ballots.value, combos, targets, w, i);
        if r.value.LookupFailed? {
          RaisedPrefix(teams, ballots.value, combos, targets, w, i + 1);
          return Raised;
        }
        os := os + [r.value];
        if r.value.Paradox? {
          rows := rows + [r.value.record];
        }
      }
    }
    assert combos[..|combos|] == combos;
    result := Report(rows);
  }

  lemma FinderOutcomesSnoc(org: seq<Cand>, ballots: seq<Ballot>, combos: seq<seq<Cand>>, targets: seq<nat>, w: seq<int>, i: nat)
    requires i < |combos|
    ensures FinderOutcomes(org, ballots, combos[..i + 1], targets, w)
      == FinderOutcomes(org, ballots, combos[..i], targets, w) + [FinderOutcome(org, ballots, combos[i], targets, w)]
  {
    var l := FinderOutcomes(org, ballots, combos[..i + 1], targets, w);
    var r := FinderOutcomes(org, ballots, combos[..i], targets, w) + [FinderOutcome(org, ballots, combos[i], targets, w)];
    forall m | 0 <= m < i + 1 ensures l[m] == r[m] {
      assert combos[..i + 1][m] == combos[m];
    }
  }

  /** An outcome that raises within the first `j` removal sets raises for the run. */
  lemma RaisedPrefix(org: seq<Cand>, ballots: seq<Ballot>, combos: seq<seq<Cand>>, targets: seq<nat>, w: seq<int>, j: nat)
    requires j <= |combos| && AnyRaised(FinderOutcomes(org, ballots, combos[..j], targets, w))
    ensures AnyRaised(FinderOutcomes(org, ballots, combos, targets, w))
  {
    var os := FinderOutcomes(org, ballots, combos[..j], targets, w);
    var i :| 0 <= i < |os| && os[i].LookupFailed?;
    assert FinderOutcomes(org, ballots, combos, targets, w)[i] == os[i];
  }

  // ------------------------------------------------------------- finding

  /**
   * The sequential pops remove the wrong teams once there are two targets:
   * the first pop shifts the list, so popping position 2 next removes the
   * original third team and keeps the team ranked 2nd, a target, eligible.
   */
  lemma PopTargetsMisses()
    ensures PoppedTargets([0, 1, 2], [1, 2]) == Some([1])
    ensures NonTargets([0, 1, 2], [1, 2]) == [2]
  {
    assert PoppedTargets([0, 1, 2], [1]) == Some([1, 2]) by {
      assert [1][..0] == [];
      assert [0, 1, 2][..0] + [0, 1, 2][1..] == [1, 2];
    }
    assert PoppedTargets([0, 1, 2], [1, 2]) == Some([1]) by {
      assert [1, 2][..1] == [1];
      assert [1, 2][..1] + [1, 2][2..] == [1];
    }
    assert [0, 1, 2][..2] == [0, 1];
    assert [0, 1, 2][..2][..1] == [0];
    assert [0, 1, 2][..2][..1][..0] == [];
  }

  /** With a single target, as the script's own call uses, the pop removes exactly the team at that position. */
  lemma SinglePopIsFilter(s: seq<Cand>, t: nat)
    requires 1 <= t <= |s|
    ensures PoppedTargets(s, [t]) == Some(NonTargets(s, [t]))
  {
    assert [t][..0] == [];
    assert PoppedTargets(s, [t]) == PopAt(s, t - 1);
    assert PopAt(s, t - 1) == Some(s[..t - 1] + s[t..]);
    NonTargetsSplit(s, t);
  }

  lemma {:induction false} NonTargetsSplit(s: seq<Cand>, t: nat)
    requires 1 <= t <= |s|
    ensures NonTargets(s, [t]) == s[..t - 1] + s[t..]
  {
    var n := |s| - 1;
    if t == |s| {
      NonTargetsNone(s[..n], [t]);
      assert s[..t - 1] + s[t..] == s[..n];
    } else {
      NonTargetsSplit(s[..n], t);
      assert s[..n][..t - 1] == s[..t - 1];
      assert s[..n][t..] + [s[n]] == s[t..];
    }
  }

  /** No target among the positions of `s`: every team stays. */
  lemma {:induction false} NonTargetsNone(s: seq<Cand>, targets: seq<nat>)
    requires forall i | 1 <= i <= |s| :: i !in targets
    ensures NonTargets(s, targets) == s
  {
    if s != [] {
      var n := |s| - 1;
      NonTargetsNone(s[..n], targets);
      assert s == s[..n] + [s[n]];
    }
  }
}
