/**
 * Results tables and the descending sort that turns scores into a ranking.
 *
 * A table is a list of (candidate, points) rows; the rank of a row is its
 * 1-based position. Python's `sorted(items, key=points, reverse=True)` is a
 * stable sort: rows with equal points keep their relative order. `SortDesc`
 * is that sort, written as an insertion sort.
 */
module Ranking {
  import opened Ballots

  datatype Entry = Entry(player: Cand, points: int)

  /** The candidate column of a table. */
  function Players(t: seq<Entry>): (ps: seq<Cand>)
    ensures |ps| == |t|
    ensures forall i | 0 <= i < |t| :: ps[i] == t[i].player
  {
    if t == [] then [] else Players(t[..|t| - 1]) + [t[|t| - 1].player]
  }

  predicate NonIncreasing(t: seq<Entry>)
  {
    forall i, j | 0 <= i < j < |t| :: t[i].points >= t[j].points
  }

  /** `e` goes ahead of the first row that does not outscore it. */
  function Insert(e: Entry, t: seq<Entry>): seq<Entry>
  {
    if t == [] || e.points >= t[0].points then [e] + t else [t[0]] + Insert(e, t[1..])
  }

  function SortDesc(s: seq<Entry>): seq<Entry>
  {
    if s == [] then [] else Insert(s[0], SortDesc(s[1..]))
  }

  /** The rows scoring exactly `v`, in table order. */
  function WithPoints(t: seq<Entry>, v: int): seq<Entry>
  {
    if t == [] then [] else (if t[0].points == v then [t[0]] else []) + WithPoints(t[1..], v)
  }

  lemma {:induction false} InsertMultiset(e: Entry, t: seq<Entry>)
    ensures multiset(Insert(e, t)) == multiset(t) + multiset{e}
  {
    if t != [] && e.points < t[0].points {
      InsertMultiset(e, t[1..]);
      assert t == [t[0]] + t[1..];
    }
  }

  lemma {:induction false} InsertProps(e: Entry, t: seq<Entry>)
    requires NonIncreasing(t)
    ensures multiset(Insert(e, t)) == multiset(t) + multiset{e}
    ensures NonIncreasing(Insert(e, t))
  {
    InsertMultiset(e, t);
    if t == [] || e.points >= t[0].points {
      var u := [e] + t;
      assert Insert(e, t) == u;
      forall i, j | 0 <= i < j < |u|
        ensures u[i].points >= u[j].points
      {
        if i > 0 {
          assert u[i] == t[i - 1] && u[j] == t[j - 1];
        } else {
          assert u[j] == t[j - 1];
          assert t[0].points >= t[j - 1].points || j == 1;
        }
      }
    } else {
      var rest := t[1..];
      assert NonIncreasing(rest) by {
        forall i, j | 0 <= i < j < |rest|
          ensures rest[i].points >= rest[j].points
        {
          assert rest[i] == t[i + 1] && rest[j] == t[j + 1];
        }
      }
      InsertProps(e, rest);
      var r := Insert(e, rest);
      InsertBound(e, rest, t[0].points);
      var u := [t[0]] + r;
      assert Insert(e, t) == u;
      forall i, j | 0 <= i < j < |u|
        ensures u[i].points >= u[j].points
      {
        if i > 0 {
          assert u[i] == r[i - 1] && u[j] == r[j - 1];
        } else {
          assert u[j] == r[j - 1];
        }
      }
    }
  }

  /** A bound on every row and on `e` bounds every row after the insertion. */
  lemma {:induction false} InsertBound(e: Entry, t: seq<Entry>, top: int)
    requires e.points <= top
    requires forall i | 0 <= i < |t| :: t[i].points <= top
    ensures forall i | 0 <= i < |Insert(e, t)| :: Insert(e, t)[i].points <= top
  {
    if t != [] && e.points < t[0].points {
      InsertBound(e, t[1..], top);
    }
  }

  lemma {:induction false} InsertStable(e: Entry, t: seq<Entry>, v: int)
    ensures WithPoints(Insert(e, t), v) == (if e.points == v then [e] else []) + WithPoints(t, v)
  {
    var head := if e.points == v then [e] else [];
    if t == [] || e.points >= t[0].points {
      var u := [e] + t;
      assert Insert(e, t) == u;
      assert u[0] == e && u[1..] == t;
      assert WithPoints(u, v) == head + WithPoints(t, v);
    } else {
      var rest := t[1..];
      var r := Insert(e, rest);
      InsertStable(e, rest, v);
      var u := [t[0]] + r;
      assert Insert(e, t) == u;
      assert u[0] == t[0] && u[1..] == r;
      var top := if t[0].points == v then [t[0]] else [];
      calc {
        WithPoints(u, v);
        top + WithPoints(r, v);
        top + (head + WithPoints(rest, v));
        { assert top == [] || head == []; }
        head + (top + WithPoints(rest, v));
        head + WithPoints(t, v);
      }
    }
  }

  /** Every row of the sorted table is a row of the table. */
  lemma SortDescMembers(s: seq<Entry>)
    ensures forall e | e in SortDesc(s) :: e in s
  {
    SortDescProps(s);
    forall e | e in SortDesc(s) ensures e in s {
      assert e in multiset(SortDesc(s));
    }
  }

  /** The sort returns a non-increasing permutation of its input. */
  lemma {:induction false} SortDescProps(s: seq<Entry>)
    ensures NonIncreasing(SortDesc(s))
    ensures multiset(SortDesc(s)) == multiset(s)
    ensures |SortDesc(s)| == |s|
  {
    if s != [] {
      SortDescProps(s[1..]);
      InsertProps(s[0], SortDesc(s[1..]));
      assert s == [s[0]] + s[1..];
      assert |multiset(SortDesc(s))| == |multiset(s)|;
    }
  }

  /** Stability: for every score, the rows with that score keep their input order. */
  lemma {:induction false} SortDescStable(s: seq<Entry>, v: int)
    ensures WithPoints(SortDesc(s), v) == WithPoints(s, v)
  {
    if s != [] {
      SortDescStable(s[1..], v);
      InsertStable(s[0], SortDesc(s[1..]), v);
    }
  }

  /** `df.drop(names, errors='ignore')`: every row whose candidate is named goes; the rest keep their order. */
  function Drop(t: seq<Entry>, names: seq<Cand>): (d: seq<Entry>)
    ensures |d| <= |t|
    ensures forall e :: e in d <==> e in t && e.player !in names
  {
    if t == [] then []
    else Drop(t[..|t| - 1], names) + (if t[|t| - 1].player in names then [] else [t[|t| - 1]])
  }

  /** Dropping rows strikes their candidates from the candidate column. */
  lemma {:induction false} DropPlayers(t: seq<Entry>, names: seq<Cand>)
    ensures Players(Drop(t, names)) == Strike(Players(t), names)
  {
    if t != [] {
      var p := t[..|t| - 1];
      DropPlayers(p, names);
      assert Players(t)[..|t| - 1] == Players(p);
      var tail := if t[|t| - 1].player in names then [] else [t[|t| - 1]];
      assert Drop(t, names) == Drop(p, names) + tail;
      PlayersAppend(Drop(p, names), tail);
    }
  }

  /** Dropping names the table does not list changes nothing. */
  lemma {:induction false} DropAbsent(t: seq<Entry>, names: seq<Cand>)
    requires forall i | 0 <= i < |t| :: t[i].player !in names
    ensures Drop(t, names) == t
  {
    if t != [] {
      var n := |t| - 1;
      var init := t[..n];
      assert t == init + [t[n]];
      assert Drop(t, names) == Drop(init, names) + [t[n]] by {
        assert t[n].player !in names;
      }
      DropAbsent(init, names);
    }
  }

  lemma {:induction false} PlayersAppend(a: seq<Entry>, b: seq<Entry>)
    ensures Players(a + b) == Players(a) + Players(b)
  {
  }

  /** The 1-based rank of a candidate in a table: `df[df['Player'] == p]['Rank'].iloc[0]`. */
  function RankOf(t: seq<Entry>, p: Cand): (r: nat)
    requires p in Players(t)
    ensures 1 <= r <= |t| && t[r - 1].player == p
    ensures forall j | 0 <= j < r - 1 :: t[j].player != p
  {
    IndexOf(Players(t), p) + 1
  }

  /** `df.loc[p, 'Borda Points'] += v`: every row of `p` gains `v`; nothing else changes. */
  function AddPoints(t: seq<Entry>, p: Cand, v: int): (u: seq<Entry>)
    ensures |u| == |t| && Players(u) == Players(t)
    ensures forall i | 0 <= i < |t| :: u[i].player == t[i].player && u[i].points == t[i].points + (if t[i].player == p then v else 0)
  {
    var u := seq(|t|, i requires 0 <= i < |t| => if t[i].player == p then Entry(p, t[i].points + v) else t[i]);
    assert Players(u) == Players(t);
    u
  }

  /** The points column summed. */
  function SumPoints(t: seq<Entry>): int
  {
    if t == [] then 0 else SumPoints(t[..|t| - 1]) + t[|t| - 1].points
  }

  lemma {:induction false} SumPointsCons(e: Entry, t: seq<Entry>)
    ensures SumPoints([e] + t) == e.points + SumPoints(t)
  {
    if t != [] {
      var n := |t| - 1;
      assert ([e] + t)[..n + 1] == [e] + t[..n];
      SumPointsCons(e, t[..n]);
    }
  }

  /** Sorting neither creates nor destroys points. */
  lemma {:induction false} SortDescSum(s: seq<Entry>)
    ensures SumPoints(SortDesc(s)) == SumPoints(s)
  {
    if s != [] {
      SortDescSum(s[1..]);
      InsertSum(s[0], SortDesc(s[1..]));
      SumPointsCons(s[0], s[1..]);
      assert s == [s[0]] + s[1..];
    }
  }

  lemma {:induction false} InsertSum(e: Entry, t: seq<Entry>)
    ensures SumPoints(Insert(e, t)) == e.points + SumPoints(t)
  {
    if t == [] || e.points >= t[0].points {
      SumPointsCons(e, t);
    } else {
      InsertSum(e, t[1..]);
      SumPointsCons(t[0], Insert(e, t[1..]));
      SumPointsCons(t[0], t[1..]);
      assert t == [t[0]] + t[1..];
    }
  }

  lemma {:induction false} InsertPlayers(e: Entry, t: seq<Entry>)
    ensures multiset(Players(Insert(e, t))) == multiset(Players(t)) + multiset{e.player}
    decreases |t|
  {
    if t == [] || e.points >= t[0].points {
      assert Insert(e, t) == [e] + t;
      PlayersConsMultiset(e, t);
    } else {
      InsertPlayers(e, t[1..]);
      InsertPlayersBehind(e, t);
    }
  }

  /** The step of `InsertPlayers` where `e` passes the head row. */
  lemma InsertPlayersBehind(e: Entry, t: seq<Entry>)
    requires t != [] && e.points < t[0].points
    requires multiset(Players(Insert(e, t[1..]))) == multiset(Players(t[1..])) + multiset{e.player}
    ensures multiset(Players(Insert(e, t))) == multiset(Players(t)) + multiset{e.player}
  {
    var ins := Insert(e, t[1..]);
    assert Insert(e, t) == [t[0]] + ins;
    PlayersConsMultiset(t[0], ins);
    PlayersHeadMultiset(t);
  }

  lemma PlayersHeadMultiset(t: seq<Entry>)
    requires t != []
    ensures multiset(Players(t)) == multiset{t[0].player} + multiset(Players(t[1..]))
  {
    assert t == [t[0]] + t[1..];
    PlayersConsMultiset(t[0], t[1..]);
  }

  lemma PlayersConsMultiset(e: Entry, t: seq<Entry>)
    ensures multiset(Players([e] + t)) == multiset{e.player} + multiset(Players(t))
  {
    PlayersCons(e, t);
    assert multiset([e.player] + Players(t)) == multiset{e.player} + multiset(Players(t));
  }

  lemma PlayersCons(e: Entry, t: seq<Entry>)
    ensures Players([e] + t) == [e.player] + Players(t)
  {
    PlayersAppend([e], t);
  }

  /** Sorting permutes the candidate column. */
  lemma {:induction false} SortDescPlayers(s: seq<Entry>)
    ensures multiset(Players(SortDesc(s))) == multiset(Players(s))
  {
    if s != [] {
      assert s == [s[0]] + s[1..];
      PlayersAppend([s[0]], s[1..]);
      assert multiset(Players(s)) == multiset{s[0].player} + multiset(Players(s[1..])) by {
        assert Players([s[0]]) == [s[0].player];
      }
      SortDescPlayers(s[1..]);
      InsertPlayers(s[0], SortDesc(s[1..]));
    }
  }
}
