/**
 * Where alternative Borda methods disagree with the official order
 * (`src/baseball/Borda/Borda_difference_finder.py`): the name of a method's
 * ranks column, the filter that drops seasons whose top ranks are simply
 * 1, 2, …, n, and the list of (method, output file) pairs.
 */
module Difference {
  import opened Wrappers

  // ------------------------------------------------ the ranks column

  /** What follows the last '-' of `s`, or all of `s` when it has none: `s.split("-")[-1]`. */
  function LastSegment(s: string): (seg: string)
    ensures |seg| <= |s| && seg == s[|s| - |seg|..]
    ensures '-' !in seg
    ensures |seg| < |s| ==> s[|s| - |seg| - 1] == '-'
  {
    if s == [] || s[|s| - 1] == '-' then []
    else LastSegment(s[..|s| - 1]) + [s[|s| - 1]]
  }

  /** `ranks_col`. */
  function RanksColumn(name: string): string
  {
    "Ranks-" + LastSegment(name)
  }

  /** The ranks column is "Ranks-" and a hyphen-free suffix of the method name, which is the whole name or follows a '-'. */
  lemma RanksColumnShape(name: string)
    ensures var col := RanksColumn(name);
      && col[..6] == "Ranks-"
      && '-' !in col[6..]
      && col[6..] == name[|name| - (|col| - 6)..]
      && (|col| - 6 == |name| || name[|name| - (|col| - 6) - 1] == '-')
  {
    var seg := LastSegment(name);
    assert RanksColumn(name)[6..] == seg;
  }

  // ---------------------------------------------- splitting on commas

  /** The position of the first `c` in `s`. */
  function FirstIndex(s: string, c: char): (i: nat)
    requires c in s
    ensures i < |s| && s[i] == c && c !in s[..i]
  {
    if s[0] == c then 0
    else
      assert c in s[1..] by {
        var k :| 0 <= k < |s| && s[k] == c;
        assert s[1..][k - 1] == c;
      }
      var i := FirstIndex(s[1..], c) + 1;
      assert s[..i] == [s[0]] + s[1..][..i - 1];
      i
  }

  /** `s.split(sep)`: the pieces between separators, an empty piece included where two separators meet or one ends the string. */
  function Split(s: string, sep: char): (parts: seq<string>)
    ensures |parts| >= 1
    ensures forall p | p in parts :: sep !in p
    decreases |s|
  {
    if sep !in s then [s]
    else
      var i := FirstIndex(s, sep);
      [s[..i]] + Split(s[i + 1..], sep)
  }

  /** `sep.join(parts)`. */
  function Join(parts: seq<string>, sep: char): string
    requires |parts| >= 1
  {
    if |parts| == 1 then parts[0]
    else parts[0] + [sep] + Join(parts[1..], sep)
  }

  /** Joining the pieces of a split gives the string back. */
  lemma {:induction false} SplitJoin(s: string, sep: char)
    ensures Join(Split(s, sep), sep) == s
    decreases |s|
  {
    if sep in s {
      var i := FirstIndex(s, sep);
      var rest := s[i + 1..];
      assert s == s[..i] + [sep] + rest;
      var parts := Split(s, sep);
      assert parts == [s[..i]] + Split(rest, sep);
      assert parts[0] == s[..i] && parts[1..] == Split(rest, sep);
      SplitJoin(rest, sep);
      assert Join(parts, sep) == s[..i] + [sep] + Join(Split(rest, sep), sep);
    }
  }

  /** Splitting what was joined from separator-free pieces gives the pieces back. */
  lemma {:induction false} JoinSplit(parts: seq<string>, sep: char)
    requires |parts| >= 1
    requires forall p | p in parts :: sep !in p
    ensures Split(Join(parts, sep), sep) == parts
  {
    assert parts[0] in parts;
    if |parts| > 1 {
      var rest := parts[1..];
      assert forall p | p in rest :: p in parts;
      JoinSplit(rest, sep);
      var s := Join(parts, sep);
      var h := parts[0];
      assert s == h + [sep] + Join(rest, sep);
      assert s[|h|] == sep;
      assert s[..|h|] == h;
      var i := FirstIndex(s, sep);
      assert i == |h|;
      assert s[i + 1..] == Join(rest, sep);
    }
  }

  // ------------------------------------------------ int() on one piece

  /** The ASCII whitespace `int()` skips around a token. */
  predicate IsSpace(c: char)
  {
    c == ' ' || c == '\t' || c == '\n' || c == '\r' || c == '\U{000B}' || c == '\U{000C}'
  }

  predicate IsDigit(c: char)
  {
    '0' <= c <= '9'
  }

  /** The token `int()` reads: `s` without the ASCII whitespace `int()` skips at either end. */
  function Strip(s: string): (t: string)
    ensures |t| <= |s|
    ensures t != [] ==> !IsSpace(t[0]) && !IsSpace(t[|t| - 1])
    ensures s != [] && !IsSpace(s[0]) && !IsSpace(s[|s| - 1]) ==> t == s
  {
    if s == [] then []
    else if IsSpace(s[0]) then Strip(s[1..])
    else if IsSpace(s[|s| - 1]) then Strip(s[..|s| - 1])
    else s
  }

  predicate AllSpace(s: string)
  {
    forall i | 0 <= i < |s| :: IsSpace(s[i])
  }

  /** A string of whitespace only trims to nothing. */
  lemma {:induction false} StripAllSpace(w: string)
    requires AllSpace(w)
    ensures Strip(w) == []
  {
    if w != [] {
      StripAllSpace(w[1..]);
    }
  }

  /**
   * Trimming removes exactly the surrounding whitespace: a core that starts
   * and ends with a non-space comes back from any padding around it.
   */
  lemma {:induction false} StripPadded(w: string, t: string, v: string)
    requires t != [] && !IsSpace(t[0]) && !IsSpace(t[|t| - 1])
    requires AllSpace(w) && AllSpace(v)
    ensures Strip(w + t + v) == t
    decreases |w|
  {
    if w == [] {
      assert w + t + v == t + v;
      StripTrailing(t, v);
    } else {
      var s := w + t + v;
      assert s[1..] == w[1..] + t + v;
      StripPadded(w[1..], t, v);
    }
  }

  lemma {:induction false} StripTrailing(t: string, v: string)
    requires t != [] && !IsSpace(t[0]) && !IsSpace(t[|t| - 1])
    requires AllSpace(v)
    ensures Strip(t + v) == t
    decreases |v|
  {
    if v == [] {
      assert t + v == t;
    } else {
      var s := t + v;
      var n := |v| - 1;
      assert s[..|s| - 1] == t + v[..n];
      StripTrailing(t, v[..n]);
    }
  }

  /** `int()` reads a padded token as it reads the token itself. */
  lemma ParseIntPadded(w: string, t: string, v: string)
    requires t != [] && !IsSpace(t[0]) && !IsSpace(t[|t| - 1])
    requires AllSpace(w) && AllSpace(v)
    ensures ParseInt(w + t + v) == ParseInt(t)
  {
    StripPadded(w, t, v);
  }

  /** The digits `int()` accepts after an optional sign: digits, with single underscores between digits. */
  predicate DigitGroups(s: string)
  {
    && s != []
    && IsDigit(s[0]) && IsDigit(s[|s| - 1])
    && (forall i | 0 <= i < |s| :: IsDigit(s[i]) || s[i] == '_')
    && (forall i | 0 <= i < |s| - 1 :: s[i] == '_' ==> s[i + 1] != '_')
  }

  /** The value of a run of digits and underscores, the underscores ignored. */
  function DigitsValue(s: string): nat
  {
    if s == [] then 0
    else if s[|s| - 1] == '_' then DigitsValue(s[..|s| - 1])
    else 10 * DigitsValue(s[..|s| - 1]) + DigitValue(s[|s| - 1])
  }

  function DigitValue(c: char): nat
  {
    if IsDigit(c) then c as int - '0' as int else 0
  }

  /** `int(tok)` on a string; `None` where it raises `ValueError`. */
  function ParseInt(tok: string): Option<int>
  {
    var t := Strip(tok);
    if t == [] then None
    else if t[0] == '+' || t[0] == '-' then
      if DigitGroups(t[1..]) then Some(if t[0] == '-' then 0 - DigitsValue(t[1..]) else DigitsValue(t[1..]))
      else None
    else if DigitGroups(t) then Some(DigitsValue(t))
    else None
  }

  function DigitChar(d: nat): char
    requires d < 10
  {
    ('0' as int + d) as char
  }

  /** The decimal digits of `n`, as `str(n)` writes it. */
  function Show(n: nat): (s: string)
    ensures s != [] && forall i | 0 <= i < |s| :: IsDigit(s[i])
  {
    if n < 10 then [DigitChar(n)] else Show(n / 10) + [DigitChar(n % 10)]
  }

  lemma {:induction false} ShowValue(n: nat)
    ensures DigitsValue(Show(n)) == n
  {
    if n >= 10 {
      ShowValue(n / 10);
      var s := Show(n);
      assert s[..|s| - 1] == Show(n / 10);
    } else {
      assert Show(n)[..0] == [];
    }
  }

  /** `int()` reads back what `str()` wrote, with or without a minus sign. */
  lemma ParseShow(n: nat)
    ensures ParseInt(Show(n)) == Some(n)
    ensures ParseInt("-" + Show(n)) == Some(0 - n)
  {
    ShowParses(n);
    ShowParsesNegated(n);
  }

  lemma ShowParses(n: nat)
    ensures ParseInt(Show(n)) == Some(n)
  {
    ShowValue(n);
    ShowGroups(n);
    ParsePositive(Show(n));
  }

  lemma ShowParsesNegated(n: nat)
    ensures ParseInt("-" + Show(n)) == Some(0 - n)
  {
    ShowValue(n);
    ShowGroups(n);
    ParseNegative(Show(n));
  }

  /** An accepted run of digits reads as its value. */
  lemma ParsePositive(s: string)
    requires DigitGroups(s)
    ensures ParseInt(s) == Some(DigitsValue(s))
  {
    assert Strip(s) == s;
    assert !(s[0] == '+' || s[0] == '-');
  }

  /** A minus sign before an accepted run of digits negates its value. */
  lemma ParseNegative(s: string)
    requires DigitGroups(s)
    ensures ParseInt("-" + s) == Some(0 - DigitsValue(s))
  {
    var m := "-" + s;
    assert m[1..] == s;
    assert m[|m| - 1] == s[|s| - 1];
    assert Strip(m) == m;
  }

  /** The digits `str()` writes are a run `int()` accepts. */
  lemma ShowGroups(n: nat)
    ensures DigitGroups(Show(n))
  {
  }

  /** `list(map(int, ranks.split(',')))`; `None` where some piece raises. */
  function ParseAll(toks: seq<string>): (r: Option<seq<int>>)
    ensures r.Some? ==> |r.value| == |toks|
    ensures r.Some? <==> forall i | 0 <= i < |toks| :: ParseInt(toks[i]).Some?
  {
    if toks == [] then Some([])
    else
      var n := |toks| - 1;
      var pre := ParseAll(toks[..n]);
      var last := ParseInt(toks[n]);
      assert forall i | 0 <= i < n :: toks[..n][i] == toks[i];
      if pre.None? || last.None? then None else Some(pre.value + [last.value])
  }

  function ParseRanks(ranks: string): Option<seq<int>>
  {
    ParseAll(Split(ranks, ','))
  }

  // ------------------------------------------------- is_valid_ranking

  /** `list(range(1, n + 1))`. */
  function Iota(n: nat): (r: seq<int>)
    ensures |r| == n && forall i | 0 <= i < n :: r[i] == i + 1
  {
    seq(n, i => i + 1)
  }

  /** What `is_valid_ranking` makes of a row: keep it, drop it, or raise `ValueError`. */
  datatype Verdict = Keep | Drop | ParseFailed

  /** `is_valid_ranking` on one ranks cell; `None` stands for a cell that is not a string (a missing value). */
  function IsValidRanking(cell: Option<string>, topN: int): (v: Verdict)
  {
    var parsed := if cell.Some? then ParseRanks(cell.value) else Some([]);
    if parsed.None? then ParseFailed
    else if parsed.value == Iota(|parsed.value|) && (forall r | r in parsed.value :: r <= topN) then Drop
    else Keep
  }

  /** A cell that is not a string parses to no ranks and is dropped. */
  lemma MissingIsDropped(topN: int)
    ensures IsValidRanking(None, topN) == Drop
  {
    assert Iota(0) == [];
  }

  /** A string cell whose pieces all parse is dropped exactly when they read 1, 2, …, n with n at most `topN`. */
  lemma DroppedIff(s: string, topN: int)
    requires ParseRanks(s).Some?
    ensures var l := ParseRanks(s).value;
      && |l| >= 1
      && (IsValidRanking(Some(s), topN) == Drop <==> l == Iota(|l|) && |l| <= topN)
      && (IsValidRanking(Some(s), topN) == Keep <==> !(l == Iota(|l|) && |l| <= topN))
  {
    var l := ParseRanks(s).value;
    if l == Iota(|l|) {
      assert l[|l| - 1] == |l| && l[|l| - 1] in l;
      if |l| <= topN {
        forall r | r in l ensures r <= topN {
          var i :| 0 <= i < |l| && l[i] == r;
        }
      }
    }
  }

  /** The pieces "1", "2", …, "n". */
  function Counting(n: nat): (toks: seq<string>)
    ensures |toks| == n && forall i | 0 <= i < n :: toks[i] == Show(i + 1)
  {
    if n == 0 then [] else Counting(n - 1) + [Show(n)]
  }

  /** The written-out list "1,2,…,n" is dropped exactly when n is at most `topN`. */
  lemma PrefixListDropped(n: nat, topN: int)
    requires n >= 1
    ensures IsValidRanking(Some(Join(Counting(n), ',')), topN) == Drop <==> n <= topN
  {
    CountingParses(n);
    DroppedIff(Join(Counting(n), ','), topN);
  }

  /** The written-out list "1,2,…,n" parses to 1, 2, …, n. */
  lemma CountingParses(n: nat)
    requires n >= 1
    ensures ParseRanks(Join(Counting(n), ',')) == Some(Iota(n))
  {
    CountingSeparatorFree(n);
    JoinSplit(Counting(n), ',');
    CountingValues(n);
    ParseAllIota(Counting(n));
  }

  /** No piece of the written-out list holds a comma. */
  lemma CountingSeparatorFree(n: nat)
    ensures forall p | p in Counting(n) :: ',' !in p
  {
    var toks := Counting(n);
    forall p | p in toks ensures ',' !in p {
      var i :| 0 <= i < n && toks[i] == p;
      assert IsDigit(Show(i + 1)[0]);
    }
  }

  /** Each piece of the written-out list reads as its own position, counted from 1. */
  lemma CountingValues(n: nat)
    ensures forall i | 0 <= i < n :: ParseInt(Counting(n)[i]) == Some(i + 1)
  {
    forall i | 0 <= i < n ensures ParseInt(Counting(n)[i]) == Some(i + 1) {
      ParseShow(i + 1);
    }
  }

  /** Pieces reading 1, 2, …, n parse to that list. */
  lemma ParseAllIota(toks: seq<string>)
    requires forall i | 0 <= i < |toks| :: ParseInt(toks[i]) == Some(i + 1)
    ensures ParseAll(toks) == Some(Iota(|toks|))
  {
    var l := ParseAll(toks).value;
    ParseAllValues(toks, l);
    assert l == Iota(|toks|);
  }

  lemma {:induction false} ParseAllValues(toks: seq<string>, l: seq<int>)
    requires ParseAll(toks) == Some(l)
    ensures forall i | 0 <= i < |toks| :: ParseInt(toks[i]) == Some(l[i])
  {
    if toks != [] {
      var n := |toks| - 1;
      var pre := ParseAll(toks[..n]);
      ParseAllValues(toks[..n], pre.value);
      assert l == pre.value + [ParseInt(toks[n]).value];
      forall i | 0 <= i < |toks| ensures ParseInt(toks[i]) == Some(l[i]) {
        if i < n {
          assert toks[..n][i] == toks[i];
        }
      }
    }
  }

  // --------------------------------------------------- the row filter

  /** One row of `differences`: season, league, official order, the method's order and its ranks cell. */
  datatype DiffRow = DiffRow(season: string, league: string, official: string, methodOrder: string, ranks: Option<string>)

  /** `differences[differences[ranks_col].apply(is_valid_ranking)]`; `None` where some cell makes `int()` raise. */
  function KeepValid(rows: seq<DiffRow>, topN: int): Option<seq<DiffRow>>
  {
    if rows == [] then Some([])
    else
      var n := |rows| - 1;
      var pre := KeepValid(rows[..n], topN);
      var v := IsValidRanking(rows[n].ranks, topN);
      if pre.None? || v == ParseFailed then None
      else if v == Keep then Some(pre.value + [rows[n]])
      else pre
  }

  /** The filter raises exactly when some cell does; otherwise it keeps exactly the rows judged `Keep`. */
  lemma {:induction false} KeepValidMeaning(rows: seq<DiffRow>, topN: int)
    ensures KeepValid(rows, topN).None? <==> exists i | 0 <= i < |rows| :: IsValidRanking(rows[i].ranks, topN) == ParseFailed
    ensures KeepValid(rows, topN).Some? ==> forall x | x in KeepValid(rows, topN).value :: x in rows && IsValidRanking(x.ranks, topN) == Keep
    ensures KeepValid(rows, topN).Some? ==> forall x | x in rows && IsValidRanking(x.ranks, topN) == Keep :: x in KeepValid(rows, topN).value
  {
    KeepValidRaises(rows, topN);
    KeepValidSound(rows, topN);
    KeepValidComplete(rows, topN);
  }

  /** The filter raises exactly when the check of some cell does. */
  lemma {:induction false} KeepValidRaises(rows: seq<DiffRow>, topN: int)
    ensures KeepValid(rows, topN).None? <==> exists i | 0 <= i < |rows| :: IsValidRanking(rows[i].ranks, topN) == ParseFailed
  {
    if rows != [] {
      var n := |rows| - 1;
      KeepValidRaises(rows[..n], topN);
      assert forall i | 0 <= i < n :: rows[..n][i] == rows[i];
    }
  }

  /** Every kept row is a row of the input judged `Keep`. */
  lemma {:induction false} KeepValidSound(rows: seq<DiffRow>, topN: int)
    ensures KeepValid(rows, topN).Some? ==> forall x | x in KeepValid(rows, topN).value :: x in rows && IsValidRanking(x.ranks, topN) == Keep
  {
    if rows != [] {
      var n := |rows| - 1;
      KeepValidSound(rows[..n], topN);
      assert forall x | x in rows[..n] :: x in rows;
    }
  }

  /** Every input row judged `Keep` is kept. */
  lemma {:induction false} KeepValidComplete(rows: seq<DiffRow>, topN: int)
    ensures KeepValid(rows, topN).Some? ==> forall x | x in rows && IsValidRanking(x.ranks, topN) == Keep :: x in KeepValid(rows, topN).value
  {
    if rows != [] {
      var n := |rows| - 1;
      KeepValidComplete(rows[..n], topN);
      assert forall x | x in rows :: x in rows[..n] || x == rows[n];
    }
  }

  // ------------------------------------------------ generate_borda_methods

  const Methods: seq<string> := ["Borda-Top1", "Borda-Top3", "Borda-Top5", "Borda-Top10", "Dowdall"]

  function LowerChar(c: char): char
  {
    if 'A' <= c <= 'Z' then (c as int - 'A' as int + 'a' as int) as char else c
  }

  /** `s.lower()` on ASCII letters. */
  function Lower(s: string): (r: string)
    ensures |r| == |s| && forall i | 0 <= i < |s| :: r[i] == LowerChar(s[i])
  {
    seq(|s|, i requires 0 <= i < |s| => LowerChar(s[i]))
  }

  /** `f'{top_n}'`. */
  function ShowInt(n: int): string
  {
    if n < 0 then "-" + Show(-n) else Show(n)
  }

  const PathHead: string := "./src/baseball/Borda/difference/top"
  const PathTail: string := "-differences.csv"

  function OutputPath(topN: int, name: string): string
  {
    PathHead + ShowInt(topN) + "-" + Lower(name) + PathTail
  }

  /** `generate_borda_methods`. */
  method GenerateBordaMethods(topN: int) returns (pairs: seq<(string, string)>)
    ensures |pairs| == |Methods|
    ensures forall i | 0 <= i < |Methods| :: pairs[i].0 == Methods[i] && pairs[i].1 == OutputPath(topN, Methods[i])
  {
    pairs := [];
    for i := 0 to |Methods|
      invariant |pairs| == i
      invariant forall j | 0 <= j < i :: pairs[j].0 == Methods[j] && pairs[j].1 == OutputPath(topN, Methods[j])
    {
      var name := Methods[i];
      var output := PathHead + ShowInt(topN) + "-" + Lower(name) + PathTail;
      pairs := pairs + [(name, output)];
    }
  }

  /** The lowercased method name can be read back out of its output path. */
  lemma PathNamesMethod(topN: int, name: string)
    ensures var p := OutputPath(topN, name); var h := |PathHead + ShowInt(topN) + "-"|;
      && h + |name| + |PathTail| == |p|
      && p[h..h + |name|] == Lower(name)
  {
  }

  /** The five methods write five different files. */
  lemma OutputPathsDistinct(topN: int)
    ensures forall i, j | 0 <= i < j < |Methods| :: OutputPath(topN, Methods[i]) != OutputPath(topN, Methods[j])
  {
    forall i, j | 0 <= i < j < |Methods| ensures OutputPath(topN, Methods[i]) != OutputPath(topN, Methods[j]) {
      PathNamesMethod(topN, Methods[i]);
      PathNamesMethod(topN, Methods[j]);
      var a, b := Lower(Methods[i]), Lower(Methods[j]);
      if |Methods[i]| == |Methods[j]| {
        assert i < 3 && j < 3;
        assert Methods[i][9] != Methods[j][9];
        assert a[9] != b[9];
        assert a != b;
      }
    }
  }
}
