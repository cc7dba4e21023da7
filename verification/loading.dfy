/** Load combinations (Variable/Loading.py): the combination matrices a
    LOADING block carries, the builders that fill them in, the trimming
    the block reader applies to them, and the order they are written in.

    A combination table (`Dict[int, List[float]]`) is a map from the
    combination number to its row of load factors. */
module Loading {
  import opened Wrappers
  import opened Store

  type Combos = map<int, seq<real>>

  // ---------------------------------------------------------------
  // Sorted keys
  // ---------------------------------------------------------------

  /** The first element of an increasing sequence is its least. */
  lemma HeadIsLeast(a: seq<int>, x: int)
    requires Increasing(a) && x in a
    ensures a[0] <= x
  {
    var i :| 0 <= i < |a| && a[i] == x;
    assert i == 0 || a[0] < a[i];
  }

  /** Sequences with the same elements are both empty or both not. */
  lemma SameElementsEmpty(a: seq<int>, b: seq<int>)
    requires forall x :: x in a <==> x in b
    ensures |a| == 0 <==> |b| == 0
  {
    if |a| > 0 {
      var x := a[0];
      assert x in a;
      assert x in b;
    }
    if |b| > 0 {
      var x := b[0];
      assert x in b;
      assert x in a;
    }
  }

  /** Two increasing sequences with the same elements are equal. */
  lemma {:induction false} IncreasingUnique(a: seq<int>, b: seq<int>)
    requires Increasing(a) && Increasing(b)
    requires forall x :: x in a <==> x in b
    ensures a == b
    decreases |a|
  {
    SameElementsEmpty(a, b);
    if |a| > 0 {
      assert b[0] in a && a[0] in b;
      HeadIsLeast(a, b[0]);
      HeadIsLeast(b, a[0]);
      forall x
        ensures x in a[1..] <==> x in b[1..]
      {
        if x in a[1..] {
          var i :| 1 <= i < |a| && a[i] == x;
          assert a[0] < a[i] && x in b;
          var j :| 0 <= j < |b| && b[j] == x;
          assert j != 0 && b[1..][j - 1] == x;
        }
        if x in b[1..] {
          var i :| 1 <= i < |b| && b[i] == x;
          assert b[0] < b[i] && x in a;
          var j :| 0 <= j < |a| && a[j] == x;
          assert j != 0 && a[1..][j - 1] == x;
        }
      }
      IncreasingUnique(a[1..], b[1..]);
      assert a == [a[0]] + a[1..] && b == [b[0]] + b[1..];
    }
  }

  /** The elements of a sequence as a set. */
  function Elements(s: seq<int>): (r: set<int>)
    ensures forall x :: x in r <==> x in s
  {
    set x | x in s
  }

  /** Sorting the first `m` sorted keys gives them back. */
  lemma SortedPrefix(keys: set<int>, m: nat)
    requires m <= |keys|
    ensures SortedInts(Elements(SortedInts(keys)[..m])) == SortedInts(keys)[..m]
  {
    var p := SortedInts(keys)[..m];
    IncreasingUnique(SortedInts(Elements(p)), p);
  }

  function Min(a: int, b: int): int {
    if a < b then a else b
  }

  // ---------------------------------------------------------------
  // Combination trimming in LoadingParse.from_mdl
  // ---------------------------------------------------------------

  /** `{k: combos[k] for k in sorted(combos)[:num]}` when `num > 0`, the
      table unchanged otherwise. */
  function Trim(c: Combos, num: int): (r: Combos)
    ensures num <= 0 ==> r == c
    ensures forall k :: k in r ==> k in c && r[k] == c[k]
    ensures num > 0 ==> forall k, j :: k in r && j in c && j !in r ==> k < j
  {
    if num <= 0 then c
    else
      var s := SortedInts(c.Keys);
      var p := s[..Min(num, |s|)];
      var r := map k | k in Elements(p) :: c[k];
      assert forall k, j :: k in r && j in c && j !in r ==> k < j by {
        forall k, j | k in r && j in c && j !in r
          ensures k < j
        {
          var a :| 0 <= a < |p| && p[a] == k;
          var b :| 0 <= b < |s| && s[b] == j;
          assert b >= |p|;
        }
      }
      r
  }

  /** Trimming keeps the `num` lowest combination numbers, in order, or
      all of them when there are fewer. */
  lemma TrimKeys(c: Combos, num: int)
    requires num > 0
    ensures SortedInts(Trim(c, num).Keys) == SortedInts(c.Keys)[..Min(num, |c.Keys|)]
  {
    var s := SortedInts(c.Keys);
    var p := s[..Min(num, |s|)];
    assert Trim(c, num).Keys == Elements(p);
    SortedPrefix(c.Keys, Min(num, |s|));
  }

  /** A count at least the table's size keeps the whole table. */
  lemma TrimAll(c: Combos, num: int)
    requires num > 0 && |c.Keys| <= num
    ensures Trim(c, num) == c
  {
    var s := SortedInts(c.Keys);
    assert s[..Min(num, |s|)] == s;
    assert Trim(c, num).Keys == c.Keys;
  }

  /** Trimming twice by the same count trims once. */
  lemma TrimIdempotent(c: Combos, num: int)
    ensures Trim(Trim(c, num), num) == Trim(c, num)
  {
    if num > 0 {
      var t := Trim(c, num);
      TrimKeys(c, num);
      assert |t.Keys| == |SortedInts(t.Keys)|;
      TrimAll(t, num);
    }
  }

  // ---------------------------------------------------------------
  // Reading the combination lines
  // ---------------------------------------------------------------

  /** A body line as the reader classifies it: the "Number of Load Case"
      line with its two counts when its pattern matched; a "Combination #"
      line naming Factored or Unfactored, with the combination number the
      pattern found and every number on the line; or any other line. */
  datatype LoadLine =
    | CaseCount(factored: nat, unfactored: nat)
    | Combo(isFactored: bool, number: Option<int>, values: seq<real>)
    | Other

  /** The reader's running state: the two counts and the two tables. */
  datatype ComboState = ComboState(numFactored: int, numUnfactored: int, factored: Combos, unfactored: Combos)

  /** One line: a count line sets both counts; a combination line with a
      number and at least two values stores the values after the first
      (the combination number itself) under that number, replacing any
      earlier row; anything else changes nothing. */
  function ReadLine(st: ComboState, l: LoadLine): (r: ComboState)
    ensures l.Other? ==> r == st
    ensures l.CaseCount? ==> r.numFactored == l.factored && r.numUnfactored == l.unfactored
    ensures !l.CaseCount? ==> r.numFactored == st.numFactored && r.numUnfactored == st.numUnfactored
    ensures l.Combo? && l.number.Some? && |l.values| >= 2 ==>
              if l.isFactored
              then r.factored == st.factored[l.number.value := l.values[1..]] && r.unfactored == st.unfactored
              else r.unfactored == st.unfactored[l.number.value := l.values[1..]] && r.factored == st.factored
    ensures l.Combo? && (l.number.None? || |l.values| < 2) ==> r == st
  {
    match l
    case CaseCount(f, u) => st.(numFactored := f, numUnfactored := u)
    case Combo(isFactored, number, values) =>
      if number.None? || |values| < 2 then st
      else if isFactored then st.(factored := st.factored[number.value := values[1..]])
      else st.(unfactored := st.unfactored[number.value := values[1..]])
    case Other => st
  }

  function ReadLines(st: ComboState, ls: seq<LoadLine>): (r: ComboState)
    decreases |ls|
  {
    if |ls| == 0 then st else ReadLines(ReadLine(st, ls[0]), ls[1..])
  }

  /** A combination line that the reader stores. */
  predicate Stores(l: LoadLine, isFactored: bool) {
    l.Combo? && l.isFactored == isFactored && l.number.Some? && |l.values| >= 2
  }

  /** The combination numbers the reader ends with are its starting ones
      plus those of every factored (or unfactored) line it stores. */
  lemma {:induction false} ReadLinesKeys(st: ComboState, ls: seq<LoadLine>, isFactored: bool, k: int)
    ensures var r := ReadLines(st, ls);
            (k in (if isFactored then r.factored else r.unfactored)) <==>
              (k in (if isFactored then st.factored else st.unfactored)) ||
              exists i :: 0 <= i < |ls| && Stores(ls[i], isFactored) && ls[i].number.value == k
    decreases |ls|
  {
    if |ls| > 0 {
      ReadLinesKeys(ReadLine(st, ls[0]), ls[1..], isFactored, k);
      if exists i :: 0 <= i < |ls| && Stores(ls[i], isFactored) && ls[i].number.value == k {
        var i :| 0 <= i < |ls| && Stores(ls[i], isFactored) && ls[i].number.value == k;
        if i > 0 {
          assert Stores(ls[1..][i - 1], isFactored);
        }
      }
      if exists i :: 0 <= i < |ls| - 1 && Stores(ls[1..][i], isFactored) && ls[1..][i].number.value == k {
        var i :| 0 <= i < |ls| - 1 && Stores(ls[1..][i], isFactored) && ls[1..][i].number.value == k;
        assert ls[i + 1] == ls[1..][i];
      }
    }
  }

  /** The end of `from_mdl` for the combinations: each table trimmed by
      its count. */
  function FinishCombos(st: ComboState): (r: (Combos, Combos))
    ensures st.numFactored <= 0 ==> r.0 == st.factored
    ensures st.numUnfactored <= 0 ==> r.1 == st.unfactored
    ensures st.numFactored > 0 ==>
              SortedInts(r.0.Keys) == SortedInts(st.factored.Keys)[..Min(st.numFactored, |st.factored.Keys|)]
    ensures st.numUnfactored > 0 ==>
              SortedInts(r.1.Keys) == SortedInts(st.unfactored.Keys)[..Min(st.numUnfactored, |st.unfactored.Keys|)]
  {
    var f, u := Trim(st.factored, st.numFactored), Trim(st.unfactored, st.numUnfactored);
    assert st.numFactored > 0 ==>
             SortedInts(f.Keys) == SortedInts(st.factored.Keys)[..Min(st.numFactored, |st.factored.Keys|)] by {
      if st.numFactored > 0 {
        TrimKeys(st.factored, st.numFactored);
      }
    }
    assert st.numUnfactored > 0 ==>
             SortedInts(u.Keys) == SortedInts(st.unfactored.Keys)[..Min(st.numUnfactored, |st.unfactored.Keys|)] by {
      if st.numUnfactored > 0 {
        TrimKeys(st.unfactored, st.numUnfactored);
      }
    }
    (f, u)
  }

  const Start: ComboState := ComboState(0, 0, map[], map[])

  /** The combination part of `from_mdl`: ValueError when the LOADING
      block is absent; otherwise the body read line by line and each
      table trimmed by its count. */
  function ReadCombos(block: Option<seq<LoadLine>>): (r: Result<(Combos, Combos)>)
    ensures block.None? <==> r == Err(ValueError)
  {
    match block
    case None => Err(ValueError)
    case Some(ls) => Ok(FinishCombos(ReadLines(Start, ls)))
  }

  /** Every combination the reader returns comes from a stored line of
      its kind; when no count line set a positive count for that kind,
      every stored combination is returned. */
  lemma ReadCombosKeys(ls: seq<LoadLine>, isFactored: bool, k: int)
    ensures var r := ReadCombos(Some(ls)).value;
            var st := ReadLines(Start, ls);
            var table := if isFactored then r.0 else r.1;
            var count := if isFactored then st.numFactored else st.numUnfactored;
            && (k in table ==> exists i :: 0 <= i < |ls| && Stores(ls[i], isFactored) && ls[i].number.value == k)
            && (count <= 0 ==>
                  (k in table <==> exists i :: 0 <= i < |ls| && Stores(ls[i], isFactored) && ls[i].number.value == k))
  {
    ReadLinesKeys(Start, ls, isFactored, k);
  }

  // ---------------------------------------------------------------
  // Writing the combination lines
  // ---------------------------------------------------------------

  /** The line for each of the numbers `ks`, in that order. */
  function LinesFor(ks: seq<int>, c: Combos, fmt: (int, seq<real>) -> string): (r: seq<string>)
    requires forall i :: 0 <= i < |ks| ==> ks[i] in c
    ensures |r| == |ks| && forall i :: 0 <= i < |ks| ==> r[i] == fmt(ks[i], c[ks[i]])
  {
    seq(|ks|, i requires 0 <= i < |ks| => fmt(ks[i], c[ks[i]]))
  }

  /** The combination lines of `to_string`: one per combination, in
      ascending combination number, formatted by `fmt` (the float
      formatting is not modelled). */
  function ComboLines(c: Combos, fmt: (int, seq<real>) -> string): (r: seq<string>)
    ensures |r| == |c.Keys|
  {
    LinesFor(SortedInts(c.Keys), c, fmt)
  }

  /** A lower-numbered combination is written before a higher one. */
  lemma ComboLinesOrder(c: Combos, fmt: (int, seq<real>) -> string, a: int, b: int)
    requires a in c && b in c && a < b
    ensures exists i, j :: 0 <= i < j < |ComboLines(c, fmt)| &&
              ComboLines(c, fmt)[i] == fmt(a, c[a]) && ComboLines(c, fmt)[j] == fmt(b, c[b])
  {
    var ks := SortedInts(c.Keys);
    assert a in ks && b in ks;
    var i :| 0 <= i < |ks| && ks[i] == a;
    var j :| 0 <= j < |ks| && ks[j] == b;
    assert i < j;
    var r := ComboLines(c, fmt);
    assert r[i] == fmt(a, c[a]) && r[j] == fmt(b, c[b]);
  }

  /** Lines for a prefix of the numbers, from a table that agrees on
      them, are a prefix of the lines. */
  lemma LinesForPrefix(ks: seq<int>, c: Combos, t: Combos, fmt: (int, seq<real>) -> string, m: nat)
    requires m <= |ks| && forall i :: 0 <= i < |ks| ==> ks[i] in c
    requires forall i :: 0 <= i < m ==> ks[i] in t && t[ks[i]] == c[ks[i]]
    ensures LinesFor(ks[..m], t, fmt) == LinesFor(ks, c, fmt)[..m]
  {
    var a, b := LinesFor(ks[..m], t, fmt), LinesFor(ks, c, fmt);
    forall i | 0 <= i < m
      ensures a[i] == b[..m][i]
    {
      assert ks[..m][i] == ks[i];
    }
  }

  /** Writing a trimmed table writes the first lines of the untrimmed
      one. */
  lemma ComboLinesTrim(c: Combos, fmt: (int, seq<real>) -> string, num: int)
    requires num > 0
    ensures ComboLines(Trim(c, num), fmt) == ComboLines(c, fmt)[..Min(num, |c.Keys|)]
  {
    var ks := SortedInts(c.Keys);
    TrimKeys(c, num);
    LinesForPrefix(ks, c, Trim(c, num), fmt, Min(num, |ks|));
  }

  // ---------------------------------------------------------------
  // LoadingEngine combination builders
  // ---------------------------------------------------------------

  /** A row of `n` zeros with 1.0 at position `i`. */
  function UnitRow(n: nat, i: nat): (row: seq<real>)
    requires i < n
    ensures |row| == n && row[i] == 1.0
    ensures forall j :: 0 <= j < n && j != i ==> row[j] == 0.0
  {
    seq(n, j requires 0 <= j < n => 0.0)[i := 1.0]
  }

  /** Rows 1..i of the identity table of width n: the loop of
      `with_identity_factored_combinations` after `i` rounds. */
  function IdentityRows(n: nat, i: nat): (c: Combos)
    requires i <= n
    ensures forall k :: k in c <==> 1 <= k <= i
    ensures forall k :: k in c ==> c[k] == UnitRow(n, k - 1)
    decreases i
  {
    if i == 0 then map[] else IdentityRows(n, i - 1)[i := UnitRow(n, i - 1)]
  }

  /** The identity table of `with_identity_factored_combinations` and
      `with_unfactored_combinations`: no rows when n <= 0. */
  function Identity(n: int): (c: Combos)
    ensures forall k :: k in c <==> 1 <= k <= n
    ensures forall k :: k in c ==> |c[k]| == n
    ensures forall k, j :: k in c && 0 <= j < n ==> (c[k][j] == 1.0 <==> j == k - 1) && (c[k][j] == 0.0 <==> j != k - 1)
  {
    if n <= 0 then map[] else IdentityRows(n, n)
  }

  /** The builders' loop: row i + 1 is a row of zeros with 1.0 written at
      position i.  It builds the identity table. */
  method IdentityCombos(numLoads: int) returns (c: Combos)
    ensures c == Identity(numLoads)
    ensures forall k :: k in c <==> 1 <= k <= numLoads
  {
    c := map[];
    if numLoads <= 0 {
      return;
    }
    var i := 0;
    while i < numLoads
      invariant 0 <= i <= numLoads
      invariant c == IdentityRows(numLoads, i)
    {
      var row := seq(numLoads, j requires 0 <= j < numLoads => 0.0);
      row := row[i := 1.0];
      c := c[i + 1 := row];
      i := i + 1;
    }
  }

  /** Each column holds its 1.0 in exactly one row, the one numbered one
      past the column, so the table is symmetric. */
  lemma IdentityColumns(n: int, j: nat)
    requires j < n
    ensures forall k :: k in Identity(n) ==> (Identity(n)[k][j] == 1.0 <==> k == j + 1)
    ensures forall a, b :: a in Identity(n) && b in Identity(n) ==> Identity(n)[a][b - 1] == Identity(n)[b][a - 1]
  {
  }

  /** The record fields the combination builders touch. */
  datatype Loading = Loading(combType: int, combOption: int, numLoadSystem: int, numLoadCase: (int, int),
                             comboFactored: Combos, comboUnfactored: Combos)

  /** `with_combination_settings`: the type, option and system count, and
      `num_load_case = (num_factored, num_unfactored)`; nothing else. */
  function WithCombinationSettings(l: Loading, combType: int, combOption: int, numSystem: int,
                                   numFactored: int, numUnfactored: int): (r: Loading)
    ensures r.numLoadCase.0 == numFactored && r.numLoadCase.1 == numUnfactored
    ensures r.combType == combType && r.combOption == combOption && r.numLoadSystem == numSystem
    ensures r.comboFactored == l.comboFactored && r.comboUnfactored == l.comboUnfactored
  {
    l.(combType := combType, combOption := combOption, numLoadSystem := numSystem,
       numLoadCase := (numFactored, numUnfactored))
  }

  /** `with_identity_factored_combinations`: the factored table becomes
      the identity; nothing else changes. */
  function WithIdentityFactored(l: Loading, numLoads: int): (r: Loading)
    ensures r.comboFactored == Identity(numLoads)
    ensures r.(comboFactored := l.comboFactored) == l
  {
    l.(comboFactored := Identity(numLoads))
  }

  /** `with_unfactored_combinations`: the unfactored table becomes the
      identity; nothing else changes. */
  function WithUnfactored(l: Loading, numLoads: int): (r: Loading)
    ensures r.comboUnfactored == Identity(numLoads)
    ensures r.(comboUnfactored := l.comboUnfactored) == l
  {
    l.(comboUnfactored := Identity(numLoads))
  }

  /** `{i + 1: row for i, row in enumerate(rows)}`. */
  function Numbered(rows: seq<seq<real>>): (c: Combos)
    ensures forall k :: k in c <==> 1 <= k <= |rows|
    ensures forall i :: 0 <= i < |rows| ==> c[i + 1] == rows[i]
    decreases |rows|
  {
    if |rows| == 0 then map[]
    else Numbered(rows[..|rows| - 1])[|rows| := rows[|rows| - 1]]
  }

  /** `with_custom_factored_combinations`: row i of the list becomes
      combination i + 1; nothing else changes. */
  function WithCustomFactored(l: Loading, rows: seq<seq<real>>): (r: Loading)
    ensures forall k :: k in r.comboFactored <==> 1 <= k <= |rows|
    ensures forall i :: 0 <= i < |rows| ==> r.comboFactored[i + 1] == rows[i]
    ensures r.(comboFactored := l.comboFactored) == l
  {
    l.(comboFactored := Numbered(rows))
  }

  /** Both identity builders produce the same matrix, and the custom
      builder given the unit rows produces it too. */
  lemma IdentityBuildersAgree(l: Loading, n: nat)
    ensures WithIdentityFactored(l, n).comboFactored == WithUnfactored(l, n).comboUnfactored
    ensures WithCustomFactored(l, seq(n, i requires 0 <= i < n => UnitRow(n, i))) == WithIdentityFactored(l, n)
  {
    var rows := seq(n, i requires 0 <= i < n => UnitRow(n, i));
    var c := Numbered(rows);
    forall k | k in c
      ensures c[k] == Identity(n)[k]
    {
      assert c[k] == rows[k - 1];
    }
    assert c == Identity(n);
  }

  /** The numbers 1..n in order. */
  function Numbers(n: nat): (r: seq<int>)
    ensures |r| == n && forall i :: 0 <= i < n ==> r[i] == i + 1
  {
    seq(n, i requires 0 <= i < n => i + 1)
  }

  /** The sorted numbers of an identity table are 1..n. */
  lemma IdentitySorted(n: nat)
    ensures SortedInts(Identity(n).Keys) == Numbers(n)
  {
    var s, t := SortedInts(Identity(n).Keys), Numbers(n);
    forall x
      ensures x in s <==> x in t
    {
      if 1 <= x <= n {
        assert t[x - 1] == x;
      }
    }
    IncreasingUnique(s, t);
  }

  /** The sorted numbers left after trimming an identity table. */
  lemma TrimIdentitySorted(n: nat, num: int)
    requires num > 0
    ensures SortedInts(Trim(Identity(n), num).Keys) == Numbers(n)[..Min(num, n)]
  {
    TrimKeys(Identity(n), num);
    IdentitySorted(n);
  }

  /** Trimming an identity table by a positive count keeps the rows
      numbered up to that count. */
  lemma TrimIdentity(n: nat, num: int, k: int)
    requires num > 0
    ensures k in Trim(Identity(n), num) <==> 1 <= k <= Min(num, n)
  {
    var t := Trim(Identity(n), num);
    TrimIdentitySorted(n, num);
    InSorted(t.Keys, k);
    NumbersPrefix(n, Min(num, n), k);
  }

  lemma InSorted(keys: set<int>, k: int)
    ensures k in keys <==> k in SortedInts(keys)
  {
  }

  lemma NumbersPrefix(n: nat, m: nat, k: int)
    requires m <= n
    ensures k in Numbers(n)[..m] <==> 1 <= k <= m
  {
    if 1 <= k <= m {
      assert Numbers(n)[..m][k - 1] == k;
    }
  }

  /** `set_load_combination`'s combination part: settings (0, 2, 7, 6, 6)
      and seven-row identity tables. */
  function DefaultCombinations(l: Loading): (r: Loading)
    ensures r.numLoadCase == (6, 6)
    ensures r.comboFactored == Identity(7) && r.comboUnfactored == Identity(7)
  {
    WithUnfactored(WithIdentityFactored(WithCombinationSettings(l, 0, 2, 7, 6, 6), 7), 7)
  }

  /** The default tables hold seven combinations while the counts say
      six, so trimming by the counts keeps combinations 1 to 6 only. */
  lemma DefaultTrimmed(l: Loading, k: int)
    ensures var d := DefaultCombinations(l);
            7 in d.comboFactored && (k in Trim(d.comboFactored, d.numLoadCase.0) <==> 1 <= k <= 6)
  {
    TrimIdentity(7, 6, k);
  }
}
