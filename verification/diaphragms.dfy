/** Diaphragms (collection/Diaphragms.py, ObjectCollection/Diaphragms.py):
    the MDIAPHTAB block, read two lines per diaphragm; the engine that
    forces the diaphragm indices to a given node index list; and the
    legacy engine that extends the collection up to a target index. */
module Diaphragms {
  import opened Wrappers
  import opened Text
  import opened Store

  /** A diaphragm's two data lines, each without its leading index.  The
      source keeps each in a one-element list. */
  datatype DiaphData = DiaphData(tower: string, diaph: string)

  type Diaphragm = Entity<DiaphData>

  const Header := "MDIAPHTAB"

  // ---------------------------------------------------------------
  // parse_line / format_line
  // ---------------------------------------------------------------

  /** `" ".join(parts[1:])`. */
  function Rest(parts: seq<string>): (r: string)
    ensures |parts| <= 1 ==> r == ""
  {
    if |parts| == 0 then "" else JoinWith(parts[1..], " ")
  }

  /** `parse_line`: the index is the first token of the tower line (the
      first token of the diaphragm line is ignored); each data line keeps
      its remaining tokens joined by single spaces.  A blank tower line
      raises IndexError, a non-numeric index ValueError. */
  function ParseDiaphragm(towerLine: string, diaphLine: string): (r: Result<Diaphragm>)
    ensures r.Err? ==> r.error in {IndexError, ValueError}
    ensures r == Err(IndexError) <==> |SplitWs(Strip(towerLine))| == 0
    ensures r.Ok? ==> ParseInt(SplitWs(Strip(towerLine))[0]) == Ok(r.value.index)
  {
    ParseWords(SplitWs(Strip(towerLine)), SplitWs(Strip(diaphLine)))
  }

  /** `parse_line` on the two lines' words. */
  function ParseWords(ts: seq<string>, ds: seq<string>): (r: Result<Diaphragm>)
    ensures r.Err? ==> r.error in {IndexError, ValueError}
    ensures r == Err(IndexError) <==> |ts| == 0
    ensures r.Ok? ==> ParseInt(ts[0]) == Ok(r.value.index)
  {
    if |ts| == 0 then Err(IndexError)
    else
      var index :- ParseInt(ts[0]);
      Ok(Entity(index, DiaphData(Rest(ts), Rest(ds))))
  }

  /** `format_line`: the tower line and the diaphragm line, each led by
      the index. */
  function FormatDiaphragm(d: Diaphragm): (r: seq<string>)
    ensures |r| == 2
  {
    [IntToString(d.index) + " " + d.data.tower, IntToString(d.index) + " " + d.data.diaph]
  }

  /** Data that reads back as itself: words separated by single spaces,
      with no whitespace at either end. */
  predicate Canonical(t: string) {
    |t| > 0 && !IsSpace(t[0]) && !IsSpace(t[|t| - 1]) && JoinWith(SplitWs(t), " ") == t
  }

  /** The decimal text of an integer is one word. */
  lemma IntToStringWord(i: int)
    ensures IsWord(IntToString(i))
  {
    var s := IntToString(i);
    if i < 0 {
      assert s == "-" + NatToString(-i);
      assert forall k :: 1 <= k < |s| ==> s[k] == NatToString(-i)[k - 1];
    }
  }

  /** The leading word of a word followed by whitespace (or nothing) is
      that word. */
  lemma {:induction false} WordPrefixOf(w: string, rest: string)
    requires IsWord(w) && (|rest| == 0 || IsSpace(rest[0]))
    ensures WordPrefix(w + rest) == w
    decreases |w|
  {
    var s := w + rest;
    if |w| > 1 {
      assert s[1..] == w[1..] + rest;
      WordPrefixOf(w[1..], rest);
      assert s[..1] + w[1..] == w;
    }
  }

  /** Splitting a word, a space and more text gives the word, then the
      words of the text. */
  lemma SplitWsCons(w: string, t: string)
    requires IsWord(w)
    ensures SplitWs(w + " " + t) == [w] + SplitWs(t)
  {
    var s := w + " " + t;
    assert s == w + (" " + t);
    WordPrefixOf(w, " " + t);
    assert s[|w|..] == " " + t;
    assert (" " + t)[1..] == t;
  }

  /** `format_line` followed by `parse_line` gives the diaphragm back
      when both data lines are canonical. */
  lemma FormatParse(d: Diaphragm)
    requires Canonical(d.data.tower) && Canonical(d.data.diaph)
    ensures var ls := FormatDiaphragm(d); ParseDiaphragm(ls[0], ls[1]) == Ok(d)
  {
    var n := IntToString(d.index);
    IntToStringWord(d.index);
    LineReads(n, d.data.tower);
    LineReads(n, d.data.diaph);
    ParseIntToString(d.index);
  }

  lemma LineReads(n: string, t: string)
    requires IsWord(n) && Canonical(t)
    ensures SplitWs(Strip(n + " " + t)) == [n] + SplitWs(t)
    ensures Rest(SplitWs(Strip(n + " " + t))) == t
  {
    var s := n + " " + t;
    StripIdentity(s);
    SplitWsCons(n, t);
    assert ([n] + SplitWs(t))[1..] == SplitWs(t);
  }

  // ---------------------------------------------------------------
  // from_model
  // ---------------------------------------------------------------

  /** The `while i < len(lines) - 1` loop: consecutive lines taken two at
      a time; a final unpaired line is skipped. */
  function Pairs<T>(lines: seq<T>): (r: seq<(T, T)>)
    decreases |lines|
  {
    if |lines| < 2 then [] else [(lines[0], lines[1])] + Pairs(lines[2..])
  }

  /** The k-th pair is lines 2k and 2k+1, and there are `len // 2`. */
  lemma {:induction false} PairsAt<T>(lines: seq<T>)
    ensures |Pairs(lines)| == |lines| / 2
    ensures forall k :: 0 <= k < |lines| / 2 ==> Pairs(lines)[k] == (lines[2 * k], lines[2 * k + 1])
    decreases |lines|
  {
    if |lines| >= 2 {
      var tail := lines[2..];
      PairsAt(tail);
      forall k | 1 <= k < |lines| / 2
        ensures Pairs(lines)[k] == (lines[2 * k], lines[2 * k + 1])
      {
        assert Pairs(lines)[k] == Pairs(tail)[k - 1];
        assert tail[2 * (k - 1)] == lines[2 * k];
      }
    }
  }

  /** An unpaired last line is ignored. */
  lemma TrailingLineIgnored(lines: seq<string>, extra: string)
    requires |lines| % 2 == 0
    ensures Pairs(lines + [extra]) == Pairs(lines)
  {
    var all := lines + [extra];
    PairsAt(all);
    PairsAt(lines);
    assert |all| / 2 == |lines| / 2;
  }

  /** `parse_line` on one pair of lines. */
  function ParsePair(p: (string, string)): (r: Result<Diaphragm>)
    ensures r == ParseDiaphragm(p.0, p.1)
  {
    ParseDiaphragm(p.0, p.1)
  }

  /** `from_model`: AttributeError when the MDIAPHTAB block is absent
      (`None.body`); otherwise one diaphragm per pair of lines, the first
      pair that fails deciding the error. */
  function DiaphragmsFromModel(block: Option<seq<string>>): (r: Result<Coll<DiaphData>>)
    ensures block.None? ==> r == Err(AttributeError)
    ensures r.Err? ==> r.error in {AttributeError, IndexError, ValueError}
    ensures r.Ok? ==> Consistent(r.value)
  {
    match block
    case None => Err(AttributeError)
    case Some(lines) =>
      match MapAll(Pairs(lines), ParsePair)
      case Err(e) => Err(e)
      case Ok(ds) => Ok(FromSeq(ds))
  }

  /** A successful read holds one diaphragm per pair: the k-th is read
      from lines 2k and 2k+1. */
  lemma DiaphragmsFromModelLines(lines: seq<string>)
    requires DiaphragmsFromModel(Some(lines)).Ok?
    ensures var objs := DiaphragmsFromModel(Some(lines)).value.objects;
            |objs| == |lines| / 2 &&
            forall k :: 0 <= k < |objs| ==> ParseDiaphragm(lines[2 * k], lines[2 * k + 1]) == Ok(objs[k])
  {
    var ps := Pairs(lines);
    var f := ParsePair;
    var m := MapAll(ps, f);
    PairsAt(lines);
    assert DiaphragmsFromModel(Some(lines)) == Ok(FromSeq(m.value));
    forall k | 0 <= k < |ps|
      ensures ParseDiaphragm(lines[2 * k], lines[2 * k + 1]) == Ok(m.value[k])
    {
      assert ps[k] == (lines[2 * k], lines[2 * k + 1]);
      assert f(ps[k]) == ParseDiaphragm(lines[2 * k], lines[2 * k + 1]);
    }
  }

  /** Pairs laid out one after the other. */
  function Flatten<T>(ps: seq<(T, T)>): (r: seq<T>)
    ensures |r| == 2 * |ps|
  {
    if |ps| == 0 then [] else [ps[0].0, ps[0].1] + Flatten(ps[1..])
  }

  /** Taking flattened pairs two at a time gives the pairs back. */
  lemma {:induction false} PairsFlatten<T>(ps: seq<(T, T)>)
    ensures Pairs(Flatten(ps)) == ps
    decreases |ps|
  {
    if |ps| > 0 {
      var f := Flatten(ps);
      assert f[0] == ps[0].0 && f[1] == ps[0].1 && f[2..] == Flatten(ps[1..]);
      PairsFlatten(ps[1..]);
      assert [ps[0]] + ps[1..] == ps;
    }
  }

  /** Each diaphragm's two `format_line` lines. */
  function FormatPairs(ds: seq<Diaphragm>): (r: seq<(string, string)>)
    ensures |r| == |ds|
    ensures forall k :: 0 <= k < |ds| ==> r[k] == (FormatDiaphragm(ds[k])[0], FormatDiaphragm(ds[k])[1])
  {
    seq(|ds|, k requires 0 <= k < |ds| => (FormatDiaphragm(ds[k])[0], FormatDiaphragm(ds[k])[1]))
  }

  /** The lines `format_line` writes for each diaphragm, in order. */
  function FormatAll(ds: seq<Diaphragm>): (r: seq<string>)
    ensures |r| == 2 * |ds|
  {
    Flatten(FormatPairs(ds))
  }

  /** The pairs read from written diaphragms are their two lines. */
  lemma FormatAllPairs(ds: seq<Diaphragm>)
    ensures |Pairs(FormatAll(ds))| == |ds|
    ensures forall k :: 0 <= k < |ds| ==> Pairs(FormatAll(ds))[k] == (FormatDiaphragm(ds[k])[0], FormatDiaphragm(ds[k])[1])
  {
    PairsFlatten(FormatPairs(ds));
  }

  /** Writing diaphragms with canonical data and reading the lines back
      gives the same diaphragms. */
  lemma FormatAllRead(ds: seq<Diaphragm>)
    requires forall k :: 0 <= k < |ds| ==> Canonical(ds[k].data.tower) && Canonical(ds[k].data.diaph)
    ensures DiaphragmsFromModel(Some(FormatAll(ds))) == Ok(FromSeq(ds))
  {
    FormatAllParsed(ds);
  }

  lemma FormatAllParsed(ds: seq<Diaphragm>)
    requires forall k :: 0 <= k < |ds| ==> Canonical(ds[k].data.tower) && Canonical(ds[k].data.diaph)
    ensures MapAll(Pairs(FormatAll(ds)), ParsePair) == Ok(ds)
  {
    AllPairsRead(ds);
    MapAllOk(Pairs(FormatAll(ds)), ParsePair, ds);
  }

  lemma AllPairsRead(ds: seq<Diaphragm>)
    requires forall k :: 0 <= k < |ds| ==> Canonical(ds[k].data.tower) && Canonical(ds[k].data.diaph)
    ensures |Pairs(FormatAll(ds))| == |ds|
    ensures forall k :: 0 <= k < |ds| ==> ParsePair(Pairs(FormatAll(ds))[k]) == Ok(ds[k])
  {
    FormatAllPairs(ds);
    forall k | 0 <= k < |ds|
      ensures ParsePair(Pairs(FormatAll(ds))[k]) == Ok(ds[k])
    {
      PairReads(ds, k);
    }
  }

  lemma PairReads(ds: seq<Diaphragm>, k: nat)
    requires k < |ds| && Canonical(ds[k].data.tower) && Canonical(ds[k].data.diaph)
    ensures k < |Pairs(FormatAll(ds))|
    ensures var p := Pairs(FormatAll(ds))[k]; ParseDiaphragm(p.0, p.1) == Ok(ds[k])
  {
    FormatAllPairs(ds);
    FormatParse(ds[k]);
  }

  // ---------------------------------------------------------------
  // match_node_indices
  // ---------------------------------------------------------------

  /** A placeholder diaphragm with index `i`: its tower and diaphragm
      lines are the keywords followed by `zeros`. */
  function Placeholder(i: int, zeros: string): (d: Diaphragm)
    ensures d.index == i
  {
    Entity(i, DiaphData("TOWER" + zeros, "DIAPH" + zeros))
  }

  /** The minimal diaphragm `match_node_indices` creates for a node that
      has none: three zero fields per line. */
  const MatchZeros := " 0 0 0"

  /** The new object list: for each node index, the diaphragm the
      `{d.index: d}` dictionary holds for it, else a default one. */
  function Matched(objs: seq<Diaphragm>, nodes: seq<int>): (r: seq<Diaphragm>)
    ensures |r| == |nodes|
    ensures forall k :: 0 <= k < |nodes| ==> r[k].index == nodes[k]
  {
    var m := IndexMap(objs);
    seq(|nodes|, k requires 0 <= k < |nodes| => if nodes[k] in m then m[nodes[k]] else Placeholder(nodes[k], MatchZeros))
  }

  /** `match_node_indices` as written: the object list is replaced but
      the `_index` dictionary is left as it was. */
  function MatchNodeIndicesAsWritten(c: Coll<DiaphData>, nodes: seq<int>): (r: Coll<DiaphData>)
    ensures r.objects == Matched(c.objects, nodes)
    ensures r.byIndex == c.byIndex
  {
    Coll(Matched(c.objects, nodes), c.byIndex)
  }

  /** On an empty collection matched to node 1, the result lists a
      diaphragm with index 1, yet `get(1)` finds nothing. */
  lemma MatchNodeIndicesStale()
    ensures var r := MatchNodeIndicesAsWritten(Empty(), [1]);
            r.objects == [Placeholder(1, MatchZeros)] && Get(r, 1).None? && !Consistent(r)
  {
    var r := MatchNodeIndicesAsWritten(Empty(), [1]);
    assert r.objects[0].index == 1;
    assert 1 in IndexMap(r.objects);
  }

  /** `match_node_indices` with the dictionary rebuilt for the new list. */
  function MatchNodeIndices(c: Coll<DiaphData>, nodes: seq<int>): (r: Coll<DiaphData>)
    ensures Consistent(r)
    ensures r.objects == MatchNodeIndicesAsWritten(c, nodes).objects
  {
    FromSeq(Matched(c.objects, nodes))
  }

  /** The result lists exactly the node indices in order; a node with a
      diaphragm keeps the last diaphragm carrying its index, unchanged;
      a node without one gets the default; and no other diaphragm
      survives. */
  lemma MatchNodeIndicesContents(c: Coll<DiaphData>, nodes: seq<int>)
    ensures var r := MatchNodeIndices(c, nodes).objects;
            |r| == |nodes| && forall k :: 0 <= k < |nodes| ==> r[k].index == nodes[k]
    ensures var r := MatchNodeIndices(c, nodes).objects;
            forall k :: 0 <= k < |nodes| ==>
              ((exists j :: LastWith(c.objects, nodes[k], j) && r[k] == c.objects[j]) ||
               ((forall j :: 0 <= j < |c.objects| ==> c.objects[j].index != nodes[k]) && r[k] == Placeholder(nodes[k], MatchZeros)))
    ensures var r := MatchNodeIndices(c, nodes).objects;
            forall j :: 0 <= j < |c.objects| && c.objects[j].index !in nodes ==> c.objects[j] !in r
  {
    var r := MatchNodeIndices(c, nodes).objects;
    var m := IndexMap(c.objects);
    forall k | 0 <= k < |nodes|
      ensures (exists j :: LastWith(c.objects, nodes[k], j) && r[k] == c.objects[j]) ||
              ((forall j :: 0 <= j < |c.objects| ==> c.objects[j].index != nodes[k]) && r[k] == Placeholder(nodes[k], MatchZeros))
    {
      if nodes[k] in m {
        IndexMapLast(c.objects, nodes[k]);
      }
    }
  }

  /** With distinct node indices, `get` on the rebuilt collection finds
      each node's diaphragm. */
  lemma MatchNodeIndicesGet(c: Coll<DiaphData>, nodes: seq<int>, k: nat)
    requires forall a, b :: 0 <= a < b < |nodes| ==> nodes[a] != nodes[b]
    requires k < |nodes|
    ensures Get(MatchNodeIndices(c, nodes), nodes[k]) == Some(MatchNodeIndices(c, nodes).objects[k])
  {
    var r := MatchNodeIndices(c, nodes);
    IndexMapAt(r.objects, nodes[k], k);
  }

  // ---------------------------------------------------------------
  // extend (legacy engine)
  // ---------------------------------------------------------------

  /** The diaphragm the legacy `extend` creates: four zero fields per line. */
  const ExtendZeros := " 0 0 0 0"

  /** `max(existing_indices) if existing_indices else 0`. */
  function MaxIndex<D>(objs: seq<Entity<D>>): (m: int)
    ensures |objs| == 0 ==> m == 0
    ensures |objs| > 0 ==> (exists k :: 0 <= k < |objs| && objs[k].index == m)
    ensures forall k :: 0 <= k < |objs| ==> objs[k].index <= m
  {
    if |objs| == 0 then 0
    else if |objs| == 1 then objs[0].index
    else
      var m := MaxIndex(objs[1..]);
      assert forall k :: 1 <= k < |objs| ==> objs[k] == objs[1..][k - 1];
      if objs[0].index >= m then objs[0].index else m
  }

  /** `range(lo, hi + 1)` of default diaphragms. */
  function DefaultRange(lo: int, hi: int): (r: seq<Diaphragm>)
    ensures |r| == if hi < lo then 0 else hi - lo + 1
    ensures forall k :: 0 <= k < |r| ==> r[k] == Placeholder(lo + k, ExtendZeros)
    decreases hi - lo
  {
    if hi < lo then [] else [Placeholder(lo, ExtendZeros)] + DefaultRange(lo + 1, hi)
  }

  /** `extend(collection, target_index)`: adds default diaphragms for
      every index above the current maximum up to the target. */
  function ExtendTo(c: Coll<DiaphData>, target: int): (r: Coll<DiaphData>)
  {
    Extend(c, DefaultRange(MaxIndex(c.objects) + 1, target))
  }

  lemma ExtendToTail(c: Coll<DiaphData>, target: int, k: int)
    requires |c.objects| <= k < |ExtendTo(c, target).objects|
    ensures ExtendTo(c, target).objects[k] == Placeholder(MaxIndex(c.objects) + 1 + k - |c.objects|, ExtendZeros)
  {
    var added := DefaultRange(MaxIndex(c.objects) + 1, target);
    assert ExtendTo(c, target).objects == c.objects + added;
    assert ExtendTo(c, target).objects[k] == added[k - |c.objects|];
  }

  /** The existing diaphragms stay first and unchanged. */
  lemma ExtendToKeeps(c: Coll<DiaphData>, target: int)
    ensures ExtendTo(c, target).objects[..|c.objects|] == c.objects
  {
    assert ExtendTo(c, target).objects == c.objects + DefaultRange(MaxIndex(c.objects) + 1, target);
  }

  /** One diaphragm is added per index above the maximum up to the
      target, none when the target is not above it. */
  lemma ExtendToCount(c: Coll<DiaphData>, target: int)
    ensures var m := MaxIndex(c.objects);
            |ExtendTo(c, target).objects| == |c.objects| + (if target <= m then 0 else target - m)
  {
    assert ExtendTo(c, target).objects == c.objects + DefaultRange(MaxIndex(c.objects) + 1, target);
  }

  /** The added diaphragms carry indices max+1, max+2, ... in order. */
  lemma ExtendToAdded(c: Coll<DiaphData>, target: int)
    ensures var r, n := ExtendTo(c, target).objects, |c.objects|;
            forall k :: n <= k < |r| ==> r[k] == Placeholder(MaxIndex(c.objects) + 1 + k - n, ExtendZeros)
  {
    var r, n := ExtendTo(c, target).objects, |c.objects|;
    forall k | n <= k < |r|
      ensures r[k] == Placeholder(MaxIndex(c.objects) + 1 + k - n, ExtendZeros)
    {
      ExtendToTail(c, target, k);
    }
  }

  /** Extending keeps a consistent collection consistent. */
  lemma ExtendToConsistent(c: Coll<DiaphData>, target: int)
    requires Consistent(c)
    ensures Consistent(ExtendTo(c, target))
  {
    ExtendConsistent(c, DefaultRange(MaxIndex(c.objects) + 1, target));
  }

  /** Every added index is above every existing one, so `get` finds each
      new diaphragm under its index. */
  lemma ExtendToGet(c: Coll<DiaphData>, target: int, i: int)
    requires Consistent(c)
    requires MaxIndex(c.objects) < i <= target
    ensures Get(ExtendTo(c, target), i) == Some(Placeholder(i, ExtendZeros))
  {
    var r, n, m := ExtendTo(c, target).objects, |c.objects|, MaxIndex(c.objects);
    ExtendToConsistent(c, target);
    ExtendToCount(c, target);
    var k := n + (i - m - 1);
    ExtendToTail(c, target, k);
    forall l | k < l < |r|
      ensures r[l].index != i
    {
      ExtendToTail(c, target, l);
    }
    IndexMapAt(r, i, k);
  }

  /** Extending twice to the same target adds nothing the second time. */
  lemma ExtendToIdempotent(c: Coll<DiaphData>, target: int)
    ensures ExtendTo(ExtendTo(c, target), target) == ExtendTo(c, target)
  {
    var r := ExtendTo(c, target);
    var m := MaxIndex(c.objects);
    var m2 := MaxIndex(r.objects);
    if m < target {
      var last := |r.objects| - 1;
      assert r.objects[last].index == target;
      assert m2 >= target;
      forall k | 0 <= k < |r.objects|
        ensures r.objects[k].index <= target
      {
        if k < |c.objects| {
          assert r.objects[k] == c.objects[k];
        }
      }
    } else {
      assert r.objects == c.objects;
    }
    assert DefaultRange(m2 + 1, target) == [];
    assert Extend(r, []) == r;
  }
}
