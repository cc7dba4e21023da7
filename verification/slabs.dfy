/** Floor slabs (collection/slabs.py): the FLOORSLAB block parser, which
    reads one slab per non-blank line and embeds the elset it names, and
    `remap_elsets`, which rebinds every slab's elset after an elset merge. */
module Slabs {
  import opened Wrappers
  import opened Text
  import opened Scan
  import opened Store
  import opened Rebind

  /** A slab's fields besides its index (the entity index). */
  datatype Slab<E> = Slab(name: string, slabType: int, elset: Entity<E>,
                          thick: real, qDL: real, qLL: real, weight: real, cost: real)

  // ---------------------------------------------------------------
  // _parse_slab
  // ---------------------------------------------------------------

  /** `int(l0[k])`: IndexError past the last token. */
  function IntAt(ts: seq<string>, k: nat): (r: Result<int>)
    ensures r.Err? ==> r.error in {IndexError, ValueError}
    ensures k >= |ts| <==> r == Err(IndexError)
  {
    if k >= |ts| then Err(IndexError) else ParseInt(ts[k])
  }

  /** `float(l0[k])`: IndexError past the last token. */
  function FloatAt(ts: seq<string>, k: nat): (r: Result<real>)
    ensures r.Err? ==> r.error in {IndexError, ValueError}
    ensures k >= |ts| <==> r == Err(IndexError)
  {
    if k >= |ts| then Err(IndexError) else ParseFloat(ts[k])
  }

  /** `_parse_slab` on the whitespace-separated tokens of a line: the nine
      fields are read left to right (index, name, type, elset index, then
      thickness, dead load, live load, weight and cost), the first missing
      or malformed one raising; then the elset is looked up and a missing
      one raises ValueError. */
  function ParseSlabTokens<E>(ts: seq<string>, elsets: Coll<E>): (r: Result<Entity<Slab<E>>>)
    ensures r.Err? ==> r.error in {IndexError, ValueError}
    ensures |ts| < 9 ==> r.Err?
    ensures r.Ok? ==> && IntAt(ts, 0) == Ok(r.value.index)
                      && r.value.data.name == ts[1]
                      && IntAt(ts, 2) == Ok(r.value.data.slabType)
                      && IntAt(ts, 3).Ok? && Get(elsets, IntAt(ts, 3).value) == Some(r.value.data.elset)
                      && FloatAt(ts, 4) == Ok(r.value.data.thick) && FloatAt(ts, 5) == Ok(r.value.data.qDL)
                      && FloatAt(ts, 6) == Ok(r.value.data.qLL) && FloatAt(ts, 7) == Ok(r.value.data.weight)
                      && FloatAt(ts, 8) == Ok(r.value.data.cost)
  {
    var index :- IntAt(ts, 0);
    var name :- if |ts| < 2 then Err(IndexError) else Ok(ts[1]);
    var slabType :- IntAt(ts, 2);
    var elsetIndex :- IntAt(ts, 3);
    var thick :- FloatAt(ts, 4);
    var qDL :- FloatAt(ts, 5);
    var qLL :- FloatAt(ts, 6);
    var weight :- FloatAt(ts, 7);
    var cost :- FloatAt(ts, 8);
    match Get(elsets, elsetIndex)
    case None => Err(ValueError)
    case Some(e) => Ok(Entity(index, Slab(name, slabType, e, thick, qDL, qLL, weight, cost)))
  }

  function ParseSlab<E>(line: string, elsets: Coll<E>): (r: Result<Entity<Slab<E>>>)
    ensures r.Err? ==> r.error in {IndexError, ValueError}
  {
    ParseSlabTokens(SplitWs(Strip(line)), elsets)
  }

  /** Tokens that all read cleanly give the slab they describe; it then
      fails only on its elset: exactly when the elset index is unknown,
      and then with ValueError. */
  lemma ParseSlabFields<E>(ts: seq<string>, elsets: Coll<E>, index: int, slabType: int, elsetIndex: int,
                           thick: real, qDL: real, qLL: real, weight: real, cost: real)
    requires |ts| >= 9
    requires ParseInt(ts[0]) == Ok(index) && ParseInt(ts[2]) == Ok(slabType) && ParseInt(ts[3]) == Ok(elsetIndex)
    requires ParseFloat(ts[4]) == Ok(thick) && ParseFloat(ts[5]) == Ok(qDL) && ParseFloat(ts[6]) == Ok(qLL)
    requires ParseFloat(ts[7]) == Ok(weight) && ParseFloat(ts[8]) == Ok(cost)
    ensures elsetIndex !in elsets.byIndex ==> ParseSlabTokens(ts, elsets) == Err(ValueError)
    ensures elsetIndex in elsets.byIndex ==>
              ParseSlabTokens(ts, elsets) ==
                Ok(Entity(index, Slab(ts[1], slabType, elsets.byIndex[elsetIndex], thick, qDL, qLL, weight, cost)))
  {
  }

  // ---------------------------------------------------------------
  // from_model
  // ---------------------------------------------------------------

  /** The lines that are not blank after `strip()`, in order. */
  function NonBlank(lines: seq<string>): (r: seq<string>)
    ensures forall k :: 0 <= k < |r| ==> |Strip(r[k])| > 0
    ensures |r| <= |lines|
  {
    if |lines| == 0 then []
    else (if |Strip(lines[0])| > 0 then [lines[0]] else []) + NonBlank(lines[1..])
  }

  /** Every line with text survives the filter. */
  lemma {:induction false} NonBlankKeeps(lines: seq<string>, k: nat)
    requires k < |lines| && |Strip(lines[k])| > 0
    ensures lines[k] in NonBlank(lines)
    decreases k
  {
    if k > 0 {
      NonBlankKeeps(lines[1..], k - 1);
    }
  }

  /** `from_model`: ValueError when the FLOORSLAB block is absent;
      otherwise one slab per non-blank line, in order, the first line that
      fails deciding the error, all in one indexed collection. */
  function SlabsFromModel<E>(block: Option<seq<string>>, elsets: Coll<E>): (r: Result<Coll<Slab<E>>>)
    ensures block.None? ==> r == Err(ValueError)
    ensures r.Err? ==> r.error in {IndexError, ValueError}
    ensures r.Ok? ==> Consistent(r.value)
  {
    match block
    case None => Err(ValueError)
    case Some(lines) =>
      var ls := NonBlank(lines);
      match MapAll(ls, l => ParseSlab(l, elsets))
      case Err(e) => Err(e)
      case Ok(slabs) => Ok(FromSeq(slabs))
  }

  /** Reading succeeds exactly when every non-blank line parses. */
  lemma SlabsFromModelOk<E>(lines: seq<string>, elsets: Coll<E>)
    ensures SlabsFromModel(Some(lines), elsets).Ok? <==>
              forall k :: 0 <= k < |NonBlank(lines)| ==> ParseSlab(NonBlank(lines)[k], elsets).Ok?
  {
    var ls := NonBlank(lines);
    var f := l => ParseSlab(l, elsets);
    var m := MapAll(ls, f);
    if m.Err? {
      var k :| 0 <= k < |ls| && f(ls[k]) == Err(m.error);
      assert ParseSlab(ls[k], elsets).Err?;
    } else {
      forall k | 0 <= k < |ls|
        ensures ParseSlab(ls[k], elsets).Ok?
      {
        assert f(ls[k]).Ok?;
      }
    }
  }

  /** A successful read holds one slab per non-blank line, in order, each
      the slab its line describes. */
  lemma SlabsFromModelLines<E>(lines: seq<string>, elsets: Coll<E>)
    requires SlabsFromModel(Some(lines), elsets).Ok?
    ensures var ls, objs := NonBlank(lines), SlabsFromModel(Some(lines), elsets).value.objects;
            |objs| == |ls| && forall k :: 0 <= k < |ls| ==> ParseSlab(ls[k], elsets) == Ok(objs[k])
  {
    var ls := NonBlank(lines);
    var f := l => ParseSlab(l, elsets);
    var m := MapAll(ls, f);
    assert SlabsFromModel(Some(lines), elsets) == Ok(FromSeq(m.value));
    forall k | 0 <= k < |ls|
      ensures f(ls[k]) == ParseSlab(ls[k], elsets)
    {
    }
  }

  // ---------------------------------------------------------------
  // remap_elsets
  // ---------------------------------------------------------------

  function RebindSlab<E>(s: Entity<Slab<E>>, reorder: map<int, int>, elsets: Coll<E>): (r: Result<Entity<Slab<E>>>)
    ensures r.Err? <==> RebindElset(s.data.elset, reorder, elsets).Err?
    ensures r.Ok? ==> r.value == Entity(s.index, s.data.(elset := RebindElset(s.data.elset, reorder, elsets).value))
  {
    match RebindElset(s.data.elset, reorder, elsets)
    case Err(e) => Err(e)
    case Ok(e) => Ok(Entity(s.index, s.data.(elset := e)))
  }

  /** `remap_elsets`: KeyError when some slab's elset index is unmapped
      or maps to an absent merged elset; otherwise every slab keeps its
      index and all fields but the elset, which becomes the merged elset
      `new_elsets.get(reorder_map[old])`. */
  function RemapSlabs<E>(c: Coll<Slab<E>>, reorder: map<int, int>, elsets: Coll<E>): (r: Result<Coll<Slab<E>>>)
    ensures r.Ok? <==> forall k :: 0 <= k < |c.objects| ==> RebindElset(c.objects[k].data.elset, reorder, elsets).Ok?
    ensures r.Err? ==> r.error == KeyError
    ensures r.Err? ==> exists k :: 0 <= k < |c.objects| && RebindElset(c.objects[k].data.elset, reorder, elsets).Err? &&
                                   forall j :: 0 <= j < k ==> RebindElset(c.objects[j].data.elset, reorder, elsets).Ok?
    ensures r.Ok? ==> Consistent(r.value) && |r.value.objects| == |c.objects|
    ensures r.Ok? ==> forall k :: 0 <= k < |c.objects| ==>
                        var before, after := c.objects[k], r.value.objects[k];
                        && after.index == before.index
                        && after.data == before.data.(elset := after.data.elset)
                        && Get(elsets, reorder[before.data.elset.index]) == Some(after.data.elset)
  {
    match MapAll(c.objects, s => RebindSlab(s, reorder, elsets))
    case Err(e) => Err(e)
    case Ok(ss) => Ok(FromSeq(ss))
  }
}
