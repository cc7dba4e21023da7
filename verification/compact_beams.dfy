/** Compact beam layouts (compact/layout/beam_layout_compact.py): a beam
    layout reduced to the indices its beams refer to, and the expansion
    back to full beams that looks those indices up and numbers the beams
    afresh. */
module CompactBeams {
  import opened Wrappers
  import opened Store
  import opened Layouts

  /** A full beam: its end nodes and elset as the objects looked up (None
      when the lookup found nothing), and the fixed fields. */
  datatype Beam<N, E> = Beam(start: Option<Entity<N>>, end: Option<Entity<N>>, elset: Option<Entity<E>>,
                             group: int, beamType: int, misc: string)

  /** `BeamCompact`: the owning layout's index and the three referenced
      indices. */
  datatype BeamCompact = BeamCompact(layout: int, start: int, end: int, elset: int)

  datatype CompactLayout = CompactLayout(index: int, items: seq<BeamCompact>)

  /** The fixed `misc` text every expanded beam receives. */
  const Misc := "0 0 0 0 0 1 0 DWGLABEL   -1.0   -1.0  1.20  1.20 0 0   0.0 100.0   0.0   6.0 0 0 0 0    0.0    0.0    0.0    0.0 0 0 0 0 0 0 0 0 0 0 0 0 0 0    0.000 0.000 0 0 0  0 0    0.00   0.00"

  // ---------------------------------------------------------------
  // CompactBeamLayout.from_layout
  // ---------------------------------------------------------------

  /** `obj.index`: AttributeError on None. */
  function IndexOf<X>(o: Option<Entity<X>>): (r: Result<int>)
    ensures r.Ok? <==> o.Some?
    ensures r.Err? ==> r.error == AttributeError
    ensures r.Ok? ==> r.value == o.value.index
  {
    match o
    case None => Err(AttributeError)
    case Some(e) => Ok(e.index)
  }

  /** A beam whose end nodes and elset are all present. */
  predicate Resolved<N, E>(b: Beam<N, E>) {
    b.start.Some? && b.end.Some? && b.elset.Some?
  }

  /** One compact item: the layout index and the three referenced
      indices, read in the order start, end, elset. */
  function CompactItem<N, E>(layout: int, b: Entity<Beam<N, E>>): (r: Result<BeamCompact>)
    ensures r.Ok? <==> Resolved(b.data)
    ensures r.Err? ==> r.error == AttributeError
    ensures r.Ok? ==> r.value == BeamCompact(layout, b.data.start.value.index, b.data.end.value.index,
                                             b.data.elset.value.index)
  {
    var start :- IndexOf(b.data.start);
    var end :- IndexOf(b.data.end);
    var elset :- IndexOf(b.data.elset);
    Ok(BeamCompact(layout, start, end, elset))
  }

  /** `from_layout`: the layout's index and one compact item per beam,
      in order; AttributeError when some beam lacks a node or its elset. */
  function FromLayout<N, E>(full: Layout<Beam<N, E>>): (r: Result<CompactLayout>)
    ensures r.Ok? <==> forall k :: 0 <= k < |full.items.objects| ==> Resolved(full.items.objects[k].data)
    ensures r.Err? ==> r.error == AttributeError
    ensures r.Ok? ==> r.value.index == full.index && |r.value.items| == |full.items.objects|
  {
    var items :- MapAll(full.items.objects, (b: Entity<Beam<N, E>>) => CompactItem(full.index, b));
    Ok(CompactLayout(full.index, items))
  }

  /** The k-th compact item belongs to the layout and carries the k-th
      beam's start node, end node and elset indices. */
  lemma FromLayoutItems<N, E>(full: Layout<Beam<N, E>>, k: nat)
    requires FromLayout(full).Ok? && k < |full.items.objects|
    ensures var b, c := full.items.objects[k].data, FromLayout(full).value.items[k];
            && c.layout == full.index
            && b.start == Some(b.start.value) && c.start == b.start.value.index
            && b.end == Some(b.end.value) && c.end == b.end.value.index
            && b.elset == Some(b.elset.value) && c.elset == b.elset.value.index
  {
    var f := (b: Entity<Beam<N, E>>) => CompactItem(full.index, b);
    var m := MapAll(full.items.objects, f);
    assert FromLayout(full) == Ok(CompactLayout(full.index, m.value));
    assert m.value[k] == f(full.items.objects[k]).value;
  }

  // ---------------------------------------------------------------
  // CompactBeamLayout.to_full
  // ---------------------------------------------------------------

  /** The full beam a compact item expands to: nodes and elset looked up
      with `get`, group 0, type 1 and the fixed `misc` text. */
  function Expand<N, E>(c: BeamCompact, nodes: Coll<N>, elsets: Coll<E>): (b: Beam<N, E>)
    ensures b.start == Get(nodes, c.start) && b.end == Get(nodes, c.end) && b.elset == Get(elsets, c.elset)
  {
    Beam(Get(nodes, c.start), Get(nodes, c.end), Get(elsets, c.elset), 0, 1, Misc)
  }

  /** The loop of `to_full`, with `idx` the next beam index. */
  function ExpandFrom<N, E>(cs: seq<BeamCompact>, nodes: Coll<N>, elsets: Coll<E>, idx: int): (r: seq<Entity<Beam<N, E>>>)
    ensures |r| == |cs|
    ensures forall k :: 0 <= k < |cs| ==> r[k].index == idx + k && r[k].data == Expand(cs[k], nodes, elsets)
    decreases |cs|
  {
    if |cs| == 0 then []
    else [Entity(idx, Expand(cs[0], nodes, elsets))] + ExpandFrom(cs[1..], nodes, elsets, idx + 1)
  }

  /** `to_full`: a full layout with the same index whose beams are
      numbered consecutively from `start_index`, in item order. */
  function ToFull<N, E>(cl: CompactLayout, nodes: Coll<N>, elsets: Coll<E>, startIndex: int): (r: Layout<Beam<N, E>>)
    ensures r.index == cl.index && Consistent(r.items)
    ensures |r.items.objects| == |cl.items|
    ensures forall k :: 0 <= k < |cl.items| ==>
              r.items.objects[k].index == startIndex + k &&
              r.items.objects[k].data == Expand(cl.items[k], nodes, elsets)
  {
    NewLayout(cl.index, ExpandFrom(cl.items, nodes, elsets, startIndex))
  }

  /** A compact item whose references all resolve in consistent
      collections, and which names its own layout. */
  ghost predicate Resolvable<N, E>(cl: CompactLayout, nodes: Coll<N>, elsets: Coll<E>) {
    Consistent(nodes) && Consistent(elsets) &&
    forall k :: 0 <= k < |cl.items| ==>
      && cl.items[k].layout == cl.index
      && cl.items[k].start in nodes.byIndex && cl.items[k].end in nodes.byIndex
      && cl.items[k].elset in elsets.byIndex
  }

  /** Expanding a compact layout whose references all resolve and
      compacting the result gives the compact layout back. */
  lemma ToFullFromLayout<N, E>(cl: CompactLayout, nodes: Coll<N>, elsets: Coll<E>, startIndex: int)
    requires Resolvable(cl, nodes, elsets)
    ensures FromLayout(ToFull(cl, nodes, elsets, startIndex)) == Ok(cl)
  {
    var full := ToFull(cl, nodes, elsets, startIndex);
    var f := (b: Entity<Beam<N, E>>) => CompactItem(full.index, b);
    forall k | 0 <= k < |cl.items|
      ensures f(full.items.objects[k]) == Ok(cl.items[k])
    {
      ExpandedItem(cl, nodes, elsets, startIndex, k);
    }
    var m := MapAll(full.items.objects, f);
    assert m.value == cl.items;
  }

  lemma ExpandedItem<N, E>(cl: CompactLayout, nodes: Coll<N>, elsets: Coll<E>, startIndex: int, k: nat)
    requires Resolvable(cl, nodes, elsets) && k < |cl.items|
    ensures var full := ToFull(cl, nodes, elsets, startIndex);
            k < |full.items.objects| && CompactItem(full.index, full.items.objects[k]) == Ok(cl.items[k])
  {
    var c := cl.items[k];
    GetConsistent(nodes, c.start);
    GetConsistent(nodes, c.end);
    GetConsistent(elsets, c.elset);
  }

  // ---------------------------------------------------------------
  // CompactBeamLayouts
  // ---------------------------------------------------------------

  /** `CompactLayoutsBase`: the compact layouts in order and the
      dictionary by layout index; `add` overwrites an earlier entry
      without complaint. */
  datatype CompactLayouts = CompactLayouts(layouts: seq<CompactLayout>, byIndex: map<int, CompactLayout>)

  function AddCompact(c: CompactLayouts, l: CompactLayout): (r: CompactLayouts)
    ensures r.layouts == c.layouts + [l]
    ensures r.byIndex.Keys == c.byIndex.Keys + {l.index} && r.byIndex[l.index] == l
  {
    CompactLayouts(c.layouts + [l], c.byIndex[l.index := l])
  }

  /** `CompactBeamLayouts.from_layouts`: every full layout compacted and
      added in order; AttributeError from the first layout with a beam
      that lacks a node or its elset. */
  function FromFullLayouts<N, E>(full: seq<Layout<Beam<N, E>>>): (r: Result<CompactLayouts>)
    ensures r.Ok? <==> forall k :: 0 <= k < |full| ==> FromLayout(full[k]).Ok?
    ensures r.Err? ==> r.error == AttributeError
    ensures r.Ok? ==> |r.value.layouts| == |full| &&
                      forall k :: 0 <= k < |full| ==> Ok(r.value.layouts[k]) == FromLayout(full[k])
    decreases |full|
  {
    if |full| == 0 then Ok(CompactLayouts([], map[]))
    else
      var init := full[..|full| - 1];
      var last := full[|full| - 1];
      assert forall k :: 0 <= k < |init| ==> init[k] == full[k];
      var c :- FromFullLayouts(init);
      var l :- FromLayout(last);
      Ok(AddCompact(c, l))
  }

  /** Every compact layout expanded with beam numbering restarted at 1. */
  function ExpandAll<N, E>(ls: seq<CompactLayout>, nodes: Coll<N>, elsets: Coll<E>): (r: seq<Layout<Beam<N, E>>>)
    ensures |r| == |ls|
    ensures forall k :: 0 <= k < |ls| ==> r[k] == ToFull(ls[k], nodes, elsets, 1)
  {
    seq(|ls|, k requires 0 <= k < |ls| => ToFull(ls[k], nodes, elsets, 1))
  }

  /** `CompactBeamLayouts.to_full`: the expanded layouts added one by one
      to a fresh `BeamLayouts`, which raises ValueError on a repeated
      layout index. */
  function AllToFull<N, E>(c: CompactLayouts, nodes: Coll<N>, elsets: Coll<E>): (r: Result<Layouts<Beam<N, E>>>)
    ensures r.Ok? <==> forall i, j :: 0 <= i < j < |c.layouts| ==> c.layouts[i].index != c.layouts[j].index
    ensures r.Err? ==> r.error == ValueError
    ensures r.Ok? ==> |r.value.layouts| == |c.layouts| && Indexed(r.value)
    ensures r.Ok? ==> forall k :: 0 <= k < |c.layouts| ==> r.value.layouts[k] == ToFull(c.layouts[k], nodes, elsets, 1)
  {
    var ls := ExpandAll(c.layouts, nodes, elsets);
    assert forall k :: 0 <= k < |ls| ==> ls[k].index == c.layouts[k].index;
    FromLayoutsIndexed(ls);
    FromLayouts(ls)
  }

  /** Each layout keeps its index, and its beams are numbered 1, 2, ...
      whatever layout they belong to. */
  lemma AllToFullNumbering<N, E>(c: CompactLayouts, nodes: Coll<N>, elsets: Coll<E>, k: nat, j: nat)
    requires AllToFull(c, nodes, elsets).Ok? && k < |c.layouts| && j < |c.layouts[k].items|
    ensures var l := AllToFull(c, nodes, elsets).value.layouts[k];
            l.index == c.layouts[k].index && j < |l.items.objects| && l.items.objects[j].index == j + 1
  {
    var l := AllToFull(c, nodes, elsets).value.layouts[k];
    assert l == ToFull(c.layouts[k], nodes, elsets, 1);
  }
}
