/** Layout containers (layout/_layout_abstract.py): a layout is a numbered
    list of items indexed by item index; a layout collection is a list of
    layouts indexed by layout index, refusing duplicates.  Also the generic
    parser that frames a block body into layouts, and the generic remap
    that rebinds one reference of every item through an old-to-new index
    map. */
module Layouts {
  import opened Wrappers
  import opened Text
  import opened Store
  import opened Framing

  // ---------------------------------------------------------------
  // LayoutBase
  // ---------------------------------------------------------------

  /** `LayoutBase`: the layout's index and its items, kept as a list and a
      dictionary by item index. */
  datatype Layout<D> = Layout(index: int, items: Coll<D>)

  /** `LayoutBase(index, items)`: every initial item is indexed. */
  function NewLayout<D>(index: int, items: seq<Entity<D>>): (l: Layout<D>)
    ensures l.index == index && l.items.objects == items && Consistent(l.items)
  {
    Layout(index, FromSeq(items))
  }

  /** `get_item`: the item under that index, or None. */
  function GetItem<D>(l: Layout<D>, i: int): (r: Option<Entity<D>>)
    ensures r.Some? <==> i in l.items.byIndex
  {
    Get(l.items, i)
  }

  /** `add_item`: appends and indexes the item; the layout index and every
      other lookup are unchanged. */
  function AddItem<D>(l: Layout<D>, e: Entity<D>): (r: Layout<D>)
    ensures r.index == l.index && r.items.objects == l.items.objects + [e]
    ensures GetItem(r, e.index) == Some(e)
    ensures forall i :: i != e.index ==> GetItem(r, i) == GetItem(l, i)
  {
    Layout(l.index, Add(l.items, e))
  }

  /** In a freshly built layout `get_item` finds the last item carrying the
      index, and answers None exactly when no item carries it. */
  lemma NewLayoutGet<D>(index: int, items: seq<Entity<D>>, i: int)
    ensures GetItem(NewLayout(index, items), i).None? <==> forall k :: 0 <= k < |items| ==> items[k].index != i
    ensures GetItem(NewLayout(index, items), i).Some? ==>
              GetItem(NewLayout(index, items), i).value in items && GetItem(NewLayout(index, items), i).value.index == i
  {
    GetConsistent(NewLayout(index, items).items, i);
  }

  // ---------------------------------------------------------------
  // LayoutsBase
  // ---------------------------------------------------------------

  /** `LayoutsBase`: the layouts in order and the dictionary by layout index. */
  datatype Layouts<D> = Layouts(layouts: seq<Layout<D>>, byIndex: map<int, Layout<D>>)

  /** `add`: ValueError when the layout index is taken; otherwise appended
      and indexed. */
  function AddLayout<D>(c: Layouts<D>, l: Layout<D>): (r: Result<Layouts<D>>)
    ensures r.Err? <==> l.index in c.byIndex
    ensures r.Err? ==> r.error == ValueError
    ensures r.Ok? ==> r.value.layouts == c.layouts + [l] && r.value.byIndex == c.byIndex[l.index := l]
  {
    if l.index in c.byIndex then Err(ValueError)
    else Ok(Layouts(c.layouts + [l], c.byIndex[l.index := l]))
  }

  predicate DistinctIndices<D>(ls: seq<Layout<D>>) {
    forall i, j :: 0 <= i < j < |ls| ==> ls[i].index != ls[j].index
  }

  /** Some layout of `ls` carries index `i`. */
  predicate HasIndex<D>(ls: seq<Layout<D>>, i: int) {
    exists k :: 0 <= k < |ls| && ls[k].index == i
  }

  /** The dictionary holds exactly the layouts of the list, each under its
      own index. */
  ghost predicate Indexed<D>(c: Layouts<D>) {
    && (forall i :: i in c.byIndex <==> HasIndex(c.layouts, i))
    && (forall k :: 0 <= k < |c.layouts| ==> c.byIndex[c.layouts[k].index] == c.layouts[k])
  }

  /** The dictionary a list of layouts leaves when added in order, the
      last layout of an index winning. */
  function Reindex<D>(ls: seq<Layout<D>>): map<int, Layout<D>> {
    if |ls| == 0 then map[] else Reindex(ls[..|ls| - 1])[ls[|ls| - 1].index := ls[|ls| - 1]]
  }

  /** `LayoutsBase(layouts)`: adds the layouts one by one, so it raises
      ValueError exactly when two of them share an index. */
  function FromLayouts<D>(ls: seq<Layout<D>>): (r: Result<Layouts<D>>)
    ensures r.Ok? <==> DistinctIndices(ls)
    ensures r.Err? ==> r.error == ValueError
    ensures r.Ok? ==> r.value.layouts == ls && r.value.byIndex == Reindex(ls)
  {
    if |ls| == 0 then Ok(Layouts([], map[]))
    else
      var p := ls[..|ls| - 1];
      var l := ls[|ls| - 1];
      DistinctSnoc(ls);
      match FromLayouts(p)
      case Err(e) => Err(e)
      case Ok(c) =>
        ReindexKeys(p, l.index);
        assert c.layouts + [l] == ls;
        AddLayout(c, l)
  }

  /** A list has distinct indices exactly when its front does and its last
      layout's index is new. */
  lemma DistinctSnoc<D>(ls: seq<Layout<D>>)
    requires |ls| > 0
    ensures DistinctIndices(ls) <==> DistinctIndices(ls[..|ls| - 1]) && !HasIndex(ls[..|ls| - 1], ls[|ls| - 1].index)
  {
    var p := ls[..|ls| - 1];
    if HasIndex(p, ls[|ls| - 1].index) {
      var k :| 0 <= k < |p| && p[k].index == ls[|ls| - 1].index;
      assert ls[k] == p[k];
    }
    if !DistinctIndices(p) {
      var i, j :| 0 <= i < j < |p| && p[i].index == p[j].index;
      assert ls[i] == p[i] && ls[j] == p[j];
    }
  }

  /** The keys of the rebuilt dictionary are the listed indices. */
  lemma {:induction false} ReindexKeys<D>(ls: seq<Layout<D>>, i: int)
    ensures i in Reindex(ls) <==> HasIndex(ls, i)
    decreases |ls|
  {
    if |ls| > 0 {
      var p := ls[..|ls| - 1];
      ReindexKeys(p, i);
      if HasIndex(p, i) {
        var k :| 0 <= k < |p| && p[k].index == i;
        assert ls[k] == p[k];
      }
      if HasIndex(ls, i) && ls[|ls| - 1].index != i {
        var k :| 0 <= k < |ls| && ls[k].index == i;
        assert p[k] == ls[k];
      }
    }
  }

  /** With distinct indices every layout sits under its own index. */
  lemma {:induction false} ReindexFinds<D>(ls: seq<Layout<D>>, k: nat)
    requires DistinctIndices(ls) && k < |ls|
    ensures ls[k].index in Reindex(ls) && Reindex(ls)[ls[k].index] == ls[k]
    decreases |ls|
  {
    if k < |ls| - 1 {
      var p := ls[..|ls| - 1];
      assert p[k] == ls[k];
      assert DistinctIndices(p);
      ReindexFinds(p, k);
    }
  }

  /** A collection built from a list indexes each of its layouts. */
  lemma FromLayoutsIndexed<D>(ls: seq<Layout<D>>)
    ensures FromLayouts(ls).Ok? ==> Indexed(FromLayouts(ls).value)
  {
    if DistinctIndices(ls) {
      forall i
        ensures i in Reindex(ls) <==> HasIndex(ls, i)
      {
        ReindexKeys(ls, i);
      }
      forall k | 0 <= k < |ls|
        ensures Reindex(ls)[ls[k].index] == ls[k]
      {
        ReindexFinds(ls, k);
      }
    }
  }

  /** `get`: KeyError for an index no layout carries. */
  function GetLayout<D>(c: Layouts<D>, i: int): (r: Result<Layout<D>>)
    ensures r.Err? <==> i !in c.byIndex
    ensures r.Err? ==> r.error == KeyError
    ensures r.Ok? ==> r.value == c.byIndex[i]
  {
    if i in c.byIndex then Ok(c.byIndex[i]) else Err(KeyError)
  }

  /** In a collection built from a list, `get` finds every listed layout by
      its index and raises for any other index. */
  lemma GetLayoutFromList<D>(ls: seq<Layout<D>>, i: int)
    requires FromLayouts(ls).Ok?
    ensures GetLayout(FromLayouts(ls).value, i).Err? <==> forall k :: 0 <= k < |ls| ==> ls[k].index != i
    ensures forall k :: 0 <= k < |ls| && ls[k].index == i ==> GetLayout(FromLayouts(ls).value, i) == Ok(ls[k])
  {
    FromLayoutsIndexed(ls);
  }

  /** `walk_items`: every item, layout by layout, in order. */
  function WalkItems<D>(ls: seq<Layout<D>>): seq<Entity<D>> {
    if |ls| == 0 then [] else WalkItems(ls[..|ls| - 1]) + ls[|ls| - 1].items.objects
  }

  /** Walking a list of layouts is walking each part in turn. */
  lemma {:induction false} WalkItemsConcat<D>(a: seq<Layout<D>>, b: seq<Layout<D>>)
    ensures WalkItems(a + b) == WalkItems(a) + WalkItems(b)
    decreases |b|
  {
    if |b| == 0 {
      assert a + b == a;
    } else {
      var q := b[..|b| - 1];
      assert (a + b)[..|a + b| - 1] == a + q;
      WalkItemsConcat(a, q);
    }
  }

  /** The walk meets item `j` of layout `k` after all items of the layouts
      before it. */
  lemma WalkItemsAt<D>(ls: seq<Layout<D>>, k: nat, j: nat)
    requires k < |ls| && j < |ls[k].items.objects|
    ensures |WalkItems(ls[..k])| + j < |WalkItems(ls)|
    ensures WalkItems(ls)[|WalkItems(ls[..k])| + j] == ls[k].items.objects[j]
  {
    assert ls == ls[..k] + [ls[k]] + ls[k + 1..];
    WalkItemsConcat(ls[..k] + [ls[k]], ls[k + 1..]);
    WalkItemsConcat(ls[..k], [ls[k]]);
    assert WalkItems([ls[k]]) == ls[k].items.objects by {
      assert [ls[k]][..0] == [];
    }
  }

  /** Every step of the walk is an item of one of the layouts. */
  lemma {:induction false} WalkItemsFrom<D>(ls: seq<Layout<D>>, n: nat)
    requires n < |WalkItems(ls)|
    ensures exists k, j :: 0 <= k < |ls| && 0 <= j < |ls[k].items.objects| && WalkItems(ls)[n] == ls[k].items.objects[j]
    decreases |ls|
  {
    var p := ls[..|ls| - 1];
    if n < |WalkItems(p)| {
      WalkItemsFrom(p, n);
      var k, j :| 0 <= k < |p| && 0 <= j < |p[k].items.objects| && WalkItems(p)[n] == p[k].items.objects[j];
      assert ls[k] == p[k];
    } else {
      var j := n - |WalkItems(p)|;
      assert WalkItems(ls)[n] == ls[|ls| - 1].items.objects[j];
    }
  }

  // ---------------------------------------------------------------
  // remap
  // ---------------------------------------------------------------

  /** An item whose remapped attribute refers to an object of another
      collection (or to nothing), and the rest of its fields. */
  datatype Ref<E, D> = Ref(target: Option<Entity<E>>, rest: D)

  /** One item of `remap`: reading `.index` of a missing target raises
      AttributeError; an index missing from the map raises KeyError;
      otherwise the target becomes `collection.get(new)`, which is None
      when the collection has no such index. */
  function RemapItem<E, D>(e: Entity<Ref<E, D>>, reorder: map<int, int>, coll: Coll<E>): (r: Result<Entity<Ref<E, D>>>)
    ensures r.Err? <==> e.data.target.None? || e.data.target.value.index !in reorder
    ensures e.data.target.None? ==> r == Err(AttributeError)
    ensures e.data.target.Some? && e.data.target.value.index !in reorder ==> r == Err(KeyError)
    ensures r.Ok? ==> r.value.index == e.index && r.value.data.rest == e.data.rest &&
                      r.value.data.target == Get(coll, reorder[e.data.target.value.index])
  {
    match e.data.target
    case None => Err(AttributeError)
    case Some(t) =>
      if t.index !in reorder then Err(KeyError)
      else Ok(Entity(e.index, Ref(Get(coll, reorder[t.index]), e.data.rest)))
  }

  function RemapLayout<E, D>(l: Layout<Ref<E, D>>, reorder: map<int, int>, coll: Coll<E>): (r: Result<Layout<Ref<E, D>>>)
    ensures r.Ok? <==> forall j :: 0 <= j < |l.items.objects| ==> RemapItem(l.items.objects[j], reorder, coll).Ok?
    ensures r.Err? ==> r.error in {AttributeError, KeyError}
    ensures r.Err? ==> exists j :: 0 <= j < |l.items.objects| && RemapItem(l.items.objects[j], reorder, coll) == Err(r.error) &&
                                   forall i :: 0 <= i < j ==> RemapItem(l.items.objects[i], reorder, coll).Ok?
    ensures r.Ok? ==> r.value.index == l.index && Consistent(r.value.items) && |r.value.items.objects| == |l.items.objects|
    ensures r.Ok? ==> forall j :: 0 <= j < |l.items.objects| ==>
                        r.value.items.objects[j] == RemapItem(l.items.objects[j], reorder, coll).value
  {
    match MapAll(l.items.objects, e => RemapItem(e, reorder, coll))
    case Err(e) => Err(e)
    case Ok(items) => Ok(NewLayout(l.index, items))
  }

  ghost predicate AllRemap<E, D>(ls: seq<Layout<Ref<E, D>>>, reorder: map<int, int>, coll: Coll<E>) {
    forall k, j :: 0 <= k < |ls| && 0 <= j < |ls[k].items.objects| ==> RemapItem(ls[k].items.objects[j], reorder, coll).Ok?
  }

  /** `remap(attr, reorder_map, collection)`: every item of every layout
      gets its attribute rebound, the first item that raises deciding the
      error; layouts keep their index and their items' order.  The layout
      dictionary is rebuilt from the list, which is what the in-place
      update leaves for an indexed collection. */
  function Remap<E, D>(c: Layouts<Ref<E, D>>, reorder: map<int, int>, coll: Coll<E>): (r: Result<Layouts<Ref<E, D>>>)
    ensures r.Ok? <==> forall k :: 0 <= k < |c.layouts| ==> RemapLayout(c.layouts[k], reorder, coll).Ok?
    ensures r.Err? ==> r.error in {AttributeError, KeyError}
    ensures r.Err? ==> exists k :: 0 <= k < |c.layouts| && RemapLayout(c.layouts[k], reorder, coll) == Err(r.error) &&
                                   forall j :: 0 <= j < k ==> RemapLayout(c.layouts[j], reorder, coll).Ok?
    ensures r.Ok? ==> |r.value.layouts| == |c.layouts|
    ensures r.Ok? ==> forall k :: 0 <= k < |c.layouts| ==> RemapLayout(c.layouts[k], reorder, coll) == Ok(r.value.layouts[k])
  {
    match MapAll(c.layouts, l => RemapLayout(l, reorder, coll))
    case Err(e) => Err(e)
    case Ok(ls) => Ok(Layouts(ls, Reindex(ls)))
  }

  /** `remap` succeeds exactly when every item of every layout rebinds. */
  lemma RemapOk<E, D>(c: Layouts<Ref<E, D>>, reorder: map<int, int>, coll: Coll<E>)
    ensures Remap(c, reorder, coll).Ok? <==> AllRemap(c.layouts, reorder, coll)
  {
  }

  /** The walk after `remap` is the walk before it, each item rebound. */
  lemma {:induction false} RemapWalk<E, D>(ls: seq<Layout<Ref<E, D>>>, rs: seq<Layout<Ref<E, D>>>,
                                           reorder: map<int, int>, coll: Coll<E>)
    requires |rs| == |ls| && forall k :: 0 <= k < |ls| ==> RemapLayout(ls[k], reorder, coll) == Ok(rs[k])
    ensures |WalkItems(rs)| == |WalkItems(ls)|
    ensures forall n :: 0 <= n < |WalkItems(ls)| ==> RemapItem(WalkItems(ls)[n], reorder, coll) == Ok(WalkItems(rs)[n])
    decreases |ls|
  {
    if |ls| > 0 {
      var p, q := ls[..|ls| - 1], rs[..|rs| - 1];
      RemapWalk(p, q, reorder, coll);
      assert RemapLayout(ls[|ls| - 1], reorder, coll) == Ok(rs[|rs| - 1]);
    }
  }

  /** A successful `remap` rebinds exactly the walked items, in order. */
  lemma RemapWalked<E, D>(c: Layouts<Ref<E, D>>, reorder: map<int, int>, coll: Coll<E>)
    requires Remap(c, reorder, coll).Ok?
    ensures var w, v := WalkItems(c.layouts), WalkItems(Remap(c, reorder, coll).value.layouts);
            |v| == |w| && forall n :: 0 <= n < |w| ==> RemapItem(w[n], reorder, coll) == Ok(v[n])
  {
    RemapWalk(c.layouts, Remap(c, reorder, coll).value.layouts, reorder, coll);
  }

  /** Layouts that all remap cleanly walk only items that remap cleanly. */
  lemma RemapOkWalk<E, D>(ls: seq<Layout<Ref<E, D>>>, reorder: map<int, int>, coll: Coll<E>)
    requires forall k :: 0 <= k < |ls| ==> RemapLayout(ls[k], reorder, coll).Ok?
    ensures forall n :: 0 <= n < |WalkItems(ls)| ==> RemapItem(WalkItems(ls)[n], reorder, coll).Ok?
  {
    forall n | 0 <= n < |WalkItems(ls)|
      ensures RemapItem(WalkItems(ls)[n], reorder, coll).Ok?
    {
      WalkItemsFrom(ls, n);
    }
  }

  /** Position `n` of the walk `w` is the first item whose remap raises,
      and it raises `err`. */
  ghost predicate FirstFailure<E, D>(w: seq<Entity<Ref<E, D>>>, n: int, err: Error, reorder: map<int, int>, coll: Coll<E>) {
    && 0 <= n < |w|
    && RemapItem(w[n], reorder, coll) == Err(err)
    && forall j :: 0 <= j < n ==> RemapItem(w[j], reorder, coll).Ok?
  }

  /** The error `remap` raises is that of the first item, in walking
      order, that raises. */
  lemma RemapFirstError<E, D>(c: Layouts<Ref<E, D>>, reorder: map<int, int>, coll: Coll<E>)
    requires Remap(c, reorder, coll).Err?
    ensures exists n :: FirstFailure(WalkItems(c.layouts), n, Remap(c, reorder, coll).error, reorder, coll)
  {
    var k := FailingLayout(c, reorder, coll);
    LayoutFirstError(c.layouts, k, Remap(c, reorder, coll).error, reorder, coll);
  }

  /** The first layout whose remap raises, raising what `remap` raises. */
  lemma FailingLayout<E, D>(c: Layouts<Ref<E, D>>, reorder: map<int, int>, coll: Coll<E>) returns (k: nat)
    requires Remap(c, reorder, coll).Err?
    ensures k < |c.layouts| && RemapLayout(c.layouts[k], reorder, coll) == Err(Remap(c, reorder, coll).error)
    ensures forall j :: 0 <= j < k ==> RemapLayout(c.layouts[j], reorder, coll).Ok?
  {
    k :| 0 <= k < |c.layouts| && RemapLayout(c.layouts[k], reorder, coll) == Err(Remap(c, reorder, coll).error) &&
         forall j :: 0 <= j < k ==> RemapLayout(c.layouts[j], reorder, coll).Ok?;
  }

  lemma LayoutFirstError<E, D>(ls: seq<Layout<Ref<E, D>>>, k: nat, err: Error, reorder: map<int, int>, coll: Coll<E>)
    requires k < |ls| && RemapLayout(ls[k], reorder, coll) == Err(err)
    requires forall j :: 0 <= j < k ==> RemapLayout(ls[j], reorder, coll).Ok?
    ensures exists n :: FirstFailure(WalkItems(ls), n, err, reorder, coll)
  {
    var i :| 0 <= i < |ls[k].items.objects| && RemapItem(ls[k].items.objects[i], reorder, coll) == Err(err) &&
             forall j :: 0 <= j < i ==> RemapItem(ls[k].items.objects[j], reorder, coll).Ok?;
    FirstErrorAt(ls, k, i, err, reorder, coll);
  }

  lemma FirstErrorAt<E, D>(ls: seq<Layout<Ref<E, D>>>, k: nat, i: nat, err: Error, reorder: map<int, int>, coll: Coll<E>)
    requires k < |ls| && i < |ls[k].items.objects|
    requires forall j :: 0 <= j < k ==> RemapLayout(ls[j], reorder, coll).Ok?
    requires RemapItem(ls[k].items.objects[i], reorder, coll) == Err(err)
    requires forall j :: 0 <= j < i ==> RemapItem(ls[k].items.objects[j], reorder, coll).Ok?
    ensures exists n :: FirstFailure(WalkItems(ls), n, err, reorder, coll)
  {
    WalkItemsAt(ls, k, i);
    PrefixWalkOk(ls, k, i, reorder, coll);
    var n := |WalkItems(ls[..k])| + i;
    assert FirstFailure(WalkItems(ls), n, err, reorder, coll);
  }

  /** Before item `i` of layout `k`, the walk meets the items of the
      earlier layouts and the earlier items of layout `k`. */
  lemma PrefixWalkOk<E, D>(ls: seq<Layout<Ref<E, D>>>, k: nat, i: nat, reorder: map<int, int>, coll: Coll<E>)
    requires k < |ls| && i < |ls[k].items.objects|
    requires forall j :: 0 <= j < k ==> RemapLayout(ls[j], reorder, coll).Ok?
    requires forall j :: 0 <= j < i ==> RemapItem(ls[k].items.objects[j], reorder, coll).Ok?
    ensures |WalkItems(ls[..k])| + i <= |WalkItems(ls)|
    ensures forall j :: 0 <= j < |WalkItems(ls[..k])| + i ==> RemapItem(WalkItems(ls)[j], reorder, coll).Ok?
  {
    RemapOkWalk(ls[..k], reorder, coll);
    WalkItemsSplit(ls, k);
    PrefixHolds(WalkItems(ls[..k]), ls[k].items.objects, WalkItems(ls[k + 1..]), i,
                e => RemapItem(e, reorder, coll).Ok?);
  }

  /** The walk is the walk of the layouts before `k`, then layout `k`'s
      items, then the walk of the layouts after it. */
  lemma WalkItemsSplit<D>(ls: seq<Layout<D>>, k: nat)
    requires k < |ls|
    ensures WalkItems(ls) == WalkItems(ls[..k]) + ls[k].items.objects + WalkItems(ls[k + 1..])
  {
    Rejoin(ls, k);
    WalkItemsThree(ls[..k], ls[k], ls[k + 1..]);
  }

  lemma Rejoin<T>(s: seq<T>, k: nat)
    requires k < |s|
    ensures s[..k] + [s[k]] + s[k + 1..] == s
  {
  }

  lemma WalkItemsThree<D>(a: seq<Layout<D>>, l: Layout<D>, b: seq<Layout<D>>)
    ensures WalkItems(a + [l] + b) == WalkItems(a) + l.items.objects + WalkItems(b)
  {
    WalkItemsConcat(a + [l], b);
    assert (a + [l])[..|a + [l]| - 1] == a;
  }

  /** A property of all of `a` and of the first `i` of `b` holds on the
      first `|a| + i` elements of `a + b + c`. */
  lemma PrefixHolds<T>(a: seq<T>, b: seq<T>, c: seq<T>, i: nat, P: T -> bool)
    requires i <= |b|
    requires forall j :: 0 <= j < |a| ==> P(a[j])
    requires forall j :: 0 <= j < i ==> P(b[j])
    ensures forall j :: 0 <= j < |a| + i ==> P((a + b + c)[j])
  {
    forall j | 0 <= j < |a| + i
      ensures P((a + b + c)[j])
    {
      if j >= |a| {
        assert (a + b + c)[j] == b[j - |a|];
      }
    }
  }

  // ---------------------------------------------------------------
  // LayoutParser.from_model
  // ---------------------------------------------------------------

  /** How the generic parser reads a stripped line: empty lines are
      skipped, `start_of_layout` lines are headers, the rest are items. */
  function LineKind(isHeader: string -> bool, line: string): LineClass {
    if |line| == 0 then Skip else if isHeader(line) then Head else Item
  }

  function Classifier(isHeader: string -> bool): string -> LineClass {
    l => LineKind(isHeader, l)
  }

  function StripAll(lines: seq<string>): (r: seq<string>)
    ensures |r| == |lines| && forall k :: 0 <= k < |lines| ==> r[k] == Strip(lines[k])
  {
    seq(|lines|, k requires 0 <= k < |lines| => Strip(lines[k]))
  }

  /** One layout: `parse_layout_header` on its header line, then
      `parse_item` and `add_item` for each of its item lines. */
  function ParseLayout<D>(f: Frame<string>, parseHeader: string -> Result<int>,
                          parseItem: string -> Result<Entity<D>>): (r: Result<Layout<D>>)
    ensures r.Ok? <==> parseHeader(f.head).Ok? && forall k :: 0 <= k < |f.body| ==> parseItem(f.body[k]).Ok?
    ensures r.Ok? ==> r.value.index == parseHeader(f.head).value && Consistent(r.value.items) &&
                      |r.value.items.objects| == |f.body| &&
                      forall k :: 0 <= k < |f.body| ==> r.value.items.objects[k] == parseItem(f.body[k]).value
  {
    match parseHeader(f.head)
    case Err(e) => Err(e)
    case Ok(i) =>
      match MapAll(f.body, parseItem)
      case Err(e) => Err(e)
      case Ok(items) =>
        ExtendConsistent(Empty(), items);
        Ok(Layout(i, Extend(Empty(), items)))
  }

  /** `LayoutParser.from_model`: an absent block gives an empty
      collection; otherwise the stripped, non-empty lines are framed by
      the header lines, lines before the first header are dropped, each
      frame is parsed in order (the first failure raises), and the
      layouts are collected, ValueError on a repeated layout index. */
  function ParseLayouts<D>(block: Option<seq<string>>, isHeader: string -> bool,
                           parseHeader: string -> Result<int>,
                           parseItem: string -> Result<Entity<D>>): (r: Result<Layouts<D>>)
    ensures block.None? ==> r == Ok(Layouts([], map[]))
    ensures r.Ok? ==> Indexed(r.value) && DistinctIndices(r.value.layouts)
  {
    if block.None? then Ok(Layouts([], map[]))
    else ParseFramed(StripAll(block.value), Classifier(isHeader), parseHeader, parseItem)
  }

  /** The parse of the stripped lines `xs`, classified by `cls`. */
  function ParseFramed<D>(xs: seq<string>, cls: string -> LineClass,
                          parseHeader: string -> Result<int>,
                          parseItem: string -> Result<Entity<D>>): (r: Result<Layouts<D>>)
    ensures r.Ok? ==> Indexed(r.value) && DistinctIndices(r.value.layouts)
  {
    match MapAll(FrameAll(xs, cls).frames, f => ParseLayout(f, parseHeader, parseItem))
    case Err(e) => Err(e)
    case Ok(ls) =>
      FromLayoutsIndexed(ls);
      FromLayouts(ls)
  }

  /** Parsed frames walk exactly the parsed item lines of the frames. */
  lemma {:induction false} ParsedWalk<D>(fs: seq<Frame<string>>, ls: seq<Layout<D>>,
                                         parseHeader: string -> Result<int>, parseItem: string -> Result<Entity<D>>)
    requires |ls| == |fs| && forall k :: 0 <= k < |fs| ==> LayoutOf(fs[k], ls[k], parseHeader, parseItem)
    ensures |WalkItems(ls)| == |Bodies(fs)|
    ensures forall n :: 0 <= n < |Bodies(fs)| ==> parseItem(Bodies(fs)[n]) == Ok(WalkItems(ls)[n])
    decreases |fs|
  {
    if |fs| > 0 {
      ParsedWalk(fs[..|fs| - 1], ls[..|ls| - 1], parseHeader, parseItem);
      assert LayoutOf(fs[|fs| - 1], ls[|ls| - 1], parseHeader, parseItem);
    }
  }

  /** What a successful parse holds: one layout per header line, numbered
      by `parse_layout_header` of that line, and, layout by layout, the
      parsed item lines that follow the first header (the lead lines before
      it, which `FrameAllLead` describes, are dropped). */
  lemma ParseLayoutsShape<D>(lines: seq<string>, isHeader: string -> bool,
                             parseHeader: string -> Result<int>, parseItem: string -> Result<Entity<D>>,
                             c: Layouts<D>)
    requires ParseLayouts(Some(lines), isHeader, parseHeader, parseItem) == Ok(c)
    ensures var heads := Select(StripAll(lines), Classifier(isHeader), Head);
            && |c.layouts| == |heads|
            && forall k :: 0 <= k < |c.layouts| ==> parseHeader(heads[k]) == Ok(c.layouts[k].index)
    ensures var xs, cls := StripAll(lines), Classifier(isHeader);
            var items, lead := Select(xs, cls, Item), FrameAll(xs, cls).lead;
            && |lead| + |WalkItems(c.layouts)| == |items|
            && forall n :: 0 <= n < |WalkItems(c.layouts)| ==> parseItem(items[|lead| + n]) == Ok(WalkItems(c.layouts)[n])
  {
    ParseFramedShape(StripAll(lines), Classifier(isHeader), parseHeader, parseItem, c);
  }

  lemma ParseFramedShape<D>(xs: seq<string>, cls: string -> LineClass,
                            parseHeader: string -> Result<int>, parseItem: string -> Result<Entity<D>>,
                            c: Layouts<D>)
    requires ParseFramed(xs, cls, parseHeader, parseItem) == Ok(c)
    ensures var heads := Select(xs, cls, Head);
            && |c.layouts| == |heads|
            && forall k :: 0 <= k < |c.layouts| ==> parseHeader(heads[k]) == Ok(c.layouts[k].index)
    ensures var items, lead := Select(xs, cls, Item), FrameAll(xs, cls).lead;
            && |lead| + |WalkItems(c.layouts)| == |items|
            && forall n :: 0 <= n < |WalkItems(c.layouts)| ==> parseItem(items[|lead| + n]) == Ok(WalkItems(c.layouts)[n])
  {
    ParsedFrames(xs, cls, parseHeader, parseItem, c);
    FramedShape(xs, cls, c.layouts, parseHeader, parseItem);
  }

  /** Layouts parsed from the frames of `xs`: numbered by its header lines,
      walking its item lines after the lead. */
  lemma FramedShape<D>(xs: seq<string>, cls: string -> LineClass, ls: seq<Layout<D>>,
                       parseHeader: string -> Result<int>, parseItem: string -> Result<Entity<D>>)
    requires var fs := FrameAll(xs, cls).frames;
             |ls| == |fs| && forall k :: 0 <= k < |fs| ==> LayoutOf(fs[k], ls[k], parseHeader, parseItem)
    ensures var heads := Select(xs, cls, Head);
            && |ls| == |heads|
            && forall k :: 0 <= k < |ls| ==> parseHeader(heads[k]) == Ok(ls[k].index)
    ensures var items, lead := Select(xs, cls, Item), FrameAll(xs, cls).lead;
            && |lead| + |WalkItems(ls)| == |items|
            && forall n :: 0 <= n < |WalkItems(ls)| ==> parseItem(items[|lead| + n]) == Ok(WalkItems(ls)[n])
  {
    FramedHeads(xs, cls, ls, parseHeader, parseItem);
    FramedItems(xs, cls, ls, parseHeader, parseItem);
  }

  /** The parsed layouts are the frames, each parsed. */
  lemma ParsedFrames<D>(xs: seq<string>, cls: string -> LineClass,
                        parseHeader: string -> Result<int>, parseItem: string -> Result<Entity<D>>,
                        c: Layouts<D>)
    requires ParseFramed(xs, cls, parseHeader, parseItem) == Ok(c)
    ensures var fs := FrameAll(xs, cls).frames;
            |c.layouts| == |fs| && forall k :: 0 <= k < |fs| ==> LayoutOf(fs[k], c.layouts[k], parseHeader, parseItem)
  {
    var fs := FrameAll(xs, cls).frames;
    forall k | 0 <= k < |fs|
      ensures LayoutOf(fs[k], c.layouts[k], parseHeader, parseItem)
    {
      ParseLayoutOf(fs[k], parseHeader, parseItem, c.layouts[k]);
    }
  }

  /** Layouts parsed from the frames of `xs` are numbered by its header
      lines, in order. */
  lemma FramedHeads<D>(xs: seq<string>, cls: string -> LineClass, ls: seq<Layout<D>>,
                       parseHeader: string -> Result<int>, parseItem: string -> Result<Entity<D>>)
    requires var fs := FrameAll(xs, cls).frames;
             |ls| == |fs| && forall k :: 0 <= k < |fs| ==> LayoutOf(fs[k], ls[k], parseHeader, parseItem)
    ensures |ls| == |Select(xs, cls, Head)|
    ensures forall k :: 0 <= k < |ls| ==> parseHeader(Select(xs, cls, Head)[k]) == Ok(ls[k].index)
  {
    var fs := FrameAll(xs, cls).frames;
    var heads := Select(xs, cls, Head);
    FrameFromHeads(xs, cls, Framed([], []));
    assert Heads<string>([]) == [];
    assert Heads(fs) == heads;
    forall k | 0 <= k < |ls|
      ensures parseHeader(heads[k]) == Ok(ls[k].index)
    {
      assert LayoutOf(fs[k], ls[k], parseHeader, parseItem);
    }
  }

  /** What a successfully parsed layout holds: the header's index and one
      parsed item per body line. */
  ghost predicate LayoutOf<D>(f: Frame<string>, l: Layout<D>, parseHeader: string -> Result<int>,
                              parseItem: string -> Result<Entity<D>>) {
    && parseHeader(f.head) == Ok(l.index)
    && |l.items.objects| == |f.body|
    && forall j :: 0 <= j < |f.body| ==> parseItem(f.body[j]) == Ok(l.items.objects[j])
  }

  lemma ParseLayoutOf<D>(f: Frame<string>, parseHeader: string -> Result<int>,
                         parseItem: string -> Result<Entity<D>>, l: Layout<D>)
    requires ParseLayout(f, parseHeader, parseItem) == Ok(l)
    ensures LayoutOf(f, l, parseHeader, parseItem)
  {
  }

  /** Layouts parsed from the frames of `xs` walk its item lines after the
      lead, each parsed. */
  lemma FramedItems<D>(xs: seq<string>, cls: string -> LineClass, ls: seq<Layout<D>>,
                       parseHeader: string -> Result<int>, parseItem: string -> Result<Entity<D>>)
    requires var fs := FrameAll(xs, cls).frames;
             |ls| == |fs| && forall k :: 0 <= k < |fs| ==> LayoutOf(fs[k], ls[k], parseHeader, parseItem)
    ensures |FrameAll(xs, cls).lead| + |WalkItems(ls)| == |Select(xs, cls, Item)|
    ensures forall n :: 0 <= n < |WalkItems(ls)| ==>
              parseItem(Select(xs, cls, Item)[|FrameAll(xs, cls).lead| + n]) == Ok(WalkItems(ls)[n])
  {
    var fr := FrameAll(xs, cls);
    FrameFromItems(xs, cls, Framed([], []));
    assert Bodies<string>([]) == [];
    ParsedWalk(fr.frames, ls, parseHeader, parseItem);
    AfterLead(fr.lead, Bodies(fr.frames), Select(xs, cls, Item), WalkItems(ls), parseItem);
  }

  /** Values matched one for one with the lines after a lead are matched
      with the whole list at an offset of the lead's length. */
  lemma AfterLead<T, U>(lead: seq<T>, body: seq<T>, items: seq<T>, vals: seq<U>, f: T -> Result<U>)
    requires lead + body == items
    requires |vals| == |body| && forall n :: 0 <= n < |body| ==> f(body[n]) == Ok(vals[n])
    ensures |lead| + |vals| == |items|
    ensures forall n :: 0 <= n < |vals| ==> f(items[|lead| + n]) == Ok(vals[n])
  {
    assert lead + body == items;
    forall n | 0 <= n < |vals|
      ensures f(items[|lead| + n]) == Ok(vals[n])
    {
      assert items[|lead| + n] == body[n];
    }
  }

  /** A block without a header line parses to no layouts, whatever its
      other lines hold. */
  lemma NoHeaderNoLayouts<D>(lines: seq<string>, isHeader: string -> bool,
                             parseHeader: string -> Result<int>, parseItem: string -> Result<Entity<D>>)
    requires forall k :: 0 <= k < |lines| ==> !isHeader(Strip(lines[k]))
    ensures ParseLayouts(Some(lines), isHeader, parseHeader, parseItem) == Ok(Layouts([], map[]))
  {
    var xs, cls := StripAll(lines), Classifier(isHeader);
    NoHeadsNoFrames(xs, cls);
    FrameFromHeads(xs, cls, Framed([], []));
  }
}
