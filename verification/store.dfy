/** The generic indexed store every collection of the model is built on
    (`Collection` in collection/_collection_abstract.py).

    A collection keeps its objects in insertion order together with a
    dictionary from `index` to object.  The dictionary is kept as a
    separate field, as in the source, so that a collection whose
    dictionary has gone stale can be expressed. */
module Store {
  import opened Wrappers

  /** An object of the model: its `index` and the rest of its fields. */
  datatype Entity<D> = Entity(index: int, data: D)

  datatype Coll<D> = Coll(objects: seq<Entity<D>>, byIndex: map<int, Entity<D>>)

  /** The dictionary that adding `objs` one by one to an empty
      collection produces: every index maps to the last object carrying it. */
  function IndexMap<D>(objs: seq<Entity<D>>): (m: map<int, Entity<D>>)
    ensures forall i :: i in m <==> exists k :: 0 <= k < |objs| && objs[k].index == i
    ensures forall i :: i in m ==> m[i] in objs && m[i].index == i
  {
    if |objs| == 0 then map[]
    else
      var p := objs[..|objs| - 1];
      var last := objs[|objs| - 1];
      var m := IndexMap(p);
      assert forall k :: 0 <= k < |p| ==> p[k] == objs[k];
      m[last.index := last]
  }

  /** The dictionary agrees with the object list. */
  ghost predicate Consistent<D>(c: Coll<D>) {
    c.byIndex == IndexMap(c.objects)
  }

  /** `j` is the position of the last object carrying index `i`. */
  predicate LastWith<D>(objs: seq<Entity<D>>, i: int, j: int) {
    0 <= j < |objs| && objs[j].index == i && forall l :: j < l < |objs| ==> objs[l].index != i
  }

  /** Last wins: every index of the dictionary maps to the last object
      carrying it. */
  lemma {:induction false} IndexMapLast<D>(objs: seq<Entity<D>>, i: int)
    requires i in IndexMap(objs)
    ensures exists j :: LastWith(objs, i, j) && IndexMap(objs)[i] == objs[j]
    decreases |objs|
  {
    var n := |objs| - 1;
    if objs[n].index == i {
      assert LastWith(objs, i, n);
    } else {
      var p := objs[..n];
      assert IndexMap(objs)[i] == IndexMap(p)[i];
      IndexMapLast(p, i);
      var j :| LastWith(p, i, j) && IndexMap(p)[i] == p[j];
      assert forall l :: 0 <= l < n ==> objs[l] == p[l];
      assert LastWith(objs, i, j);
    }
  }

  /** The object the dictionary holds for an index is the last one
      carrying it. */
  lemma IndexMapAt<D>(objs: seq<Entity<D>>, i: int, j: int)
    requires LastWith(objs, i, j)
    ensures i in IndexMap(objs) && IndexMap(objs)[i] == objs[j]
  {
    IndexMapLast(objs, i);
  }

  /** `Collection(objects)`. */
  function FromSeq<D>(objs: seq<Entity<D>>): (c: Coll<D>)
    ensures c.objects == objs && Consistent(c)
  {
    Coll(objs, IndexMap(objs))
  }

  function Empty<D>(): (c: Coll<D>)
    ensures c.objects == [] && Consistent(c)
  {
    FromSeq([])
  }

  /** `add`: appends and indexes the object by its `index`. */
  function Add<D>(c: Coll<D>, e: Entity<D>): (r: Coll<D>)
    ensures r.objects == c.objects + [e]
    ensures e.index in r.byIndex && r.byIndex[e.index] == e
    ensures forall i :: i != e.index ==>
              (i in r.byIndex <==> i in c.byIndex) &&
              (i in c.byIndex ==> r.byIndex[i] == c.byIndex[i])
  {
    Coll(c.objects + [e], c.byIndex[e.index := e])
  }

  /** Adding keeps a consistent collection consistent. */
  lemma AddConsistent<D>(c: Coll<D>, e: Entity<D>)
    requires Consistent(c)
    ensures Consistent(Add(c, e))
  {
    var s := c.objects + [e];
    assert s[..|s| - 1] == c.objects;
  }

  /** `extend`: adds each object in turn. */
  function Extend<D>(c: Coll<D>, es: seq<Entity<D>>): (r: Coll<D>)
    ensures r.objects == c.objects + es
    decreases |es|
  {
    if |es| == 0 then
      assert c.objects + es == c.objects;
      c
    else
      assert c.objects + es == (c.objects + [es[0]]) + es[1..];
      Extend(Add(c, es[0]), es[1..])
  }

  lemma {:induction false} ExtendConsistent<D>(c: Coll<D>, es: seq<Entity<D>>)
    requires Consistent(c)
    ensures Consistent(Extend(c, es))
    decreases |es|
  {
    if |es| > 0 {
      AddConsistent(c, es[0]);
      ExtendConsistent(Add(c, es[0]), es[1..]);
    }
  }

  /** `get`: the object stored under `i`, or None. */
  function Get<D>(c: Coll<D>, i: int): (r: Option<Entity<D>>)
    ensures r.Some? <==> i in c.byIndex
    ensures r.Some? ==> r.value == c.byIndex[i]
  {
    if i in c.byIndex then Some(c.byIndex[i]) else None
  }

  /** In a consistent collection `get` answers with the last object that
      carries the index, and None exactly when no object carries it. */
  lemma GetConsistent<D>(c: Coll<D>, i: int)
    requires Consistent(c)
    ensures Get(c, i).None? <==> forall k :: 0 <= k < |c.objects| ==> c.objects[k].index != i
    ensures Get(c, i).Some? ==> exists j :: LastWith(c.objects, i, j) && Get(c, i).value == c.objects[j]
  {
    if Get(c, i).Some? {
      IndexMapLast(c.objects, i);
    }
  }

  /** After `add(e)`, `get(e.index)` is `e` and every other lookup is unchanged. */
  lemma AddThenGet<D>(c: Coll<D>, e: Entity<D>, j: int)
    ensures Get(Add(c, e), e.index) == Some(e)
    ensures j != e.index ==> Get(Add(c, e), j) == Get(c, j)
  {
  }

  /** `r` is `s` without position `i`, the first occurrence of `x`. */
  ghost predicate DropsFirst<T>(s: seq<T>, x: T, r: seq<T>, i: int) {
    0 <= i < |s| && s[i] == x && x !in s[..i] && r == s[..i] + s[i + 1..]
  }

  /** Dropping position `j` of a tail is dropping position `j + 1` of the whole. */
  lemma ConsDrop<T>(h: T, t: seq<T>, x: T, r: seq<T>, j: int)
    requires h != x && DropsFirst(t, x, r, j)
    ensures DropsFirst([h] + t, x, [h] + r, j + 1)
  {
    var s := [h] + t;
    assert s[..j + 1] == [h] + t[..j];
    assert s[j + 2..] == t[j + 1..];
  }

  /** Python's `list.remove(x)`: drops the first element equal to `x`
      and keeps the order of the rest. */
  function RemoveFirst<T(==)>(s: seq<T>, x: T): (r: seq<T>)
    requires x in s
    ensures exists i :: DropsFirst(s, x, r, i)
    ensures multiset(r) == multiset(s) - multiset{x}
    ensures |r| == |s| - 1
  {
    assert s == [s[0]] + s[1..];
    if s[0] == x then
      assert DropsFirst(s, x, s[1..], 0) by { assert s[..0] + s[1..] == s[1..]; }
      s[1..]
    else
      var rest := RemoveFirst(s[1..], x);
      assert exists i :: DropsFirst(s, x, [s[0]] + rest, i) by {
        var j :| DropsFirst(s[1..], x, rest, j);
        ConsDrop(s[0], s[1..], x, rest, j);
      }
      [s[0]] + rest
  }

  /** `remove`: drops the object from the list and its index from the
      dictionary; an object that is not present leaves the collection as is. */
  function Remove<D(==)>(c: Coll<D>, e: Entity<D>): (r: Coll<D>)
    ensures e !in c.objects ==> r == c
    ensures e in c.objects ==>
              (exists i :: DropsFirst(c.objects, e, r.objects, i)) &&
              multiset(r.objects) == multiset(c.objects) - multiset{e} &&
              r.byIndex.Keys == c.byIndex.Keys - {e.index} &&
              forall i :: i in r.byIndex ==> r.byIndex[i] == c.byIndex[i]
  {
    if e in c.objects then Coll(RemoveFirst(c.objects, e), c.byIndex - {e.index}) else c
  }

  /** Integers in increasing order. */
  ghost predicate Increasing(s: seq<int>) {
    forall i, j :: 0 <= i < j < |s| ==> s[i] < s[j]
  }

  /** `sorted(keys)` of a finite set of integers. */
  function SortedInts(keys: set<int>): (r: seq<int>)
    ensures Increasing(r)
    ensures forall x :: x in r <==> x in keys
    ensures |r| == |keys|
    decreases |keys|
  {
    if keys == {} then []
    else
      var m := MinOf(keys);
      var rest := SortedInts(keys - {m});
      assert forall k :: 0 <= k < |rest| ==> rest[k] in keys - {m};
      [m] + rest
  }

  function MinOf(keys: set<int>): (m: int)
    requires keys != {}
    ensures m in keys && forall x :: x in keys ==> m <= x
  {
    MinExists(keys);
    var m :| IsMin(m, keys);
    m
  }

  predicate IsMin(m: int, keys: set<int>) {
    m in keys && forall x :: x in keys ==> m <= x
  }

  lemma {:induction false} MinExists(keys: set<int>)
    requires keys != {}
    ensures exists m :: IsMin(m, keys)
    decreases |keys|
  {
    NonEmptyHasElement(keys);
    var x :| x in keys;
    var rest := keys - {x};
    if rest != {} {
      MinExists(rest);
      var y :| IsMin(y, rest);
      var m := if x < y then x else y;
      forall z | z in keys
        ensures m <= z
      {
        if z != x {
          assert z in rest;
        }
      }
      assert IsMin(m, keys);
    } else {
      assert forall z :: z in keys ==> z in rest || z == x;
      assert IsMin(x, keys);
    }
  }

  /** A non-empty set has an element. */
  lemma NonEmptyHasElement(s: set<int>)
    requires s != {}
    ensures exists x :: x in s
  {
    if forall x :: x !in s {
      assert false;
    }
  }

  /** `index_list`: the indices in the dictionary, in increasing order. */
  function IndexList<D>(c: Coll<D>): (r: seq<int>)
    ensures Increasing(r)
    ensures forall i :: i in r <==> i in c.byIndex
  {
    SortedInts(c.byIndex.Keys)
  }

  // ---------------------------------------------------------------
  // Name lookup
  // ---------------------------------------------------------------

  /** `get_by_name`: the first object whose name equals `name`.  `nameOf`
      gives an object's `name` attribute, None when it has none.  The
      source raises AttributeError when the first object has no name. */
  function GetByName<D>(c: Coll<D>, name: string, nameOf: D -> Option<string>): (r: Result<Option<Entity<D>>>)
    ensures r.Err? <==> |c.objects| > 0 && nameOf(c.objects[0].data).None?
    ensures r.Err? ==> r.error == AttributeError
    ensures r == Ok(None) ==> forall k :: 0 <= k < |c.objects| ==> nameOf(c.objects[k].data) != Some(name)
    ensures r.Ok? && r.value.Some? ==>
              exists k :: 0 <= k < |c.objects| && c.objects[k] == r.value.value &&
                nameOf(c.objects[k].data) == Some(name) &&
                forall m :: 0 <= m < k ==> nameOf(c.objects[m].data) != Some(name)
  {
    if |c.objects| == 0 then Ok(None)
    else if nameOf(c.objects[0].data).None? then Err(AttributeError)
    else Ok(FirstNamed(c.objects, name, nameOf))
  }

  function FirstNamed<D>(s: seq<Entity<D>>, name: string, nameOf: D -> Option<string>): (r: Option<Entity<D>>)
    ensures r.None? ==> forall k :: 0 <= k < |s| ==> nameOf(s[k].data) != Some(name)
    ensures r.Some? ==>
              exists k :: 0 <= k < |s| && s[k] == r.value && nameOf(s[k].data) == Some(name) &&
                forall m :: 0 <= m < k ==> nameOf(s[m].data) != Some(name)
  {
    if |s| == 0 then None
    else if nameOf(s[0].data) == Some(name) then Some(s[0])
    else
      var r := FirstNamed(s[1..], name, nameOf);
      assert r.Some? ==>
               exists k :: 0 <= k < |s| && s[k] == r.value && nameOf(s[k].data) == Some(name) &&
                 forall m :: 0 <= m < k ==> nameOf(s[m].data) != Some(name) by {
        if r.Some? {
          var k :| 0 <= k < |s[1..]| && s[1..][k] == r.value && nameOf(s[1..][k].data) == Some(name) &&
                   forall m :: 0 <= m < k ==> nameOf(s[1..][m].data) != Some(name);
          assert s[k + 1] == r.value;
          assert forall m :: 1 <= m < k + 1 ==> s[m] == s[1..][m - 1];
        }
      }
      r
  }

  // ---------------------------------------------------------------
  // Elset references
  // ---------------------------------------------------------------

  /** How an object refers to elsets: through its own `elset` attribute
      (None when that attribute is None), or, for an object without one,
      through the items of its list attributes (None for an item that has
      no elset). */
  datatype ElsetRefs =
    | Direct(elset: Option<int>)
    | Nested(items: seq<Option<int>>)

  predicate RefersTo(r: ElsetRefs, i: int) {
    match r
    case Direct(e) => e == Some(i)
    case Nested(items) => Some(i) in items
  }

  ghost predicate Referenced<D>(objs: seq<Entity<D>>, refs: D -> ElsetRefs, i: int) {
    exists k :: 0 <= k < |objs| && RefersTo(refs(objs[k].data), i)
  }

  function RefsOf(r: ElsetRefs): (s: set<int>)
    ensures forall i :: i in s <==> RefersTo(r, i)
  {
    match r
    case Direct(e) => if e.Some? then {e.value} else {}
    case Nested(items) => set i | 0 <= i < |items| && items[i].Some? :: items[i].value
  }

  function CollectRefs<D>(objs: seq<Entity<D>>, refs: D -> ElsetRefs): (s: set<int>)
    ensures forall i :: i in s <==> Referenced(objs, refs, i)
  {
    if |objs| == 0 then {}
    else
      var p := objs[..|objs| - 1];
      var s := CollectRefs(p, refs) + RefsOf(refs(objs[|objs| - 1].data));
      assert forall i :: Referenced(p, refs, i) ==> Referenced(objs, refs, i) by {
        forall i | Referenced(p, refs, i) ensures Referenced(objs, refs, i) {
          var k :| 0 <= k < |p| && RefersTo(refs(p[k].data), i);
          assert objs[k] == p[k];
        }
      }
      s
  }

  /** `get_used_elsets` (current version): every elset index some object
      refers to; empty for an empty collection. */
  function UsedElsets<D>(c: Coll<D>, refs: D -> ElsetRefs): (s: set<int>)
    ensures forall i :: i in s <==> Referenced(c.objects, refs, i)
  {
    if |c.objects| == 0 then {} else CollectRefs(c.objects, refs)
  }

  /** `get_used_elsets` (legacy version): as above, but AttributeError
      when a non-empty collection refers to no elset at all. */
  function UsedElsetsStrict<D>(c: Coll<D>, refs: D -> ElsetRefs): (r: Result<set<int>>)
    ensures r.Err? <==> |c.objects| > 0 && forall i :: !Referenced(c.objects, refs, i)
    ensures r.Err? ==> r.error == AttributeError
    ensures r.Ok? ==> forall i :: i in r.value <==> Referenced(c.objects, refs, i)
  {
    if |c.objects| == 0 then Ok({})
    else
      var used := CollectRefs(c.objects, refs);
      if used == {} then Err(AttributeError)
      else
        NonEmptyHasElement(used);
        Ok(used)
  }

  /** Both versions agree whenever the legacy one answers. */
  lemma UsedElsetsAgree<D>(c: Coll<D>, refs: D -> ElsetRefs)
    ensures UsedElsetsStrict(c, refs).Ok? ==> UsedElsetsStrict(c, refs).value == UsedElsets(c, refs)
  {
  }
}
