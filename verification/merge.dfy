/** Name-keyed merge of two collections (`CollectionComparer` in
    collection/_collection_abstract.py and its legacy copy in
    collection/CollectionAbstract.py).

    The records merged this way (materials, sections, designs) are
    modelled as a class name, a `name` and a dictionary of the remaining
    attributes. */
module Merge {
  import opened Wrappers
  import opened Keys
  import opened Sorting
  import opened Store

  datatype Value = Real(x: real) | Int(i: int) | Str(s: string)

  /** The fields of a name-keyed record other than its `index`.  `cls`
      is the Python class of the object. */
  datatype Named = Named(cls: string, name: string, attrs: map<string, Value>)

  type Rec = Entity<Named>

  /** `getattr(o, a, float("inf"))` as a sort-key position. */
  function AttrAtom(d: Named, a: string): (r: Atom)
    ensures a !in d.attrs <==> r == Inf
    ensures a in d.attrs && d.attrs[a].Real? ==> r == Num(d.attrs[a].x)
    ensures a in d.attrs && d.attrs[a].Int? ==> r == Num(d.attrs[a].i as real)
    ensures a in d.attrs && d.attrs[a].Str? ==> r == Text(d.attrs[a].s)
  {
    if a !in d.attrs then Inf
    else match d.attrs[a]
      case Real(x) => Num(x)
      case Int(i) => Num(i as real)
      case Str(s) => Text(s)
  }

  /** `_copy_attributes_overwriting`: every attribute of the imported
      object except `index` is written onto the existing one.  The
      existing object keeps its index and its class. */
  function Overwrite(cur: Rec, imp: Rec): (r: Rec)
    ensures r.index == cur.index && r.data.cls == cur.data.cls
    ensures r.data.name == imp.data.name
    ensures r.data.attrs.Keys == cur.data.attrs.Keys + imp.data.attrs.Keys
    ensures forall a :: a in imp.data.attrs ==> r.data.attrs[a] == imp.data.attrs[a]
    ensures forall a :: a in cur.data.attrs && a !in imp.data.attrs ==> r.data.attrs[a] == cur.data.attrs[a]
  {
    Entity(cur.index, Named(cur.data.cls, imp.data.name, cur.data.attrs + imp.data.attrs))
  }

  // ---------------------------------------------------------------
  // Name lookups (`{getattr(o, "name"): o for o in objects}`)
  // ---------------------------------------------------------------

  function NameSet(s: seq<Rec>): set<string> {
    set x | x in s :: x.data.name
  }

  /** No two records share a name. */
  ghost predicate DistinctNames(s: seq<Rec>) {
    forall i, j :: 0 <= i < j < |s| ==> s[i].data.name != s[j].data.name
  }

  lemma NameSetConcat(a: seq<Rec>, b: seq<Rec>)
    ensures NameSet(a + b) == NameSet(a) + NameSet(b)
  {
  }

  /** Position of the first record named `n`. */
  function PosOf(s: seq<Rec>, n: string): (r: Option<nat>)
    ensures r.None? <==> n !in NameSet(s)
    ensures r.Some? ==> r.value < |s| && s[r.value].data.name == n &&
                        forall k :: 0 <= k < r.value ==> s[k].data.name != n
  {
    if |s| == 0 then None
    else if s[0].data.name == n then Some(0)
    else
      var r := PosOf(s[1..], n);
      assert s == [s[0]] + s[1..];
      NameSetConcat([s[0]], s[1..]);
      if r.None? then None else Some(r.value + 1)
  }

  /** The first position carrying a name is unique. */
  lemma PosOfUnique(s: seq<Rec>, n: string, p: nat)
    requires p < |s| && s[p].data.name == n
    requires forall k :: 0 <= k < p ==> s[k].data.name != n
    ensures PosOf(s, n) == Some(p)
  {
    assert s[p] in s;
  }

  /** Position of the last record named `n`. */
  function LastPosOf(s: seq<Rec>, n: string): (r: Option<nat>)
    ensures r.None? <==> n !in NameSet(s)
    ensures r.Some? ==> r.value < |s| && s[r.value].data.name == n &&
                        forall k :: r.value < k < |s| ==> s[k].data.name != n
  {
    if |s| == 0 then None
    else if s[|s| - 1].data.name == n then Some(|s| - 1)
    else
      var p := s[..|s| - 1];
      assert s == p + [s[|s| - 1]];
      NameSetConcat(p, [s[|s| - 1]]);
      LastPosOf(p, n)
  }

  /** In a list with distinct names, the first and last positions of a
      name coincide. */
  lemma DistinctPos(s: seq<Rec>, n: string)
    requires DistinctNames(s)
    ensures PosOf(s, n) == LastPosOf(s, n)
  {
    if n in NameSet(s) {
      PosOfUnique(s, n, LastPosOf(s, n).value);
    }
  }

  /** The record named `n` in a lookup, if any. */
  function Find(d: seq<Rec>, n: string): (r: Option<Rec>)
    ensures r.None? <==> n !in NameSet(d)
    ensures r.Some? ==> r.value in d && r.value.data.name == n
  {
    var p := PosOf(d, n);
    if p.None? then None else Some(d[p.value])
  }

  /** In a list with distinct names, the only record named `n` is the one
      `Find` returns. */
  lemma FindDistinct(d: seq<Rec>, x: Rec)
    requires DistinctNames(d) && x in d
    ensures Find(d, x.data.name) == Some(x)
  {
    var k :| 0 <= k < |d| && d[k] == x;
    PosOfUnique(d, x.data.name, k);
  }

  /** `d[x.name] = x` on an insertion-ordered dictionary: a known name
      keeps its position and takes the new value, a new name goes last. */
  function Put(d: seq<Rec>, x: Rec): (r: seq<Rec>)
    ensures NameSet(r) == NameSet(d) + {x.data.name}
  {
    var p := PosOf(d, x.data.name);
    if p.Some? then
      var r := d[p.value := x];
      assert NameSet(r) == NameSet(d) by {
        forall y | y in r ensures y.data.name in NameSet(d) {
          var k :| 0 <= k < |r| && r[k] == y;
          assert d[k] in d;
        }
        forall y | y in d ensures y.data.name in NameSet(r) {
          var k :| 0 <= k < |d| && d[k] == y;
          assert r[k] in r;
        }
      }
      r
    else
      NameSetConcat(d, [x]);
      d + [x]
  }

  lemma PutDistinct(d: seq<Rec>, x: Rec)
    requires DistinctNames(d)
    ensures DistinctNames(Put(d, x))
  {
    var p := PosOf(d, x.data.name);
    if p.None? {
      var r := d + [x];
      forall i, j | 0 <= i < j < |r| ensures r[i].data.name != r[j].data.name {
        if j == |d| {
          assert r[i] in d;
        }
      }
    }
  }

  lemma PutValue(d: seq<Rec>, x: Rec, n: string)
    ensures Find(Put(d, x), n) == if n == x.data.name then Some(x) else Find(d, n)
  {
    var p := PosOf(d, x.data.name);
    var r := Put(d, x);
    if p.Some? {
      assert forall k :: 0 <= k < |d| ==> r[k].data.name == d[k].data.name;
      if n == x.data.name {
        PosOfUnique(r, n, p.value);
      } else if n in NameSet(d) {
        var q := PosOf(d, n).value;
        PosOfUnique(r, n, q);
      }
    } else {
      if n == x.data.name {
        PosOfUnique(r, n, |d|);
      } else if n in NameSet(d) {
        var q := PosOf(d, n).value;
        PosOfUnique(r, n, q);
      }
    }
  }

  /** The dictionary comprehension `{o.name: o for o in objects}`: one
      entry per name, at the name's first occurrence, holding the last
      object with that name. */
  function Lookup(s: seq<Rec>): (d: seq<Rec>)
    ensures NameSet(d) == NameSet(s)
  {
    if |s| == 0 then []
    else
      var p := s[..|s| - 1];
      assert s == p + [s[|s| - 1]];
      NameSetConcat(p, [s[|s| - 1]]);
      Put(Lookup(p), s[|s| - 1])
  }

  lemma {:induction false} LookupDistinct(s: seq<Rec>)
    ensures DistinctNames(Lookup(s))
    decreases |s|
  {
    if |s| > 0 {
      LookupDistinct(s[..|s| - 1]);
      PutDistinct(Lookup(s[..|s| - 1]), s[|s| - 1]);
    }
  }

  /** The lookup holds, for each name, the last object carrying it. */
  lemma {:induction false} LookupValue(s: seq<Rec>, n: string)
    requires n in NameSet(s)
    ensures Find(Lookup(s), n) == Some(s[LastPosOf(s, n).value])
    decreases |s|
  {
    LookupLast(s, n);
    if n != s[|s| - 1].data.name {
      LastPosOfInit(s, n);
      LookupValue(s[..|s| - 1], n);
    }
  }

  /** A lookup is the lookup of all records but the last, with the last
      one put in. */
  lemma LookupLast(s: seq<Rec>, n: string)
    requires |s| > 0
    ensures Find(Lookup(s), n) == if n == s[|s| - 1].data.name then Some(s[|s| - 1]) else Find(Lookup(s[..|s| - 1]), n)
  {
    PutValue(Lookup(s[..|s| - 1]), s[|s| - 1], n);
  }

  lemma LastPosOfInit(s: seq<Rec>, n: string)
    requires |s| > 0 && s[|s| - 1].data.name != n
    ensures LastPosOf(s, n) == LastPosOf(s[..|s| - 1], n)
  {
  }

  /** Every entry of a lookup is one of the objects. */
  lemma {:induction false} LookupMembers(s: seq<Rec>, x: Rec)
    requires x in Lookup(s)
    ensures x in s
  {
    LookupDistinct(s);
    FindDistinct(Lookup(s), x);
    LookupValue(s, x.data.name);
  }

  // ---------------------------------------------------------------
  // The merge pipeline
  // ---------------------------------------------------------------

  datatype MergeResult = MergeResult(coll: Coll<Named>, reorder: map<int, int>, removedAny: bool)

  /** Whether an existing record survives: it is imported, or nothing is
      removed, or its index is protected. */
  predicate Survives(e: Rec, im: seq<Rec>, removeMissing: bool, used: set<int>) {
    e.data.name in NameSet(im) || !removeMissing || e.index in used
  }

  /** The record an existing one becomes in step 1. */
  function Updated(e: Rec, im: seq<Rec>): (r: Rec)
    ensures r.data.name == e.data.name && r.index == e.index
  {
    var f := Find(im, e.data.name);
    if f.Some? then Overwrite(e, f.value) else e
  }

  /** Step 1: the existing records in lookup order, each overwritten by
      its imported twin, the ones that do not survive left out. */
  function KeptExisting(ex: seq<Rec>, im: seq<Rec>, removeMissing: bool, used: set<int>): (r: seq<Rec>)
    ensures NameSet(r) == set e | e in ex && Survives(e, im, removeMissing, used) :: e.data.name
    ensures forall e :: e in ex && Survives(e, im, removeMissing, used) ==> Updated(e, im) in r
  {
    if |ex| == 0 then []
    else
      var p := ex[..|ex| - 1];
      var e := ex[|ex| - 1];
      assert ex == p + [e];
      var rest := KeptExisting(p, im, removeMissing, used);
      if Survives(e, im, removeMissing, used) then
        NameSetConcat(rest, [Updated(e, im)]);
        rest + [Updated(e, im)]
      else rest
  }

  lemma {:induction false} KeptDistinct(ex: seq<Rec>, im: seq<Rec>, removeMissing: bool, used: set<int>)
    requires DistinctNames(ex)
    ensures DistinctNames(KeptExisting(ex, im, removeMissing, used))
    decreases |ex|
  {
    if |ex| > 0 {
      var p := ex[..|ex| - 1];
      var e := ex[|ex| - 1];
      KeptDistinct(p, im, removeMissing, used);
      var rest := KeptExisting(p, im, removeMissing, used);
      if Survives(e, im, removeMissing, used) {
        assert e.data.name !in NameSet(rest);
        AppendDistinct(rest, Updated(e, im));
      }
    }
  }

  lemma AppendDistinct(d: seq<Rec>, x: Rec)
    requires DistinctNames(d) && x.data.name !in NameSet(d)
    ensures DistinctNames(d + [x])
  {
    var r := d + [x];
    forall i, j | 0 <= i < j < |r| ensures r[i].data.name != r[j].data.name {
      if j == |d| {
        assert r[i] in d;
      }
    }
  }

  /** Step 2: imported records whose name is not among the existing ones. */
  function NewImports(im: seq<Rec>, ex: seq<Rec>): (r: seq<Rec>)
    ensures forall x :: x in r <==> x in im && x.data.name !in NameSet(ex)
  {
    if |im| == 0 then []
    else
      var p := im[..|im| - 1];
      var x := im[|im| - 1];
      assert im == p + [x];
      NewImports(p, ex) + (if x.data.name in NameSet(ex) then [] else [x])
  }

  lemma {:induction false} NewImportsDistinct(im: seq<Rec>, ex: seq<Rec>)
    requires DistinctNames(im)
    ensures DistinctNames(NewImports(im, ex))
    decreases |im|
  {
    if |im| > 0 {
      var p := im[..|im| - 1];
      var x := im[|im| - 1];
      NewImportsDistinct(p, ex);
      if x.data.name !in NameSet(ex) {
        var rest := NewImports(p, ex);
        assert x.data.name !in NameSet(rest);
        AppendDistinct(rest, x);
      }
    }
  }

  lemma ConcatDistinct(a: seq<Rec>, b: seq<Rec>)
    requires DistinctNames(a) && DistinctNames(b)
    requires NameSet(a) !! NameSet(b)
    ensures DistinctNames(a + b)
  {
    var r := a + b;
    forall i, j | 0 <= i < j < |r| ensures r[i].data.name != r[j].data.name {
      if i < |a| && j >= |a| {
        assert r[i] in a && r[j] in b;
        assert r[i].data.name in NameSet(a) && r[j].data.name in NameSet(b);
      } else if j < |a| {
        assert r[i] == a[i] && r[j] == a[j];
      } else {
        assert r[i] == b[i - |a|] && r[j] == b[j - |a|];
      }
    }
  }

  /** Steps 4 and 6: every record takes its position in the sorted list,
      counted from 1, as its index. */
  function Renumber(s: seq<Rec>): (r: seq<Rec>)
    ensures |r| == |s|
    ensures forall k :: 0 <= k < |s| ==> r[k] == Entity(k + 1, s[k].data)
  {
    seq(|s|, k requires 0 <= k < |s| => Entity(k + 1, s[k].data))
  }

  /** Step 5: `{old_idx: name_to_new_index[name] for name, old_idx in
      old_index_by_name.items() if name in name_to_new_index}`. */
  function ReorderMap(ex: seq<Rec>, sorted: seq<Rec>): (m: map<int, int>)
    ensures forall i :: i in m <==> exists e :: e in ex && e.index == i && e.data.name in NameSet(sorted)
    ensures forall i :: i in m ==> 1 <= m[i] <= |sorted|
  {
    if |ex| == 0 then map[]
    else
      var p := ex[..|ex| - 1];
      var e := ex[|ex| - 1];
      assert ex == p + [e];
      var m := ReorderMap(p, sorted);
      var pos := LastPosOf(sorted, e.data.name);
      if pos.Some? then m[e.index := pos.value + 1] else m
  }

  function ByKey(key: Named -> Key): Rec -> Key {
    (r: Rec) => key(r.data)
  }

  /** Steps 1 to 3: the records that make up the merged collection, in
      key order, before they are renumbered. */
  function MergedSorted(ex: seq<Rec>, im: seq<Rec>, key: Named -> Key,
                        removeMissing: bool, used: set<int>): (s: seq<Rec>)
  {
    SortBy(KeptExisting(ex, im, removeMissing, used) + NewImports(im, ex), ByKey(key))
  }

  /** `merge_and_reorder` (collection/_collection_abstract.py). */
  function MergeAndReorder(existing: Coll<Named>, imported: Coll<Named>, key: Named -> Key,
                           removeMissing: bool, used: set<int>): (res: MergeResult)
    ensures forall k :: 0 <= k < |res.coll.objects| ==> res.coll.objects[k].index == k + 1
    ensures Consistent(res.coll)
  {
    var ex := Lookup(existing.objects);
    var im := Lookup(imported.objects);
    var sorted := MergedSorted(ex, im, key, removeMissing, used);
    var removed := exists e :: e in ex && e.data.name !in NameSet(sorted);
    MergeResult(FromSeq(Renumber(sorted)), ReorderMap(ex, sorted), removed)
  }

  /** `merge_and_reorder` (collection/CollectionAbstract.py): an existing
      record survives when it is imported or its index is used, whatever
      `remove_missing` says, and the removal flag compares sizes. */
  function MergeAndReorderLegacy(existing: Coll<Named>, imported: Coll<Named>, key: Named -> Key,
                                 removeMissing: bool, used: set<int>): (res: MergeResult)
    ensures forall k :: 0 <= k < |res.coll.objects| ==> res.coll.objects[k].index == k + 1
    ensures Consistent(res.coll)
  {
    var ex := Lookup(existing.objects);
    var im := Lookup(imported.objects);
    var sorted := MergedSorted(ex, im, key, true, used);
    var reorder := ReorderMap(ex, sorted);
    MergeResult(FromSeq(Renumber(sorted)), reorder, |reorder| != |existing.objects|)
  }

  // ---------------------------------------------------------------
  // Facts about the pipeline's steps
  // ---------------------------------------------------------------

  /** The last object named `n`: the one a lookup keeps. */
  function LastNamed(s: seq<Rec>, n: string): (r: Rec)
    requires n in NameSet(s)
    ensures r in s && r.data.name == n
  {
    s[LastPosOf(s, n).value]
  }

  lemma PermNames(s: seq<Rec>, t: seq<Rec>)
    requires multiset(s) == multiset(t)
    ensures NameSet(s) == NameSet(t)
  {
    assert forall x :: x in s <==> x in multiset(s);
    assert forall x :: x in t <==> x in multiset(t);
  }

  lemma TwiceInSeq(s: seq<Rec>, i: nat, j: nat)
    requires i < j < |s| && s[i] == s[j]
    ensures multiset(s)[s[i]] >= 2
  {
    assert s == s[..j] + s[j..];
    assert s[i] in s[..j];
    assert s[j] in s[j..];
  }

  /** In a list with distinct names nothing occurs twice. */
  lemma {:induction false} CountAtMostOne(s: seq<Rec>, x: Rec)
    requires DistinctNames(s)
    ensures multiset(s)[x] <= 1
    decreases |s|
  {
    if |s| > 0 {
      var p := s[..|s| - 1];
      assert s == p + [s[|s| - 1]];
      CountAtMostOne(p, x);
      if s[|s| - 1] == x {
        assert x !in p by {
          assert forall k :: 0 <= k < |p| ==> p[k] == s[k];
        }
      }
    }
  }

  /** Reordering keeps the names distinct. */
  lemma PermDistinct(s: seq<Rec>, t: seq<Rec>)
    requires multiset(s) == multiset(t) && DistinctNames(s)
    ensures DistinctNames(t)
  {
    forall i, j | 0 <= i < j < |t| ensures t[i].data.name != t[j].data.name {
      if t[i] == t[j] {
        TwiceInSeq(t, i, j);
        CountAtMostOne(s, t[i]);
      } else {
        assert t[i] in multiset(s) && t[j] in multiset(s);
      }
    }
  }

  lemma RenumberNames(s: seq<Rec>, n: string)
    ensures NameSet(Renumber(s)) == NameSet(s)
    ensures PosOf(Renumber(s), n) == PosOf(s, n)
    ensures DistinctNames(s) ==> DistinctNames(Renumber(s))
  {
    var r := Renumber(s);
    assert forall k :: 0 <= k < |s| ==> r[k].data == s[k].data;
    forall x | x in r ensures x.data.name in NameSet(s) {
      var k :| 0 <= k < |r| && r[k] == x;
      assert s[k] in s;
    }
    forall x | x in s ensures x.data.name in NameSet(r) {
      var k :| 0 <= k < |s| && s[k] == x;
      assert r[k] in r;
    }
    if n in NameSet(s) {
      PosOfUnique(r, n, PosOf(s, n).value);
    }
  }

  /** Sorting only uses the fields other than `index`, so the renumbered
      list is still in key order. */
  lemma RenumberSorted(s: seq<Rec>, key: Named -> Key)
    requires SortedBy(s, ByKey(key))
    ensures SortedBy(Renumber(s), ByKey(key))
  {
    var r := Renumber(s);
    assert forall k :: 0 <= k < |s| ==> ByKey(key)(r[k]) == ByKey(key)(s[k]);
  }

  /** The value the reorder map holds for an existing record whose index
      no other existing record shares. */
  lemma {:induction false} ReorderValue(ex: seq<Rec>, sorted: seq<Rec>, e: Rec)
    requires e in ex && e.data.name in NameSet(sorted)
    requires forall x :: x in ex && x.index == e.index ==> x == e
    ensures e.index in ReorderMap(ex, sorted)
    ensures ReorderMap(ex, sorted)[e.index] == LastPosOf(sorted, e.data.name).value + 1
    decreases |ex|
  {
    var p := ex[..|ex| - 1];
    var last := ex[|ex| - 1];
    assert ex == p + [last];
    if last != e {
      ReorderValue(p, sorted, e);
    }
  }

  /** The lookup of a list with distinct indices has distinct indices. */
  lemma LookupIndices(s: seq<Rec>, e: Rec)
    requires forall i, j :: 0 <= i < j < |s| ==> s[i].index != s[j].index
    requires e in Lookup(s)
    ensures forall x :: x in Lookup(s) && x.index == e.index ==> x == e
  {
    LookupMembers(s, e);
    forall x | x in Lookup(s) && x.index == e.index ensures x == e {
      LookupMembers(s, x);
      SameIndexSame(s, x, e);
    }
  }

  lemma SameIndexSame(s: seq<Rec>, x: Rec, e: Rec)
    requires forall i, j :: 0 <= i < j < |s| ==> s[i].index != s[j].index
    requires x in s && e in s && x.index == e.index
    ensures x == e
  {
  }

  /** The lookup's entry for a name is the last object carrying it. */
  lemma LookupEntry(s: seq<Rec>, e: Rec)
    requires e in Lookup(s)
    ensures e == LastNamed(s, e.data.name)
  {
    LookupDistinct(s);
    FindDistinct(Lookup(s), e);
    LookupValue(s, e.data.name);
  }

  lemma LookupHas(s: seq<Rec>, n: string)
    requires n in NameSet(s)
    ensures LastNamed(s, n) in Lookup(s)
  {
    LookupValue(s, n);
  }

  /** The merged list before sorting has distinct names, and so do the
      sorted list and the renumbered collection. */
  lemma MergedDistinct(ex: seq<Rec>, im: seq<Rec>, key: Named -> Key, removeMissing: bool, used: set<int>)
    requires DistinctNames(ex) && DistinctNames(im)
    ensures DistinctNames(KeptExisting(ex, im, removeMissing, used) + NewImports(im, ex))
    ensures DistinctNames(MergedSorted(ex, im, key, removeMissing, used))
  {
    var kept := KeptExisting(ex, im, removeMissing, used);
    var added := NewImports(im, ex);
    KeptDistinct(ex, im, removeMissing, used);
    NewImportsDistinct(im, ex);
    assert NameSet(kept) !! NameSet(added);
    ConcatDistinct(kept, added);
    PermDistinct(kept + added, MergedSorted(ex, im, key, removeMissing, used));
  }

  lemma MergedNames(ex: seq<Rec>, im: seq<Rec>, key: Named -> Key, removeMissing: bool, used: set<int>)
    ensures NameSet(MergedSorted(ex, im, key, removeMissing, used))
         == NameSet(im) + set e | e in ex && Survives(e, im, removeMissing, used) :: e.data.name
  {
    var kept := KeptExisting(ex, im, removeMissing, used);
    var added := NewImports(im, ex);
    PermNames(kept + added, MergedSorted(ex, im, key, removeMissing, used));
    NameSetConcat(kept, added);
    forall x | x in im ensures x.data.name in NameSet(kept) + NameSet(added) {
      if x.data.name in NameSet(ex) {
        var e :| e in ex && e.data.name == x.data.name;
        assert Survives(e, im, removeMissing, used);
        assert e.data.name in NameSet(kept);
      } else {
        assert x in added;
      }
    }
  }

  // ---------------------------------------------------------------
  // What the merge promises
  // ---------------------------------------------------------------

  /** Which names come out of the merge: every imported name, and an
      existing name when nothing is removed, or when its object's index
      is protected by `used`. */
  lemma {:induction false} MergeNames(existing: Coll<Named>, imported: Coll<Named>, key: Named -> Key,
                                      removeMissing: bool, used: set<int>, n: string)
    ensures n in NameSet(MergeAndReorder(existing, imported, key, removeMissing, used).coll.objects) <==>
              n in NameSet(imported.objects) ||
              (n in NameSet(existing.objects) &&
               (!removeMissing || LastNamed(existing.objects, n).index in used))
  {
    var ex := Lookup(existing.objects);
    var im := Lookup(imported.objects);
    var sorted := MergedSorted(ex, im, key, removeMissing, used);
    RenumberNames(sorted, n);
    MergedNames(ex, im, key, removeMissing, used);
    if n in NameSet(existing.objects) {
      LookupHas(existing.objects, n);
    }
    if n in set e | e in ex && Survives(e, im, removeMissing, used) :: e.data.name {
      var e :| e in ex && Survives(e, im, removeMissing, used) && e.data.name == n;
      LookupEntry(existing.objects, e);
    }
  }

  lemma FindRenumbered(sorted: seq<Rec>, n: string)
    requires n in NameSet(sorted)
    ensures n in NameSet(Renumber(sorted))
    ensures Find(Renumber(sorted), n) == Some(Entity(PosOf(sorted, n).value + 1, Find(sorted, n).value.data))
  {
    RenumberNames(sorted, n);
  }

  /** The record an existing name or an imported name turns into, before
      renumbering. */
  function Expected(existing: seq<Rec>, imported: seq<Rec>, n: string): (d: Named)
    requires n in NameSet(existing) || n in NameSet(imported)
  {
    if n in NameSet(existing) && n in NameSet(imported) then
      Overwrite(LastNamed(existing, n), LastNamed(imported, n)).data
    else if n in NameSet(imported) then LastNamed(imported, n).data
    else LastNamed(existing, n).data
  }

  lemma ExpectedInMerged(existing: Coll<Named>, imported: Coll<Named>, key: Named -> Key,
                         removeMissing: bool, used: set<int>, n: string) returns (x: Rec)
    requires n in NameSet(MergeAndReorder(existing, imported, key, removeMissing, used).coll.objects)
    ensures n in NameSet(existing.objects) || n in NameSet(imported.objects)
    ensures x in KeptExisting(Lookup(existing.objects), Lookup(imported.objects), removeMissing, used)
                 + NewImports(Lookup(imported.objects), Lookup(existing.objects))
    ensures x.data == Expected(existing.objects, imported.objects, n) && x.data.name == n
  {
    var ex := Lookup(existing.objects);
    var im := Lookup(imported.objects);
    MergeNames(existing, imported, key, removeMissing, used, n);
    if n in NameSet(existing.objects) {
      x := ExistingExpected(existing.objects, imported.objects, removeMissing, used, n);
    } else {
      x := LastNamed(imported.objects, n);
      LookupHas(imported.objects, n);
      assert x in NewImports(im, ex);
    }
  }

  lemma ExistingExpected(existing: seq<Rec>, imported: seq<Rec>, removeMissing: bool, used: set<int>, n: string)
    returns (x: Rec)
    requires n in NameSet(existing)
    requires Survives(LastNamed(existing, n), Lookup(imported), removeMissing, used)
    ensures x in KeptExisting(Lookup(existing), Lookup(imported), removeMissing, used)
    ensures x.data == Expected(existing, imported, n) && x.data.name == n
  {
    var e := LastNamed(existing, n);
    var im := Lookup(imported);
    LookupHas(existing, n);
    if n in NameSet(imported) {
      LookupValue(imported, n);
    }
    x := Updated(e, im);
  }

  /** What each name of the merged collection holds: an existing record
      overwritten by its imported twin (keeping its class), an imported
      record, or an untouched existing record. */
  lemma MergeContents(existing: Coll<Named>, imported: Coll<Named>, key: Named -> Key,
                      removeMissing: bool, used: set<int>, n: string)
    requires n in NameSet(MergeAndReorder(existing, imported, key, removeMissing, used).coll.objects)
    ensures n in NameSet(existing.objects) || n in NameSet(imported.objects)
    ensures Find(MergeAndReorder(existing, imported, key, removeMissing, used).coll.objects, n).value.data
         == Expected(existing.objects, imported.objects, n)
  {
    var ex := Lookup(existing.objects);
    var im := Lookup(imported.objects);
    var merged := KeptExisting(ex, im, removeMissing, used) + NewImports(im, ex);
    var sorted := MergedSorted(ex, im, key, removeMissing, used);
    var x := ExpectedInMerged(existing, imported, key, removeMissing, used, n);
    LookupDistinct(existing.objects);
    LookupDistinct(imported.objects);
    MergedDistinct(ex, im, key, removeMissing, used);
    assert x in multiset(merged);
    assert x in sorted;
    FindDistinct(sorted, x);
    FindRenumbered(sorted, n);
  }

  /** The merged collection is in key order, names are unique, and the
      indices are 1..N. */
  lemma MergeOrder(existing: Coll<Named>, imported: Coll<Named>, key: Named -> Key,
                   removeMissing: bool, used: set<int>)
    ensures var objs := MergeAndReorder(existing, imported, key, removeMissing, used).coll.objects;
            SortedBy(objs, ByKey(key)) && DistinctNames(objs) &&
            forall k :: 0 <= k < |objs| ==> objs[k].index == k + 1
  {
    var ex := Lookup(existing.objects);
    var im := Lookup(imported.objects);
    var merged := KeptExisting(ex, im, removeMissing, used) + NewImports(im, ex);
    SortBySorted(merged, ByKey(key));
    RenumberSorted(SortBy(merged, ByKey(key)), key);
    LookupDistinct(existing.objects);
    LookupDistinct(imported.objects);
    MergedDistinct(ex, im, key, removeMissing, used);
    RenumberNames(SortBy(merged, ByKey(key)), "");
  }

  /** The reorder map sends the original index of every surviving
      existing record to the new index of the record with the same name
      (when the existing indices are distinct, as `_index` assumes). */
  lemma MergeReorder(existing: Coll<Named>, imported: Coll<Named>, key: Named -> Key,
                     removeMissing: bool, used: set<int>, n: string)
    requires forall i, j :: 0 <= i < j < |existing.objects| ==> existing.objects[i].index != existing.objects[j].index
    requires n in NameSet(existing.objects)
    requires n in NameSet(MergeAndReorder(existing, imported, key, removeMissing, used).coll.objects)
    ensures var res := MergeAndReorder(existing, imported, key, removeMissing, used);
            var old_index := LastNamed(existing.objects, n).index;
            old_index in res.reorder && res.reorder[old_index] == Find(res.coll.objects, n).value.index
  {
    var ex := Lookup(existing.objects);
    var im := Lookup(imported.objects);
    var sorted := MergedSorted(ex, im, key, removeMissing, used);
    var e := LastNamed(existing.objects, n);
    LookupHas(existing.objects, n);
    LookupIndices(existing.objects, e);
    RenumberNames(sorted, n);
    LookupDistinct(existing.objects);
    LookupDistinct(imported.objects);
    MergedDistinct(ex, im, key, removeMissing, used);
    ReorderFind(ex, sorted, e);
  }

  /** The reorder map sends an existing record's index to the new index
      of the record with its name, when merged names are distinct. */
  lemma ReorderFind(ex: seq<Rec>, sorted: seq<Rec>, e: Rec)
    requires e in ex && e.data.name in NameSet(sorted)
    requires forall x :: x in ex && x.index == e.index ==> x == e
    requires DistinctNames(sorted)
    ensures e.index in ReorderMap(ex, sorted)
    ensures ReorderMap(ex, sorted)[e.index] == Find(Renumber(sorted), e.data.name).value.index
  {
    ReorderValue(ex, sorted, e);
    DistinctPos(sorted, e.data.name);
    FindRenumbered(sorted, e.data.name);
  }

  /** The reorder map has entries only for original indices of existing
      records, never for newly imported ones. */
  lemma MergeReorderDomain(existing: Coll<Named>, imported: Coll<Named>, key: Named -> Key,
                           removeMissing: bool, used: set<int>, i: int)
    ensures var res := MergeAndReorder(existing, imported, key, removeMissing, used);
            i in res.reorder <==>
              exists n :: n in NameSet(existing.objects) && LastNamed(existing.objects, n).index == i &&
                          n in NameSet(res.coll.objects)
  {
    var res := MergeAndReorder(existing, imported, key, removeMissing, used);
    if i in res.reorder {
      ReorderedNamed(existing, imported, key, removeMissing, used, i);
    }
    if exists n :: n in NameSet(existing.objects) && LastNamed(existing.objects, n).index == i &&
                   n in NameSet(res.coll.objects) {
      var n :| n in NameSet(existing.objects) && LastNamed(existing.objects, n).index == i &&
               n in NameSet(res.coll.objects);
      NamedReordered(existing, imported, key, removeMissing, used, n);
    }
  }

  lemma ReorderedNamed(existing: Coll<Named>, imported: Coll<Named>, key: Named -> Key,
                       removeMissing: bool, used: set<int>, i: int)
    requires i in MergeAndReorder(existing, imported, key, removeMissing, used).reorder
    ensures exists n :: n in NameSet(existing.objects) && LastNamed(existing.objects, n).index == i &&
                        n in NameSet(MergeAndReorder(existing, imported, key, removeMissing, used).coll.objects)
  {
    var ex := Lookup(existing.objects);
    var sorted := MergedSorted(ex, Lookup(imported.objects), key, removeMissing, used);
    RenumberNames(sorted, "");
    var e :| e in ex && e.index == i && e.data.name in NameSet(sorted);
    LookupMembers(existing.objects, e);
    LookupEntry(existing.objects, e);
    assert e in existing.objects;
  }

  lemma NamedReordered(existing: Coll<Named>, imported: Coll<Named>, key: Named -> Key,
                       removeMissing: bool, used: set<int>, n: string)
    requires n in NameSet(existing.objects)
    requires n in NameSet(MergeAndReorder(existing, imported, key, removeMissing, used).coll.objects)
    ensures LastNamed(existing.objects, n).index in MergeAndReorder(existing, imported, key, removeMissing, used).reorder
  {
    var ex := Lookup(existing.objects);
    var sorted := MergedSorted(ex, Lookup(imported.objects), key, removeMissing, used);
    RenumberNames(sorted, "");
    LookupHas(existing.objects, n);
  }

  /** `removed_any` holds exactly when some existing name was dropped:
      only possible with `remove_missing`, for a name that is not
      imported and whose index is not protected. */
  lemma MergeRemovedAny(existing: Coll<Named>, imported: Coll<Named>, key: Named -> Key,
                        removeMissing: bool, used: set<int>)
    ensures MergeAndReorder(existing, imported, key, removeMissing, used).removedAny <==>
              removeMissing &&
              exists n :: n in NameSet(existing.objects) && n !in NameSet(imported.objects) &&
                          LastNamed(existing.objects, n).index !in used
  {
    var ex := Lookup(existing.objects);
    var im := Lookup(imported.objects);
    var sorted := MergedSorted(ex, im, key, removeMissing, used);
    var res := MergeAndReorder(existing, imported, key, removeMissing, used);
    RenumberNames(sorted, "");
    if res.removedAny {
      var e :| e in ex && e.data.name !in NameSet(sorted);
      LookupMembers(existing.objects, e);
      LookupEntry(existing.objects, e);
      MergeNames(existing, imported, key, removeMissing, used, e.data.name);
    }
    if removeMissing &&
       exists n :: n in NameSet(existing.objects) && n !in NameSet(imported.objects) &&
                   LastNamed(existing.objects, n).index !in used {
      var n :| n in NameSet(existing.objects) && n !in NameSet(imported.objects) &&
               LastNamed(existing.objects, n).index !in used;
      LookupHas(existing.objects, n);
      MergeNames(existing, imported, key, removeMissing, used, n);
    }
  }

  /** The legacy merge ignores `remove_missing`: its collection and
      reorder map are those of the current merge with removal on. */
  lemma LegacyIgnoresRemoveMissing(existing: Coll<Named>, imported: Coll<Named>, key: Named -> Key,
                                   removeMissing: bool, used: set<int>)
    ensures MergeAndReorderLegacy(existing, imported, key, removeMissing, used).coll
         == MergeAndReorder(existing, imported, key, true, used).coll
    ensures MergeAndReorderLegacy(existing, imported, key, removeMissing, used).reorder
         == MergeAndReorder(existing, imported, key, true, used).reorder
  {
  }

  /** The legacy merge keeps an existing name exactly when it is imported
      or its index is in `used`. */
  lemma LegacyNames(existing: Coll<Named>, imported: Coll<Named>, key: Named -> Key,
                    removeMissing: bool, used: set<int>, n: string)
    ensures n in NameSet(MergeAndReorderLegacy(existing, imported, key, removeMissing, used).coll.objects) <==>
              n in NameSet(imported.objects) ||
              (n in NameSet(existing.objects) && LastNamed(existing.objects, n).index in used)
  {
    LegacyIgnoresRemoveMissing(existing, imported, key, removeMissing, used);
    MergeNames(existing, imported, key, true, used, n);
  }

  /** The legacy removal flag, as written, reports a removal when the
      existing collection holds two objects with the same name, although
      every existing name survives; the current merge reports none. */
  lemma LegacyRemovedAnyCounterexample(a1: Rec, a2: Rec, b: Rec, key: Named -> Key, used: set<int>)
    requires a1.data.name == a2.data.name == b.data.name
    ensures var existing := FromSeq([a1, a2]);
            var imported := FromSeq([b]);
            MergeAndReorderLegacy(existing, imported, key, false, used).removedAny &&
            !MergeAndReorder(existing, imported, key, false, used).removedAny &&
            NameSet(MergeAndReorderLegacy(existing, imported, key, false, used).coll.objects) == NameSet([a1, a2])
  {
    var existing := FromSeq([a1, a2]);
    var imported := FromSeq([b]);
    LegacyFlagPair(a1, a2, b, key, used);
    MergeRemovedAny(existing, imported, key, false, used);
  }

  lemma LegacyFlagPair(a1: Rec, a2: Rec, b: Rec, key: Named -> Key, used: set<int>)
    requires a1.data.name == a2.data.name == b.data.name
    ensures MergeAndReorderLegacy(FromSeq([a1, a2]), FromSeq([b]), key, false, used).removedAny
    ensures NameSet(MergeAndReorderLegacy(FromSeq([a1, a2]), FromSeq([b]), key, false, used).coll.objects)
         == NameSet([a1, a2])
  {
    LegacyPairResult(a1, a2, b, key, used);
    SingleMapSize(a2.index, 1);
    LegacyPairNames(a1, a2, b);
  }

  lemma SingleMapSize(k: int, v: int)
    ensures |map[k := v]| == 1
  {
    assert map[k := v].Keys == {k};
  }

  lemma LegacyPairNames(a1: Rec, a2: Rec, b: Rec)
    requires a1.data.name == a2.data.name == b.data.name
    ensures NameSet(Renumber([Overwrite(a2, b)])) == NameSet([a1, a2])
  {
    SingleNames([Overwrite(a2, b)]);
    RenumberNames([Overwrite(a2, b)], "");
    assert NameSet([a1, a2]) == {a1.data.name};
  }

  lemma SingleNames(s: seq<Rec>)
    requires |s| == 1
    ensures NameSet(s) == {s[0].data.name}
  {
  }

  lemma LegacyPairResult(a1: Rec, a2: Rec, b: Rec, key: Named -> Key, used: set<int>)
    requires a1.data.name == a2.data.name == b.data.name
    ensures MergeAndReorderLegacy(FromSeq([a1, a2]), FromSeq([b]), key, false, used).reorder == map[a2.index := 1]
    ensures MergeAndReorderLegacy(FromSeq([a1, a2]), FromSeq([b]), key, false, used).coll.objects
         == Renumber([Overwrite(a2, b)])
  {
    LookupPair(a1, a2);
    LookupSingle(b);
    LegacySorted(a2, b, key, used);
    ReorderSingle(a2, Overwrite(a2, b));
  }

  lemma ReorderSingle(e: Rec, x: Rec)
    requires x.data.name == e.data.name
    ensures ReorderMap([e], [x]) == map[e.index := 1]
  {
    assert [e][..0] == [];
    assert LastPosOf([x], e.data.name) == Some(0);
  }

  lemma LookupSingle(a: Rec)
    ensures Lookup([a]) == [a]
  {
    assert [a][..0] == [];
  }

  lemma LookupPair(a1: Rec, a2: Rec)
    requires a1.data.name == a2.data.name
    ensures Lookup([a1, a2]) == [a2]
  {
    assert [a1, a2][..1] == [a1];
    LookupSingle(a1);
    assert PosOf([a1], a2.data.name) == Some(0);
  }

  lemma LegacySorted(a2: Rec, b: Rec, key: Named -> Key, used: set<int>)
    requires a2.data.name == b.data.name
    ensures MergedSorted([a2], [b], key, true, used) == [Overwrite(a2, b)]
  {
    assert [a2][..0] == [] && [b][..0] == [];
    assert NameSet([b]) == {b.data.name};
    assert Find([b], a2.data.name) == Some(b);
    assert KeptExisting([a2], [b], true, used) == [Overwrite(a2, b)];
    assert NameSet([a2]) == {a2.data.name};
    assert NewImports([b], [a2]) == [];
    var m := KeptExisting([a2], [b], true, used) + NewImports([b], [a2]);
    assert m == [Overwrite(a2, b)];
    assert m[..0] == [];
  }
}
