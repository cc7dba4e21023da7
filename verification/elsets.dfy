/** Element sets (collection/elsets.py): an elset ties a material, a
    section and a design together.  This module models the lookup of an
    elset by its design, the dense id assignment used while building
    elsets, and `ElsetMerger`, which merges two elset collections with the
    designs as the master ordering. */
module Elsets {
  import opened Wrappers
  import opened Keys
  import opened Store
  import opened Merge

  /** The fields of an `Elset` other than its index. */
  datatype ElsetData = ElsetData(material: Rec, section: Rec, design: Rec, texture: int)

  type Elset = Entity<ElsetData>

  function DesignName(e: Elset): string {
    e.data.design.data.name
  }

  // ---------------------------------------------------------------
  // get_by_design
  // ---------------------------------------------------------------

  /** Position of the first elset whose design is named `n`. */
  function DesignPos(s: seq<Elset>, n: string): (r: Option<nat>)
    ensures r.None? <==> forall k :: 0 <= k < |s| ==> DesignName(s[k]) != n
    ensures r.Some? ==> r.value < |s| && DesignName(s[r.value]) == n &&
                        forall k :: 0 <= k < r.value ==> DesignName(s[k]) != n
  {
    if |s| == 0 then None
    else if DesignName(s[0]) == n then Some(0)
    else
      var r := DesignPos(s[1..], n);
      assert forall k :: 1 <= k < |s| ==> s[k] == s[1..][k - 1];
      if r.None? then None else Some(r.value + 1)
  }

  /** Position of the first elset whose design has index `i`. */
  function DesignIndexPos(s: seq<Elset>, i: int): (r: Option<nat>)
    ensures r.None? <==> forall k :: 0 <= k < |s| ==> s[k].data.design.index != i
    ensures r.Some? ==> r.value < |s| && s[r.value].data.design.index == i &&
                        forall k :: 0 <= k < r.value ==> s[k].data.design.index != i
  {
    if |s| == 0 then None
    else if s[0].data.design.index == i then Some(0)
    else
      var r := DesignIndexPos(s[1..], i);
      assert forall k :: 1 <= k < |s| ==> s[k] == s[1..][k - 1];
      if r.None? then None else Some(r.value + 1)
  }

  /** The three ways `get_by_design` can be called: with a design object,
      a design index or a design name. */
  datatype DesignQuery = ByDesign(design: Rec) | ByIndex(i: int) | ByName(n: string)

  /** `Elsets.get_by_design`: a design object stands for its name; an
      index is first turned into the name of the first elset's design
      carrying that index; then the first elset whose design has that name
      is returned. */
  function GetByDesign(c: Coll<ElsetData>, q: DesignQuery): (r: Option<Elset>)
    ensures q.ByName? ==> (r.None? <==> forall k :: 0 <= k < |c.objects| ==> DesignName(c.objects[k]) != q.n)
    ensures q.ByDesign? ==>
              (r.None? <==> forall k :: 0 <= k < |c.objects| ==> DesignName(c.objects[k]) != q.design.data.name)
    ensures q.ByIndex? ==>
              (r.None? <==> forall k :: 0 <= k < |c.objects| ==> c.objects[k].data.design.index != q.i)
    ensures r.Some? ==> r.value in c.objects
    ensures r.Some? && q.ByName? ==> DesignName(r.value) == q.n
    ensures r.Some? && q.ByDesign? ==> DesignName(r.value) == q.design.data.name
  {
    match q
    case ByDesign(d) => FirstByDesignName(c.objects, d.data.name)
    case ByName(n) => FirstByDesignName(c.objects, n)
    case ByIndex(i) =>
      var p := DesignIndexPos(c.objects, i);
      if p.None? then None
      else FirstByDesignName(c.objects, DesignName(c.objects[p.value]))
  }

  function FirstByDesignName(s: seq<Elset>, n: string): (r: Option<Elset>)
    ensures r.None? <==> forall k :: 0 <= k < |s| ==> DesignName(s[k]) != n
    ensures r.Some? ==> r.value in s && DesignName(r.value) == n
  {
    var p := DesignPos(s, n);
    if p.None? then None else Some(s[p.value])
  }

  /** A name query returns the first elset carrying that design name. */
  lemma GetByNameFirst(c: Coll<ElsetData>, n: string) returns (p: nat)
    requires GetByDesign(c, ByName(n)).Some?
    ensures p < |c.objects| && c.objects[p] == GetByDesign(c, ByName(n)).value
    ensures forall k :: 0 <= k < p ==> DesignName(c.objects[k]) != n
  {
    p := DesignPos(c.objects, n).value;
  }

  /** An index query answers with the first elset whose design shares the
      name of the first design carrying that index; that elset never
      comes later than the index match itself. */
  lemma GetByIndexFirst(c: Coll<ElsetData>, i: int) returns (p: nat, q: nat)
    requires GetByDesign(c, ByIndex(i)).Some?
    ensures p < |c.objects| && c.objects[p].data.design.index == i
    ensures forall k :: 0 <= k < p ==> c.objects[k].data.design.index != i
    ensures q <= p && c.objects[q] == GetByDesign(c, ByIndex(i)).value
    ensures DesignName(c.objects[q]) == DesignName(c.objects[p])
    ensures forall k :: 0 <= k < q ==> DesignName(c.objects[k]) != DesignName(c.objects[p])
  {
    p := DesignIndexPos(c.objects, i).value;
    q := DesignPos(c.objects, DesignName(c.objects[p])).value;
  }

  // ---------------------------------------------------------------
  // ElsetsAdapter._next_id
  // ---------------------------------------------------------------

  /** `_next_id(mapping, key)`: a new key receives `len(mapping) + 1`; a
      known key keeps its id.  Returns the updated mapping and the id. */
  function NextId<K(==)>(m: map<K, int>, key: K): (r: (map<K, int>, int))
    ensures r.0.Keys == m.Keys + {key}
    ensures r.0[key] == r.1
    ensures forall k :: k in m ==> r.0[k] == m[k]
    ensures key !in m ==> r.1 == |m| + 1
  {
    if key in m then (m, m[key]) else (m[key := |m| + 1], |m| + 1)
  }

  /** The integers 1..n. */
  function Range(n: nat): (s: set<int>)
    ensures forall i :: i in s <==> 1 <= i <= n
    ensures |s| == n
  {
    if n == 0 then {} else
      var p := Range(n - 1);
      assert n !in p;
      p + {n}
  }

  /** The ids in `m` are distinct and are exactly 1..|m|. */
  ghost predicate DenseIds<K>(m: map<K, int>) {
    m.Values == Range(|m|) && Injective(m)
  }

  ghost predicate Injective<K>(m: map<K, int>) {
    forall a, b :: a in m && b in m && a != b ==> m[a] != m[b]
  }

  lemma NextIdDense<K>(m: map<K, int>, key: K)
    requires DenseIds(m)
    ensures DenseIds(NextId(m, key).0)
  {
    if key !in m {
      AddedValues(m, key);
      AddedDistinct(m, key);
    }
  }

  /** A new key with id |m| + 1 adds that id to the ids. */
  lemma AddedValues<K>(m: map<K, int>, key: K)
    requires key !in m && m.Values == Range(|m|)
    ensures |m[key := |m| + 1]| == |m| + 1
    ensures m[key := |m| + 1].Values == Range(|m| + 1)
  {
    var r := m[key := |m| + 1];
    assert r.Keys == m.Keys + {key};
    forall v | v in r.Values ensures v in m.Values + {|m| + 1} {
      var k :| k in r && r[k] == v;
      if k != key {
        assert k in m && m[k] == v;
      }
    }
    forall v | v in m.Values ensures v in r.Values {
      var k :| k in m && m[k] == v;
      assert k in r && r[k] == v;
    }
    assert key in r && r[key] == |m| + 1;
  }

  /** ... and keeps the ids distinct, since |m| + 1 is not an id of `m`. */
  lemma AddedDistinct<K>(m: map<K, int>, key: K)
    requires DenseIds(m) && key !in m
    ensures Injective(m[key := |m| + 1])
  {
    var r := m[key := |m| + 1];
    forall a, b | a in r && b in r && a != b ensures r[a] != r[b] {
      if a != key && b != key {
        assert m[a] in m.Values && m[b] in m.Values;
      } else if a == key {
        assert m[b] in m.Values;
      } else {
        assert m[a] in m.Values;
      }
    }
  }

  /** Ids handed out, one `_next_id` call per key in order, starting from
      an empty mapping. */
  function AssignIds<K(==)>(keys: seq<K>): (m: map<K, int>)
    ensures m.Keys == set k | k in keys
  {
    if |keys| == 0 then map[]
    else
      var p := keys[..|keys| - 1];
      assert keys == p + [keys[|keys| - 1]];
      NextId(AssignIds(p), keys[|keys| - 1]).0
  }

  /** However the keys repeat, the ids are distinct and equal 1..n. */
  lemma {:induction false} AssignIdsDense<K>(keys: seq<K>)
    ensures DenseIds(AssignIds(keys))
    decreases |keys|
  {
    if |keys| == 0 {
      assert AssignIds(keys).Values == {};
    } else {
      var p := keys[..|keys| - 1];
      AssignIdsDense(p);
      NextIdDense(AssignIds(p), keys[|keys| - 1]);
    }
  }

  /** A key keeps the id it was first given. */
  lemma {:induction false} AssignIdsStable<K>(keys: seq<K>, more: seq<K>, k: K)
    requires k in keys
    ensures AssignIds(keys + more)[k] == AssignIds(keys)[k]
    decreases |more|
  {
    if |more| > 0 {
      var p := more[..|more| - 1];
      assert (keys + more)[..|keys + more| - 1] == keys + p;
      AssignIdsStable(keys, p, k);
    } else {
      assert keys + more == keys;
    }
  }

  // ---------------------------------------------------------------
  // ElsetMerger
  // ---------------------------------------------------------------

  function DesignsOf(s: seq<Elset>): (r: seq<Rec>)
    ensures |r| == |s| && forall k :: 0 <= k < |s| ==> r[k] == s[k].data.design
  {
    seq(|s|, k requires 0 <= k < |s| => s[k].data.design)
  }

  function SectionsOf(s: seq<Elset>): (r: seq<Rec>)
    ensures |r| == |s| && forall k :: 0 <= k < |s| ==> r[k] == s[k].data.section
  {
    seq(|s|, k requires 0 <= k < |s| => s[k].data.section)
  }

  /** The section for a design: the imported one with the design's name,
      else the existing one. */
  function SectionFor(n: string, exSections: seq<Rec>, imSections: seq<Rec>): (r: Option<Rec>)
    ensures r.None? <==> n !in NameSet(imSections) && n !in NameSet(exSections)
    ensures r.Some? ==> r.value.data.name == n
    ensures n in NameSet(imSections) ==> r == Find(imSections, n)
    ensures n !in NameSet(imSections) ==> r == Find(exSections, n)
  {
    var s := Find(imSections, n);
    if s.Some? then s else Find(exSections, n)
  }

  /** `_sections_by_design_order`: one section per merged design, in
      design order; KeyError when some design has no section on either
      side. */
  function SectionsByDesignOrder(designs: seq<Rec>, exSections: seq<Rec>, imSections: seq<Rec>): (r: Result<seq<Rec>>)
    ensures r.Ok? <==> forall k :: 0 <= k < |designs| ==> SectionFor(designs[k].data.name, exSections, imSections).Some?
    ensures r.Err? ==> r.error == KeyError
    ensures r.Ok? ==> (|r.value| == |designs| &&
              forall k :: 0 <= k < |designs| ==>
                Some(r.value[k]) == SectionFor(designs[k].data.name, exSections, imSections))
  {
    if |designs| == 0 then Ok([])
    else
      var p := designs[..|designs| - 1];
      var d := designs[|designs| - 1];
      var rest := SectionsByDesignOrder(p, exSections, imSections);
      var s := SectionFor(d.data.name, exSections, imSections);
      if rest.Err? then Err(KeyError)
      else if s.None? then Err(KeyError)
      else Ok(rest.value + [s.value])
  }

  /** The elset a design takes its material and texture from: the
      imported one for that design, else the existing one. */
  function ChosenElset(d: Rec, existing: Coll<ElsetData>, imported: Coll<ElsetData>): (r: Option<Elset>)
    ensures r.None? <==> GetByDesign(imported, ByDesign(d)).None? && GetByDesign(existing, ByDesign(d)).None?
    ensures GetByDesign(imported, ByDesign(d)).Some? ==> r == GetByDesign(imported, ByDesign(d))
    ensures GetByDesign(imported, ByDesign(d)).None? ==> r == GetByDesign(existing, ByDesign(d))
  {
    var imp := GetByDesign(imported, ByDesign(d));
    if imp.Some? then imp else GetByDesign(existing, ByDesign(d))
  }

  /** One step of `_rebuild_elsets`: the elset numbered `idx` for design
      `d`, and the section copy it carries. */
  function RebuildOne(d: Rec, idx: int, sections: seq<Rec>, materials: seq<Rec>,
                      existing: Coll<ElsetData>, imported: Coll<ElsetData>): (r: Result<(Elset, Rec)>)
    ensures r.Err? ==> r.error == KeyError
    ensures r.Ok? <==>
              Find(sections, d.data.name).Some? &&
              ChosenElset(d, existing, imported).Some? &&
              Find(materials, ChosenElset(d, existing, imported).value.data.material.data.name).Some?
    ensures r.Ok? ==>
              var chosen := ChosenElset(d, existing, imported).value;
              var e := r.value.0;
              e.index == idx && e.data.design == d &&
              e.data.texture == chosen.data.texture &&
              e.data.section == r.value.1 &&
              r.value.1 == Entity(idx, Find(sections, d.data.name).value.data) &&
              Some(e.data.material) == Find(materials, chosen.data.material.data.name)
  {
    var sec := Find(sections, d.data.name);
    if sec.None? then Err(KeyError)
    else
      var secNew := Entity(idx, sec.value.data);
      var chosen := ChosenElset(d, existing, imported);
      if chosen.None? then Err(KeyError)
      else
        var mat := Find(materials, chosen.value.data.material.data.name);
        if mat.None? then Err(KeyError)
        else Ok((Entity(idx, ElsetData(mat.value, secNew, d, chosen.value.data.texture)), secNew))
  }

  /** `_rebuild_elsets`: the k-th merged design (counting from 1) becomes
      elset k.  Returns the elsets and the re-indexed sections. */
  function RebuildElsets(designs: seq<Rec>, sections: seq<Rec>, materials: seq<Rec>,
                         existing: Coll<ElsetData>, imported: Coll<ElsetData>): (r: Result<(seq<Elset>, seq<Rec>)>)
    ensures r.Err? ==> r.error == KeyError
    ensures r.Ok? ==> |r.value.0| == |designs| && |r.value.1| == |designs|
  {
    AllSteps(RebuildSteps(designs, sections, materials, existing, imported))
  }

  /** The rebuild step of every design, numbered from 1. */
  function RebuildSteps(designs: seq<Rec>, sections: seq<Rec>, materials: seq<Rec>,
                        existing: Coll<ElsetData>, imported: Coll<ElsetData>): (r: seq<Result<(Elset, Rec)>>)
    ensures |r| == |designs|
    ensures forall k :: 0 <= k < |designs| ==> r[k] == RebuildOne(designs[k], k + 1, sections, materials, existing, imported)
  {
    seq(|designs|, k requires 0 <= k < |designs| => RebuildOne(designs[k], k + 1, sections, materials, existing, imported))
  }

  /** The results of the steps when every step succeeds; KeyError, the
      only error a rebuild step raises, otherwise. */
  function AllSteps<T, U>(steps: seq<Result<(T, U)>>): (r: Result<(seq<T>, seq<U>)>)
    ensures r.Ok? <==> forall k :: 0 <= k < |steps| ==> steps[k].Ok?
    ensures r.Err? ==> r.error == KeyError
    ensures r.Ok? ==> |r.value.0| == |steps| && |r.value.1| == |steps| &&
                      forall k :: 0 <= k < |steps| ==> steps[k] == Ok((r.value.0[k], r.value.1[k]))
  {
    if forall k :: 0 <= k < |steps| ==> steps[k].Ok? then
      Ok((seq(|steps|, k requires 0 <= k < |steps| => steps[k].value.0),
          seq(|steps|, k requires 0 <= k < |steps| => steps[k].value.1)))
    else Err(KeyError)
  }

  /** The rebuild succeeds exactly when every design's step does. */
  lemma RebuildElsetsOk(designs: seq<Rec>, sections: seq<Rec>, materials: seq<Rec>,
                        existing: Coll<ElsetData>, imported: Coll<ElsetData>)
    ensures RebuildElsets(designs, sections, materials, existing, imported).Ok? <==>
              forall k :: 0 <= k < |designs| ==> RebuildOne(designs[k], k + 1, sections, materials, existing, imported).Ok?
  {
    var steps := RebuildSteps(designs, sections, materials, existing, imported);
    assert forall k :: 0 <= k < |designs| ==> steps[k] == RebuildOne(designs[k], k + 1, sections, materials, existing, imported);
  }

  /** The k-th rebuilt elset and section are the k-th step's. */
  lemma RebuildElsetsAt(designs: seq<Rec>, sections: seq<Rec>, materials: seq<Rec>,
                        existing: Coll<ElsetData>, imported: Coll<ElsetData>, k: nat)
    requires RebuildElsets(designs, sections, materials, existing, imported).Ok?
    requires k < |designs|
    ensures var r := RebuildElsets(designs, sections, materials, existing, imported).value;
            RebuildOne(designs[k], k + 1, sections, materials, existing, imported) == Ok((r.0[k], r.1[k]))
  {
  }

  datatype ElsetMergeResult = ElsetMergeResult(
    elsets: seq<Elset>,
    materials: Coll<Named>,
    sections: seq<Rec>,
    designs: Coll<Named>,
    designReorder: map<int, int>)

  /** The design merge inside `ElsetMerger.merge`: the designs of both
      sides merged with `remove_missing=False`. */
  function DesignMerge(existing: Coll<ElsetData>, imported: Coll<ElsetData>,
                       designKey: Named -> Key, used: set<int>): MergeResult
  {
    MergeAndReorder(FromSeq(DesignsOf(existing.objects)), FromSeq(DesignsOf(imported.objects)),
                    designKey, false, used)
  }

  /** `ElsetMerger.merge`.  The sort keys of the material and design
      merges are parameters (they are `MaterialsComparer.get_sort_key` and
      `DesignsComparer.get_sort_key` in the source). */
  function MergeElsets(existing: Coll<ElsetData>, imported: Coll<ElsetData>,
                       exMaterials: Coll<Named>, imMaterials: Coll<Named>,
                       used: set<int>, materialKey: Named -> Key, designKey: Named -> Key): (r: Result<ElsetMergeResult>)
    ensures r.Err? ==> r.error == KeyError
    ensures r.Ok? ==> r.value.designReorder == DesignMerge(existing, imported, designKey, used).reorder
    ensures r.Ok? ==> r.value.designs == DesignMerge(existing, imported, designKey, used).coll
    ensures r.Ok? ==> r.value.materials == MergeAndReorder(exMaterials, imMaterials, materialKey, false, {}).coll
  {
    MergeElsetsFrom(MergeAndReorder(exMaterials, imMaterials, materialKey, false, {}).coll,
                    DesignMerge(existing, imported, designKey, used), existing, imported)
  }

  /** Steps 3 and 4 of the merge, given the merged materials and the
      design merge. */
  function MergeElsetsFrom(mats: Coll<Named>, dm: MergeResult,
                           existing: Coll<ElsetData>, imported: Coll<ElsetData>): (r: Result<ElsetMergeResult>)
    ensures r.Err? ==> r.error == KeyError
    ensures r.Ok? ==> r.value.designReorder == dm.reorder && r.value.designs == dm.coll && r.value.materials == mats
    ensures r.Ok? ==> |r.value.elsets| == |r.value.designs.objects| == |r.value.sections|
  {
    var secs :- SectionsByDesignOrder(dm.coll.objects, SectionsOf(existing.objects), SectionsOf(imported.objects));
    var rebuilt :- RebuildElsets(dm.coll.objects, secs, mats.objects, existing, imported);
    Ok(ElsetMergeResult(rebuilt.0, mats, rebuilt.1, dm.coll, dm.reorder))
  }

  /** Once every design has a section, the rebuild finds, for the k-th
      design, exactly the k-th ordered section: merged designs have
      distinct names. */
  lemma RebuildFindsOrderedSection(designs: seq<Rec>, secs: seq<Rec>, k: nat)
    requires DistinctNames(designs)
    requires |secs| == |designs| && forall j :: 0 <= j < |designs| ==> secs[j].data.name == designs[j].data.name
    requires k < |designs|
    ensures Find(secs, designs[k].data.name) == Some(secs[k])
  {
    assert DistinctNames(secs) by {
      forall i, j | 0 <= i < j < |secs| ensures secs[i].data.name != secs[j].data.name {
        assert designs[i].data.name != designs[j].data.name;
      }
    }
    assert secs[k] in secs;
    FindDistinct(secs, secs[k]);
  }

  /** The stages of a successful elset merge. */
  lemma MergeElsetsStages(mats: Coll<Named>, dm: MergeResult,
                          existing: Coll<ElsetData>, imported: Coll<ElsetData>)
    returns (secs: seq<Rec>)
    requires MergeElsetsFrom(mats, dm, existing, imported).Ok?
    ensures var res := MergeElsetsFrom(mats, dm, existing, imported).value;
            SectionsByDesignOrder(dm.coll.objects, SectionsOf(existing.objects), SectionsOf(imported.objects)) == Ok(secs) &&
            RebuildElsets(dm.coll.objects, secs, mats.objects, existing, imported) == Ok((res.elsets, res.sections))
  {
    secs := SectionsByDesignOrder(dm.coll.objects, SectionsOf(existing.objects), SectionsOf(imported.objects)).value;
  }

  /** The k-th merged elset has index k+1 and the k-th merged design,
      which carries index k+1 too; its texture is that of the imported
      (else existing) elset for the design, and its material is the
      merged material named like that elset's material. */
  lemma MergeElsetsSource(existing: Coll<ElsetData>, imported: Coll<ElsetData>,
                          exMaterials: Coll<Named>, imMaterials: Coll<Named>,
                          used: set<int>, materialKey: Named -> Key, designKey: Named -> Key, k: nat)
    requires MergeElsets(existing, imported, exMaterials, imMaterials, used, materialKey, designKey).Ok?
    requires k < |MergeElsets(existing, imported, exMaterials, imMaterials, used, materialKey, designKey).value.elsets|
    ensures var res := MergeElsets(existing, imported, exMaterials, imMaterials, used, materialKey, designKey).value;
            var d := res.designs.objects[k];
            var e := res.elsets[k];
            var chosen := ChosenElset(d, existing, imported);
            e.index == k + 1 && d.index == k + 1 && e.data.design == d &&
            chosen.Some? && e.data.texture == chosen.value.data.texture &&
            Some(e.data.material) == Find(res.materials.objects, chosen.value.data.material.data.name)
  {
    var mats := MergeAndReorder(exMaterials, imMaterials, materialKey, false, {}).coll;
    var dm := DesignMerge(existing, imported, designKey, used);
    var res := MergeElsetsFrom(mats, dm, existing, imported).value;
    var secs := MergeElsetsStages(mats, dm, existing, imported);
    RebuildElsetsAt(dm.coll.objects, secs, mats.objects, existing, imported, k);
  }

  /** The k-th merged elset's section is the k-th returned section: the
      imported (else existing) section named like the k-th design,
      re-indexed to k+1. */
  lemma MergeElsetsSection(existing: Coll<ElsetData>, imported: Coll<ElsetData>,
                           exMaterials: Coll<Named>, imMaterials: Coll<Named>,
                           used: set<int>, materialKey: Named -> Key, designKey: Named -> Key, k: nat)
    requires MergeElsets(existing, imported, exMaterials, imMaterials, used, materialKey, designKey).Ok?
    requires k < |MergeElsets(existing, imported, exMaterials, imMaterials, used, materialKey, designKey).value.elsets|
    ensures var res := MergeElsets(existing, imported, exMaterials, imMaterials, used, materialKey, designKey).value;
            var n := res.designs.objects[k].data.name;
            var src := SectionFor(n, SectionsOf(existing.objects), SectionsOf(imported.objects));
            src.Some? &&
            res.sections[k] == res.elsets[k].data.section == Entity(k + 1, src.value.data)
  {
    var mats := MergeAndReorder(exMaterials, imMaterials, materialKey, false, {}).coll;
    var dm := DesignMerge(existing, imported, designKey, used);
    MergeOrder(FromSeq(DesignsOf(existing.objects)), FromSeq(DesignsOf(imported.objects)), designKey, false, used);
    SectionAt(mats, dm, existing, imported, k);
  }

  lemma SectionAt(mats: Coll<Named>, dm: MergeResult, existing: Coll<ElsetData>, imported: Coll<ElsetData>, k: nat)
    requires MergeElsetsFrom(mats, dm, existing, imported).Ok?
    requires DistinctNames(dm.coll.objects)
    requires k < |dm.coll.objects|
    ensures var res := MergeElsetsFrom(mats, dm, existing, imported).value;
            var src := SectionFor(dm.coll.objects[k].data.name, SectionsOf(existing.objects), SectionsOf(imported.objects));
            src.Some? &&
            res.sections[k] == res.elsets[k].data.section == Entity(k + 1, src.value.data)
  {
    var res := MergeElsetsFrom(mats, dm, existing, imported).value;
    var secs := MergeElsetsStages(mats, dm, existing, imported);
    SectionAtStage(dm.coll.objects, SectionsOf(existing.objects), SectionsOf(imported.objects), secs,
                   mats.objects, existing, imported, res.elsets, res.sections, k);
  }

  /** `SectionAt` over the two stages of the merge. */
  lemma SectionAtStage(designs: seq<Rec>, exSections: seq<Rec>, imSections: seq<Rec>, secs: seq<Rec>,
                       materials: seq<Rec>, existing: Coll<ElsetData>, imported: Coll<ElsetData>,
                       elsets: seq<Elset>, sections: seq<Rec>, k: nat)
    requires SectionsByDesignOrder(designs, exSections, imSections) == Ok(secs)
    requires RebuildElsets(designs, secs, materials, existing, imported) == Ok((elsets, sections))
    requires DistinctNames(designs) && k < |designs|
    ensures var src := SectionFor(designs[k].data.name, exSections, imSections);
            src.Some? && k < |sections| && k < |elsets| &&
            sections[k] == elsets[k].data.section == Entity(k + 1, src.value.data)
  {
    RebuildElsetsAt(designs, secs, materials, existing, imported, k);
    RebuildFindsOrderedSection(designs, secs, k);
    RebuiltSection(designs[k], k + 1, secs, materials, existing, imported, elsets[k], sections[k], secs[k]);
  }

  /** The section a rebuilt elset carries is the one found for its
      design, renumbered. */
  lemma RebuiltSection(d: Rec, idx: int, secs: seq<Rec>, materials: seq<Rec>,
                       existing: Coll<ElsetData>, imported: Coll<ElsetData>, e: Elset, s: Rec, found: Rec)
    requires RebuildOne(d, idx, secs, materials, existing, imported) == Ok((e, s))
    requires Find(secs, d.data.name) == Some(found)
    ensures s == e.data.section == Entity(idx, found.data)
  {
  }

  /** No design is lost: the merged designs carry exactly the design
      names of both sides, each once. */
  lemma MergeElsetsDesignNames(existing: Coll<ElsetData>, imported: Coll<ElsetData>,
                               exMaterials: Coll<Named>, imMaterials: Coll<Named>,
                               used: set<int>, materialKey: Named -> Key, designKey: Named -> Key)
    requires MergeElsets(existing, imported, exMaterials, imMaterials, used, materialKey, designKey).Ok?
    ensures var ds := MergeElsets(existing, imported, exMaterials, imMaterials, used, materialKey, designKey).value.designs.objects;
            NameSet(ds) == NameSet(DesignsOf(existing.objects)) + NameSet(DesignsOf(imported.objects)) &&
            DistinctNames(ds)
  {
    DesignMergeNames(existing, imported, designKey, used);
  }

  lemma DesignMergeNames(existing: Coll<ElsetData>, imported: Coll<ElsetData>, designKey: Named -> Key, used: set<int>)
    ensures var ds := DesignMerge(existing, imported, designKey, used).coll.objects;
            NameSet(ds) == NameSet(DesignsOf(existing.objects)) + NameSet(DesignsOf(imported.objects)) &&
            DistinctNames(ds)
  {
    var ex := FromSeq(DesignsOf(existing.objects));
    var im := FromSeq(DesignsOf(imported.objects));
    MergeOrder(ex, im, designKey, false, used);
    forall n ensures n in NameSet(DesignMerge(existing, imported, designKey, used).coll.objects) <==>
                       n in NameSet(ex.objects) + NameSet(im.objects) {
      MergeNames(ex, im, designKey, false, used, n);
    }
  }

  /** Every merged design comes from some elset, so the "No elset found"
      KeyError of the rebuild cannot happen. */
  lemma ChosenAlwaysFound(existing: Coll<ElsetData>, imported: Coll<ElsetData>,
                          designKey: Named -> Key, used: set<int>, k: nat)
    requires k < |DesignMerge(existing, imported, designKey, used).coll.objects|
    ensures ChosenElset(DesignMerge(existing, imported, designKey, used).coll.objects[k], existing, imported).Some?
  {
    var ex := FromSeq(DesignsOf(existing.objects));
    var im := FromSeq(DesignsOf(imported.objects));
    var ds := DesignMerge(existing, imported, designKey, used).coll.objects;
    assert ds[k] in ds;
    MergeNames(ex, im, designKey, false, used, ds[k].data.name);
    ChosenForKnownName(existing, imported, ds[k]);
  }

  lemma ChosenForKnownName(existing: Coll<ElsetData>, imported: Coll<ElsetData>, d: Rec)
    requires d.data.name in NameSet(DesignsOf(existing.objects)) + NameSet(DesignsOf(imported.objects))
    ensures ChosenElset(d, existing, imported).Some?
  {
    var n := d.data.name;
    if n in NameSet(DesignsOf(imported.objects)) {
      var x :| x in DesignsOf(imported.objects) && x.data.name == n;
      var j :| 0 <= j < |imported.objects| && DesignsOf(imported.objects)[j] == x;
      assert DesignName(imported.objects[j]) == n;
    } else {
      var x :| x in DesignsOf(existing.objects) && x.data.name == n;
      var j :| 0 <= j < |existing.objects| && DesignsOf(existing.objects)[j] == x;
      assert DesignName(existing.objects[j]) == n;
    }
  }
}
