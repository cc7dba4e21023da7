/** Section properties derived from elsets: the (material, section,
    design) type-name table that picks a property class, the conversion of
    one elset and of a whole elset collection, grouping by class, and the
    de-duplication by name that the spreadsheet loader applies. */
module SectionProps {
  import opened Wrappers
  import opened Text
  import opened Store
  import opened Merge
  import opened Elsets

  /** The seven section-property classes. */
  datatype PropKind =
    | ConcreteSlab
    | ConcreteBeam
    | ConcreteBiaxialColumn
    | ConcreteTeeColumn
    | ConcreteCircularColumn
    | ConcreteWall
    | SteelFrame

  /** The Python class name of a kind, as `split_by_class` reads it. */
  function ClassName(k: PropKind): string {
    match k
    case ConcreteSlab => "SectionPropertyConcreteSlab"
    case ConcreteBeam => "SectionPropertyConcreteBeam"
    case ConcreteBiaxialColumn => "SectionPropertyConcreteBiaxialColumn"
    case ConcreteTeeColumn => "SectionPropertyConcreteTeeColumn"
    case ConcreteCircularColumn => "SectionPropertyConcreteCircularColumn"
    case ConcreteWall => "SectionPropertyConcreteWall"
    case SteelFrame => "SectionPropertySteelFrame"
  }

  /** A section property: the elset it came from, the section's name and
      the material's name.  The design-dependent fields are not modelled. */
  datatype SectionProp = SectionProp(kind: PropKind, index: int, name: string, material: string)

  datatype TypeTriple = TypeTriple(material: string, section: string, design: string)

  /** The table from upper-cased type names to a property class. */
  function KindOf(t: TypeTriple): (r: Option<PropKind>)
    ensures r.Some? ==> t.material == "ISOTROPIC"
  {
    if t.material != "ISOTROPIC" then None
    else if t.section == "THICKNESS" && t.design == "CONCRETE_SLAB" then Some(ConcreteSlab)
    else if t.section == "RECT" && t.design == "CONCRETE_GIRDER" then Some(ConcreteBeam)
    else if t.section == "RECT" && t.design == "CONCRETE_BCOL" then Some(ConcreteBiaxialColumn)
    else if t.section == "TEE" && t.design == "CONCRETE_TCOL" then Some(ConcreteTeeColumn)
    else if t.section == "CIRCLE" && t.design == "CONCRETE_CCOL" then Some(ConcreteCircularColumn)
    else if t.section == "THICKNESS" && t.design == "CONCRETE_WALL" then Some(ConcreteWall)
    else if t.section == "USER" && t.design == "STEEL_FRAME" then Some(SteelFrame)
    else None
  }

  /** The one triple the table maps to each kind. */
  function TripleOf(k: PropKind): TypeTriple {
    match k
    case ConcreteSlab => TypeTriple("ISOTROPIC", "THICKNESS", "CONCRETE_SLAB")
    case ConcreteBeam => TypeTriple("ISOTROPIC", "RECT", "CONCRETE_GIRDER")
    case ConcreteBiaxialColumn => TypeTriple("ISOTROPIC", "RECT", "CONCRETE_BCOL")
    case ConcreteTeeColumn => TypeTriple("ISOTROPIC", "TEE", "CONCRETE_TCOL")
    case ConcreteCircularColumn => TypeTriple("ISOTROPIC", "CIRCLE", "CONCRETE_CCOL")
    case ConcreteWall => TypeTriple("ISOTROPIC", "THICKNESS", "CONCRETE_WALL")
    case SteelFrame => TypeTriple("ISOTROPIC", "USER", "STEEL_FRAME")
  }

  /** The table is a bijection between its seven triples and the seven
      kinds: every kind is reached, and only from its own triple. */
  lemma KindOfInverse(t: TypeTriple, k: PropKind)
    ensures KindOf(TripleOf(k)) == Some(k)
    ensures KindOf(t) == Some(k) ==> t == TripleOf(k)
  {
  }

  /** Class names tell kinds apart. */
  lemma ClassNameInjective(a: PropKind, b: PropKind)
    ensures ClassName(a) == ClassName(b) ==> a == b
  {
    if a != b {
      assert ClassName(a)[15..] != ClassName(b)[15..];
    }
  }

  /** The `type_name` attribute of a stored object, None when it has none
      (or has one that is not text). */
  function TypeName(d: Named): (r: Option<string>)
    ensures r.Some? <==> "type_name" in d.attrs && d.attrs["type_name"].Str?
  {
    if "type_name" in d.attrs && d.attrs["type_name"].Str? then Some(d.attrs["type_name"].s) else None
  }

  /** The upper-cased type-name triple of three looked-up objects; None is
      the AttributeError of reading `type_name` from a missing object. */
  function Triple(mat: Option<Rec>, sec: Option<Rec>, des: Option<Rec>): (r: Option<TypeTriple>)
    ensures r.Some? <==>
      && mat.Some? && sec.Some? && des.Some?
      && TypeName(mat.value.data).Some? && TypeName(sec.value.data).Some? && TypeName(des.value.data).Some?
    ensures r.Some? ==>
      && r.value.material == Upper(TypeName(mat.value.data).value)
      && r.value.section == Upper(TypeName(sec.value.data).value)
      && r.value.design == Upper(TypeName(des.value.data).value)
  {
    if mat.None? || sec.None? || des.None? then None
    else
      match (TypeName(mat.value.data), TypeName(sec.value.data), TypeName(des.value.data))
      case (Some(m), Some(s), Some(d)) => Some(TypeTriple(Upper(m), Upper(s), Upper(d)))
      case _ => None
  }

  /** `from_elset`: look up the elset's material, section and design by
      index, pick the class from their type names, and build the property
      from the elset's index, the section's name and the material's name. */
  function FromElset(materials: Option<Coll<Named>>, sections: Option<Coll<Named>>,
                     designs: Option<Coll<Named>>, e: Elset): (r: Result<SectionProp>)
    ensures r == Err(RuntimeError) <==> materials.None? || sections.None? || designs.None?
    ensures r.Err? ==> r.error in {RuntimeError, AttributeError, ValueError}
    ensures r.Ok? ==>
      var mat := Get(materials.value, e.data.material.index);
      var sec := Get(sections.value, e.data.section.index);
      var des := Get(designs.value, e.data.design.index);
      && mat.Some? && sec.Some? && des.Some?
      && r.value.index == e.index
      && r.value.name == sec.value.data.name
      && r.value.material == mat.value.data.name
      && Triple(mat, sec, des) == Some(TripleOf(r.value.kind))
    ensures r == Err(ValueError) ==>
      var t := Triple(Get(materials.value, e.data.material.index), Get(sections.value, e.data.section.index),
                      Get(designs.value, e.data.design.index));
      t.Some? && KindOf(t.value).None?
  {
    if materials.None? || sections.None? || designs.None? then Err(RuntimeError)
    else
      var mat := Get(materials.value, e.data.material.index);
      var sec := Get(sections.value, e.data.section.index);
      var des := Get(designs.value, e.data.design.index);
      match Triple(mat, sec, des)
      case None => Err(AttributeError)
      case Some(t) =>
        match KindOf(t)
        case None => Err(ValueError)
        case Some(k) =>
          KindOfInverse(t, k);
          Ok(SectionProp(k, e.index, sec.value.data.name, mat.value.data.name))
  }

  /** The property of the elset stored under `idx`, or nothing when `get`
      misses it or the conversion rejects it. */
  function Convert(materials: Coll<Named>, sections: Coll<Named>, designs: Coll<Named>,
                   elsets: Coll<ElsetData>, idx: int): (r: seq<SectionProp>)
    ensures |r| <= 1
    ensures forall p :: p in r <==> Converted(materials, sections, designs, elsets, idx, p)
  {
    var e := Get(elsets, idx);
    if e.None? then []
    else
      match FromElset(Some(materials), Some(sections), Some(designs), e.value)
      case Ok(p) => [p]
      case Err(_) => []
  }

  /** The elset stored under `idx` converts to `p`. */
  predicate Converted(materials: Coll<Named>, sections: Coll<Named>, designs: Coll<Named>,
                      elsets: Coll<ElsetData>, idx: int, p: SectionProp)
  {
    var e := Get(elsets, idx);
    e.Some? && FromElset(Some(materials), Some(sections), Some(designs), e.value) == Ok(p)
  }

  /** Some index of `idxs` holds an elset that converts to `p`. */
  predicate ConvertsAny(materials: Coll<Named>, sections: Coll<Named>, designs: Coll<Named>,
                        elsets: Coll<ElsetData>, idxs: seq<int>, p: SectionProp)
  {
    exists k :: 0 <= k < |idxs| && Converted(materials, sections, designs, elsets, idxs[k], p)
  }

  /** The properties of the elsets under `idxs`, in that order, skipping
      every elset the conversion rejects (and any index `get` misses). */
  function Collect(materials: Coll<Named>, sections: Coll<Named>, designs: Coll<Named>,
                   elsets: Coll<ElsetData>, idxs: seq<int>): (r: seq<SectionProp>)
    ensures |r| <= |idxs|
  {
    if |idxs| == 0 then []
    else Convert(materials, sections, designs, elsets, idxs[0]) + Collect(materials, sections, designs, elsets, idxs[1..])
  }

  /** What `Collect` returns is exactly what the elsets under `idxs`
      convert to. */
  lemma {:induction false} CollectMembers(materials: Coll<Named>, sections: Coll<Named>, designs: Coll<Named>,
                                          elsets: Coll<ElsetData>, idxs: seq<int>, p: SectionProp)
    ensures p in Collect(materials, sections, designs, elsets, idxs)
        <==> ConvertsAny(materials, sections, designs, elsets, idxs, p)
    decreases |idxs|
  {
    if |idxs| > 0 {
      CollectMembers(materials, sections, designs, elsets, idxs[1..], p);
      ConvertsAnyCons(materials, sections, designs, elsets, idxs, p);
    }
  }

  lemma ConvertsAnyCons(materials: Coll<Named>, sections: Coll<Named>, designs: Coll<Named>,
                        elsets: Coll<ElsetData>, idxs: seq<int>, p: SectionProp)
    requires |idxs| > 0
    ensures ConvertsAny(materials, sections, designs, elsets, idxs, p)
        <==> Converted(materials, sections, designs, elsets, idxs[0], p)
             || ConvertsAny(materials, sections, designs, elsets, idxs[1..], p)
  {
    if ConvertsAny(materials, sections, designs, elsets, idxs, p) {
      var k :| 0 <= k < |idxs| && Converted(materials, sections, designs, elsets, idxs[k], p);
      if k > 0 {
        assert idxs[1..][k - 1] == idxs[k];
      }
    }
    if ConvertsAny(materials, sections, designs, elsets, idxs[1..], p) {
      var k :| 0 <= k < |idxs[1..]| && Converted(materials, sections, designs, elsets, idxs[1..][k], p);
      assert idxs[k + 1] == idxs[1..][k];
    }
  }

  /** `from_elsets`: one property per convertible elset, in ascending elset
      index order; RuntimeError when a collection is missing. */
  function FromElsets(materials: Option<Coll<Named>>, sections: Option<Coll<Named>>,
                      designs: Option<Coll<Named>>, elsets: Coll<ElsetData>): (r: Result<seq<SectionProp>>)
    ensures r.Err? <==> materials.None? || sections.None? || designs.None?
    ensures r.Err? ==> r.error == RuntimeError
  {
    if materials.None? || sections.None? || designs.None? then Err(RuntimeError)
    else Ok(Collect(materials.value, sections.value, designs.value, elsets, IndexList(elsets)))
  }

  /** A property is in what `from_elsets` returns exactly when some stored
      elset converts to it. */
  lemma FromElsetsMembers(materials: Coll<Named>, sections: Coll<Named>, designs: Coll<Named>,
                          elsets: Coll<ElsetData>, p: SectionProp)
    ensures p in FromElsets(Some(materials), Some(sections), Some(designs), elsets).value
        <==> exists i :: i in elsets.byIndex && Converted(materials, sections, designs, elsets, i, p)
  {
    var idxs := IndexList(elsets);
    CollectMembers(materials, sections, designs, elsets, idxs, p);
    if exists i :: i in elsets.byIndex && Converted(materials, sections, designs, elsets, i, p) {
      var i :| i in elsets.byIndex && Converted(materials, sections, designs, elsets, i, p);
      assert i in idxs;
      var k :| 0 <= k < |idxs| && idxs[k] == i;
      assert ConvertsAny(materials, sections, designs, elsets, idxs, p);
    }
    if ConvertsAny(materials, sections, designs, elsets, idxs, p) {
      var k :| 0 <= k < |idxs| && Converted(materials, sections, designs, elsets, idxs[k], p);
      assert idxs[k] in elsets.byIndex;
    }
  }

  /** Indices of a list of properties, in order. */
  function Indices(ps: seq<SectionProp>): (r: seq<int>)
    ensures |r| == |ps| && forall k :: 0 <= k < |ps| ==> r[k] == ps[k].index
  {
    seq(|ps|, k requires 0 <= k < |ps| => ps[k].index)
  }

  /** In a consistent collection a converted elset keeps its index. */
  lemma ConvertIndex(materials: Coll<Named>, sections: Coll<Named>, designs: Coll<Named>,
                     elsets: Coll<ElsetData>, idx: int)
    requires Consistent(elsets)
    ensures forall p :: p in Convert(materials, sections, designs, elsets, idx) ==> p.index == idx
  {
    GetConsistent(elsets, idx);
  }

  /** No index of `ps` falls outside `idxs`. */
  ghost predicate IndicesIn(ps: seq<SectionProp>, idxs: seq<int>) {
    forall p :: p in ps ==> p.index in idxs
  }

  /** A head below every later index keeps indices increasing. */
  lemma IncreasingFront(h: seq<SectionProp>, rest: seq<SectionProp>, lo: int)
    requires |h| <= 1 && forall p :: p in h ==> p.index == lo
    requires Increasing(Indices(rest)) && forall p :: p in rest ==> lo < p.index
    ensures Increasing(Indices(h + rest))
  {
    var r := h + rest;
    forall a, b | 0 <= a < b < |r|
      ensures Indices(r)[a] < Indices(r)[b]
    {
      assert r[b] == rest[b - |h|];
      if a >= |h| {
        assert r[a] == rest[a - |h|];
        assert Indices(rest)[a - |h|] < Indices(rest)[b - |h|];
      } else {
        assert r[a] in h;
      }
    }
  }

  /** Under an increasing `idxs`, every index drawn from its tail is above
      its head. */
  lemma AboveHead(idxs: seq<int>, rest: seq<SectionProp>)
    requires |idxs| > 0 && Increasing(idxs) && IndicesIn(rest, idxs[1..])
    ensures forall p :: p in rest ==> idxs[0] < p.index
  {
    forall p | p in rest
      ensures idxs[0] < p.index
    {
      var k :| 0 <= k < |idxs[1..]| && idxs[1..][k] == p.index;
      assert idxs[k + 1] == p.index;
    }
  }

  /** Visiting the elsets by increasing index, in a consistent collection
      the properties come out in strictly increasing elset-index order. */
  lemma {:induction false} CollectIncreasing(materials: Coll<Named>, sections: Coll<Named>, designs: Coll<Named>,
                                             elsets: Coll<ElsetData>, idxs: seq<int>)
    requires Consistent(elsets) && Increasing(idxs)
    ensures Increasing(Indices(Collect(materials, sections, designs, elsets, idxs)))
    ensures IndicesIn(Collect(materials, sections, designs, elsets, idxs), idxs)
    decreases |idxs|
  {
    if |idxs| > 0 {
      var h := Convert(materials, sections, designs, elsets, idxs[0]);
      var rest := Collect(materials, sections, designs, elsets, idxs[1..]);
      assert Increasing(idxs[1..]);
      CollectIncreasing(materials, sections, designs, elsets, idxs[1..]);
      ConvertIndex(materials, sections, designs, elsets, idxs[0]);
      AboveHead(idxs, rest);
      IncreasingFront(h, rest, idxs[0]);
      IndicesInCons(h, rest, idxs);
    }
  }

  lemma IndicesInCons(h: seq<SectionProp>, rest: seq<SectionProp>, idxs: seq<int>)
    requires |idxs| > 0 && forall p :: p in h ==> p.index == idxs[0]
    requires IndicesIn(rest, idxs[1..])
    ensures IndicesIn(h + rest, idxs)
  {
    forall p | p in h + rest
      ensures p.index in idxs
    {
      if p in rest {
        assert p.index in idxs[1..];
      }
    }
  }

  /** The properties `from_elsets` returns carry strictly increasing elset
      indices. */
  lemma FromElsetsAscending(materials: Coll<Named>, sections: Coll<Named>, designs: Coll<Named>,
                            elsets: Coll<ElsetData>)
    requires Consistent(elsets)
    ensures FromElsets(Some(materials), Some(sections), Some(designs), elsets).Ok?
    ensures Increasing(Indices(FromElsets(Some(materials), Some(sections), Some(designs), elsets).value))
  {
    CollectIncreasing(materials, sections, designs, elsets, IndexList(elsets));
  }

  // ---------------------------------------------------------------
  // split_by_class
  // ---------------------------------------------------------------

  /** The properties of one class, in their original order. */
  function OfClass(ps: seq<SectionProp>, cls: string): (r: seq<SectionProp>)
    ensures forall p :: p in r <==> p in ps && ClassName(p.kind) == cls
    ensures |r| <= |ps|
  {
    if |ps| == 0 then []
    else (if ClassName(ps[0].kind) == cls then [ps[0]] else []) + OfClass(ps[1..], cls)
  }

  /** Some property of `ps` has class name `c`. */
  predicate HasClass(ps: seq<SectionProp>, c: string) {
    exists k :: 0 <= k < |ps| && ClassName(ps[k].kind) == c
  }

  /** Names pairwise distinct. */
  ghost predicate Distinct(s: seq<string>) {
    forall i, j :: 0 <= i < j < |s| ==> s[i] != s[j]
  }

  /** The class names present, in order of first appearance (the key order
      of the dictionary `split_by_class` fills). */
  function ClassOrder(ps: seq<SectionProp>, seen: seq<string>): (r: seq<string>)
    requires Distinct(seen)
    ensures Distinct(r)
    ensures |seen| <= |r| && r[..|seen|] == seen
    decreases |ps|
  {
    if |ps| == 0 then seen
    else
      var c := ClassName(ps[0].kind);
      ClassOrder(ps[1..], if c in seen then seen else seen + [c])
  }

  /** The names `ClassOrder` lists are those already seen and those of the
      properties' classes, no others. */
  lemma {:induction false} ClassOrderMembers(ps: seq<SectionProp>, seen: seq<string>, c: string)
    requires Distinct(seen)
    ensures c in ClassOrder(ps, seen) <==> c in seen || HasClass(ps, c)
    decreases |ps|
  {
    if |ps| > 0 {
      var c0 := ClassName(ps[0].kind);
      var seen' := if c0 in seen then seen else seen + [c0];
      ClassOrderMembers(ps[1..], seen', c);
      HasClassCons(ps, c);
    }
  }

  lemma HasClassCons(ps: seq<SectionProp>, c: string)
    requires |ps| > 0
    ensures HasClass(ps, c) <==> ClassName(ps[0].kind) == c || HasClass(ps[1..], c)
  {
    if HasClass(ps[1..], c) {
      var k :| 0 <= k < |ps[1..]| && ClassName(ps[1..][k].kind) == c;
      assert ps[k + 1] == ps[1..][k];
    }
    if HasClass(ps, c) {
      var k :| 0 <= k < |ps| && ClassName(ps[k].kind) == c;
      if k > 0 {
        assert ps[1..][k - 1] == ps[k];
      }
    }
  }

  /** `split_by_class`: one group per class name present, in order of first
      appearance, each holding that class's properties in input order. */
  function SplitByClass(ps: seq<SectionProp>): (r: seq<(string, seq<SectionProp>)>)
    ensures forall i, j :: 0 <= i < j < |r| ==> r[i].0 != r[j].0
    ensures forall k :: 0 <= k < |r| ==> r[k].1 == OfClass(ps, r[k].0)
  {
    var names := ClassOrder(ps, []);
    seq(|names|, k requires 0 <= k < |names| => (names[k], OfClass(ps, names[k])))
  }

  /** Every group is non-empty, and every property's class has a group. */
  lemma SplitByClassCovers(ps: seq<SectionProp>)
    ensures forall k :: 0 <= k < |SplitByClass(ps)| ==> |SplitByClass(ps)[k].1| > 0
    ensures forall p :: p in ps ==> exists k :: 0 <= k < |SplitByClass(ps)| && SplitByClass(ps)[k].0 == ClassName(p.kind)
  {
    var names := ClassOrder(ps, []);
    var r := SplitByClass(ps);
    forall k | 0 <= k < |r|
      ensures |r[k].1| > 0
    {
      ClassOrderMembers(ps, [], names[k]);
      var j :| 0 <= j < |ps| && ClassName(ps[j].kind) == names[k];
      assert ps[j] in r[k].1;
    }
    forall p | p in ps
      ensures exists k :: 0 <= k < |r| && r[k].0 == ClassName(p.kind)
    {
      var j :| 0 <= j < |ps| && ps[j] == p;
      ClassOrderMembers(ps, [], ClassName(p.kind));
      var k :| 0 <= k < |names| && names[k] == ClassName(p.kind);
      assert r[k].0 == names[k];
    }
  }

  /** Every property lands in exactly one group: the one of its class. */
  lemma SplitByClassPartition(ps: seq<SectionProp>, p: SectionProp, k: nat)
    requires p in ps && k < |SplitByClass(ps)|
    ensures p in SplitByClass(ps)[k].1 <==> SplitByClass(ps)[k].0 == ClassName(p.kind)
  {
  }

  // ---------------------------------------------------------------
  // De-duplication by name
  // ---------------------------------------------------------------

  /** The names of a list of properties. */
  function Names(ps: seq<SectionProp>): (r: set<string>)
    ensures forall n :: n in r <==> exists p :: p in ps && p.name == n
  {
    set p | p in ps :: p.name
  }

  /** Keep each name's first occurrence, skipping names in `seen`. */
  function DedupFrom(ps: seq<SectionProp>, seen: set<string>): (r: seq<SectionProp>)
    ensures forall p :: p in r ==> p in ps && p.name !in seen
    ensures forall i, j :: 0 <= i < j < |r| ==> r[i].name != r[j].name
    decreases |ps|
  {
    if |ps| == 0 then []
    else
      var p := ps[0];
      if p.name in seen then DedupFrom(ps[1..], seen)
      else [p] + DedupFrom(ps[1..], seen + {p.name})
  }

  /** De-duplication loses no name outside `seen`. */
  lemma {:induction false} DedupFromNames(ps: seq<SectionProp>, seen: set<string>)
    ensures Names(DedupFrom(ps, seen)) == Names(ps) - seen
    decreases |ps|
  {
    if |ps| > 0 {
      var p := ps[0];
      NamesCons(ps);
      if p.name in seen {
        DedupFromNames(ps[1..], seen);
      } else {
        var rest := DedupFrom(ps[1..], seen + {p.name});
        DedupFromNames(ps[1..], seen + {p.name});
        assert [p] + rest == DedupFrom(ps, seen);
        NamesCons([p] + rest);
        assert ([p] + rest)[1..] == rest;
      }
    }
  }

  lemma NamesCons(ps: seq<SectionProp>)
    requires |ps| > 0
    ensures Names(ps) == {ps[0].name} + Names(ps[1..])
  {
    assert forall q :: q in ps ==> q == ps[0] || q in ps[1..];
  }

  /** The name de-duplication applied after loading: the first property
      with each name survives. */
  function Dedup(ps: seq<SectionProp>): (r: seq<SectionProp>)
    ensures forall p :: p in r ==> p in ps
    ensures forall i, j :: 0 <= i < j < |r| ==> r[i].name != r[j].name
    ensures Names(r) == Names(ps)
  {
    DedupFromNames(ps, {});
    DedupFrom(ps, {})
  }

  /** The property that survives for a name is its first occurrence. */
  lemma {:induction false} DedupFromKeepsFirst(ps: seq<SectionProp>, seen: set<string>, i: nat)
    requires i < |ps| && ps[i].name !in seen
    requires forall j :: 0 <= j < i ==> ps[j].name != ps[i].name
    ensures ps[i] in DedupFrom(ps, seen)
    decreases |ps|
  {
    if i > 0 {
      var p := ps[0];
      if p.name in seen {
        DedupFromKeepsFirst(ps[1..], seen, i - 1);
      } else {
        DedupFromKeepsFirst(ps[1..], seen + {p.name}, i - 1);
      }
    }
  }

  lemma DedupKeepsFirst(ps: seq<SectionProp>, i: nat)
    requires i < |ps|
    requires forall j :: 0 <= j < i ==> ps[j].name != ps[i].name
    ensures ps[i] in Dedup(ps)
  {
    DedupFromKeepsFirst(ps, {}, i);
  }
}
