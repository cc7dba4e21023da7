/** Sections: the five section shapes, the factory that builds a section
    from the section map and the section properties (splitting the name
    into dimensions), the type dispatch of a section line, and the sort key
    the section comparer orders sections by. */
module Sections {
  import opened Wrappers
  import opened Text
  import opened Keys
  import opened Scan
  import opened Designs
  import opened Splitters
  import opened SectionProps

  datatype SectionType = Thickness | Rect | Tee | Circle | User

  /** The `type_name` a section of each type carries (and the third word of
      its section line). */
  function SectionTypeName(t: SectionType): string {
    match t
    case Thickness => "THICKNESS"
    case Rect => "RECT"
    case Tee => "TEE"
    case Circle => "CIRCLE"
    case User => "USER"
  }

  /** The `type_index` the factory writes for each type. */
  function TypeIndex(t: SectionType): nat {
    match t
    case Thickness => 3
    case Rect => 6
    case Tee => 12
    case Circle => 4
    case User => 12
  }

  /** The dimensions of a section; the `misc` tuple is always zeros and is
      not modelled. */
  datatype Shape =
    | ThicknessShape(thickness: real)
    | RectShape(width: real, height: real, slabThick: real)
    | TeeShape(width: real, height: real, thickWeb: real, thickFlange: real)
    | CircleShape(diameter: real)
    | UserShape(steelSect: string, strongAxis: bool)

  function ShapeType(s: Shape): SectionType {
    match s
    case ThicknessShape(_) => Thickness
    case RectShape(_, _, _) => Rect
    case TeeShape(_, _, _, _) => Tee
    case CircleShape(_) => Circle
    case UserShape(_, _) => User
  }

  datatype Section = Section(index: int, typeIndex: nat, name: string, shape: Shape)

  // ---------------------------------------------------------------
  // parse_line: the type dispatch
  // ---------------------------------------------------------------

  /** The section type named by an upper-cased word, if any. */
  function TypeNamed(w: string): (r: Option<SectionType>)
    ensures r.Some? ==> SectionTypeName(r.value) == w
    ensures forall t :: SectionTypeName(t) == w ==> r == Some(t)
  {
    if w == "THICKNESS" then Some(Thickness)
    else if w == "RECT" then Some(Rect)
    else if w == "TEE" then Some(Tee)
    else if w == "CIRCLE" then Some(Circle)
    else if w == "USER" then Some(User)
    else None
  }

  /** The type a section's main line declares: its third whitespace word,
      upper-cased.  IndexError when the line has fewer than three words,
      ValueError for a word that names no section type. */
  function ParseSectionType(main: string): (r: Result<SectionType>)
    ensures r.Err? <==> |SplitWs(main)| < 3 || forall t :: SectionTypeName(t) != Upper(SplitWs(main)[2])
    ensures r.Err? ==> r.error == (if |SplitWs(main)| < 3 then IndexError else ValueError)
    ensures r.Ok? ==> SectionTypeName(r.value) == Upper(SplitWs(main)[2])
  {
    var parts := SplitWs(main);
    if |parts| < 3 then Err(IndexError)
    else
      match TypeNamed(Upper(parts[2]))
      case None => Err(ValueError)
      case Some(t) => Ok(t)
  }

  /** Type names are matched without regard to case: two lines whose third
      words agree up to case declare the same type. */
  lemma ParseSectionTypeIgnoresCase(a: string, b: string)
    requires |SplitWs(a)| >= 3 && |SplitWs(b)| >= 3
    requires Upper(SplitWs(a)[2]) == Upper(SplitWs(b)[2])
    ensures ParseSectionType(a) == ParseSectionType(b)
  {
  }

  // ---------------------------------------------------------------
  // SectionsFactory
  // ---------------------------------------------------------------

  /** `TYPE_MAP`: the section type built for each property class. */
  function MappedType(k: PropKind): (t: SectionType)
  {
    match k
    case ConcreteSlab => Thickness
    case ConcreteWall => Thickness
    case ConcreteBeam => Rect
    case ConcreteBiaxialColumn => Rect
    case ConcreteTeeColumn => Tee
    case ConcreteCircularColumn => Circle
    case SteelFrame => User
  }

  /** The factory and the elset table agree: a property derived from an
      elset whose section has type name `s` is built back into a section of
      type `s`. */
  lemma MappedTypeAgreesWithTable(k: PropKind)
    ensures SectionTypeName(MappedType(k)) == TripleOf(k).section
  {
  }

  /** What the factory finds under an index of `section_props`: a property
      of one of the seven mapped classes, or an object of another class. */
  datatype PropObject = Known(prop: SectionProp) | Unmapped(className: string, name: string)

  /** The section map: `(type, name)` keys in insertion order and the index
      each maps to. */
  datatype SectionMap = SectionMap(keys: seq<(string, string)>, index: map<(string, string), int>)

  ghost predicate ValidMap(m: SectionMap) {
    (forall i, j :: 0 <= i < j < |m.keys| ==> m.keys[i] != m.keys[j]) &&
    (forall k :: k in m.index <==> k in m.keys)
  }

  /** The shape of a section of type `t` named `name`: the name's numbers
      become the dimensions (ValueError when the name does not have the
      shape the type needs, or a tee name does not carry exactly four
      numbers). */
  function CreateShape(t: SectionType, name: string): (r: Result<Shape>)
    ensures r.Err? ==> r.error == ValueError
    ensures t == User ==> r == Ok(UserShape(name, true))
  {
    match t
    case Thickness => ThicknessOf(name, false)
    case Rect => RectOf(name)
    case Tee => TeeOf(name)
    case Circle => ThicknessOf(name, true)
    case User => Ok(UserShape(name, true))
  }

  /** A shape the factory builds has the type it was asked for. */
  lemma CreateShapeType(t: SectionType, name: string)
    ensures CreateShape(t, name).Ok? ==> ShapeType(CreateShape(t, name).value) == t
  {
    var r := CreateShape(t, name);
    if r.Ok? {
      match t
      case Thickness =>
        assert r.value.ThicknessShape?;
      case Rect =>
        assert r.value.RectShape?;
      case Tee =>
        assert r.value.TeeShape?;
      case Circle =>
        assert r.value.CircleShape?;
      case User =>
    }
  }

  /** A thickness section, or with `circle` a circular one, from the one
      number of a letters-number-letters name. */
  function ThicknessOf(name: string, circle: bool): (r: Result<Shape>)
    ensures r.Ok? ==> if circle then r.value.CircleShape? else r.value.ThicknessShape?
    ensures r.Err? ==> r.error == ValueError
  {
    var split := SplitThickness(name);
    if split.Err? then Err(ValueError)
    else if circle then Ok(CircleShape(split.value.1))
    else Ok(ThicknessShape(split.value.1))
  }

  function RectOf(name: string): (r: Result<Shape>)
    ensures r.Ok? ==> r.value.RectShape?
    ensures r.Err? ==> r.error == ValueError
  {
    var split := SplitRect(name);
    if split.Err? then Err(ValueError)
    else Ok(RectShape(split.value.1, split.value.2, 0.0))
  }

  function TeeOf(name: string): (r: Result<Shape>)
    ensures r.Ok? ==> r.value.TeeShape?
    ensures r.Err? ==> r.error == ValueError
  {
    var split := SplitTee(name);
    if split.Err? || |split.value.1| != 4 then Err(ValueError)
    else
      var vs := split.value.1;
      Ok(TeeShape(vs[0], vs[1], vs[2], vs[3]))
  }

  /** `create_section`: KeyError for a key not in the map or an index with
      no property, ValueError for a property of an unmapped class or a name
      without the shape its type needs. */
  function CreateSection(m: SectionMap, props: map<int, PropObject>, key: (string, string)): (r: Result<Section>)
    ensures r.Err? ==> r.error in {KeyError, ValueError}
    ensures r.Err? && r.error == KeyError <==> key !in m.index || m.index[key] !in props
    ensures r.Ok? ==>
      && key in m.index && m.index[key] in props && props[m.index[key]].Known?
      && var p := props[m.index[key]].prop;
      && r.value.index == m.index[key]
      && r.value.name == p.name
      && ShapeType(r.value.shape) == MappedType(p.kind)
      && r.value.typeIndex == TypeIndex(MappedType(p.kind))
  {
    if key !in m.index then Err(KeyError)
    else
      var index := m.index[key];
      if index !in props then Err(KeyError)
      else
        match props[index]
        case Unmapped(_, _) => Err(ValueError)
        case Known(p) =>
          var t := MappedType(p.kind);
          CreateShapeType(t, p.name);
          match CreateShape(t, p.name)
          case Ok(shape) => Ok(Section(index, TypeIndex(t), p.name, shape))
          case Err(e) => Err(e)
  }

  /** A beam or column property whose name is a well-formed rectangle name
      becomes a rectangle section with exactly the name's two numbers. */
  lemma CreateRectSection(m: SectionMap, props: map<int, PropObject>, key: (string, string), parts: RectParts)
    requires key in m.index && m.index[key] in props
    requires props[m.index[key]].Known?
    requires MappedType(props[m.index[key]].prop.kind) == Rect
    requires RectShaped(parts) && props[m.index[key]].prop.name == RectText(parts)
    ensures CreateSection(m, props, key) ==
      Ok(Section(m.index[key], 6, RectText(parts),
                 RectShape(LooseNumberValue(parts.num1), LooseNumberValue(parts.num2), 0.0)))
  {
    SplitRectExact(parts);
  }

  /** A slab or wall property whose name is letters, a number and letters
      becomes a thickness section of that number. */
  lemma CreateThicknessSection(m: SectionMap, props: map<int, PropObject>, key: (string, string),
                               prefix: string, num: string, suffix: string)
    requires key in m.index && m.index[key] in props
    requires props[m.index[key]].Known?
    requires MappedType(props[m.index[key]].prop.kind) == Thickness
    requires ThicknessShaped(prefix, num, suffix) && props[m.index[key]].prop.name == prefix + (num + suffix)
    ensures CreateSection(m, props, key) ==
      Ok(Section(m.index[key], 3, prefix + (num + suffix), ThicknessShape(LooseNumberValue(num))))
  {
    SplitThicknessExact(prefix, num, suffix);
  }

  /** A tee-column property is built only from a name with exactly four
      numbers; with any other count the factory raises ValueError. */
  lemma CreateTeeSection(m: SectionMap, props: map<int, PropObject>, key: (string, string), parts: TeeParts)
    requires key in m.index && m.index[key] in props
    requires props[m.index[key]].Known?
    requires MappedType(props[m.index[key]].prop.kind) == Tee
    requires TeeShaped(parts) && props[m.index[key]].prop.name == TeeText(parts)
    ensures |parts.nums| == 4 ==>
      CreateSection(m, props, key) == Ok(Section(m.index[key], 12, TeeText(parts),
                 TeeShape(LooseNumberValue(parts.nums[0]), LooseNumberValue(parts.nums[1]),
                          LooseNumberValue(parts.nums[2]), LooseNumberValue(parts.nums[3]))))
    ensures |parts.nums| != 4 ==> CreateSection(m, props, key) == Err(ValueError)
  {
    TeeOfExact(parts);
  }

  lemma TeeOfExact(parts: TeeParts)
    requires TeeShaped(parts)
    ensures |parts.nums| == 4 ==>
      TeeOf(TeeText(parts)) == Ok(TeeShape(LooseNumberValue(parts.nums[0]), LooseNumberValue(parts.nums[1]),
                                           LooseNumberValue(parts.nums[2]), LooseNumberValue(parts.nums[3])))
    ensures |parts.nums| != 4 ==> TeeOf(TeeText(parts)) == Err(ValueError)
  {
    SplitTeeExact(parts);
  }

  /** `create_all`: one section per key of the map, in key order; the first
      failing key's error otherwise. */
  function CreateAll(m: SectionMap, props: map<int, PropObject>): (r: Result<seq<Section>>)
    ensures r.Ok? <==> forall k :: 0 <= k < |m.keys| ==> CreateSection(m, props, m.keys[k]).Ok?
    ensures r.Ok? ==> |r.value| == |m.keys| &&
                      forall k :: 0 <= k < |m.keys| ==> r.value[k] == CreateSection(m, props, m.keys[k]).value
    ensures r.Err? ==> exists k :: 0 <= k < |m.keys| && CreateSection(m, props, m.keys[k]) == Err(r.error) &&
                                   forall j :: 0 <= j < k ==> CreateSection(m, props, m.keys[j]).Ok?
  {
    MapAll(m.keys, key => CreateSection(m, props, key))
  }

  /** Sections come out under their map indices, so a map that gives
      distinct keys distinct indices yields sections with distinct indices. */
  lemma CreateAllIndices(m: SectionMap, props: map<int, PropObject>)
    requires ValidMap(m)
    requires forall i, j :: 0 <= i < j < |m.keys| ==> m.index[m.keys[i]] != m.index[m.keys[j]]
    requires CreateAll(m, props).Ok?
    ensures forall i, j :: 0 <= i < j < |m.keys| ==> CreateAll(m, props).value[i].index != CreateAll(m, props).value[j].index
  {
  }

  // ---------------------------------------------------------------
  // SectionsComparer
  // ---------------------------------------------------------------

  /** `parse_name_parts`: the upper-cased letter/underscore prefix, then
      every number in the name (or `inf` when there is none). */
  function SectionNameParts(name: string): (r: seq<Atom>)
    ensures |r| >= 2 && r[0].Text?
    ensures forall k :: 1 <= k < |r| ==> !r[k].Text?
  {
    if |name| == 0 then [Text(""), Inf]
    else [Text(NamePrefix(name))] + NameNumbers(name)
  }

  /** The empty name needs no special case: the general rule gives the
      same parts. */
  lemma SectionNamePartsGeneral(name: string)
    ensures SectionNameParts(name) == [Text(NamePrefix(name))] + NameNumbers(name)
  {
    if |name| == 0 {
      assert NoDigit(name);
    }
  }

  /** A section name parses like a design name, with the design suffix
      dropped. */
  lemma SectionPartsAreDesignParts(name: string)
    ensures var d := DesignNameParts(name);
            SectionNameParts(name) == [Text(d.prefix)] + d.nums
  {
  }

  const SortedTypes: seq<SectionType> := [Thickness, Rect, Circle]

  /** The position of a type in the comparer's rule list, 3 for the types
      without a rule. */
  function SectionPriority(t: SectionType): (p: nat)
    ensures p <= 3
    ensures p < 3 <==> t in SortedTypes
    ensures p < 3 ==> SortedTypes[p] == t
  {
    match t
    case Thickness => 0
    case Rect => 1
    case Circle => 2
    case _ => 3
  }

  /** The dimensions the rule for a shape appends after the name parts. */
  function ShapeDims(s: Shape): (r: seq<Atom>)
    ensures forall k :: 0 <= k < |r| ==> r[k].Num?
  {
    match s
    case ThicknessShape(t) => [Num(t)]
    case RectShape(w, h, _) => [Num(w), Num(h)]
    case CircleShape(d) => [Num(d)]
    case _ => []
  }

  /** `get_sort_key`: the type priority, then for a ruled type the name
      parts and dimensions; `(3, inf)` for the others. */
  function SectionKey(s: Section): (k: Key)
    ensures |k| >= 2 && k[0] == Num(SectionPriority(ShapeType(s.shape)) as real)
    ensures SectionPriority(ShapeType(s.shape)) == 3 ==> k == [Num(3.0), Inf]
    ensures SectionPriority(ShapeType(s.shape)) < 3 ==>
      k == [k[0]] + SectionNameParts(s.name) + ShapeDims(s.shape)
  {
    var p := SectionPriority(ShapeType(s.shape));
    if p == 3 then [Num(3.0), Inf]
    else [Num(p as real)] + SectionNameParts(s.name) + ShapeDims(s.shape)
  }

  /** The positions of a section key: a number, then (for a ruled type) a
      single string, then numbers only. */
  lemma SectionKeyShape(s: Section, i: nat)
    requires i < |SectionKey(s)|
    ensures SectionKey(s)[i].Text? <==> i == 1 && SectionPriority(ShapeType(s.shape)) < 3
  {
    var p := SectionPriority(ShapeType(s.shape));
    if p < 3 {
      RuledKeyAt(SectionKey(s)[0], SectionNameParts(s.name), ShapeDims(s.shape), i);
    }
  }

  /** Indexing a ruled key: the priority, then a name part, then a
      dimension. */
  lemma RuledKeyAt(head: Atom, parts: seq<Atom>, dims: seq<Atom>, i: nat)
    requires i < 1 + |parts| + |dims|
    ensures ([head] + parts + dims)[i] ==
      if i == 0 then head else if i <= |parts| then parts[i - 1] else dims[i - 1 - |parts|]
  {
  }

  /** Unlike design keys, two section keys never make Python's tuple
      comparison raise: the only string sits at the same position in every
      ruled key, and keys of different priority differ at position 0. */
  lemma SectionKeysNeverRaise(a: Section, b: Section)
    ensures PyKeyLess(SectionKey(a), SectionKey(b)).Ok?
    ensures PyKeyLess(SectionKey(a), SectionKey(b)).value == KeyLess(SectionKey(a), SectionKey(b))
  {
    var ka, kb := SectionKey(a), SectionKey(b);
    var pa, pb := SectionPriority(ShapeType(a.shape)), SectionPriority(ShapeType(b.shape));
    if pa != pb {
      assert ka[0] != kb[0];
      PyKeyLessAt(ka, kb, 0);
    } else {
      forall i | 0 <= i < |ka| && i < |kb|
        ensures Comparable(ka[i], kb[i])
      {
        SectionKeyShape(a, i);
        SectionKeyShape(b, i);
      }
      SameShapeNeverRaises(ka, kb);
    }
    PyKeyLessAgrees(ka, kb);
  }

  /** Sections of a lower priority sort first: thickness before rectangle
      before circle before the rest. */
  lemma SectionTypeOrder(a: Section, b: Section)
    requires SectionPriority(ShapeType(a.shape)) < SectionPriority(ShapeType(b.shape))
    ensures PyKeyLess(SectionKey(a), SectionKey(b)) == Ok(true)
  {
    var ka, kb := SectionKey(a), SectionKey(b);
    assert ka[0] != kb[0];
    PyKeyLessAt(ka, kb, 0);
  }
}
