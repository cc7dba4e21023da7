/** Materials: the two material kinds, the type dispatch of a material
    line, the factory that builds a default material from its name (the
    name decides the kind and carries the strength or the stiffness), and
    the sort key the material comparer orders materials by. */
module Materials {
  import opened Wrappers
  import opened Text
  import opened Keys
  import opened Scan
  import opened Splitters

  datatype MaterialType = Isotropic | Spring

  function MaterialTypeName(t: MaterialType): string {
    match t
    case Isotropic => "ISOTROPIC"
    case Spring => "SPRING"
  }

  /** The `type_index` the factory writes for each kind. */
  function MaterialTypeIndex(t: MaterialType): nat {
    match t
    case Isotropic => 1
    case Spring => 3
  }

  /** The kind-specific data: the concrete strength `fc1` in kg/cm² of an
      isotropic material, the stiffness of a spring.  The elastic and shear
      moduli and the constant fields are not modelled. */
  datatype MaterialData = IsotropicData(fc1: real) | SpringData(stiffness: real)

  function DataType(d: MaterialData): MaterialType {
    match d
    case IsotropicData(_) => Isotropic
    case SpringData(_) => Spring
  }

  datatype Material = Material(index: int, typeIndex: nat, name: string, data: MaterialData)

  // ---------------------------------------------------------------
  // parse_line: the type dispatch
  // ---------------------------------------------------------------

  /** The kind a material's main line declares: its third whitespace word,
      upper-cased.  IndexError when the line has fewer than three words;
      None (the line is skipped) for a word that names no supported kind. */
  function ParseMaterialType(main: string): (r: Result<Option<MaterialType>>)
    ensures r.Err? <==> |SplitWs(main)| < 3
    ensures r.Err? ==> r.error == IndexError
    ensures r.Ok? && r.value.Some? ==> MaterialTypeName(r.value.value) == Upper(SplitWs(main)[2])
    ensures r == Ok(None) ==> forall t :: MaterialTypeName(t) != Upper(SplitWs(main)[2])
  {
    var parts := SplitWs(main);
    if |parts| < 3 then Err(IndexError)
    else
      var w := Upper(parts[2]);
      if w == "ISOTROPIC" then Ok(Some(Isotropic))
      else if w == "SPRING" then Ok(Some(Spring))
      else Ok(None)
  }

  // ---------------------------------------------------------------
  // MaterialsFactory
  // ---------------------------------------------------------------

  /** `_infer_type_from_name`: a lower-cased name starting with "spr " is
      a spring, one starting with "fc" is isotropic, anything else raises
      KeyError. */
  function InferType(name: string): (r: Result<MaterialType>)
    ensures r == Ok(Spring) <==> StartsWith(Lower(name), "spr ")
    ensures r == Ok(Isotropic) <==> !StartsWith(Lower(name), "spr ") && StartsWith(Lower(name), "fc")
    ensures r.Err? ==> r.error == KeyError
  {
    var l := Lower(name);
    if StartsWith(l, "spr ") then Ok(Spring)
    else if StartsWith(l, "fc") then Ok(Isotropic)
    else Err(KeyError)
  }

  /** `name.split("-")[-1]`. */
  function LastField(name: string): string {
    var parts := SplitOn(name, '-');
    parts[|parts| - 1]
  }

  /** `create_material`: KeyError for a name the map does not hold or whose
      kind cannot be inferred; an isotropic material takes ten times the
      number of its letters-then-number name as `fc1` (MPa to kg/cm²); a
      spring takes `float` of the text after the last '-' as stiffness. */
  function CreateMaterial(m: map<string, int>, name: string): (r: Result<Material>)
    ensures r.Err? ==> r.error in {KeyError, ValueError}
    ensures name !in m ==> r == Err(KeyError)
    ensures r.Ok? ==>
      && name in m
      && r.value.index == m[name]
      && r.value.name == name
      && InferType(name) == Ok(DataType(r.value.data))
      && r.value.typeIndex == MaterialTypeIndex(DataType(r.value.data))
    ensures r.Ok? && r.value.data.IsotropicData? ==>
      SplitIsotropic(name).Ok? && r.value.data.fc1 == SplitIsotropic(name).value.1 * 10.0
    ensures r.Ok? && r.value.data.SpringData? ==> ParseFloat(LastField(name)) == Ok(r.value.data.stiffness)
  {
    if name !in m then Err(KeyError)
    else
      match InferType(name)
      case Err(e) => Err(e)
      case Ok(Isotropic) => IsotropicMaterial(m[name], name)
      case Ok(Spring) => SpringMaterial(m[name], name)
  }

  /** The isotropic branch of `create_material`: `fc1` is ten times the
      number `_split_isotropic` reads. */
  function IsotropicMaterial(index: int, name: string): (r: Result<Material>)
    ensures r.Err? ==> r.error == ValueError
    ensures r.Ok? ==> r.value.index == index && r.value.typeIndex == 1 && r.value.name == name && r.value.data.IsotropicData?
    ensures r.Ok? <==> SplitIsotropic(name).Ok?
    ensures r.Ok? ==> r.value.data.fc1 == SplitIsotropic(name).value.1 * 10.0
  {
    match SplitIsotropic(name)
    case Err(e) => Err(e)
    case Ok((_, fc)) => Ok(Material(index, 1, name, IsotropicData(fc * 10.0)))
  }

  /** The spring branch of `create_material`: the stiffness is `float` of
      the text after the last '-'. */
  function SpringMaterial(index: int, name: string): (r: Result<Material>)
    ensures r.Err? ==> r.error == ValueError
    ensures r.Ok? ==> r.value.index == index && r.value.typeIndex == 3 && r.value.name == name && r.value.data.SpringData?
    ensures r.Ok? ==> ParseFloat(LastField(name)) == Ok(r.value.data.stiffness)
  {
    match ParseFloat(LastField(name))
    case Err(e) => Err(e)
    case Ok(k) => Ok(Material(index, 3, name, SpringData(k)))
  }

  /** A name of letters starting "fc" (any case), split into those
      letters and the number that follows them. */
  predicate IsotropicName(prefix: string, num: string) {
    ThicknessShaped(prefix, num, "") && |prefix| >= 2 && LowerChar(prefix[0]) == 'f' && LowerChar(prefix[1]) == 'c'
  }

  /** A name of letters starting "fc" (any case) followed by a number
      becomes an isotropic material of ten times that number. */
  lemma CreateIsotropicExact(m: map<string, int>, prefix: string, num: string)
    requires prefix + num in m && IsotropicName(prefix, num)
    ensures CreateMaterial(m, prefix + num) ==
      Ok(Material(m[prefix + num], 1, prefix + num, IsotropicData(LooseNumberValue(num) * 10.0)))
  {
    IsotropicInferred(prefix, num);
    SplitIsotropicExact(prefix, num);
    CreateIsotropicFrom(m, prefix + num, LooseNumberValue(num));
  }

  /** A name whose lower-cased form starts with "fc" is inferred to be
      isotropic, whatever follows the prefix. */
  lemma IsotropicInferred(prefix: string, rest: string)
    requires IsotropicName(prefix, rest)
    ensures InferType(prefix + rest) == Ok(Isotropic)
  {
    var l := Lower(prefix + rest);
    assert l[0] == 'f' && l[1] == 'c';
    assert l[..2] == "fc";
    assert !StartsWith(l, "spr ");
  }

  /** The name is inferred to be isotropic and the splitter reads `fc`
      from it. */
  predicate IsotropicSplit(name: string, fc: real) {
    InferType(name) == Ok(Isotropic) && SplitIsotropic(name).Ok? && SplitIsotropic(name).value.1 == fc
  }

  /** An isotropic name the splitter reads gives the material of ten
      times its number. */
  lemma CreateIsotropicFrom(m: map<string, int>, name: string, fc: real)
    requires name in m && IsotropicSplit(name, fc)
    ensures CreateMaterial(m, name) == Ok(Material(m[name], 1, name, IsotropicData(fc * 10.0)))
  {
  }

  /** A name starting "spr " (any case) and ending in '-' and a number
      becomes a spring of that stiffness. */
  lemma CreateSpringExact(m: map<string, int>, name: string, body: string, num: string)
    requires name in m && name == body + (['-'] + num)
    requires StartsWith(Lower(body), "spr ")
    requires IsLooseNumber(num)
    ensures CreateMaterial(m, name) == Ok(Material(m[name], 3, name, SpringData(LooseNumberValue(num))))
  {
    SpringInferred(body, ['-'] + num);
    SpringLastField(body, num);
    ParseFloatLoose(num);
    CreateSpringFrom(m, name, LooseNumberValue(num));
  }

  /** A name whose lower-cased form starts with "spr " is inferred to be
      a spring, whatever follows. */
  lemma SpringInferred(body: string, rest: string)
    requires StartsWith(Lower(body), "spr ")
    ensures InferType(body + rest) == Ok(Spring)
  {
    LowerPrefix(body, rest, 4);
  }

  /** The text after the last '-' is the number that ends the name. */
  lemma SpringLastField(body: string, num: string)
    requires IsLooseNumber(num)
    ensures LastField(body + (['-'] + num)) == num
  {
    LooseNumberHasNoSeparator(num);
    SplitOnLast(body, '-', num);
  }

  /** A spring name whose last field `float` reads gives the spring of
      that stiffness. */
  lemma CreateSpringFrom(m: map<string, int>, name: string, k: real)
    requires name in m && InferType(name) == Ok(Spring) && ParseFloat(LastField(name)) == Ok(k)
    ensures CreateMaterial(m, name) == Ok(Material(m[name], 3, name, SpringData(k)))
  {
  }

  /** Lower-casing works character by character, so a prefix of the text
      lower-cases to a prefix of the result. */
  lemma LowerPrefix(a: string, b: string, n: nat)
    requires n <= |a|
    ensures Lower(a + b)[..n] == Lower(a)[..n]
  {
    assert forall i :: 0 <= i < n ==> (a + b)[i] == a[i];
  }

  /** The material map: names in insertion order and the index of each. */
  datatype MaterialMap = MaterialMap(names: seq<string>, index: map<string, int>)

  /** `create_all`: one material per name of the map, in map order; the
      first failing name's error otherwise. */
  function CreateAll(mm: MaterialMap): (r: Result<seq<Material>>)
    ensures r.Ok? <==> forall k :: 0 <= k < |mm.names| ==> CreateMaterial(mm.index, mm.names[k]).Ok?
    ensures r.Ok? ==> |r.value| == |mm.names| &&
                      forall k :: 0 <= k < |mm.names| ==> r.value[k] == CreateMaterial(mm.index, mm.names[k]).value
    ensures r.Err? ==> exists k :: 0 <= k < |mm.names| && CreateMaterial(mm.index, mm.names[k]) == Err(r.error) &&
                                   forall j :: 0 <= j < k ==> CreateMaterial(mm.index, mm.names[j]).Ok?
  {
    MapAll(mm.names, n => CreateMaterial(mm.index, n))
  }

  // ---------------------------------------------------------------
  // MaterialsComparer
  // ---------------------------------------------------------------

  /** `get_sort_key`: the kind's position (isotropic 0, spring 1), then
      `fc1` for an isotropic material or the lower-cased name of a spring. */
  function MaterialKey(mat: Material): (k: Key)
    ensures |k| == 2
    ensures k[0] == Num(if mat.data.IsotropicData? then 0.0 else 1.0)
    ensures mat.data.IsotropicData? ==> k[1] == Num(mat.data.fc1)
    ensures mat.data.SpringData? ==> k[1] == Text(Lower(mat.name))
  {
    match mat.data
    case IsotropicData(fc1) => [Num(0.0), Num(fc1)]
    case SpringData(_) => [Num(1.0), Text(Lower(mat.name))]
  }

  /** Material keys never make Python's tuple comparison raise, and the
      order they give is: isotropic materials first, by strength, then
      springs by lower-cased name. */
  lemma MaterialOrder(a: Material, b: Material)
    ensures PyKeyLess(MaterialKey(a), MaterialKey(b)).Ok?
    ensures PyKeyLess(MaterialKey(a), MaterialKey(b)).value <==>
      if a.data.IsotropicData? != b.data.IsotropicData? then a.data.IsotropicData?
      else if a.data.IsotropicData? then a.data.fc1 < b.data.fc1
      else TextLess(Lower(a.name), Lower(b.name))
  {
    var ka, kb := MaterialKey(a), MaterialKey(b);
    if ka[0] != kb[0] {
      PyKeyLessAt(ka, kb, 0);
    } else if ka[1] != kb[1] {
      assert ka[..1] == kb[..1];
      PyKeyLessAt(ka, kb, 1);
    } else {
      assert ka == kb;
      KeyLessIrreflexive(ka);
      SameShapeNeverRaises(ka, kb);
      PyKeyLessAgrees(ka, kb);
      TextLessIrreflexive(Lower(a.name));
    }
  }
}
