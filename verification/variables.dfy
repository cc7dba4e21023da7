/** Integer variable blocks (Variable/VariableAbstract.py): a block body
    of "label = value" lines read into the fields of a record through the
    record's field-to-label table, and the record written back as a
    header line followed by one line per table entry.

    A record is modelled as a map from field name to value; the table
    (`key_map`) as a list of (field, label) pairs in declaration order. */
module Variables {
  import opened Wrappers
  import opened Text
  import ModelText

  type KeyMap = seq<(string, string)>

  // ---------------------------------------------------------------
  // The "label = int" line pattern
  // ---------------------------------------------------------------

  /** The position of the last occurrence of `c`. */
  function LastIndex(s: string, c: char): (r: Option<nat>)
    ensures r.None? <==> forall j :: 0 <= j < |s| ==> s[j] != c
    ensures r.Some? ==> r.value < |s| && s[r.value] == c && forall j :: r.value < j < |s| ==> s[j] != c
  {
    if |s| == 0 then None
    else if s[|s| - 1] == c then Some(|s| - 1)
    else LastIndex(s[..|s| - 1], c)
  }

  /** Text matching `-?\d+`. */
  predicate IsIntText(v: string) {
    |v| > 0 && if v[0] == '-' then |v| > 1 && AllDigits(v[1..]) else AllDigits(v)
  }

  function IntText(v: string): (n: int)
    requires IsIntText(v)
  {
    if v[0] == '-' then -(DigitsValue(v[1..]) as int) else DigitsValue(v) as int
  }

  /** The pattern `^(.*?)\s*=\s*(-?\d+)$` on the stripped line, followed
      by `key.strip()`.  Nothing after the `=` may be another `=`, so the
      `=` is the last one; the lazy key stops where the whitespace before
      it begins; and the value is what follows the whitespace after it. */
  function MatchAssign(line: string): (r: Option<(string, int)>)
    ensures r.Some? ==> LastIndex(Strip(line), '=').Some?
  {
    MatchText(Strip(line))
  }

  /** The pattern on a line already stripped. */
  function MatchText(t: string): (r: Option<(string, int)>) {
    match LastIndex(t, '=')
    case None => None
    case Some(e) =>
      var v := LStrip(t[e + 1..]);
      if IsIntText(v) then Some((Strip(RStrip(t[..e])), IntText(v))) else None
  }

  /** A stripped line matches exactly when it has an `=` and the text
      after the last one, left-stripped, is an integer. */
  lemma MatchTextIff(t: string)
    ensures MatchText(t).Some? <==>
              LastIndex(t, '=').Some? && IsIntText(LStrip(t[LastIndex(t, '=').value + 1..]))
  {
  }

  // ---------------------------------------------------------------
  // from_mdl
  // ---------------------------------------------------------------

  /** `{v: k for k, v in key_map.items()}`: a label used twice names the
      later field. */
  function Inverse(km: KeyMap): (inv: map<string, string>)
    ensures forall l :: l in inv <==> exists k :: 0 <= k < |km| && km[k].1 == l
  {
    if |km| == 0 then map[]
    else
      var p := km[..|km| - 1];
      assert forall k :: 0 <= k < |p| ==> p[k] == km[k];
      Inverse(p)[km[|km| - 1].1 := km[|km| - 1].0]
  }

  /** The field a line sets, if any, and the value it sets it to. */
  function Assignment(line: string, inv: map<string, string>): (r: Option<(string, int)>)
  {
    match MatchAssign(line)
    case None => None
    case Some(m) =>
      if m.0 in inv && |inv[m.0]| > 0 then Some((inv[m.0], m.1)) else None
  }

  /** The loop over the body: each matching line with a known label sets
      its field, a later line overriding an earlier one. */
  function Scan(lines: seq<string>, inv: map<string, string>): (parsed: map<string, int>)
  {
    if |lines| == 0 then map[]
    else
      var prev := Scan(lines[..|lines| - 1], inv);
      match Assignment(lines[|lines| - 1], inv)
      case None => prev
      case Some(a) => prev[a.0 := a.1]
  }

  /** What each line assigns, in order. */
  function Assigned(lines: seq<string>, inv: map<string, string>): (r: seq<Option<(string, int)>>)
    ensures |r| == |lines| && forall k :: 0 <= k < |lines| ==> r[k] == Assignment(lines[k], inv)
  {
    seq(|lines|, k requires 0 <= k < |lines| => Assignment(lines[k], inv))
  }

  /** Assignment `k` sets `field`. */
  predicate Sets(asg: seq<Option<(string, int)>>, field: string, k: int) {
    0 <= k < |asg| && asg[k].Some? && asg[k].value.0 == field
  }

  /** Assignment `k` is the last to set `field`. */
  predicate LastSets(asg: seq<Option<(string, int)>>, field: string, k: int) {
    Sets(asg, field, k) && forall j :: k < j < |asg| ==> !Sets(asg, field, j)
  }

  /** One more line sets its field to its value and leaves every other
      field as it was. */
  lemma ScanStep(lines: seq<string>, inv: map<string, string>, field: string)
    requires |lines| > 0
    ensures var n := |lines| - 1;
            Sets(Assigned(lines, inv), field, n) ==>
              field in Scan(lines, inv) && Scan(lines, inv)[field] == Assigned(lines, inv)[n].value.1
    ensures var n := |lines| - 1;
            !Sets(Assigned(lines, inv), field, n) ==>
              (field in Scan(lines, inv) <==> field in Scan(lines[..n], inv)) &&
              (field in Scan(lines, inv) ==> Scan(lines, inv)[field] == Scan(lines[..n], inv)[field])
  {
  }

  /** The assignments of a prefix are a prefix of the assignments. */
  lemma AssignedPrefix(lines: seq<string>, inv: map<string, string>, n: nat)
    requires n <= |lines|
    ensures Assigned(lines[..n], inv) == Assigned(lines, inv)[..n]
  {
  }

  /** Below a last assignment that does not set the field, an assignment
      sets it, or is the last to, in the prefix exactly as in the whole. */
  lemma PrefixSetsAt(asg: seq<Option<(string, int)>>, field: string, k: int)
    requires |asg| > 0 && !Sets(asg, field, |asg| - 1)
    ensures Sets(asg, field, k) ==> Sets(asg[..|asg| - 1], field, k)
    ensures LastSets(asg[..|asg| - 1], field, k) ==> LastSets(asg, field, k) && asg[k] == asg[..|asg| - 1][k]
  {
    var n := |asg| - 1;
    var p := asg[..n];
    if LastSets(p, field, k) {
      forall j | k < j < |asg|
        ensures !Sets(asg, field, j)
      {
        if j < n {
          assert !Sets(p, field, j);
        }
      }
    }
  }

  /** A field is read exactly when some line sets it, and it then holds
      the value of the last line that does. */
  lemma {:induction false} ScanLast(lines: seq<string>, inv: map<string, string>, field: string)
    ensures var asg := Assigned(lines, inv);
            field in Scan(lines, inv) <==> exists k :: Sets(asg, field, k)
    ensures var asg := Assigned(lines, inv);
            field in Scan(lines, inv) ==> exists k :: LastSets(asg, field, k) && Scan(lines, inv)[field] == asg[k].value.1
    decreases |lines|
  {
    if |lines| > 0 {
      var n := |lines| - 1;
      var p := lines[..n];
      var asg := Assigned(lines, inv);
      ScanLast(p, inv, field);
      ScanStep(lines, inv, field);
      AssignedPrefix(lines, inv, n);
      if Sets(asg, field, n) {
        assert LastSets(asg, field, n);
      } else {
        if field in Scan(p, inv) {
          var k :| LastSets(asg[..n], field, k) && Scan(p, inv)[field] == asg[..n][k].value.1;
          PrefixSetsAt(asg, field, k);
        }
        if exists k :: Sets(asg, field, k) {
          var k :| Sets(asg, field, k);
          PrefixSetsAt(asg, field, k);
        }
      }
    }
  }

  /** `from_mdl`: AttributeError when the block is absent; otherwise every
      field of the record, read from the body or 0 when no line sets it. */
  function FromMdl(block: Option<seq<string>>, km: KeyMap, fields: seq<string>): (r: Result<map<string, int>>)
    ensures block.None? <==> r.Err?
    ensures r.Err? ==> r.error == AttributeError
    ensures r.Ok? ==> forall f :: f in r.value <==> f in fields
  {
    match block
    case None => Err(AttributeError)
    case Some(body) =>
      var parsed := Scan(body, Inverse(km));
      Ok(map f | f in fields :: if f in parsed then parsed[f] else 0)
  }

  /** A field some line sets holds the value of the last such line; any
      other field holds 0. */
  lemma FromMdlValue(body: seq<string>, km: KeyMap, fields: seq<string>, f: string)
    requires f in fields
    ensures var parsed := Scan(body, Inverse(km));
            FromMdl(Some(body), km, fields).value[f] == if f in parsed then parsed[f] else 0
  {
  }

  /** Each field takes the value of the last body line that sets it, and
      0 when none does; lines that do not match or carry an unknown label
      set nothing. */
  lemma FromMdlFields(body: seq<string>, km: KeyMap, fields: seq<string>, f: string)
    requires f in fields
    ensures var asg := Assigned(body, Inverse(km));
            (forall k :: !Sets(asg, f, k)) ==> FromMdl(Some(body), km, fields).value[f] == 0
    ensures var asg := Assigned(body, Inverse(km));
            (exists k :: Sets(asg, f, k)) ==>
              exists k :: LastSets(asg, f, k) && FromMdl(Some(body), km, fields).value[f] == asg[k].value.1
  {
    FromMdlValue(body, km, fields, f);
    ScanLast(body, Inverse(km), f);
  }

  // ---------------------------------------------------------------
  // to_string
  // ---------------------------------------------------------------

  /** `getattr(instance, field, 0)`. */
  function ValueOf(values: map<string, int>, f: string): int {
    if f in values then values[f] else 0
  }

  /** The lines of `to_string`: the header `*KEY*`, then one line per
      table entry in table order, formatted by `format_line`. */
  function ToLines(blockKey: string, km: KeyMap, values: map<string, int>, formatLine: (string, int) -> string): (r: seq<string>)
    ensures |r| == |km| + 1 && r[0] == "*" + blockKey + "*"
    ensures forall k :: 0 <= k < |km| ==> r[k + 1] == formatLine(km[k].1, ValueOf(values, km[k].0))
  {
    ["*" + blockKey + "*"] + BodyLines(km, values, formatLine)
  }

  /** `to_string`: the lines joined by newlines. */
  function ToText(blockKey: string, km: KeyMap, values: map<string, int>, formatLine: (string, int) -> string): string {
    JoinWith(ToLines(blockKey, km, values, formatLine), "\n")
  }

  /** The table lines without the header. */
  function BodyLines(km: KeyMap, values: map<string, int>, formatLine: (string, int) -> string): (r: seq<string>)
    ensures |r| == |km|
    ensures forall k :: 0 <= k < |km| ==> r[k] == formatLine(km[k].1, ValueOf(values, km[k].0))
  {
    seq(|km|, k requires 0 <= k < |km| => formatLine(km[k].1, ValueOf(values, km[k].0)))
  }

  /** `to_block`: the table lines as a block under the block key, built
      by `from_lines`. */
  function ToBlock(blockKey: string, km: KeyMap, values: map<string, int>, formatLine: (string, int) -> string): (r: ModelText.Block)
    ensures r.header == blockKey
    ensures r.body == ModelText.Clean(ToLines(blockKey, km, values, formatLine)[1..])
  {
    ModelText.FromLines(blockKey, BodyLines(km, values, formatLine))
  }

  /** `to_model`: the block stored in the model under the block key. */
  function ToModel(blockKey: string, km: KeyMap, values: map<string, int>, formatLine: (string, int) -> string,
                   blocks: seq<ModelText.Block>): (r: seq<ModelText.Block>)
    ensures ModelText.Distinct(blocks) ==> ModelText.Distinct(r)
    ensures ModelText.Lookup(r, blockKey) == Some(ToBlock(blockKey, km, values, formatLine).body)
    ensures forall h :: h != blockKey ==> ModelText.Lookup(r, h) == ModelText.Lookup(blocks, h)
  {
    var b := ToBlock(blockKey, km, values, formatLine);
    forall h
      ensures ModelText.Lookup(ModelText.Put(blocks, b), h) == if h == blockKey then Some(b.body) else ModelText.Lookup(blocks, h)
    {
      ModelText.PutLookup(blocks, b, h);
    }
    ModelText.PutDistinct(blocks, b);
    ModelText.Put(blocks, b)
  }

  /** `from_mdl` on a model: the block under the block key. */
  function FromModel(blockKey: string, km: KeyMap, fields: seq<string>, blocks: seq<ModelText.Block>): (r: Result<map<string, int>>)
    ensures r.Err? <==> ModelText.Lookup(blocks, blockKey).None?
  {
    FromMdl(ModelText.Lookup(blocks, blockKey), km, fields)
  }

  // ---------------------------------------------------------------
  // Round trip
  // ---------------------------------------------------------------

  /** The "label = value" line format. */
  function AssignLine(tag: string, value: int): string {
    tag + " = " + IntToString(value)
  }

  /** A label the line pattern reads back whole. */
  predicate GoodLabel(l: string) {
    |l| > 0 && !IsSpace(l[0]) && !IsSpace(l[|l| - 1]) && forall j :: 0 <= j < |l| ==> l[j] != '='
  }

  /** A table with distinct non-empty field names and distinct labels
      that read back whole. */
  predicate GoodTable(km: KeyMap) {
    && (forall k :: 0 <= k < |km| ==> |km[k].0| > 0 && GoodLabel(km[k].1))
    && (forall i, j :: 0 <= i < j < |km| ==> km[i].0 != km[j].0 && km[i].1 != km[j].1)
  }

  lemma IntToStringChars(i: int)
    ensures forall j :: 0 <= j < |IntToString(i)| ==> IntToString(i)[j] != '='
    ensures IsIntText(IntToString(i)) && IntText(IntToString(i)) == i
  {
    var s := IntToString(i);
    if i < 0 {
      var ds := NatToString(-i);
      assert s[1..] == ds;
    }
  }

  /** Text without `c` after a prefix leaves the last `c` where it was. */
  lemma {:induction false} LastIndexSkip(a: string, b: string, c: char)
    requires forall j :: 0 <= j < |b| ==> b[j] != c
    ensures LastIndex(a + b, c) == LastIndex(a, c)
    decreases |b|
  {
    if |b| > 0 {
      var ab := a + b;
      assert ab[..|ab| - 1] == a + b[..|b| - 1];
      LastIndexSkip(a, b[..|b| - 1], c);
    } else {
      assert a + b == a;
    }
  }

  /** The pieces the pattern finds in a "label = value" line. */
  lemma AssignLineParts(tag: string, value: int)
    requires GoodLabel(tag)
    ensures var t, e := AssignLine(tag, value), |tag| + 1;
            && Strip(t) == t && LastIndex(t, '=') == Some(e)
            && t[..e] == tag + " " && t[e + 1..] == " " + IntToString(value)
  {
    var n := IntToString(value);
    var a, b := tag + " =", " " + n;
    var t := AssignLine(tag, value);
    assert t == a + b;
    IntToStringChars(value);
    LastIndexSkip(a, b, '=');
    StripIdentity(t);
  }

  /** A "label = value" line reads back as that label and value. */
  lemma AssignLineMatch(tag: string, value: int)
    requires GoodLabel(tag)
    ensures MatchAssign(AssignLine(tag, value)) == Some((tag, value))
  {
    AssignLineParts(tag, value);
    KeyPart(tag);
    ValuePart(value);
    MatchFromParts(AssignLine(tag, value), |tag| + 1, tag, value);
  }

  lemma MatchFromParts(line: string, e: nat, key: string, v: int)
    requires LastIndex(Strip(line), '=') == Some(e)
    requires Strip(RStrip(Strip(line)[..e])) == key
    requires IsIntText(LStrip(Strip(line)[e + 1..])) && IntText(LStrip(Strip(line)[e + 1..])) == v
    ensures MatchAssign(line) == Some((key, v))
  {
  }

  lemma KeyPart(tag: string)
    requires GoodLabel(tag)
    ensures Strip(RStrip(tag + " ")) == tag
  {
    assert RStrip(tag + " ") == tag by {
      assert (tag + " ")[..|tag|] == tag;
    }
    StripIdentity(tag);
  }

  lemma ValuePart(value: int)
    ensures IsIntText(LStrip(" " + IntToString(value))) && IntText(LStrip(" " + IntToString(value))) == value
  {
    var n := IntToString(value);
    IntToStringChars(value);
    assert LStrip(" " + n) == n by {
      assert (" " + n)[1..] == n;
    }
  }

  /** In a good table each label names its own field. */
  lemma {:induction false} InverseAt(km: KeyMap, k: nat)
    requires GoodTable(km) && k < |km|
    ensures km[k].1 in Inverse(km) && Inverse(km)[km[k].1] == km[k].0
    decreases |km|
  {
    var n := |km| - 1;
    if k < n {
      var p := km[..n];
      assert GoodTable(p) by {
        assert forall j :: 0 <= j < n ==> p[j] == km[j];
      }
      InverseAt(p, k);
      assert km[n].1 != km[k].1;
    }
  }

  /** The k-th table line sets exactly the k-th field. */
  lemma WrittenLineSets(km: KeyMap, values: map<string, int>, k: nat)
    requires GoodTable(km) && k < |km|
    ensures Assignment(AssignLine(km[k].1, ValueOf(values, km[k].0)), Inverse(km)) ==
              Some((km[k].0, ValueOf(values, km[k].0)))
  {
    AssignLineMatch(km[k].1, ValueOf(values, km[k].0));
    InverseAt(km, k);
  }

  /** The k-th body line of a written record sets exactly the k-th
      field, to its value. */
  lemma BodyLineSets(blockKey: string, km: KeyMap, values: map<string, int>, k: nat)
    requires GoodTable(km) && k < |km|
    ensures var body := ToLines(blockKey, km, values, AssignLine)[1..];
            k < |body| && Assigned(body, Inverse(km))[k] == Some((km[k].0, ValueOf(values, km[k].0)))
  {
    var body := ToLines(blockKey, km, values, AssignLine)[1..];
    assert body[k] == AssignLine(km[k].1, ValueOf(values, km[k].0));
    WrittenLineSets(km, values, k);
  }

  /** Writing a record with the "label = value" format and reading the
      body back gives every table field its value (0 for a field the
      record lacks) and 0 to every other field. */
  lemma RoundTrip(blockKey: string, km: KeyMap, values: map<string, int>, fields: seq<string>, f: string)
    requires GoodTable(km) && f in fields
    ensures var body := ToLines(blockKey, km, values, AssignLine)[1..];
            FromMdl(Some(body), km, fields).value[f] ==
              if exists k :: 0 <= k < |km| && km[k].0 == f then ValueOf(values, f) else 0
  {
    if exists k :: 0 <= k < |km| && km[k].0 == f {
      var k :| 0 <= k < |km| && km[k].0 == f;
      RoundTripField(blockKey, km, values, fields, f, k);
    } else {
      RoundTripOther(blockKey, km, values, fields, f);
    }
  }

  lemma RoundTripField(blockKey: string, km: KeyMap, values: map<string, int>, fields: seq<string>, f: string, k: nat)
    requires GoodTable(km) && f in fields && k < |km| && km[k].0 == f
    ensures FromMdl(Some(ToLines(blockKey, km, values, AssignLine)[1..]), km, fields).value[f] == ValueOf(values, f)
  {
    var body := ToLines(blockKey, km, values, AssignLine)[1..];
    var asg := Assigned(body, Inverse(km));
    FromMdlFields(body, km, fields, f);
    BodyLineSets(blockKey, km, values, k);
    assert Sets(asg, f, k);
    var j :| LastSets(asg, f, j) && FromMdl(Some(body), km, fields).value[f] == asg[j].value.1;
    BodyLineSets(blockKey, km, values, j);
  }

  lemma RoundTripOther(blockKey: string, km: KeyMap, values: map<string, int>, fields: seq<string>, f: string)
    requires GoodTable(km) && f in fields && forall k :: 0 <= k < |km| ==> km[k].0 != f
    ensures FromMdl(Some(ToLines(blockKey, km, values, AssignLine)[1..]), km, fields).value[f] == 0
  {
    var body := ToLines(blockKey, km, values, AssignLine)[1..];
    var asg := Assigned(body, Inverse(km));
    assert |body| == |km|;
    FromMdlFields(body, km, fields, f);
    forall k | 0 <= k < |body|
      ensures !Sets(asg, f, k)
    {
      BodyLineSets(blockKey, km, values, k);
    }
  }

  /** A "label = value" line is already tidy: `from_lines` keeps it. */
  lemma AssignLineTidy(tag: string, value: int)
    ensures ModelText.Tidy(AssignLine(tag, value))
  {
    var n := IntToString(value);
    assert AssignLine(tag, value)[|AssignLine(tag, value)| - 1] == n[|n| - 1];
  }

  /** Storing a record in a model with `to_model` and reading it back
      with `from_mdl` gives every table field its value and 0 to every
      other field, whatever else the model holds. */
  lemma ModelRoundTrip(blockKey: string, km: KeyMap, values: map<string, int>, fields: seq<string>,
                       blocks: seq<ModelText.Block>, f: string)
    requires GoodTable(km) && f in fields
    ensures var r := FromModel(blockKey, km, fields, ToModel(blockKey, km, values, AssignLine, blocks));
            r.Ok? && r.value[f] == if exists k :: 0 <= k < |km| && km[k].0 == f then ValueOf(values, f) else 0
  {
    var body := ToLines(blockKey, km, values, AssignLine)[1..];
    forall k | 0 <= k < |body|
      ensures ModelText.Tidy(body[k])
    {
      AssignLineTidy(km[k].1, ValueOf(values, km[k].0));
    }
    ModelText.CleanTidy(body);
    RoundTrip(blockKey, km, values, fields, f);
  }
}
