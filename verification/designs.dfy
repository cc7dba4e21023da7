/** The sort key of designs (`DesignsComparer` in collection/designs.py):
    designs are ordered by their type's position in `type_sort_rules`,
    then by the parts of their name (prefix, every number, suffix), then
    by per-type dimensions. */
module Designs {
  import opened Wrappers
  import opened Text
  import opened Keys
  import opened Sorting
  import opened Scan
  import opened Merge

  /** `(prefix, nums, suffix)` as `_parse_name_parts` returns it; a
      number is a `Num`, the placeholder `float("inf")` is `Inf`. */
  datatype NameParts = NameParts(prefix: string, nums: seq<Atom>, suffix: string)

  /** `re.match(r"([A-Za-z_]+)", name)`, upper-cased, or "". */
  function NamePrefix(name: string): (r: string)
    ensures |r| <= |name| && r == Upper(name[..|r|])
    ensures forall i :: 0 <= i < |r| ==> IsPrefixChar(name[i])
    ensures |r| < |name| ==> !IsPrefixChar(name[|r|])
  {
    Upper(name[..Run(name, IsPrefixChar)])
  }

  /** Every `\d+(?:\.\d+)?` in the name as a number, or `[inf]` when the
      name has no digit. */
  function NameNumbers(name: string): (r: seq<Atom>)
    ensures |r| >= 1 && forall k :: 0 <= k < |r| ==> r[k].Num? || r[k].Inf?
    ensures NoDigit(name) <==> r == [Inf]
    ensures !NoDigit(name) ==>
              |r| == |FindNumbers(name)| &&
              forall k :: 0 <= k < |r| ==> r[k] == Num(StrictNumberValue(FindNumbers(name)[k]))
  {
    var toks := FindNumbers(name);
    if |toks| == 0 then [Inf]
    else
      var vs := NumberValues(toks);
      var r := seq(|vs|, k requires 0 <= k < |vs| => Num(vs[k]));
      assert r[0] != Inf;
      r
  }

  /** `re.search(r"\d(?:[^\d]*?)([A-Za-z]+)$", name)`: the match must
      start at the last digit, and the lazy gap leaves the whole trailing
      run of letters to the group; with no digit there is no match. */
  function DesignSuffix(name: string): (r: string)
    ensures NoDigit(name) ==> r == ""
    ensures AllLetters(r) && EndsWith(name, r)
    ensures !NoDigit(name) && |r| < |name| ==> !IsLetter(name[|name| - |r| - 1])
  {
    if NoDigit(name) then "" else name[|name| - TailRun(name, IsLetter)..]
  }

  /** `DesignsComparer._parse_name_parts`. */
  function DesignNameParts(name: string): (r: NameParts)
  {
    if |name| == 0 then NameParts("", [Inf], "")
    else NameParts(NamePrefix(name), NameNumbers(name), DesignSuffix(name))
  }

  /** The empty-name branch gives what the general rule would give: an
      empty name has no prefix, no digit and so no suffix. */
  lemma EmptyNameAsGeneral()
    ensures DesignNameParts("") == NameParts(NamePrefix(""), NameNumbers(""), DesignSuffix(""))
  {
    assert NoDigit("");
  }

  /** The prefix of a name is its leading run of letters and
      underscores, upper-cased. */
  lemma PrefixOf(pre: string, rest: string)
    requires forall i :: 0 <= i < |pre| ==> IsPrefixChar(pre[i])
    requires |rest| > 0 ==> !IsPrefixChar(rest[0])
    ensures NamePrefix(pre + rest) == Upper(pre)
    ensures NoDigit(pre)
  {
    RunConcat(pre, rest, IsPrefixChar);
    assert (pre + rest)[..|pre|] == pre;
    forall i | 0 <= i < |pre| ensures !IsDigit(pre[i]) {
      assert IsPrefixChar(pre[i]);
    }
  }

  /** The suffix of a name with a digit is its trailing run of letters. */
  lemma SuffixOf(body: string, suf: string)
    requires !NoDigit(body) && |body| > 0 && !IsLetter(body[|body| - 1])
    requires AllLetters(suf)
    ensures DesignSuffix(body + suf) == suf
  {
    var i :| 0 <= i < |body| && IsDigit(body[i]);
    assert (body + suf)[i] == body[i];
    TailRunConcat(body, suf, IsLetter);
    assert (body + suf)[|body|..] == suf;
  }

  /** The numbers of a name with one match, and with two. */
  lemma OneNumberOf(name: string, t: string)
    requires FindNumbers(name) == [t]
    ensures IsStrictNumber(t) && NameNumbers(name) == [Num(StrictNumberValue(t))]
  {
    assert FindNumbers(name)[0] == t;
    assert !NoDigit(name);
  }

  lemma TwoNumbersOf(name: string, t1: string, t2: string)
    requires FindNumbers(name) == [t1, t2]
    ensures IsStrictNumber(t1) && IsStrictNumber(t2)
    ensures NameNumbers(name) == [Num(StrictNumberValue(t1)), Num(StrictNumberValue(t2))]
  {
    assert FindNumbers(name)[0] == t1 && FindNumbers(name)[1] == t2;
    assert !NoDigit(name);
  }

  lemma LettersNoDigit(s: string)
    requires AllLetters(s)
    ensures NoDigit(s)
  {
    forall i | 0 <= i < |s| ensures !IsDigit(s[i]) {
      assert IsLetter(s[i]);
    }
  }

  /** `findall` on digits, a separator, digits and letters. */
  lemma FindTwo(d1: string, sep: string, d2: string, suf: string)
    requires |d1| > 0 && AllDigits(d1) && |d2| > 0 && AllDigits(d2)
    requires |sep| > 0 && NoDigit(sep) && sep[0] != '.'
    requires AllLetters(suf)
    ensures FindNumbers(d1 + (sep + (d2 + suf))) == [d1, d2]
  {
    FindNumbersDigits(d1, sep + (d2 + suf));
    FindNumbersSkip(sep, d2 + suf);
    LettersNoDigit(suf);
    FindNumbersDigits(d2, suf);
  }

  lemma Regroup(pre: string, d1: string, sep: string, d2: string, suf: string)
    requires |d1| > 0
    ensures pre + d1 + sep + d2 + suf == pre + (d1 + (sep + (d2 + suf)))
    ensures (pre + d1 + sep + d2)[|pre|] == d1[0]
  {
  }

  /** A name made of a prefix run, digits, a separator without digits,
      more digits and a run of letters splits into exactly those parts. */
  lemma TwoNumberName(pre: string, d1: string, sep: string, d2: string, suf: string)
    requires |pre| > 0 && forall i :: 0 <= i < |pre| ==> IsPrefixChar(pre[i])
    requires |d1| > 0 && AllDigits(d1) && |d2| > 0 && AllDigits(d2)
    requires |sep| > 0 && NoDigit(sep) && sep[0] != '.'
    requires AllLetters(suf)
    ensures DesignNameParts(pre + d1 + sep + d2 + suf) ==
            NameParts(Upper(pre), [Num(DigitsValue(d1) as real), Num(DigitsValue(d2) as real)], suf)
  {
    var body := pre + d1 + sep + d2;
    var rest := sep + (d2 + suf);
    var tail := d1 + rest;
    var name := body + suf;
    Regroup(pre, d1, sep, d2, suf);
    PrefixOf(pre, tail);
    FindNumbersSkip(pre, tail);
    FindTwo(d1, sep, d2, suf);
    TwoNumbersOf(name, d1, d2);
    SuffixOf(body, suf);
  }

  /** The same for a name with one number. */
  lemma OneNumberName(pre: string, d1: string, suf: string)
    requires |pre| > 0 && forall i :: 0 <= i < |pre| ==> IsPrefixChar(pre[i])
    requires |d1| > 0 && AllDigits(d1)
    requires AllLetters(suf)
    ensures DesignNameParts(pre + d1 + suf) == NameParts(Upper(pre), [Num(DigitsValue(d1) as real)], suf)
  {
    var body := pre + d1;
    var tail := d1 + suf;
    var name := body + suf;
    RegroupOne(pre, d1, suf);
    PrefixOf(pre, tail);
    FindNumbersSkip(pre, tail);
    FindOne(d1, suf);
    OneNumberOf(name, d1);
    SuffixOf(body, suf);
  }

  /** `findall` on digits and letters. */
  lemma FindOne(d1: string, suf: string)
    requires |d1| > 0 && AllDigits(d1)
    requires AllLetters(suf)
    ensures FindNumbers(d1 + suf) == [d1]
    ensures StrictNumberValue(d1) == DigitsValue(d1) as real
  {
    LettersNoDigit(suf);
    FindNumbersDigits(d1, suf);
    assert [d1] + FindNumbers(suf) == [d1];
  }

  lemma RegroupOne(pre: string, d1: string, suf: string)
    requires |d1| > 0
    ensures pre + d1 + suf == pre + (d1 + suf)
    ensures (pre + d1)[|pre|] == d1[0]
  {
  }

  /** The docstring's example `B15/20A`, as the code computes it. */
  lemma DesignNameExample()
    ensures DesignNameParts("B15/20A") == NameParts("B", [Num(15.0), Num(20.0)], "A")
  {
    Value15();
    assert Upper("B") == "B";
    assert "B15/20A" == "B" + "15" + "/" + "20" + "A";
    TwoNumberName("B", "15", "/", "20", "A");
  }

  /** For `RECT_200X400` the prefix keeps its underscore and the `X`
      between the numbers is no suffix. */
  lemma RectNameExample()
    ensures DesignNameParts("RECT_200X400") == NameParts("RECT_", [Num(200.0), Num(400.0)], "")
  {
    assert DigitsValue("200") == 200 && DigitsValue("400") == 400 by {
      assert "200"[..2] == "20" && "20"[..1] == "2";
      assert "400"[..2] == "40" && "40"[..1] == "4";
    }
    assert Upper("RECT_") == "RECT_";
    assert "RECT_200X400" == "RECT_" + "200" + "X" + "400" + "";
    TwoNumberName("RECT_", "200", "X", "400", "");
  }

  // ---------------------------------------------------------------
  // get_sort_key
  // ---------------------------------------------------------------

  /** The classes of `type_sort_rules`, in definition order. */
  const DesignTypes: seq<string> := ["DesignConcreteSlab", "DesignConcreteGirder", "DesignConcreteBiaxialColumn",
                                     "DesignConcreteCircularColumn", "DesignConcreteWall"]

  /** The per-type dimensions that follow the name parts, for the type
      at position `p` of `DesignTypes`. */
  function DesignDims(d: Named, p: nat): (r: seq<Atom>)
    ensures p >= |DesignTypes| ==> r == []
    ensures forall k :: 0 <= k < |r| ==> r[k] in {AttrAtom(d, "tp"), AttrAtom(d, "bw"), AttrAtom(d, "ht"),
                                                  AttrAtom(d, "b"), AttrAtom(d, "h"), AttrAtom(d, "d")}
  {
    if p == 0 || p == 4 then [AttrAtom(d, "tp")]
    else if p == 1 then [AttrAtom(d, "bw"), AttrAtom(d, "ht")]
    else if p == 2 then [AttrAtom(d, "b"), AttrAtom(d, "h")]
    else if p == 3 then [AttrAtom(d, "d")]
    else []
  }

  /** The name parts as they appear in the key: prefix, every number,
      suffix. */
  function NameKey(parts: NameParts): (k: Key)
    ensures |k| == |parts.nums| + 2
    ensures k[0] == Text(parts.prefix) && k[|k| - 1] == Text(parts.suffix)
    ensures forall j :: 0 <= j < |parts.nums| ==> k[1 + j] == parts.nums[j]
  {
    [Text(parts.prefix)] + parts.nums + [Text(parts.suffix)]
  }

  /** `DesignsComparer.get_sort_key`. */
  function DesignKey(d: Named): (k: Key)
    ensures |k| >= 2 && k[0] == Num(TypePriority(DesignTypes, d.cls) as real)
    ensures d.cls !in DesignTypes ==> k == [Num(|DesignTypes| as real), Inf]
    ensures d.cls in DesignTypes ==>
              var p := TypePriority(DesignTypes, d.cls);
              k == [Num(p as real)] + NameKey(DesignNameParts(d.name)) + DesignDims(d, p)
  {
    var p := TypePriority(DesignTypes, d.cls);
    if p == |DesignTypes| then [Num(p as real), Inf]
    else [Num(p as real)] + NameKey(DesignNameParts(d.name)) + DesignDims(d, p)
  }

  /** Two keys that agree up to a name whose numbers run on past the
      other's make Python compare a suffix with a number. */
  lemma NameKeyTypeError(h: Key, pa: NameParts, pb: NameParts, xa: Key, xb: Key)
    requires pa.prefix == pb.prefix
    requires |pa.nums| < |pb.nums| && pb.nums[..|pa.nums|] == pa.nums
    requires !pb.nums[|pa.nums|].Text?
    ensures PyKeyLess(h + NameKey(pa) + xa, h + NameKey(pb) + xb) == Err(TypeError)
  {
    var ka := h + NameKey(pa) + xa;
    var kb := h + NameKey(pb) + xb;
    var n := |pa.nums|;
    var i := |h| + 1 + n;
    assert ka[..i] == kb[..i] by {
      forall j | 0 <= j < i ensures ka[j] == kb[j] {
        if j > |h| {
          assert pb.nums[..n][j - |h| - 1] == pb.nums[j - |h| - 1];
        }
      }
    }
    assert ka[i] == Text(pa.suffix);
    assert kb[i] == pb.nums[n];
    PyKeyLessAt(ka, kb, i);
  }

  /** A design of a type listed earlier sorts first, and Python's tuple
      comparison decides it at the first position without raising. */
  lemma DesignTypeOrder(a: Named, b: Named)
    requires TypePriority(DesignTypes, a.cls) < TypePriority(DesignTypes, b.cls)
    ensures KeyLess(DesignKey(a), DesignKey(b))
    ensures PyKeyLess(DesignKey(a), DesignKey(b)) == Ok(true)
  {
    var ka := DesignKey(a);
    var kb := DesignKey(b);
    assert ka[0] != kb[0];
  }

  /** As written, two designs of one type with the same prefix, where the
      numbers of the first name begin the numbers of the second and are
      fewer, make Python compare the first name's suffix (a string) with
      the second name's next number: `TypeError`. */
  lemma DesignKeyTypeError(a: Named, b: Named)
    requires a.cls == b.cls && a.cls in DesignTypes
    requires DesignNameParts(a.name).prefix == DesignNameParts(b.name).prefix
    requires var na := DesignNameParts(a.name).nums; var nb := DesignNameParts(b.name).nums;
             |na| < |nb| && nb[..|na|] == na
    ensures PyKeyLess(DesignKey(a), DesignKey(b)) == Err(TypeError)
  {
    var p := TypePriority(DesignTypes, a.cls);
    var pa := DesignNameParts(a.name);
    var pb := DesignNameParts(b.name);
    assert !pb.nums[|pa.nums|].Text?;
    NameKeyTypeError([Num(p as real)], pa, pb, DesignDims(a, p), DesignDims(b, p));
  }

  lemma Value15()
    ensures DigitsValue("15") == 15 && DigitsValue("20") == 20
  {
    assert "15"[..1] == "1";
    assert "20"[..1] == "2";
  }

  lemma B15Parts(name: string)
    requires name == "B15"
    ensures DesignNameParts(name) == NameParts("B", [Num(15.0)], "")
  {
    Value15();
    assert Upper("B") == "B";
    assert "B15" == "B" + "15" + "";
    OneNumberName("B", "15", "");
  }

  lemma B15Over20Parts(name: string)
    requires name == "B15/20"
    ensures DesignNameParts(name) == NameParts("B", [Num(15.0), Num(20.0)], "")
  {
    Value15();
    assert Upper("B") == "B";
    assert "B15/20" == "B" + "15" + "/" + "20" + "";
    TwoNumberName("B", "15", "/", "20", "");
  }

  /** The names `B15` and `B15/20` meet that condition: sorting two
      girders (or two designs of any one known type) so named raises. */
  lemma DesignKeyTypeErrorExample(a: Named, b: Named)
    requires a.cls == b.cls && a.cls in DesignTypes
    requires a.name == "B15" && b.name == "B15/20"
    ensures PyKeyLess(DesignKey(a), DesignKey(b)) == Err(TypeError)
  {
    B15Parts(a.name);
    B15Over20Parts(b.name);
    var na := DesignNameParts(a.name).nums;
    var nb := DesignNameParts(b.name).nums;
    assert nb[..|na|] == na;
    assert DesignNameParts(a.name).prefix == DesignNameParts(b.name).prefix;
    assert |na| < |nb|;
    DesignKeyTypeError(a, b);
  }

  /** The model's order on design keys is total (numbers sort before
      strings where Python would raise) and agrees with Python wherever
      Python answers; sorting designs by it is a stable permutation into
      key order. */
  lemma DesignOrderTotal(a: Named, b: Named, s: seq<Rec>)
    ensures DesignKey(a) == DesignKey(b) || KeyLess(DesignKey(a), DesignKey(b)) || KeyLess(DesignKey(b), DesignKey(a))
    ensures PyKeyLess(DesignKey(a), DesignKey(b)).Ok? ==>
              PyKeyLess(DesignKey(a), DesignKey(b)).value == KeyLess(DesignKey(a), DesignKey(b))
    ensures SortedBy(SortBy(s, ByKey(DesignKey)), ByKey(DesignKey))
    ensures multiset(SortBy(s, ByKey(DesignKey))) == multiset(s)
    ensures StableOf(s, SortBy(s, ByKey(DesignKey)), ByKey(DesignKey))
  {
    if DesignKey(a) != DesignKey(b) {
      KeyLessTotal(DesignKey(a), DesignKey(b));
    }
    if PyKeyLess(DesignKey(a), DesignKey(b)).Ok? {
      PyKeyLessAgrees(DesignKey(a), DesignKey(b));
    }
    SortByCorrect(s, ByKey(DesignKey));
  }
}
