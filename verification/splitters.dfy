/** The anchored name patterns of the section and material factories,
    written as scanners over ASCII text:

    - thickness and circle names `^([A-Za-z]+)(\d+\.?\d*)([A-Za-z]*)$`
      (`S15`, `FC20B`), and isotropic material names, the same pattern
      without a suffix;
    - rect names `^([A-Za-z]+)(\d+\.?\d*)([xX×/:\-_])(\d+\.?\d*)([A-Za-z]*)$`
      (`B15x30A`, `C200_400B`);
    - tee names, a prefix, two or more numbers joined by separators and a
      suffix (`T30X40X15X25`).

    Letters, digits and the point are disjoint classes, so each pattern
    splits a name in at most one way: every scanner below takes the
    longest run at each step, and an `Exact` lemma shows it finds every
    decomposition the pattern admits. */
module Splitters {
  import opened Wrappers
  import opened Text
  import opened Scan

  /** The separator class `[xX×/:\-_]`. */
  predicate IsSeparator(c: char) {
    c == 'x' || c == 'X' || c == '\U{D7}' || c == '/' || c == ':' || c == '-' || c == '_'
  }

  lemma LooseNumberStartsWithDigit(num: string)
    requires IsLooseNumber(num)
    ensures |num| > 0 && IsDigit(num[0])
  {
  }

  lemma LettersAreNotNumberChars(s: string)
    requires AllLetters(s)
    ensures |s| > 0 ==> !IsDigit(s[0]) && s[0] != '.'
    ensures |s| > 1 ==> !IsDigit(s[1])
  {
  }

  /** The leading run of letters and what follows it. */
  function SplitLetters(s: string): (r: (string, string))
    ensures s == r.0 + r.1 && AllLetters(r.0)
    ensures |r.1| > 0 ==> !IsLetter(r.1[0])
  {
    var p := Run(s, IsLetter);
    assert s == s[..p] + s[p..];
    (s[..p], s[p..])
  }

  lemma SplitLettersConcat(pre: string, rest: string)
    requires AllLetters(pre)
    requires |rest| > 0 ==> !IsLetter(rest[0])
    ensures SplitLetters(pre + rest) == (pre, rest)
  {
    RunConcat(pre, rest, IsLetter);
  }

  /** The longest loose number at the start of `s` (empty when `s` does
      not start with a digit) and what follows it. */
  function SplitNumber(s: string): (r: (string, string))
    ensures s == r.0 + r.1
    ensures |r.0| > 0 ==> IsLooseNumber(r.0)
    ensures |r.0| == 0 <==> |s| == 0 || !IsDigit(s[0])
    ensures |r.0| > 0 && |r.1| > 0 ==> !IsDigit(r.1[0])
  {
    var n := LooseNumberLen(s);
    assert s == s[..n] + s[n..];
    (s[..n], s[n..])
  }

  lemma SplitNumberConcat(num: string, rest: string)
    requires IsLooseNumber(num)
    requires |rest| > 0 ==> !IsDigit(rest[0]) && rest[0] != '.'
    ensures SplitNumber(num + rest) == (num, rest)
  {
    LooseNumberLenConcat(num, rest);
  }

  // ---------------------------------------------------------------
  // _split_thickness and _split_isotropic
  // ---------------------------------------------------------------

  predicate ThicknessShaped(prefix: string, num: string, suffix: string) {
    |prefix| > 0 && AllLetters(prefix) && IsLooseNumber(num) && AllLetters(suffix)
  }

  /** The groups of `^([A-Za-z]+)(\d+\.?\d*)([A-Za-z]*)$`, or None when the
      name does not match. */
  function ThicknessMatch(name: string): (r: Option<(string, string, string)>)
    ensures r.Some? ==> ThicknessShaped(r.value.0, r.value.1, r.value.2) &&
                        name == r.value.0 + (r.value.1 + r.value.2)
  {
    var (prefix, t1) := SplitLetters(name);
    var (num, suffix) := SplitNumber(t1);
    if |prefix| == 0 || |num| == 0 || !AllLetters(suffix) then None
    else Some((prefix, num, suffix))
  }

  /** The pattern admits one decomposition, and the scanner finds it. */
  lemma ThicknessMatchExact(prefix: string, num: string, suffix: string)
    requires ThicknessShaped(prefix, num, suffix)
    ensures ThicknessMatch(prefix + (num + suffix)) == Some((prefix, num, suffix))
  {
    LooseNumberStartsWithDigit(num);
    SplitLettersConcat(prefix, num + suffix);
    LettersAreNotNumberChars(suffix);
    SplitNumberConcat(num, suffix);
  }

  /** `SectionsFactory._split_thickness`: prefix, `float` of the number,
      suffix; `ValueError` when the name does not match. */
  function SplitThickness(name: string): (r: Result<(string, real, string)>)
    ensures r.Err? ==> r.error == ValueError
    ensures r.Ok? ==> exists num :: ThicknessShaped(r.value.0, num, r.value.2) &&
                                    name == r.value.0 + (num + r.value.2) && r.value.1 == LooseNumberValue(num)
  {
    match ThicknessMatch(name)
    case None => Err(ValueError)
    case Some((prefix, num, suffix)) => Ok((prefix, LooseNumberValue(num), suffix))
  }

  /** Every name of the thickness shape splits back into its parts. */
  lemma SplitThicknessExact(prefix: string, num: string, suffix: string)
    requires ThicknessShaped(prefix, num, suffix)
    ensures SplitThickness(prefix + (num + suffix)) == Ok((prefix, LooseNumberValue(num), suffix))
  {
    ThicknessMatchExact(prefix, num, suffix);
  }

  /** A name the split rejects has no decomposition of that shape. */
  lemma SplitThicknessRejects(name: string, prefix: string, num: string, suffix: string)
    requires SplitThickness(name).Err?
    ensures !(ThicknessShaped(prefix, num, suffix) && name == prefix + (num + suffix))
  {
    if ThicknessShaped(prefix, num, suffix) && name == prefix + (num + suffix) {
      ThicknessMatchExact(prefix, num, suffix);
    }
  }

  /** `MaterialsFactory._split_isotropic`: `^([A-Za-z]+)(\d+\.?\d*)$`, the
      thickness pattern with an empty suffix. */
  function SplitIsotropic(name: string): (r: Result<(string, real)>)
    ensures r.Err? ==> r.error == ValueError
    ensures r.Ok? ==> exists num :: ThicknessShaped(r.value.0, num, "") &&
                                    name == r.value.0 + num && r.value.1 == LooseNumberValue(num)
  {
    match ThicknessMatch(name)
    case Some((prefix, num, suffix)) =>
      if |suffix| == 0 then
        assert num + suffix == num;
        Ok((prefix, LooseNumberValue(num)))
      else Err(ValueError)
    case None => Err(ValueError)
  }

  lemma SplitIsotropicExact(prefix: string, num: string)
    requires ThicknessShaped(prefix, num, "")
    ensures SplitIsotropic(prefix + num) == Ok((prefix, LooseNumberValue(num)))
  {
    assert num + "" == num;
    ThicknessMatchExact(prefix, num, "");
  }

  lemma SplitIsotropicRejects(name: string, prefix: string, num: string)
    requires SplitIsotropic(name).Err?
    ensures !(ThicknessShaped(prefix, num, "") && name == prefix + num)
  {
    if ThicknessShaped(prefix, num, "") && name == prefix + num {
      SplitIsotropicExact(prefix, num);
    }
  }

  // ---------------------------------------------------------------
  // _split_rect
  // ---------------------------------------------------------------

  datatype RectParts = RectParts(prefix: string, num1: string, sep: char, num2: string, suffix: string)

  predicate RectShaped(r: RectParts) {
    |r.prefix| > 0 && AllLetters(r.prefix) && TailShaped(r)
  }

  /** Everything of a rect name but its prefix is well formed. */
  predicate TailShaped(r: RectParts) {
    IsLooseNumber(r.num1) && IsSeparator(r.sep) && IsLooseNumber(r.num2) && AllLetters(r.suffix)
  }

  function TailText(r: RectParts): string {
    r.num1 + ([r.sep] + (r.num2 + r.suffix))
  }

  function RectText(r: RectParts): string {
    r.prefix + TailText(r)
  }

  /** The groups of `^([A-Za-z]+)(\d+\.?\d*)([xX×/:\-_])(\d+\.?\d*)([A-Za-z]*)$`,
      or None. */
  function RectMatch(name: string): (r: Option<RectParts>)
    ensures r.Some? ==> RectShaped(r.value) && RectText(r.value) == name
  {
    var (prefix, t1) := SplitLetters(name);
    if |prefix| == 0 then None
    else
      match RectTail(t1)
      case None => None
      case Some(m) => Some(m.(prefix := prefix))
  }

  /** The rect pattern after its prefix, matched against the whole of
      `t1`; the prefix of the result is empty. */
  function RectTail(t1: string): (r: Option<RectParts>)
    ensures r.Some? ==> r.value.prefix == "" && TailShaped(r.value) && TailText(r.value) == t1
  {
    var (num1, t2) := SplitNumber(t1);
    if |num1| == 0 || |t2| == 0 || !IsSeparator(t2[0]) then None
    else
      assert t2 == [t2[0]] + t2[1..];
      var (num2, suffix) := SplitNumber(t2[1..]);
      if |num2| == 0 || !AllLetters(suffix) then None
      else Some(RectParts("", num1, t2[0], num2, suffix))
  }

  lemma RectMatchExact(r: RectParts)
    requires RectShaped(r)
    ensures RectMatch(RectText(r)) == Some(r)
  {
    LooseNumberStartsWithDigit(r.num1);
    assert TailText(r)[0] == r.num1[0];
    SplitLettersConcat(r.prefix, TailText(r));
    RectTailExact(r.(prefix := ""));
  }

  lemma RectTailExact(r: RectParts)
    requires TailShaped(r) && r.prefix == ""
    ensures RectTail(TailText(r)) == Some(r)
  {
    var t3 := r.num2 + r.suffix;
    var t2 := [r.sep] + t3;
    LooseNumberStartsWithDigit(r.num1);
    SplitNumberConcat(r.num1, t2);
    assert t2[0] == r.sep && t2[1..] == t3;
    LettersAreNotNumberChars(r.suffix);
    SplitNumberConcat(r.num2, r.suffix);
  }

  /** `SectionsFactory._split_rect`: prefix, both numbers, suffix;
      `ValueError` when the name does not match. */
  function SplitRect(name: string): (r: Result<(string, real, real, string)>)
    ensures r.Err? ==> r.error == ValueError
    ensures r.Ok? ==> exists m :: RectShaped(m) && RectText(m) == name &&
                                  r.value == (m.prefix, LooseNumberValue(m.num1), LooseNumberValue(m.num2), m.suffix)
  {
    match RectMatch(name)
    case None => Err(ValueError)
    case Some(m) => Ok((m.prefix, LooseNumberValue(m.num1), LooseNumberValue(m.num2), m.suffix))
  }

  lemma SplitRectExact(m: RectParts)
    requires RectShaped(m)
    ensures SplitRect(RectText(m)) == Ok((m.prefix, LooseNumberValue(m.num1), LooseNumberValue(m.num2), m.suffix))
  {
    RectMatchExact(m);
  }

  lemma SplitRectRejects(name: string, m: RectParts)
    requires SplitRect(name).Err?
    ensures !(RectShaped(m) && RectText(m) == name)
  {
    if RectShaped(m) && RectText(m) == name {
      RectMatchExact(m);
    }
  }

  // ---------------------------------------------------------------
  // _split_tee
  // ---------------------------------------------------------------

  /** `n0 s0 n1 s1 … nk` followed by `rest`: numbers joined by their
      separators. */
  function Interleave(nums: seq<string>, seps: seq<char>, rest: string): string
    requires |nums| == |seps| + 1
    decreases |seps|
  {
    if |seps| == 0 then nums[0] + rest
    else nums[0] + ([seps[0]] + Interleave(nums[1..], seps[1..], rest))
  }

  lemma InterleaveCons(n: string, ns: seq<string>, c: char, cs: seq<char>, rest: string)
    requires |ns| == |cs| + 1
    ensures Interleave([n] + ns, [c] + cs, rest) == n + ([c] + Interleave(ns, cs, rest))
  {
    assert ([n] + ns)[1..] == ns && ([c] + cs)[1..] == cs;
  }

  predicate LooseNumbers(nums: seq<string>) {
    forall k :: 0 <= k < |nums| ==> IsLooseNumber(nums[k])
  }

  predicate Separators(seps: seq<char>) {
    forall k :: 0 <= k < |seps| ==> IsSeparator(seps[k])
  }

  /** A numeric block, its separators and what follows it. */
  datatype Block = Block(nums: seq<string>, seps: seq<char>, rest: string)

  /** What follows a block: nothing that could continue it. */
  predicate EndsBlock(rest: string) {
    (|rest| > 0 ==> !IsDigit(rest[0])) && (|rest| > 1 && IsSeparator(rest[0]) ==> !IsDigit(rest[1]))
  }

  /** The longest `\d+\.?\d*(?:[xX×/:\-_]\d+\.?\d*)*` at the start of `s`:
      a separator continues the block only when a digit follows it. */
  function ScanBlock(s: string): (b: Block)
    requires |s| > 0 && IsDigit(s[0])
    ensures |b.nums| == |b.seps| + 1 && LooseNumbers(b.nums) && Separators(b.seps)
    ensures s == Interleave(b.nums, b.seps, b.rest)
    ensures EndsBlock(b.rest)
    decreases |s|
  {
    var (num, t) := SplitNumber(s);
    if |t| > 1 && IsSeparator(t[0]) && IsDigit(t[1]) then
      assert t == [t[0]] + t[1..];
      ConsBlock(num, t[0], ScanBlock(t[1..]))
    else
      Block([num], [], t)
  }

  /** A number and a separator put in front of a block. */
  function ConsBlock(num: string, c: char, b: Block): (r: Block)
    requires IsLooseNumber(num) && IsSeparator(c)
    requires |b.nums| == |b.seps| + 1 && LooseNumbers(b.nums) && Separators(b.seps)
    ensures |r.nums| == |r.seps| + 1 && LooseNumbers(r.nums) && Separators(r.seps)
    ensures r.rest == b.rest && Interleave(r.nums, r.seps, r.rest) == num + ([c] + Interleave(b.nums, b.seps, b.rest))
  {
    InterleaveCons(num, b.nums, c, b.seps, b.rest);
    assert LooseNumbers([num] + b.nums) by {
      forall k | 0 <= k < |b.nums| + 1 ensures IsLooseNumber(([num] + b.nums)[k]) {
        if k > 0 { assert ([num] + b.nums)[k] == b.nums[k - 1]; }
      }
    }
    assert Separators([c] + b.seps) by {
      forall k | 0 <= k < |b.seps| + 1 ensures IsSeparator(([c] + b.seps)[k]) {
        if k > 0 { assert ([c] + b.seps)[k] == b.seps[k - 1]; }
      }
    }
    Block([num] + b.nums, [c] + b.seps, b.rest)
  }

  lemma LooseNumbersTail(nums: seq<string>)
    requires |nums| > 0 && LooseNumbers(nums)
    ensures LooseNumbers(nums[1..])
  {
    forall k | 0 <= k < |nums| - 1 ensures IsLooseNumber(nums[1..][k]) {
      assert nums[1..][k] == nums[k + 1];
    }
  }

  lemma SeparatorsTail(seps: seq<char>)
    requires |seps| > 0 && Separators(seps)
    ensures Separators(seps[1..])
  {
    forall k | 0 <= k < |seps| - 1 ensures IsSeparator(seps[1..][k]) {
      assert seps[1..][k] == seps[k + 1];
    }
  }

  /** A number, a separator and a digit go on to scan the block after the
      separator. */
  lemma ScanBlockStep(num: string, c: char, inner: string)
    requires IsLooseNumber(num) && IsSeparator(c) && |inner| > 0 && IsDigit(inner[0])
    ensures var s := num + ([c] + inner);
            |s| > 0 && IsDigit(s[0]) && ScanBlock(s) == ConsBlock(num, c, ScanBlock(inner))
  {
    LooseNumberStartsWithDigit(num);
    SplitNumberConcat(num, [c] + inner);
    assert ([c] + inner)[0] == c && ([c] + inner)[1..] == inner;
  }

  /** The block scanner recovers every interleaving of numbers it is
      given, when what follows could not continue the block. */
  lemma {:induction false} ScanBlockExact(nums: seq<string>, seps: seq<char>, rest: string)
    requires |nums| == |seps| + 1 && LooseNumbers(nums) && Separators(seps)
    requires EndsBlock(rest) && (|rest| > 0 ==> rest[0] != '.')
    ensures var s := Interleave(nums, seps, rest);
            |s| > 0 && IsDigit(s[0]) && ScanBlock(s) == Block(nums, seps, rest)
    decreases |seps|, 2
  {
    if |seps| == 0 {
      ScanBlockSingle(nums, rest);
    } else {
      ScanBlockExactSplit(nums, seps, rest);
    }
  }

  lemma {:induction false} ScanBlockExactSplit(nums: seq<string>, seps: seq<char>, rest: string)
    requires |nums| == |seps| + 1 && |seps| > 0 && LooseNumbers(nums) && Separators(seps)
    requires EndsBlock(rest) && (|rest| > 0 ==> rest[0] != '.')
    ensures var s := Interleave(nums, seps, rest);
            |s| > 0 && IsDigit(s[0]) && ScanBlock(s) == Block(nums, seps, rest)
    decreases |seps|, 1
  {
    LooseNumbersTail(nums);
    SeparatorsTail(seps);
    ScanBlockExact(nums[1..], seps[1..], rest);
    ScanBlockStep(nums[0], seps[0], Interleave(nums[1..], seps[1..], rest));
    ConsBlockSplit(nums, seps, rest);
  }

  lemma ConsBlockSplit(nums: seq<string>, seps: seq<char>, rest: string)
    requires |nums| == |seps| + 1 && |seps| > 0 && LooseNumbers(nums) && Separators(seps)
    requires LooseNumbers(nums[1..]) && Separators(seps[1..])
    ensures ConsBlock(nums[0], seps[0], Block(nums[1..], seps[1..], rest)) == Block(nums, seps, rest)
  {
    assert [nums[0]] + nums[1..] == nums && [seps[0]] + seps[1..] == seps;
  }

  lemma ScanBlockSingle(nums: seq<string>, rest: string)
    requires |nums| == 1 && LooseNumbers(nums)
    requires EndsBlock(rest) && (|rest| > 0 ==> rest[0] != '.')
    ensures var s := Interleave(nums, [], rest);
            |s| > 0 && IsDigit(s[0]) && ScanBlock(s) == Block(nums, [], rest)
  {
    LooseNumberStartsWithDigit(nums[0]);
    SplitNumberConcat(nums[0], rest);
    assert [nums[0]] == nums;
  }

  datatype TeeParts = TeeParts(prefix: string, nums: seq<string>, seps: seq<char>, suffix: string)

  predicate TeeShaped(t: TeeParts) {
    |t.prefix| > 0 && AllLetters(t.prefix) && |t.nums| >= 2 && |t.nums| == |t.seps| + 1 &&
    LooseNumbers(t.nums) && Separators(t.seps) && AllLetters(t.suffix)
  }

  function TeeText(t: TeeParts): string
    requires |t.nums| == |t.seps| + 1
  {
    t.prefix + Interleave(t.nums, t.seps, t.suffix)
  }

  /** The groups of the tee pattern, the numeric block kept as its numbers
      and separators, or None. */
  function TeeMatch(name: string): (r: Option<TeeParts>)
    ensures r.Some? ==> TeeShaped(r.value) && TeeText(r.value) == name
  {
    var (prefix, t) := SplitLetters(name);
    if |prefix| == 0 || |t| == 0 || !IsDigit(t[0]) then None
    else
      var b := ScanBlock(t);
      if |b.nums| < 2 || !AllLetters(b.rest) then None
      else Some(TeeParts(prefix, b.nums, b.seps, b.rest))
  }

  lemma TeeMatchExact(t: TeeParts)
    requires TeeShaped(t)
    ensures TeeMatch(TeeText(t)) == Some(t)
  {
    LettersAreNotNumberChars(t.suffix);
    ScanBlockExact(t.nums, t.seps, t.suffix);
    SplitLettersConcat(t.prefix, Interleave(t.nums, t.seps, t.suffix));
  }

  /** `re.split(r"[xX×/:\-_]", s)`. */
  function SplitAtSeparators(s: string): (parts: seq<string>)
    ensures |parts| >= 1
  {
    if |s| == 0 then [""]
    else if IsSeparator(s[0]) then [""] + SplitAtSeparators(s[1..])
    else
      var rest := SplitAtSeparators(s[1..]);
      [[s[0]] + rest[0]] + rest[1..]
  }

  predicate NoSeparator(s: string) { forall i :: 0 <= i < |s| ==> !IsSeparator(s[i]) }

  lemma {:induction false} SplitAtSeparatorsConcat(a: string, c: char, b: string)
    requires NoSeparator(a) && IsSeparator(c)
    ensures SplitAtSeparators(a + ([c] + b)) == [a] + SplitAtSeparators(b)
    decreases |a|
  {
    var s := a + ([c] + b);
    if |a| == 0 {
      assert s == [c] + b;
    } else {
      assert s[1..] == a[1..] + ([c] + b);
      SplitAtSeparatorsConcat(a[1..], c, b);
      assert [a[0]] + a[1..] == a;
    }
  }

  lemma {:induction false} SplitAtSeparatorsNone(a: string)
    requires NoSeparator(a)
    ensures SplitAtSeparators(a) == [a]
    decreases |a|
  {
    if |a| > 0 {
      SplitAtSeparatorsNone(a[1..]);
      assert [a[0]] + a[1..] == a;
    }
  }

  lemma LooseNumberHasNoSeparator(num: string)
    requires IsLooseNumber(num)
    ensures NoSeparator(num)
  {
    var d := Run(num, IsDigit);
    forall i | 0 <= i < |num| ensures !IsSeparator(num[i]) {
      if i > d {
        assert num[i] == num[d + 1..][i - d - 1];
      }
    }
  }

  /** Splitting a numeric block at its separators gives back its numbers. */
  lemma {:induction false} SplitInterleave(nums: seq<string>, seps: seq<char>)
    requires |nums| == |seps| + 1 && LooseNumbers(nums) && Separators(seps)
    ensures SplitAtSeparators(Interleave(nums, seps, "")) == nums
    decreases |seps|
  {
    LooseNumberHasNoSeparator(nums[0]);
    if |seps| == 0 {
      assert nums[0] + "" == nums[0];
      SplitAtSeparatorsNone(nums[0]);
    } else {
      SplitAtSeparatorsConcat(nums[0], seps[0], Interleave(nums[1..], seps[1..], ""));
      SplitInterleave(nums[1..], seps[1..]);
      assert [nums[0]] + nums[1..] == nums;
    }
  }

  /** `SectionsFactory._split_tee`: the prefix, `float` of every piece of
      the numeric block split at its separators, and the suffix;
      `ValueError` when the name does not match. */
  function SplitTee(name: string): (r: Result<(string, seq<real>, string)>)
    ensures r.Err? ==> r.error == ValueError
    ensures r.Ok? <==> TeeMatch(name).Some?
    ensures r.Ok? ==> var t := TeeMatch(name).value;
                      r.value.0 == t.prefix && r.value.2 == t.suffix && |r.value.1| == |t.nums| &&
                      forall k :: 0 <= k < |t.nums| ==> r.value.1[k] == LooseNumberValue(t.nums[k])
  {
    match TeeMatch(name)
    case None => Err(ValueError)
    case Some(t) =>
      var pieces := SplitAtSeparators(Interleave(t.nums, t.seps, ""));
      SplitInterleave(t.nums, t.seps);
      Ok((t.prefix, seq(|pieces|, k requires 0 <= k < |pieces| => LooseNumberValue(pieces[k])), t.suffix))
  }

  lemma SplitTeeExact(t: TeeParts)
    requires TeeShaped(t)
    ensures SplitTee(TeeText(t)).Ok?
    ensures var v := SplitTee(TeeText(t)).value;
            v.0 == t.prefix && v.2 == t.suffix && |v.1| == |t.nums| &&
            forall k :: 0 <= k < |t.nums| ==> v.1[k] == LooseNumberValue(t.nums[k])
  {
    TeeMatchExact(t);
    SplitInterleave(t.nums, t.seps);
  }

  lemma SplitTeeRejects(name: string, t: TeeParts)
    requires SplitTee(name).Err?
    ensures !(TeeShaped(t) && TeeText(t) == name)
  {
    if TeeShaped(t) && TeeText(t) == name {
      TeeMatchExact(t);
    }
  }
}
