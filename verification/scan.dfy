/** The regular-expression pieces the name parsers of designs, sections
    and materials are built from, written as scanners over ASCII text:

    - a leading run of letters (`[A-Za-z]+`) or of letters and
      underscores (`[A-Za-z_]+`);
    - a trailing run of letters (`[A-Za-z]+$`);
    - the loose number `\d+\.?\d*` the split helpers accept (`15`, `15.`,
      `3.5`), and its value under `float`;
    - the strict number `\d+(?:\.\d+)?` that `re.findall` collects. */
module Scan {
  import opened Wrappers
  import opened Text

  predicate IsPrefixChar(c: char) { IsLetter(c) || c == '_' }

  /** Length of the leading run of characters satisfying `p`. */
  function Run(s: string, p: char -> bool): (n: nat)
    ensures n <= |s|
    ensures forall i :: 0 <= i < n ==> p(s[i])
    ensures n < |s| ==> !p(s[n])
  {
    if |s| == 0 || !p(s[0]) then 0 else 1 + Run(s[1..], p)
  }

  /** Length of the trailing run of characters satisfying `p`. */
  function TailRun(s: string, p: char -> bool): (n: nat)
    ensures n <= |s|
    ensures forall i :: |s| - n <= i < |s| ==> p(s[i])
    ensures n < |s| ==> !p(s[|s| - n - 1])
  {
    if |s| == 0 || !p(s[|s| - 1]) then 0 else 1 + TailRun(s[..|s| - 1], p)
  }

  /** The run of a predicate's characters that starts a string is that
      run, whatever follows it. */
  lemma {:induction false} RunConcat(a: string, b: string, p: char -> bool)
    requires forall i :: 0 <= i < |a| ==> p(a[i])
    requires |b| > 0 ==> !p(b[0])
    ensures Run(a + b, p) == |a|
    decreases |a|
  {
    if |a| > 0 {
      assert (a + b)[1..] == a[1..] + b;
      RunConcat(a[1..], b, p);
    } else {
      assert a + b == b;
    }
  }

  lemma {:induction false} TailRunConcat(a: string, b: string, p: char -> bool)
    requires forall i :: 0 <= i < |b| ==> p(b[i])
    requires |a| > 0 ==> !p(a[|a| - 1])
    ensures TailRun(a + b, p) == |b|
    decreases |b|
  {
    if |b| > 0 {
      assert (a + b)[..|a + b| - 1] == a + b[..|b| - 1];
      TailRunConcat(a, b[..|b| - 1], p);
    } else {
      assert a + b == a;
    }
  }

  predicate NoDigit(s: string) { forall i :: 0 <= i < |s| ==> !IsDigit(s[i]) }

  // ---------------------------------------------------------------
  // The loose number \d+\.?\d*
  // ---------------------------------------------------------------

  /** A match of `\d+\.?\d*`: digits, then optionally a point and more
      (possibly no) digits. */
  predicate IsLooseNumber(t: string) {
    var d := Run(t, IsDigit);
    d > 0 && (d == |t| || (t[d] == '.' && AllDigits(t[d + 1..])))
  }

  /** Length of the longest match of `\d+\.?\d*` at the start of `s`, 0
      when `s` does not start with a digit.  The match is the only one
      that can be followed by a letter, a separator or the end. */
  function LooseNumberLen(s: string): (n: nat)
    ensures n <= |s|
    ensures n == 0 <==> |s| == 0 || !IsDigit(s[0])
    ensures n > 0 ==> IsLooseNumber(s[..n])
    ensures 0 < n < |s| ==> !IsDigit(s[n]) && (s[n] == '.' ==> '.' in s[..n])
  {
    var d := Run(s, IsDigit);
    if d == 0 then 0
    else if d < |s| && s[d] == '.' then
      var f := Run(s[d + 1..], IsDigit);
      var n := d + 1 + f;
      assert s[..n][..d] == s[..d];
      RunConcat(s[..d], s[d..n], IsDigit);
      assert s[..d] + s[d..n] == s[..n];
      assert s[..n][d] == '.';
      n
    else
      RunConcat(s[..d], [], IsDigit);
      assert s[..d] + [] == s[..d];
      d
  }

  /** `float(t)` of a loose number, as an exact rational. */
  function LooseNumberValue(t: string): real
    requires IsLooseNumber(t)
  {
    var d := Run(t, IsDigit);
    assert AllDigits(t[..d]);
    if d == |t| then DigitsValue(t) as real else DecimalValue(t[..d], t[d + 1..])
  }

  // ---------------------------------------------------------------
  // re.findall(r"\d+(?:\.\d+)?", s)
  // ---------------------------------------------------------------

  /** A match of `\d+(?:\.\d+)?`. */
  predicate IsStrictNumber(t: string) {
    var d := Run(t, IsDigit);
    d > 0 && (d == |t| || (d + 1 < |t| && t[d] == '.' && AllDigits(t[d + 1..])))
  }

  /** Length of the match of `\d+(?:\.\d+)?` at a digit: the point is
      taken only when a digit follows it. */
  function StrictNumberLen(s: string): (n: nat)
    requires |s| > 0 && IsDigit(s[0])
    ensures 0 < n <= |s|
    ensures IsStrictNumber(s[..n])
    ensures n < |s| ==> !IsDigit(s[n])
  {
    var d := Run(s, IsDigit);
    if d + 1 < |s| && s[d] == '.' && IsDigit(s[d + 1]) then
      var f := Run(s[d + 1..], IsDigit);
      var n := d + 1 + f;
      RunConcat(s[..d], s[d..n], IsDigit);
      assert s[..d] + s[d..n] == s[..n];
      n
    else
      RunConcat(s[..d], [], IsDigit);
      assert s[..d] + [] == s[..d];
      d
  }

  /** The value of a strict number under `float`. */
  function StrictNumberValue(t: string): real
    requires IsStrictNumber(t)
  {
    var d := Run(t, IsDigit);
    assert AllDigits(t[..d]);
    if d == |t| then DigitsValue(t) as real else DecimalValue(t[..d], t[d + 1..])
  }

  /** `re.findall(r"\d+(?:\.\d+)?", s)`: the matches, left to right,
      without overlap. */
  function FindNumbers(s: string): (toks: seq<string>)
    ensures forall k :: 0 <= k < |toks| ==> IsStrictNumber(toks[k])
    ensures |toks| == 0 <==> NoDigit(s)
    decreases |s|
  {
    if |s| == 0 then []
    else if !IsDigit(s[0]) then
      var r := FindNumbers(s[1..]);
      assert forall i :: 1 <= i < |s| ==> s[i] == s[1..][i - 1];
      r
    else
      var n := StrictNumberLen(s);
      [s[..n]] + FindNumbers(s[n..])
  }

  /** The digits of a string, in order. */
  function Digits(s: string): (r: string)
    ensures AllDigits(r)
  {
    if |s| == 0 then ""
    else (if IsDigit(s[0]) then [s[0]] else "") + Digits(s[1..])
  }

  lemma {:induction false} DigitsConcat(a: string, b: string)
    ensures Digits(a + b) == Digits(a) + Digits(b)
    decreases |a|
  {
    if |a| == 0 {
      assert a + b == b;
    } else {
      DigitsConcat(a[1..], b);
      DigitsFirst(a[0], a[1..] + b);
      DigitsFirst(a[0], a[1..]);
      assert [a[0]] + (a[1..] + b) == a + b;
      assert [a[0]] + a[1..] == a;
    }
  }

  lemma DigitsFirst(c: char, s: string)
    ensures Digits([c] + s) == (if IsDigit(c) then [c] else "") + Digits(s)
  {
    assert ([c] + s)[1..] == s;
  }

  function Concat(ts: seq<string>): string {
    if |ts| == 0 then "" else ts[0] + Concat(ts[1..])
  }

  /** `findall` loses no digit and invents none: the digits of the
      matches, joined, are the digits of the input. */
  lemma {:induction false} FindNumbersKeepsDigits(s: string)
    ensures Digits(Concat(FindNumbers(s))) == Digits(s)
    decreases |s|
  {
    if |s| > 0 {
      if !IsDigit(s[0]) {
        FindNumbersKeepsDigits(s[1..]);
      } else {
        var n := StrictNumberLen(s);
        FindNumbersKeepsDigits(s[n..]);
        FindNumbersTake(s);
        ConsKeepsDigits(s, n, FindNumbers(s[n..]));
      }
    }
  }

  /** At a digit, `findall` takes the strict match and goes on after it. */
  lemma FindNumbersTake(s: string)
    requires |s| > 0 && IsDigit(s[0])
    ensures FindNumbers(s) == [s[..StrictNumberLen(s)]] + FindNumbers(s[StrictNumberLen(s)..])
  {
  }

  lemma ConsKeepsDigits(s: string, n: nat, rest: seq<string>)
    requires n <= |s|
    requires Digits(Concat(rest)) == Digits(s[n..])
    ensures Digits(Concat([s[..n]] + rest)) == Digits(s)
  {
    ConcatCons(s[..n], rest);
    DigitsConcat(s[..n], Concat(rest));
    DigitsConcat(s[..n], s[n..]);
    assert s[..n] + s[n..] == s;
  }

  lemma ConcatCons(t: string, ts: seq<string>)
    ensures Concat([t] + ts) == t + Concat(ts)
  {
    assert ([t] + ts)[1..] == ts;
  }

  /** The numbers `findall` collects, as `float` values. */
  function NumberValues(toks: seq<string>): (vs: seq<real>)
    requires forall k :: 0 <= k < |toks| ==> IsStrictNumber(toks[k])
    ensures |vs| == |toks|
    ensures forall k :: 0 <= k < |toks| ==> vs[k] == StrictNumberValue(toks[k])
  {
    seq(|toks|, k requires 0 <= k < |toks| => StrictNumberValue(toks[k]))
  }

  /** Characters without a digit are skipped by `findall`. */
  lemma {:induction false} FindNumbersSkip(pre: string, rest: string)
    requires NoDigit(pre)
    ensures FindNumbers(pre + rest) == FindNumbers(rest)
    decreases |pre|
  {
    if |pre| == 0 {
      assert pre + rest == rest;
    } else {
      assert (pre + rest)[1..] == pre[1..] + rest;
      FindNumbersSkip(pre[1..], rest);
    }
  }

  /** A run of digits not followed by a point and a digit is one match. */
  lemma FindNumbersDigits(ds: string, rest: string)
    requires |ds| > 0 && AllDigits(ds)
    requires |rest| > 0 ==> !IsDigit(rest[0]) && (rest[0] == '.' ==> |rest| == 1 || !IsDigit(rest[1]))
    ensures IsStrictNumber(ds) && StrictNumberValue(ds) == DigitsValue(ds) as real
    ensures FindNumbers(ds + rest) == [ds] + FindNumbers(rest)
  {
    var s := ds + rest;
    RunConcat(ds, rest, IsDigit);
    RunConcat(ds, [], IsDigit);
    assert ds + [] == ds;
    assert s[..|ds|] == ds && s[|ds|..] == rest;
  }

  /** A loose number followed by neither a digit nor a point is the
      longest match at that position. */
  lemma LooseNumberLenConcat(num: string, rest: string)
    requires IsLooseNumber(num)
    requires |rest| > 0 ==> !IsDigit(rest[0]) && rest[0] != '.'
    ensures LooseNumberLen(num + rest) == |num|
  {
    var s := num + rest;
    var d := Run(num, IsDigit);
    if d == |num| {
      RunConcat(num, rest, IsDigit);
    } else {
      var tail := num[d + 1..];
      assert num == num[..d] + ([num[d]] + tail);
      assert s == num[..d] + ([num[d]] + tail + rest);
      RunConcat(num[..d], [num[d]] + tail + rest, IsDigit);
      assert s[d + 1..] == tail + rest;
      RunConcat(tail, rest, IsDigit);
    }
  }

  /** `t` is the loose number `num`, possibly signed, and `v` its value. */
  predicate SignedNumeral(t: string, num: string, v: real) {
    && IsLooseNumber(num)
    && ((t == num && v == LooseNumberValue(num))
        || (|t| > 0 && t[0] == '+' && t[1..] == num && v == LooseNumberValue(num))
        || (|t| > 0 && t[0] == '-' && t[1..] == num && v == -LooseNumberValue(num)))
  }

  /** Python `float(s)` on the numerals the names carry: surrounding
      whitespace, an optional sign and a loose number; anything else is a
      ValueError here. */
  function ParseFloat(s: string): (r: Result<real>)
    ensures r.Err? ==> r.error == ValueError
    ensures r.Ok? ==> exists num :: SignedNumeral(Strip(s), num, r.value)
  {
    var t := Strip(s);
    if |t| > 0 && (t[0] == '+' || t[0] == '-') then
      var num := t[1..];
      if IsLooseNumber(num) then
        var v := if t[0] == '-' then -LooseNumberValue(num) else LooseNumberValue(num);
        assert SignedNumeral(t, num, v);
        Ok(v)
      else Err(ValueError)
    else if IsLooseNumber(t) then
      assert SignedNumeral(t, t, LooseNumberValue(t));
      Ok(LooseNumberValue(t))
    else Err(ValueError)
  }

  /** `float` reads a loose number back as its value. */
  lemma ParseFloatLoose(num: string)
    requires IsLooseNumber(num)
    ensures ParseFloat(num) == Ok(LooseNumberValue(num))
  {
    var d := Run(num, IsDigit);
    assert IsDigit(num[0]);
    assert !IsSpace(num[|num| - 1]) by {
      if |num| - 1 > d { assert num[d + 1..][|num| - 2 - d] == num[|num| - 1]; }
    }
    StripIdentity(num);
  }
}
