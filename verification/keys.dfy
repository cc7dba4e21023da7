/** Sort keys as the Python source builds them: tuples whose positions
    hold numbers, `float("inf")` or strings.

    Python compares tuples position by position; at the first position
    where they differ it compares the two elements with `<`, which raises
    `TypeError` when one is a number and the other a string.  `PyKeyLess`
    models that comparison as written.  `KeyLess` is the total order the
    rest of the model sorts with: it agrees with Python wherever Python
    answers, and places numbers before strings where Python would raise. */
module Keys {
  import opened Wrappers

  /** One position of a sort-key tuple. */
  datatype Atom =
    | Num(x: real)   // an int or a finite float
    | Inf            // float("inf")
    | Text(s: string)

  type Key = seq<Atom>

  /** Python's `<` on two strings: lexicographic by code point. */
  predicate TextLess(a: string, b: string)
    decreases |a|
  {
    if |a| == 0 then |b| > 0
    else if |b| == 0 then false
    else if a[0] != b[0] then a[0] < b[0]
    else TextLess(a[1..], b[1..])
  }

  function Rank(a: Atom): nat {
    match a
    case Num(_) => 0
    case Inf => 1
    case Text(_) => 2
  }

  /** The total order on atoms: numbers (with infinity last) before strings. */
  predicate AtomLess(a: Atom, b: Atom) {
    if Rank(a) != Rank(b) then Rank(a) < Rank(b)
    else match (a, b)
      case (Num(x), Num(y)) => x < y
      case (Text(s), Text(t)) => TextLess(s, t)
      case _ => false
  }

  /** Lexicographic comparison of two keys under `AtomLess`; a proper
      prefix sorts first, as with Python tuples. */
  predicate KeyLess(a: Key, b: Key)
    decreases |a|
  {
    if |a| == 0 then |b| > 0
    else if |b| == 0 then false
    else if a[0] != b[0] then AtomLess(a[0], b[0])
    else KeyLess(a[1..], b[1..])
  }

  /** Two atoms Python can order with `<` without raising. */
  predicate Comparable(a: Atom, b: Atom) {
    (a.Text? && b.Text?) || (!a.Text? && !b.Text?)
  }

  /** Python's `a < b` on two tuples, as written: `TypeError` when the
      first differing position mixes a number and a string. */
  function PyKeyLess(a: Key, b: Key): (r: Result<bool>)
    ensures r.Err? ==> r.error == TypeError
    decreases |a|
  {
    if |a| == 0 then Ok(|b| > 0)
    else if |b| == 0 then Ok(false)
    else if a[0] != b[0] then
      if Comparable(a[0], b[0]) then Ok(AtomLess(a[0], b[0])) else Err(TypeError)
    else PyKeyLess(a[1..], b[1..])
  }

  // ---------------------------------------------------------------
  // Order laws
  // ---------------------------------------------------------------

  lemma {:induction false} TextLessIrreflexive(a: string)
    ensures !TextLess(a, a)
    decreases |a|
  {
    if |a| > 0 {
      TextLessIrreflexive(a[1..]);
    }
  }

  lemma {:induction false} TextLessTransitive(a: string, b: string, c: string)
    requires TextLess(a, b) && TextLess(b, c)
    ensures TextLess(a, c)
    decreases |a|
  {
    if |a| > 0 && a[0] == b[0] && b[0] == c[0] {
      TextLessTransitive(a[1..], b[1..], c[1..]);
    }
  }

  lemma {:induction false} TextLessTotal(a: string, b: string)
    requires a != b
    ensures TextLess(a, b) || TextLess(b, a)
    decreases |a|
  {
    if |a| > 0 && |b| > 0 && a[0] == b[0] {
      assert a == [a[0]] + a[1..] && b == [b[0]] + b[1..];
      TextLessTotal(a[1..], b[1..]);
    }
  }

  lemma AtomLessIrreflexive(a: Atom)
    ensures !AtomLess(a, a)
  {
    if a.Text? {
      TextLessIrreflexive(a.s);
    }
  }

  lemma AtomLessTransitive(a: Atom, b: Atom, c: Atom)
    requires AtomLess(a, b) && AtomLess(b, c)
    ensures AtomLess(a, c)
  {
    if a.Text? && b.Text? && c.Text? {
      TextLessTransitive(a.s, b.s, c.s);
    }
  }

  lemma AtomLessTotal(a: Atom, b: Atom)
    requires a != b
    ensures AtomLess(a, b) || AtomLess(b, a)
  {
    if a.Text? && b.Text? {
      TextLessTotal(a.s, b.s);
    }
  }

  lemma {:induction false} KeyLessIrreflexive(a: Key)
    ensures !KeyLess(a, a)
    decreases |a|
  {
    if |a| > 0 {
      KeyLessIrreflexive(a[1..]);
    }
  }

  lemma {:induction false} KeyLessTransitive(a: Key, b: Key, c: Key)
    requires KeyLess(a, b) && KeyLess(b, c)
    ensures KeyLess(a, c)
    decreases |a|
  {
    if |a| > 0 {
      if a[0] == b[0] && b[0] == c[0] {
        KeyLessTransitive(a[1..], b[1..], c[1..]);
      } else if a[0] != b[0] && b[0] != c[0] {
        AtomLessTransitive(a[0], b[0], c[0]);
        if a[0] == c[0] {
          AtomLessIrreflexive(a[0]);
        }
      }
    }
  }

  lemma {:induction false} KeyLessTotal(a: Key, b: Key)
    requires a != b
    ensures KeyLess(a, b) || KeyLess(b, a)
    decreases |a|
  {
    if |a| > 0 && |b| > 0 {
      if a[0] == b[0] {
        assert a == [a[0]] + a[1..] && b == [b[0]] + b[1..];
        KeyLessTotal(a[1..], b[1..]);
      } else {
        AtomLessTotal(a[0], b[0]);
      }
    }
  }

  lemma KeyLessAsymmetric(a: Key, b: Key)
    requires KeyLess(a, b)
    ensures !KeyLess(b, a)
  {
    if KeyLess(b, a) {
      KeyLessTransitive(a, b, a);
      KeyLessIrreflexive(a);
    }
  }

  /** Wherever Python's comparison answers, the model's order gives the
      same answer. */
  lemma {:induction false} PyKeyLessAgrees(a: Key, b: Key)
    requires PyKeyLess(a, b).Ok?
    ensures PyKeyLess(a, b).value == KeyLess(a, b)
    decreases |a|
  {
    if |a| > 0 && |b| > 0 && a[0] == b[0] {
      PyKeyLessAgrees(a[1..], b[1..]);
    }
  }

  /** Keys whose positions have matching kinds never make Python raise. */
  predicate SameShape(a: Key, b: Key) {
    forall i :: 0 <= i < |a| && i < |b| ==> Comparable(a[i], b[i])
  }

  lemma {:induction false} SameShapeNeverRaises(a: Key, b: Key)
    requires SameShape(a, b)
    ensures PyKeyLess(a, b).Ok?
    decreases |a|
  {
    if |a| > 0 && |b| > 0 {
      if a[0] == b[0] {
        assert SameShape(a[1..], b[1..]) by {
          forall i | 0 <= i < |a[1..]| && i < |b[1..]|
            ensures Comparable(a[1..][i], b[1..][i])
          {
            assert Comparable(a[i + 1], b[i + 1]);
          }
        }
        SameShapeNeverRaises(a[1..], b[1..]);
      } else {
        assert Comparable(a[0], b[0]);
      }
    }
  }

  /** `type_order.index(t)`, with `len(type_order)` for a type that is not
      listed (the `except ValueError` branch of the comparers). */
  function TypePriority(types: seq<string>, cls: string): (p: nat)
    ensures p <= |types|
    ensures p == |types| <==> cls !in types
    ensures p < |types| ==> types[p] == cls && forall k :: 0 <= k < p ==> types[k] != cls
  {
    if |types| == 0 then 0
    else if types[0] == cls then 0
    else
      assert forall k :: 1 <= k < |types| ==> types[k] == types[1..][k - 1];
      1 + TypePriority(types[1..], cls)
  }

  /** Python decides a tuple comparison at the first position where the
      tuples differ. */
  lemma {:induction false} PyKeyLessAt(a: Key, b: Key, i: nat)
    requires i < |a| && i < |b| && a[..i] == b[..i] && a[i] != b[i]
    ensures PyKeyLess(a, b) == if Comparable(a[i], b[i]) then Ok(AtomLess(a[i], b[i])) else Err(TypeError)
    ensures KeyLess(a, b) == AtomLess(a[i], b[i])
    decreases i
  {
    if i > 0 {
      assert a[0] == a[..i][0] == b[..i][0] == b[0];
      assert a[1..][..i - 1] == a[..i][1..] == b[..i][1..] == b[1..][..i - 1];
      PyKeyLessAt(a[1..], b[1..], i - 1);
    }
  }
}
