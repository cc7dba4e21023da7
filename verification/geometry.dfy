/** Quadrilateral helpers: the orientation test, the CCW normalisation and
    the canonical corner order of a four-node element (CCW, starting from
    the corner with the smallest rounded coordinates). */
module Geometry {
  import opened Store
  import opened Nodes

  /** Python's `round(x, 6)` on an exact real: to the nearest multiple of
      10⁻⁶, ties to the even multiple. */
  function Round6(x: real): (r: real)
    ensures -0.0000005 <= r - x <= 0.0000005
  {
    var y := x * 1000000.0;
    var f := y.Floor;
    var frac := y - f as real;
    var n := if frac > 0.5 then f + 1 else if frac < 0.5 then f else if f % 2 == 0 then f else f + 1;
    n as real / 1000000.0
  }

  /** `node_key`: the rounded coordinates, compared as a tuple. */
  function NodeKey(n: Node): Point {
    Point(Round6(n.data.x), Round6(n.data.y), Round6(n.data.z))
  }

  /** One term of the orientation sum: `(x2 - x1) * (y2 + y1)`. */
  function Term(a: Node, b: Node): real {
    (b.data.x - a.data.x) * (b.data.y + a.data.y)
  }

  /** The sum `is_ccw` accumulates over the four edges. */
  function Area(q: seq<Node>): real
    requires |q| == 4
  {
    Term(q[0], q[1]) + Term(q[1], q[2]) + Term(q[2], q[3]) + Term(q[3], q[0])
  }

  /** `is_ccw`. */
  predicate IsCcw(q: seq<Node>)
    requires |q| == 4
  {
    Area(q) < 0.0
  }

  /** `(n0, n3, n2, n1)`: the same corners walked the other way round. */
  function Reverse(q: seq<Node>): (r: seq<Node>)
    requires |q| == 4
    ensures |r| == 4 && r[0] == q[0] && r[1] == q[3] && r[2] == q[2] && r[3] == q[1]
  {
    [q[0], q[3], q[2], q[1]]
  }

  /** Reversing keeps the corners. */
  lemma ReversePermutes(q: seq<Node>)
    requires |q| == 4
    ensures multiset(Reverse(q)) == multiset(q)
  {
    assert q == [q[0], q[1], q[2], q[3]];
  }

  /** Walking the corners the other way negates the orientation sum. */
  lemma ReverseArea(q: seq<Node>)
    requires |q| == 4
    ensures Area(Reverse(q)) == -Area(q)
  {
    var r := Reverse(q);
    forall a, b | a in q && b in q
      ensures Term(b, a) == -Term(a, b)
    {
      assert (a.data.x - b.data.x) * (a.data.y + b.data.y) == -((b.data.x - a.data.x) * (b.data.y + a.data.y));
    }
    assert Term(r[0], r[1]) == -Term(q[3], q[0]);
    assert Term(r[1], r[2]) == -Term(q[2], q[3]);
    assert Term(r[2], r[3]) == -Term(q[1], q[2]);
    assert Term(r[3], r[0]) == -Term(q[0], q[1]);
  }

  /** `ensure_ccw`: the corners unchanged when they already run CCW,
      otherwise reversed; the result runs CCW unless the sum is zero. */
  function EnsureCcw(q: seq<Node>): (r: seq<Node>)
    requires |q| == 4
    ensures |r| == 4
    ensures IsCcw(q) ==> r == q
    ensures !IsCcw(q) ==> r == Reverse(q)
    ensures Area(q) != 0.0 ==> IsCcw(r)
  {
    ReverseArea(q);
    if IsCcw(q) then q else Reverse(q)
  }

  /** `(s + k) % 4` for corner numbers below four. */
  function Cyc(s: nat, k: nat): (r: nat)
    requires s < 4 && k < 4
    ensures r < 4 && r == (s + k) % 4
  {
    if s + k < 4 then s + k else s + k - 4
  }

  /** The corners starting from corner `s`, cyclically. */
  function Rotate<T>(q: seq<T>, s: nat): (r: seq<T>)
    requires |q| == 4 && s < 4
    ensures |r| == 4 && forall k :: 0 <= k < 4 ==> r[k] == q[Cyc(s, k)]
  {
    q[s..] + q[..s]
  }

  /** A rotation keeps the corners. */
  lemma RotatePermutes<T>(q: seq<T>, s: nat)
    requires |q| == 4 && s < 4
    ensures multiset(Rotate(q, s)) == multiset(q)
  {
    assert q == q[..s] + q[s..];
  }

  /** The keys of the corners, in corner order. */
  function Keys(q: seq<Node>): (r: seq<Point>)
    requires |q| == 4
    ensures |r| == 4 && forall k :: 0 <= k < 4 ==> r[k] == NodeKey(q[k])
  {
    [NodeKey(q[0]), NodeKey(q[1]), NodeKey(q[2]), NodeKey(q[3])]
  }

  /** `canonicalize_edges`: the CCW corners, rotated so that the corner
      with the smallest key (the first such) comes first. */
  function Canonicalize(q: seq<Node>): (r: seq<Node>)
    requires |q| == 4
    ensures |r| == 4
    ensures exists s :: 0 <= s < 4 && r == Rotate(EnsureCcw(q), s)
    ensures forall k :: 0 <= k < 4 ==> !PointLess(NodeKey(r[k]), NodeKey(r[0]))
  {
    var e := EnsureCcw(q);
    var s := MinIndex(Keys(e));
    var r := FromMin(e);
    forall k | 0 <= k < 4
      ensures !PointLess(NodeKey(r[k]), NodeKey(r[0]))
    {
      assert r[k] == e[Cyc(s, k)];
    }
    r
  }

  /** The canonical corners are the input's corners. */
  lemma CanonicalizePermutes(q: seq<Node>)
    requires |q| == 4
    ensures multiset(Canonicalize(q)) == multiset(q)
  {
    var s :| 0 <= s < 4 && Canonicalize(q) == Rotate(EnsureCcw(q), s);
    RotatePermutes(EnsureCcw(q), s);
    ReversePermutes(q);
  }

  /** No two corners share a key. */
  predicate DistinctKeys(q: seq<Node>)
    requires |q| == 4
  {
    Distinct(Keys(q))
  }

  predicate Distinct(ks: seq<Point>) {
    forall i, j :: 0 <= i < j < |ks| ==> ks[i] != ks[j]
  }

  /** Reversing twice gives the corners back. */
  lemma ReverseReverse(q: seq<Node>)
    requires |q| == 4
    ensures Reverse(Reverse(q)) == q
  {
    assert q == [q[0], q[1], q[2], q[3]];
  }

  /** The orientation sum does not depend on the starting corner. */
  lemma RotateArea(q: seq<Node>, s: nat)
    requires |q| == 4 && s < 4
    ensures Area(Rotate(q, s)) == Area(q)
  {
    var r := Rotate(q, s);
    if s == 1 {
      assert r[0] == q[1] && r[1] == q[2] && r[2] == q[3] && r[3] == q[0];
    } else if s == 2 {
      assert r[0] == q[2] && r[1] == q[3] && r[2] == q[0] && r[3] == q[1];
    } else if s == 3 {
      assert r[0] == q[3] && r[1] == q[0] && r[2] == q[1] && r[3] == q[2];
    } else {
      assert r == q;
    }
  }

  /** Reversing a rotation is rotating the reversal the other way. */
  lemma ReverseRotate(q: seq<Node>, s: nat)
    requires |q| == 4 && s < 4
    ensures Reverse(Rotate(q, s)) == Rotate(Reverse(q), if s == 0 then 0 else 4 - s)
  {
    var a, b := Reverse(Rotate(q, s)), Rotate(Reverse(q), if s == 0 then 0 else 4 - s);
    var v := Reverse(q);
    assert v[0] == q[0] && v[1] == q[3] && v[2] == q[2] && v[3] == q[1];
    if s == 0 {
      assert a[1] == q[3] == b[1] && a[2] == q[2] == b[2] && a[3] == q[1] == b[3];
    } else if s == 1 {
      assert a[0] == q[1] == b[0] && a[1] == q[0] == b[1] && a[2] == q[3] == b[2] && a[3] == q[2] == b[3];
    } else if s == 2 {
      assert a[0] == q[2] == b[0] && a[1] == q[1] == b[1] && a[2] == q[0] == b[2] && a[3] == q[3] == b[3];
    } else {
      assert a[0] == q[3] == b[0] && a[1] == q[2] == b[1] && a[2] == q[1] == b[2] && a[3] == q[0] == b[3];
    }
  }

  /** Normalising a rotated element gives a rotation of the normalised one. */
  lemma EnsureCcwRotate(q: seq<Node>, s: nat) returns (t: nat)
    requires |q| == 4 && s < 4
    ensures t < 4 && EnsureCcw(Rotate(q, s)) == Rotate(EnsureCcw(q), t)
  {
    RotateArea(q, s);
    if IsCcw(q) {
      t := s;
    } else {
      ReverseRotate(q, s);
      t := if s == 0 then 0 else 4 - s;
    }
  }

  /** Rotating the corners rotates their keys. */
  lemma KeysRotate(q: seq<Node>, s: nat)
    requires |q| == 4 && s < 4
    ensures Keys(Rotate(q, s)) == Rotate(Keys(q), s)
  {
  }

  /** Keys stay distinct under reversal. */
  lemma ReverseDistinct(q: seq<Node>)
    requires |q| == 4 && DistinctKeys(q)
    ensures DistinctKeys(Reverse(q))
  {
    var r := Reverse(q);
    assert r[0] == q[0] && r[1] == q[3] && r[2] == q[2] && r[3] == q[1];
  }

  /** Rotating twice is rotating by the sum. */
  lemma RotateRotate<T>(q: seq<T>, s: nat, j: nat)
    requires |q| == 4 && s < 4 && j < 4
    ensures Rotate(Rotate(q, s), j) == Rotate(q, Cyc(s, j))
  {
    var a, b := Rotate(Rotate(q, s), j), Rotate(q, Cyc(s, j));
    forall i | 0 <= i < 4
      ensures a[i] == b[i]
    {
      assert Cyc(s, Cyc(j, i)) == Cyc(Cyc(s, j), i);
    }
  }

  /** With distinct keys, the smallest key of the rotated keys sits where
      the rotation moved the smallest key to. */
  lemma MinIndexRotate(ks: seq<Point>, s: nat)
    requires |ks| == 4 && s < 4 && Distinct(ks)
    ensures Cyc(s, MinIndex(Rotate(ks, s))) == MinIndex(ks)
  {
    var r := Rotate(ks, s);
    var m, j := MinIndex(ks), MinIndex(r);
    var k: nat := if m >= s then m - s else m + 4 - s;
    assert Cyc(s, k) == m;
    assert r[j] == ks[Cyc(s, j)] && r[k] == ks[m];
    assert !PointLess(ks[m], ks[Cyc(s, j)]);
    assert !PointLess(ks[Cyc(s, j)], ks[m]);
    assert ks[Cyc(s, j)] == ks[m];
  }

  /** The rotation that starts from the smallest key. */
  function FromMin(e: seq<Node>): (r: seq<Node>)
    requires |e| == 4
    ensures |r| == 4
  {
    Rotate(e, MinIndex(Keys(e)))
  }

  /** With distinct keys, starting from the smallest key forgets where the
      corners started. */
  lemma FromMinRotate(e: seq<Node>, s: nat)
    requires |e| == 4 && s < 4 && DistinctKeys(e)
    ensures FromMin(Rotate(e, s)) == FromMin(e)
  {
    KeysRotate(e, s);
    MinIndexRotate(Keys(e), s);
    RotateRotate(e, s, MinIndex(Keys(Rotate(e, s))));
  }

  /** `canonicalize_edges` does not depend on the corner the element
      starts from, when no two corners share a key. */
  lemma CanonicalizeRotationFree(q: seq<Node>, s: nat)
    requires |q| == 4 && s < 4 && DistinctKeys(q)
    ensures Canonicalize(Rotate(q, s)) == Canonicalize(q)
  {
    var t := EnsureCcwRotate(q, s);
    var e := EnsureCcw(q);
    if !IsCcw(q) {
      ReverseDistinct(q);
    }
    FromMinRotate(e, t);
  }

  /** ... nor on the direction it is walked in, unless the orientation sum
      is zero. */
  lemma CanonicalizeOrientationFree(q: seq<Node>)
    requires |q| == 4 && Area(q) != 0.0
    ensures Canonicalize(Reverse(q)) == Canonicalize(q)
  {
    ReverseArea(q);
    ReverseReverse(q);
  }
}
