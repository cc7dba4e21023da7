/** Queries over a node collection: the plan bounds, the node at an offset
    from an origin, and the selection of the nodes inside a polygon given
    by boundary node indices (ray casting, boundary counted as inside).
    Coordinates are exact reals; the fixed tolerances of the source are
    the constants below. */
module NodeQuery {
  import opened Wrappers
  import opened Store
  import opened Nodes

  /** The tolerance of the offset search (`1e-6`). */
  const OffsetTol: real := 0.000001
  /** The tolerance of the on-segment test (`1e-8`). */
  const SegmentTol: real := 0.00000001
  /** The term added to the ray-casting denominator (`1e-12`). */
  const Eps: real := 0.000000000001

  // ---------------------------------------------------------------
  // get_bounds
  // ---------------------------------------------------------------

  datatype Bounds = Bounds(minX: real, maxX: real, minY: real, maxY: real)

  /** Python's `min` of a non-empty list of numbers. */
  function Min(xs: seq<real>): (m: real)
    requires |xs| > 0
    ensures m in xs && forall k :: 0 <= k < |xs| ==> m <= xs[k]
  {
    if |xs| == 1 then xs[0]
    else
      var rest := Min(xs[1..]);
      assert forall k :: 1 <= k < |xs| ==> xs[k] == xs[1..][k - 1];
      if xs[0] <= rest then xs[0] else rest
  }

  /** Python's `max` of a non-empty list of numbers. */
  function Max(xs: seq<real>): (m: real)
    requires |xs| > 0
    ensures m in xs && forall k :: 0 <= k < |xs| ==> xs[k] <= m
  {
    if |xs| == 1 then xs[0]
    else
      var rest := Max(xs[1..]);
      assert forall k :: 1 <= k < |xs| ==> xs[k] == xs[1..][k - 1];
      if xs[0] >= rest then xs[0] else rest
  }

  function Xs(ns: seq<Node>): (r: seq<real>)
    ensures |r| == |ns| && forall k :: 0 <= k < |ns| ==> r[k] == ns[k].data.x
  {
    seq(|ns|, k requires 0 <= k < |ns| => ns[k].data.x)
  }

  function Ys(ns: seq<Node>): (r: seq<real>)
    ensures |r| == |ns| && forall k :: 0 <= k < |ns| ==> r[k] == ns[k].data.y
  {
    seq(|ns|, k requires 0 <= k < |ns| => ns[k].data.y)
  }

  /** `get_bounds`: None (the all-None tuple) for an empty collection;
      otherwise the smallest rectangle holding every node in plan, each
      side touching some node. */
  function GetBounds(c: Coll<Point>): (r: Option<Bounds>)
    ensures r.None? <==> |c.objects| == 0
    ensures r.Some? ==> forall k :: 0 <= k < |c.objects| ==>
              r.value.minX <= c.objects[k].data.x <= r.value.maxX &&
              r.value.minY <= c.objects[k].data.y <= r.value.maxY
    ensures r.Some? ==>
              (exists k :: 0 <= k < |c.objects| && c.objects[k].data.x == r.value.minX) &&
              (exists k :: 0 <= k < |c.objects| && c.objects[k].data.x == r.value.maxX) &&
              (exists k :: 0 <= k < |c.objects| && c.objects[k].data.y == r.value.minY) &&
              (exists k :: 0 <= k < |c.objects| && c.objects[k].data.y == r.value.maxY)
  {
    if |c.objects| == 0 then None
    else
      var xs, ys := Xs(c.objects), Ys(c.objects);
      Some(Bounds(Min(xs), Max(xs), Min(ys), Max(ys)))
  }

  // ---------------------------------------------------------------
  // get_by_offset
  // ---------------------------------------------------------------

  /** The position `min(objects, key=(x, y, z))` picks: a node no other
      node is below, and the first of those. */
  function LexMinIndex(ns: seq<Node>): (i: nat)
    requires |ns| > 0
    ensures i < |ns|
    ensures forall k :: 0 <= k < |ns| ==> !PointLess(ns[k].data, ns[i].data)
    ensures forall k :: 0 <= k < i ==> PointLess(ns[i].data, ns[k].data)
  {
    MinIndex(Positions(ns))
  }

  function Plus(p: Point, d: Point): Point {
    Point(p.x + d.x, p.y + d.y, p.z + d.z)
  }

  /** The first node near `target`, scanning in collection order. */
  function FirstNear(ns: seq<Node>, target: Point, tol: real): (r: Option<Node>)
    ensures r.None? <==> forall k :: 0 <= k < |ns| ==> !Near(ns[k].data, target, tol)
    ensures r.Some? ==> exists i :: 0 <= i < |ns| && ns[i] == r.value && Near(r.value.data, target, tol) &&
                                    forall k :: 0 <= k < i ==> !Near(ns[k].data, target, tol)
  {
    if |ns| == 0 then None
    else if Near(ns[0].data, target, tol) then Some(ns[0])
    else
      var rest := FirstNear(ns[1..], target, tol);
      assert forall k :: 1 <= k < |ns| ==> ns[k] == ns[1..][k - 1];
      if rest.Some? then
        var i :| 0 <= i < |ns[1..]| && ns[1..][i] == rest.value && Near(rest.value.data, target, tol) &&
                 forall k :: 0 <= k < i ==> !Near(ns[1..][k].data, target, tol);
        assert ns[i + 1] == rest.value;
        rest
      else rest
  }

  /** `get_by_offset`: the first node within the tolerance of
      `origin + (dx, dy, dz)` on all three axes, or None; without an
      origin the lexicographically smallest node is used, and on an empty
      collection that `min` raises ValueError. */
  function GetByOffset(c: Coll<Point>, d: Point, origin: Option<Point>): (r: Result<Option<Node>>)
    ensures r.Err? <==> origin.None? && |c.objects| == 0
    ensures r.Err? ==> r.error == ValueError
    ensures r.Ok? ==>
      var o := if origin.Some? then origin.value else c.objects[LexMinIndex(c.objects)].data;
      r.value == FirstNear(c.objects, Plus(o, d), OffsetTol)
  {
    if origin.None? && |c.objects| == 0 then Err(ValueError)
    else
      var o := if origin.Some? then origin.value else c.objects[LexMinIndex(c.objects)].data;
      Ok(FirstNear(c.objects, Plus(o, d), OffsetTol))
  }

  /** With a zero offset and no origin, the smallest node finds itself or
      an earlier node near it. */
  lemma GetByOffsetZero(c: Coll<Point>)
    requires |c.objects| > 0
    ensures GetByOffset(c, Point(0.0, 0.0, 0.0), None).Ok?
    ensures GetByOffset(c, Point(0.0, 0.0, 0.0), None).value.Some?
  {
    var m := LexMinIndex(c.objects);
    var t := Plus(c.objects[m].data, Point(0.0, 0.0, 0.0));
    assert Near(c.objects[m].data, t, OffsetTol);
  }

  // ---------------------------------------------------------------
  // Point in polygon
  // ---------------------------------------------------------------

  type Coord = (real, real)

  /** `_is_point_on_segment`: `p` is collinear with the segment within the
      tolerance and lies between its ends (the dot product of the vectors
      to the two ends is not positive). */
  predicate OnSegment(p: Coord, a: Coord, b: Coord) {
    var cross := (p.1 - a.1) * (b.0 - a.0) - (p.0 - a.0) * (b.1 - a.1);
    var dot := (p.0 - a.0) * (p.0 - b.0) + (p.1 - a.1) * (p.1 - b.1);
    !(Abs(cross) > SegmentTol) && dot <= 0.0
  }

  /** Every point `a + t (b - a)` with `0 <= t <= 1` is on the segment,
      both ends included. */
  lemma OnSegmentBetween(a: Coord, b: Coord, t: real)
    requires 0.0 <= t <= 1.0
    ensures OnSegment((a.0 + t * (b.0 - a.0), a.1 + t * (b.1 - a.1)), a, b)
  {
    var ux, uy := b.0 - a.0, b.1 - a.1;
    var p := (a.0 + t * ux, a.1 + t * uy);
    assert p.1 - a.1 == t * uy && p.0 - a.0 == t * ux;
    assert (t * uy) * ux - (t * ux) * uy == 0.0;
    assert p.0 - b.0 == (t - 1.0) * ux && p.1 - b.1 == (t - 1.0) * uy;
    assert (t * ux) * ((t - 1.0) * ux) == t * (t - 1.0) * (ux * ux);
    assert (t * uy) * ((t - 1.0) * uy) == t * (t - 1.0) * (uy * uy);
    NonNegTimesNonPos(t, t - 1.0);
    assert ux * ux + uy * uy >= 0.0;
    assert t * (t - 1.0) * (ux * ux) + t * (t - 1.0) * (uy * uy) == t * (t - 1.0) * (ux * ux + uy * uy);
  }

  lemma NonNegTimesNonPos(a: real, b: real)
    requires a >= 0.0 && b <= 0.0
    ensures a * b <= 0.0
  {
    assert a * (-b) >= 0.0;
  }

  /** The corner an edge starts from: the one before `i`, cyclically. */
  function Prev(n: nat, i: nat): nat
    requires i < n
  {
    if i == 0 then n - 1 else i - 1
  }

  /** The ray-casting step for the edge from `a` to `b`: whether the
      horizontal ray to the right of `p` crosses it.  The edge is only
      tested when it straddles the ray's height; the division then raises
      ZeroDivisionError when `b.y - a.y + 1e-12` is zero. */
  function Crossing(p: Coord, a: Coord, b: Coord): (r: Result<bool>)
    ensures r.Err? <==> (a.1 > p.1) != (b.1 > p.1) && b.1 - a.1 + Eps == 0.0
    ensures r.Err? ==> r.error == ZeroDivisionError
    ensures r.Ok? && r.value ==> (a.1 > p.1) != (b.1 > p.1)
  {
    if (a.1 > p.1) != (b.1 > p.1) then
      var den := b.1 - a.1 + Eps;
      if den == 0.0 then Err(ZeroDivisionError)
      else Ok(p.0 < (b.0 - a.0) * (p.1 - a.1) / den + a.0)
    else Ok(false)
  }

  /** The loop of `_is_point_inside_polygon` from edge `i` on, with the
      parity so far: a point on an edge answers True at once; otherwise
      each crossing flips the parity. */
  function Walk(poly: seq<Coord>, p: Coord, i: nat, inside: bool): (r: Result<bool>)
    requires i <= |poly|
    ensures r.Err? ==> r.error == ZeroDivisionError
    decreases |poly| - i
  {
    if i == |poly| then Ok(inside)
    else
      var a, b := poly[i], poly[Prev(|poly|, i)];
      if OnSegment(p, a, b) then Ok(true)
      else
        match Crossing(p, a, b)
        case Err(e) => Err(e)
        case Ok(c) => Walk(poly, p, i + 1, inside != c)
  }

  /** `_is_point_inside_polygon`. */
  function Inside(poly: seq<Coord>, p: Coord): Result<bool> {
    Walk(poly, p, 0, false)
  }

  /** Edge `i` of the polygon: from corner `i - 1` (cyclically) to `i`. */
  predicate OnEdge(poly: seq<Coord>, p: Coord, i: nat)
    requires i < |poly|
  {
    OnSegment(p, poly[i], poly[Prev(|poly|, i)])
  }

  /** Edge `i` neither touches the point nor makes the division raise. */
  predicate Clean(poly: seq<Coord>, p: Coord, i: nat)
    requires i < |poly|
  {
    !OnEdge(poly, p, i) && Crossing(p, poly[i], poly[Prev(|poly|, i)]).Ok?
  }

  /** The number of edges from `i` on that the ray crosses. */
  function Crossings(poly: seq<Coord>, p: Coord, i: nat): nat
    requires i <= |poly|
    decreases |poly| - i
  {
    if i == |poly| then 0
    else
      var c := Crossing(p, poly[i], poly[Prev(|poly|, i)]);
      (if c == Ok(true) then 1 else 0) + Crossings(poly, p, i + 1)
  }

  /** A point on some edge is inside, provided no earlier edge made the
      division raise. */
  lemma {:induction false} BoundaryIsInside(poly: seq<Coord>, p: Coord, i: nat, j: nat, inside: bool)
    requires i <= j < |poly| && OnEdge(poly, p, j)
    requires forall k :: i <= k < j ==> Crossing(p, poly[k], poly[Prev(|poly|, k)]).Ok?
    ensures Walk(poly, p, i, inside) == Ok(true)
    decreases j - i
  {
    if i < j && !OnEdge(poly, p, i) {
      var c := Crossing(p, poly[i], poly[Prev(|poly|, i)]);
      BoundaryIsInside(poly, p, i + 1, j, inside != c.value);
    }
  }

  /** Away from the boundary and from a raising division, the loop answers
      the parity of the number of edges the ray crosses: the even-odd
      rule. */
  lemma {:induction false} WalkIsParity(poly: seq<Coord>, p: Coord, i: nat, inside: bool)
    requires i <= |poly|
    requires forall k :: i <= k < |poly| ==> Clean(poly, p, k)
    ensures Walk(poly, p, i, inside) == Ok(inside != (Crossings(poly, p, i) % 2 == 1))
    decreases |poly| - i
  {
    if i < |poly| {
      var c := CrossAt(poly, p, i);
      WalkStep(poly, p, i, inside);
      CrossingsStep(poly, p, i);
      WalkIsParity(poly, p, i + 1, inside != c);
      ParityStep(Crossings(poly, p, i + 1), c, inside);
    }
  }

  /** Whether the ray crosses edge `i`, for an edge where that is decided
      without raising. */
  function CrossAt(poly: seq<Coord>, p: Coord, i: nat): bool
    requires i < |poly| && Clean(poly, p, i)
  {
    Crossing(p, poly[i], poly[Prev(|poly|, i)]).value
  }

  lemma WalkStep(poly: seq<Coord>, p: Coord, i: nat, inside: bool)
    requires i < |poly| && Clean(poly, p, i)
    ensures Walk(poly, p, i, inside) == Walk(poly, p, i + 1, inside != CrossAt(poly, p, i))
  {
  }

  lemma CrossingsStep(poly: seq<Coord>, p: Coord, i: nat)
    requires i < |poly| && Clean(poly, p, i)
    ensures Crossings(poly, p, i) == (if CrossAt(poly, p, i) then 1 else 0) + Crossings(poly, p, i + 1)
  {
  }

  lemma ParityStep(n: nat, c: bool, inside: bool)
    ensures (inside != c) != (n % 2 == 1) <==> inside != (((if c then 1 else 0) + n) % 2 == 1)
  {
  }

  // ---------------------------------------------------------------
  // get_by_indices / select_by_polygon
  // ---------------------------------------------------------------

  /** `get_by_indices` as written: it calls `collection.index(i)`, a method
      the collection class does not have, so any non-empty list of indices
      raises AttributeError; an empty list gives an empty collection. */
  function GetByIndicesAsWritten(c: Coll<Point>, indices: seq<int>): (r: Result<Coll<Point>>)
    ensures r.Err? <==> |indices| > 0
    ensures r.Err? ==> r.error == AttributeError
    ensures r.Ok? ==> r.value.objects == []
  {
    if |indices| > 0 then Err(AttributeError) else Ok(FromSeq([]))
  }

  /** `select_by_polygon` as written: it fails with that AttributeError for
      any non-empty boundary, and with an empty one it has fewer than three
      corners and selects nothing. */
  function SelectByPolygonAsWritten(c: Coll<Point>, boundary: seq<int>): (r: Result<Coll<Point>>)
    ensures r.Err? <==> |boundary| > 0
    ensures r.Ok? ==> r.value.objects == []
  {
    match GetByIndicesAsWritten(c, boundary)
    case Err(e) => Err(e)
    case Ok(_) => Ok(FromSeq([]))
  }

  /** The nodes the indices name, in index order, skipping indices the
      collection does not hold: `[collection.get(i) for i in indices if
      collection.get(i) is not None]`. */
  function GetByIndices(c: Coll<Point>, indices: seq<int>): (r: seq<Node>)
    ensures forall n :: n in r <==> exists k :: 0 <= k < |indices| && Get(c, indices[k]) == Some(n)
  {
    if |indices| == 0 then []
    else
      var rest := GetByIndices(c, indices[1..]);
      assert forall k :: 1 <= k < |indices| ==> indices[k] == indices[1..][k - 1];
      assert forall n :: (exists k :: 0 <= k < |indices[1..]| && Get(c, indices[1..][k]) == Some(n)) ==>
                         (exists k :: 0 <= k < |indices| && Get(c, indices[k]) == Some(n));
      match Get(c, indices[0])
      case Some(n) => [n] + rest
      case None => rest
  }

  /** In a consistent collection, a boundary of three present indices
      gives three corners. */
  lemma {:induction false} GetByIndicesAllPresent(c: Coll<Point>, indices: seq<int>)
    requires forall k :: 0 <= k < |indices| ==> Get(c, indices[k]).Some?
    ensures |GetByIndices(c, indices)| == |indices|
    ensures forall k :: 0 <= k < |indices| ==> GetByIndices(c, indices)[k] == Get(c, indices[k]).value
    decreases |indices|
  {
    if |indices| > 0 {
      var t := indices[1..];
      var rt := GetByIndices(c, t);
      assert |rt| == |t| && forall k :: 0 <= k < |t| ==> rt[k] == Get(c, indices[k + 1]).value by {
        assert forall k :: 0 <= k < |t| ==> t[k] == indices[k + 1];
        GetByIndicesAllPresent(c, t);
      }
      assert GetByIndices(c, indices) == [Get(c, indices[0]).value] + rt;
    }
  }

  /** The lookup works index by index, in index order: an index the
      collection holds contributes its node, repeats included, and any
      other contributes nothing. */
  lemma {:induction false} GetByIndicesConcat(c: Coll<Point>, a: seq<int>, b: seq<int>)
    ensures GetByIndices(c, a + b) == GetByIndices(c, a) + GetByIndices(c, b)
    ensures forall i :: GetByIndices(c, [i]) == if Get(c, i).Some? then [Get(c, i).value] else []
    decreases |a|
  {
    if |a| > 0 {
      assert (a + b)[1..] == a[1..] + b;
      GetByIndicesConcat(c, a[1..], b);
    } else {
      assert a + b == b;
    }
  }

  function Corners(ns: seq<Node>): (r: seq<Coord>)
    ensures |r| == |ns| && forall k :: 0 <= k < |ns| ==> r[k] == (ns[k].data.x, ns[k].data.y)
  {
    seq(|ns|, k requires 0 <= k < |ns| => (ns[k].data.x, ns[k].data.y))
  }

  /** The nodes of `ns` whose plan position is inside the polygon, in
      order; the first raising test's error otherwise. */
  function InsideNodes(ns: seq<Node>, poly: seq<Coord>): (r: Result<seq<Node>>)
    ensures r.Ok? <==> forall k :: 0 <= k < |ns| ==> Inside(poly, (ns[k].data.x, ns[k].data.y)).Ok?
    ensures r.Ok? ==> forall n :: n in r.value <==> n in ns && Inside(poly, (n.data.x, n.data.y)) == Ok(true)
    ensures r.Err? ==> r.error == ZeroDivisionError
  {
    if |ns| == 0 then Ok([])
    else
      var t := Inside(poly, (ns[0].data.x, ns[0].data.y));
      var rest := InsideNodes(ns[1..], poly);
      assert forall k :: 1 <= k < |ns| ==> ns[k] == ns[1..][k - 1];
      assert forall n :: n in ns <==> n == ns[0] || n in ns[1..];
      if t.Err? then Err(t.error)
      else if rest.Err? then rest
      else if t.value then Ok([ns[0]] + rest.value)
      else rest
  }

  /** One node is kept exactly when its test answers true. */
  lemma InsideNodesOne(n: Node, poly: seq<Coord>)
    ensures InsideNodes([n], poly) ==
              match Inside(poly, (n.data.x, n.data.y))
              case Err(e) => Err(e)
              case Ok(t) => Ok(if t then [n] else [])
  {
    assert [n][1..] == [] && [n][0] == n;
    assert InsideNodes([], poly) == Ok([]);
    assert [n] + [] == [n];
  }

  /** The selection is a filter that keeps collection order: a list of
      nodes is tested part by part, the parts' kept nodes following one
      another. */
  lemma {:induction false} InsideNodesConcat(a: seq<Node>, b: seq<Node>, poly: seq<Coord>)
    ensures InsideNodes(a + b, poly).Ok? <==> InsideNodes(a, poly).Ok? && InsideNodes(b, poly).Ok?
    ensures InsideNodes(a + b, poly).Ok? ==>
              InsideNodes(a + b, poly).value == InsideNodes(a, poly).value + InsideNodes(b, poly).value
    decreases |a|
  {
    if |a| > 0 {
      var ab := a + b;
      assert ab[0] == a[0] && ab[1..] == a[1..] + b;
      InsideNodesConcat(a[1..], b, poly);
      var t := Inside(poly, (a[0].data.x, a[0].data.y));
      var ra, rb, rab := InsideNodes(a[1..], poly), InsideNodes(b, poly), InsideNodes(a[1..] + b, poly);
      assert InsideNodes(ab, poly) ==
               if t.Err? then Err(t.error) else if rab.Err? then rab
               else if t.value then Ok([a[0]] + rab.value) else rab;
      assert InsideNodes(a, poly) ==
               if t.Err? then Err(t.error) else if ra.Err? then ra
               else if t.value then Ok([a[0]] + ra.value) else ra;
      if t.Ok? && ra.Ok? && rb.Ok? && t.value {
        assert [a[0]] + (ra.value + rb.value) == ([a[0]] + ra.value) + rb.value;
      }
    } else {
      assert a + b == b;
    }
  }

  /** `select_by_polygon` with `get_by_indices` reading the collection as
      evidently intended: fewer than three corners select nothing;
      otherwise the nodes inside the polygon (boundary included), in
      collection order. */
  function SelectByPolygon(c: Coll<Point>, boundary: seq<int>): (r: Result<Coll<Point>>)
    ensures |GetByIndices(c, boundary)| < 3 ==> r == Ok(FromSeq([]))
    ensures r.Ok? ==> Consistent(r.value)
    ensures |GetByIndices(c, boundary)| >= 3 && r.Ok? ==>
      forall n :: n in r.value.objects <==>
        n in c.objects && Inside(Corners(GetByIndices(c, boundary)), (n.data.x, n.data.y)) == Ok(true)
    ensures r.Ok? <==> (|GetByIndices(c, boundary)| < 3 ||
                        forall k :: 0 <= k < |c.objects| ==>
                          Inside(Corners(GetByIndices(c, boundary)), (c.objects[k].data.x, c.objects[k].data.y)).Ok?)
    ensures |GetByIndices(c, boundary)| >= 3 && r.Ok? ==>
              r.value.objects == InsideNodes(c.objects, Corners(GetByIndices(c, boundary))).value
    ensures r.Err? ==> r.error == ZeroDivisionError
  {
    var poly := Corners(GetByIndices(c, boundary));
    if |poly| < 3 then Ok(FromSeq([]))
    else
      match InsideNodes(c.objects, poly)
      case Err(e) => Err(e)
      case Ok(ns) => Ok(FromSeq(ns))
  }

  /** The two disagree on every boundary of three or more present
      indices: the code as written raises where the intended selection
      answers. */
  lemma SelectByPolygonDiscrepancy(c: Coll<Point>, boundary: seq<int>)
    requires |boundary| >= 3
    requires forall k :: 0 <= k < |boundary| ==> Get(c, boundary[k]).Some?
    ensures SelectByPolygonAsWritten(c, boundary) == Err(AttributeError)
    ensures |GetByIndices(c, boundary)| >= 3
  {
    GetByIndicesAllPresent(c, boundary);
  }
}
