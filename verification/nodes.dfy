/** Nodes and their replication: every selected node is copied along a
    grid of offsets `(ix, iy, iz)`, `ix < nx`, `iy < ny`, `iz < nz`, the
    zero offset excluded; a copy that falls within the tolerance of a base
    node is dropped, and the others get new consecutive indices after the
    largest base index.  Coordinates are exact reals and the tolerance is a
    parameter. */
module Nodes {
  import opened Store

  datatype Point = Point(x: real, y: real, z: real)

  type Node = Entity<Point>

  function Abs(r: real): real { if r < 0.0 then -r else r }

  /** Within `tol` of each other on all three axes. */
  predicate Near(a: Point, b: Point, tol: real) {
    Abs(a.x - b.x) < tol && Abs(a.y - b.y) < tol && Abs(a.z - b.z) < tol
  }

  /** `node_exists`: some node of `ns` lies near `p`. */
  function NearAny(ns: seq<Node>, p: Point, tol: real): (b: bool)
    ensures b <==> exists k :: 0 <= k < |ns| && Near(ns[k].data, p, tol)
  {
    if |ns| == 0 then false
    else if Near(ns[0].data, p, tol) then true
    else
      var rest := NearAny(ns[1..], p, tol);
      assert forall k :: 1 <= k < |ns| ==> ns[k] == ns[1..][k - 1];
      rest
  }

  /** Python's comparison of `(x, y, z)` tuples. */
  predicate PointLess(a: Point, b: Point) {
    a.x < b.x || (a.x == b.x && (a.y < b.y || (a.y == b.y && a.z < b.z)))
  }

  /** The position Python's `min` picks under that comparison: no point is
      below it, and it is the first such, since `min` only replaces its
      candidate by a strictly smaller one. */
  function MinIndex(ps: seq<Point>): (i: nat)
    requires |ps| > 0
    ensures i < |ps|
    ensures forall k :: 0 <= k < |ps| ==> !PointLess(ps[k], ps[i])
    ensures forall k :: 0 <= k < i ==> PointLess(ps[i], ps[k])
  {
    if |ps| == 1 then 0
    else
      var m := MinIndex(ps[..|ps| - 1]);
      assert forall k :: 0 <= k < |ps| - 1 ==> ps[..|ps| - 1][k] == ps[k];
      if PointLess(ps[|ps| - 1], ps[m]) then |ps| - 1 else m
  }

  function Positions(ns: seq<Node>): (r: seq<Point>)
    ensures |r| == |ns| && forall k :: 0 <= k < |ns| ==> r[k] == ns[k].data
  {
    seq(|ns|, k requires 0 <= k < |ns| => ns[k].data)
  }

  // ---------------------------------------------------------------
  // The grid of offsets
  // ---------------------------------------------------------------

  datatype Offset = Offset(ix: nat, iy: nat, iz: nat)

  const Origin := Offset(0, 0, 0)

  /** The order three nested loops visit offsets in. */
  predicate OffsetLess(a: Offset, b: Offset) {
    a.ix < b.ix || (a.ix == b.ix && (a.iy < b.iy || (a.iy == b.iy && a.iz < b.iz)))
  }

  ghost predicate OffsetsIncreasing(s: seq<Offset>) {
    forall i, j :: 0 <= i < j < |s| ==> OffsetLess(s[i], s[j])
  }

  /** `len(range(n))`. */
  function Count(n: int): nat { if n > 0 then n else 0 }

  /** The innermost loop: `iz` over `range(nz)`. */
  function Line(ix: nat, iy: nat, nz: nat): (r: seq<Offset>)
    ensures forall o :: o in r <==> o.ix == ix && o.iy == iy && o.iz < nz
    ensures OffsetsIncreasing(r)
  {
    var r := seq(nz, k requires 0 <= k < nz => Offset(ix, iy, k));
    assert forall o: Offset :: o.ix == ix && o.iy == iy && o.iz < nz ==> r[o.iz] == o;
    r
  }

  /** The two inner loops for one `ix`. */
  function Plane(ix: nat, ny: nat, nz: nat): (r: seq<Offset>)
    ensures forall o :: o in r <==> o.ix == ix && o.iy < ny && o.iz < nz
    ensures OffsetsIncreasing(r)
    decreases ny
  {
    if ny == 0 then []
    else
      var a, b := Plane(ix, ny - 1, nz), Line(ix, ny - 1, nz);
      IncreasingConcat(a, b);
      a + b
  }

  /** All three loops. */
  function Grid(nx: nat, ny: nat, nz: nat): (r: seq<Offset>)
    ensures forall o :: o in r <==> o.ix < nx && o.iy < ny && o.iz < nz
    ensures OffsetsIncreasing(r)
    decreases nx
  {
    if nx == 0 then []
    else
      var a, b := Grid(nx - 1, ny, nz), Plane(nx - 1, ny, nz);
      IncreasingConcat(a, b);
      a + b
  }

  lemma IncreasingConcat(a: seq<Offset>, b: seq<Offset>)
    requires OffsetsIncreasing(a) && OffsetsIncreasing(b)
    requires forall x, y :: x in a && y in b ==> OffsetLess(x, y)
    ensures OffsetsIncreasing(a + b)
  {
    forall i, j | 0 <= i < j < |a + b|
      ensures OffsetLess((a + b)[i], (a + b)[j])
    {
      if j < |a| {
      } else if i < |a| {
        assert (a + b)[i] in a && (a + b)[j] in b;
      } else {
        assert (a + b)[i] == b[i - |a|] && (a + b)[j] == b[j - |a|];
      }
    }
  }

  /** The offsets the replication visits: the grid without the zero
      offset, in loop order; empty when any count is zero or negative. */
  function Offsets(nx: int, ny: int, nz: int): (r: seq<Offset>)
    ensures forall o :: o in r <==> o.ix < Count(nx) && o.iy < Count(ny) && o.iz < Count(nz) && o != Origin
    ensures OffsetsIncreasing(r)
    ensures Count(nx) == 0 || Count(ny) == 0 || Count(nz) == 0 ==> r == []
  {
    var g := Grid(Count(nx), Count(ny), Count(nz));
    if |g| == 0 then []
    else
      assert g[0] in g;
      assert Origin in g;
      DropFirst(g);
      g[1..]
  }

  /** A non-empty grid starts with the zero offset, so dropping its first
      element drops exactly that offset. */
  lemma DropFirst(g: seq<Offset>)
    requires |g| > 0 && OffsetsIncreasing(g) && Origin in g
    ensures forall o :: o in g[1..] <==> o in g && o != Origin
  {
    var k :| 0 <= k < |g| && g[k] == Origin;
    forall o | o in g && o != Origin
      ensures o in g[1..]
    {
      var i :| 0 <= i < |g| && g[i] == o;
      assert g[1..][i - 1] == o;
    }
    forall o | o in g[1..]
      ensures o != Origin
    {
      var i :| 0 <= i < |g[1..]| && g[1..][i] == o;
      assert OffsetLess(g[0], g[i + 1]);
    }
  }

  // ---------------------------------------------------------------
  // Replication
  // ---------------------------------------------------------------

  /** A copy of `p` moved by `ix`, `iy`, `iz` steps of `d`. */
  function Shift(p: Point, d: Point, o: Offset): Point {
    Point(p.x + d.x * o.ix as real, p.y + d.y * o.iy as real, p.z + d.z * o.iz as real)
  }

  /** `p` is the copy of some selected node moved by some offset. */
  ghost predicate CopyOf(p: Point, sel: seq<Node>, offs: seq<Offset>, d: Point) {
    exists k, o :: 0 <= k < |sel| && o in offs && p == Shift(sel[k].data, d, o)
  }

  /** One node's copies, offset by offset. */
  function Copies(p: Point, offs: seq<Offset>, d: Point): (r: seq<Point>)
    ensures |r| == |offs| && forall j :: 0 <= j < |offs| ==> r[j] == Shift(p, d, offs[j])
  {
    seq(|offs|, j requires 0 <= j < |offs| => Shift(p, d, offs[j]))
  }

  /** The candidate copies, node by node and offset by offset. */
  function Candidates(sel: seq<Node>, offs: seq<Offset>, d: Point): (r: seq<Point>)
  {
    if |sel| == 0 then [] else Copies(sel[0].data, offs, d) + Candidates(sel[1..], offs, d)
  }

  /** Every candidate is a copy of a selected node, and every copy is a
      candidate. */
  lemma {:induction false} CandidatesAreCopies(sel: seq<Node>, offs: seq<Offset>, d: Point, p: Point)
    ensures p in Candidates(sel, offs, d) <==> CopyOf(p, sel, offs, d)
    decreases |sel|
  {
    if |sel| > 0 {
      var head := Copies(sel[0].data, offs, d);
      CandidatesAreCopies(sel[1..], offs, d, p);
      if p in head {
        var j :| 0 <= j < |offs| && head[j] == p;
        assert 0 < |sel| && offs[j] in offs && p == Shift(sel[0].data, d, offs[j]);
      } else if CopyOf(p, sel[1..], offs, d) {
        var k, o :| 0 <= k < |sel[1..]| && o in offs && p == Shift(sel[1..][k].data, d, o);
        assert sel[1..][k] == sel[k + 1];
      }
      if CopyOf(p, sel, offs, d) {
        var k, o :| 0 <= k < |sel| && o in offs && p == Shift(sel[k].data, d, o);
        if k == 0 {
          var j :| 0 <= j < |offs| && offs[j] == o;
          assert head[j] == p;
        } else {
          assert sel[k] == sel[1..][k - 1];
          assert CopyOf(p, sel[1..], offs, d);
        }
      }
    }
  }

  /** The candidates that are not near any base node, in order. */
  function Far(cands: seq<Point>, base: seq<Node>, tol: real): (r: seq<Point>)
    ensures |r| <= |cands|
  {
    if |cands| == 0 then []
    else
      var rest := Far(cands[1..], base, tol);
      if NearAny(base, cands[0], tol) then rest else [cands[0]] + rest
  }

  /** The far candidates are exactly the candidates near no base node. */
  lemma {:induction false} FarMembers(cands: seq<Point>, base: seq<Node>, tol: real, p: Point)
    ensures p in Far(cands, base, tol) <==> p in cands && !NearAny(base, p, tol)
    decreases |cands|
  {
    if |cands| > 0 {
      FarMembers(cands[1..], base, tol, p);
      assert p in cands <==> p == cands[0] || p in cands[1..];
    }
  }

  /** Points numbered consecutively from `next`. */
  function Number(ps: seq<Point>, next: int): (r: seq<Node>)
    ensures |r| == |ps|
    ensures forall k :: 0 <= k < |ps| ==> r[k] == Entity(next + k, ps[k])
  {
    seq(|ps|, k requires 0 <= k < |ps| => Entity(next + k, ps[k]))
  }

  lemma NumberCons(p: Point, ps: seq<Point>, next: int)
    ensures Number([p] + ps, next) == [Entity(next, p)] + Number(ps, next + 1)
  {
  }

  /** The replication loop over the candidates: skip one near a base node,
      otherwise make it a node with the current counter and advance it. */
  function Place(cands: seq<Point>, base: seq<Node>, tol: real, next: int): (r: seq<Node>)
  {
    if |cands| == 0 then []
    else if NearAny(base, cands[0], tol) then Place(cands[1..], base, tol, next)
    else [Entity(next, cands[0])] + Place(cands[1..], base, tol, next + 1)
  }

  /** The loop is "keep the far candidates, then number them". */
  lemma {:induction false} PlaceIsNumberedFar(cands: seq<Point>, base: seq<Node>, tol: real, next: int)
    ensures Place(cands, base, tol, next) == Number(Far(cands, base, tol), next)
    decreases |cands|
  {
    if |cands| > 0 {
      if NearAny(base, cands[0], tol) {
        PlaceIsNumberedFar(cands[1..], base, tol, next);
      } else {
        PlaceIsNumberedFar(cands[1..], base, tol, next + 1);
        NumberCons(cands[0], Far(cands[1..], base, tol), next);
      }
    }
  }

  /** `max((n.index for n in nodes), default=0)`. */
  function MaxIndex(ns: seq<Node>): (m: int)
    ensures forall k :: 0 <= k < |ns| ==> ns[k].index <= m
    ensures |ns| == 0 ==> m == 0
    ensures |ns| > 0 ==> exists k :: 0 <= k < |ns| && ns[k].index == m
  {
    if |ns| == 0 then 0
    else if |ns| == 1 then ns[0].index
    else
      var rest := MaxIndex(ns[1..]);
      assert forall k :: 1 <= k < |ns| ==> ns[k] == ns[1..][k - 1];
      if ns[0].index >= rest then ns[0].index
      else
        var k :| 0 <= k < |ns[1..]| && ns[1..][k].index == rest;
        assert ns[k + 1].index == rest;
        rest
  }

  /** The nodes the replication adds: the loop over the candidates,
      counting from one past the largest base index.  They are the far
      candidates, numbered in order. */
  function NewNodes(base: seq<Node>, sel: seq<Node>, offs: seq<Offset>, d: Point, tol: real): (r: seq<Node>)
    ensures r == Number(Far(Candidates(sel, offs, d), base, tol), MaxIndex(base) + 1)
  {
    var cands := Candidates(sel, offs, d);
    PlaceIsNumberedFar(cands, base, tol, MaxIndex(base) + 1);
    Place(cands, base, tol, MaxIndex(base) + 1)
  }

  /** Each new node carries the next index after the largest base index,
      so it is above every base index; it is a copy of a selected node
      along the offsets, and it is not near any base node. */
  lemma NewNodesSound(base: seq<Node>, sel: seq<Node>, offs: seq<Offset>, d: Point, tol: real, i: int)
    requires 0 <= i < |NewNodes(base, sel, offs, d, tol)|
    ensures var n := NewNodes(base, sel, offs, d, tol)[i];
            && n.index == MaxIndex(base) + 1 + i
            && (forall k :: 0 <= k < |base| ==> base[k].index < n.index)
            && !NearAny(base, n.data, tol)
            && CopyOf(n.data, sel, offs, d)
  {
    var far := Far(Candidates(sel, offs, d), base, tol);
    assert far[i] in far;
    FarMembers(Candidates(sel, offs, d), base, tol, far[i]);
    CandidatesAreCopies(sel, offs, d, far[i]);
  }

  /** Every copy of a selected node along the offsets that is not near a
      base node is among the new nodes. */
  lemma NewNodesComplete(base: seq<Node>, sel: seq<Node>, offs: seq<Offset>, d: Point, tol: real, k: int, o: Offset)
    requires 0 <= k < |sel| && o in offs
    requires !NearAny(base, Shift(sel[k].data, d, o), tol)
    ensures exists i :: 0 <= i < |NewNodes(base, sel, offs, d, tol)| &&
                        NewNodes(base, sel, offs, d, tol)[i].data == Shift(sel[k].data, d, o)
  {
    var p := Shift(sel[k].data, d, o);
    var far := Far(Candidates(sel, offs, d), base, tol);
    assert CopyOf(p, sel, offs, d);
    CandidatesAreCopies(sel, offs, d, p);
    FarMembers(Candidates(sel, offs, d), base, tol, p);
    var i :| 0 <= i < |far| && far[i] == p;
    assert NewNodes(base, sel, offs, d, tol)[i].data == p;
  }

  /** `NodesEngine.replicate`: the base nodes, then the new nodes.  Sorting
      the new nodes by index leaves them in place, since they are numbered
      in order. */
  function Replicate(base: Coll<Point>, sel: Coll<Point>, nx: int, ny: int, nz: int,
                     d: Point, tol: real): (r: Coll<Point>)
    ensures Consistent(r)
    ensures r.objects == base.objects + NewNodes(base.objects, sel.objects, Offsets(nx, ny, nz), d, tol)
  {
    var added := NewNodes(base.objects, sel.objects, Offsets(nx, ny, nz), d, tol);
    ExtendConsistent(FromSeq(base.objects), added);
    Extend(FromSeq(base.objects), added)
  }

  /** With a zero (or negative) count along any axis nothing is added. */
  lemma ReplicateZeroCount(base: Coll<Point>, sel: Coll<Point>, nx: int, ny: int, nz: int, d: Point, tol: real)
    requires nx <= 0 || ny <= 0 || nz <= 0
    ensures Replicate(base, sel, nx, ny, nz, d, tol).objects == base.objects
  {
    assert Candidates(sel.objects, [], d) == [] by {
      CandidatesEmpty(sel.objects, d);
    }
  }

  lemma {:induction false} CandidatesEmpty(sel: seq<Node>, d: Point)
    ensures Candidates(sel, [], d) == []
    decreases |sel|
  {
    if |sel| > 0 {
      CandidatesEmpty(sel[1..], d);
    }
  }

  /** Every grid copy of a selected node that is not near a base node is
      among the new nodes. */
  lemma ReplicateComplete(base: Coll<Point>, sel: Coll<Point>, nx: int, ny: int, nz: int, d: Point, tol: real,
                          k: nat, o: Offset)
    requires k < |sel.objects| && o.ix < Count(nx) && o.iy < Count(ny) && o.iz < Count(nz) && o != Origin
    requires !NearAny(base.objects, Shift(sel.objects[k].data, d, o), tol)
    ensures exists j :: |base.objects| <= j < |Replicate(base, sel, nx, ny, nz, d, tol).objects| &&
                        Replicate(base, sel, nx, ny, nz, d, tol).objects[j].data == Shift(sel.objects[k].data, d, o)
  {
    var added := NewNodes(base.objects, sel.objects, Offsets(nx, ny, nz), d, tol);
    NewNodesComplete(base.objects, sel.objects, Offsets(nx, ny, nz), d, tol, k, o);
    var i :| 0 <= i < |added| && added[i].data == Shift(sel.objects[k].data, d, o);
    assert Replicate(base, sel, nx, ny, nz, d, tol).objects[|base.objects| + i] == added[i];
  }
}
