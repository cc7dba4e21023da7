/** Framing of a line sequence into header-led groups: the state machine
    the layout parsers run over a block body.  Each line is a header, an
    item or skipped; a header starts a new group and an item joins the
    group last started.  Items met before the first header are kept apart
    (the generic layout parser drops them, the floor-layout parsers hand
    them to the first layout). */
module Framing {

  datatype LineClass = Head | Item | Skip

  datatype Frame<T> = Frame(head: T, body: seq<T>)

  /** The items before the first header, and the groups so far. */
  datatype Framed<T> = Framed(lead: seq<T>, frames: seq<Frame<T>>)

  /** One turn of the loop: a header closes the current group and opens a
      new one; an item joins the current group, or the lead when no group
      is open. */
  function Step<T>(st: Framed<T>, x: T, c: LineClass): (r: Framed<T>)
  {
    match c
    case Head => Framed(st.lead, st.frames + [Frame(x, [])])
    case Item =>
      if |st.frames| == 0 then Framed(st.lead + [x], [])
      else
        var n := |st.frames| - 1;
        Framed(st.lead, st.frames[..n] + [Frame(st.frames[n].head, st.frames[n].body + [x])])
    case Skip => st
  }

  /** The loop over the remaining lines. */
  function FrameFrom<T>(xs: seq<T>, cls: T -> LineClass, st: Framed<T>): Framed<T>
    decreases |xs|
  {
    if |xs| == 0 then st else FrameFrom(xs[1..], cls, Step(st, xs[0], cls(xs[0])))
  }

  function FrameAll<T>(xs: seq<T>, cls: T -> LineClass): Framed<T> {
    FrameFrom(xs, cls, Framed([], []))
  }

  /** The lines of one class, in order. */
  function Select<T>(xs: seq<T>, cls: T -> LineClass, c: LineClass): (r: seq<T>)
    ensures |r| <= |xs|
  {
    if |xs| == 0 then [] else (if cls(xs[0]) == c then [xs[0]] else []) + Select(xs[1..], cls, c)
  }

  lemma {:induction false} SelectConcat<T>(a: seq<T>, b: seq<T>, cls: T -> LineClass, c: LineClass)
    ensures Select(a + b, cls, c) == Select(a, cls, c) + Select(b, cls, c)
    decreases |a|
  {
    if |a| > 0 {
      assert (a + b)[1..] == a[1..] + b;
      SelectConcat(a[1..], b, cls, c);
    } else {
      assert a + b == b;
    }
  }

  function Heads<T>(fs: seq<Frame<T>>): (r: seq<T>)
    ensures |r| == |fs| && forall k :: 0 <= k < |fs| ==> r[k] == fs[k].head
  {
    seq(|fs|, k requires 0 <= k < |fs| => fs[k].head)
  }

  /** Every group's items, group by group. */
  function Bodies<T>(fs: seq<Frame<T>>): seq<T> {
    if |fs| == 0 then [] else Bodies(fs[..|fs| - 1]) + fs[|fs| - 1].body
  }

  /** The items of a list of groups are those of its first group, then
      those of the rest. */
  lemma {:induction false} BodiesCons<T>(f: Frame<T>, fs: seq<Frame<T>>)
    ensures Bodies([f] + fs) == f.body + Bodies(fs)
    decreases |fs|
  {
    var all := [f] + fs;
    if |fs| == 0 {
      assert all[..0] == [];
    } else {
      var n := |fs|;
      var init := fs[..n - 1];
      assert all[..n] == [f] + init;
      assert all[n] == fs[n - 1];
      BodiesCons(f, init);
      assert Bodies(all) == Bodies([f] + init) + fs[n - 1].body;
      assert Bodies(fs) == Bodies(init) + fs[n - 1].body;
    }
  }

  /** A header line adds one group and nothing else; an item line adds
      itself to the items; a skipped line changes nothing. */
  lemma StepEffect<T>(st: Framed<T>, x: T, c: LineClass)
    ensures Heads(Step(st, x, c).frames) == Heads(st.frames) + (if c == Head then [x] else [])
    ensures var r := Step(st, x, c);
            r.lead + Bodies(r.frames) == st.lead + Bodies(st.frames) + (if c == Item then [x] else [])
    ensures |st.frames| > 0 ==> Step(st, x, c).lead == st.lead && |Step(st, x, c).frames| > 0
    ensures c != Head && |st.frames| == 0 ==> |Step(st, x, c).frames| == 0
  {
    var r := Step(st, x, c);
    if c == Head {
      assert r.frames[..|r.frames| - 1] == st.frames;
    } else if c == Item && |st.frames| > 0 {
      var n := |st.frames| - 1;
      assert r.frames[..n] == st.frames[..n];
      assert Heads(r.frames) == Heads(st.frames);
    }
  }

  /** The loop collects one group per header line, in order. */
  lemma {:induction false} FrameFromHeads<T>(xs: seq<T>, cls: T -> LineClass, st: Framed<T>)
    ensures Heads(FrameFrom(xs, cls, st).frames) == Heads(st.frames) + Select(xs, cls, Head)
    decreases |xs|
  {
    if |xs| > 0 {
      StepEffect(st, xs[0], cls(xs[0]));
      FrameFromHeads(xs[1..], cls, Step(st, xs[0], cls(xs[0])));
    }
  }

  /** The items of the lead and of all groups are the item lines, in
      order. */
  lemma {:induction false} FrameFromItems<T>(xs: seq<T>, cls: T -> LineClass, st: Framed<T>)
    ensures var r := FrameFrom(xs, cls, st);
            r.lead + Bodies(r.frames) == st.lead + Bodies(st.frames) + Select(xs, cls, Item)
    decreases |xs|
  {
    if |xs| > 0 {
      StepEffect(st, xs[0], cls(xs[0]));
      FrameFromItems(xs[1..], cls, Step(st, xs[0], cls(xs[0])));
    }
  }

  /** Once a group is open the lead no longer changes; while no header
      has been met no group opens. */
  lemma {:induction false} FrameFromLead<T>(xs: seq<T>, cls: T -> LineClass, st: Framed<T>)
    ensures |st.frames| > 0 ==> FrameFrom(xs, cls, st).lead == st.lead && |FrameFrom(xs, cls, st).frames| > 0
    ensures |st.frames| == 0 && |Select(xs, cls, Head)| == 0 ==> |FrameFrom(xs, cls, st).frames| == 0
    decreases |xs|
  {
    if |xs| > 0 {
      StepEffect(st, xs[0], cls(xs[0]));
      FrameFromLead(xs[1..], cls, Step(st, xs[0], cls(xs[0])));
    }
  }

  /** The loop over `a + b` is the loop over `b` after the loop over `a`. */
  lemma {:induction false} FrameFromConcat<T>(a: seq<T>, b: seq<T>, cls: T -> LineClass, st: Framed<T>)
    ensures FrameFrom(a + b, cls, st) == FrameFrom(b, cls, FrameFrom(a, cls, st))
    decreases |a|
  {
    if |a| > 0 {
      assert (a + b)[1..] == a[1..] + b;
      FrameFromConcat(a[1..], b, cls, Step(st, a[0], cls(a[0])));
    } else {
      assert a + b == b;
    }
  }

  /** The lead is the item lines before the first header, and the first
      group starts at that header. */
  lemma FrameAllLead<T>(xs: seq<T>, cls: T -> LineClass, k: nat)
    requires k < |xs| && cls(xs[k]) == Head
    requires forall j :: 0 <= j < k ==> cls(xs[j]) != Head
    ensures FrameAll(xs, cls).lead == Select(xs[..k], cls, Item)
    ensures |FrameAll(xs, cls).frames| > 0 && FrameAll(xs, cls).frames[0].head == xs[k]
  {
    var a, b := xs[..k], xs[k..];
    assert xs == a + b;
    FrameFromConcat(a, b, cls, Framed([], []));
    var mid := FrameFrom(a, cls, Framed([], []));
    NoHeadsNoFrames(a, cls);
    FrameFromLead(a, cls, Framed([], []));
    FrameFromItems(a, cls, Framed([], []));
    assert mid.frames == [];
    assert Bodies(mid.frames) == [] && Bodies<T>([]) == [];
    assert mid.lead + Bodies(mid.frames) == mid.lead;
    assert [] + Bodies<T>([]) + Select(a, cls, Item) == Select(a, cls, Item);
    assert b == [xs[k]] + b[1..];
    var st := Step(mid, xs[k], Head);
    assert st.frames == [Frame(xs[k], [])];
    FrameFromLead(b[1..], cls, st);
    FrameFromHeads(b[1..], cls, st);
    assert Heads(FrameAll(xs, cls).frames)[0] == xs[k];
  }

  /** A stretch with no header line selects no header. */
  lemma {:induction false} NoHeadsNoFrames<T>(xs: seq<T>, cls: T -> LineClass)
    requires forall j :: 0 <= j < |xs| ==> cls(xs[j]) != Head
    ensures Select(xs, cls, Head) == []
    decreases |xs|
  {
    if |xs| > 0 {
      NoHeadsNoFrames(xs[1..], cls);
    }
  }
}
