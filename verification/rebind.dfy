/** The elset rebinding step shared by the slab and floor-layout
    `remap_elsets` operations (collection/slabs.py, layout/beam_layouts.py,
    layout/column_layouts.py): an object's old elset is looked up in the
    old-to-new index map and replaced by the merged elset under the new
    index; both a missing map entry and a missing merged elset raise
    KeyError. */
module Rebind {
  import opened Wrappers
  import opened Store

  function RebindElset<E>(prev: Entity<E>, reorder: map<int, int>, elsets: Coll<E>): (r: Result<Entity<E>>)
    ensures r.Err? <==> prev.index !in reorder || reorder[prev.index] !in elsets.byIndex
    ensures r.Err? ==> r.error == KeyError
    ensures r.Ok? ==> Get(elsets, reorder[prev.index]) == Some(r.value)
  {
    if prev.index !in reorder then Err(KeyError)
    else
      match Get(elsets, reorder[prev.index])
      case None => Err(KeyError)
      case Some(e) => Ok(e)
  }

  /** Over a consistent merged collection the rebound elset is one of the
      merged elsets and carries the mapped index, and rebinding fails
      exactly when no merged elset carries it. */
  lemma RebindElsetMapped<E>(prev: Entity<E>, reorder: map<int, int>, elsets: Coll<E>)
    requires Consistent(elsets) && prev.index in reorder
    ensures RebindElset(prev, reorder, elsets).Err? <==>
              forall k :: 0 <= k < |elsets.objects| ==> elsets.objects[k].index != reorder[prev.index]
    ensures RebindElset(prev, reorder, elsets).Ok? ==>
              RebindElset(prev, reorder, elsets).value in elsets.objects &&
              RebindElset(prev, reorder, elsets).value.index == reorder[prev.index]
  {
    GetConsistent(elsets, reorder[prev.index]);
  }
}
