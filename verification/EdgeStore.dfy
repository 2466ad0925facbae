/** All edges by id: the original ones first, then the shortcuts in the order they were added. */
module EdgeStores {
  import opened Graphs

  /** The two parts of the shortcut id, both older than it, lead from its start to its end and add up to its length. */
  ghost predicate ComposedAt(store: seq<Edge>, parts: seq<nat>, originals: nat, id: nat)
    requires originals <= id < |store| && |parts| == 2 * (|store| - originals)
  {
    var second, first := parts[2 * (id - originals)], parts[2 * (id - originals) + 1];
    && first < id && second < id
    && store[first].src == store[id].src && store[first].dst == store[second].src
    && store[second].dst == store[id].dst && store[first].len + store[second].len == store[id].len
  }

  /** Every edge behind the originals is composed of two older ones. */
  ghost predicate Composed(store: seq<Edge>, parts: seq<nat>, originals: nat)
  {
    && originals <= |store| && |parts| == 2 * (|store| - originals)
    && (forall id: nat {:trigger ComposedAt(store, parts, originals, id)} :: originals <= id < |store| ==>
          ComposedAt(store, parts, originals, id))
  }

  lemma AppendComposed(store: seq<Edge>, parts: seq<nat>, originals: nat, e: Edge, second: nat, first: nat)
    requires Composed(store, parts, originals) && first < |store| && second < |store|
    requires store[first].src == e.src && store[first].dst == store[second].src
    requires store[second].dst == e.dst && store[first].len + store[second].len == e.len
    ensures Composed(store + [e], parts + [second, first], originals)
  {
    var s, p := store + [e], parts + [second, first];
    forall id: nat | originals <= id < |s|
      ensures ComposedAt(s, p, originals, id)
    {
      if id < |store| {
        assert ComposedAt(store, parts, originals, id);
      }
    }
  }

  class EdgeStore {
    /** The columns originalEdgeStart, originalEdgeDest and originalEdgeDist, row by row. */
    const originals: seq<Edge>
    /** The same for the shortcut columns, and the two part ids of every shortcut. */
    var shortcuts: seq<Edge>
    var parts: seq<nat>
    var nextShortcutId: nat

    ghost predicate Valid()
      reads this
    {
      nextShortcutId == |originals| + |shortcuts| && Composed(Store(), parts, |originals|)
    }

    function Store(): seq<Edge>
      reads this
    {
      originals + shortcuts
    }

    constructor (originals: seq<Edge>)
      ensures Valid() && this.originals == originals && Store() == originals
    {
      this.originals := originals;
      shortcuts, parts := [], [];
      nextShortcutId := |originals|;
    }

    function GetDest(id: nat): (dest: nat)
      reads this
      requires Valid() && id < nextShortcutId
      ensures dest == Store()[id].dst
    {
      if id < |originals| then originals[id].dst else shortcuts[id - |originals|].dst
    }

    function GetDist(id: nat): (dist: nat)
      reads this
      requires Valid() && id < nextShortcutId
      ensures dist == Store()[id].len
    {
      if id < |originals| then originals[id].len else shortcuts[id - |originals|].len
    }

    /**
     * Append a shortcut from start to dest; second is the part that ends at dest, first the part that begins at start.
     */
    method AddShortcutEdge(start: nat, dest: nat, dist: nat, second: nat, first: nat) returns (id: nat)
      requires Valid() && first < nextShortcutId && second < nextShortcutId
      requires Store()[first].src == start && Store()[first].dst == Store()[second].src
      requires Store()[second].dst == dest && Store()[first].len + Store()[second].len == dist
      modifies this
      ensures Valid() && id == old(nextShortcutId) && Store() == old(Store()) + [Edge(start, dest, dist)]
      ensures parts == old(parts) + [second, first]
    {
      ghost var before, beforeParts := Store(), parts;
      shortcuts := shortcuts + [Edge(start, dest, dist)];
      parts := parts + [second, first];
      id := nextShortcutId;
      nextShortcutId := nextShortcutId + 1;
      assert Store() == before + [Edge(start, dest, dist)];
      AppendComposed(before, beforeParts, |originals|, Edge(start, dest, dist), second, first);
    }
  }
}
