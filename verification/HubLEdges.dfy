/** The edge data the router works on: ends and lengths of all edges, and the two parts of every shortcut. */
module HubLEdgeData {
  import opened Graphs
  import opened EdgeStores
  import opened HubLData

  function EndsOf(edges: seq<Edge>): (r: seq<nat>)
    ensures |r| == |edges| && forall i :: 0 <= i < |edges| ==> r[i] == edges[i].dst
  {
    seq(|edges|, i requires 0 <= i < |edges| => edges[i].dst)
  }

  function LengthsOf(edges: seq<Edge>): (r: seq<nat>)
    ensures |r| == |edges| && forall i :: 0 <= i < |edges| ==> r[i] == edges[i].len
  {
    seq(|edges|, i requires 0 <= i < |edges| => edges[i].len)
  }

  /** One column, in a new array: the part for the original edges, then the part for the shortcuts. */
  method Concatenate(first: seq<nat>, second: seq<nat>) returns (column: seq<nat>)
    ensures column == first + second
  {
    var a := new nat[|first| + |second|];
    CopyInto(first, a, 0);
    CopyInto(second, a, |first|);
    column := a[..];
  }

  class HubLEdges {
    const dest: seq<nat>
    const dist: seq<nat>
    const firstShortcutIdx: nat
    const shortcutParts: seq<nat>

    /** The columns describe the edges of the store. */
    ghost predicate Holds(store: seq<Edge>, parts: seq<nat>, originals: nat) {
      && Composed(store, parts, originals) && |dest| == |dist| == |store|
      && (forall id: nat {:trigger store[id]} :: id < |store| ==>
            dest[id] == store[id].dst && dist[id] == store[id].len)
      && firstShortcutIdx == originals && shortcutParts == parts
    }

    /** Copy the columns of the original edges, then those of the shortcuts, and the parts. */
    constructor (edges: EdgeStore)
      requires edges.Valid()
      ensures Holds(edges.Store(), edges.parts, |edges.originals|)
    {
      var originals, shortcuts := edges.originals, edges.shortcuts;
      var newDest := Concatenate(EndsOf(originals), EndsOf(shortcuts));
      var newDist := Concatenate(LengthsOf(originals), LengthsOf(shortcuts));
      var parts := Concatenate(edges.parts, []);
      dest, dist, firstShortcutIdx, shortcutParts := newDest, newDist, |originals|, parts;
    }

    predicate IsShortcut(edgeId: nat) { edgeId >= firstShortcutIdx }

    /** The part whose end is that of the shortcut. */
    function GetSecondShortcut(edgeId: nat): nat
      requires IsShortcut(edgeId) && 2 * (edgeId - firstShortcutIdx) < |shortcutParts|
    {
      shortcutParts[(edgeId - firstShortcutIdx) * 2]
    }

    /** The part whose start is that of the shortcut. */
    function GetFirstShortcut(edgeId: nat): nat
      requires IsShortcut(edgeId) && 2 * (edgeId - firstShortcutIdx) + 1 < |shortcutParts|
    {
      shortcutParts[(edgeId - firstShortcutIdx) * 2 + 1]
    }

    /** The two parts of a shortcut lead from its start to its end and are older than it. */
    lemma PartsLead(store: seq<Edge>, parts: seq<nat>, originals: nat, id: nat)
      requires Holds(store, parts, originals) && id < |store| && IsShortcut(id)
      ensures 2 * (id - firstShortcutIdx) + 1 < |shortcutParts|
      ensures var first, second := GetFirstShortcut(id), GetSecondShortcut(id);
              && first < id && second < id && store[first].src == store[id].src && store[first].dst == store[second].src
              && store[second].dst == store[id].dst && dist[first] + dist[second] == dist[id]
    {
      assert ComposedAt(store, parts, originals, id);
    }
  }
}
