/** The data the router works on: filtered upward edges and labels of all nodes, flattened behind offset arrays. */
module HubLData {
  import opened IntArrays
  import opened Sequences
  import opened Graphs
  import opened EdgeStores
  import opened HubLabels
  import opened LabelColumns
  import opened LabelStores
  import opened LevelSelection

  // ---------- flattening ----------

  /** The entries of list i stand at offset[i] up to offset[i + 1]. */
  ghost predicate SliceAt<T>(offset: seq<nat>, flat: seq<T>, lists: seq<seq<T>>, i: nat)
  {
    && i < |lists| && i + 1 < |offset| && offset[i] <= offset[i + 1] <= |flat|
    && flat[offset[i]..offset[i + 1]] == lists[i]
  }

  ghost predicate Slices<T>(offset: seq<nat>, flat: seq<T>, lists: seq<seq<T>>)
  {
    && |offset| == |lists| + 1
    && (forall i: nat {:trigger SliceAt(offset, flat, lists, i)} :: i < |lists| ==> SliceAt(offset, flat, lists, i))
  }

  /** The offsets of the first i lists. */
  ghost predicate OffsetsOf<T>(offset: seq<nat>, lists: seq<seq<T>>, i: nat)
  {
    i <= |lists| && i <= |offset| && forall j: nat {:trigger offset[j]} :: j < i ==> offset[j] == |Flat(lists[..j])|
  }

  lemma FlatSlices<T>(offset: seq<nat>, flat: seq<T>, lists: seq<seq<T>>)
    requires |offset| == |lists| + 1 && OffsetsOf(offset, lists, |lists|) && offset[|lists|] == |Flat(lists)|
    requires Flat(lists) <= flat
    ensures Slices(offset, flat, lists)
  {
    forall i: nat | i < |lists|
      ensures SliceAt(offset, flat, lists, i)
    {
      FlatGrows(lists, i);
      FlatPrefix(lists, i + 1);
      assert lists[..|lists|] == lists;
      assert offset[i] == |Flat(lists[..i])| && offset[i + 1] == |Flat(lists[..i + 1])|;
      assert flat[..offset[i + 1]] == Flat(lists[..i + 1]);
      assert flat[offset[i]..offset[i + 1]] == flat[..offset[i + 1]][offset[i]..];
    }
  }

  /** System.arraycopy of a whole list into an array. */
  method CopyInto<T>(list: seq<T>, a: array<T>, at: nat)
    requires at + |list| <= a.Length
    modifies a
    ensures a[..] == old(a[..])[..at] + list + old(a[..])[at + |list|..]
  {
    forall k | 0 <= k < |list| {
      a[at + k] := list[k];
    }
  }

  // ---------- upward edges of the nodes without labels ----------

  ghost predicate InStore(store: seq<Edge>, lvl: seq<nat>, list: seq<nat>)
  {
    forall i :: 0 <= i < |list| ==> list[i] < |store| && store[list[i]].dst < |lvl|
  }

  /** The listed edges that lead to a level above l. */
  ghost function UpOnly(store: seq<Edge>, lvl: seq<nat>, l: nat, list: seq<nat>): seq<nat>
    requires InStore(store, lvl, list)
  {
    if list == [] then []
    else
      var n := |list| - 1;
      UpOnly(store, lvl, l, list[..n]) + if lvl[store[list[n]].dst] > l then [list[n]] else []
  }

  lemma {:induction false} UpOnlyMembers(store: seq<Edge>, lvl: seq<nat>, l: nat, list: seq<nat>)
    requires InStore(store, lvl, list)
    ensures forall id: nat :: id in UpOnly(store, lvl, l, list) <==>
                              id in list && id < |store| && store[id].dst < |lvl| && lvl[store[id].dst] > l
  {
    if list != [] {
      var n := |list| - 1;
      UpOnlyMembers(store, lvl, l, list[..n]);
      assert list == list[..n] + [list[n]];
    }
  }

  /** The places of the edges that lead to a level above l. */
  ghost function UpPlaces(store: seq<Edge>, lvl: seq<nat>, l: nat, list: seq<nat>): set<nat>
    requires InStore(store, lvl, list)
  {
    set i: nat | i < |list| && lvl[store[list[i]].dst] > l
  }

  /** Filtering keeps exactly the upward edges, in their order. */
  lemma {:induction false} UpOnlyKeeps(store: seq<Edge>, lvl: seq<nat>, l: nat, list: seq<nat>)
    requires InStore(store, lvl, list)
    ensures Keeps(list, UpPlaces(store, lvl, l, list), UpOnly(store, lvl, l, list))
  {
    if list == [] {
      assert UpPlaces(store, lvl, l, list) == {};
      KeepsNone(list);
    } else {
      var n := |list| - 1;
      UpOnlyKeeps(store, lvl, l, list[..n]);
      KeepsLonger(list[..n], UpPlaces(store, lvl, l, list[..n]), UpOnly(store, lvl, l, list[..n]), list);
      if lvl[store[list[n]].dst] > l {
        KeepsNext(list, UpPlaces(store, lvl, l, list[..n]), UpOnly(store, lvl, l, list[..n]), n);
        assert UpPlaces(store, lvl, l, list) == UpPlaces(store, lvl, l, list[..n]) + {n};
      } else {
        assert UpPlaces(store, lvl, l, list) == UpPlaces(store, lvl, l, list[..n]);
        assert UpOnly(store, lvl, l, list) == UpOnly(store, lvl, l, list[..n]);
      }
    }
  }

  lemma {:induction false} UpOnlyAppend(store: seq<Edge>, lvl: seq<nat>, l: nat, a: seq<nat>, b: seq<nat>)
    requires InStore(store, lvl, a) && InStore(store, lvl, b)
    ensures UpOnly(store, lvl, l, a + b) == UpOnly(store, lvl, l, a) + UpOnly(store, lvl, l, b)
    decreases |b|
  {
    var n := |b| - 1;
    if b == [] {
      assert a + b == a;
    } else {
      assert (a + b)[..|a + b| - 1] == a + b[..n];
      UpOnlyAppend(store, lvl, l, a, b[..n]);
    }
  }

  /** In the list a, of which the first j edges go up, the upward edges are up. */
  ghost predicate Filtering(store: seq<Edge>, lvl: seq<nat>, l: nat, a: seq<nat>, j: nat, up: seq<nat>)
  {
    && InStore(store, lvl, a) && UpOnly(store, lvl, l, a) == up
    && j <= |a| && UpOnly(store, lvl, l, a[..j]) == a[..j]
  }

  /** An edge that does not go up makes no difference. */
  lemma UpOnlySkips(store: seq<Edge>, lvl: seq<nat>, l: nat, a: seq<nat>, x: nat, b: seq<nat>)
    requires InStore(store, lvl, a) && InStore(store, lvl, b) && x < |store| && store[x].dst < |lvl|
    requires lvl[store[x].dst] <= l
    ensures InStore(store, lvl, a + [x] + b) && UpOnly(store, lvl, l, a + [x] + b) == UpOnly(store, lvl, l, a + b)
  {
    UpOnlyAppend(store, lvl, l, a + [x], b);
    UpOnlyAppend(store, lvl, l, a, b);
    assert (a + [x])[..|a|] == a;
  }

  /** Deleting an edge that does not go up. */
  lemma FilterDelete(store: seq<Edge>, lvl: seq<nat>, l: nat, a: seq<nat>, j: nat, up: seq<nat>)
    requires Filtering(store, lvl, l, a, j, up) && j < |a| && lvl[store[a[j]].dst] <= l
    ensures Filtering(store, lvl, l, Remove(a, j), j, up)
  {
    assert a == a[..j] + [a[j]] + a[j + 1..];
    UpOnlySkips(store, lvl, l, a[..j], a[j], a[j + 1..]);
    assert Remove(a, j)[..j] == a[..j];
  }

  /** Stepping over an edge that goes up. */
  lemma FilterKeep(store: seq<Edge>, lvl: seq<nat>, l: nat, a: seq<nat>, j: nat, up: seq<nat>)
    requires Filtering(store, lvl, l, a, j, up) && j < |a| && lvl[store[a[j]].dst] > l
    ensures Filtering(store, lvl, l, a, j + 1, up)
  {
    assert a[..j + 1] == a[..j] + [a[j]];
    assert a[..j + 1][..j] == a[..j];
  }

  /** Delete in place all edges that do not lead above level l; what is left stands in the first r places. */
  method FilterUp(store: seq<Edge>, lvl: seq<nat>, l: nat, edgeArray: array<nat>) returns (edgeCount: nat)
    requires InStore(store, lvl, edgeArray[..])
    modifies edgeArray
    ensures edgeCount <= edgeArray.Length && edgeArray[..edgeCount] == UpOnly(store, lvl, l, old(edgeArray[..]))
  {
    ghost var up := UpOnly(store, lvl, l, edgeArray[..]);
    edgeCount := edgeArray.Length;
    assert edgeArray[..edgeCount] == edgeArray[..];
    var j := 0;
    while j < edgeCount
      invariant j <= edgeCount <= edgeArray.Length && Filtering(store, lvl, l, edgeArray[..edgeCount], j, up)
      decreases edgeCount - j
    {
      ghost var list := edgeArray[..edgeCount];
      if lvl[store[edgeArray[j]].dst] <= l {
        FilterDelete(store, lvl, l, list, j, up);
        ShiftLeft(edgeArray, j, edgeCount);
        edgeCount := edgeCount - 1;
        assert edgeArray[..edgeCount] == Remove(list, j);
      } else {
        FilterKeep(store, lvl, l, list, j, up);
        j := j + 1;
      }
    }
    assert edgeArray[..edgeCount][..j] == edgeArray[..edgeCount];
  }

  /** What the router needs of node i's edges: the upward ones if it has no label, none otherwise. */
  ghost function UpList(h: Hierarchy, hlLevel: nat, i: nat): (r: seq<nat>)
    requires h.Shape() && i < |h.adj|
  {
    if h.lvl[i] >= hlLevel then [] else UpOnly(h.store, h.lvl, h.lvl[i], h.adj[i])
  }

  method UpLists(h: Hierarchy, hlLevel: nat) returns (lists: seq<seq<nat>>, totalEdgeLen: nat)
    requires h.Shape()
    ensures |lists| == |h.adj| && totalEdgeLen == |Flat(lists)|
    ensures forall i: nat {:trigger lists[i]} :: i < |lists| ==> lists[i] == UpList(h, hlLevel, i)
  {
    lists, totalEdgeLen := [], 0;
    for i := 0 to |h.adj|
      invariant |lists| == i && totalEdgeLen == |Flat(lists)|
      invariant forall j: nat {:trigger lists[j]} :: j < i ==> lists[j] == UpList(h, hlLevel, j)
    {
      var list := [];
      if h.lvl[i] < hlLevel {
        var edgeArray := new nat[|h.adj[i]|](k requires 0 <= k < |h.adj[i]| => h.adj[i][k]);
        assert edgeArray[..] == h.adj[i];
        var edgeCount := FilterUp(h.store, h.lvl, h.lvl[i], edgeArray);
        list := edgeArray[..edgeCount];
      }
      assert (lists + [list])[..i] == lists;
      lists := lists + [list];
      totalEdgeLen := totalEdgeLen + |list|;
    }
  }

  /** The first i lists stand at the beginning of flat, and behind them what stood there before. */
  ghost predicate Flattened<T>(flat: seq<T>, lists: seq<seq<T>>, i: nat, before: seq<T>)
  {
    && i <= |lists| && |Flat(lists[..i])| <= |flat| == |before|
    && flat == Flat(lists[..i]) + before[|Flat(lists[..i])|..]
  }

  lemma FlattenedNone<T>(flat: seq<T>, lists: seq<seq<T>>)
    ensures Flattened(flat, lists, 0, flat)
  {
    assert lists[..0] == [];
  }

  lemma FlattenedAll<T>(flat: seq<T>, lists: seq<seq<T>>, before: seq<T>)
    requires Flattened(flat, lists, |lists|, before)
    ensures Flat(lists) <= flat && flat[|Flat(lists)|..] == before[|Flat(lists)|..]
  {
    assert lists[..|lists|] == lists;
  }

  /** Copying list i to the right place. */
  lemma FlattenedNext<T>(flat: seq<T>, lists: seq<seq<T>>, i: nat, before: seq<T>, flat': seq<T>)
    requires Flattened(flat, lists, i, before) && i < |lists| && |Flat(lists)| <= |flat|
    requires |Flat(lists[..i])| + |lists[i]| <= |flat|
    requires flat' == flat[..|Flat(lists[..i])|] + lists[i] + flat[|Flat(lists[..i])| + |lists[i]|..]
    ensures Flattened(flat', lists, i + 1, before) && |Flat(lists[..i + 1])| == |Flat(lists[..i])| + |lists[i]|
  {
    FlatGrows(lists, i);
    assert flat[..|Flat(lists[..i])|] == Flat(lists[..i]);
  }

  lemma RoomForNext<T>(lists: seq<seq<T>>, i: nat)
    requires i < |lists|
    ensures |Flat(lists[..i])| + |lists[i]| <= |Flat(lists)|
  {
    FlatGrows(lists, i);
    FlatPrefix(lists, i + 1);
  }

  /** One more offset. */
  lemma OffsetNext<T>(offset: seq<nat>, lists: seq<seq<T>>, i: nat, offset': seq<nat>)
    requires OffsetsOf(offset, lists, i) && i < |offset| && i < |lists| && offset' == offset[i := |Flat(lists[..i])|]
    ensures OffsetsOf(offset', lists, i + 1)
  {
  }

  /** With the last offset behind them, the offsets give the slices. */
  lemma FlattenEnd<T>(lists: seq<seq<T>>, offset: seq<nat>, flat: seq<T>, before: seq<T>, offset': seq<nat>)
    requires |offset| == |lists| + 1 && OffsetsOf(offset, lists, |lists|) && Flattened(flat, lists, |lists|, before)
    requires offset' == offset[|lists| := |Flat(lists[..|lists|])|]
    ensures Slices(offset', flat, lists) && offset'[|lists|] == |Flat(lists)|
    ensures flat[|Flat(lists)|..] == before[|Flat(lists)|..]
  {
    FlattenedAll(flat, lists, before);
    assert lists[..|lists|] == lists;
    FlatSlices(offset', flat, lists);
  }

  /** Copy list i behind the lists before it. */
  method CopyNext<T>(lists: seq<seq<T>>, i: nat, flat: array<T>, nextOffset: nat, ghost before: seq<T>)
    returns (next: nat)
    requires i < |lists| && |Flat(lists)| <= flat.Length && nextOffset == |Flat(lists[..i])|
    requires Flattened(flat[..], lists, i, before)
    modifies flat
    ensures next == |Flat(lists[..i + 1])| && Flattened(flat[..], lists, i + 1, before)
  {
    ghost var was := flat[..];
    RoomForNext(lists, i);
    next := nextOffset + |lists[i]|;
    CopyInto(lists[i], flat, nextOffset);
    FlattenedNext(was, lists, i, before, flat[..]);
  }

  /** Offsets and entries of the flattened lists; the array may have more room than they need. */
  method Flatten<T>(lists: seq<seq<T>>, flat: array<T>) returns (offset: array<nat>)
    requires |Flat(lists)| <= flat.Length
    modifies flat
    ensures fresh(offset) && Slices(offset[..], flat[..], lists) && offset[..][|lists|] == |Flat(lists)|
    ensures flat[|Flat(lists)|..] == old(flat[|Flat(lists)|..])
  {
    offset := new nat[|lists| + 1];
    ghost var before := flat[..];
    FlattenedNone(before, lists);
    var nextOffset := 0;
    for i := 0 to |lists|
      invariant nextOffset == |Flat(lists[..i])| && OffsetsOf(offset[..], lists, i)
      invariant Flattened(flat[..], lists, i, before)
    {
      OffsetNext(offset[..], lists, i, offset[..][i := nextOffset]);
      offset[i] := nextOffset;
      nextOffset := CopyNext(lists, i, flat, nextOffset, before);
    }
    FlattenEnd(lists, offset[..], flat[..], before, offset[..][|lists| := nextOffset]);
    offset[|lists|] := nextOffset;
  }

  // ---------- the data of all nodes ----------

  /** The entries from lo up to hi of the label columns are the label a. */
  ghost predicate LabelIn(nodes: seq<int>, dist: seq<int>, edges: seq<int>, lo: nat, hi: nat, a: Label)
  {
    && lo <= hi < |nodes| == |dist| == |edges|
    && Columns(nodes[lo..hi], dist[lo..hi], edges[lo..hi]).Holds(a)
  }

  /** Lists of the same lengths have the same offsets. */
  lemma {:induction false} SameOffsets<T, U>(a: seq<seq<T>>, b: seq<seq<U>>, j: nat)
    requires |a| == |b| && (forall i :: 0 <= i < |a| ==> |a[i]| == |b[i]|) && j <= |a|
    ensures |Flat(a[..j])| == |Flat(b[..j])|
    decreases j
  {
    if j > 0 {
      SameOffsets(a, b, j - 1);
      FlatGrows(a, j - 1);
      FlatGrows(b, j - 1);
    }
  }

  /** One column: all lists one after another, and -1 behind them. */
  method FlattenColumn(lists: seq<seq<int>>, total: nat) returns (flat: array<int>)
    requires total == |Flat(lists)|
    ensures fresh(flat) && flat[..] == Flat(lists) + [-1]
  {
    flat := new int[total + 1];
    var next := 0;
    for i := 0 to |lists|
      invariant next == |Flat(lists[..i])| && next <= total && flat[..next] == Flat(lists[..i])
    {
      FlatGrows(lists, i);
      FlatPrefix(lists, i + 1);
      CopyInto(lists[i], flat, next);
      next := next + |lists[i]|;
    }
    assert lists[..|lists|] == lists;
    flat[total] := -1;
  }

  /** Offsets of the labels. */
  method LabelOffsets(lists: seq<seq<int>>) returns (offset: array<nat>)
    ensures fresh(offset) && offset.Length == |lists| + 1 && OffsetsOf(offset[..], lists, |lists|)
    ensures offset[|lists|] == |Flat(lists)|
  {
    offset := new nat[|lists| + 1];
    var nextOffset := 0;
    for i := 0 to |lists|
      invariant nextOffset == |Flat(lists[..i])| && OffsetsOf(offset[..], lists, i)
    {
      FlatGrows(lists, i);
      offset[i] := nextOffset;
      assert OffsetsOf(offset[..], lists, i + 1);
      nextOffset := nextOffset + |lists[i]|;
    }
    assert lists[..|lists|] == lists;
    offset[|lists|] := nextOffset;
  }

  /** Offsets that fit one column fit another one with the same lengths. */
  lemma ColumnSlices(offset: seq<nat>, lists: seq<seq<int>>, other: seq<seq<int>>)
    requires |offset| == |lists| + 1 && OffsetsOf(offset, lists, |lists|) && offset[|lists|] == |Flat(lists)|
    requires |other| == |lists| && (forall i :: 0 <= i < |lists| ==> |lists[i]| == |other[i]|)
    ensures Slices(offset, Flat(other), other)
  {
    forall j: nat | j <= |lists|
      ensures |Flat(lists[..j])| == |Flat(other[..j])|
    {
      SameOffsets(lists, other, j);
    }
    assert lists[..|lists|] == lists && other[..|other|] == other;
    FlatSlices(offset, Flat(other), other);
  }

  lemma SameLengths(labels: Labels)
    requires labels.Valid()
    ensures |labels.labelNodes| == |labels.labelEdges| == |labels.labelDist| == |labels.known|
    ensures forall i :: 0 <= i < |labels.known| ==>
              |labels.labelNodes[i]| == |labels.labelEdges[i]| && |labels.labelNodes[i]| == |labels.labelDist[i]|
    ensures |Flat(labels.labelNodes)| == |Flat(labels.labelEdges)| == |Flat(labels.labelDist)|
  {
    forall i: nat | i < |labels.known|
      ensures |labels.labelNodes[i]| == |labels.labelEdges[i]| && |labels.labelNodes[i]| == |labels.labelDist[i]|
    {
      assert labels.Holds(i);
    }
    var n := |labels.known|;
    SameOffsets(labels.labelNodes, labels.labelEdges, n);
    SameOffsets(labels.labelNodes, labels.labelDist, n);
    assert labels.labelNodes[..n] == labels.labelNodes && labels.labelEdges[..n] == labels.labelEdges &&
      labels.labelDist[..n] == labels.labelDist;
  }

  /** The label a stands at offset[v] up to offset[v + 1]. */
  ghost predicate LabelSlice(nodes: seq<int>, dist: seq<int>, edges: seq<int>, offset: seq<nat>, v: nat, a: Label)
  {
    v + 1 < |offset| && LabelIn(nodes, dist, edges, offset[v], offset[v + 1], a)
  }

  /** The label columns, flattened, hold the label of every node. */
  lemma LabelsAreIn(labels: Labels, offset: seq<nat>, nodes: seq<int>, edges: seq<int>, dist: seq<int>, v: nat)
    requires labels.Valid() && v < |labels.known| && |offset| == |labels.known| + 1
    requires OffsetsOf(offset, labels.labelNodes, |labels.known|) && offset[|labels.known|] == |Flat(labels.labelNodes)|
    requires nodes == Flat(labels.labelNodes) + [-1] && edges == Flat(labels.labelEdges) + [-1]
    requires dist == Flat(labels.labelDist) + [-1]
    ensures LabelSlice(nodes, dist, edges, offset, v, labels.known[v])
  {
    SameLengths(labels);
    ColumnSlices(offset, labels.labelNodes, labels.labelNodes);
    ColumnSlices(offset, labels.labelNodes, labels.labelEdges);
    ColumnSlices(offset, labels.labelNodes, labels.labelDist);
    assert SliceAt(offset, Flat(labels.labelNodes), labels.labelNodes, v);
    assert SliceAt(offset, Flat(labels.labelEdges), labels.labelEdges, v);
    assert SliceAt(offset, Flat(labels.labelDist), labels.labelDist, v);
    var lo, hi := offset[v], offset[v + 1];
    assert nodes[lo..hi] == labels.labelNodes[v] && edges[lo..hi] == labels.labelEdges[v] &&
      dist[lo..hi] == labels.labelDist[v];
    assert labels.Holds(v);
  }

  /** Offsets of all labels, and the label columns with -1 behind them. */
  method InitLabelInfo(labels: Labels)
    returns (labelOffset: seq<nat>, labelNode: seq<int>, labelEdge: seq<int>, labelDist: seq<int>)
    requires labels.Valid()
    ensures forall v: nat {:trigger labels.known[v]} :: v < |labels.known| ==>
              LabelSlice(labelNode, labelDist, labelEdge, labelOffset, v, labels.known[v])
  {
    SameLengths(labels);
    var offset := LabelOffsets(labels.labelNodes);
    var n := |labels.labelNodes|;
    var nodes := FlattenColumn(labels.labelNodes, offset[n]);
    var edges := FlattenColumn(labels.labelEdges, offset[n]);
    var dist := FlattenColumn(labels.labelDist, offset[n]);
    labelOffset, labelNode, labelEdge, labelDist := offset[..], nodes[..], edges[..], dist[..];
    forall v: nat | v < |labels.known|
      ensures LabelSlice(labelNode, labelDist, labelEdge, labelOffset, v, labels.known[v])
    {
      LabelsAreIn(labels, labelOffset, labelNode, labelEdge, labelDist, v);
    }
  }

  ghost predicate EdgeSlice(offset: seq<nat>, edges: seq<nat>, h: Hierarchy, hlLevel: nat, i: nat)
    requires h.Shape() && i < |h.adj|
  {
    && i + 1 < |offset| && offset[i] <= offset[i + 1] <= |edges|
    && edges[offset[i]..offset[i + 1]] == UpList(h, hlLevel, i)
  }

  /** What stands between the offsets of node i: nothing if it has a label, and otherwise its upward edges in order. */
  ghost predicate EdgesKept(offset: seq<nat>, edges: seq<nat>, h: Hierarchy, hlLevel: nat, i: nat)
    requires h.Shape() && i < |h.adj|
  {
    && i + 1 < |offset| && offset[i] <= offset[i + 1] <= |edges|
    && (h.lvl[i] >= hlLevel ==> offset[i] == offset[i + 1])
    && (h.lvl[i] < hlLevel ==>
          Keeps(h.adj[i], h.UpAt(i), edges[offset[i]..offset[i + 1]]))
  }

  lemma SliceIsKept(offset: seq<nat>, edges: seq<nat>, h: Hierarchy, hlLevel: nat, i: nat)
    requires h.Shape() && i < |h.adj| && EdgeSlice(offset, edges, h, hlLevel, i)
    ensures EdgesKept(offset, edges, h, hlLevel, i)
  {
    if h.lvl[i] >= hlLevel {
      assert |edges[offset[i]..offset[i + 1]]| == 0;
    } else {
      var list := h.adj[i];
      forall k: nat | k < |list|
        ensures list[k] < |h.store| && h.store[list[k]].dst < |h.lvl|
      {
        assert h.Has(i, k);
      }
      UpOnlyKeeps(h.store, h.lvl, h.lvl[i], list);
      assert h.UpAt(i) == UpPlaces(h.store, h.lvl, h.lvl[i], list);
    }
  }

  /** With labels on all levels no edge is kept. */
  lemma {:induction false} FlatOfNothing<T>(lists: seq<seq<T>>)
    requires forall i :: 0 <= i < |lists| ==> lists[i] == []
    ensures Flat(lists) == []
  {
    if lists != [] {
      FlatOfNothing(lists[..|lists| - 1]);
    }
  }

  /** Offsets of all edge lists, and the upward edges of the nodes without labels. */
  method InitEdgeInfo(h: Hierarchy, hlLevel: nat) returns (edgesOffset: seq<nat>, edges: seq<nat>)
    requires h.Shape()
    ensures forall i: nat {:trigger EdgeSlice(edgesOffset, edges, h, hlLevel, i)} :: i < |h.adj| ==>
              EdgeSlice(edgesOffset, edges, h, hlLevel, i)
    ensures forall i: nat {:trigger EdgesKept(edgesOffset, edges, h, hlLevel, i)} :: i < |h.adj| ==>
              EdgesKept(edgesOffset, edges, h, hlLevel, i)
    ensures |edgesOffset| == |h.adj| + 1 && edgesOffset[|h.adj|] == |edges| && (hlLevel == 0 ==> edges == [])
  {
    var lists, totalEdgeLen := UpLists(h, hlLevel);
    var flat := new nat[totalEdgeLen];
    var offset := Flatten(lists, flat);
    edgesOffset, edges := offset[..], flat[..];
    forall i: nat | i < |h.adj|
      ensures EdgeSlice(edgesOffset, edges, h, hlLevel, i)
    {
      assert SliceAt(edgesOffset, edges, lists, i);
    }
    forall i: nat | i < |h.adj|
      ensures EdgesKept(edgesOffset, edges, h, hlLevel, i)
    {
      assert EdgeSlice(edgesOffset, edges, h, hlLevel, i);
      SliceIsKept(edgesOffset, edges, h, hlLevel, i);
    }
    if hlLevel == 0 {
      assert forall i: nat {:trigger lists[i]} :: i < |lists| ==> lists[i] == [];
      FlatOfNothing(lists);
    }
  }

  class HubLNodes {
    /** The first level in which labels are present. */
    const hlLevel: nat
    const levels: seq<nat>
    /** Node i's edges stand at edgesOffset[i] up to edgesOffset[i + 1], and likewise its label. */
    const edgesOffset: seq<nat>
    const edges: seq<nat>
    const labelOffset: seq<nat>
    const labelNode: seq<int>
    const labelEdge: seq<int>
    const labelDist: seq<int>

    predicate NodeHasLabels(nodeId: nat)
      requires nodeId < |levels|
    {
      levels[nodeId] >= hlLevel
    }

    ghost predicate EdgesAt(h: Hierarchy, i: nat)
      requires h.Shape() && i < |h.adj|
    {
      EdgeSlice(edgesOffset, edges, h, hlLevel, i)
    }

    /** The columns of v's label. */
    ghost function LabelCols(v: nat): Columns
      requires v + 1 < |labelOffset|
      requires labelOffset[v] <= labelOffset[v + 1] <= |labelNode| == |labelDist| == |labelEdge|
    {
      var lo, hi := labelOffset[v], labelOffset[v + 1];
      Columns(labelNode[lo..hi], labelDist[lo..hi], labelEdge[lo..hi])
    }

    ghost predicate LabelAt(labels: seq<Label>, v: nat) {
      v < |labels| && LabelSlice(labelNode, labelDist, labelEdge, labelOffset, v, labels[v])
    }

    /** The slices are the upward edges of the nodes without labels, and the labels of the others. */
    ghost predicate Holds(h: Hierarchy, labels: seq<Label>) {
      && h.Shape() && levels == h.lvl && |labels| == |h.adj|
      && (forall i: nat {:trigger EdgesAt(h, i)} :: i < |h.adj| ==> EdgesAt(h, i))
      && (forall v: nat {:trigger LabelAt(labels, v)} :: v < |labels| ==> LabelAt(labels, v))
    }

    constructor (h: Hierarchy, hlLevel: nat, labels: Labels)
      requires h.Shape() && labels.Valid() && |labels.known| == |h.adj|
      ensures Holds(h, labels.known) && this.hlLevel == hlLevel
      ensures forall i: nat {:trigger EdgesKept(edgesOffset, edges, h, hlLevel, i)} :: i < |h.adj| ==>
                EdgesKept(edgesOffset, edges, h, hlLevel, i)
      ensures |edgesOffset| == |h.adj| + 1 && edgesOffset[|h.adj|] == |edges| && (hlLevel == 0 ==> edges == [])
    {
      this.hlLevel, levels := hlLevel, h.lvl;
      var eo, es := InitEdgeInfo(h, hlLevel);
      var lo, ln, le, ld := InitLabelInfo(labels);
      edgesOffset, edges := eo, es;
      labelOffset, labelNode, labelEdge, labelDist := lo, ln, le, ld;
      new;
      forall v: nat | v < |labels.known|
        ensures LabelAt(labels.known, v)
      {
        assert LabelSlice(labelNode, labelDist, labelEdge, labelOffset, v, labels.known[v]);
      }
    }
  }
}
