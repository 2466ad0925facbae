/** Distances when some levels have no labels: temporary labels stand in for the missing ones. */
module MixedRouters {
  import opened IntArrays
  import opened Graphs
  import opened HubLabels
  import opened LabelColumns
  import opened LabelJoin
  import opened DistanceHeaps
  import opened HubLData
  import opened HubLEdgeData
  import opened UpwardSearch
  import opened TempLabels

  /** A distance, or that there is no route. */
  datatype Answer = Unreachable | At(distance: nat)

  ghost predicate Exact(g: Graph, s: nat, t: nat, r: Answer)
  {
    match r
    case Unreachable => !Reach(g, s, t)
    case At(distance) => Reach(g, s, t) && distance == Dist(g, s, t)
  }

  /**
   * Find the best common hub of two labels. Behind either label there is one more id, which may be read but is
   * never compared to an end.
   */
  method BestCommonHub(nodesA: seq<int>, distA: seq<int>, nodesB: seq<int>, distB: seq<int>, ghost a: Label,
                       ghost ca: Columns, ghost b: Label, ghost cb: Columns)
    returns (highestLvlNode: int, currDistance: int)
    requires ca.Holds(a) && |nodesA| == |distA| + 1 && nodesA[..|distA|] == ca.ids && distA == ca.ds
    requires cb.Holds(b) && |nodesB| == |distB| + 1 && nodesB[..|distB|] == cb.ids && distB == cb.ds
    ensures JoinResult(a, b, highestLvlNode, currDistance)
  {
    highestLvlNode, currDistance := -1, MAX_VALUE;
    var idxA, idxB := 0, 0;
    JoinStart(a, ca, b, cb);
    var nodeA, nodeB := nodesA[0], nodesB[0];
    while idxA < |distA| && idxB < |distB|
      invariant idxA <= |distA| && idxB <= |distB| && nodeA == nodesA[idxA] && nodeB == nodesB[idxB]
      invariant Joining(a, ca, idxA, b, cb, idxB, highestLvlNode, currDistance)
      decreases |distA| - idxA + |distB| - idxB
    {
      assert nodesA[..|distA|][idxA] == nodeA && nodesB[..|distB|][idxB] == nodeB;
      if nodeA == nodeB {
        ghost var hub, d := highestLvlNode, currDistance;
        var tmpDist := distA[idxA] + distB[idxB];
        if tmpDist < currDistance {
          highestLvlNode := nodeA;
          currDistance := tmpDist;
        }
        JoinMeet(a, ca, idxA, b, cb, idxB, hub, d, highestLvlNode, currDistance);
        idxA := idxA + 1;
        idxB := idxB + 1;
        nodeA := nodesA[idxA];
        nodeB := nodesB[idxB];
      } else if nodeA > nodeB {
        JoinPass(a, ca, idxA, b, cb, idxB, highestLvlNode, currDistance);
        idxB := idxB + 1;
        nodeB := nodesB[idxB];
      } else {
        JoinPass(a, ca, idxA, b, cb, idxB, highestLvlNode, currDistance);
        idxA := idxA + 1;
        nodeA := nodesA[idxA];
      }
    }
    JoinEnd(a, ca, idxA, b, cb, idxB, highestLvlNode, currDistance);
  }

  /** The preprocessed data with labels from level hlLevel on. */
  ghost predicate Prepared(g: Graph, h: Hierarchy, labels: seq<Label>, nodes: HubLNodes, edges: HubLEdges)
  {
    && SearchData(g, h, labels, nodes, edges) && Symmetric(g) && Within(g, |h.lvl|) && |labels| == |h.adj|
    && BuiltAbove(g, h, labels, nodes.hlLevel - 1) && CanonicalAbove(g, h, labels, nodes.hlLevel - 1)
  }

  /** Heaps and table are in order and apart. */
  ghost predicate Apart(heap: DistanceHeap, labelHeap: DistanceHeap, table: LabelTable)
    reads heap, heap.Repr, labelHeap, labelHeap.Repr, table, table.Repr
  {
    heap.Valid() && labelHeap.Valid() && table.Valid() && heap.Repr !! labelHeap.Repr !! table.Repr
  }

  method NewSearch() returns (a: DistanceHeap, b: DistanceHeap, c: LabelTable)
    ensures Apart(a, b, c) && fresh(a.Repr + b.Repr + c.Repr)
  {
    a := new DistanceHeap(1000, 1000);
    b := new DistanceHeap(1000, 1000);
    c := new LabelTable(1000, 1000);
  }

  class MixedRouter {
    const nodes: HubLNodes
    const edges: HubLEdges
    const heap: DistanceHeap
    const labelHeap: DistanceHeap
    /** Temporary labels of the two ends: labelLeft, distLeft, edgeLeft and the same for the right side. */
    const left: LabelTable
    const right: LabelTable

    ghost predicate Valid()
      reads this, heap, heap.Repr, labelHeap, labelHeap.Repr, left, left.Repr, right, right.Repr
    {
      && Apart(heap, labelHeap, left) && right.Valid()
      && right.Repr !! heap.Repr + labelHeap.Repr + left.Repr
    }

    constructor (nodes: HubLNodes, edges: HubLEdges, heap: DistanceHeap, labelHeap: DistanceHeap, left: LabelTable,
                 right: LabelTable)
      requires Apart(heap, labelHeap, left) && right.Valid() && right.Repr !! heap.Repr + labelHeap.Repr + left.Repr
      ensures Valid() && this.nodes == nodes && this.edges == edges
      ensures this.heap == heap && this.labelHeap == labelHeap && this.left == left && this.right == right
    {
      this.nodes, this.edges := nodes, edges;
      this.heap, this.labelHeap, this.left, this.right := heap, labelHeap, left, right;
    }

    /** The columns of a stored label, with the entry behind it. */
    method StoredLabel(nodeId: nat, ghost labels: seq<Label>) returns (ids: seq<int>, ds: seq<int>)
      requires nodes.LabelAt(labels, nodeId)
      ensures var c := nodes.LabelCols(nodeId);
              c.Holds(labels[nodeId]) && |ids| == |ds| + 1 && ids[..|ds|] == c.ids && ds == c.ds
    {
      var lo, hi := nodes.labelOffset[nodeId], nodes.labelOffset[nodeId + 1];
      ids, ds := nodes.labelNode[lo..hi + 1], nodes.labelDist[lo..hi];
    }

    /** The columns of a temporary label, with a dummy behind it. */
    static method TemporaryLabel(table: LabelTable) returns (ids: seq<int>, ds: seq<int>)
      requires table.Valid()
      ensures table.Cols().Holds(table.m) && |ids| == |ds| + 1 && ids[..|ds|] == table.Cols().ids
      ensures ds == table.Cols().ds
    {
      ids := table.foundIds.ToArray();
      ds := table.distances.ToArray();
      ids := ids + [MAX_VALUE];
    }

    /** Calculate the temporary label of a node in the given table. */
    method CalcTempLabels(nodeId: nat, table: LabelTable, ghost g: Graph, ghost h: Hierarchy, ghost labels: seq<Label>)
      requires Prepared(g, h, labels, nodes, edges) && Low(h, nodes.hlLevel, nodeId) && Apart(heap, labelHeap, table)
      modifies heap.Repr, labelHeap.Repr, table.Repr
      ensures Apart(heap, labelHeap, table) && Covers(g, h.lvl, nodeId, table.m)
      ensures fresh(heap.Repr + labelHeap.Repr + table.Repr - old(heap.Repr + labelHeap.Repr + table.Repr))
    {
      var search := new TempSearch(nodes, edges, heap, labelHeap, table);
      search.CalcTempLabels(nodeId, g, h, labels);
    }

    /** The hubs and distances of a node: its label if it has one, otherwise a temporary label in the given table. */
    method LabelOf(nodeId: nat, table: LabelTable, ghost g: Graph, ghost h: Hierarchy, ghost labels: seq<Label>)
      returns (ids: seq<int>, ds: seq<int>, ghost a: Label, ghost c: Columns)
      requires Prepared(g, h, labels, nodes, edges) && nodeId < |h.lvl| && Apart(heap, labelHeap, table)
      modifies heap.Repr, labelHeap.Repr, table.Repr
      ensures Apart(heap, labelHeap, table)
      ensures fresh(heap.Repr + labelHeap.Repr + table.Repr - old(heap.Repr + labelHeap.Repr + table.Repr))
      ensures Covers(g, h.lvl, nodeId, a) && c.Holds(a) && |ids| == |ds| + 1 && ids[..|ds|] == c.ids && ds == c.ds
    {
      if nodes.NodeHasLabels(nodeId) {
        assert nodes.LabelAt(labels, nodeId);
        a, c := labels[nodeId], nodes.LabelCols(nodeId);
        CanonicalCovers(g, h.lvl, nodeId, a);
        ids, ds := StoredLabel(nodeId, labels);
      } else {
        CalcTempLabels(nodeId, table, g, h, labels);
        a, c := table.m, table.Cols();
        ids, ds := TemporaryLabel(table);
      }
    }

    /** The exact distance, whichever of the two ends have labels. */
    method Distance(startId: nat, destId: nat, ghost g: Graph, ghost h: Hierarchy, ghost labels: seq<Label>)
      returns (r: Answer)
      requires Valid() && Prepared(g, h, labels, nodes, edges) && startId < |h.lvl| && destId < |h.lvl|
      requires Reach(g, startId, destId) ==> Dist(g, startId, destId) < MAX_VALUE
      modifies heap.Repr, labelHeap.Repr, left.Repr, right.Repr
      ensures Exact(g, startId, destId, r)
    {
      var idsA, dsA, idsB, dsB;
      ghost var a, ca, b, cb;
      idsA, dsA, a, ca := LabelOf(startId, left, g, h, labels);
      idsB, dsB, b, cb := LabelOf(destId, right, g, h, labels);
      var hub, d := BestCommonHub(idsA, dsA, idsB, dsB, a, ca, b, cb);
      CoveringLabelsAnswer(g, h.lvl, startId, destId, a, b);
      JoinAnswers(g, startId, destId, a, b, hub, d);
      r := if hub == -1 then Unreachable else At(d);
    }
  }

  /** A router with empty heaps and tables. */
  method NewMixedRouter(nodes: HubLNodes, edges: HubLEdges) returns (r: MixedRouter)
    ensures r.Valid() && r.nodes == nodes && r.edges == edges
    ensures fresh(r) && fresh(r.heap.Repr + r.labelHeap.Repr + r.left.Repr + r.right.Repr)
  {
    var heap, labelHeap, left := NewSearch();
    var right := new LabelTable(1000, 1000);
    r := new MixedRouter(nodes, edges, heap, labelHeap, left, right);
  }
}
