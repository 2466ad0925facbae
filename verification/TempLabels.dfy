/** Temporary labels for nodes below the labelled levels: the search itself, over two heaps and one label table. */
module TempLabels {
  import opened IntArrays
  import opened Graphs
  import opened HubLabels
  import opened LabelColumns
  import opened LabelBuilding
  import opened DistanceHeaps
  import opened HubLData
  import opened HubLEdgeData
  import opened UpwardSearch

  /** The edge data are those of the hierarchy. */
  ghost predicate EdgeData(h: Hierarchy, edges: HubLEdges)
  {
    && |edges.dest| == |edges.dist| == |h.store|
    && (forall id: nat {:trigger h.store[id]} :: id < |h.store| ==>
          edges.dest[id] == h.store[id].dst && edges.dist[id] == h.store[id].len)
  }

  /** What the search needs of the preprocessed data. */
  ghost predicate SearchData(g: Graph, h: Hierarchy, labels: seq<Label>, nodes: HubLNodes, edges: HubLEdges)
  {
    && Positive(g) && Climbs(g, h) && |h.lvl| <= MAX_VALUE && nodes.Holds(h, labels) && EdgeData(h, edges)
  }

  /** The upward edges of a node without label, as stored, are all of its upward edges. */
  lemma UpListEdges(h: Hierarchy, k: nat, u: nat)
    requires h.Shape() && Low(h, k, u)
    ensures forall id: nat {:trigger UpEdge(h, k, u, id)} :: UpEdge(h, k, u, id) <==> id in UpList(h, k, u)
    ensures forall i: nat {:trigger UpList(h, k, u)[i]} :: i < |UpList(h, k, u)| ==> UpEdge(h, k, u, UpList(h, k, u)[i])
  {
    forall i | 0 <= i < |h.adj[u]|
      ensures h.adj[u][i] < |h.store| && h.store[h.adj[u][i]].dst < |h.lvl|
    {
      assert h.Has(u, i);
    }
    assert InStore(h.store, h.lvl, h.adj[u]);
    UpOnlyMembers(h.store, h.lvl, h.lvl[u], h.adj[u]);
    forall id: nat | id in h.adj[u]
      ensures h.store[id].src == u
    {
      var i: nat :| i < |h.adj[u]| && h.adj[u][i] == id;
      assert h.Has(u, i);
    }
    forall i: nat | i < |UpList(h, k, u)|
      ensures UpEdge(h, k, u, UpList(h, k, u)[i])
    {
      assert UpList(h, k, u)[i] in UpList(h, k, u);
    }
  }

  /** The slice of u in the edge column is ids, which are upward edges of u. */
  ghost predicate EdgeRun(nodes: HubLNodes, h: Hierarchy, u: nat, ids: seq<nat>)
  {
    && u + 1 < |nodes.edgesOffset| && nodes.edgesOffset[u] <= nodes.edgesOffset[u + 1] <= |nodes.edges|
    && nodes.edges[nodes.edgesOffset[u]..nodes.edgesOffset[u + 1]] == ids
    && (forall i: nat {:trigger ids[i]} :: i < |ids| ==> UpEdge(h, nodes.hlLevel, u, ids[i]))
  }

  lemma EdgesStand(nodes: HubLNodes, h: Hierarchy, u: nat)
    requires h.Shape() && Low(h, nodes.hlLevel, u) && nodes.EdgesAt(h, u)
    ensures EdgeRun(nodes, h, u, UpList(h, nodes.hlLevel, u))
  {
    UpListEdges(h, nodes.hlLevel, u);
  }

  lemma EdgeStands(nodes: HubLNodes, h: Hierarchy, u: nat, ids: seq<nat>, i: nat)
    requires EdgeRun(nodes, h, u, ids) && i < |ids|
    ensures nodes.edges[nodes.edgesOffset[u] + i] == ids[i] && UpEdge(h, nodes.hlLevel, u, ids[i])
  {
  }

  /** How many nodes are not settled yet. */
  ghost function Unsettled(n: nat, settled: set<nat>): nat { |NodesBelow(n) - settled| }

  lemma OneLessOpen(n: nat, settled: set<nat>, u: nat)
    requires u < n && u !in settled
    ensures Unsettled(n, settled + {u}) < Unsettled(n, settled)
  {
    assert NodesBelow(n) - (settled + {u}) == NodesBelow(n) - settled - {u};
  }

  /** Of the nodes in lp, those not yet done remain. */
  ghost predicate Remaining(lp: map<int, int>, prio: map<int, int>, done: set<nat>)
  {
    && (forall x: int {:trigger x in prio} :: x in prio ==> x in lp)
    && (forall x: int {:trigger x in lp} :: x in lp && x >= 0 && (x as nat) !in done ==> x in prio)
  }

  lemma OneLessWaiting(h: Hierarchy, k: nat, m0: Label, lp: map<int, int>, prio: map<int, int>, done: set<nat>, x: int)
    requires AllWaiting(h, k, m0, lp) && Remaining(lp, prio, done) && x in prio
    ensures x >= 0 && (x as nat) in m0 && !Low(h, k, x)
    ensures Remaining(lp, prio - {x}, done + {x as nat}) && |prio - {x}| < |prio|
  {
    assert WaitingAt(h, k, m0, lp, x);
    assert prio.Keys == (prio - {x}).Keys + {x};
    assert |prio.Keys| == |prio| && |(prio - {x}).Keys| == |prio - {x}|;
  }

  lemma AllMerged(h: Hierarchy, k: nat, m0: Label, lp: map<int, int>, done: set<nat>)
    requires AllWaiting(h, k, m0, lp) && Remaining(lp, map[], done)
    ensures forall w: nat {:trigger w in done} :: w in m0 && !Low(h, k, w) ==> w in done
  {
    forall w: nat | w in m0 && !Low(h, k, w)
      ensures w in done
    {
      assert (w as int) in lp;
    }
  }

  /** The two heaps and the label sets of one end, on which the search for its temporary label works. */
  class TempSearch {
    const nodes: HubLNodes
    const edges: HubLEdges
    /** Open nodes without labels, and open nodes with labels. */
    const heap: DistanceHeap
    const labelHeap: DistanceHeap
    /** The temporary label. */
    const table: LabelTable
    ghost var Repr: set<object>

    ghost predicate Valid()
      reads this, Repr
    {
      && this in Repr && heap in Repr && labelHeap in Repr && table in Repr
      && heap.Repr <= Repr && labelHeap.Repr <= Repr && table.Repr <= Repr
      && this !in heap.Repr + labelHeap.Repr + table.Repr && heap.Repr !! labelHeap.Repr !! table.Repr
      && heap.Valid() && labelHeap.Valid() && table.Valid()
    }

    constructor (nodes: HubLNodes, edges: HubLEdges, heap: DistanceHeap, labelHeap: DistanceHeap, table: LabelTable)
      requires heap.Valid() && labelHeap.Valid() && table.Valid() && heap.Repr !! labelHeap.Repr !! table.Repr
      ensures Valid() && this.nodes == nodes && this.edges == edges
      ensures this.heap == heap && this.labelHeap == labelHeap && this.table == table
      ensures fresh(Repr - heap.Repr - labelHeap.Repr - table.Repr)
    {
      this.nodes, this.edges, this.heap, this.labelHeap, this.table := nodes, edges, heap, labelHeap, table;
      Repr := {this} + heap.Repr + labelHeap.Repr + table.Repr;
    }

    // ---------- searching upwards ----------

    /** Open x at distance d in the heap it belongs to. */
    method OpenNode(hasLabels: bool, x: nat, d: nat)
      requires Valid() && x < MAX_VALUE
      requires x in heap.prio ==> d <= heap.prio[x]
      requires x in labelHeap.prio ==> d <= labelHeap.prio[x]
      modifies Repr
      ensures Valid() && fresh(Repr - old(Repr)) && table.m == old(table.m)
      ensures heap.prio == if hasLabels then old(heap.prio) else old(heap.prio)[x as int := d]
      ensures labelHeap.prio == if hasLabels then old(labelHeap.prio)[x as int := d] else old(labelHeap.prio)
    {
      if hasLabels {
        labelHeap.Add(x, d);
        Repr := Repr + labelHeap.Repr;
      } else {
        heap.Add(x, d);
        Repr := Repr + heap.Repr;
      }
    }

    /** Note a way in the label sets. */
    method NoteWay(x: nat, d: nat, id: int) returns (improved: bool)
      requires Valid() && x < MAX_VALUE
      modifies Repr
      ensures Valid() && fresh(Repr - old(Repr)) && table.m == Offer(old(table.m), x, d, id)
      ensures improved <==> x !in old(table.m) || old(table.m)[x].dist > d
      ensures heap.prio == old(heap.prio) && labelHeap.prio == old(labelHeap.prio)
    {
      improved := table.NoteWay(x, d, id);
      Repr := Repr + table.Repr;
    }

    /** Note a way of length d to x over the edge id; whatever improves is opened. */
    method NoteOpen(x: nat, d: nat, id: nat, hasLabels: bool, ghost h: Hierarchy, ghost k: nat, ghost closed: set<nat>)
      requires Valid() && x < MAX_VALUE && hasLabels == !Low(h, k, x)
      requires TwoHeaps(h, k, table.m, closed, heap.prio, labelHeap.prio)
      requires Offer(table.m, x, d, id) != table.m ==> x !in closed
      modifies Repr
      ensures Valid() && fresh(Repr - old(Repr)) && table.m == Offer(old(table.m), x, d, id)
      ensures TwoHeaps(h, k, table.m, closed, heap.prio, labelHeap.prio)
    {
      ghost var m := table.m;
      var improved := NoteWay(x, d, id);
      if improved {
        HeapsAfter(h, k, m, closed, heap.prio, labelHeap.prio, x, d, id);
        OpenNode(hasLabels, x, d);
      }
    }

    /** The search from s, while the edges ids of u are worked off and the first i are done. */
    ghost predicate AtEdge(g: Graph, h: Hierarchy, s: nat, settled: set<nat>, u: nat, ids: seq<nat>, i: nat)
      reads this, Repr
    {
      && Valid() && Lifting(g, h, nodes.hlLevel, s, table.m, settled, u, ids, i)
      && TwoHeaps(h, nodes.hlLevel, table.m, settled + {u}, heap.prio, labelHeap.prio)
    }

    /** Work off one upward edge of u. */
    method LookAtEdge(ghost g: Graph, ghost h: Hierarchy, ghost labels: seq<Label>, ghost s: nat,
                      ghost settled: set<nat>, u: nat, uDist: nat, ghost ids: seq<nat>, ghost i: nat, edgeId: nat)
      requires SearchData(g, h, labels, nodes, edges) && AtEdge(g, h, s, settled, u, ids, i)
      requires i < |ids| && edgeId == ids[i] && UpEdge(h, nodes.hlLevel, u, edgeId) && uDist == table.m[u].dist
      modifies Repr
      ensures fresh(Repr - old(Repr)) && AtEdge(g, h, s, settled, u, ids, i + 1) && table.m[u].dist == uDist
    {
      LiftOne(g, h, nodes.hlLevel, s, table.m, settled, u, ids, i);
      var destNode := edges.dest[edgeId];
      assert destNode == h.store[edgeId].dst;
      NoteOpen(destNode, uDist + edges.dist[edgeId], edgeId, nodes.NodeHasLabels(destNode), h, nodes.hlLevel,
               settled + {u});
    }

    /** Work off the upward edge of u at position idx of the edge column. */
    method LookAtPosition(ghost g: Graph, ghost h: Hierarchy, ghost labels: seq<Label>, ghost s: nat,
                          ghost settled: set<nat>, u: nat, uDist: nat, ghost ids: seq<nat>, idx: nat)
      requires SearchData(g, h, labels, nodes, edges) && EdgeRun(nodes, h, u, ids)
      requires nodes.edgesOffset[u] <= idx < nodes.edgesOffset[u + 1] && u in table.m && uDist == table.m[u].dist
      requires AtEdge(g, h, s, settled, u, ids, idx - nodes.edgesOffset[u])
      modifies Repr
      ensures fresh(Repr - old(Repr)) && u in table.m && table.m[u].dist == uDist
      ensures AtEdge(g, h, s, settled, u, ids, idx + 1 - nodes.edgesOffset[u])
    {
      EdgeStands(nodes, h, u, ids, idx - nodes.edgesOffset[u]);
      LookAtEdge(g, h, labels, s, settled, u, uDist, ids, idx - nodes.edgesOffset[u], nodes.edges[idx]);
    }

    /** Work off all upward edges of u; the next slice begins where this one ends. */
    method LookAtEdges(ghost g: Graph, ghost h: Hierarchy, ghost labels: seq<Label>, ghost s: nat,
                       ghost settled: set<nat>, u: nat, ghost ids: seq<nat>)
      requires SearchData(g, h, labels, nodes, edges) && u < MAX_VALUE && u in table.m && EdgeRun(nodes, h, u, ids)
      requires AtEdge(g, h, s, settled, u, ids, 0)
      modifies Repr
      ensures fresh(Repr - old(Repr)) && AtEdge(g, h, s, settled, u, ids, |ids|)
    {
      var uDist, e := table.Read(u);
      var edgesStart, edgesStop := nodes.edgesOffset[u], nodes.edgesOffset[u + 1];
      for i := edgesStart to edgesStop
        invariant fresh(Repr - old(Repr)) && u in table.m && table.m[u].dist == uDist
        invariant AtEdge(g, h, s, settled, u, ids, i - edgesStart)
      {
        LookAtPosition(g, h, labels, s, settled, u, uDist, ids, i);
      }
    }

    /** The search from s between two steps. */
    ghost predicate AtRest(g: Graph, h: Hierarchy, s: nat, settled: set<nat>)
      reads this, Repr
    {
      && Valid() && Rising(g, h, nodes.hlLevel, s, table.m, settled)
      && TwoHeaps(h, nodes.hlLevel, table.m, settled, heap.prio, labelHeap.prio)
    }

    /** Take the nearest open node off the heap. */
    method TakeNext(ghost g: Graph, ghost h: Hierarchy, ghost labels: seq<Label>, ghost s: nat, ghost settled: set<nat>)
      returns (u: nat)
      requires SearchData(g, h, labels, nodes, edges) && AtRest(g, h, s, settled) && heap.prio != map[]
      modifies Repr
      ensures Repr == old(Repr) && u !in settled && Low(h, nodes.hlLevel, u) && u in table.m
      ensures AtEdge(g, h, s, settled, u, UpList(h, nodes.hlLevel, u), 0)
    {
      ghost var hp := heap.prio;
      var currNode := heap.GetNext();
      assert QueuedAt(h, nodes.hlLevel, table.m, settled, hp, currNode);
      u := currNode;
      LiftStart(g, h, nodes.hlLevel, s, table.m, settled, hp, labelHeap.prio, u, UpList(h, nodes.hlLevel, u));
    }

    /** Take the nearest open node and work off its upward edges; one node more is settled then. */
    method ExpandNext(ghost g: Graph, ghost h: Hierarchy, ghost labels: seq<Label>, ghost s: nat,
                      ghost settled: set<nat>)
      returns (ghost settled': set<nat>)
      requires SearchData(g, h, labels, nodes, edges) && AtRest(g, h, s, settled) && heap.prio != map[]
      modifies Repr
      ensures fresh(Repr - old(Repr)) && AtRest(g, h, s, settled')
      ensures Unsettled(|h.lvl|, settled') < Unsettled(|h.lvl|, settled)
    {
      var currNode := TakeNext(g, h, labels, s, settled);
      ghost var ids := UpList(h, nodes.hlLevel, currNode);
      assert nodes.EdgesAt(h, currNode);
      EdgesStand(nodes, h, currNode);
      LookAtEdges(g, h, labels, s, settled, currNode, ids);
      UpListEdges(h, nodes.hlLevel, currNode);
      LiftEnd(g, h, nodes.hlLevel, s, table.m, settled, currNode, ids);
      OneLessOpen(|h.lvl|, settled, currNode);
      settled' := settled + {currNode};
    }

    method ClearHeaps()
      requires Valid()
      modifies heap.Repr, labelHeap.Repr
      ensures Valid() && heap.prio == map[] && labelHeap.prio == map[]
    {
      labelHeap.Reset();
      heap.Reset();
    }

    method ClearAll()
      requires Valid()
      modifies Repr
      ensures Valid() && Repr == old(Repr) && heap.prio == map[] && labelHeap.prio == map[] && table.m == map[]
      ensures table.Cols() == Columns([], [], [])
    {
      ClearHeaps();
      table.Clear();
    }

    method OpenStart(nodeId: nat)
      requires Valid() && nodeId < MAX_VALUE && heap.prio == map[] && labelHeap.prio == map[] && table.m == map[]
      requires table.Cols() == Columns([], [], [])
      modifies Repr
      ensures Valid() && fresh(Repr - old(Repr)) && table.m == map[nodeId := Entry(0, -1)]
      ensures heap.prio == map[nodeId as int := 0] && labelHeap.prio == map[]
    {
      table.InsertAtIdx(0, nodeId, 0, -1);
      Repr := Repr + table.Repr;
      OpenNode(false, nodeId, 0);
    }

    /** Only s is found, and open. */
    method StartUp(nodeId: nat, ghost g: Graph, ghost h: Hierarchy)
      requires Valid() && Low(h, nodes.hlLevel, nodeId) && |h.lvl| <= MAX_VALUE
      modifies Repr
      ensures fresh(Repr - old(Repr)) && AtRest(g, h, nodeId, {})
    {
      ClearAll();
      OpenStart(nodeId);
      RiseStart(g, h, nodes.hlLevel, nodeId);
    }

    /** Expand node after node until none is open. */
    method RunUp(ghost s: nat, ghost g: Graph, ghost h: Hierarchy, ghost labels: seq<Label>)
      returns (ghost settled: set<nat>)
      requires SearchData(g, h, labels, nodes, edges) && AtRest(g, h, s, {})
      modifies Repr
      ensures fresh(Repr - old(Repr)) && AtRest(g, h, s, settled) && heap.prio == map[]
    {
      settled := {};
      while !heap.IsEmpty()
        invariant fresh(Repr - old(Repr)) && AtRest(g, h, s, settled)
        decreases Unsettled(|h.lvl|, settled)
      {
        settled := ExpandNext(g, h, labels, s, settled);
      }
    }

    /** Search upwards until no node without label is open. */
    method SearchUp(nodeId: nat, ghost g: Graph, ghost h: Hierarchy, ghost labels: seq<Label>)
      requires SearchData(g, h, labels, nodes, edges) && Valid() && Low(h, nodes.hlLevel, nodeId)
      modifies Repr
      ensures Valid() && fresh(Repr - old(Repr)) && Exhaustive(g, h, nodes.hlLevel, nodeId, table.m)
      ensures AllWaiting(h, nodes.hlLevel, table.m, labelHeap.prio)
    {
      StartUp(nodeId, g, h);
      ghost var settled := RunUp(nodeId, g, h, labels);
      RiseEnd(g, h, nodes.hlLevel, nodeId, table.m, settled, labelHeap.prio);
      HeapsEnd(h, nodes.hlLevel, table.m, settled, heap.prio, labelHeap.prio);
    }

    // ---------- merging the labels found ----------

    /** While the label of w is merged: the first i entries are done. */
    ghost predicate InLabel(g: Graph, h: Hierarchy, s: nat, m: Label, c: Columns, d: nat, i: nat)
      reads this, Repr
    {
      Valid() && Rooted(g, h, s, table.m) && Better(table.m, m) && Offered(table.m, c, i, d)
    }

    /** Merge one entry of the label of w. */
    method JoinEntry(x: nat, d: nat, id: int, nodeDist: nat, ghost g: Graph, ghost h: Hierarchy,
                     ghost labels: seq<Label>, ghost s: nat, ghost m: Label, ghost w: nat, ghost c: Columns,
                     ghost i: nat)
      requires |h.lvl| <= MAX_VALUE && w < |labels| && Sound(g, h, w, labels[w]) && c.Holds(labels[w])
      requires InLabel(g, h, s, m, c, nodeDist, i) && i < |c.ids| && c.ids[i] == x && c.ds[i] == d && c.es[i] == id
      requires w < |h.lvl| && Reach(g, s, w) && Dist(g, s, w) <= nodeDist
      modifies Repr
      ensures fresh(Repr - old(Repr)) && InLabel(g, h, s, m, c, nodeDist, i + 1)
      ensures labelHeap.prio == old(labelHeap.prio)
    {
      assert c.EntryAt(labels[w], i) && SoundAt(g, h, w, labels[w], x);
      JoinRealised(g, h, labels, s, table.m, w, Entry(nodeDist, id), x, id);
      OfferBetter(table.m, x, nodeDist + d, id);
      OfferedNext(table.m, Offer(table.m, x, nodeDist + d, id), c, i, nodeDist, id);
      var _ := NoteWay(x, nodeDist + d, id);
    }

    /** Merge the entry at position idx of the label columns, which belongs to the label of w. */
    method JoinPosition(idx: nat, nodeDist: nat, ghost g: Graph, ghost h: Hierarchy, ghost labels: seq<Label>,
                        ghost s: nat, ghost m: Label, ghost w: nat)
      requires |h.lvl| <= MAX_VALUE && nodes.LabelAt(labels, w) && Sound(g, h, w, labels[w])
      requires nodes.labelOffset[w] <= idx < nodes.labelOffset[w + 1]
      requires InLabel(g, h, s, m, nodes.LabelCols(w), nodeDist, idx - nodes.labelOffset[w])
      requires Reach(g, s, w) && Dist(g, s, w) <= nodeDist
      modifies Repr
      ensures fresh(Repr - old(Repr)) && labelHeap.prio == old(labelHeap.prio)
      ensures InLabel(g, h, s, m, nodes.LabelCols(w), nodeDist, idx + 1 - nodes.labelOffset[w])
    {
      ghost var c, i := nodes.LabelCols(w), idx - nodes.labelOffset[w];
      assert c.EntryAt(labels[w], i) && c.ids[i] == nodes.labelNode[idx];
      assert c.ds[i] == nodes.labelDist[idx] && c.es[i] == nodes.labelEdge[idx];
      JoinEntry(nodes.labelNode[idx], nodes.labelDist[idx], nodes.labelEdge[idx], nodeDist, g, h, labels,
                s, m, w, c, i);
    }

    /** Merge the label of w, which was found at the distance in the table. */
    method JoinLabelOf(w: nat, ghost g: Graph, ghost h: Hierarchy, ghost labels: seq<Label>, ghost s: nat)
      requires Valid() && |h.lvl| <= MAX_VALUE && nodes.LabelAt(labels, w) && Sound(g, h, w, labels[w])
      requires Rooted(g, h, s, table.m) && w in table.m
      modifies Repr
      ensures Valid() && fresh(Repr - old(Repr)) && labelHeap.prio == old(labelHeap.prio)
      ensures Rooted(g, h, s, table.m) && Better(table.m, old(table.m))
      ensures Dominates(table.m, old(table.m)[w].dist, labels[w])
    {
      ghost var m, a, c := table.m, labels[w], nodes.LabelCols(w);
      assert RealisedAt(g, h, s, m, w);
      var nodeDist, e := table.Read(w);
      var startIdx, endIdx := nodes.labelOffset[w], nodes.labelOffset[w + 1];
      for currIdx := startIdx to endIdx
        invariant fresh(Repr - old(Repr)) && InLabel(g, h, s, m, c, nodeDist, currIdx - startIdx)
        invariant labelHeap.prio == old(labelHeap.prio)
      {
        JoinPosition(currIdx, nodeDist, g, h, labels, s, m, w);
      }
      OfferedAll(table.m, c, nodeDist, a);
    }

    /** Merge the label of the next waiting node. */
    method JoinNext(w: nat, ghost g: Graph, ghost h: Hierarchy, ghost labels: seq<Label>, ghost s: nat, ghost m0: Label,
                    ghost done: set<nat>)
      requires Valid() && |h.lvl| <= MAX_VALUE && Climbs(g, h) && nodes.Holds(h, labels)
      requires BuiltAbove(g, h, labels, nodes.hlLevel - 1)
      requires Joined(g, h, labels, s, m0, done, table.m) && w in m0 && !Low(h, nodes.hlLevel, w)
      modifies Repr
      ensures Valid() && fresh(Repr - old(Repr)) && labelHeap.prio == old(labelHeap.prio)
      ensures Joined(g, h, labels, s, m0, done + {w}, table.m)
    {
      ghost var m := table.m;
      assert w in m && RealisedAt(g, h, s, m, w);
      assert nodes.LabelAt(labels, w);
      BuiltIsSound(g, h, labels, w);
      JoinLabelOf(w, g, h, labels, s);
      JoinedMore(g, h, labels, s, m0, done, m, w, table.m);
    }

    /** Some labels have been merged; the other labelled nodes still wait. */
    ghost predicate Merging(g: Graph, h: Hierarchy, labels: seq<Label>, s: nat, m0: Label, lp: map<int, int>,
                            done: set<nat>)
      reads this, Repr
    {
      Valid() && Joined(g, h, labels, s, m0, done, table.m) && Remaining(lp, labelHeap.prio, done)
    }

    /** Take the next waiting node and merge its label. */
    method MergeNextLabel(ghost g: Graph, ghost h: Hierarchy, ghost labels: seq<Label>, ghost s: nat, ghost m0: Label,
                          ghost lp: map<int, int>, ghost done: set<nat>)
      returns (ghost w: nat)
      requires |h.lvl| <= MAX_VALUE && Climbs(g, h) && nodes.Holds(h, labels)
      requires BuiltAbove(g, h, labels, nodes.hlLevel - 1)
      requires AllWaiting(h, nodes.hlLevel, m0, lp) && Merging(g, h, labels, s, m0, lp, done)
      requires labelHeap.prio != map[]
      modifies Repr
      ensures fresh(Repr - old(Repr)) && Merging(g, h, labels, s, m0, lp, done + {w})
      ensures |labelHeap.prio| < old(|labelHeap.prio|)
    {
      ghost var prio := labelHeap.prio;
      var labelNode := labelHeap.GetNext();
      OneLessWaiting(h, nodes.hlLevel, m0, lp, prio, done, labelNode);
      w := labelNode;
      JoinNext(labelNode, g, h, labels, s, m0, done);
    }

    /** Merge the labels of all nodes that wait for it. */
    method JoinLabels(ghost s: nat, ghost g: Graph, ghost h: Hierarchy, ghost labels: seq<Label>)
      returns (ghost done: set<nat>)
      requires Valid() && |h.lvl| <= MAX_VALUE && Climbs(g, h) && nodes.Holds(h, labels)
      requires BuiltAbove(g, h, labels, nodes.hlLevel - 1)
      requires Rooted(g, h, s, table.m) && AllWaiting(h, nodes.hlLevel, table.m, labelHeap.prio)
      modifies Repr
      ensures Valid() && fresh(Repr - old(Repr)) && Joined(g, h, labels, s, old(table.m), done, table.m)
      ensures forall w: nat {:trigger w in done} :: w in old(table.m) && !Low(h, nodes.hlLevel, w) ==> w in done
    {
      ghost var m0, lp := table.m, labelHeap.prio;
      done := {};
      while !labelHeap.IsEmpty()
        invariant fresh(Repr - old(Repr)) && Merging(g, h, labels, s, m0, lp, done)
        decreases |labelHeap.prio|
      {
        ghost var w := MergeNextLabel(g, h, labels, s, m0, lp, done);
        done := done + {w};
      }
      AllMerged(h, nodes.hlLevel, m0, lp, done);
    }

    /** Once the search has ended, the labels found complete the temporary label. */
    method JoinAll(ghost s: nat, ghost g: Graph, ghost h: Hierarchy, ghost labels: seq<Label>)
      requires Valid() && |h.lvl| <= MAX_VALUE && Climbs(g, h) && nodes.Holds(h, labels)
      requires Symmetric(g) && Within(g, |h.lvl|) && s < |h.lvl|
      requires BuiltAbove(g, h, labels, nodes.hlLevel - 1) && CanonicalAbove(g, h, labels, nodes.hlLevel - 1)
      requires Exhaustive(g, h, nodes.hlLevel, s, table.m)
      requires AllWaiting(h, nodes.hlLevel, table.m, labelHeap.prio)
      modifies Repr
      ensures Valid() && fresh(Repr - old(Repr)) && Covers(g, h.lvl, s, table.m) && Rooted(g, h, s, table.m)
    {
      ghost var m0 := table.m;
      ghost var done := JoinLabels(s, g, h, labels);
      JoinedCovers(g, h, labels, nodes.hlLevel, s, m0, done, table.m);
    }

    /** The temporary label of a node without label covers it. */
    method CalcTempLabels(nodeId: nat, ghost g: Graph, ghost h: Hierarchy, ghost labels: seq<Label>)
      requires SearchData(g, h, labels, nodes, edges) && Valid() && Low(h, nodes.hlLevel, nodeId)
      requires Symmetric(g) && Within(g, |h.lvl|)
      requires BuiltAbove(g, h, labels, nodes.hlLevel - 1) && CanonicalAbove(g, h, labels, nodes.hlLevel - 1)
      modifies Repr
      ensures Valid() && fresh(Repr - old(Repr)) && Covers(g, h.lvl, nodeId, table.m) && Rooted(g, h, nodeId, table.m)
    {
      SearchUp(nodeId, g, h, labels);
      JoinAll(nodeId, g, h, labels);
    }
  }
}
