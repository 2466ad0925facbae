/** The contraction threads: witness searches over a snapshot of the grid and the shortcuts they find. */
module CHDijkstras {
  import opened IntArrays
  import opened Graphs
  import opened Sequences
  import opened Search
  import opened Contraction
  import opened Shortcuts
  import opened Networks
  import opened WitnessSearch
  import opened SearchColumns
  import opened DistanceHeaps

  /** The nodes that must be found lie in the net and can be reached from s. */
  ghost predicate NeighboursOf(net: Net, s: nat, nodes: seq<nat>)
    requires net.Shape()
  {
    InRange(nodes, |net.adj|) && forall i :: 0 <= i < |nodes| ==> Reach(net.Graph(), s, nodes[i])
  }

  lemma NeighboursReachable(net: Net, v: nat, s: nat, nodes: seq<nat>)
    requires net.Shape() && Symmetric(net.Graph()) && NoLoops(net.Graph()) && v < |net.adj| && EndsOf(net, v, nodes)
    requires s in nodes
    ensures s < |net.adj| && s != v && NeighboursOf(net, s, nodes)
  {
    var k: nat :| k < |nodes| && nodes[k] == s;
    net.GraphHas(v, k);
    EdgeDist(net.Graph(), Flip(net.At(v, k)));
    forall i: nat | i < |nodes|
      ensures nodes[i] < |net.adj| && Reach(net.Graph(), s, nodes[i])
    {
      net.GraphHas(v, i);
      EdgeDist(net.Graph(), net.At(v, i));
      Triangle(net.Graph(), s, v, nodes[i]);
    }
  }

  /** What every search relies on: positive lengths, and ids that differ from the padding. */
  ghost predicate Snapshot(net: Net)
  {
    net.Shape() && Positive(net.Graph()) && |net.adj| <= MAX_VALUE
  }

  /** The places of the first i nodes to which the search came from v, and to v from s. */
  ghost function EmitPlaces(m: Rows, s: nat, v: nat, nodes: seq<nat>, i: nat): set<nat>
  {
    set j: nat | j < i && j < |nodes| && nodes[j] != s && Emits(m, s, v, nodes[j])
  }

  /** The search emits exactly the shortcuts that are called for. */
  lemma EmitIsCall(net: Net, s: nat, v: nat, m: Rows, settled: set<nat>, nodes: seq<nat>)
    requires Snapshot(net) && s != v && Witnessing(net.Graph(), net.store, s, v, m, settled)
    requires forall i :: 0 <= i < |nodes| && nodes[i] != s ==> nodes[i] in settled
    ensures EmitPlaces(m, s, v, nodes, |nodes|) == CallPlaces(net, v, s, nodes)
  {
    forall i: nat | i < |nodes|
      ensures nodes[i] != s && Emits(m, s, v, nodes[i]) <==> Calls(net, v, s, nodes[i])
    {
      if nodes[i] != s {
        EmissionIsExact(net.Graph(), net.store, s, v, m, settled, nodes[i]);
      }
    }
  }

  /** rs are the shortcuts emitted to the first i nodes. */
  ghost predicate EmittedTo(net: Net, v: nat, s: nat, rows: Rows, nodes: seq<nat>, i: nat, rs: seq<Shortcut>)
    requires net.Shape()
  {
    && i <= |nodes| && AllJustified(net, v, rs) && (forall k :: 0 <= k < |rs| ==> rs[k].start == s)
    && Keeps(nodes, EmitPlaces(rows, s, v, nodes, i), Dests(rs))
  }

  lemma EmittedNone(net: Net, v: nat, s: nat, rows: Rows, nodes: seq<nat>)
    requires net.Shape()
    ensures EmittedTo(net, v, s, rows, nodes, 0, [])
  {
    assert EmitPlaces(rows, s, v, nodes, 0) == {} && Dests([]) == [];
    KeepsNone(nodes);
  }

  lemma EmitPlacesNext(m: Rows, s: nat, v: nat, nodes: seq<nat>, i: nat)
    requires i < |nodes|
    ensures EmitPlaces(m, s, v, nodes, i + 1) ==
            if nodes[i] != s && Emits(m, s, v, nodes[i]) then EmitPlaces(m, s, v, nodes, i) + {i}
            else EmitPlaces(m, s, v, nodes, i)
  {
  }

  lemma DestsNext(rs: seq<Shortcut>, r: Shortcut)
    ensures Dests(rs + [r]) == Dests(rs) + [r.dest]
  {
  }

  lemma EmittedNext(net: Net, v: nat, s: nat, rows: Rows, nodes: seq<nat>, i: nat, rs: seq<Shortcut>,
                    more: seq<Shortcut>)
    requires net.Shape() && i < |nodes| && EmittedTo(net, v, s, rows, nodes, i, rs)
    requires if nodes[i] != s && Emits(rows, s, v, nodes[i])
             then |more| == 1 && Justified(net, v, more[0]) && more[0].start == s && more[0].dest == nodes[i]
             else more == []
    ensures EmittedTo(net, v, s, rows, nodes, i + 1, rs + more)
  {
    EmitPlacesNext(rows, s, v, nodes, i);
    if more == [] {
      assert rs + more == rs;
    } else {
      assert more == [more[0]];
      DestsNext(rs, more[0]);
      KeepsNext(nodes, EmitPlaces(rows, s, v, nodes, i), Dests(rs), i);
    }
  }

  /** A search that did not come to v from its start calls for nothing. */
  lemma EmittedNothing(net: Net, v: nat, s: nat, m: Rows, nodes: seq<nat>)
    requires net.Shape() && (v in m ==> m[v].prev != s)
    ensures EmittedTo(net, v, s, m, nodes, |nodes|, [])
  {
    assert EmitPlaces(m, s, v, nodes, |nodes|) == {} && Dests([]) == [];
    KeepsNone(nodes);
  }

  ghost function Remaining(net: Net, settled: set<nat>): nat { |NodesBelow(|net.adj|) - settled| }

  lemma OneLess(net: Net, settled: set<nat>, u: nat)
    requires u < |net.adj| && u !in settled
    ensures Remaining(net, settled + {u}) + 1 == Remaining(net, settled)
  {
    assert NodesBelow(|net.adj|) - (settled + {u}) == NodesBelow(|net.adj|) - settled - {u};
  }

  /** The heap holds the open rows at their distances. */
  ghost predicate OpenRows(prio: map<int, int>, m: Rows, closed: set<nat>)
  {
    && (forall x :: x in prio <==> x >= 0 && (x as nat) in m && (x as nat) !in closed)
    && (forall x :: x in prio ==> prio[x] == m[x as nat].dist)
  }

  lemma PrioKeys(prio: map<int, int>, m: Rows, closed: set<nat>)
    requires OpenRows(prio, m, closed)
    ensures forall x: nat :: x in m && x !in closed <==> (x as int) in prio
    ensures forall x :: x in prio ==> x >= 0 && prio[x] == m[x as nat].dist
  {
  }

  lemma NothingOpen(net: Net, s: nat, v: nat, m: Rows, settled: set<nat>)
    requires net.Shape() && Witnessing(net.Graph(), net.store, s, v, m, settled) && OpenRows(map[], m, settled)
    ensures forall t: nat :: Reach(net.Graph(), s, t) ==> t in settled
  {
    PrioKeys(map[], m, settled);
    assert settled == Dists(m).Keys;
    Exhausted(net.Graph(), s, Dists(m), settled);
  }

  lemma Spread(net: Net, s: nat, v: nat, m: Rows, settled: set<nat>, u: nat)
    requires Snapshot(net) && u < |net.adj|
    requires Spreading(net.Graph(), net.store, s, v, m, settled, u, net.FirstEdges(u, |net.adj[u]|))
    ensures u !in settled && Witnessing(net.Graph(), net.store, s, v, m, settled + {u})
  {
    net.FirstEdgesGrow(u, 0);
    EndSpreading(net.Graph(), net.store, s, v, m, settled, u, net.FirstEdges(u, |net.adj[u]|));
  }

  /** Found nodes are nodes of the net. */
  lemma RowsInRange(net: Net, s: nat, v: nat, m: Rows, settled: set<nat>, x: nat)
    requires Snapshot(net) && s < |net.adj| && Witnessing(net.Graph(), net.store, s, v, m, settled) && x in m
    ensures x < |net.adj|
  {
    if x != s {
      assert CameBy(net.Graph(), net.store, m, settled, x);
    }
  }

  /** Visiting the next edge in u's list. */
  lemma VisitNext(net: Net, s: nat, v: nat, m: Rows, settled: set<nat>, u: nat, k: nat)
    requires Snapshot(net) && s != v && net.Has(u, k)
    requires Spreading(net.Graph(), net.store, s, v, m, settled, u, net.FirstEdges(u, k))
    ensures u in m && (Improves(m, v, u, net.At(u, k)) ==> net.At(u, k).dst !in settled + {u})
    ensures Spreading(net.Graph(), net.store, s, v, Visit(m, v, u, net.adj[u][k], net.At(u, k)), settled, u,
                      net.FirstEdges(u, k + 1))
  {
    net.FirstEdgesGrow(u, k);
    VisitRelaxes(net.Graph(), net.store, s, v, m, settled, u, net.FirstEdges(u, k), net.adj[u][k], net.At(u, k));
    VisitKeeps(net.Graph(), net.store, s, v, m, settled, u, net.FirstEdges(u, k), net.adj[u][k], net.At(u, k));
  }

  lemma OpenRowsAfterVisit(prio: map<int, int>, m: Rows, v: nat, u: nat, id: nat, e: Edge, closed: set<nat>)
    requires OpenRows(prio, m, closed) && u in m && u in closed && (Improves(m, v, u, e) ==> e.dst !in closed)
    ensures Improves(m, v, u, e) ==> OpenRows(prio[e.dst := m[u].dist + e.len], Visit(m, v, u, id, e), closed)
    ensures Improves(m, v, u, e) && e.dst in prio ==> m[u].dist + e.len <= prio[e.dst]
    ensures !Improves(m, v, u, e) ==> OpenRows(prio, Visit(m, v, u, id, e), closed)
  {
  }

  class CHDijkstra {
    /** The ids found so far, sorted, and beside them what the search knows about each. */
    var foundIds: seq<int>
    var previousNodes: seq<int>
    var previousEdges: seq<int>
    var distances: seq<int>
    var finalDistance: seq<bool>
    var initialNode: nat
    const heap: DistanceHeap
    /** The shortcuts found so far. */
    var shortcuts: seq<Shortcut>
    /** The rows the columns hold. */
    ghost var rows: Rows
    /** The nodes taken off the heap. */
    ghost var settled: set<nat>

    ghost function Cols(): RowColumns
      reads this`foundIds, this`distances, this`previousNodes, this`previousEdges, this`finalDistance
    {
      RowColumns(foundIds, distances, previousNodes, previousEdges, finalDistance)
    }

    /** The columns hold rows, but for a new row at position hole. */
    ghost predicate Loose(hole: int)
      reads this`foundIds, this`distances, this`previousNodes, this`previousEdges, this`finalDistance
      reads this`rows
    {
      Cols().Holds(rows, hole)
    }

    ghost predicate Valid()
      reads this`foundIds, this`distances, this`previousNodes, this`previousEdges, this`finalDistance
      reads this`rows, heap, heap.Repr
    {
      Loose(-1) && heap.Valid() && this !in heap.Repr
    }

    constructor ()
      ensures Valid() && rows == map[] && fresh(heap.Repr) && shortcuts == []
    {
      foundIds, distances, previousNodes, previousEdges, finalDistance := [], [], [], [], [];
      heap := new DistanceHeap(10, 5);
      initialNode := 0;
      shortcuts := [];
      rows, settled := map[], {};
    }

    /** Arrays.binarySearch(foundIds, x). */
    method IndexOf(x: nat, ghost hole: int) returns (r: int)
      requires Loose(hole) && x < MAX_VALUE
      ensures SearchResult(foundIds, x, r)
    {
      r := BinarySearchRange(foundIds, 0, |foundIds|, x);
    }

    /**
     * The index of x; a new id gets a row without a distance, whose other columns keep what was there before: at the
     * end, anything.
     */
    method AddNodeIfNecessary(x: nat) returns (idx: nat, ghost hole: int)
      requires Loose(-1) && x < MAX_VALUE
      modifies this`foundIds, this`distances, this`finalDistance, this`previousNodes, this`previousEdges
      ensures Loose(hole) && rows == old(rows)
      ensures idx < |foundIds| && foundIds[idx] == x
      ensures if x in rows then hole == -1 else hole == idx
    {
      var r := IndexOf(x, -1);
      Cols().Lookup(rows, x, r);
      if r >= 0 {
        return r, -1;
      }
      r := (r + 1) * (-1);
      var p: int, e: int := *, *;
      if r < |previousNodes| {
        p, e := previousNodes[r], previousEdges[r];
      }
      Cols().OpenHolds(rows, r, x, p, e);
      foundIds := Insert(foundIds, r, x);
      distances := Insert(distances, r, -1);
      finalDistance := Insert(finalDistance, r, false);
      previousNodes := Insert(previousNodes, r, p);
      previousEdges := Insert(previousEdges, r, e);
      return r, r;
    }

    /** Mark the row of u as final. */
    method MarkFinal(u: nat, ghost hole: int) returns (nodeIdx: nat)
      requires Loose(hole) && u in rows && u < MAX_VALUE
      modifies this`rows, this`finalDistance
      ensures Loose(hole) && rows == old(rows)[u := old(rows)[u].(final := true)]
      ensures nodeIdx < |foundIds| && distances[nodeIdx] == old(rows)[u].dist
    {
      var r := IndexOf(u, hole);
      FoundAt(u, hole, r);
      Cols().SettleHolds(rows, hole, r);
      nodeIdx := r;
      finalDistance := finalDistance[nodeIdx := true];
      rows := rows[u := rows[u].(final := true)];
    }

    lemma FoundAt(u: nat, hole: int, r: int)
      requires Loose(hole) && u in rows && SearchResult(foundIds, u, r)
      ensures 0 <= r < |foundIds| && r != hole && foundIds[r] == u && Cols().RowAt(rows, r)
    {
      assert Cols().Lists(u);
      var k :| 0 <= k < |foundIds| && foundIds[k] == u;
      assert Cols().RowAt(rows, r);
    }

    /** Record that x, in position idx, is reached from u over the edge id at distance d. */
    method Record(idx: nat, x: nat, d: nat, u: nat, id: nat, ghost hole: int)
      requires Loose(hole) && idx < |foundIds| && foundIds[idx] == x
      requires if x in rows then hole == -1 else hole == idx
      modifies this`rows, this`distances, this`previousNodes, this`previousEdges
      ensures Loose(-1)
      ensures rows == old(rows)[x := Row(d, u, id, x in old(rows) && old(rows)[x].final)]
    {
      Cols().WriteHolds(rows, hole, idx, d, u, id);
      if x in rows {
        assert Cols().RowAt(rows, idx);
      }
      rows := rows[x := Row(d, u, id, x in rows && rows[x].final)];
      distances := distances[idx := d];
      previousNodes := previousNodes[idx := u];
      previousEdges := previousEdges[idx := id];
    }

    /** The distance column at position j: -1 for the row without a distance. */
    lemma DistanceAt(j: nat, hole: int, x: nat)
      requires Loose(hole) && j < |foundIds| && foundIds[j] == x && (if x in rows then hole == -1 else hole == j)
      ensures j < |distances| && distances[j] == if x in rows then rows[x].dist else -1
    {
      assert x in rows ==> Cols().RowAt(rows, j);
    }

    /** Find or make the row of e's end, mark u final, and record the way over e if it is an improvement. */
    method VisitColumns(u: nat, id: nat, e: Edge, v: nat) returns (improved: bool, newDistance: nat)
      requires Loose(-1) && u in rows && u < MAX_VALUE && e.dst < MAX_VALUE
      modifies this`rows, this`foundIds, this`distances, this`finalDistance, this`previousNodes, this`previousEdges
      ensures Loose(-1)
      ensures rows == Visit(old(rows), v, u, id, e) && newDistance == old(rows)[u].dist + e.len
      ensures improved <==> Improves(old(rows), v, u, e)
      ensures e.dst != u ==> LookedAt(old(rows), rows, v, u, id, e.dst, newDistance)
    {
      if e.dst != u {
        VisitLooks(rows, v, u, id, e);
      }
      var destIdx, hole := AddNodeIfNecessary(e.dst);
      var nodeIdx := MarkFinal(u, hole);
      DistanceAt(destIdx, hole, e.dst);
      newDistance := distances[nodeIdx] + e.len;
      improved := false;
      if distances[destIdx] == -1 || newDistance < distances[destIdx] {
        improved := true;
        Record(destIdx, e.dst, newDistance, u, id, hole);
      } else if u == v && newDistance == distances[destIdx] {
        improved := true;
        Record(destIdx, e.dst, newDistance, u, id, hole);
      }
    }

    /** One edge out of u: the search visits it, and the heap follows. */
    method VisitEdge(u: nat, id: nat, e: Edge, v: nat, ghost closed: set<nat>)
      requires Valid() && u in rows && u < MAX_VALUE && e.dst < MAX_VALUE
      requires OpenRows(heap.prio, rows, closed) && u in closed
      requires Improves(rows, v, u, e) ==> e.dst !in closed
      modifies this`rows, this`foundIds, this`distances, this`finalDistance, this`previousNodes, this`previousEdges,
               heap.Repr
      ensures Valid() && fresh(heap.Repr - old(heap.Repr))
      ensures rows == Visit(old(rows), v, u, id, e) && OpenRows(heap.prio, rows, closed)
    {
      OpenRowsAfterVisit(heap.prio, rows, v, u, id, e, closed);
      var improved, newDistance := VisitColumns(u, id, e, v);
      if improved {
        heap.Add(e.dst, newDistance);
      }
    }

    /** A search over net from s that prefers v, between two steps. */
    ghost predicate Active(net: Net, s: nat, v: nat)
      reads this`foundIds, this`distances, this`previousNodes, this`previousEdges, this`finalDistance
      reads this`rows, this`settled, heap, heap.Repr
    {
      && Valid() && Snapshot(net) && s < |net.adj| && s != v
      && Witnessing(net.Graph(), net.store, s, v, rows, settled)
      && OpenRows(heap.prio, rows, settled)
    }

    /** The same while u is being expanded and the first k of its edges are done. */
    ghost predicate Working(net: Net, s: nat, v: nat, u: nat, k: nat)
      reads this`foundIds, this`distances, this`previousNodes, this`previousEdges, this`finalDistance
      reads this`rows, this`settled, heap, heap.Repr
    {
      && Valid() && Snapshot(net) && s < |net.adj| && s != v && u < |net.adj| && k <= |net.adj[u]|
      && Spreading(net.Graph(), net.store, s, v, rows, settled, u, net.FirstEdges(u, k))
      && OpenRows(heap.prio, rows, settled + {u})
    }

    /** Work off one edge out of u. */
    method SpreadEdge(net: Net, ghost s: nat, v: nat, u: nat, k: nat)
      requires Working(net, s, v, u, k) && k < |net.adj[u]|
      modifies this`rows, this`foundIds, this`distances, this`finalDistance, this`previousNodes, this`previousEdges,
               heap.Repr
      ensures fresh(heap.Repr - old(heap.Repr)) && Working(net, s, v, u, k + 1)
    {
      VisitNext(net, s, v, rows, settled, u, k);
      ghost var after := Visit(rows, v, u, net.adj[u][k], net.At(u, k));
      VisitEdge(u, net.adj[u][k], net.At(u, k), v, settled + {u});
      assert rows == after;
    }

    /** Take the nearest open node off the heap. */
    method TakeNext(net: Net, ghost s: nat, ghost v: nat) returns (u: nat)
      requires Active(net, s, v) && heap.prio != map[]
      modifies heap.Repr
      ensures heap.Repr == old(heap.Repr) && u !in settled && Working(net, s, v, u, 0)
    {
      PrioKeys(heap.prio, rows, settled);
      u := heap.GetNext();
      RowsInRange(net, s, v, rows, settled, u);
      net.FirstEdgesGrow(u, 0);
      BeginSpreading(net.Graph(), net.store, s, v, rows, settled, u);
    }

    /** Work off all edges out of u. */
    method Expand(net: Net, ghost s: nat, v: nat, u: nat)
      requires Working(net, s, v, u, 0)
      modifies this`rows, this`foundIds, this`distances, this`finalDistance, this`previousNodes, this`previousEdges,
               heap.Repr
      ensures fresh(heap.Repr - old(heap.Repr)) && Working(net, s, v, u, |net.adj[u]|)
    {
      for i := 0 to |net.adj[u]|
        invariant fresh(heap.Repr - old(heap.Repr)) && Working(net, s, v, u, i)
      {
        SpreadEdge(net, s, v, u, i);
      }
    }

    /** u is settled now that all of its edges are done. */
    ghost method Settle(net: Net, s: nat, v: nat, u: nat)
      requires u < |net.adj| && Working(net, s, v, u, |net.adj[u]|)
      modifies this`settled
      ensures Active(net, s, v) && settled == old(settled) + {u}
      ensures Remaining(net, settled) + 1 == old(Remaining(net, settled))
    {
      Spread(net, s, v, rows, settled, u);
      OneLess(net, settled, u);
      settled := settled + {u};
    }

    /** Take the nearest open node off the heap and work off all edges out of it. */
    method ExpandNext(net: Net, ghost s: nat, v: nat) returns (ghost u: nat)
      requires Active(net, s, v) && heap.prio != map[]
      modifies this`rows, this`foundIds, this`distances, this`finalDistance, this`previousNodes, this`previousEdges,
               heap.Repr
      ensures fresh(heap.Repr - old(heap.Repr)) && u !in settled
      ensures u < |net.adj| && Working(net, s, v, u, |net.adj[u]|)
    {
      var next := TakeNext(net, s, v);
      Expand(net, s, v, next);
      u := next;
    }

    /** The next step of the search; false if the heap is empty. */
    method NextStep(net: Net, ghost s: nat, v: nat) returns (more: bool)
      requires Active(net, s, v)
      modifies this`rows, this`foundIds, this`distances, this`finalDistance, this`previousNodes, this`previousEdges,
               this`settled, heap.Repr
      ensures fresh(heap.Repr - old(heap.Repr)) && Active(net, s, v)
      ensures more ==> Remaining(net, settled) + 1 == old(Remaining(net, settled))
      ensures !more ==> settled == old(settled) && heap.prio == old(heap.prio) == map[]
    {
      if heap.IsEmpty() {
        return false;
      }
      ghost var u := ExpandNext(net, s, v);
      Settle(net, s, v, u);
      return true;
    }

    /** Ten steps at a time, so that the neighbours are not checked after every step. */
    method MultipleNextSteps(net: Net, ghost s: nat, v: nat)
      requires Active(net, s, v) && heap.prio != map[]
      modifies this`rows, this`foundIds, this`distances, this`finalDistance, this`previousNodes, this`previousEdges,
               this`settled, heap.Repr
      ensures fresh(heap.Repr - old(heap.Repr)) && Active(net, s, v)
      ensures Remaining(net, settled) < old(Remaining(net, settled)) <= Remaining(net, settled) + 10
      ensures old(Remaining(net, settled)) == Remaining(net, settled) + 10 || heap.prio == map[]
    {
      for i := 0 to 10
        invariant fresh(heap.Repr - old(heap.Repr)) && Active(net, s, v)
        invariant Remaining(net, settled) + i == old(Remaining(net, settled))
        invariant i == 0 ==> heap.prio != map[]
      {
        var more := NextStep(net, s, v);
        if !more {
          break;
        }
      }
    }

    ghost predicate Finals(nodes: seq<nat>)
      reads this`rows
    {
      forall i :: 0 <= i < |nodes| ==> nodes[i] in rows && rows[nodes[i]].final
    }

    /** Whether all nodes have been found and are marked final. */
    method AllNodesFound(nodes: seq<nat>, ghost n: nat) returns (all: bool)
      requires Loose(-1) && n <= MAX_VALUE && InRange(nodes, n)
      ensures all <==> Finals(nodes)
    {
      for i := 0 to |nodes|
        invariant forall j :: 0 <= j < i ==> nodes[j] in rows && rows[nodes[j]].final
      {
        var idx := IndexOf(nodes[i], -1);
        Cols().Lookup(rows, nodes[i], idx);
        if idx < 0 {
          return false;
        } else if !finalDistance[idx] {
          return false;
        }
      }
      return true;
    }

    /** Only s is found; the columns beside its id and distance keep their first entry from the last search. */
    method ClearColumns(s: nat)
      requires Loose(-1) && s < MAX_VALUE
      modifies this
      ensures Loose(-1) && initialNode == s && settled == {} && shortcuts == old(shortcuts)
      ensures rows.Keys == {s} && rows[s].dist == 0
    {
      if |foundIds| > 0 {
        assert Cols().RowAt(rows, 0);
      }
      var p: nat := if |foundIds| > 0 then previousNodes[0] else 0;
      var e: nat := if |foundIds| > 0 then previousEdges[0] else 0;
      var f := if |foundIds| > 0 then finalDistance[0] else false;
      initialNode := s;
      foundIds, distances, previousNodes, previousEdges, finalDistance := [s as int], [0], [p], [e], [f];
      rows, settled := map[s := Row(0, p, e, f)], {};
      assert Cols().RowAt(rows, 0) && Cols().ids[0] == s;
      assert Cols().Lists(s);
    }

    method Begin(net: Net, s: nat, ghost v: nat)
      requires Valid() && Snapshot(net) && s < |net.adj| && s != v
      modifies this, heap.Repr
      ensures fresh(heap.Repr - old(heap.Repr)) && Active(net, s, v) && initialNode == s && shortcuts == old(shortcuts)
    {
      ClearColumns(s);
      StartWitnessing(net.Graph(), net.store, s, v, rows[s]);
      assert rows == map[s := rows[s]];
      heap.Reset();
      heap.Add(s, 0);
    }

    /** A whole witness search from s that prefers v: it ends when all neighbours are final or no node is open. */
    method NextCalc(net: Net, s: nat, neighbours: seq<nat>, v: nat)
      requires Valid() && Snapshot(net) && s < |net.adj| && s != v && NeighboursOf(net, s, neighbours)
      modifies this, heap.Repr
      ensures fresh(heap.Repr - old(heap.Repr)) && Active(net, s, v) && initialNode == s && shortcuts == old(shortcuts)
      ensures AllSettled(s, neighbours)
    {
      Begin(net, s, v);
      RunSearch(net, s, neighbours, v);
      SearchEnds(net, s, v, neighbours);
    }

    /** The loop condition: some neighbour is not final, and some node is open. */
    method Unfinished(neighbours: seq<nat>, ghost n: nat) returns (go: bool)
      requires Valid() && n <= MAX_VALUE && InRange(neighbours, n)
      ensures if go then heap.prio != map[] else Finals(neighbours) || heap.prio == map[]
    {
      var all := AllNodesFound(neighbours, n);
      go := !all && !heap.IsEmpty();
    }

    /** Some steps, and whether to go on after them. */
    method GoOn(net: Net, ghost s: nat, neighbours: seq<nat>, v: nat) returns (go: bool)
      requires Active(net, s, v) && InRange(neighbours, |net.adj|) && heap.prio != map[]
      modifies this`rows, this`foundIds, this`distances, this`finalDistance, this`previousNodes, this`previousEdges,
               this`settled, heap.Repr
      ensures fresh(heap.Repr - old(heap.Repr)) && Active(net, s, v)
      ensures Remaining(net, settled) < old(Remaining(net, settled))
      ensures if go then heap.prio != map[] else Finals(neighbours) || heap.prio == map[]
    {
      MultipleNextSteps(net, s, v);
      go := Unfinished(neighbours, |net.adj|);
    }

    method RunSearch(net: Net, ghost s: nat, neighbours: seq<nat>, v: nat)
      requires Active(net, s, v) && InRange(neighbours, |net.adj|)
      modifies this`rows, this`foundIds, this`distances, this`finalDistance, this`previousNodes, this`previousEdges,
               this`settled, heap.Repr
      ensures fresh(heap.Repr - old(heap.Repr)) && Active(net, s, v)
      ensures Finals(neighbours) || heap.prio == map[]
    {
      var go := Unfinished(neighbours, |net.adj|);
      while go
        invariant fresh(heap.Repr - old(heap.Repr)) && Active(net, s, v)
        invariant if go then heap.prio != map[] else Finals(neighbours) || heap.prio == map[]
        decreases Remaining(net, settled)
      {
        go := GoOn(net, s, neighbours, v);
      }
    }

    /** When all neighbours are final, or nothing is open, every neighbour other than s is settled. */
    lemma SearchEnds(net: Net, s: nat, v: nat, nodes: seq<nat>)
      requires Active(net, s, v) && NeighboursOf(net, s, nodes) && (Finals(nodes) || heap.prio == map[])
      ensures AllSettled(s, nodes)
    {
      if heap.prio == map[] {
        NothingOpen(net, s, v, rows, settled);
      }
    }

    ghost predicate AllSettled(s: nat, nodes: seq<nat>)
      reads this`settled
    {
      forall i :: 0 <= i < |nodes| && nodes[i] != s ==> nodes[i] in settled
    }

    /** Emit the shortcuts over v from the node the search started at. */
    method AddShortcuts(net: Net, v: nat, neighbours: seq<nat>) returns (ghost rs: seq<Shortcut>)
      requires Active(net, initialNode, v) && InRange(neighbours, |net.adj|) && v < |net.adj|
      requires AllSettled(initialNode, neighbours)
      modifies this`shortcuts
      ensures shortcuts == old(shortcuts) + rs && FromStart(net, v, initialNode, neighbours, rs)
    {
      var s := initialNode;
      EmitIsCall(net, s, v, rows, settled, neighbours);
      var nodeIdx := IndexOf(v, -1);
      Cols().Lookup(rows, v, nodeIdx);
      rs := [];
      if nodeIdx < 0 {
        EmittedNothing(net, v, s, rows, neighbours);
        return;
      }
      if previousNodes[nodeIdx] != s {
        EmittedNothing(net, v, s, rows, neighbours);
        return;
      }
      rs := EmitAll(net, v, neighbours, nodeIdx);
    }

    /** What the finished search knows. */
    ghost predicate Searched(net: Net, v: nat)
      reads this`foundIds, this`distances, this`previousNodes, this`previousEdges, this`finalDistance
      reads this`rows, this`settled, this`initialNode
    {
      && Loose(-1) && net.Shape() && initialNode != v
      && Witnessing(net.Graph(), net.store, initialNode, v, rows, settled)
    }

    /** Emit the shortcut to neighbour i, if there is one. */
    method EmitNext(net: Net, v: nat, neighbours: seq<nat>, i: nat, nodeIdx: nat, ghost before: seq<Shortcut>,
                    ghost rs: seq<Shortcut>)
      returns (ghost rs': seq<Shortcut>)
      requires Searched(net, v) && InRange(neighbours, MAX_VALUE) && AllSettled(initialNode, neighbours)
      requires v in rows && rows[v].prev == initialNode && i < |neighbours|
      requires nodeIdx < |foundIds| && Cols().RowAt(rows, nodeIdx) && foundIds[nodeIdx] == v
      requires shortcuts == before + rs && EmittedTo(net, v, initialNode, rows, neighbours, i, rs)
      modifies this`shortcuts
      ensures shortcuts == before + rs' && EmittedTo(net, v, initialNode, rows, neighbours, i + 1, rs')
    {
      ghost var more := EmitOne(net, v, neighbours[i], nodeIdx);
      EmittedNext(net, v, initialNode, rows, neighbours, i, rs, more);
      Regroup(before, rs, more);
      rs' := rs + more;
    }

    /** Emit the shortcuts over v, one after another. */
    method EmitAll(net: Net, v: nat, neighbours: seq<nat>, nodeIdx: nat) returns (ghost rs: seq<Shortcut>)
      requires Searched(net, v) && InRange(neighbours, MAX_VALUE) && AllSettled(initialNode, neighbours)
      requires v in rows && rows[v].prev == initialNode
      requires nodeIdx < |foundIds| && Cols().RowAt(rows, nodeIdx) && foundIds[nodeIdx] == v
      modifies this`shortcuts
      ensures shortcuts == old(shortcuts) + rs
      ensures EmittedTo(net, v, initialNode, rows, neighbours, |neighbours|, rs)
    {
      rs := [];
      EmittedNone(net, v, initialNode, rows, neighbours);
      for i := 0 to |neighbours|
        invariant shortcuts == old(shortcuts) + rs
        invariant EmittedTo(net, v, initialNode, rows, neighbours, i, rs)
      {
        rs := EmitNext(net, v, neighbours, i, nodeIdx, old(shortcuts), rs);
      }
    }

    /** Emit the shortcut to y if the search came to y from v. */
    method EmitOne(net: Net, v: nat, y: nat, nodeIdx: nat) returns (ghost more: seq<Shortcut>)
      requires Searched(net, v) && v in rows && rows[v].prev == initialNode
      requires nodeIdx < |foundIds| && Cols().RowAt(rows, nodeIdx) && foundIds[nodeIdx] == v
      requires y < MAX_VALUE && (y != initialNode ==> y in settled)
      modifies this`shortcuts
      ensures shortcuts == old(shortcuts) + more
      ensures if y != initialNode && Emits(rows, initialNode, v, y)
              then |more| == 1 && Justified(net, v, more[0]) && more[0].start == initialNode && more[0].dest == y
              else more == []
    {
      var idx := IndexOf(y, -1);
      Cols().Lookup(rows, y, idx);
      more := [];
      if y == initialNode {
        return;
      }
      assert y in rows;
      if previousNodes[idx] == v {
        EmittedIsTight(net.Graph(), net.store, initialNode, v, rows, settled, y);
        var r := Shortcut(initialNode, y, distances[idx], previousEdges[idx], previousEdges[nodeIdx]);
        shortcuts := shortcuts + [r];
        more := [r];
      }
    }

    /** Find all shortcuts over v: one search from each of its neighbours. */
    method ContractNode(net: Net, v: nat) returns (ghost rs: seq<Shortcut>)
      requires Valid() && Snapshot(net) && Symmetric(net.Graph()) && NoLoops(net.Graph()) && v < |net.adj|
      modifies this, heap.Repr
      ensures Valid() && fresh(heap.Repr - old(heap.Repr))
      ensures shortcuts == old(shortcuts) + rs && OfNode(net, v, rs)
      ensures AllJustified(net, v, rs) && CoversNode(net, v, rs)
    {
      rs := [];
      if |net.adj[v]| >= 2 {
        var neighbours := seq(|net.adj[v]|, i requires 0 <= i < |net.adj[v]| => net.At(v, i).dst);
        rs := SearchFromAll(net, neighbours, v);
      }
      OfNodeCovers(net, v, rs);
    }

    /** The search from the next neighbour of v. */
    method SearchNext(net: Net, neighbours: seq<nat>, i: nat, v: nat, ghost before: seq<Shortcut>,
                      ghost blocks: seq<seq<Shortcut>>)
      returns (ghost blocks': seq<seq<Shortcut>>)
      requires Valid() && Snapshot(net) && Symmetric(net.Graph()) && NoLoops(net.Graph()) && v < |net.adj|
      requires EndsOf(net, v, neighbours) && |blocks| == i < |neighbours| && StartBlocks(net, v, neighbours, blocks)
      requires shortcuts == before + Flat(blocks)
      modifies this, heap.Repr
      ensures Valid() && fresh(heap.Repr - old(heap.Repr)) && |blocks'| == i + 1
      ensures shortcuts == before + Flat(blocks') && StartBlocks(net, v, neighbours, blocks')
    {
      ghost var block := SearchFrom(net, neighbours[i], neighbours, v);
      FlatNext(before, blocks, block);
      blocks' := blocks + [block];
    }

    /** The searches from the neighbours of v, one after another. */
    method SearchFromAll(net: Net, neighbours: seq<nat>, v: nat) returns (ghost rs: seq<Shortcut>)
      requires Valid() && Snapshot(net) && Symmetric(net.Graph()) && NoLoops(net.Graph()) && v < |net.adj|
      requires |net.adj[v]| >= 2 && EndsOf(net, v, neighbours)
      modifies this, heap.Repr
      ensures Valid() && fresh(heap.Repr - old(heap.Repr))
      ensures shortcuts == old(shortcuts) + rs && OfNode(net, v, rs)
    {
      ghost var blocks: seq<seq<Shortcut>> := [];
      for i := 0 to |neighbours|
        invariant Valid() && fresh(heap.Repr - old(heap.Repr)) && |blocks| == i
        invariant shortcuts == old(shortcuts) + Flat(blocks) && StartBlocks(net, v, neighbours, blocks)
      {
        blocks := SearchNext(net, neighbours, i, v, old(shortcuts), blocks);
      }
      rs := Flat(blocks);
    }

    /** The search from the neighbour s of v, and the shortcuts it finds. */
    method SearchFrom(net: Net, s: nat, neighbours: seq<nat>, v: nat) returns (ghost rs: seq<Shortcut>)
      requires Valid() && Snapshot(net) && Symmetric(net.Graph()) && NoLoops(net.Graph()) && v < |net.adj|
      requires EndsOf(net, v, neighbours) && s in neighbours
      modifies this, heap.Repr
      ensures Valid() && fresh(heap.Repr - old(heap.Repr))
      ensures shortcuts == old(shortcuts) + rs && FromStart(net, v, s, neighbours, rs)
    {
      NeighboursReachable(net, v, s, neighbours);
      NextCalc(net, s, neighbours, v);
      rs := AddShortcuts(net, v, neighbours);
    }

    /** The shortcuts over node i. */
    method ContractNext(net: Net, nodes: seq<nat>, i: nat, ghost blocks: seq<seq<Shortcut>>)
      returns (ghost blocks': seq<seq<Shortcut>>)
      requires Valid() && Snapshot(net) && Symmetric(net.Graph()) && NoLoops(net.Graph()) && InRange(nodes, |net.adj|)
      requires |blocks| == i < |nodes| && shortcuts == Flat(blocks) && NodeBlocks(net, nodes, blocks)
      modifies this, heap.Repr
      ensures Valid() && fresh(heap.Repr - old(heap.Repr)) && |blocks'| == i + 1
      ensures shortcuts == Flat(blocks') && NodeBlocks(net, nodes, blocks')
    {
      ghost var block := ContractNode(net, nodes[i]);
      FlatNext([], blocks, block);
      blocks' := blocks + [block];
    }

    /** The work of one thread: all shortcuts over the nodes it was given. */
    method Run(net: Net, nodes: seq<nat>)
      requires Valid() && Snapshot(net) && Symmetric(net.Graph()) && NoLoops(net.Graph()) && InRange(nodes, |net.adj|)
      requires shortcuts == []
      modifies this, heap.Repr
      ensures Valid() && fresh(heap.Repr - old(heap.Repr)) && OfNodes(net, nodes, shortcuts)
      ensures AllOver(net, nodes, shortcuts) && CoversNodes(net, nodes, shortcuts)
    {
      ghost var blocks: seq<seq<Shortcut>> := [];
      for i := 0 to |nodes|
        invariant Valid() && fresh(heap.Repr - old(heap.Repr)) && |blocks| == i
        invariant shortcuts == Flat(blocks) && NodeBlocks(net, nodes, blocks)
      {
        blocks := ContractNext(net, nodes, i, blocks);
      }
      OfNodesCover(net, nodes, shortcuts);
    }
  }
}
