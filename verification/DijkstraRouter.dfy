/** The reference router: Dijkstra's algorithm with early exit over the grid, and the path read back from it. */
module DijkstraRouters {
  import opened IntArrays
  import opened Graphs
  import opened Search
  import opened Routes
  import opened Grids
  import opened Heaps
  import opened DijkstraHeaps

  /** No distance the search computes from s overflows an int. */
  ghost predicate Fits(g: Graph, s: nat)
  {
    forall e :: e in g && Reach(g, s, e.src) ==> Dist(g, s, e.src) + e.len < MAX_VALUE
  }

  /** For every found node: a walk of the found length that prev steps back along, through touched nodes. */
  datatype Tree = Tree(d: Found, w: map<nat, seq<Edge>>, prev: seq<int>, touched: set<nat>) {
    ghost predicate Valid(g: Graph, s: nat) {
      && w.Keys == d.Keys && s in d && w[s] == []
      && (forall x {:trigger Branch(g, s, x)} :: x in d ==> Branch(g, s, x))
    }

    ghost predicate Branch(g: Graph, s: nat, x: nat)
    {
      && x in d && x in w && x < |prev| && Walk(g, s, w[x], x) && Length(w[x]) == d[x]
      && (x != s ==>
            && prev[x] >= 0 && (prev[x] as nat) in touched && (prev[x] as nat) in w && w[x] != []
            && w[x][..|w[x]| - 1] == w[prev[x] as nat] && w[x][|w[x]| - 1].dst == x)
    }

    /** The tree after e has become the last edge on the way to its end. */
    ghost function Graft(e: Edge): Tree
      requires w.Keys == d.Keys && e.src in d && e.dst < |prev|
    {
      Tree(d[e.dst := d[e.src] + e.len], w[e.dst := w[e.src] + [e]], prev[e.dst := e.src], touched)
    }

    lemma GraftKeeps(g: Graph, s: nat, e: Edge)
      requires Valid(g, s) && touched <= d.Keys && e in g && e.src in touched
      requires e.dst != s && e.dst !in touched && e.dst < |prev|
      ensures Graft(e).Valid(g, s)
    {
      var t := Graft(e);
      GraftsEnd(g, s, e);
      forall x | x in t.d && x != e.dst
        ensures t.Branch(g, s, x)
      {
        assert Branch(g, s, x);
      }
    }

    /** Touching one more node cuts no branch. */
    lemma Touch(g: Graph, s: nat, u: nat)
      requires Valid(g, s)
      ensures Tree(d, w, prev, touched + {u}).Valid(g, s)
    {
      forall x | x in d
        ensures Tree(d, w, prev, touched + {u}).Branch(g, s, x)
      {
        assert Branch(g, s, x);
      }
    }

    lemma GraftsEnd(g: Graph, s: nat, e: Edge)
      requires Valid(g, s) && touched <= d.Keys && e in g && e.src in touched
      requires e.dst != s && e.dst !in touched && e.dst < |prev|
      ensures Graft(e).Branch(g, s, e.dst)
    {
      assert Branch(g, s, e.src);
      ExtendWalk(g, s, w[e.src], e.src, e);
      assert (w[e.src] + [e])[..|w[e.src]|] == w[e.src];
    }
  }

  /** Collections.reverse. */
  function Reverse(s: seq<nat>): (r: seq<nat>)
    ensures |r| == |s|
  {
    if s == [] then [] else [s[|s| - 1]] + Reverse(s[..|s| - 1])
  }

  /** The way over e, which starts at u, is the first one to its end, or shorter than the one known. */
  ghost predicate Shorter(d: Found, u: nat, e: Edge)
  {
    u in d && (e.dst !in d || d[u] + e.len < d[e.dst])
  }

  class DijkstraRouter {
    const grid: Grid
    const currDistanceToNode: array<int>
    const previousNode: array<int>
    const nodeTouched: array<bool>
    const vertexHeap: DijkstraHeap
    /** What the search has found so far, the nodes taken off the heap, and a walk to every found node. */
    ghost var d: Found
    ghost var touched: set<nat>
    ghost var w: map<nat, seq<Edge>>

    ghost predicate Valid()
      reads grid.offset, vertexHeap
    {
      var n := grid.nodeCount;
      && grid.Valid()
      && currDistanceToNode.Length == n && previousNode.Length == n && nodeTouched.Length == n
      && vertexHeap.key == currDistanceToNode && vertexHeap.Arrays()
      && currDistanceToNode != previousNode && currDistanceToNode != grid.offset && previousNode != grid.offset
      && vertexHeap.heapPosition != previousNode && vertexHeap.heapPosition != grid.offset
      && vertexHeap.idHeapArray != previousNode && vertexHeap.idHeapArray != grid.offset
    }

    ghost function G(): Graph { EdgeSet(grid.edges) }

    ghost function Owned(): set<object>
      reads vertexHeap
    {
      {this, currDistanceToNode, previousNode, nodeTouched, vertexHeap, vertexHeap.idHeapArray, vertexHeap.heapPosition}
    }

    ghost function Paths(): Tree
      reads this`d, this`w, this`touched, previousNode
    {
      Tree(d, w, previousNode[..], touched)
    }

    /** The arrays and the heap say what d and touched say. */
    ghost predicate Tracks()
      reads this`d, this`touched, grid.offset, currDistanceToNode, nodeTouched
      reads vertexHeap, vertexHeap.idHeapArray, vertexHeap.heapPosition
      requires Valid()
    {
      && vertexHeap.Valid() && touched <= d.Keys
      && (forall x :: x in d ==> x < grid.nodeCount && d[x] < MAX_VALUE)
      && (forall x: nat {:trigger TracksAt(x)} :: x < grid.nodeCount ==> TracksAt(x))
    }

    ghost predicate TracksAt(x: nat)
      reads this`d, this`touched, grid.offset, currDistanceToNode, nodeTouched
      reads vertexHeap, vertexHeap.idHeapArray, vertexHeap.heapPosition
      requires Valid() && x < grid.nodeCount
    {
      && currDistanceToNode[x] == (if x in d then d[x] else MAX_VALUE)
      && (nodeTouched[x] <==> x in touched)
      && (x !in d ==> vertexHeap.heapPosition[x] == -1)
      && (x in vertexHeap.Ids() <==> x in d && x !in touched)
    }

    /** The router is in the middle of a search from s: arrays, heap and the paths found agree. */
    ghost predicate Ready(s: nat)
      reads this`d, this`w, this`touched, grid.offset, currDistanceToNode, previousNode, nodeTouched
      reads vertexHeap, vertexHeap.idHeapArray, vertexHeap.heapPosition
    {
      Valid() && Tracks() && Paths().Valid(G(), s)
    }

    /** Ready, and every touched node has been worked off. */
    ghost predicate Settling(s: nat)
      reads this`d, this`w, this`touched, grid.offset, currDistanceToNode, previousNode, nodeTouched
      reads vertexHeap, vertexHeap.idHeapArray, vertexHeap.heapPosition
    {
      Ready(s) && Searching(G(), s, d, touched)
    }

    /** t has been touched, at its exact distance. */
    ghost predicate Hit(s: nat, t: nat)
      reads this`d, this`w, this`touched, grid.offset, currDistanceToNode, previousNode, nodeTouched
      reads vertexHeap, vertexHeap.idHeapArray, vertexHeap.heapPosition
    {
      Ready(s) && Reach(G(), s, t) && t in touched && t in d && d[t] == Dist(G(), s, t)
    }

    constructor (grid: Grid)
      requires grid.Valid()
      ensures Valid() && fresh(Owned()) && this.grid == grid
    {
      this.grid := grid;
      var key := new int[grid.nodeCount];
      var prev := new int[grid.nodeCount];
      currDistanceToNode := key;
      previousNode := prev;
      nodeTouched := new bool[grid.nodeCount];
      vertexHeap := new DijkstraHeap(key);
      d, touched, w := map[], {}, map[];
    }

    method ResetState()
      requires Valid()
      modifies this, currDistanceToNode, previousNode, nodeTouched, vertexHeap, vertexHeap.heapPosition
      ensures Valid() && fresh(vertexHeap.idHeapArray) && d == map[] && touched == {} && Tracks()
    {
      ClearArrays();
      vertexHeap.ResetState();
      d, touched, w := map[], {}, map[];
      forall x: nat | x < grid.nodeCount
        ensures TracksAt(x)
      {
      }
    }

    method ClearArrays()
      requires Valid()
      modifies currDistanceToNode, previousNode, nodeTouched
      ensures forall x :: 0 <= x < grid.nodeCount ==> currDistanceToNode[x] == MAX_VALUE && !nodeTouched[x]
    {
      forall x | 0 <= x < grid.nodeCount {
        currDistanceToNode[x] := MAX_VALUE;
      }
      forall x | 0 <= x < grid.nodeCount {
        previousNode[x] := -1;
      }
      forall x | 0 <= x < grid.nodeCount {
        nodeTouched[x] := false;
      }
    }

    /** Tell the heap that y is open, or nearer than before. */
    method Enqueue(y: nat, ghost before: seq<int>)
      requires vertexHeap.Shape(vertexHeap.currentSize) && y < vertexHeap.key.Length == |before|
      requires Keyed(vertexHeap.Ids(), KeyMap(before)) && Heap(vertexHeap.Ids(), KeyMap(before))
      requires vertexHeap.key[y] <= before[y]
      requires forall x :: 0 <= x < |before| && x != y ==> vertexHeap.key[x] == before[x]
      requires vertexHeap.heapPosition[y] == -1 || y in vertexHeap.Ids()
      modifies vertexHeap, vertexHeap.idHeapArray, vertexHeap.heapPosition
      ensures vertexHeap.Valid()
      ensures vertexHeap.idHeapArray == old(vertexHeap.idHeapArray) || fresh(vertexHeap.idHeapArray)
      ensures forall x :: x in vertexHeap.Ids() <==> x in old(vertexHeap.Ids()) || x == y
      ensures forall x :: 0 <= x < vertexHeap.key.Length && x !in vertexHeap.Ids() ==>
                vertexHeap.heapPosition[x] == old(vertexHeap.heapPosition[x])
    {
      vertexHeap.Add(y, before);
    }

    /** The end of e has been reached over e at a smaller distance. */
    method Lower(e: Edge, newDistance: nat)
      requires Valid() && Tracks() && e.src in touched && e.dst < grid.nodeCount && e.dst !in touched
      requires w.Keys == d.Keys && newDistance == d[e.src] + e.len && newDistance < currDistanceToNode[e.dst]
      modifies this`d, this`w, currDistanceToNode, previousNode, vertexHeap, vertexHeap.idHeapArray,
               vertexHeap.heapPosition
      ensures Valid() && (vertexHeap.idHeapArray == old(vertexHeap.idHeapArray) || fresh(vertexHeap.idHeapArray))
      ensures Tracks() && Paths() == old(Paths()).Graft(e)
    {
      ghost var before := currDistanceToNode[..];
      assert TracksAt(e.dst);
      w := w[e.dst := w[e.src] + [e]];
      currDistanceToNode[e.dst] := newDistance;
      previousNode[e.dst] := e.src;
      assert previousNode[..] == old(previousNode[..])[e.dst := e.src];
      Enqueue(e.dst, before);
      d := d[e.dst := newDistance];
      forall y: nat | y < grid.nodeCount
        ensures TracksAt(y)
      {
        assert old(TracksAt(y));
      }
    }

    /** One pass of the inner loop: the way over e may improve the distance of its end. */
    method RelaxEdge(ghost s: nat, u: nat, e: Edge)
      requires Valid() && Tracks() && Paths().Valid(G(), s)
      requires e in G() && e.src == u && u in touched && s in touched
      requires (forall x :: x in touched ==> d[x] <= d[u]) && d[u] + e.len < MAX_VALUE
      modifies this`d, this`w, currDistanceToNode, previousNode, vertexHeap, vertexHeap.idHeapArray,
               vertexHeap.heapPosition
      ensures Valid() && (vertexHeap.idHeapArray == old(vertexHeap.idHeapArray) || fresh(vertexHeap.idHeapArray))
      ensures Tracks() && d == Relax(old(d), u, e)
      ensures Paths().Valid(G(), s)
      ensures previousNode[..] == if Shorter(old(d), u, e) then old(previousNode[..])[e.dst := u]
                                  else old(previousNode[..])
    {
      assert e.dst < grid.nodeCount && TracksAt(e.dst) && TracksAt(u);
      if nodeTouched[e.dst] {
        assert e.dst in d && d[e.dst] <= d[u] + e.len;
        assert Relax(d, u, e) == d;
        return;
      }
      var newDistance := currDistanceToNode[u] + e.len;
      if newDistance < currDistanceToNode[e.dst] {
        assert Relax(d, u, e) == Paths().Graft(e).d;
        Paths().GraftKeeps(G(), s, e);
        Lower(e, newDistance);
        assert d == Paths().d;
      } else {
        assert e.dst in d && d[e.dst] <= d[u] + e.len;
        assert Relax(d, u, e) == d;
      }
    }

    /** Take the nearest open node off the heap and mark it. */
    method PopAndMark() returns (u: nat)
      requires Valid() && Tracks() && vertexHeap.Ids() != []
      modifies this`touched, nodeTouched, vertexHeap`currentSize, vertexHeap.idHeapArray, vertexHeap.heapPosition
      ensures Valid() && Tracks() && u < grid.nodeCount
      ensures u in d && u !in old(touched) && touched == old(touched) + {u}
      ensures forall b :: b in d && b !in old(touched) ==> d[u] <= d[b]
    {
      OpenNodes();
      u := vertexHeap.GetNext();
      assert u in d;
      nodeTouched[u] := true;
      touched := touched + {u};
      forall y: nat | y < grid.nodeCount
        ensures TracksAt(y)
      {
        assert old(TracksAt(y));
      }
    }

    method TakeNext(ghost s: nat) returns (u: nat)
      requires Valid() && Tracks() && vertexHeap.Ids() != []
      requires Paths().Valid(G(), s) && Searching(G(), s, d, touched)
      modifies this`touched, nodeTouched, vertexHeap`currentSize, vertexHeap.idHeapArray, vertexHeap.heapPosition
      ensures Valid() && Tracks() && u < grid.nodeCount
      ensures Paths().Valid(G(), s) && u !in old(touched) && touched == old(touched) + {u}
      ensures Expanding(G(), s, d, old(touched), u, {}) && Reach(G(), s, u) && d[u] == Dist(G(), s, u)
    {
      ghost var before, paths := touched, Paths();
      u := PopAndMark();
      paths.Touch(G(), s, u);
      assert Paths() == Tree(paths.d, paths.w, paths.prev, before + {u});
      BeginExpanding(G(), s, d, before, u);
      ExactDistance(G(), s, d, before, u);
    }

    /** The heap holds exactly the open nodes, at their distances. */
    lemma OpenNodes()
      requires Valid() && Tracks()
      ensures forall x: nat :: x in d && x !in touched <==> x in vertexHeap.Ids()
      ensures forall x: nat :: x in d ==> x < grid.nodeCount && currDistanceToNode[x] == d[x]
    {
      forall x: nat
        ensures x in d && x !in touched <==> x in vertexHeap.Ids()
        ensures x in d ==> x < grid.nodeCount && currDistanceToNode[x] == d[x]
      {
        if x < grid.nodeCount {
          assert TracksAt(x);
        }
      }
    }

    /** Work off one edge out of u. */
    method ExpandEdge(ghost s: nat, u: nat, i: nat, ghost settled: set<nat>, ghost done: set<Edge>)
      requires Ready(s) && i < |grid.edges| && grid.edges[i].src == u
      requires touched == settled + {u} && Expanding(G(), s, d, settled, u, done)
      requires Fits(G(), s) && d[u] == Dist0(G(), s, u)
      modifies this`d, this`w, currDistanceToNode, previousNode, vertexHeap, vertexHeap.idHeapArray,
               vertexHeap.heapPosition
      ensures vertexHeap.idHeapArray == old(vertexHeap.idHeapArray) || fresh(vertexHeap.idHeapArray)
      ensures Ready(s)
      ensures Expanding(G(), s, d, settled, u, done + {grid.edges[i]}) && d[u] == old(d)[u]
      ensures previousNode[..] == if Shorter(old(d), u, grid.edges[i])
                                  then old(previousNode[..])[grid.edges[i].dst := u] else old(previousNode[..])
    {
      var e := grid.edges[i];
      assert e in G() && Realised(G(), s, d, u);
      RelaxKeeps(G(), s, d, settled, u, done, e);
      RelaxEdge(s, u, e);
    }

    /** Ready, while u is being expanded and the edges from lo up to i are done. */
    ghost predicate Midway(s: nat, u: nat, settled: set<nat>, lo: int, i: int)
      reads this`d, this`w, this`touched, grid.offset, currDistanceToNode, previousNode, nodeTouched
      reads vertexHeap, vertexHeap.idHeapArray, vertexHeap.heapPosition
    {
      && Ready(s) && touched == settled + {u} && 0 <= lo <= i <= |grid.edges|
      && Expanding(G(), s, d, settled, u, EdgeSet(grid.edges[lo..i])) && d[u] == Dist0(G(), s, u)
    }

    /** Work off the next edge out of u. */
    method ExpandNext(ghost s: nat, u: nat, ghost settled: set<nat>, ghost lo: int, i: int)
      requires Midway(s, u, settled, lo, i) && u < grid.nodeCount && Fits(G(), s)
      requires lo == grid.offset[u] && i < grid.offset[u + 1]
      modifies this`d, this`w, currDistanceToNode, previousNode, vertexHeap, vertexHeap.idHeapArray,
               vertexHeap.heapPosition
      ensures vertexHeap.idHeapArray == old(vertexHeap.idHeapArray) || fresh(vertexHeap.idHeapArray)
      ensures Midway(s, u, settled, lo, i + 1)
    {
      grid.SliceGrows(u, i);
      ExpandEdge(s, u, i, settled, EdgeSet(grid.edges[lo..i]));
    }

    /** The inner loop: work off all edges out of u. */
    method Expand(ghost s: nat, u: nat, ghost settled: set<nat>)
      requires Ready(s) && u < grid.nodeCount
      requires touched == settled + {u} && Expanding(G(), s, d, settled, u, {})
      requires Fits(G(), s) && d[u] == Dist0(G(), s, u)
      modifies this`d, this`w, currDistanceToNode, previousNode, vertexHeap, vertexHeap.idHeapArray,
               vertexHeap.heapPosition
      ensures vertexHeap.idHeapArray == old(vertexHeap.idHeapArray) || fresh(vertexHeap.idHeapArray)
      ensures Ready(s) && Searching(G(), s, d, touched)
    {
      var lo, hi := grid.offset[u], grid.offset[u + 1];
      assert SliceOf(grid.offset[..], grid.edges, u);
      grid.SliceGrows(u, lo);
      assert forall e :: e in G() && e.src == u ==> e in EdgeSet(grid.edges[lo..hi]);
      ExpandSlice(s, u, settled, lo, hi);
      EndExpanding(G(), s, d, settled, u, EdgeSet(grid.edges[lo..hi]));
    }

    /** Work off the edges from lo up to hi, which are those of u. */
    method ExpandSlice(ghost s: nat, u: nat, ghost settled: set<nat>, lo: int, hi: int)
      requires Midway(s, u, settled, lo, lo) && u < grid.nodeCount && Fits(G(), s)
      requires lo == grid.offset[u] <= hi == grid.offset[u + 1] <= |grid.edges|
      modifies this`d, this`w, currDistanceToNode, previousNode, vertexHeap, vertexHeap.idHeapArray,
               vertexHeap.heapPosition
      ensures vertexHeap.idHeapArray == old(vertexHeap.idHeapArray) || fresh(vertexHeap.idHeapArray)
      ensures Midway(s, u, settled, lo, hi)
    {
      var i := lo;
      while i < hi
        invariant vertexHeap.idHeapArray == old(vertexHeap.idHeapArray) || fresh(vertexHeap.idHeapArray)
        invariant lo <= i <= hi && Midway(s, u, settled, lo, i)
      {
        ExpandNext(s, u, settled, lo, i);
        i := i + 1;
      }
    }

    /** The start node is found at distance 0 and put on the heap. */
    method Start(s: nat)
      requires Valid() && s < grid.nodeCount
      modifies this, currDistanceToNode, previousNode, nodeTouched, vertexHeap, vertexHeap.heapPosition
      ensures fresh(vertexHeap.idHeapArray) && Settling(s) && touched == {}
      ensures d == map[s := 0]
    {
      ResetState();
      Launch(s);
      StartSearch(G(), s);
      assert Paths().Branch(G(), s, s);
    }

    method Launch(s: nat)
      requires Valid() && s < grid.nodeCount && Tracks() && d == map[] && touched == {}
      modifies this`d, this`w, currDistanceToNode, previousNode, vertexHeap, vertexHeap.idHeapArray,
               vertexHeap.heapPosition
      ensures Valid() && (vertexHeap.idHeapArray == old(vertexHeap.idHeapArray) || fresh(vertexHeap.idHeapArray))
      ensures Tracks() && d == map[s := 0] && w == map[s := []]
    {
      ghost var before := currDistanceToNode[..];
      assert TracksAt(s);
      w := map[s := []];
      currDistanceToNode[s] := 0;
      previousNode[s] := s;
      vertexHeap.Add(s, before);
      d := map[s := 0];
      forall y: nat | y < grid.nodeCount
        ensures TracksAt(y)
      {
        assert old(TracksAt(y));
      }
    }

    /** One round of the main loop: settle the nearest open node, unless it is the destination. */
    method Step(s: nat, t: nat) returns (hit: bool, ghost u: nat)
      requires Settling(s) && t !in touched && vertexHeap.Ids() != []
      requires Fits(G(), s)
      modifies Owned()
      ensures fresh(Owned() - old(Owned()))
      ensures if hit then Hit(s, t) else Settling(s) && t !in touched
      ensures u < grid.nodeCount && u !in old(touched) && touched == old(touched) + {u}
    {
      ghost var settled := touched;
      var next := TakeNext(s);
      u, hit := next, next == t;
      if !hit {
        Expand(s, next, settled);
      }
    }

    /** The main loop: settle nodes until the destination is taken off the heap or no node is open. */
    method RunSearch(s: nat, t: nat) returns (found: bool)
      requires Settling(s) && t !in touched && Fits(G(), s)
      modifies Owned()
      ensures if found then Hit(s, t) else Ready(s) && !Reach(G(), s, t)
    {
      while !vertexHeap.IsEmpty()
        invariant fresh(Owned() - old(Owned()))
        invariant Settling(s) && t !in touched
        decreases NodesBelow(grid.nodeCount) - touched
      {
        ghost var u;
        found, u := Step(s, t);
        if found {
          return;
        }
      }
      NothingOpen(s);
      found := false;
    }

    /** With an empty heap exactly the reachable nodes have been touched. */
    lemma NothingOpen(s: nat)
      requires Settling(s) && vertexHeap.Ids() == []
      ensures forall t: nat :: Reach(G(), s, t) <==> t in touched
    {
      OpenNodes();
      assert touched == d.Keys;
      Exhausted(G(), s, d, touched);
    }

    /** Step back from t along previousNode; the nodes are collected from the end and then turned round. */
    method ReadPath(s: nat, t: nat) returns (path: seq<nat>)
      requires Ready(s) && t in touched && touched <= d.Keys
      ensures path == NodesOf(s, w[t])
    {
      var list: seq<nat> := [t];
      var curr := t;
      ghost var rest: seq<nat> := [];
      while curr != s
        invariant curr in touched && NodesOf(s, w[t]) == NodesOf(s, w[curr]) + rest
        invariant Reverse(list) == [curr] + rest
        decreases |w[curr]|
      {
        assert Paths().Branch(G(), s, curr);
        var prev: nat := previousNode[curr];
        rest := [curr] + rest;
        list := list + [prev];
        curr := prev;
      }
      path := Reverse(list);
    }

    /** The shortest route from s to t, or none if t cannot be reached. */
    method Route(s: nat, t: nat) returns (r: Route)
      requires Valid() && s < grid.nodeCount && t < grid.nodeCount && Fits(G(), s)
      modifies Owned()
      ensures Valid() && ShortestRoute(G(), s, t, r)
    {
      Start(s);
      var found := RunSearch(s, t);
      if found {
        assert Paths().Branch(G(), s, t) && TracksAt(t);
        var path := ReadPath(s, t);
        r := Found(path, currDistanceToNode[t]);
      } else {
        r := NoRoute;
      }
    }
  }
}
