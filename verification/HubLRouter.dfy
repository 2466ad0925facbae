/** The hub label router: the best common hub of two labels, the edges towards it, and the route unpacked from them. */
module HubLRouters {
  import opened IntArrays
  import opened Graphs
  import opened Sequences
  import opened EdgeStores
  import opened HubLabels
  import opened LabelColumns
  import opened LabelJoin
  import opened Unpacking
  import opened Routes
  import opened IntStacks
  import opened HubLData
  import opened HubLEdgeData

  /** The preprocessed data, as values. */
  ghost predicate Preprocessed(g: Graph, h: Hierarchy, labels: seq<Label>, hlLevel: nat, parts: seq<nat>,
                               originals: nat)
  {
    && Symmetric(g) && Climbs(g, h) && |h.adj| <= MAX_VALUE
    && BuiltAbove(g, h, labels, hlLevel - 1) && CanonicalAbove(g, h, labels, hlLevel - 1)
    && Composed(h.store, parts, originals)
    && (forall id: nat {:trigger h.store[id]} :: id < originals ==> h.store[id] in g)
  }

  /** The ids, put on a stack from position at on, lead from s to the hub, over the length of the hub's entry. */
  ghost predicate LeadsTo(h: Hierarchy, s: nat, ids: seq<nat>, hub: nat, length: nat)
  {
    InTable(h.store, ids) && Chain(h.store, s, ids, hub) && Total(h.store, ids) == length
  }

  /** The ids lead from s to current, whose label holds the hub; d is the length of the whole way to the hub. */
  ghost predicate Climbing(h: Hierarchy, labels: seq<Label>, hlLevel: nat, s: nat, ids: seq<nat>, current: nat,
                           hub: nat, d: nat)
  {
    && InTable(h.store, ids) && Chain(h.store, s, ids, current)
    && current < |labels| == |h.lvl| && h.lvl[current] >= hlLevel
    && hub in labels[current] && Total(h.store, ids) + labels[current][hub].dist == d
  }

  /** The entry of x at v has an edge that leads up to a node whose label holds x, too, and makes up the difference. */
  ghost predicate FollowsAt(h: Hierarchy, labels: seq<Label>, v: nat, x: nat)
  {
    && v < |labels| == |h.lvl| && x in labels[v] && 0 <= labels[v][x].edge < |h.store|
    && var e := h.store[labels[v][x].edge];
      && e.src == v && e.dst < |labels| && h.lvl[v] < h.lvl[e.dst]
      && x in labels[e.dst] && e.len + labels[e.dst][x].dist == labels[v][x].dist
  }

  ghost predicate OwnAt(labels: seq<Label>, v: nat) { v < |labels| && v in labels[v] && labels[v][v].dist == 0 }

  /** From every label with a hub one can go on to the hub. */
  ghost predicate Guided(h: Hierarchy, labels: seq<Label>, hlLevel: nat)
  {
    && |labels| == |h.lvl|
    && (forall v: nat, x: nat {:trigger FollowsAt(h, labels, v, x)} ::
          v < |h.lvl| && h.lvl[v] >= hlLevel && x in labels[v] && x != v ==> FollowsAt(h, labels, v, x))
    && (forall v: nat {:trigger OwnAt(labels, v)} :: v < |h.lvl| && h.lvl[v] >= hlLevel ==> OwnAt(labels, v))
  }

  lemma OwnEntry(g: Graph, h: Hierarchy, labels: seq<Label>, v: nat)
    requires h.Shape() && v < |labels| && Built(g, h, labels, v, labels[v])
    ensures OwnAt(labels, v)
  {
  }

  lemma PreprocessedGuides(g: Graph, h: Hierarchy, labels: seq<Label>, hlLevel: nat, parts: seq<nat>, originals: nat)
    requires Preprocessed(g, h, labels, hlLevel, parts, originals)
    ensures Guided(h, labels, hlLevel)
  {
    forall v: nat, x: nat | v < |h.lvl| && h.lvl[v] >= hlLevel && x in labels[v] && x != v
      ensures FollowsAt(h, labels, v, x)
    {
      FollowEntry(g, h, labels, hlLevel - 1, v, x);
    }
    forall v: nat | v < |h.lvl| && h.lvl[v] >= hlLevel
      ensures OwnAt(labels, v)
    {
      OwnEntry(g, h, labels, v);
    }
  }

  lemma ClimbStart(h: Hierarchy, labels: seq<Label>, hlLevel: nat, s: nat, hub: nat)
    requires s < |labels| == |h.lvl| && h.lvl[s] >= hlLevel && hub in labels[s]
    ensures Climbing(h, labels, hlLevel, s, [], s, hub, labels[s][hub].dist)
  {
  }

  /** The entry's edge leads one level or more up, to a node whose label holds the hub, too. */
  lemma ClimbOn(h: Hierarchy, labels: seq<Label>, hlLevel: nat, s: nat, ids: seq<nat>, current: nat, hub: nat, d: nat)
    requires Guided(h, labels, hlLevel) && current != hub && Climbing(h, labels, hlLevel, s, ids, current, hub, d)
    ensures 0 <= labels[current][hub].edge < |h.store|
    ensures var id := labels[current][hub].edge as nat;
            && Climbing(h, labels, hlLevel, s, ids + [id], h.store[id].dst, hub, d)
            && h.lvl[h.store[id].dst] > h.lvl[current]
  {
    assert FollowsAt(h, labels, current, hub);
    ChainOneMore(h.store, s, ids, labels[current][hub].edge);
  }

  lemma ClimbEnd(h: Hierarchy, labels: seq<Label>, hlLevel: nat, s: nat, ids: seq<nat>, hub: nat, d: nat)
    requires Guided(h, labels, hlLevel) && Climbing(h, labels, hlLevel, s, ids, hub, hub, d)
    ensures LeadsTo(h, s, ids, hub, d)
  {
    assert OwnAt(labels, hub);
  }

  lemma FirstOf(s: seq<int>, x: int, rest: seq<int>)
    requires s == [x] + rest
    ensures x == s[0] && rest == s[1..] && s == [s[0]] + s[1..]
  {
  }

  lemma LastOf(s: seq<nat>)
    requires s != []
    ensures s == s[..|s| - 1] + [s[|s| - 1]]
  {
  }

  lemma LabelsAnswer(g: Graph, h: Hierarchy, labels: seq<Label>, hlLevel: nat, parts: seq<nat>, originals: nat, s: nat,
                     t: nat)
    requires Preprocessed(g, h, labels, hlLevel, parts, originals)
    requires s < |labels| && h.lvl[s] >= hlLevel && t < |labels| && h.lvl[t] >= hlLevel
    ensures QueryExact(g, s, t, labels[s], labels[t])
  {
    CanonicalCovers(g, h.lvl, s, labels[s]);
    CanonicalCovers(g, h.lvl, t, labels[t]);
    CoveringLabelsAnswer(g, h.lvl, s, t, labels[s], labels[t]);
  }

  /** A search within lo and hi, seen from the slice between them. */
  lemma SearchInRange(s: seq<int>, lo: nat, hi: nat, x: int, r: int)
    requires lo <= hi <= |s| && (r >= 0 ==> lo <= r < hi && s[r] == x)
    requires r < 0 ==> lo <= -r - 1 <= hi
    requires r < 0 ==> (forall k :: lo <= k < -r - 1 ==> s[k] < x) && (forall k :: -r - 1 <= k < hi ==> x < s[k])
    ensures SearchResult(s[lo..hi], x, if r >= 0 then r - lo else r + lo)
  {
  }

  class HubLRouter {
    const nodes: HubLNodes
    const edges: HubLEdges
    const resultNodes: IntStack
    const edgesRight: IntStack
    const edgesLeft: IntStack
    const edgeCalcStack: IntStack

    ghost predicate Valid()
      reads this, resultNodes, resultNodes.Repr, edgesRight, edgesRight.Repr, edgesLeft, edgesLeft.Repr, edgeCalcStack,
            edgeCalcStack.Repr
    {
      && resultNodes.Valid() && edgesRight.Valid() && edgesLeft.Valid() && edgeCalcStack.Valid()
      && resultNodes.Repr !! edgesRight.Repr !! edgesLeft.Repr !! edgeCalcStack.Repr
    }

    constructor (nodes: HubLNodes, edges: HubLEdges)
      ensures Valid() && this.nodes == nodes && this.edges == edges
      ensures fresh(resultNodes.Repr) && fresh(edgesRight.Repr) && fresh(edgesLeft.Repr) && fresh(edgeCalcStack.Repr)
      ensures resultNodes.Contents() == edgesRight.Contents() == edgesLeft.Contents() == edgeCalcStack.Contents() == []
    {
      this.nodes, this.edges := nodes, edges;
      resultNodes := new IntStack(5000);
      edgesRight := new IntStack(500);
      edgesLeft := new IntStack(500);
      edgeCalcStack := new IntStack(10);
    }

    /** Both stacks are in order: todo holds stack, and result has r0 and then the ends of what was given. */
    static ghost predicate Expanding(todo: IntStack, result: IntStack, stack: seq<nat>, r0: seq<int>, ends: seq<nat>)
      reads todo, todo.Repr, result, result.Repr
    {
      && todo.Valid() && result.Valid() && todo.Repr !! result.Repr
      && todo.Contents() == stack && result.Contents() == r0 + ends
    }

    /** The order of the two pushes is what tells the left half of the route from the right one. */
    static method PushTwo(todo: IntStack, first: nat, second: nat, mirrored: bool, ghost rest: seq<nat>)
      requires todo.Valid() && todo.Contents() == rest
      modifies todo.Repr
      ensures todo.Valid() && fresh(todo.Repr - old(todo.Repr))
      ensures todo.Contents() == rest + (if mirrored then [first, second] else [second, first])
    {
      if mirrored {
        todo.Push(first);
        todo.Push(second);
      } else {
        todo.Push(second);
        todo.Push(first);
      }
    }

    /** Replace a shortcut, just taken off the stack, by its parts; the one to be given first comes to the top. */
    static method PushParts(edges: HubLEdges, todo: IntStack, edgeId: nat, mirrored: bool, ghost store: seq<Edge>,
                            ghost parts: seq<nat>, ghost originals: nat, ghost rest: seq<nat>, ghost given: seq<nat>,
                            ghost all: seq<nat>)
      returns (ghost stack: seq<nat>)
      requires edges.Holds(store, parts, originals) && InTable(store, rest) && edges.IsShortcut(edgeId)
      requires Unpacked(store, parts, originals, rest + [edgeId], mirrored, given, all)
      requires todo.Valid() && todo.Contents() == rest
      modifies todo.Repr
      ensures todo.Valid() && fresh(todo.Repr - old(todo.Repr)) && todo.Contents() == stack
      ensures Unpacked(store, parts, originals, stack, mirrored, given, all)
      ensures Work(store, parts, originals, stack) < Work(store, parts, originals, rest + [edgeId])
    {
      UnpackedSplit(store, parts, originals, rest, edgeId, mirrored, given, all);
      var first, second := edges.GetFirstShortcut(edgeId), edges.GetSecondShortcut(edgeId);
      stack := rest + (if mirrored then [first, second] else [second, first]);
      PushTwo(todo, first, second, mirrored, rest);
    }

    /** An original edge gives its end. */
    static method GiveEnd(edges: HubLEdges, result: IntStack, edgeId: nat, mirrored: bool, ghost store: seq<Edge>,
                          ghost parts: seq<nat>, ghost originals: nat, ghost rest: seq<nat>, ghost r0: seq<int>,
                          ghost given: seq<nat>, ghost all: seq<nat>)
      requires edges.Holds(store, parts, originals) && InTable(store, rest) && !edges.IsShortcut(edgeId)
      requires Unpacked(store, parts, originals, rest + [edgeId], mirrored, given, all)
      requires result.Valid() && result.Contents() == r0 + Ends(store, given)
      modifies result.Repr
      ensures result.Valid() && fresh(result.Repr - old(result.Repr))
      ensures Unpacked(store, parts, originals, rest, mirrored, given + [edgeId], all)
      ensures result.Contents() == r0 + Ends(store, given + [edgeId])
      ensures Work(store, parts, originals, rest) < Work(store, parts, originals, rest + [edgeId])
    {
      UnpackedGive(store, parts, originals, rest, edgeId, mirrored, given, all);
      result.Push(edges.dest[edgeId]);
    }

    static method PopEdge(todo: IntStack, ghost rest: seq<nat>, ghost top: nat) returns (edgeId: nat)
      requires todo.Valid() && todo.Contents() == rest + [top]
      modifies todo.Repr
      ensures todo.Valid() && todo.Repr == old(todo.Repr) && edgeId == top && todo.Contents() == rest
    {
      ghost var before := todo.Contents();
      var x := todo.Pop();
      assert before[|before| - 1] == top && before[|before| - 1] == x;
      assert todo.Contents() == before[..|before| - 1];
      edgeId := x;
    }

    /** Take one edge off the stack: an original edge gives its end, a shortcut is replaced by its parts. */
    static method ExpandStep(edges: HubLEdges, todo: IntStack, result: IntStack, mirrored: bool, ghost store: seq<Edge>,
                             ghost parts: seq<nat>, ghost originals: nat, ghost stack: seq<nat>, ghost r0: seq<int>,
                             ghost given: seq<nat>, ghost all: seq<nat>)
      returns (ghost stack': seq<nat>, ghost given': seq<nat>)
      requires edges.Holds(store, parts, originals) && stack != []
      requires Unpacked(store, parts, originals, stack, mirrored, given, all)
      requires Expanding(todo, result, stack, r0, Ends(store, given))
      modifies todo.Repr, result.Repr
      ensures fresh(todo.Repr - old(todo.Repr)) && fresh(result.Repr - old(result.Repr))
      ensures Unpacked(store, parts, originals, stack', mirrored, given', all)
      ensures Expanding(todo, result, stack', r0, Ends(store, given'))
      ensures Work(store, parts, originals, stack') < Work(store, parts, originals, stack)
    {
      ghost var rest, top := stack[..|stack| - 1], stack[|stack| - 1];
      LastOf(stack);
      var currentEdge := PopEdge(todo, rest, top);
      if edges.IsShortcut(currentEdge) {
        stack' := PushParts(edges, todo, currentEdge, mirrored, store, parts, originals, rest, given, all);
        given' := given;
      } else {
        GiveEnd(edges, result, currentEdge, mirrored, store, parts, originals, rest, r0, given, all);
        stack', given' := rest, given + [top];
      }
    }

    static method PushFirst(todo: IntStack, result: IntStack, edgeId: nat, ghost store: seq<Edge>, ghost r0: seq<int>)
      requires Expanding(todo, result, [], r0, [])
      modifies todo.Repr
      ensures fresh(todo.Repr - old(todo.Repr)) && Expanding(todo, result, [edgeId], r0, Ends(store, []))
    {
      todo.Push(edgeId);
      assert Ends(store, []) == [];
    }

    /** Unpack one edge completely, in order or, if mirrored, in reverse. */
    static method Expand(edges: HubLEdges, todo: IntStack, result: IntStack, edgeId: nat, mirrored: bool,
                         ghost store: seq<Edge>, ghost parts: seq<nat>, ghost originals: nat, ghost r0: seq<int>)
      returns (ghost given: seq<nat>)
      requires edges.Holds(store, parts, originals) && edgeId < |store| && Expanding(todo, result, [], r0, [])
      modifies todo.Repr, result.Repr
      ensures fresh(todo.Repr - old(todo.Repr)) && fresh(result.Repr - old(result.Repr))
      ensures given == Expansion(store, parts, originals, edgeId, mirrored) && InTable(store, given)
      ensures Expanding(todo, result, [], r0, Ends(store, given))
    {
      PushFirst(todo, result, edgeId, store, r0);
      ghost var stack: seq<nat> := [edgeId];
      given := [];
      ghost var all := Expansion(store, parts, originals, edgeId, mirrored);
      UnpackedStart(store, parts, originals, edgeId, mirrored);
      while !todo.IsEmpty()
        invariant fresh(todo.Repr - old(todo.Repr)) && fresh(result.Repr - old(result.Repr))
        invariant Unpacked(store, parts, originals, stack, mirrored, given, all)
        invariant Expanding(todo, result, stack, r0, Ends(store, given))
        decreases Work(store, parts, originals, stack)
      {
        stack, given := ExpandStep(edges, todo, result, mirrored, store, parts, originals, stack, r0, given, all);
      }
      UnpackedEnd(store, parts, originals, mirrored, given, all);
    }

    /** Unpack one more edge behind what is there already. */
    static method ExpandMore(edges: HubLEdges, todo: IntStack, result: IntStack, edgeId: nat, mirrored: bool,
                             ghost store: seq<Edge>, ghost parts: seq<nat>, ghost originals: nat, ghost r0: seq<int>,
                             ghost ends: seq<nat>, ghost ends': seq<nat>)
      requires edges.Holds(store, parts, originals) && edgeId < |store| && Expanding(todo, result, [], r0, ends)
      requires InTable(store, Expansion(store, parts, originals, edgeId, mirrored))
      requires ends' == ends + Ends(store, Expansion(store, parts, originals, edgeId, mirrored))
      modifies todo.Repr, result.Repr
      ensures fresh(todo.Repr - old(todo.Repr)) && fresh(result.Repr - old(result.Repr))
      ensures Expanding(todo, result, [], r0, ends')
    {
      ghost var given := Expand(edges, todo, result, edgeId, mirrored, store, parts, originals, r0 + ends);
      Regroup<int>(r0, ends, Ends(store, given));
    }

    /** The side stack still holds left, and the result has r0 and the ends given so far. */
    static ghost predicate Draining(side: IntStack, todo: IntStack, result: IntStack, left: seq<nat>, r0: seq<int>,
                                    ends: seq<nat>)
      reads side, side.Repr, todo, todo.Repr, result, result.Repr
    {
      && side.Valid() && side.Contents() == left && Expanding(todo, result, [], r0, ends)
      && side.Repr !! todo.Repr && side.Repr !! result.Repr
    }

    static method DrainFirst(edges: HubLEdges, side: IntStack, todo: IntStack, result: IntStack, ghost store: seq<Edge>,
                             ghost parts: seq<nat>, ghost originals: nat, ghost ids: seq<nat>, ghost r0: seq<int>,
                             ghost i: nat)
      requires edges.Holds(store, parts, originals) && InTable(store, ids) && i < |ids|
      requires Draining(side, todo, result, ids[i..], r0, ForthEnds(store, parts, originals, ids, i))
      modifies side.Repr, todo.Repr, result.Repr
      ensures fresh(todo.Repr - old(todo.Repr)) && fresh(result.Repr - old(result.Repr)) && side.Repr == old(side.Repr)
      ensures Draining(side, todo, result, ids[i + 1..], r0, ForthEnds(store, parts, originals, ids, i + 1))
    {
      ForthStep(store, parts, originals, ids, i);
      var edgeId := side.PopFifo();
      assert edgeId == ids[i] && side.Contents() == ids[i + 1..];
      ExpandMore(edges, todo, result, edgeId, false, store, parts, originals, r0,
                 ForthEnds(store, parts, originals, ids, i), ForthEnds(store, parts, originals, ids, i + 1));
    }

    /** Unpack all edges of the left side, first one first. */
    static method DrainLeft(edges: HubLEdges, left: IntStack, todo: IntStack, result: IntStack, ghost store: seq<Edge>,
                            ghost parts: seq<nat>, ghost originals: nat, ghost ids: seq<nat>, ghost r0: seq<int>)
      requires edges.Holds(store, parts, originals) && InTable(store, ids) && Draining(left, todo, result, ids, r0, [])
      modifies left.Repr, todo.Repr, result.Repr
      ensures fresh(todo.Repr - old(todo.Repr)) && fresh(result.Repr - old(result.Repr)) && left.Repr == old(left.Repr)
      ensures Draining(left, todo, result, [], r0, ForthEnds(store, parts, originals, ids, |ids|))
    {
      ghost var i: nat := 0;
      assert ids[0..] == ids;
      while !left.IsEmpty()
        invariant i <= |ids| && left.Repr == old(left.Repr)
        invariant fresh(todo.Repr - old(todo.Repr)) && fresh(result.Repr - old(result.Repr))
        invariant Draining(left, todo, result, ids[i..], r0, ForthEnds(store, parts, originals, ids, i))
        decreases |ids| - i
      {
        DrainFirst(edges, left, todo, result, store, parts, originals, ids, r0, i);
        i := i + 1;
      }
    }

    static method DrainLast(edges: HubLEdges, side: IntStack, todo: IntStack, result: IntStack, ghost store: seq<Edge>,
                            ghost parts: seq<nat>, ghost originals: nat, ghost ids: seq<nat>, ghost r0: seq<int>,
                            ghost i: nat)
      requires edges.Holds(store, parts, originals) && InTable(store, ids) && i < |ids|
      requires Draining(side, todo, result, ids[..i + 1], r0, BackEnds(store, parts, originals, ids, i + 1))
      modifies side.Repr, todo.Repr, result.Repr
      ensures fresh(todo.Repr - old(todo.Repr)) && fresh(result.Repr - old(result.Repr)) && side.Repr == old(side.Repr)
      ensures Draining(side, todo, result, ids[..i], r0, BackEnds(store, parts, originals, ids, i))
    {
      BackStep(store, parts, originals, ids, i);
      assert ids[..i + 1] == ids[..i] + [ids[i]];
      var edgeId := PopEdge(side, ids[..i], ids[i]);
      ExpandMore(edges, todo, result, edgeId, true, store, parts, originals, r0,
                 BackEnds(store, parts, originals, ids, i + 1), BackEnds(store, parts, originals, ids, i));
    }

    /** Unpack all edges of the right side, last one first and each in reverse. */
    static method DrainRight(edges: HubLEdges, right: IntStack, todo: IntStack, result: IntStack,
                             ghost store: seq<Edge>, ghost parts: seq<nat>, ghost originals: nat, ghost ids: seq<nat>,
                             ghost r0: seq<int>)
      requires edges.Holds(store, parts, originals) && InTable(store, ids) && Draining(right, todo, result, ids, r0, [])
      modifies right.Repr, todo.Repr, result.Repr
      ensures fresh(todo.Repr - old(todo.Repr)) && fresh(result.Repr - old(result.Repr))
      ensures right.Repr == old(right.Repr)
      ensures Draining(right, todo, result, [], r0, BackEnds(store, parts, originals, ids, 0))
    {
      ghost var i: nat := |ids|;
      assert ids[..i] == ids;
      while !right.IsEmpty()
        invariant i <= |ids| && right.Repr == old(right.Repr)
        invariant fresh(todo.Repr - old(todo.Repr)) && fresh(result.Repr - old(result.Repr))
        invariant Draining(right, todo, result, ids[..i], r0, BackEnds(store, parts, originals, ids, i))
        decreases i
      {
        i := i - 1;
        DrainLast(edges, right, todo, result, store, parts, originals, ids, r0, i);
      }
    }

    static method DropLast(result: IntStack, ghost all: seq<int>)
      requires result.Valid() && result.Contents() == all && all != []
      modifies result.Repr
      ensures result.Valid() && result.Repr == old(result.Repr) && result.Contents() == all[..|all| - 1]
    {
      var last := result.Pop();
      assert all == result.Contents() + [last];
    }

    /**
     * The start and the left side, without its last node: the hub would appear twice otherwise, once from either side.
     */
    static method LeftHalf(edges: HubLEdges, start: nat, left: IntStack, todo: IntStack, result: IntStack,
                           ghost store: seq<Edge>, ghost parts: seq<nat>, ghost originals: nat, ghost ids: seq<nat>,
                           ghost half: seq<int>)
      requires edges.Holds(store, parts, originals) && InTable(store, ids) && Draining(left, todo, result, ids, [], [])
      requires var forth := [start] + ForthEnds(store, parts, originals, ids, |ids|); half == forth[..|forth| - 1]
      modifies left.Repr, todo.Repr, result.Repr
      ensures fresh(todo.Repr - old(todo.Repr)) && fresh(result.Repr - old(result.Repr)) && left.Repr == old(left.Repr)
      ensures Expanding(todo, result, [], half, []) && left.Valid()
    {
      result.Push(start);
      DrainLeft(edges, left, todo, result, store, parts, originals, ids, [start]);
      DropLast(result, [start] + ForthEnds(store, parts, originals, ids, |ids|));
    }

    /** The nodes of the route: the left side without its last node, the right side backwards, and dest. */
    method CalculateRoute(start: nat, dest: nat, ghost store: seq<Edge>, ghost parts: seq<nat>, ghost originals: nat,
                          ghost left: seq<nat>, ghost right: seq<nat>)
      requires Valid() && edges.Holds(store, parts, originals) && InTable(store, left) && InTable(store, right)
      requires resultNodes.Contents() == [] && edgeCalcStack.Contents() == []
      requires edgesLeft.Contents() == left && edgesRight.Contents() == right
      modifies resultNodes.Repr, edgesLeft.Repr, edgesRight.Repr, edgeCalcStack.Repr
      ensures resultNodes.Valid() && fresh(resultNodes.Repr - old(resultNodes.Repr))
      ensures var forth := [start] + ForthEnds(store, parts, originals, left, |left|);
              resultNodes.Contents() == forth[..|forth| - 1] + BackEnds(store, parts, originals, right, 0) + [dest]
    {
      ghost var forth := [start] + ForthEnds(store, parts, originals, left, |left|);
      ghost var half := forth[..|forth| - 1];
      LeftHalf(edges, start, edgesLeft, edgeCalcStack, resultNodes, store, parts, originals, left, half);
      DrainRight(edges, edgesRight, edgeCalcStack, resultNodes, store, parts, originals, right, half);
      resultNodes.Push(dest);
    }

    /** Read the nodes off the stack, oldest first. */
    method CollectPath(ghost found: seq<nat>) returns (path: seq<nat>)
      requires resultNodes.Valid() && resultNodes.Contents() == found
      modifies resultNodes.Repr
      ensures path == found
    {
      path := [];
      ghost var left: seq<nat> := found;
      while !resultNodes.IsEmpty()
        invariant resultNodes.Valid() && resultNodes.Repr == old(resultNodes.Repr)
        invariant left == resultNodes.Contents() && path + left == found
        decreases |left|
      {
        var node := resultNodes.PopFifo();
        FirstOf(left, node, resultNodes.Contents());
        Regroup(path, [left[0]], left[1..]);
        path, left := path + [node], left[1..];
      }
    }

    /** Where the hub stands in the label of v; the search never misses. */
    method LabelIndex(v: nat, hub: nat, ghost labels: seq<Label>) returns (idx: nat)
      requires nodes.LabelAt(labels, v) && hub in labels[v]
      ensures idx < |nodes.labelEdge| && nodes.labelEdge[idx] == labels[v][hub].edge
    {
      var lo, hi := nodes.labelOffset[v], nodes.labelOffset[v + 1];
      ghost var c := Columns(nodes.labelNode[lo..hi], nodes.labelDist[lo..hi], nodes.labelEdge[lo..hi]);
      assert forall i :: lo <= i < hi ==> nodes.labelNode[i] == c.ids[i - lo];
      var r := BinarySearchRange(nodes.labelNode, lo, hi, hub);
      SearchInRange(nodes.labelNode, lo, hi, hub, r);
      c.Lookup(labels[v], hub, if r >= 0 then r - lo else r + lo);
      idx := r;
    }

    /** Push the edge by which current reaches the hub. */
    method PushNext(current: nat, hub: nat, edgeId: int, edgeStack: IntStack, ghost h: Hierarchy,
                    ghost labels: seq<Label>, ghost parts: seq<nat>, ghost originals: nat, ghost s: nat,
                    ghost ids0: seq<nat>, ghost d: nat)
      returns (next: nat, ghost ids: seq<nat>)
      requires Guided(h, labels, nodes.hlLevel) && edges.Holds(h.store, parts, originals)
      requires Climbing(h, labels, nodes.hlLevel, s, ids0, current, hub, d) && current != hub
      requires edgeId == labels[current][hub].edge
      requires edgeStack.Valid() && edgeStack.Contents() == ids0
      modifies edgeStack.Repr
      ensures edgeStack.Valid() && fresh(edgeStack.Repr - old(edgeStack.Repr)) && edgeStack.Contents() == ids
      ensures Climbing(h, labels, nodes.hlLevel, s, ids, next, hub, d) && h.lvl[next] > h.lvl[current]
    {
      ClimbOn(h, labels, nodes.hlLevel, s, ids0, current, hub, d);
      ids := ids0 + [edgeId as nat];
      next := edges.dest[edgeId];
      edgeStack.Push(edgeId);
    }

    /** Push the edges from current up to the hub. */
    method GetEdges(start: nat, hub: nat, edgeStack: IntStack, ghost h: Hierarchy, ghost labels: seq<Label>,
                    ghost parts: seq<nat>, ghost originals: nat, ghost s: nat, ghost ids0: seq<nat>, ghost d: nat)
      returns (ghost ids: seq<nat>)
      requires Guided(h, labels, nodes.hlLevel)
      requires nodes.Holds(h, labels) && edges.Holds(h.store, parts, originals)
      requires Climbing(h, labels, nodes.hlLevel, s, ids0, start, hub, d)
      requires edgeStack.Valid() && edgeStack.Contents() == ids0
      modifies edgeStack.Repr
      ensures edgeStack.Valid() && fresh(edgeStack.Repr - old(edgeStack.Repr)) && edgeStack.Contents() == ids
      ensures Climbing(h, labels, nodes.hlLevel, s, ids, hub, hub, d)
    {
      var currentNode := start;
      ids := ids0;
      while currentNode != hub
        invariant edgeStack.Valid() && fresh(edgeStack.Repr - old(edgeStack.Repr)) && edgeStack.Contents() == ids
        invariant Climbing(h, labels, nodes.hlLevel, s, ids, currentNode, hub, d)
        decreases MaxLevel(h.lvl) - Level(h.lvl, currentNode)
      {
        assert nodes.LabelAt(labels, currentNode);
        var labelIdx := LabelIndex(currentNode, hub, labels);
        var edgeId := nodes.labelEdge[labelIdx];
        currentNode, ids := PushNext(currentNode, hub, edgeId, edgeStack, h, labels, parts, originals, s, ids, d);
      }
    }

    /** Push all edges of one side: from s, whose label has the hub at position idx, up to the hub. */
    method SideEdges(s: nat, hub: nat, idx: nat, edgeStack: IntStack, ghost h: Hierarchy, ghost labels: seq<Label>,
                     ghost parts: seq<nat>, ghost originals: nat)
      returns (ghost ids: seq<nat>)
      requires Guided(h, labels, nodes.hlLevel)
      requires nodes.Holds(h, labels) && edges.Holds(h.store, parts, originals)
      requires s < |labels| && h.lvl[s] >= nodes.hlLevel && hub in labels[s]
      requires idx < |nodes.labelEdge| && nodes.labelEdge[idx] == labels[s][hub].edge
      requires edgeStack.Valid() && edgeStack.Contents() == []
      modifies edgeStack.Repr
      ensures edgeStack.Valid() && fresh(edgeStack.Repr - old(edgeStack.Repr)) && edgeStack.Contents() == ids
      ensures LeadsTo(h, s, ids, hub, labels[s][hub].dist)
    {
      ids := [];
      ghost var d := labels[s][hub].dist;
      ClimbStart(h, labels, nodes.hlLevel, s, hub);
      if s != hub {
        var nextNode;
        nextNode, ids := PushNext(s, hub, nodes.labelEdge[idx], edgeStack, h, labels, parts, originals, s, ids, d);
        ids := GetEdges(nextNode, hub, edgeStack, h, labels, parts, originals, s, ids, d);
      }
      ClimbEnd(h, labels, nodes.hlLevel, s, ids, hub, d);
    }

    /** Position idx of the label columns holds v's entry for x. */
    ghost predicate HoldsAt(labels: seq<Label>, v: nat, x: nat, idx: int) {
      && v < |labels| && x in labels[v] && 0 <= idx < |nodes.labelEdge|
      && nodes.labelEdge[idx] == labels[v][x].edge
    }

    /** An entry of the label columns, as an entry of the label it belongs to. */
    lemma EntryStands(labels: seq<Label>, v: nat, idx: nat)
      requires nodes.LabelAt(labels, v) && nodes.labelOffset[v] <= idx < nodes.labelOffset[v + 1]
      ensures var c, i := nodes.LabelCols(v), idx - nodes.labelOffset[v];
              i < |c.ids| == |c.ds| && c.ids[i] == nodes.labelNode[idx] && c.ds[i] == nodes.labelDist[idx]
      ensures nodes.labelNode[idx] >= 0 && HoldsAt(labels, v, nodes.labelNode[idx], idx)
    {
      var c, i := nodes.LabelCols(v), idx - nodes.labelOffset[v];
      assert c.EntryAt(labels[v], i) && c.es[i] == nodes.labelEdge[idx];
    }

    /**
     * Walking through the labels of s and t, at positions i and j of the label columns: hub is the best common hub so
     * far, with entries at a and b.
     */
    ghost predicate Walking(labels: seq<Label>, s: nat, t: nat, i: int, j: int, hub: int, d: int, a: int, b: int)
    {
      && nodes.LabelAt(labels, s) && nodes.LabelAt(labels, t)
      && nodes.labelOffset[s] <= i <= nodes.labelOffset[s + 1] && nodes.labelOffset[t] <= j <= nodes.labelOffset[t + 1]
      && Joining(labels[s], nodes.LabelCols(s), i - nodes.labelOffset[s],
                 labels[t], nodes.LabelCols(t), j - nodes.labelOffset[t], hub, d)
      && (hub >= 0 ==> HoldsAt(labels, s, hub, a) && HoldsAt(labels, t, hub, b))
    }

    lemma WalkStart(labels: seq<Label>, s: nat, t: nat)
      requires nodes.LabelAt(labels, s) && nodes.LabelAt(labels, t)
      ensures Walking(labels, s, t, nodes.labelOffset[s], nodes.labelOffset[t], -1, MAX_VALUE, -1, -1)
    {
      JoinStart(labels[s], nodes.LabelCols(s), labels[t], nodes.LabelCols(t));
    }

    /** Both labels are at the same hub. */
    lemma WalkMeet(labels: seq<Label>, s: nat, t: nat, i: int, j: int, hub: int, d: int, a: int, b: int, hub': int,
                   d': int, a': int, b': int)
      requires Walking(labels, s, t, i, j, hub, d, a, b)
      requires i < nodes.labelOffset[s + 1] && j < nodes.labelOffset[t + 1] && nodes.labelNode[i] == nodes.labelNode[j]
      requires var sum := nodes.labelDist[i] + nodes.labelDist[j];
               (hub', d', a', b') == if sum < d then (nodes.labelNode[i], sum, i, j) else (hub, d, a, b)
      ensures Walking(labels, s, t, i + 1, j + 1, hub', d', a', b')
    {
      EntryStands(labels, s, i);
      EntryStands(labels, t, j);
      JoinMeet(labels[s], nodes.LabelCols(s), i - nodes.labelOffset[s],
               labels[t], nodes.LabelCols(t), j - nodes.labelOffset[t], hub, d, hub', d');
    }

    /** The smaller of two different hubs is passed. */
    lemma WalkPass(labels: seq<Label>, s: nat, t: nat, i: int, j: int, hub: int, d: int, a: int, b: int)
      requires Walking(labels, s, t, i, j, hub, d, a, b)
      requires i < nodes.labelOffset[s + 1] && j < nodes.labelOffset[t + 1]
      ensures nodes.labelNode[i] < nodes.labelNode[j] ==> Walking(labels, s, t, i + 1, j, hub, d, a, b)
      ensures nodes.labelNode[j] < nodes.labelNode[i] ==> Walking(labels, s, t, i, j + 1, hub, d, a, b)
    {
      EntryStands(labels, s, i);
      EntryStands(labels, t, j);
      JoinPass(labels[s], nodes.LabelCols(s), i - nodes.labelOffset[s],
               labels[t], nodes.LabelCols(t), j - nodes.labelOffset[t], hub, d);
    }

    lemma WalkEnd(labels: seq<Label>, s: nat, t: nat, i: int, j: int, hub: int, d: int, a: int, b: int)
      requires Walking(labels, s, t, i, j, hub, d, a, b)
      requires i >= nodes.labelOffset[s + 1] || j >= nodes.labelOffset[t + 1]
      ensures JoinResult(labels[s], labels[t], hub, d)
      ensures hub >= 0 ==> HoldsAt(labels, s, hub, a) && HoldsAt(labels, t, hub, b)
    {
      JoinEnd(labels[s], nodes.LabelCols(s), i - nodes.labelOffset[s],
              labels[t], nodes.LabelCols(t), j - nodes.labelOffset[t], hub, d);
    }

    /** Walk through two labels at once to find the best common hub; the entry behind the last label is read, too. */
    method BestCommonLabel(startId: nat, destId: nat, ghost labels: seq<Label>)
      returns (highestLvlNode: int, currDistance: int, idxA: int, idxB: int)
      requires nodes.LabelAt(labels, startId) && nodes.LabelAt(labels, destId)
      ensures JoinResult(labels[startId], labels[destId], highestLvlNode, currDistance)
      ensures highestLvlNode >= 0 ==>
                HoldsAt(labels, startId, highestLvlNode, idxA) && HoldsAt(labels, destId, highestLvlNode, idxB)
    {
      var currOffsetA, currOffsetB := nodes.labelOffset[startId], nodes.labelOffset[destId];
      var endOffsetA, endOffsetB := nodes.labelOffset[startId + 1], nodes.labelOffset[destId + 1];
      currDistance, idxA, idxB, highestLvlNode := MAX_VALUE, -1, -1, -1;
      WalkStart(labels, startId, destId);
      var nodeA, nodeB := nodes.labelNode[currOffsetA], nodes.labelNode[currOffsetB];
      while currOffsetA < endOffsetA && currOffsetB < endOffsetB
        invariant Walking(labels, startId, destId, currOffsetA, currOffsetB, highestLvlNode, currDistance, idxA, idxB)
        invariant nodeA == nodes.labelNode[currOffsetA] && nodeB == nodes.labelNode[currOffsetB]
        decreases endOffsetA - currOffsetA + endOffsetB - currOffsetB
      {
        if nodeA == nodeB {
          ghost var hub, d, a, b := highestLvlNode, currDistance, idxA, idxB;
          var tmpDist := nodes.labelDist[currOffsetA] + nodes.labelDist[currOffsetB];
          if tmpDist < currDistance {
            highestLvlNode := nodeA;
            currDistance := tmpDist;
            idxA := currOffsetA;
            idxB := currOffsetB;
          }
          WalkMeet(labels, startId, destId, currOffsetA, currOffsetB, hub, d, a, b,
                   highestLvlNode, currDistance, idxA, idxB);
          currOffsetA := currOffsetA + 1;
          currOffsetB := currOffsetB + 1;
          nodeA := nodes.labelNode[currOffsetA];
          nodeB := nodes.labelNode[currOffsetB];
        } else if nodeA > nodeB {
          WalkPass(labels, startId, destId, currOffsetA, currOffsetB, highestLvlNode, currDistance, idxA, idxB);
          currOffsetB := currOffsetB + 1;
          nodeB := nodes.labelNode[currOffsetB];
        } else {
          WalkPass(labels, startId, destId, currOffsetA, currOffsetB, highestLvlNode, currDistance, idxA, idxB);
          currOffsetA := currOffsetA + 1;
          nodeA := nodes.labelNode[currOffsetA];
        }
      }
      WalkEnd(labels, startId, destId, currOffsetA, currOffsetB, highestLvlNode, currDistance, idxA, idxB);
    }

    method Reset()
      requires Valid()
      modifies resultNodes.Repr, edgesLeft.Repr, edgesRight.Repr, edgeCalcStack.Repr
      ensures Valid() && resultNodes.Repr == old(resultNodes.Repr) && edgesLeft.Repr == old(edgesLeft.Repr)
      ensures edgesRight.Repr == old(edgesRight.Repr) && edgeCalcStack.Repr == old(edgeCalcStack.Repr)
      ensures resultNodes.Contents() == [] && edgesLeft.Contents() == [] && edgesRight.Contents() == []
      ensures edgeCalcStack.Contents() == []
    {
      resultNodes.Clear();
      edgesRight.Clear();
      edgesLeft.Clear();
      edgeCalcStack.Clear();
    }

    /** The route from the edges on the two sides. */
    method UnpackPath(start: nat, dest: nat, ghost store: seq<Edge>, ghost parts: seq<nat>, ghost originals: nat,
                      ghost left: seq<nat>, ghost right: seq<nat>)
      returns (path: seq<nat>)
      requires Valid() && edges.Holds(store, parts, originals) && InTable(store, left) && InTable(store, right)
      requires resultNodes.Contents() == [] && edgeCalcStack.Contents() == []
      requires edgesLeft.Contents() == left && edgesRight.Contents() == right
      modifies resultNodes.Repr, edgesLeft.Repr, edgesRight.Repr, edgeCalcStack.Repr
      ensures var forth := [start] + ForthEnds(store, parts, originals, left, |left|);
              path == forth[..|forth| - 1] + BackEnds(store, parts, originals, right, 0) + [dest]
    {
      CalculateRoute(start, dest, store, parts, originals, left, right);
      ghost var forth := [start] + ForthEnds(store, parts, originals, left, |left|);
      path := CollectPath(forth[..|forth| - 1] + BackEnds(store, parts, originals, right, 0) + [dest]);
    }

    /** Put the route over the given hub together. */
    method BuildRoute(startId: nat, destId: nat, hub: nat, idxA: nat, idxB: nat, ghost g: Graph, ghost h: Hierarchy,
                      ghost labels: seq<Label>, ghost parts: seq<nat>, ghost originals: nat)
      returns (path: seq<nat>)
      requires Symmetric(g) && Guided(h, labels, nodes.hlLevel)
      requires forall id: nat {:trigger h.store[id]} :: id < originals <= |h.store| ==> h.store[id] in g
      requires nodes.Holds(h, labels) && edges.Holds(h.store, parts, originals)
      requires startId < |labels| && h.lvl[startId] >= nodes.hlLevel && destId < |labels|
      requires h.lvl[destId] >= nodes.hlLevel
      requires HoldsAt(labels, startId, hub, idxA) && HoldsAt(labels, destId, hub, idxB)
      requires Valid() && resultNodes.Contents() == [] && edgesLeft.Contents() == [] && edgesRight.Contents() == []
      requires edgeCalcStack.Contents() == []
      modifies resultNodes.Repr, edgesLeft.Repr, edgesRight.Repr, edgeCalcStack.Repr
      ensures PathAlong(g, startId, destId, path, labels[startId][hub].dist + labels[destId][hub].dist)
    {
      ghost var right := SideEdges(destId, hub, idxB, edgesRight, h, labels, parts, originals);
      ghost var left := SideEdges(startId, hub, idxA, edgesLeft, h, labels, parts, originals);
      SidesMakeRoute(g, h.store, parts, originals, startId, left, hub, right, destId);
      path := UnpackPath(startId, destId, h.store, parts, originals, left, right);
    }

    /** A shortest route between two nodes that have labels. */
    method Route2Lbl(startId: nat, destId: nat, ghost g: Graph, ghost h: Hierarchy, ghost labels: seq<Label>,
                     ghost parts: seq<nat>, ghost originals: nat)
      returns (r: Route)
      requires Preprocessed(g, h, labels, nodes.hlLevel, parts, originals)
      requires nodes.Holds(h, labels) && edges.Holds(h.store, parts, originals) && Valid()
      requires startId < |labels| && h.lvl[startId] >= nodes.hlLevel && destId < |labels|
      requires h.lvl[destId] >= nodes.hlLevel
      requires SumsFit(labels[startId], labels[destId])
      modifies resultNodes.Repr, edgesLeft.Repr, edgesRight.Repr, edgeCalcStack.Repr
      ensures ShortestRoute(g, startId, destId, r)
    {
      Reset();
      assert nodes.LabelAt(labels, startId) && nodes.LabelAt(labels, destId);
      LabelsAnswer(g, h, labels, nodes.hlLevel, parts, originals, startId, destId);
      var hub, currDistance, idxA, idxB := BestCommonLabel(startId, destId, labels);
      if Reach(g, startId, destId) {
        DistFits(g, startId, destId, labels[startId], labels[destId]);
      }
      JoinAnswers(g, startId, destId, labels[startId], labels[destId], hub, currDistance);
      if hub == -1 {
        return NoRoute;
      }
      PreprocessedGuides(g, h, labels, nodes.hlLevel, parts, originals);
      var path := BuildRoute(startId, destId, hub, idxA, idxB, g, h, labels, parts, originals);
      return Found(path, currDistance);
    }
  }
}
