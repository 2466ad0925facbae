/** The contraction hierarchy: level after level, an independent set of nodes is contracted at once. */
module LabelCreators {
  import opened IntArrays
  import opened Graphs
  import opened Sequences
  import opened Contraction
  import opened Networks
  import opened EdgeStores
  import opened DynamicGrids
  import opened Shortcuts
  import opened CHDijkstras
  import opened Stages
  import opened LevelSelection
  import opened MergeOrders

  const NUM_OF_THREADS: nat := 16

  ghost predicate PartsFit(store: seq<Edge>, r: Shortcut)
  {
    && r.first < |store| && r.second < |store|
    && store[r.first].src == r.start && store[r.first].dst == store[r.second].src
    && store[r.second].dst == r.dest && store[r.first].len + store[r.second].len == r.length
  }

  /** Shortcut i may be merged next. */
  ghost predicate MayMerge(g: Graph, a: Stage, level: set<nat>, b: Stage, rs: seq<Shortcut>, i: nat)
  {
    && a.CoreOk() && a.Exact(g) && a.AlreadyOk(g) && Independent(a.Core(), level)
    && LevelShortcuts(a, level, rs) && i < |rs| && Merging(g, a, level, b, rs, i) && MergedInOrder(a, b, rs, i)
  }

  /** Whether the next shortcut is placed or skipped, it counts as merged. */
  lemma MergeOne(g: Graph, a: Stage, level: set<nat>, b: Stage, rs: seq<Shortcut>, i: nat)
    requires MayMerge(g, a, level, b, rs, i)
    ensures rs[i].start < |a.gone| && b.Lists() && PartsFit(b.store, rs[i]) && |b.gone| == |a.gone|
    ensures Merging(g, a, level, if rs[i].dest in b.already[rs[i].start] then b else Add(b, rs[i]), rs, i + 1)
    ensures MergedInOrder(a, if rs[i].dest in b.already[rs[i].start] then b else Add(b, rs[i]), rs, i + 1)
  {
    assert FoundIn(a, level, rs[i]);
    FoundFacts(g, a, level, rs[i]);
    MergeNextInOrder(a, b, rs, i);
    if rs[i].dest in b.already[rs[i].start] {
      MergeSkip(g, a, level, b, rs, i);
    } else {
      MergeAdd(g, a, level, b, rs, i);
    }
  }

  /** Merging only adds ids of new edges behind the lists. */
  lemma MergedExtends(a: Stage, level: set<nat>, b: Stage)
    requires a.Lists() && b.Lists() && |b.gone| == |a.gone| && ListsGrow(a, level, b)
    ensures AllExtend(a.all, |a.store|, b.all)
  {
    forall u: nat | u < |a.all|
      ensures Extends(a.all[u], |a.store|, b.all[u])
    {
      assert ListGrows(a, level, b, u);
    }
  }

  lemma PickedInRange(a: Stage, picked: seq<nat>)
    requires forall v: nat {:trigger a.Alive(v)} :: v in picked ==> a.Alive(v)
    ensures InRange(picked, |a.gone|)
  {
    forall i | 0 <= i < |picked|
      ensures picked[i] < |a.gone|
    {
      assert picked[i] in picked && a.Alive(picked[i]);
    }
  }

  class LabelCreator {
    const nodeCount: nat
    const edges: EdgeStore
    const grid: DynamicGrid
    var calcOrder: seq<nat>
    var contracted: seq<bool>
    var isNeighbour: seq<bool>
    var alreadyShortcut: seq<set<nat>>
    var nodesToCalc: seq<nat>
    var nodeLevel: seq<nat>
    var nonContractedNum: nat
    /** The graph as it was when each level began. */
    ghost var cores: seq<Graph>
    /** The current list of every contracted node at the moment it was contracted. */
    ghost var taken: seq<seq<nat>>

    /** The whole state as a value. */
    ghost function State(): Stage
      reads this`contracted, this`nodeLevel, this`alreadyShortcut, this`cores, this`taken, edges, grid
    {
      Stage(edges.Store(), edges.parts, |edges.originals|, grid.currentEdgeIds, grid.allEdgeIds,
            contracted, nodeLevel, alreadyShortcut, cores, taken)
    }

    /** The state while the shortcuts of a level are merged, before its nodes count as contracted. */
    ghost function Mid(a: Stage): Stage
      reads this`alreadyShortcut, edges, grid
    {
      Stage(edges.Store(), edges.parts, |edges.originals|, grid.currentEdgeIds, grid.allEdgeIds,
            a.gone, a.lvl, alreadyShortcut, a.cores, a.taken)
    }

    /** What holds between two levels. */
    ghost predicate Between(g: Graph)
      reads this, edges, grid
    {
      && edges.Valid() && State().Inv(g) && Contiguous(State()) && |contracted| == nodeCount
      && IsOrder(calcOrder, nodeCount) && nonContractedNum == Left(contracted)
    }

    /** The lists of adj are those of the input; nothing is contracted. */
    constructor (edges: EdgeStore, grid: DynamicGrid)
      requires edges.Valid() && GoodInput(Net(edges.Store(), grid.currentEdgeIds))
      requires edges.Store() == edges.originals && grid.allEdgeIds == grid.currentEdgeIds
      ensures this.edges == edges && this.grid == grid && nodeCount == |grid.currentEdgeIds|
      ensures Between(Net(edges.Store(), grid.currentEdgeIds).Graph())
      ensures State() == FirstStage(edges.Store(), grid.currentEdgeIds) && calcOrder == seq(nodeCount, i => i)
    {
      var n := |grid.currentEdgeIds|;
      this.edges, this.grid, nodeCount := edges, grid, n;
      calcOrder := seq(n, i => i);
      contracted, isNeighbour := seq(n, i => false), seq(n, i => false);
      alreadyShortcut, nodeLevel, nodesToCalc := seq(n, i => {}), seq(n, i => 0), [];
      nonContractedNum := n;
      cores, taken := [], seq(n, i => []);
      new;
      assert edges.parts == [];
      FirstInv(edges.Store(), grid.currentEdgeIds);
      assert State() == FirstStage(edges.Store(), grid.currentEdgeIds);
      AllLeft(n);
      forall u: nat | u < n
        ensures u in calcOrder
      {
        assert calcOrder[u] == u;
      }
    }

    // ---------- choosing the nodes of a level ----------

    /** Some nodes of the level are chosen; their flags, levels and the number of remaining nodes are up to date. */
    ghost predicate Choosing(a: Stage, lvl: nat)
      requires a.Lists()
      reads this`nodesToCalc, this`contracted, this`isNeighbour, this`nodeLevel, this`nonContractedNum
    {
      && Picking(a, nodesToCalc, contracted, isNeighbour)
      && nodeLevel == LevelsWith(a, nodesToCalc, lvl)
      && nonContractedNum == Left(contracted) && nonContractedNum + |nodesToCalc| == Left(a.gone)
    }

    /** Mark the node and the ends of its edges, so that no two directly connected nodes get the same level. */
    method MarkNeighbours(nodeId: nat)
      requires Net(edges.Store(), grid.currentEdgeIds).Shape()
      requires edges.Valid() && nodeId < |grid.currentEdgeIds| == |isNeighbour|
      modifies this`isNeighbour
      ensures MarksMore(Net(edges.Store(), grid.currentEdgeIds), old(isNeighbour), nodeId, isNeighbour)
    {
      ghost var net := Net(edges.Store(), grid.currentEdgeIds);
      isNeighbour := isNeighbour[nodeId := true];
      var ids := grid.currentEdgeIds[nodeId];
      for j := 0 to |ids|
        invariant |isNeighbour| == |old(isNeighbour)|
        invariant forall u: nat {:trigger isNeighbour[u]} :: u < |isNeighbour| ==>
                    (isNeighbour[u] <==> old(isNeighbour)[u] || u == nodeId || ListedTo(net, nodeId, j, u))
      {
        assert net.Has(nodeId, j);
        isNeighbour := isNeighbour[edges.GetDest(ids[j]) := true];
      }
      ListedIsAdjacent(net, nodeId);
    }

    /** Choose one node for the level. */
    method Choose(ghost a: Stage, lvl: nat, nodeId: nat)
      requires edges.Valid() && a.CoreOk() && a.Now() == Net(edges.Store(), grid.currentEdgeIds)
      requires Choosing(a, lvl) && nodeId < |contracted| && !contracted[nodeId] && !isNeighbour[nodeId]
      modifies this`nodesToCalc, this`isNeighbour, this`contracted, this`nodeLevel, this`nonContractedNum
      ensures Choosing(a, lvl) && contracted[nodeId] && nodesToCalc == old(nodesToCalc) + [nodeId]
    {
      ghost var picked, gone, near := nodesToCalc, contracted, isNeighbour;
      LeftOneLess(contracted, nodeId);
      MarkNeighbours(nodeId);
      PickOne(a, picked, gone, near, nodeId, isNeighbour);
      contracted := contracted[nodeId := true];
      nonContractedNum := nonContractedNum - 1;
      nodesToCalc := nodesToCalc + [nodeId];
      nodeLevel := nodeLevel[nodeId := lvl];
      assert nodeLevel == LevelsWith(a, nodesToCalc, lvl);
    }

    /** Choose node i of the order, if it is neither contracted nor marked when its turn comes. */
    method ChooseAt(ghost a: Stage, lvl: nat, i: nat)
      requires edges.Valid() && a.CoreOk() && a.Now() == Net(edges.Store(), grid.currentEdgeIds)
      requires Choosing(a, lvl) && i < |calcOrder| && calcOrder[i] < |a.gone|
      requires nodesToCalc == Greedy(a.Now(), a.gone, calcOrder, i)
      modifies this`nodesToCalc, this`isNeighbour, this`contracted, this`nodeLevel, this`nonContractedNum
      ensures Choosing(a, lvl) && nodesToCalc == Greedy(a.Now(), a.gone, calcOrder, i + 1)
    {
      var nodeId := calcOrder[i];
      GreedyStep(a, nodesToCalc, contracted, isNeighbour, calcOrder, i);
      if !contracted[nodeId] && !isNeighbour[nodeId] {
        Choose(a, lvl, nodeId);
      }
    }

    /** Choose the nodes of a level, one after another. */
    method ChooseAll(ghost a: Stage, lvl: nat)
      requires edges.Valid() && a.CoreOk() && a.Now() == Net(edges.Store(), grid.currentEdgeIds)
      requires Choosing(a, lvl) && nodesToCalc == [] && IsOrder(calcOrder, nodeCount) && nodeCount == |a.gone|
      modifies this`nodesToCalc, this`isNeighbour, this`contracted, this`nodeLevel, this`nonContractedNum
      ensures Choosing(a, lvl) && nodesToCalc == Greedy(a.Now(), a.gone, calcOrder, nodeCount)
    {
      for i := 0 to nodeCount
        invariant Choosing(a, lvl) && nodesToCalc == Greedy(a.Now(), a.gone, calcOrder, i)
      {
        ChooseAt(a, lvl, i);
      }
    }

    /** Choose a maximal independent set of the nodes that are left. */
    method SelectLevel(lvl: nat, ghost g: Graph)
      requires Between(g)
      modifies this`nodesToCalc, this`isNeighbour, this`contracted, this`nodeLevel, this`nonContractedNum
      ensures Choosing(old(State()), lvl)
      ensures Maximal(old(State()).Now(), nodesToCalc, old(contracted))
      ensures PicksFollow(old(State()).Core(), calcOrder, old(contracted), nodesToCalc)
    {
      ghost var a := State();
      nodesToCalc := [];
      isNeighbour := seq(nodeCount, i => false);
      PickNone(a);
      assert nodeLevel == LevelsWith(a, [], lvl);
      ChooseAll(a, lvl);
      OrderIsMaximal(a.Now(), a.gone, calcOrder);
      GreedyFollows(a.Now(), a.gone, calcOrder);
    }

    // ---------- finding the shortcuts ----------

    /** Node i of the level goes to thread i modulo the number of threads. */
    method DistributeNodes() returns (lists: seq<seq<nat>>)
      ensures |lists| == NUM_OF_THREADS && DealtInTurn(nodesToCalc, lists)
    {
      lists := seq(NUM_OF_THREADS, i => []);
      DealNone(lists);
      assert nodesToCalc[..0] == [];
      for i := 0 to |nodesToCalc|
        invariant |lists| == NUM_OF_THREADS && DealtInTurn(nodesToCalc[..i], lists)
      {
        ghost var before := lists;
        lists := lists[i % NUM_OF_THREADS := lists[i % NUM_OF_THREADS] + [nodesToCalc[i]]];
        DealNext(nodesToCalc[..i], before, nodesToCalc[i], lists);
        assert nodesToCalc[..i + 1] == nodesToCalc[..i] + [nodesToCalc[i]];
      }
      assert nodesToCalc[..|nodesToCalc|] == nodesToCalc;
    }

    /** One thread: it only reads the snapshot. */
    static method RunThread(net: Net, nodes: seq<nat>) returns (rs: seq<Shortcut>)
      requires Snapshot(net) && Symmetric(net.Graph()) && NoLoops(net.Graph()) && InRange(nodes, |net.adj|)
      ensures AllOver(net, nodes, rs) && CoversNodes(net, nodes, rs) && OfNodes(net, nodes, rs)
    {
      var thread := new CHDijkstra();
      thread.Run(net, nodes);
      rs := thread.shortcuts;
    }

    /** All threads, on the same snapshot. */
    static method RunThreads(net: Net, lists: seq<seq<nat>>) returns (found: seq<seq<Shortcut>>)
      requires Snapshot(net) && Symmetric(net.Graph()) && NoLoops(net.Graph())
      requires forall t: nat {:trigger lists[t]} :: t < |lists| ==> InRange(lists[t], |net.adj|)
      ensures |found| == |lists| && FoundFirst(net, lists, found)
    {
      found := [];
      for t := 0 to |lists|
        invariant |found| == t && FoundFirst(net, lists, found)
      {
        var rs := RunThread(net, lists[t]);
        FoundOneMore(net, lists, found, rs);
        found := found + [rs];
      }
    }

    /** What all threads have found for the level, each for the nodes dealt to it. */
    method FindShortcuts(ghost a: Stage) returns (found: seq<seq<Shortcut>>)
      requires a.CoreOk() && a.Now() == Net(edges.Store(), grid.currentEdgeIds)
      requires forall v: nat {:trigger a.Alive(v)} :: v in nodesToCalc ==> a.Alive(v)
      ensures |found| == NUM_OF_THREADS && FoundInTurn(a.Now(), nodesToCalc, found)
    {
      var lists := DistributeNodes();
      DealtInRange(a, nodesToCalc, lists);
      found := RunThreads(Net(edges.Store(), grid.currentEdgeIds), lists);
    }

    // ---------- merging the shortcuts ----------

    /** Add the shortcut to edge table and grid, and remember its pair. */
    method PlaceShortcut(r: Shortcut, ghost a: Stage)
      requires edges.Valid() && Mid(a).Lists() && r.start < |a.gone| && PartsFit(edges.Store(), r)
      modifies this`alreadyShortcut, edges, grid
      ensures edges.Valid() && Mid(a) == Add(old(Mid(a)), r)
    {
      var id := edges.AddShortcutEdge(r.start, r.dest, r.length, r.second, r.first);
      grid.AddEdge(r.start, id);
      alreadyShortcut := alreadyShortcut[r.start := alreadyShortcut[r.start] + {r.dest}];
    }

    /** Place the shortcut unless its pair has one already. */
    method MergeShortcut(r: Shortcut, ghost g: Graph, ghost a: Stage, ghost level: set<nat>, ghost rs: seq<Shortcut>,
                         ghost i: nat)
      requires edges.Valid() && MayMerge(g, a, level, Mid(a), rs, i) && rs[i] == r
      modifies this`alreadyShortcut, edges, grid
      ensures edges.Valid() && Merging(g, a, level, Mid(a), rs, i + 1) && MergedInOrder(a, Mid(a), rs, i + 1)
    {
      MergeOne(g, a, level, Mid(a), rs, i);
      if r.dest !in alreadyShortcut[r.start] {
        PlaceShortcut(r, a);
      }
    }

    method MergeThread(ts: seq<Shortcut>, ghost g: Graph, ghost a: Stage, ghost level: set<nat>,
                       ghost rs: seq<Shortcut>, ghost at: nat)
      requires edges.Valid() && a.CoreOk() && a.Exact(g) && a.AlreadyOk(g) && Independent(a.Core(), level)
      requires LevelShortcuts(a, level, rs) && at + |ts| <= |rs| && rs[at..at + |ts|] == ts
      requires Merging(g, a, level, Mid(a), rs, at) && MergedInOrder(a, Mid(a), rs, at)
      modifies this`alreadyShortcut, edges, grid
      ensures edges.Valid() && Merging(g, a, level, Mid(a), rs, at + |ts|)
      ensures MergedInOrder(a, Mid(a), rs, at + |ts|)
    {
      for j := 0 to |ts|
        invariant edges.Valid() && Merging(g, a, level, Mid(a), rs, at + j) && MergedInOrder(a, Mid(a), rs, at + j)
      {
        assert rs[at..at + |ts|][j] == rs[at + j];
        MergeShortcut(ts[j], g, a, level, rs, at + j);
      }
    }

    /** The shortcuts of all threads, thread by thread. */
    method MergeShortcuts(found: seq<seq<Shortcut>>, ghost g: Graph, ghost a: Stage, ghost level: set<nat>)
      requires edges.Valid() && a.Inv(g) && Mid(a) == a && Independent(a.Core(), level)
      requires LevelShortcuts(a, level, Flat(found))
      modifies this`alreadyShortcut, edges, grid
      ensures edges.Valid() && Merging(g, a, level, Mid(a), Flat(found), |Flat(found)|)
      ensures MergedInOrder(a, Mid(a), Flat(found), |Flat(found)|)
    {
      ghost var rs := Flat(found);
      MergeStart(g, a, level, rs);
      NoneMerged(a, rs);
      for t := 0 to |found|
        invariant edges.Valid() && Flat(found[..t]) <= rs && Merging(g, a, level, Mid(a), rs, |Flat(found[..t])|)
        invariant MergedInOrder(a, Mid(a), rs, |Flat(found[..t])|)
      {
        FlatGrows(found, t);
        FlatPrefix(found, t + 1);
        MergeThread(found[t], g, a, level, rs, |Flat(found[..t])|);
      }
      assert found[..|found|] == found;
    }

    // ---------- removing the level's nodes ----------

    /** Take the chosen nodes out of the grid, last first. */
    method RemoveNodes(ghost b: Stage)
      requires edges.Valid() && b.CoreOk() && b.store == edges.Store() && b.current == grid.currentEdgeIds
      requires InRange(nodesToCalc, |grid.currentEdgeIds|)
      modifies grid`currentEdgeIds
      ensures Cut(b.store, b.current, grid.currentEdgeIds, ToSet(nodesToCalc))
      ensures Balanced(Net(b.store, grid.currentEdgeIds))
      ensures NodesTaken(b.store, b.current, grid.currentEdgeIds, nodesToCalc)
    {
      CutStart(b.store, b.current);
      assert ToSet(nodesToCalc[|nodesToCalc|..]) == {};
      for i := |nodesToCalc| downto 0
        invariant Cut(b.store, b.current, grid.currentEdgeIds, ToSet(nodesToCalc[i..]))
        invariant Balanced(Net(b.store, grid.currentEdgeIds))
        invariant NodesTaken(b.store, b.current, grid.currentEdgeIds, nodesToCalc[i..])
      {
        var v := nodesToCalc[i];
        ghost var c := grid.currentEdgeIds;
        CutNoLoops(b.store, b.current, c, ToSet(nodesToCalc[i + 1..]));
        grid.RemoveNode(edges.Store(), v);
        CutMore(b.store, b.current, c, ToSet(nodesToCalc[i + 1..]), v, grid.currentEdgeIds);
        TakeNode(b.store, b.current, c, grid.currentEdgeIds, nodesToCalc, i);
        assert ToSet(nodesToCalc[i..]) == ToSet(nodesToCalc[i + 1..]) + {v};
      }
      assert nodesToCalc[0..] == nodesToCalc;
    }

    // ---------- levels ----------

    /** Find and merge the shortcuts of the chosen level. */
    method MergeLevel(ghost g: Graph, ghost a: Stage) returns (ghost found: seq<seq<Shortcut>>)
      requires Symmetric(g) && Positive(g) && edges.Valid() && a.Inv(g) && Mid(a) == a && Choosing(a, |a.cores|)
      modifies this`alreadyShortcut, edges, grid
      ensures edges.Valid() && LevelShortcuts(a, ToSet(nodesToCalc), Flat(found))
      ensures Merging(g, a, ToSet(nodesToCalc), Mid(a), Flat(found), |Flat(found)|)
      ensures MergedInOrder(a, Mid(a), Flat(found), |Flat(found)|)
    {
      var all := FindShortcuts(a);
      ThreadsCover(a, nodesToCalc, all);
      MergeShortcuts(all, g, a, ToSet(nodesToCalc));
      found := all;
    }

    /** Take the nodes of the chosen level out of the grid, after the shortcuts have been merged. */
    method FinishLevel(ghost g: Graph, ghost a: Stage, ghost b: Stage, ghost rs: seq<Shortcut>)
      requires Symmetric(g) && Positive(g) && edges.Valid() && a.Inv(g) && Mid(a) == b
      requires LevelShortcuts(a, ToSet(nodesToCalc), rs) && Merging(g, a, ToSet(nodesToCalc), b, rs, |rs|)
      requires Choosing(a, |a.cores|) && cores == a.cores && taken == a.taken
      modifies this`cores, this`taken, grid`currentEdgeIds
      ensures State().Inv(g) && cores == a.cores + [a.Core()] && a.store <= edges.Store()
      ensures AllExtend(a.all, |a.store|, grid.allEdgeIds)
      ensures nodesToCalc != [] && Contiguous(a) ==> Contiguous(State())
      ensures NodesTaken(b.store, b.current, grid.currentEdgeIds, nodesToCalc)
      ensures State() == Next(a, ToSet(nodesToCalc), b, grid.currentEdgeIds)
    {
      ghost var level := ToSet(nodesToCalc);
      MergedOk(g, a, level, b, rs);
      PickedInRange(a, nodesToCalc);
      MergedExtends(a, level, b);
      RemoveNodes(b);
      cores := cores + [a.Core()];
      taken := seq(|a.gone|, u requires 0 <= u < |a.gone| => if u in level then a.current[u] else a.taken[u]);
      ChoiceIsNext(a, nodesToCalc, contracted, isNeighbour, b, grid.currentEdgeIds);
      assert State() == Next(a, level, b, grid.currentEdgeIds);
      LevelStep(g, a, level, b, rs, grid.currentEdgeIds);
      if nodesToCalc != [] && Contiguous(a) {
        assert nodesToCalc[0] in level;
        NextContiguous(a, level, b, grid.currentEdgeIds);
      }
    }

    /** Find and merge the shortcuts of the chosen level, and take its nodes out of the grid. */
    method WorkLevel(ghost g: Graph, ghost a: Stage)
      requires Symmetric(g) && Positive(g) && edges.Valid() && a.Inv(g) && Mid(a) == a
      requires Choosing(a, |a.cores|) && cores == a.cores && taken == a.taken
      modifies this`alreadyShortcut, this`cores, this`taken, edges, grid
      ensures edges.Valid() && State().Inv(g) && cores == a.cores + [a.Core()] && a.store <= edges.Store()
      ensures AllExtend(a.all, |a.store|, grid.allEdgeIds)
      ensures nodesToCalc != [] && Contiguous(a) ==> Contiguous(State())
    {
      ghost var found := MergeLevel(g, a);
      ghost var b := Mid(a);
      FinishLevel(g, a, b, Flat(found));
    }

    /** Contract one more level. */
    method CalcNextLvl(lvl: nat, ghost g: Graph)
      requires Symmetric(g) && Positive(g) && Between(g) && lvl == |cores| && nonContractedNum > 0
      modifies this, edges, grid
      ensures Between(g) && nonContractedNum < old(nonContractedNum) && calcOrder == old(calcOrder)
      ensures cores == old(cores) + [old(State()).Core()] && old(edges.Store()) <= edges.Store()
      ensures Independent(old(State()).Core(), ToSet(nodesToCalc))
      ensures Maximal(old(State()).Now(), nodesToCalc, old(contracted))
      ensures PicksFollow(old(State()).Core(), calcOrder, old(contracted), nodesToCalc)
      ensures AllExtend(old(grid.allEdgeIds), |old(edges.Store())|, grid.allEdgeIds)
      ensures LevelAdded(lvl, old(contracted), old(nodeLevel), nodesToCalc, contracted, nodeLevel)
    {
      ghost var a := State();
      SelectLevel(lvl, g);
      assert forall u: nat {:trigger a.Alive(u)} :: u in nodesToCalc ==> a.Alive(u);
      assert forall u: nat {:trigger contracted[u]} :: u < nodeCount ==> !(a.gone[u] && u in nodesToCalc && a.Alive(u));
      MaximalNotEmpty(a, nodesToCalc);
      WorkLevel(g, a);
    }

    /** Swap the node at every position with the one at a random position; the last position is never drawn. */
    method Shuffle(random: seq<nat>)
      requires |random| == nodeCount && IsOrder(calcOrder, nodeCount)
      requires forall i :: 0 <= i < nodeCount ==> random[i] < nodeCount - 1
      modifies this`calcOrder
      ensures IsOrder(calcOrder, nodeCount) && ShuffledBy(old(calcOrder), random, calcOrder)
    {
      ghost var orders := [calcOrder];
      for i := 0 to nodeCount
        invariant IsOrder(calcOrder, nodeCount) && ShuffleRun(old(calcOrder), random, calcOrder, i, orders)
      {
        SwapKeepsOrder(calcOrder, nodeCount, i, random[i]);
        ShuffleOn(old(calcOrder), random, calcOrder, i, orders, Swapped(calcOrder, i, random[i]));
        var tmp := calcOrder[random[i]];
        calcOrder := calcOrder[random[i] := calcOrder[i]][i := tmp];
        orders := orders + [calcOrder];
      }
    }

    /** Contract one more level, which goes on following the order. */
    method Advance(lvl: nat, ghost g: Graph)
      requires Symmetric(g) && Positive(g) && Between(g) && lvl == |cores| && nonContractedNum > 0
      requires LevelsFollow(cores, calcOrder, contracted, nodeLevel)
      modifies this, edges, grid
      ensures Between(g) && nonContractedNum < old(nonContractedNum) && calcOrder == old(calcOrder)
      ensures cores == old(cores) + [old(State()).Core()] && old(edges.Store()) <= edges.Store()
      ensures AllExtend(old(grid.allEdgeIds), |old(edges.Store())|, grid.allEdgeIds)
      ensures LevelsFollow(cores, calcOrder, contracted, nodeLevel)
    {
      CalcNextLvl(lvl, g);
      LevelsGoOn(old(cores), calcOrder, old(contracted), old(nodeLevel), nodesToCalc, old(State()).Core(), contracted,
                 nodeLevel);
    }

    /**
     * Contract level after level until no node is left. In the shuffled order, a node that is left goes into the next
     * level unless a node before it that does so is its neighbour by then. Original edges keep their ids and their
     * places in the lists, and shortcuts come behind them.
     */
    method CalculateCH(random: seq<nat>, ghost g: Graph)
      requires Symmetric(g) && Positive(g) && Between(g) && cores == []
      requires |random| == nodeCount && forall i :: 0 <= i < nodeCount ==> random[i] < nodeCount - 1
      modifies this, edges, grid
      ensures Between(g) && AllGone(State()) && old(edges.Store()) <= edges.Store()
      ensures AllExtend(old(grid.allEdgeIds), |old(edges.Store())|, grid.allEdgeIds)
      ensures ShuffledBy(old(calcOrder), random, calcOrder)
      ensures LevelsFollow(cores, calcOrder, contracted, nodeLevel)
      ensures cores != [] ==> cores[0] == old(State()).Core()
    {
      Shuffle(random);
      ghost var order, first := calcOrder, State().Core();
      var lvl := 0;
      while nonContractedNum > 0
        invariant Between(g) && lvl == |cores| && old(edges.Store()) <= edges.Store() && calcOrder == order
        invariant AllExtend(old(grid.allEdgeIds), |old(edges.Store())|, grid.allEdgeIds)
        invariant LevelsFollow(cores, calcOrder, contracted, nodeLevel)
        invariant if cores == [] then State().Core() == first else cores[0] == first
        decreases nonContractedNum
      {
        ghost var b, n := grid.allEdgeIds, |edges.Store()|;
        Advance(lvl, g);
        AllExtendOn(old(grid.allEdgeIds), |old(edges.Store())|, b, n, grid.allEdgeIds);
        lvl := lvl + 1;
      }
      NoneLeft(contracted);
    }
  }
}
