/** From the original graph to answers: preprocessing, both routers, and when they agree. */
module Pipeline {
  import opened IntArrays
  import opened Graphs
  import opened Contraction
  import opened HubLabels
  import opened Networks
  import opened EdgeStores
  import opened DynamicGrids
  import opened Stages
  import opened LevelSelection
  import opened LabelCreators
  import opened LabelBatches
  import opened Interleavings
  import opened LabelSchedules
  import opened LabelStores
  import opened LabelColumns
  import opened LabelJoin
  import opened HubLData
  import opened HubLEdgeData
  import opened HubLRouters
  import opened MixedRouters
  import opened TempLabels
  import opened Routes
  import opened Grids
  import opened DijkstraRouters

  /** The original graph: every edge of the table stands in the list of its start. */
  ghost predicate AllEdgesListed(store: seq<Edge>, adj: seq<seq<nat>>)
    requires Net(store, adj).Shape()
  {
    forall id: nat {:trigger store[id]} :: id < |store| ==> store[id] in Net(store, adj).Graph()
  }

  /** What preprocessing hands over to the routers. */
  ghost predicate Handover(g: Graph, h: Hierarchy, labels: seq<Label>, parts: seq<nat>, originals: nat,
                           nodes: HubLNodes, edges: HubLEdges)
  {
    && Symmetric(g) && Positive(g) && Within(g, |h.lvl|) && Climbs(g, h) && |h.adj| <= MAX_VALUE
    && BuiltAbove(g, h, labels, nodes.hlLevel - 1)
    && nodes.Holds(h, labels) && edges.Holds(h.store, parts, originals)
    && (forall id: nat {:trigger h.store[id]} :: id < originals ==> h.store[id] in g)
  }

  ghost predicate RankedBy(g: Graph, random: seq<nat>, levels: seq<nat>, order: seq<nat>, cores: seq<Graph>)
  {
    && ShuffledBy(seq(|levels|, i => i), random, order) && (cores != [] ==> cores[0] == g)
    && (forall v :: 0 <= v < |levels| ==> levels[v] < |cores|)
    && LevelsFollow(cores, order, seq(|levels|, i => true), levels)
  }

  /**
   * The levels are those of the order that the numbers drawn make of the nodes: of the nodes left when a level begins,
   * those go into it that have no neighbour in it before them.
   */
  ghost predicate Ranked(g: Graph, random: seq<nat>, levels: seq<nat>)
  {
    exists order: seq<nat>, cores: seq<Graph> :: RankedBy(g, random, levels, order, cores)
  }

  /** The labels are those that follow, level by level from the top, down to level k. */
  ghost predicate Labelled(h: Hierarchy, k: nat, labels: seq<Label>)
    requires h.Shape()
  {
    exists count: nat :: Gapless(h.lvl, count) && labels == LabelsDownTo(h, count, k)
  }

  /** After the last level, the levels are numbered without gaps. */
  lemma ContiguousIsGapless(a: Stage)
    requires |a.lvl| == |a.gone| && AllGone(a) && Contiguous(a)
    ensures Gapless(a.lvl, |a.cores|)
  {
    forall i: nat | i < |a.cores|
      ensures Occurs(a.lvl, i)
    {
      assert Populated(a, i);
    }
  }

  lemma GraphWithin(net: Net)
    requires net.Shape()
    ensures Within(net.Graph(), |net.adj|)
  {
    forall e | e in net.Graph()
      ensures e.src < |net.adj| && e.dst < |net.adj|
    {
      var i := net.Position(e);
    }
  }

  /** The labels calculated are built from higher ones, and the lowest levels have none. */
  lemma LabelsAreBuilt(g: Graph, h: Hierarchy, count: nat, k: nat)
    requires Climbs(g, h) && Gapless(h.lvl, count)
    ensures BuiltAbove(g, h, LabelsDownTo(h, count, k), k - 1)
    ensures forall v: nat {:trigger LabelsDownTo(h, count, k)[v]} ::
              v < |h.lvl| && h.lvl[v] < k ==> LabelsDownTo(h, count, k)[v] == map[]
  {
    DownToIsBuilt(g, h, count, k);
    forall v: nat | v < |h.lvl| && h.lvl[v] < k
      ensures LabelsDownTo(h, count, k)[v] == map[]
    {
      DownToLow(h, count, k, v);
    }
  }

  /** The contraction: the hierarchy it leaves lets labels be built, and original edges stay in the table. */
  method Contract(edges: EdgeStore, grid: DynamicGrid, random: seq<nat>, ghost g: Graph) returns (levels: seq<nat>)
    requires edges.Valid() && edges.Store() == edges.originals && GoodInput(Net(edges.Store(), grid.currentEdgeIds))
    requires grid.allEdgeIds == grid.currentEdgeIds && g == Net(edges.Store(), grid.currentEdgeIds).Graph()
    requires AllEdgesListed(edges.Store(), grid.currentEdgeIds)
    requires |random| == |grid.currentEdgeIds| && forall i :: 0 <= i < |random| ==> random[i] < |random| - 1
    modifies edges, grid
    ensures edges.Valid() && |grid.allEdgeIds| == |levels| == |old(grid.currentEdgeIds)| && Ranked(g, random, levels)
    ensures var h := Hierarchy(edges.Store(), grid.allEdgeIds, levels);
            && Climbs(g, h) && (exists count: nat :: Gapless(h.lvl, count))
            && (FirstsShortest(g, old(Net(edges.Store(), grid.currentEdgeIds))) ==> HarmlessAbove(g, h, -1))
    ensures forall id: nat {:trigger edges.Store()[id]} :: id < |edges.originals| ==> edges.Store()[id] in g
  {
    ghost var net := Net(edges.Store(), grid.currentEdgeIds);
    var creator := new LabelCreator(edges, grid);
    assert forall id: nat {:trigger edges.Store()[id]} :: id < |edges.originals| ==> edges.Store()[id] in g;
    creator.CalculateCH(random, g);
    levels := creator.nodeLevel;
    ghost var a := creator.State();
    assert Final(a) == Hierarchy(edges.Store(), grid.allEdgeIds, levels);
    assert a.gone == seq(|levels|, i => true);
    assert RankedBy(g, random, levels, creator.calcOrder, a.cores);
    ContractedClimbs(g, a);
    ContiguousIsGapless(a);
    if FirstsShortest(g, net) {
      forall v: nat | v < |a.all|
        ensures SkipsHarmless(g, Final(a), v)
      {
        FirstEdgesAreHarmless(g, a, net, v);
      }
    }
  }

  /** Contract all levels, label all but the lowest noLabelLvls ones, and flatten the result. */
  method Preprocess(edges: EdgeStore, grid: DynamicGrid, random: seq<nat>, noLabelLvls: nat, ghost g: Graph)
    returns (nodes: HubLNodes, hubEdges: HubLEdges, ghost h: Hierarchy, ghost labels: seq<Label>, ghost parts: seq<nat>)
    requires edges.Valid() && edges.Store() == edges.originals && GoodInput(Net(edges.Store(), grid.currentEdgeIds))
    requires grid.allEdgeIds == grid.currentEdgeIds && g == Net(edges.Store(), grid.currentEdgeIds).Graph()
    requires AllEdgesListed(edges.Store(), grid.currentEdgeIds)
    requires |random| == |grid.currentEdgeIds| && forall i :: 0 <= i < |random| ==> random[i] < |random| - 1
    modifies edges, grid
    ensures nodes.hlLevel == noLabelLvls && |h.adj| == |old(grid.currentEdgeIds)|
    ensures Ranked(g, random, h.lvl) && h.Shape() && Labelled(h, noLabelLvls, labels)
    ensures Handover(g, h, labels, parts, |edges.originals|, nodes, hubEdges)
    ensures FirstsShortest(g, old(Net(edges.Store(), grid.currentEdgeIds))) ==> HarmlessAbove(g, h, noLabelLvls - 1)
    ensures forall v: nat {:trigger labels[v]} :: v < |h.lvl| && h.lvl[v] < noLabelLvls ==> labels[v] == map[]
  {
    ghost var n := |grid.currentEdgeIds|;
    GraphWithin(Net(edges.Store(), grid.currentEdgeIds));
    var levels;
    levels := Contract(edges, grid, random, g);
    var hierarchy := Hierarchy(edges.Store(), grid.allEdgeIds, levels);
    h, parts := hierarchy, edges.parts;
    ghost var count :| Gapless(h.lvl, count);
    var store := CalcLabels(hierarchy, noLabelLvls, count);
    labels := store.known;
    LabelsAreBuilt(g, h, count, noLabelLvls);
    hubEdges := new HubLEdges(edges);
    nodes := new HubLNodes(hierarchy, noLabelLvls, store);
  }

  // ---------- the answers ----------

  /** With harmless skips the labels handed over are the peaks of their nodes, which is what both routers need. */
  lemma HandoverIsExact(g: Graph, h: Hierarchy, labels: seq<Label>, parts: seq<nat>, originals: nat, nodes: HubLNodes,
                        edges: HubLEdges)
    requires Handover(g, h, labels, parts, originals, nodes, edges) && HarmlessAbove(g, h, nodes.hlLevel - 1)
    ensures Preprocessed(g, h, labels, nodes.hlLevel, parts, originals)
    ensures Prepared(g, h, labels, nodes, edges)
  {
    BuiltFromTheTop(g, h, labels, nodes.hlLevel - 1);
  }

  /** The labels answer every query exactly if and only if skipping parallel edges does no harm. */
  lemma HandoverAnswersIffHarmless(g: Graph, h: Hierarchy, labels: seq<Label>, parts: seq<nat>, originals: nat,
                                   nodes: HubLNodes, edges: HubLEdges)
    requires Handover(g, h, labels, parts, originals, nodes, edges)
    ensures HarmlessAbove(g, h, nodes.hlLevel - 1) <==> QueriesExactAbove(g, h, labels, nodes.hlLevel - 1)
  {
    QueriesExactIffSkipsHarmless(g, h, labels, nodes.hlLevel - 1);
  }

  /** Twice any distance fits an int, and so does going on over an edge. */
  ghost predicate DistancesFit(g: Graph)
  {
    && (forall s: nat, t: nat {:trigger Reach(g, s, t)} :: Reach(g, s, t) ==> 2 * Dist(g, s, t) < MAX_VALUE)
    && (forall s: nat {:trigger Fits(g, s)} :: Fits(g, s))
  }

  lemma CanonicalSumsFit(g: Graph, lvl: seq<nat>, s: nat, t: nat, a: Label, b: Label)
    requires DistancesFit(g) && Canonical(g, lvl, s, a) && Canonical(g, lvl, t, b)
    ensures SumsFit(a, b)
  {
    forall x: nat | Common(a, b, x)
      ensures a[x].dist + b[x].dist < MAX_VALUE
    {
      assert Peak(g, lvl, s, x) && Peak(g, lvl, t, x);
    }
  }

  /** The hub label router and the plain router, asked the same question, both answer it right and agree. */
  method AskBoth(grid: Grid, nodes: HubLNodes, edges: HubLEdges, s: nat, t: nat, ghost g: Graph, ghost h: Hierarchy,
                 ghost labels: seq<Label>, ghost parts: seq<nat>, ghost originals: nat)
    returns (a: Route, b: Route)
    requires grid.Valid() && EdgeSet(grid.edges) == g && grid.nodeCount == |h.lvl| && s < |h.lvl| && t < |h.lvl|
    requires Handover(g, h, labels, parts, originals, nodes, edges) && HarmlessAbove(g, h, nodes.hlLevel - 1)
    requires DistancesFit(g) && h.lvl[s] >= nodes.hlLevel && h.lvl[t] >= nodes.hlLevel
    ensures ShortestRoute(g, s, t, a) && ShortestRoute(g, s, t, b)
    ensures (a.Found? <==> b.Found?) && (a.Found? ==> a.distance == b.distance)
  {
    HandoverIsExact(g, h, labels, parts, originals, nodes, edges);
    CanonicalSumsFit(g, h.lvl, s, t, labels[s], labels[t]);
    assert Fits(g, s);
    var hub := new HubLRouter(nodes, edges);
    a := hub.Route2Lbl(s, t, g, h, labels, parts, originals);
    var plain := new DijkstraRouter(grid);
    b := plain.Route(s, t);
    RoutesAgree(g, s, t, a, b);
  }

  /** Interpolation: with any number of levels left without labels, the distance is the one the plain router finds. */
  method AskMixed(grid: Grid, nodes: HubLNodes, edges: HubLEdges, s: nat, t: nat, ghost g: Graph, ghost h: Hierarchy,
                  ghost labels: seq<Label>, ghost parts: seq<nat>, ghost originals: nat)
    returns (a: Answer, b: Route)
    requires grid.Valid() && EdgeSet(grid.edges) == g && grid.nodeCount == |h.lvl| && s < |h.lvl| && t < |h.lvl|
    requires Handover(g, h, labels, parts, originals, nodes, edges) && HarmlessAbove(g, h, nodes.hlLevel - 1)
    requires DistancesFit(g)
    ensures Exact(g, s, t, a) && ShortestRoute(g, s, t, b)
    ensures (a.At? <==> b.Found?) && (a.At? ==> a.distance == b.distance)
  {
    HandoverIsExact(g, h, labels, parts, originals, nodes, edges);
    assert Fits(g, s);
    var mixed := NewMixedRouter(nodes, edges);
    a := mixed.Distance(s, t, g, h, labels);
    var plain := new DijkstraRouter(grid);
    b := plain.Route(s, t);
  }

  /**
   * The whole way as configured, with labels on all levels: preprocessing a graph in which the first listed edge to
   * each end is a shortest connection, and then asking for a route, gives a shortest path.
   */
  method PreprocessAndRoute(edges: EdgeStore, dynamicGrid: DynamicGrid, random: seq<nat>, s: nat, t: nat,
                            ghost g: Graph)
    returns (r: Route)
    requires edges.Valid() && edges.Store() == edges.originals
    requires GoodInput(Net(edges.Store(), dynamicGrid.currentEdgeIds))
    requires dynamicGrid.allEdgeIds == dynamicGrid.currentEdgeIds
    requires g == Net(edges.Store(), dynamicGrid.currentEdgeIds).Graph()
    requires AllEdgesListed(edges.Store(), dynamicGrid.currentEdgeIds) && DistancesFit(g)
    requires FirstsShortest(g, Net(edges.Store(), dynamicGrid.currentEdgeIds))
    requires |random| == |dynamicGrid.currentEdgeIds| && forall i :: 0 <= i < |random| ==> random[i] < |random| - 1
    requires s < |dynamicGrid.currentEdgeIds| && t < |dynamicGrid.currentEdgeIds|
    modifies edges, dynamicGrid
    ensures ShortestRoute(g, s, t, r)
  {
    ghost var h, labels, parts;
    var nodes, hubEdges;
    nodes, hubEdges, h, labels, parts := Preprocess(edges, dynamicGrid, random, 0, g);
    HandoverIsExact(g, h, labels, parts, |edges.originals|, nodes, hubEdges);
    CanonicalSumsFit(g, h.lvl, s, t, labels[s], labels[t]);
    var router := new HubLRouter(nodes, hubEdges);
    r := router.Route2Lbl(s, t, g, h, labels, parts, |edges.originals|);
  }
}
