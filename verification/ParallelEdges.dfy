/** Where labels go wrong: two parallel edges of different length, the longer one first. */
module ParallelEdges {
  import opened IntArrays
  import opened Graphs
  import opened HubLabels
  import opened LabelFunction
  import opened Interleavings
  import opened Networks
  import opened EdgeStores
  import opened DynamicGrids
  import opened Stages
  import opened LevelSelection
  import opened LabelCreators
  import opened LabelBatches
  import opened LabelStores
  import opened LabelSchedules

  const ROAD: seq<Edge> := [Edge(0, 1, 2), Edge(0, 1, 1), Edge(1, 0, 2), Edge(1, 0, 1)]
  const LISTS: seq<seq<nat>> := [[0, 1], [2, 3]]

  /** Two nodes, joined both ways by a road of length 2 and one of length 1; node 1 is contracted first. */
  ghost function TwoRoads(): Hierarchy { Hierarchy(ROAD, LISTS, [1, 0]) }

  ghost function RoadGraph(): Graph { {Edge(0, 1, 2), Edge(0, 1, 1), Edge(1, 0, 2), Edge(1, 0, 1)} }

  /** The labels: node 1 keeps the longer road, which comes first. */
  ghost function RoadLabels(): seq<Label> { [map[0 := Entry(0, -1)], map[1 := Entry(0, -1), 0 := Entry(2, 2)]] }

  // ---------- the input ----------

  lemma RoadNet()
    ensures var net := Net(ROAD, LISTS);
            && net.Shape() && net.At(0, 0) == Edge(0, 1, 2) && net.At(0, 1) == Edge(0, 1, 1)
            && net.At(1, 0) == Edge(1, 0, 2) && net.At(1, 1) == Edge(1, 0, 1)
  {
    assert LISTS[0] == [0, 1] && LISTS[1] == [2, 3];
  }

  lemma RoadBalanced()
    requires Net(ROAD, LISTS).Shape()
    ensures Balanced(Net(ROAD, LISTS))
  {
    forall x: nat, y: nat | x < 2 && y < 2
      ensures CountTo(ROAD, LISTS[x], y) == CountTo(ROAD, LISTS[y], x)
    {
      assert LISTS[0] == [0, 1] && LISTS[1] == [2, 3];
      assert [0 as nat, 1][..1] == [0] && [0 as nat][..0] == [];
      assert [2 as nat, 3][..1] == [2] && [2 as nat][..0] == [];
    }
  }

  lemma RoadInput()
    ensures GoodInput(Net(ROAD, LISTS)) && Net(ROAD, LISTS).Graph() == RoadGraph()
  {
    var net := Net(ROAD, LISTS);
    RoadNet();
    net.GraphHas(0, 0);
    net.GraphHas(0, 1);
    net.GraphHas(1, 0);
    net.GraphHas(1, 1);
    RoadBalanced();
  }

  lemma RoadDistance()
    ensures Reach(RoadGraph(), 0, 1) && Dist(RoadGraph(), 0, 1) == 1
    ensures Reach(RoadGraph(), 1, 0) && Dist(RoadGraph(), 1, 0) == 1
  {
    EdgeDist(RoadGraph(), Edge(0, 1, 1));
    EdgeDist(RoadGraph(), Edge(1, 0, 1));
    DistPositive(RoadGraph(), 0, 1);
    DistPositive(RoadGraph(), 1, 0);
  }

  // ---------- its contraction ----------

  /** With two nodes every number drawn is 0, and the swaps put node 1 first. */
  lemma RoadOrder(random: seq<nat>, order: seq<nat>)
    requires |random| == 2 && random[0] < 1 && random[1] < 1 && ShuffledBy([0, 1], random, order)
    ensures order == [1, 0]
  {
    var orders: seq<seq<nat>> :| ShuffleRun([0, 1], random, order, |random|, orders);
    assert ExchangedAt(orders, random, 0) && ExchangedAt(orders, random, 1);
  }

  /** There is no third node to go over, so that no shortcut is ever stored. */
  lemma RoadHasNoShortcuts(a: Stage)
    requires a.ShortcutsOk(RoadGraph()) && a.originals == |ROAD| && ROAD <= a.store
    ensures a.store == ROAD
  {
    if |a.store| > |ROAD| {
      var e := a.store[4];
      assert ExactEdge(RoadGraph(), e);
      assert ComposedAt(a.store, a.parts, a.originals, 4);
      SelfDist(RoadGraph(), e.src);
    }
  }

  lemma NothingNew(before: seq<nat>, n: nat, after: seq<nat>)
    requires Extends(before, n, after) && forall k: nat {:trigger after[k]} :: k < |after| ==> after[k] < n
    ensures after == before
  {
    if after != [] {
      assert after[|after| - 1] < n;
    }
  }

  /** Lists to which only ids of stored edges are added stay as they are when nothing new is stored. */
  lemma RoadLists(all: seq<seq<nat>>)
    requires AllExtend(LISTS, |ROAD|, all) && Net(ROAD, all).Shape()
    ensures all == LISTS
  {
    forall u: nat | u < |LISTS|
      ensures all[u] == LISTS[u]
    {
      assert Extends(LISTS[u], |ROAD|, all[u]);
      forall k: nat | k < |all[u]|
        ensures all[u][k] < |ROAD|
      {
        assert Net(ROAD, all).Has(u, k);
      }
      NothingNew(LISTS[u], |ROAD|, all[u]);
    }
  }

  /** Node 1 comes first, node 0 is its neighbour, and levels have no gaps. */
  lemma RoadLevels(a: Stage)
    requires |a.lvl| == |a.gone| == 2 && AllGone(a) && Contiguous(a) && LevelsFollow(a.cores, [1, 0], a.gone, a.lvl)
    requires a.cores != [] ==> a.cores[0] == RoadGraph()
    ensures a.lvl == [1, 0]
  {
    assert a.gone[0] && a.gone[1] && |a.cores| > 0;
    var order: seq<nat>, core, level := [1, 0], a.cores[0], AtLvl(a.gone, a.lvl, 0);
    assert LevelFollows(core, order, a.gone, a.lvl, 0, 1) && !Blocked(core, order, level, 1);
    assert order[0] == 1 && order[1] == 0 && StandsBefore(order, 1, 0);
    assert Edge(1, 0, 1) in core && Adjacent(core, 1, 0);
    assert LevelFollows(core, order, a.gone, a.lvl, 0, 0);
    assert a.lvl[0] < |a.cores| && Populated(a, 1);
  }

  /** The state after it. */
  lemma RoadContracted(a: Stage, order: seq<nat>, random: seq<nat>)
    requires |random| == 2 && random[0] < 1 && random[1] < 1 && ShuffledBy(seq(2, i => i), random, order)
    requires a.Inv(RoadGraph()) && AllGone(a) && Contiguous(a) && LevelsFollow(a.cores, order, a.gone, a.lvl)
    requires a.cores != [] ==> a.cores[0] == RoadGraph()
    requires a.originals == |ROAD| && ROAD <= a.store && AllExtend(LISTS, |ROAD|, a.all)
    ensures Final(a) == TwoRoads()
  {
    assert seq<nat>(2, i => i) == [0, 1];
    RoadOrder(random, order);
    RoadHasNoShortcuts(a);
    RoadLists(a.all);
    RoadLevels(a);
  }

  // ---------- its hierarchy and its labels ----------

  lemma RoadShape()
    ensures TwoRoads().Shape()
    ensures TwoRoads().Has(1, 0) && TwoRoads().At(1, 0) == Edge(1, 0, 2) && TwoRoads().Up(1, 0)
    ensures TwoRoads().First(1, 0)
    ensures TwoRoads().Has(1, 1) && TwoRoads().At(1, 1) == Edge(1, 0, 1) && TwoRoads().Up(1, 1)
    ensures !TwoRoads().First(1, 1)
    ensures forall v: nat, k: nat :: TwoRoads().Has(v, k) && TwoRoads().Up(v, k) ==> v == 1
  {
    var h := TwoRoads();
    assert h.adj[0] == [0, 1] && h.adj[1] == [2, 3];
    forall v: nat, k: nat | v < |h.adj| && k < |h.adj[v]|
      ensures h.adj[v][k] < |h.store| && h.store[h.adj[v][k]].src == v && h.lvl[h.store[h.adj[v][k]].dst] != h.lvl[v]
    {
      assert v == 0 || v == 1;
      assert k == 0 || k == 1;
    }
  }

  lemma RoadPeaks(v: nat, t: nat)
    requires v < 2 && t < 2 && v != t && Peak(RoadGraph(), [1, 0], v, t)
    ensures v == 1 && t == 0
  {
    if v == 0 {
      OnShortestEnds(RoadGraph(), 0, 1);
    }
  }

  lemma RoadClimbs()
    ensures Climbs(RoadGraph(), TwoRoads())
  {
    var g, h := RoadGraph(), TwoRoads();
    RoadShape();
    RoadDistance();
    SelfDist(g, 0);
    forall v: nat, k: nat | h.Has(v, k) && h.Up(v, k)
      ensures Reach(g, v, h.At(v, k).dst) && Dist(g, v, h.At(v, k).dst) <= h.At(v, k).len
    {
      assert k == 0 || k == 1;
    }
    forall v: nat, t: nat | v < |h.adj| && t < |h.adj| && v != t && Peak(g, h.lvl, v, t)
      ensures exists k: nat :: h.Has(v, k) && ClimbsOver(g, h, v, k, t)
    {
      RoadPeaks(v, t);
      assert ClimbsOver(g, h, 1, 1, 0);
    }
  }

  /** Node 0 has no higher neighbour. */
  lemma HighLabel()
    ensures TwoRoads().Shape() && LabelFor(TwoRoads(), [map[], map[]], 0) == RoadLabels()[0]
  {
    var h, labels: seq<Label> := TwoRoads(), [map[], map[]];
    RoadNet();
    RoadShape();
    assert SeedTo(h, 0, 0) == RoadLabels()[0] && UpEnds(h, 0, 0) == [];
    assert SeedTo(h, 0, 1) == RoadLabels()[0] && UpEnds(h, 0, 1) == [];
    assert SeedTo(h, 0, 2) == RoadLabels()[0] && UpEnds(h, 0, 2) == [];
    assert MergedFor(h, labels, 0) == RoadLabels()[0];
  }

  /** Node 1 enters the road listed first. */
  lemma LowSeeded()
    ensures TwoRoads().Shape() && SeedTo(TwoRoads(), 1, 2) == RoadLabels()[1] && UpEnds(TwoRoads(), 1, 2) == [0, 0]
  {
    var h := TwoRoads();
    RoadShape();
    assert SeedTo(h, 1, 0) == map[1 := Entry(0, -1)] && UpEnds(h, 1, 0) == [];
    assert SeedTo(h, 1, 1) == RoadLabels()[1] && UpEnds(h, 1, 1) == [0];
  }

  /** The label of node 0 makes it no better, at either of the two times it is merged. */
  lemma LowMergedTo()
    ensures var labels: seq<Label>, m: Label := [RoadLabels()[0], map[]], RoadLabels()[1];
            EndsIn(labels, [0, 0], m) && MergeTo(labels, [0, 0], 2, m) == m
  {
    var labels: seq<Label>, m: Label := [RoadLabels()[0], map[]], RoadLabels()[1];
    assert EndsIn(labels, [0, 0], m);
    assert MergeLabel(m, m[0], labels[0]) == m;
    assert MergeTo(labels, [0, 0], 0, m) == m;
    assert MergeTo(labels, [0, 0], 1, m) == m;
  }

  lemma LowMerged()
    ensures TwoRoads().Shape() && MergedFor(TwoRoads(), [RoadLabels()[0], map[]], 1) == RoadLabels()[1]
  {
    LowSeeded();
    LowMergedTo();
  }

  lemma LowLabel()
    ensures TwoRoads().Shape() && LabelFor(TwoRoads(), [RoadLabels()[0], map[]], 1) == RoadLabels()[1]
  {
    var labels: seq<Label>, m: Label := [RoadLabels()[0], map[]], RoadLabels()[1];
    LowMerged();
    assert PruneTo(labels, 1, m, 0) == m;
    assert !HasWitness(labels, m, 0, m[0].dist);
    assert PruneTo(labels, 1, m, 1) == m;
    assert PruneTo(labels, 1, m, 2) == m;
  }

  lemma RoadTable(above: seq<Label>, v: nat, f: Label)
    requires TwoRoads().Shape() && |above| == 2 && v < 2 && LabelFor(TwoRoads(), above, v) == f
    ensures BatchTable(TwoRoads(), above, AtLevel([1, 0], 1 - v)) == above[v := f]
  {
    assert AtLevel([1, 0], 1 - v) == {v};
  }

  lemma RoadHighLevel()
    ensures TwoRoads().Shape() && LabelsDownTo(TwoRoads(), 2, 1) == [RoadLabels()[0], map[]]
  {
    var none: seq<Label> := [map[], map[]];
    HighLabel();
    assert LabelsDownTo(TwoRoads(), 2, 2) == none;
    RoadTable(none, 0, RoadLabels()[0]);
  }

  /** These are the labels that the calculation arrives at, however its threads interleave. */
  lemma RoadLabelsFollow()
    ensures TwoRoads().Shape() && LabelsDownTo(TwoRoads(), 2, 0) == RoadLabels()
  {
    RoadHighLevel();
    LowLabel();
    RoadTable([RoadLabels()[0], map[]], 1, RoadLabels()[1]);
    assert [RoadLabels()[0], map[]][1 := RoadLabels()[1]] == RoadLabels();
  }

  // ---------- what goes wrong ----------

  lemma RoadHarm()
    ensures TwoRoads().Shape() && !SkipsHarmless(RoadGraph(), TwoRoads(), 1)
  {
    var g, h := RoadGraph(), TwoRoads();
    RoadShape();
    RoadDistance();
    SelfDist(g, 0);
    forall j: nat | h.Has(1, j) && h.First(1, j)
      ensures !ClimbsOver(g, h, 1, j, 0)
    {
      assert j == 0 || j == 1;
    }
    assert !KeptInstead(g, h, 1, 1);
  }

  lemma RoadQuery()
    ensures Dist0(RoadGraph(), 0, 1) == 1 && !QueryExact(RoadGraph(), 0, 1, RoadLabels()[0], RoadLabels()[1])
  {
    RoadDistance();
  }

  lemma RoadFirsts()
    ensures Net(ROAD, LISTS).Shape() && !FirstsShortest(RoadGraph(), Net(ROAD, LISTS))
  {
    RoadNet();
    RoadDistance();
    assert FirstListed(Net(ROAD, LISTS), 0, 0) && !ExactEdge(RoadGraph(), Edge(0, 1, 2));
  }

  /** The input meets every other condition, and yet the labels answer 2 where the distance is 1. */
  lemma LongerParallelEdgeMisleads()
    ensures GoodInput(Net(ROAD, LISTS)) && Net(ROAD, LISTS).Graph() == RoadGraph()
    ensures Climbs(RoadGraph(), TwoRoads()) && LabelsDownTo(TwoRoads(), 2, 0) == RoadLabels()
    ensures Dist0(RoadGraph(), 0, 1) == 1 && !QueryExact(RoadGraph(), 0, 1, RoadLabels()[0], RoadLabels()[1])
    ensures !SkipsHarmless(RoadGraph(), TwoRoads(), 1) && !FirstsShortest(RoadGraph(), Net(ROAD, LISTS))
  {
    RoadInput();
    RoadClimbs();
    RoadLabelsFollow();
    RoadQuery();
    RoadHarm();
    RoadFirsts();
  }

  lemma RoadGapless()
    ensures Gapless([1, 0], 2)
  {
    var lvl: seq<nat> := [1, 0];
    assert lvl[1] == 0 && lvl[0] == 1;
    assert Occurs(lvl, 0) && Occurs(lvl, 1);
  }

  method ContractRoad(edges: EdgeStore, grid: DynamicGrid, random: seq<nat>) returns (hierarchy: Hierarchy)
    requires edges.Valid() && edges.originals == ROAD && edges.Store() == ROAD
    requires grid.allEdgeIds == grid.currentEdgeIds == LISTS
    requires |random| == 2 && random[0] < 1 && random[1] < 1
    modifies edges, grid
    ensures hierarchy == TwoRoads()
  {
    RoadInput();
    var creator := new LabelCreator(edges, grid);
    creator.CalculateCH(random, RoadGraph());
    RoadContracted(creator.State(), creator.calcOrder, random);
    hierarchy := Hierarchy(edges.Store(), grid.allEdgeIds, creator.nodeLevel);
  }

  /** Contracting and labelling the two roads, with any numbers that can be drawn, ends in just these labels. */
  method MisleadingRun(random: seq<nat>) returns (hierarchy: Hierarchy, ghost labels: seq<Label>)
    requires |random| == 2 && random[0] < 1 && random[1] < 1
    ensures hierarchy == TwoRoads() && labels == RoadLabels()
    ensures !QueryExact(RoadGraph(), 0, 1, labels[0], labels[1])
  {
    LongerParallelEdgeMisleads();
    var edges := new EdgeStore(ROAD);
    var grid := new DynamicGrid(LISTS);
    hierarchy := ContractRoad(edges, grid, random);
    RoadGapless();
    var store := CalcLabels(hierarchy, 0, 2);
    labels := store.known;
  }
}
