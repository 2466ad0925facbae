/** The state of the contraction between levels, on values: what holds at every level, and how one level keeps it. */
module Stages {
  import opened IntArrays
  import opened Graphs
  import opened Contraction
  import opened Networks
  import opened WitnessSearch
  import opened EdgeStores
  import opened DynamicGrids
  import opened Shortcuts
  import opened CHDijkstras
  import opened HubLabels

  ghost predicate ExactEdge(g: Graph, e: Edge) { Reach(g, e.src, e.dst) && e.len == Dist(g, e.src, e.dst) }

  /**
   * Edge table with shortcut parts, current and all adjacency lists, which nodes are contracted and at which
   * level, the shortcuts each node already has, the cores of the levels done so far, and the list that was current
   * for each contracted node when it was contracted.
   */
  datatype Stage = Stage(store: seq<Edge>, parts: seq<nat>, originals: nat, current: seq<seq<nat>>, all: seq<seq<nat>>,
                         gone: seq<bool>, lvl: seq<nat>, already: seq<set<nat>>, ghost cores: seq<Graph>,
                         ghost taken: seq<seq<nat>>) {

    ghost function Now(): Net { Net(store, current) }

    /** All lists have one entry for every node and hold edges that start there. */
    ghost predicate Lists() {
      && Now().Shape() && Net(store, all).Shape()
      && |current| == |all| == |gone| == |lvl| == |already| == |taken| <= MAX_VALUE
    }

    ghost function Core(): Graph
      requires Lists()
    {
      Now().Graph()
    }

    ghost predicate Alive(u: nat) { u < |gone| && !gone[u] }

    /** The current graph has the shape a contraction needs, and touches no contracted node. */
    ghost predicate CoreOk() {
      && Lists() && Symmetric(Core()) && Positive(Core()) && NoLoops(Core()) && Balanced(Now())
      && (forall e :: e in Core() ==> Alive(e.src) && Alive(e.dst))
    }

    /** Between survivors the distances are those of g. */
    ghost predicate Exact(g: Graph)
      requires Lists()
    {
      forall s: nat, t: nat {:trigger SameDist(g, Core(), s, t)} :: Alive(s) && Alive(t) ==> SameDist(g, Core(), s, t)
    }

    /** Shortcuts are composed of older edges and as long as the distance between their ends. */
    ghost predicate ShortcutsOk(g: Graph) {
      && Composed(store, parts, originals)
      && (forall id: nat {:trigger ExactEdge(g, store[id])} :: originals <= id < |store| ==> ExactEdge(g, store[id]))
    }

    /** The level of a contracted node; everything else is at the level now being worked on, or above. */
    ghost function Eff(): (l: seq<nat>)
      requires |lvl| == |gone|
      ensures |l| == |gone|
    {
      seq(|gone|, u requires 0 <= u < |gone| => if gone[u] then lvl[u] else |cores|)
    }

    /** The core of level i: a past one, or the current graph. */
    ghost function CoreOf(i: nat): Graph
      requires Lists() && i <= |cores|
    {
      if i < |cores| then cores[i] else Core()
    }

    /** Every past core has the original distances between the nodes of its level and above. */
    ghost predicate History(g: Graph)
      requires Lists()
    {
      && (forall u: nat :: u < |gone| && gone[u] ==> lvl[u] < |cores|)
      && (forall i: nat {:trigger CoreAt(g, cores[i], Eff(), i)} :: i < |cores| ==> CoreAt(g, cores[i], Eff(), i))
    }

    /** All edges ever at u: those to lower nodes, and exactly the ones of the core of u's level. */
    ghost predicate AllAt(u: nat)
      requires Lists() && u < |gone| && Eff()[u] <= |cores|
    {
      && (forall id :: id in all[u] ==> id < |store|)
      && (forall id :: id in all[u] ==> Eff()[store[id].dst] < Eff()[u] || store[id] in CoreOf(Eff()[u]))
      && (forall e :: e in CoreOf(Eff()[u]) && e.src == u ==> exists id :: id in all[u] && store[id] == e)
    }

    /** The current list of u, or the one it had when it was contracted. */
    ghost function LastList(u: nat): seq<nat>
      requires Lists() && u < |gone|
    {
      if gone[u] then taken[u] else current[u]
    }

    /**
     * That list holds the ids of all edges ever at u that do not lead to a lower node, each as often as it was added.
     */
    ghost predicate LastAt(u: nat)
      requires Lists() && u < |gone|
    {
      && (forall id :: id in LastList(u) ==> id < |store|)
      && (forall id: nat {:trigger Times(LastList(u), id)} :: id < |store| ==>
            Times(LastList(u), id) == if Eff()[store[id].dst] >= Eff()[u] then Times(all[u], id) else 0)
    }

    ghost predicate Inv(g: Graph) {
      && CoreOk() && Exact(g) && ShortcutsOk(g) && AlreadyOk(g) && History(g)
      && (forall u: nat {:trigger AllAt(u)} :: u < |gone| ==> AllAt(u))
      && (forall u: nat {:trigger LastAt(u)} :: u < |gone| ==> LastAt(u))
    }

    /** A pair of survivors that already has a shortcut has one both ways, and both are still there. */
    ghost predicate AlreadyOk(g: Graph)
      requires Lists()
    {
      forall x: nat, y: nat {:trigger y in already[x]} :: x < |already| && y in already[x] ==>
        && y < |already| && x in already[y]
        && (Alive(x) && Alive(y) ==> Reach(g, x, y) && Edge(x, y, Dist(g, x, y)) in Core())
    }
  }

  // ---------- one level: the shortcuts are merged into the grid ----------

  /** r is a shortcut over some node of the level, found in the core of a. */
  ghost predicate FoundIn(a: Stage, level: set<nat>, r: Shortcut)
    requires a.Lists()
  {
    exists v: nat :: v in level && Justified(a.Now(), v, r)
  }

  /** What a shortcut found in the core says in terms of the original graph. */
  lemma FoundFacts(g: Graph, a: Stage, level: set<nat>, r: Shortcut)
    requires a.CoreOk() && a.Exact(g) && Independent(a.Core(), level) && FoundIn(a, level, r)
    ensures r.first < |a.store| && r.second < |a.store|
    ensures a.store[r.first].src == r.start && a.store[r.first].dst == a.store[r.second].src
    ensures a.store[r.second].dst == r.dest
    ensures a.store[r.first].len + a.store[r.second].len == r.length
    ensures a.Alive(r.start) && a.Alive(r.dest) && r.start !in level && r.dest !in level && r.start != r.dest
    ensures Reach(g, r.start, r.dest) && r.length == Dist(g, r.start, r.dest)
  {
    var v: nat :| v in level && Justified(a.Now(), v, r);
    var e, f := a.store[r.first], a.store[r.second];
    assert e in a.Core() && f in a.Core();
    assert SameDist(g, a.Core(), r.start, r.dest);
  }

  /** Appending an edge to the store and to the list of its start adds just this edge to the graph. */
  lemma NetAppend(net: Net, e: Edge)
    requires net.Shape() && e.src < |net.adj| && e.dst < |net.adj|
    ensures var more := Net(net.store + [e], net.adj[e.src := net.adj[e.src] + [|net.store|]]);
            more.Shape() && more.Graph() == net.Graph() + {e}
  {
    var more := Net(net.store + [e], net.adj[e.src := net.adj[e.src] + [|net.store|]]);
    forall u: nat, i: nat | more.Has(u, i)
      ensures more.adj[u][i] < |more.store| && more.store[more.adj[u][i]].src == u
    {
      assert net.Has(u, i) || (u == e.src && i == |net.adj[u]|);
    }
    forall f | f in more.Graph()
      ensures f in net.Graph() + {e}
    {
      var i := more.Position(f);
      if net.Has(f.src, i) {
        net.GraphHas(f.src, i);
      }
    }
    forall f | f in net.Graph() + {e}
      ensures f in more.Graph()
    {
      if f == e {
        more.GraphHas(e.src, |net.adj[e.src]|);
      } else {
        var i := net.Position(f);
        more.GraphHas(f.src, i);
      }
    }
  }

  /** A new edge joins two survivors at their distance. */
  ghost predicate NewEdge(g: Graph, a: Stage, level: set<nat>, e: Edge)
  {
    a.Alive(e.src) && a.Alive(e.dst) && e.src !in level && e.dst !in level && e.src != e.dst && ExactEdge(g, e)
  }

  /** b has the nodes of a, and its graph is that of a with new edges. */
  ghost predicate GraphGrows(g: Graph, a: Stage, level: set<nat>, b: Stage)
  {
    && a.Lists() && b.Lists() && b.gone == a.gone && b.lvl == a.lvl && b.cores == a.cores && b.originals == a.originals
    && b.taken == a.taken
    && a.store <= b.store && b.ShortcutsOk(g) && a.Core() <= b.Core()
    && (forall e {:trigger NewEdge(g, a, level, e)} :: e in b.Core() && e !in a.Core() ==> NewEdge(g, a, level, e))
  }

  /** The pair (x, y) has got its shortcut in b. */
  ghost predicate Paired(g: Graph, a: Stage, level: set<nat>, b: Stage, x: nat, y: nat)
    requires b.Lists()
  {
    && a.Alive(x) && a.Alive(y) && x !in level && y !in level
    && Reach(g, x, y) && Edge(x, y, Dist(g, x, y)) in b.Core()
  }

  /** The pairs with a shortcut are those of a and newly paired ones. */
  ghost predicate PairsGrow(g: Graph, a: Stage, level: set<nat>, b: Stage)
    requires a.Lists() && b.Lists() && |b.gone| == |a.gone|
  {
    forall x: nat {:trigger b.already[x]} :: x < |a.already| ==>
      && a.already[x] <= b.already[x]
      && (forall y :: y in b.already[x] && y !in a.already[x] ==> Paired(g, a, level, b, x, y))
  }

  /** Counts grow by one exactly for the newly paired. */
  ghost predicate CountsGrow(a: Stage, b: Stage)
    requires a.Lists() && b.Lists() && |b.gone| == |a.gone|
  {
    forall x: nat, y: nat {:trigger CountTo(b.store, b.current[x], y)} :: x < |a.gone| && y < |a.gone| ==>
      CountTo(b.store, b.current[x], y) ==
      CountTo(a.store, a.current[x], y) + if y in b.already[x] && y !in a.already[x] then 1 else 0
  }

  /** The list after is the one before with ids from n on added behind. */
  ghost predicate Extends(before: seq<nat>, n: nat, after: seq<nat>)
  {
    before <= after && forall k: nat {:trigger after[k]} :: |before| <= k < |after| ==> after[k] >= n
  }

  /** Both lists of a node get the ids of the same new edges; contracted nodes get none. */
  ghost predicate ListGrows(a: Stage, level: set<nat>, b: Stage, u: nat)
    requires a.Lists() && b.Lists() && |b.gone| == |a.gone| && u < |a.gone|
  {
    && Extends(a.all[u], |a.store|, b.all[u]) && a.current[u] <= b.current[u]
    && b.all[u][|a.all[u]|..] == b.current[u][|a.current[u]|..]
    && (u in level || a.gone[u] ==> b.all[u] == a.all[u])
  }

  ghost predicate ListsGrow(a: Stage, level: set<nat>, b: Stage)
    requires a.Lists() && b.Lists() && |b.gone| == |a.gone|
  {
    forall u: nat {:trigger ListGrows(a, level, b, u)} :: u < |a.gone| ==> ListGrows(a, level, b, u)
  }

  /** Every new edge has its pair registered. */
  ghost predicate EdgesPaired(a: Stage, b: Stage)
    requires a.Lists() && b.Lists()
  {
    forall e :: e in b.Core() && e !in a.Core() ==> e.src < |b.already| && e.dst in b.already[e.src]
  }

  /** The shortcut r is in the grid: its edge is there, and its pair is registered. */
  ghost predicate Placed(b: Stage, r: Shortcut)
    requires b.Lists()
  {
    Edge(r.start, r.dest, r.length) in b.Core() && r.start < |b.already| && r.dest in b.already[r.start]
  }

  /** New pairs come from the merged shortcuts. */
  ghost predicate PairsFrom(a: Stage, b: Stage, rs: seq<Shortcut>)
    requires a.Lists() && b.Lists() && |b.gone| == |a.gone|
  {
    forall x: nat, y: nat {:trigger y in b.already[x]} :: x < |a.already| && y in b.already[x] && y !in a.already[x] ==>
      exists j :: 0 <= j < |rs| && rs[j].start == x && rs[j].dest == y
  }

  /** The first i of the shortcuts rs have been merged into a, which gave b. */
  ghost predicate Merging(g: Graph, a: Stage, level: set<nat>, b: Stage, rs: seq<Shortcut>, i: nat)
  {
    && GraphGrows(g, a, level, b) && PairsGrow(g, a, level, b) && CountsGrow(a, b) && ListsGrow(a, level, b)
    && i <= |rs| && (forall j {:trigger Placed(b, rs[j])} :: 0 <= j < i ==> Placed(b, rs[j])) && PairsFrom(a, b, rs)
    && EdgesPaired(a, b)
  }

  /** The stage after adding the shortcut r. */
  ghost function Add(b: Stage, r: Shortcut): Stage
    requires b.Lists() && r.start < |b.gone|
  {
    b.(store := b.store + [Edge(r.start, r.dest, r.length)], parts := b.parts + [r.second, r.first],
       current := b.current[r.start := b.current[r.start] + [|b.store|]],
       all := b.all[r.start := b.all[r.start] + [|b.store|]],
       already := b.already[r.start := b.already[r.start] + {r.dest}])
  }

  lemma MergeStart(g: Graph, a: Stage, level: set<nat>, rs: seq<Shortcut>)
    requires a.Lists() && a.ShortcutsOk(g)
    ensures Merging(g, a, level, a, rs, 0)
  {
  }

  lemma AddGraph(g: Graph, a: Stage, level: set<nat>, b: Stage, r: Shortcut)
    requires GraphGrows(g, a, level, b) && a.CoreOk() && a.Exact(g) && Independent(a.Core(), level)
    requires FoundIn(a, level, r)
    ensures r.start < |b.gone| && GraphGrows(g, a, level, Add(b, r))
    ensures Add(b, r).Core() == b.Core() + {Edge(r.start, r.dest, r.length)}
  {
    FoundFacts(g, a, level, r);
    var e, c := Edge(r.start, r.dest, r.length), Add(b, r);
    NetAppend(b.Now(), e);
    NetAppend(Net(b.store, b.all), e);
    AppendComposed(b.store, b.parts, b.originals, e, r.second, r.first);
    forall id: nat | c.originals <= id < |c.store|
      ensures ExactEdge(g, c.store[id])
    {
      assert id < |b.store| ==> ExactEdge(g, b.store[id]);
    }
    forall f | f in c.Core() && f !in a.Core()
      ensures NewEdge(g, a, level, f)
    {
      assert f in b.Core() ==> NewEdge(g, a, level, f);
    }
  }

  lemma AddPairs(g: Graph, a: Stage, level: set<nat>, b: Stage, r: Shortcut)
    requires a.Lists() && b.Lists() && r.start < |b.gone| && Add(b, r).Lists() && |b.gone| == |a.gone|
    requires PairsGrow(g, a, level, b)
    requires Add(b, r).Core() == b.Core() + {Edge(r.start, r.dest, r.length)}
    requires NewEdge(g, a, level, Edge(r.start, r.dest, r.length))
    ensures PairsGrow(g, a, level, Add(b, r))
  {
    var c := Add(b, r);
    forall x: nat | x < |a.already|
      ensures a.already[x] <= c.already[x]
      ensures forall y :: y in c.already[x] && y !in a.already[x] ==> Paired(g, a, level, c, x, y)
    {
      assert a.already[x] <= b.already[x];
      forall y | y in c.already[x] && y !in a.already[x]
        ensures Paired(g, a, level, c, x, y)
      {
        assert y in b.already[x] ==> Paired(g, a, level, b, x, y);
      }
    }
  }

  lemma AddCounts(a: Stage, b: Stage, r: Shortcut)
    requires a.Lists() && b.Lists() && r.start < |b.gone| && Add(b, r).Lists() && |b.gone| == |a.gone|
    requires CountsGrow(a, b)
    requires r.dest !in b.already[r.start] && a.already[r.start] <= b.already[r.start]
    ensures CountsGrow(a, Add(b, r))
  {
    var e, c := Edge(r.start, r.dest, r.length), Add(b, r);
    forall x: nat, y: nat | x < |a.gone| && y < |a.gone|
      ensures CountTo(c.store, c.current[x], y) ==
              CountTo(a.store, a.current[x], y) + if y in c.already[x] && y !in a.already[x] then 1 else 0
    {
      ShapeLists(b.Now(), x);
      CountGrownStore(b.store, [e], b.current[x], y);
      assert CountTo(b.store, b.current[x], y) ==
             CountTo(a.store, a.current[x], y) + if y in b.already[x] && y !in a.already[x] then 1 else 0;
      if x == r.start {
        assert c.current[x][..|c.current[x]| - 1] == b.current[x];
      }
    }
  }

  lemma AddLists(a: Stage, level: set<nat>, b: Stage, r: Shortcut)
    requires a.Lists() && b.Lists() && r.start < |b.gone| && Add(b, r).Lists() && |b.gone| == |a.gone|
    requires ListsGrow(a, level, b) && |a.store| <= |b.store|
    requires r.start !in level && !a.gone[r.start]
    ensures ListsGrow(a, level, Add(b, r))
  {
    var c := Add(b, r);
    forall u: nat | u < |a.gone|
      ensures ListGrows(a, level, c, u)
    {
      assert ListGrows(a, level, b, u);
      if u == r.start {
        assert c.all[u][|a.all[u]|..] == b.all[u][|a.all[u]|..] + [|b.store|];
        assert c.current[u][|a.current[u]|..] == b.current[u][|a.current[u]|..] + [|b.store|];
      }
    }
  }

  lemma AddPlaced(a: Stage, b: Stage, rs: seq<Shortcut>, i: nat)
    requires a.Lists() && b.Lists() && |b.gone| == |a.gone| && i < |rs| && PairsFrom(a, b, rs) && EdgesPaired(a, b)
    requires forall j :: 0 <= j < i ==> Placed(b, rs[j])
    requires rs[i].start < |b.gone| && Add(b, rs[i]).Lists()
    requires Add(b, rs[i]).Core() == b.Core() + {Edge(rs[i].start, rs[i].dest, rs[i].length)}
    ensures (forall j :: 0 <= j < i + 1 ==> Placed(Add(b, rs[i]), rs[j])) && PairsFrom(a, Add(b, rs[i]), rs)
    ensures EdgesPaired(a, Add(b, rs[i]))
  {
    forall j | 0 <= j < i + 1
      ensures Placed(Add(b, rs[i]), rs[j])
    {
      assert j < i ==> Placed(b, rs[j]);
    }
  }

  /** The next shortcut is new: it is added. */
  lemma MergeAdd(g: Graph, a: Stage, level: set<nat>, b: Stage, rs: seq<Shortcut>, i: nat)
    requires a.CoreOk() && a.Exact(g) && Independent(a.Core(), level) && Merging(g, a, level, b, rs, i)
    requires i < |rs| && FoundIn(a, level, rs[i]) && rs[i].start < |b.already| && rs[i].dest !in b.already[rs[i].start]
    ensures Merging(g, a, level, Add(b, rs[i]), rs, i + 1)
  {
    var r, c := rs[i], Add(b, rs[i]);
    FoundFacts(g, a, level, r);
    AddGraph(g, a, level, b, r);
    AddPairs(g, a, level, b, r);
    AddCounts(a, b, r);
    AddLists(a, level, b, r);
    AddPlaced(a, b, rs, i);
  }

  /** The pair of the next shortcut is registered already: the earlier edge is there and as long. */
  lemma MergeSkip(g: Graph, a: Stage, level: set<nat>, b: Stage, rs: seq<Shortcut>, i: nat)
    requires a.CoreOk() && a.Exact(g) && a.AlreadyOk(g) && Independent(a.Core(), level)
    requires Merging(g, a, level, b, rs, i)
    requires i < |rs| && FoundIn(a, level, rs[i]) && rs[i].start < |b.already| && rs[i].dest in b.already[rs[i].start]
    ensures Merging(g, a, level, b, rs, i + 1)
  {
    var r := rs[i];
    FoundFacts(g, a, level, r);
    if r.dest in a.already[r.start] {
      assert Edge(r.start, r.dest, r.length) in a.Core();
    } else {
      assert Paired(g, a, level, b, r.start, r.dest);
    }
    assert Placed(b, r);
  }

  // ---------- one level: what the merge leads to ----------

  /** rs are shortcuts over the nodes of the level, and all that there are. */
  ghost predicate LevelShortcuts(a: Stage, level: set<nat>, rs: seq<Shortcut>)
    requires a.Lists()
  {
    && (forall j {:trigger FoundIn(a, level, rs[j])} :: 0 <= j < |rs| ==> FoundIn(a, level, rs[j]))
    && (forall v: nat {:trigger CoversNode(a.Now(), v, rs)} :: v in level ==> CoversNode(a.Now(), v, rs))
  }

  /** In a symmetric core, whenever x-y is among the shortcuts, so is y-x. */
  lemma ShortcutsFlip(a: Stage, level: set<nat>, rs: seq<Shortcut>, j: nat) returns (k: nat)
    requires a.CoreOk() && LevelShortcuts(a, level, rs) && j < |rs|
    ensures k < |rs| && rs[k].start == rs[j].dest && rs[k].dest == rs[j].start
  {
    assert FoundIn(a, level, rs[j]);
    var v: nat :| v in level && Justified(a.Now(), v, rs[j]);
    var e, f := a.store[rs[j].first], a.store[rs[j].second];
    TightPairFlips(a.Core(), e, f);
    assert CoversNode(a.Now(), v, rs);
    assert HasShortcut(rs, Flip(f).src, Flip(e).dst, Flip(f).len + Flip(e).len);
    k :| 0 <= k < |rs| && rs[k].start == f.dst && rs[k].dest == e.src;
  }

  ghost predicate PairsBothWays(b: Stage)
  {
    forall x: nat, y: nat {:trigger y in b.already[x]} :: x < |b.already| && y in b.already[x] ==>
      y < |b.already| && x in b.already[y]
  }

  lemma MergedPairs(g: Graph, a: Stage, level: set<nat>, b: Stage, rs: seq<Shortcut>)
    requires a.CoreOk() && a.AlreadyOk(g) && LevelShortcuts(a, level, rs) && Merging(g, a, level, b, rs, |rs|)
    ensures PairsBothWays(b)
  {
    forall x: nat, y: nat | x < |b.already| && y in b.already[x]
      ensures y < |b.already| && x in b.already[y]
    {
      if y !in a.already[x] {
        var j :| 0 <= j < |rs| && rs[j].start == x && rs[j].dest == y;
        var k := ShortcutsFlip(a, level, rs, j);
        assert Placed(b, rs[k]);
      } else {
        assert a.already[y] <= b.already[y];
      }
    }
  }

  /** A registered pair of survivors has its edge, with the distance as length. */
  lemma PairHasEdge(g: Graph, a: Stage, level: set<nat>, b: Stage, rs: seq<Shortcut>, x: nat, y: nat)
    requires a.CoreOk() && a.AlreadyOk(g) && Merging(g, a, level, b, rs, |rs|)
    requires x < |b.already| && y in b.already[x] && a.Alive(x) && a.Alive(y)
    ensures Reach(g, x, y) && Edge(x, y, Dist(g, x, y)) in b.Core()
  {
    if y !in a.already[x] {
      assert b.already[x] == b.already[x];
      assert Paired(g, a, level, b, x, y);
    }
  }

  lemma MergedSymmetric(g: Graph, a: Stage, level: set<nat>, b: Stage, rs: seq<Shortcut>)
    requires Symmetric(g) && a.CoreOk() && a.AlreadyOk(g) && Merging(g, a, level, b, rs, |rs|) && PairsBothWays(b)
    ensures Symmetric(b.Core())
  {
    forall e | e in b.Core()
      ensures Flip(e) in b.Core()
    {
      if e in a.Core() {
        assert Flip(e) in a.Core();
      } else {
        assert NewEdge(g, a, level, e);
        assert e.src in b.already[e.dst];
        PairHasEdge(g, a, level, b, rs, e.dst, e.src);
        DistSymmetric(g, e.src, e.dst);
      }
    }
  }

  lemma MergedBalanced(g: Graph, a: Stage, level: set<nat>, b: Stage, rs: seq<Shortcut>)
    requires a.CoreOk() && a.AlreadyOk(g) && Merging(g, a, level, b, rs, |rs|) && PairsBothWays(b)
    ensures Balanced(b.Now())
  {
    forall x: nat, y: nat | x < |b.current| && y < |b.current|
      ensures CountTo(b.store, b.current[x], y) == CountTo(b.store, b.current[y], x)
    {
      assert CountTo(a.store, a.current[x], y) == CountTo(a.store, a.current[y], x);
      assert y in b.already[x] <==> x in b.already[y];
      assert y in a.already[x] <==> x in a.already[y];
    }
  }

  /** The merged grid is again symmetric, positive, free of loops and balanced. */
  lemma MergedOk(g: Graph, a: Stage, level: set<nat>, b: Stage, rs: seq<Shortcut>)
    requires Symmetric(g) && Positive(g) && a.CoreOk() && a.AlreadyOk(g)
    requires LevelShortcuts(a, level, rs) && Merging(g, a, level, b, rs, |rs|)
    ensures b.CoreOk()
  {
    MergedPairs(g, a, level, b, rs);
    MergedSymmetric(g, a, level, b, rs);
    MergedBalanced(g, a, level, b, rs);
    forall e | e in b.Core()
      ensures e.len > 0 && e.src != e.dst && b.Alive(e.src) && b.Alive(e.dst)
    {
      if e !in a.Core() {
        assert NewEdge(g, a, level, e);
        DistPositive(g, e.src, e.dst);
      }
    }
  }

  // ---------- one level: its nodes leave the grid ----------

  /** The lists c are b without the nodes in done. */
  ghost predicate Cut(store: seq<Edge>, b: seq<seq<nat>>, c: seq<seq<nat>>, done: set<nat>)
    requires Net(store, b).Shape()
  {
    && |c| == |b| && Net(store, c).Shape()
    && (forall u: nat {:trigger c[u]} :: u < |b| && u in done ==> c[u] == [])
    && (forall u: nat {:trigger c[u]} :: u < |b| && u !in done ==> Reduced(store, b[u], c[u], done))
  }

  lemma CutStart(store: seq<Edge>, b: seq<seq<nat>>)
    requires Net(store, b).Shape()
    ensures Cut(store, b, b, {})
  {
    forall u: nat | u < |b|
      ensures Reduced(store, b[u], b[u], {})
    {
      ShapeLists(Net(store, b), u);
    }
  }

  lemma ReducedMore(store: seq<Edge>, a: seq<nat>, b: seq<nat>, c: seq<nat>, done: set<nat>, v: nat)
    requires Reduced(store, a, b, done) && Reduced(store, b, c, {v})
    ensures Reduced(store, a, c, done + {v})
  {
    forall id: nat | id < |store|
      ensures Times(c, id) == if store[id].dst in done + {v} then 0 else Times(a, id)
    {
      assert Times(b, id) == if store[id].dst in done then 0 else Times(a, id);
    }
  }

  lemma EmptyList(s: seq<nat>)
    ensures s == [] || s[0] in s
  {
  }

  lemma ReducedNone(store: seq<Edge>, b: seq<nat>, c: seq<nat>, done: set<nat>)
    requires b == [] && Reduced(store, b, c, done)
    ensures c == []
  {
    ReducedIn(store, b, c, done);
    EmptyList(c);
  }

  lemma CutMore(store: seq<Edge>, b: seq<seq<nat>>, c: seq<seq<nat>>, done: set<nat>, v: nat, d: seq<seq<nat>>)
    requires Net(store, b).Shape() && Cut(store, b, c, done) && Without(store, c, d, v)
    ensures Cut(store, b, d, done + {v})
  {
    forall u: nat | u < |b| && u in done + {v}
      ensures d[u] == []
    {
      if u != v {
        assert c[u] == [];
        ReducedNone(store, c[u], d[u], {v});
      }
    }
    forall u: nat | u < |b| && u !in done + {v}
      ensures Reduced(store, b[u], d[u], done + {v})
    {
      ReducedMore(store, b[u], c[u], d[u], done, v);
    }
  }

  /** Cutting nodes out of the lists removes exactly their edges from the graph. */
  lemma CutGraph(store: seq<Edge>, b: seq<seq<nat>>, c: seq<seq<nat>>, done: set<nat>)
    requires Net(store, b).Shape() && Cut(store, b, c, done)
    ensures forall e :: e in Net(store, c).Graph() <==> e in Net(store, b).Graph() && e.src !in done && e.dst !in done
  {
    forall e | e in Net(store, c).Graph()
      ensures e in Net(store, b).Graph() && e.src !in done && e.dst !in done
    {
      var i := Net(store, c).Position(e);
      assert c[e.src][i] in c[e.src];
      ReducedIn(store, b[e.src], c[e.src], done);
      var j: nat :| j < |b[e.src]| && b[e.src][j] == c[e.src][i];
      Net(store, b).GraphHas(e.src, j);
    }
    forall e | e in Net(store, b).Graph() && e.src !in done && e.dst !in done
      ensures e in Net(store, c).Graph()
    {
      var i := Net(store, b).Position(e);
      assert b[e.src][i] in b[e.src];
      ReducedIn(store, b[e.src], c[e.src], done);
      assert b[e.src][i] in c[e.src];
      var j: nat :| j < |c[e.src]| && c[e.src][j] == b[e.src][i];
      Net(store, c).GraphHas(e.src, j);
    }
  }

  /** No loops stay no loops while nodes are cut out. */
  lemma CutNoLoops(store: seq<Edge>, b: seq<seq<nat>>, c: seq<seq<nat>>, done: set<nat>)
    requires Net(store, b).Shape() && Cut(store, b, c, done) && NoLoops(Net(store, b).Graph())
    ensures NoLoops(Net(store, c).Graph())
  {
    CutGraph(store, b, c, done);
  }

  // ---------- one level: the next stage ----------

  /** The stage after a level: b with the level's nodes cut out, marked, and their core remembered. */
  ghost function Next(a: Stage, level: set<nat>, b: Stage, cur: seq<seq<nat>>): (d: Stage)
    requires a.Lists() && |b.gone| == |a.gone|
  {
    var n := |a.gone|;
    b.(current := cur,
       gone := seq(n, u requires 0 <= u < n => a.gone[u] || u in level),
       lvl := seq(n, u requires 0 <= u < n => if u in level then |a.cores| else a.lvl[u]),
       cores := a.cores + [a.Core()],
       taken := seq(n, u requires 0 <= u < n => if u in level then a.current[u] else a.taken[u]))
  }

  /** Everything known when a level has been worked off. */
  ghost predicate LevelWorked(g: Graph, a: Stage, level: set<nat>, b: Stage, rs: seq<Shortcut>, cur: seq<seq<nat>>)
  {
    && Symmetric(g) && Positive(g) && a.Inv(g)
    && (forall v: nat :: v in level ==> a.Alive(v)) && Independent(a.Core(), level)
    && LevelShortcuts(a, level, rs) && Merging(g, a, level, b, rs, |rs|)
    && Cut(b.store, b.current, cur, level) && Balanced(Net(b.store, cur))
  }

  lemma NextCore(g: Graph, a: Stage, level: set<nat>, b: Stage, rs: seq<Shortcut>, cur: seq<seq<nat>>)
    requires LevelWorked(g, a, level, b, rs, cur)
    ensures b.CoreOk() && Next(a, level, b, cur).CoreOk()
    ensures forall e :: e in Next(a, level, b, cur).Core() <==> e in b.Core() && e.src !in level && e.dst !in level
  {
    MergedOk(g, a, level, b, rs);
    CutGraph(b.store, b.current, cur, level);
    var d := Next(a, level, b, cur);
    forall e | e in d.Core()
      ensures Flip(e) in d.Core() && e.len > 0 && e.src != e.dst && d.Alive(e.src) && d.Alive(e.dst)
    {
      assert e in b.Core() && Flip(e) in b.Core();
    }
  }

  /** No edge of the merged core is shorter than the distance in the core before. */
  lemma MergedNoShorter(g: Graph, a: Stage, level: set<nat>, b: Stage, e: Edge)
    requires a.CoreOk() && a.Exact(g) && GraphGrows(g, a, level, b) && e in b.Core()
    ensures Reach(a.Core(), e.src, e.dst) && Dist(a.Core(), e.src, e.dst) <= e.len
  {
    if e in a.Core() {
      EdgeDist(a.Core(), e);
    } else {
      assert NewEdge(g, a, level, e);
      assert SameDist(g, a.Core(), e.src, e.dst);
    }
  }

  /** Every shortest way over a node of the level has its shortcut, and that is in the merged core. */
  lemma TightPairPlaced(a: Stage, level: set<nat>, b: Stage, rs: seq<Shortcut>, x: Edge, y: Edge) returns (k: nat)
    requires a.Lists() && b.Lists() && LevelShortcuts(a, level, rs)
    requires (forall j {:trigger Placed(b, rs[j])} :: 0 <= j < |rs| ==> Placed(b, rs[j]))
    requires TightPair(a.Core(), x, y) && x.dst in level
    ensures k < |rs| && FoundIn(a, level, rs[k]) && rs[k].start == x.src && rs[k].dest == y.dst
    ensures Edge(x.src, y.dst, x.len + y.len) in b.Core()
  {
    assert CoversNode(a.Now(), x.dst, rs);
    assert HasShortcut(rs, x.src, y.dst, x.len + y.len);
    k :| 0 <= k < |rs| && rs[k].start == x.src && rs[k].dest == y.dst && rs[k].length == x.len + y.len;
    assert Placed(b, rs[k]) && FoundIn(a, level, rs[k]);
  }

  /** The level's contraction is one in the sense of the theory. */
  lemma NextContracts(g: Graph, a: Stage, level: set<nat>, b: Stage, rs: seq<Shortcut>, cur: seq<seq<nat>>)
    requires LevelWorked(g, a, level, b, rs, cur)
    ensures Next(a, level, b, cur).Lists() && Contracts(a.Core(), level, Next(a, level, b, cur).Core())
  {
    NextCore(g, a, level, b, rs, cur);
    var d := Next(a, level, b, cur);
    forall e | e in d.Core()
      ensures Realises(a.Core(), level, e)
    {
      MergedNoShorter(g, a, level, b, e);
    }
    forall x, y | TightPair(a.Core(), x, y) && x.dst in level
      ensures Edge(x.src, y.dst, x.len + y.len) in d.Core()
    {
      var k := TightPairPlaced(a, level, b, rs, x, y);
      FoundFacts(g, a, level, rs[k]);
    }
  }

  lemma NextExact(g: Graph, a: Stage, level: set<nat>, b: Stage, rs: seq<Shortcut>, cur: seq<seq<nat>>)
    requires LevelWorked(g, a, level, b, rs, cur)
    ensures Next(a, level, b, cur).Lists() && Next(a, level, b, cur).Exact(g)
  {
    NextContracts(g, a, level, b, rs, cur);
    var d := Next(a, level, b, cur);
    ContractionKeepsDistances(a.Core(), level, d.Core());
    forall s: nat, t: nat | d.Alive(s) && d.Alive(t)
      ensures SameDist(g, d.Core(), s, t)
    {
      assert SameDist(g, a.Core(), s, t);
      assert SameDist(a.Core(), d.Core(), s, t);
    }
  }

  lemma NextAlready(g: Graph, a: Stage, level: set<nat>, b: Stage, rs: seq<Shortcut>, cur: seq<seq<nat>>)
    requires LevelWorked(g, a, level, b, rs, cur)
    ensures Next(a, level, b, cur).Lists() && Next(a, level, b, cur).AlreadyOk(g)
  {
    NextCore(g, a, level, b, rs, cur);
    MergedPairs(g, a, level, b, rs);
    var d := Next(a, level, b, cur);
    forall x: nat, y: nat | x < |d.already| && y in d.already[x]
      ensures y < |d.already| && x in d.already[y]
      ensures d.Alive(x) && d.Alive(y) ==> Reach(g, x, y) && Edge(x, y, Dist(g, x, y)) in d.Core()
    {
      assert y in b.already[x];
      if d.Alive(x) && d.Alive(y) {
        PairHasEdge(g, a, level, b, rs, x, y);
      }
    }
  }

  /** Levels of nodes that are not contracted yet only move up. */
  lemma NextEff(a: Stage, level: set<nat>, b: Stage, cur: seq<seq<nat>>)
    requires a.Lists() && |b.gone| == |a.gone| && (forall v: nat :: v in level ==> a.Alive(v))
    ensures var d := Next(a, level, b, cur);
            && |d.lvl| == |d.gone| == |a.gone|
            && (forall u: nat {:trigger d.Eff()[u]} :: u < |a.gone| ==>
                  d.Eff()[u] == if a.gone[u] then a.lvl[u] else if u in level then |a.cores| else |a.cores| + 1)
  {
  }

  /** The core just contracted belongs to the level of the contracted nodes. */
  lemma NewCoreAt(g: Graph, a: Stage, level: set<nat>, b: Stage, cur: seq<seq<nat>>)
    requires a.Inv(g) && |b.gone| == |a.gone| && (forall v: nat :: v in level ==> a.Alive(v))
    requires Independent(a.Core(), level)
    ensures |Next(a, level, b, cur).lvl| == |Next(a, level, b, cur).gone|
    ensures CoreAt(g, a.Core(), Next(a, level, b, cur).Eff(), |a.cores|)
  {
    NextEff(a, level, b, cur);
    var eff := Next(a, level, b, cur).Eff();
    forall e | e in a.Core()
      ensures e.src < |eff| && e.dst < |eff| && eff[e.src] >= |a.cores| && eff[e.dst] >= |a.cores|
      ensures eff[e.src] > |a.cores| || eff[e.dst] > |a.cores|
    {
      assert a.Alive(e.src) && a.Alive(e.dst);
    }
    forall s: nat, t: nat | s < |eff| && t < |eff| && eff[s] >= |a.cores| && eff[t] >= |a.cores|
      ensures SameDist(g, a.Core(), s, t)
    {
      assert a.Alive(s) && a.Alive(t);
    }
  }

  lemma NextHistory(g: Graph, a: Stage, level: set<nat>, b: Stage, rs: seq<Shortcut>, cur: seq<seq<nat>>)
    requires LevelWorked(g, a, level, b, rs, cur)
    ensures Next(a, level, b, cur).Lists() && Next(a, level, b, cur).History(g)
  {
    NextCore(g, a, level, b, rs, cur);
    NextEff(a, level, b, cur);
    var d := Next(a, level, b, cur);
    forall i: nat | i < |d.cores|
      ensures CoreAt(g, d.cores[i], d.Eff(), i)
    {
      if i < |a.cores| {
        assert CoreAt(g, a.cores[i], a.Eff(), i);
        CoreAtStable(g, a.cores[i], a.Eff(), d.Eff(), i);
      } else {
        NewCoreAt(g, a, level, b, cur);
      }
    }
  }

  /** The lists of nodes contracted in this level or before stay as they are. */
  lemma ListsDone(g: Graph, a: Stage, level: set<nat>, b: Stage, cur: seq<seq<nat>>, u: nat)
    requires a.Lists() && (forall v: nat :: v in level ==> a.Alive(v)) && GraphGrows(g, a, level, b)
    requires ListsGrow(a, level, b)
    requires u < |a.gone| && (a.gone[u] || u in level) && a.Eff()[u] <= |a.cores| && a.AllAt(u)
    requires Next(a, level, b, cur).Lists()
    ensures Next(a, level, b, cur).Eff()[u] <= |a.cores| && Next(a, level, b, cur).AllAt(u)
  {
    var d := Next(a, level, b, cur);
    NextEff(a, level, b, cur);
    assert d.CoreOf(d.Eff()[u]) == a.CoreOf(a.Eff()[u]) && d.Eff()[u] == a.Eff()[u];
    assert ListGrows(a, level, b, u);
    forall id | id in d.all[u]
      ensures id < |d.store| && (d.Eff()[d.store[id].dst] < d.Eff()[u] || d.store[id] in d.CoreOf(d.Eff()[u]))
    {
      assert id in a.all[u] && d.store[id] == a.store[id];
    }
    forall e | e in d.CoreOf(d.Eff()[u]) && e.src == u
      ensures exists id :: id in d.all[u] && d.store[id] == e
    {
      var id :| id in a.all[u] && a.store[id] == e;
      assert id in d.all[u] && d.store[id] == e;
    }
  }

  /** What is added to both lists of a node is counted in both. */
  lemma TimesGrow(a: Stage, level: set<nat>, b: Stage, u: nat, id: nat)
    requires a.Lists() && b.Lists() && |b.gone| == |a.gone| && u < |a.gone| && ListGrows(a, level, b, u)
    ensures Times(b.all[u], id) - Times(a.all[u], id) == Times(b.current[u], id) - Times(a.current[u], id) >= 0
    ensures id < |a.store| ==> Times(b.all[u], id) == Times(a.all[u], id)
  {
    var new' := b.all[u][|a.all[u]|..];
    assert b.all[u] == a.all[u] + new' && b.current[u] == a.current[u] + new';
    TimesIn(new', id);
    if id in new' {
      var k: nat :| k < |new'| && new'[k] == id;
      assert b.all[u][|a.all[u]| + k] == id;
    }
  }

  /** An edge in a current list is in the current graph. */
  lemma CurrentIsCore(b: Stage, u: nat, id: nat)
    requires b.Lists() && u < |b.gone| && id in b.current[u]
    ensures id < |b.store| && b.store[id] in b.Core()
  {
    var k: nat :| k < |b.current[u]| && b.current[u][k] == id;
    b.Now().GraphHas(u, k);
  }

  /** An edge in the list of a survivor leads to a lower node or is in the current graph after the merge. */
  lemma ListedAfterMerge(g: Graph, a: Stage, level: set<nat>, b: Stage, u: nat, id: nat)
    requires a.Lists() && GraphGrows(g, a, level, b) && ListsGrow(a, level, b)
    requires u < |a.gone| && !a.gone[u] && a.AllAt(u) && id in b.all[u]
    ensures id < |b.store| && (a.Eff()[b.store[id].dst] < |a.cores| || b.store[id] in b.Core())
  {
    assert ListGrows(a, level, b, u);
    if id in a.all[u] {
      assert b.store[id] == a.store[id];
    } else {
      TimesGrow(a, level, b, u, id);
      TimesIn(a.all[u], id);
      TimesIn(b.all[u], id);
      TimesIn(b.current[u], id);
      CurrentIsCore(b, u, id);
    }
  }

  /** An edge of the merged core stands in the list of its start. */
  lemma MergedIsListed(g: Graph, a: Stage, level: set<nat>, b: Stage, e: Edge) returns (id: nat)
    requires a.Lists() && GraphGrows(g, a, level, b) && ListsGrow(a, level, b)
    requires e.src < |a.gone| && !a.gone[e.src] && a.AllAt(e.src) && e in b.Core()
    ensures id in b.all[e.src] && id < |b.store| && b.store[id] == e
  {
    var u := e.src;
    assert ListGrows(a, level, b, u);
    if e in a.Core() {
      id :| id in a.all[u] && a.store[id] == e;
    } else {
      var i := b.Now().Position(e);
      assert i >= |a.current[u]|;
      assert b.current[u][|a.current[u]|..][i - |a.current[u]|] == b.current[u][i];
      assert b.all[u][|a.all[u]|..][i - |a.current[u]|] == b.all[u][i - |a.current[u]| + |a.all[u]|];
      id := b.current[u][i];
    }
  }

  lemma ListsAlive(g: Graph, a: Stage, level: set<nat>, b: Stage, cur: seq<seq<nat>>, u: nat)
    requires a.Lists() && (forall v: nat :: v in level ==> a.Alive(v)) && GraphGrows(g, a, level, b)
    requires ListsGrow(a, level, b)
    requires u < |a.gone| && !a.gone[u] && u !in level && a.AllAt(u)
    requires var d := Next(a, level, b, cur);
      d.Lists() && (forall e :: e in d.Core() <==> e in b.Core() && e.src !in level && e.dst !in level)
    ensures Next(a, level, b, cur).Eff()[u] <= |a.cores| + 1 && Next(a, level, b, cur).AllAt(u)
  {
    var d := Next(a, level, b, cur);
    NextEff(a, level, b, cur);
    forall id | id in d.all[u]
      ensures id < |d.store| && (d.Eff()[d.store[id].dst] < d.Eff()[u] || d.store[id] in d.CoreOf(d.Eff()[u]))
    {
      ListedAfterMerge(g, a, level, b, u, id);
      var i: nat :| i < |d.all[u]| && d.all[u][i] == id;
      assert Net(d.store, d.all).Has(u, i);
    }
    forall e | e in d.CoreOf(d.Eff()[u]) && e.src == u
      ensures exists id :: id in d.all[u] && d.store[id] == e
    {
      var id := MergedIsListed(g, a, level, b, e);
    }
  }

  /** Ids of edges that are not stored yet stand in no list. */
  lemma NotYetListed(a: Stage, u: nat, id: nat)
    requires a.Lists() && u < |a.gone| && a.LastAt(u) && id >= |a.store|
    ensures Times(a.LastList(u), id) == 0 && Times(a.all[u], id) == 0
  {
    ShapeLists(Net(a.store, a.all), u);
    TimesIn(a.LastList(u), id);
    TimesIn(a.all[u], id);
  }

  /** Nodes contracted in this level or before keep their last list, and what it held is still what is not lower. */
  lemma LastDone(g: Graph, a: Stage, level: set<nat>, b: Stage, cur: seq<seq<nat>>, u: nat)
    requires a.Lists() && a.History(g) && (forall v: nat :: v in level ==> a.Alive(v))
    requires GraphGrows(g, a, level, b) && ListsGrow(a, level, b)
    requires u < |a.gone| && (a.gone[u] || u in level) && a.LastAt(u) && Next(a, level, b, cur).Lists()
    ensures Next(a, level, b, cur).LastAt(u)
  {
    var d := Next(a, level, b, cur);
    NextEff(a, level, b, cur);
    assert ListGrows(a, level, b, u) && d.LastList(u) == a.LastList(u);
    forall id: nat | id < |d.store|
      ensures Times(d.LastList(u), id) == if d.Eff()[d.store[id].dst] >= d.Eff()[u] then Times(d.all[u], id) else 0
    {
      if id < |a.store| {
        assert a.store[id] == d.store[id] && a.store[id].dst < |a.gone|;
        assert Times(a.LastList(u), id) == if a.Eff()[a.store[id].dst] >= a.Eff()[u] then Times(a.all[u], id) else 0;
      } else {
        NotYetListed(a, u, id);
      }
    }
  }

  /** An id in the current list after the merge is that of an edge to a survivor. */
  lemma CurrentEndsAlive(a: Stage, b: Stage, u: nat, id: nat)
    requires b.CoreOk() && b.gone == a.gone && u < |a.gone| && Times(b.current[u], id) > 0
    ensures id < |b.store| && a.Alive(b.store[id].dst)
  {
    TimesIn(b.current[u], id);
    CurrentIsCore(b, u, id);
  }

  /** The current list of a survivor holds what is not lower than the survivors. */
  lemma LastAlive(g: Graph, a: Stage, level: set<nat>, b: Stage, cur: seq<seq<nat>>, u: nat)
    requires a.Lists() && (forall v: nat :: v in level ==> a.Alive(v)) && b.CoreOk()
    requires GraphGrows(g, a, level, b) && ListsGrow(a, level, b) && Cut(b.store, b.current, cur, level)
    requires u < |a.gone| && !a.gone[u] && u !in level && a.LastAt(u) && Next(a, level, b, cur).Lists()
    ensures Next(a, level, b, cur).LastAt(u)
  {
    var d := Next(a, level, b, cur);
    NextEff(a, level, b, cur);
    assert ListGrows(a, level, b, u) && d.LastList(u) == cur[u] && Reduced(b.store, b.current[u], cur[u], level);
    forall id: nat | id < |d.store|
      ensures Times(d.LastList(u), id) == if d.Eff()[d.store[id].dst] >= d.Eff()[u] then Times(d.all[u], id) else 0
    {
      TimesGrow(a, level, b, u, id);
      if id < |a.store| {
        assert a.store[id] == d.store[id];
        assert Times(a.LastList(u), id) == if a.Eff()[a.store[id].dst] >= a.Eff()[u] then Times(a.all[u], id) else 0;
      } else {
        NotYetListed(a, u, id);
        if Times(b.current[u], id) > 0 {
          CurrentEndsAlive(a, b, u, id);
        }
      }
    }
  }

  /** One level keeps the whole invariant. */
  lemma LevelStep(g: Graph, a: Stage, level: set<nat>, b: Stage, rs: seq<Shortcut>, cur: seq<seq<nat>>)
    requires LevelWorked(g, a, level, b, rs, cur)
    ensures Next(a, level, b, cur).Inv(g)
  {
    var d := Next(a, level, b, cur);
    NextCore(g, a, level, b, rs, cur);
    NextExact(g, a, level, b, rs, cur);
    NextAlready(g, a, level, b, rs, cur);
    NextHistory(g, a, level, b, rs, cur);
    forall u: nat | u < |d.gone|
      ensures d.Eff()[u] <= |d.cores| && d.AllAt(u)
    {
      assert a.AllAt(u);
      if a.gone[u] || u in level {
        ListsDone(g, a, level, b, cur, u);
      } else {
        ListsAlive(g, a, level, b, cur, u);
      }
    }
    forall u: nat | u < |d.gone|
      ensures d.LastAt(u)
    {
      assert a.LastAt(u);
      if a.gone[u] || u in level {
        LastDone(g, a, level, b, cur, u);
      } else {
        LastAlive(g, a, level, b, cur, u);
      }
    }
  }

  // ---------- the first and the last stage ----------

  /** The stage before any node is contracted. */
  ghost function FirstStage(store: seq<Edge>, adj: seq<seq<nat>>): Stage
  {
    var n := |adj|;
    Stage(store, [], |store|, adj, adj, seq(n, u => false), seq(n, u => 0), seq(n, u => {}), [],
          seq(n, u => []))
  }

  /** What the contraction takes as given about its input. */
  ghost predicate GoodInput(net: Net)
  {
    && net.Shape() && |net.adj| <= MAX_VALUE && Balanced(net)
    && Symmetric(net.Graph()) && Positive(net.Graph()) && NoLoops(net.Graph())
  }

  lemma FirstInv(store: seq<Edge>, adj: seq<seq<nat>>)
    requires GoodInput(Net(store, adj))
    ensures FirstStage(store, adj).Inv(Net(store, adj).Graph())
  {
    var a, g := FirstStage(store, adj), Net(store, adj).Graph();
    forall u: nat | u < |a.gone|
      ensures a.Eff()[u] <= |a.cores| && a.AllAt(u)
    {
      ShapeLists(a.Now(), u);
      forall id | id in a.all[u]
        ensures a.store[id] in a.CoreOf(a.Eff()[u])
      {
        var i: nat :| i < |adj[u]| && adj[u][i] == id;
        a.Now().GraphHas(u, i);
      }
      forall e | e in a.CoreOf(a.Eff()[u]) && e.src == u
        ensures exists id :: id in a.all[u] && a.store[id] == e
      {
        var i := a.Now().Position(e);
        assert adj[u][i] in a.all[u];
      }
    }
    forall u: nat | u < |a.gone|
      ensures a.LastAt(u)
    {
      ShapeLists(a.Now(), u);
    }
  }

  /** The hierarchy that is left when every node is contracted. */
  ghost function Final(a: Stage): Hierarchy { Hierarchy(a.store, a.all, a.lvl) }

  ghost predicate AllGone(a: Stage) { forall u :: 0 <= u < |a.gone| ==> a.gone[u] }

  lemma FinalEff(a: Stage)
    requires a.Lists() && AllGone(a)
    ensures a.Eff() == a.lvl
  {
  }

  /** No edge ever stored at a node leads to another node of the same level. */
  lemma FinalShape(g: Graph, a: Stage)
    requires a.Inv(g) && AllGone(a)
    ensures Final(a).Shape()
  {
    FinalEff(a);
    forall v: nat, k: nat | v < |a.all| && k < |a.all[v]|
      ensures a.lvl[a.store[a.all[v][k]].dst] != a.lvl[v]
    {
      assert Net(a.store, a.all).Has(v, k);
      assert a.AllAt(v) && a.all[v][k] in a.all[v];
      assert CoreAt(g, a.cores[a.lvl[v]], a.Eff(), a.lvl[v]);
    }
    forall v: nat, k: nat | v < |a.all| && k < |a.all[v]|
      ensures a.all[v][k] < |a.store| && a.store[a.all[v][k]].src == v
    {
      assert Net(a.store, a.all).Has(v, k);
    }
  }

  lemma FinalFromCores(g: Graph, a: Stage)
    requires a.Inv(g) && AllGone(a) && Final(a).Shape()
    ensures forall u: nat :: u < |a.lvl| ==> a.lvl[u] < |a.cores|
    ensures FromCores(a.cores, Final(a))
  {
    FinalEff(a);
    var h := Final(a);
    forall v: nat, k: nat | h.Has(v, k) && h.Up(v, k)
      ensures h.At(v, k) in a.cores[h.lvl[v]]
    {
      assert a.AllAt(v) && a.all[v][k] in a.all[v];
    }
    forall v: nat, e | v < |h.adj| && e in a.cores[h.lvl[v]] && e.src == v
      ensures exists k: nat :: h.Has(v, k) && h.At(v, k) == e
    {
      assert a.AllAt(v);
      var id :| id in a.all[v] && a.store[id] == e;
      var k: nat :| k < |a.all[v]| && a.all[v][k] == id;
      assert h.Has(v, k) && h.At(v, k) == e;
    }
  }

  /**
   * Of all edge ids ever listed at a node, those of upward edges are the ids it listed when it was contracted, each
   * as often as then; ids of downward edges were listed there no more.
   */
  lemma FinalLastLists(g: Graph, a: Stage, v: nat)
    requires a.Inv(g) && AllGone(a) && v < |a.all|
    ensures Final(a).Shape()
    ensures forall id: nat :: Times(a.taken[v], id) ==
              if id < |a.store| && a.lvl[a.store[id].dst] > a.lvl[v] then Times(a.all[v], id) else 0
  {
    FinalEff(a);
    FinalShape(g, a);
    assert a.LastAt(v) && a.LastList(v) == a.taken[v];
    ShapeLists(Net(a.store, a.all), v);
    forall id: nat
      ensures Times(a.taken[v], id) ==
              if id < |a.store| && a.lvl[a.store[id].dst] > a.lvl[v] then Times(a.all[v], id) else 0
    {
      TimesIn(a.taken[v], id);
      TimesIn(a.all[v], id);
      if id < |a.store| && id in a.all[v] {
        var k: nat :| k < |a.all[v]| && a.all[v][k] == id;
        assert a.lvl[Final(a).At(v, k).dst] != a.lvl[v];
      }
    }
  }

  /** When every node is contracted, upward edges lead to every peak: labels can be built. */
  lemma ContractedClimbs(g: Graph, a: Stage)
    requires a.Inv(g) && AllGone(a)
    ensures Climbs(g, Final(a))
  {
    FinalShape(g, a);
    FinalFromCores(g, a);
    FinalEff(a);
    forall i: nat | i < |a.cores|
      ensures CoreAt(g, a.cores[i], a.lvl, i)
    {
      assert CoreAt(g, a.cores[i], a.Eff(), i);
    }
    CoresClimb(g, a.cores, Final(a));
  }

  /** Every original edge is itself a shortest connection. */
  ghost predicate EdgesShortest(g: Graph) { forall e {:trigger ExactEdge(g, e)} :: e in g ==> ExactEdge(g, e) }

  /** No earlier edge in u's list leads to the same node. */
  ghost predicate FirstListed(net: Net, u: nat, i: nat)
    requires net.Shape() && net.Has(u, i)
  {
    forall j: nat :: j < i ==> net.At(u, j).dst != net.At(u, i).dst
  }

  /** Of the edges listed at a node, the first one to each end is a shortest connection. */
  ghost predicate FirstsShortest(g: Graph, net: Net)
    requires net.Shape()
  {
    forall u: nat, i: nat {:trigger FirstListed(net, u, i)} :: net.Has(u, i) && FirstListed(net, u, i) ==>
      ExactEdge(g, net.At(u, i))
  }

  /** Less is asked of the first edges than of all. */
  lemma EdgesShortestIsMore(g: Graph, net: Net)
    requires net.Shape() && g == net.Graph() && EdgesShortest(g)
    ensures FirstsShortest(g, net)
  {
    forall u: nat, i: nat | net.Has(u, i) && FirstListed(net, u, i)
      ensures ExactEdge(g, net.At(u, i))
    {
      net.GraphHas(u, i);
    }
  }

  /** The edge a label keeps for an end is an exact shortcut, or the first original edge to that end. */
  lemma KeptIsExact(g: Graph, a: Stage, net: Net, v: nat, k: nat)
    requires net.Shape() && FirstsShortest(g, net) && a.ShortcutsOk(g) && a.originals == |net.store|
    requires net.store <= a.store && v < |net.adj| == |a.all| && Extends(net.adj[v], |net.store|, a.all[v])
    requires Final(a).Shape() && Final(a).Has(v, k) && Final(a).First(v, k)
    ensures ExactEdge(g, Final(a).At(v, k))
  {
    if k < |net.adj[v]| {
      assert net.Has(v, k) && net.At(v, k) == Final(a).At(v, k);
      forall j: nat | j < k
        ensures net.At(v, j).dst != net.At(v, k).dst
      {
        assert net.Has(v, j) && net.At(v, j) == Final(a).At(v, j);
      }
      assert FirstListed(net, v, k);
    } else {
      assert a.all[v][k] >= a.originals;
      assert ExactEdge(g, a.store[a.all[v][k]]);
    }
  }

  /** If the first original edges are shortest connections, skipping the others does no harm. */
  lemma FirstEdgesAreHarmless(g: Graph, a: Stage, net: Net, v: nat)
    requires a.Inv(g) && AllGone(a) && net.Shape() && FirstsShortest(g, net) && a.originals == |net.store|
    requires net.store <= a.store && v < |net.adj| == |a.all| && Extends(net.adj[v], |net.store|, a.all[v])
    ensures Climbs(g, Final(a)) && SkipsHarmless(g, Final(a), v)
  {
    ContractedClimbs(g, a);
    var h := Final(a);
    forall k: nat | h.Has(v, k) && h.Up(v, k) && h.First(v, k)
      ensures h.At(v, k).len == Dist(g, v, h.At(v, k).dst)
    {
      KeptIsExact(g, a, net, v, k);
    }
    ExactEdgesAreHarmless(g, h, v);
  }
}
