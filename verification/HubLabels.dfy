/**
 * Hub labels on paper: which hubs a node's label holds, why the common hubs of two labels give the exact
 * distance, and exactly when the labels built by merging and pruning are right.
 */
module HubLabels {
  import opened Graphs
  import opened Contraction

  /** One entry of a label: the distance to the hub and the id of the first edge towards it. */
  datatype Entry = Entry(dist: nat, edge: int)

  type Label = map<nat, Entry>

  /** The edge table, the edges ever stored at each node, and the contraction level of each node. */
  datatype Hierarchy = Hierarchy(store: seq<Edge>, adj: seq<seq<nat>>, lvl: seq<nat>) {
    ghost predicate Shape() {
      && |adj| == |lvl|
      && (forall v: nat, k: nat :: 0 <= v < |adj| && 0 <= k < |adj[v]| ==>
            adj[v][k] < |store| && store[adj[v][k]].src == v)
      && (forall id: nat :: 0 <= id < |store| ==> store[id].src < |lvl| && store[id].dst < |lvl|)
      && (forall v: nat, k: nat :: 0 <= v < |adj| && 0 <= k < |adj[v]| ==> lvl[store[adj[v][k]].dst] != lvl[v])
    }

    /** Position k is in the list of v. */
    predicate Has(v: nat, k: nat) { v < |adj| && k < |adj[v]| }

    /** The edge at position k of v's list. */
    function At(v: nat, k: nat): (e: Edge)
      requires Shape() && Has(v, k)
      ensures e.src == v && e.dst < |adj|
    {
      store[adj[v][k]]
    }

    /** Position k of v's list holds an edge to a higher node. */
    predicate Up(v: nat, k: nat)
      requires Shape() && Has(v, k)
    {
      lvl[At(v, k).dst] > lvl[v]
    }

    /** The places in the list of v at which an upward edge stands. */
    ghost function UpAt(v: nat): set<nat>
      requires Shape() && v < |adj|
    {
      set k: nat | k < |adj[v]| && Has(v, k) && Up(v, k)
    }

    /** No earlier edge of v leads to the same node. */
    predicate First(v: nat, k: nat)
      requires Shape() && Has(v, k)
    {
      forall j: nat :: 0 <= j < k ==> At(v, j).dst != At(v, k).dst
    }

    /** The edge with this id is the one the label construction uses to go from v to its end. */
    ghost predicate Kept(v: nat, id: int)
      requires Shape() && v < |adj|
    {
      exists k: nat :: Has(v, k) && adj[v][k] == id && Up(v, k) && First(v, k)
    }
  }

  /** x lies on a shortest walk from s to t. */
  ghost predicate OnShortest(g: Graph, s: nat, x: nat, t: nat)
  {
    && Reach(g, s, x) && Reach(g, x, t) && Reach(g, s, t)
    && Dist(g, s, x) + Dist(g, x, t) == Dist(g, s, t)
  }

  function Level(lvl: seq<nat>, x: nat): nat { if x < |lvl| then lvl[x] else 0 }

  /** h is reachable and no node on a shortest walk from v to h lies higher than h itself. */
  ghost predicate Peak(g: Graph, lvl: seq<nat>, v: nat, h: nat)
  {
    && Reach(g, v, h)
    && (forall x: nat :: OnShortest(g, v, x, h) ==> Level(lvl, x) <= Level(lvl, h))
  }

  /** The edge at position k of v's list goes up and starts a shortest walk to t. */
  ghost predicate ClimbsOver(g: Graph, h: Hierarchy, v: nat, k: nat, t: nat)
    requires h.Shape() && h.Has(v, k)
  {
    && h.Up(v, k) && Reach(g, h.At(v, k).dst, t) && Reach(g, v, t)
    && h.At(v, k).len + Dist(g, h.At(v, k).dst, t) == Dist(g, v, t)
  }

  /** Upward edges are realised by walks, and every peak is reached over one of them. */
  ghost predicate Climbs(g: Graph, h: Hierarchy)
  {
    && h.Shape()
    && (forall v: nat, k: nat :: h.Has(v, k) && h.Up(v, k) ==>
          Reach(g, v, h.At(v, k).dst) && Dist(g, v, h.At(v, k).dst) <= h.At(v, k).len)
    && (forall v: nat, t: nat :: v < |h.adj| && t < |h.adj| && v != t && Peak(g, h.lvl, v, t) ==>
          exists k: nat :: h.Has(v, k) && ClimbsOver(g, h, v, k, t))
  }

  // ---------- facts about shortest walks ----------

  lemma OnShortestNested(g: Graph, s: nat, x: nat, h: nat, t: nat)
    requires OnShortest(g, s, h, t) && OnShortest(g, s, x, h)
    ensures OnShortest(g, s, x, t)
  {
    Triangle(g, x, h, t);
    Triangle(g, s, x, t);
  }

  lemma OnShortestFlip(g: Graph, s: nat, x: nat, t: nat)
    requires Symmetric(g) && OnShortest(g, s, x, t)
    ensures OnShortest(g, t, x, s)
  {
    DistSymmetric(g, s, x);
    DistSymmetric(g, x, t);
    DistSymmetric(g, s, t);
  }

  lemma OnShortestEnds(g: Graph, s: nat, t: nat)
    requires Reach(g, s, t)
    ensures OnShortest(g, s, s, t) && OnShortest(g, s, t, t)
  {
    SelfDist(g, s);
    SelfDist(g, t);
  }

  ghost function MaxLevel(lvl: seq<nat>): (m: nat)
    ensures forall x: nat :: Level(lvl, x) <= m
  {
    if lvl == [] then 0
    else
      var r := MaxLevel(lvl[1..]);
      assert forall x: nat :: 0 < x < |lvl| ==> Level(lvl, x) == Level(lvl[1..], x - 1);
      if lvl[0] > r then lvl[0] else r
  }

  /** Some node is highest among those on shortest walks from s to t, starting the search at x. */
  lemma {:induction false} Highest(g: Graph, lvl: seq<nat>, s: nat, t: nat, x: nat) returns (h: nat)
    requires OnShortest(g, s, x, t)
    ensures OnShortest(g, s, h, t)
    ensures forall y: nat :: OnShortest(g, s, y, t) ==> Level(lvl, y) <= Level(lvl, h)
    decreases MaxLevel(lvl) - Level(lvl, x)
  {
    if y :| OnShortest(g, s, y, t) && Level(lvl, y) > Level(lvl, x) {
      h := Highest(g, lvl, s, t, y);
    } else {
      h := x;
    }
  }

  /** A highest node between s and t is a peak seen from either end. */
  lemma HighestIsPeak(g: Graph, lvl: seq<nat>, s: nat, t: nat, h: nat)
    requires Symmetric(g) && OnShortest(g, s, h, t)
    requires forall y: nat :: OnShortest(g, s, y, t) ==> Level(lvl, y) <= Level(lvl, h)
    ensures Peak(g, lvl, s, h) && Peak(g, lvl, t, h)
  {
    forall x | OnShortest(g, s, x, h)
      ensures Level(lvl, x) <= Level(lvl, h)
    {
      OnShortestNested(g, s, x, h, t);
    }
    OnShortestFlip(g, s, h, t);
    forall x | OnShortest(g, t, x, h)
      ensures Level(lvl, x) <= Level(lvl, h)
    {
      OnShortestNested(g, t, x, h, s);
      OnShortestFlip(g, t, x, s);
    }
  }

  /** A peak of v stays a peak for every node on the way. */
  lemma PeakOnTheWay(g: Graph, lvl: seq<nat>, v: nat, u: nat, h: nat)
    requires Symmetric(g) && Peak(g, lvl, v, h) && OnShortest(g, v, u, h)
    ensures Peak(g, lvl, u, h)
  {
    OnShortestFlip(g, v, u, h);
    forall x | OnShortest(g, u, x, h)
      ensures Level(lvl, x) <= Level(lvl, h)
    {
      OnShortestFlip(g, u, x, h);
      OnShortestNested(g, h, x, u, v);
      OnShortestFlip(g, h, x, v);
    }
  }

  // ---------- labels that answer queries ----------

  /** Every entry is realised by a walk, and every peak is there with its exact distance. */
  ghost predicate Covers(g: Graph, lvl: seq<nat>, v: nat, a: Label)
  {
    && (forall h: nat :: h in a ==> Reach(g, v, h) && Dist(g, v, h) <= a[h].dist)
    && (forall h: nat :: Peak(g, lvl, v, h) ==> h in a && a[h].dist == Dist(g, v, h))
  }

  /** The label holds the peaks of v and nothing else. */
  ghost predicate Canonical(g: Graph, lvl: seq<nat>, v: nat, a: Label)
  {
    && (forall h: nat :: h in a <==> Peak(g, lvl, v, h))
    && (forall h: nat :: h in a ==> a[h].dist == Dist(g, v, h))
  }

  /** The common hubs of a and b tell whether t is reachable from s, and the least sum is the distance. */
  ghost predicate QueryExact(g: Graph, s: nat, t: nat, a: Label, b: Label)
  {
    && (Reach(g, s, t) <==> exists h: nat :: h in a && h in b)
    && (Reach(g, s, t) ==>
          && (exists h: nat :: h in a && h in b && a[h].dist + b[h].dist == Dist(g, s, t))
          && (forall h: nat :: h in a && h in b ==> Dist(g, s, t) <= a[h].dist + b[h].dist))
  }

  lemma CoveringLabelsAnswer(g: Graph, lvl: seq<nat>, s: nat, t: nat, a: Label, b: Label)
    requires Symmetric(g) && Covers(g, lvl, s, a) && Covers(g, lvl, t, b)
    ensures QueryExact(g, s, t, a, b)
  {
    forall h | h in a && h in b
      ensures Reach(g, s, t) && Dist(g, s, t) <= a[h].dist + b[h].dist
    {
      DistSymmetric(g, t, h);
      Triangle(g, s, h, t);
    }
    if Reach(g, s, t) {
      OnShortestEnds(g, s, t);
      var h := Highest(g, lvl, s, t, s);
      HighestIsPeak(g, lvl, s, t, h);
      DistSymmetric(g, t, h);
      assert h in a && h in b && a[h].dist + b[h].dist == Dist(g, s, t);
    }
  }

  // ---------- what building a label guarantees ----------

  /** m is at least as good as going a distance d first and then using the label a. */
  ghost predicate Dominates(m: Label, d: nat, a: Label)
  {
    forall x: nat :: x in a ==> x in m && m[x].dist <= d + a[x].dist
  }

  /** The entry's edge is kept by v, and the entry is no shorter than that edge and the rest of the way to x. */
  ghost predicate Towards(g: Graph, h: Hierarchy, v: nat, e: Entry, x: nat)
    requires h.Shape() && v < |h.adj|
  {
    && x < |h.lvl| && h.lvl[x] > h.lvl[v]
    && h.Kept(v, e.edge)
    && Reach(g, h.store[e.edge].dst, x)
    && h.store[e.edge].len + Dist(g, h.store[e.edge].dst, x) <= e.dist
  }

  /**
   * The merged label m of v: its own entry, and for every other hub a kept edge towards it whose length and
   * the remaining distance do not exceed the entry; at least as good as every kept edge combined with the
   * label of its end.
   */
  ghost predicate Merged(g: Graph, h: Hierarchy, labels: seq<Label>, v: nat, m: Label)
    requires h.Shape() && v < |h.adj| && |labels| == |h.adj|
  {
    && v in m && m[v] == Entry(0, -1)
    && (forall x: nat {:trigger Towards(g, h, v, m[x], x)} :: x in m && x != v ==> Towards(g, h, v, m[x], x))
    && (forall k: nat :: h.Has(v, k) && h.Up(v, k) && h.First(v, k) ==>
          Dominates(m, h.At(v, k).len, labels[h.At(v, k).dst]))
  }

  /** c shows that the entry (x, d) of a label is not needed. */
  ghost predicate Witness(labels: seq<Label>, m: Label, x: nat, d: nat, c: nat)
    requires x < |labels|
  {
    c != x && c in labels[x] && c in m && m[c].dist + labels[x][c].dist <= d
  }

  ghost predicate HasWitness(labels: seq<Label>, m: Label, x: nat, d: nat)
    requires x < |labels|
  {
    exists c: nat :: Witness(labels, m, x, d, c)
  }

  /** f is m without redundant entries: what went had a witness in m, what stayed has none in f. */
  ghost predicate Pruned(labels: seq<Label>, v: nat, m: Label, f: Label)
  {
    && v in f
    && (forall x: nat :: x in m ==> x < |labels|)
    && (forall x: nat :: x in f ==> x in m && f[x] == m[x])
    && (forall x: nat {:trigger HasWitness(labels, m, x, m[x].dist)} :: x in m && x !in f ==>
          HasWitness(labels, m, x, m[x].dist))
    && (forall x: nat, c: nat :: x in f && x != v && c in f ==> !Witness(labels, f, x, f[x].dist, c))
  }

  /** Labels of the nodes above level i are canonical. */
  ghost predicate CanonicalAbove(g: Graph, h: Hierarchy, labels: seq<Label>, i: int)
    requires h.Shape() && |labels| == |h.adj|
  {
    forall u: nat {:trigger Canonical(g, h.lvl, u, labels[u])} :: u < |labels| && h.lvl[u] > i ==>
      Canonical(g, h.lvl, u, labels[u])
  }

  /** If the edge at position k is a shortest connection, a kept edge starts an equally short one. */
  ghost predicate KeptInstead(g: Graph, h: Hierarchy, v: nat, k: nat)
    requires h.Shape() && h.Has(v, k)
  {
    var e := h.At(v, k);
    Reach(g, v, e.dst) && e.len == Dist(g, v, e.dst) ==>
      exists j: nat :: h.Has(v, j) && h.First(v, j) && ClimbsOver(g, h, v, j, e.dst)
  }

  /**
   * The label construction keeps only the first of several parallel edges. That is harmless at v when for
   * every upward edge that is a shortest connection some kept edge starts an equally short one.
   */
  ghost predicate SkipsHarmless(g: Graph, h: Hierarchy, v: nat)
    requires h.Shape() && v < |h.adj|
  {
    forall k: nat {:trigger KeptInstead(g, h, v, k)} :: h.Has(v, k) && h.Up(v, k) ==> KeptInstead(g, h, v, k)
  }

  lemma MergedRealised(g: Graph, h: Hierarchy, labels: seq<Label>, v: nat, m: Label, x: nat)
    requires Climbs(g, h) && v < |h.adj| && |labels| == |h.adj|
    requires Merged(g, h, labels, v, m) && x in m
    ensures Reach(g, v, x) && Dist(g, v, x) <= m[x].dist
  {
    if x == v {
      SelfDist(g, v);
    } else {
      assert Towards(g, h, v, m[x], x);
      var k: nat :| h.Has(v, k) && h.adj[v][k] == m[x].edge && h.Up(v, k) && h.First(v, k);
      Triangle(g, v, h.store[m[x].edge].dst, x);
    }
  }

  /** A kept edge that starts a shortest walk to t is on the way to every hub behind t. */
  lemma KeptStart(g: Graph, h: Hierarchy, v: nat, t: nat) returns (j: nat)
    requires Climbs(g, h) && v < |h.adj| && SkipsHarmless(g, h, v)
    requires t < |h.adj| && v != t && Peak(g, h.lvl, v, t)
    ensures h.Has(v, j) && h.First(v, j) && ClimbsOver(g, h, v, j, t)
  {
    var k: nat :| h.Has(v, k) && ClimbsOver(g, h, v, k, t);
    var e := h.At(v, k);
    Triangle(g, v, e.dst, t);
    assert e.len == Dist(g, v, e.dst);
    assert KeptInstead(g, h, v, k);
    j :| h.Has(v, j) && h.First(v, j) && ClimbsOver(g, h, v, j, e.dst);
    var f := h.At(v, j);
    Triangle(g, f.dst, e.dst, t);
    Triangle(g, v, f.dst, t);
  }

  /** An upward edge that starts a shortest walk ends at a node on that walk. */
  lemma ClimbOnShortest(g: Graph, h: Hierarchy, v: nat, j: nat, t: nat)
    requires Climbs(g, h) && h.Has(v, j) && ClimbsOver(g, h, v, j, t)
    ensures OnShortest(g, v, h.At(v, j).dst, t)
  {
    Triangle(g, v, h.At(v, j).dst, t);
  }

  lemma PeakOverKept(g: Graph, h: Hierarchy, labels: seq<Label>, v: nat, m: Label, t: nat, j: nat)
    requires Symmetric(g) && Climbs(g, h) && v < |h.adj| && |labels| == |h.adj|
    requires CanonicalAbove(g, h, labels, h.lvl[v]) && Merged(g, h, labels, v, m)
    requires Peak(g, h.lvl, v, t) && h.Has(v, j) && h.First(v, j) && ClimbsOver(g, h, v, j, t)
    ensures t in m && m[t].dist <= Dist(g, v, t)
  {
    var u := h.At(v, j).dst;
    assert t in labels[u] && labels[u][t].dist == Dist(g, u, t) by {
      ClimbOnShortest(g, h, v, j, t);
      PeakOnTheWay(g, h.lvl, v, u, t);
      assert Canonical(g, h.lvl, u, labels[u]);
    }
  }

  /** Every peak of v enters the merged label with its exact distance. */
  lemma PeakMerged(g: Graph, h: Hierarchy, labels: seq<Label>, v: nat, m: Label, t: nat)
    requires Symmetric(g) && Climbs(g, h) && v < |h.adj| && |labels| == |h.adj| && t < |h.adj|
    requires SkipsHarmless(g, h, v) && CanonicalAbove(g, h, labels, h.lvl[v])
    requires Merged(g, h, labels, v, m) && Peak(g, h.lvl, v, t)
    ensures t in m && m[t].dist == Dist(g, v, t)
  {
    if t == v {
      SelfDist(g, v);
    } else {
      var j := KeptStart(g, h, v, t);
      PeakOverKept(g, h, labels, v, m, t, j);
      MergedRealised(g, h, labels, v, m, t);
    }
  }

  /** A peak other than the node itself has a strictly higher level. */
  lemma HubsAreHigher(g: Graph, h: Hierarchy, v: nat, t: nat)
    requires Climbs(g, h) && Within(g, |h.adj|) && v < |h.adj| && v != t && Peak(g, h.lvl, v, t)
    ensures t < |h.adj| && h.lvl[t] > h.lvl[v]
  {
    var p :| Walk(g, v, p, t);
    WalkWithin(g, |h.adj|, v, p, t);
    var k: nat :| h.Has(v, k) && ClimbsOver(g, h, v, k, t);
    var u := h.At(v, k).dst;
    Triangle(g, v, u, t);
    assert OnShortest(g, v, u, t);
  }

  /** A witness against (x, d) at v lies on a shortest walk from v to x, strictly above x, when d is exact. */
  lemma WitnessIsHigher(g: Graph, h: Hierarchy, labels: seq<Label>, v: nat, m: Label, x: nat, c: nat)
    requires Symmetric(g) && Within(g, |h.adj|) && Climbs(g, h) && v < |h.adj| && |labels| == |h.adj|
    requires CanonicalAbove(g, h, labels, h.lvl[v])
    requires Merged(g, h, labels, v, m) && x in m && x != v && x < |labels| && Witness(labels, m, x, Dist0(g, v, x), c)
    ensures OnShortest(g, v, c, x) && Level(h.lvl, c) > Level(h.lvl, x)
  {
    MergedRealised(g, h, labels, v, m, c);
    MergedRealised(g, h, labels, v, m, x);
    assert Towards(g, h, v, m[x], x);
    assert Canonical(g, h.lvl, x, labels[x]);
    DistSymmetric(g, x, c);
    Triangle(g, v, c, x);
    HubsAreHigher(g, h, x, c);
  }

  lemma DistZero(g: Graph, v: nat, c: nat)
    requires Positive(g) && OnShortest(g, v, c, v)
    ensures c == v
  {
    SelfDist(g, v);
    if c != v {
      DistPositive(g, v, c);
    }
  }

  /** Merging and pruning from canonical higher labels yields exactly the peaks of v. */
  lemma BuiltIsCanonical(g: Graph, h: Hierarchy, labels: seq<Label>, v: nat, m: Label, f: Label)
    requires Symmetric(g) && Positive(g) && Within(g, |h.adj|)
    requires Climbs(g, h) && v < |h.adj| && |labels| == |h.adj|
    requires SkipsHarmless(g, h, v) && CanonicalAbove(g, h, labels, h.lvl[v])
    requires Merged(g, h, labels, v, m) && Pruned(labels, v, m, f)
    ensures Canonical(g, h.lvl, v, f)
  {
    forall t | Peak(g, h.lvl, v, t)
      ensures t in f && f[t].dist == Dist(g, v, t)
    {
      var p :| Walk(g, v, p, t);
      WalkWithin(g, |h.adj|, v, p, t);
      PeakMerged(g, h, labels, v, m, t);
      if t !in f {
        assert HasWitness(labels, m, t, m[t].dist);
        var c :| Witness(labels, m, t, m[t].dist, c);
        WitnessIsHigher(g, h, labels, v, m, t, c);
      }
    }
    forall x | x in f
      ensures Peak(g, h.lvl, v, x)
    {
      MergedRealised(g, h, labels, v, m, x);
      OnShortestEnds(g, v, x);
      var c := Highest(g, h.lvl, v, x, x);
      if Level(h.lvl, c) > Level(h.lvl, x) {
        HighestIsPeak(g, h.lvl, v, x, c);
        if x == v {
          DistZero(g, v, c);
        }
        assert Towards(g, h, v, m[x], x);
        assert Canonical(g, h.lvl, x, labels[x]);
        DistSymmetric(g, x, c);
        assert Witness(labels, f, x, f[x].dist, c);
      }
    }
  }

  // ---------- the whole labelling ----------

  /** f is what merging and pruning make of the other labels. */
  ghost predicate Built(g: Graph, h: Hierarchy, labels: seq<Label>, v: nat, f: Label)
    requires h.Shape()
  {
    v < |h.adj| == |labels| && exists m :: Merged(g, h, labels, v, m) && Pruned(labels, v, m, f)
  }

  /** Every label above level i is what merging and pruning made of the labels of higher nodes. */
  ghost predicate BuiltAbove(g: Graph, h: Hierarchy, labels: seq<Label>, i: int)
    requires h.Shape()
  {
    && |labels| == |h.adj|
    && (forall v: nat {:trigger labels[v]} :: v < |h.adj| && h.lvl[v] > i ==> Built(g, h, labels, v, labels[v]))
  }

  lemma OneMoreCanonical(g: Graph, h: Hierarchy, labels: seq<Label>, u: nat)
    requires Symmetric(g) && Positive(g) && Within(g, |h.adj|) && Climbs(g, h)
    requires u < |labels| && Built(g, h, labels, u, labels[u]) && SkipsHarmless(g, h, u)
    requires CanonicalAbove(g, h, labels, h.lvl[u])
    ensures Canonical(g, h.lvl, u, labels[u])
  {
    var m: Label :| Merged(g, h, labels, u, m) && Pruned(labels, u, m, labels[u]);
    BuiltIsCanonical(g, h, labels, u, m, labels[u]);
  }

  ghost predicate HarmlessAbove(g: Graph, h: Hierarchy, i: int)
    requires h.Shape()
  {
    forall v: nat {:trigger h.lvl[v]} :: v < |h.adj| && h.lvl[v] > i ==> SkipsHarmless(g, h, v)
  }

  /** From the top level down, every label is canonical. */
  lemma {:induction false} BuiltFromTheTop(g: Graph, h: Hierarchy, labels: seq<Label>, i: int)
    requires Symmetric(g) && Positive(g) && Within(g, |h.adj|) && Climbs(g, h) && BuiltAbove(g, h, labels, i)
    requires HarmlessAbove(g, h, i)
    ensures CanonicalAbove(g, h, labels, i)
    decreases MaxLevel(h.lvl) - i
  {
    if i >= MaxLevel(h.lvl) {
      assert forall u: nat :: u < |labels| ==> h.lvl[u] == Level(h.lvl, u);
    } else {
      BuiltFromTheTop(g, h, labels, i + 1);
      forall u: nat | u < |labels| && h.lvl[u] == i + 1
        ensures Canonical(g, h.lvl, u, labels[u])
      {
        OneMoreCanonical(g, h, labels, u);
      }
    }
  }

  lemma CanonicalCovers(g: Graph, lvl: seq<nat>, v: nat, a: Label)
    requires Canonical(g, lvl, v, a)
    ensures Covers(g, lvl, v, a)
  {
  }

  /** A hub that answers the query between v and a higher node u is reached over a kept edge towards u. */
  lemma HubNeedsKeptEdge(g: Graph, h: Hierarchy, labels: seq<Label>, i: int, v: nat, u: nat, c: nat) returns (j: nat)
    requires Symmetric(g) && Climbs(g, h) && BuiltAbove(g, h, labels, i) && v < |h.adj| && u < |h.adj|
    requires h.lvl[u] > h.lvl[v] > i && Reach(g, v, u) && c in labels[v] && c in labels[u]
    requires labels[v][c].dist + labels[u][c].dist == Dist(g, v, u)
    ensures h.Has(v, j) && h.First(v, j) && ClimbsOver(g, h, v, j, u)
  {
    var m: Label :| Merged(g, h, labels, v, m) && Pruned(labels, v, m, labels[v]);
    var m': Label :| Merged(g, h, labels, u, m') && Pruned(labels, u, m', labels[u]);
    MergedRealised(g, h, labels, u, m', c);
    assert c != u ==> Towards(g, h, u, m'[c], c);
    assert Towards(g, h, v, m[c], c);
    j :| h.Has(v, j) && h.adj[v][j] == m[c].edge && h.Up(v, j) && h.First(v, j);
    DistSymmetric(g, u, c);
    Triangle(g, h.At(v, j).dst, c, u);
    Triangle(g, v, h.At(v, j).dst, u);
  }

  lemma BestHub(g: Graph, s: nat, t: nat, a: Label, b: Label) returns (c: nat)
    requires QueryExact(g, s, t, a, b) && Reach(g, s, t)
    ensures c in a && c in b && a[c].dist + b[c].dist == Dist(g, s, t)
  {
    c :| c in a && c in b && a[c].dist + b[c].dist == Dist(g, s, t);
  }

  /** If every query is exact, skipping parallel edges did no harm at v. */
  lemma ExactQueriesNeedKeptEdges(g: Graph, h: Hierarchy, labels: seq<Label>, i: int, v: nat)
    requires Symmetric(g) && Climbs(g, h) && BuiltAbove(g, h, labels, i) && v < |h.adj| && h.lvl[v] > i
    requires forall t: nat {:trigger labels[t]} :: t < |h.adj| && h.lvl[t] > i ==>
               QueryExact(g, v, t, labels[v], labels[t])
    ensures SkipsHarmless(g, h, v)
  {
    forall k: nat | h.Has(v, k) && h.Up(v, k)
      ensures KeptInstead(g, h, v, k)
    {
      var u := h.At(v, k).dst;
      if Reach(g, v, u) {
        var c := BestHub(g, v, u, labels[v], labels[u]);
        var j := HubNeedsKeptEdge(g, h, labels, i, v, u, c);
      }
    }
  }

  /** Queries between nodes above level i are exact. */
  ghost predicate QueriesExactAbove(g: Graph, h: Hierarchy, labels: seq<Label>, i: int)
    requires |labels| == |h.lvl|
  {
    forall s: nat, t: nat {:trigger labels[s], labels[t]} ::
      s < |h.lvl| && t < |h.lvl| && h.lvl[s] > i && h.lvl[t] > i ==> QueryExact(g, s, t, labels[s], labels[t])
  }

  /**
   * The main result on labels. Every query between two labelled nodes is exact if and only if, wherever the label
   * construction skips a parallel edge, a kept edge starts an equally short connection.
   */
  lemma QueriesExactIffSkipsHarmless(g: Graph, h: Hierarchy, labels: seq<Label>, i: int)
    requires Symmetric(g) && Positive(g) && Within(g, |h.adj|) && Climbs(g, h) && BuiltAbove(g, h, labels, i)
    ensures HarmlessAbove(g, h, i) <==> QueriesExactAbove(g, h, labels, i)
  {
    if HarmlessAbove(g, h, i) {
      BuiltFromTheTop(g, h, labels, i);
      forall s: nat, t: nat | s < |h.adj| && t < |h.adj| && h.lvl[s] > i && h.lvl[t] > i
        ensures QueryExact(g, s, t, labels[s], labels[t])
      {
        CanonicalCovers(g, h.lvl, s, labels[s]);
        CanonicalCovers(g, h.lvl, t, labels[t]);
        CoveringLabelsAnswer(g, h.lvl, s, t, labels[s], labels[t]);
      }
    }
    if QueriesExactAbove(g, h, labels, i) {
      forall v: nat | v < |h.adj| && h.lvl[v] > i
        ensures SkipsHarmless(g, h, v)
      {
        ExactQueriesNeedKeptEdges(g, h, labels, i, v);
      }
    }
  }

  lemma FirstTo(h: Hierarchy, v: nat, k: nat) returns (j: nat)
    requires h.Shape() && h.Has(v, k) && h.Up(v, k)
    ensures j <= k && h.First(v, j) && h.Up(v, j) && h.At(v, j).dst == h.At(v, k).dst
  {
    j := k;
    while !h.First(v, j)
      invariant j <= k && h.At(v, j).dst == h.At(v, k).dst
      decreases j
    {
      var i := j;
      j :| 0 <= j < |h.adj[v]| && h.At(v, j).dst == h.At(v, k).dst && j < i;
    }
  }

  /** If the kept edges are shortest connections, it does no harm to skip the others. */
  lemma ExactEdgesAreHarmless(g: Graph, h: Hierarchy, v: nat)
    requires Climbs(g, h) && v < |h.adj|
    requires forall k: nat :: h.Has(v, k) && h.Up(v, k) && h.First(v, k) && Reach(g, v, h.At(v, k).dst) ==>
               h.At(v, k).len == Dist(g, v, h.At(v, k).dst)
    ensures SkipsHarmless(g, h, v)
  {
    forall k: nat | h.Has(v, k) && h.Up(v, k)
      ensures KeptInstead(g, h, v, k)
    {
      if Reach(g, v, h.At(v, k).dst) {
        var j := FirstTo(h, v, k);
        SelfDist(g, h.At(v, k).dst);
        assert ClimbsOver(g, h, v, j, h.At(v, k).dst);
      }
    }
  }

  /**
   * Following the edge of an entry (x, d) leads to a higher node whose label holds x at distance d less the
   * edge's length, so that the walk to the hub can be continued there.
   */
  lemma FollowEntry(g: Graph, h: Hierarchy, labels: seq<Label>, i: int, v: nat, x: nat)
    requires Symmetric(g) && Climbs(g, h) && BuiltAbove(g, h, labels, i) && CanonicalAbove(g, h, labels, i)
    requires v < |h.adj| && h.lvl[v] > i && x in labels[v] && x != v
    ensures x < |h.adj| && 0 <= labels[v][x].edge < |h.store|
    ensures var e := h.store[labels[v][x].edge];
            && e.src == v && e.dst < |h.adj| && h.lvl[v] < h.lvl[e.dst] <= h.lvl[x]
            && x in labels[e.dst] && e.len + labels[e.dst][x].dist == labels[v][x].dist
  {
    var m: Label :| Merged(g, h, labels, v, m) && Pruned(labels, v, m, labels[v]);
    assert Towards(g, h, v, m[x], x);
    var j: nat :| h.Has(v, j) && h.adj[v][j] == m[x].edge && h.Up(v, j) && h.First(v, j);
    assert Canonical(g, h.lvl, v, labels[v]);
    Triangle(g, v, h.At(v, j).dst, x);
    assert ClimbsOver(g, h, v, j, x);
    ClimbOnShortest(g, h, v, j, x);
    PeakOnTheWay(g, h.lvl, v, h.At(v, j).dst, x);
    assert Canonical(g, h.lvl, h.At(v, j).dst, labels[h.At(v, j).dst]);
  }

  /** The canonical label of a node is unique, but for first edges. */
  lemma CanonicalIsUnique(g: Graph, lvl: seq<nat>, v: nat, a: Label, b: Label)
    requires Canonical(g, lvl, v, a) && Canonical(g, lvl, v, b)
    ensures a.Keys == b.Keys && (forall x: nat :: x in a ==> a[x].dist == b[x].dist)
  {
    assert forall x: nat :: x in a.Keys <==> x in b.Keys;
  }

  /** Any two tables built from the top down agree on hubs and distances, whichever equally good edges they store. */
  lemma BuiltTablesAgree(g: Graph, h: Hierarchy, a: seq<Label>, b: seq<Label>, i: int, v: nat)
    requires Symmetric(g) && Positive(g) && Within(g, |h.adj|) && Climbs(g, h) && HarmlessAbove(g, h, i)
    requires BuiltAbove(g, h, a, i) && BuiltAbove(g, h, b, i) && v < |h.adj| && h.lvl[v] > i
    ensures a[v].Keys == b[v].Keys && (forall x: nat :: x in a[v] ==> a[v][x].dist == b[v][x].dist)
  {
    BuiltFromTheTop(g, h, a, i);
    BuiltFromTheTop(g, h, b, i);
    CanonicalIsUnique(g, h.lvl, v, a[v], b[v]);
  }

  // ---------- from cores to labels ----------

  /** At every node, the stored upward edges are exactly the edges it had in the core of its own level. */
  ghost predicate FromCores(cores: seq<Graph>, h: Hierarchy)
    requires h.Shape() && (forall u: nat :: u < |h.lvl| ==> h.lvl[u] < |cores|)
  {
    && (forall v: nat, k: nat :: h.Has(v, k) && h.Up(v, k) ==> h.At(v, k) in cores[h.lvl[v]])
    && (forall v: nat, e :: v < |h.adj| && e in cores[h.lvl[v]] && e.src == v ==>
          exists k: nat :: h.Has(v, k) && h.At(v, k) == e)
  }

  /** A shortest walk to a peak, taken in the core of v's level, starts with an upward edge. */
  lemma CoreStart(g: Graph, cores: seq<Graph>, h: Hierarchy, v: nat, t: nat) returns (k: nat)
    requires Cores(g, cores, h.lvl) && h.Shape() && FromCores(cores, h)
    requires v < |h.adj| && t < |h.adj| && v != t && Peak(g, h.lvl, v, t)
    ensures h.Has(v, k) && ClimbsOver(g, h, v, k, t)
  {
    var core := cores[h.lvl[v]];
    assert CoreAt(g, core, h.lvl, h.lvl[v]);
    OnShortestEnds(g, v, t);
    assert h.lvl[t] >= h.lvl[v];
    assert SameDist(g, core, v, t);
    var e := FirstEdge(core, v, t);
    assert SameDist(g, core, e.dst, t);
    k :| h.Has(v, k) && h.At(v, k) == e;
  }

  /** Cores with the original distances give a hierarchy over which every peak is reached. */
  lemma CoresClimb(g: Graph, cores: seq<Graph>, h: Hierarchy)
    requires Cores(g, cores, h.lvl) && h.Shape() && FromCores(cores, h)
    ensures Climbs(g, h)
  {
    forall v: nat, k: nat | h.Has(v, k) && h.Up(v, k)
      ensures Reach(g, v, h.At(v, k).dst) && Dist(g, v, h.At(v, k).dst) <= h.At(v, k).len
    {
      EdgeDist(cores[h.lvl[v]], h.At(v, k));
      assert CoreAt(g, cores[h.lvl[v]], h.lvl, h.lvl[v]);
      assert SameDist(g, cores[h.lvl[v]], v, h.At(v, k).dst);
    }
    forall v: nat, t: nat | v < |h.adj| && t < |h.adj| && v != t && Peak(g, h.lvl, v, t)
      ensures exists k: nat :: h.Has(v, k) && ClimbsOver(g, h, v, k, t)
    {
      var k := CoreStart(g, cores, h, v, t);
    }
  }
}
