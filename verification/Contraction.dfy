/**
 * Contraction hierarchies on paper: contracting a whole independent set at once keeps the distances
 * between the surviving nodes, and the cores of all levels together are a hierarchy for labelling.
 */
module Contraction {
  import opened Graphs

  /** a and b agree on whether t is reachable from s, and at what distance. */
  ghost predicate SameDist(a: Graph, b: Graph, s: nat, t: nat)
  {
    && (Reach(a, s, t) <==> Reach(b, s, t))
    && (Reach(a, s, t) ==> Dist(a, s, t) == Dist(b, s, t))
  }

  ghost predicate Independent(g: Graph, gone: set<nat>)
  {
    forall e :: e in g ==> !(e.src in gone && e.dst in gone)
  }

  /** The way over the middle node of a and b is a shortest way between their outer ends. */
  ghost predicate TightPair(g: Graph, a: Edge, b: Edge)
  {
    && a in g && b in g && a.dst == b.src && a.src != b.dst
    && Reach(g, a.src, b.dst) && a.len + b.len == Dist(g, a.src, b.dst)
  }

  /** e joins two nodes that stay and is no shorter than their distance. */
  ghost predicate Realises(g: Graph, gone: set<nat>, e: Edge)
  {
    e.src !in gone && e.dst !in gone && Reach(g, e.src, e.dst) && Dist(g, e.src, e.dst) <= e.len
  }

  /**
   * What one level makes of the core g: edges at the nodes in gone disappear, all others stay, every way
   * over a vanishing node that is a shortest one gets a shortcut, and nothing shorter than the truth appears.
   */
  ghost predicate Contracts(g: Graph, gone: set<nat>, g': Graph)
  {
    && (forall e {:trigger Realises(g, gone, e)} :: e in g' ==> Realises(g, gone, e))
    && (forall e :: e in g && e.src !in gone && e.dst !in gone ==> e in g')
    && (forall a, b :: TightPair(g, a, b) && a.dst in gone ==> Edge(a.src, b.dst, a.len + b.len) in g')
  }

  /** No walk of the new core is shorter than the distance in the old one. */
  lemma {:induction false} NoShorter(g: Graph, gone: set<nat>, g': Graph, s: nat, p: seq<Edge>, t: nat)
    requires Contracts(g, gone, g') && Walk(g', s, p, t)
    ensures Reach(g, s, t) && Dist(g, s, t) <= Length(p)
    decreases |p|
  {
    if p == [] {
      SelfDist(g, s);
    } else {
      assert Realises(g, gone, p[0]);
      NoShorter(g, gone, g', p[0].dst, p[1..], t);
      Triangle(g, s, p[0].dst, t);
    }
  }

  /** Two steps in a row along a shortest walk are a shortest way between their ends. */
  lemma TwoSteps(g: Graph, a: Edge, b: Edge, t: nat)
    requires Positive(g) && a in g && b in g && a.dst == b.src
    requires Reach(g, a.src, t) && Reach(g, a.dst, t) && a.len + Dist(g, a.dst, t) == Dist(g, a.src, t)
    requires Reach(g, b.dst, t) && b.len + Dist(g, b.dst, t) == Dist(g, b.src, t)
    ensures TightPair(g, a, b) && a.len + b.len + Dist(g, b.dst, t) == Dist(g, a.src, t)
  {
    EdgeDist(g, a);
    EdgeDist(g, b);
    Triangle(g, a.src, a.dst, b.dst);
    Triangle(g, a.src, b.dst, t);
  }

  lemma EdgeThen(g: Graph, e: Edge, t: nat)
    requires e in g && Reach(g, e.dst, t)
    ensures Reach(g, e.src, t) && Dist(g, e.src, t) <= e.len + Dist(g, e.dst, t)
  {
    EdgeDist(g, e);
    Triangle(g, e.src, e.dst, t);
  }

  /** A shortest walk of the old core is matched by one that avoids every contracted node. */
  lemma {:induction false} NoLonger(g: Graph, gone: set<nat>, g': Graph, s: nat, t: nat)
    requires Positive(g) && Independent(g, gone) && Contracts(g, gone, g')
    requires Reach(g, s, t) && s !in gone && t !in gone
    ensures Reach(g', s, t) && Dist(g', s, t) <= Dist(g, s, t)
    decreases Dist(g, s, t)
  {
    if s == t {
      SelfDist(g', s);
    } else {
      var a := FirstEdge(g, s, t);
      if a.dst !in gone {
        NoLonger(g, gone, g', a.dst, t);
        EdgeThen(g', a, t);
      } else {
        var b := FirstEdge(g, a.dst, t);
        TwoSteps(g, a, b, t);
        NoLonger(g, gone, g', b.dst, t);
        EdgeThen(g', Edge(a.src, b.dst, a.len + b.len), t);
      }
    }
  }

  /** Contracting an independent set all at once keeps every distance between survivors. */
  lemma ContractionKeepsDistances(g: Graph, gone: set<nat>, g': Graph)
    requires Positive(g) && Independent(g, gone) && Contracts(g, gone, g')
    ensures forall s: nat, t: nat :: s !in gone && t !in gone ==> SameDist(g, g', s, t)
  {
    forall s: nat, t: nat | s !in gone && t !in gone
      ensures SameDist(g, g', s, t)
    {
      if Reach(g', s, t) {
        var p :| Walk(g', s, p, t) && Length(p) == Dist(g', s, t);
        NoShorter(g, gone, g', s, p, t);
      }
      if Reach(g, s, t) {
        NoLonger(g, gone, g', s, t);
      }
    }
  }

  // ---------- the cores of all levels ----------

  /**
   * The core of level i, seen from the original graph g: it joins nodes of level i and above, never two of
   * level i, and has the original distances between all of its nodes.
   */
  ghost predicate CoreAt(g: Graph, core: Graph, lvl: seq<nat>, i: nat)
  {
    && Within(core, |lvl|)
    && (forall e :: e in core ==> lvl[e.src] >= i && lvl[e.dst] >= i && (lvl[e.src] > i || lvl[e.dst] > i))
    && (forall s: nat, t: nat :: s < |lvl| && t < |lvl| && lvl[s] >= i && lvl[t] >= i ==> SameDist(g, core, s, t))
  }

  /** One core for each level that occurs. */
  ghost predicate Cores(g: Graph, cores: seq<Graph>, lvl: seq<nat>)
  {
    && (forall u :: 0 <= u < |lvl| ==> lvl[u] < |cores|)
    && (forall i :: 0 <= i < |cores| ==> CoreAt(g, cores[i], lvl, i))
  }

  /** Raising levels that lie above i keeps the core of level i in place. */
  lemma CoreAtStable(g: Graph, core: Graph, lvl: seq<nat>, lvl': seq<nat>, i: nat)
    requires CoreAt(g, core, lvl, i) && |lvl| == |lvl'|
    requires forall u :: 0 <= u < |lvl| ==> lvl[u] == lvl'[u] || (lvl[u] > i && lvl'[u] > i)
    ensures CoreAt(g, core, lvl', i)
  {
  }
}
