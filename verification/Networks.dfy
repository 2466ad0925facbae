/** Edge tables with adjacency lists of edge ids: the form in which the contraction keeps its graph. */
module Networks {
  import opened Graphs

  /** store[id] is the edge with that id; adj[u] lists the ids of the edges at u. */
  datatype Net = Net(store: seq<Edge>, adj: seq<seq<nat>>) {
    ghost predicate Shape() {
      && (forall u: nat, i: nat :: Has(u, i) ==> adj[u][i] < |store| && store[adj[u][i]].src == u)
      && (forall id: nat :: id < |store| ==> store[id].src < |adj| && store[id].dst < |adj|)
    }

    predicate Has(u: nat, i: nat) { u < |adj| && i < |adj[u]| }

    function At(u: nat, i: nat): (e: Edge)
      requires Shape() && Has(u, i)
      ensures e.src == u && e.dst < |adj|
    {
      store[adj[u][i]]
    }

    /** The graph the lists stand for. */
    ghost function Graph(): Graph
      requires Shape()
    {
      set u: nat, i: nat | u < |adj| && i < |adj[u]| :: store[adj[u][i]]
    }

    lemma GraphHas(u: nat, i: nat)
      requires Shape() && Has(u, i)
      ensures At(u, i) in Graph()
    {
      assert store[adj[u][i]] in Graph();
    }

    /** Where an edge of the graph stands in the lists. */
    lemma Position(e: Edge) returns (i: nat)
      requires Shape() && e in Graph()
      ensures Has(e.src, i) && At(e.src, i) == e
    {
      var u: nat, j: nat :| Has(u, j) && store[adj[u][j]] == e;
      i := j;
    }

    /** The first k edges in the list of u. */
    ghost function FirstEdges(u: nat, k: nat): set<Edge>
      requires Shape() && u < |adj| && k <= |adj[u]|
    {
      set i: nat | i < k :: At(u, i)
    }

    lemma FirstEdgesGrow(u: nat, k: nat)
      requires Shape() && u < |adj| && k <= |adj[u]|
      ensures FirstEdges(u, 0) == {}
      ensures k < |adj[u]| ==> At(u, k) in Graph() && FirstEdges(u, k + 1) == FirstEdges(u, k) + {At(u, k)}
      ensures forall e :: e in Graph() && e.src == u ==> e in FirstEdges(u, |adj[u]|)
    {
      if k < |adj[u]| {
        GraphHas(u, k);
      }
      forall e | e in Graph() && e.src == u
        ensures e in FirstEdges(u, |adj[u]|)
      {
        var i := Position(e);
        assert At(u, i) in FirstEdges(u, |adj[u]|);
      }
    }
  }
}
