/** The plain router's graph: an edge list sorted by start node, with an offset array into it. */
module Grids {
  import opened Graphs

  ghost predicate SortedByStart(es: seq<Edge>) { forall i, j :: 0 <= i < j < |es| ==> es[i].src <= es[j].src }

  ghost function EdgeSet(es: seq<Edge>): Graph { set e | e in es }

  /** The slice from offset[u] up to offset[u + 1] holds exactly the edges that start at u. */
  ghost predicate SliceOf(offset: seq<int>, es: seq<Edge>, u: nat)
    requires u + 1 < |offset|
  {
    && 0 <= offset[u] <= offset[u + 1] <= |es|
    && (forall i: nat :: i < |es| ==> (offset[u] <= i < offset[u + 1] <==> es[i].src == u))
  }

  ghost predicate Sliced(offset: seq<int>, es: seq<Edge>, n: nat)
  {
    |offset| == n + 1 && forall u: nat {:trigger SliceOf(offset, es, u)} :: u < n ==> SliceOf(offset, es, u)
  }

  /** How many edges start at u. */
  ghost function CountAt(es: seq<Edge>, u: nat): nat
  {
    if es == [] then 0
    else CountAt(es[..|es| - 1], u) + if es[|es| - 1].src == u then 1 else 0
  }

  /** How many edges start below u. */
  ghost function CountBelow(es: seq<Edge>, u: nat): (c: nat)
    ensures c <= |es|
  {
    if es == [] then 0
    else CountBelow(es[..|es| - 1], u) + if es[|es| - 1].src < u then 1 else 0
  }

  lemma {:induction false} CountStep(es: seq<Edge>, u: nat)
    ensures CountBelow(es, u + 1) == CountBelow(es, u) + CountAt(es, u)
    ensures CountBelow(es, 0) == 0
  {
    if es != [] {
      CountStep(es[..|es| - 1], u);
    }
  }

  /** In a sorted edge list the edges that start below u come first. */
  lemma {:induction false} SortedPosition(es: seq<Edge>, u: nat, i: nat)
    requires SortedByStart(es) && i < |es|
    ensures es[i].src < u <==> i < CountBelow(es, u)
  {
    var last := |es| - 1;
    if i < last {
      SortedPosition(es[..last], u, i);
    } else if last > 0 {
      SortedPosition(es[..last], u, last - 1);
    }
  }

  lemma OffsetsSlice(offset: seq<int>, es: seq<Edge>, n: nat)
    requires SortedByStart(es) && |offset| == n + 1
    requires forall u: nat :: u <= n ==> offset[u] == CountBelow(es, u)
    ensures Sliced(offset, es, n)
  {
    forall u: nat | u < n
      ensures SliceOf(offset, es, u)
    {
      CountStep(es, u);
      forall i: nat | i < |es|
        ensures offset[u] <= i < offset[u + 1] <==> es[i].src == u
      {
        SortedPosition(es, u, i);
        SortedPosition(es, u + 1, i);
      }
    }
  }

  class Grid {
    const nodeCount: nat
    /** The columns startNode, destNode and dist of the Edge store, row by row. */
    const edges: seq<Edge>
    const offset: array<int>

    ghost predicate Valid()
      reads offset
    {
      Within(EdgeSet(edges), nodeCount) && Sliced(offset[..], edges, nodeCount)
    }

    /** The slice of u, read up to i: it starts empty, grows edge by edge, and ends with all edges of u. */
    lemma SliceGrows(u: nat, i: nat)
      requires Valid() && u < nodeCount && offset[u] <= i <= offset[u + 1]
      ensures 0 <= offset[u] <= offset[u + 1] <= |edges|
      ensures EdgeSet(edges[offset[u]..offset[u]]) == {}
      ensures i < offset[u + 1] ==> edges[i].src == u
      ensures i < offset[u + 1] ==> EdgeSet(edges[offset[u]..i + 1]) == EdgeSet(edges[offset[u]..i]) + {edges[i]}
      ensures forall e :: e in EdgeSet(edges) && e.src == u ==> e in EdgeSet(edges[offset[u]..offset[u + 1]])
    {
      assert SliceOf(offset[..], edges, u);
      if i < offset[u + 1] {
        assert edges[offset[u]..i + 1] == edges[offset[u]..i] + [edges[i]];
      }
      forall e | e in EdgeSet(edges) && e.src == u
        ensures e in EdgeSet(edges[offset[u]..offset[u + 1]])
      {
        var j: nat :| j < |edges| && edges[j] == e;
        assert edges[offset[u]..offset[u + 1]][j - offset[u]] == e;
      }
    }

    /** Count the edges of every node, then add the counts up in place. */
    constructor (nodeCount: nat, edges: seq<Edge>)
      requires SortedByStart(edges) && Within(EdgeSet(edges), nodeCount)
      ensures Valid() && fresh(offset) && this.nodeCount == nodeCount && this.edges == edges
    {
      this.nodeCount := nodeCount;
      this.edges := edges;
      offset := new int[nodeCount + 1](_ => 0);
      new;
      CountEdges();
      SumUp();
      OffsetsSlice(offset[..], edges, nodeCount);
    }

    /** Put the number of edges of node u into place u + 1. */
    method CountEdges()
      requires offset.Length == nodeCount + 1 && Within(EdgeSet(edges), nodeCount)
      requires forall u :: 0 <= u < offset.Length ==> offset[u] == 0
      modifies offset
      ensures offset[0] == 0
      ensures forall u: nat :: 0 < u <= nodeCount ==> offset[u] == CountAt(edges, u - 1)
    {
      for i := 0 to |edges|
        invariant offset[0] == 0
        invariant forall u: nat :: 0 < u <= nodeCount ==> offset[u] == CountAt(edges[..i], u - 1)
      {
        assert edges[i] in EdgeSet(edges);
        assert edges[..i + 1][..i] == edges[..i];
        offset[edges[i].src + 1] := offset[edges[i].src + 1] + 1;
      }
      assert edges[..|edges|] == edges;
    }

    /** Add to every place the sum of the places before it. */
    method SumUp()
      requires offset.Length == nodeCount + 1 && offset[0] == 0
      requires forall u: nat :: 0 < u <= nodeCount ==> offset[u] == CountAt(edges, u - 1)
      modifies offset
      ensures forall u: nat :: u <= nodeCount ==> offset[u] == CountBelow(edges, u)
    {
      CountStep(edges, 0);
      for i := 1 to offset.Length
        invariant forall u: nat :: u < i ==> offset[u] == CountBelow(edges, u)
        invariant forall u: nat :: i <= u <= nodeCount ==> offset[u] == CountAt(edges, u - 1)
      {
        CountStep(edges, i - 1);
        offset[i] := offset[i] + offset[i - 1];
      }
    }
  }
}
