/** The adjacency lists of the contraction: the current edges of every node, and all it ever had. */
module DynamicGrids {
  import opened Graphs
  import opened Networks

  /** How many of the listed edges end at y. */
  ghost function CountTo(store: seq<Edge>, list: seq<nat>, y: nat): nat
    requires forall i :: 0 <= i < |list| ==> list[i] < |store|
  {
    if list == [] then 0
    else CountTo(store, list[..|list| - 1], y) + if store[list[|list| - 1]].dst == y then 1 else 0
  }

  /** The list with its last element moved to position p. */
  function SwapOut(list: seq<nat>, p: nat): (r: seq<nat>)
    requires p < |list|
    ensures |r| == |list| - 1
    ensures forall i :: 0 <= i < |r| ==> r[i] == if i == p then list[|list| - 1] else list[i]
  {
    list[p := list[|list| - 1]][..|list| - 1]
  }

  lemma {:induction false} CountUpdate(store: seq<Edge>, list: seq<nat>, p: nat, x: nat, y: nat)
    requires (forall i :: 0 <= i < |list| ==> list[i] < |store|) && p < |list| && x < |store|
    ensures CountTo(store, list[p := x], y) + (if store[list[p]].dst == y then 1 else 0)
            == CountTo(store, list, y) + (if store[x].dst == y then 1 else 0)
  {
    var n := |list| - 1;
    if p < n {
      assert list[p := x][..n] == list[..n][p := x];
      CountUpdate(store, list[..n], p, x, y);
    } else {
      assert list[p := x][..n] == list[..n];
    }
  }

  lemma CountSwapOut(store: seq<Edge>, list: seq<nat>, p: nat, y: nat)
    requires (forall i :: 0 <= i < |list| ==> list[i] < |store|) && p < |list|
    ensures CountTo(store, SwapOut(list, p), y) == CountTo(store, list, y) - if store[list[p]].dst == y then 1 else 0
  {
    CountUpdate(store, list, p, list[|list| - 1], y);
  }

  /** A count is positive exactly when some listed edge ends there. */
  lemma {:induction false} CountPositive(store: seq<Edge>, list: seq<nat>, y: nat)
    requires forall i :: 0 <= i < |list| ==> list[i] < |store|
    ensures CountTo(store, list, y) > 0 <==> exists i :: 0 <= i < |list| && store[list[i]].dst == y
  {
    if list != [] {
      CountPositive(store, list[..|list| - 1], y);
    }
  }

  lemma {:induction false} CountPrefix(store: seq<Edge>, list: seq<nat>, k: nat, y: nat)
    requires (forall i :: 0 <= i < |list| ==> list[i] < |store|) && k <= |list|
    ensures CountTo(store, list[..k], y) <= CountTo(store, list, y)
    decreases |list|
  {
    if k < |list| {
      assert list[..|list| - 1][..k] == list[..k];
      CountPrefix(store, list[..|list| - 1], k, y);
    } else {
      assert list[..k] == list;
    }
  }

  /** Appending edges to the store changes no count. */
  lemma {:induction false} CountGrownStore(store: seq<Edge>, more: seq<Edge>, list: seq<nat>, y: nat)
    requires forall i :: 0 <= i < |list| ==> list[i] < |store|
    ensures CountTo(store + more, list, y) == CountTo(store, list, y)
  {
    if list != [] {
      CountGrownStore(store, more, list[..|list| - 1], y);
    }
  }

  /** How often id stands in the list. */
  function Times(list: seq<nat>, id: nat): nat { multiset(list)[id] }

  lemma TimesIn(list: seq<nat>, id: nat)
    ensures Times(list, id) > 0 <==> id in list
  {
    assert id in multiset(list) <==> id in list;
  }

  lemma TimesSwapOut(list: seq<nat>, p: nat, id: nat)
    requires p < |list|
    ensures Times(SwapOut(list, p), id) == Times(list, id) - if list[p] == id then 1 else 0
  {
    var n := |list| - 1;
    var x: multiset<nat>, y: multiset<nat> := multiset{list[p]}, multiset{list[n]};
    var before: multiset<nat>, after: multiset<nat> := multiset(list), multiset(SwapOut(list, p));
    assert list[p := list[n]] == SwapOut(list, p) + [list[n]];
    assert multiset(SwapOut(list, p) + [list[n]]) == after + y;
    assert multiset(list[p := list[n]]) == before - x + y;
    assert list[p] in before && (before - x + y)[id] == (after + y)[id];
  }

  /** Between any two nodes there are as many listed edges one way as the other. */
  ghost predicate Balanced(net: Net)
    requires net.Shape()
  {
    forall x: nat, y: nat {:trigger CountTo(net.store, net.adj[x], y)} :: x < |net.adj| && y < |net.adj| ==>
      CountTo(net.store, net.adj[x], y) == CountTo(net.store, net.adj[y], x)
  }

  /** The ids of a list of u are edges that start at u. */
  ghost predicate ListOf(store: seq<Edge>, u: nat, list: seq<nat>)
  {
    && (forall i :: 0 <= i < |list| ==> list[i] < |store|)
    && (forall id :: id in list ==> id < |store| && store[id].src == u)
  }

  /** The list of u after so many of its edges to v have been taken out. */
  ghost predicate StrippedList(store: seq<Edge>, u: nat, before: seq<nat>, after: seq<nat>, v: nat, taken: nat)
  {
    && ListOf(store, u, before) && ListOf(store, u, after)
    && (forall id :: id in after ==> id in before)
    && (forall id: nat {:trigger Times(after, id)} ::
          id < |store| && store[id].dst != v ==> Times(after, id) == Times(before, id))
    && CountTo(store, after, v) == CountTo(store, before, v) - taken
    && (forall y: nat {:trigger CountTo(store, after, y)} ::
          y != v ==> CountTo(store, after, y) == CountTo(store, before, y))
  }

  ghost predicate StrippedAt(store: seq<Edge>, a: seq<seq<nat>>, b: seq<seq<nat>>, v: nat, k: nat, u: nat)
    requires Net(store, a).Shape() && |b| == |a| && v < |a| && u < |a| && k <= |a[v]|
  {
    ListOf(store, v, a[v]) && StrippedList(store, u, a[u], b[u], v, CountTo(store, a[v][..k], u))
  }

  /** The lists b are what is left of a when the backward edges of the first k edges of v are gone. */
  ghost predicate Stripped(store: seq<Edge>, a: seq<seq<nat>>, b: seq<seq<nat>>, v: nat, k: nat)
    requires Net(store, a).Shape() && v < |a| && k <= |a[v]|
  {
    && |b| == |a| && b[v] == a[v]
    && (forall u: nat {:trigger StrippedAt(store, a, b, v, k, u)} :: u < |a| && u != v ==>
          StrippedAt(store, a, b, v, k, u))
  }

  /** Taking one more of them out, wherever it stands. */
  lemma StripList(store: seq<Edge>, u: nat, before: seq<nat>, after: seq<nat>, v: nat, taken: nat, p: nat)
    requires StrippedList(store, u, before, after, v, taken) && p < |after| && store[after[p]].dst == v
    ensures StrippedList(store, u, before, SwapOut(after, p), v, taken + 1)
  {
    forall id: nat | id < |store| && store[id].dst != v
      ensures Times(SwapOut(after, p), id) == Times(before, id)
    {
      TimesSwapOut(after, p, id);
      assert Times(after, id) == Times(before, id);
    }
    forall y: nat | y != v
      ensures CountTo(store, SwapOut(after, p), y) == CountTo(store, before, y)
    {
      CountSwapOut(store, after, p, y);
      assert CountTo(store, after, y) == CountTo(store, before, y);
    }
    CountSwapOut(store, after, p, v);
  }

  lemma ShapeLists(net: Net, u: nat)
    requires net.Shape() && u < |net.adj|
    ensures ListOf(net.store, u, net.adj[u])
  {
    forall id | id in net.adj[u]
      ensures id < |net.store| && net.store[id].src == u
    {
      var i: nat :| i < |net.adj[u]| && net.adj[u][i] == id;
      assert net.Has(u, i);
    }
  }

  lemma StrippedStart(store: seq<Edge>, a: seq<seq<nat>>, v: nat)
    requires Net(store, a).Shape() && v < |a|
    ensures Stripped(store, a, a, v, 0)
  {
    forall u: nat | u < |a| && u != v
      ensures StrippedAt(store, a, a, v, 0, u)
    {
      ShapeLists(Net(store, a), u);
      ShapeLists(Net(store, a), v);
    }
  }

  /** Taking one more backward edge out, at any position where there is one. */
  lemma StripOne(store: seq<Edge>, a: seq<seq<nat>>, b: seq<seq<nat>>, v: nat, k: nat, p: nat)
    requires Net(store, a).Shape() && v < |a| && k < |a[v]| && Stripped(store, a, b, v, k)
    requires var u := store[a[v][k]].dst;
             u < |a| && u != v && p < |b[u]| && b[u][p] < |store| && store[b[u][p]].dst == v
    ensures Stripped(store, a, b[store[a[v][k]].dst := SwapOut(b[store[a[v][k]].dst], p)], v, k + 1)
  {
    var w := store[a[v][k]].dst;
    var c := b[w := SwapOut(b[w], p)];
    assert a[v][..k + 1][..k] == a[v][..k];
    forall u: nat {:trigger StrippedAt(store, a, c, v, k + 1, u)} | u < |a| && u != v
      ensures StrippedAt(store, a, c, v, k + 1, u)
    {
      assert StrippedAt(store, a, b, v, k, u);
      if u == w {
        StripList(store, u, a[u], b[u], v, CountTo(store, a[v][..k], u), p);
      }
    }
  }

  /** A backward edge is left as long as a forward one is. */
  lemma BackwardEdgeLeft(store: seq<Edge>, a: seq<seq<nat>>, b: seq<seq<nat>>, v: nat, k: nat)
    requires Net(store, a).Shape() && Balanced(Net(store, a)) && v < |a| && k < |a[v]| && Stripped(store, a, b, v, k)
    requires store[a[v][k]].dst != v
    ensures store[a[v][k]].dst < |a| && ListOf(store, store[a[v][k]].dst, b[store[a[v][k]].dst])
    ensures exists i :: 0 <= i < |b[store[a[v][k]].dst]| && store[b[store[a[v][k]].dst][i]].dst == v
  {
    assert Net(store, a).Has(v, k);
    var u := store[a[v][k]].dst;
    assert StrippedAt(store, a, b, v, k, u);
    assert CountTo(store, a[u], v) == CountTo(store, a[v], u);
    CountPrefix(store, a[v], k + 1, u);
    assert a[v][..k + 1][..k] == a[v][..k];
    CountPositive(store, b[u], v);
  }

  /** In the list b, an id stands as often as in a if its edge does not end in done, and not at all otherwise. */
  ghost predicate Reduced(store: seq<Edge>, a: seq<nat>, b: seq<nat>, done: set<nat>)
  {
    && (forall id: nat {:trigger Times(b, id)} :: id < |store| ==>
          Times(b, id) == if store[id].dst in done then 0 else Times(a, id))
    && (forall id :: id in b ==> id < |store|)
  }

  lemma ReducedIn(store: seq<Edge>, a: seq<nat>, b: seq<nat>, done: set<nat>)
    requires Reduced(store, a, b, done)
    ensures forall id: nat :: id in b <==> id in a && id < |store| && store[id].dst !in done
  {
    forall id: nat
      ensures id in b <==> id in a && id < |store| && store[id].dst !in done
    {
      TimesIn(a, id);
      TimesIn(b, id);
    }
  }

  /** The lists without v: only edges at v are gone. */
  ghost predicate Without(store: seq<Edge>, a: seq<seq<nat>>, b: seq<seq<nat>>, v: nat)
    requires Net(store, a).Shape()
  {
    && |b| == |a| && v < |a| && b[v] == [] && Net(store, b).Shape()
    && (forall u: nat {:trigger b[u]} :: u < |a| && u != v ==> Reduced(store, a[u], b[u], {v}))
  }

  lemma StrippedBalanced(store: seq<Edge>, a: seq<seq<nat>>, b: seq<seq<nat>>, v: nat)
    requires Net(store, a).Shape() && Balanced(Net(store, a)) && v < |a| && Stripped(store, a, b, v, |a[v]|)
    requires Net(store, b[v := []]).Shape()
    ensures Balanced(Net(store, b[v := []]))
  {
    var c := b[v := []];
    assert a[v][..|a[v]|] == a[v];
    forall x: nat, y: nat | x < |c| && y < |c|
      ensures CountTo(store, c[x], y) == CountTo(store, c[y], x)
    {
      if x != v {
        assert StrippedAt(store, a, b, v, |a[v]|, x);
        assert CountTo(store, a[x], v) == CountTo(store, a[v], x);
      }
      if y != v {
        assert StrippedAt(store, a, b, v, |a[v]|, y);
        assert CountTo(store, a[y], v) == CountTo(store, a[v], y);
      }
      assert CountTo(store, a[x], y) == CountTo(store, a[y], x);
    }
  }

  lemma StrippedIsWithout(store: seq<Edge>, a: seq<seq<nat>>, b: seq<seq<nat>>, v: nat)
    requires Net(store, a).Shape() && Balanced(Net(store, a)) && v < |a| && Stripped(store, a, b, v, |a[v]|)
    ensures Without(store, a, b[v := []], v) && Balanced(Net(store, b[v := []]))
  {
    var c := b[v := []];
    assert a[v][..|a[v]|] == a[v];
    forall u: nat | u < |a| && u != v
      ensures ListOf(store, u, c[u]) && Reduced(store, a[u], c[u], {v})
    {
      assert StrippedAt(store, a, b, v, |a[v]|, u);
      assert CountTo(store, a[u], v) == CountTo(store, a[v], u);
      CountPositive(store, c[u], v);
      forall id: nat | id < |store|
        ensures Times(c[u], id) == if store[id].dst in {v} then 0 else Times(a[u], id)
      {
        TimesIn(c[u], id);
        assert store[id].dst != v ==> Times(b[u], id) == Times(a[u], id);
      }
    }
    forall u: nat, i: nat | Net(store, c).Has(u, i)
      ensures c[u][i] < |store| && store[c[u][i]].src == u
    {
      assert c[u][i] in c[u];
    }
    StrippedBalanced(store, a, b, v);
  }

  /** Position p is the first at which an edge of the list was leads to start; in now the last id has taken it. */
  ghost predicate TakenFrom(store: seq<Edge>, was: seq<nat>, now: seq<nat>, start: nat, p: nat)
  {
    && p < |was| && was[p] < |store| && store[was[p]].dst == start
    && (forall i :: 0 <= i < p ==> was[i] < |store| && store[was[i]].dst != start)
    && |now| == |was| - 1
    && (forall i :: 0 <= i < |now| && i != p ==> now[i] == was[i])
    && (p < |now| ==> now[p] == was[|was| - 1])
  }

  /**
   * From a to b the first edge of x that leads to start has left the list of x: at its place stands the last id, unless
   * it was the last one itself, and no other place has changed.
   */
  ghost predicate TakenBack(store: seq<Edge>, a: seq<seq<nat>>, b: seq<seq<nat>>, start: nat, x: nat)
  {
    && |b| == |a| && x < |a| && (forall u: nat {:trigger b[u]} :: u < |a| && u != x ==> b[u] == a[u])
    && (exists p: nat :: TakenFrom(store, a[x], b[x], start, p))
  }

  /** From state k to state k + 1 the edge opposite to v's edge k has been taken out. */
  ghost predicate TakenOne(store: seq<Edge>, v: nat, states: seq<seq<seq<nat>>>, k: nat)
  {
    && k + 1 < |states| && v < |states[0]| && k < |states[0][v]| && states[0][v][k] < |store|
    && TakenBack(store, states[k], states[k + 1], v, store[states[0][v][k]].dst)
  }

  /** The states lead from the lists a to b: one edge of v after the other, in order, loses its opposite one. */
  ghost predicate TakenInOrder(store: seq<Edge>, v: nat, a: seq<seq<nat>>, b: seq<seq<nat>>, k: nat,
                               states: seq<seq<seq<nat>>>)
  {
    && |states| == k + 1 && states[0] == a && states[k] == b
    && (forall j: nat {:trigger TakenOne(store, v, states, j)} :: j < k ==> TakenOne(store, v, states, j))
  }

  ghost predicate NodeTakenOver(store: seq<Edge>, a: seq<seq<nat>>, b: seq<seq<nat>>, v: nat,
                                states: seq<seq<seq<nat>>>)
  {
    && v < |a| && states != []
    && var c := states[|states| - 1];
      TakenInOrder(store, v, a, c, |a[v]|, states) && v < |c| && b == c[v := []]
  }

  /** From a to b all edges of v have, in order, lost their opposite ones, and then the list of v has been emptied. */
  ghost predicate NodeTaken(store: seq<Edge>, a: seq<seq<nat>>, b: seq<seq<nat>>, v: nat)
  {
    exists states: seq<seq<seq<nat>>> :: NodeTakenOver(store, a, b, v, states)
  }

  /** From a to b the nodes have been taken out one after another, the last one first. */
  ghost predicate NodesTaken(store: seq<Edge>, a: seq<seq<nat>>, b: seq<seq<nat>>, nodes: seq<nat>)
    decreases |nodes|
  {
    if nodes == [] then a == b
    else exists c: seq<seq<nat>> :: NodesTaken(store, a, c, nodes[1..]) && NodeTaken(store, c, b, nodes[0])
  }

  lemma TakeNode(store: seq<Edge>, a: seq<seq<nat>>, c: seq<seq<nat>>, b: seq<seq<nat>>, nodes: seq<nat>, i: nat)
    requires i < |nodes| && NodesTaken(store, a, c, nodes[i + 1..]) && NodeTaken(store, c, b, nodes[i])
    ensures NodesTaken(store, a, b, nodes[i..])
  {
    assert nodes[i..][1..] == nodes[i + 1..];
  }

  lemma TakeOne(store: seq<Edge>, v: nat, a: seq<seq<nat>>, b: seq<seq<nat>>, k: nat, states: seq<seq<seq<nat>>>,
                c: seq<seq<nat>>)
    requires TakenInOrder(store, v, a, b, k, states) && v < |a| && k < |a[v]| && a[v][k] < |store|
    requires TakenBack(store, b, c, v, store[a[v][k]].dst)
    ensures TakenInOrder(store, v, a, c, k + 1, states + [c])
  {
    forall j: nat | j < k + 1
      ensures TakenOne(store, v, states + [c], j)
    {
      assert j < k ==> TakenOne(store, v, states, j);
    }
  }

  class DynamicGrid {
    var currentEdgeIds: seq<seq<nat>>
    var allEdgeIds: seq<seq<nat>>

    constructor (edges: seq<seq<nat>>)
      ensures currentEdgeIds == edges && allEdgeIds == edges
    {
      currentEdgeIds, allEdgeIds := edges, edges;
    }

    method AddEdge(nodeId: nat, edgeId: nat)
      requires nodeId < |currentEdgeIds| && nodeId < |allEdgeIds|
      modifies this
      ensures currentEdgeIds == old(currentEdgeIds)[nodeId := old(currentEdgeIds)[nodeId] + [edgeId]]
      ensures allEdgeIds == old(allEdgeIds)[nodeId := old(allEdgeIds)[nodeId] + [edgeId]]
    {
      currentEdgeIds := currentEdgeIds[nodeId := currentEdgeIds[nodeId] + [edgeId]];
      allEdgeIds := allEdgeIds[nodeId := allEdgeIds[nodeId] + [edgeId]];
    }

    /** Remove the first edge of dest that leads to start; the last edge of the list takes its place. */
    method RemoveBackwardsEdge(store: seq<Edge>, start: nat, dest: nat) returns (position: nat)
      requires dest < |currentEdgeIds| && ListOf(store, dest, currentEdgeIds[dest])
      requires exists i :: 0 <= i < |currentEdgeIds[dest]| && store[currentEdgeIds[dest][i]].dst == start
      modifies this`currentEdgeIds
      ensures position < |old(currentEdgeIds)[dest]| && store[old(currentEdgeIds)[dest][position]].dst == start
      ensures currentEdgeIds == old(currentEdgeIds)[dest := SwapOut(old(currentEdgeIds)[dest], position)]
      ensures TakenFrom(store, old(currentEdgeIds)[dest], currentEdgeIds[dest], start, position)
      ensures TakenBack(store, old(currentEdgeIds), currentEdgeIds, start, dest)
    {
      position := 0;
      while store[currentEdgeIds[dest][position]].dst != start
        invariant position < |currentEdgeIds[dest]|
        invariant forall i :: 0 <= i < position ==> store[currentEdgeIds[dest][i]].dst != start
        decreases |currentEdgeIds[dest]| - position
      {
        position := position + 1;
      }
      currentEdgeIds := currentEdgeIds[dest := SwapOut(currentEdgeIds[dest], position)];
      assert TakenFrom(store, old(currentEdgeIds)[dest], currentEdgeIds[dest], start, position);
    }

    /** Remove all edges from or to a node. */
    method RemoveNode(store: seq<Edge>, v: nat)
      requires Net(store, currentEdgeIds).Shape() && Balanced(Net(store, currentEdgeIds)) && v < |currentEdgeIds|
      requires NoLoops(Net(store, currentEdgeIds).Graph())
      modifies this`currentEdgeIds
      ensures Without(store, old(currentEdgeIds), currentEdgeIds, v) && Balanced(Net(store, currentEdgeIds))
      ensures NodeTaken(store, old(currentEdgeIds), currentEdgeIds, v)
    {
      ghost var a := currentEdgeIds;
      ghost var states := [a];
      StrippedStart(store, a, v);
      for k := 0 to |currentEdgeIds[v]|
        invariant |currentEdgeIds| == |a| && currentEdgeIds[v] == a[v] && Stripped(store, a, currentEdgeIds, v, k)
        invariant TakenInOrder(store, v, a, currentEdgeIds, k, states)
      {
        Net(store, a).GraphHas(v, k);
        BackwardEdgeLeft(store, a, currentEdgeIds, v, k);
        ghost var b := currentEdgeIds;
        var p := RemoveBackwardsEdge(store, v, store[currentEdgeIds[v][k]].dst);
        StripOne(store, a, b, v, k, p);
        TakeOne(store, v, a, b, k, states, currentEdgeIds);
        states := states + [currentEdgeIds];
      }
      StrippedIsWithout(store, a, currentEdgeIds, v);
      currentEdgeIds := currentEdgeIds[v := []];
      assert NodeTakenOver(store, a, currentEdgeIds, v, states);
    }
  }
}
