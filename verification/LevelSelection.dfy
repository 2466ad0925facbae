/** Choosing the nodes of a level, on values: a maximal independent set of the current graph. */
module LevelSelection {
  import opened Graphs
  import opened Sequences
  import opened Contraction
  import opened Networks
  import opened Shortcuts
  import opened CHDijkstras
  import opened Stages

  function ToSet(s: seq<nat>): (r: set<nat>)
    ensures forall x: nat :: x in r <==> x in s
  {
    set x | x in s
  }

  /** How many nodes are not contracted. */
  function Left(gone: seq<bool>): nat
  {
    if gone == [] then 0 else Left(gone[1..]) + if gone[0] then 0 else 1
  }

  lemma {:induction false} LeftOneLess(gone: seq<bool>, v: nat)
    requires v < |gone| && !gone[v]
    ensures Left(gone[v := true]) + 1 == Left(gone)
  {
    if v > 0 {
      assert gone[v := true][1..] == gone[1..][v - 1 := true];
      LeftOneLess(gone[1..], v - 1);
    } else {
      assert gone[v := true][1..] == gone[1..];
    }
  }

  lemma {:induction false} NoneLeft(gone: seq<bool>)
    ensures Left(gone) == 0 <==> (forall u :: 0 <= u < |gone| ==> gone[u])
  {
    if gone != [] {
      NoneLeft(gone[1..]);
      assert (forall u :: 0 <= u < |gone| ==> gone[u]) <==>
             gone[0] && (forall u :: 0 <= u < |gone[1..]| ==> gone[1..][u]);
    }
  }

  lemma {:induction false} AllLeft(n: nat)
    ensures Left(seq(n, i => false)) == n
  {
    if n > 0 {
      assert seq(n, i => false)[1..] == seq(n - 1, i => false);
      AllLeft(n - 1);
    }
  }

  /** u is picked, or an edge leads from a picked node to u. */
  ghost predicate Marked(net: Net, picked: seq<nat>, u: nat)
    requires net.Shape()
  {
    u in picked || exists e :: e in net.Graph() && e.src in picked && e.dst == u
  }

  /**
   * After some nodes are picked: the flags say which nodes are contracted and which are picked or next to a picked
   * one.
   */
  ghost predicate Picking(a: Stage, picked: seq<nat>, gone: seq<bool>, near: seq<bool>)
    requires a.Lists()
  {
    && |gone| == |near| == |a.gone|
    && (forall u: nat {:trigger a.Alive(u)} :: u in picked ==> a.Alive(u))
    && (forall u: nat {:trigger gone[u]} :: u < |gone| ==> (gone[u] <==> a.gone[u] || u in picked))
    && (forall u: nat {:trigger near[u]} :: u < |near| ==> (near[u] <==> Marked(a.Now(), picked, u)))
    && Independent(a.Core(), ToSet(picked))
    && (forall i, j :: 0 <= i < j < |picked| ==> picked[i] != picked[j])
  }

  lemma PickNone(a: Stage)
    requires a.Lists()
    ensures Picking(a, [], a.gone, seq(|a.gone|, u => false))
  {
  }

  /** An edge leads from v to u. */
  ghost predicate Adjacent(g: Graph, v: nat, u: nat) { exists e :: e in g && e.src == v && e.dst == u }

  /** near' marks v and the ends of v's edges in addition to near. */
  ghost predicate MarksMore(net: Net, near: seq<bool>, v: nat, near': seq<bool>)
    requires net.Shape() && |near| == |net.adj|
  {
    && |near'| == |near|
    && (forall u: nat {:trigger near'[u]} :: u < |near| ==>
          (near'[u] <==> near[u] || u == v || Adjacent(net.Graph(), v, u)))
  }

  /** One of the first j edges in v's list leads to u. */
  ghost predicate ListedTo(net: Net, v: nat, j: nat, u: nat)
    requires net.Shape() && v < |net.adj| && j <= |net.adj[v]|
  {
    exists i: nat :: i < j && net.store[net.adj[v][i]].dst == u
  }

  /** The ends of the edges in a node's list are the ends of its edges in the graph. */
  lemma ListedIsAdjacent(net: Net, v: nat)
    requires net.Shape() && v < |net.adj|
    ensures forall u: nat {:trigger Adjacent(net.Graph(), v, u)} :: ListedTo(net, v, |net.adj[v]|, u) <==>
              Adjacent(net.Graph(), v, u)
  {
    forall u: nat
      ensures ListedTo(net, v, |net.adj[v]|, u) <==> Adjacent(net.Graph(), v, u)
    {
      if ListedTo(net, v, |net.adj[v]|, u) {
        var i: nat :| i < |net.adj[v]| && net.store[net.adj[v][i]].dst == u;
        net.GraphHas(v, i);
      }
      if Adjacent(net.Graph(), v, u) {
        var e :| e in net.Graph() && e.src == v && e.dst == u;
        var i := net.Position(e);
      }
    }
  }

  /** The levels of a, with lvl for the picked nodes. */
  ghost function LevelsWith(a: Stage, picked: seq<nat>, lvl: nat): (r: seq<nat>)
    requires a.Lists()
    ensures |r| == |a.gone| && forall u: nat :: u < |r| ==> r[u] == if u in picked then lvl else a.lvl[u]
  {
    seq(|a.gone|, u requires 0 <= u < |a.gone| => if u in picked then lvl else a.lvl[u])
  }

  lemma PickKeepsIndependence(a: Stage, picked: seq<nat>, gone: seq<bool>, near: seq<bool>, v: nat)
    requires a.CoreOk() && Picking(a, picked, gone, near) && v < |gone| && !near[v]
    ensures v !in picked && Independent(a.Core(), ToSet(picked + [v]))
  {
    forall e | e in a.Core()
      ensures !(e.src in ToSet(picked + [v]) && e.dst in ToSet(picked + [v]))
    {
      assert Flip(e) in a.Core();
    }
  }

  /** A node that is neither contracted nor marked may be picked. */
  lemma PickOne(a: Stage, picked: seq<nat>, gone: seq<bool>, near: seq<bool>, v: nat, near': seq<bool>)
    requires a.CoreOk() && Picking(a, picked, gone, near) && v < |gone| && !gone[v] && !near[v]
    requires MarksMore(a.Now(), near, v, near')
    ensures Picking(a, picked + [v], gone[v := true], near')
  {
    PickKeepsIndependence(a, picked, gone, near, v);
    forall u: nat | u < |near'|
      ensures near'[u] <==> Marked(a.Now(), picked + [v], u)
    {
      if Marked(a.Now(), picked + [v], u) && u !in picked + [v] {
        var e :| e in a.Core() && e.src in picked + [v] && e.dst == u;
        assert e.src in picked || e.src == v;
      }
      if near'[u] && u != v && !near[u] {
        assert v in picked + [v];
      } else if u != v && near[u] && u !in picked {
        var e :| e in a.Core() && e.src in picked && e.dst == u;
        assert e.src in picked + [v];
      }
    }
  }

  /** What the first i nodes of the order lead to when each node that is neither contracted nor marked is picked. */
  ghost function Greedy(net: Net, gone: seq<bool>, order: seq<nat>, i: nat): seq<nat>
    requires net.Shape() && i <= |order|
  {
    if i == 0 then []
    else
      var picked, v := Greedy(net, gone, order, i - 1), order[i - 1];
      if v >= |gone| || gone[v] || Marked(net, picked, v) then picked else picked + [v]
  }

  /** The flags tell what the next node of the order leads to. */
  lemma GreedyStep(a: Stage, picked: seq<nat>, gone: seq<bool>, near: seq<bool>, order: seq<nat>, i: nat)
    requires a.Lists() && Picking(a, picked, gone, near) && i < |order| && order[i] < |gone|
    requires picked == Greedy(a.Now(), a.gone, order, i)
    ensures Greedy(a.Now(), a.gone, order, i + 1) ==
            if gone[order[i]] || near[order[i]] then picked else picked + [order[i]]
  {
  }

  /** No node can be added to the level: every node of the core is picked or next to a picked one. */
  ghost predicate Maximal(net: Net, picked: seq<nat>, gone: seq<bool>)
    requires net.Shape()
  {
    forall u: nat {:trigger Marked(net, picked, u)} :: u < |gone| && !gone[u] ==> Marked(net, picked, u)
  }

  lemma MarkedMore(net: Net, picked: seq<nat>, v: nat, u: nat)
    requires net.Shape() && Marked(net, picked, u)
    ensures Marked(net, picked + [v], u)
  {
    if u !in picked {
      var e :| e in net.Graph() && e.src in picked && e.dst == u;
      assert e.src in picked + [v];
    }
  }

  /** Once its turn has come, a node is contracted or marked. */
  lemma {:induction false} GreedyMarks(net: Net, gone: seq<bool>, order: seq<nat>, i: nat, j: nat)
    requires net.Shape() && j < i <= |order| && order[j] < |gone|
    ensures gone[order[j]] || Marked(net, Greedy(net, gone, order, i), order[j])
  {
    var picked, v := Greedy(net, gone, order, i - 1), order[i - 1];
    if j < i - 1 && !gone[order[j]] {
      GreedyMarks(net, gone, order, i - 1, j);
      MarkedMore(net, picked, v, order[j]);
    }
  }

  /** order lists every node below n exactly once. */
  ghost predicate IsOrder(order: seq<nat>, n: nat)
  {
    && |order| == n && (forall i :: 0 <= i < n ==> order[i] < n)
    && (forall i, j :: 0 <= i < j < n ==> order[i] != order[j])
    && (forall u: nat :: u < n ==> u in order)
  }

  /** Picking greedily from an order of all nodes makes a maximal level. */
  lemma OrderIsMaximal(net: Net, gone: seq<bool>, order: seq<nat>)
    requires net.Shape() && IsOrder(order, |gone|)
    ensures Maximal(net, Greedy(net, gone, order, |order|), gone)
  {
    forall u: nat | u < |gone| && !gone[u]
      ensures Marked(net, Greedy(net, gone, order, |order|), u)
    {
      assert u in order;
      var j :| 0 <= j < |order| && order[j] == u;
      GreedyMarks(net, gone, order, |order|, j);
    }
  }

  /** v stands before u in the order. */
  ghost predicate StandsBefore(order: seq<nat>, v: nat, u: nat)
  {
    exists i, j :: 0 <= i < j < |order| && order[i] == v && order[j] == u
  }

  /** A node of the level that stands before u in the order has an edge to u. */
  ghost predicate Blocked(core: Graph, order: seq<nat>, level: set<nat>, u: nat)
  {
    exists v: nat :: v in level && StandsBefore(order, v, u) && Adjacent(core, v, u)
  }

  ghost predicate PickedInOrder(order: seq<nat>, picked: seq<nat>)
  {
    forall i, j :: 0 <= i < j < |picked| ==> StandsBefore(order, picked[i], picked[j])
  }

  /** Of the nodes that are left, exactly those are picked that no picked node before them has an edge to; in order. */
  ghost predicate PicksFollow(core: Graph, order: seq<nat>, gone: seq<bool>, picked: seq<nat>)
  {
    && (forall u: nat {:trigger Blocked(core, order, ToSet(picked), u)} :: u < |gone| && !gone[u] ==>
          (u in picked <==> !Blocked(core, order, ToSet(picked), u)))
    && (forall u: nat :: u in picked ==> u < |gone| && !gone[u])
    && PickedInOrder(order, picked)
  }

  /** The nodes picked so far stand in the part of the order gone through, in the same order. */
  lemma {:induction false} GreedyWithin(net: Net, gone: seq<bool>, order: seq<nat>, i: nat)
    requires net.Shape() && i <= |order|
    ensures forall v: nat :: v in Greedy(net, gone, order, i) ==> v in order[..i] && v < |gone| && !gone[v]
    ensures PickedInOrder(order, Greedy(net, gone, order, i))
  {
    if i > 0 {
      GreedyWithin(net, gone, order, i - 1);
      var before, picked := Greedy(net, gone, order, i - 1), Greedy(net, gone, order, i);
      forall j, k | 0 <= j < k < |picked|
        ensures StandsBefore(order, picked[j], picked[k])
      {
        if k == |before| {
          assert before[j] in order[..i - 1];
          var l :| 0 <= l < i - 1 && order[l] == before[j];
          assert order[l] == picked[j] && order[i - 1] == picked[k];
        }
      }
    }
  }

  /** What has been decided is not changed later. */
  lemma {:induction false} GreedyStays(net: Net, gone: seq<bool>, order: seq<nat>, k: nat, i: nat, n: nat)
    requires net.Shape() && IsOrder(order, |gone|) && k < i <= n <= |order|
    ensures order[k] in Greedy(net, gone, order, n) <==> order[k] in Greedy(net, gone, order, i)
  {
    if i < n {
      GreedyStays(net, gone, order, k, i, n - 1);
    }
  }

  lemma GreedyDecides(net: Net, gone: seq<bool>, order: seq<nat>, p: nat)
    requires net.Shape() && IsOrder(order, |gone|) && p < |order| && !gone[order[p]]
    ensures var picked := Greedy(net, gone, order, |order|);
            order[p] in picked <==> !Blocked(net.Graph(), order, ToSet(picked), order[p])
  {
    var u, n, picked, early := order[p], |order|, Greedy(net, gone, order, |order|), Greedy(net, gone, order, p);
    GreedyWithin(net, gone, order, p);
    GreedyStays(net, gone, order, p, p + 1, n);
    assert u !in early;
    if Marked(net, early, u) {
      var e :| e in net.Graph() && e.src in early && e.dst == u;
      var i :| 0 <= i < p && order[i] == e.src;
      GreedyStays(net, gone, order, i, p, n);
      assert StandsBefore(order, e.src, u) && Adjacent(net.Graph(), e.src, u);
    }
    if Blocked(net.Graph(), order, ToSet(picked), u) {
      var v: nat :| v in ToSet(picked) && StandsBefore(order, v, u) && Adjacent(net.Graph(), v, u);
      var i, j :| 0 <= i < j < |order| && order[i] == v && order[j] == u;
      assert j == p;
      GreedyStays(net, gone, order, i, p, n);
      var e :| e in net.Graph() && e.src == v && e.dst == u;
      assert Marked(net, early, u);
    }
  }

  /** Going through the order, and picking what is neither contracted nor marked, picks just those nodes. */
  lemma GreedyFollows(net: Net, gone: seq<bool>, order: seq<nat>)
    requires net.Shape() && IsOrder(order, |gone|)
    ensures PicksFollow(net.Graph(), order, gone, Greedy(net, gone, order, |order|))
  {
    GreedyWithin(net, gone, order, |order|);
    forall u: nat | u < |gone| && !gone[u]
      ensures var picked := Greedy(net, gone, order, |order|);
              u in picked <==> !Blocked(net.Graph(), order, ToSet(picked), u)
    {
      assert u in order;
      var p: nat :| p < |order| && order[p] == u;
      GreedyDecides(net, gone, order, p);
    }
  }

  /** From a to b the places i and j have exchanged their nodes, and every other place has kept its node. */
  ghost predicate Exchanged(a: seq<nat>, b: seq<nat>, i: nat, j: nat)
  {
    && |b| == |a| && i < |a| && j < |a| && b[i] == a[j] && b[j] == a[i]
    && (forall k :: 0 <= k < |a| && k != i && k != j ==> b[k] == a[k])
  }

  /** s with the elements at i and j exchanged. */
  function Swapped(s: seq<nat>, i: nat, j: nat): (r: seq<nat>)
    requires i < |s| && j < |s|
    ensures Exchanged(s, r, i, j)
  {
    s[j := s[i]][i := s[j]]
  }

  /** From one order to the next, place i and place random[i] have exchanged their nodes. */
  ghost predicate ExchangedAt(orders: seq<seq<nat>>, random: seq<nat>, i: nat)
  {
    i < |random| && i + 1 < |orders| && Exchanged(orders[i], orders[i + 1], i, random[i])
  }

  /** The orders lead from a to b by the first k exchanges. */
  ghost predicate ShuffleRun(a: seq<nat>, random: seq<nat>, b: seq<nat>, k: nat, orders: seq<seq<nat>>)
  {
    && |orders| == k + 1 && orders[0] == a && orders[k] == b
    && (forall i: nat {:trigger ExchangedAt(orders, random, i)} :: i < k ==> ExchangedAt(orders, random, i))
  }

  /** From a to b every place i in turn has exchanged its node with place random[i]. */
  ghost predicate ShuffledBy(a: seq<nat>, random: seq<nat>, b: seq<nat>)
  {
    exists orders: seq<seq<nat>> :: ShuffleRun(a, random, b, |random|, orders)
  }

  /** One more exchange. */
  lemma ShuffleOn(a: seq<nat>, random: seq<nat>, b: seq<nat>, k: nat, orders: seq<seq<nat>>, c: seq<nat>)
    requires ShuffleRun(a, random, b, k, orders) && k < |random| && Exchanged(b, c, k, random[k])
    ensures ShuffleRun(a, random, c, k + 1, orders + [c])
  {
    forall i: nat | i < k + 1
      ensures ExchangedAt(orders + [c], random, i)
    {
      assert i < k ==> ExchangedAt(orders, random, i);
    }
  }

  lemma ShuffleShorter(a: seq<nat>, random: seq<nat>, b: seq<nat>, k: nat, orders: seq<seq<nat>>)
    requires ShuffleRun(a, random, b, k, orders) && k > 0
    ensures ShuffleRun(a, random, orders[k - 1], k - 1, orders[..k])
  {
    forall i: nat | i < k - 1
      ensures ExchangedAt(orders[..k], random, i)
    {
      assert ExchangedAt(orders, random, i);
    }
  }

  /** The numbers drawn determine the order. */
  lemma {:induction false} ShuffleIsUnique(a: seq<nat>, random: seq<nat>, k: nat, b: seq<nat>, c: seq<nat>,
                                           bs: seq<seq<nat>>, cs: seq<seq<nat>>)
    requires ShuffleRun(a, random, b, k, bs) && ShuffleRun(a, random, c, k, cs)
    ensures b == c
  {
    if k > 0 {
      assert ExchangedAt(bs, random, k - 1) && ExchangedAt(cs, random, k - 1);
      ShuffleShorter(a, random, b, k, bs);
      ShuffleShorter(a, random, c, k, cs);
      ShuffleIsUnique(a, random, k - 1, bs[k - 1], cs[k - 1], bs[..k], cs[..k]);
    }
  }

  /** Swapping two places keeps an order an order. */
  lemma SwapKeepsOrder(order: seq<nat>, n: nat, i: nat, j: nat)
    requires IsOrder(order, n) && i < n && j < n
    ensures IsOrder(Swapped(order, i, j), n)
  {
    var r := Swapped(order, i, j);
    forall u: nat | u < n
      ensures u in r
    {
      assert u in order;
      var k :| 0 <= k < |order| && order[k] == u;
      assert r[if k == i then j else if k == j then i else k] == u;
    }
  }

  // ---------- the work of the threads, one after another ----------

  /** The lists hold exactly the given nodes. */
  ghost predicate Dealt(nodes: seq<nat>, lists: seq<seq<nat>>)
  {
    && (forall t: nat, v: nat {:trigger v in lists[t]} :: t < |lists| && v in lists[t] ==> v in nodes)
    && (forall v: nat :: v in nodes ==> exists t: nat :: t < |lists| && v in lists[t])
  }

  /** The places below n whose turn it is for list t of count lists. */
  ghost function Turns(n: nat, t: nat, count: nat): set<nat>
    requires count > 0
  {
    set i: nat | i < n && i % count == t
  }

  /** The nodes have been dealt to the lists in turn, and each list holds its nodes in order. */
  ghost predicate DealtInTurn(nodes: seq<nat>, lists: seq<seq<nat>>)
  {
    |lists| > 0 && forall t: nat {:trigger lists[t]} :: t < |lists| ==>
                                                        Keeps(nodes, Turns(|nodes|, t, |lists|), lists[t])
  }

  lemma DealNone(lists: seq<seq<nat>>)
    requires |lists| > 0 && forall t :: 0 <= t < |lists| ==> lists[t] == []
    ensures DealtInTurn([], lists)
  {
    forall t: nat | t < |lists|
      ensures Keeps([], Turns(0, t, |lists|), lists[t])
    {
      assert Turns(0, t, |lists|) == {};
      KeepsNone<nat>([]);
    }
  }

  /** Dealing one more node to the list whose turn it is. */
  lemma DealNext(nodes: seq<nat>, lists: seq<seq<nat>>, v: nat, lists': seq<seq<nat>>)
    requires DealtInTurn(nodes, lists)
    requires var u := |nodes| % |lists|; lists' == lists[u := lists[u] + [v]]
    ensures DealtInTurn(nodes + [v], lists')
  {
    var n, count := |nodes|, |lists|;
    forall t: nat | t < count
      ensures Keeps(nodes + [v], Turns(n + 1, t, count), lists'[t])
    {
      KeepsLonger(nodes, Turns(n, t, count), lists[t], nodes + [v]);
      if t == n % count {
        assert Turns(n + 1, t, count) == Turns(n, t, count) + {n};
        KeepsNext(nodes + [v], Turns(n, t, count), lists[t], n);
      } else {
        assert Turns(n + 1, t, count) == Turns(n, t, count);
      }
    }
  }

  /** Dealt in turn, the lists together hold exactly the nodes. */
  lemma DealtIsAll(nodes: seq<nat>, lists: seq<seq<nat>>)
    requires DealtInTurn(nodes, lists)
    ensures Dealt(nodes, lists)
  {
    var count := |lists|;
    forall t: nat, v: nat | t < count && v in lists[t]
      ensures v in nodes
    {
      KeptIsIn(nodes, Turns(|nodes|, t, count), lists[t], v);
    }
    forall v: nat | v in nodes
      ensures exists t: nat :: t < count && v in lists[t]
    {
      var i: nat :| i < |nodes| && nodes[i] == v;
      var k := KeptIndex(nodes, Turns(|nodes|, i % count, count), lists[i % count], i);
      assert v in lists[i % count];
    }
  }

  /** What the first threads have found is, node after node, what their lists call for. */
  ghost predicate FoundFirst(net: Net, lists: seq<seq<nat>>, found: seq<seq<Shortcut>>)
    requires net.Shape()
  {
    && |found| <= |lists|
    && (forall t: nat {:trigger found[t]} :: t < |found| ==>
          InRange(lists[t], |net.adj|) && OfNodes(net, lists[t], found[t]))
  }

  lemma FoundOneMore(net: Net, lists: seq<seq<nat>>, found: seq<seq<Shortcut>>, rs: seq<Shortcut>)
    requires net.Shape() && FoundFirst(net, lists, found) && |found| < |lists|
    requires InRange(lists[|found|], |net.adj|) && OfNodes(net, lists[|found|], rs)
    ensures FoundFirst(net, lists, found + [rs])
  {
    var more := found + [rs];
    forall t: nat | t < |more|
      ensures InRange(lists[t], |net.adj|) && OfNodes(net, lists[t], more[t])
    {
      assert t < |found| ==> more[t] == found[t];
    }
  }

  /** Every thread has found the shortcuts over the nodes dealt to it. */
  ghost predicate FoundInTurn(net: Net, nodes: seq<nat>, found: seq<seq<Shortcut>>)
    requires net.Shape()
  {
    exists lists: seq<seq<nat>> :: DealtInTurn(nodes, lists) && |lists| == |found| && FoundFirst(net, lists, found)
  }

  /** Lists dealt from nodes of the core hold nodes of the core. */
  lemma DealtInRange(a: Stage, nodes: seq<nat>, lists: seq<seq<nat>>)
    requires a.CoreOk() && DealtInTurn(nodes, lists) && forall v: nat {:trigger a.Alive(v)} :: v in nodes ==> a.Alive(v)
    ensures forall t: nat {:trigger lists[t]} :: t < |lists| ==> InRange(lists[t], |a.gone|)
  {
    forall t: nat, i | t < |lists| && 0 <= i < |lists[t]|
      ensures lists[t][i] < |a.gone|
    {
      KeptIsIn(nodes, Turns(|nodes|, t, |lists|), lists[t], lists[t][i]);
      assert a.Alive(lists[t][i]);
    }
  }

  /** What was found for the lists is found for the nodes they hold. */
  lemma ListsCover(a: Stage, nodes: seq<nat>, lists: seq<seq<nat>>, found: seq<seq<Shortcut>>)
    requires a.Lists() && Dealt(nodes, lists) && |found| == |lists|
    requires forall t: nat :: t < |lists| ==>
               AllOver(a.Now(), lists[t], found[t]) && CoversNodes(a.Now(), lists[t], found[t])
    ensures LevelShortcuts(a, ToSet(nodes), Flat(found))
  {
    forall j | 0 <= j < |Flat(found)|
      ensures FoundIn(a, ToSet(nodes), Flat(found)[j])
    {
      var t, i := FlatAt(found, j);
      assert Over(a.Now(), lists[t], found[t][i]);
      var v: nat :| v in lists[t] && Justified(a.Now(), v, found[t][i]);
      assert v in nodes;
    }
    forall v: nat | v in ToSet(nodes)
      ensures CoversNode(a.Now(), v, Flat(found))
    {
      var t: nat :| t < |lists| && v in lists[t];
      assert CoversNodes(a.Now(), lists[t], found[t]);
      assert CoversNode(a.Now(), v, found[t]);
      FlatHasAll(found, t);
    }
  }

  /** What the threads have found for their nodes is, taken together, all there is to find for the level. */
  lemma ThreadsCover(a: Stage, nodes: seq<nat>, found: seq<seq<Shortcut>>)
    requires a.CoreOk() && FoundInTurn(a.Now(), nodes, found)
    ensures LevelShortcuts(a, ToSet(nodes), Flat(found))
  {
    var lists: seq<seq<nat>> :|
      DealtInTurn(nodes, lists) && |lists| == |found| && FoundFirst(a.Now(), lists, found);
    DealtIsAll(nodes, lists);
    forall t: nat | t < |lists|
      ensures AllOver(a.Now(), lists[t], found[t]) && CoversNodes(a.Now(), lists[t], found[t])
    {
      OfNodesCover(a.Now(), lists[t], found[t]);
    }
    ListsCover(a, nodes, lists, found);
  }

  // ---------- one level after another ----------

  /** The lists after are those before with ids from n on added behind. */
  ghost predicate AllExtend(before: seq<seq<nat>>, n: nat, after: seq<seq<nat>>)
  {
    |after| == |before| && forall u: nat {:trigger after[u]} :: u < |before| ==> Extends(before[u], n, after[u])
  }

  lemma ExtendsOn(a: seq<nat>, m: nat, b: seq<nat>, n: nat, c: seq<nat>)
    requires Extends(a, m, b) && Extends(b, n, c) && m <= n
    ensures Extends(a, m, c)
  {
    forall k: nat | |a| <= k < |c|
      ensures c[k] >= m
    {
      assert k < |b| ==> c[k] == b[k];
    }
  }

  lemma AllExtendOn(a: seq<seq<nat>>, m: nat, b: seq<seq<nat>>, n: nat, c: seq<seq<nat>>)
    requires AllExtend(a, m, b) && AllExtend(b, n, c) && m <= n
    ensures AllExtend(a, m, c)
  {
    forall u: nat | u < |a|
      ensures Extends(a[u], m, c[u])
    {
      ExtendsOn(a[u], m, b[u], n, c[u]);
    }
  }

  ghost function AtLvl(gone: seq<bool>, lvl: seq<nat>, i: nat): set<nat>
    requires |lvl| == |gone|
  {
    set v: nat | v < |gone| && gone[v] && lvl[v] == i
  }

  /** u, which was left when level i was begun, went into it exactly if no node of it before u has an edge to u. */
  ghost predicate LevelFollows(core: Graph, order: seq<nat>, gone: seq<bool>, lvl: seq<nat>, i: nat, u: nat)
    requires |lvl| == |gone|
  {
    u < |gone| && (gone[u] && lvl[u] == i <==> !Blocked(core, order, AtLvl(gone, lvl, i), u))
  }

  /** That holds for all levels and all nodes that were left when they were begun. */
  ghost predicate LevelsFollow(cores: seq<Graph>, order: seq<nat>, gone: seq<bool>, lvl: seq<nat>)
  {
    && |lvl| == |gone|
    && (forall i: nat, u: nat {:trigger LevelFollows(cores[i], order, gone, lvl, i, u)} ::
          i < |cores| && u < |gone| && (gone[u] ==> lvl[u] >= i) ==> LevelFollows(cores[i], order, gone, lvl, i, u))
  }

  /** The level begun next marks the picked nodes, which were not contracted, and changes nothing else. */
  ghost predicate LevelAdded(count: nat, gone: seq<bool>, lvl: seq<nat>, picked: seq<nat>, gone': seq<bool>,
                             lvl': seq<nat>)
  {
    && |gone| == |lvl| == |gone'| == |lvl'|
    && (forall u: nat {:trigger gone'[u]} :: u < |gone| ==>
          && (gone'[u] <==> gone[u] || u in picked) && !(gone[u] && u in picked)
          && lvl'[u] == if u in picked then count else lvl[u])
  }

  /** The nodes of the levels before stay the same, and the picked ones make the next level. */
  lemma LevelSets(count: nat, gone: seq<bool>, lvl: seq<nat>, picked: seq<nat>, gone': seq<bool>, lvl': seq<nat>,
                  i: nat)
    requires LevelAdded(count, gone, lvl, picked, gone', lvl') && i <= count
    requires forall u: nat {:trigger gone[u]} :: u < |gone| && gone[u] ==> lvl[u] < count
    requires forall u: nat :: u in picked ==> u < |gone|
    ensures AtLvl(gone', lvl', i) == if i < count then AtLvl(gone, lvl, i) else ToSet(picked)
  {
    forall u: nat | u < |gone|
      ensures u in AtLvl(gone', lvl', i) <==> u in if i < count then AtLvl(gone, lvl, i) else ToSet(picked)
    {
      assert (gone'[u] <==> gone[u] || u in picked) && !(gone[u] && u in picked);
      assert lvl'[u] == if u in picked then count else lvl[u];
    }
  }

  /** One more level follows the order. */
  lemma LevelsGoOn(cores: seq<Graph>, order: seq<nat>, gone: seq<bool>, lvl: seq<nat>, picked: seq<nat>, core: Graph,
                   gone': seq<bool>, lvl': seq<nat>)
    requires LevelsFollow(cores, order, gone, lvl) && PicksFollow(core, order, gone, picked)
    requires LevelAdded(|cores|, gone, lvl, picked, gone', lvl')
    requires forall u: nat {:trigger gone[u]} :: u < |gone| && gone[u] ==> lvl[u] < |cores|
    ensures LevelsFollow(cores + [core], order, gone', lvl')
  {
    var n := |cores|;
    forall i: nat, u: nat | i <= n && u < |gone| && (gone'[u] ==> lvl'[u] >= i)
      ensures LevelFollows((cores + [core])[i], order, gone', lvl', i, u)
    {
      LevelSets(n, gone, lvl, picked, gone', lvl', i);
      assert (gone'[u] <==> gone[u] || u in picked) && !(gone[u] && u in picked);
      assert lvl'[u] == if u in picked then n else lvl[u];
      if i < n {
        assert LevelFollows(cores[i], order, gone, lvl, i, u);
      }
    }
  }

  ghost predicate Populated(a: Stage, i: nat)
    requires |a.lvl| == |a.gone|
  {
    exists u: nat :: u < |a.gone| && a.gone[u] && a.lvl[u] == i
  }

  /** Levels are numbered without gaps, and each holds a node. */
  ghost predicate Contiguous(a: Stage)
    requires |a.lvl| == |a.gone|
  {
    && (forall u: nat :: u < |a.gone| && a.gone[u] ==> a.lvl[u] < |a.cores|)
    && (forall i: nat {:trigger Populated(a, i)} :: i < |a.cores| ==> Populated(a, i))
  }

  /** The flags and levels the choice has written are those of the next stage. */
  lemma ChoiceIsNext(a: Stage, picked: seq<nat>, gone: seq<bool>, near: seq<bool>, b: Stage, cur: seq<seq<nat>>)
    requires a.Lists() && Picking(a, picked, gone, near) && |b.gone| == |a.gone|
    ensures Next(a, ToSet(picked), b, cur).gone == gone
    ensures Next(a, ToSet(picked), b, cur).lvl == LevelsWith(a, picked, |a.cores|)
  {
  }

  /** A non-empty level goes on numbering the levels. */
  lemma NextContiguous(a: Stage, level: set<nat>, b: Stage, cur: seq<seq<nat>>)
    requires a.Lists() && |b.gone| == |a.gone| && (forall v: nat {:trigger a.Alive(v)} :: v in level ==> a.Alive(v))
    requires level != {}
    requires Contiguous(a)
    ensures |Next(a, level, b, cur).lvl| == |Next(a, level, b, cur).gone| && Contiguous(Next(a, level, b, cur))
  {
    var d := Next(a, level, b, cur);
    forall i: nat | i < |d.cores|
      ensures Populated(d, i)
    {
      if i < |a.cores| {
        assert Populated(a, i);
        var u: nat :| u < |a.gone| && a.gone[u] && a.lvl[u] == i;
        assert !(u in level && a.Alive(u));
        assert d.gone[u] && d.lvl[u] == i;
      } else {
        var v: nat :| v in level;
        assert a.Alive(v);
        assert d.gone[v] && d.lvl[v] == i;
      }
    }
  }

  /** While nodes are left, a maximal level is not empty. */
  lemma MaximalNotEmpty(a: Stage, picked: seq<nat>)
    requires a.Lists() && Maximal(a.Now(), picked, a.gone) && Left(a.gone) > 0
    ensures picked != []
  {
    NoneLeft(a.gone);
    var u: nat :| u < |a.gone| && !a.gone[u];
    assert Marked(a.Now(), picked, u);
  }
}
