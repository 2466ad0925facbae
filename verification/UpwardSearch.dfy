/**
 * Labels for a node that has none, on values: a search along upward edges through the levels without labels, and
 * the labels of all nodes it meets above them.
 */
module UpwardSearch {
  import opened Graphs
  import opened HubLabels
  import opened LabelColumns
  import opened LabelBuilding
  import opened HubLData

  /** The edge id leads up from x, which has no label. */
  ghost predicate UpEdge(h: Hierarchy, k: nat, x: nat, id: nat)
  {
    && x < |h.adj| == |h.lvl| && h.lvl[x] < k && id in h.adj[x] && id < |h.store|
    && h.store[id].src == x && h.store[id].dst < |h.lvl| && h.lvl[h.store[id].dst] > h.lvl[x]
  }

  /** The way over x and the edge id is accounted for. */
  ghost predicate Noted(h: Hierarchy, m: Label, x: nat, id: nat)
  {
    x in m && id < |h.store| && h.store[id].dst in m && m[h.store[id].dst].dist <= m[x].dist + h.store[id].len
  }

  ghost predicate RealisedAt(g: Graph, h: Hierarchy, s: nat, m: Label, x: nat)
  {
    x in m && x < |h.lvl| && Reach(g, s, x) && Dist(g, s, x) <= m[x].dist
  }

  /** s is there at distance 0, and every entry is realised by a walk. */
  ghost predicate Rooted(g: Graph, h: Hierarchy, s: nat, m: Label)
  {
    && s in m && m[s].dist == 0
    && (forall x: nat {:trigger RealisedAt(g, h, s, m, x)} :: x in m ==> RealisedAt(g, h, s, m, x))
  }

  ghost predicate Low(h: Hierarchy, k: nat, x: nat) { x < |h.lvl| && h.lvl[x] < k }

  /** x stands in the first heap, rightly and at its distance. */
  ghost predicate QueuedAt(h: Hierarchy, k: nat, m: Label, closed: set<nat>, hp: map<int, int>, x: int)
  {
    x in hp && x >= 0 && (x as nat) in m && Low(h, k, x) && (x as nat) !in closed && hp[x] == m[x as nat].dist
  }

  /** x stands in the second heap, rightly and at its distance. */
  ghost predicate WaitingAt(h: Hierarchy, k: nat, m: Label, lp: map<int, int>, x: int)
  {
    x in lp && x >= 0 && (x as nat) in m && !Low(h, k, x) && lp[x] == m[x as nat].dist
  }

  /** A found node that is not closed stands in its heap. */
  ghost predicate InItsHeap(h: Hierarchy, k: nat, closed: set<nat>, hp: map<int, int>, lp: map<int, int>, x: nat)
  {
    if Low(h, k, x) then x in closed || (x as int) in hp else (x as int) in lp
  }

  /** The two heaps: the nodes without label that are not closed, and all found nodes with labels. */
  ghost predicate TwoHeaps(h: Hierarchy, k: nat, m: Label, closed: set<nat>, hp: map<int, int>, lp: map<int, int>)
  {
    && (forall x: int {:trigger QueuedAt(h, k, m, closed, hp, x)} :: x in hp ==> QueuedAt(h, k, m, closed, hp, x))
    && (forall x: int {:trigger WaitingAt(h, k, m, lp, x)} :: x in lp ==> WaitingAt(h, k, m, lp, x))
    && (forall x: nat {:trigger InItsHeap(h, k, closed, hp, lp, x)} :: x in m ==> InItsHeap(h, k, closed, hp, lp, x))
  }

  ghost predicate FoundLow(h: Hierarchy, k: nat, m: Label, x: nat) { x in m && Low(h, k, x) }

  ghost predicate NotNearer(m: Label, a: nat, b: nat) { a in m && b in m && m[a].dist <= m[b].dist }

  /** A search from s through the nodes without labels; settled nodes are done for good. */
  ghost predicate Rising(g: Graph, h: Hierarchy, k: nat, s: nat, m: Label, settled: set<nat>)
  {
    && Rooted(g, h, s, m)
    && (forall x: nat {:trigger FoundLow(h, k, m, x)} :: x in settled ==> FoundLow(h, k, m, x))
    && (forall x: nat, id: nat {:trigger Noted(h, m, x, id)} :: x in settled && UpEdge(h, k, x, id) ==>
          Noted(h, m, x, id))
    && (forall a: nat, b: nat {:trigger NotNearer(m, a, b)} ::
          a in settled && FoundLow(h, k, m, b) && b !in settled ==> NotNearer(m, a, b))
  }

  /** Rising, while the upward edges of u are worked off; the first i of ids are done. */
  ghost predicate Lifting(g: Graph, h: Hierarchy, k: nat, s: nat, m: Label, settled: set<nat>, u: nat, ids: seq<nat>,
                          i: nat)
  {
    && Rooted(g, h, s, m) && u !in settled && FoundLow(h, k, m, u)
    && (forall x: nat {:trigger FoundLow(h, k, m, x)} :: x in settled ==> FoundLow(h, k, m, x))
    && (forall x: nat {:trigger NotNearer(m, x, u)} :: x in settled ==> NotNearer(m, x, u))
    && (forall x: nat, id: nat {:trigger Noted(h, m, x, id)} :: x in settled && UpEdge(h, k, x, id) ==>
          Noted(h, m, x, id))
    && (forall b: nat {:trigger NotNearer(m, u, b)} :: FoundLow(h, k, m, b) && b !in settled ==> NotNearer(m, u, b))
    && i <= |ids| && (forall j: nat {:trigger Noted(h, m, u, ids[j])} :: j < i ==> Noted(h, m, u, ids[j]))
  }

  lemma RiseStart(g: Graph, h: Hierarchy, k: nat, s: nat)
    requires Low(h, k, s)
    ensures Rising(g, h, k, s, map[s := Entry(0, -1)], {})
    ensures TwoHeaps(h, k, map[s := Entry(0, -1)], {}, map[s as int := 0], map[])
  {
    SelfDist(g, s);
  }

  lemma LiftStart(g: Graph, h: Hierarchy, k: nat, s: nat, m: Label, settled: set<nat>, hp: map<int, int>,
                  lp: map<int, int>, u: int, ids: seq<nat>)
    requires Rising(g, h, k, s, m, settled) && TwoHeaps(h, k, m, settled, hp, lp)
    requires u in hp && forall x :: x in hp ==> hp[u] <= hp[x]
    ensures u >= 0 && Lifting(g, h, k, s, m, settled, u, ids, 0)
    ensures TwoHeaps(h, k, m, settled + {u as nat}, hp - {u}, lp)
  {
    assert QueuedAt(h, k, m, settled, hp, u);
    var v := u as nat;
    forall b: nat | FoundLow(h, k, m, b) && b !in settled
      ensures NotNearer(m, v, b)
    {
      assert InItsHeap(h, k, settled, hp, lp, b) && QueuedAt(h, k, m, settled, hp, b);
    }
    forall x: int | x in hp - {u}
      ensures QueuedAt(h, k, m, settled + {v}, hp - {u}, x)
    {
      assert QueuedAt(h, k, m, settled, hp, x);
    }
    forall x: nat | x in m
      ensures InItsHeap(h, k, settled + {v}, hp - {u}, lp, x)
    {
      assert InItsHeap(h, k, settled, hp, lp, x);
    }
    forall x: nat | x in settled
      ensures NotNearer(m, x, v)
    {
      assert FoundLow(h, k, m, v);
    }
  }

  /** Offering a way that is realised by a walk. */
  lemma OfferRooted(g: Graph, h: Hierarchy, s: nat, m: Label, x: nat, d: nat, e: int)
    requires Rooted(g, h, s, m) && x < |h.lvl| && Reach(g, s, x) && Dist(g, s, x) <= d
    ensures Rooted(g, h, s, Offer(m, x, d, e))
  {
    var r := Offer(m, x, d, e);
    forall y: nat | y in r
      ensures RealisedAt(g, h, s, r, y)
    {
      assert y in m ==> RealisedAt(g, h, s, m, y);
    }
  }

  lemma UpEdgeRealised(g: Graph, h: Hierarchy, k: nat, u: nat, id: nat)
    requires Positive(g) && Climbs(g, h) && UpEdge(h, k, u, id)
    ensures Reach(g, u, h.store[id].dst) && Dist(g, u, h.store[id].dst) <= h.store[id].len && h.store[id].len > 0
  {
    var i: nat :| i < |h.adj[u]| && h.adj[u][i] == id;
    assert h.Has(u, i) && h.Up(u, i);
    DistPositive(g, u, h.store[id].dst);
  }

  lemma LiftRooted(g: Graph, h: Hierarchy, k: nat, s: nat, m: Label, u: nat, id: nat)
    requires Positive(g) && Climbs(g, h) && Rooted(g, h, s, m) && u in m && UpEdge(h, k, u, id)
    ensures h.store[id].len > 0 && Rooted(g, h, s, Offer(m, h.store[id].dst, m[u].dist + h.store[id].len, id))
  {
    UpEdgeRealised(g, h, k, u, id);
    assert RealisedAt(g, h, s, m, u);
    Triangle(g, s, u, h.store[id].dst);
    OfferRooted(g, h, s, m, h.store[id].dst, m[u].dist + h.store[id].len, id);
  }

  lemma OfferBetter(m: Label, x: nat, d: nat, e: int)
    ensures Better(Offer(m, x, d, e), m) && x in Offer(m, x, d, e) && Offer(m, x, d, e)[x].dist <= d
    ensures forall y: nat :: y != x && y in Offer(m, x, d, e) ==> y in m && Offer(m, x, d, e)[y] == m[y]
  {
  }

  lemma LiftNoted(g: Graph, h: Hierarchy, k: nat, s: nat, m: Label, settled: set<nat>, u: nat, ids: seq<nat>, i: nat)
    requires Lifting(g, h, k, s, m, settled, u, ids, i) && i < |ids| && UpEdge(h, k, u, ids[i])
    requires h.store[ids[i]].len > 0
    requires var e := h.store[ids[i]]; Rooted(g, h, s, Offer(m, e.dst, m[u].dist + e.len, ids[i]))
    ensures var e := h.store[ids[i]];
            && Lifting(g, h, k, s, Offer(m, e.dst, m[u].dist + e.len, ids[i]), settled, u, ids, i + 1)
            && (Offer(m, e.dst, m[u].dist + e.len, ids[i]) != m ==> e.dst !in settled + {u})
  {
    var e := h.store[ids[i]];
    var d := m[u].dist + e.len;
    var r := Offer(m, e.dst, d, ids[i]);
    OfferBetter(m, e.dst, d, ids[i]);
    forall x: nat | x in settled
      ensures FoundLow(h, k, r, x) && NotNearer(r, x, u) && r[x] == m[x]
    {
      assert FoundLow(h, k, m, x) && NotNearer(m, x, u);
    }
    forall x: nat, id: nat | x in settled && UpEdge(h, k, x, id)
      ensures Noted(h, r, x, id)
    {
      assert Noted(h, m, x, id) && FoundLow(h, k, r, x);
    }
    forall b: nat | FoundLow(h, k, r, b) && b !in settled
      ensures NotNearer(r, u, b)
    {
      assert b in m ==> FoundLow(h, k, m, b) && NotNearer(m, u, b);
    }
    forall j: nat | j <= i
      ensures Noted(h, r, u, ids[j])
    {
      assert j < i ==> Noted(h, m, u, ids[j]);
    }
    if e.dst in settled {
      assert FoundLow(h, k, m, e.dst) && NotNearer(m, e.dst, u);
    }
  }

  /** A way over the next edge is offered; what it may change is open. */
  lemma LiftOne(g: Graph, h: Hierarchy, k: nat, s: nat, m: Label, settled: set<nat>, u: nat, ids: seq<nat>, i: nat)
    requires Positive(g) && Climbs(g, h) && Lifting(g, h, k, s, m, settled, u, ids, i) && i < |ids|
    requires UpEdge(h, k, u, ids[i])
    ensures var e := h.store[ids[i]];
            && Lifting(g, h, k, s, Offer(m, e.dst, m[u].dist + e.len, ids[i]), settled, u, ids, i + 1)
            && (Offer(m, e.dst, m[u].dist + e.len, ids[i]) != m ==> e.dst !in settled + {u})
  {
    LiftRooted(g, h, k, s, m, u, ids[i]);
    LiftNoted(g, h, k, s, m, settled, u, ids, i);
  }

  lemma LiftEnd(g: Graph, h: Hierarchy, k: nat, s: nat, m: Label, settled: set<nat>, u: nat, ids: seq<nat>)
    requires Lifting(g, h, k, s, m, settled, u, ids, |ids|)
    requires forall id: nat {:trigger UpEdge(h, k, u, id)} :: UpEdge(h, k, u, id) ==> id in ids
    ensures Rising(g, h, k, s, m, settled + {u})
  {
    forall x: nat, id: nat | x in settled + {u} && UpEdge(h, k, x, id)
      ensures Noted(h, m, x, id)
    {
      if x == u {
        var j: nat :| j < |ids| && ids[j] == id;
        assert Noted(h, m, u, ids[j]);
      }
    }
    forall a: nat, b: nat | a in settled + {u} && FoundLow(h, k, m, b) && b !in settled + {u}
      ensures NotNearer(m, a, b)
    {
      assert NotNearer(m, u, b) && (a in settled ==> NotNearer(m, a, u));
    }
  }

  /** The heap that is told of an improvement is the one of the edge's end. */
  lemma HeapsAfter(h: Hierarchy, k: nat, m: Label, closed: set<nat>, hp: map<int, int>, lp: map<int, int>, x: nat,
                   d: nat, e: int)
    requires TwoHeaps(h, k, m, closed, hp, lp) && Offer(m, x, d, e) != m && x !in closed
    ensures x in hp ==> d <= hp[x]
    ensures x in lp ==> d <= lp[x]
    ensures TwoHeaps(h, k, Offer(m, x, d, e), closed, if Low(h, k, x) then hp[x as int := d] else hp,
                     if Low(h, k, x) then lp else lp[x as int := d])
  {
    var r := Offer(m, x, d, e);
    var hp', lp' := if Low(h, k, x) then hp[x as int := d] else hp, if Low(h, k, x) then lp else lp[x as int := d];
    assert x in hp ==> QueuedAt(h, k, m, closed, hp, x);
    assert x in lp ==> WaitingAt(h, k, m, lp, x);
    forall y: int | y in hp'
      ensures QueuedAt(h, k, r, closed, hp', y)
    {
      assert y in hp ==> QueuedAt(h, k, m, closed, hp, y);
    }
    forall y: int | y in lp'
      ensures WaitingAt(h, k, r, lp', y)
    {
      assert y in lp ==> WaitingAt(h, k, m, lp, y);
    }
    forall y: nat | y in r
      ensures InItsHeap(h, k, closed, hp', lp', y)
    {
      assert y in m ==> InItsHeap(h, k, closed, hp, lp, y);
    }
  }

  // ---------- what the search has found ----------

  /** No node without label is open any more. */
  ghost predicate Exhaustive(g: Graph, h: Hierarchy, k: nat, s: nat, m: Label)
  {
    && Rooted(g, h, s, m)
    && (forall x: nat, id: nat {:trigger Noted(h, m, x, id)} :: x in m && UpEdge(h, k, x, id) ==> Noted(h, m, x, id))
  }

  /** The second heap holds exactly the found nodes with labels. */
  ghost predicate AllWaiting(h: Hierarchy, k: nat, m: Label, lp: map<int, int>)
  {
    && (forall x: int {:trigger WaitingAt(h, k, m, lp, x)} :: x in lp ==> WaitingAt(h, k, m, lp, x))
    && (forall x: nat {:trigger Low(h, k, x)} :: x in m && !Low(h, k, x) ==> (x as int) in lp)
  }

  lemma HeapsEnd(h: Hierarchy, k: nat, m: Label, closed: set<nat>, hp: map<int, int>, lp: map<int, int>)
    requires TwoHeaps(h, k, m, closed, hp, lp)
    ensures AllWaiting(h, k, m, lp)
  {
    forall x: nat | x in m && !Low(h, k, x)
      ensures (x as int) in lp
    {
      assert InItsHeap(h, k, closed, hp, lp, x);
    }
  }

  lemma RiseEnd(g: Graph, h: Hierarchy, k: nat, s: nat, m: Label, settled: set<nat>, lp: map<int, int>)
    requires Rising(g, h, k, s, m, settled) && TwoHeaps(h, k, m, settled, map[], lp)
    ensures Exhaustive(g, h, k, s, m)
  {
    forall x: nat, id: nat | x in m && UpEdge(h, k, x, id)
      ensures Noted(h, m, x, id)
    {
      assert InItsHeap(h, k, settled, map[], lp, x);
    }
  }

  /** On the way to a peak t the search reaches, at its exact distance, t itself or a node with a label. */
  lemma {:induction false} ReachesLabelled(g: Graph, h: Hierarchy, k: nat, s: nat, m: Label, t: nat, x: nat)
    returns (w: nat)
    requires Symmetric(g) && Climbs(g, h) && Exhaustive(g, h, k, s, m) && Peak(g, h.lvl, s, t) && t < |h.lvl|
    requires x in m && OnShortest(g, s, x, t) && m[x].dist == Dist(g, s, x)
    ensures w in m && w < |h.lvl| && OnShortest(g, s, w, t) && m[w].dist == Dist(g, s, w) && (w == t || !Low(h, k, w))
    decreases MaxLevel(h.lvl) - Level(h.lvl, x)
  {
    assert RealisedAt(g, h, s, m, x);
    if x == t || !Low(h, k, x) {
      w := x;
    } else {
      PeakOnTheWay(g, h.lvl, s, x, t);
      var i: nat :| h.Has(x, i) && ClimbsOver(g, h, x, i, t);
      var e := h.At(x, i);
      assert UpEdge(h, k, x, h.adj[x][i]);
      assert Noted(h, m, x, h.adj[x][i]) && RealisedAt(g, h, s, m, e.dst);
      Triangle(g, s, e.dst, t);
      w := ReachesLabelled(g, h, k, s, m, t, e.dst);
    }
  }

  /** The label with the labels of the labelled nodes in done merged in. */
  ghost predicate Joined(g: Graph, h: Hierarchy, labels: seq<Label>, s: nat, m0: Label, done: set<nat>, m: Label)
  {
    && Rooted(g, h, s, m) && Better(m, m0)
    && (forall w: nat {:trigger w in done} :: w in done ==>
          w in m0 && w < |labels| && Dominates(m, m0[w].dist, labels[w]))
  }

  /** A merged-in entry is realised. */
  lemma JoinRealised(g: Graph, h: Hierarchy, labels: seq<Label>, s: nat, m: Label, w: nat, base: Entry, x: nat, e: int)
    requires Rooted(g, h, s, m) && w < |labels| && Sound(g, h, w, labels[w]) && x in labels[w]
    requires w < |h.lvl| && Reach(g, s, w) && Dist(g, s, w) <= base.dist
    ensures Rooted(g, h, s, Offer(m, x, base.dist + labels[w][x].dist, e))
  {
    assert SoundAt(g, h, w, labels[w], x);
    Triangle(g, s, w, x);
    OfferRooted(g, h, s, m, x, base.dist + labels[w][x].dist, e);
  }

  /** A label built from the labels above is sound. */
  lemma BuiltIsSound(g: Graph, h: Hierarchy, labels: seq<Label>, w: nat)
    requires Climbs(g, h) && w < |labels| && Built(g, h, labels, w, labels[w])
    ensures Sound(g, h, w, labels[w])
  {
    var m: Label :| Merged(g, h, labels, w, m) && Pruned(labels, w, m, labels[w]);
    MergedIsSound(g, h, labels, w, m, labels[w]);
  }

  /** The label of one more node has been merged in. */
  lemma JoinedMore(g: Graph, h: Hierarchy, labels: seq<Label>, s: nat, m0: Label, done: set<nat>, m: Label, w: nat,
                   m': Label)
    requires Joined(g, h, labels, s, m0, done, m) && w in m0 && w < |labels|
    requires Rooted(g, h, s, m') && Better(m', m) && Dominates(m', m[w].dist, labels[w])
    ensures Joined(g, h, labels, s, m0, done + {w}, m')
  {
    forall x: nat | x in done + {w}
      ensures x in m0 && x < |labels| && Dominates(m', m0[x].dist, labels[x])
    {
      if x in done {
        assert Dominates(m, m0[x].dist, labels[x]);
      }
    }
  }

  lemma PeakJoined(g: Graph, h: Hierarchy, labels: seq<Label>, k: nat, s: nat, m0: Label, done: set<nat>, m: Label,
                   t: nat)
    requires Symmetric(g) && Climbs(g, h) && Within(g, |h.lvl|) && s < |h.lvl| == |labels|
    requires CanonicalAbove(g, h, labels, k - 1)
    requires Exhaustive(g, h, k, s, m0) && Joined(g, h, labels, s, m0, done, m) && Peak(g, h.lvl, s, t)
    requires forall w: nat {:trigger w in done} :: w in m0 && !Low(h, k, w) ==> w in done
    ensures t in m && m[t].dist == Dist(g, s, t)
  {
    var p :| Walk(g, s, p, t);
    WalkWithin(g, |h.lvl|, s, p, t);
    OnShortestEnds(g, s, t);
    SelfDist(g, s);
    var w := ReachesLabelled(g, h, k, s, m0, t, s);
    if w != t || !Low(h, k, w) {
      assert w in done;
      PeakOnTheWay(g, h.lvl, s, w, t);
      assert Canonical(g, h.lvl, w, labels[w]);
      assert Dominates(m, m0[w].dist, labels[w]);
    }
    assert RealisedAt(g, h, s, m, t);
  }

  /** With the labels of all labelled nodes that were found, the temporary label covers its node. */
  lemma JoinedCovers(g: Graph, h: Hierarchy, labels: seq<Label>, k: nat, s: nat, m0: Label, done: set<nat>, m: Label)
    requires Symmetric(g) && Climbs(g, h) && Within(g, |h.lvl|) && s < |h.lvl| == |labels|
    requires CanonicalAbove(g, h, labels, k - 1)
    requires Exhaustive(g, h, k, s, m0) && Joined(g, h, labels, s, m0, done, m)
    requires forall w: nat {:trigger w in done} :: w in m0 && !Low(h, k, w) ==> w in done
    ensures Covers(g, h.lvl, s, m)
  {
    forall t: nat | Peak(g, h.lvl, s, t)
      ensures t in m && m[t].dist == Dist(g, s, t)
    {
      PeakJoined(g, h, labels, k, s, m0, done, m, t);
    }
    forall t: nat | t in m
      ensures Reach(g, s, t) && Dist(g, s, t) <= m[t].dist
    {
      assert RealisedAt(g, h, s, m, t);
    }
  }
}
