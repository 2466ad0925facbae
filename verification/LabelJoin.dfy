/** Walking through two sorted labels at once to find their best common hub, on values. */
module LabelJoin {
  import opened IntArrays
  import opened Graphs
  import opened HubLabels
  import opened LabelColumns

  ghost predicate Common(a: Label, b: Label, x: nat) { x in a && x in b }

  /** Distances over common hubs fit an int. */
  ghost predicate SumsFit(a: Label, b: Label)
  {
    forall x: nat {:trigger Common(a, b, x)} :: Common(a, b, x) ==> a[x].dist + b[x].dist < MAX_VALUE
  }

  /** hub is the best common hub so far, over which the way is d long; -1 stands for none. */
  ghost predicate Best(a: Label, b: Label, hub: int, d: int)
  {
    if hub < 0 then hub == -1 && d == MAX_VALUE
    else Common(a, b, hub) && a[hub as nat].dist + b[hub as nat].dist == d && d < MAX_VALUE
  }

  /** The way over x is longer than that over hub, or as long and x has a greater id. */
  ghost predicate NoBetter(a: Label, b: Label, hub: int, d: int, x: nat)
    requires Common(a, b, x)
  {
    d < a[x].dist + b[x].dist || (d == a[x].dist + b[x].dist && hub <= x)
  }

  /** Every common hub is still to come in both labels, or no better than the best one so far, which is behind. */
  ghost predicate Joining(a: Label, ca: Columns, i: nat, b: Label, cb: Columns, j: nat, hub: int, d: int)
  {
    && Best(a, b, hub, d) && (forall k {:trigger ca.ids[k]} :: i <= k < |ca.ids| ==> hub < ca.ids[k])
    && (forall x: nat {:trigger Common(a, b, x)} :: Common(a, b, x) ==>
          (Ahead(ca.ids, i, x) && Ahead(cb.ids, j, x)) || NoBetter(a, b, hub, d, x))
  }

  lemma JoinStart(a: Label, ca: Columns, b: Label, cb: Columns)
    requires ca.Holds(a) && cb.Holds(b)
    ensures Joining(a, ca, 0, b, cb, 0, -1, MAX_VALUE)
  {
    forall x: nat | Common(a, b, x)
      ensures Ahead(ca.ids, 0, x) && Ahead(cb.ids, 0, x)
    {
      assert ca.Lists(x) && cb.Lists(x);
    }
    forall k: nat | k < |ca.ids|
      ensures ca.ids[k] >= 0
    {
      assert ca.EntryAt(a, k);
    }
  }

  /** Both labels are at the same hub. */
  lemma JoinMeet(a: Label, ca: Columns, i: nat, b: Label, cb: Columns, j: nat, hub: int, d: int, hub': int, d': int)
    requires ca.Holds(a) && cb.Holds(b) && i < |ca.ids| && j < |cb.ids| && ca.ids[i] == cb.ids[j]
    requires Joining(a, ca, i, b, cb, j, hub, d)
    requires if ca.ds[i] + cb.ds[j] < d then hub' == ca.ids[i] && d' == ca.ds[i] + cb.ds[j] else hub' == hub && d' == d
    ensures ca.EntryAt(a, i) && cb.EntryAt(b, j) && Joining(a, ca, i + 1, b, cb, j + 1, hub', d')
  {
    assert ca.EntryAt(a, i) && cb.EntryAt(b, j);
    forall x: nat | Common(a, b, x) && x != ca.ids[i] && Ahead(ca.ids, i, x) && Ahead(cb.ids, j, x)
      ensures Ahead(ca.ids, i + 1, x) && Ahead(cb.ids, j + 1, x)
    {
      SkipEqual(ca.ids, i, x);
      SkipEqual(cb.ids, j, x);
    }
  }

  /** The smaller of two different hubs is not common. */
  lemma JoinPass(a: Label, ca: Columns, i: nat, b: Label, cb: Columns, j: nat, hub: int, d: int)
    requires ca.Holds(a) && cb.Holds(b) && i < |ca.ids| && j < |cb.ids|
    requires Joining(a, ca, i, b, cb, j, hub, d)
    ensures ca.ids[i] < cb.ids[j] ==> Joining(a, ca, i + 1, b, cb, j, hub, d)
    ensures cb.ids[j] < ca.ids[i] ==> Joining(a, ca, i, b, cb, j + 1, hub, d)
  {
    forall x: nat | Common(a, b, x) && Ahead(ca.ids, i, x) && Ahead(cb.ids, j, x)
      ensures ca.ids[i] < cb.ids[j] ==> Ahead(ca.ids, i + 1, x)
      ensures cb.ids[j] < ca.ids[i] ==> Ahead(cb.ids, j + 1, x)
    {
      if ca.ids[i] < cb.ids[j] {
        SkipSmaller(ca.ids, i, cb.ids, j, x);
      } else if cb.ids[j] < ca.ids[i] {
        SkipSmaller(cb.ids, j, ca.ids, i, x);
      }
    }
  }

  /**
   * What a finished join says: of the best hubs that with the least id is found; no hub is found when there is none
   * over which the way fits an int.
   */
  ghost predicate JoinResult(a: Label, b: Label, hub: int, d: int)
  {
    Best(a, b, hub, d) && forall x: nat {:trigger Common(a, b, x)} :: Common(a, b, x) ==> NoBetter(a, b, hub, d, x)
  }

  /** At the end of either label, the best hub so far is the best of all. */
  lemma JoinEnd(a: Label, ca: Columns, i: nat, b: Label, cb: Columns, j: nat, hub: int, d: int)
    requires Joining(a, ca, i, b, cb, j, hub, d) && (i >= |ca.ids| || j >= |cb.ids|)
    ensures JoinResult(a, b, hub, d)
  {
  }

  /** From labels that answer queries, a join finds out whether t is reachable and how far it is. */
  lemma JoinAnswers(g: Graph, s: nat, t: nat, a: Label, b: Label, hub: int, d: int)
    requires QueryExact(g, s, t, a, b) && JoinResult(a, b, hub, d) && (Reach(g, s, t) ==> Dist(g, s, t) < MAX_VALUE)
    ensures hub < 0 <==> !Reach(g, s, t)
    ensures hub >= 0 ==> d == Dist(g, s, t)
  {
    if Reach(g, s, t) {
      var x := BestHub(g, s, t, a, b);
      assert Common(a, b, x);
    }
  }

  /** When all sums over common hubs fit an int, so does the distance. */
  lemma DistFits(g: Graph, s: nat, t: nat, a: Label, b: Label)
    requires QueryExact(g, s, t, a, b) && SumsFit(a, b) && Reach(g, s, t)
    ensures Dist(g, s, t) < MAX_VALUE
  {
    var x := BestHub(g, s, t, a, b);
    assert Common(a, b, x);
  }
}
