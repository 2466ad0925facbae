/** Which entries a label ends up with, first edges included, told without the steps that compute it. */
module LabelEntries {
  import opened Graphs
  import opened Sequences
  import opened HubLabels
  import opened LabelFunction
  import opened LabelBuilding

  // ---------- seeding ----------

  /** Next to v's own entry there is one for every higher neighbour, over the first edge listed to it. */
  ghost predicate SeedEntries(h: Hierarchy, v: nat, i: nat, m: Label)
    requires h.Shape() && v < |h.adj| && i <= |h.adj[v]|
  {
    && v in m && m[v] == Entry(0, -1)
    && (forall x: nat {:trigger UpTo(h, v, i, x)} :: x in m <==> x == v || UpTo(h, v, i, x))
    && (forall k: nat {:trigger h.First(v, k)} :: k < i && h.Up(v, k) && h.First(v, k) ==>
          h.At(v, k).dst in m && m[h.At(v, k).dst] == Entry(h.At(v, k).len, h.adj[v][k]))
  }

  /** An earlier edge leads to the same end exactly if this one is not the first. */
  lemma FirstIsNew(h: Hierarchy, v: nat, i: nat)
    requires h.Shape() && h.Has(v, i) && h.Up(v, i)
    ensures h.First(v, i) <==> !UpTo(h, v, i, h.At(v, i).dst)
  {
    if !h.First(v, i) {
      var j: nat :| j < i && h.At(v, j).dst == h.At(v, i).dst;
      assert h.Up(v, j);
    }
  }

  lemma {:induction false} SeedHasFirsts(h: Hierarchy, v: nat, i: nat)
    requires h.Shape() && v < |h.adj| && i <= |h.adj[v]|
    ensures SeedEntries(h, v, i, SeedTo(h, v, i))
  {
    if i > 0 {
      SeedHasFirsts(h, v, i - 1);
      var e, m := h.At(v, i - 1), SeedTo(h, v, i - 1);
      assert h.lvl[e.dst] != h.lvl[v];
      forall x: nat
        ensures UpTo(h, v, i, x) <==> UpTo(h, v, i - 1, x) || (h.Up(v, i - 1) && e.dst == x)
      {
        UpToMore(h, v, i - 1, x);
      }
      if h.Up(v, i - 1) {
        FirstIsNew(h, v, i - 1);
      }
    }
  }

  /** The ends of v's first i edges. */
  ghost function Ends(h: Hierarchy, v: nat, i: nat): seq<nat>
    requires h.Shape() && v < |h.adj| && i <= |h.adj[v]|
  {
    seq(i, k requires 0 <= k < i => h.At(v, k).dst)
  }

  ghost function UpBelow(h: Hierarchy, v: nat, i: nat): set<nat>
    requires h.Shape() && v < |h.adj|
  {
    set k: nat | k in h.UpAt(v) && k < i
  }

  /** The labels are merged in the order of the upward edges. */
  lemma {:induction false} UpEndsKept(h: Hierarchy, v: nat, i: nat)
    requires h.Shape() && v < |h.adj| && i <= |h.adj[v]|
    ensures Keeps(Ends(h, v, i), UpBelow(h, v, i), UpEnds(h, v, i))
  {
    if i == 0 {
      KeepsNone(Ends(h, v, 0));
      assert UpBelow(h, v, 0) == {} && Ends(h, v, 0) == [];
    } else {
      UpEndsKept(h, v, i - 1);
      KeepsLonger(Ends(h, v, i - 1), UpBelow(h, v, i - 1), UpEnds(h, v, i - 1), Ends(h, v, i));
      assert h.lvl[h.At(v, i - 1).dst] != h.lvl[v];
      if h.Up(v, i - 1) {
        KeepsNext(Ends(h, v, i), UpBelow(h, v, i - 1), UpEnds(h, v, i - 1), i - 1);
        assert UpBelow(h, v, i) == UpBelow(h, v, i - 1) + {i - 1};
      } else {
        assert UpBelow(h, v, i) == UpBelow(h, v, i - 1);
        assert UpEnds(h, v, i) == UpEnds(h, v, i - 1);
      }
    }
  }

  // ---------- merging ----------

  /** The way to x over end j, when its turn comes: over the entry the end has by then. */
  ghost predicate Offers(labels: seq<Label>, nbs: seq<nat>, s: Label, j: nat, x: nat, d: nat, edge: int)
    requires EndsIn(labels, nbs, s)
  {
    && j < |nbs| && x in labels[nbs[j]]
    && var base := MergeTo(labels, nbs, j, s)[nbs[j]];
      d == base.dist + labels[nbs[j]][x].dist && edge == base.edge
  }

  /** No way to x offered by the first n ends is shorter than d. */
  ghost predicate NoneShorter(labels: seq<Label>, nbs: seq<nat>, s: Label, n: nat, x: nat, d: nat)
    requires EndsIn(labels, nbs, s)
  {
    && (x in s ==> s[x].dist >= d)
    && (forall j: nat, c: nat, edge: int {:trigger Offers(labels, nbs, s, j, x, c, edge)} ::
          j < n && Offers(labels, nbs, s, j, x, c, edge) ==> c >= d)
  }

  /** End j is the first to offer x at distance d, and x had no entry at that distance before. */
  ghost predicate FirstOffer(labels: seq<Label>, nbs: seq<nat>, s: Label, j: nat, x: nat, d: nat, edge: int)
    requires EndsIn(labels, nbs, s)
  {
    && Offers(labels, nbs, s, j, x, d, edge) && (x in s ==> s[x].dist != d)
    && (forall i: nat, e: int {:trigger Offers(labels, nbs, s, i, x, d, e)} :: i < j ==>
          !Offers(labels, nbs, s, i, x, d, e))
  }

  /** The entry of x in r is the seed if none of the first n ends is shorter, and else that of the earliest shortest. */
  ghost predicate FromEarliest(labels: seq<Label>, nbs: seq<nat>, s: Label, n: nat, x: nat, r: Entry)
    requires EndsIn(labels, nbs, s)
  {
    && NoneShorter(labels, nbs, s, n, x, r.dist)
    && ((x in s && r == s[x]) || exists j: nat :: j < n && FirstOffer(labels, nbs, s, j, x, r.dist, r.edge))
  }

  /** One more end offers a shorter way than there was, or the first. */
  lemma OfferTaken(labels: seq<Label>, nbs: seq<nat>, s: Label, n: nat, x: nat, d: nat, edge: int, least: nat)
    requires EndsIn(labels, nbs, s) && Offers(labels, nbs, s, n, x, d, edge) && least > d
    requires NoneShorter(labels, nbs, s, n, x, least)
    ensures FromEarliest(labels, nbs, s, n + 1, x, Entry(d, edge))
  {
    assert FirstOffer(labels, nbs, s, n, x, d, edge);
  }

  /** One more end offers no shorter way. */
  lemma OfferPassed(labels: seq<Label>, nbs: seq<nat>, s: Label, n: nat, x: nat, d: nat, edge: int, r: Entry)
    requires EndsIn(labels, nbs, s) && Offers(labels, nbs, s, n, x, d, edge) && r.dist <= d
    requires FromEarliest(labels, nbs, s, n, x, r)
    ensures FromEarliest(labels, nbs, s, n + 1, x, r)
  {
  }

  /** x has a seed or is a hub of one of the first n ends. */
  ghost predicate Heard(labels: seq<Label>, nbs: seq<nat>, s: Label, n: nat, x: nat)
    requires EndsIn(labels, nbs, s)
  {
    x in s || exists j: nat :: j < n && j < |nbs| && x in labels[nbs[j]]
  }

  /** Exactly the hubs heard of have entries in r, each with its seed or the earliest of the shortest ways offered. */
  ghost predicate Earliest(labels: seq<Label>, nbs: seq<nat>, s: Label, n: nat, x: nat, r: Label)
    requires EndsIn(labels, nbs, s)
  {
    (x in r <==> Heard(labels, nbs, s, n, x)) && (x in r ==> FromEarliest(labels, nbs, s, n, x, r[x]))
  }

  /** One more end that does not know x. */
  lemma NoOffer(labels: seq<Label>, nbs: seq<nat>, s: Label, n: nat, x: nat, r: Entry)
    requires EndsIn(labels, nbs, s) && n < |nbs| && x !in labels[nbs[n]] && FromEarliest(labels, nbs, s, n, x, r)
    ensures FromEarliest(labels, nbs, s, n + 1, x, r)
  {
  }

  lemma NeverHeard(labels: seq<Label>, nbs: seq<nat>, s: Label, n: nat, x: nat, d: nat)
    requires EndsIn(labels, nbs, s) && !Heard(labels, nbs, s, n, x)
    ensures NoneShorter(labels, nbs, s, n, x, d)
  {
  }

  lemma HeardMore(labels: seq<Label>, nbs: seq<nat>, s: Label, n: nat, x: nat)
    requires EndsIn(labels, nbs, s) && n < |nbs|
    ensures Heard(labels, nbs, s, n + 1, x) <==> Heard(labels, nbs, s, n, x) || x in labels[nbs[n]]
  {
    if j: nat :| j < n + 1 && x in labels[nbs[j]] {
      assert j < n ==> Heard(labels, nbs, s, n, x);
    }
  }

  /** One more end is merged. */
  lemma MergeOneEnd(labels: seq<Label>, nbs: seq<nat>, s: Label, n: nat, x: nat, m: Label, base: Entry, r: Label)
    requires EndsIn(labels, nbs, s) && n < |nbs| && Earliest(labels, nbs, s, n, x, m)
    requires m == MergeTo(labels, nbs, n, s) && base == m[nbs[n]] && TakesShorter(m, base, labels[nbs[n]], r, x)
    ensures Earliest(labels, nbs, s, n + 1, x, r)
  {
    HeardMore(labels, nbs, s, n, x);
    if x in labels[nbs[n]] {
      var d := base.dist + labels[nbs[n]][x].dist;
      assert Offers(labels, nbs, s, n, x, d, base.edge);
      if x !in m {
        NeverHeard(labels, nbs, s, n, x, d + 1);
        OfferTaken(labels, nbs, s, n, x, d, base.edge, d + 1);
      } else if m[x].dist <= d {
        OfferPassed(labels, nbs, s, n, x, d, base.edge, m[x]);
      } else {
        OfferTaken(labels, nbs, s, n, x, d, base.edge, m[x].dist);
      }
    } else if x in m {
      NoOffer(labels, nbs, s, n, x, m[x]);
    }
  }

  /** Merging, in the order of the ends, does just that. */
  lemma {:induction false} MergeKeepsEarliest(labels: seq<Label>, nbs: seq<nat>, s: Label, n: nat, x: nat)
    requires EndsIn(labels, nbs, s) && n <= |nbs|
    ensures Earliest(labels, nbs, s, n, x, MergeTo(labels, nbs, n, s))
  {
    if n > 0 {
      MergeKeepsEarliest(labels, nbs, s, n - 1, x);
      var b, m := nbs[n - 1], MergeTo(labels, nbs, n - 1, s);
      MergeTakesShorter(m, m[b], labels[b]);
      assert TakesShorter(m, m[b], labels[b], MergeLabel(m, m[b], labels[b]), x);
      MergeOneEnd(labels, nbs, s, n - 1, x, m, m[b], MergeLabel(m, m[b], labels[b]));
    }
  }

  // ---------- pruning ----------

  /** What of m is left when the turn of x comes, if f is left in the end: the hubs in f, and all from x on. */
  ghost function LeftAt(m: Label, f: Label, x: nat): Label
  {
    map y | y in m && (y >= x || y in f) :: m[y]
  }

  lemma {:induction false} PruneUntouched(labels: seq<Label>, v: nat, m: Label, x: nat, y: nat)
    requires x <= |labels| && x <= y
    ensures y in PruneTo(labels, v, m, x) <==> y in m
  {
    if x > 0 {
      PruneUntouched(labels, v, m, x - 1, y);
    }
  }

  lemma {:induction false} PruneDecided(labels: seq<Label>, v: nat, m: Label, y: nat, x: nat, n: nat)
    requires y < x <= n <= |labels|
    ensures y in PruneTo(labels, v, m, n) <==> y in PruneTo(labels, v, m, x)
  {
    if x < n {
      PruneDecided(labels, v, m, y, x, n - 1);
    }
  }

  lemma LeftIsPruned(labels: seq<Label>, v: nat, m: Label, x: nat)
    requires x <= |labels|
    ensures LeftAt(m, PruneTo(labels, v, m, |labels|), x) == PruneTo(labels, v, m, x)
  {
    PruneToWithin(labels, v, m, x);
    PruneToWithin(labels, v, m, |labels|);
    forall y: nat
      ensures y in LeftAt(m, PruneTo(labels, v, m, |labels|), x) <==> y in PruneTo(labels, v, m, x)
    {
      if y < x {
        PruneDecided(labels, v, m, y, x, |labels|);
      } else {
        PruneUntouched(labels, v, m, x, y);
      }
    }
  }

  /** A hub stays exactly if it is v or has no witness among the hubs left when its turn comes, lower ones first. */
  lemma PruneKeepsExactly(labels: seq<Label>, v: nat, m: Label, x: nat)
    requires x < |labels|
    ensures var f := PruneTo(labels, v, m, |labels|);
            && (x in f <==> x in m && (x == v || !HasWitness(labels, LeftAt(m, f, x), x, m[x].dist)))
            && (x in f ==> f[x] == m[x])
  {
    LeftIsPruned(labels, v, m, x);
    PruneUntouched(labels, v, m, x, x);
    PruneToWithin(labels, v, m, x);
    PruneToWithin(labels, v, m, |labels|);
    PruneDecided(labels, v, m, x, x + 1, |labels|);
  }

  // ---------- the whole label ----------

  /** The label of v holds x exactly if x was merged and has no witness left at its turn; seeds and ends in order. */
  lemma LabelEntry(h: Hierarchy, labels: seq<Label>, v: nat, x: nat)
    requires h.Shape() && v < |h.adj| == |labels| && x < |labels|
    ensures var k := |h.adj[v]|;
            var s, nbs, m, f := SeedTo(h, v, k), UpEnds(h, v, k), MergedFor(h, labels, v), LabelFor(h, labels, v);
            && EndsIn(labels, nbs, s) && SeedEntries(h, v, k, s) && Keeps(Ends(h, v, k), h.UpAt(v), nbs)
            && Earliest(labels, nbs, s, |nbs|, x, m)
            && (x in f <==> x in m && (x == v || !HasWitness(labels, LeftAt(m, f, x), x, m[x].dist)))
            && (x in f ==> f[x] == m[x])
  {
    var k := |h.adj[v]|;
    UpEndsIn(h, labels, v, k);
    SeedHasFirsts(h, v, k);
    UpEndsKept(h, v, k);
    assert UpBelow(h, v, k) == h.UpAt(v);
    MergeKeepsEarliest(labels, UpEnds(h, v, k), SeedTo(h, v, k), |UpEnds(h, v, k)|, x);
    PruneKeepsExactly(labels, v, MergedFor(h, labels, v), x);
  }
}
