/** What the label function means: seeding with the upward edges, merging the ends' labels and pruning build a label. */
module LabelBuilding {
  import opened Graphs
  import opened HubLabels
  import opened LabelColumns
  import opened LabelFunction

  ghost predicate SoundAt(g: Graph, h: Hierarchy, u: nat, a: Label, x: nat)
  {
    x in a && x < |h.lvl| && u < |h.lvl| && (x == u || h.lvl[x] > h.lvl[u]) && Reach(g, u, x) &&
      Dist(g, u, x) <= a[x].dist
  }

  /** Every entry is realised by a walk and, but for the node's own, leads to a higher node. */
  ghost predicate Sound(g: Graph, h: Hierarchy, u: nat, a: Label)
  {
    && u < |h.lvl| && u in a
    && (forall x: nat {:trigger SoundAt(g, h, u, a, x)} :: x in a ==> SoundAt(g, h, u, a, x))
  }

  /** Labels of all nodes above v's level are there and sound. */
  ghost predicate SoundAbove(g: Graph, h: Hierarchy, labels: seq<Label>, i: int)
  {
    && |labels| == |h.lvl|
    && (forall u: nat {:trigger Sound(g, h, u, labels[u])} :: u < |h.lvl| && h.lvl[u] > i ==> Sound(g, h, u, labels[u]))
  }

  /** m holds v itself, and every other entry leads over a kept edge. */
  ghost predicate Leading(g: Graph, h: Hierarchy, v: nat, m: Label)
    requires h.Shape() && v < |h.adj|
  {
    && v in m && m[v] == Entry(0, -1)
    && (forall x: nat {:trigger Towards(g, h, v, m[x], x)} :: x in m && x != v ==> Towards(g, h, v, m[x], x))
  }

  /** b has all hubs of a, at no greater distance. */
  ghost predicate Better(b: Label, a: Label)
  {
    forall x: nat :: x in a ==> x in b && b[x].dist <= a[x].dist
  }

  // ---------- seeding with the upward edges ----------

  /** The kept edge at position k has its entry. */
  ghost predicate SeededBy(h: Hierarchy, v: nat, k: nat, m: Label)
    requires h.Shape() && h.Has(v, k)
  {
    h.At(v, k).dst in m && m[h.At(v, k).dst].dist <= h.At(v, k).len
  }

  /** One of the first i edges of v goes up to x. */
  ghost predicate UpTo(h: Hierarchy, v: nat, i: nat, x: nat)
    requires h.Shape() && v < |h.adj| && i <= |h.adj[v]|
  {
    exists k: nat :: k < i && h.Up(v, k) && h.At(v, k).dst == x
  }

  /** The first i edges of v have been looked at; nbs are the ends of those that go up. */
  ghost predicate Seeding(g: Graph, h: Hierarchy, v: nat, i: nat, m: Label, nbs: seq<nat>)
    requires h.Shape() && v < |h.adj| && i <= |h.adj[v]|
  {
    && Leading(g, h, v, m)
    && (forall x: nat {:trigger x in m} :: x in m && x != v ==> UpTo(h, v, i, x))
    && (forall k: nat {:trigger SeededBy(h, v, k, m)} :: k < i && h.Up(v, k) && h.First(v, k) ==> SeededBy(h, v, k, m))
    && (forall x: nat {:trigger x in nbs} :: x in nbs <==> UpTo(h, v, i, x))
    && (forall x: nat {:trigger x in nbs} :: x in nbs ==> x in m && x != v)
  }

  lemma SeedNone(g: Graph, h: Hierarchy, v: nat)
    requires h.Shape() && v < |h.adj|
    ensures Seeding(g, h, v, 0, map[v := Entry(0, -1)], [])
  {
  }

  lemma UpToMore(h: Hierarchy, v: nat, i: nat, x: nat)
    requires h.Shape() && v < |h.adj| && i < |h.adj[v]|
    ensures UpTo(h, v, i + 1, x) <==> UpTo(h, v, i, x) || (h.Up(v, i) && h.At(v, i).dst == x)
  {
    if UpTo(h, v, i, x) {
      var k: nat :| k < i && h.Up(v, k) && h.At(v, k).dst == x;
      assert h.Up(v, k) && h.At(v, k).dst == x;
    }
  }

  /** A downward edge is ignored. */
  lemma SeedDown(g: Graph, h: Hierarchy, v: nat, i: nat, m: Label, nbs: seq<nat>)
    requires h.Shape() && v < |h.adj| && i < |h.adj[v]| && Seeding(g, h, v, i, m, nbs) && !h.Up(v, i)
    ensures Seeding(g, h, v, i + 1, m, nbs)
  {
    forall x: nat
      ensures UpTo(h, v, i + 1, x) <==> UpTo(h, v, i, x)
    {
      UpToMore(h, v, i, x);
    }
  }

  /** The end of an upward edge has no entry exactly when the edge is the first one to that end. */
  lemma NewIsFirst(g: Graph, h: Hierarchy, v: nat, i: nat, m: Label, nbs: seq<nat>)
    requires h.Shape() && v < |h.adj| && i < |h.adj[v]| && Seeding(g, h, v, i, m, nbs) && h.Up(v, i)
    ensures h.At(v, i).dst != v && (h.At(v, i).dst in m <==> !h.First(v, i))
  {
    var x := h.At(v, i).dst;
    if x in m {
      assert UpTo(h, v, i, x);
    }
    if !h.First(v, i) {
      var j: nat :| j < i && h.At(v, j).dst == x;
      assert h.Up(v, j) && UpTo(h, v, i, x);
      assert x in nbs;
    }
  }

  /** A second edge to the same end is skipped. */
  lemma SeedSkip(g: Graph, h: Hierarchy, v: nat, i: nat, m: Label, nbs: seq<nat>)
    requires h.Shape() && v < |h.adj| && i < |h.adj[v]| && Seeding(g, h, v, i, m, nbs) && h.Up(v, i)
    requires h.At(v, i).dst in m
    ensures Seeding(g, h, v, i + 1, m, nbs + [h.At(v, i).dst])
  {
    NewIsFirst(g, h, v, i, m, nbs);
    forall x: nat
      ensures UpTo(h, v, i + 1, x) <==> UpTo(h, v, i, x) || h.At(v, i).dst == x
    {
      UpToMore(h, v, i, x);
    }
  }

  /** The entry of a first edge leads over that edge. */
  lemma FirstEdgeLeads(g: Graph, h: Hierarchy, v: nat, i: nat, m: Label)
    requires h.Shape() && h.Has(v, i) && Leading(g, h, v, m) && h.Up(v, i) && h.First(v, i) && h.At(v, i).dst != v
    ensures Leading(g, h, v, m[h.At(v, i).dst := Entry(h.At(v, i).len, h.adj[v][i])])
  {
    var y := h.At(v, i).dst;
    var m' := m[y := Entry(h.At(v, i).len, h.adj[v][i])];
    SelfDist(g, y);
    forall x: nat | x in m' && x != v
      ensures Towards(g, h, v, m'[x], x)
    {
      assert x != y ==> Towards(g, h, v, m[x], x);
    }
  }

  /** The first edge to its end becomes an entry. */
  lemma SeedFirst(g: Graph, h: Hierarchy, v: nat, i: nat, m: Label, nbs: seq<nat>)
    requires h.Shape() && v < |h.adj| && i < |h.adj[v]| && Seeding(g, h, v, i, m, nbs) && h.Up(v, i)
    requires h.At(v, i).dst !in m
    ensures Seeding(g, h, v, i + 1, m[h.At(v, i).dst := Entry(h.At(v, i).len, h.adj[v][i])], nbs + [h.At(v, i).dst])
  {
    NewIsFirst(g, h, v, i, m, nbs);
    FirstEdgeLeads(g, h, v, i, m);
    var y := h.At(v, i).dst;
    var m' := m[y := Entry(h.At(v, i).len, h.adj[v][i])];
    forall x: nat
      ensures UpTo(h, v, i + 1, x) <==> UpTo(h, v, i, x) || y == x
    {
      UpToMore(h, v, i, x);
    }
    forall k: nat | k < i + 1 && h.Up(v, k) && h.First(v, k)
      ensures SeededBy(h, v, k, m')
    {
      assert k < i ==> SeededBy(h, v, k, m);
    }
  }

  /** Looking at the first i edges does what seeding asks for. */
  lemma {:induction false} SeedToSeeds(g: Graph, h: Hierarchy, v: nat, i: nat)
    requires h.Shape() && v < |h.adj| && i <= |h.adj[v]|
    ensures Seeding(g, h, v, i, SeedTo(h, v, i), UpEnds(h, v, i))
  {
    if i == 0 {
      SeedNone(g, h, v);
    } else {
      SeedToSeeds(g, h, v, i - 1);
      var e, m, nbs := h.At(v, i - 1), SeedTo(h, v, i - 1), UpEnds(h, v, i - 1);
      assert h.lvl[e.dst] != h.lvl[v];
      if !h.Up(v, i - 1) {
        SeedDown(g, h, v, i - 1, m, nbs);
      } else if e.dst in m {
        SeedSkip(g, h, v, i - 1, m, nbs);
      } else {
        SeedFirst(g, h, v, i - 1, m, nbs);
      }
    }
  }

  // ---------- merging the labels of the ends ----------

  /** An entry of the label of b, taken over at v over the edge by which v reaches b, is led by that edge. */
  lemma OfferLeads(g: Graph, h: Hierarchy, v: nat, b: nat, base: Entry, a: Label, x: nat)
    requires h.Shape() && v < |h.adj| && Towards(g, h, v, base, b) && Sound(g, h, b, a) && x in a
    ensures x != v && Towards(g, h, v, Entry(base.dist + a[x].dist, base.edge), x)
  {
    assert SoundAt(g, h, b, a, x);
    Triangle(g, h.store[base.edge].dst, b, x);
  }

  /** After merging the label of b every entry is still led by a kept edge. */
  lemma MergeLeads(g: Graph, h: Hierarchy, v: nat, m: Label, b: nat, base: Entry, a: Label)
    requires h.Shape() && v < |h.adj| && Leading(g, h, v, m) && Towards(g, h, v, base, b) && Sound(g, h, b, a)
    ensures Leading(g, h, v, MergeLabel(m, base, a))
  {
    var r := MergeLabel(m, base, a);
    if v in a {
      OfferLeads(g, h, v, b, base, a, v);
    }
    forall x: nat | x in r && x != v
      ensures Towards(g, h, v, r[x], x)
    {
      if x in a {
        OfferLeads(g, h, v, b, base, a, x);
      }
      assert x in m ==> Towards(g, h, v, m[x], x);
    }
  }

  /** Merging makes no entry worse, and the result is no worse than going to base first and using a there. */
  lemma MergeImproves(m: Label, base: Entry, a: Label)
    ensures Better(MergeLabel(m, base, a), m) && Dominates(MergeLabel(m, base, a), base.dist, a)
  {
  }

  /** The first i entries of the columns c, offered at an additional distance d, are no better than m. */
  ghost predicate Offered(m: Label, c: Columns, i: nat, d: nat)
  {
    && i <= |c.ids| == |c.ds|
    && (forall j: nat {:trigger c.ids[j]} :: j < i ==>
          c.ids[j] >= 0 && (c.ids[j] as nat) in m && m[c.ids[j] as nat].dist <= d + c.ds[j])
  }

  lemma OfferedNext(m: Label, m': Label, c: Columns, i: nat, d: nat, e: int)
    requires Offered(m, c, i, d) && i < |c.ids| && c.ids[i] >= 0 && c.ds[i] >= 0
    requires m' == Offer(m, c.ids[i], d + c.ds[i], e)
    ensures Offered(m', c, i + 1, d)
  {
  }

  lemma OfferedAll(m: Label, c: Columns, d: nat, a: Label)
    requires c.Holds(a) && Offered(m, c, |c.ids|, d)
    ensures Dominates(m, d, a)
  {
    forall x: nat | x in a
      ensures x in m && m[x].dist <= d + a[x].dist
    {
      assert c.Lists(x);
      var j: nat :| j < |c.ids| && c.ids[j] == x;
      assert c.EntryAt(a, j);
    }
  }

  /** The entry of an end leads over a stored edge to that end. */
  lemma BaseHasEdge(g: Graph, h: Hierarchy, v: nat, m: Label, b: nat)
    requires h.Shape() && v < |h.adj| && Leading(g, h, v, m) && b in m && b != v
    ensures Towards(g, h, v, m[b], b) && 0 <= m[b].edge < |h.store| && b < |h.lvl| && h.lvl[b] > h.lvl[v]
  {
    assert Towards(g, h, v, m[b], b);
  }

  /** The labels of the first j ends have been merged. */
  ghost predicate MergedUpTo(labels: seq<Label>, s: Label, nbs: seq<nat>, j: nat, m: Label)
  {
    && Better(m, s) && j <= |nbs|
    && (forall i: nat {:trigger nbs[i]} :: i < j ==>
          nbs[i] < |labels| && nbs[i] in s && Dominates(m, s[nbs[i]].dist, labels[nbs[i]]))
  }

  lemma MergeNext(labels: seq<Label>, s: Label, nbs: seq<nat>, j: nat, m: Label, m': Label)
    requires MergedUpTo(labels, s, nbs, j, m) && j < |nbs| && nbs[j] < |labels| && nbs[j] in s
    requires Better(m', m) && Dominates(m', m[nbs[j]].dist, labels[nbs[j]])
    ensures MergedUpTo(labels, s, nbs, j + 1, m')
  {
    forall i: nat | i < j + 1
      ensures nbs[i] < |labels| && nbs[i] in s && Dominates(m', s[nbs[i]].dist, labels[nbs[i]])
    {
      if i < j {
        assert Dominates(m, s[nbs[i]].dist, labels[nbs[i]]);
      }
    }
  }

  /** One more label is merged in. */
  lemma MergeNeighbour(g: Graph, h: Hierarchy, labels: seq<Label>, v: nat, nbs: seq<nat>, j: nat, s: Label, m: Label)
    requires h.Shape() && v < |h.adj| && SoundAbove(g, h, labels, h.lvl[v])
    requires EndsIn(labels, nbs, s) && v !in nbs && j < |nbs|
    requires Leading(g, h, v, m) && MergedUpTo(labels, s, nbs, j, m)
    ensures nbs[j] in m && nbs[j] < |labels|
    ensures var m' := MergeLabel(m, m[nbs[j]], labels[nbs[j]]);
            Leading(g, h, v, m') && MergedUpTo(labels, s, nbs, j + 1, m')
  {
    var b := nbs[j];
    assert b in nbs;
    BaseHasEdge(g, h, v, m, b);
    assert Sound(g, h, b, labels[b]);
    MergeLeads(g, h, v, m, b, m[b], labels[b]);
    MergeImproves(m, m[b], labels[b]);
    MergeNext(labels, s, nbs, j, m, MergeLabel(m, m[b], labels[b]));
  }

  lemma {:induction false} MergeToMerges(g: Graph, h: Hierarchy, labels: seq<Label>, v: nat, nbs: seq<nat>, j: nat,
                                         s: Label)
    requires h.Shape() && v < |h.adj| && SoundAbove(g, h, labels, h.lvl[v])
    requires Leading(g, h, v, s) && EndsIn(labels, nbs, s) && v !in nbs && j <= |nbs|
    ensures Leading(g, h, v, MergeTo(labels, nbs, j, s)) && MergedUpTo(labels, s, nbs, j, MergeTo(labels, nbs, j, s))
  {
    if j > 0 {
      MergeToMerges(g, h, labels, v, nbs, j - 1, s);
      MergeNeighbour(g, h, labels, v, nbs, j - 1, s, MergeTo(labels, nbs, j - 1, s));
    }
  }

  /** Seeding and merging give what the theory calls a merged label. */
  lemma MergeDone(g: Graph, h: Hierarchy, labels: seq<Label>, v: nat, s: Label, nbs: seq<nat>, m: Label)
    requires h.Shape() && v < |h.adj| && |labels| == |h.adj|
    requires Seeding(g, h, v, |h.adj[v]|, s, nbs) && Leading(g, h, v, m) && MergedUpTo(labels, s, nbs, |nbs|, m)
    ensures Merged(g, h, labels, v, m)
  {
    forall k: nat | h.Has(v, k) && h.Up(v, k) && h.First(v, k)
      ensures Dominates(m, h.At(v, k).len, labels[h.At(v, k).dst])
    {
      assert SeededBy(h, v, k, s);
      var x := h.At(v, k).dst;
      assert UpTo(h, v, |h.adj[v]|, x);
      assert x in nbs;
      var i: nat :| i < |nbs| && nbs[i] == x;
      assert Dominates(m, s[nbs[i]].dist, labels[nbs[i]]);
    }
  }

  /** A merged label is sound, whatever was skipped. */
  lemma MergedIsSound(g: Graph, h: Hierarchy, labels: seq<Label>, v: nat, m: Label, f: Label)
    requires Climbs(g, h) && v < |h.adj| && |labels| == |h.adj| && Merged(g, h, labels, v, m) && Pruned(labels, v, m, f)
    ensures Sound(g, h, v, f)
  {
    forall x: nat | x in f
      ensures SoundAt(g, h, v, f, x)
    {
      MergedRealised(g, h, labels, v, m, x);
      assert x != v ==> Towards(g, h, v, m[x], x);
    }
  }

  /** The label before pruning is a merged label in the sense of the theory. */
  lemma MergedForMerges(g: Graph, h: Hierarchy, labels: seq<Label>, v: nat)
    requires h.Shape() && v < |h.adj| && SoundAbove(g, h, labels, h.lvl[v])
    ensures Merged(g, h, labels, v, MergedFor(h, labels, v))
  {
    var k := |h.adj[v]|;
    var s, nbs := SeedTo(h, v, k), UpEnds(h, v, k);
    SeedToSeeds(g, h, v, k);
    UpEndsIn(h, labels, v, k);
    MergeToMerges(g, h, labels, v, nbs, |nbs|, s);
    MergeDone(g, h, labels, v, s, nbs, MergedFor(h, labels, v));
  }

  // ---------- pruning ----------

  /** The hubs below bound have been checked: f is what is left of m. */
  ghost predicate Pruning(labels: seq<Label>, v: nat, m: Label, f: Label, bound: nat)
  {
    && v in f && (forall x: nat :: x in m ==> x < |labels|)
    && (forall x: nat :: x in f ==> x in m && f[x] == m[x])
    && (forall x: nat {:trigger HasWitness(labels, m, x, m[x].dist)} ::
          x in m && x !in f ==> HasWitness(labels, m, x, m[x].dist))
    && (forall x: nat {:trigger HasWitness(labels, f, x, f[x].dist)} ::
          x in f && x < bound && x != v ==> !HasWitness(labels, f, x, f[x].dist))
  }

  lemma WitnessInMore(labels: seq<Label>, f: Label, m: Label, x: nat, d: nat)
    requires x < |labels| && HasWitness(labels, f, x, d) && (forall y: nat :: y in f ==> y in m && f[y] == m[y])
    ensures HasWitness(labels, m, x, d)
  {
    var c: nat :| Witness(labels, f, x, d, c);
    assert Witness(labels, m, x, d, c);
  }

  /** A hub without a witness stays. */
  lemma PruneKeep(labels: seq<Label>, v: nat, m: Label, f: Label, y: nat)
    requires Pruning(labels, v, m, f, y) && (y in f && y != v ==> y < |labels| && !HasWitness(labels, f, y, f[y].dist))
    ensures Pruning(labels, v, m, f, y + 1)
  {
  }

  /** A hub with a witness goes: others keep their verdict, as there are only fewer witnesses left. */
  lemma PruneDrop(labels: seq<Label>, v: nat, m: Label, f: Label, y: nat)
    requires Pruning(labels, v, m, f, y) && y in f && y != v && y < |labels| && HasWitness(labels, f, y, f[y].dist)
    ensures Pruning(labels, v, m, f - {y}, y + 1)
  {
    var f' := f - {y};
    WitnessInMore(labels, f, m, y, f[y].dist);
    forall x: nat | x in f' && x < y + 1 && x != v
      ensures !HasWitness(labels, f', x, f'[x].dist)
    {
      if HasWitness(labels, f', x, f'[x].dist) {
        WitnessInMore(labels, f', f, x, f'[x].dist);
      }
    }
  }

  lemma {:induction false} PruneToPrunes(labels: seq<Label>, v: nat, m: Label, bound: nat)
    requires v in m && bound <= |labels| && forall x: nat :: x in m ==> x < |labels|
    ensures Pruning(labels, v, m, PruneTo(labels, v, m, bound), bound)
  {
    if bound > 0 {
      PruneToPrunes(labels, v, m, bound - 1);
      var f, y := PruneTo(labels, v, m, bound - 1), bound - 1;
      if y in f && y != v && HasWitness(labels, f, y, f[y].dist) {
        PruneDrop(labels, v, m, f, y);
      } else {
        PruneKeep(labels, v, m, f, y);
      }
    }
  }

  /** Once all hubs are checked, what went had a witness and what stayed has none. */
  lemma PruneDone(labels: seq<Label>, v: nat, m: Label, f: Label)
    requires Pruning(labels, v, m, f, |labels|)
    ensures Pruned(labels, v, m, f)
  {
    forall x: nat, c: nat | x in f && x != v && c in f
      ensures !Witness(labels, f, x, f[x].dist, c)
    {
      assert !HasWitness(labels, f, x, f[x].dist);
    }
  }

  // ---------- the whole label ----------

  /** From sound labels of higher nodes the label function builds a label. */
  lemma LabelForIsBuilt(g: Graph, h: Hierarchy, labels: seq<Label>, v: nat)
    requires h.Shape() && v < |h.adj| && SoundAbove(g, h, labels, h.lvl[v])
    ensures Built(g, h, labels, v, LabelFor(h, labels, v))
  {
    var m := MergedFor(h, labels, v);
    MergedForMerges(g, h, labels, v);
    forall x: nat | x in m
      ensures x < |labels|
    {
      assert x != v ==> Towards(g, h, v, m[x], x);
    }
    PruneToPrunes(labels, v, m, |labels|);
    PruneDone(labels, v, m, LabelFor(h, labels, v));
  }

  // ---------- labels of higher nodes only ----------

  lemma MergedStable(g: Graph, h: Hierarchy, labels: seq<Label>, labels': seq<Label>, v: nat, m: Label)
    requires h.Shape() && v < |h.adj| && SameAbove(h, labels, labels', h.lvl[v]) && Merged(g, h, labels, v, m)
    ensures Merged(g, h, labels', v, m)
  {
    forall k: nat | h.Has(v, k) && h.Up(v, k) && h.First(v, k)
      ensures Dominates(m, h.At(v, k).len, labels'[h.At(v, k).dst])
    {
      assert Dominates(m, h.At(v, k).len, labels[h.At(v, k).dst]);
    }
  }

  lemma PrunedStable(labels: seq<Label>, labels': seq<Label>, v: nat, m: Label, f: Label)
    requires |labels| == |labels'| && Pruned(labels, v, m, f)
    requires forall x: nat {:trigger labels[x]} :: x in m && x != v ==> labels'[x] == labels[x]
    ensures Pruned(labels', v, m, f)
  {
    forall x: nat | x in m && x !in f
      ensures HasWitness(labels', m, x, m[x].dist)
    {
      assert HasWitness(labels, m, x, m[x].dist);
      var c: nat :| Witness(labels, m, x, m[x].dist, c);
      assert Witness(labels', m, x, m[x].dist, c);
    }
    forall x: nat, c: nat | x in f && x != v && c in f
      ensures !Witness(labels', f, x, f[x].dist, c)
    {
      assert !Witness(labels, f, x, f[x].dist, c);
    }
  }

  /** Changing labels at v's level or below does not touch what v's label was built from. */
  lemma BuiltStable(g: Graph, h: Hierarchy, labels: seq<Label>, labels': seq<Label>, v: nat, f: Label)
    requires h.Shape() && Built(g, h, labels, v, f) && SameAbove(h, labels, labels', h.lvl[v])
    ensures Built(g, h, labels', v, f)
  {
    var m: Label :| Merged(g, h, labels, v, m) && Pruned(labels, v, m, f);
    MergedStable(g, h, labels, labels', v, m);
    forall x: nat | x in m && x != v
      ensures labels'[x] == labels[x]
    {
      assert Towards(g, h, v, m[x], x);
    }
    PrunedStable(labels, labels', v, m, f);
  }
}
