/** The label of one node as a function of the labels of higher nodes, entry by entry and first edges included. */
module LabelFunction {
  import opened HubLabels
  import opened LabelColumns

  // ---------- the function ----------

  /** m after looking at edge i of v: the first edge to a higher node becomes an entry. */
  function SeedStep(h: Hierarchy, v: nat, i: nat, m: Label): Label
    requires h.Shape() && h.Has(v, i)
  {
    var e := h.At(v, i);
    if h.lvl[e.dst] < h.lvl[v] || e.dst in m then m else m[e.dst := Entry(e.len, h.adj[v][i])]
  }

  /** The entry of v itself and those of its first i edges. */
  function SeedTo(h: Hierarchy, v: nat, i: nat): (m: Label)
    requires h.Shape() && v < |h.adj| && i <= |h.adj[v]|
    ensures v in m
  {
    if i == 0 then map[v := Entry(0, -1)] else SeedStep(h, v, i - 1, SeedTo(h, v, i - 1))
  }

  /** The higher ends of the first i edges of v, in order, repetitions included. */
  function UpEnds(h: Hierarchy, v: nat, i: nat): seq<nat>
    requires h.Shape() && v < |h.adj| && i <= |h.adj[v]|
  {
    if i == 0 then []
    else
      var e := h.At(v, i - 1);
      UpEnds(h, v, i - 1) + if h.lvl[e.dst] < h.lvl[v] then [] else [e.dst]
  }

  /** The entry of x in m when base leads to a node with label a: the shorter of the two ways, the old one on ties. */
  function Via(m: Label, base: Entry, a: Label, x: nat): Entry
    requires x in m || x in a
  {
    if x in a && (x !in m || m[x].dist > base.dist + a[x].dist) then Entry(base.dist + a[x].dist, base.edge) else m[x]
  }

  /**
   * The entry of x in r, when the label a is merged into m over base: an entry that is no longer than the way over base
   * stays as it is, edge included; otherwise the entry becomes that way, over the edge of base.
   */
  ghost predicate TakesShorter(m: Label, base: Entry, a: Label, r: Label, x: nat)
  {
    && (x in r <==> x in m || x in a)
    && (x in m && (x in a ==> m[x].dist <= base.dist + a[x].dist) ==> x in r && r[x] == m[x])
    && (x in a && (x in m ==> m[x].dist > base.dist + a[x].dist) ==>
          x in r && r[x] == Entry(base.dist + a[x].dist, base.edge))
  }

  /** m after hearing of all entries of a, over the edge of base. */
  function MergeLabel(m: Label, base: Entry, a: Label): (r: Label)
    ensures r.Keys == m.Keys + a.Keys
  {
    map x: nat | x in m.Keys + a.Keys :: Via(m, base, a, x)
  }

  lemma MergeTakesShorter(m: Label, base: Entry, a: Label)
    ensures forall x: nat {:trigger TakesShorter(m, base, a, MergeLabel(m, base, a), x)} ::
              TakesShorter(m, base, a, MergeLabel(m, base, a), x)
  {
  }

  /** The ends have entries in m and labels. */
  ghost predicate EndsIn(labels: seq<Label>, nbs: seq<nat>, m: Label)
  {
    forall i: nat {:trigger nbs[i]} :: i < |nbs| ==> nbs[i] in m && nbs[i] < |labels|
  }

  /** m after merging the labels of the first j ends, each over the entry its end has by then. */
  function MergeTo(labels: seq<Label>, nbs: seq<nat>, j: nat, m: Label): (r: Label)
    requires j <= |nbs| && EndsIn(labels, nbs, m)
    ensures m.Keys <= r.Keys
  {
    if j == 0 then m
    else
      var r := MergeTo(labels, nbs, j - 1, m);
      MergeLabel(r, r[nbs[j - 1]], labels[nbs[j - 1]])
  }

  /** f after checking the hub y against it. */
  ghost function PruneStep(labels: seq<Label>, v: nat, f: Label, y: nat): Label
    requires y < |labels|
  {
    if y in f && y != v && HasWitness(labels, f, y, f[y].dist) then f - {y} else f
  }

  /** m after checking the hubs below x, in rising order, against what is left at that moment. */
  ghost function PruneTo(labels: seq<Label>, v: nat, m: Label, x: nat): (f: Label)
    requires x <= |labels|
    ensures v in m ==> v in f
  {
    if x == 0 then m else PruneStep(labels, v, PruneTo(labels, v, m, x - 1), x - 1)
  }

  /** Pruning only removes entries. */
  lemma {:induction false} PruneToWithin(labels: seq<Label>, v: nat, m: Label, x: nat)
    requires x <= |labels|
    ensures forall y: nat :: y in PruneTo(labels, v, m, x) ==> y in m && PruneTo(labels, v, m, x)[y] == m[y]
  {
    if x > 0 {
      PruneToWithin(labels, v, m, x - 1);
    }
  }

  lemma {:induction false} UpEndsIn(h: Hierarchy, labels: seq<Label>, v: nat, i: nat)
    requires h.Shape() && v < |h.adj| == |labels| && i <= |h.adj[v]|
    ensures EndsIn(labels, UpEnds(h, v, i), SeedTo(h, v, i))
    ensures forall x: nat :: x in UpEnds(h, v, i) ==> h.lvl[x] > h.lvl[v]
  {
    if i > 0 {
      UpEndsIn(h, labels, v, i - 1);
      assert h.lvl[h.At(v, i - 1).dst] != h.lvl[v];
    }
  }

  /** The label of v before pruning. */
  function MergedFor(h: Hierarchy, labels: seq<Label>, v: nat): (m: Label)
    requires h.Shape() && v < |h.adj| == |labels|
    ensures v in m
  {
    UpEndsIn(h, labels, v, |h.adj[v]|);
    MergeTo(labels, UpEnds(h, v, |h.adj[v]|), |UpEnds(h, v, |h.adj[v]|)|, SeedTo(h, v, |h.adj[v]|))
  }

  /** The label of v. */
  ghost function LabelFor(h: Hierarchy, labels: seq<Label>, v: nat): (f: Label)
    requires h.Shape() && v < |h.adj| == |labels|
    ensures v in f
  {
    PruneTo(labels, v, MergedFor(h, labels, v), |labels|)
  }

  // ---------- which hubs it holds ----------

  /** All hubs of a are v itself or higher nodes. */
  ghost predicate HubsUp(h: Hierarchy, v: nat, a: Label)
    requires v < |h.lvl|
  {
    forall x: nat {:trigger x in a} :: x in a ==> x < |h.lvl| && (x == v || h.lvl[x] > h.lvl[v])
  }

  /** That holds for the labels of all nodes above level i. */
  ghost predicate HubsAbove(h: Hierarchy, labels: seq<Label>, i: int)
  {
    && |labels| == |h.lvl|
    && (forall u: nat {:trigger HubsUp(h, u, labels[u])} :: u < |h.lvl| && h.lvl[u] > i ==> HubsUp(h, u, labels[u]))
  }

  lemma {:induction false} SeedHubs(h: Hierarchy, v: nat, i: nat)
    requires h.Shape() && v < |h.adj| && i <= |h.adj[v]|
    ensures HubsUp(h, v, SeedTo(h, v, i))
  {
    if i > 0 {
      SeedHubs(h, v, i - 1);
      assert h.lvl[h.At(v, i - 1).dst] != h.lvl[v];
    }
  }

  lemma {:induction false} MergeHubs(h: Hierarchy, labels: seq<Label>, v: nat, nbs: seq<nat>, j: nat, m: Label)
    requires h.Shape() && v < |h.adj| && HubsAbove(h, labels, h.lvl[v]) && j <= |nbs| && EndsIn(labels, nbs, m)
    requires HubsUp(h, v, m) && forall x: nat :: x in nbs ==> h.lvl[x] > h.lvl[v]
    ensures HubsUp(h, v, MergeTo(labels, nbs, j, m))
  {
    if j > 0 {
      MergeHubs(h, labels, v, nbs, j - 1, m);
      var b := nbs[j - 1];
      assert b in nbs && HubsUp(h, b, labels[b]);
    }
  }

  /** Whatever the labels at or below v's level hold, the hubs of v's label are v itself and higher nodes. */
  lemma LabelHubs(h: Hierarchy, labels: seq<Label>, v: nat)
    requires h.Shape() && v < |h.adj| && HubsAbove(h, labels, h.lvl[v])
    ensures HubsUp(h, v, MergedFor(h, labels, v)) && HubsUp(h, v, LabelFor(h, labels, v))
  {
    SeedHubs(h, v, |h.adj[v]|);
    UpEndsIn(h, labels, v, |h.adj[v]|);
    MergeHubs(h, labels, v, UpEnds(h, v, |h.adj[v]|), |UpEnds(h, v, |h.adj[v]|)|, SeedTo(h, v, |h.adj[v]|));
    PruneToWithin(labels, v, MergedFor(h, labels, v), |labels|);
  }

  // ---------- what it depends on ----------

  /** The labels of all nodes above level i are the same. */
  ghost predicate SameAbove(h: Hierarchy, labels: seq<Label>, labels': seq<Label>, i: int)
  {
    && |labels| == |labels'| == |h.lvl|
    && (forall u: nat {:trigger h.lvl[u]} :: u < |h.lvl| && h.lvl[u] > i ==> labels'[u] == labels[u])
  }

  lemma {:induction false} MergeStable(h: Hierarchy, labels: seq<Label>, labels': seq<Label>, nbs: seq<nat>, j: nat,
                                       m: Label, i: int)
    requires SameAbove(h, labels, labels', i) && j <= |nbs| && EndsIn(labels, nbs, m)
    requires forall x: nat :: x in nbs ==> x < |h.lvl| && h.lvl[x] > i
    ensures EndsIn(labels', nbs, m) && MergeTo(labels', nbs, j, m) == MergeTo(labels, nbs, j, m)
  {
    if j > 0 {
      MergeStable(h, labels, labels', nbs, j - 1, m, i);
      assert nbs[j - 1] in nbs;
    }
  }

  lemma WitnessStable(labels: seq<Label>, labels': seq<Label>, f: Label, x: nat, d: nat)
    requires x < |labels| == |labels'| && labels'[x] == labels[x]
    ensures HasWitness(labels', f, x, d) <==> HasWitness(labels, f, x, d)
  {
    if c: nat :| Witness(labels, f, x, d, c) {
      assert Witness(labels', f, x, d, c);
    }
    if c: nat :| Witness(labels', f, x, d, c) {
      assert Witness(labels, f, x, d, c);
    }
  }

  lemma PruneStepStable(labels: seq<Label>, labels': seq<Label>, v: nat, f: Label, y: nat)
    requires y < |labels| == |labels'| && (y in f && y != v ==> labels'[y] == labels[y])
    ensures PruneStep(labels', v, f, y) == PruneStep(labels, v, f, y)
  {
    if y in f && y != v {
      WitnessStable(labels, labels', f, y, f[y].dist);
    }
  }

  lemma {:induction false} PruneStable(h: Hierarchy, labels: seq<Label>, labels': seq<Label>, v: nat, m: Label, x: nat)
    requires v < |h.lvl| && SameAbove(h, labels, labels', h.lvl[v]) && HubsUp(h, v, m) && x <= |labels|
    ensures PruneTo(labels', v, m, x) == PruneTo(labels, v, m, x)
  {
    if x > 0 {
      PruneStable(h, labels, labels', v, m, x - 1);
      PruneToWithin(labels, v, m, x - 1);
      PruneStepStable(labels, labels', v, PruneTo(labels, v, m, x - 1), x - 1);
    }
  }

  /** The label of v depends on the labels of higher nodes only, whatever stands at v's level and below. */
  lemma LabelStable(h: Hierarchy, labels: seq<Label>, labels': seq<Label>, v: nat)
    requires h.Shape() && v < |h.adj| && HubsAbove(h, labels, h.lvl[v]) && SameAbove(h, labels, labels', h.lvl[v])
    ensures LabelFor(h, labels', v) == LabelFor(h, labels, v)
  {
    var k := |h.adj[v]|;
    UpEndsIn(h, labels, v, k);
    MergeStable(h, labels, labels', UpEnds(h, v, k), |UpEnds(h, v, k)|, SeedTo(h, v, k), h.lvl[v]);
    LabelHubs(h, labels, v);
    PruneStable(h, labels, labels', v, MergedFor(h, labels, v), |labels|);
  }
}
