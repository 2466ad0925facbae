/** The label threads: the label of a node is merged from those of its upper neighbours, and then pruned. */
module HLDijkstras {
  import opened IntArrays
  import opened HubLabels
  import opened LabelColumns
  import opened LabelFunction
  import opened LabelStores
  import opened Shortcuts
  import opened CHDijkstras
  import opened Interleavings

  // ---------- what may be merged ----------

  /** End i has an entry in s and a label whose hubs are in range. */
  ghost predicate MergeableAt(h: Hierarchy, labels: seq<Label>, nbs: seq<nat>, s: Label, i: nat)
  {
    i < |nbs| && nbs[i] in s && nbs[i] < |labels| == |h.lvl| && HubsUp(h, nbs[i], labels[nbs[i]])
  }

  ghost predicate Mergeable(h: Hierarchy, labels: seq<Label>, nbs: seq<nat>, s: Label)
  {
    forall i: nat {:trigger MergeableAt(h, labels, nbs, s, i)} :: i < |nbs| ==> MergeableAt(h, labels, nbs, s, i)
  }

  /** The labels of upper neighbours may be merged. */
  lemma EndsMergeable(h: Hierarchy, labels: seq<Label>, v: nat)
    requires h.Shape() && v < |h.adj| && HubsAbove(h, labels, h.lvl[v])
    ensures Mergeable(h, labels, UpEnds(h, v, |h.adj[v]|), SeedTo(h, v, |h.adj[v]|))
  {
    var nbs, s := UpEnds(h, v, |h.adj[v]|), SeedTo(h, v, |h.adj[v]|);
    UpEndsIn(h, labels, v, |h.adj[v]|);
    forall i: nat | i < |nbs|
      ensures MergeableAt(h, labels, nbs, s, i)
    {
      assert nbs[i] in nbs;
    }
  }

  // ---------- one label after another into the table ----------

  /** The entry of x in m, when the hubs at the first i positions of ids have been merged into m0. */
  ghost predicate MergedAt(m0: Label, base: Entry, a: Label, ids: seq<int>, i: nat, m: Label, x: nat)
    requires i <= |ids|
  {
    if x in a && (x as int) in ids[..i] then x in m && m[x] == Via(m0, base, a, x)
    else (x in m <==> x in m0) && (x in m ==> m[x] == m0[x])
  }

  ghost predicate MergedSome(m0: Label, base: Entry, a: Label, ids: seq<int>, i: nat, m: Label)
  {
    i <= |ids| && forall x: nat {:trigger MergedAt(m0, base, a, ids, i, m, x)} :: MergedAt(m0, base, a, ids, i, m, x)
  }

  lemma MergeOneMore(m0: Label, base: Entry, a: Label, c: Columns, i: nat, m: Label)
    requires c.Holds(a) && i < |c.ids| && c.EntryAt(a, i) && MergedSome(m0, base, a, c.ids, i, m)
    ensures MergedSome(m0, base, a, c.ids, i + 1, Offer(m, c.ids[i], base.dist + c.ds[i], base.edge))
  {
    var y, j := c.ids[i] as nat, i + 1;
    var m' := Offer(m, y, base.dist + c.ds[i], base.edge);
    forall x: nat
      ensures MergedAt(m0, base, a, c.ids, j, m', x)
    {
      assert MergedAt(m0, base, a, c.ids, i, m, x);
      assert c.ids[..j] == c.ids[..i] + [c.ids[i]];
      assert (y as int) !in c.ids[..i];
    }
  }

  lemma MergedEnd(m0: Label, base: Entry, a: Label, c: Columns, m: Label)
    requires c.Holds(a) && MergedSome(m0, base, a, c.ids, |c.ids|, m)
    ensures m == MergeLabel(m0, base, a)
  {
    assert c.ids[..|c.ids|] == c.ids;
    forall x: nat
      ensures x in m <==> x in MergeLabel(m0, base, a)
      ensures x in m ==> m[x] == MergeLabel(m0, base, a)[x]
    {
      assert MergedAt(m0, base, a, c.ids, |c.ids|, m, x);
      assert x in a ==> c.Lists(x);
    }
  }

  // ---------- scanning while deleting ----------

  /** Exactly the hubs at places before idx lie below bound. */
  ghost predicate Scanned(ids: seq<int>, idx: nat, bound: nat)
  {
    idx <= |ids| && forall j: nat {:trigger ids[j]} :: j < |ids| ==> (j < idx <==> ids[j] < bound)
  }

  /** The hubs below bound have been checked, and those of them that are left stand before idx. */
  ghost predicate Scanning(labels: seq<Label>, v: nat, m: Label, f: Label, ids: seq<int>, idx: nat, bound: nat)
  {
    bound <= |labels| && f == PruneTo(labels, v, m, bound) && Scanned(ids, idx, bound)
  }

  lemma ScanStart(labels: seq<Label>, v: nat, c: Columns, m: Label)
    requires c.Holds(m)
    ensures Scanning(labels, v, m, m, c.ids, 0, 0)
  {
    forall j: nat | j < |c.ids|
      ensures c.ids[j] >= 0
    {
      assert c.EntryAt(m, j);
    }
  }

  /** Numbers that are no hubs any more can be passed. */
  lemma {:induction false} PruneGap(labels: seq<Label>, v: nat, m: Label, x: nat, y: nat)
    requires x <= y <= |labels| && forall z: nat :: x <= z < y ==> z !in PruneTo(labels, v, m, x)
    ensures PruneTo(labels, v, m, y) == PruneTo(labels, v, m, x)
  {
    if x < y {
      PruneGap(labels, v, m, x, y - 1);
    }
  }

  lemma ScanStep(labels: seq<Label>, v: nat, m: Label, f: Label, c: Columns, idx: nat, bound: nat)
    requires c.Holds(f) && Scanning(labels, v, m, f, c.ids, idx, bound) && idx < |c.ids| && c.ids[idx] < |labels|
    ensures c.ids[idx] >= 0 && PruneTo(labels, v, m, c.ids[idx] + 1) == PruneStep(labels, v, f, c.ids[idx])
    ensures Scanned(c.ids, idx + 1, c.ids[idx] + 1) && Scanned(Remove(c.ids, idx), idx, c.ids[idx] + 1)
  {
    assert c.EntryAt(f, idx);
    var y := c.ids[idx] as nat;
    forall z: nat | z in f && bound <= z
      ensures y <= z
    {
      assert c.Lists(z);
      var j: nat :| j < |c.ids| && c.ids[j] == z;
    }
    PruneGap(labels, v, m, bound, y);
    var ids' := Remove(c.ids, idx);
    forall j: nat | j < |ids'|
      ensures j < idx <==> ids'[j] < y + 1
    {
      assert ids'[j] == c.ids[if j < idx then j else j + 1];
    }
  }

  lemma ScanEnd(labels: seq<Label>, v: nat, m: Label, f: Label, c: Columns, bound: nat)
    requires c.Holds(f) && Scanning(labels, v, m, f, c.ids, |c.ids|, bound)
    ensures f == PruneTo(labels, v, m, |labels|)
  {
    forall z: nat | z in f
      ensures z < bound
    {
      assert c.Lists(z);
      var j: nat :| j < |c.ids| && c.ids[j] == z;
    }
    PruneGap(labels, v, m, bound, |labels|);
  }

  class HLDijkstra {
    const calcOrder: seq<nat>
    const startNodeIdx: nat
    const endNodeIdx: nat
    /** foundIds, distances and firstEdgeId. */
    const table: LabelTable

    ghost predicate Valid()
      reads this, table, table.Repr
    {
      table.Valid() && this !in table.Repr && startNodeIdx <= endNodeIdx <= |calcOrder|
    }

    /** This thread and the table of labels are in order and apart. */
    ghost predicate Apart(labels: Labels)
      reads this, table, table.Repr, labels
    {
      Valid() && labels.Valid() && labels !in table.Repr
    }

    constructor (startNodeIdx: nat, endNodeIdx: nat, calcOrder: seq<nat>)
      requires startNodeIdx <= endNodeIdx <= |calcOrder|
      ensures Valid() && fresh(table.Repr)
      ensures this.startNodeIdx == startNodeIdx && this.endNodeIdx == endNodeIdx && this.calcOrder == calcOrder
      ensures table.m == map[]
    {
      this.startNodeIdx, this.endNodeIdx, this.calcOrder := startNodeIdx, endNodeIdx, calcOrder;
      table := new LabelTable(1000, 2000);
    }

    /** Look at edge i of v: an upward edge to a node not seen before becomes an entry. */
    method SeedEdge(h: Hierarchy, v: nat, i: nat, nbs: seq<nat>) returns (nbs': seq<nat>)
      requires Valid() && h.Shape() && |h.adj| <= MAX_VALUE && h.Has(v, i)
      modifies table.Repr
      ensures Valid() && fresh(table.Repr - old(table.Repr)) && table.m == SeedStep(h, v, i, old(table.m))
      ensures nbs' == nbs + if h.lvl[h.At(v, i).dst] < h.lvl[v] then [] else [h.At(v, i).dst]
    {
      var edgeId := h.adj[v][i];
      var destNode := h.store[edgeId].dst;
      if h.lvl[destNode] < h.lvl[v] {
        return nbs + [];
      }
      nbs' := nbs + [destNode];
      var insertIdx := table.GetIdx(destNode);
      if insertIdx < 0 {
        insertIdx := (insertIdx + 1) * (-1);
        table.InsertAtIdx(insertIdx, destNode, h.store[edgeId].len, edgeId);
      } else {
        // the program reports an error here and goes on: a parallel edge is skipped
      }
    }

    /** The entry of v itself, and one for every upper neighbour. */
    method Seed(h: Hierarchy, v: nat) returns (nbs: seq<nat>)
      requires Valid() && h.Shape() && |h.adj| <= MAX_VALUE && v < |h.adj|
      modifies table.Repr
      ensures Valid() && fresh(table.Repr - old(table.Repr))
      ensures table.m == SeedTo(h, v, |h.adj[v]|) && nbs == UpEnds(h, v, |h.adj[v]|)
    {
      table.Clear();
      table.InsertAtIdx(0, v, 0, -1);
      nbs := [];
      for i := 0 to |h.adj[v]|
        invariant Valid() && fresh(table.Repr - old(table.Repr))
        invariant table.m == SeedTo(h, v, i) && nbs == UpEnds(h, v, i)
      {
        nbs := SeedEdge(h, v, i, nbs);
      }
    }

    /** Merge the label of base, over the edge by which the table reaches base. */
    method MergeLabelsOf(h: Hierarchy, base: nat, labels: Labels)
      requires Apart(labels) && |h.lvl| <= MAX_VALUE
      requires base in table.m && base < |labels.known| == |h.lvl| && HubsUp(h, base, labels.known[base])
      modifies table.Repr
      ensures Valid() && fresh(table.Repr - old(table.Repr))
      ensures table.m == MergeLabel(old(table.m), old(table.m)[base], labels.known[base])
      ensures forall x: nat {:trigger TakesShorter(old(table.m), old(table.m)[base], labels.known[base], table.m, x)} ::
                TakesShorter(old(table.m), old(table.m)[base], labels.known[base], table.m, x)
    {
      ghost var m0, a := table.m, labels.known[base];
      assert labels.Holds(base);
      ghost var c := Columns(labels.labelNodes[base], labels.labelDist[base], labels.labelEdges[base]);
      var baseDist, baseEdge := table.Read(base);
      var nodes, dist := labels.labelNodes[base], labels.labelDist[base];
      for i := 0 to |nodes|
        invariant Valid() && fresh(table.Repr - old(table.Repr)) && MergedSome(m0, m0[base], a, nodes, i, table.m)
      {
        assert c.EntryAt(a, i);
        MergeOneMore(m0, m0[base], a, c, i, table.m);
        var _ := table.NoteWay(nodes[i], baseDist + dist[i], baseEdge);
      }
      MergedEnd(m0, m0[base], a, c, table.m);
      MergeTakesShorter(m0, m0[base], a);
    }

    /** Merge the labels of all upper neighbours, in order. */
    method MergeEnds(h: Hierarchy, nbs: seq<nat>, labels: Labels)
      requires Apart(labels) && |h.lvl| <= MAX_VALUE && Mergeable(h, labels.known, nbs, table.m)
      modifies table.Repr
      ensures Apart(labels) && fresh(table.Repr - old(table.Repr))
      ensures EndsIn(labels.known, nbs, old(table.m))
      ensures table.m == MergeTo(labels.known, nbs, |nbs|, old(table.m))
    {
      ghost var s := table.m;
      assert forall i: nat {:trigger nbs[i]} :: i < |nbs| ==> MergeableAt(h, labels.known, nbs, s, i);
      for j := 0 to |nbs|
        invariant Apart(labels) && fresh(table.Repr - old(table.Repr)) && table.m == MergeTo(labels.known, nbs, j, s)
      {
        assert MergeableAt(h, labels.known, nbs, s, j);
        MergeLabelsOf(h, nbs[j], labels);
      }
    }

    /** Calculate the label of a node before pruning. */
    method MergeLabels(h: Hierarchy, v: nat, labels: Labels)
      requires Apart(labels) && h.Shape() && |h.adj| <= MAX_VALUE && v < |h.adj|
      requires HubsAbove(h, labels.known, h.lvl[v])
      modifies table.Repr
      ensures Apart(labels) && fresh(table.Repr - old(table.Repr)) && table.m == MergedFor(h, labels.known, v)
    {
      EndsMergeable(h, labels.known, v);
      var nbs := Seed(h, v);
      MergeEnds(h, nbs, labels);
    }

    /** Whether the entry at idx can go. */
    method Redundant(v: nat, idx: nat, labels: Labels) returns (redundant: bool)
      requires Valid() && labels.Valid() && idx < |table.Cols().ids| && table.Cols().EntryAt(table.m, idx)
      requires table.Cols().ids[idx] < |labels.known|
      ensures var x := table.Cols().ids[idx] as nat;
              redundant <==> x != v && HasWitness(labels.known, table.m, x, table.m[x].dist)
    {
      var labelNode := table.foundIds.Get(idx);
      redundant := false;
      if labelNode != v {
        var d := table.distances.Get(idx);
        redundant := labels.IsRedundant(labelNode, d, table.foundIds, table.distances, table.Cols().es, table.m);
      }
    }

    /** Remove the entry at idx if it is redundant, or go on to the next one. */
    method CheckEntry(v: nat, idx: nat, labels: Labels, ghost m: Label, ghost bound: nat)
      returns (idx': nat, ghost bound': nat)
      requires Apart(labels) && idx < |table.Cols().ids|
      requires forall x: nat :: x in m ==> x < |labels.known|
      requires Scanning(labels.known, v, m, table.m, table.Cols().ids, idx, bound)
      modifies table.Repr
      ensures Valid() && table.Repr == old(table.Repr) && idx' <= |table.Cols().ids|
      ensures |table.Cols().ids| - idx' == |old(table.Cols().ids)| - idx - 1
      ensures Scanning(labels.known, v, m, table.m, table.Cols().ids, idx', bound')
    {
      assert table.Cols().EntryAt(table.m, idx);
      PruneToWithin(labels.known, v, m, bound);
      ScanStep(labels.known, v, m, table.m, table.Cols(), idx, bound);
      idx', bound' := idx, table.Cols().ids[idx] + 1;
      var redundant := Redundant(v, idx, labels);
      if redundant {
        table.RemoveAtIdx(idx);
      } else {
        idx' := idx + 1;
      }
    }

    /** Remove, one after another, the entries that are redundant at that moment. */
    method RemoveRedundancies(v: nat, labels: Labels)
      requires Apart(labels)
      requires forall x: nat :: x in table.m ==> x < |labels.known|
      modifies table.Repr
      ensures Valid() && table.Repr == old(table.Repr)
      ensures table.m == PruneTo(labels.known, v, old(table.m), |labels.known|)
    {
      ghost var m := table.m;
      ghost var bound: nat := 0;
      var idx: nat := 0;
      ScanStart(labels.known, v, table.Cols(), m);
      while idx < table.foundIds.Size()
        invariant Valid() && table.Repr == old(table.Repr) && idx <= |table.Cols().ids|
        invariant Scanning(labels.known, v, m, table.m, table.Cols().ids, idx, bound)
        decreases |table.Cols().ids| - idx
      {
        idx, bound := CheckEntry(v, idx, labels, m, bound);
      }
      ScanEnd(labels.known, v, m, table.m, table.Cols(), bound);
    }

    /** Prune the label and store it. */
    method AddLabels(v: nat, labels: Labels)
      requires Apart(labels) && v < |labels.known|
      requires forall x: nat :: x in table.m ==> x < |labels.known|
      modifies table.Repr, labels
      ensures Apart(labels) && table.Repr == old(table.Repr)
      ensures labels.known ==
              old(labels.known)[v := PruneTo(old(labels.known), v, old(table.m), |old(labels.known)|)]
    {
      RemoveRedundancies(v, labels);
      var ids := table.foundIds.ToArray();
      var es := table.firstEdgeId.ToArray();
      var ds := table.distances.ToArray();
      labels.AddLabels(v, ids, es, ds, table.m);
    }

    /** Calculate and store the label of a node. */
    method CalcLabels(h: Hierarchy, v: nat, labels: Labels)
      requires Apart(labels) && h.Shape() && |h.adj| <= MAX_VALUE && v < |h.adj|
      requires HubsAbove(h, labels.known, h.lvl[v])
      modifies table.Repr, labels
      ensures Apart(labels) && fresh(table.Repr - old(table.Repr))
      ensures labels.known == old(labels.known)[v := LabelFor(h, old(labels.known), v)]
    {
      MergeLabels(h, v, labels);
      LabelHubs(h, labels.known, v);
      AddLabels(v, labels);
    }

    /** The nodes of the share before nodeIdx have their labels; labels0 are those at the start. */
    ghost predicate Sharing(h: Hierarchy, labels: Labels, labels0: seq<Label>, nodeIdx: int)
      reads this, table, table.Repr, labels
    {
      && Apart(labels) && h.Shape() && |h.adj| <= MAX_VALUE && InRange(calcOrder, |h.lvl|)
      && HubsAbove(h, labels.known, -1) && |labels0| == |h.lvl| && startNodeIdx <= nodeIdx <= endNodeIdx
      && labels.known == RunTable(h, labels0, calcOrder, startNodeIdx, nodeIdx)
    }

    /** Calculate the label of the next node of this thread's share. */
    method RunAt(nodeIdx: nat, h: Hierarchy, labels: Labels, ghost labels0: seq<Label>)
      requires Sharing(h, labels, labels0, nodeIdx) && nodeIdx < endNodeIdx
      modifies table.Repr, labels
      ensures Sharing(h, labels, labels0, nodeIdx + 1) && fresh(table.Repr - old(table.Repr))
    {
      StoreKeepsHubs(h, labels.known, calcOrder[nodeIdx]);
      CalcLabels(h, calcOrder[nodeIdx], labels);
    }

    /** Calculate the labels of this thread's nodes, one after another. */
    method Run(h: Hierarchy, labels: Labels)
      requires Apart(labels) && h.Shape() && |h.adj| <= MAX_VALUE
      requires InRange(calcOrder, |h.lvl|) && HubsAbove(h, labels.known, -1)
      modifies table.Repr, labels
      ensures labels.Valid() && HubsAbove(h, labels.known, -1)
      ensures labels.known == RunTable(h, old(labels.known), calcOrder, startNodeIdx, endNodeIdx)
    {
      for nodeIdx := startNodeIdx to endNodeIdx
        invariant Sharing(h, labels, old(labels.known), nodeIdx) && fresh(table.Repr - old(table.Repr))
      {
        RunAt(nodeIdx, h, labels, old(labels.known));
      }
    }
  }
}
