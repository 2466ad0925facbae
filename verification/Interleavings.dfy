/** Threads that calculate the labels of one level at the same time: their order makes no difference to any entry. */
module Interleavings {
  import opened Graphs
  import opened HubLabels
  import opened LabelFunction
  import opened LabelBuilding
  import opened Shortcuts
  import opened CHDijkstras
  import opened LevelSelection

  // ---------- the nodes of a level that are finished ----------

  ghost predicate OnLevel(lvl: seq<nat>, L: nat, nodes: set<nat>)
  {
    forall v: nat {:trigger v in nodes} :: v in nodes ==> v < |lvl| && lvl[v] == L
  }

  /** labels0 after the nodes in done have got the labels that follow from it. */
  ghost function BatchTable(h: Hierarchy, labels0: seq<Label>, done: set<nat>): (r: seq<Label>)
    requires h.Shape() && |labels0| == |h.lvl|
    ensures |r| == |h.lvl|
  {
    seq(|labels0|, u requires 0 <= u < |labels0| => if u in done then LabelFor(h, labels0, u) else labels0[u])
  }

  lemma HubsAboveMore(h: Hierarchy, labels: seq<Label>, i: int, j: int)
    requires HubsAbove(h, labels, i) && i <= j
    ensures HubsAbove(h, labels, j)
  {
  }

  /** Labels of higher nodes stay, and all hubs stay higher than their nodes. */
  lemma BatchKeepsHigher(h: Hierarchy, labels0: seq<Label>, done: set<nat>, L: nat, i: int)
    requires h.Shape() && HubsAbove(h, labels0, i) && i <= L && OnLevel(h.lvl, L, done)
    ensures SameAbove(h, labels0, BatchTable(h, labels0, done), L)
    ensures HubsAbove(h, BatchTable(h, labels0, done), i)
  {
    var t := BatchTable(h, labels0, done);
    forall u: nat | u < |h.lvl| && h.lvl[u] > i
      ensures HubsUp(h, u, t[u])
    {
      assert HubsUp(h, u, labels0[u]);
      if u in done {
        HubsAboveMore(h, labels0, i, L);
        LabelHubs(h, labels0, u);
      }
    }
  }

  /** One more node: whichever nodes of its level are finished already, the label it gets is the same. */
  lemma BatchStep(h: Hierarchy, labels0: seq<Label>, done: set<nat>, L: nat, v: nat)
    requires h.Shape() && HubsAbove(h, labels0, L) && OnLevel(h.lvl, L, done) && v < |h.lvl| && h.lvl[v] == L
    ensures var t := BatchTable(h, labels0, done);
            t[v := LabelFor(h, t, v)] == BatchTable(h, labels0, done + {v})
  {
    BatchKeepsHigher(h, labels0, done, L, L);
    LabelStable(h, labels0, BatchTable(h, labels0, done), v);
  }

  // ---------- one node after another ----------

  /** The labels when the nodes at places from s up to e have got theirs, in this order. */
  ghost function RunTable(h: Hierarchy, labels: seq<Label>, order: seq<nat>, s: nat, e: nat): (r: seq<Label>)
    requires h.Shape() && |labels| == |h.lvl| && s <= e <= |order| && InRange(order, |h.lvl|)
    ensures |r| == |h.lvl|
  {
    if s == e then labels
    else
      var t := RunTable(h, labels, order, s, e - 1);
      t[order[e - 1] := LabelFor(h, t, order[e - 1])]
  }

  lemma RunNext(h: Hierarchy, labels: seq<Label>, order: seq<nat>, s: nat, e: nat, t: seq<Label>)
    requires h.Shape() && |labels| == |h.lvl| && s < e <= |order| && InRange(order, |h.lvl|)
    requires t == RunTable(h, labels, order, s, e - 1)
    ensures RunTable(h, labels, order, s, e) == t[order[e - 1] := LabelFor(h, t, order[e - 1])]
  {
  }

  /** Two runs that are at the same table are so after the same node. */
  lemma RunBoth(h: Hierarchy, a: seq<Label>, b: seq<Label>, order: seq<nat>, s: nat, m: nat, e: nat, t: seq<Label>)
    requires h.Shape() && |a| == |b| == |h.lvl| && s < e <= |order| && m < e && InRange(order, |h.lvl|)
    requires t == RunTable(h, a, order, s, e - 1) && t == RunTable(h, b, order, m, e - 1)
    ensures RunTable(h, b, order, m, e) == RunTable(h, a, order, s, e)
  {
    RunNext(h, a, order, s, e, t);
    RunNext(h, b, order, m, e, t);
  }

  lemma {:induction false} RunOn(h: Hierarchy, labels: seq<Label>, order: seq<nat>, s: nat, m: nat, e: nat)
    requires h.Shape() && |labels| == |h.lvl| && s <= m <= e <= |order| && InRange(order, |h.lvl|)
    ensures RunTable(h, RunTable(h, labels, order, s, m), order, m, e) == RunTable(h, labels, order, s, e)
  {
    if m < e {
      RunOn(h, labels, order, s, m, e - 1);
      RunBoth(h, labels, RunTable(h, labels, order, s, m), order, s, m, e, RunTable(h, labels, order, s, e - 1));
    }
  }

  /** A new label leaves all hubs higher than their nodes. */
  lemma StoreKeepsHubs(h: Hierarchy, labels: seq<Label>, v: nat)
    requires h.Shape() && HubsAbove(h, labels, -1) && v < |h.lvl|
    ensures HubsAbove(h, labels, h.lvl[v]) && HubsAbove(h, labels[v := LabelFor(h, labels, v)], -1)
  {
    var t := labels[v := LabelFor(h, labels, v)];
    HubsAboveMore(h, labels, -1, h.lvl[v]);
    LabelHubs(h, labels, v);
    forall u: nat | u < |h.lvl|
      ensures HubsUp(h, u, t[u])
    {
      assert HubsUp(h, u, labels[u]);
    }
  }

  lemma OneMorePlace(order: seq<nat>, s: nat, e: nat)
    requires s < e <= |order|
    ensures ToSet(order[s..e]) == ToSet(order[s..e - 1]) + {order[e - 1]}
  {
    assert order[s..e] == order[s..e - 1] + [order[e - 1]];
  }

  /** If all of them are on one level, each label follows from the table at the beginning. */
  lemma {:induction false} RunIsBatch(h: Hierarchy, labels: seq<Label>, order: seq<nat>, s: nat, e: nat, L: nat)
    requires h.Shape() && HubsAbove(h, labels, L) && s <= e <= |order| && InRange(order, |h.lvl|)
    requires OnLevel(h.lvl, L, ToSet(order[s..e]))
    ensures RunTable(h, labels, order, s, e) == BatchTable(h, labels, ToSet(order[s..e]))
  {
    if s < e {
      OneMorePlace(order, s, e);
      RunIsBatch(h, labels, order, s, e - 1, L);
      BatchStep(h, labels, ToSet(order[s..e - 1]), L, order[e - 1]);
    }
  }

  // ---------- interleavings ----------

  /**
   * What happens while the threads work on one level. The labels of nodes are stored one after another, and tables
   * are the labels before the first of these steps, after it, and so on. views[k] is what the thread that stores
   * the label of nodes[k] saw of the labels while it calculated.
   */
  datatype Batch = Batch(nodes: seq<nat>, views: seq<seq<Label>>, tables: seq<seq<Label>>)

  /** a is what was stored for u at one of the moments up to k. */
  ghost predicate StoredFor(tables: seq<seq<Label>>, k: nat, u: nat, a: Label)
  {
    exists j: nat :: j <= k && j < |tables| && u < |tables[j]| && tables[j][u] == a
  }

  /**
   * A view may mix labels from different moments; that a label is read more than once makes no difference, as all
   * these moments show the same label of a higher node. Of the labels of L and below, which other threads may be
   * writing, a view may show anything, also half of an update.
   */
  ghost predicate Seen(h: Hierarchy, L: nat, tables: seq<seq<Label>>, k: nat, view: seq<Label>)
  {
    && |view| == |h.lvl|
    && (forall u: nat {:trigger h.lvl[u]} :: u < |h.lvl| && h.lvl[u] > L ==> StoredFor(tables, k, u, view[u]))
  }

  /** Step k stores the label that follows from its view. */
  ghost predicate Stores(h: Hierarchy, L: nat, b: Batch, k: nat)
    requires h.Shape()
  {
    && k < |b.nodes| == |b.views| && k + 1 < |b.tables| && |b.tables[k]| == |h.lvl|
    && b.nodes[k] < |h.lvl| && h.lvl[b.nodes[k]] == L && Seen(h, L, b.tables, k, b.views[k])
    && b.tables[k + 1] == b.tables[k][b.nodes[k] := LabelFor(h, b.views[k], b.nodes[k])]
  }

  /** b is one way in which threads can work on nodes of level L, starting from labels0. */
  ghost predicate Interleaving(h: Hierarchy, L: nat, labels0: seq<Label>, b: Batch)
    requires h.Shape()
  {
    && |b.tables| == |b.nodes| + 1 && b.tables[0] == labels0
    && (forall k: nat {:trigger Stores(h, L, b, k)} :: k < |b.nodes| ==> Stores(h, L, b, k))
  }

  /** The labels after the last step. */
  ghost function Outcome(b: Batch): seq<Label> { if b.tables == [] then [] else b.tables[|b.tables| - 1] }

  /** After k steps exactly the first k nodes have their labels, and these follow from the labels at the beginning. */
  ghost predicate FirstDone(h: Hierarchy, labels0: seq<Label>, b: Batch, k: nat)
    requires h.Shape() && |labels0| == |h.lvl|
  {
    k < |b.tables| && k <= |b.nodes| && b.tables[k] == BatchTable(h, labels0, ToSet(b.nodes[..k]))
  }

  lemma NodesOnLevel(h: Hierarchy, L: nat, labels0: seq<Label>, b: Batch, k: nat)
    requires h.Shape() && Interleaving(h, L, labels0, b) && k <= |b.nodes|
    ensures OnLevel(h.lvl, L, ToSet(b.nodes[..k]))
  {
    forall v: nat | v in ToSet(b.nodes[..k])
      ensures v < |h.lvl| && h.lvl[v] == L
    {
      var i: nat :| i < k && b.nodes[i] == v;
      assert Stores(h, L, b, i);
    }
  }

  /** Whatever a thread has seen, of higher nodes it was what stood there at the beginning. */
  lemma ViewIsFirst(h: Hierarchy, L: nat, labels0: seq<Label>, b: Batch, k: nat)
    requires h.Shape() && HubsAbove(h, labels0, L) && Interleaving(h, L, labels0, b) && k < |b.nodes|
    requires forall j: nat {:trigger FirstDone(h, labels0, b, j)} :: j <= k ==> FirstDone(h, labels0, b, j)
    ensures k < |b.views| && SameAbove(h, labels0, b.views[k], L)
  {
    assert Stores(h, L, b, k);
    forall u: nat | u < |h.lvl| && h.lvl[u] > L
      ensures b.views[k][u] == labels0[u]
    {
      var j: nat :| j <= k && j < |b.tables| && u < |b.tables[j]| && b.tables[j][u] == b.views[k][u];
      assert FirstDone(h, labels0, b, j);
      NodesOnLevel(h, L, labels0, b, j);
      BatchKeepsHigher(h, labels0, ToSet(b.nodes[..j]), L, L);
    }
  }

  /** One more step stores the label that follows from the table at the beginning. */
  lemma InterleavedStep(h: Hierarchy, L: nat, labels0: seq<Label>, b: Batch, k: nat)
    requires h.Shape() && HubsAbove(h, labels0, L) && Interleaving(h, L, labels0, b) && k < |b.nodes|
    requires forall j: nat {:trigger FirstDone(h, labels0, b, j)} :: j <= k ==> FirstDone(h, labels0, b, j)
    ensures FirstDone(h, labels0, b, k + 1)
  {
    ViewIsFirst(h, L, labels0, b, k);
    NodesOnLevel(h, L, labels0, b, k);
    var v, done := b.nodes[k], ToSet(b.nodes[..k]);
    assert Stores(h, L, b, k) && FirstDone(h, labels0, b, k);
    LabelStable(h, labels0, b.views[k], v);
    BatchKeepsHigher(h, labels0, done, L, L);
    LabelStable(h, labels0, BatchTable(h, labels0, done), v);
    BatchStep(h, labels0, done, L, v);
    assert ToSet(b.nodes[..k + 1]) == done + {v};
  }

  lemma {:induction false} InterleavedSteps(h: Hierarchy, L: nat, labels0: seq<Label>, b: Batch, k: nat)
    requires h.Shape() && HubsAbove(h, labels0, L) && Interleaving(h, L, labels0, b) && k <= |b.nodes|
    ensures forall j: nat {:trigger FirstDone(h, labels0, b, j)} :: j <= k ==> FirstDone(h, labels0, b, j)
  {
    if k == 0 {
      assert BatchTable(h, labels0, ToSet(b.nodes[..0])) == labels0;
    } else {
      InterleavedSteps(h, L, labels0, b, k - 1);
      InterleavedStep(h, L, labels0, b, k - 1);
    }
  }

  /** However threads interleave, the nodes end up with the labels that follow from the table at the beginning. */
  lemma EveryInterleavingAgrees(h: Hierarchy, L: nat, labels0: seq<Label>, b: Batch)
    requires h.Shape() && HubsAbove(h, labels0, L) && Interleaving(h, L, labels0, b)
    ensures Outcome(b) == BatchTable(h, labels0, ToSet(b.nodes))
  {
    InterleavedSteps(h, L, labels0, b, |b.nodes|);
    assert FirstDone(h, labels0, b, |b.nodes|) && b.nodes[..|b.nodes|] == b.nodes;
  }

  /** Two runs over the same nodes, in any two orders and with any views, leave the same table, first edges included. */
  lemma OrdersAgree(h: Hierarchy, L: nat, labels0: seq<Label>, a: Batch, b: Batch)
    requires h.Shape() && HubsAbove(h, labels0, L) && Interleaving(h, L, labels0, a) && Interleaving(h, L, labels0, b)
    requires ToSet(a.nodes) == ToSet(b.nodes)
    ensures Outcome(a) == Outcome(b)
  {
    EveryInterleavingAgrees(h, L, labels0, a);
    EveryInterleavingAgrees(h, L, labels0, b);
  }

  // ---------- all levels ----------

  ghost function AtLevel(lvl: seq<nat>, L: nat): set<nat> { set v: nat | v < |lvl| && lvl[v] == L }

  /** The labels when, of count levels, those from i on are finished. */
  ghost function LabelsDownTo(h: Hierarchy, count: nat, i: nat): (r: seq<Label>)
    requires h.Shape()
    ensures |r| == |h.lvl|
    decreases count - i
  {
    if i >= count then seq(|h.lvl|, u => map[])
    else BatchTable(h, LabelsDownTo(h, count, i + 1), AtLevel(h.lvl, i))
  }

  lemma {:induction false} DownToHubs(h: Hierarchy, count: nat, i: nat)
    requires h.Shape()
    ensures HubsAbove(h, LabelsDownTo(h, count, i), -1)
    decreases count - i
  {
    if i >= count {
      forall u: nat | u < |h.lvl|
        ensures HubsUp(h, u, LabelsDownTo(h, count, i)[u])
      {
      }
    } else {
      DownToHubs(h, count, i + 1);
      BatchKeepsHigher(h, LabelsDownTo(h, count, i + 1), AtLevel(h.lvl, i), i, -1);
    }
  }

  /** A run over the nodes of level i, one after another, adds this level. */
  lemma RunAddsLevel(h: Hierarchy, order: seq<nat>, count: nat, i: nat, s: nat, e: nat)
    requires h.Shape() && i < count && s <= e <= |order| && InRange(order, |h.lvl|)
    requires ToSet(order[s..e]) == AtLevel(h.lvl, i)
    ensures RunTable(h, LabelsDownTo(h, count, i + 1), order, s, e) == LabelsDownTo(h, count, i)
  {
    var above := LabelsDownTo(h, count, i + 1);
    DownToHubs(h, count, i + 1);
    HubsAboveMore(h, above, -1, i);
    RunIsBatch(h, above, order, s, e, i);
  }

  /** The levels below the last finished one have no labels. */
  lemma {:induction false} DownToLow(h: Hierarchy, count: nat, i: nat, v: nat)
    requires h.Shape() && v < |h.lvl| && h.lvl[v] < i
    ensures LabelsDownTo(h, count, i)[v] == map[]
    decreases count - i
  {
    if i < count {
      DownToLow(h, count, i + 1, v);
    }
  }

  /** The label of v is the one that follows from the labels in the table itself. */
  ghost predicate Follows(h: Hierarchy, t: seq<Label>, v: nat)
    requires h.Shape()
  {
    v < |t| == |h.lvl| && t[v] == LabelFor(h, t, v)
  }

  /** Finishing level i changes neither the labels above it nor what follows from them. */
  lemma BatchFollows(h: Hierarchy, above: seq<Label>, i: nat, v: nat)
    requires h.Shape() && HubsAbove(h, above, -1) && v < |h.lvl| && i <= h.lvl[v]
    requires h.lvl[v] > i ==> Follows(h, above, v)
    ensures Follows(h, BatchTable(h, above, AtLevel(h.lvl, i)), v)
  {
    BatchKeepsHigher(h, above, AtLevel(h.lvl, i), i, -1);
    HubsAboveMore(h, above, -1, h.lvl[v]);
    LabelStable(h, above, BatchTable(h, above, AtLevel(h.lvl, i)), v);
  }

  /** All labels of finished levels follow. */
  lemma {:induction false} DownToFollows(h: Hierarchy, count: nat, i: nat, v: nat, t: seq<Label>)
    requires h.Shape() && v < |h.lvl| && i <= h.lvl[v] < count && t == LabelsDownTo(h, count, i)
    ensures Follows(h, t, v)
    decreases count - i
  {
    var above := LabelsDownTo(h, count, i + 1);
    DownToHubs(h, count, i + 1);
    if h.lvl[v] > i {
      DownToFollows(h, count, i + 1, v, above);
    }
    BatchFollows(h, above, i, v);
  }

  /** Labels that are built are sound. */
  lemma BuiltIsSound(g: Graph, h: Hierarchy, labels: seq<Label>, i: int)
    requires Climbs(g, h) && BuiltAbove(g, h, labels, i)
    ensures SoundAbove(g, h, labels, i)
  {
    forall u: nat | u < |h.lvl| && h.lvl[u] > i
      ensures Sound(g, h, u, labels[u])
    {
      assert Built(g, h, labels, u, labels[u]);
      var m: Label :| Merged(g, h, labels, u, m) && Pruned(labels, u, m, labels[u]);
      MergedIsSound(g, h, labels, u, m, labels[u]);
    }
  }

  /** The labels of all finished levels are what merging and pruning make of higher labels. */
  lemma {:induction false} DownToIsBuilt(g: Graph, h: Hierarchy, count: nat, i: nat)
    requires Climbs(g, h) && forall u: nat {:trigger h.lvl[u]} :: u < |h.lvl| ==> h.lvl[u] < count
    ensures BuiltAbove(g, h, LabelsDownTo(h, count, i), i - 1)
    decreases count - i
  {
    if i < count {
      var above, t := LabelsDownTo(h, count, i + 1), LabelsDownTo(h, count, i);
      DownToIsBuilt(g, h, count, i + 1);
      DownToHubs(h, count, i + 1);
      BuiltIsSound(g, h, above, i);
      BatchKeepsHigher(h, above, AtLevel(h.lvl, i), i, -1);
      forall v: nat | v < |h.adj| && h.lvl[v] > i - 1
        ensures Built(g, h, t, v, t[v])
      {
        if h.lvl[v] == i {
          LabelForIsBuilt(g, h, above, v);
        } else {
          assert Built(g, h, above, v, above[v]);
        }
        BuiltStable(g, h, above, t, v, t[v]);
      }
    }
  }

  /** The table a batch starts from: empty for the first one, then what the batch before left behind. */
  ghost function Before(h: Hierarchy, batches: seq<Batch>, j: nat): seq<Label>
    requires j <= |batches|
  {
    if j == 0 then seq(|h.lvl|, u => map[]) else Outcome(batches[j - 1])
  }

  ghost predicate RunsLevel(h: Hierarchy, count: nat, batches: seq<Batch>, j: nat)
    requires h.Shape() && j < |batches| <= count
  {
    && Interleaving(h, count - 1 - j, Before(h, batches, j), batches[j])
    && ToSet(batches[j].nodes) == AtLevel(h.lvl, count - 1 - j)
  }

  /** One batch per level from the top down to level i, each a run of threads over all nodes of its level. */
  ghost predicate Schedule(h: Hierarchy, count: nat, i: nat, batches: seq<Batch>)
    requires h.Shape()
  {
    && i + |batches| == count
    && (forall j: nat {:trigger RunsLevel(h, count, batches, j)} :: j < |batches| ==> RunsLevel(h, count, batches, j))
  }

  /** The threads of one batch add one level. */
  lemma NextBatch(h: Hierarchy, count: nat, i: nat, b: Batch)
    requires h.Shape() && i < count && ToSet(b.nodes) == AtLevel(h.lvl, i)
    requires Interleaving(h, i, LabelsDownTo(h, count, i + 1), b)
    ensures Outcome(b) == LabelsDownTo(h, count, i)
  {
    DownToHubs(h, count, i + 1);
    HubsAboveMore(h, LabelsDownTo(h, count, i + 1), -1, i);
    EveryInterleavingAgrees(h, i, LabelsDownTo(h, count, i + 1), b);
  }

  /** The labels after j batches, when the last of them worked on level i. */
  lemma {:induction false} AfterBatches(h: Hierarchy, count: nat, k: nat, batches: seq<Batch>, j: nat, i: nat)
    requires h.Shape() && Schedule(h, count, k, batches) && j <= |batches| && i + j == count
    ensures Before(h, batches, j) == LabelsDownTo(h, count, i)
    decreases j
  {
    if j > 0 {
      AfterBatches(h, count, k, batches, j - 1, i + 1);
      assert RunsLevel(h, count, batches, j - 1);
      NextBatch(h, count, i, batches[j - 1]);
    }
  }

  /** However threads interleave on every level, the labels of the whole calculation are the same. */
  lemma EveryScheduleAgrees(h: Hierarchy, count: nat, i: nat, batches: seq<Batch>)
    requires h.Shape() && Schedule(h, count, i, batches)
    ensures Before(h, batches, |batches|) == LabelsDownTo(h, count, i)
  {
    AfterBatches(h, count, i, batches, |batches|, i);
  }
}
