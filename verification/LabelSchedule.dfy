/**
 * The schedule of the label calculation: nodes sorted by falling level, one batch per level, threads within a batch.
 */
module LabelSchedules {
  import opened IntArrays
  import opened HubLabels
  import opened OrderedIntSets
  import opened LabelStores
  import opened Shortcuts
  import opened CHDijkstras
  import opened LevelSelection
  import opened LabelBatches
  import opened LabelFunction
  import opened Interleavings
  import opened HLDijkstras
  import opened LabelCreators

  /** Sinking, while nodes of one level stand in the order they had in before. */
  ghost predicate SinkingFrom(before: seq<nat>, order: seq<nat>, lvl: seq<nat>, i: nat, j: nat)
  {
    IsOrder(order, |lvl|) && Sinking(order, lvl, i, j) && TiesKept(before, order, lvl)
  }

  lemma SwapSinks(before: seq<nat>, order: seq<nat>, lvl: seq<nat>, i: nat, j: nat)
    requires SinkingFrom(before, order, lvl, i, j) && j < |order| - i && lvl[order[j - 1]] < lvl[order[j]]
    ensures SinkingFrom(before, Swapped(order, j, j - 1), lvl, i, j + 1)
  {
    SinkSwap(order, lvl, i, j, Swapped(order, j, j - 1));
    SwapKeepsTies(order, lvl, j);
    TiesKeptOn(before, order, Swapped(order, j, j - 1), lvl);
  }

  /** Exchange the nodes at places j - 1 and j if the second one is higher. */
  method CompareAt(calcOrder: array<nat>, lvl: seq<nat>, ghost i: nat, j: nat, ghost before: seq<nat>)
    requires SinkingFrom(before, calcOrder[..], lvl, i, j) && j < calcOrder.Length - i
    modifies calcOrder
    ensures SinkingFrom(before, calcOrder[..], lvl, i, j + 1)
  {
    ghost var s := calcOrder[..];
    if lvl[calcOrder[j - 1]] < lvl[calcOrder[j]] {
      SwapSinks(before, s, lvl, i, j);
      calcOrder[j - 1], calcOrder[j] := calcOrder[j], calcOrder[j - 1];
      assert calcOrder[..] == Swapped(s, j, j - 1);
    } else {
      SinkStay(s, lvl, i, j);
    }
  }

  /** Carry the lowest of the nodes that are not in place yet to the end. */
  method SinkLowest(calcOrder: array<nat>, lvl: seq<nat>, i: nat)
    requires IsOrder(calcOrder[..], |lvl|) && Sunk(calcOrder[..], lvl, i) && i < calcOrder.Length
    modifies calcOrder
    ensures IsOrder(calcOrder[..], |lvl|) && Sunk(calcOrder[..], lvl, i + 1)
    ensures TiesKept(old(calcOrder[..]), calcOrder[..], lvl)
  {
    ghost var before := calcOrder[..];
    SameTies(before, lvl);
    for j := 1 to calcOrder.Length - i
      invariant SinkingFrom(before, calcOrder[..], lvl, i, j)
    {
      CompareAt(calcOrder, lvl, i, j, before);
    }
    SinkEnd(calcOrder[..], lvl, i);
  }

  /** Sort the nodes by falling level, in place; nodes of one level keep their order. */
  method SortByLevel(calcOrder: array<nat>, lvl: seq<nat>)
    requires IsOrder(calcOrder[..], |lvl|)
    modifies calcOrder
    ensures IsOrder(calcOrder[..], |lvl|) && Descending(calcOrder[..], lvl)
    ensures TiesKept(old(calcOrder[..]), calcOrder[..], lvl)
  {
    SameTies(calcOrder[..], lvl);
    var n := calcOrder.Length;
    for i := 0 to n
      invariant IsOrder(calcOrder[..], |lvl|) && Sunk(calcOrder[..], lvl, i)
      invariant TiesKept(old(calcOrder[..]), calcOrder[..], lvl)
    {
      ghost var before := calcOrder[..];
      SinkLowest(calcOrder, lvl, i);
      TiesKeptOn(old(calcOrder[..]), before, calcOrder[..], lvl);
    }
  }

  ghost predicate TiesById(order: seq<nat>, lvl: seq<nat>)
    requires IsOrder(order, |lvl|)
  {
    forall p: nat, q: nat :: p < q < |order| && lvl[order[p]] == lvl[order[q]] ==> order[p] < order[q]
  }

  lemma TiesFromIds(ids: seq<nat>, order: seq<nat>, lvl: seq<nat>)
    requires (forall i :: 0 <= i < |ids| ==> ids[i] == i) && IsOrder(order, |lvl|) && TiesKept(ids, order, lvl)
    ensures TiesById(order, lvl)
  {
    forall p: nat, q: nat | p < q < |order| && lvl[order[p]] == lvl[order[q]]
      ensures order[p] < order[q]
    {
      assert StandsBefore(ids, order[p], order[q]);
    }
  }

  /** The places at which the next level begins, with 0 in front and the number of nodes at the end. */
  method FindChanges(order: seq<nat>, lvl: seq<nat>) returns (changeIndices: OrderedIntSet)
    requires IsOrder(order, |lvl|) && Descending(order, lvl)
    ensures changeIndices.Valid() && Cuts(order, lvl, changeIndices.Contents())
    ensures fresh(changeIndices) && fresh(changeIndices.elements)
  {
    changeIndices := new OrderedIntSet(false, 650, 10);
    var prevLvl := 0;
    changeIndices.InsertTail(0);
    for i := 0 to |order|
      invariant changeIndices.Valid() && fresh(changeIndices) && fresh(changeIndices.elements)
      invariant CutSoFar(order, lvl, changeIndices.Contents(), i)
      invariant prevLvl == if i == 0 then 0 else lvl[order[i - 1]]
    {
      var currLvl := lvl[order[i]];
      if currLvl < prevLvl {
        CutDrop(order, lvl, changeIndices.Contents(), i);
        changeIndices.InsertTail(i);
      } else {
        CutSame(order, lvl, changeIndices.Contents(), i);
      }
      prevLvl := currLvl;
    }
    CutDone(order, lvl, changeIndices.Contents());
    changeIndices.InsertTail(|order|);
  }

  /** All nodes by falling level, and by rising id within a level; and where each level begins. */
  method CreateHLCalcOrder(lvl: seq<nat>) returns (calcOrder: array<nat>, changeIndices: OrderedIntSet)
    ensures IsOrder(calcOrder[..], |lvl|) && Descending(calcOrder[..], lvl) && TiesById(calcOrder[..], lvl)
    ensures changeIndices.Valid() && Cuts(calcOrder[..], lvl, changeIndices.Contents())
    ensures fresh(changeIndices) && fresh(changeIndices.elements)
  {
    calcOrder := new nat[|lvl|](i => i);
    forall u: nat | u < |lvl|
      ensures u in calcOrder[..]
    {
      assert calcOrder[..][u] == u;
    }
    ghost var ids := calcOrder[..];
    SortByLevel(calcOrder, lvl);
    TiesFromIds(ids, calcOrder[..], lvl);
    changeIndices := FindChanges(calcOrder[..], lvl);
  }

  /** Bounds given out so far, up to at. */
  ghost predicate Sharing(start: nat, at: nat, bounds: seq<nat>)
  {
    && |bounds| > 0 && bounds[0] == start && bounds[|bounds| - 1] == at
    && (forall i :: 0 <= i < |bounds| - 1 ==> bounds[i] <= bounds[i + 1])
    && (forall i :: 0 <= i < |bounds| ==> start <= bounds[i] <= at)
  }

  /** The bounds between the threads' shares of the places from start up to end. */
  ghost predicate Shares(start: nat, end: nat, bounds: seq<nat>)
  {
    Sharing(start, end, bounds) && |bounds| - 1 <= NUM_OF_THREADS
  }

  /** With more places than threads, equal shares and the rest to the last thread; otherwise one thread per place. */
  ghost predicate EvenShares(start: nat, end: nat, bounds: seq<nat>)
    requires start <= end
  {
    if end - start > NUM_OF_THREADS then
      && |bounds| == NUM_OF_THREADS + 1 && bounds[NUM_OF_THREADS] == end
      && (forall j :: 0 <= j < NUM_OF_THREADS ==> bounds[j] == start + j * ((end - start) / NUM_OF_THREADS))
    else |bounds| == end - start + 1 && forall j :: 0 <= j <= end - start ==> bounds[j] == start + j
  }

  lemma ShareOne(start: nat, at: nat, bounds: seq<nat>, next: nat)
    requires Sharing(start, at, bounds) && at <= next
    ensures Sharing(start, next, bounds + [next])
  {
  }

  /** More nodes than threads: equal shares, and the rest to the last thread; otherwise one thread for every node. */
  method ShareOut(start: nat, end: nat) returns (bounds: seq<nat>)
    requires start <= end
    ensures Shares(start, end, bounds) && EvenShares(start, end, bounds)
  {
    var minThreadNum := end - start;
    bounds := [start];
    if minThreadNum > NUM_OF_THREADS {
      var numOfNodes := minThreadNum / NUM_OF_THREADS;
      var threadStart: nat := start;
      for j := 1 to NUM_OF_THREADS
        invariant |bounds| == j && Sharing(start, threadStart, bounds)
        invariant threadStart == start + (j - 1) * numOfNodes
        invariant forall i :: 0 <= i < j ==> bounds[i] == start + i * numOfNodes
      {
        ShareOne(start, threadStart, bounds, threadStart + numOfNodes);
        threadStart := threadStart + numOfNodes;
        bounds := bounds + [threadStart];
      }
      ShareOne(start, threadStart, bounds, end);
      bounds := bounds + [end];
    } else {
      for j := start to end
        invariant |bounds| == j - start + 1 && Sharing(start, j, bounds)
        invariant forall i :: 0 <= i <= j - start ==> bounds[i] == start + i
      {
        ShareOne(start, j, bounds, j + 1);
        bounds := bounds + [j + 1];
      }
    }
  }

  // ---------- batches ----------

  /** One batch: the threads' shares one after another, which is one of the ways the threads can interleave. */
  method RunBatch(h: Hierarchy, order: seq<nat>, start: nat, end: nat, labels: Labels)
    requires labels.Valid() && h.Shape() && |h.adj| <= MAX_VALUE && HubsAbove(h, labels.known, -1)
    requires start <= end <= |order| && InRange(order, |h.lvl|)
    modifies labels
    ensures labels.Valid() && labels.known == RunTable(h, old(labels.known), order, start, end)
  {
    var bounds := ShareOut(start, end);
    for t := 0 to |bounds| - 1
      invariant labels.Valid() && HubsAbove(h, labels.known, -1)
      invariant labels.known == RunTable(h, old(labels.known), order, start, bounds[t])
    {
      RunOn(h, old(labels.known), order, start, bounds[t], bounds[t + 1]);
      var thread := new HLDijkstra(bounds[t], bounds[t + 1], order);
      thread.Run(h, labels);
    }
  }

  lemma PlaceAt(order: seq<nat>, n: nat, v: nat) returns (p: nat)
    requires IsOrder(order, n) && v < n
    ensures p < |order| && order[p] == v
  {
    assert v in order;
    p :| p < |order| && order[p] == v;
  }

  /** Batch i holds exactly the nodes of the level i below the top. */
  lemma BatchIsLevel(order: seq<nat>, lvl: seq<nat>, c: seq<int>, count: nat, i: nat)
    requires IsOrder(order, |lvl|) && Descending(order, lvl) && Cuts(order, lvl, c) && Gapless(lvl, count)
    requires i < |c| - 1 && |order| > 0
    ensures i < count && 0 <= c[i] < c[i + 1] <= |order|
    ensures ToSet(order[c[i]..c[i + 1]]) == AtLevel(lvl, count - 1 - i)
  {
    BatchLevel(order, lvl, c, count, i);
    BatchIsRun(order, lvl, c, i);
    var level := AtLevel(lvl, count - 1 - i);
    forall v: nat | v in level
      ensures v in order[c[i]..c[i + 1]]
    {
      var p := PlaceAt(order, |lvl|, v);
      assert order[p] == order[c[i]..c[i + 1]][p - c[i]];
    }
  }

  /** The labels after i batches; without nodes there is no level, but one empty batch. */
  ghost function AfterRuns(h: Hierarchy, count: nat, i: nat): (r: seq<Label>)
    requires h.Shape()
    ensures |r| == |h.lvl|
  {
    LabelsDownTo(h, count, if i <= count then count - i else 0)
  }

  lemma AfterRunsHubs(h: Hierarchy, count: nat, i: nat)
    requires h.Shape()
    ensures HubsAbove(h, AfterRuns(h, count, i), -1)
  {
    DownToHubs(h, count, if i <= count then count - i else 0);
  }

  /** The bounds of batch i, between which the nodes of one level stand. */
  lemma BatchBounds(order: seq<nat>, lvl: seq<nat>, c: seq<int>, count: nat, i: nat)
    requires IsOrder(order, |lvl|) && Descending(order, lvl) && Cuts(order, lvl, c) && Gapless(lvl, count)
    requires i < |c| - 1
    ensures 0 <= c[i] <= c[i + 1] <= |order| && InRange(order, |lvl|)
    ensures |order| > 0 ==> i < count && ToSet(order[c[i]..c[i + 1]]) == AtLevel(lvl, count - 1 - i)
  {
    assert IsBatch(order, lvl, c, i);
    if |order| > 0 {
      BatchIsLevel(order, lvl, c, count, i);
    }
  }

  lemma AfterRunsIs(h: Hierarchy, count: nat, i: nat, j: nat)
    requires h.Shape() && i + j == count
    ensures AfterRuns(h, count, i) == LabelsDownTo(h, count, j)
  {
  }

  lemma BothEmpty(a: seq<Label>, b: seq<Label>)
    requires |a| == |b| == 0
    ensures a == b
  {
  }

  /** A run over the nodes of the next level adds that level; without nodes all tables are the same. */
  lemma BatchAddsLevel(h: Hierarchy, order: seq<nat>, count: nat, i: nat, s: nat, e: nat)
    requires h.Shape() && |order| == |h.lvl| && InRange(order, |h.lvl|) && s <= e <= |order|
    requires |order| > 0 ==> i < count && ToSet(order[s..e]) == AtLevel(h.lvl, count - 1 - i)
    ensures RunTable(h, AfterRuns(h, count, i), order, s, e) == AfterRuns(h, count, i + 1)
  {
    if |order| > 0 {
      var j: nat := count - 1 - i;
      AfterRunsIs(h, count, i, j + 1);
      AfterRunsIs(h, count, i + 1, j);
      RunAddsLevel(h, order, count, j, s, e);
    } else {
      BothEmpty(RunTable(h, AfterRuns(h, count, i), order, s, e), AfterRuns(h, count, i + 1));
    }
  }

  /** The batch between two neighbouring change indices. */
  method RunLevel(h: Hierarchy, order: seq<nat>, changeIndices: seq<int>, i: nat, labels: Labels, ghost count: nat)
    requires labels.Valid() && h.Shape() && |h.adj| <= MAX_VALUE && IsOrder(order, |h.lvl|) && Descending(order, h.lvl)
    requires Cuts(order, h.lvl, changeIndices) && Gapless(h.lvl, count) && i < |changeIndices| - 1
    requires labels.known == AfterRuns(h, count, i)
    modifies labels
    ensures labels.Valid() && labels.known == AfterRuns(h, count, i + 1)
  {
    BatchBounds(order, h.lvl, changeIndices, count, i);
    AfterRunsHubs(h, count, i);
    BatchAddsLevel(h, order, count, i, changeIndices[i], changeIndices[i + 1]);
    RunBatch(h, order, changeIndices[i], changeIndices[i + 1], labels);
  }

  /** All batches but the last k make all levels but the lowest k. */
  lemma RunsAreLevels(h: Hierarchy, order: seq<nat>, c: seq<int>, count: nat, k: nat, i: nat)
    requires h.Shape() && IsOrder(order, |h.lvl|) && Descending(order, h.lvl) && Cuts(order, h.lvl, c)
    requires Gapless(h.lvl, count) && i == if |c| > k + 1 then |c| - 1 - k else 0
    ensures AfterRuns(h, count, i) == LabelsDownTo(h, count, k)
  {
    if |order| > 0 {
      BatchCount(order, h.lvl, c, count);
    }
  }

  /** The batches of all levels but the lowest noLabelLvls ones, from the top down. */
  method RunLevels(h: Hierarchy, order: seq<nat>, changeIndices: seq<int>, noLabelLvls: nat, labels: Labels,
                   ghost count: nat)
    requires labels.Valid() && h.Shape() && |h.adj| <= MAX_VALUE && IsOrder(order, |h.lvl|) && Descending(order, h.lvl)
    requires Cuts(order, h.lvl, changeIndices) && Gapless(h.lvl, count) && labels.known == AfterRuns(h, count, 0)
    modifies labels
    ensures labels.Valid() && labels.known == LabelsDownTo(h, count, noLabelLvls)
  {
    var maxCalcIdx := |changeIndices| - (noLabelLvls + 1);
    var i := 0;
    while i < maxCalcIdx
      invariant 0 <= i < |changeIndices| && (i <= maxCalcIdx || i == 0)
      invariant labels.Valid() && labels.known == AfterRuns(h, count, i)
    {
      RunLevel(h, order, changeIndices, i, labels, count);
      i := i + 1;
    }
    RunsAreLevels(h, order, changeIndices, count, noLabelLvls, i);
  }

  /**
   * Labels for all levels but the lowest noLabelLvls ones: the table that every schedule of the threads leads to.
   */
  method CalcLabels(h: Hierarchy, noLabelLvls: nat, ghost count: nat) returns (labels: Labels)
    requires h.Shape() && |h.adj| <= MAX_VALUE && Gapless(h.lvl, count)
    ensures fresh(labels) && labels.Valid() && labels.known == LabelsDownTo(h, count, noLabelLvls)
  {
    var calcOrder, changeIndices := CreateHLCalcOrder(h.lvl);
    var c := changeIndices.ToArray();
    labels := new Labels(|h.lvl|);
    RunLevels(h, calcOrder[..], c, noLabelLvls, labels, count);
  }
}
