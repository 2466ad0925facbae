/** The labels finished so far, and the test whether an entry of a new label is redundant. */
module LabelStores {
  import opened IntArrays
  import opened OrderedIntSets
  import opened HubLabels
  import opened LabelColumns
  import opened LabelBuilding

  /** Every witness is still to come in both labels. */
  ghost predicate StillAhead(labels: seq<Label>, m: Label, x: nat, d: nat, a: Columns, i: nat, b: Columns, j: nat)
    requires x < |labels|
  {
    forall c: nat {:trigger Witness(labels, m, x, d, c)} :: Witness(labels, m, x, d, c) ==>
      Ahead(a.ids, i, c) && Ahead(b.ids, j, c)
  }

  lemma AllAhead(labels: seq<Label>, m: Label, x: nat, d: nat, a: Columns, b: Columns)
    requires x < |labels| && a.Holds(m) && b.Holds(labels[x])
    ensures StillAhead(labels, m, x, d, a, 0, b, 0)
  {
    forall c: nat | Witness(labels, m, x, d, c)
      ensures Ahead(a.ids, 0, c) && Ahead(b.ids, 0, c)
    {
      assert a.Lists(c) && b.Lists(c);
    }
  }

  /** Both labels are at the same hub: it is a witness, or can be passed. */
  lemma MeetAt(labels: seq<Label>, m: Label, x: nat, d: nat, a: Columns, i: nat, b: Columns, j: nat)
    requires x < |labels| && a.Holds(m) && b.Holds(labels[x]) && i < |a.ids| && j < |b.ids| && a.ids[i] == b.ids[j]
    requires StillAhead(labels, m, x, d, a, i, b, j)
    ensures a.ds[i] + b.ds[j] <= d && a.ids[i] != x ==> HasWitness(labels, m, x, d)
    ensures !(a.ds[i] + b.ds[j] <= d && a.ids[i] != x) ==> StillAhead(labels, m, x, d, a, i + 1, b, j + 1)
  {
    assert a.EntryAt(m, i) && b.EntryAt(labels[x], j);
    if a.ds[i] + b.ds[j] <= d && a.ids[i] != x {
      assert Witness(labels, m, x, d, a.ids[i]);
    } else {
      forall c: nat | Witness(labels, m, x, d, c)
        ensures Ahead(a.ids, i + 1, c) && Ahead(b.ids, j + 1, c)
      {
        SkipEqual(a.ids, i, c);
        SkipEqual(b.ids, j, c);
      }
    }
  }

  /** The smaller of two different hubs can be passed. */
  lemma PassAt(labels: seq<Label>, m: Label, x: nat, d: nat, a: Columns, i: nat, b: Columns, j: nat)
    requires x < |labels| && a.Holds(m) && b.Holds(labels[x]) && i < |a.ids| && j < |b.ids|
    requires StillAhead(labels, m, x, d, a, i, b, j)
    ensures a.ids[i] < b.ids[j] ==> StillAhead(labels, m, x, d, a, i + 1, b, j)
    ensures b.ids[j] < a.ids[i] ==> StillAhead(labels, m, x, d, a, i, b, j + 1)
  {
    forall c: nat | Witness(labels, m, x, d, c)
      ensures a.ids[i] < b.ids[j] ==> Ahead(a.ids, i + 1, c)
      ensures b.ids[j] < a.ids[i] ==> Ahead(b.ids, j + 1, c)
    {
      if a.ids[i] < b.ids[j] {
        SkipSmaller(a.ids, i, b.ids, j, c);
      } else if b.ids[j] < a.ids[i] {
        SkipSmaller(b.ids, j, a.ids, i, c);
      }
    }
  }

  class Labels {
    /** Hubs, first edges and distances of every node's label; empty where there is none yet. */
    var labelNodes: seq<seq<int>>
    var labelEdges: seq<seq<int>>
    var labelDist: seq<seq<int>>
    /** The labels. */
    ghost var known: seq<Label>

    ghost predicate Lengths()
      reads this
    {
      |labelNodes| == |labelEdges| == |labelDist| == |known|
    }

    ghost predicate Holds(u: nat)
      reads this
      requires Lengths() && u < |known|
    {
      Columns(labelNodes[u], labelDist[u], labelEdges[u]).Holds(known[u])
    }

    ghost predicate Valid()
      reads this
    {
      Lengths() && forall u: nat {:trigger Holds(u)} :: u < |known| ==> Holds(u)
    }

    constructor (nodeCount: nat)
      ensures Valid() && known == seq(nodeCount, u => map[])
    {
      labelNodes, labelEdges, labelDist := seq(nodeCount, u => []), seq(nodeCount, u => []), seq(nodeCount, u => []);
      known := seq(nodeCount, u => map[]);
    }

    method AddLabels(nodeId: nat, labelIds: seq<int>, edgeIds: seq<int>, dists: seq<int>, ghost a: Label)
      requires Valid() && nodeId < |known| && Columns(labelIds, dists, edgeIds).Holds(a)
      modifies this
      ensures Valid() && known == old(known)[nodeId := a]
    {
      labelNodes := labelNodes[nodeId := labelIds];
      labelEdges := labelEdges[nodeId := edgeIds];
      labelDist := labelDist[nodeId := dists];
      known := known[nodeId := a];
      forall u: nat | u < |known|
        ensures Holds(u)
      {
        assert old(Holds(u));
      }
    }

    /**
     * Whether toCheck's own label and the label m, whose hubs and distances are given, have a hub other than
     * toCheck in common over which toCheck is no farther away than checkDist.
     */
    method IsRedundant(toCheck: nat, checkDist: nat, labels: OrderedIntSet, checkDists: OrderedIntSet,
                       ghost es: seq<int>, ghost m: Label)
      returns (redundant: bool)
      requires Valid() && toCheck < |known| && labels.Valid() && checkDists.Valid()
      requires Columns(labels.Contents(), checkDists.Contents(), es).Holds(m)
      ensures redundant <==> HasWitness(known, m, toCheck, checkDist)
    {
      ghost var c := Columns(labels.Contents(), checkDists.Contents(), es);
      var checkLabels, checkLabelDist := labelNodes[toCheck], labelDist[toCheck];
      ghost var d := Columns(checkLabels, checkLabelDist, labelEdges[toCheck]);
      assert Holds(toCheck);
      var checkIdx, labelIdx := 0, 0;
      var labelCount := labels.Size();
      AllAhead(known, m, toCheck, checkDist, c, d);
      while checkIdx < |checkLabels| && labelIdx < labelCount
        invariant checkIdx <= |checkLabels| && labelIdx <= labelCount
        invariant StillAhead(known, m, toCheck, checkDist, c, labelIdx, d, checkIdx)
        decreases |checkLabels| + labelCount - checkIdx - labelIdx
      {
        var checkNode := checkLabels[checkIdx];
        var labelNode := labels.Get(labelIdx);
        if checkNode == labelNode {
          var dist := checkDists.Get(labelIdx);
          var newDist := dist + checkLabelDist[checkIdx];
          MeetAt(known, m, toCheck, checkDist, c, labelIdx, d, checkIdx);
          if newDist <= checkDist {
            if !(checkNode == toCheck) {
              return true;
            }
          }
          checkIdx := checkIdx + 1;
          labelIdx := labelIdx + 1;
        } else if checkNode < labelNode {
          PassAt(known, m, toCheck, checkDist, c, labelIdx, d, checkIdx);
          checkIdx := checkIdx + 1;
        } else {
          PassAt(known, m, toCheck, checkDist, c, labelIdx, d, checkIdx);
          labelIdx := labelIdx + 1;
        }
      }
      return false;
    }
  }
}
