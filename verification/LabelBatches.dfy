/**
 * The order in which labels are calculated, on values: one batch per level from the top, in any order inside a batch.
 */
module LabelBatches {
  import opened Graphs
  import opened HubLabels
  import opened LabelBuilding
  import opened LevelSelection

  // ---------- sorting the nodes by level ----------

  ghost predicate Descending(order: seq<nat>, lvl: seq<nat>)
    requires IsOrder(order, |lvl|)
  {
    forall p: nat, q: nat :: p <= q < |order| ==> lvl[order[p]] >= lvl[order[q]]
  }

  /** The last i places are sorted, and nothing before them is lower. */
  ghost predicate Sunk(order: seq<nat>, lvl: seq<nat>, i: nat)
    requires IsOrder(order, |lvl|)
  {
    forall p: nat, q: nat :: p <= q < |order| && |order| - i <= q ==> lvl[order[p]] >= lvl[order[q]]
  }

  /** In addition, the node before place j is no higher than any before it. */
  ghost predicate Sinking(order: seq<nat>, lvl: seq<nat>, i: nat, j: nat)
    requires IsOrder(order, |lvl|)
  {
    && Sunk(order, lvl, i) && 1 <= j <= |order| - i
    && (forall p: nat :: p < j ==> lvl[order[p]] >= lvl[order[j - 1]])
  }

  lemma SinkStay(order: seq<nat>, lvl: seq<nat>, i: nat, j: nat)
    requires IsOrder(order, |lvl|) && Sinking(order, lvl, i, j) && j < |order| - i && lvl[order[j - 1]] >= lvl[order[j]]
    ensures Sinking(order, lvl, i, j + 1)
  {
  }

  /** Exchanging two neighbours in the wrong order carries the lowest node on. */
  lemma SinkSwap(order: seq<nat>, lvl: seq<nat>, i: nat, j: nat, r: seq<nat>)
    requires IsOrder(order, |lvl|) && Sinking(order, lvl, i, j) && j < |order| - i && lvl[order[j - 1]] < lvl[order[j]]
    requires r == Swapped(order, j, j - 1)
    ensures IsOrder(r, |lvl|) && Sinking(r, lvl, i, j + 1)
  {
    SwapKeepsOrder(order, |lvl|, j, j - 1);
    forall p: nat, q: nat | p <= q < |r| && |r| - i <= q
      ensures lvl[r[p]] >= lvl[r[q]]
    {
      var k := if p == j then j - 1 else if p == j - 1 then j else p;
      assert r[p] == order[k] && r[q] == order[q] && k <= q;
    }
  }

  /** Nodes of one level stand in b in the order in which they stand in a. */
  ghost predicate TiesKept(a: seq<nat>, b: seq<nat>, lvl: seq<nat>)
  {
    forall p: nat, q: nat :: p < q < |b| && b[p] < |lvl| && b[q] < |lvl| && lvl[b[p]] == lvl[b[q]] ==>
      StandsBefore(a, b[p], b[q])
  }

  lemma TiesKeptOn(a: seq<nat>, b: seq<nat>, c: seq<nat>, lvl: seq<nat>)
    requires TiesKept(a, b, lvl) && TiesKept(b, c, lvl)
    ensures TiesKept(a, c, lvl)
  {
    forall p: nat, q: nat | p < q < |c| && c[p] < |lvl| && c[q] < |lvl| && lvl[c[p]] == lvl[c[q]]
      ensures StandsBefore(a, c[p], c[q])
    {
      assert StandsBefore(b, c[p], c[q]);
      var i, j :| 0 <= i < j < |b| && b[i] == c[p] && b[j] == c[q];
      assert StandsBefore(a, b[i], b[j]);
    }
  }

  /** Exchanging two neighbours of different levels keeps the order within each level. */
  lemma SwapKeepsTies(order: seq<nat>, lvl: seq<nat>, j: nat)
    requires IsOrder(order, |lvl|) && 0 < j < |order| && lvl[order[j - 1]] != lvl[order[j]]
    ensures TiesKept(order, Swapped(order, j, j - 1), lvl)
  {
    var r := Swapped(order, j, j - 1);
    forall p: nat, q: nat | p < q < |r| && r[p] < |lvl| && r[q] < |lvl| && lvl[r[p]] == lvl[r[q]]
      ensures StandsBefore(order, r[p], r[q])
    {
      var i := if p == j then j - 1 else if p == j - 1 then j else p;
      var k := if q == j then j - 1 else if q == j - 1 then j else q;
      assert i < k && order[i] == r[p] && order[k] == r[q];
    }
  }

  lemma SameTies(order: seq<nat>, lvl: seq<nat>)
    ensures TiesKept(order, order, lvl)
  {
  }

  lemma SinkEnd(order: seq<nat>, lvl: seq<nat>, i: nat)
    requires IsOrder(order, |lvl|) && i < |order| && Sinking(order, lvl, i, |order| - i)
    ensures Sunk(order, lvl, i + 1)
  {
  }

  // ---------- where the next level begins ----------

  /** Where batch k of the cuts c ends when only i places have been looked at. */
  function EndOf(c: seq<int>, k: nat, i: int): int
    requires k < |c|
  {
    if k + 1 < |c| then c[k + 1] else i
  }

  /** Batch k, as far as places below i have been looked at: a run of one level behind a higher one. */
  ghost predicate RunAt(order: seq<nat>, lvl: seq<nat>, c: seq<int>, i: nat, k: nat)
    requires IsOrder(order, |lvl|) && i <= |order|
  {
    && k < |c| && 0 <= c[k] <= i && (i > 0 ==> c[k] < EndOf(c, k, i) <= i)
    && (k > 0 ==> 0 < c[k] < |order| && lvl[order[c[k] - 1]] > lvl[order[c[k]]])
    && (forall p: nat {:trigger order[p]} :: c[k] <= p < EndOf(c, k, i) <= i ==> lvl[order[p]] == lvl[order[c[k]]])
  }

  /** c are the places below i at which a new level begins. */
  ghost predicate CutSoFar(order: seq<nat>, lvl: seq<nat>, c: seq<int>, i: nat)
    requires IsOrder(order, |lvl|)
  {
    && i <= |order| && |c| > 0 && c[0] == 0 && (i == 0 ==> c == [0])
    && (forall k: nat {:trigger RunAt(order, lvl, c, i, k)} :: k < |c| ==> RunAt(order, lvl, c, i, k))
  }

  /** The next node is on the same level. */
  lemma CutSame(order: seq<nat>, lvl: seq<nat>, c: seq<int>, i: nat)
    requires IsOrder(order, |lvl|) && Descending(order, lvl) && CutSoFar(order, lvl, c, i) && i < |order|
    requires i > 0 ==> lvl[order[i]] >= lvl[order[i - 1]]
    ensures CutSoFar(order, lvl, c, i + 1)
  {
    var j := i + 1;
    forall k: nat | k < |c|
      ensures RunAt(order, lvl, c, j, k)
    {
      assert RunAt(order, lvl, c, i, k);
      if i > 0 && k + 1 == |c| {
        assert lvl[order[i - 1]] == lvl[order[c[k]]];
      }
    }
  }

  /** The next node is on a lower level. */
  lemma CutDrop(order: seq<nat>, lvl: seq<nat>, c: seq<int>, i: nat)
    requires IsOrder(order, |lvl|) && CutSoFar(order, lvl, c, i) && 0 < i < |order| && lvl[order[i]] < lvl[order[i - 1]]
    ensures CutSoFar(order, lvl, c + [i], i + 1)
  {
    var c', j := c + [i], i + 1;
    forall k: nat | k < |c'|
      ensures RunAt(order, lvl, c', j, k)
    {
      if k < |c| {
        assert RunAt(order, lvl, c, i, k);
        assert c'[k] == c[k] && EndOf(c', k, i + 1) == EndOf(c, k, i);
      }
    }
  }

  /** Batch k is a run of one level, and unless it is the last one it is followed by a lower level. */
  ghost predicate IsBatch(order: seq<nat>, lvl: seq<nat>, c: seq<int>, k: nat)
    requires IsOrder(order, |lvl|)
  {
    && k + 1 < |c| && 0 <= c[k] <= c[k + 1] <= |order| && (|order| > 0 ==> c[k] < c[k + 1])
    && (forall p: nat {:trigger order[p]} :: c[k] <= p < c[k + 1] ==> lvl[order[p]] == lvl[order[c[k]]])
    && (c[k + 1] < |order| ==> lvl[order[c[k]]] > lvl[order[c[k + 1]]])
  }

  /**
   * c cuts the order into its levels: batch k is [c[k], c[k+1]), all of one level, and the levels fall from batch to
   * batch.
   */
  ghost predicate Cuts(order: seq<nat>, lvl: seq<nat>, c: seq<int>)
    requires IsOrder(order, |lvl|)
  {
    && |c| >= 2 && c[0] == 0 && c[|c| - 1] == |order|
    && (forall k: nat {:trigger c[k]} :: k < |c| ==> 0 <= c[k] <= |order|)
    && (forall k: nat {:trigger IsBatch(order, lvl, c, k)} :: k < |c| - 1 ==> IsBatch(order, lvl, c, k))
  }

  lemma CutDone(order: seq<nat>, lvl: seq<nat>, c: seq<int>)
    requires IsOrder(order, |lvl|) && CutSoFar(order, lvl, c, |order|)
    ensures Cuts(order, lvl, c + [|order|])
  {
    var d := c + [|order|];
    forall k: nat | k < |d|
      ensures 0 <= d[k] <= |order|
    {
      assert k < |c| ==> RunAt(order, lvl, c, |order|, k);
    }
    forall k: nat | k < |d| - 1
      ensures IsBatch(order, lvl, d, k)
    {
      assert d[k] == c[k] && RunAt(order, lvl, c, |order|, k);
      if k + 1 < |c| {
        assert RunAt(order, lvl, c, |order|, k + 1);
        assert d[k + 1] == c[k + 1] && lvl[order[c[k + 1] - 1]] == lvl[order[c[k]]];
      }
    }
  }

  // ---------- levels and batches ----------

  ghost predicate Occurs(lvl: seq<nat>, i: nat) { exists u: nat :: u < |lvl| && lvl[u] == i }

  /** The levels that occur are 0 up to count - 1. */
  ghost predicate Gapless(lvl: seq<nat>, count: nat)
  {
    && (forall u: nat {:trigger lvl[u]} :: u < |lvl| ==> lvl[u] < count)
    && (forall i: nat {:trigger Occurs(lvl, i)} :: i < count ==> Occurs(lvl, i))
  }

  /** A place whose node has level i. */
  lemma PlaceOf(order: seq<nat>, lvl: seq<nat>, i: nat) returns (p: nat)
    requires IsOrder(order, |lvl|) && Occurs(lvl, i)
    ensures p < |order| && lvl[order[p]] == i
  {
    var u: nat :| u < |lvl| && lvl[u] == i;
    assert u in order;
    p :| p < |order| && order[p] == u;
  }

  /** Batch k holds the level k below the top one. */
  lemma {:induction false} BatchLevel(order: seq<nat>, lvl: seq<nat>, c: seq<int>, count: nat, k: nat)
    requires IsOrder(order, |lvl|) && Descending(order, lvl) && Cuts(order, lvl, c) && Gapless(lvl, count)
    requires k < |c| - 1 && |order| > 0
    ensures c[k] < |order| && k < count && lvl[order[c[k]]] == count - 1 - k
  {
    assert IsBatch(order, lvl, c, k);
    if k == 0 {
      var p := PlaceOf(order, lvl, lvl[order[0]]);
      assert lvl[order[0]] < count;
      assert Occurs(lvl, count - 1);
      var q := PlaceOf(order, lvl, count - 1);
    } else {
      BatchLevel(order, lvl, c, count, k - 1);
      assert IsBatch(order, lvl, c, k - 1);
      if lvl[order[c[k]]] < count - 1 - k {
        assert Occurs(lvl, count - 1 - k);
        var q := PlaceOf(order, lvl, count - 1 - k);
        assert false;
      }
    }
  }

  /** There are as many batches as levels. */
  lemma BatchCount(order: seq<nat>, lvl: seq<nat>, c: seq<int>, count: nat)
    requires IsOrder(order, |lvl|) && Descending(order, lvl) && Cuts(order, lvl, c) && Gapless(lvl, count)
    requires |order| > 0
    ensures |c| - 1 == count
  {
    var k := |c| - 2;
    BatchLevel(order, lvl, c, count, k);
    assert IsBatch(order, lvl, c, k) && c[k + 1] == |order|;
    assert Occurs(lvl, 0);
    var q := PlaceOf(order, lvl, 0);
    assert lvl[order[|order| - 1]] == lvl[order[c[k]]];
  }

  // ---------- batches and the nodes of a level ----------

  /** The places from s up to e are all of level L, and exactly the nodes before them are higher. */
  ghost predicate LevelRun(lvl: seq<nat>, order: seq<nat>, s: nat, e: nat, L: nat)
    requires IsOrder(order, |lvl|)
  {
    && s <= e <= |order|
    && (forall p: nat {:trigger order[p]} :: s <= p < e ==> lvl[order[p]] == L)
    && (forall p: nat {:trigger order[p]} :: p < s ==> lvl[order[p]] > L)
    && (forall p: nat {:trigger order[p]} :: e <= p < |order| ==> lvl[order[p]] < L)
  }

  lemma BatchIsRun(order: seq<nat>, lvl: seq<nat>, c: seq<int>, k: nat)
    requires IsOrder(order, |lvl|) && Descending(order, lvl) && Cuts(order, lvl, c) && k < |c| - 1 && |order| > 0
    ensures 0 <= c[k] < c[k + 1] <= |order| && LevelRun(lvl, order, c[k], c[k + 1], lvl[order[c[k]]])
  {
    assert IsBatch(order, lvl, c, k);
    if k > 0 {
      assert IsBatch(order, lvl, c, k - 1);
      forall p: nat | p < c[k]
        ensures lvl[order[p]] > lvl[order[c[k]]]
      {
        assert lvl[order[p]] >= lvl[order[c[k] - 1]] && c[k - 1] <= c[k] - 1;
      }
    }
    forall p: nat | c[k + 1] <= p < |order|
      ensures lvl[order[p]] < lvl[order[c[k]]]
    {
      assert lvl[order[p]] <= lvl[order[c[k + 1]]];
    }
  }
}
