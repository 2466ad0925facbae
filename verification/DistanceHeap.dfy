/** An indexed min-heap of ids whose positions and distances are found through a sorted table of the ids. */
module DistanceHeaps {
  import opened IntArrays
  import opened Heaps

  // ---------- the table beside the heap, on values ----------

  /** The sorted ids with their distances are exactly the map k. */
  ghost predicate Table(ids: seq<int>, ds: seq<int>, k: Keys)
  {
    && |ds| == |ids| && Sorted(ids) && BelowMax(ids)
    && (forall j :: 0 <= j < |ids| ==> ids[j] in k && k[ids[j]] == ds[j])
    && AllListed(ids, k)
  }

  /** Everything on the heap h is in the table, and the table knows where. */
  ghost predicate Located(ids: seq<int>, ps: seq<int>, h: seq<int>)
  {
    && |ps| == |ids| && Distinct(h)
    && (forall i :: 0 <= i < |h| ==> h[i] in ids)
    && (forall j :: 0 <= j < |ids| && ids[j] in h ==> 0 <= ps[j] < |h| && h[ps[j]] == ids[j])
  }

  lemma SwapLocated(ids: seq<int>, ps: seq<int>, h: seq<int>, i: nat, j: nat, a: nat, b: nat)
    requires Sorted(ids) && Located(ids, ps, h) && i < |h| && j < |h| && a < |ids| && b < |ids|
    requires ids[a] == h[i] && ids[b] == h[j]
    ensures Located(ids, ps[a := ps[b]][b := ps[a]], Swap(h, i, j))
  {
    SwapPermutes(h, i, j);
    var s := Swap(h, i, j);
    assert ps[a] == i && ps[b] == j by {
      assert ids[a] in h && ids[b] in h;
    }
    forall x | x in s
      ensures x in h
    {
      assert x in multiset(s);
    }
  }

  lemma DropRootLocated(ids: seq<int>, ps: seq<int>, h: seq<int>, a: nat)
    requires Sorted(ids) && Located(ids, ps, h) && |h| > 1 && a < |ids| && ids[a] == h[|h| - 1]
    ensures Located(ids, ps[a := 0], DropRoot(h))
  {
    var d := DropRoot(h);
    forall x | x in d
      ensures x in h
    {
    }
    forall j | 0 <= j < |ids| && ids[j] in d
      ensures 0 <= ps[a := 0][j] < |d| && d[ps[a := 0][j]] == ids[j]
    {
      assert ids[j] in h;
    }
  }

  lemma RemoveSorted(ids: seq<int>, ds: seq<int>, k: Keys, a: nat)
    requires Table(ids, ds, k) && a < |ids|
    ensures Table(Remove(ids, a), Remove(ds, a), k - {ids[a]})
  {
    var r := Remove(ids, a);
    forall x | x in k - {ids[a]}
      ensures Listed(r, x)
    {
      assert Listed(ids, x);
      var j :| 0 <= j < |ids| && ids[j] == x;
      assert r[if j < a then j else j - 1] == x;
    }
  }

  lemma RemoveLocated(ids: seq<int>, ps: seq<int>, h: seq<int>, a: nat)
    requires Sorted(ids) && Located(ids, ps, h) && a < |ids| && ids[a] !in h
    ensures Located(Remove(ids, a), Remove(ps, a), h)
  {
    var r := Remove(ids, a);
    forall i | 0 <= i < |h|
      ensures h[i] in r
    {
      var j :| 0 <= j < |ids| && ids[j] == h[i];
      assert r[if j < a then j else j - 1] == h[i];
    }
  }

  lemma InsertTable(ids: seq<int>, ds: seq<int>, k: Keys, a: nat, x: int, d: int)
    requires Table(ids, ds, k) && InsertionPoint(ids, x, a) && x < MAX_VALUE
    ensures Table(Insert(ids, a, x), Insert(ds, a, d), k[x := d]) && x !in k
  {
    InsertSorted(ids, a, x);
    assert x in k ==> Listed(ids, x);
    var r := Insert(ids, a, x);
    forall y | y in k[x := d]
      ensures Listed(r, y)
    {
      if y != x {
        assert Listed(ids, y);
        var j :| 0 <= j < |ids| && ids[j] == y;
        assert r[if j < a then j else j + 1] == y;
      }
    }
  }

  /** Position j of the widened table knows where its id stands. */
  lemma InsertedAt(ids: seq<int>, ps: seq<int>, h: seq<int>, a: nat, x: int, j: nat)
    requires Located(ids, ps, h) && InsertionPoint(ids, x, a) && j <= |ids| && Insert(ids, a, x)[j] in h + [x]
    ensures var q := Insert(ps, a, |h|)[j]; 0 <= q <= |h| && (h + [x])[q] == Insert(ids, a, x)[j]
  {
    if j != a {
      var i := if j < a then j else j - 1;
      assert Insert(ids, a, x)[j] == ids[i] && Insert(ps, a, |h|)[j] == ps[i];
      assert ids[i] != x && ids[i] in h;
    }
  }

  /** Every id on the heap is in the widened table. */
  lemma InsertListed(ids: seq<int>, h: seq<int>, a: nat, x: int, i: nat)
    requires a <= |ids| && i <= |h| && (i < |h| ==> h[i] in ids)
    ensures (h + [x])[i] in Insert(ids, a, x)
  {
    var r := Insert(ids, a, x);
    if i < |h| {
      var j :| 0 <= j < |ids| && ids[j] == h[i];
      assert r[if j < a then j else j + 1] == h[i];
    } else {
      assert r[a] == x;
    }
  }

  lemma InsertLocated(ids: seq<int>, ps: seq<int>, h: seq<int>, a: nat, x: int)
    requires Sorted(ids) && Located(ids, ps, h) && InsertionPoint(ids, x, a)
    ensures Located(Insert(ids, a, x), Insert(ps, a, |h|), h + [x])
  {
    InsertSorted(ids, a, x);
    var r, qs, g := Insert(ids, a, x), Insert(ps, a, |h|), h + [x];
    assert Distinct(g);
    forall i | 0 <= i < |g|
      ensures g[i] in r
    {
      InsertListed(ids, h, a, x, i);
    }
    forall j | 0 <= j < |r| && r[j] in g
      ensures 0 <= qs[j] < |g| && g[qs[j]] == r[j]
    {
      InsertedAt(ids, ps, h, a, x, j);
    }
  }

  lemma LowerTable(ids: seq<int>, ds: seq<int>, k: Keys, a: nat, d: int)
    requires Table(ids, ds, k) && a < |ids|
    ensures Table(ids, ds[a := d], k[ids[a] := d])
  {
    assert forall x :: x in k[ids[a] := d] ==> x in k;
  }

  // ---------- the heap itself ----------

  class DistanceHeap {
    var containedIds: array<int>
    var distances: array<int>
    var heapPosition: array<int>
    var idHeapArray: array<int>
    var currentSize: nat
    const sizeIncrease: nat
    /** The ids on the heap with their distances. */
    ghost var prio: Keys
    ghost var Repr: set<object>

    ghost predicate Arrays()
      reads this
    {
      && containedIds != distances && containedIds != heapPosition && containedIds != idHeapArray
      && distances != heapPosition && distances != idHeapArray && heapPosition != idHeapArray
      && containedIds.Length == distances.Length == heapPosition.Length == idHeapArray.Length
      && sizeIncrease > 0
      && this in Repr && containedIds in Repr && distances in Repr && heapPosition in Repr && idHeapArray in Repr
    }

    /** The first m table entries are k, and the first n heap places are located in them. */
    ghost predicate Shape(m: nat, n: nat, k: Keys)
      reads this, containedIds, distances, heapPosition, idHeapArray
    {
      && Arrays() && n <= m <= containedIds.Length
      && (forall i :: m <= i < containedIds.Length ==> containedIds[i] == MAX_VALUE)
      && Table(containedIds[..m], distances[..m], k)
      && Located(containedIds[..m], heapPosition[..m], idHeapArray[..n])
      && Keyed(idHeapArray[..n], k)
    }

    /** All but the order of the heap. */
    ghost predicate Consistent()
      reads this, Repr
    {
      Arrays() && Shape(currentSize, currentSize, prio) && AllListed(idHeapArray[..currentSize], prio)
    }

    ghost predicate Valid()
      reads this, Repr
    {
      Consistent() && Heap(idHeapArray[..currentSize], prio)
    }

    constructor (initialSize: nat, sizeIncrease: nat)
      requires sizeIncrease > 0
      ensures Valid() && fresh(Repr) && prio == map[]
    {
      this.sizeIncrease := sizeIncrease;
      containedIds := new int[initialSize](i => MAX_VALUE);
      distances := new int[initialSize];
      heapPosition := new int[initialSize];
      idHeapArray := new int[initialSize];
      currentSize := 0;
      prio := map[];
      Repr := {this, containedIds, distances, heapPosition, idHeapArray};
    }

    method Reset()
      requires Valid()
      modifies this, containedIds
      ensures Valid() && Repr == old(Repr) && prio == map[]
    {
      currentSize := 0;
      forall i | 0 <= i < containedIds.Length {
        containedIds[i] := MAX_VALUE;
      }
      prio := map[];
    }

    predicate IsEmpty()
      reads this, Repr
      requires Valid()
      ensures IsEmpty() <==> prio == map[]
    {
      EmptyIsNone();
      currentSize == 0
    }

    lemma EmptyIsNone()
      requires Valid()
      ensures currentSize == 0 <==> prio == map[]
    {
      if currentSize == 0 {
        assert idHeapArray[..currentSize] == [];
        NothingListed(prio);
      } else {
        assert idHeapArray[..currentSize][0] in prio;
      }
    }

    /** The table index of the id at heap position i. */
    method IndexAt(i: nat, ghost m: nat, ghost n: nat, ghost k: Keys) returns (a: nat)
      requires Shape(m, n, k) && i < n
      ensures a < m && containedIds[a] == idHeapArray[i] && distances[a] == k[idHeapArray[i]]
    {
      assert idHeapArray[..n][i] in containedIds[..m];
      var r := BinarySearch(containedIds, m, idHeapArray[i]);
      a := r;
      assert containedIds[..m][a] == containedIds[a];
    }

    /** Negative when the first id is nearer than the second, 0 when they are equally near. */
    method CompareValues(i: nat, j: nat, ghost m: nat, ghost n: nat, ghost k: Keys) returns (c: int)
      requires Shape(m, n, k) && i < n && j < n
      ensures c < 0 <==> k[idHeapArray[i]] < k[idHeapArray[j]]
      ensures c == 0 <==> k[idHeapArray[i]] == k[idHeapArray[j]]
    {
      var a := IndexAt(i, m, n, k);
      var b := IndexAt(j, m, n, k);
      c := if distances[a] == distances[b] then 0 else if distances[a] > distances[b] then 1 else -1;
    }

    method SwapPlaces(i: nat, j: nat, ghost m: nat, ghost n: nat, ghost k: Keys)
      requires Shape(m, n, k) && i < n && j < n && i != j
      modifies idHeapArray, heapPosition
      ensures Shape(m, n, k) && idHeapArray[..n] == Swap(old(idHeapArray[..n]), i, j)
    {
      var a := IndexAt(i, m, n, k);
      var b := IndexAt(j, m, n, k);
      SwapLocated(containedIds[..m], heapPosition[..m], idHeapArray[..n], i, j, a, b);
      SwapKeyed(idHeapArray[..n], k, i, j);
      idHeapArray[i], idHeapArray[j] := idHeapArray[j], idHeapArray[i];
      heapPosition[a], heapPosition[b] := heapPosition[b], heapPosition[a];
      assert idHeapArray[..n] == Swap(old(idHeapArray[..n]), i, j);
      assert heapPosition[..m] == old(heapPosition[..m])[a := old(heapPosition[b])][b := old(heapPosition[a])];
    }

    method HeapifyBottomUp(p: nat, ghost m: nat, ghost n: nat, ghost k: Keys)
      requires Shape(m, n, k) && p < n
      modifies idHeapArray, heapPosition
      ensures Shape(m, n, k) && idHeapArray[..n] == SiftUp(old(idHeapArray[..n]), k, p)
      decreases p
    {
      if p == 0 {
        return;
      }
      var c := CompareValues(p, Parent(p), m, n, k);
      if c < 0 {
        SwapPlaces(p, Parent(p), m, n, k);
        HeapifyBottomUp(Parent(p), m, n, k);
      }
    }

    /** Which of root and its children has the least distance. */
    method SmallestOf(n: nat, root: nat, ghost m: nat, ghost k: Keys) returns (smallest: nat)
      requires Shape(m, n, k) && root < n
      ensures smallest == Smallest(idHeapArray[..n], k, root)
    {
      smallest := NearerOf(2 * root + 1, root, n, m, k);
      smallest := NearerOf(2 * root + 2, smallest, n, m, k);
    }

    /** Place i if it exists and its id is nearer than that in place j, otherwise j. */
    method NearerOf(i: nat, j: nat, n: nat, ghost m: nat, ghost k: Keys) returns (r: nat)
      requires Shape(m, n, k) && j < n
      ensures r == Nearer(idHeapArray[..n], k, i, j)
    {
      r := j;
      if i < n {
        var c := CompareValues(i, j, m, n, k);
        if c < 0 {
          r := i;
        }
      }
    }

    method HeapifyTopDown(n: nat, root: nat, ghost m: nat, ghost k: Keys)
      requires Shape(m, n, k) && root < n
      modifies idHeapArray, heapPosition
      ensures Shape(m, n, k) && idHeapArray[..n] == SiftDown(old(idHeapArray[..n]), k, root)
      decreases n - root
    {
      var smallest := SmallestOf(n, root, m, k);
      if smallest != root {
        SwapPlaces(root, smallest, m, n, k);
        HeapifyTopDown(n, smallest, m, k);
      }
    }

    method Grow()
      requires Valid()
      modifies this
      ensures Valid() && prio == old(prio) && currentSize == old(currentSize)
      ensures fresh(Repr - old(Repr)) && fresh(containedIds) && fresh(distances) && fresh(heapPosition)
      ensures fresh(idHeapArray)
      ensures containedIds.Length > currentSize
      ensures containedIds[..currentSize] == old(containedIds[..currentSize])
    {
      CopyAll(containedIds.Length + sizeIncrease);
    }

    method CopyAll(size: nat)
      requires Arrays() && currentSize <= containedIds.Length <= size
      requires forall i :: currentSize <= i < containedIds.Length ==> containedIds[i] == MAX_VALUE
      modifies this`containedIds, this`distances, this`heapPosition, this`idHeapArray, this`Repr
      ensures Arrays() && containedIds.Length == size && fresh(Repr - old(Repr))
      ensures fresh(containedIds) && fresh(distances) && fresh(heapPosition) && fresh(idHeapArray)
      ensures forall i :: currentSize <= i < containedIds.Length ==> containedIds[i] == MAX_VALUE
      ensures containedIds[..currentSize] == old(containedIds[..currentSize])
      ensures distances[..currentSize] == old(distances[..currentSize])
      ensures heapPosition[..currentSize] == old(heapPosition[..currentSize])
      ensures idHeapArray[..currentSize] == old(idHeapArray[..currentSize])
    {
      idHeapArray := CopyOf(idHeapArray, size, 0);
      distances := CopyOf(distances, size, 0);
      containedIds := CopyOf(containedIds, size, MAX_VALUE);
      heapPosition := CopyOf(heapPosition, size, 0);
      Repr := Repr + {containedIds, distances, heapPosition, idHeapArray};
    }

    /** Take an id of least distance off the heap. */
    method GetNext() returns (id: int)
      requires Valid() && prio != map[]
      modifies Repr
      ensures Valid() && Repr == old(Repr)
      ensures id in old(prio) && prio == old(prio) - {id}
      ensures forall x :: x in old(prio) ==> old(prio)[id] <= old(prio)[x]
    {
      LeastAtRoot();
      id := idHeapArray[0];
      var deleteIdx := IndexAt(0, currentSize, currentSize, prio);
      RemoveRoot();
      RestrictKeys(idHeapArray[..currentSize], prio, id);
      RemoveEntry(deleteIdx, prio);
      prio := prio - {id};
    }

    lemma LeastAtRoot()
      requires Valid() && prio != map[]
      ensures currentSize > 0 && idHeapArray[0] in prio
      ensures forall x :: x in prio ==> prio[idHeapArray[0]] <= prio[x]
    {
      var h := idHeapArray[..currentSize];
      if forall x :: x !in prio {
        assert false;
      }
      var y :| y in prio;
      assert Listed(h, y) && h[0] in prio;
      forall x | x in prio
        ensures prio[h[0]] <= prio[x]
      {
        assert Listed(h, x);
        var i :| 0 <= i < |h| && h[i] == x;
        RootIsLeast(h, prio, i);
      }
    }

    /** The last element of the heap replaces the root and sinks to its place; the table is not touched. */
    method RemoveRoot()
      requires Valid() && currentSize > 0
      modifies this`currentSize, idHeapArray, heapPosition
      ensures currentSize == old(currentSize) - 1 && Shape(currentSize + 1, currentSize, prio)
      ensures Heap(idHeapArray[..currentSize], prio)
      ensures old(idHeapArray[0]) !in idHeapArray[..currentSize]
      ensures AllListed(idHeapArray[..currentSize], prio - {old(idHeapArray[0])})
    {
      ghost var h := idHeapArray[..currentSize];
      MoveLastToRoot();
      if currentSize > 0 {
        DropRootSifts(h, prio);
        HeapifyTopDown(currentSize, 0, currentSize + 1, prio);
      } else {
        assert forall x :: x in prio ==> Listed(h, x);
      }
    }

    method MoveLastToRoot()
      requires Valid() && currentSize > 0
      modifies this`currentSize, idHeapArray, heapPosition
      ensures currentSize == old(currentSize) - 1 && Shape(currentSize + 1, currentSize, prio)
      ensures currentSize > 0 ==> idHeapArray[..currentSize] == DropRoot(old(idHeapArray[..currentSize]))
    {
      ghost var n, h := currentSize, idHeapArray[..currentSize];
      ghost var ids, ps := containedIds[..currentSize], heapPosition[..currentSize];
      var positionIdx := IndexAt(currentSize - 1, n, n, prio);
      if n > 1 {
        DropRootLocated(ids, ps, h, positionIdx);
      }
      currentSize := currentSize - 1;
      idHeapArray[0] := idHeapArray[currentSize];
      heapPosition[positionIdx] := 0;
      assert heapPosition[..n] == ps[positionIdx := 0];
      assert currentSize > 0 ==> idHeapArray[..currentSize] == DropRoot(h);
    }

    /** Close the gap of a table entry whose id has left the heap. */
    method RemoveEntry(d: nat, ghost k: Keys)
      requires Shape(currentSize + 1, currentSize, k) && d <= currentSize
      requires containedIds[d] !in idHeapArray[..currentSize]
      modifies containedIds, distances, heapPosition
      ensures Shape(currentSize, currentSize, k - {old(containedIds[d])})
    {
      ghost var m := currentSize + 1;
      ghost var ids, ds, ps := containedIds[..m], distances[..m], heapPosition[..m];
      RemoveSorted(ids, ds, k, d);
      RemoveLocated(ids, ps, idHeapArray[..currentSize], d);
      CloseGap(d);
    }

    method CloseGap(d: nat)
      requires Arrays() && d <= currentSize < containedIds.Length
      requires forall i :: currentSize < i < containedIds.Length ==> containedIds[i] == MAX_VALUE
      modifies containedIds, distances, heapPosition
      ensures containedIds[..currentSize] == Remove(old(containedIds[..currentSize + 1]), d)
      ensures distances[..currentSize] == Remove(old(distances[..currentSize + 1]), d)
      ensures heapPosition[..currentSize] == Remove(old(heapPosition[..currentSize + 1]), d)
      ensures forall i :: currentSize <= i < containedIds.Length ==> containedIds[i] == MAX_VALUE
    {
      if d < currentSize {
        ShiftLeft(containedIds, d, currentSize + 1);
        ShiftLeft(distances, d, currentSize + 1);
        ShiftLeft(heapPosition, d, currentSize + 1);
      }
      containedIds[currentSize] := MAX_VALUE;
    }

    /** The distance is below those of the children of id's place; so is every distance if id is not on the heap. */
    ghost predicate Fitting(id: int, distance: int)
      reads this, Repr
      requires Valid()
    {
      BelowChildren(idHeapArray[..currentSize], prio, id, distance)
    }

    /**
     * Put an id on the heap, or change the distance of one that is there. As ids are only ever sifted up, the order
     * survives exactly if the distance fits, which it does unless it is raised above that of a child.
     */
    method Add(id: int, distance: int)
      requires Valid() && id < MAX_VALUE
      modifies Repr
      ensures Consistent() && prio == old(prio)[id := distance]
      ensures Valid() <==> old(Fitting(id, distance))
      ensures id !in old(prio) || distance <= old(prio)[id] ==> Valid()
      ensures fresh(Repr - old(Repr))
    {
      LowerFits(id, distance);
      var idx := BinarySearch(containedIds, currentSize, id);
      if idx >= 0 {
        assert containedIds[..currentSize][idx] == id && distances[..currentSize][idx] == distances[idx];
        Change(idx, distance);
      } else {
        if currentSize == idHeapArray.Length {
          Grow();
        }
        AddNew((idx + 1) * (-1), id, distance);
      }
    }

    lemma LowerFits(id: int, distance: int)
      requires Valid()
      ensures id !in prio || distance <= prio[id] ==> Fitting(id, distance)
    {
      if id !in prio || distance <= prio[id] {
        LowerIsBelow(idHeapArray[..currentSize], prio, id, distance);
      }
    }

    method Change(idx: nat, distance: int)
      requires Valid() && idx < currentSize
      modifies this`prio, distances, idHeapArray, heapPosition
      ensures Consistent() && prio == old(prio)[containedIds[idx] := distance]
      ensures Valid() <==> old(Fitting(containedIds[idx], distance))
    {
      ghost var n, h := currentSize, idHeapArray[..currentSize];
      var p := PlaceOf(idx);
      ChangeKeySifts(h, prio, p, distance);
      LowerTable(containedIds[..n], distances[..n], prio, idx, distance);
      distances[idx] := distance;
      assert distances[..n] == old(distances[..n])[idx := distance];
      prio := prio[containedIds[idx] := distance];
      HeapifyBottomUp(p, n, n, prio);
    }

    method PlaceOf(idx: nat) returns (p: nat)
      requires Valid() && idx < currentSize
      ensures p < currentSize && idHeapArray[p] == containedIds[idx]
      ensures containedIds[idx] in prio && prio[containedIds[idx]] == distances[idx]
    {
      ghost var n, ids := currentSize, containedIds[..currentSize];
      assert ids[idx] in prio && Listed(idHeapArray[..n], ids[idx]);
      assert heapPosition[..n][idx] == heapPosition[idx] && distances[..n][idx] == distances[idx];
      p := heapPosition[idx];
      assert idHeapArray[..n][p] == idHeapArray[p];
    }

    method AddNew(insertIdx: nat, id: int, distance: int)
      requires Valid() && id < MAX_VALUE && currentSize < containedIds.Length
      requires InsertionPoint(containedIds[..currentSize], id, insertIdx)
      modifies this`prio, this`currentSize, containedIds, distances, idHeapArray, heapPosition
      ensures Valid() && prio == old(prio)[id := distance]
    {
      ghost var n, h := currentSize, idHeapArray[..currentSize];
      PlaceNew(insertIdx, id, distance);
      AppendSifts(h, prio, id, distance);
      prio := prio[id := distance];
      HeapifyBottomUp(currentSize, n + 1, n + 1, prio);
      currentSize := currentSize + 1;
    }

    method PlaceNew(insertIdx: nat, id: int, distance: int)
      requires Valid() && id < MAX_VALUE && currentSize < containedIds.Length
      requires InsertionPoint(containedIds[..currentSize], id, insertIdx)
      modifies containedIds, distances, idHeapArray, heapPosition
      ensures id !in prio && Shape(currentSize + 1, currentSize + 1, prio[id := distance])
      ensures idHeapArray[..currentSize + 1] == old(idHeapArray[..currentSize]) + [id]
    {
      ghost var n, h := currentSize, idHeapArray[..currentSize];
      InsertTable(containedIds[..n], distances[..n], prio, insertIdx, id, distance);
      InsertLocated(containedIds[..n], heapPosition[..n], h, insertIdx, id);
      OpenGap(insertIdx, id, distance);
    }

    method OpenGap(i: nat, id: int, distance: int)
      requires Arrays() && i <= currentSize < containedIds.Length
      modifies containedIds, distances, idHeapArray, heapPosition
      ensures containedIds[..currentSize + 1] == Insert(old(containedIds[..currentSize]), i, id)
      ensures distances[..currentSize + 1] == Insert(old(distances[..currentSize]), i, distance)
      ensures heapPosition[..currentSize + 1] == Insert(old(heapPosition[..currentSize]), i, currentSize)
      ensures idHeapArray[..currentSize + 1] == old(idHeapArray[..currentSize]) + [id]
      ensures containedIds[currentSize + 1..] == old(containedIds[currentSize + 1..])
    {
      InsertAt(containedIds, i, currentSize, id);
      InsertAt(distances, i, currentSize, distance);
      idHeapArray[currentSize] := id;
      InsertAt(heapPosition, i, currentSize, currentSize);
    }
  }
}
