/** The heap of the plain router: positions are indexed by node id, keys live in the router's distance array. */
module DijkstraHeaps {
  import opened IntArrays
  import opened Heaps

  /** The keys as a map, for the theory of heaps. */
  ghost function KeyMap(key: seq<int>): Keys { map i | 0 <= i < |key| :: key[i] }

  /** Lowering the key of x leaves at most the order between x and its parent broken. */
  lemma LowerAt(h: seq<int>, before: seq<int>, after: seq<int>, p: nat)
    requires |before| == |after| && Keyed(h, KeyMap(before)) && Heap(h, KeyMap(before)) && p < |h| && Distinct(h)
    requires forall x :: 0 <= x < |before| && x != h[p] ==> after[x] == before[x]
    requires 0 <= h[p] < |before| && after[h[p]] <= before[h[p]]
    ensures Keyed(h, KeyMap(after)) && HeapButUp(h, KeyMap(after), p)
  {
    var k, k' := KeyMap(before), KeyMap(after);
    assert forall i :: 0 <= i < |h| ==> h[i] in k;
    assert Keyed(h, k');
    forall i: nat | 0 < i < |h| && i != p
      ensures Ordered(h, k', i)
    {
      assert Ordered(h, k, i);
    }
    forall i: nat | p > 0 && 0 < i < |h| && Parent(i) == p
      ensures k'[h[Parent(p)]] <= k'[h[i]]
    {
      assert Ordered(h, k, i) && Ordered(h, k, p);
    }
  }

  /** An id whose key alone was lowered and that is not on the heap may be appended and sifted up. */
  lemma AppendAt(h: seq<int>, before: seq<int>, after: seq<int>, id: int)
    requires |before| == |after| && Keyed(h, KeyMap(before)) && Heap(h, KeyMap(before)) && id !in h
    requires 0 <= id < |after| && forall x :: 0 <= x < |before| && x != id ==> after[x] == before[x]
    ensures Keyed(h + [id], KeyMap(after)) && HeapButUp(h + [id], KeyMap(after), |h|)
  {
    var k, k', g := KeyMap(before), KeyMap(after), h + [id];
    forall i | 0 <= i < |g|
      ensures g[i] in k'
    {
      assert i < |h| ==> h[i] in k;
    }
    forall i: nat | 0 < i < |g| && i != |h|
      ensures Ordered(g, k', i)
    {
      assert Ordered(h, k, i) && h[i] in k && h[Parent(i)] in k;
    }
  }

  lemma LowerSifts(h: seq<int>, before: seq<int>, after: seq<int>, p: nat)
    requires |before| == |after| && Keyed(h, KeyMap(before)) && Heap(h, KeyMap(before)) && p < |h| && Distinct(h)
    requires forall x :: 0 <= x < |before| && x != h[p] ==> after[x] == before[x]
    requires 0 <= h[p] < |before| && after[h[p]] <= before[h[p]]
    ensures Keyed(h, KeyMap(after)) && Heap(SiftUp(h, KeyMap(after), p), KeyMap(after))
    ensures forall x :: x in SiftUp(h, KeyMap(after), p) <==> x in h
  {
    LowerAt(h, before, after, p);
    SiftUpRestores(h, KeyMap(after), p);
    SameElements(SiftUp(h, KeyMap(after), p), h);
  }

  lemma AppendSiftsAt(h: seq<int>, before: seq<int>, after: seq<int>, id: int)
    requires |before| == |after| && Keyed(h, KeyMap(before)) && Heap(h, KeyMap(before)) && id !in h
    requires 0 <= id < |after| && forall x :: 0 <= x < |before| && x != id ==> after[x] == before[x]
    ensures Keyed(h + [id], KeyMap(after)) && Heap(SiftUp(h + [id], KeyMap(after), |h|), KeyMap(after))
    ensures forall x :: x in SiftUp(h + [id], KeyMap(after), |h|) <==> x in h || x == id
  {
    AppendAt(h, before, after, id);
    SiftUpRestores(h + [id], KeyMap(after), |h|);
    SameElements(SiftUp(h + [id], KeyMap(after), |h|), h + [id]);
  }

  lemma DropRootWithin(h: seq<int>)
    requires |h| > 1
    ensures forall x :: x in DropRoot(h) ==> x in h
  {
  }

  /** Sifting down what was put in the root's place gives a heap of all other ids. */
  lemma RootSiftedOut(h: seq<int>, k: Keys)
    requires |h| > 1 && Keyed(h, k) && Heap(h, k) && Distinct(h)
    ensures Keyed(DropRoot(h), k) && Heap(SiftDown(DropRoot(h), k, 0), k)
    ensures forall x :: x in SiftDown(DropRoot(h), k, 0) <==> x in h && x != h[0]
  {
    DropRootKeepsOrder(h, k);
    DropRootElements(h);
    DropRootWithin(h);
    SiftDownRestores(DropRoot(h), k, 0);
    SameElements(SiftDown(DropRoot(h), k, 0), DropRoot(h));
  }

  /** From h to r the root has gone: the last id has taken its place and has been sifted down. */
  ghost predicate RootOut(h: seq<int>, k: Keys, r: seq<int>)
  {
    && h != []
    && if |h| == 1 then r == [] else Keyed(DropRoot(h), k) && r == SiftDown(DropRoot(h), k, 0)
  }

  /** From h to r the id has been sifted up, from its place or, if it is new, from behind the others. */
  ghost predicate SiftedIn(h: seq<int>, k: Keys, id: int, r: seq<int>)
  {
    if id in h then Keyed(h, k) && exists p: nat :: p < |h| && h[p] == id && r == SiftUp(h, k, p)
    else Keyed(h + [id], k) && r == SiftUp(h + [id], k, |h|)
  }

  class DijkstraHeap {
    const heapPosition: array<int>
    var idHeapArray: array<int>
    var currentSize: nat
    /** The router's currDistanceToNode. */
    const key: array<int>

    ghost predicate Arrays()
      reads this
    {
      && heapPosition != idHeapArray && key != idHeapArray && key != heapPosition
      && heapPosition.Length == key.Length && currentSize <= idHeapArray.Length
    }

    /** The first n heap places hold different nodes, and every one of them knows its place. */
    ghost predicate Shape(n: nat)
      reads this, heapPosition, idHeapArray
    {
      && Arrays() && n <= idHeapArray.Length
      && (forall i :: 0 <= i < n ==> 0 <= idHeapArray[i] < key.Length && heapPosition[idHeapArray[i]] == i)
    }

    ghost predicate Valid()
      reads this, heapPosition, idHeapArray, key
    {
      && Shape(currentSize)
      && Keyed(Ids(), KeyMap(key[..])) && Heap(Ids(), KeyMap(key[..]))
    }

    ghost function Ids(): seq<int>
      reads this, idHeapArray
      requires currentSize <= idHeapArray.Length
    {
      idHeapArray[..currentSize]
    }

    constructor (key: array<int>)
      ensures this.key == key && Shape(currentSize) && currentSize == 0
      ensures fresh(heapPosition) && fresh(idHeapArray) && heapPosition.Length == key.Length
    {
      this.key := key;
      heapPosition := new int[key.Length];
      idHeapArray := new int[400](i => -1);
      currentSize := 0;
    }

    method ResetState()
      requires Arrays()
      modifies this, heapPosition
      ensures Valid() && Ids() == [] && fresh(idHeapArray)
      ensures forall x :: 0 <= x < heapPosition.Length ==> heapPosition[x] == -1
    {
      forall x | 0 <= x < heapPosition.Length {
        heapPosition[x] := -1;
      }
      idHeapArray := new int[400](i => -1);
      currentSize := 0;
    }

    predicate IsEmpty()
      reads this, idHeapArray, heapPosition, key
      requires Valid()
      ensures IsEmpty() <==> Ids() == []
    {
      currentSize == 0
    }

    lemma IdsDistinct(n: nat)
      requires Shape(n)
      ensures Distinct(idHeapArray[..n])
      ensures forall x :: x in idHeapArray[..n] <==>
                0 <= x < key.Length && 0 <= heapPosition[x] < n && idHeapArray[heapPosition[x]] == x
    {
      forall i, j | 0 <= i < j < n
        ensures idHeapArray[..n][i] != idHeapArray[..n][j]
      {
        assert heapPosition[idHeapArray[i]] == i && heapPosition[idHeapArray[j]] == j;
      }
      forall x | 0 <= x < key.Length && 0 <= heapPosition[x] < n && idHeapArray[heapPosition[x]] == x
        ensures x in idHeapArray[..n]
      {
        assert idHeapArray[..n][heapPosition[x]] == x;
      }
    }

    /** Negative when the first id is nearer than the second, 0 when they are equally near. */
    method CompareValues(i: nat, j: nat, ghost n: nat) returns (c: int)
      requires Shape(n) && i < n && j < n
      ensures c < 0 <==> key[idHeapArray[i]] < key[idHeapArray[j]]
      ensures c == 0 <==> key[idHeapArray[i]] == key[idHeapArray[j]]
    {
      if key[idHeapArray[i]] == key[idHeapArray[j]] {
        c := 0;
      } else if key[idHeapArray[i]] > key[idHeapArray[j]] {
        c := 1;
      } else {
        c := -1;
      }
    }

    method SwapPlaces(i: nat, j: nat, ghost n: nat)
      requires Shape(n) && i < n && j < n && i != j
      modifies idHeapArray, heapPosition
      ensures Shape(n) && idHeapArray[..n] == Swap(old(idHeapArray[..n]), i, j)
      ensures idHeapArray[n..] == old(idHeapArray[n..])
      ensures forall x :: 0 <= x < key.Length && x !in old(idHeapArray[..n]) ==> heapPosition[x] == old(heapPosition[x])
    {
      assert idHeapArray[i] == idHeapArray[..n][i] && idHeapArray[j] == idHeapArray[..n][j];
      var tmp := idHeapArray[i];
      idHeapArray[i] := idHeapArray[j];
      idHeapArray[j] := tmp;
      tmp := heapPosition[idHeapArray[i]];
      heapPosition[idHeapArray[i]] := heapPosition[idHeapArray[j]];
      heapPosition[idHeapArray[j]] := tmp;
    }

    method HeapifyBottomUp(p: nat, ghost n: nat)
      requires Shape(n) && p < n && Keyed(idHeapArray[..n], KeyMap(key[..]))
      modifies idHeapArray, heapPosition
      ensures Shape(n) && idHeapArray[..n] == SiftUp(old(idHeapArray[..n]), KeyMap(key[..]), p)
      ensures idHeapArray[n..] == old(idHeapArray[n..])
      ensures forall x :: 0 <= x < key.Length && x !in old(idHeapArray[..n]) ==> heapPosition[x] == old(heapPosition[x])
      decreases p
    {
      if p <= 0 {
        return;
      }
      var c := CompareValues(p, Parent(p), n);
      if c < 0 {
        ghost var h := idHeapArray[..n];
        SwapKeyed(h, KeyMap(key[..]), p, Parent(p));
        SwapElements(h, p, Parent(p));
        SwapPlaces(p, Parent(p), n);
        HeapifyBottomUp(Parent(p), n);
      }
    }

    method HeapifyTopDown(n: nat, root: nat)
      requires Shape(n) && root < n && Keyed(idHeapArray[..n], KeyMap(key[..]))
      modifies idHeapArray, heapPosition
      ensures Shape(n) && idHeapArray[..n] == SiftDown(old(idHeapArray[..n]), KeyMap(key[..]), root)
      ensures idHeapArray[n..] == old(idHeapArray[n..])
      ensures forall x :: 0 <= x < key.Length && x !in old(idHeapArray[..n]) ==> heapPosition[x] == old(heapPosition[x])
      decreases n - root
    {
      var smallest := root;
      var c;
      if 2 * root + 1 < n {
        c := CompareValues(2 * root + 1, smallest, n);
        if c < 0 {
          smallest := 2 * root + 1;
        }
      }
      if 2 * root + 2 < n {
        c := CompareValues(2 * root + 2, smallest, n);
        if c < 0 {
          smallest := 2 * root + 2;
        }
      }
      assert smallest == Smallest(idHeapArray[..n], KeyMap(key[..]), root);
      if smallest != root {
        ghost var h := idHeapArray[..n];
        SwapKeyed(h, KeyMap(key[..]), root, smallest);
        SwapElements(h, root, smallest);
        SwapPlaces(root, smallest, n);
        HeapifyTopDown(n, smallest);
      }
    }

    /** Take the root off the heap and put the last node in its place. */
    method TakeRoot() returns (id: nat)
      requires Valid() && Ids() != []
      modifies this`currentSize, idHeapArray, heapPosition
      ensures Shape(currentSize) && currentSize == old(currentSize) - 1 && id == old(Ids())[0]
      ensures currentSize == 0 ==> old(Ids()) == [id]
      ensures currentSize > 0 ==> Ids() == DropRoot(old(Ids()))
      ensures forall x :: 0 <= x < key.Length && x !in old(Ids()) ==> heapPosition[x] == old(heapPosition[x])
    {
      IdsDistinct(currentSize);
      id := idHeapArray[0];
      currentSize := currentSize - 1;
      idHeapArray[0] := idHeapArray[currentSize];
      heapPosition[idHeapArray[0]] := 0;
      idHeapArray[currentSize] := -1;
    }

    /** Take a node of least distance off the heap; its position entry is left behind. */
    method GetNext() returns (id: nat)
      requires Valid() && Ids() != []
      modifies this`currentSize, idHeapArray, heapPosition
      ensures Valid()
      ensures id < key.Length && id == old(Ids())[0] && RootOut(old(Ids()), KeyMap(key[..]), Ids())
      ensures id in old(Ids()) && forall x :: x in Ids() <==> x in old(Ids()) && x != id
      ensures forall x :: x in old(Ids()) ==> 0 <= x < key.Length && key[id] <= key[x]
      ensures forall x :: 0 <= x < key.Length && x !in old(Ids()) ==> heapPosition[x] == old(heapPosition[x])
    {
      ghost var h := Ids();
      LeastAtRoot();
      IdsDistinct(currentSize);
      id := TakeRoot();
      if currentSize > 0 {
        RootSiftedOut(h, KeyMap(key[..]));
        HeapifyTopDown(currentSize, 0);
      }
    }

    lemma LeastAtRoot()
      requires Valid() && Ids() != []
      ensures forall x :: x in Ids() ==> 0 <= x < key.Length && key[idHeapArray[0]] <= key[x]
    {
      forall x | x in Ids()
        ensures 0 <= x < key.Length && key[idHeapArray[0]] <= key[x]
      {
        var i :| 0 <= i < |Ids()| && Ids()[i] == x;
        RootIsLeast(Ids(), KeyMap(key[..]), i);
      }
    }

    /**
     * Put a node on the heap, or restore the order after the router lowered the distance of one that is
     * there; before holds the keys as they were. A node that has left the heap must not come back.
     */
    method Add(id: nat, ghost before: seq<int>)
      requires Shape(currentSize) && id < key.Length && |before| == key.Length
      requires Keyed(Ids(), KeyMap(before)) && Heap(Ids(), KeyMap(before))
      requires key[id] <= before[id] && forall x :: 0 <= x < key.Length && x != id ==> key[x] == before[x]
      requires heapPosition[id] == -1 || id in Ids()
      modifies this, idHeapArray, heapPosition
      ensures Valid() && (idHeapArray == old(idHeapArray) || fresh(idHeapArray))
      ensures SiftedIn(old(Ids()), KeyMap(key[..]), id, Ids())
      ensures forall x :: x in Ids() <==> x in old(Ids()) || x == id
      ensures forall x :: 0 <= x < key.Length && x !in Ids() ==> heapPosition[x] == old(heapPosition[x])
    {
      if heapPosition[id] != -1 {
        Move(id, before);
      } else {
        AddNew(id, before);
      }
    }

    method Move(id: nat, ghost before: seq<int>)
      requires Shape(currentSize) && id < key.Length && |before| == key.Length && id in Ids()
      requires Keyed(Ids(), KeyMap(before)) && Heap(Ids(), KeyMap(before))
      requires key[id] <= before[id] && forall x :: 0 <= x < key.Length && x != id ==> key[x] == before[x]
      modifies idHeapArray, heapPosition
      ensures Valid() && SiftedIn(old(Ids()), KeyMap(key[..]), id, Ids())
      ensures forall x :: x in Ids() <==> x in old(Ids())
      ensures forall x :: 0 <= x < key.Length && x !in Ids() ==> heapPosition[x] == old(heapPosition[x])
    {
      IdsDistinct(currentSize);
      LowerSifts(Ids(), before, key[..], heapPosition[id]);
      HeapifyBottomUp(heapPosition[id], currentSize);
    }

    method AddNew(id: nat, ghost before: seq<int>)
      requires Shape(currentSize) && id < key.Length && |before| == key.Length && heapPosition[id] == -1
      requires Keyed(Ids(), KeyMap(before)) && Heap(Ids(), KeyMap(before))
      requires forall x :: 0 <= x < key.Length && x != id ==> key[x] == before[x]
      modifies this, idHeapArray, heapPosition
      ensures Valid() && (idHeapArray == old(idHeapArray) || fresh(idHeapArray))
      ensures SiftedIn(old(Ids()), KeyMap(key[..]), id, Ids())
      ensures forall x :: x in Ids() <==> x in old(Ids()) || x == id
      ensures forall x :: 0 <= x < key.Length && x !in Ids() ==> heapPosition[x] == old(heapPosition[x])
    {
      IdsDistinct(currentSize);
      AppendSiftsAt(Ids(), before, key[..], id);
      Append(id);
      HeapifyBottomUp(currentSize, currentSize + 1);
      currentSize := currentSize + 1;
    }

    /** Write id behind the last heap element, growing the array when it is full. */
    method Append(id: nat)
      requires Shape(currentSize) && id < key.Length && id !in Ids()
      modifies this, idHeapArray, heapPosition
      ensures Shape(currentSize + 1) && currentSize == old(currentSize)
      ensures idHeapArray == old(idHeapArray) || fresh(idHeapArray)
      ensures idHeapArray[..currentSize + 1] == old(Ids()) + [id]
      ensures forall x :: 0 <= x < key.Length && x != id ==> heapPosition[x] == old(heapPosition[x])
    {
      assert forall i :: 0 <= i < currentSize ==> idHeapArray[i] == Ids()[i];
      if currentSize == idHeapArray.Length {
        idHeapArray := CopyOf(idHeapArray, idHeapArray.Length + 200, -1);
      }
      idHeapArray[currentSize] := id;
      heapPosition[id] := currentSize;
    }
  }
}
