/** A label as three parallel columns: sorted hubs, distances and first edges; on values, and as growing tables. */
module LabelColumns {
  import opened IntArrays
  import opened OrderedIntSets
  import opened HubLabels

  datatype Columns = Columns(ids: seq<int>, ds: seq<int>, es: seq<int>) {
    ghost predicate Shape() {
      |ds| == |ids| && |es| == |ids| && Sorted(ids) && BelowMax(ids)
    }

    /** Position j holds an entry of m. */
    ghost predicate EntryAt(m: Label, j: nat)
      requires Shape() && j < |ids|
    {
      && ids[j] >= 0 && ds[j] >= 0
      && (ids[j] as nat) in m && m[ids[j] as nat] == Entry(ds[j], es[j])
    }

    ghost predicate Lists(x: nat) { (x as int) in ids }

    /** The columns hold the entries of m and nothing else. */
    ghost predicate Holds(m: Label) {
      && Shape()
      && (forall j: nat {:trigger EntryAt(m, j)} :: j < |ids| ==> EntryAt(m, j))
      && (forall x {:trigger Lists(x)} :: x in m ==> Lists(x))
    }

    function Put(i: nat, x: int, d: int, e: int): Columns
      requires Shape() && i <= |ids|
    {
      Columns(Insert(ids, i, x), Insert(ds, i, d), Insert(es, i, e))
    }

    function Change(i: nat, d: int, e: int): Columns
      requires Shape() && i < |ids|
    {
      Columns(ids, ds[i := d], es[i := e])
    }

    function Drop(i: nat): Columns
      requires Shape() && i < |ids|
    {
      Columns(Remove(ids, i), Remove(ds, i), Remove(es, i))
    }

    /** A search of the id column finds exactly the entries of m. */
    lemma Lookup(m: Label, x: nat, r: int)
      requires Holds(m) && SearchResult(ids, x, r)
      ensures r >= 0 <==> x in m
      ensures r >= 0 ==> EntryAt(m, r)
    {
      assert x in m ==> Lists(x);
      if r >= 0 {
        assert EntryAt(m, r);
      }
    }

    lemma PutHolds(m: Label, i: nat, x: nat, d: nat, e: int)
      requires Holds(m) && InsertionPoint(ids, x, i) && x < MAX_VALUE
      ensures Put(i, x, d, e).Holds(m[x := Entry(d, e)])
    {
      InsertSorted(ids, i, x);
      assert x in m ==> Lists(x);
      var c, m' := Put(i, x, d, e), m[x := Entry(d, e)];
      forall j: nat | j < |c.ids|
        ensures c.EntryAt(m', j)
      {
        assert j < i ==> EntryAt(m, j);
        assert j > i ==> EntryAt(m, j - 1);
      }
      forall y | y in m'
        ensures c.Lists(y)
      {
        if y in m {
          assert Lists(y);
          var j :| 0 <= j < |ids| && ids[j] == y;
          assert c.ids[if j < i then j else j + 1] == y;
        } else {
          assert c.ids[i] == y;
        }
      }
    }

    lemma ChangeHolds(m: Label, i: nat, d: nat, e: int)
      requires Holds(m) && i < |ids|
      ensures ids[i] >= 0 && Change(i, d, e).Holds(m[ids[i] as nat := Entry(d, e)])
    {
      assert EntryAt(m, i);
      var c, m' := Change(i, d, e), m[ids[i] as nat := Entry(d, e)];
      forall j: nat | j < |ids|
        ensures c.EntryAt(m', j)
      {
        assert EntryAt(m, j);
      }
      forall y | y in m'
        ensures c.Lists(y)
      {
        assert Lists(y);
      }
    }

    lemma DropHolds(m: Label, i: nat)
      requires Holds(m) && i < |ids|
      ensures ids[i] >= 0 && Drop(i).Holds(m - {ids[i] as nat})
    {
      assert EntryAt(m, i);
      var c, m' := Drop(i), m - {ids[i] as nat};
      forall j: nat | j < |c.ids|
        ensures c.EntryAt(m', j)
      {
        assert EntryAt(m, if j < i then j else j + 1);
      }
      forall y | y in m'
        ensures c.Lists(y)
      {
        assert Lists(y);
        var j :| 0 <= j < |ids| && ids[j] == y;
        assert c.ids[if j < i then j else j - 1] == y;
      }
    }
  }

  /** m after hearing of a way of length d to x over the edge e. */
  function Offer(m: Label, x: nat, d: nat, e: int): Label
  {
    if x !in m || m[x].dist > d then m[x := Entry(d, e)] else m
  }

  /** The three sets foundIds, distances and firstEdgeId, which always change together. */
  class LabelTable {
    const foundIds: OrderedIntSet
    const distances: OrderedIntSet
    const firstEdgeId: OrderedIntSet
    /** The entries. */
    ghost var m: Label
    ghost var Repr: set<object>

    ghost predicate Shape()
      reads this, Repr
    {
      && this in Repr && foundIds in Repr && distances in Repr && firstEdgeId in Repr
      && foundIds.elements in Repr && distances.elements in Repr && firstEdgeId.elements in Repr
      && foundIds != distances && foundIds != firstEdgeId && distances != firstEdgeId
      && foundIds.elements != distances.elements && foundIds.elements != firstEdgeId.elements
      && distances.elements != firstEdgeId.elements
      && foundIds.Valid() && distances.Valid() && firstEdgeId.Valid() && foundIds.orderedBySorting
    }

    ghost function Cols(): Columns
      reads this, Repr
      requires Shape()
    {
      Columns(foundIds.Contents(), distances.Contents(), firstEdgeId.Contents())
    }

    ghost predicate Valid()
      reads this, Repr
    {
      Shape() && Cols().Holds(m)
    }

    constructor (initialSize: nat, sizeIncrease: nat)
      requires sizeIncrease > 0
      ensures Valid() && m == map[] && fresh(Repr)
    {
      foundIds := new OrderedIntSet(true, initialSize, sizeIncrease);
      distances := new OrderedIntSet(false, initialSize, sizeIncrease);
      firstEdgeId := new OrderedIntSet(false, initialSize, sizeIncrease);
      m := map[];
      new;
      Repr := {this, foundIds, distances, firstEdgeId, foundIds.elements, distances.elements, firstEdgeId.elements};
    }

    method Clear()
      requires Valid()
      modifies Repr
      ensures Valid() && m == map[] && Repr == old(Repr) && Cols() == Columns([], [], [])
    {
      foundIds.Clear();
      distances.Clear();
      firstEdgeId.Clear();
      m := map[];
      assert Cols() == Columns([], [], []);
    }

    /** Where x is, or where it belongs. */
    method GetIdx(x: nat) returns (idx: int)
      requires Valid() && x < MAX_VALUE
      ensures SearchResult(Cols().ids, x, idx)
      ensures idx >= 0 <==> x in m
    {
      idx := foundIds.GetIdx(x);
      Cols().Lookup(m, x, idx);
    }

    method InsertAtIdx(idx: nat, x: nat, d: nat, e: int)
      requires Valid() && x < MAX_VALUE && InsertionPoint(Cols().ids, x, idx)
      modifies Repr
      ensures Valid() && fresh(Repr - old(Repr)) && m == old(m)[x := Entry(d, e)]
    {
      Cols().PutHolds(m, idx, x, d, e);
      ghost var after := Cols().Put(idx, x, d, e);
      foundIds.InsertAtIdx(x, idx);
      distances.InsertAtIdx(d, idx);
      firstEdgeId.InsertAtIdx(e, idx);
      m := m[x := Entry(d, e)];
      Repr := Repr + {foundIds.elements, distances.elements, firstEdgeId.elements};
      assert Cols() == after;
    }

    method UpdateValue(idx: nat, ghost x: nat, d: nat, e: int)
      requires Valid() && idx < |Cols().ids| && Cols().ids[idx] == x
      modifies Repr
      ensures Valid() && Repr == old(Repr) && m == old(m)[x := Entry(d, e)]
    {
      Cols().ChangeHolds(m, idx, d, e);
      ghost var after := Cols().Change(idx, d, e);
      distances.UpdateValue(d, idx);
      firstEdgeId.UpdateValue(e, idx);
      m := m[x := Entry(d, e)];
      assert Cols() == after;
    }

    /** Note a way of length d to x over the edge e, if it is the first or a shorter one. */
    method NoteWay(x: nat, d: nat, e: int) returns (improved: bool)
      requires Valid() && x < MAX_VALUE
      modifies Repr
      ensures Valid() && fresh(Repr - old(Repr)) && m == Offer(old(m), x, d, e)
      ensures improved <==> x !in old(m) || old(m)[x].dist > d
      ensures m == if improved then old(m)[x := Entry(d, e)] else old(m)
    {
      var idx := GetIdx(x);
      improved := idx < 0;
      if idx < 0 {
        InsertAtIdx((idx + 1) * (-1), x, d, e);
      } else {
        var oldDistance := distances.Get(idx);
        Cols().Lookup(m, x, idx);
        if oldDistance > d {
          improved := true;
          UpdateValue(idx, x, d, e);
        }
      }
    }

    /** The entry of x. */
    method Read(x: nat) returns (d: nat, e: int)
      requires Valid() && x < MAX_VALUE && x in m
      ensures Entry(d, e) == m[x]
    {
      var idx := GetIdx(x);
      Cols().Lookup(m, x, idx);
      d := distances.Get(idx);
      e := firstEdgeId.Get(idx);
    }

    method RemoveAtIdx(idx: nat)
      requires Valid() && idx < |Cols().ids|
      modifies Repr
      ensures Valid() && Repr == old(Repr)
      ensures Cols().ids == Remove(old(Cols().ids), idx)
      ensures old(Cols().ids)[idx] >= 0 && m == old(m) - {old(Cols().ids)[idx] as nat}
    {
      Cols().DropHolds(m, idx);
      ghost var after := Cols().Drop(idx);
      foundIds.RemoveAtIdx(idx);
      distances.RemoveAtIdx(idx);
      firstEdgeId.RemoveAtIdx(idx);
      m := m - {old(Cols().ids)[idx] as nat};
      assert Cols() == after;
    }
  }
}
