/** The parallel arrays of a witness search, on values: one sorted id column and four columns beside it. */
module SearchColumns {
  import opened IntArrays
  import opened WitnessSearch

  datatype RowColumns = RowColumns(ids: seq<int>, ds: seq<int>, ps: seq<int>, es: seq<int>, fs: seq<bool>) {
    ghost predicate Shape() {
      && |ds| == |ids| && |ps| == |ids| && |es| == |ids| && |fs| == |ids|
      && Sorted(ids) && BelowMax(ids)
    }

    /** Position j holds a row of m. */
    ghost predicate RowAt(m: Rows, j: nat)
      requires Shape() && j < |ids|
    {
      && ids[j] >= 0 && ds[j] >= 0 && ps[j] >= 0 && es[j] >= 0
      && (ids[j] as nat) in m && m[ids[j] as nat] == Row(ds[j], ps[j], es[j], fs[j])
    }

    ghost predicate Lists(x: nat) { (x as int) in ids }

    /** The columns hold m, except for a row without a distance at position hole (none if hole is negative). */
    ghost predicate Holds(m: Rows, hole: int) {
      && Shape() && hole < |ids|
      && (forall j: nat {:trigger RowAt(m, j)} :: j < |ids| && j != hole ==> RowAt(m, j))
      && (forall x {:trigger Lists(x)} :: x in m ==> Lists(x))
      && (hole >= 0 ==> ids[hole] >= 0 && (ids[hole] as nat) !in m && ds[hole] == -1 && !fs[hole])
    }

    function Open(i: nat, x: int, p: int, e: int): RowColumns
      requires Shape() && i <= |ids|
    {
      RowColumns(Insert(ids, i, x), Insert(ds, i, -1), Insert(ps, i, p), Insert(es, i, e), Insert(fs, i, false))
    }

    function Write(j: nat, d: int, p: int, e: int): RowColumns
      requires Shape() && j < |ids|
    {
      this.(ds := ds[j := d], ps := ps[j := p], es := es[j := e])
    }

    function Settle(j: nat): RowColumns
      requires Shape() && j < |ids|
    {
      this.(fs := fs[j := true])
    }

    lemma OpenKeepsRow(m: Rows, i: nat, x: nat, p: int, e: int, j: nat)
      requires Shape() && i <= |ids| && Open(i, x, p, e).Shape() && j < |ids| && RowAt(m, j)
      ensures Open(i, x, p, e).RowAt(m, if j < i then j else j + 1)
    {
    }

    /** A new row leaves a hole; the rows behind it move up. */
    lemma OpenHolds(m: Rows, i: nat, x: nat, p: int, e: int)
      requires Holds(m, -1) && InsertionPoint(ids, x, i) && x < MAX_VALUE
      ensures x !in m && Open(i, x, p, e).Holds(m, i)
    {
      InsertSorted(ids, i, x);
      assert x in m ==> Lists(x);
      var c := Open(i, x, p, e);
      forall j: nat | j < |c.ids| && j != i
        ensures c.RowAt(m, j)
      {
        OpenKeepsRow(m, i, x, p, e, if j < i then j else j - 1);
      }
      forall y | y in m
        ensures c.Lists(y)
      {
        assert Lists(y);
        var j :| 0 <= j < |ids| && ids[j] == y;
        assert c.ids[if j < i then j else j + 1] == y;
      }
    }

    /** Writing a row fills the hole or replaces what was there. */
    lemma WriteHolds(m: Rows, hole: int, j: nat, d: nat, p: nat, e: nat)
      requires Holds(m, hole) && j < |ids| && (hole < 0 || hole == j)
      ensures ids[j] >= 0
      ensures Write(j, d, p, e).Holds(m[ids[j] as nat := Row(d, p, e, fs[j])], -1)
    {
      assert j != hole ==> RowAt(m, j);
      var c, m' := Write(j, d, p, e), m[ids[j] as nat := Row(d, p, e, fs[j])];
      forall k: nat | k < |ids|
        ensures c.RowAt(m', k)
      {
        assert k != j ==> RowAt(m, k);
      }
      forall y | y in m'
        ensures c.Lists(y)
      {
        assert y != ids[j] ==> Lists(y);
      }
    }

    lemma SettleHolds(m: Rows, hole: int, j: nat)
      requires Holds(m, hole) && j < |ids| && j != hole
      ensures ids[j] >= 0 && (ids[j] as nat) in m
      ensures Settle(j).Holds(m[ids[j] as nat := m[ids[j] as nat].(final := true)], hole)
    {
      assert RowAt(m, j);
      var c, m' := Settle(j), m[ids[j] as nat := m[ids[j] as nat].(final := true)];
      forall k: nat | k < |ids| && k != hole
        ensures c.RowAt(m', k)
      {
        assert RowAt(m, k);
      }
      forall y | y in m'
        ensures c.Lists(y)
      {
        assert Lists(y);
      }
    }

    /** A search of the id column finds exactly the rows of m. */
    lemma Lookup(m: Rows, x: nat, r: int)
      requires Holds(m, -1) && SearchResult(ids, x, r)
      ensures r >= 0 <==> x in m
      ensures r >= 0 ==> RowAt(m, r)
    {
      assert x in m ==> Lists(x);
      if r >= 0 {
        assert RowAt(m, r);
      }
    }
  }
}
