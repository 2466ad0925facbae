/** The parts of java.util.Arrays and System.arraycopy that the data structures rely on. */
module IntArrays {

  /** Integer.MAX_VALUE: the padding behind the used part of a sorted array, and "no distance yet". */
  const MAX_VALUE: int := 0x7fff_ffff

  ghost predicate Sorted(s: seq<int>) { forall i, j :: 0 <= i < j < |s| ==> s[i] < s[j] }

  ghost predicate BelowMax(s: seq<int>) { forall i :: 0 <= i < |s| ==> s[i] < MAX_VALUE }

  /** s with x put in front of position i. */
  function Insert<T>(s: seq<T>, i: nat, x: T): (r: seq<T>)
    requires i <= |s|
    ensures |r| == |s| + 1
  {
    s[..i] + [x] + s[i..]
  }

  /** s without its element at position i. */
  function Remove<T>(s: seq<T>, i: nat): (r: seq<T>)
    requires i < |s|
    ensures |r| == |s| - 1
  {
    s[..i] + s[i + 1..]
  }

  /** i is where x belongs in the sorted sequence s, which does not hold x. */
  ghost predicate InsertionPoint(s: seq<int>, x: int, i: int)
  {
    && 0 <= i <= |s|
    && (forall k :: 0 <= k < i ==> s[k] < x)
    && (forall k :: i <= k < |s| ==> x < s[k])
  }

  /** The answer of a binary search: an index of x, or the insertion point encoded as a negative number. */
  ghost predicate SearchResult(s: seq<int>, x: int, r: int)
  {
    if r >= 0 then r < |s| && s[r] == x else InsertionPoint(s, x, -r - 1)
  }

  /** Arrays.binarySearch on the part of s from lo up to hi. */
  method BinarySearchRange(s: seq<int>, lo: nat, hi: nat, x: int) returns (r: int)
    requires lo <= hi <= |s|
    requires forall i, j :: lo <= i <= j < hi ==> s[i] <= s[j]
    ensures r >= 0 ==> lo <= r < hi && s[r] == x
    ensures r < 0 ==> lo <= -r - 1 <= hi
    ensures r < 0 ==> (forall k :: lo <= k < -r - 1 ==> s[k] < x) && (forall k :: -r - 1 <= k < hi ==> x < s[k])
  {
    var low, high := lo, hi;
    while low < high
      invariant lo <= low <= high <= hi
      invariant forall k :: lo <= k < low ==> s[k] < x
      invariant forall k :: high <= k < hi ==> x < s[k]
    {
      var mid := (low + high) / 2;
      if s[mid] < x {
        low := mid + 1;
      } else if s[mid] > x {
        high := mid;
      } else {
        return mid;
      }
    }
    return -low - 1;
  }

  /** Arrays.binarySearch on a whole array whose first n elements are sorted and whose rest is padding. */
  method BinarySearch(a: array<int>, ghost n: nat, x: int) returns (r: int)
    requires n <= a.Length && Sorted(a[..n]) && BelowMax(a[..n]) && x < MAX_VALUE
    requires forall i :: n <= i < a.Length ==> a[i] == MAX_VALUE
    ensures SearchResult(a[..n], x, r)
  {
    assert forall i :: 0 <= i < n ==> a[i] == a[..n][i];
    r := BinarySearchRange(a[..], 0, a.Length, x);
    ghost var firstPadding := if n < a.Length then a[..][n] else MAX_VALUE;
    assert r < 0 ==> -r - 1 <= n;
  }

  /** System.arraycopy that opens a gap at i by moving the elements i up to n one place to the right. */
  method ShiftRight<T>(a: array<T>, i: nat, n: nat)
    requires i <= n < a.Length
    modifies a
    ensures a[..] == old(a[..i + 1] + a[i..n] + a[n + 1..])
  {
    forall k | i <= k < n {
      a[k + 1] := a[k];
    }
  }

  /** Open a gap at i among the first n elements and put x there. */
  method InsertAt<T>(a: array<T>, i: nat, n: nat, x: T)
    requires i <= n < a.Length
    modifies a
    ensures a[..n + 1] == Insert(old(a[..n]), i, x) && a[n + 1..] == old(a[n + 1..])
  {
    ShiftRight(a, i, n);
    a[i] := x;
  }

  /** System.arraycopy that closes the gap at i by moving the elements i + 1 up to n one place to the left. */
  method ShiftLeft<T>(a: array<T>, i: nat, n: nat)
    requires i < n <= a.Length
    modifies a
    ensures a[..] == old(a[..i] + a[i + 1..n] + a[n - 1..])
  {
    forall k | i <= k < n - 1 {
      a[k] := a[k + 1];
    }
  }

  /** Arrays.copyOf to a larger size; the new places hold the given padding. */
  method CopyOf<T>(a: array<T>, size: nat, padding: T) returns (b: array<T>)
    requires a.Length <= size
    ensures fresh(b) && b.Length == size && b[..a.Length] == a[..]
    ensures forall n :: 0 <= n <= a.Length ==> b[..n] == a[..n]
    ensures forall i :: a.Length <= i < size ==> b[i] == padding
  {
    b := new T[size](i requires 0 <= i reads a => if i < a.Length then a[i] else padding);
  }

  lemma InsertSorted(s: seq<int>, i: nat, x: int)
    requires Sorted(s) && InsertionPoint(s, x, i)
    ensures Sorted(Insert(s, i, x)) && x in Insert(s, i, x) && x !in s
    ensures BelowMax(s) && x < MAX_VALUE ==> BelowMax(Insert(s, i, x))
  {
    assert Insert(s, i, x)[i] == x;
  }

  // ---------- walking through two sorted sequences at once ----------

  /** x is still to come in s from position i on. */
  ghost predicate Ahead(s: seq<int>, i: nat, x: int) { exists k: nat :: i <= k < |s| && s[k] == x }

  /** Whatever is still to come in both sequences is not at the smaller of the two current positions. */
  lemma SkipSmaller(p: seq<int>, i: nat, q: seq<int>, j: nat, x: int)
    requires Sorted(p) && Sorted(q) && i < |p| && j < |q| && p[i] < q[j] && Ahead(p, i, x) && Ahead(q, j, x)
    ensures Ahead(p, i + 1, x)
  {
    var k: nat :| i <= k < |p| && p[k] == x;
    var l: nat :| j <= l < |q| && q[l] == x;
    assert k != i;
  }

  lemma SkipEqual(p: seq<int>, i: nat, x: int)
    requires i < |p| && p[i] != x && Ahead(p, i, x)
    ensures Ahead(p, i + 1, x)
  {
    var k: nat :| i <= k < |p| && p[k] == x;
    assert k != i;
  }
}
