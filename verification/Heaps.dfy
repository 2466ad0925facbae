/** Binary heaps of ids on paper: the sifting steps both heap classes perform, and why they restore the order. */
module Heaps {

  type Keys = map<int, int>

  function Parent(i: nat): nat
    requires i > 0
  {
    (i - 1) / 2
  }

  ghost predicate Keyed(h: seq<int>, k: Keys) { forall i :: 0 <= i < |h| ==> h[i] in k }

  /** x occurs in s. Quantified statements name it so that the verifier unfolds it only where it is mentioned. */
  ghost predicate Listed(s: seq<int>, x: int) { x in s }

  /** Every key belongs to an element of s. */
  ghost predicate AllListed(s: seq<int>, k: Keys) { forall x {:trigger Listed(s, x)} :: x in k ==> Listed(s, x) }

  lemma NothingListed(k: Keys)
    requires AllListed([], k)
    ensures k == map[]
  {
    assert forall x :: x in k ==> Listed([], x);
    assert forall x :: x !in k;
  }

  ghost predicate Distinct(h: seq<int>) { forall i, j :: 0 <= i < j < |h| ==> h[i] != h[j] }

  /** The key at position i is at least the key of its parent. */
  ghost predicate Ordered(h: seq<int>, k: Keys, i: nat)
    requires Keyed(h, k) && 0 < i < |h|
  {
    k[h[Parent(i)]] <= k[h[i]]
  }

  ghost predicate Heap(h: seq<int>, k: Keys)
    requires Keyed(h, k)
  {
    forall i: nat :: 0 < i < |h| ==> Ordered(h, k, i)
  }

  /** The children of p do not undercut the parent of p. */
  ghost predicate Bridged(h: seq<int>, k: Keys, p: nat)
    requires Keyed(h, k) && p < |h|
  {
    p > 0 ==> forall i: nat :: 0 < i < |h| && Parent(i) == p ==> k[h[Parent(p)]] <= k[h[i]]
  }

  /** The order may only be broken between p and its parent. */
  ghost predicate HeapButUp(h: seq<int>, k: Keys, p: nat)
    requires Keyed(h, k) && p < |h|
  {
    && (forall i: nat :: 0 < i < |h| && i != p ==> Ordered(h, k, i))
    && Bridged(h, k, p)
  }

  /** The order may only be broken between p and its children. */
  ghost predicate HeapButDown(h: seq<int>, k: Keys, p: nat)
    requires Keyed(h, k) && p < |h|
  {
    && (forall i: nat :: 0 < i < |h| && Parent(i) != p ==> Ordered(h, k, i))
    && Bridged(h, k, p)
  }

  function Swap(h: seq<int>, i: nat, j: nat): (r: seq<int>)
    requires i < |h| && j < |h|
    ensures |r| == |h| && r[i] == h[j] && r[j] == h[i]
  {
    h[i := h[j]][j := h[i]]
  }

  lemma SwapPermutes(h: seq<int>, i: nat, j: nat)
    requires i < |h| && j < |h|
    ensures multiset(Swap(h, i, j)) == multiset(h)
    ensures Distinct(h) ==> Distinct(Swap(h, i, j))
  {
  }

  lemma SwapKeyed(h: seq<int>, k: Keys, i: nat, j: nat)
    requires Keyed(h, k) && i < |h| && j < |h|
    ensures Keyed(Swap(h, i, j), k)
  {
  }

  ghost function SiftUp(h: seq<int>, k: Keys, p: nat): (r: seq<int>)
    requires Keyed(h, k) && p < |h|
    ensures |r| == |h| && Keyed(r, k)
    decreases p
  {
    if p > 0 && k[h[p]] < k[h[Parent(p)]] then
      SwapKeyed(h, k, p, Parent(p));
      SiftUp(Swap(h, p, Parent(p)), k, Parent(p))
    else h
  }

  /** Place i if there is such a place and its key is smaller than that at place j, otherwise j. */
  ghost function Nearer(h: seq<int>, k: Keys, i: nat, j: nat): (r: nat)
    requires Keyed(h, k) && j < |h|
    ensures r < |h|
  {
    if i < |h| && k[h[i]] < k[h[j]] then i else j
  }

  /** The child of p to swap with, or p itself if both children are in order. */
  ghost function Smallest(h: seq<int>, k: Keys, p: nat): (c: nat)
    requires Keyed(h, k) && p < |h|
    ensures p <= c < |h|
    ensures c == p || c == 2 * p + 1 || c == 2 * p + 2
    ensures k[h[c]] <= k[h[p]] && (c != p ==> k[h[c]] < k[h[p]])
    ensures forall i: nat :: 0 < i < |h| && Parent(i) == p ==> k[h[c]] <= k[h[i]]
  {
    Nearer(h, k, 2 * p + 2, Nearer(h, k, 2 * p + 1, p))
  }

  ghost function SiftDown(h: seq<int>, k: Keys, p: nat): (r: seq<int>)
    requires Keyed(h, k) && p < |h|
    ensures |r| == |h| && Keyed(r, k)
    decreases |h| - p
  {
    var c := Smallest(h, k, p);
    if c != p then
      SwapKeyed(h, k, p, c);
      SiftDown(Swap(h, p, c), k, c)
    else h
  }

  lemma SwapUpStep(h: seq<int>, k: Keys, p: nat)
    requires Keyed(h, k) && 0 < p < |h| && HeapButUp(h, k, p) && k[h[p]] < k[h[Parent(p)]]
    ensures Keyed(Swap(h, p, Parent(p)), k) && HeapButUp(Swap(h, p, Parent(p)), k, Parent(p))
  {
    var q := Parent(p);
    var s := Swap(h, p, q);
    SwapKeyed(h, k, p, q);
    forall i: nat | 0 < i < |s| && i != q
      ensures Ordered(s, k, i)
    {
      assert i != p ==> Ordered(h, k, i);
      assert q > 0 ==> Ordered(h, k, q);
    }
    forall i: nat | 0 < i < |s| && q > 0 && Parent(i) == q
      ensures k[s[Parent(q)]] <= k[s[i]]
    {
      assert Ordered(h, k, q);
      assert i != p ==> Ordered(h, k, i);
    }
  }

  /** Sifting up from the only place where the order may be broken restores it and only rearranges. */
  lemma {:induction false} SiftUpRestores(h: seq<int>, k: Keys, p: nat)
    requires Keyed(h, k) && p < |h| && HeapButUp(h, k, p)
    ensures Heap(SiftUp(h, k, p), k)
    ensures multiset(SiftUp(h, k, p)) == multiset(h)
    ensures Distinct(h) ==> Distinct(SiftUp(h, k, p))
    decreases p
  {
    if p > 0 && k[h[p]] < k[h[Parent(p)]] {
      SwapUpStep(h, k, p);
      SwapPermutes(h, p, Parent(p));
      SiftUpRestores(Swap(h, p, Parent(p)), k, Parent(p));
    }
  }

  lemma SwapDownStep(h: seq<int>, k: Keys, p: nat, c: nat)
    requires Keyed(h, k) && p < |h| && HeapButDown(h, k, p) && c == Smallest(h, k, p) && c != p
    ensures Keyed(Swap(h, p, c), k) && HeapButDown(Swap(h, p, c), k, c)
  {
    var s := Swap(h, p, c);
    SwapKeyed(h, k, p, c);
    assert Parent(c) == p;
    forall i: nat | 0 < i < |s| && Parent(i) != c
      ensures Ordered(s, k, i)
    {
      assert Parent(i) != p ==> Ordered(h, k, i);
    }
    forall i: nat | 0 < i < |s| && Parent(i) == c
      ensures k[s[Parent(c)]] <= k[s[i]]
    {
      assert Ordered(h, k, i);
    }
  }

  /** Sifting down from the only place where the order may be broken restores it and only rearranges. */
  lemma {:induction false} SiftDownRestores(h: seq<int>, k: Keys, p: nat)
    requires Keyed(h, k) && p < |h| && HeapButDown(h, k, p)
    ensures Heap(SiftDown(h, k, p), k)
    ensures multiset(SiftDown(h, k, p)) == multiset(h)
    ensures Distinct(h) ==> Distinct(SiftDown(h, k, p))
    decreases |h| - p
  {
    var c := Smallest(h, k, p);
    if c != p {
      SwapDownStep(h, k, p, c);
      SwapPermutes(h, p, c);
      SiftDownRestores(Swap(h, p, c), k, c);
    }
  }

  // ---------- which elements are moved ----------

  /** The elements on the path have moved up one place each, h[p] to its end, and all others have stayed. */
  ghost predicate MovedAlong(h: seq<int>, r: seq<int>, p: nat, path: seq<nat>)
  {
    && path != [] && path[0] == p && |r| == |h|
    && (forall i :: 0 <= i < |path| ==> path[i] < |h|)
    && (forall i :: 0 <= i < |path| - 1 ==> r[path[i]] == h[path[i + 1]]) && r[path[|path| - 1]] == h[p]
    && (forall j: nat :: j < |h| && j !in path ==> r[j] == h[j])
  }

  /**
   * c is a child of q with a key below d, and below that of its sibling, to which the left child need only be equal.
   */
  ghost predicate GoesDown(h: seq<int>, k: Keys, q: nat, c: nat, d: int)
    requires Keyed(h, k)
  {
    && q < c < |h| && k[h[c]] < d
    && ((c == 2 * q + 1 && (c + 1 < |h| ==> k[h[c]] <= k[h[c + 1]])) || (c == 2 * q + 2 && k[h[c]] < k[h[c - 1]]))
  }

  /** The parent of q has no key above d. */
  ghost predicate TopsAt(h: seq<int>, k: Keys, q: nat, d: int)
    requires Keyed(h, k)
  {
    q < |h| && (q > 0 ==> k[h[Parent(q)]] <= d)
  }

  /** No child of q has a key below d. */
  ghost predicate StopsAt(h: seq<int>, k: Keys, q: nat, d: int)
    requires Keyed(h, k)
  {
    (2 * q + 1 < |h| ==> d <= k[h[2 * q + 1]]) && (2 * q + 2 < |h| ==> d <= k[h[2 * q + 2]])
  }

  /** From p the path goes down to nearer children, left ones first, as long as they are nearer than h[p]. */
  ghost predicate WayDown(h: seq<int>, k: Keys, p: nat, path: seq<nat>)
    requires Keyed(h, k) && p < |h|
  {
    && path != [] && path[0] == p
    && (forall i: nat {:trigger path[i]} :: i + 1 < |path| ==> GoesDown(h, k, path[i], path[i + 1], k[h[p]]))
    && StopsAt(h, k, path[|path| - 1], k[h[p]])
  }

  /** c is the parent of q, with a key above d. */
  ghost predicate GoesUp(h: seq<int>, k: Keys, q: nat, c: nat, d: int)
    requires Keyed(h, k)
  {
    q > 0 && c == Parent(q) && c < |h| && d < k[h[c]]
  }

  /** From p the path goes up to the parents as long as they are farther away than h[p]. */
  ghost predicate WayUp(h: seq<int>, k: Keys, p: nat, path: seq<nat>)
    requires Keyed(h, k) && p < |h|
  {
    && path != [] && path[0] == p
    && (forall i: nat {:trigger path[i]} :: i + 1 < |path| ==> GoesUp(h, k, path[i], path[i + 1], k[h[p]]))
    && TopsAt(h, k, path[|path| - 1], k[h[p]])
  }

  /** All places on the path but the first lie behind p. */
  ghost predicate Below(p: nat, path: seq<nat>) { forall i :: 1 <= i < |path| ==> path[i] > p }

  lemma MovedOneDown(h: seq<int>, r: seq<int>, p: nat, c: nat, rest: seq<nat>)
    requires p < c < |h| && MovedAlong(Swap(h, p, c), r, c, rest) && Below(c, rest)
    ensures MovedAlong(h, r, p, [p] + rest) && Below(p, [p] + rest)
  {
    var path := [p] + rest;
    assert p !in rest;
    forall i | 0 <= i < |path| - 1
      ensures r[path[i]] == h[path[i + 1]]
    {
      assert i > 0 ==> r[rest[i - 1]] == Swap(h, p, c)[rest[i]];
    }
    forall j: nat | j < |h| && j !in path
      ensures r[j] == h[j]
    {
      assert rest[0] in rest;
    }
  }

  lemma WayOneDown(h: seq<int>, k: Keys, p: nat, c: nat, rest: seq<nat>)
    requires Keyed(h, k) && p < c < |h| && GoesDown(h, k, p, c, k[h[p]]) && Keyed(Swap(h, p, c), k)
    requires WayDown(Swap(h, p, c), k, c, rest) && Below(c, rest)
    ensures WayDown(h, k, p, [p] + rest)
  {
    var path, s := [p] + rest, Swap(h, p, c);
    forall i: nat | i + 1 < |path|
      ensures GoesDown(h, k, path[i], path[i + 1], k[h[p]])
    {
      assert i > 0 ==> GoesDown(s, k, rest[i - 1], rest[i], k[s[c]]) && rest[i - 1] >= c;
    }
    assert rest[|rest| - 1] >= c;
  }

  /** The child to swap with is the one the way goes on to. */
  lemma SmallestIsNext(h: seq<int>, k: Keys, p: nat)
    requires Keyed(h, k) && p < |h|
    ensures var c := Smallest(h, k, p); if c == p then StopsAt(h, k, p, k[h[p]]) else GoesDown(h, k, p, c, k[h[p]])
  {
  }

  /** Sifting down moves the elements along that way. */
  lemma {:induction false} SiftDownMoves(h: seq<int>, k: Keys, p: nat) returns (path: seq<nat>)
    requires Keyed(h, k) && p < |h|
    ensures WayDown(h, k, p, path) && MovedAlong(h, SiftDown(h, k, p), p, path) && Below(p, path)
    decreases |h| - p
  {
    var c := Smallest(h, k, p);
    SmallestIsNext(h, k, p);
    if c == p {
      path := [p];
    } else {
      SwapKeyed(h, k, p, c);
      var rest := SiftDownMoves(Swap(h, p, c), k, c);
      MovedOneDown(h, SiftDown(h, k, p), p, c, rest);
      WayOneDown(h, k, p, c, rest);
      path := [p] + rest;
    }
  }

  /** All places on the path but the first lie in front of p. */
  ghost predicate Above(p: nat, path: seq<nat>) { forall i :: 1 <= i < |path| ==> path[i] < p }

  lemma MovedOneUp(h: seq<int>, r: seq<int>, p: nat, rest: seq<nat>)
    requires 0 < p < |h| && MovedAlong(Swap(h, p, Parent(p)), r, Parent(p), rest) && Above(Parent(p), rest)
    ensures MovedAlong(h, r, p, [p] + rest) && Above(p, [p] + rest)
  {
    var path, q := [p] + rest, Parent(p);
    assert p !in rest;
    forall i | 0 <= i < |path| - 1
      ensures r[path[i]] == h[path[i + 1]]
    {
      assert i > 0 ==> r[rest[i - 1]] == Swap(h, p, q)[rest[i]];
    }
    forall j: nat | j < |h| && j !in path
      ensures r[j] == h[j]
    {
      assert rest[0] in rest;
    }
  }

  lemma WayOneUp(h: seq<int>, k: Keys, p: nat, rest: seq<nat>)
    requires Keyed(h, k) && 0 < p < |h| && k[h[p]] < k[h[Parent(p)]] && Keyed(Swap(h, p, Parent(p)), k)
    requires WayUp(Swap(h, p, Parent(p)), k, Parent(p), rest) && Above(Parent(p), rest)
    ensures WayUp(h, k, p, [p] + rest)
  {
    var path, s := [p] + rest, Swap(h, p, Parent(p));
    forall i: nat | i + 1 < |path|
      ensures GoesUp(h, k, path[i], path[i + 1], k[h[p]])
    {
      assert i > 0 ==> GoesUp(s, k, rest[i - 1], rest[i], k[s[Parent(p)]]) && rest[i] < Parent(p);
    }
    assert rest[|rest| - 1] <= Parent(p);
  }

  /** Sifting up moves the elements along the way up. */
  lemma {:induction false} SiftUpMoves(h: seq<int>, k: Keys, p: nat) returns (path: seq<nat>)
    requires Keyed(h, k) && p < |h|
    ensures WayUp(h, k, p, path) && MovedAlong(h, SiftUp(h, k, p), p, path) && Above(p, path)
    decreases p
  {
    if p > 0 && k[h[p]] < k[h[Parent(p)]] {
      SwapKeyed(h, k, p, Parent(p));
      var rest := SiftUpMoves(Swap(h, p, Parent(p)), k, Parent(p));
      MovedOneUp(h, SiftUp(h, k, p), p, rest);
      WayOneUp(h, k, p, rest);
      path := [p] + rest;
    } else {
      path := [p];
    }
  }

  /** In a heap the root has a least key. */
  lemma {:induction false} RootIsLeast(h: seq<int>, k: Keys, i: nat)
    requires Keyed(h, k) && Heap(h, k) && i < |h|
    ensures k[h[0]] <= k[h[i]]
  {
    if i > 0 {
      assert Ordered(h, k, i);
      RootIsLeast(h, k, Parent(i));
    }
  }

  /** The heap without its root, whose last element has taken the root's place. */
  function DropRoot(h: seq<int>): (r: seq<int>)
    requires |h| > 1
    ensures |r| == |h| - 1 && r[0] == h[|h| - 1] && forall i :: 0 < i < |r| ==> r[i] == h[i]
  {
    h[..|h| - 1][0 := h[|h| - 1]]
  }

  lemma DropRootKeepsOrder(h: seq<int>, k: Keys)
    requires |h| > 1 && Keyed(h, k) && Heap(h, k) && Distinct(h)
    ensures Keyed(DropRoot(h), k) && HeapButDown(DropRoot(h), k, 0) && Distinct(DropRoot(h))
  {
    var d := DropRoot(h);
    forall i: nat | 0 < i < |d| && Parent(i) != 0
      ensures Ordered(d, k, i)
    {
      assert Ordered(h, k, i);
    }
  }

  lemma DropRootElements(h: seq<int>)
    requires |h| > 1 && Distinct(h)
    ensures h[0] !in DropRoot(h)
    ensures forall x :: x in h && x != h[0] ==> x in DropRoot(h)
  {
    var d := DropRoot(h);
    forall x | x in h && x != h[0]
      ensures x in d
    {
      var i :| 0 <= i < |h| && h[i] == x;
      assert d[if i == |h| - 1 then 0 else i] == x;
    }
  }

  lemma SameElements(a: seq<int>, b: seq<int>)
    requires multiset(a) == multiset(b)
    ensures forall x :: x in a <==> x in b
  {
    assert forall x :: x in a <==> x in multiset(a);
  }

  lemma AppendKeepsOrder(h: seq<int>, k: Keys, x: int, d: int)
    requires Keyed(h, k) && Heap(h, k) && x !in k
    ensures Keyed(h + [x], k[x := d]) && HeapButUp(h + [x], k[x := d], |h|)
  {
    var g, k' := h + [x], k[x := d];
    forall i: nat | 0 < i < |g| && i != |h|
      ensures Ordered(g, k', i)
    {
      assert Ordered(h, k, i);
    }
  }

  lemma AppendSifts(h: seq<int>, k: Keys, x: int, d: int)
    requires Keyed(h, k) && Heap(h, k) && x !in k && AllListed(h, k)
    ensures Keyed(h + [x], k[x := d])
    ensures var r := SiftUp(h + [x], k[x := d], |h|); Heap(r, k[x := d]) && AllListed(r, k[x := d])
  {
    AppendKeepsOrder(h, k, x, d);
    SiftUpRestores(h + [x], k[x := d], |h|);
    var r := SiftUp(h + [x], k[x := d], |h|);
    SameElements(r, h + [x]);
    forall y | y in k[x := d]
      ensures Listed(r, y)
    {
      assert y in k ==> Listed(h, y);
    }
  }

  /** Lowering the key at position p leaves only the order towards its parent in doubt. */
  lemma LowerKey(h: seq<int>, k: Keys, p: nat, d: int)
    requires Keyed(h, k) && Heap(h, k) && Distinct(h) && p < |h| && d <= k[h[p]]
    ensures Keyed(h, k[h[p] := d]) && HeapButUp(h, k[h[p] := d], p)
  {
    var k' := k[h[p] := d];
    forall i: nat | 0 < i < |h| && i != p
      ensures Ordered(h, k', i)
    {
      assert Ordered(h, k, i);
    }
    forall i: nat | p > 0 && 0 < i < |h| && Parent(i) == p
      ensures k'[h[Parent(p)]] <= k'[h[i]]
    {
      assert Ordered(h, k, i) && Ordered(h, k, p);
    }
  }

  lemma RestrictKeys(h: seq<int>, k: Keys, x: int)
    requires Keyed(h, k) && Heap(h, k) && x !in h
    ensures Keyed(h, k - {x}) && Heap(h, k - {x})
  {
    forall i: nat | 0 < i < |h|
      ensures Keyed(h, k - {x}) && Ordered(h, k - {x}, i)
    {
      assert Ordered(h, k, i);
    }
  }

  lemma SwapElements(h: seq<int>, i: nat, j: nat)
    requires i < |h| && j < |h|
    ensures forall x :: x in Swap(h, i, j) <==> x in h
  {
    SwapPermutes(h, i, j);
    SameElements(Swap(h, i, j), h);
  }

  /** A distance d for id is not larger than that of any child of its place. */
  ghost predicate BelowChildren(h: seq<int>, k: Keys, id: int, d: int)
    requires Keyed(h, k)
  {
    forall i: nat {:trigger Parent(i)} :: 0 < i < |h| && h[Parent(i)] == id ==> d <= k[h[i]]
  }

  /**
   * Raising a key makes sifting up do nothing, and leaves a heap exactly if the key stays below those of the children.
   */
  lemma RaiseKey(h: seq<int>, k: Keys, p: nat, d: int)
    requires Keyed(h, k) && Heap(h, k) && Distinct(h) && p < |h| && d >= k[h[p]]
    ensures Keyed(h, k[h[p] := d]) && SiftUp(h, k[h[p] := d], p) == h
    ensures Heap(h, k[h[p] := d]) <==> BelowChildren(h, k, h[p], d)
  {
    var k' := k[h[p] := d];
    assert p > 0 ==> Ordered(h, k, p);
    if BelowChildren(h, k, h[p], d) {
      forall i: nat | 0 < i < |h|
        ensures Ordered(h, k', i)
      {
        assert Ordered(h, k, i);
      }
    }
    if Heap(h, k') {
      forall i: nat | 0 < i < |h| && h[Parent(i)] == h[p]
        ensures d <= k[h[i]]
      {
        assert Ordered(h, k', i);
      }
    }
  }

  /** A smaller key is below those of the children. */
  lemma LowerIsBelow(h: seq<int>, k: Keys, id: int, d: int)
    requires Keyed(h, k) && Heap(h, k) && (id in k ==> d <= k[id])
    ensures BelowChildren(h, k, id, d)
  {
    forall i: nat | 0 < i < |h| && h[Parent(i)] == id
      ensures d <= k[h[i]]
    {
      assert Ordered(h, k, i);
    }
  }

  lemma LowerKeySifts(h: seq<int>, k: Keys, p: nat, d: int)
    requires Keyed(h, k) && Heap(h, k) && Distinct(h) && p < |h| && d <= k[h[p]] && AllListed(h, k)
    ensures Keyed(h, k[h[p] := d])
    ensures var r := SiftUp(h, k[h[p] := d], p); Heap(r, k[h[p] := d]) && AllListed(r, k[h[p] := d])
  {
    LowerKey(h, k, p, d);
    SiftUpRestores(h, k[h[p] := d], p);
    var r := SiftUp(h, k[h[p] := d], p);
    SameElements(r, h);
    forall y | y in k[h[p] := d]
      ensures Listed(r, y)
    {
      assert y in k ==> Listed(h, y);
    }
  }

  /**
   * A new key, lower or higher, and sifting up: the outcome is a heap exactly if the key is below those of the
   * children.
   */
  lemma ChangeKeySifts(h: seq<int>, k: Keys, p: nat, d: int)
    requires Keyed(h, k) && Heap(h, k) && Distinct(h) && p < |h| && AllListed(h, k)
    ensures Keyed(h, k[h[p] := d])
    ensures var r := SiftUp(h, k[h[p] := d], p);
            AllListed(r, k[h[p] := d]) && (Heap(r, k[h[p] := d]) <==> BelowChildren(h, k, h[p], d))
  {
    if d <= k[h[p]] {
      LowerKeySifts(h, k, p, d);
      LowerIsBelow(h, k, h[p], d);
    } else {
      RaiseKey(h, k, p, d);
      forall y | y in k[h[p] := d]
        ensures Listed(h, y)
      {
        assert y in k ==> Listed(h, y);
      }
    }
  }

  lemma DropRootSifts(h: seq<int>, k: Keys)
    requires |h| > 1 && Keyed(h, k) && Heap(h, k) && Distinct(h) && AllListed(h, k)
    ensures Keyed(DropRoot(h), k)
    ensures var r := SiftDown(DropRoot(h), k, 0); Heap(r, k) && h[0] !in r && AllListed(r, k - {h[0]})
  {
    DropRootKeepsOrder(h, k);
    DropRootElements(h);
    SiftDownRestores(DropRoot(h), k, 0);
    var r := SiftDown(DropRoot(h), k, 0);
    SameElements(r, DropRoot(h));
    forall y | y in k - {h[0]}
      ensures Listed(r, y)
    {
      assert Listed(h, y);
    }
  }
}
