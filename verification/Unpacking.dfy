/** Taking shortcuts apart, on values: the original edges behind a chain of edges, and the route they make. */
module Unpacking {
  import opened Graphs
  import opened Sequences
  import opened EdgeStores
  import opened Routes

  ghost predicate InTable(store: seq<Edge>, ids: seq<nat>) { forall i :: 0 <= i < |ids| ==> ids[i] < |store| }

  /** The edges behind a list of ids. */
  ghost function EdgesOf(store: seq<Edge>, ids: seq<nat>): (r: seq<Edge>)
    requires InTable(store, ids)
    ensures |r| == |ids|
  {
    seq(|ids|, i requires 0 <= i < |ids| => store[ids[i]])
  }

  /** The ids lead, edge by edge, from s to t. */
  ghost predicate Chain(store: seq<Edge>, s: nat, ids: seq<nat>, t: nat)
    decreases |ids|
  {
    if ids == [] then s == t
    else ids[0] < |store| && store[ids[0]].src == s && Chain(store, store[ids[0]].dst, ids[1..], t)
  }

  ghost function Total(store: seq<Edge>, ids: seq<nat>): nat
    decreases |ids|
  {
    if ids == [] then 0 else (if ids[0] < |store| then store[ids[0]].len else 0) + Total(store, ids[1..])
  }

  lemma {:induction false} ChainAppend(store: seq<Edge>, s: nat, a: seq<nat>, x: nat, b: seq<nat>, t: nat)
    requires Chain(store, s, a, x) && Chain(store, x, b, t)
    ensures Chain(store, s, a + b, t) && Total(store, a + b) == Total(store, a) + Total(store, b)
    decreases |a|
  {
    if a == [] {
      assert a + b == b;
    } else {
      assert (a + b)[1..] == a[1..] + b;
      ChainAppend(store, store[a[0]].dst, a[1..], x, b, t);
    }
  }

  /** One more edge at the end of a chain. */
  lemma ChainOneMore(store: seq<Edge>, s: nat, ids: seq<nat>, id: nat)
    requires id < |store| && Chain(store, s, ids, store[id].src)
    ensures Chain(store, s, ids + [id], store[id].dst) && Total(store, ids + [id]) == Total(store, ids) + store[id].len
  {
    assert [id][1..] == [];
    ChainAppend(store, s, ids, store[id].src, [id], store[id].dst);
  }

  /** Cutting a chain behind its first part. */
  lemma {:induction false} ChainSplit(store: seq<Edge>, s: nat, a: seq<nat>, b: seq<nat>, t: nat) returns (x: nat)
    requires Chain(store, s, a + b, t)
    ensures Chain(store, s, a, x) && Chain(store, x, b, t)
    decreases |a|
  {
    if a == [] {
      x := s;
      assert a + b == b;
    } else {
      assert (a + b)[1..] == a[1..] + b;
      x := ChainSplit(store, store[a[0]].dst, a[1..], b, t);
    }
  }

  // ---------- unpacking ----------

  /** The original edges behind the edge id, in order. */
  ghost function Unpack(store: seq<Edge>, parts: seq<nat>, originals: nat, id: nat): seq<nat>
    requires Composed(store, parts, originals) && id < |store|
    decreases id
  {
    if id < originals then [id]
    else
      assert ComposedAt(store, parts, originals, id);
      Unpack(store, parts, originals, parts[2 * (id - originals) + 1])
      + Unpack(store, parts, originals, parts[2 * (id - originals)])
  }

  /** How many edges, shortcuts included, are met while unpacking. */
  ghost function Size(store: seq<Edge>, parts: seq<nat>, originals: nat, id: nat): nat
    requires Composed(store, parts, originals) && id < |store|
    decreases id
  {
    if id < originals then 1
    else
      assert ComposedAt(store, parts, originals, id);
      1 + Size(store, parts, originals, parts[2 * (id - originals) + 1])
      + Size(store, parts, originals, parts[2 * (id - originals)])
  }

  /** An unpacked edge is a chain of original edges of the same length and with the same ends. */
  lemma {:induction false} UnpackIsChain(store: seq<Edge>, parts: seq<nat>, originals: nat, id: nat)
    requires Composed(store, parts, originals) && id < |store|
    ensures var p := Unpack(store, parts, originals, id);
            && Chain(store, store[id].src, p, store[id].dst) && Total(store, p) == store[id].len
            && (forall i :: 0 <= i < |p| ==> p[i] < originals)
    decreases id
  {
    if id < originals {
      assert [id][1..] == [];
    } else {
      assert ComposedAt(store, parts, originals, id);
      var second, first := parts[2 * (id - originals)], parts[2 * (id - originals) + 1];
      UnpackIsChain(store, parts, originals, first);
      UnpackIsChain(store, parts, originals, second);
      ChainAppend(store, store[id].src, Unpack(store, parts, originals, first), store[first].dst,
                  Unpack(store, parts, originals, second), store[id].dst);
    }
  }

  /** The original edges behind a list of edges. */
  ghost function UnpackAll(store: seq<Edge>, parts: seq<nat>, originals: nat, ids: seq<nat>): seq<nat>
    requires Composed(store, parts, originals) && InTable(store, ids)
  {
    if ids == [] then []
    else UnpackAll(store, parts, originals, ids[..|ids| - 1]) + Unpack(store, parts, originals, ids[|ids| - 1])
  }

  lemma {:induction false} UnpackAllIsChain(store: seq<Edge>, parts: seq<nat>, originals: nat, s: nat, ids: seq<nat>,
                                            t: nat)
    requires Composed(store, parts, originals) && InTable(store, ids) && Chain(store, s, ids, t)
    ensures var p := UnpackAll(store, parts, originals, ids);
            && Chain(store, s, p, t) && Total(store, p) == Total(store, ids)
            && (forall i :: 0 <= i < |p| ==> p[i] < originals)
    decreases |ids|
  {
    if ids != [] {
      var n := |ids| - 1;
      assert ids == ids[..n] + [ids[n]];
      var x := ChainSplit(store, s, ids[..n], [ids[n]], t);
      assert [ids[n]][1..] == [];
      ChainAppend(store, s, ids[..n], x, [ids[n]], t);
      UnpackAllIsChain(store, parts, originals, s, ids[..n], x);
      UnpackIsChain(store, parts, originals, ids[n]);
      ChainAppend(store, s, UnpackAll(store, parts, originals, ids[..n]), x,
                  Unpack(store, parts, originals, ids[n]), t);
    }
  }

  // ---------- reversing ----------

  ghost function Reversed(s: seq<nat>): (r: seq<nat>)
    ensures |r| == |s|
  {
    if s == [] then [] else Reversed(s[1..]) + [s[0]]
  }

  lemma {:induction false} ReversedConcat(a: seq<nat>, b: seq<nat>)
    ensures Reversed(a + b) == Reversed(b) + Reversed(a)
    decreases |a|
  {
    if a == [] {
      assert a + b == b;
    } else {
      assert (a + b)[1..] == a[1..] + b;
      ReversedConcat(a[1..], b);
    }
  }

  lemma {:induction false} ReversedMembers(s: seq<nat>, n: nat)
    requires forall i :: 0 <= i < |s| ==> s[i] < n
    ensures forall i :: 0 <= i < |s| ==> Reversed(s)[i] < n
  {
    if s != [] {
      ReversedMembers(s[1..], n);
    }
  }

  // ---------- the stack of edges still to be unpacked ----------

  /** The original edges behind the edge id, in order or, if mirrored, in reverse. */
  ghost function Expansion(store: seq<Edge>, parts: seq<nat>, originals: nat, id: nat, mirrored: bool): seq<nat>
    requires Composed(store, parts, originals) && id < |store|
  {
    var p := Unpack(store, parts, originals, id);
    if mirrored then Reversed(p) else p
  }

  /** What the stack still has to give, its top end first. */
  ghost function Pending(store: seq<Edge>, parts: seq<nat>, originals: nat, stack: seq<nat>, mirrored: bool): seq<nat>
    requires Composed(store, parts, originals) && InTable(store, stack)
  {
    if stack == [] then []
    else
      var n := |stack| - 1;
      Expansion(store, parts, originals, stack[n], mirrored) + Pending(store, parts, originals, stack[..n], mirrored)
  }

  ghost function Work(store: seq<Edge>, parts: seq<nat>, originals: nat, stack: seq<nat>): nat
    requires Composed(store, parts, originals) && InTable(store, stack)
  {
    if stack == [] then 0
    else
      var n := |stack| - 1;
      Size(store, parts, originals, stack[n]) + Work(store, parts, originals, stack[..n])
  }

  /** What the two topmost edges of a stack give. */
  lemma PendingTwo(store: seq<Edge>, parts: seq<nat>, originals: nat, rest: seq<nat>, low: nat, top: nat,
                   mirrored: bool)
    requires Composed(store, parts, originals) && InTable(store, rest) && low < |store| && top < |store|
    ensures InTable(store, rest + [low, top])
    ensures Pending(store, parts, originals, rest + [low, top], mirrored) ==
            Expansion(store, parts, originals, top, mirrored) + Expansion(store, parts, originals, low, mirrored)
            + Pending(store, parts, originals, rest, mirrored)
    ensures Work(store, parts, originals, rest + [low, top]) ==
            Size(store, parts, originals, top) + Size(store, parts, originals, low)
            + Work(store, parts, originals, rest)
  {
    var stack := rest + [low, top];
    assert stack[..|stack| - 1] == rest + [low] && (rest + [low])[..|rest|] == rest;
    Regroup(Expansion(store, parts, originals, top, mirrored), Expansion(store, parts, originals, low, mirrored),
            Pending(store, parts, originals, rest, mirrored));
  }

  /** Replacing the shortcut on top by its two parts, the one to be given first on top. */
  lemma PendingSplit(store: seq<Edge>, parts: seq<nat>, originals: nat, rest: seq<nat>, id: nat, mirrored: bool)
    requires Composed(store, parts, originals) && InTable(store, rest) && originals <= id < |store|
    ensures ComposedAt(store, parts, originals, id)
    ensures var second, first := parts[2 * (id - originals)], parts[2 * (id - originals) + 1];
            var stack := rest + (if mirrored then [first, second] else [second, first]);
            && InTable(store, stack)
            && Pending(store, parts, originals, stack, mirrored) ==
               Pending(store, parts, originals, rest + [id], mirrored)
            && Work(store, parts, originals, stack) < Work(store, parts, originals, rest + [id])
  {
    assert ComposedAt(store, parts, originals, id);
    var second, first := parts[2 * (id - originals)], parts[2 * (id - originals) + 1];
    assert (rest + [id])[..|rest|] == rest;
    ReversedConcat(Unpack(store, parts, originals, first), Unpack(store, parts, originals, second));
    if mirrored {
      PendingTwo(store, parts, originals, rest, first, second, mirrored);
    } else {
      PendingTwo(store, parts, originals, rest, second, first, mirrored);
    }
  }

  /** An original edge on top is given at once. */
  lemma PendingTop(store: seq<Edge>, parts: seq<nat>, originals: nat, rest: seq<nat>, id: nat, mirrored: bool)
    requires Composed(store, parts, originals) && InTable(store, rest) && id < originals
    ensures Pending(store, parts, originals, rest + [id], mirrored) ==
            [id] + Pending(store, parts, originals, rest, mirrored)
    ensures Work(store, parts, originals, rest) < Work(store, parts, originals, rest + [id])
  {
    assert (rest + [id])[..|rest|] == rest;
    assert Reversed([id]) == [id];
  }

  /** Of the expansion all, given has been given, and the stack holds the rest. */
  ghost predicate Unpacked(store: seq<Edge>, parts: seq<nat>, originals: nat, stack: seq<nat>, mirrored: bool,
                           given: seq<nat>, all: seq<nat>)
  {
    && Composed(store, parts, originals) && InTable(store, stack) && InTable(store, given)
    && given + Pending(store, parts, originals, stack, mirrored) == all
  }

  lemma UnpackedStart(store: seq<Edge>, parts: seq<nat>, originals: nat, id: nat, mirrored: bool)
    requires Composed(store, parts, originals) && id < |store|
    ensures Unpacked(store, parts, originals, [id], mirrored, [], Expansion(store, parts, originals, id, mirrored))
  {
    assert [id][..0] == [];
  }

  /** With nothing on the stack everything has been given. */
  lemma UnpackedEnd(store: seq<Edge>, parts: seq<nat>, originals: nat, mirrored: bool, given: seq<nat>, all: seq<nat>)
    requires Unpacked(store, parts, originals, [], mirrored, given, all)
    ensures given == all && InTable(store, given)
  {
  }

  /** The shortcut on top is replaced by its parts. */
  lemma UnpackedSplit(store: seq<Edge>, parts: seq<nat>, originals: nat, rest: seq<nat>, id: nat, mirrored: bool,
                      given: seq<nat>, all: seq<nat>)
    requires Unpacked(store, parts, originals, rest + [id], mirrored, given, all) && id >= originals
    requires InTable(store, rest)
    ensures 2 * (id - originals) + 1 < |parts| && id < |store|
    ensures var second, first := parts[2 * (id - originals)], parts[2 * (id - originals) + 1];
            var stack := rest + (if mirrored then [first, second] else [second, first]);
            && Unpacked(store, parts, originals, stack, mirrored, given, all)
            && Work(store, parts, originals, stack) < Work(store, parts, originals, rest + [id])
  {
    assert (rest + [id])[|rest|] == id;
    assert ComposedAt(store, parts, originals, id);
    PendingSplit(store, parts, originals, rest, id, mirrored);
  }

  /** The ends of the edges. */
  ghost function Ends(store: seq<Edge>, ids: seq<nat>): (r: seq<nat>)
    requires InTable(store, ids)
    ensures |r| == |ids|
  {
    seq(|ids|, i requires 0 <= i < |ids| => store[ids[i]].dst)
  }

  lemma EndsConcat(store: seq<Edge>, a: seq<nat>, b: seq<nat>)
    requires InTable(store, a) && InTable(store, b)
    ensures Ends(store, a + b) == Ends(store, a) + Ends(store, b)
  {
  }

  /** The original edge on top is given. */
  lemma UnpackedGive(store: seq<Edge>, parts: seq<nat>, originals: nat, rest: seq<nat>, id: nat, mirrored: bool,
                     given: seq<nat>, all: seq<nat>)
    requires Unpacked(store, parts, originals, rest + [id], mirrored, given, all) && id < originals
    requires InTable(store, rest)
    ensures id < |store| && Unpacked(store, parts, originals, rest, mirrored, given + [id], all)
    ensures Work(store, parts, originals, rest) < Work(store, parts, originals, rest + [id])
    ensures Ends(store, given + [id]) == Ends(store, given) + [store[id].dst]
  {
    assert (rest + [id])[|rest|] == id;
    PendingTop(store, parts, originals, rest, id, mirrored);
    Regroup(given, [id], Pending(store, parts, originals, rest, mirrored));
    EndsConcat(store, given, [id]);
  }

  // ---------- the route ----------

  lemma {:induction false} UnpackAllInTable(store: seq<Edge>, parts: seq<nat>, originals: nat, ids: seq<nat>)
    requires Composed(store, parts, originals) && InTable(store, ids)
    ensures InTable(store, UnpackAll(store, parts, originals, ids))
    decreases |ids|
  {
    if ids != [] {
      UnpackAllInTable(store, parts, originals, ids[..|ids| - 1]);
      UnpackIsChain(store, parts, originals, ids[|ids| - 1]);
    }
  }

  /** The ends of all original edges behind the first i edges of the list. */
  ghost function ForthEnds(store: seq<Edge>, parts: seq<nat>, originals: nat, ids: seq<nat>, i: nat): seq<nat>
    requires Composed(store, parts, originals) && InTable(store, ids) && i <= |ids|
  {
    UnpackAllInTable(store, parts, originals, ids[..i]);
    Ends(store, UnpackAll(store, parts, originals, ids[..i]))
  }

  /** The ends of all original edges behind the edges from position i on, last first. */
  ghost function BackEnds(store: seq<Edge>, parts: seq<nat>, originals: nat, ids: seq<nat>, i: nat): seq<nat>
    requires Composed(store, parts, originals) && InTable(store, ids) && i <= |ids|
  {
    UnpackAllInTable(store, parts, originals, ids[i..]);
    ReversedMembers(UnpackAll(store, parts, originals, ids[i..]), |store|);
    Ends(store, Reversed(UnpackAll(store, parts, originals, ids[i..])))
  }

  lemma {:induction false} UnpackAllCons(store: seq<Edge>, parts: seq<nat>, originals: nat, id: nat, ids: seq<nat>)
    requires Composed(store, parts, originals) && InTable(store, ids) && id < |store|
    ensures UnpackAll(store, parts, originals, [id] + ids) ==
            Unpack(store, parts, originals, id) + UnpackAll(store, parts, originals, ids)
    decreases |ids|
  {
    var n := |ids| - 1;
    if ids == [] {
      assert [id] + ids == [id] && [id][..0] == [];
    } else {
      assert ([id] + ids)[..|ids|] == [id] + ids[..n];
      UnpackAllCons(store, parts, originals, id, ids[..n]);
      Regroup(Unpack(store, parts, originals, id), UnpackAll(store, parts, originals, ids[..n]),
              Unpack(store, parts, originals, ids[n]));
      assert ([id] + ids)[|ids|] == ids[n];
    }
  }

  lemma ForthStep(store: seq<Edge>, parts: seq<nat>, originals: nat, ids: seq<nat>, i: nat)
    requires Composed(store, parts, originals) && InTable(store, ids) && i < |ids|
    ensures InTable(store, Expansion(store, parts, originals, ids[i], false))
    ensures ForthEnds(store, parts, originals, ids, i + 1) ==
            ForthEnds(store, parts, originals, ids, i) + Ends(store, Expansion(store, parts, originals, ids[i], false))
  {
    UnpackIsChain(store, parts, originals, ids[i]);
    UnpackAllInTable(store, parts, originals, ids[..i]);
    assert ids[..i + 1][..i] == ids[..i];
    EndsConcat(store, UnpackAll(store, parts, originals, ids[..i]), Unpack(store, parts, originals, ids[i]));
  }

  lemma BackStep(store: seq<Edge>, parts: seq<nat>, originals: nat, ids: seq<nat>, i: nat)
    requires Composed(store, parts, originals) && InTable(store, ids) && i < |ids|
    ensures InTable(store, Expansion(store, parts, originals, ids[i], true))
    ensures BackEnds(store, parts, originals, ids, i) ==
            BackEnds(store, parts, originals, ids, i + 1)
            + Ends(store, Expansion(store, parts, originals, ids[i], true))
  {
    var p, q := Unpack(store, parts, originals, ids[i]), UnpackAll(store, parts, originals, ids[i + 1..]);
    UnpackIsChain(store, parts, originals, ids[i]);
    UnpackAllInTable(store, parts, originals, ids[i + 1..]);
    ReversedMembers(p, |store|);
    ReversedMembers(q, |store|);
    assert ids[i..] == [ids[i]] + ids[i + 1..];
    UnpackAllCons(store, parts, originals, ids[i], ids[i + 1..]);
    ReversedConcat(p, q);
    EndsConcat(store, Reversed(q), Reversed(p));
  }

  /** The edges of the reversed list, each walked the other way. */
  ghost function Back(store: seq<Edge>, ids: seq<nat>): (p: seq<Edge>)
    requires InTable(store, ids)
    ensures |p| == |ids|
  {
    if ids == [] then [] else Back(store, ids[1..]) + [Flip(store[ids[0]])]
  }

  lemma {:induction false} ForthIsWalk(g: Graph, store: seq<Edge>, originals: nat, s: nat, ids: seq<nat>, t: nat)
    requires originals <= |store| && (forall id: nat {:trigger store[id]} :: id < originals ==> store[id] in g)
    requires (forall i :: 0 <= i < |ids| ==> ids[i] < originals) && Chain(store, s, ids, t)
    ensures Walk(g, s, EdgesOf(store, ids), t) && Length(EdgesOf(store, ids)) == Total(store, ids)
    decreases |ids|
  {
    if ids != [] {
      ForthIsWalk(g, store, originals, store[ids[0]].dst, ids[1..], t);
      assert EdgesOf(store, ids)[1..] == EdgesOf(store, ids[1..]);
    }
  }

  lemma {:induction false} BackIsWalk(g: Graph, store: seq<Edge>, originals: nat, s: nat, ids: seq<nat>, t: nat)
    requires Symmetric(g) && originals <= |store|
    requires (forall id: nat {:trigger store[id]} :: id < originals ==> store[id] in g)
    requires (forall i :: 0 <= i < |ids| ==> ids[i] < originals) && Chain(store, s, ids, t)
    ensures Walk(g, t, Back(store, ids), s) && Length(Back(store, ids)) == Total(store, ids)
    decreases |ids|
  {
    if ids != [] {
      var e := store[ids[0]];
      BackIsWalk(g, store, originals, e.dst, ids[1..], t);
      assert [Flip(e)][1..] == [] && Walk(g, s, [], s);
      assert Walk(g, e.dst, [Flip(e)], s) && Length([Flip(e)]) == e.len;
      WalkConcat(g, t, Back(store, ids[1..]), e.dst, [Flip(e)], s);
    }
  }

  lemma {:induction false} NodesOfForth(store: seq<Edge>, s: nat, ids: seq<nat>)
    requires InTable(store, ids)
    ensures NodesOf(s, EdgesOf(store, ids)) == [s] + Ends(store, ids)
  {
    var n := |ids| - 1;
    if ids != [] {
      NodesOfForth(store, s, ids[..n]);
      assert EdgesOf(store, ids)[..n] == EdgesOf(store, ids[..n]);
      assert Ends(store, ids) == Ends(store, ids[..n]) + [store[ids[n]].dst];
    }
  }

  lemma NodesOfAppend(s: nat, p: seq<Edge>, e: Edge)
    ensures NodesOf(s, p + [e]) == NodesOf(s, p) + [e.dst]
  {
    assert (p + [e])[..|p|] == p;
  }

  /** Walking back from t, the nodes are the ends of the reversed list, and then s. */
  lemma {:induction false} NodesOfBack(store: seq<Edge>, s: nat, ids: seq<nat>, t: nat)
    requires InTable(store, ids) && Chain(store, s, ids, t) && InTable(store, Reversed(ids))
    ensures NodesOf(t, Back(store, ids)) == Ends(store, Reversed(ids)) + [s]
    decreases |ids|
  {
    if ids != [] {
      var e := store[ids[0]];
      ReversedMembers(ids[1..], |store|);
      NodesOfBack(store, e.dst, ids[1..], t);
      NodesOfAppend(t, Back(store, ids[1..]), Flip(e));
      assert Ends(store, Reversed(ids)) == Ends(store, Reversed(ids[1..])) + [e.dst];
    }
  }

  lemma {:induction false} NodesOfConcat(s: nat, p: seq<Edge>, x: nat, q: seq<Edge>)
    requires NodesOf(s, p)[|p|] == x
    ensures NodesOf(s, p + q) == NodesOf(s, p)[..|p|] + NodesOf(x, q)
    decreases |q|
  {
    if q == [] {
      assert p + q == p;
    } else {
      var n := |q| - 1;
      NodesOfConcat(s, p, x, q[..n]);
      assert p + q == (p + q[..n]) + [q[n]];
      NodesOfAppend(s, p + q[..n], q[n]);
    }
  }

  /** The nodes of the walk there and back again. */
  /** The nodes of the left half without the hub, the ends of the right half in reverse, and t. */
  ghost function JoinedPath(store: seq<Edge>, s: nat, left: seq<nat>, back: seq<nat>, t: nat): seq<nat>
    requires InTable(store, left) && InTable(store, back)
  {
    ([s] + Ends(store, left))[..|left|] + Ends(store, back) + [t]
  }

  lemma HalvesNodes(store: seq<Edge>, s: nat, left: seq<nat>, hub: nat, right: seq<nat>, t: nat)
    requires InTable(store, left) && InTable(store, right) && InTable(store, Reversed(right))
    requires Chain(store, t, right, hub)
    requires ([s] + Ends(store, left))[|left|] == hub
    ensures NodesOf(s, EdgesOf(store, left) + Back(store, right)) == JoinedPath(store, s, left, Reversed(right), t)
  {
    NodesOfForth(store, s, left);
    NodesOfConcat(s, EdgesOf(store, left), hub, Back(store, right));
    NodesOfBack(store, t, right, hub);
    Regroup(([s] + Ends(store, left))[..|left|], Ends(store, Reversed(right)), [t]);
  }

  lemma {:induction false} ChainEnd(store: seq<Edge>, s: nat, ids: seq<nat>, t: nat)
    requires InTable(store, ids) && Chain(store, s, ids, t)
    ensures ([s] + Ends(store, ids))[|ids|] == t
    decreases |ids|
  {
    if ids != [] {
      ChainEnd(store, store[ids[0]].dst, ids[1..], t);
      assert |ids| > 1 ==> Ends(store, ids)[|ids| - 1] == Ends(store, ids[1..])[|ids| - 2];
    }
  }

  /** Forth to the hub and back from there. */
  lemma HalvesWalk(g: Graph, store: seq<Edge>, originals: nat, s: nat, left: seq<nat>, hub: nat, right: seq<nat>,
                   t: nat)
    requires Symmetric(g) && originals <= |store|
    requires (forall id: nat {:trigger store[id]} :: id < originals ==> store[id] in g)
    requires (forall i :: 0 <= i < |left| ==> left[i] < originals)
    requires (forall i :: 0 <= i < |right| ==> right[i] < originals)
    requires Chain(store, s, left, hub) && Chain(store, t, right, hub)
    ensures Walk(g, s, EdgesOf(store, left) + Back(store, right), t)
    ensures Length(EdgesOf(store, left) + Back(store, right)) == Total(store, left) + Total(store, right)
  {
    ForthIsWalk(g, store, originals, s, left, hub);
    BackIsWalk(g, store, originals, t, right, hub);
    WalkConcat(g, s, EdgesOf(store, left), hub, Back(store, right), t);
  }

  lemma AlongWalk(g: Graph, s: nat, p: seq<Edge>, t: nat, path: seq<nat>, length: nat)
    requires Walk(g, s, p, t) && Length(p) == length && path == NodesOf(s, p)
    ensures PathAlong(g, s, t, path, length)
  {
  }

  /**
   * Left edges lead from s to the hub, right edges from t to the hub. The nodes of the left half without the hub,
   * the ends of the right half in reverse, and t are the nodes of a walk from s to t as long as both halves together.
   */
  lemma HalvesMakeRoute(g: Graph, store: seq<Edge>, originals: nat, s: nat, left: seq<nat>, hub: nat, right: seq<nat>,
                        t: nat)
    requires Symmetric(g) && originals <= |store|
    requires (forall id: nat {:trigger store[id]} :: id < originals ==> store[id] in g)
    requires (forall i :: 0 <= i < |left| ==> left[i] < originals)
    requires (forall i :: 0 <= i < |right| ==> right[i] < originals)
    requires Chain(store, s, left, hub) && Chain(store, t, right, hub) && InTable(store, Reversed(right))
    ensures PathAlong(g, s, t, JoinedPath(store, s, left, Reversed(right), t), Total(store, left) + Total(store, right))
  {
    HalvesWalk(g, store, originals, s, left, hub, right, t);
    ChainEnd(store, s, left, hub);
    HalvesNodes(store, s, left, hub, right, t);
    AlongWalk(g, s, EdgesOf(store, left) + Back(store, right), t,
              JoinedPath(store, s, left, Reversed(right), t), Total(store, left) + Total(store, right));
  }

  /** The path read off the stacks, in terms of all original edges on either side. */
  lemma AllEnds(store: seq<Edge>, parts: seq<nat>, originals: nat, s: nat, left: seq<nat>, right: seq<nat>, t: nat)
    requires Composed(store, parts, originals) && InTable(store, left) && InTable(store, right)
    ensures InTable(store, UnpackAll(store, parts, originals, left))
    ensures InTable(store, Reversed(UnpackAll(store, parts, originals, right)))
    ensures var p, q := UnpackAll(store, parts, originals, left), UnpackAll(store, parts, originals, right);
            var forth := [s] + ForthEnds(store, parts, originals, left, |left|);
            forth[..|forth| - 1] + BackEnds(store, parts, originals, right, 0) + [t] ==
            JoinedPath(store, s, p, Reversed(q), t)
  {
    UnpackAllInTable(store, parts, originals, left);
    UnpackAllInTable(store, parts, originals, right);
    ReversedMembers(UnpackAll(store, parts, originals, right), |store|);
    assert left[..|left|] == left && right[0..] == right;
  }

  /** The route that the router puts together from the edges on the two sides of the hub. */
  lemma SidesMakeRoute(g: Graph, store: seq<Edge>, parts: seq<nat>, originals: nat, s: nat, left: seq<nat>, hub: nat,
                       right: seq<nat>, t: nat)
    requires Symmetric(g) && Composed(store, parts, originals)
    requires forall id: nat {:trigger store[id]} :: id < originals ==> store[id] in g
    requires InTable(store, left) && InTable(store, right) && Chain(store, s, left, hub) && Chain(store, t, right, hub)
    ensures var forth := [s] + ForthEnds(store, parts, originals, left, |left|);
            PathAlong(g, s, t, forth[..|forth| - 1] + BackEnds(store, parts, originals, right, 0) + [t],
                      Total(store, left) + Total(store, right))
  {
    var p, q := UnpackAll(store, parts, originals, left), UnpackAll(store, parts, originals, right);
    UnpackAllIsChain(store, parts, originals, s, left, hub);
    UnpackAllIsChain(store, parts, originals, t, right, hub);
    AllEnds(store, parts, originals, s, left, right, t);
    HalvesMakeRoute(g, store, originals, s, p, hub, q, t);
  }
}
