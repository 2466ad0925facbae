/** Which of the shortcuts found are placed, and in which order. */
module MergeOrders {
  import opened Graphs
  import opened Sequences
  import opened Shortcuts
  import opened Stages

  /** One of the first n shortcuts leads from u to y. */
  ghost predicate HasPair(rs: seq<Shortcut>, n: nat, u: nat, y: nat)
  {
    exists j: nat :: j < n && j < |rs| && rs[j].start == u && rs[j].dest == y
  }

  /** The places of the shortcuts that join a pair for which there was none before, neither in a nor in rs. */
  ghost function NewPlaces(a: Stage, rs: seq<Shortcut>, n: nat): set<nat>
  {
    set j: nat | j < n && j < |rs| && rs[j].start < |a.already| && rs[j].dest !in a.already[rs[j].start] &&
                 !HasPair(rs, j, rs[j].start, rs[j].dest)
  }

  /** From a to b an edge, with its parts, has been appended to the table for each of the shortcuts, in order. */
  ghost predicate PlacedAll(a: Stage, b: Stage, placed: seq<Shortcut>)
  {
    && |b.store| == |a.store| + |placed| && a.store <= b.store
    && (forall k :: 0 <= k < |placed| ==>
          b.store[|a.store| + k] == Edge(placed[k].start, placed[k].dest, placed[k].length))
    && |b.parts| == |a.parts| + 2 * |placed| && a.parts <= b.parts
    && (forall k :: 0 <= k < |placed| ==>
          b.parts[|a.parts| + 2 * k] == placed[k].second && b.parts[|a.parts| + 2 * k + 1] == placed[k].first)
  }

  /** In b the pairs of the first n shortcuts are registered in addition to those of a. */
  ghost predicate Registered(a: Stage, b: Stage, rs: seq<Shortcut>, n: nat)
  {
    && |b.already| == |a.already|
    && (forall u: nat, y: nat {:trigger HasPair(rs, n, u, y)} {:trigger y in b.already[u]} :: u < |a.already| ==>
          (y in b.already[u] <==> y in a.already[u] || HasPair(rs, n, u, y)))
  }

  /** The first n shortcuts have been merged: of those with the same ends, the first one, unless a had one before. */
  ghost predicate MergedInOrder(a: Stage, b: Stage, rs: seq<Shortcut>, n: nat)
  {
    && Registered(a, b, rs, n)
    && (exists placed: seq<Shortcut> :: Keeps(rs, NewPlaces(a, rs, n), placed) && PlacedAll(a, b, placed))
  }

  lemma NoneMerged(a: Stage, rs: seq<Shortcut>)
    ensures MergedInOrder(a, a, rs, 0)
  {
    assert NewPlaces(a, rs, 0) == {};
    KeepsNone(rs);
    assert PlacedAll(a, a, []);
  }

  lemma HasPairNext(rs: seq<Shortcut>, n: nat, u: nat, y: nat)
    requires n < |rs|
    ensures HasPair(rs, n + 1, u, y) <==> HasPair(rs, n, u, y) || (rs[n].start == u && rs[n].dest == y)
  {
    if j: nat :| j < n + 1 && j < |rs| && rs[j].start == u && rs[j].dest == y {
      assert j < n ==> HasPair(rs, n, u, y);
    }
  }

  lemma RegisteredNext(a: Stage, b: Stage, rs: seq<Shortcut>, n: nat, b': Stage)
    requires Registered(a, b, rs, n) && n < |rs| && rs[n].start < |a.already|
    requires b'.already == b.already[rs[n].start := b.already[rs[n].start] + {rs[n].dest}]
    ensures Registered(a, b', rs, n + 1)
  {
    forall u: nat, y: nat | u < |a.already|
      ensures y in b'.already[u] <==> y in a.already[u] || HasPair(rs, n + 1, u, y)
    {
      HasPairNext(rs, n, u, y);
      assert y in b.already[u] <==> y in a.already[u] || HasPair(rs, n, u, y);
    }
  }

  /** The next shortcut is placed exactly if its pair is not registered. */
  lemma NewPlacesNext(a: Stage, b: Stage, rs: seq<Shortcut>, n: nat)
    requires Registered(a, b, rs, n) && n < |rs| && rs[n].start < |a.already|
    ensures NewPlaces(a, rs, n + 1) ==
            if rs[n].dest in b.already[rs[n].start] then NewPlaces(a, rs, n) else NewPlaces(a, rs, n) + {n}
  {
    assert rs[n].dest in b.already[rs[n].start] <==>
      rs[n].dest in a.already[rs[n].start] || HasPair(rs, n, rs[n].start, rs[n].dest);
  }

  lemma PlacedNext(a: Stage, b: Stage, placed: seq<Shortcut>, r: Shortcut)
    requires PlacedAll(a, b, placed) && b.Lists() && r.start < |b.gone|
    ensures PlacedAll(a, Add(b, r), placed + [r])
  {
  }

  /** One more shortcut is placed or skipped. */
  lemma MergeNextInOrder(a: Stage, b: Stage, rs: seq<Shortcut>, n: nat)
    requires MergedInOrder(a, b, rs, n) && n < |rs| && rs[n].start < |a.already| == |b.gone| && b.Lists()
    ensures MergedInOrder(a, if rs[n].dest in b.already[rs[n].start] then b else Add(b, rs[n]), rs, n + 1)
  {
    var placed: seq<Shortcut> :| Keeps(rs, NewPlaces(a, rs, n), placed) && PlacedAll(a, b, placed);
    NewPlacesNext(a, b, rs, n);
    if rs[n].dest in b.already[rs[n].start] {
      assert b.already[rs[n].start] + {rs[n].dest} == b.already[rs[n].start];
      assert b.already == b.already[rs[n].start := b.already[rs[n].start] + {rs[n].dest}];
      RegisteredNext(a, b, rs, n, b);
    } else {
      RegisteredNext(a, b, rs, n, Add(b, rs[n]));
      KeepsNext(rs, NewPlaces(a, rs, n), placed, n);
      PlacedNext(a, b, placed, rs[n]);
    }
  }
}
