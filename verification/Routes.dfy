/** What a router answers, and what makes the answer right. */
module Routes {
  import opened Graphs

  /** A RoutingResult: the nodes of the route and its length, or that there is none. */
  datatype Route = NoRoute | Found(path: seq<nat>, distance: nat)

  /** The nodes a walk from s visits. */
  ghost function NodesOf(s: nat, p: seq<Edge>): (r: seq<nat>)
    ensures |r| == |p| + 1
  {
    if p == [] then [s] else NodesOf(s, p[..|p| - 1]) + [p[|p| - 1].dst]
  }

  /** path lists the nodes of a walk from s to t of the given length. */
  ghost predicate PathAlong(g: Graph, s: nat, t: nat, path: seq<nat>, length: nat)
  {
    exists p :: Walk(g, s, p, t) && Length(p) == length && path == NodesOf(s, p)
  }

  /** No route exactly when there is none; otherwise a path over edges whose length is the distance. */
  ghost predicate ShortestRoute(g: Graph, s: nat, t: nat, r: Route)
  {
    match r
    case NoRoute => !Reach(g, s, t)
    case Found(path, distance) =>
      Reach(g, s, t) && distance == Dist(g, s, t) && PathAlong(g, s, t, path, distance)
  }

  lemma ExtendWalk(g: Graph, s: nat, p: seq<Edge>, u: nat, e: Edge)
    requires Walk(g, s, p, u) && e in g && e.src == u
    ensures Walk(g, s, p + [e], e.dst) && Length(p + [e]) == Length(p) + e.len
    ensures NodesOf(s, p + [e]) == NodesOf(s, p) + [e.dst]
  {
    assert [e][1..] == [] && Walk(g, e.dst, [], e.dst);
    assert Walk(g, u, [e], e.dst) && Length([e]) == e.len;
    WalkConcat(g, s, p, u, [e], e.dst);
    assert (p + [e])[..|p|] == p;
  }

  /** Two right answers to one question agree on existence and length. */
  lemma RoutesAgree(g: Graph, s: nat, t: nat, a: Route, b: Route)
    requires ShortestRoute(g, s, t, a) && ShortestRoute(g, s, t, b)
    ensures a.Found? <==> b.Found?
    ensures a.Found? ==> a.distance == b.distance
  {
  }

  // ---------- a shortest route visits no node twice ----------

  /** The node after i edges. */
  function NodeAt(s: nat, p: seq<Edge>, i: nat): nat
    requires i <= |p|
  {
    if i == 0 then s else p[i - 1].dst
  }

  lemma {:induction false} NodesOfAt(s: nat, p: seq<Edge>, i: nat)
    requires i <= |p|
    ensures NodesOf(s, p)[i] == NodeAt(s, p, i)
  {
    if i < |p| {
      NodesOfAt(s, p[..|p| - 1], i);
    }
  }

  /** A walk can be divided at any of its nodes. */
  lemma {:induction false} WalkSplit(g: Graph, s: nat, p: seq<Edge>, t: nat, i: nat)
    requires Walk(g, s, p, t) && i <= |p|
    ensures Walk(g, s, p[..i], NodeAt(s, p, i)) && Walk(g, NodeAt(s, p, i), p[i..], t)
    ensures Length(p[..i]) + Length(p[i..]) == Length(p)
    decreases i
  {
    if i > 0 {
      WalkSplit(g, p[0].dst, p[1..], t, i - 1);
      assert p[..i][1..] == p[1..][..i - 1] && p[1..][i - 1..] == p[i..];
    } else {
      assert p[0..] == p;
    }
  }

  /** Without its first m edges a walk is shorter. */
  lemma RestIsShorter(g: Graph, s: nat, p: seq<Edge>, t: nat, m: nat)
    requires Positive(g) && Walk(g, s, p, t) && 0 < m <= |p|
    ensures Length(p[m..]) < Length(p)
  {
    assert p == p[..m] + p[m..] && p[..m][0] == p[0];
    LengthConcat(p[..m], p[m..]);
  }

  lemma TailIsShorter(g: Graph, x: nat, p: seq<Edge>, t: nat, i: nat, j: nat)
    requires Positive(g) && i < j <= |p| && Walk(g, x, p[i..], t)
    ensures Length(p[j..]) < Length(p[i..])
  {
    assert p[i..][j - i..] == p[j..];
    RestIsShorter(g, x, p[i..], t, j - i);
  }

  /** If a walk came back to a node, leaving out the round trip would make it shorter. */
  lemma RoundTripIsLonger(g: Graph, s: nat, p: seq<Edge>, t: nat, i: nat, j: nat)
    requires Positive(g) && Walk(g, s, p, t) && i < j <= |p| && NodeAt(s, p, i) == NodeAt(s, p, j)
    ensures Reach(g, s, t) && Dist(g, s, t) < Length(p)
  {
    WalkSplit(g, s, p, t, i);
    WalkSplit(g, s, p, t, j);
    TailIsShorter(g, NodeAt(s, p, i), p, t, i, j);
    WalkConcat(g, s, p[..i], NodeAt(s, p, i), p[j..], t);
    WalkBound(g, s, p[..i] + p[j..], t);
  }

  /** With positive lengths a shortest route visits every node, the hub among them, at most once. */
  lemma RouteVisitsOnce(g: Graph, s: nat, t: nat, r: Route, i: nat, j: nat)
    requires Positive(g) && ShortestRoute(g, s, t, r) && r.Found? && i < j < |r.path|
    ensures r.path[i] != r.path[j]
  {
    var p :| Walk(g, s, p, t) && Length(p) == r.distance && r.path == NodesOf(s, p);
    NodesOfAt(s, p, i);
    NodesOfAt(s, p, j);
    if r.path[i] == r.path[j] {
      RoundTripIsLonger(g, s, p, t, i, j);
    }
  }
}
