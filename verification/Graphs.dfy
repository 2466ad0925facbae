/** Directed weighted graphs, walks and shortest distances: the theory every other module stands on. */
module Graphs {

  /** A directed edge; parallel edges between the same two nodes are allowed. */
  datatype Edge = Edge(src: nat, dst: nat, len: nat)

  type Graph = set<Edge>

  /** The edge walked the other way round. */
  function Flip(e: Edge): Edge { Edge(e.dst, e.src, e.len) }

  /** Every edge has a partner of the same length in the other direction. */
  ghost predicate Symmetric(g: Graph) { forall e {:trigger Flip(e)} :: e in g ==> Flip(e) in g }

  ghost predicate Positive(g: Graph) { forall e :: e in g ==> e.len > 0 }

  ghost predicate NoLoops(g: Graph) { forall e :: e in g ==> e.src != e.dst }

  /** Every edge has both ends below n. */
  ghost predicate Within(g: Graph, n: nat) { forall e :: e in g ==> e.src < n && e.dst < n }

  ghost function NodesBelow(n: nat): (r: set<nat>)
    ensures forall x: nat :: x in r <==> x < n
  {
    if n == 0 then {} else NodesBelow(n - 1) + {n - 1}
  }

  /** The edges p, in order, lead from s to t. */
  ghost predicate Walk(g: Graph, s: nat, p: seq<Edge>, t: nat)
    decreases |p|
  {
    if p == [] then s == t
    else p[0] in g && p[0].src == s && Walk(g, p[0].dst, p[1..], t)
  }

  function Length(p: seq<Edge>): nat
  {
    if p == [] then 0 else p[0].len + Length(p[1..])
  }

  ghost predicate Reach(g: Graph, s: nat, t: nat) { exists p :: Walk(g, s, p, t) }

  /** d is the length of some walk from s to t and no walk is shorter. */
  ghost predicate IsDist(g: Graph, s: nat, t: nat, d: nat)
  {
    && (exists p :: Walk(g, s, p, t) && Length(p) == d)
    && (forall p :: Walk(g, s, p, t) ==> d <= Length(p))
  }

  lemma ShortestBelow(g: Graph, s: nat, t: nat, p: seq<Edge>)
    requires Walk(g, s, p, t)
    ensures exists d: nat :: IsDist(g, s, t, d)
    decreases Length(p)
  {
    if q :| Walk(g, s, q, t) && Length(q) < Length(p) {
      ShortestBelow(g, s, t, q);
    } else {
      assert IsDist(g, s, t, Length(p));
    }
  }

  lemma DistExists(g: Graph, s: nat, t: nat)
    requires Reach(g, s, t)
    ensures exists d: nat :: IsDist(g, s, t, d)
  {
    var p :| Walk(g, s, p, t);
    ShortestBelow(g, s, t, p);
  }

  /** The length of a shortest walk. */
  ghost function Dist(g: Graph, s: nat, t: nat): (d: nat)
    requires Reach(g, s, t)
    ensures IsDist(g, s, t, d)
  {
    DistExists(g, s, t);
    var d: nat :| IsDist(g, s, t, d);
    d
  }

  /** The distance of reachable pairs, 0 otherwise. */
  ghost function Dist0(g: Graph, s: nat, t: nat): nat { if Reach(g, s, t) then Dist(g, s, t) else 0 }

  lemma WalkBound(g: Graph, s: nat, p: seq<Edge>, t: nat)
    requires Walk(g, s, p, t)
    ensures Reach(g, s, t) && Dist(g, s, t) <= Length(p)
  {
  }

  lemma {:induction false} LengthConcat(p: seq<Edge>, q: seq<Edge>)
    ensures Length(p + q) == Length(p) + Length(q)
  {
    if p == [] {
      assert p + q == q;
    } else {
      assert (p + q)[1..] == p[1..] + q;
      LengthConcat(p[1..], q);
    }
  }

  lemma {:induction false} WalkConcat(g: Graph, s: nat, p: seq<Edge>, x: nat, q: seq<Edge>, t: nat)
    requires Walk(g, s, p, x) && Walk(g, x, q, t)
    ensures Walk(g, s, p + q, t) && Length(p + q) == Length(p) + Length(q)
    decreases |p|
  {
    LengthConcat(p, q);
    if p == [] {
      assert p + q == q;
    } else {
      assert (p + q)[1..] == p[1..] + q;
      WalkConcat(g, p[0].dst, p[1..], x, q, t);
    }
  }

  lemma SelfDist(g: Graph, s: nat)
    ensures Reach(g, s, s) && Dist(g, s, s) == 0
  {
    assert Walk(g, s, [], s);
    assert Length([]) == 0;
  }

  lemma EdgeDist(g: Graph, e: Edge)
    requires e in g
    ensures Reach(g, e.src, e.dst) && Dist(g, e.src, e.dst) <= e.len
  {
    assert [e][1..] == [];
    assert Walk(g, e.dst, [], e.dst);
    assert Walk(g, e.src, [e], e.dst);
    assert Length([e]) == e.len;
  }

  lemma Triangle(g: Graph, s: nat, x: nat, t: nat)
    requires Reach(g, s, x) && Reach(g, x, t)
    ensures Reach(g, s, t) && Dist(g, s, t) <= Dist(g, s, x) + Dist(g, x, t)
  {
    var p :| Walk(g, s, p, x) && Length(p) == Dist(g, s, x);
    var q :| Walk(g, x, q, t) && Length(q) == Dist(g, x, t);
    WalkConcat(g, s, p, x, q, t);
  }

  /** A shortest walk to another node starts with an edge that lies on a shortest walk. */
  lemma FirstEdge(g: Graph, s: nat, t: nat) returns (e: Edge)
    requires Reach(g, s, t) && s != t
    ensures e in g && e.src == s && Reach(g, e.dst, t)
    ensures e.len + Dist(g, e.dst, t) == Dist(g, s, t)
  {
    var p :| Walk(g, s, p, t) && Length(p) == Dist(g, s, t);
    e := p[0];
    WalkBound(g, e.dst, p[1..], t);
    EdgeDist(g, e);
    Triangle(g, s, e.dst, t);
  }

  lemma {:induction false} WalkFlip(g: Graph, s: nat, p: seq<Edge>, t: nat) returns (q: seq<Edge>)
    requires Symmetric(g) && Walk(g, s, p, t)
    ensures Walk(g, t, q, s) && Length(q) == Length(p)
    decreases |p|
  {
    if p == [] {
      q := [];
    } else {
      var r := WalkFlip(g, p[0].dst, p[1..], t);
      var f := [Flip(p[0])];
      assert f[1..] == [] && Walk(g, s, [], s);
      assert Walk(g, p[0].dst, f, s) && Length(f) == p[0].len;
      WalkConcat(g, t, r, p[0].dst, f, s);
      q := r + f;
    }
  }

  lemma DistSymmetric(g: Graph, s: nat, t: nat)
    requires Symmetric(g)
    ensures Reach(g, s, t) <==> Reach(g, t, s)
    ensures Reach(g, s, t) ==> Dist(g, s, t) == Dist(g, t, s)
  {
    if Reach(g, s, t) {
      var p :| Walk(g, s, p, t) && Length(p) == Dist(g, s, t);
      var q := WalkFlip(g, s, p, t);
      var p' :| Walk(g, t, p', s) && Length(p') == Dist(g, t, s);
      var q' := WalkFlip(g, t, p', s);
    }
    if Reach(g, t, s) {
      var p :| Walk(g, t, p, s);
      var q := WalkFlip(g, t, p, s);
    }
  }

  lemma DistPositive(g: Graph, s: nat, t: nat)
    requires Positive(g) && Reach(g, s, t) && s != t
    ensures Dist(g, s, t) > 0
  {
    var e := FirstEdge(g, s, t);
  }

  /** Walks stay among the nodes the edges touch. */
  lemma {:induction false} WalkWithin(g: Graph, n: nat, s: nat, p: seq<Edge>, t: nat)
    requires Within(g, n) && s < n && Walk(g, s, p, t)
    ensures t < n
    decreases |p|
  {
    if p != [] {
      WalkWithin(g, n, p[0].dst, p[1..], t);
    }
  }
}
