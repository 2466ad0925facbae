/** Dijkstra's algorithm on paper: the invariant of a search, one relaxation, and why settled distances are exact. */
module Search {
  import opened Graphs

  /** Tentative distances of the nodes found so far. */
  type Found = map<nat, nat>

  /** Some walk to x is no longer than claimed. */
  ghost predicate Realised(g: Graph, s: nat, d: Found, x: nat)
  {
    x in d && Reach(g, s, x) && Dist(g, s, x) <= d[x]
  }

  /** The way over e is accounted for. */
  ghost predicate Relaxed(d: Found, e: Edge)
  {
    e.src in d && e.dst in d && d[e.dst] <= d[e.src] + e.len
  }

  /**
   * A search from s with settled nodes: found distances are realised, edges out of settled nodes are
   * accounted for, and no settled node is farther than one that is still open.
   */
  ghost predicate Searching(g: Graph, s: nat, d: Found, settled: set<nat>)
  {
    && s in d && d[s] == 0
    && (settled == {} ==> d.Keys == {s}) && (settled != {} ==> s in settled)
    && (forall x :: x in settled ==> x in d)
    && (forall x {:trigger Realised(g, s, d, x)} :: x in d ==> Realised(g, s, d, x))
    && (forall e :: e in g && e.src in settled ==> Relaxed(d, e))
    && (forall a, b :: a in settled && b in d && b !in settled ==> d[a] <= d[b])
  }

  /** Searching, while the edges out of u are being worked off; those in done already are. */
  ghost predicate Expanding(g: Graph, s: nat, d: Found, settled: set<nat>, u: nat, done: set<Edge>)
  {
    && s in d && d[s] == 0
    && u in d && u !in settled && (settled != {} ==> s in settled) && (settled == {} ==> u == s)
    && (forall x :: x in settled ==> x in d && d[x] <= d[u])
    && (forall x {:trigger Realised(g, s, d, x)} :: x in d ==> Realised(g, s, d, x))
    && (forall e :: e in g && e.src in settled ==> Relaxed(d, e))
    && (forall e :: e in done ==> e.src == u && Relaxed(d, e))
    && (forall b :: b in d && b !in settled ==> d[u] <= d[b])
  }

  ghost function Relax(d: Found, u: nat, e: Edge): Found
    requires u in d
  {
    if e.dst !in d || d[u] + e.len < d[e.dst] then d[e.dst := d[u] + e.len] else d
  }

  lemma StartSearch(g: Graph, s: nat)
    ensures Searching(g, s, map[s := 0], {})
  {
    SelfDist(g, s);
  }

  /** An open node of least distance may be expanded. */
  lemma BeginExpanding(g: Graph, s: nat, d: Found, settled: set<nat>, u: nat)
    requires Searching(g, s, d, settled) && u in d && u !in settled
    requires forall b :: b in d && b !in settled ==> d[u] <= d[b]
    ensures Expanding(g, s, d, settled, u, {})
  {
  }

  /** A relaxation only lowers distances, and none of a settled node or of u. */
  lemma RelaxLowers(g: Graph, s: nat, d: Found, settled: set<nat>, u: nat, done: set<Edge>, e: Edge)
    requires Expanding(g, s, d, settled, u, done) && e.src == u
    ensures var r := Relax(d, u, e);
            && Relaxed(r, e) && (forall x :: x in d ==> x in r && r[x] <= d[x])
            && (forall x :: x in settled + {u} ==> r[x] == d[x])
  {
  }

  /** Working off one edge out of u keeps the invariant; nothing settled, nor u, changes. */
  lemma RelaxKeeps(g: Graph, s: nat, d: Found, settled: set<nat>, u: nat, done: set<Edge>, e: Edge)
    requires Expanding(g, s, d, settled, u, done) && e in g && e.src == u
    ensures Expanding(g, s, Relax(d, u, e), settled, u, done + {e})
    ensures forall x :: x in settled + {u} ==> Relax(d, u, e)[x] == d[x]
  {
    RelaxLowers(g, s, d, settled, u, done, e);
    var r := Relax(d, u, e);
    forall x | x in r
      ensures Realised(g, s, r, x)
    {
      assert x != e.dst ==> Realised(g, s, d, x);
      assert Realised(g, s, d, u);
      assert e.dst in d ==> Realised(g, s, d, e.dst);
      EdgeDist(g, e);
      Triangle(g, s, u, e.dst);
    }
    forall f | f in done + {e} || (f in g && f.src in settled)
      ensures Relaxed(r, f)
    {
      assert f == e || Relaxed(d, f);
    }
  }

  /** When all edges out of u are worked off, u is settled. */
  lemma EndExpanding(g: Graph, s: nat, d: Found, settled: set<nat>, u: nat, done: set<Edge>)
    requires Expanding(g, s, d, settled, u, done)
    requires forall e :: e in g && e.src == u ==> e in done
    ensures Searching(g, s, d, settled + {u})
  {
  }

  /**
   * Any walk from a settled node to t is at least as long as the search claims, if t is no farther than any open node.
   */
  lemma {:induction false} WalkNotShorter(g: Graph, s: nat, d: Found, settled: set<nat>, a: nat, p: seq<Edge>, t: nat)
    requires Searching(g, s, d, settled) && a in settled && Walk(g, a, p, t) && t in d
    requires forall b :: b in d && b !in settled ==> d[t] <= d[b]
    ensures d[t] <= d[a] + Length(p)
    decreases |p|
  {
    if p != [] {
      assert Relaxed(d, p[0]);
      if p[0].dst in settled {
        WalkNotShorter(g, s, d, settled, p[0].dst, p[1..], t);
      }
    }
  }

  /** A settled node, or an open node of least distance, has its exact distance. */
  lemma ExactDistance(g: Graph, s: nat, d: Found, settled: set<nat>, t: nat)
    requires Searching(g, s, d, settled) && t in d
    requires forall b :: b in d && b !in settled ==> d[t] <= d[b]
    ensures Reach(g, s, t) && d[t] == Dist(g, s, t)
  {
    assert Realised(g, s, d, t);
    var p :| Walk(g, s, p, t) && Length(p) == Dist(g, s, t);
    if settled != {} {
      WalkNotShorter(g, s, d, settled, s, p, t);
    } else {
      SelfDist(g, s);
    }
  }

  lemma SettledExact(g: Graph, s: nat, d: Found, settled: set<nat>, t: nat)
    requires Searching(g, s, d, settled) && t in settled
    ensures Reach(g, s, t) && d[t] == Dist(g, s, t)
  {
    ExactDistance(g, s, d, settled, t);
  }

  lemma {:induction false} WalkStaysSettled(g: Graph, s: nat, d: Found, a: nat, p: seq<Edge>, t: nat)
    requires Searching(g, s, d, d.Keys) && a in d && Walk(g, a, p, t)
    ensures t in d
    decreases |p|
  {
    if p != [] {
      assert Relaxed(d, p[0]);
      WalkStaysSettled(g, s, d, p[0].dst, p[1..], t);
    }
  }

  /** When no node is open any more, exactly the reachable nodes have been found. */
  lemma Exhausted(g: Graph, s: nat, d: Found, settled: set<nat>)
    requires Searching(g, s, d, settled) && settled == d.Keys
    ensures forall t: nat :: Reach(g, s, t) <==> t in settled
  {
    assert forall t :: t in settled ==> Realised(g, s, d, t);
    forall t: nat | Reach(g, s, t)
      ensures t in settled
    {
      var p :| Walk(g, s, p, t);
      WalkStaysSettled(g, s, d, s, p, t);
    }
  }
}
