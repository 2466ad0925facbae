/**
 * Witness searches on paper: Dijkstra's algorithm that, among equally short ways, prefers the one over the node
 * to be contracted, and what its result says about shortcuts over that node.
 */
module WitnessSearch {
  import opened Graphs
  import opened Search
  import opened Contraction

  /** What a search knows about a found node: its distance, how it was reached, and whether it is final. */
  datatype Row = Row(dist: nat, prev: nat, edge: nat, final: bool)

  type Rows = map<nat, Row>

  ghost function Dists(m: Rows): Found { map x | x in m :: m[x].dist }

  /** x was reached from a node in reached, over the recorded edge. */
  ghost predicate CameBy(g: Graph, store: seq<Edge>, m: Rows, reached: set<nat>, x: nat)
  {
    && x in m && m[x].edge < |store| && store[m[x].edge] in g && store[m[x].edge].dst == x
    && store[m[x].edge].src == m[x].prev && m[x].prev in reached && m[x].prev in m
    && m[x].dist == m[m[x].prev].dist + store[m[x].edge].len
  }

  /** Of all equally short ways, the direct one to v and those over v are the recorded ones. */
  ghost predicate Prefers(m: Rows, s: nat, v: nat, e: Edge)
  {
    && (e.src == s && e.dst == v && v in m && e.len == m[v].dist ==> m[v].prev == s)
    && (e.src == v && e.dst != s && v in m && e.dst in m && m[v].dist + e.len == m[e.dst].dist ==> m[e.dst].prev == v)
  }

  /** A search from s that prefers v, with settled nodes. */
  ghost predicate Witnessing(g: Graph, store: seq<Edge>, s: nat, v: nat, m: Rows, settled: set<nat>)
  {
    && Searching(g, s, Dists(m), settled)
    && (forall x {:trigger CameBy(g, store, m, settled, x)} :: x in m && x != s ==> CameBy(g, store, m, settled, x))
    && (forall e {:trigger Prefers(m, s, v, e)} :: e in g && e.src in settled ==> Prefers(m, s, v, e))
    && (forall x :: x in m && x != s && m[x].final ==> x in settled)
  }

  /** Witnessing, while the edges out of u are being worked off; those in done already are. */
  ghost predicate Spreading(g: Graph, store: seq<Edge>, s: nat, v: nat, m: Rows, settled: set<nat>, u: nat,
                            done: set<Edge>)
  {
    && Expanding(g, s, Dists(m), settled, u, done)
    && (forall x {:trigger CameBy(g, store, m, settled + {u}, x)} :: x in m && x != s ==>
          CameBy(g, store, m, settled + {u}, x))
    && (forall e {:trigger Prefers(m, s, v, e)} :: (e in g && e.src in settled) || e in done ==> Prefers(m, s, v, e))
    && (forall x :: x in m && x != s && m[x].final ==> x in settled + {u})
  }

  /** The way over e from u is recorded if it is new, shorter, or equally short and over the preferred node. */
  ghost predicate Improves(m: Rows, v: nat, u: nat, e: Edge)
    requires u in m
  {
    e.dst !in m || m[u].dist + e.len < m[e.dst].dist || (u == v && m[u].dist + e.len == m[e.dst].dist)
  }

  ghost function Visit(m: Rows, v: nat, u: nat, id: nat, e: Edge): Rows
    requires u in m
  {
    var m' := m[u := m[u].(final := true)];
    if Improves(m, v, u, e)
      then m'[e.dst := Row(m[u].dist + e.len, u, id, e.dst in m' && m'[e.dst].final)]
      else m'
  }

  /** x has the row r in m. */
  ghost predicate HasRow(m: Rows, x: nat, r: Row) { x in m && m[x] == r }

  /**
   * From m to r an edge out of u has been looked at, over which x is at distance d: u is marked final, and x gets a row
   * if it is new or nearer than before, or as near and u is the preferred node; nothing else changes.
   */
  ghost predicate LookedAt(m: Rows, r: Rows, v: nat, u: nat, id: nat, x: nat, d: nat)
    requires u in m && x != u
  {
    && HasRow(r, u, m[u].(final := true))
    && (x !in m ==> HasRow(r, x, Row(d, u, id, false)))
    && (x in m && d < m[x].dist ==> HasRow(r, x, Row(d, u, id, m[x].final)))
    && (x in m && d == m[x].dist ==> HasRow(r, x, if u == v then Row(d, u, id, m[x].final) else m[x]))
    && (x in m && d > m[x].dist ==> HasRow(r, x, m[x]))
    && (forall y: nat {:trigger y in r} :: y != u && y != x ==> (y in r <==> y in m) && (y in m ==> r[y] == m[y]))
  }

  lemma VisitLooks(m: Rows, v: nat, u: nat, id: nat, e: Edge)
    requires u in m && e.dst != u
    ensures LookedAt(m, Visit(m, v, u, id, e), v, u, id, e.dst, m[u].dist + e.len)
  {
  }

  lemma StartWitnessing(g: Graph, store: seq<Edge>, s: nat, v: nat, r: Row)
    requires r.dist == 0
    ensures Witnessing(g, store, s, v, map[s := r], {})
  {
    StartSearch(g, s);
    assert Dists(map[s := r]) == map[s := 0];
  }

  lemma BeginSpreading(g: Graph, store: seq<Edge>, s: nat, v: nat, m: Rows, settled: set<nat>, u: nat)
    requires Witnessing(g, store, s, v, m, settled) && u in m && u !in settled
    requires forall b :: b in m && b !in settled ==> m[u].dist <= m[b].dist
    ensures Spreading(g, store, s, v, m, settled, u, {})
  {
    BeginExpanding(g, s, Dists(m), settled, u);
    forall x | x in m && x != s
      ensures CameBy(g, store, m, settled + {u}, x)
    {
      assert CameBy(g, store, m, settled, x);
    }
  }

  lemma EndSpreading(g: Graph, store: seq<Edge>, s: nat, v: nat, m: Rows, settled: set<nat>, u: nat, done: set<Edge>)
    requires Spreading(g, store, s, v, m, settled, u, done)
    requires forall e :: e in g && e.src == u ==> e in done
    ensures Witnessing(g, store, s, v, m, settled + {u})
  {
    EndExpanding(g, s, Dists(m), settled, u, done);
  }

  /** A visit relaxes the distances. */
  lemma VisitRelaxes(g: Graph, store: seq<Edge>, s: nat, v: nat, m: Rows, settled: set<nat>, u: nat, done: set<Edge>,
                     id: nat, e: Edge)
    requires Spreading(g, store, s, v, m, settled, u, done) && e.src == u && e in g && Positive(g)
    ensures Dists(Visit(m, v, u, id, e)) == Relax(Dists(m), u, e)
    ensures Expanding(g, s, Dists(Visit(m, v, u, id, e)), settled, u, done + {e})
    ensures forall x :: x in settled + {u} ==>
              x in m && x in Visit(m, v, u, id, e) && Visit(m, v, u, id, e)[x].dist == m[x].dist
    ensures Improves(m, v, u, e) ==> e.dst !in settled && e.dst != u
  {
    RelaxKeeps(g, s, Dists(m), settled, u, done, e);
  }

  /** After a visit every found node still came from a settled node or from u. */
  lemma VisitCameBy(g: Graph, store: seq<Edge>, s: nat, v: nat, m: Rows, settled: set<nat>, u: nat, done: set<Edge>,
                    id: nat, e: Edge, x: nat)
    requires Spreading(g, store, s, v, m, settled, u, done) && e.src == u && e in g && Positive(g)
    requires id < |store| && store[id] == e && x in Visit(m, v, u, id, e) && x != s
    ensures CameBy(g, store, Visit(m, v, u, id, e), settled + {u}, x)
  {
    VisitRelaxes(g, store, s, v, m, settled, u, done, id, e);
    if x in m {
      assert CameBy(g, store, m, settled + {u}, x);
    }
  }

  /** The edges worked off before stay accounted for: a recorded way is only given up for a shorter or preferred one. */
  lemma VisitPrefersOld(g: Graph, store: seq<Edge>, s: nat, v: nat, m: Rows, settled: set<nat>, u: nat, done: set<Edge>,
                        id: nat, e: Edge, f: Edge)
    requires Spreading(g, store, s, v, m, settled, u, done) && e.src == u && e in g && Positive(g) && s != v
    requires (f in g && f.src in settled) || f in done
    ensures Prefers(Visit(m, v, u, id, e), s, v, f)
  {
    VisitRelaxes(g, store, s, v, m, settled, u, done, id, e);
    assert Prefers(m, s, v, f) && Relaxed(Dists(m), f);
    assert m[s].dist == 0;
  }

  lemma VisitPrefersNew(g: Graph, store: seq<Edge>, s: nat, v: nat, m: Rows, settled: set<nat>, u: nat, done: set<Edge>,
                        id: nat, e: Edge)
    requires Spreading(g, store, s, v, m, settled, u, done) && e.src == u && e in g && Positive(g) && s != v
    ensures Prefers(Visit(m, v, u, id, e), s, v, e)
  {
    VisitRelaxes(g, store, s, v, m, settled, u, done, id, e);
    assert m[s].dist == 0;
    if u == s && e.dst == v && v in m {
      assert settled == {};
      assert CameBy(g, store, m, settled + {u}, v);
    }
  }

  /** Visiting one edge out of u keeps the invariant of the search. */
  lemma VisitKeeps(g: Graph, store: seq<Edge>, s: nat, v: nat, m: Rows, settled: set<nat>, u: nat, done: set<Edge>,
                   id: nat, e: Edge)
    requires Spreading(g, store, s, v, m, settled, u, done) && e.src == u && e in g && Positive(g) && s != v
    requires id < |store| && store[id] == e
    ensures Spreading(g, store, s, v, Visit(m, v, u, id, e), settled, u, done + {e})
  {
    var m' := Visit(m, v, u, id, e);
    VisitRelaxes(g, store, s, v, m, settled, u, done, id, e);
    forall x | x in m' && x != s
      ensures CameBy(g, store, m', settled + {u}, x)
    {
      VisitCameBy(g, store, s, v, m, settled, u, done, id, e, x);
    }
    forall f | (f in g && f.src in settled) || f in done + {e}
      ensures Prefers(m', s, v, f)
    {
      if f == e {
        VisitPrefersNew(g, store, s, v, m, settled, u, done, id, e);
      } else {
        VisitPrefersOld(g, store, s, v, m, settled, u, done, id, e, f);
      }
    }
  }

  // ---------- what the finished search says ----------

  /** The recorded ways from s to v and from v to y are single edges: the shortcut s-v-y is emitted. */
  ghost predicate Emits(m: Rows, s: nat, v: nat, y: nat)
  {
    v in m && y in m && m[v].prev == s && m[y].prev == v
  }

  /** The two recorded edges of an emitted shortcut are a shortest way, of the recorded length. */
  lemma EmittedIsTight(g: Graph, store: seq<Edge>, s: nat, v: nat, m: Rows, settled: set<nat>, y: nat)
    requires Witnessing(g, store, s, v, m, settled) && y in settled && y != s && v != s && Emits(m, s, v, y)
    ensures m[v].edge < |store| && m[y].edge < |store|
    ensures var a, b := store[m[v].edge], store[m[y].edge];
            TightPair(g, a, b) && a.src == s && a.dst == v && b.dst == y && m[y].dist == a.len + b.len
  {
    assert CameBy(g, store, m, settled, v);
    assert CameBy(g, store, m, settled, y);
    SettledExact(g, s, Dists(m), settled, y);
  }

  /** Every shortest way s-v-y of two edges makes the search emit the shortcut. */
  lemma TightIsEmitted(g: Graph, store: seq<Edge>, s: nat, v: nat, m: Rows, settled: set<nat>, a: Edge, b: Edge)
    requires Witnessing(g, store, s, v, m, settled) && Positive(g) && v != s
    requires TightPair(g, a, b) && a.src == s && a.dst == v && b.dst in settled
    ensures Emits(m, s, v, b.dst) && m[b.dst].dist == a.len + b.len
  {
    var d, y := Dists(m), b.dst;
    assert settled != {};
    SettledExact(g, s, d, settled, y);
    assert Relaxed(d, a);
    assert d[v] < d[y];
    assert v in settled;
    SettledExact(g, s, d, settled, v);
    EdgeDist(g, b);
    Triangle(g, s, v, y);
    assert Prefers(m, s, v, a) && Prefers(m, s, v, b);
  }

  /** The search emits a shortcut to a settled node exactly when the way over v is a shortest one, ties included. */
  lemma EmissionIsExact(g: Graph, store: seq<Edge>, s: nat, v: nat, m: Rows, settled: set<nat>, y: nat)
    requires Witnessing(g, store, s, v, m, settled) && Positive(g) && v != s && y != s && y in settled
    ensures Emits(m, s, v, y) <==> exists a, b :: TightPair(g, a, b) && a.src == s && a.dst == v && b.dst == y
  {
    if Emits(m, s, v, y) {
      EmittedIsTight(g, store, s, v, m, settled, y);
    }
    forall a, b | TightPair(g, a, b) && a.src == s && a.dst == v && b.dst == y
      ensures Emits(m, s, v, y)
    {
      TightIsEmitted(g, store, s, v, m, settled, a, b);
    }
  }

  /** In a symmetric graph a shortcut is called for in one direction exactly when it is in the other. */
  lemma TightPairFlips(g: Graph, a: Edge, b: Edge)
    requires Symmetric(g) && TightPair(g, a, b)
    ensures TightPair(g, Flip(b), Flip(a))
  {
    DistSymmetric(g, a.src, b.dst);
  }
}
