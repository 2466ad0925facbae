/** Shortcuts that threads find over the nodes of a level: which ones, and in which order. */
module Shortcuts {
  import opened Graphs
  import opened Sequences
  import opened Contraction
  import opened Networks

  /** A shortcut found: its ends and length, and the ids of its second and its first part. */
  datatype Shortcut = Shortcut(start: nat, dest: nat, length: nat, second: nat, first: nat)

  /** The parts of r are edges over v that form a shortest way of r's length. */
  ghost predicate Justified(net: Net, v: nat, r: Shortcut)
    requires net.Shape()
  {
    && r.first < |net.store| && r.second < |net.store|
    && TightPair(net.Graph(), net.store[r.first], net.store[r.second])
    && net.store[r.first].src == r.start && net.store[r.first].dst == v && net.store[r.second].dst == r.dest
    && r.length == net.store[r.first].len + net.store[r.second].len
  }

  ghost predicate AllJustified(net: Net, v: nat, rs: seq<Shortcut>)
    requires net.Shape()
  {
    forall i :: 0 <= i < |rs| ==> Justified(net, v, rs[i])
  }

  ghost predicate HasShortcut(rs: seq<Shortcut>, x: nat, y: nat, d: nat)
  {
    exists i :: 0 <= i < |rs| && rs[i].start == x && rs[i].dest == y && rs[i].length == d
  }

  /** r is a shortcut over one of the nodes. */
  ghost predicate Over(net: Net, nodes: seq<nat>, r: Shortcut)
    requires net.Shape()
  {
    exists v: nat :: v in nodes && Justified(net, v, r)
  }

  ghost predicate AllOver(net: Net, nodes: seq<nat>, rs: seq<Shortcut>)
    requires net.Shape()
  {
    forall i :: 0 <= i < |rs| ==> Over(net, nodes, rs[i])
  }

  /** Every shortest way over v has its shortcut. */
  ghost predicate CoversNode(net: Net, v: nat, rs: seq<Shortcut>)
    requires net.Shape()
  {
    forall a, b {:trigger TightPair(net.Graph(), a, b)} :: TightPair(net.Graph(), a, b) && a.dst == v ==>
      HasShortcut(rs, a.src, b.dst, a.len + b.len)
  }

  ghost predicate CoversNodes(net: Net, nodes: seq<nat>, rs: seq<Shortcut>)
    requires net.Shape()
  {
    forall v: nat {:trigger CoversNode(net, v, rs)} :: v in nodes ==> CoversNode(net, v, rs)
  }

  /** With fewer than two edges there is no way over v between two different nodes. */
  lemma TooFewEdges(net: Net, v: nat, rs: seq<Shortcut>)
    requires net.Shape() && Symmetric(net.Graph()) && v < |net.adj| && |net.adj[v]| < 2
    ensures CoversNode(net, v, rs)
  {
    forall a, b | TightPair(net.Graph(), a, b) && a.dst == v
      ensures false
    {
      var i := net.Position(Flip(a));
      var j := net.Position(b);
    }
  }

  /** nodes holds the ends of all edges at v. */
  ghost predicate EndsOf(net: Net, v: nat, nodes: seq<nat>)
    requires net.Shape() && v < |net.adj|
  {
    |nodes| == |net.adj[v]| && forall i: nat :: i < |nodes| ==> nodes[i] == net.At(v, i).dst
  }

  ghost predicate InRange(nodes: seq<nat>, n: nat) { forall i :: 0 <= i < |nodes| ==> nodes[i] < n }

  // ---------- which shortcuts are found, and in which order ----------

  /** The way from s over v to y is a shortest one. */
  ghost predicate Calls(net: Net, v: nat, s: nat, y: nat)
    requires net.Shape()
  {
    exists a, b :: TightPair(net.Graph(), a, b) && a.src == s && a.dst == v && b.dst == y
  }

  ghost function CallPlaces(net: Net, v: nat, s: nat, nodes: seq<nat>): set<nat>
    requires net.Shape()
  {
    set i: nat | i < |nodes| && Calls(net, v, s, nodes[i])
  }

  ghost function Dests(rs: seq<Shortcut>): seq<nat> { seq(|rs|, i requires 0 <= i < |rs| => rs[i].dest) }

  /** rs are shortcuts over v from s, one for every one of the nodes that calls for one, in the order of the nodes. */
  ghost predicate FromStart(net: Net, v: nat, s: nat, nodes: seq<nat>, rs: seq<Shortcut>)
    requires net.Shape()
  {
    && AllJustified(net, v, rs) && (forall i :: 0 <= i < |rs| ==> rs[i].start == s)
    && Keeps(nodes, CallPlaces(net, v, s, nodes), Dests(rs))
  }

  /** The first of the nodes from which searches are started have had their shortcuts found, one block for each. */
  ghost predicate StartBlocks(net: Net, v: nat, nodes: seq<nat>, blocks: seq<seq<Shortcut>>)
    requires net.Shape()
  {
    && |blocks| <= |nodes|
    && (forall i: nat {:trigger blocks[i]} :: i < |blocks| ==> FromStart(net, v, nodes[i], nodes, blocks[i]))
  }

  /** rs are the shortcuts over v: block after block, one for each edge of v, unless there are fewer than two edges. */
  ghost predicate OfNode(net: Net, v: nat, rs: seq<Shortcut>)
    requires net.Shape() && v < |net.adj|
  {
    if |net.adj[v]| < 2 then rs == []
    else exists nodes: seq<nat>, blocks: seq<seq<Shortcut>> ::
        EndsOf(net, v, nodes) && StartBlocks(net, v, nodes, blocks) && |blocks| == |nodes| && rs == Flat(blocks)
  }

  /** One block of shortcuts for each of the first nodes. */
  ghost predicate NodeBlocks(net: Net, nodes: seq<nat>, blocks: seq<seq<Shortcut>>)
    requires net.Shape() && InRange(nodes, |net.adj|)
  {
    && |blocks| <= |nodes|
    && (forall i: nat {:trigger blocks[i]} :: i < |blocks| ==> OfNode(net, nodes[i], blocks[i]))
  }

  /** rs are the shortcuts over the nodes, one node after the other. */
  ghost predicate OfNodes(net: Net, nodes: seq<nat>, rs: seq<Shortcut>)
    requires net.Shape() && InRange(nodes, |net.adj|)
  {
    exists blocks: seq<seq<Shortcut>> :: NodeBlocks(net, nodes, blocks) && |blocks| == |nodes| && rs == Flat(blocks)
  }

  // ---------- what they cover ----------

  lemma FlatHasAll(found: seq<seq<Shortcut>>, t: nat)
    requires t < |found|
    ensures forall x: nat, y: nat, d: nat :: HasShortcut(found[t], x, y, d) ==> HasShortcut(Flat(found), x, y, d)
  {
    FlatPrefix(found, t + 1);
    FlatGrows(found, t);
    forall x: nat, y: nat, d: nat | HasShortcut(found[t], x, y, d)
      ensures HasShortcut(Flat(found), x, y, d)
    {
      var i :| 0 <= i < |found[t]| && found[t][i].start == x && found[t][i].dest == y && found[t][i].length == d;
      assert Flat(found)[|Flat(found[..t])| + i] == found[t][i];
    }
  }

  /** A shortest way from s over v to one of the nodes has its shortcut. */
  lemma FromStartHas(net: Net, v: nat, s: nat, nodes: seq<nat>, rs: seq<Shortcut>, i: nat, a: Edge, b: Edge)
    requires net.Shape() && FromStart(net, v, s, nodes, rs) && i < |nodes| && nodes[i] == b.dst
    requires TightPair(net.Graph(), a, b) && a.src == s && a.dst == v
    ensures HasShortcut(rs, s, b.dst, a.len + b.len)
  {
    assert Calls(net, v, s, nodes[i]);
    var k := KeptIndex(nodes, CallPlaces(net, v, s, nodes), Dests(rs), i);
    assert rs[k].dest == b.dst && Justified(net, v, rs[k]);
  }

  lemma BlocksJustified(net: Net, v: nat, nodes: seq<nat>, blocks: seq<seq<Shortcut>>)
    requires net.Shape() && StartBlocks(net, v, nodes, blocks)
    ensures AllJustified(net, v, Flat(blocks))
  {
    forall j | 0 <= j < |Flat(blocks)|
      ensures Justified(net, v, Flat(blocks)[j])
    {
      var t, i := FlatAt(blocks, j);
      assert FromStart(net, v, nodes[t], nodes, blocks[t]);
    }
  }

  /** Every shortest way over v has its shortcut in the block of its start. */
  lemma BlocksCover(net: Net, v: nat, nodes: seq<nat>, blocks: seq<seq<Shortcut>>)
    requires net.Shape() && Symmetric(net.Graph()) && v < |net.adj| && EndsOf(net, v, nodes)
    requires StartBlocks(net, v, nodes, blocks) && |blocks| == |nodes|
    ensures CoversNode(net, v, Flat(blocks))
  {
    forall a, b | TightPair(net.Graph(), a, b) && a.dst == v
      ensures HasShortcut(Flat(blocks), a.src, b.dst, a.len + b.len)
    {
      var i := net.Position(Flip(a));
      var j := net.Position(b);
      assert nodes[i] == a.src && FromStart(net, v, nodes[i], nodes, blocks[i]);
      FromStartHas(net, v, a.src, nodes, blocks[i], j, a, b);
      FlatHasAll(blocks, i);
    }
  }

  /** In a symmetric graph the searches from all neighbours of v find all shortcuts over v. */
  lemma OfNodeCovers(net: Net, v: nat, rs: seq<Shortcut>)
    requires net.Shape() && Symmetric(net.Graph()) && v < |net.adj| && OfNode(net, v, rs)
    ensures AllJustified(net, v, rs) && CoversNode(net, v, rs)
  {
    if |net.adj[v]| < 2 {
      TooFewEdges(net, v, rs);
    } else {
      var nodes: seq<nat>, blocks: seq<seq<Shortcut>> :|
        EndsOf(net, v, nodes) && StartBlocks(net, v, nodes, blocks) && |blocks| == |nodes| && rs == Flat(blocks);
      BlocksJustified(net, v, nodes, blocks);
      BlocksCover(net, v, nodes, blocks);
    }
  }

  lemma OfNodesCover(net: Net, nodes: seq<nat>, rs: seq<Shortcut>)
    requires net.Shape() && Symmetric(net.Graph()) && InRange(nodes, |net.adj|) && OfNodes(net, nodes, rs)
    ensures AllOver(net, nodes, rs) && CoversNodes(net, nodes, rs)
  {
    var blocks: seq<seq<Shortcut>> :| NodeBlocks(net, nodes, blocks) && |blocks| == |nodes| && rs == Flat(blocks);
    forall j | 0 <= j < |rs|
      ensures Over(net, nodes, rs[j])
    {
      var t, i := FlatAt(blocks, j);
      OfNodeCovers(net, nodes[t], blocks[t]);
      assert nodes[t] in nodes && Justified(net, nodes[t], rs[j]);
    }
    forall v: nat | v in nodes
      ensures CoversNode(net, v, rs)
    {
      var t: nat :| t < |nodes| && nodes[t] == v;
      OfNodeCovers(net, v, blocks[t]);
      FlatHasAll(blocks, t);
    }
  }
}
