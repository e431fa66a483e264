/** Reversing a stage graph, and what paths and cycles become. */
module Reversal {
  import opened Common
  import opened Stages
  import opened Orders
  import opened Digraphs

  /** The stages of `nodes` with an edge to `v`. */
  function Predecessors(g: Digraph, nodes: seq<Stage>, v: Stage): (r: seq<Stage>)
    ensures forall u :: u in r <==> u in nodes && g.HasEdge(u, v)
  {
    if nodes == [] then []
    else (if g.HasEdge(nodes[0], v) then [nodes[0]] else []) + Predecessors(g, nodes[1..], v)
  }

  /** What leads to a stage comes in the order of the nodes. */
  lemma {:induction false} PredecessorsInOrder(g: Digraph, nodes: seq<Stage>, v: Stage)
    ensures InOrder(Predecessors(g, nodes, v), nodes)
  {
    if nodes != [] {
      PredecessorsInOrder(g, nodes[1..], v);
      InOrderCons(Predecessors(g, nodes[1..], v), nodes[1..], nodes[0]);
      assert [nodes[0]] + nodes[1..] == nodes;
    }
  }

  function Reverse(g: Digraph): Digraph {
    Digraph(g.nodes, map v | v in g.succ :: Predecessors(g, g.nodes, v))
  }

  lemma ReverseEdges(g: Digraph)
    requires g.Valid()
    ensures Reverse(g).Valid()
    ensures forall u, v :: Reverse(g).HasEdge(u, v) <==> g.HasEdge(v, u)
  {
    var h := Reverse(g);
    forall u, v
      ensures h.HasEdge(u, v) <==> g.HasEdge(v, u)
    {
      assert v in g.succ ==> v in ToSet(g.nodes);
      if g.HasEdge(v, u) { assert u in g.succ; }
    }
    assert ToSet(h.nodes) == h.succ.Keys;
    forall u, v | u in h.succ && v in h.succ[u]
      ensures v in h.succ
    {
      assert h.HasEdge(u, v);
    }
  }

  lemma {:induction false} FlipPath(g: Digraph, h: Digraph, p: seq<Stage>)
    requires g.Valid() && g.succ.Keys == h.succ.Keys
    requires forall u, v :: h.HasEdge(u, v) ==> g.HasEdge(v, u)
    requires IsPath(h, p)
    ensures Reaches(g, p[|p| - 1], p[0])
  {
    if |p| == 1 {
      ReachesSelf(g, p[0]);
    } else {
      var q := p[1..];
      assert h.HasEdge(p[0], p[1]);
      forall i | 0 <= i < |q| - 1
        ensures h.HasEdge(q[i], q[i + 1])
      {
        assert h.HasEdge(p[i + 1], p[i + 2]);
      }
      FlipPath(g, h, q);
      ReachesExtend(g, p[|p| - 1], p[1], p[0]);
    }
  }

  lemma ReverseReaches(g: Digraph, u: Stage, v: Stage)
    requires g.Valid()
    ensures Reaches(Reverse(g), u, v) <==> Reaches(g, v, u)
  {
    var h := Reverse(g);
    ReverseEdges(g);
    if Reaches(h, u, v) {
      var p :| IsPath(h, p) && p[0] == u && p[|p| - 1] == v;
      FlipPath(g, h, p);
    }
    if Reaches(g, v, u) {
      var p :| IsPath(g, p) && p[0] == v && p[|p| - 1] == u;
      FlipPath(h, g, p);
    }
  }

  lemma ReverseAcyclic(g: Digraph)
    requires g.Valid() && Acyclic(g)
    ensures Acyclic(Reverse(g))
  {
    var h := Reverse(g);
    ReverseEdges(g);
    forall p | IsPath(h, p) && |p| >= 2
      ensures p[0] != p[|p| - 1]
    {
      assert h.HasEdge(p[0], p[1]);
      var q := p[1..];
      forall i | 0 <= i < |q| - 1
        ensures h.HasEdge(q[i], q[i + 1])
      {
        assert h.HasEdge(p[i + 1], p[i + 2]);
      }
      FlipPath(g, h, q);
      if p[0] == p[|p| - 1] {
        EdgeClosesCycle(g, p[1], p[0]);
      }
    }
  }
}
