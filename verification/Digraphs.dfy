/** Directed graphs of stages with insertion-ordered nodes and adjacency, their paths and
    cycles, and the depth-first traversals the pipeline code is built on.  An edge leads from a
    stage to a stage it depends on. */
module Digraphs {
  import opened Common
  import opened Stages

  datatype Digraph = Digraph(nodes: seq<Stage>, succ: map<Stage, seq<Stage>>) {
    ghost predicate Valid() {
      && NoDup(nodes)
      && ToSet(nodes) == succ.Keys
      && forall u, v :: u in succ && v in succ[u] ==> v in succ
    }

    predicate HasEdge(u: Stage, v: Stage) {
      u in succ && v in succ[u]
    }
  }

  ghost predicate IsPath(g: Digraph, p: seq<Stage>) {
    && p != []
    && (forall i :: 0 <= i < |p| ==> p[i] in g.succ)
    && (forall i :: 0 <= i < |p| - 1 ==> g.HasEdge(p[i], p[i + 1]))
  }

  ghost predicate Reaches(g: Digraph, u: Stage, v: Stage) {
    exists p :: IsPath(g, p) && p[0] == u && p[|p| - 1] == v
  }

  ghost predicate Acyclic(g: Digraph) {
    forall p :: IsPath(g, p) && |p| >= 2 ==> p[0] != p[|p| - 1]
  }

  /** `s` lists every stage after all the stages it has an edge to. */
  ghost predicate DependencyOrder(g: Digraph, s: seq<Stage>) {
    forall i, w :: 0 <= i < |s| && g.HasEdge(s[i], w) ==> w in s[..i]
  }

  lemma ReachesSelf(g: Digraph, u: Stage)
    requires u in g.succ
    ensures Reaches(g, u, u)
  {
    assert IsPath(g, [u]);
  }

  lemma PathCons(g: Digraph, u: Stage, p: seq<Stage>)
    requires IsPath(g, p) && g.HasEdge(u, p[0])
    ensures IsPath(g, [u] + p)
  {
    var q := [u] + p;
    forall i | 0 <= i < |q| - 1
      ensures g.HasEdge(q[i], q[i + 1])
    {
      if i > 0 { assert g.HasEdge(p[i - 1], p[i]); }
    }
  }

  lemma ReachesStep(g: Digraph, u: Stage, v: Stage, w: Stage)
    requires g.HasEdge(u, v) && Reaches(g, v, w)
    ensures Reaches(g, u, w)
  {
    var p :| IsPath(g, p) && p[0] == v && p[|p| - 1] == w;
    PathCons(g, u, p);
    assert ([u] + p)[0] == u;
  }

  lemma ReachesExtend(g: Digraph, u: Stage, v: Stage, w: Stage)
    requires g.Valid() && Reaches(g, u, v) && g.HasEdge(v, w)
    ensures Reaches(g, u, w)
  {
    var p :| IsPath(g, p) && p[0] == u && p[|p| - 1] == v;
    var q := p + [w];
    forall i | 0 <= i < |q| - 1
      ensures g.HasEdge(q[i], q[i + 1])
    {
      if i < |p| - 1 { assert g.HasEdge(p[i], p[i + 1]); }
    }
    assert IsPath(g, q) && q[0] == u;
  }

  lemma EdgeClosesCycle(g: Digraph, u: Stage, v: Stage)
    requires g.HasEdge(u, v) && Reaches(g, v, u)
    ensures !Acyclic(g)
  {
    var p :| IsPath(g, p) && p[0] == v && p[|p| - 1] == u;
    PathCons(g, u, p);
    var q := [u] + p;
    assert q[0] == q[|q| - 1] && |q| >= 2;
  }

  /** A set closed under edges keeps every path that starts in it. */
  lemma {:induction false} ClosedUnderPaths(g: Digraph, closed: set<Stage>, p: seq<Stage>)
    requires IsPath(g, p) && p[0] in closed
    requires forall u, v :: u in closed && g.HasEdge(u, v) ==> v in closed
    ensures p[|p| - 1] in closed
  {
    if |p| > 1 {
      assert g.HasEdge(p[0], p[1]);
      var q := p[1..];
      forall i | 0 <= i < |q| - 1
        ensures g.HasEdge(q[i], q[i + 1])
      {
        assert g.HasEdge(p[i + 1], p[i + 2]);
      }
      ClosedUnderPaths(g, closed, q);
    }
  }

  /** A list that is closed under edges and in dependency order rules out cycles. */
  lemma {:induction false} OrderDescendsAlongPaths(g: Digraph, s: seq<Stage>, p: seq<Stage>, i: nat)
    requires DependencyOrder(g, s) && IsPath(g, p)
    requires i <= |s| && p[0] in s[..i]
    ensures p[|p| - 1] in s[..i]
    ensures |p| >= 2 && NoDup(s) && i > 0 && p[0] == s[i - 1] ==> p[|p| - 1] in s[..i - 1]
    decreases |p|
  {
    if |p| > 1 {
      var j :| 0 <= j < i && s[j] == p[0];
      assert g.HasEdge(s[j], p[1]);
      var q := p[1..];
      forall k | 0 <= k < |q| - 1
        ensures g.HasEdge(q[k], q[k + 1])
      {
        assert g.HasEdge(p[k + 1], p[k + 2]);
      }
      OrderDescendsAlongPaths(g, s, q, j);
    }
  }

  lemma OrderMeansAcyclic(g: Digraph, s: seq<Stage>)
    requires NoDup(s) && ToSet(s) == g.succ.Keys && DependencyOrder(g, s)
    ensures Acyclic(g)
  {
    forall p | IsPath(g, p) && |p| >= 2
      ensures p[0] != p[|p| - 1]
    {
      assert p[0] in ToSet(s);
      var i :| 0 <= i < |s| && s[i] == p[0];
      OrderDescendsAlongPaths(g, s, p, i + 1);
      assert s[..i + 1][i] == p[0];
    }
  }

  /** The stages a depth-first traversal finishes, in post-order: it starts from each stage of
      `todo` in turn and skips what is in `seen`. */
  function PostOrder(g: Digraph, todo: seq<Stage>, seen: set<Stage>): (r: seq<Stage>)
    decreases g.succ.Keys - seen, |todo|
  {
    if todo == [] then []
    else if todo[0] in seen || todo[0] !in g.succ then PostOrder(g, todo[1..], seen)
    else
      var v := todo[0];
      var block := PostOrder(g, g.succ[v], seen + {v}) + [v];
      block + PostOrder(g, todo[1..], seen + ToSet(block))
  }

  /** Each stage is finished once; nothing already seen is finished again; and the traversal
      leaves no successor behind. */
  lemma {:induction false} PostOrderShape(g: Digraph, todo: seq<Stage>, seen: set<Stage>)
    requires g.Valid()
    ensures var r := PostOrder(g, todo, seen);
      && NoDup(r) && ToSet(r) !! seen && ToSet(r) <= g.succ.Keys
      && (forall v :: v in todo && v in g.succ ==> v in seen || v in r)
      && (forall u, w :: u in r && g.HasEdge(u, w) ==> w in seen || w in r)
    decreases g.succ.Keys - seen, |todo|
  {
    if todo == [] {
    } else if todo[0] in seen || todo[0] !in g.succ {
      PostOrderShape(g, todo[1..], seen);
    } else {
      var v := todo[0];
      var sub := PostOrder(g, g.succ[v], seen + {v});
      PostOrderShape(g, g.succ[v], seen + {v});
      assert v !in ToSet(sub);
      NoDupConcat(sub, [v]);
      var block := sub + [v];
      ToSetConcat(sub, [v]);
      PostOrderShape(g, todo[1..], seen + ToSet(block));
      var rest := PostOrder(g, todo[1..], seen + ToSet(block));
      NoDupConcat(block, rest);
      ToSetConcat(block, rest);
      assert forall x :: x in ToSet(block) <==> x in block;
    }
  }

  lemma {:induction false} PostOrderReached(g: Digraph, todo: seq<Stage>, seen: set<Stage>, u: Stage)
    requires g.Valid() && u in PostOrder(g, todo, seen)
    ensures exists t :: t in todo && Reaches(g, t, u)
    decreases g.succ.Keys - seen, |todo|
  {
    if todo[0] in seen || todo[0] !in g.succ {
      PostOrderReached(g, todo[1..], seen, u);
    } else {
      var v := todo[0];
      var sub := PostOrder(g, g.succ[v], seen + {v});
      if u in sub {
        PostOrderReached(g, g.succ[v], seen + {v}, u);
        var t :| t in g.succ[v] && Reaches(g, t, u);
        ReachesStep(g, v, t, u);
      } else if u == v {
        ReachesSelf(g, v);
      } else {
        PostOrderReached(g, todo[1..], seen + ToSet(sub + [v]), u);
      }
    }
  }

  /** Without cycles nothing finished below `v`, nor `v` itself, has an edge back to `v`. */
  lemma NoEdgeBack(g: Digraph, v: Stage, seen: set<Stage>, u: Stage)
    requires g.Valid() && Acyclic(g) && v in g.succ
    requires u == v || u in PostOrder(g, g.succ[v], seen)
    ensures !g.HasEdge(u, v)
  {
    if u == v {
      ReachesSelf(g, v);
    } else {
      PostOrderReached(g, g.succ[v], seen, u);
      var t :| t in g.succ[v] && Reaches(g, t, u);
      ReachesStep(g, v, t, u);
    }
    if g.HasEdge(u, v) {
      EdgeClosesCycle(g, u, v);
    }
  }

  /** The successors of `v` are finished below it. */
  lemma FinishedBelow(g: Digraph, v: Stage, seen: set<Stage>, w: Stage)
    requires g.Valid() && Acyclic(g) && g.HasEdge(v, w)
    ensures w in seen || w in PostOrder(g, g.succ[v], seen + {v})
  {
    PostOrderShape(g, g.succ[v], seen + {v});
    NoEdgeBack(g, v, seen + {v}, v);
  }

  /** Without cycles, post-order is dependency order. */
  lemma {:induction false} PostOrderOrdered(g: Digraph, todo: seq<Stage>, seen: set<Stage>, i: nat, w: Stage)
    requires g.Valid() && Acyclic(g)
    requires i < |PostOrder(g, todo, seen)| && g.HasEdge(PostOrder(g, todo, seen)[i], w)
    ensures w in seen || w in PostOrder(g, todo, seen)[..i]
    decreases g.succ.Keys - seen, |todo|
  {
    if todo[0] in seen || todo[0] !in g.succ {
      PostOrderOrdered(g, todo[1..], seen, i, w);
    } else {
      var v := todo[0];
      var sub := PostOrder(g, g.succ[v], seen + {v});
      var block := sub + [v];
      var rest := PostOrder(g, todo[1..], seen + ToSet(block));
      BlockAt(block, rest, i);
      if i < |sub| {
        assert block[i] == sub[i] && block[..i] == sub[..i];
        PostOrderOrdered(g, g.succ[v], seen + {v}, i, w);
        NoEdgeBack(g, v, seen + {v}, sub[i]);
      } else if i == |sub| {
        assert block[i] == v && block[..i] == sub;
        FinishedBelow(g, v, seen, w);
      } else {
        PostOrderOrdered(g, todo[1..], seen + ToSet(block), i - |block|, w);
      }
    }
  }

  lemma BlockAt(block: seq<Stage>, rest: seq<Stage>, i: nat)
    requires i < |block + rest|
    ensures i < |block| ==> (block + rest)[i] == block[i] && (block + rest)[..i] == block[..i]
    ensures i >= |block| ==>
      && (block + rest)[i] == rest[i - |block|]
      && (forall x :: x in (block + rest)[..i] <==> x in ToSet(block) || x in rest[..i - |block|])
  {
    if i >= |block| {
      assert (block + rest)[..i] == block + rest[..i - |block|];
    }
  }

  /** The traversal from one stage: exactly what it reaches, once each, dependencies first. */
  lemma PostOrderFrom(g: Digraph, root: Stage)
    requires g.Valid() && Acyclic(g) && root in g.succ
    ensures var r := PostOrder(g, [root], {});
      && NoDup(r)
      && (forall u :: u in r <==> Reaches(g, root, u))
      && DependencyOrder(g, r)
  {
    var r := PostOrder(g, [root], {});
    PostOrderShape(g, [root], {});
    forall u | u in r
      ensures Reaches(g, root, u)
    {
      PostOrderReached(g, [root], {}, u);
    }
    forall u | Reaches(g, root, u)
      ensures u in r
    {
      var p :| IsPath(g, p) && p[0] == root && p[|p| - 1] == u;
      ClosedUnderPaths(g, ToSet(r), p);
    }
    forall i, w | 0 <= i < |r| && g.HasEdge(r[i], w)
      ensures w in r[..i]
    {
      PostOrderOrdered(g, [root], {}, i, w);
    }
  }

  /** The order check used in place of a cycle search decides acyclicity exactly. */
  lemma AcyclicIffOrdered(g: Digraph)
    requires g.Valid()
    ensures Acyclic(g) <==> DependencyOrder(g, PostOrder(g, g.nodes, {}))
  {
    var r := PostOrder(g, g.nodes, {});
    PostOrderShape(g, g.nodes, {});
    assert ToSet(r) == g.succ.Keys by {
      forall u | u in g.succ
        ensures u in r
      {
        assert u in ToSet(g.nodes);
      }
    }
    if DependencyOrder(g, r) {
      OrderMeansAcyclic(g, r);
    }
    if Acyclic(g) {
      forall i, w | 0 <= i < |r| && g.HasEdge(r[i], w)
        ensures w in r[..i]
      {
        PostOrderOrdered(g, g.nodes, {}, i, w);
      }
    }
  }
}
