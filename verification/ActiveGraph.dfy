/** Cutting the stage graph at its frozen stages. */
module ActiveGraph {
  import opened Common
  import opened Stages
  import opened Digraphs

  /** Removing a node that is no longer in the graph raises an error and aborts the run. */
  datatype Error = NodeAbsent(stage: Stage)

  /** The stages a depth-first traversal meets, in pre-order. */
  function PreOrder(g: Digraph, todo: seq<Stage>, seen: set<Stage>): seq<Stage>
    decreases g.succ.Keys - seen, |todo|
  {
    if todo == [] then []
    else if todo[0] in seen || todo[0] !in g.succ then PreOrder(g, todo[1..], seen)
    else
      var v := todo[0];
      var block := [v] + PreOrder(g, g.succ[v], seen + {v});
      block + PreOrder(g, todo[1..], seen + ToSet(block))
  }

  function Without(s: seq<Stage>, v: Stage): (r: seq<Stage>)
    ensures forall u :: u in r <==> u in s && u != v
    ensures v !in s ==> r == s
    ensures NoDup(s) ==> NoDup(r)
  {
    if s == [] then []
    else if s[0] == v then Without(s[1..], v)
    else
      var r := Without(s[1..], v);
      assert NoDup(s) ==> NoDup(s[1..]) && s[0] !in s[1..];
      [s[0]] + r
  }

  function RemoveOutEdges(g: Digraph, v: Stage): Digraph {
    if v in g.succ then g.(succ := g.succ[v := []]) else g
  }

  function RemoveNode(g: Digraph, v: Stage): Digraph {
    Digraph(Without(g.nodes, v), map u | u in g.succ && u != v :: Without(g.succ[u], v))
  }

  /** No stage of the graph has an edge to `v`. */
  predicate Unused(g: Digraph, v: Stage) {
    forall u :: u in g.succ ==> v !in g.succ[u]
  }

  function VisitNode(active: Digraph, v: Stage): Result<Digraph, Error> {
    if v in active.succ && !Unused(active, v) then Ok(active)
    else if v !in active.succ then Err(NodeAbsent(v))
    else Ok(RemoveNode(RemoveOutEdges(active, v), v))
  }

  function VisitNodes(active: Digraph, nodes: seq<Stage>): Result<Digraph, Error>
    decreases |nodes|
  {
    if nodes == [] then Ok(active)
    else
      var r := VisitNode(active, nodes[0]);
      if r.Err? then r else VisitNodes(r.value, nodes[1..])
  }

  function CutBelow(g: Digraph, active: Digraph, targets: seq<Stage>): Result<Digraph, Error>
    decreases |targets|
  {
    if targets == [] then Ok(active)
    else
      var r := VisitNodes(active, PreOrder(g, [targets[0]], {}));
      if r.Err? then r else CutBelow(g, r.value, targets[1..])
  }

  /** The cut at the frozen stages among `stages`. */
  function CutAt(g: Digraph, active: Digraph, stages: seq<Stage>): Result<Digraph, Error>
    requires forall s :: s in stages ==> s in g.succ
    decreases |stages|
  {
    if stages == [] then Ok(active)
    else if !stages[0].frozen then CutAt(g, active, stages[1..])
    else
      var r := CutBelow(g, RemoveOutEdges(active, stages[0]), g.succ[stages[0]]);
      if r.Err? then r else CutAt(g, r.value, stages[1..])
  }

  method GetActiveGraph(g: Digraph) returns (r: Result<Digraph, Error>)
    requires g.Valid()
    ensures forall s :: s in g.nodes ==> s in g.succ
    ensures r == CutAt(g, g, g.nodes)
  {
    assert forall s :: s in g.nodes ==> s in ToSet(g.nodes);
    var active := g;
    for i := 0 to |g.nodes|
      invariant CutAt(g, g, g.nodes) == CutAt(g, active, g.nodes[i..])
    {
      var stage := g.nodes[i];
      assert g.nodes[i..][0] == stage && g.nodes[i..][1..] == g.nodes[i + 1..];
      if stage.frozen {
        r := CutTargets(g, RemoveOutEdges(active, stage), g.succ[stage]);
        if r.Err? {
          return;
        }
        active := r.value;
      }
    }
    r := Ok(active);
  }

  method CutTargets(g: Digraph, start: Digraph, targets: seq<Stage>) returns (r: Result<Digraph, Error>)
    ensures r == CutBelow(g, start, targets)
  {
    var active := start;
    for j := 0 to |targets|
      invariant CutBelow(g, start, targets) == CutBelow(g, active, targets[j..])
    {
      assert targets[j..][0] == targets[j] && targets[j..][1..] == targets[j + 1..];
      r := RemoveUnused(active, PreOrder(g, [targets[j]], {}));
      if r.Err? {
        return;
      }
      active := r.value;
    }
    r := Ok(active);
  }

  method RemoveUnused(start: Digraph, nodes: seq<Stage>) returns (r: Result<Digraph, Error>)
    ensures r == VisitNodes(start, nodes)
  {
    var active := start;
    for k := 0 to |nodes|
      invariant VisitNodes(start, nodes) == VisitNodes(active, nodes[k..])
    {
      var node := nodes[k];
      assert nodes[k..][0] == node && nodes[k..][1..] == nodes[k + 1..];
      if node !in active.succ || Unused(active, node) {
        if node !in active.succ {
          return Err(NodeAbsent(node));
        }
        active := RemoveOutEdges(active, node);
        active := RemoveNode(active, node);
      }
    }
    r := Ok(active);
  }

  /** `u` is reachable from a frozen stage of the graph over at least one edge. */
  ghost predicate BelowFrozen(g: Digraph, u: Stage) {
    exists f: Stage, t :: f.frozen && g.HasEdge(f, t) && Reaches(g, t, u)
  }

  /** What every intermediate graph keeps: the frozen stages in `todo` are still to be cut, and
      only stages in `below` have been removed. */
  ghost predicate CutInvariant(g: Digraph, active: Digraph, todo: seq<Stage>, below: set<Stage>) {
    && active.Valid()
    && active.succ.Keys <= g.succ.Keys
    && (forall u :: u in active.succ ==>
      active.succ[u] == if u.frozen && u !in todo then [] else g.succ[u])
    && g.succ.Keys - active.succ.Keys <= below
  }

  lemma {:induction false} PreOrderReached(g: Digraph, todo: seq<Stage>, seen: set<Stage>, u: Stage)
    requires g.Valid() && u in PreOrder(g, todo, seen)
    ensures u in g.succ && exists t :: t in todo && Reaches(g, t, u)
    decreases g.succ.Keys - seen, |todo|
  {
    if todo[0] in seen || todo[0] !in g.succ {
      PreOrderReached(g, todo[1..], seen, u);
    } else {
      var v := todo[0];
      var sub := PreOrder(g, g.succ[v], seen + {v});
      if u == v {
        ReachesSelf(g, v);
      } else if u in sub {
        PreOrderReached(g, g.succ[v], seen + {v}, u);
        var t :| t in g.succ[v] && Reaches(g, t, u);
        ReachesStep(g, v, t, u);
      } else {
        PreOrderReached(g, todo[1..], seen + ToSet([v] + sub), u);
      }
    }
  }

  lemma RemoveNodeValid(g: Digraph, v: Stage)
    requires g.Valid() && Unused(g, v)
    ensures var r := RemoveNode(g, v);
      r.Valid() && r.succ.Keys == g.succ.Keys - {v} && forall u :: u in r.succ ==> r.succ[u] == g.succ[u]
  {
    var r := RemoveNode(g, v);
    forall x
      ensures x in ToSet(r.nodes) <==> x in r.succ
    {
      assert x in ToSet(g.nodes) <==> x in g.succ;
    }
    forall u | u in r.succ
      ensures r.succ[u] == g.succ[u]
    {
      assert v !in g.succ[u];
    }
  }

  lemma RemoveUnusedNode(g: Digraph, active: Digraph, todo: seq<Stage>, below: set<Stage>, v: Stage)
    requires CutInvariant(g, active, todo, below) && v in active.succ && Unused(active, v) && v in below
    ensures CutInvariant(g, RemoveNode(RemoveOutEdges(active, v), v), todo, below)
  {
    RemoveOutEdgesValid(active, v);
    RemoveNodeValid(RemoveOutEdges(active, v), v);
  }

  lemma {:induction false} VisitNodesKeeps(g: Digraph, active: Digraph, nodes: seq<Stage>, todo: seq<Stage>,
      below: set<Stage>)
    requires CutInvariant(g, active, todo, below)
    requires forall v :: v in nodes ==> v in below
    ensures VisitNodes(active, nodes).Ok? ==> CutInvariant(g, VisitNodes(active, nodes).value, todo, below)
    decreases |nodes|
  {
    if nodes != [] {
      var r := VisitNode(active, nodes[0]);
      if r.Ok? {
        if r.value != active {
          RemoveUnusedNode(g, active, todo, below, nodes[0]);
        }
        VisitNodesKeeps(g, r.value, nodes[1..], todo, below);
      }
    }
  }

  ghost function AllBelowFrozen(g: Digraph): set<Stage> {
    set u | u in g.succ && BelowFrozen(g, u)
  }

  lemma {:induction false} CutBelowKeeps(g: Digraph, active: Digraph, targets: seq<Stage>, f: Stage, todo: seq<Stage>)
    requires g.Valid() && CutInvariant(g, active, todo, AllBelowFrozen(g))
    requires f.frozen && forall t :: t in targets ==> g.HasEdge(f, t)
    ensures CutBelow(g, active, targets).Ok? ==>
      CutInvariant(g, CutBelow(g, active, targets).value, todo, AllBelowFrozen(g))
    decreases |targets|
  {
    if targets != [] {
      var nodes := PreOrder(g, [targets[0]], {});
      forall v | v in nodes
        ensures v in AllBelowFrozen(g)
      {
        PreOrderReached(g, [targets[0]], {}, v);
        assert g.HasEdge(f, targets[0]) && Reaches(g, targets[0], v);
      }
      VisitNodesKeeps(g, active, nodes, todo, AllBelowFrozen(g));
      var r := VisitNodes(active, nodes);
      if r.Ok? {
        CutBelowKeeps(g, r.value, targets[1..], f, todo);
      }
    }
  }

  lemma RemoveOutEdgesValid(g: Digraph, v: Stage)
    requires g.Valid()
    ensures RemoveOutEdges(g, v).Valid() && RemoveOutEdges(g, v).succ.Keys == g.succ.Keys
  {
    var r := RemoveOutEdges(g, v);
    if v in g.succ {
      assert r.succ.Keys == g.succ.Keys;
    }
  }

  lemma CutHead(g: Digraph, active: Digraph, stages: seq<Stage>, below: set<Stage>)
    requires CutInvariant(g, active, stages, below) && NoDup(stages) && stages != []
    ensures CutInvariant(g, if stages[0].frozen then RemoveOutEdges(active, stages[0]) else active, stages[1..], below)
  {
    var s := stages[0];
    var a := if s.frozen then RemoveOutEdges(active, s) else active;
    RemoveOutEdgesValid(active, s);
    assert stages == [s] + stages[1..];
  }

  lemma {:induction false} CutAtKeeps(g: Digraph, active: Digraph, stages: seq<Stage>)
    requires g.Valid() && CutInvariant(g, active, stages, AllBelowFrozen(g)) && NoDup(stages)
    requires forall s :: s in stages ==> s in g.succ
    ensures CutAt(g, active, stages).Ok? ==>
      CutInvariant(g, CutAt(g, active, stages).value, [], AllBelowFrozen(g))
    decreases |stages|
  {
    if stages != [] {
      var s, rest := stages[0], stages[1..];
      CutHead(g, active, stages, AllBelowFrozen(g));
      if !s.frozen {
        CutAtKeeps(g, active, rest);
      } else {
        var a := RemoveOutEdges(active, s);
        CutBelowKeeps(g, a, g.succ[s], s, rest);
        var r := CutBelow(g, a, g.succ[s]);
        if r.Ok? {
          CutAtKeeps(g, r.value, rest);
        }
      }
    }
  }

  /** A completed cut leaves frozen stages without dependencies, leaves every other stage that
      is kept with all its edges and their targets, and removes only what a frozen stage
      reaches. */
  lemma CompletedCut(g: Digraph)
    requires g.Valid()
    requires forall s :: s in g.nodes ==> s in g.succ
    ensures var r := CutAt(g, g, g.nodes); r.Ok? ==>
      && r.value.Valid() && r.value.succ.Keys <= g.succ.Keys
      && (forall u :: u in r.value.succ && u.frozen ==> r.value.succ[u] == [])
      && (forall u :: u in r.value.succ && !u.frozen ==>
        r.value.succ[u] == g.succ[u] && forall v :: v in g.succ[u] ==> v in r.value.succ)
      && (forall u :: u in g.succ && u !in r.value.succ ==> BelowFrozen(g, u))
  {
    forall u | u in g.succ
      ensures u in g.nodes
    {
      assert u in ToSet(g.nodes);
    }
    CutAtKeeps(g, g, g.nodes);
    var r := CutAt(g, g, g.nodes);
    if r.Ok? {
      forall u | u in g.succ && u !in r.value.succ
        ensures BelowFrozen(g, u)
      {
        assert u in AllBelowFrozen(g);
      }
    }
  }

  /** `b` has only nodes and edges of `a`. */
  ghost predicate Within(b: Digraph, a: Digraph) {
    b.succ.Keys <= a.succ.Keys && forall u, v :: u in b.succ && v in b.succ[u] ==> v in a.succ[u]
  }

  lemma {:induction false} VisitNodesWithin(active: Digraph, nodes: seq<Stage>)
    ensures VisitNodes(active, nodes).Ok? ==> Within(VisitNodes(active, nodes).value, active)
    decreases |nodes|
  {
    if nodes != [] && VisitNode(active, nodes[0]).Ok? {
      VisitNodesWithin(VisitNode(active, nodes[0]).value, nodes[1..]);
    }
  }

  lemma {:induction false} CutBelowWithin(g: Digraph, active: Digraph, targets: seq<Stage>)
    ensures CutBelow(g, active, targets).Ok? ==> Within(CutBelow(g, active, targets).value, active)
    decreases |targets|
  {
    if targets != [] {
      var nodes := PreOrder(g, [targets[0]], {});
      VisitNodesWithin(active, nodes);
      if VisitNodes(active, nodes).Ok? {
        CutBelowWithin(g, VisitNodes(active, nodes).value, targets[1..]);
      }
    }
  }

  lemma {:induction false} CutAtWithin(g: Digraph, active: Digraph, stages: seq<Stage>)
    requires forall s :: s in stages ==> s in g.succ
    ensures CutAt(g, active, stages).Ok? ==> Within(CutAt(g, active, stages).value, active)
    decreases |stages|
  {
    if stages != [] {
      if !stages[0].frozen {
        CutAtWithin(g, active, stages[1..]);
      } else {
        var a := RemoveOutEdges(active, stages[0]);
        CutBelowWithin(g, a, g.succ[stages[0]]);
        var r := CutBelow(g, a, g.succ[stages[0]]);
        if r.Ok? {
          CutAtWithin(g, r.value, stages[1..]);
        }
      }
    }
  }

  lemma PreOrderHead(g: Digraph, t: Stage)
    requires t in g.succ
    ensures PreOrder(g, [t], {}) != [] && PreOrder(g, [t], {})[0] == t
  {
  }

  /** A target without dependents is removed, or the cut is aborted. */
  lemma {:induction false} UnusedTargetRemoved(g: Digraph, active: Digraph, targets: seq<Stage>, t: Stage)
    requires t in targets && t in g.succ && Unused(active, t)
    ensures CutBelow(g, active, targets).Ok? ==> t !in CutBelow(g, active, targets).value.succ
    decreases |targets|
  {
    var nodes := PreOrder(g, [targets[0]], {});
    VisitNodesWithin(active, nodes);
    var r := VisitNodes(active, nodes);
    if r.Ok? {
      if targets[0] == t {
        PreOrderHead(g, t);
        VisitNodesWithin(VisitNode(active, t).value, nodes[1..]);
        CutBelowWithin(g, r.value, targets[1..]);
      } else {
        UnusedTargetRemoved(g, r.value, targets[1..], t);
      }
    }
  }

  lemma {:induction false} FrozenDependents(g: Digraph, active: Digraph, stages: seq<Stage>, t: Stage, f: Stage)
    requires g.Valid() && CutInvariant(g, active, stages, AllBelowFrozen(g)) && NoDup(stages)
    requires forall s :: s in stages ==> s in g.succ
    requires forall u :: g.HasEdge(u, t) ==> u.frozen
    requires f in stages && g.HasEdge(f, t)
    ensures CutAt(g, active, stages).Ok? ==> t !in CutAt(g, active, stages).value.succ
    decreases |stages|
  {
    var s, rest := stages[0], stages[1..];
    assert stages == [s] + rest;
    CutHead(g, active, stages, AllBelowFrozen(g));
    if !s.frozen {
      FrozenDependents(g, active, rest, t, f);
    } else {
      var a := RemoveOutEdges(active, s);
      CutBelowKeeps(g, a, g.succ[s], s, rest);
      var r := CutBelow(g, a, g.succ[s]);
      if r.Ok? {
        if later :| later in rest && g.HasEdge(later, t) {
          FrozenDependents(g, r.value, rest, t, later);
        } else {
          UnusedTargetRemoved(g, a, g.succ[s], t);
          CutAtWithin(g, r.value, rest);
        }
      }
    }
  }

  /** A completed cut removes every stage that only frozen stages depend on. */
  lemma FrozenOnlyIsRemoved(g: Digraph, t: Stage)
    requires g.Valid()
    requires forall s :: s in g.nodes ==> s in g.succ
    requires (exists f :: g.HasEdge(f, t)) && forall f :: g.HasEdge(f, t) ==> f.frozen
    ensures CutAt(g, g, g.nodes).Ok? ==> t !in CutAt(g, g, g.nodes).value.succ
  {
    var f :| g.HasEdge(f, t);
    assert f in ToSet(g.nodes);
    forall u | u in g.succ ensures u in g.nodes {
      assert u in ToSet(g.nodes);
    }
    FrozenDependents(g, g, g.nodes, t, f);
  }

  // When the cut completes.

  /** A stage met by the traversal below a frozen stage, with the frozen stages whose turn has
      come by then. */
  datatype Visit = Visit(cut: set<Stage>, stage: Stage)

  function Visited(cut: set<Stage>, nodes: seq<Stage>): seq<Visit> {
    seq(|nodes|, i requires 0 <= i < |nodes| => Visit(cut, nodes[i]))
  }

  function TurnVisits(g: Digraph, cut: set<Stage>, targets: seq<Stage>): seq<Visit> {
    if targets == [] then []
    else Visited(cut, PreOrder(g, [targets[0]], {})) + TurnVisits(g, cut, targets[1..])
  }

  /** All visits, in order: frozen stages take their turns in node order, and each traverses the
      graph from each of its dependencies. */
  function Visits(g: Digraph, cut: set<Stage>, stages: seq<Stage>): seq<Visit>
    requires forall s :: s in stages ==> s in g.succ
    decreases |stages|
  {
    if stages == [] then []
    else if !stages[0].frozen then Visits(g, cut, stages[1..])
    else
      var now := cut + {stages[0]};
      TurnVisits(g, now, g.succ[stages[0]]) + Visits(g, now, stages[1..])
  }

  /** Nothing that is left depends on the visited stage: each dependent is a frozen stage whose
      turn has come, or gone. */
  ghost predicate Freed(g: Digraph, v: Visit, gone: set<Stage>) {
    forall u :: g.HasEdge(u, v.stage) ==> u in gone || u in v.cut
  }

  /** The stages that are gone after the visits. */
  ghost function Gone(g: Digraph, visits: seq<Visit>): set<Stage> {
    if visits == [] then {}
    else
      var before, v := Gone(g, visits[..|visits| - 1]), visits[|visits| - 1];
      if Freed(g, v, before) then before + {v.stage} else before
  }

  /** No stage is visited after it is gone. */
  ghost predicate NoneMetAgain(g: Digraph, visits: seq<Visit>) {
    forall k :: 0 <= k < |visits| ==> visits[k].stage !in Gone(g, visits[..k])
  }

  /** The graph that is left when `gone` is gone and the stages in `cut` have lost their edges. */
  ghost predicate Leaves(g: Digraph, active: Digraph, cut: set<Stage>, gone: set<Stage>) {
    && active.succ.Keys == g.succ.Keys - gone
    && forall u :: u in active.succ ==> active.succ[u] == if u in cut then [] else g.succ[u]
  }

  lemma UnusedIffFreed(g: Digraph, active: Digraph, v: Visit, gone: set<Stage>)
    requires Leaves(g, active, v.cut, gone)
    ensures Unused(active, v.stage) <==> Freed(g, v, gone)
  {
  }

  lemma VisitLeaves(g: Digraph, active: Digraph, v: Visit, gone: set<Stage>)
    requires Leaves(g, active, v.cut, gone) && v.stage in g.succ
    ensures var r := VisitNode(active, v.stage);
      if v.stage in gone then r.Err?
      else r.Ok? && Leaves(g, r.value, v.cut, if Freed(g, v, gone) then gone + {v.stage} else gone)
  {
    UnusedIffFreed(g, active, v, gone);
  }

  /** The visits `visits` can be made after `done` without meeting a gone stage. */
  ghost predicate MeetsNone(g: Digraph, done: seq<Visit>, visits: seq<Visit>) {
    forall k :: 0 <= k < |visits| ==> visits[k].stage !in Gone(g, done + visits[..k])
  }

  lemma MeetsNoneConcat(g: Digraph, done: seq<Visit>, a: seq<Visit>, b: seq<Visit>)
    ensures MeetsNone(g, done, a + b) <==> MeetsNone(g, done, a) && MeetsNone(g, done + a, b)
  {
    forall k | 0 <= k < |a|
      ensures done + (a + b)[..k] == done + a[..k]
    {
    }
    forall k | 0 <= k < |b|
      ensures done + (a + b)[..|a| + k] == done + a + b[..k] && (a + b)[|a| + k] == b[k]
    {
    }
    if MeetsNone(g, done, a + b) {
      forall k | 0 <= k < |a|
        ensures a[k].stage !in Gone(g, done + a[..k])
      {
        assert (a + b)[k] == a[k];
      }
      forall k | 0 <= k < |b|
        ensures b[k].stage !in Gone(g, done + a + b[..k])
      {
        assert (a + b)[|a| + k] == b[k];
      }
    }
  }

  lemma GoneAppend(g: Digraph, done: seq<Visit>, v: Visit)
    ensures Gone(g, done + [v]) == if Freed(g, v, Gone(g, done)) then Gone(g, done) + {v.stage} else Gone(g, done)
    ensures MeetsNone(g, done, [v]) <==> v.stage !in Gone(g, done)
  {
    assert (done + [v])[..|done|] == done;
    assert done + [v][..0] == done;
    assert MeetsNone(g, done, [v]) ==> [v][0].stage !in Gone(g, done + [v][..0]);
  }

  lemma {:induction false} VisitNodesLeaves(g: Digraph, active: Digraph, cut: set<Stage>, nodes: seq<Stage>,
      done: seq<Visit>)
    requires Leaves(g, active, cut, Gone(g, done)) && forall v :: v in nodes ==> v in g.succ
    ensures var r := VisitNodes(active, nodes);
      && (r.Ok? <==> MeetsNone(g, done, Visited(cut, nodes)))
      && (r.Ok? ==> Leaves(g, r.value, cut, Gone(g, done + Visited(cut, nodes))))
    decreases |nodes|
  {
    if nodes == [] {
      assert done + Visited(cut, nodes) == done;
    } else {
      var v, rest := Visit(cut, nodes[0]), Visited(cut, nodes[1..]);
      assert Visited(cut, nodes) == [v] + rest && done + ([v] + rest) == done + [v] + rest;
      VisitLeaves(g, active, v, Gone(g, done));
      GoneAppend(g, done, v);
      MeetsNoneConcat(g, done, [v], rest);
      var r := VisitNode(active, v.stage);
      if r.Ok? {
        VisitNodesLeaves(g, r.value, cut, nodes[1..], done + [v]);
      }
    }
  }

  lemma {:induction false} CutBelowLeaves(g: Digraph, active: Digraph, cut: set<Stage>, targets: seq<Stage>,
      done: seq<Visit>)
    requires g.Valid() && Leaves(g, active, cut, Gone(g, done))
    ensures var r := CutBelow(g, active, targets);
      && (r.Ok? <==> MeetsNone(g, done, TurnVisits(g, cut, targets)))
      && (r.Ok? ==> Leaves(g, r.value, cut, Gone(g, done + TurnVisits(g, cut, targets))))
    decreases |targets|
  {
    if targets == [] {
      assert done + TurnVisits(g, cut, targets) == done;
    } else {
      var nodes := PreOrder(g, [targets[0]], {});
      forall v | v in nodes ensures v in g.succ {
        PreOrderReached(g, [targets[0]], {}, v);
      }
      var first, rest := Visited(cut, nodes), TurnVisits(g, cut, targets[1..]);
      assert done + (first + rest) == done + first + rest;
      VisitNodesLeaves(g, active, cut, nodes, done);
      MeetsNoneConcat(g, done, first, rest);
      var r := VisitNodes(active, nodes);
      if r.Ok? {
        CutBelowLeaves(g, r.value, cut, targets[1..], done + first);
      }
    }
  }

  lemma TurnLeaves(g: Digraph, active: Digraph, cut: set<Stage>, gone: set<Stage>, s: Stage)
    requires Leaves(g, active, cut, gone)
    ensures Leaves(g, RemoveOutEdges(active, s), cut + {s}, gone)
  {
  }

  lemma {:induction false} CutAtLeaves(g: Digraph, active: Digraph, cut: set<Stage>, stages: seq<Stage>,
      done: seq<Visit>)
    requires g.Valid() && Leaves(g, active, cut, Gone(g, done))
    requires forall s :: s in stages ==> s in g.succ
    ensures var r := CutAt(g, active, stages);
      && (r.Ok? <==> MeetsNone(g, done, Visits(g, cut, stages)))
      && (r.Ok? ==> r.value.succ.Keys == g.succ.Keys - Gone(g, done + Visits(g, cut, stages)))
    decreases |stages|
  {
    if stages == [] {
      assert done + Visits(g, cut, stages) == done;
    } else if !stages[0].frozen {
      CutAtLeaves(g, active, cut, stages[1..], done);
    } else {
      var s := stages[0];
      var now := cut + {s};
      var first, rest := TurnVisits(g, now, g.succ[s]), Visits(g, now, stages[1..]);
      assert done + (first + rest) == done + first + rest;
      TurnLeaves(g, active, cut, Gone(g, done), s);
      var a := RemoveOutEdges(active, s);
      CutBelowLeaves(g, a, now, g.succ[s], done);
      MeetsNoneConcat(g, done, first, rest);
      var r := CutBelow(g, a, g.succ[s]);
      if r.Ok? {
        CutAtLeaves(g, r.value, now, stages[1..], done + first);
      }
    }
  }

  lemma MeetsNoneFirst(g: Digraph, visits: seq<Visit>)
    ensures MeetsNone(g, [], visits) <==> NoneMetAgain(g, visits)
  {
    forall k | 0 <= k < |visits|
      ensures [] + visits[..k] == visits[..k]
    {
    }
  }

  /** The cut completes exactly when no stage is visited after it is gone, and then removes
      exactly the stages that are gone in the end. */
  lemma CutCompletesIff(g: Digraph)
    requires g.Valid() && forall s :: s in g.nodes ==> s in g.succ
    ensures CutAt(g, g, g.nodes).Ok? <==> NoneMetAgain(g, Visits(g, {}, g.nodes))
    ensures CutAt(g, g, g.nodes).Ok? ==>
      CutAt(g, g, g.nodes).value.succ.Keys == g.succ.Keys - Gone(g, Visits(g, {}, g.nodes))
  {
    var visits := Visits(g, {}, g.nodes);
    CutAtLeaves(g, g, {}, g.nodes, []);
    MeetsNoneFirst(g, visits);
    assert [] + visits == visits;
  }

  lemma {:induction false} GoneWereVisited(g: Digraph, visits: seq<Visit>, s: Stage)
    requires s in Gone(g, visits)
    ensures exists k :: 0 <= k < |visits| && visits[k].stage == s
  {
    var n := |visits| - 1;
    if s in Gone(g, visits[..n]) {
      GoneWereVisited(g, visits[..n], s);
    }
  }

  /** In particular it completes when no stage is visited twice. */
  lemma MetOnceCompletes(g: Digraph)
    requires g.Valid() && forall s :: s in g.nodes ==> s in g.succ
    requires forall i, j :: 0 <= i < j < |Visits(g, {}, g.nodes)| ==>
      Visits(g, {}, g.nodes)[i].stage != Visits(g, {}, g.nodes)[j].stage
    ensures CutAt(g, g, g.nodes).Ok?
  {
    var visits := Visits(g, {}, g.nodes);
    forall k | 0 <= k < |visits|
      ensures visits[k].stage !in Gone(g, visits[..k])
    {
      if visits[k].stage in Gone(g, visits[..k]) {
        GoneWereVisited(g, visits[..k], visits[k].stage);
      }
    }
    CutCompletesIff(g);
  }

  // Two shapes that always abort, whatever surrounds them.

  lemma {:induction false} PreOrderContains(g: Digraph, todo: seq<Stage>, seen: set<Stage>, t: Stage)
    requires t in todo && t in g.succ && t !in seen
    ensures t in PreOrder(g, todo, seen)
    decreases |todo|
  {
    if todo[0] in seen || todo[0] !in g.succ {
      PreOrderContains(g, todo[1..], seen, t);
    } else if todo[0] != t {
      var block := [todo[0]] + PreOrder(g, g.succ[todo[0]], seen + {todo[0]});
      if t !in block {
        PreOrderContains(g, todo[1..], seen + ToSet(block), t);
      }
    }
  }

  /** The traversal from a stage starts with it and meets its dependencies. */
  lemma PreOrderFrom(g: Digraph, t: Stage, c: Stage)
    requires g.Valid() && t in g.succ && (c == t || c in g.succ[t])
    ensures var nodes := PreOrder(g, [t], {});
      nodes != [] && nodes[0] == t && c in nodes && (c != t ==> c in nodes[1..])
  {
    PreOrderHead(g, t);
    var sub := PreOrder(g, g.succ[t], {} + {t});
    var nodes := PreOrder(g, [t], {});
    assert nodes == [t] + sub + PreOrder(g, [t][1..], {} + ToSet([t] + sub));
    if c != t {
      PreOrderContains(g, g.succ[t], {} + {t}, c);
      assert c in nodes[1..] by { assert nodes[1..] == sub + PreOrder(g, [t][1..], {} + ToSet([t] + sub)); }
    }
  }

  lemma {:induction false} AbsentNodeAborts(active: Digraph, nodes: seq<Stage>, c: Stage)
    requires c in nodes && c !in active.succ
    ensures VisitNodes(active, nodes).Err?
    decreases |nodes|
  {
    if nodes[0] != c && VisitNode(active, nodes[0]).Ok? {
      AbsentNodeAborts(VisitNode(active, nodes[0]).value, nodes[1..], c);
    }
  }

  lemma {:induction false} AbsentBelowAborts(g: Digraph, active: Digraph, targets: seq<Stage>, t: Stage, c: Stage)
    requires t in targets && c in PreOrder(g, [t], {}) && c !in active.succ
    ensures CutBelow(g, active, targets).Err?
    decreases |targets|
  {
    var nodes := PreOrder(g, [targets[0]], {});
    if targets[0] == t {
      AbsentNodeAborts(active, nodes, c);
    } else if VisitNodes(active, nodes).Ok? {
      VisitNodesWithin(active, nodes);
      AbsentBelowAborts(g, VisitNodes(active, nodes).value, targets[1..], t, c);
    }
  }

  /** Meeting an absent stage below a frozen one whose turn is to come aborts the cut. */
  lemma {:induction false} AbsentLaterAborts(g: Digraph, active: Digraph, stages: seq<Stage>, f: Stage, t: Stage,
      c: Stage)
    requires forall s :: s in stages ==> s in g.succ
    requires f in stages && f.frozen && g.HasEdge(f, t) && c in PreOrder(g, [t], {}) && c !in active.succ
    ensures CutAt(g, active, stages).Err?
    decreases |stages|
  {
    var s := stages[0];
    if !s.frozen {
      AbsentLaterAborts(g, active, stages[1..], f, t, c);
    } else {
      var a := RemoveOutEdges(active, s);
      if s == f {
        AbsentBelowAborts(g, a, g.succ[f], t, c);
      } else if CutBelow(g, a, g.succ[s]).Ok? {
        CutBelowWithin(g, a, g.succ[s]);
        AbsentLaterAborts(g, CutBelow(g, a, g.succ[s]).value, stages[1..], f, t, c);
      }
    }
  }

  lemma {:induction false} UnusedNodeRemoved(active: Digraph, nodes: seq<Stage>, c: Stage)
    requires c in nodes && Unused(active, c)
    ensures VisitNodes(active, nodes).Ok? ==> c !in VisitNodes(active, nodes).value.succ
    decreases |nodes|
  {
    if VisitNode(active, nodes[0]).Ok? {
      var r := VisitNode(active, nodes[0]).value;
      VisitNodesWithin(r, nodes[1..]);
      if nodes[0] != c {
        UnusedNodeRemoved(r, nodes[1..], c);
      }
    }
  }

  /** Only `a` still depends on `c`. */
  ghost predicate OnlyUser(active: Digraph, a: Stage, c: Stage) {
    forall u :: u in active.succ && c in active.succ[u] ==> u == a
  }

  /** The traversal from an unused stage also removes a dependency that no other stage uses. */
  lemma RemovedTogether(g: Digraph, active: Digraph, a: Stage, c: Stage)
    requires g.Valid() && g.HasEdge(a, c) && a != c && Unused(active, a) && OnlyUser(active, a, c)
    ensures var r := VisitNodes(active, PreOrder(g, [a], {}));
      r.Ok? ==> c !in r.value.succ
  {
    var nodes := PreOrder(g, [a], {});
    PreOrderFrom(g, a, c);
    if VisitNode(active, a).Ok? {
      var r := VisitNode(active, a).value;
      assert Unused(r, c);
      UnusedNodeRemoved(r, nodes[1..], c);
    }
  }

  lemma {:induction false} RemovedBelow(g: Digraph, active: Digraph, targets: seq<Stage>, a: Stage, c: Stage)
    requires g.Valid() && g.HasEdge(a, c) && a != c && a in targets && Unused(active, a) && OnlyUser(active, a, c)
    ensures CutBelow(g, active, targets).Ok? ==> c !in CutBelow(g, active, targets).value.succ
    decreases |targets|
  {
    var nodes := PreOrder(g, [targets[0]], {});
    VisitNodesWithin(active, nodes);
    if VisitNodes(active, nodes).Ok? {
      var r := VisitNodes(active, nodes).value;
      if targets[0] == a {
        RemovedTogether(g, active, a, c);
        CutBelowWithin(g, r, targets[1..]);
      } else {
        RemovedBelow(g, r, targets[1..], a, c);
      }
    }
  }

  /** Once the turns of all that depend on it have come, nothing uses a stage. */
  lemma CutUsers(g: Digraph, active: Digraph, todo: seq<Stage>, t: Stage)
    requires CutInvariant(g, active, todo, AllBelowFrozen(g))
    requires forall u :: g.HasEdge(u, t) ==> u.frozen && u !in todo
    ensures Unused(active, t)
  {
  }

  lemma OnlyUserLeft(g: Digraph, active: Digraph, todo: seq<Stage>, a: Stage, c: Stage)
    requires CutInvariant(g, active, todo, AllBelowFrozen(g))
    requires forall u :: g.HasEdge(u, c) ==> u == a || (u.frozen && u !in todo)
    ensures OnlyUser(active, a, c)
  {
  }

  /** The frozen stage `f` is used by frozen stages only, and is the only user of `c`. */
  ghost predicate ChainEnd(g: Digraph, f: Stage, c: Stage) {
    && f.frozen && f != c && g.HasEdge(f, c)
    && (forall u :: g.HasEdge(u, c) ==> u == f)
    && (forall u :: g.HasEdge(u, f) ==> u.frozen && u != f)
  }

  /** When the turn of `f` has come, `c` is gone. */
  lemma ChainOwnTurn(g: Digraph, a: Digraph, rest: seq<Stage>, f: Stage, c: Stage)
    requires g.Valid() && CutInvariant(g, a, rest, AllBelowFrozen(g)) && f !in rest && ChainEnd(g, f, c)
    ensures CutBelow(g, a, g.succ[f]).Ok? ==> c !in CutBelow(g, a, g.succ[f]).value.succ
    ensures c in PreOrder(g, [f], {})
  {
    CutUsers(g, a, rest, c);
    UnusedTargetRemoved(g, a, g.succ[f], c);
    PreOrderFrom(g, f, c);
  }

  /** When the turns of all that depend on `f` have come, `c` is gone. */
  lemma ChainUserTurn(g: Digraph, a: Digraph, s: Stage, rest: seq<Stage>, f: Stage, c: Stage)
    requires g.Valid() && CutInvariant(g, a, rest, AllBelowFrozen(g)) && ChainEnd(g, f, c) && g.HasEdge(s, f)
    requires forall u :: g.HasEdge(u, f) ==> u !in rest
    ensures CutBelow(g, a, g.succ[s]).Ok? ==> c !in CutBelow(g, a, g.succ[s]).value.succ
    ensures c in PreOrder(g, [c], {})
  {
    CutUsers(g, a, rest, f);
    OnlyUserLeft(g, a, rest, f, c);
    RemovedBelow(g, a, g.succ[s], f, c);
    PreOrderFrom(g, c, c);
  }

  lemma {:induction false} ChainFrom(g: Digraph, active: Digraph, stages: seq<Stage>, f: Stage, c: Stage, d: Stage)
    requires g.Valid() && CutInvariant(g, active, stages, AllBelowFrozen(g)) && NoDup(stages)
    requires forall s :: s in stages ==> s in g.succ
    requires ChainEnd(g, f, c)
    requires f in stages && d in stages && g.HasEdge(d, f)
    ensures CutAt(g, active, stages).Err?
    decreases |stages|
  {
    var s, rest := stages[0], stages[1..];
    assert stages == [s] + rest;
    CutHead(g, active, stages, AllBelowFrozen(g));
    if !s.frozen {
      ChainFrom(g, active, rest, f, c, d);
    } else {
      var a := RemoveOutEdges(active, s);
      CutBelowKeeps(g, a, g.succ[s], s, rest);
      if CutBelow(g, a, g.succ[s]).Ok? {
        ChainTurn(g, a, s, rest, f, c, d);
      }
    }
  }

  lemma {:induction false} ChainTurn(g: Digraph, a: Digraph, s: Stage, rest: seq<Stage>, f: Stage, c: Stage, d: Stage)
    requires g.Valid() && CutInvariant(g, a, rest, AllBelowFrozen(g)) && NoDup([s] + rest)
    requires s in g.succ && forall u :: u in rest ==> u in g.succ
    requires s.frozen && CutBelow(g, a, g.succ[s]).Ok?
    requires CutInvariant(g, CutBelow(g, a, g.succ[s]).value, rest, AllBelowFrozen(g))
    requires ChainEnd(g, f, c)
    requires f in [s] + rest && d in [s] + rest && g.HasEdge(d, f)
    ensures CutAt(g, CutBelow(g, a, g.succ[s]).value, rest).Err?
    decreases |rest| + 1, 0
  {
    var r := CutBelow(g, a, g.succ[s]).value;
    assert NoDup(rest) && s !in rest by { NoDupTail(s, rest); }
    if s == f {
      ChainOwnTurn(g, a, rest, f, c);
      AbsentLaterAborts(g, r, rest, d, f, c);
    } else if later :| later in rest && g.HasEdge(later, f) {
      ChainFrom(g, r, rest, f, c, later);
    } else {
      ChainUserTurn(g, a, s, rest, f, c);
      AbsentLaterAborts(g, r, rest, f, c, c);
    }
  }

  lemma NoDupTail(s: Stage, rest: seq<Stage>)
    requires NoDup([s] + rest)
    ensures NoDup(rest) && s !in rest
  {
    var all := [s] + rest;
    forall i, j | 0 <= i < j < |rest|
      ensures rest[i] != rest[j]
    {
      assert all[i + 1] != all[j + 1];
    }
    forall i | 0 <= i < |rest|
      ensures rest[i] != s
    {
      assert all[i + 1] != all[0];
    }
  }

  /** A frozen stage that only frozen stages depend on, with a dependency of its own that nothing
      else uses, aborts the cut in any graph: the dependency is met below the stage and from it. */
  lemma FrozenChainAborts(g: Digraph, d: Stage, f: Stage, c: Stage)
    requires g.Valid() && forall s :: s in g.nodes ==> s in g.succ
    requires ChainEnd(g, f, c) && g.HasEdge(d, f)
    ensures CutAt(g, g, g.nodes).Err?
  {
    assert d in ToSet(g.nodes) && f in ToSet(g.nodes);
    forall u | u in g.succ ensures u in g.nodes {
      assert u in ToSet(g.nodes);
    }
    ChainFrom(g, g, g.nodes, f, c, d);
  }

  lemma {:induction false} SharedBelow(g: Digraph, active: Digraph, targets: seq<Stage>, i: nat, j: nat)
    requires g.Valid() && i < j < |targets| && g.HasEdge(targets[i], targets[j]) && targets[i] != targets[j]
    requires Unused(active, targets[i]) && OnlyUser(active, targets[i], targets[j])
    ensures CutBelow(g, active, targets).Err?
    decreases |targets|
  {
    var nodes := PreOrder(g, [targets[0]], {});
    VisitNodesWithin(active, nodes);
    if VisitNodes(active, nodes).Ok? {
      var r := VisitNodes(active, nodes).value;
      if i == 0 {
        RemovedTogether(g, active, targets[0], targets[j]);
        PreOrderFrom(g, targets[j], targets[j]);
        assert targets[1..][j - 1] == targets[j];
        AbsentBelowAborts(g, r, targets[1..], targets[j], targets[j]);
      } else {
        SharedBelow(g, r, targets[1..], i - 1, j - 1);
      }
    }
  }

  lemma {:induction false} SharedFrom(g: Digraph, active: Digraph, stages: seq<Stage>, f: Stage, i: nat, j: nat)
    requires g.Valid() && CutInvariant(g, active, stages, AllBelowFrozen(g)) && NoDup(stages)
    requires forall s :: s in stages ==> s in g.succ
    requires f in stages && f.frozen && i < j < |g.succ[f]|
    requires g.HasEdge(g.succ[f][i], g.succ[f][j]) && g.succ[f][i] != g.succ[f][j] && f != g.succ[f][i]
    requires forall u :: g.HasEdge(u, g.succ[f][i]) ==> u == f
    requires forall u :: g.HasEdge(u, g.succ[f][j]) ==> u == f || u == g.succ[f][i]
    ensures CutAt(g, active, stages).Err?
    decreases |stages|
  {
    var s, rest := stages[0], stages[1..];
    assert stages == [s] + rest;
    NoDupTail(s, rest);
    CutHead(g, active, stages, AllBelowFrozen(g));
    if !s.frozen {
      SharedFrom(g, active, rest, f, i, j);
    } else {
      var a := RemoveOutEdges(active, s);
      CutBelowKeeps(g, a, g.succ[s], s, rest);
      if s == f {
        CutUsers(g, a, rest, g.succ[f][i]);
        OnlyUserLeft(g, a, rest, g.succ[f][i], g.succ[f][j]);
        SharedBelow(g, a, g.succ[f], i, j);
      } else if CutBelow(g, a, g.succ[s]).Ok? {
        SharedFrom(g, CutBelow(g, a, g.succ[s]).value, rest, f, i, j);
      }
    }
  }

  /** A frozen stage with dependencies a and, later, b, where a also depends on b and nothing
      else depends on either, aborts the cut in any graph: b is removed below a and met again. */
  lemma SharedDependencyAborts(g: Digraph, f: Stage, i: nat, j: nat)
    requires g.Valid() && forall s :: s in g.nodes ==> s in g.succ
    requires f in g.succ && f.frozen && i < j < |g.succ[f]|
    requires var a, b := g.succ[f][i], g.succ[f][j];
      && g.HasEdge(a, b) && a != b && f != a
      && (forall u :: g.HasEdge(u, a) ==> u == f) && (forall u :: g.HasEdge(u, b) ==> u == f || u == a)
    ensures CutAt(g, g, g.nodes).Err?
  {
    assert f in ToSet(g.nodes);
    forall u | u in g.succ ensures u in g.nodes {
      assert u in ToSet(g.nodes);
    }
    SharedFrom(g, g, g.nodes, f, i, j);
  }

  /** `f` depends on `a` and `b`, and `a` on `b`. */
  function Triangle(f: Stage, a: Stage, b: Stage): Digraph {
    Digraph([f, a, b], map[f := [a, b], a := [b], b := []])
  }

  lemma TriangleAcyclic(f: Stage, a: Stage, b: Stage)
    requires f != a && f != b && a != b
    ensures Triangle(f, a, b).Valid() && Acyclic(Triangle(f, a, b))
  {
    var g := Triangle(f, a, b);
    assert ToSet(g.nodes) == {f, a, b};
    var order := [b, a, f];
    assert ToSet(order) == g.succ.Keys;
    assert order[..1] == [b] && order[..2] == [b, a];
    assert DependencyOrder(g, order);
    OrderMeansAcyclic(g, order);
  }

  /** Such graphs are accepted: this one has no cycle. */
  lemma TriangleAborts(f: Stage, a: Stage, b: Stage)
    requires f.frozen && !a.frozen && !b.frozen && a != b
    ensures var g := Triangle(f, a, b); g.Valid() && Acyclic(g) && CutAt(g, g, g.nodes).Err?
  {
    TriangleAcyclic(f, a, b);
    SharedDependencyAborts(Triangle(f, a, b), f, 0, 1);
  }

  /** Listed the other way round, the same dependencies let the cut complete: when b is first met
      it is still in use. */
  lemma ReversedTriangleCompletes(f: Stage, a: Stage, b: Stage)
    requires f.frozen && !a.frozen && !b.frozen && a != b
    ensures var g := Digraph([f, a, b], map[f := [b, a], a := [b], b := []]);
      g.Valid() && CutAt(g, g, g.nodes).Ok?
  {
    var g := Digraph([f, a, b], map[f := [b, a], a := [b], b := []]);
    assert ToSet(g.nodes) == {f, a, b};
    ReversedVisits(g, f, a, b);
    ReversedGone(g, Visit({f}, b), Visit({f}, a));
    CutCompletesIff(g);
  }

  /** A stage met first while another uses it, and again when that one is gone. */
  lemma ReversedGone(g: Digraph, v: Visit, w: Visit)
    requires g.HasEdge(w.stage, v.stage) && w.stage !in v.cut && v.stage != w.stage
    ensures NoneMetAgain(g, [v, w, v])
  {
    GoneAppend(g, [], v);
    GoneAppend(g, [v], w);
    assert [] + [v] == [v] && [v] + [w] == [v, w];
    var visits := [v, w, v];
    assert visits[..0] == [] && visits[..1] == [v] && visits[..2] == [v, w];
  }

  lemma ReversedVisits(g: Digraph, f: Stage, a: Stage, b: Stage)
    requires g == Digraph([f, a, b], map[f := [b, a], a := [b], b := []])
    requires f.frozen && !a.frozen && !b.frozen && a != b
    ensures Visits(g, {}, g.nodes) == [Visit({f}, b), Visit({f}, a), Visit({f}, b)]
  {
    var none: set<Stage> := {};
    assert g.succ[f] == [b, a] && g.succ[a] == [b] && g.succ[b] == [];
    assert [b][1..] == [] && [a][1..] == [] && [b, a][1..] == [a];
    assert PreOrder(g, [b], none) == [b];
    assert PreOrder(g, [b], none + {a}) == [b];
    assert PreOrder(g, [a], none) == [a, b];
    assert none + {f} == {f};
    assert TurnVisits(g, {f}, [a]) == [Visit({f}, a), Visit({f}, b)];
    assert TurnVisits(g, {f}, [b, a]) == [Visit({f}, b)] + [Visit({f}, a), Visit({f}, b)];
    assert g.nodes[1..] == [a, b] && [a, b][1..] == [b];
    assert Visits(g, {f}, []) == [] && Visits(g, {f}, [b]) == Visits(g, {f}, [b][1..]);
    assert Visits(g, {f}, [a, b]) == Visits(g, {f}, [a, b][1..]);
  }
}
