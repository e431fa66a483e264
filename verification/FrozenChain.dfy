/** Stage definitions that are accepted but whose graph cannot be cut at its frozen stages. */
module FrozenChain {
  import opened Common
  import opened Paths
  import opened Stages
  import opened Digraphs
  import opened OutsTrie
  import opened Reproduce
  import opened Engine

  /** A stage that turns one file into another. */
  function Step(name: string, dep: string, out: string, frozen: bool): Stage {
    Stage(name, ["dvc.yaml"], Some("make " + out), frozen, false, [Some([dep])], [Out([out], true)])
  }

  /** Three stages in a row, the later two of them frozen. */
  function ThreeStages(): seq<Stage> {
    [Step("c", "x", "y", false), Step("f", "y", "z", true), Step("d", "z", "w", true)]
  }

  lemma StepPaths(name: string, dep: string, out: string, frozen: bool)
    ensures DepPaths(Step(name, dep, out, frozen)) == {[dep]} && OutPaths(Step(name, dep, out, frozen)) == {[out]}
  {
    var s := Step(name, dep, out, frozen);
    assert s.deps[0] == Some([dep]) && s.outs[0] == Out([out], true);
  }

  lemma StepDependsOn(s: Stage, t: Stage, dep: string, out: string)
    requires DepPaths(s) == {[dep]} && OutPaths(t) == {[out]}
    ensures DependsOn(s, t) <==> dep == out
  {
    assert [dep] in DepPaths(s) && [out] in OutPaths(t);
    OverlapIsPrefix([dep], [out]);
    assert forall d, o :: d in DepPaths(s) && o in OutPaths(t) ==> d == [dep] && o == [out];
  }

  lemma ThreeStagesDepend()
    ensures var t := ThreeStages();
      forall i, j :: 0 <= i < 3 && 0 <= j < 3 ==> (DependsOn(t[i], t[j]) <==> i == j + 1)
  {
    var t := ThreeStages();
    var deps, outs := ["x", "y", "z"], ["y", "z", "w"];
    StepPaths("c", "x", "y", false);
    StepPaths("f", "y", "z", true);
    StepPaths("d", "z", "w", true);
    forall i, j | 0 <= i < 3 && 0 <= j < 3
      ensures DependsOn(t[i], t[j]) <==> i == j + 1
    {
      StepDependsOn(t[i], t[j], deps[i], outs[j]);
    }
  }

  lemma ThreeStagesEdges(g: Digraph)
    requires Graphs.IsDependencyGraph(g, ThreeStages())
    ensures var t := ThreeStages(); forall u, v :: g.HasEdge(u, v) <==> (u, v) in {(t[1], t[0]), (t[2], t[1])}
  {
    var t := ThreeStages();
    ThreeStagesDepend();
    assert t[0] in t && t[1] in t && t[2] in t;
    forall u, v | g.HasEdge(u, v)
      ensures (u, v) in {(t[1], t[0]), (t[2], t[1])}
    {
      assert u in ToSet(t) && v in ToSet(t);
      assert u in t && v in t && DependsOn(u, v);
    }
  }

  /** Stage definitions whose graph, however its edges are listed, cannot be cut. */
  lemma FrozenDefinitionsAbort(g: Digraph)
    requires Graphs.IsDependencyGraph(g, ThreeStages()) && forall s :: s in g.nodes ==> s in g.succ
    ensures Cuts.CutAt(g, g, g.nodes).Err?
  {
    var t := ThreeStages();
    ThreeStagesEdges(g);
    Cuts.FrozenChainAborts(g, t[2], t[1], t[0]);
  }

  /** They are accepted all the same. */
  lemma FrozenDefinitionsAccepted()
    ensures Declared(ThreeStages()) && Acceptable(ThreeStages())
  {
    ThreeStagesOuts();
    ThreeStagesAcyclic();
    ThreeStagesPaths();
    ThreeStagesDeclared();
    NoClash(ThreeStages());
  }

  lemma ThreeStagesDeclared()
    ensures Declared(ThreeStages())
  {
    ThreeStagesPaths();
    forall s, t | s in ThreeStages() && t in ThreeStages() && s.name == t.name
      ensures s == t
    {
    }
  }

  lemma ThreeStagesPaths()
    ensures forall s :: s in ThreeStages() ==> s.path == ["dvc.yaml"] && LocalDeps(s)
    ensures forall o :: o in AllOuts(ThreeStages()) ==> |o.path| == 1 && o.path != ["dvc.yaml"]
  {
    ThreeStagesOuts();
  }

  lemma NoClash(stages: seq<Stage>)
    requires forall s :: s in stages ==> s.path == ["dvc.yaml"]
    requires forall o :: o in AllOuts(stages) ==> |o.path| == 1 && o.path != ["dvc.yaml"]
    ensures !Graphs.StagePathClash(stages)
  {
    forall s, o | s in stages && o in AllOuts(stages)
      ensures !IsInOrEq(s.path, o.path)
    {
      OverlapIsPrefix(s.path, o.path);
      assert s.path[..1] == s.path;
    }
  }

  lemma ThreeStagesOuts()
    ensures var t := ThreeStages();
      AllOuts(t) == [Owned(["y"], t[0]), Owned(["z"], t[1]), Owned(["w"], t[2])] && NonOverlapping(AllOuts(t))
  {
    var t := ThreeStages();
    assert t[..2][..1] == t[..1] && t[..1][..0] == [] && t[..3] == t;
    assert AllOuts(t[..1]) == [Owned(["y"], t[0])];
    assert AllOuts(t[..2]) == [Owned(["y"], t[0]), Owned(["z"], t[1])];
    OverlapIsPrefix(["y"], ["z"]);
    OverlapIsPrefix(["y"], ["w"]);
    OverlapIsPrefix(["z"], ["w"]);
  }

  lemma ThreeStagesAcyclic()
    ensures !Graphs.DependencyCycle(ThreeStages())
  {
    var t := ThreeStages();
    var g := Digraph(t, map[t[0] := [], t[1] := [t[0]], t[2] := [t[1]]]);
    RowOrdered(t[0], t[1], t[2]);
    OrderMeansAcyclic(g, t);
    ThreeStagesDepend();
    RowIsGraph(g, t);
    Graphs.CyclesAreDependencyCycles(g, t);
  }

  lemma RowOrdered(a: Stage, b: Stage, c: Stage)
    requires a != b && a != c && b != c
    ensures var g := Digraph([a, b, c], map[a := [], b := [a], c := [b]]);
      g.Valid() && NoDup([a, b, c]) && ToSet([a, b, c]) == g.succ.Keys && DependencyOrder(g, [a, b, c])
  {
    var t := [a, b, c];
    assert ToSet(t) == {a, b, c};
    assert t[..0] == [] && t[..1] == [a] && t[..2] == [a, b];
  }

  lemma RowIsGraph(g: Digraph, t: seq<Stage>)
    requires |t| == 3 && t[0] != t[1] && t[0] != t[2] && t[1] != t[2]
    requires g == Digraph(t, map[t[0] := [], t[1] := [t[0]], t[2] := [t[1]]]) && g.Valid()
    requires forall i, j :: 0 <= i < 3 && 0 <= j < 3 ==> (DependsOn(t[i], t[j]) <==> i == j + 1)
    ensures Graphs.IsDependencyGraph(g, t)
  {
    forall u, v | u in t && v in t
      ensures g.HasEdge(u, v) <==> DependsOn(u, v)
    {
      var i :| 0 <= i < 3 && t[i] == u;
      var j :| 0 <= j < 3 && t[j] == v;
    }
  }
}
