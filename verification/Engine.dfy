/** Reproduction from stage definitions to workspace: graph, cut, pipeline and run loop together. */
module Engine {
  import opened Common
  import opened Paths
  import opened Stages
  import opened Digraphs
  import opened OutsTrie
  import opened Files
  import opened Builds
  import opened Reproduce
  import Graphs = BuildGraph
  import Cuts = ActiveGraph
  import Pipelines = Pipeline

  datatype ReproError =
    | BadGraph(graphError: Graphs.GraphError)
    | CutAborted(cutError: Cuts.Error)
    | BadTarget(targetError: Pipelines.Error)
    | StageFailed(stage: Stage)

  /** A graph with fewer nodes and edges has no more cycles. */
  lemma SubgraphAcyclic(g: Digraph, active: Digraph)
    requires Acyclic(g) && active.succ.Keys <= g.succ.Keys
    requires forall u, v :: active.HasEdge(u, v) ==> g.HasEdge(u, v)
    ensures Acyclic(active)
  {
    forall p | IsPath(active, p) && |p| >= 2
      ensures p[0] != p[|p| - 1]
    {
      forall i | 0 <= i < |p| - 1
        ensures g.HasEdge(p[i], p[i + 1])
      {
        assert active.HasEdge(p[i], p[i + 1]);
      }
      assert IsPath(g, p);
    }
  }

  lemma OutputsApart(stages: seq<Stage>, s: Stage, t: Stage)
    requires NonOverlapping(AllOuts(stages)) && s in stages && t in stages && s != t
    ensures Apart(OutPaths(s), OutPaths(t))
  {
    var outs := AllOuts(stages);
    forall p, q | p in OutPaths(s) && q in OutPaths(t)
      ensures !Overlaps(p, q)
    {
      Graphs.AllOutsMembers(stages, Owned(p, s));
      Graphs.AllOutsMembers(stages, Owned(q, t));
      var i :| 0 <= i < |outs| && outs[i] == Owned(p, s);
      var j :| 0 <= j < |outs| && outs[j] == Owned(q, t);
      OverlapIsPrefix(p, q);
    }
  }

  lemma OutputsOfOneStageApart(stages: seq<Stage>, s: Stage)
    requires NonOverlapping(AllOuts(stages)) && s in stages
    ensures OwnOutsApart(s)
  {
    var k :| 0 <= k < |stages| && stages[k] == s;
    AllOutsPrefix(stages, k + 1);
    assert stages[..k + 1][..k] == stages[..k];
    var before, own := AllOuts(stages[..k]), OwnedOuts(s, s.outs);
    assert before + own <= AllOuts(stages);
    forall i, j | 0 <= i < j < |s.outs|
      ensures !Overlaps(s.outs[i].path, s.outs[j].path)
    {
      assert AllOuts(stages)[|before| + i] == (before + own)[|before| + i] == own[i];
      assert AllOuts(stages)[|before| + j] == (before + own)[|before| + j] == own[j];
    }
  }

  /** On an accepted graph, cut at its frozen stages, the pipeline for any targets can be run
      in order. */
  lemma PipelineReady(g: Digraph, stages: seq<Stage>, active: Digraph, targets: seq<Stage>)
    requires Graphs.IsDependencyGraph(g, stages) && Acyclic(g) && NonOverlapping(AllOuts(stages))
    requires forall s :: s in g.nodes ==> s in g.succ
    requires Cuts.CutAt(g, g, g.nodes) == Ok(active)
    requires forall t :: t in targets ==> t in active.succ
    ensures var p := Pipelines.KeepFirst(Pipelines.Blocks(active, targets, false));
      && NoDup(p) && ToSet(p) <= ToSet(stages) && Ready(p)
      && (forall u :: u in p <==> exists t :: t in targets && Reaches(active, t, u))
  {
    Cuts.CompletedCut(g);
    SubgraphAcyclic(g, active);
    Pipelines.UpstreamPipeline(active, targets);
    var p := Pipelines.KeepFirst(Pipelines.Blocks(active, targets, false));
    forall u | u in p
      ensures u in active.succ && u in stages
    {
      var t :| t in targets && Reaches(active, t, u);
      assert u in ToSet(stages);
    }
    OrderedIsReady(g, stages, active, p);
  }

  /** An order of dependencies of the cut graph is one in which its stages can be run. */
  lemma OrderedIsReady(g: Digraph, stages: seq<Stage>, active: Digraph, p: seq<Stage>)
    requires Graphs.IsDependencyGraph(g, stages) && NonOverlapping(AllOuts(stages))
    requires forall u :: u in active.succ && !u.frozen ==> u in g.succ && active.succ[u] == g.succ[u]
    requires NoDup(p) && DependencyOrder(active, p) && forall u :: u in p ==> u in active.succ && u in stages
    ensures Ready(p)
  {
    forall i, j | 0 <= i <= j < |p| && !p[i].frozen && Runnable(p[j])
      ensures Apart(DepPaths(p[i]), OutPaths(p[j]))
    {
      NotBefore(p, i, j);
      assert !active.HasEdge(p[i], p[j]);
      assert !g.HasEdge(p[i], p[j]) && !DependsOn(p[i], p[j]);
    }
    forall i, j | 0 <= i < j < |p|
      ensures Apart(OutPaths(p[i]), OutPaths(p[j]))
    {
      OutputsApart(stages, p[i], p[j]);
    }
  }

  lemma NotBefore(p: seq<Stage>, i: nat, j: nat)
    requires NoDup(p) && i <= j < |p|
    ensures p[j] !in p[..i]
  {
  }

  ghost predicate Declared(stages: seq<Stage>) {
    && (forall s, t :: s in stages && t in stages && s != t ==> s.name != t.name)
    && (forall s :: s in stages ==> LocalDeps(s))
  }

  /** What the graph checks accept. */
  ghost predicate Acceptable(stages: seq<Stage>) {
    NonOverlapping(AllOuts(stages)) && !Graphs.StagePathClash(stages) && !Graphs.DependencyCycle(stages)
  }

  /** The cut of the graph at its frozen stages completes, see ActiveGraph.CutCompletesIff. */
  ghost predicate Cuttable(g: Digraph)
    requires forall s :: s in g.nodes ==> s in g.succ
  {
    Cuts.NoneMetAgain(g, Cuts.Visits(g, {}, g.nodes))
  }

  /** The stages that the targets reach in the graph. */
  ghost predicate Covers(active: Digraph, targets: seq<Stage>, pipeline: seq<Stage>) {
    forall u :: u in pipeline <==> exists t :: t in targets && Reaches(active, t, u)
  }

  /** Graph, cut and pipeline, with what makes each of them fail. */
  method Prepare(stages: seq<Stage>, targets: seq<Stage>)
    returns (r: Result<seq<Stage>, ReproError>, ghost graph: Digraph, ghost active: Digraph)
    ensures Acceptable(stages) ==> Graphs.IsDependencyGraph(graph, stages) && Graphs.InDeclaredOrder(graph, stages)
    ensures Acceptable(stages) ==> forall s :: s in graph.nodes ==> s in graph.succ
    ensures Acceptable(stages) && Cuttable(graph) ==> Cuts.CutAt(graph, graph, graph.nodes) == Ok(active)
    ensures r.Ok? <==> Acceptable(stages) && Cuttable(graph) && forall t :: t in targets ==> t in active.succ
    ensures r.Err? && r.error.BadGraph? <==> !Acceptable(stages)
    ensures r.Err? && r.error.CutAborted? <==> Acceptable(stages) && !Cuttable(graph)
    ensures r.Err? ==> !r.error.StageFailed?
    ensures r.Ok? ==>
      && NoDup(r.value) && ToSet(targets) <= ToSet(r.value) <= ToSet(stages) && Ready(r.value)
      && Covers(active, targets, r.value)
  {
    graph, active := Digraph([], map[]), Digraph([], map[]);
    var built := Graphs.BuildGraph(stages);
    if built.Err? {
      return Err(BadGraph(built.error)), graph, active;
    }
    graph := built.value;
    var cut := Cuts.GetActiveGraph(built.value);
    Cuts.CutCompletesIff(built.value);
    if cut.Err? {
      return Err(CutAborted(cut.error)), graph, active;
    }
    active := cut.value;
    var pipeline := Pipelines.GetPipeline(cut.value, targets, false, false);
    if pipeline.Err? {
      return Err(BadTarget(pipeline.error)), graph, active;
    }
    PipelineReady(graph, stages, active, targets);
    forall t | t in targets
      ensures t in pipeline.value
    {
      ReachesSelf(active, t);
    }
    r := Ok(pipeline.value);
  }

  lemma AcceptableIsAccepted(stages: seq<Stage>)
    requires Declared(stages) && Acceptable(stages)
    ensures Accepted(ToSet(stages))
  {
    forall s | s in stages
      ensures OwnOutsApart(s)
    {
      OutputsOfOneStageApart(stages, s);
    }
    forall s, t | s in stages && t in stages && s != t
      ensures Apart(OutPaths(s), OutPaths(t))
    {
      OutputsApart(stages, s, t);
    }
  }

  /** A completed reproduction goes through exactly what the targets reach in the cut graph, and
      leaves the workspace a from-scratch build of that pipeline would leave.  It answers the stages
      that were reproduced; those left alone are reported separately. */
  method Repro(repo: Repo, stages: seq<Stage>, targets: seq<Stage>, force: bool, forceDownstream: bool,
      noCommit: bool, exec: Exec)
    returns (r: Result<seq<Stage>, ReproError>, skipped: seq<Stage>, ghost graph: Digraph, ghost active: Digraph,
      ghost pipeline: seq<Stage>, ghost states: seq<RepoState>, ghost flags: seq<bool>)
    requires Declared(stages) && repo.RecordsTrue(exec, ToSet(stages))
    modifies repo
    ensures repo.RecordsTrue(exec, ToSet(stages))
    ensures Acceptable(stages) ==> Graphs.IsDependencyGraph(graph, stages) && Graphs.InDeclaredOrder(graph, stages)
    ensures Acceptable(stages) ==> forall s :: s in graph.nodes ==> s in graph.succ
    ensures Acceptable(stages) && Cuttable(graph) ==> Cuts.CutAt(graph, graph, graph.nodes) == Ok(active)
    ensures r.Err? && r.error.BadGraph? <==> !Acceptable(stages)
    ensures r.Err? && r.error.CutAborted? <==> Acceptable(stages) && !Cuttable(graph)
    ensures r.Err? && r.error.BadTarget? <==>
      Acceptable(stages) && Cuttable(graph) && exists t :: t in targets && t !in active.succ
    ensures r.Err? && !r.error.StageFailed? ==> repo.State() == old(repo.State())
    ensures r.Ok? || r.error.StageFailed? ==>
      && NoDup(pipeline) && ToSet(targets) <= ToSet(pipeline) <= ToSet(stages) && Ready(pipeline)
      && Covers(active, targets, pipeline)
    ensures r.Ok? ==>
      && CleanBuild(exec, old(repo.ws), pipeline) == Some(repo.ws)
      && Built(exec, old(repo.ws), pipeline, repo.ws)
      && Trace(exec, pipeline, |pipeline|, states, flags, force, forceDownstream, r.value, skipped)
      && states[0] == old(repo.State()) && states[|pipeline|] == repo.State()
    ensures r.Ok? && !noCommit ==> forall s :: s in pipeline ==> Settled(s, repo.ws, repo.objects, repo.lock)
    ensures r.Err? && r.error.StageFailed? ==>
      && r.error.stage in pipeline
      && if Runnable(r.error.stage) then forall after :: !Built(exec, old(repo.ws), pipeline, after)
         else !NothingMissing(r.error.stage, repo.ws)
  {
    skipped, pipeline, states, flags := [], [], [], [];
    var prepared;
    prepared, graph, active := Prepare(stages, targets);
    if prepared.Err? {
      return prepared, skipped, graph, active, pipeline, states, flags;
    }
    AcceptableIsAccepted(stages);
    var plan := prepared.value;
    pipeline := plan;
    var done, result;
    done, result, skipped, states, flags :=
      repo.ReproduceStages(plan, force, forceDownstream, noCommit, exec, ToSet(stages));
    r := if done == |plan| then Ok(result) else Err(StageFailed(plan[done]));
  }
}
