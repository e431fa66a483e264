/** Building the stage graph from the overlaps of dependencies and outputs. */
module BuildGraph {
  import opened Common
  import opened Paths
  import opened Stages
  import opened Digraphs
  import opened OutsTrie

  datatype GraphError =
    | BadOuts(error: OutsTrie.Error)
    | StagePathAsOutput(stage: Stage, out: Owned)
    | Cyclic

  /** Some stage depends on itself through the stages of `stages`. */
  ghost predicate DependencyCycle(stages: seq<Stage>) {
    exists p: seq<Stage> ::
      && |p| >= 2 && p[0] == p[|p| - 1]
      && (forall i :: 0 <= i < |p| ==> p[i] in stages)
      && (forall i :: 0 <= i < |p| - 1 ==> DependsOn(p[i], p[i + 1]))
  }

  /** A stage file lies in (or is) some output. */
  ghost predicate StagePathClash(stages: seq<Stage>) {
    exists s, o :: s in stages && o in AllOuts(stages) && IsInOrEq(s.path, o.path)
  }

  /** Nodes are the stages, edges are the overlaps. */
  ghost predicate IsDependencyGraph(g: Digraph, stages: seq<Stage>) {
    && g.Valid()
    && g.succ.Keys == ToSet(stages)
    && (forall s, t :: s in stages && t in stages ==> (g.HasEdge(s, t) <==> DependsOn(s, t)))
  }

  /** Nodes come as the stages do, and the edges of a stage as its dependencies do: what the first
      `n` dependencies lead to comes before all else. */
  ghost predicate InDeclaredOrder(g: Digraph, stages: seq<Stage>) {
    && (NoDup(stages) ==> g.nodes == stages)
    && forall s :: s in g.succ ==> NoDup(g.succ[s]) && ByDependency(s, g.succ[s])
  }

  ghost predicate ByDependency(s: Stage, targets: seq<Stage>) {
    forall a, b, n | 0 <= a < b < |targets| && 0 <= n <= |s.deps| && DependsVia(s, n, targets[b]) ::
      DependsVia(s, n, targets[a])
  }

  lemma {:induction false} AllOutsMembers(stages: seq<Stage>, o: Owned)
    ensures o in AllOuts(stages) <==> o.stage in stages && o.path in OutPaths(o.stage)
  {
    if stages != [] {
      var n := |stages| - 1;
      var last := stages[n];
      assert stages == stages[..n] + [last];
      AllOutsMembers(stages[..n], o);
      var own := OwnedOuts(last, last.outs);
      if o in own {
        var i :| 0 <= i < |own| && own[i] == o;
        assert last.outs[i] in last.outs;
      }
      if o.stage == last && o.path in OutPaths(last) {
        var x :| x in last.outs && x.path == o.path;
        var i :| 0 <= i < |last.outs| && last.outs[i] == x;
        assert own[i] == o;
      }
    }
  }

  lemma ShortestPrefixIsContaining(trie: Trie, stages: seq<Stage>, p: Path)
    requires Holds(trie, AllOuts(stages))
    ensures ShortestPrefix(trie, p).Some? <==> exists o :: o in AllOuts(stages) && IsInOrEq(p, o.path)
    ensures ShortestPrefix(trie, p).Some? ==>
      ShortestPrefix(trie, p).value in AllOuts(stages) && IsInOrEq(p, ShortestPrefix(trie, p).value.path)
  {
    forall o | o in AllOuts(stages) && IsInOrEq(p, o.path)
      ensures ShortestPrefix(trie, p).Some?
    {
      OverlapIsPrefix(p, o.path);
      assert p[..|o.path|] == o.path;
    }
    if ShortestPrefix(trie, p).Some? {
      var i :| 0 <= i <= |p| && p[..i] in trie && ShortestPrefix(trie, p).value == trie[p[..i]];
      OverlapIsPrefix(p, p[..i]);
    }
  }

  /** The stages owning outputs that overlap `dep`, found by two trie lookups. */
  function Overlapping(trie: Trie, dep: Path): set<Stage> {
    set o | o in Prefixes(trie, dep) + (if HasSubtrie(trie, dep) then Values(trie, dep) else {}) :: o.stage
  }

  lemma OverlappingIsPairwise(trie: Trie, stages: seq<Stage>, dep: Path, t: Stage)
    requires Holds(trie, AllOuts(stages))
    ensures t in Overlapping(trie, dep) <==> t in stages && exists p :: p in OutPaths(t) && Overlaps(dep, p)
  {
    if t in Overlapping(trie, dep) {
      var o :| o in Prefixes(trie, dep) + (if HasSubtrie(trie, dep) then Values(trie, dep) else {}) && o.stage == t;
      LookupsAreOverlaps(trie, AllOuts(stages), dep, o);
      AllOutsMembers(stages, o);
    }
    if t in stages && exists p :: p in OutPaths(t) && Overlaps(dep, p) {
      var p :| p in OutPaths(t) && Overlaps(dep, p);
      AllOutsMembers(stages, Owned(p, t));
      LookupsAreOverlaps(trie, AllOuts(stages), dep, Owned(p, t));
    }
  }

  lemma NoDupAppend(list: seq<Stage>, v: Stage)
    requires v !in list
    ensures NoDup(list) ==> NoDup(list + [v])
  {
  }

  /** `succ` with edges from `s` to each of `targets`, each edge kept once. */
  method AddEdges(succ: map<Stage, seq<Stage>>, s: Stage, targets: set<Stage>)
    returns (r: map<Stage, seq<Stage>>)
    requires s in succ
    ensures r.Keys == succ.Keys
    ensures forall u :: u in succ && u != s ==> r[u] == succ[u]
    ensures forall v :: v in r[s] <==> v in succ[s] || v in targets
    ensures succ[s] <= r[s] && (NoDup(succ[s]) ==> NoDup(r[s]))
    ensures forall k :: |succ[s]| <= k < |r[s]| ==> r[s][k] in targets && r[s][k] !in succ[s]
  {
    r := succ;
    var rest := targets;
    while rest != {}
      invariant r.Keys == succ.Keys && rest <= targets
      invariant forall u :: u in succ && u != s ==> r[u] == succ[u]
      invariant forall v :: v in r[s] <==> v in succ[s] || v in targets - rest
      invariant succ[s] <= r[s] && (NoDup(succ[s]) ==> NoDup(r[s]))
      invariant forall k :: |succ[s]| <= k < |r[s]| ==> r[s][k] in targets && r[s][k] !in succ[s]
      decreases |rest|
    {
      var v :| v in rest;
      if v !in r[s] {
        NoDupAppend(r[s], v);
        r := r[s := r[s] + [v]];
      }
      rest := rest - {v};
    }
  }

  /** The first `n` dependencies of `s`, as paths. */
  ghost predicate DependsVia(s: Stage, n: nat, t: Stage)
    requires n <= |s.deps|
  {
    exists i, o :: 0 <= i < n && s.deps[i].Some? && o in OutPaths(t) && Overlaps(s.deps[i].value, o)
  }

  lemma DependsViaAll(s: Stage, t: Stage)
    ensures DependsVia(s, |s.deps|, t) <==> DependsOn(s, t)
  {
    if DependsVia(s, |s.deps|, t) {
      var i, o :| 0 <= i < |s.deps| && s.deps[i].Some? && o in OutPaths(t) && Overlaps(s.deps[i].value, o);
      assert s.deps[i] in s.deps;
      assert s.deps[i].value in DepPaths(s);
    }
    if DependsOn(s, t) {
      var d, o :| d in DepPaths(s) && o in OutPaths(t) && Overlaps(d, o);
      var i :| 0 <= i < |s.deps| && s.deps[i] == Some(d);
      assert s.deps[i].value == d;
    }
  }

  method AddStageEdges(trie: Trie, succ: map<Stage, seq<Stage>>, s: Stage, ghost stages: seq<Stage>)
    returns (r: map<Stage, seq<Stage>>)
    requires Holds(trie, AllOuts(stages)) && s in succ && NoneOrAll(s, succ[s], stages)
    ensures r.Keys == succ.Keys
    ensures forall u :: u in succ && u != s ==> r[u] == succ[u]
    ensures forall v :: v in r[s] <==> v in succ[s] || (v in stages && DependsOn(s, v))
    ensures NoneOrAll(s, r[s], stages)
  {
    r := succ;
    for i := 0 to |s.deps|
      invariant r.Keys == succ.Keys
      invariant NoDup(r[s]) && ByDependency(s, r[s])
      invariant forall u :: u in succ && u != s ==> r[u] == succ[u]
      invariant forall v :: v in r[s] <==> v in succ[s] || (v in stages && DependsVia(s, i, v))
    {
      ghost var before := r;
      if s.deps[i].Some? {
        var dep := s.deps[i].value;
        r := AddEdges(r, s, Overlapping(trie, dep));
        forall v
          ensures v in r[s] <==> v in succ[s] || (v in stages && DependsVia(s, i + 1, v))
        {
          OverlappingIsPairwise(trie, stages, dep, v);
          DependsViaStep(s, i, v);
        }
        LaterTargets(s, i, succ[s], before[s], r[s], stages);
      } else {
        forall v
          ensures DependsVia(s, i + 1, v) <==> DependsVia(s, i, v)
        {
          DependsViaStep(s, i, v);
        }
      }
    }
    forall v
      ensures DependsVia(s, |s.deps|, v) <==> DependsOn(s, v)
    {
      DependsViaAll(s, v);
    }
  }

  /** The edges of a stage: none yet, or those to all it depends on, in order. */
  ghost predicate NoneOrAll(s: Stage, targets: seq<Stage>, stages: seq<Stage>) {
    && NoDup(targets) && ByDependency(s, targets)
    && (targets == [] || forall v :: v in stages && DependsOn(s, v) ==> v in targets)
  }

  /** What another dependency adds comes after what those before it lead to. */
  lemma LaterTargets(s: Stage, i: nat, first: seq<Stage>, before: seq<Stage>, after: seq<Stage>, stages: seq<Stage>)
    requires i < |s.deps| && before <= after && ByDependency(s, before) && NoneOrAll(s, first, stages)
    requires forall k :: |before| <= k < |after| ==> after[k] !in before
    requires forall v :: v in before <==> v in first || (v in stages && DependsVia(s, i, v))
    requires forall v :: v in after <==> v in first || (v in stages && DependsVia(s, i + 1, v))
    ensures ByDependency(s, after)
  {
    if first != [] && |before| < |after| {
      var v := after[|before|];
      assert v in after && v in stages && DependsVia(s, i + 1, v);
      ViaMonotone(s, i + 1, |s.deps|, v);
      DependsViaAll(s, v);
    } else {
      forall a, b, n | 0 <= a < b < |after| && 0 <= n <= |s.deps| && DependsVia(s, n, after[b])
        ensures DependsVia(s, n, after[a])
      {
        if b < |before| {
          assert before[a] == after[a] && before[b] == after[b];
        } else {
          assert after[a] in after && after[b] in after && after[b] !in before;
          NotEarlier(s, i, n, after[b]);
          ViaMonotone(s, i + 1, n, after[a]);
        }
      }
    }
  }

  lemma ViaMonotone(s: Stage, m: nat, n: nat, t: Stage)
    requires m <= n <= |s.deps| && DependsVia(s, m, t)
    ensures DependsVia(s, n, t)
  {
  }

  lemma NotEarlier(s: Stage, i: nat, n: nat, t: Stage)
    requires i < |s.deps| && n <= |s.deps| && !DependsVia(s, i, t) && DependsVia(s, n, t)
    ensures i < n
  {
    if n <= i {
      ViaMonotone(s, n, i, t);
    }
  }

  lemma DependsViaStep(s: Stage, i: nat, v: Stage)
    requires i < |s.deps|
    ensures DependsVia(s, i + 1, v) <==>
      || DependsVia(s, i, v)
      || (s.deps[i].Some? && exists o :: o in OutPaths(v) && Overlaps(s.deps[i].value, o))
  {
  }

  ghost predicate DependenciesBefore(g: Digraph, order: seq<Stage>, i: nat)
    requires i < |order|
  {
    forall w :: g.HasEdge(order[i], w) ==> w in order[..i]
  }

  /** Whether no stage comes before one of its dependencies. */
  method IsOrdered(g: Digraph, order: seq<Stage>) returns (ok: bool)
    requires forall u :: u in order ==> u in g.succ
    ensures ok <==> DependencyOrder(g, order)
  {
    for i := 0 to |order|
      invariant forall j :: 0 <= j < i ==> DependenciesBefore(g, order, j)
    {
      if exists w :: w in g.succ[order[i]] && w !in order[..i] {
        ghost var w :| w in g.succ[order[i]] && w !in order[..i];
        assert g.HasEdge(order[i], w);
        return false;
      }
      assert DependenciesBefore(g, order, i);
    }
    forall i, w | 0 <= i < |order| && g.HasEdge(order[i], w)
      ensures w in order[..i]
    {
      assert DependenciesBefore(g, order, i);
    }
    ok := true;
  }

  /** Reports whether the graph has no cycle. */
  method CheckAcyclic(g: Digraph) returns (ok: bool)
    requires g.Valid()
    ensures ok <==> Acyclic(g)
  {
    var order := PostOrder(g, g.nodes, {});
    AcyclicIffOrdered(g);
    PostOrderShape(g, g.nodes, {});
    assert forall u :: u in order ==> u in ToSet(order);
    ok := IsOrdered(g, order);
  }

  lemma CyclesAreDependencyCycles(g: Digraph, stages: seq<Stage>)
    requires IsDependencyGraph(g, stages)
    ensures Acyclic(g) <==> !DependencyCycle(stages)
  {
    if !Acyclic(g) {
      var p :| IsPath(g, p) && |p| >= 2 && p[0] == p[|p| - 1];
      assert forall i :: 0 <= i < |p| ==> p[i] in stages by {
        forall i | 0 <= i < |p|
          ensures p[i] in stages
        {
          assert p[i] in ToSet(stages);
        }
      }
      forall i | 0 <= i < |p| - 1
        ensures DependsOn(p[i], p[i + 1])
      {
        assert g.HasEdge(p[i], p[i + 1]);
      }
    }
    if DependencyCycle(stages) {
      var p: seq<Stage> :|
        && |p| >= 2 && p[0] == p[|p| - 1]
        && (forall i :: 0 <= i < |p| ==> p[i] in stages)
        && (forall i :: 0 <= i < |p| - 1 ==> DependsOn(p[i], p[i + 1]));
      forall i | 0 <= i < |p|
        ensures p[i] in g.succ
      {
        assert p[i] in ToSet(stages);
      }
      assert IsPath(g, p);
    }
  }

  /** The first stage whose file lies in an output, with that output. */
  method FindStagePathClash(trie: Trie, stages: seq<Stage>) returns (r: Option<(Stage, Owned)>)
    requires Holds(trie, AllOuts(stages))
    ensures r.Some? <==> StagePathClash(stages)
    ensures r.Some? ==>
      r.value.0 in stages && r.value.1 in AllOuts(stages) && IsInOrEq(r.value.0.path, r.value.1.path)
  {
    for i := 0 to |stages|
      invariant forall j, o :: 0 <= j < i && o in AllOuts(stages) ==> !IsInOrEq(stages[j].path, o.path)
    {
      ShortestPrefixIsContaining(trie, stages, stages[i].path);
      var out := ShortestPrefix(trie, stages[i].path);
      if out.Some? {
        return Some((stages[i], out.value));
      }
    }
    r := None;
  }

  method AddNodes(stages: seq<Stage>) returns (g: Digraph)
    ensures g.Valid() && g.succ.Keys == ToSet(stages)
    ensures forall s :: s in g.succ ==> g.succ[s] == []
    ensures NoDup(stages) ==> g.nodes == stages
  {
    var nodes: seq<Stage>, succ: map<Stage, seq<Stage>> := [], map[];
    for i := 0 to |stages|
      invariant NoDup(nodes) && ToSet(nodes) == succ.Keys == ToSet(stages[..i])
      invariant forall s :: s in succ ==> succ[s] == []
      invariant NoDup(stages) ==> nodes == stages[..i]
    {
      assert stages[..i + 1] == stages[..i] + [stages[i]];
      assert NoDup(stages) ==> stages[i] !in stages[..i];
      if stages[i] !in succ {
        NoDupConcat(nodes, [stages[i]]);
        nodes, succ := nodes + [stages[i]], succ[stages[i] := []];
      }
    }
    assert stages[..|stages|] == stages;
    g := Digraph(nodes, succ);
  }

  ghost predicate InOrderSoFar(succ: map<Stage, seq<Stage>>, stages: seq<Stage>) {
    forall s :: s in succ ==> NoneOrAll(s, succ[s], stages)
  }

  method AddNextEdges(trie: Trie, stages: seq<Stage>, before: map<Stage, seq<Stage>>, i: nat)
    returns (succ: map<Stage, seq<Stage>>)
    requires Holds(trie, AllOuts(stages)) && i < |stages|
    requires EdgesOf(before, stages, i) && InOrderSoFar(before, stages)
    ensures EdgesOf(succ, stages, i + 1) && InOrderSoFar(succ, stages)
  {
    assert stages[i] in ToSet(stages);
    succ := AddStageEdges(trie, before, stages[i], stages);
    EdgesOfNext(before, succ, stages, i);
  }

  method AddDependencyEdges(trie: Trie, stages: seq<Stage>, bare: Digraph) returns (g: Digraph)
    requires Holds(trie, AllOuts(stages))
    requires bare.Valid() && bare.succ.Keys == ToSet(stages)
    requires forall s :: s in bare.succ ==> bare.succ[s] == []
    requires NoDup(stages) ==> bare.nodes == stages
    ensures IsDependencyGraph(g, stages) && InDeclaredOrder(g, stages)
  {
    var succ := bare.succ;
    for i := 0 to |stages|
      invariant EdgesOf(succ, stages, i)
      invariant InOrderSoFar(succ, stages)
    {
      succ := AddNextEdges(trie, stages, succ, i);
    }
    g := Digraph(bare.nodes, succ);
    EdgesAreDependencies(g, stages);
  }

  /** All edges are dependencies, and those of the first `n` stages are there. */
  ghost predicate EdgesOf(succ: map<Stage, seq<Stage>>, stages: seq<Stage>, n: nat)
    requires n <= |stages|
  {
    && succ.Keys == ToSet(stages)
    && (forall s, t :: s in succ && t in succ[s] ==> t in stages && DependsOn(s, t))
    && (forall j, t :: 0 <= j < n && stages[j] in succ && t in stages && DependsOn(stages[j], t) ==>
      t in succ[stages[j]])
  }

  lemma EdgesOfNext(before: map<Stage, seq<Stage>>, succ: map<Stage, seq<Stage>>, stages: seq<Stage>, i: nat)
    requires i < |stages| && EdgesOf(before, stages, i) && stages[i] in before && succ.Keys == before.Keys
    requires forall u :: u in before && u != stages[i] ==> succ[u] == before[u]
    requires forall v :: v in succ[stages[i]] <==> v in before[stages[i]] || (v in stages && DependsOn(stages[i], v))
    ensures EdgesOf(succ, stages, i + 1)
  {
  }

  lemma EdgesAreDependencies(g: Digraph, stages: seq<Stage>)
    requires EdgesOf(g.succ, stages, |stages|) && InOrderSoFar(g.succ, stages)
    requires NoDup(g.nodes) && ToSet(g.nodes) == ToSet(stages) && (NoDup(stages) ==> g.nodes == stages)
    ensures IsDependencyGraph(g, stages) && InDeclaredOrder(g, stages)
  {
    forall u, v | u in g.succ && v in g.succ[u]
      ensures v in g.succ
    {
      assert v in ToSet(stages);
    }
    forall s, t | s in stages && t in stages
      ensures g.HasEdge(s, t) <==> DependsOn(s, t)
    {
      assert s in ToSet(stages);
      var j :| 0 <= j < |stages| && stages[j] == s;
      assert stages[j] in g.succ;
    }
  }

  method BuildGraph(stages: seq<Stage>) returns (r: Result<Digraph, GraphError>)
    ensures r.Ok? <==>
      && NonOverlapping(AllOuts(stages)) && !StagePathClash(stages) && !DependencyCycle(stages)
    ensures r.Ok? ==> IsDependencyGraph(r.value, stages) && Acyclic(r.value) && InDeclaredOrder(r.value, stages)
    ensures r.Err? && r.error.BadOuts? ==> !NonOverlapping(AllOuts(stages))
    ensures r.Err? && r.error.StagePathAsOutput? ==>
      && r.error.stage in stages && r.error.out in AllOuts(stages)
      && IsInOrEq(r.error.stage.path, r.error.out.path)
    ensures r.Err? && r.error.Cyclic? ==> DependencyCycle(stages)
  {
    var built := BuildOutsTrie(stages);
    if built.Err? {
      return Err(BadOuts(built.error));
    }
    var clash := FindStagePathClash(built.value, stages);
    if clash.Some? {
      return Err(StagePathAsOutput(clash.value.0, clash.value.1));
    }
    var g := AddNodes(stages);
    g := AddDependencyEdges(built.value, stages, g);
    CyclesAreDependencyCycles(g, stages);
    var acyclic := CheckAcyclic(g);
    r := if acyclic then Ok(g) else Err(Cyclic);
  }
}
