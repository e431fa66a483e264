/** Turning targets into the list of stages to reproduce. */
module Pipeline {
  import opened Common
  import opened Stages
  import opened Digraphs
  import opened Reversal

  datatype Error = NotInGraph(stage: Stage)

  function Reversed(s: seq<Stage>): (r: seq<Stage>)
    ensures |r| == |s| && forall i :: 0 <= i < |s| ==> r[i] == s[|s| - 1 - i]
  {
    if s == [] then [] else Reversed(s[1..]) + [s[0]]
  }

  /** What one target contributes. */
  function Block(g: Digraph, target: Stage, downstream: bool): seq<Stage> {
    if downstream then Reversed(PostOrder(Reverse(g), [target], {}))
    else PostOrder(g, [target], {})
  }

  function Blocks(g: Digraph, targets: seq<Stage>, downstream: bool): seq<Stage> {
    if targets == [] then []
    else Blocks(g, targets[..|targets| - 1], downstream) + Block(g, targets[|targets| - 1], downstream)
  }

  /** `s` with only the first occurrence of each stage. */
  function KeepFirst(s: seq<Stage>): seq<Stage> {
    if s == [] then []
    else
      var r := KeepFirst(s[..|s| - 1]);
      if s[|s| - 1] in r then r else r + [s[|s| - 1]]
  }

  method GetPipeline(g: Digraph, targets: seq<Stage>, downstream: bool, singleItem: bool)
    returns (r: Result<seq<Stage>, Error>)
    ensures r.Err? <==> !singleItem && exists t :: t in targets && t !in g.succ
    ensures r.Ok? ==> r.value == KeepFirst(if singleItem then targets else Blocks(g, targets, downstream))
  {
    var all := Ok(targets);
    if !singleItem {
      all := ListBlocks(g, targets, downstream);
    }
    if all.Err? {
      return all;
    }
    var pipeline := DropRepeated(all.value);
    r := Ok(pipeline);
  }

  method ListBlocks(g: Digraph, targets: seq<Stage>, downstream: bool) returns (r: Result<seq<Stage>, Error>)
    ensures r.Err? <==> exists t :: t in targets && t !in g.succ
    ensures r.Ok? ==> r.value == Blocks(g, targets, downstream)
  {
    var all := [];
    for i := 0 to |targets|
      invariant forall j :: 0 <= j < i ==> targets[j] in g.succ
      invariant all == Blocks(g, targets[..i], downstream)
    {
      assert targets[..i + 1][..i] == targets[..i];
      if targets[i] !in g.succ {
        return Err(NotInGraph(targets[i]));
      }
      if downstream {
        all := all + Reversed(PostOrder(Reverse(g), [targets[i]], {}));
      } else {
        all := all + PostOrder(g, [targets[i]], {});
      }
    }
    assert targets[..|targets|] == targets;
    r := Ok(all);
  }

  method DropRepeated(all: seq<Stage>) returns (pipeline: seq<Stage>)
    ensures pipeline == KeepFirst(all)
  {
    pipeline := [];
    for i := 0 to |all|
      invariant pipeline == KeepFirst(all[..i])
    {
      assert all[..i + 1][..i] == all[..i];
      if all[i] !in pipeline {
        pipeline := pipeline + [all[i]];
      }
    }
    assert all[..|all|] == all;
  }

  lemma {:induction false} KeepFirstSameStages(s: seq<Stage>)
    ensures NoDup(KeepFirst(s)) && forall x :: x in KeepFirst(s) <==> x in s
  {
    if s != [] {
      var t := s[..|s| - 1];
      KeepFirstSameStages(t);
      assert s == t + [s[|s| - 1]];
    }
  }

  lemma {:induction false} KeepFirstOrder(g: Digraph, s: seq<Stage>)
    requires DependencyOrder(g, s)
    ensures DependencyOrder(g, KeepFirst(s))
  {
    if s != [] {
      var n := |s| - 1;
      var t := s[..n];
      forall i, w | 0 <= i < |t| && g.HasEdge(t[i], w)
        ensures w in t[..i]
      {
        assert w in s[..i] && s[..i] == t[..i];
      }
      KeepFirstOrder(g, t);
      KeepFirstSameStages(t);
      var r := KeepFirst(s);
      forall i, w | 0 <= i < |r| && g.HasEdge(r[i], w)
        ensures w in r[..i]
      {
        var r' := KeepFirst(t);
        if i < |r'| {
          assert r[i] == r'[i] && r[..i] == r'[..i];
        } else {
          assert r[i] == s[n] && w in t && r[..i] == r';
        }
      }
    }
  }

  lemma ConcatOrder(g: Digraph, a: seq<Stage>, b: seq<Stage>)
    requires DependencyOrder(g, a) && DependencyOrder(g, b)
    ensures DependencyOrder(g, a + b)
  {
    var s := a + b;
    forall i, w | 0 <= i < |s| && g.HasEdge(s[i], w)
      ensures w in s[..i]
    {
      if i < |a| {
        assert s[..i] == a[..i];
      } else {
        assert s[..i] == a + b[..i - |a|];
      }
    }
  }

  lemma {:induction false} BlocksOrder(g: Digraph, targets: seq<Stage>)
    requires g.Valid() && Acyclic(g)
    requires forall t :: t in targets ==> t in g.succ
    ensures var s := Blocks(g, targets, false);
      && DependencyOrder(g, s)
      && (forall u :: u in s <==> exists t :: t in targets && Reaches(g, t, u))
  {
    if targets != [] {
      var n := |targets| - 1;
      var init, last := targets[..n], targets[n];
      assert targets == init + [last];
      BlocksOrder(g, init);
      PostOrderFrom(g, last);
      var a, b := Blocks(g, init, false), PostOrder(g, [last], {});
      assert a + b == Blocks(g, targets, false);
      ConcatOrder(g, a, b);
    }
  }

  /** For any targets on an acyclic graph the pipeline is duplicate-free, is exactly what the
      targets reach, and lists dependencies first. */
  lemma UpstreamPipeline(g: Digraph, targets: seq<Stage>)
    requires g.Valid() && Acyclic(g)
    requires forall t :: t in targets ==> t in g.succ
    ensures var r := KeepFirst(Blocks(g, targets, false));
      && NoDup(r)
      && (forall u :: u in r <==> exists t :: t in targets && Reaches(g, t, u))
      && DependencyOrder(g, r)
  {
    BlocksOrder(g, targets);
    KeepFirstSameStages(Blocks(g, targets, false));
    KeepFirstOrder(g, Blocks(g, targets, false));
  }

  /** `s` lists every stage after those of its dependencies that are in `s`. */
  ghost predicate OrderWithin(g: Digraph, s: seq<Stage>) {
    forall i, w :: 0 <= i < |s| && g.HasEdge(s[i], w) && w in s ==> w in s[..i]
  }

  lemma ReversedMembers(s: seq<Stage>)
    ensures forall x :: x in Reversed(s) <==> x in s
    ensures NoDup(s) ==> NoDup(Reversed(s))
  {
    forall x | x in s
      ensures x in Reversed(s)
    {
      var i :| 0 <= i < |s| && s[i] == x;
      assert Reversed(s)[|s| - 1 - i] == x;
    }
  }

  lemma ReversedOrder(g: Digraph, h: Digraph, p: seq<Stage>, i: nat, w: Stage)
    requires forall u, v :: h.HasEdge(u, v) <==> g.HasEdge(v, u)
    requires NoDup(p) && DependencyOrder(h, p)
    requires i < |p| && g.HasEdge(Reversed(p)[i], w) && w in p
    ensures w in Reversed(p)[..i]
  {
    var r := Reversed(p);
    var k :| 0 <= k < |p| && p[k] == w;
    assert h.HasEdge(p[k], r[i]);
    assert p[|p| - 1 - i] in p[..k];
    var m :| 0 <= m < k && p[m] == p[|p| - 1 - i];
    assert r[..i][|p| - 1 - k] == w;
  }

  lemma DownstreamBlock(g: Digraph, target: Stage)
    requires g.Valid() && Acyclic(g) && target in g.succ
    ensures var r := Block(g, target, true);
      && NoDup(r)
      && (forall u :: u in r <==> Reaches(g, u, target))
      && OrderWithin(g, r)
  {
    var h := Reverse(g);
    ReverseEdges(g);
    ReverseAcyclic(g);
    PostOrderFrom(h, target);
    var p := PostOrder(h, [target], {});
    var r := Reversed(p);
    ReversedMembers(p);
    forall u
      ensures u in r <==> Reaches(g, u, target)
    {
      ReverseReaches(g, target, u);
    }
    forall i, w | 0 <= i < |r| && g.HasEdge(r[i], w) && w in r
      ensures w in r[..i]
    {
      ReversedOrder(g, h, p, i, w);
    }
  }

  /** For one target the downstream pipeline is the target and its transitive dependents, in
      dependency order. */
  lemma DownstreamPipeline(g: Digraph, target: Stage)
    requires g.Valid() && Acyclic(g) && target in g.succ
    ensures var r := KeepFirst(Blocks(g, [target], true));
      && NoDup(r)
      && (forall u :: u in r <==> Reaches(g, u, target))
      && OrderWithin(g, r)
  {
    DownstreamBlock(g, target);
    var b := Block(g, target, true);
    assert Blocks(g, [target], true) == Blocks(g, [], true) + b == b;
    KeepFirstNoDup([], b);
  }

  lemma {:induction false} KeepFirstNoDup(a: seq<Stage>, b: seq<Stage>)
    requires NoDup(b) && forall x :: x in b ==> x !in a
    ensures KeepFirst(a + b) == KeepFirst(a) + b
  {
    if b == [] {
      assert a + b == a;
    } else {
      var n := |b| - 1;
      var c := b[..n];
      KeepFirstNoDup(a, c);
      assert (a + b)[..|a + b| - 1] == a + c;
      KeepFirstSameStages(a);
      assert b[n] !in c;
    }
  }

  lemma {:induction false} KeepFirstAbsorbs(a: seq<Stage>, b: seq<Stage>)
    requires forall x :: x in b ==> x in a
    ensures KeepFirst(a + b) == KeepFirst(a)
  {
    if b == [] {
      assert a + b == a;
    } else {
      var n := |b| - 1;
      KeepFirstAbsorbs(a, b[..n]);
      assert (a + b)[..|a + b| - 1] == a + b[..n];
      KeepFirstSameStages(a);
    }
  }

  lemma {:induction false} KeepFirstPrefix(a: seq<Stage>, b: seq<Stage>)
    ensures KeepFirst(a) <= KeepFirst(a + b)
  {
    if b == [] {
      assert a + b == a;
    } else {
      var n := |b| - 1;
      KeepFirstPrefix(a, b[..n]);
      assert (a + b)[..|a + b| - 1] == a + b[..n];
    }
  }

  /** Some target before position `n` is one that `u` depends on, directly or not, or is `u`. */
  ghost predicate Covered(g: Digraph, targets: seq<Stage>, n: nat, u: Stage) {
    exists k :: 0 <= k < n && k < |targets| && Reaches(g, u, targets[k])
  }

  /** Every target either depends on an earlier one or has no dependents in common with them. */
  ghost predicate SeparateTargets(g: Digraph, targets: seq<Stage>) {
    forall n :: 0 <= n < |targets| ==>
      || Covered(g, targets, n, targets[n])
      || forall u :: Reaches(g, u, targets[n]) ==> !Covered(g, targets, n, u)
  }

  lemma CoveredAppend(g: Digraph, init: seq<Stage>, last: Stage, u: Stage)
    ensures Covered(g, init + [last], |init| + 1, u) <==> Covered(g, init, |init|, u) || Reaches(g, u, last)
  {
    var targets := init + [last];
    if Covered(g, init, |init|, u) {
      var k :| 0 <= k < |init| && Reaches(g, u, init[k]);
      assert Reaches(g, u, targets[k]);
    }
    if Reaches(g, u, last) {
      assert Reaches(g, u, targets[|init|]);
    }
    if Covered(g, targets, |targets|, u) {
      var k :| 0 <= k < |targets| && Reaches(g, u, targets[k]);
      if k < |init| { assert Reaches(g, u, init[k]); }
    }
  }

  lemma {:induction false} BlocksCover(g: Digraph, targets: seq<Stage>)
    requires g.Valid() && Acyclic(g)
    requires forall t :: t in targets ==> t in g.succ
    ensures forall u :: u in Blocks(g, targets, true) <==> Covered(g, targets, |targets|, u)
  {
    if targets != [] {
      var n := |targets| - 1;
      var init, last := targets[..n], targets[n];
      assert targets == init + [last];
      BlocksCover(g, init);
      DownstreamBlock(g, last);
      assert Blocks(g, targets, true) == Blocks(g, init, true) + Block(g, last, true);
      forall u
        ensures u in Blocks(g, targets, true) <==> Covered(g, targets, |targets|, u)
      {
        CoveredAppend(g, init, last, u);
      }
    }
  }

  lemma ReachesTransitive(g: Digraph, u: Stage, v: Stage, w: Stage)
    requires g.Valid() && Reaches(g, u, v) && Reaches(g, v, w)
    ensures Reaches(g, u, w)
  {
    var p :| IsPath(g, p) && p[0] == v && p[|p| - 1] == w;
    ReachesAlong(g, u, p);
  }

  lemma {:induction false} ReachesAlong(g: Digraph, u: Stage, p: seq<Stage>)
    requires g.Valid() && IsPath(g, p) && Reaches(g, u, p[0])
    ensures Reaches(g, u, p[|p| - 1])
  {
    if |p| > 1 {
      var q := p[1..];
      assert g.HasEdge(p[0], p[1]);
      forall i | 0 <= i < |q| - 1
        ensures g.HasEdge(q[i], q[i + 1])
      {
        assert g.HasEdge(p[i + 1], p[i + 2]);
      }
      ReachesExtend(g, u, p[0], p[1]);
      ReachesAlong(g, u, q);
    }
  }

  lemma CoveredPrefix(g: Digraph, targets: seq<Stage>, n: nat, k: nat, u: Stage)
    requires k <= n <= |targets|
    ensures Covered(g, targets[..n], k, u) <==> Covered(g, targets, k, u)
  {
    if Covered(g, targets, k, u) {
      var j :| 0 <= j < k && Reaches(g, u, targets[j]);
      assert Reaches(g, u, targets[..n][j]);
    }
  }

  lemma AppendSeparateBlock(g: Digraph, r: seq<Stage>, b: seq<Stage>, target: Stage)
    requires OrderWithin(g, r) && OrderWithin(g, b)
    requires forall u :: u in b <==> Reaches(g, u, target)
    requires forall u :: u in r ==> u !in b
    ensures OrderWithin(g, r + b)
  {
    var s := r + b;
    forall i, w | 0 <= i < |s| && g.HasEdge(s[i], w) && w in s
      ensures w in s[..i]
    {
      if i >= |r| {
        assert s[..i] == r + b[..i - |r|];
      } else {
        assert s[..i] == r[..i];
        if w in b {
          ReachesStep(g, s[i], w, target);
        }
      }
    }
  }

  lemma {:induction false} SeparateTargetsOrdered(g: Digraph, targets: seq<Stage>)
    requires g.Valid() && Acyclic(g) && SeparateTargets(g, targets)
    requires forall t :: t in targets ==> t in g.succ
    ensures OrderWithin(g, KeepFirst(Blocks(g, targets, true)))
  {
    if targets != [] {
      var n := |targets| - 1;
      var init, last := targets[..n], targets[n];
      forall k, u | 0 <= k <= n
        ensures Covered(g, init, k, u) <==> Covered(g, targets, k, u)
      {
        CoveredPrefix(g, targets, n, k, u);
      }
      assert SeparateTargets(g, init) by {
        forall k | 0 <= k < n
          ensures init[k] == targets[k]
        {
        }
      }
      SeparateTargetsOrdered(g, init);
      BlocksCover(g, init);
      DownstreamBlock(g, last);
      var a, b := Blocks(g, init, true), Block(g, last, true);
      KeepFirstSameStages(a);
      if Covered(g, targets, n, last) {
        var k :| 0 <= k < n && Reaches(g, last, targets[k]);
        forall x | x in b
          ensures x in a
        {
          ReachesTransitive(g, x, last, targets[k]);
          assert Covered(g, targets, n, x);
        }
        KeepFirstAbsorbs(a, b);
      } else {
        KeepFirstNoDup(a, b);
        AppendSeparateBlock(g, KeepFirst(a), b, last);
      }
    }
  }

  /** A path from inside `inner` to outside it leaves over some edge. */
  lemma {:induction false} CrossingEdge(g: Digraph, inner: iset<Stage>, p: seq<Stage>) returns (x: Stage, y: Stage)
    requires IsPath(g, p) && p[0] in inner && p[|p| - 1] !in inner
    ensures g.HasEdge(x, y) && x in inner && y !in inner && Reaches(g, y, p[|p| - 1])
  {
    var q := p[1..];
    assert g.HasEdge(p[0], p[1]);
    forall i | 0 <= i < |q| - 1
      ensures g.HasEdge(q[i], q[i + 1])
    {
      assert g.HasEdge(p[i + 1], p[i + 2]);
    }
    if p[1] in inner {
      x, y := CrossingEdge(g, inner, q);
    } else {
      x, y := p[0], p[1];
      assert IsPath(g, q) && q[0] == y;
    }
  }

  lemma {:induction false} BlocksPrefix(g: Digraph, targets: seq<Stage>, n: nat)
    requires n <= |targets|
    ensures Blocks(g, targets[..n], true) <= Blocks(g, targets, true)
    decreases |targets|
  {
    if n < |targets| {
      var m := |targets| - 1;
      assert targets[..m][..n] == targets[..n];
      BlocksPrefix(g, targets[..m], n);
    } else {
      assert targets[..n] == targets;
    }
  }

  lemma PrefixBreaksOrder(g: Digraph, a: seq<Stage>, s: seq<Stage>, x: Stage, y: Stage)
    requires a <= s && g.HasEdge(x, y) && x in a && y !in a && y in s
    ensures !OrderWithin(g, KeepFirst(s))
  {
    assert a + s[|a|..] == s;
    KeepFirstPrefix(a, s[|a|..]);
    KeepFirstSameStages(a);
    KeepFirstSameStages(s);
    var r0, r := KeepFirst(a), KeepFirst(s);
    var i :| 0 <= i < |r0| && r0[i] == x;
    assert r[i] == x && y in r;
    assert r[..i] == r0[..i];
  }

  lemma PrefixBlocksCover(g: Digraph, targets: seq<Stage>, n: nat, u: Stage)
    requires g.Valid() && Acyclic(g) && n <= |targets|
    requires forall t :: t in targets ==> t in g.succ
    ensures u in Blocks(g, targets[..n], true) <==> Covered(g, targets, n, u)
  {
    BlocksCover(g, targets[..n]);
    CoveredPrefix(g, targets, n, n, u);
  }

  /** A stage scheduled by the first targets with a dependency only later targets schedule
      comes before that dependency. */
  lemma LateDependency(g: Digraph, targets: seq<Stage>, n: nat, x: Stage, y: Stage)
    requires g.Valid() && Acyclic(g) && n <= |targets|
    requires forall t :: t in targets ==> t in g.succ
    requires g.HasEdge(x, y) && Covered(g, targets, n, x) && !Covered(g, targets, n, y)
    requires Covered(g, targets, |targets|, y)
    ensures !OrderWithin(g, KeepFirst(Blocks(g, targets, true)))
  {
    var a, all := Blocks(g, targets[..n], true), Blocks(g, targets, true);
    assert x in a by { PrefixBlocksCover(g, targets, n, x); }
    assert y !in a by { PrefixBlocksCover(g, targets, n, y); }
    assert targets[..|targets|] == targets;
    assert y in all by { PrefixBlocksCover(g, targets, |targets|, y); }
    assert a <= all by { BlocksPrefix(g, targets, n); }
    PrefixBreaksOrder(g, a, all, x, y);
  }

  lemma OverlappingTargetsDisordered(g: Digraph, targets: seq<Stage>)
    requires g.Valid() && Acyclic(g) && !SeparateTargets(g, targets)
    requires forall t :: t in targets ==> t in g.succ
    ensures !OrderWithin(g, KeepFirst(Blocks(g, targets, true)))
  {
    var n :| 0 <= n < |targets| && !Covered(g, targets, n, targets[n])
      && exists u :: Reaches(g, u, targets[n]) && Covered(g, targets, n, u);
    var u :| Reaches(g, u, targets[n]) && Covered(g, targets, n, u);
    var p :| IsPath(g, p) && p[0] == u && p[|p| - 1] == targets[n];
    var inner := iset v | Covered(g, targets, n, v);
    var x, y := CrossingEdge(g, inner, p);
    assert Covered(g, targets, |targets|, y);
    LateDependency(g, targets, n, x, y);
  }

  /** With several targets the downstream pipeline is in dependency order exactly when the
      targets are separate. */
  lemma DownstreamOrderedIff(g: Digraph, targets: seq<Stage>)
    requires g.Valid() && Acyclic(g)
    requires forall t :: t in targets ==> t in g.succ
    ensures OrderWithin(g, KeepFirst(Blocks(g, targets, true))) <==> SeparateTargets(g, targets)
  {
    if SeparateTargets(g, targets) {
      SeparateTargetsOrdered(g, targets);
    } else {
      OverlappingTargetsDisordered(g, targets);
    }
  }
}
