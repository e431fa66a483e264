/** The order in which a depth-first traversal meets the stages, said without the traversal. */
module DepthFirst {
  import opened Common
  import opened Stages
  import opened Digraphs
  import opened ActiveGraph

  /** The first stage of the graph in `s` that has not been met. */
  ghost function FirstNew(g: Digraph, s: seq<Stage>, met: set<Stage>): Option<Stage> {
    if s == [] then None
    else if s[0] in met || s[0] !in g.succ then FirstNew(g, s[1..], met)
    else Some(s[0])
  }

  /** What comes next: a new successor of the stage met last, or else of the one met before it, and
      so on back to the first; or else `otherwise`. */
  ghost function NextAfter(g: Digraph, listed: seq<Stage>, met: set<Stage>, otherwise: Option<Stage>): Option<Stage> {
    if listed == [] then otherwise
    else
      var n := |listed| - 1;
      var own := if listed[n] in g.succ then FirstNew(g, g.succ[listed[n]], met) else None;
      if own.Some? then own else NextAfter(g, listed[..n], met, otherwise)
  }

  /** At every point the list goes on with a new successor of the latest stage that has one, the first
      of them, or else with the first new stage of `todo`; it ends when there is none. */
  ghost predicate IsDepthFirst(g: Digraph, todo: seq<Stage>, seen: set<Stage>, r: seq<Stage>) {
    forall k :: 0 <= k <= |r| ==> NextIs(g, todo, seen, r, k)
  }

  ghost predicate NextIs(g: Digraph, todo: seq<Stage>, seen: set<Stage>, r: seq<Stage>, k: nat)
    requires k <= |r|
  {
    var met := seen + ToSet(r[..k]);
    NextAfter(g, r[..k], met, FirstNew(g, todo, met)) == if k < |r| then Some(r[k]) else None
  }

  lemma {:induction false} NextAfterConcat(g: Digraph, a: seq<Stage>, b: seq<Stage>, met: set<Stage>,
      otherwise: Option<Stage>)
    ensures NextAfter(g, a + b, met, otherwise) == NextAfter(g, b, met, NextAfter(g, a, met, otherwise))
  {
    if b == [] {
      assert a + b == a;
    } else {
      var n := |b| - 1;
      assert (a + b)[..|a + b| - 1] == a + b[..n] && (a + b)[|a + b| - 1] == b[n];
      NextAfterConcat(g, a, b[..n], met, otherwise);
    }
  }

  lemma {:induction false} FirstNewNone(g: Digraph, s: seq<Stage>, met: set<Stage>, more: set<Stage>)
    requires FirstNew(g, s, met) == None && met <= more
    ensures FirstNew(g, s, more) == None
  {
    if s != [] {
      FirstNewNone(g, s[1..], met, more);
    }
  }

  lemma {:induction false} NextAfterNone(g: Digraph, listed: seq<Stage>, met: set<Stage>, more: set<Stage>,
      otherwise: Option<Stage>)
    requires NextAfter(g, listed, met, None) == None && met <= more
    ensures NextAfter(g, listed, more, otherwise) == otherwise
  {
    if listed != [] {
      var n := |listed| - 1;
      if listed[n] in g.succ {
        FirstNewNone(g, g.succ[listed[n]], met, more);
      }
      NextAfterNone(g, listed[..n], met, more, otherwise);
    }
  }

  lemma {:induction false} NextAfterWithout(g: Digraph, listed: seq<Stage>, met: set<Stage>, otherwise: Option<Stage>)
    requires NextAfter(g, listed, met, otherwise) == None
    ensures NextAfter(g, listed, met, None) == None
  {
    if listed != [] {
      NextAfterWithout(g, listed[..|listed| - 1], met, otherwise);
    }
  }

  /** A stage, then what is below it, then the rest of what is to be met. */
  lemma BlockIsDepthFirst(g: Digraph, todo: seq<Stage>, seen: set<Stage>, sub: seq<Stage>, rest: seq<Stage>)
    requires todo != [] && todo[0] in g.succ && todo[0] !in seen
    requires IsDepthFirst(g, g.succ[todo[0]], seen + {todo[0]}, sub)
    requires IsDepthFirst(g, todo[1..], seen + ToSet([todo[0]] + sub), rest)
    ensures IsDepthFirst(g, todo, seen, [todo[0]] + sub + rest)
  {
    var v := todo[0];
    var block := [v] + sub;
    var r := block + rest;
    forall k | 0 <= k <= |r|
      ensures NextIs(g, todo, seen, r, k)
    {
      if k == 0 {
        assert r[..0] == [] && seen + ToSet(r[..0]) == seen;
      } else if k < |block| {
        WithinBlock(g, todo, seen, sub, rest, k - 1);
      } else {
        AfterBlock(g, todo, seen, sub, rest, k - |block|);
      }
    }
  }

  lemma WithinBlock(g: Digraph, todo: seq<Stage>, seen: set<Stage>, sub: seq<Stage>, rest: seq<Stage>, k: nat)
    requires todo != [] && todo[0] in g.succ && k < |sub|
    requires NextIs(g, g.succ[todo[0]], seen + {todo[0]}, sub, k)
    ensures NextIs(g, todo, seen, [todo[0]] + sub + rest, k + 1)
  {
    var v := todo[0];
    var r := [v] + sub + rest;
    assert r[..k + 1] == [v] + sub[..k] && r[k + 1] == sub[k];
    ToSetConcat([v], sub[..k]);
    var met := seen + ToSet(r[..k + 1]);
    assert met == seen + {v} + ToSet(sub[..k]);
    NextAfterConcat(g, [v], sub[..k], met, FirstNew(g, todo, met));
    FromStage(g, v, met, FirstNew(g, todo, met));
    NextAfterWeaken(g, sub[..k], met, FirstNew(g, g.succ[v], met), NextAfter(g, [v], met, FirstNew(g, todo, met)));
  }

  lemma FromStage(g: Digraph, v: Stage, met: set<Stage>, otherwise: Option<Stage>)
    requires v in g.succ
    ensures var own := FirstNew(g, g.succ[v], met);
      NextAfter(g, [v], met, otherwise) == if own.Some? then own else otherwise
  {
    assert [v][..0] == [];
  }

  /** Another alternative makes no difference to what is found. */
  lemma {:induction false} NextAfterWeaken(g: Digraph, listed: seq<Stage>, met: set<Stage>, a: Option<Stage>,
      b: Option<Stage>)
    requires NextAfter(g, listed, met, a).Some? && (a.Some? ==> b == a)
    ensures NextAfter(g, listed, met, b) == NextAfter(g, listed, met, a)
  {
    if listed != [] {
      var n := |listed| - 1;
      if NextAfter(g, listed[..n], met, a).Some? {
        NextAfterWeaken(g, listed[..n], met, a, b);
      }
    }
  }

  lemma AfterBlock(g: Digraph, todo: seq<Stage>, seen: set<Stage>, sub: seq<Stage>, rest: seq<Stage>, k: nat)
    requires todo != [] && todo[0] in g.succ && k <= |rest|
    requires NextIs(g, g.succ[todo[0]], seen + {todo[0]}, sub, |sub|)
    requires NextIs(g, todo[1..], seen + ToSet([todo[0]] + sub), rest, k)
    ensures NextIs(g, todo, seen, [todo[0]] + sub + rest, |[todo[0]] + sub| + k)
  {
    var v := todo[0];
    var block := [v] + sub;
    var r := block + rest;
    assert r[..|block| + k] == block + rest[..k] && sub[..|sub|] == sub;
    ToSetConcat([v], sub);
    ToSetConcat(block, rest[..k]);
    var met := seen + ToSet(r[..|block| + k]);
    assert met == seen + ToSet(block) + ToSet(rest[..k]);
    BlockIsDone(g, v, seen, sub, met, FirstNew(g, todo, met));
    assert v in met by { assert v in ToSet(block); }
    NextAfterConcat(g, block, rest[..k], met, FirstNew(g, todo, met));
  }

  /** Nothing below a stage is left once its block has been met. */
  lemma BlockIsDone(g: Digraph, v: Stage, seen: set<Stage>, sub: seq<Stage>, met: set<Stage>, otherwise: Option<Stage>)
    requires v in g.succ && NextIs(g, g.succ[v], seen + {v}, sub, |sub|) && seen + {v} + ToSet(sub) <= met
    ensures NextAfter(g, [v] + sub, met, otherwise) == otherwise
  {
    assert sub[..|sub|] == sub;
    var below := seen + {v} + ToSet(sub);
    var own := FirstNew(g, g.succ[v], below);
    OwnIsNone(g, sub, below, own);
    NextAfterWithout(g, sub, below, own);
    NextAfterNone(g, sub, below, met, otherwise);
    FirstNewNone(g, g.succ[v], below, met);
    NextAfterConcat(g, [v], sub, met, otherwise);
    FromStage(g, v, met, otherwise);
  }

  lemma {:induction false} OwnIsNone(g: Digraph, listed: seq<Stage>, met: set<Stage>, otherwise: Option<Stage>)
    requires NextAfter(g, listed, met, otherwise) == None
    ensures otherwise == None
  {
    if listed != [] {
      OwnIsNone(g, listed[..|listed| - 1], met, otherwise);
    }
  }

  lemma SkippedIsDepthFirst(g: Digraph, todo: seq<Stage>, seen: set<Stage>, r: seq<Stage>)
    requires todo != [] && (todo[0] in seen || todo[0] !in g.succ) && IsDepthFirst(g, todo[1..], seen, r)
    ensures IsDepthFirst(g, todo, seen, r)
  {
    forall k | 0 <= k <= |r|
      ensures NextIs(g, todo, seen, r, k)
    {
      assert NextIs(g, todo[1..], seen, r, k);
    }
  }

  /** The traversal of a frozen stage's dependency meets the stages in depth-first order. */
  lemma {:induction false} PreOrderIsDepthFirst(g: Digraph, todo: seq<Stage>, seen: set<Stage>)
    ensures IsDepthFirst(g, todo, seen, PreOrder(g, todo, seen))
    decreases g.succ.Keys - seen, |todo|
  {
    if todo == [] {
      assert PreOrder(g, todo, seen) == [];
    } else if todo[0] in seen || todo[0] !in g.succ {
      PreOrderIsDepthFirst(g, todo[1..], seen);
      SkippedIsDepthFirst(g, todo, seen, PreOrder(g, todo, seen));
    } else {
      var v := todo[0];
      var sub := PreOrder(g, g.succ[v], seen + {v});
      PreOrderIsDepthFirst(g, g.succ[v], seen + {v});
      PreOrderIsDepthFirst(g, todo[1..], seen + ToSet([v] + sub));
      BlockIsDepthFirst(g, todo, seen, sub, PreOrder(g, todo[1..], seen + ToSet([v] + sub)));
    }
  }

  lemma {:induction false} SameSoFar(g: Digraph, todo: seq<Stage>, seen: set<Stage>, a: seq<Stage>, b: seq<Stage>,
      n: nat)
    requires IsDepthFirst(g, todo, seen, a) && IsDepthFirst(g, todo, seen, b)
    requires n <= |a| && n <= |b|
    ensures a[..n] == b[..n]
  {
    if n > 0 {
      SameSoFar(g, todo, seen, a, b, n - 1);
      assert NextIs(g, todo, seen, a, n - 1) && NextIs(g, todo, seen, b, n - 1);
      assert a[..n] == a[..n - 1] + [a[n - 1]] && b[..n] == b[..n - 1] + [b[n - 1]];
    }
  }

  /** There is just one list in depth-first order, and the traversal yields it. */
  lemma PreOrderIff(g: Digraph, t: Stage, r: seq<Stage>)
    ensures r == PreOrder(g, [t], {}) <==> IsDepthFirst(g, [t], {}, r)
  {
    var p := PreOrder(g, [t], {});
    PreOrderIsDepthFirst(g, [t], {});
    if IsDepthFirst(g, [t], {}, r) {
      var n := if |p| < |r| then |p| else |r|;
      SameSoFar(g, [t], {}, p, r, n);
      assert p[..n] == r[..n];
      assert NextIs(g, [t], {}, p, n) && NextIs(g, [t], {}, r, n);
      assert p[..|p|] == p && r[..|r|] == r;
    }
  }
}
