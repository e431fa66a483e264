/** The meaning of a stage and of a from-scratch build, and when skipping a stage is sound. */
module Builds {
  import opened Common
  import opened Paths
  import opened Stages
  import opened Files

  /** A command is a deterministic function of what its declared dependencies hold; it may fail.
      Only the files it leaves under declared outputs are used. */
  type Exec = (string, map<Path, Files>) -> Option<Files>

  /** What a lock file or the run cache records about one run. */
  datatype Entry = Entry(cmd: Option<string>, deps: map<Path, Files>, outs: map<Path, Files>)

  /** Stages whose command may be executed; the others are sources. */
  predicate Runnable(s: Stage) {
    s.cmd.Some? && !s.frozen
  }

  function Contents(ws: Files, paths: set<Path>): map<Path, Files> {
    map p | p in paths :: Content(ws, p)
  }

  /** Running a stage from scratch: its outputs are removed, the command runs, and all of its
      dependencies and outputs must exist afterwards. */
  function RunStage(exec: Exec, ws: Files, s: Stage): Option<Files>
    requires s.cmd.Some?
  {
    var m := exec(s.cmd.value, Contents(ws, DepPaths(s)));
    if m.None? || (exists p :: p in DepPaths(s) && !Exists(ws, p)) then None
    else
      var r := Strip(ws, OutPaths(s)) + Under(m.value, OutPaths(s));
      if exists p :: p in OutPaths(s) && !Exists(r, p) then None else Some(r)
  }

  /** The outputs of the stages that will be run. */
  function RunOuts(stages: seq<Stage>): set<Path> {
    set s, p | s in stages && Runnable(s) && p in OutPaths(s) :: p
  }

  function RunAll(exec: Exec, ws: Files, stages: seq<Stage>): Option<Files> {
    if stages == [] then Some(ws)
    else
      var r := RunAll(exec, ws, stages[..|stages| - 1]);
      var s := stages[|stages| - 1];
      if r.None? || !Runnable(s) then r else RunStage(exec, r.value, s)
  }

  /** A from-scratch build: every output is removed first, then the stages run in order. */
  function CleanBuild(exec: Exec, ws: Files, stages: seq<Stage>): Option<Files> {
    RunAll(exec, Strip(ws, RunOuts(stages)), stages)
  }

  /** The entry records a past run of its own command on its own dependencies. */
  ghost predicate TrueEntry(exec: Exec, e: Entry) {
    && e.cmd.Some?
    && exec(e.cmd.value, e.deps).Some?
    && (forall p :: p in e.outs ==> e.outs[p] != map[] && e.outs[p] == Content(exec(e.cmd.value, e.deps).value, p))
  }

  /** `s` is recorded by `e` as it stands in the workspace: same command, and each declared
      dependency and output exists and has the recorded content. */
  predicate Matches(s: Stage, ws: Files, e: Entry) {
    && e.cmd == s.cmd
    && (forall p :: p in DepPaths(s) ==> Exists(ws, p) && p in e.deps && e.deps[p] == Content(ws, p))
    && (forall p :: p in OutPaths(s) ==> Exists(ws, p) && p in e.outs && e.outs[p] == Content(ws, p))
  }

  /** The outputs recorded by a true entry for these very dependencies are what a run produces. */
  lemma RecordedOutputsAreRun(exec: Exec, ws: Files, s: Stage, e: Entry, r: Files)
    requires s.cmd.Some? && e.cmd == s.cmd && TrueEntry(exec, e)
    requires e.deps == Contents(ws, DepPaths(s))
    requires forall p :: p in DepPaths(s) ==> Exists(ws, p)
    requires Strip(r, OutPaths(s)) == Strip(ws, OutPaths(s))
    requires forall p :: p in OutPaths(s) ==> p in e.outs && e.outs[p] == Content(r, p)
    ensures RunStage(exec, ws, s) == Some(r)
  {
    var m := exec(e.cmd.value, e.deps).value;
    UnderMany(r, m, OutPaths(s));
    SplitAt(r, OutPaths(s));
  }

  /** Leaving a stage alone is right when its record is true and names no dependency beyond the
      declared ones, whatever other outputs it still names. */
  lemma MatchIsSound(exec: Exec, ws: Files, s: Stage, e: Entry)
    requires s.cmd.Some? && Matches(s, ws, e) && TrueEntry(exec, e) && e.deps.Keys <= DepPaths(s)
    ensures RunStage(exec, ws, s) == Some(ws)
  {
    assert e.deps == Contents(ws, DepPaths(s));
    RecordedOutputsAreRun(exec, ws, s, e, ws);
  }

  /** A command that fails on anything but the recorded dependencies makes the record true. */
  lemma ExtraDependencyBreaks(past: Exec, ws: Files, s: Stage, e: Entry) returns (exec: Exec)
    requires s.cmd.Some? && Matches(s, ws, e) && TrueEntry(past, e)
    requires !(e.deps.Keys <= DepPaths(s))
    ensures TrueEntry(exec, e) && RunStage(exec, ws, s) == None
  {
    var d := e.deps;
    exec := (c, deps) => if deps == d then past(c, deps) else None;
    assert Contents(ws, DepPaths(s)).Keys == DepPaths(s);
  }

  /** Leaving a stage alone is what running it would do, for every command that makes the
      record true, exactly when the record names no dependency beyond the declared ones.  The
      record is that of some past run. */
  lemma SkippingIsSoundIff(past: Exec, ws: Files, s: Stage, e: Entry)
    requires s.cmd.Some? && Matches(s, ws, e) && TrueEntry(past, e)
    ensures (forall exec: Exec :: TrueEntry(exec, e) ==> RunStage(exec, ws, s) == Some(ws))
      <==> e.deps.Keys <= DepPaths(s)
  {
    if e.deps.Keys <= DepPaths(s) {
      forall exec: Exec | TrueEntry(exec, e)
        ensures RunStage(exec, ws, s) == Some(ws)
      {
        MatchIsSound(exec, ws, s, e);
      }
    } else {
      var exec := ExtraDependencyBreaks(past, ws, s, e);
      assert TrueEntry(exec, e) && RunStage(exec, ws, s) != Some(ws);
    }
  }

  /** The pipeline can be run in this order: a stage that is not frozen depends on no output
      that is produced by itself or later, and no two outputs overlap. */
  ghost predicate Ready(stages: seq<Stage>) {
    && (forall i, j :: 0 <= i <= j < |stages| && !stages[i].frozen && Runnable(stages[j]) ==>
      Apart(DepPaths(stages[i]), OutPaths(stages[j])))
    && (forall i, j :: 0 <= i < j < |stages| ==> Apart(OutPaths(stages[i]), OutPaths(stages[j])))
  }

  lemma {:induction false} DepsAfterStrip(ws: Files, paths: set<Path>, stripped: set<Path>)
    requires Apart(paths, stripped)
    ensures Contents(Strip(ws, stripped), paths) == Contents(ws, paths)
    ensures forall p :: p in paths ==> Exists(Strip(ws, stripped), p) == Exists(ws, p)
  {
    forall p | p in paths
      ensures Content(Strip(ws, stripped), p) == Content(ws, p)
    {
      StripKeepsContent(ws, stripped, p);
    }
  }

  /** Running `s` does the same whether or not the outputs of `s` and of later stages have been
      removed beforehand. */
  lemma RunStageStripped(exec: Exec, ws: Files, s: Stage, later: set<Path>)
    requires s.cmd.Some?
    requires Apart(DepPaths(s), OutPaths(s) + later) && Apart(OutPaths(s), later)
    ensures RunStage(exec, Strip(ws, OutPaths(s) + later), s) ==
      if RunStage(exec, ws, s).None? then None else Some(Strip(RunStage(exec, ws, s).value, later))
  {
    var outs := OutPaths(s);
    var ws' := Strip(ws, outs + later);
    DepsAfterStrip(ws, DepPaths(s), outs + later);
    if exec(s.cmd.value, Contents(ws, DepPaths(s))).Some? {
      var m := exec(s.cmd.value, Contents(ws, DepPaths(s))).value;
      ReplaceThenStrip(ws, m, outs, later);
      forall p | p in outs
        ensures Exists(Strip(ws', outs) + Under(m, outs), p) == Exists(Strip(ws, outs) + Under(m, outs), p)
      {
        UnderContent(ws', m, outs, p);
        UnderContent(ws, m, outs, p);
      }
    }
  }

  /** A run may start by removing its own outputs. */
  lemma RunStageAfterRemoval(exec: Exec, ws: Files, s: Stage)
    requires s.cmd.Some? && Apart(DepPaths(s), OutPaths(s))
    ensures RunStage(exec, Strip(ws, OutPaths(s)), s) == RunStage(exec, ws, s)
  {
    var outs := OutPaths(s);
    var ws' := Strip(ws, outs);
    DepsAfterStrip(ws, DepPaths(s), outs);
    StripTwice(ws, outs, outs);
    assert outs + outs == outs;
  }

  lemma RunOutsSplit(stages: seq<Stage>, i: nat)
    requires i < |stages|
    ensures RunOuts(stages[i..]) ==
      (if Runnable(stages[i]) then OutPaths(stages[i]) else {}) + RunOuts(stages[i + 1..])
  {
    var a, b := stages[i..], stages[i + 1..];
    assert a == [stages[i]] + b;
    forall p
      ensures p in RunOuts(a) <==> p in (if Runnable(stages[i]) then OutPaths(stages[i]) else {}) + RunOuts(b)
    {
      if p in RunOuts(a) {
        var s :| s in a && Runnable(s) && p in OutPaths(s);
        assert s == stages[i] || s in b;
      }
      if p in RunOuts(b) {
        var s :| s in b && Runnable(s) && p in OutPaths(s);
        assert s in a;
      }
      assert stages[i] in a;
    }
  }

  lemma LaterOutput(stages: seq<Stage>, i: nat, p: Path) returns (j: nat)
    requires i < |stages| && p in RunOuts(stages[i + 1..])
    ensures i < j < |stages| && Runnable(stages[j]) && p in OutPaths(stages[j])
  {
    var rest := stages[i + 1..];
    var s :| s in rest && Runnable(s) && p in OutPaths(s);
    var k :| 0 <= k < |rest| && rest[k] == s;
    j := i + 1 + k;
  }

  lemma ReadyApart(stages: seq<Stage>, i: nat)
    requires Ready(stages) && i < |stages| && Runnable(stages[i])
    ensures Apart(DepPaths(stages[i]), OutPaths(stages[i]) + RunOuts(stages[i + 1..]))
    ensures Apart(OutPaths(stages[i]), RunOuts(stages[i + 1..]))
  {
    var s, later := stages[i], RunOuts(stages[i + 1..]);
    forall p, q | q in later
      ensures p in DepPaths(s) ==> !Overlaps(p, q)
      ensures p in OutPaths(s) ==> !Overlaps(p, q)
    {
      var j := LaterOutput(stages, i, q);
      assert Apart(DepPaths(s), OutPaths(stages[j])) && Apart(OutPaths(s), OutPaths(stages[j]));
    }
    assert Apart(DepPaths(s), OutPaths(s));
  }

  /** The loop step of incremental building: once `ws` agrees with the clean build up to stage
      `i` outside the outputs still to come, and stage `i` is left as a run would leave it, the
      agreement extends to stage `i + 1`. */
  lemma CleanStep(exec: Exec, start: Files, stages: seq<Stage>, i: nat, ws: Files, ws': Files)
    requires Ready(stages) && i < |stages|
    requires RunAll(exec, start, stages[..i]) == Some(Strip(ws, RunOuts(stages[i..])))
    requires if Runnable(stages[i]) then RunStage(exec, ws, stages[i]) == Some(ws') else ws' == ws
    ensures RunAll(exec, start, stages[..i + 1]) == Some(Strip(ws', RunOuts(stages[i + 1..])))
  {
    RunAllStep(exec, start, stages, i, ws);
  }

  lemma RunAllStep(exec: Exec, start: Files, stages: seq<Stage>, i: nat, ws: Files)
    requires Ready(stages) && i < |stages|
    requires RunAll(exec, start, stages[..i]) == Some(Strip(ws, RunOuts(stages[i..])))
    ensures var r := if Runnable(stages[i]) then RunStage(exec, ws, stages[i]) else Some(ws);
      RunAll(exec, start, stages[..i + 1]) ==
        if r.None? then None else Some(Strip(r.value, RunOuts(stages[i + 1..])))
  {
    var s := stages[i];
    assert stages[..i + 1][..i] == stages[..i];
    RunOutsSplit(stages, i);
    assert {} + RunOuts(stages[i + 1..]) == RunOuts(stages[i + 1..]);
    assert stages[..i + 1][i] == s;
    if Runnable(s) {
      ReadyApart(stages, i);
      RunStageStripped(exec, ws, s, RunOuts(stages[i + 1..]));
    }
  }

  /** A stage that cannot be run where the loop stands cannot be run in the clean build. */
  lemma FailingStep(exec: Exec, start: Files, stages: seq<Stage>, i: nat, ws: Files)
    requires Ready(stages) && i < |stages| && Runnable(stages[i]) && RunStage(exec, ws, stages[i]).None?
    requires RunAll(exec, start, stages[..i]) == Some(Strip(ws, RunOuts(stages[i..])))
    ensures RunAll(exec, start, stages).None?
  {
    RunAllStep(exec, start, stages, i, ws);
    FailureStays(exec, start, stages, i + 1);
  }

  lemma {:induction false} FailureStays(exec: Exec, start: Files, stages: seq<Stage>, n: nat)
    requires n <= |stages| && RunAll(exec, start, stages[..n]).None?
    ensures RunAll(exec, start, stages).None?
    decreases |stages|
  {
    if n < |stages| {
      var init := stages[..|stages| - 1];
      assert init[..n] == stages[..n];
      FailureStays(exec, start, init, n);
    } else {
      assert stages[..n] == stages;
    }
  }

  lemma StripNothing(ws: Files)
    ensures Strip(ws, RunOuts([])) == ws
  {
  }

  /** What `s` stands for in a workspace that has been built: its dependencies are there, the command
      accepts what they hold, and its outputs are there and hold the files the command makes. */
  ghost predicate UpToDate(exec: Exec, ws: Files, s: Stage)
    requires s.cmd.Some?
  {
    var m := exec(s.cmd.value, map p | p in DepPaths(s) :: Content(ws, p));
    && (forall d :: Some(d) in s.deps ==> exists f :: f in ws && d <= f)
    && m.Some?
    && (forall o :: o in s.outs ==> exists f :: f in ws && o.path <= f)
    && (forall o, f :: o in s.outs && o.path <= f ==> (f in ws <==> f in m.value))
    && (forall o, f :: o in s.outs && o.path <= f && f in ws && f in m.value ==> ws[f] == m.value[f])
  }

  lemma ExistsIff(ws: Files, p: Path)
    ensures Exists(ws, p) <==> exists f :: f in ws && p <= f
  {
    if r :| r in Content(ws, p) {
      assert p + r in ws && p <= p + r;
    }
  }

  lemma SameBelow(a: Files, b: Files, p: Path)
    ensures Content(a, p) == Content(b, p) <==>
      forall f :: p <= f ==> (f in a <==> f in b) && (f in a && f in b ==> a[f] == b[f])
  {
    if Content(a, p) == Content(b, p) {
      forall f | p <= f
        ensures (f in a <==> f in b) && (f in a && f in b ==> a[f] == b[f])
      {
        ContentDetermines(a, b, p, f);
      }
    }
    if forall f :: p <= f ==> (f in a <==> f in b) && (f in a && f in b ==> a[f] == b[f]) {
      FilesDetermine(a, b, p);
    }
  }

  lemma DepsThere(ws: Files, s: Stage)
    ensures (forall p :: p in DepPaths(s) ==> Exists(ws, p)) <==>
      forall d :: Some(d) in s.deps ==> exists f :: f in ws && d <= f
  {
    forall d
      ensures d in DepPaths(s) <==> Some(d) in s.deps
      ensures Exists(ws, d) <==> exists f :: f in ws && d <= f
    {
      ExistsIff(ws, d);
    }
  }

  lemma OutsHold(ws: Files, m: Files, s: Stage)
    ensures (forall p :: p in OutPaths(s) ==> Exists(ws, p) && Content(ws, p) == Content(m, p)) <==>
      && (forall o :: o in s.outs ==> exists f :: f in ws && o.path <= f)
      && (forall o, f :: o in s.outs && o.path <= f ==> (f in ws <==> f in m))
      && (forall o, f :: o in s.outs && o.path <= f && f in ws && f in m ==> ws[f] == m[f])
  {
    forall o | o in s.outs
      ensures o.path in OutPaths(s)
      ensures Exists(ws, o.path) <==> exists f :: f in ws && o.path <= f
      ensures Content(ws, o.path) == Content(m, o.path) <==>
        forall f :: o.path <= f ==> (f in ws <==> f in m) && (f in ws && f in m ==> ws[f] == m[f])
    {
      ExistsIff(ws, o.path);
      SameBelow(ws, m, o.path);
    }
  }

  /** A run that changes nothing is one of a stage that is up to date. */
  lemma IdleRunIff(exec: Exec, ws: Files, s: Stage)
    requires s.cmd.Some?
    ensures RunStage(exec, ws, s) == Some(ws) <==> UpToDate(exec, ws, s)
  {
    assert Contents(ws, DepPaths(s)) == map p | p in DepPaths(s) :: Content(ws, p);
    DepsThere(ws, s);
    var m := exec(s.cmd.value, Contents(ws, DepPaths(s)));
    if m.Some? {
      OutsHold(ws, m.value, s);
      OutsIdle(ws, m.value, OutPaths(s));
    }
  }

  lemma OutsIdle(ws: Files, m: Files, outs: set<Path>)
    ensures Strip(ws, outs) + Under(m, outs) == ws <==> forall p :: p in outs ==> Content(ws, p) == Content(m, p)
  {
    if Strip(ws, outs) + Under(m, outs) == ws {
      forall p | p in outs
        ensures Content(ws, p) == Content(m, p)
      {
        UnderContent(ws, m, outs, p);
      }
    }
    if forall p :: p in outs ==> Content(ws, p) == Content(m, p) {
      UnderMany(ws, m, outs);
      SplitAt(ws, outs);
    }
  }

  /** Running a stage leaves it up to date. */
  lemma RunIsUpToDate(exec: Exec, ws: Files, s: Stage, ws': Files)
    requires s.cmd.Some? && Apart(DepPaths(s), OutPaths(s)) && RunStage(exec, ws, s) == Some(ws')
    ensures UpToDate(exec, ws', s) && Strip(ws', OutPaths(s)) == Strip(ws, OutPaths(s))
  {
    assert Strip(ws', OutPaths(s)) == Strip(ws, OutPaths(s));
    RunStageAfterRemoval(exec, ws, s);
    RunStageAfterRemoval(exec, ws', s);
    IdleRunIff(exec, ws', s);
  }

  lemma IdleElsewhere(exec: Exec, ws: Files, ws': Files, s: Stage)
    requires s.cmd.Some? && RunStage(exec, ws, s) == Some(ws)
    requires Contents(ws', DepPaths(s)) == Contents(ws, DepPaths(s))
    requires forall p :: p in DepPaths(s) ==> Exists(ws', p)
    requires forall p :: p in OutPaths(s) ==> Content(ws', p) == Content(ws, p)
    ensures RunStage(exec, ws', s) == Some(ws')
  {
    var m := exec(s.cmd.value, Contents(ws, DepPaths(s))).value;
    OutsIdle(ws, m, OutPaths(s));
    OutsIdle(ws', m, OutPaths(s));
  }

  /** Writing elsewhere leaves a stage up to date. */
  lemma StaysUpToDate(exec: Exec, ws: Files, ws': Files, s: Stage, paths: set<Path>)
    requires s.cmd.Some? && UpToDate(exec, ws, s) && Strip(ws', paths) == Strip(ws, paths)
    requires Apart(DepPaths(s), paths) && Apart(OutPaths(s), paths)
    ensures UpToDate(exec, ws', s)
  {
    IdleRunIff(exec, ws, s);
    DepsAfterStrip(ws, DepPaths(s), paths);
    DepsAfterStrip(ws', DepPaths(s), paths);
    forall p | p in OutPaths(s)
      ensures Content(ws', p) == Content(ws, p)
    {
      StripKeepsContent(ws, paths, p);
      StripKeepsContent(ws', paths, p);
    }
    IdleElsewhere(exec, ws, ws', s);
    IdleRunIff(exec, ws', s);
  }

  /** The stages that are not frozen and have a command are up to date, and nothing else has changed. */
  ghost predicate Built(exec: Exec, before: Files, stages: seq<Stage>, after: Files) {
    && (forall s :: s in stages && s.cmd.Some? && !s.frozen ==> UpToDate(exec, after, s))
    && (forall f :: (forall s, o :: s in stages && s.cmd.Some? && !s.frozen && o in s.outs ==> !(o.path <= f)) ==>
      (f in after <==> f in before) && (f in after && f in before ==> after[f] == before[f]))
  }

  /** The first `n` stages are up to date where the build stands. */
  ghost predicate DoneTo(exec: Exec, ws: Files, stages: seq<Stage>, n: nat)
    requires n <= |stages|
  {
    forall i :: 0 <= i < n && Runnable(stages[i]) ==> UpToDate(exec, ws, stages[i])
  }

  lemma {:induction false} RunAllDone(exec: Exec, start: Files, stages: seq<Stage>, n: nat, ws: Files)
    requires Ready(stages) && n <= |stages| && RunAll(exec, start, stages[..n]) == Some(ws)
    ensures DoneTo(exec, ws, stages, n) && Strip(ws, RunOuts(stages)) == Strip(start, RunOuts(stages))
    decreases n
  {
    if n > 0 {
      var s := stages[n - 1];
      assert stages[..n][..n - 1] == stages[..n - 1];
      var before := RunAll(exec, start, stages[..n - 1]).value;
      RunAllDone(exec, start, stages, n - 1, before);
      if Runnable(s) {
        assert Apart(DepPaths(s), OutPaths(s));
        RunIsUpToDate(exec, before, s, ws);
        forall i | 0 <= i < n - 1 && Runnable(stages[i])
          ensures UpToDate(exec, ws, stages[i])
        {
          StaysUpToDate(exec, before, ws, stages[i], OutPaths(s));
        }
        StripMore(before, ws, OutPaths(s), RunOuts(stages));
      }
    }
  }

  lemma StripMore(a: Files, b: Files, fewer: set<Path>, more: set<Path>)
    requires Strip(a, fewer) == Strip(b, fewer) && fewer <= more
    ensures Strip(a, more) == Strip(b, more)
  {
    assert fewer + more == more;
    StripTwice(a, fewer, more);
    StripTwice(b, fewer, more);
  }

  lemma {:induction false} DoneRunAll(exec: Exec, start: Files, stages: seq<Stage>, n: nat, ws: Files)
    requires Ready(stages) && n <= |stages| && DoneTo(exec, ws, stages, |stages|)
    requires start == Strip(ws, RunOuts(stages))
    ensures RunAll(exec, start, stages[..n]) == Some(Strip(ws, RunOuts(stages[n..])))
    decreases n
  {
    if n == 0 {
      assert stages[0..] == stages && stages[..0] == [];
    } else {
      DoneRunAll(exec, start, stages, n - 1, ws);
      DoneIsIdle(exec, ws, stages, n - 1);
      CleanStep(exec, start, stages, n - 1, ws, ws);
    }
  }

  lemma DoneIsIdle(exec: Exec, ws: Files, stages: seq<Stage>, i: nat)
    requires i < |stages| && DoneTo(exec, ws, stages, |stages|)
    ensures Runnable(stages[i]) ==> RunStage(exec, ws, stages[i]) == Some(ws)
  {
    if Runnable(stages[i]) {
      IdleRunIff(exec, ws, stages[i]);
    }
  }

  lemma InRunOuts(stages: seq<Stage>, f: Path)
    ensures InAny(f, RunOuts(stages)) <==>
      exists s, o :: s in stages && s.cmd.Some? && !s.frozen && o in s.outs && o.path <= f
  {
    if InAny(f, RunOuts(stages)) {
      var p :| p in RunOuts(stages) && p <= f;
      var s :| s in stages && Runnable(s) && p in OutPaths(s);
      var o :| o in s.outs && o.path == p;
    }
    if s, o :| s in stages && s.cmd.Some? && !s.frozen && o in s.outs && o.path <= f {
      assert o.path in OutPaths(s) && o.path in RunOuts(stages);
    }
  }

  lemma SameOutside(a: Files, b: Files, stages: seq<Stage>)
    ensures Strip(a, RunOuts(stages)) == Strip(b, RunOuts(stages)) <==>
      forall f :: (forall s, o :: s in stages && s.cmd.Some? && !s.frozen && o in s.outs ==> !(o.path <= f)) ==>
        (f in a <==> f in b) && (f in a && f in b ==> a[f] == b[f])
  {
    var outs := RunOuts(stages);
    forall f
      ensures InAny(f, outs) <==>
        !(forall s, o :: s in stages && s.cmd.Some? && !s.frozen && o in s.outs ==> !(o.path <= f))
    {
      InRunOuts(stages, f);
    }
    SameStripped(a, b, outs);
  }

  lemma SameStripped(a: Files, b: Files, paths: set<Path>)
    ensures Strip(a, paths) == Strip(b, paths) <==>
      forall f :: !InAny(f, paths) ==> (f in a <==> f in b) && (f in a && f in b ==> a[f] == b[f])
  {
    if Strip(a, paths) == Strip(b, paths) {
      forall f | !InAny(f, paths)
        ensures (f in a <==> f in b) && (f in a && f in b ==> a[f] == b[f])
      {
        assert f in a <==> f in Strip(a, paths);
        assert f in b <==> f in Strip(b, paths);
      }
    }
  }

  /** A from-scratch build leaves the one workspace in which every stage with a command that is not
      frozen is up to date, and all other files are as before; there is no other such workspace. */
  lemma CleanBuildIff(exec: Exec, before: Files, stages: seq<Stage>, after: Files)
    requires Ready(stages)
    ensures CleanBuild(exec, before, stages) == Some(after) <==> Built(exec, before, stages, after)
  {
    var outs := RunOuts(stages);
    assert stages[..|stages|] == stages && stages[|stages|..] == [];
    assert outs + outs == outs;
    StripTwice(before, outs, outs);
    SameOutside(after, before, stages);
    if CleanBuild(exec, before, stages) == Some(after) {
      RunAllDone(exec, Strip(before, outs), stages, |stages|, after);
    }
    if Built(exec, before, stages, after) {
      DoneRunAll(exec, Strip(before, outs), stages, |stages|, after);
      StripNothing(after);
    }
  }
}
