/** The incremental run loop: change detection against the lock file, the run cache, and the
    reproduction of a pipeline in the workspace. */
module Reproduce {
  import opened Common
  import opened Paths
  import opened Stages
  import opened Orders
  import opened Files
  import opened Builds

  /** What the run cache is keyed by: command, dependency hashes, output paths. */
  datatype RunKey = RunKey(cmd: string, deps: map<Path, Files>, outs: set<Path>)

  datatype Outcome = Failed | Unchanged | Reproduced

  datatype Restoration = Restored | NotFound | Aborted

  function Recorded(m: map<Path, Files>, p: Path): Option<Files> {
    if p in m then Some(m[p]) else None
  }

  predicate DepChanged(ws: Files, recorded: Option<Files>, p: Path) {
    !Exists(ws, p) || recorded != Some(Content(ws, p))
  }

  predicate OutChanged(ws: Files, objects: set<Files>, recorded: Option<Files>, o: Out) {
    || (recorded.Some? && o.useCache && recorded.value !in objects)
    || !Exists(ws, o.path)
    || recorded != Some(Content(ws, o.path))
  }

  predicate IsCallback(s: Stage) {
    s.cmd.Some? && s.deps == []
  }

  /** The lock entry of a stage; a stage without one has nothing recorded. */
  function LockEntry(lock: map<string, Entry>, s: Stage): Entry {
    if s.name in lock then lock[s.name] else Entry(s.cmd, map[], map[])
  }

  predicate DepsChanged(s: Stage, ws: Files, e: Entry) {
    exists p :: p in DepPaths(s) && DepChanged(ws, Recorded(e.deps, p), p)
  }

  predicate OutsChanged(s: Stage, ws: Files, objects: set<Files>, e: Entry) {
    exists o :: o in s.outs && OutChanged(ws, objects, Recorded(e.outs, o.path), o)
  }

  predicate Changed(s: Stage, ws: Files, objects: set<Files>, e: Entry) {
    || e.cmd != s.cmd
    || (!s.frozen && (IsCallback(s) || s.alwaysChanged || DepsChanged(s, ws, e)))
    || OutsChanged(s, ws, objects, e)
  }

  /** The run cache serves only stages with a command, dependencies and outputs. */
  predicate HasKey(s: Stage) {
    s.cmd.Some? && s.deps != [] && s.outs != [] && forall d :: d in s.deps ==> d.Some?
  }

  function Key(s: Stage, ws: Files): RunKey
    requires s.cmd.Some?
  {
    RunKey(s.cmd.value, Contents(ws, DepPaths(s)), OutPaths(s))
  }

  /** What saving a stage records. */
  function Snapshot(s: Stage, ws: Files): Entry {
    Entry(s.cmd, Contents(ws, DepPaths(s)), Contents(ws, OutPaths(s)))
  }

  ghost predicate OwnOutsApart(s: Stage) {
    forall i, j :: 0 <= i < j < |s.outs| ==> !Overlaps(s.outs[i].path, s.outs[j].path)
  }

  /** Only a stage without a command may depend on another repository. */
  predicate LocalDeps(s: Stage) {
    s.cmd.Some? ==> forall d :: d in s.deps ==> d.Some?
  }

  /** Names are unique and no two outputs overlap. */
  ghost predicate Accepted(stages: set<Stage>) {
    && (forall s :: s in stages ==> OwnOutsApart(s) && LocalDeps(s))
    && (forall s, t :: s in stages && t in stages && s != t ==>
      s.name != t.name && Apart(OutPaths(s), OutPaths(t)))
  }

  /** Lock entries of the stages that may run are true, and name only declared dependencies. */
  ghost predicate LockTrue(exec: Exec, lock: map<string, Entry>, stages: set<Stage>) {
    forall s :: s in stages && Runnable(s) && s.name in lock ==>
      TrueEntry(exec, lock[s.name]) && lock[s.name].deps.Keys <= DepPaths(s)
  }

  /** Run-cache entries that stages which may run could be restored from are true. */
  ghost predicate RunsTrue(exec: Exec, runs: map<RunKey, set<Entry>>, stages: set<Stage>) {
    forall s, k, e :: s in stages && Runnable(s) && k in runs && k.outs == OutPaths(s) && e in runs[k] ==>
      && TrueEntry(exec, e) && e.cmd == Some(k.cmd) && e.deps == k.deps && e.outs.Keys == k.outs
  }

  lemma UnchangedMatches(s: Stage, ws: Files, objects: set<Files>, e: Entry)
    requires Runnable(s) && !Changed(s, ws, objects, e)
    ensures Matches(s, ws, e)
  {
    forall p | p in OutPaths(s)
      ensures Exists(ws, p) && p in e.outs && e.outs[p] == Content(ws, p)
    {
      var o :| o in s.outs && o.path == p;
      assert !OutChanged(ws, objects, Recorded(e.outs, o.path), o);
    }
    forall p | p in DepPaths(s)
      ensures Exists(ws, p) && p in e.deps && e.deps[p] == Content(ws, p)
    {
      assert !DepChanged(ws, Recorded(e.deps, p), p);
    }
  }

  /** A skipped stage is one that running would leave as it is. */
  lemma SkippedIsRun(exec: Exec, s: Stage, ws: Files, objects: set<Files>, e: Entry)
    requires Runnable(s) && !Changed(s, ws, objects, e)
    requires TrueEntry(exec, e) && e.deps.Keys <= DepPaths(s)
    ensures RunStage(exec, ws, s) == Some(ws)
  {
    UnchangedMatches(s, ws, objects, e);
    assert e.deps == Contents(ws, DepPaths(s));
    RecordedOutputsAreRun(exec, ws, s, e, ws);
  }

  /** After a run, what is saved is a true record with exactly the declared dependencies. */
  lemma SnapshotIsTrue(exec: Exec, ws: Files, s: Stage, ws': Files)
    requires s.cmd.Some? && RunStage(exec, ws, s) == Some(ws')
    requires Apart(DepPaths(s), OutPaths(s))
    ensures TrueEntry(exec, Snapshot(s, ws')) && Snapshot(s, ws').deps == Contents(ws, DepPaths(s))
  {
    var m := exec(s.cmd.value, Contents(ws, DepPaths(s))).value;
    var stripped := Strip(ws, OutPaths(s));
    DepsAfterStrip(ws, DepPaths(s), OutPaths(s));
    DepsAfterStrip(ws', DepPaths(s), OutPaths(s));
    assert Strip(ws', OutPaths(s)) == stripped;
    forall p | p in OutPaths(s)
      ensures Content(ws', p) == Content(m, p) && Exists(ws', p)
    {
      UnderContent(ws, m, OutPaths(s), p);
    }
  }

  lemma UnchangedDeps(s: Stage, ws: Files, e: Entry)
    requires !DepsChanged(s, ws, e)
    ensures forall p :: p in DepPaths(s) ==> Exists(ws, p)
    ensures e.deps.Keys <= DepPaths(s) ==> e.deps == Contents(ws, DepPaths(s))
  {
    forall p | p in DepPaths(s)
      ensures Exists(ws, p) && p in e.deps && e.deps[p] == Content(ws, p)
    {
      assert !DepChanged(ws, Recorded(e.deps, p), p);
    }
  }

  lemma CachedRun(exec: Exec, runs: map<RunKey, set<Entry>>, stages: set<Stage>, s: Stage, k: RunKey, e: Entry)
    requires RunsTrue(exec, runs, stages) && s in stages && Runnable(s)
    requires k in runs && e in runs[k] && k.outs == OutPaths(s)
    ensures TrueEntry(exec, e) && e.cmd == Some(k.cmd) && e.deps == k.deps
    ensures forall o :: o in s.outs ==> o.path in e.outs
  {
    assert forall o :: o in s.outs ==> o.path in OutPaths(s);
  }

  /** The run cache after `s` has been saved. */
  function SavedRuns(s: Stage, ws: Files, runs: map<RunKey, set<Entry>>): map<RunKey, set<Entry>> {
    if IsCallback(s) || s.alwaysChanged || !HasKey(s) then runs
    else
      var k := Key(s, ws);
      runs[k := (if k in runs then runs[k] else {}) + {Snapshot(s, ws)}]
  }

  /** The record of the workspace as it stands is a true one exactly when running the stage
      would change nothing. */
  lemma RecordIsRunIff(exec: Exec, ws: Files, s: Stage)
    requires s.cmd.Some? && NothingMissing(s, ws)
    ensures TrueEntry(exec, Snapshot(s, ws)) <==> RunStage(exec, ws, s) == Some(ws)
  {
    if TrueEntry(exec, Snapshot(s, ws)) {
      RecordedOutputsAreRun(exec, ws, s, Snapshot(s, ws), ws);
    }
    if RunStage(exec, ws, s) == Some(ws) {
      RunIsRecordedTruly(exec, ws, s);
    }
  }

  /** The entry says that `p` holds `c`: an output at or above `p` was recorded so. */
  ghost predicate Says(e: Entry, p: Path, c: Files) {
    exists q :: q in e.outs && q <= p && Content(e.outs[q], p[|q|..]) == c
  }

  /** What verifying a frozen stage records agrees with the entry it replaces: same command and
      dependencies, and the entry says what each output holds. */
  ghost predicate Agrees(s: Stage, ws: Files, e: Entry) {
    && e.cmd == s.cmd && e.deps == Contents(ws, DepPaths(s))
    && forall p :: p in OutPaths(s) ==> Says(e, p, Content(ws, p))
  }

  /** What is below an output is part of what the output holds. */
  lemma ContentBelow(m: Files, q: Path, p: Path)
    requires q <= p
    ensures Content(Content(m, q), p[|q|..]) == Content(m, p)
  {
    var inner, rel := Content(m, q), p[|q|..];
    assert q + rel == p;
    forall r
      ensures r in Content(inner, rel) <==> r in Content(m, p)
      ensures r in Content(m, p) ==> Content(inner, rel)[r] == Content(m, p)[r]
    {
      ContentAt(inner, rel, r);
      ContentAt(m, q, rel + r);
      ContentAt(m, p, r);
      assert q + (rel + r) == p + r;
    }
  }

  lemma ContentAt(m: Files, p: Path, r: Path)
    ensures r in Content(m, p) <==> p + r in m
    ensures p + r in m ==> r in Content(m, p) && Content(m, p)[r] == m[p + r]
  {
    assert p <= p + r && (p + r)[|p|..] == r;
  }

  lemma AgreeingIsTrue(exec: Exec, ws: Files, s: Stage, e: Entry)
    requires s.cmd.Some? && NothingMissing(s, ws) && Agrees(s, ws, e) && TrueEntry(exec, e)
    ensures TrueEntry(exec, Snapshot(s, ws))
  {
    var m := exec(e.cmd.value, e.deps).value;
    forall p | p in OutPaths(s)
      ensures Content(ws, p) == Content(m, p)
    {
      assert Says(e, p, Content(ws, p));
      var q :| q in e.outs && q <= p && Content(e.outs[q], p[|q|..]) == Content(ws, p);
      ContentBelow(m, q, p);
    }
    forall p | p in OutPaths(s)
      ensures Exists(ws, p)
    {
      assert p in DepPaths(s) + OutPaths(s);
    }
  }

  /** A command that only ever worked on the recorded inputs. */
  lemma OtherInputsAreFalse(past: Exec, ws: Files, s: Stage, e: Entry) returns (exec: Exec)
    requires s.cmd.Some? && TrueEntry(past, e)
    requires e.cmd != s.cmd || e.deps != Contents(ws, DepPaths(s))
    ensures TrueEntry(exec, e) && !TrueEntry(exec, Snapshot(s, ws))
  {
    var c, d := e.cmd.value, e.deps;
    exec := (cmd, deps) => if cmd == c && deps == d then past(cmd, deps) else None;
  }

  /** A name that is not among the given ones. */
  lemma FreshName(names: set<string>) returns (name: string)
    ensures name !in names
  {
    var n := LongerThan(names);
    name := seq(n, i => 'x');
  }

  lemma {:induction false} LongerThan(names: set<string>) returns (n: nat)
    ensures forall name :: name in names ==> |name| < n
  {
    n := 0;
    if names != {} {
      var name :| name in names;
      var rest := LongerThan(names - {name});
      n := if rest > |name| then rest else |name| + 1;
      assert forall x :: x in names ==> x == name || x in names - {name};
    }
  }

  /** A file below `p` that is neither there nor recorded. */
  lemma FreshFile(m: Files, outs: map<Path, Files>, p: Path) returns (f: Path)
    ensures p < f && f !in m && f !in outs && |f| == |p| + 1
  {
    var name := FreshName(set g | g in m.Keys + outs.Keys && |g| > |p| :: g[|p|]);
    f := p + [name];
    assert f[|p|] == name;
  }

  /** Another file below an output that was not recorded, and the recorded outputs are the same. */
  lemma AddedFile(m: Files, outs: map<Path, Files>, p: Path, f: Path)
    requires p < f && |f| == |p| + 1 && f !in m && f !in outs && forall q :: q in outs ==> !(q <= p)
    ensures forall q :: q in outs ==> Content(m[f := ""], q) == Content(m, q)
    ensures Content(m[f := ""], p) != Content(m, p)
  {
    forall q | q in outs
      ensures Content(m[f := ""], q) == Content(m, q)
    {
      AboveChild(p, f, q);
      FilesDetermine(m[f := ""], m, q);
    }
    assert p + f[|p|..] == f;
    ContentAt(m[f := ""], p, f[|p|..]);
    ContentAt(m, p, f[|p|..]);
  }

  lemma AboveChild(p: Path, f: Path, q: Path)
    requires p < f && |f| == |p| + 1
    ensures q <= f ==> q <= p || q == f
  {
    if q <= f && |q| <= |p| {
      assert q == f[..|q|] && f[..|p|] == p;
      assert q == p[..|q|];
    }
  }

  /** A command that left one more file at an output that was not recorded then. */
  lemma NewOutputIsFalse(past: Exec, ws: Files, s: Stage, e: Entry, p: Path) returns (exec: Exec)
    requires s.cmd.Some? && TrueEntry(past, e)
    requires e.cmd == s.cmd && e.deps == Contents(ws, DepPaths(s))
    requires p in OutPaths(s) && forall q :: q in e.outs ==> !(q <= p)
    ensures TrueEntry(exec, e) && !TrueEntry(exec, Snapshot(s, ws))
  {
    var m := past(e.cmd.value, e.deps).value;
    exec := past;
    if Content(m, p) == Content(ws, p) {
      var f := FreshFile(m, e.outs, p);
      AddedFile(m, e.outs, p, f);
      exec := (cmd, deps) => Some(m[f := ""]);
    }
    OtherOutputIsFalse(exec, ws, s, e, p);
  }

  lemma OtherOutputIsFalse(exec: Exec, ws: Files, s: Stage, e: Entry, p: Path)
    requires s.cmd.Some? && TrueEntry(exec, e)
    requires e.cmd == s.cmd && e.deps == Contents(ws, DepPaths(s))
    requires p in OutPaths(s) && Content(exec(e.cmd.value, e.deps).value, p) != Content(ws, p)
    ensures !TrueEntry(exec, Snapshot(s, ws))
  {
    assert p in Snapshot(s, ws).outs && Snapshot(s, ws).outs[p] == Content(ws, p);
  }

  /** A command that made the entry true, but not what replaces it. */
  lemma DisagreeingIsFalse(past: Exec, ws: Files, s: Stage, e: Entry) returns (exec: Exec)
    requires s.cmd.Some? && !Agrees(s, ws, e) && TrueEntry(past, e)
    ensures TrueEntry(exec, e) && !TrueEntry(exec, Snapshot(s, ws))
  {
    if e.cmd != s.cmd || e.deps != Contents(ws, DepPaths(s)) {
      exec := OtherInputsAreFalse(past, ws, s, e);
    } else {
      var p :| p in OutPaths(s) && !Says(e, p, Content(ws, p));
      if q :| q in e.outs && q <= p {
        ContentBelow(past(e.cmd.value, e.deps).value, q, p);
        OtherOutputIsFalse(past, ws, s, e, p);
        exec := past;
      } else {
        exec := NewOutputIsFalse(past, ws, s, e, p);
      }
    }
  }

  /** Verifying a frozen stage records the workspace as if it had been produced by a run.  For
      every command that made the replaced entry true the record is true exactly when it agrees
      with that entry. */
  lemma VerifiedRecordIsTrueIff(past: Exec, ws: Files, s: Stage, e: Entry)
    requires s.cmd.Some? && NothingMissing(s, ws) && TrueEntry(past, e)
    ensures (forall exec: Exec :: TrueEntry(exec, e) ==> TrueEntry(exec, Snapshot(s, ws))) <==> Agrees(s, ws, e)
  {
    if Agrees(s, ws, e) {
      forall exec: Exec | TrueEntry(exec, e)
        ensures TrueEntry(exec, Snapshot(s, ws))
      {
        AgreeingIsTrue(exec, ws, s, e);
      }
    } else {
      var exec := DisagreeingIsFalse(past, ws, s, e);
      assert TrueEntry(exec, e) && !TrueEntry(exec, Snapshot(s, ws));
    }
  }

  lemma RunIsRecordedTruly(exec: Exec, ws: Files, s: Stage)
    requires s.cmd.Some? && RunStage(exec, ws, s) == Some(ws)
    ensures TrueEntry(exec, Snapshot(s, ws))
  {
    var m := exec(s.cmd.value, Contents(ws, DepPaths(s))).value;
    forall p | p in OutPaths(s)
      ensures Content(ws, p) == Content(m, p) && Exists(ws, p)
    {
      UnderContent(ws, m, OutPaths(s), p);
    }
  }

  lemma LockWith(exec: Exec, lock: map<string, Entry>, stages: set<Stage>, s: Stage, e: Entry)
    requires s in stages && Accepted(stages) && LockTrue(exec, lock, stages)
    requires TrueEntry(exec, e) && e.deps.Keys <= DepPaths(s)
    ensures LockTrue(exec, lock[s.name := e], stages)
  {
    var lock' := lock[s.name := e];
    forall t | t in stages && Runnable(t) && t.name in lock'
      ensures TrueEntry(exec, lock'[t.name]) && lock'[t.name].deps.Keys <= DepPaths(t)
    {
      if t != s {
        assert t.name != s.name;
        assert lock'[t.name] == lock[t.name];
      }
    }
  }

  lemma RunsWith(exec: Exec, runs: map<RunKey, set<Entry>>, stages: set<Stage>, k: RunKey, e: Entry)
    requires RunsTrue(exec, runs, stages)
    requires TrueEntry(exec, e) && e.cmd == Some(k.cmd) && e.deps == k.deps && e.outs.Keys == k.outs
    ensures RunsTrue(exec, runs[k := (if k in runs then runs[k] else {}) + {e}], stages)
  {
    var all := runs[k := (if k in runs then runs[k] else {}) + {e}];
    forall s, j, f | s in stages && Runnable(s) && j in all && j.outs == OutPaths(s) && f in all[j]
      ensures TrueEntry(exec, f) && f.cmd == Some(j.cmd) && f.deps == j.deps && f.outs.Keys == j.outs
    {
      if j != k || f != e {
        assert j in runs && f in runs[j];
      }
    }
  }

  /** Saving a stage that has just been run keeps all records true. */
  lemma SavingRunKeepsRecords(exec: Exec, s: Stage, before: Files, ws: Files,
      lock: map<string, Entry>, runs: map<RunKey, set<Entry>>, stages: set<Stage>)
    requires Runnable(s) && RunStage(exec, before, s) == Some(ws) && Apart(DepPaths(s), OutPaths(s))
    requires s in stages && Accepted(stages) && LockTrue(exec, lock, stages) && RunsTrue(exec, runs, stages)
    ensures LockTrue(exec, lock[s.name := Snapshot(s, ws)], stages)
    ensures RunsTrue(exec, SavedRuns(s, ws, runs), stages)
  {
    SnapshotIsTrue(exec, before, s, ws);
    var e := Snapshot(s, ws);
    assert e.deps.Keys == DepPaths(s) && e.outs.Keys == OutPaths(s);
    LockWith(exec, lock, stages, s, e);
    RunsWith(exec, runs, stages, Key(s, ws), e);
  }

  lemma LockWithSource(exec: Exec, lock: map<string, Entry>, stages: set<Stage>, s: Stage, e: Entry)
    requires !Runnable(s) && s in stages && Accepted(stages) && LockTrue(exec, lock, stages)
    ensures LockTrue(exec, lock[s.name := e], stages)
  {
    forall t | t in stages && Runnable(t)
      ensures t.name != s.name
    {
    }
  }

  lemma OtherOuts(stages: set<Stage>, s: Stage, t: Stage)
    requires Accepted(stages) && s in stages && t in stages && s != t && s.outs != []
    ensures OutPaths(s) != OutPaths(t)
  {
    var p := s.outs[0].path;
    assert p in OutPaths(s) && Overlaps(p, p);
    assert Apart(OutPaths(s), OutPaths(t));
  }

  lemma RunsWithSource(exec: Exec, runs: map<RunKey, set<Entry>>, stages: set<Stage>, s: Stage, k: RunKey, e: Entry)
    requires !Runnable(s) && s in stages && Accepted(stages) && RunsTrue(exec, runs, stages)
    requires s.outs != [] && k.outs == OutPaths(s)
    ensures RunsTrue(exec, runs[k := (if k in runs then runs[k] else {}) + {e}], stages)
  {
    var all := runs[k := (if k in runs then runs[k] else {}) + {e}];
    forall t, j, f | t in stages && Runnable(t) && j in all && j.outs == OutPaths(t) && f in all[j]
      ensures TrueEntry(exec, f) && f.cmd == Some(j.cmd) && f.deps == j.deps && f.outs.Keys == j.outs
    {
      OtherOuts(stages, s, t);
      assert j in runs && f in runs[j];
    }
  }

  /** Saving a source stage touches no record that another stage could be skipped or restored by. */
  lemma SavingSourceKeepsRecords(exec: Exec, s: Stage, ws: Files,
      lock: map<string, Entry>, runs: map<RunKey, set<Entry>>, stages: set<Stage>)
    requires !Runnable(s) && s in stages && Accepted(stages)
    requires LockTrue(exec, lock, stages) && RunsTrue(exec, runs, stages)
    ensures LockTrue(exec, lock[s.name := Snapshot(s, ws)], stages)
    ensures RunsTrue(exec, SavedRuns(s, ws, runs), stages)
  {
    LockWithSource(exec, lock, stages, s, Snapshot(s, ws));
    if SavedRuns(s, ws, runs) != runs {
      RunsWithSource(exec, runs, stages, s, Key(s, ws), Snapshot(s, ws));
    }
  }

  /** The contents of the outputs of `s` that use the cache, or of those that do not. */
  function OutContents(s: Stage, ws: Files, cached: bool): set<Files> {
    set o | o in s.outs && o.useCache == cached :: Content(ws, o.path)
  }

  /** Executing the command on a workspace without the outputs is a run, if nothing is missing. */
  lemma RunProduces(exec: Exec, ws: Files, s: Stage, ws': Files)
    requires s.cmd.Some? && Apart(DepPaths(s), OutPaths(s))
    requires exec(s.cmd.value, Contents(ws, DepPaths(s))).Some?
    requires ws' == Strip(ws, OutPaths(s)) + Under(exec(s.cmd.value, Contents(ws, DepPaths(s))).value, OutPaths(s))
    ensures RunStage(exec, ws, s) == if NothingMissing(s, ws') then Some(ws') else None
  {
    assert Strip(ws', OutPaths(s)) == Strip(ws, OutPaths(s));
    SameDeps(s, ws, ws');
    if NothingMissing(s, ws') {
      assert forall p :: p in DepPaths(s) ==> Exists(ws, p);
    }
  }

  lemma SameDeps(s: Stage, ws: Files, ws': Files)
    requires Apart(DepPaths(s), OutPaths(s)) && Strip(ws', OutPaths(s)) == Strip(ws, OutPaths(s))
    ensures forall p :: p in DepPaths(s) ==> Exists(ws, p) == Exists(ws', p)
  {
    forall p | p in DepPaths(s)
      ensures Exists(ws, p) == Exists(ws', p)
    {
      StripKeepsContent(ws, OutPaths(s), p);
      StripKeepsContent(ws', OutPaths(s), p);
    }
  }

  /** A run leaves all dependencies and outputs in place. */
  lemma RunLeavesAll(exec: Exec, ws: Files, s: Stage, ws': Files)
    requires s.cmd.Some? && Apart(DepPaths(s), OutPaths(s)) && RunStage(exec, ws, s) == Some(ws')
    ensures NothingMissing(s, ws')
  {
    assert Strip(ws', OutPaths(s)) == Strip(ws, OutPaths(s));
    SameDeps(s, ws, ws');
  }

  predicate NothingMissing(s: Stage, ws: Files) {
    forall p :: p in DepPaths(s) + OutPaths(s) ==> Exists(ws, p)
  }

  /** The stage's own lock entry records a run on the present dependencies. */
  predicate LockHit(s: Stage, ws: Files, e: Entry) {
    e.cmd == s.cmd && !DepsChanged(s, ws, e) && forall o :: o in s.outs ==> o.path in e.outs
  }

  /** The records that a restoration may use: the lock entry, or else the run cache. */
  function Candidates(s: Stage, ws: Files, lock: map<string, Entry>, runs: map<RunKey, set<Entry>>): set<Entry> {
    if LockHit(s, ws, LockEntry(lock, s)) then {LockEntry(lock, s)}
    else if HasKey(s) && Key(s, ws) in runs then runs[Key(s, ws)]
    else {}
  }

  /** Restoration reads a record it cannot read: that of a stage without outputs, or the contents
      of a dependency that does not exist. */
  predicate RestoreAborts(s: Stage, ws: Files, lock: map<string, Entry>) {
    if LockHit(s, ws, LockEntry(lock, s)) then s.outs == [] else exists p :: p in DepPaths(s) && !Exists(ws, p)
  }

  predicate OutsCached(s: Stage, e: Entry, objects: set<Files>) {
    forall o :: o in s.outs ==> o.path in e.outs && e.outs[o.path] in objects
  }

  /** A restoration that aborts is never attempted for a stage that could be run: the stage counts
      as unchanged. */
  lemma AbortsOnlyUnrunnable(exec: Exec, s: Stage, ws: Files, objects: set<Files>, lock: map<string, Entry>)
    requires Runnable(s) && !IsCallback(s) && !s.alwaysChanged && RestoreAborts(s, Strip(ws, OutPaths(s)), lock)
    requires Apart(DepPaths(s), OutPaths(s))
    ensures RunStage(exec, ws, s).None? || !Changed(s, ws, objects, LockEntry(lock, s))
  {
    var ws' := Strip(ws, OutPaths(s));
    if LockHit(s, ws', LockEntry(lock, s)) {
      assert ws' == ws;
    } else {
      StripTwice(ws, OutPaths(s), OutPaths(s));
      assert OutPaths(s) + OutPaths(s) == OutPaths(s);
      SameDeps(s, ws, ws');
    }
  }

  /** An immediate reproduction would skip the stage, unless it is one that always runs. */
  predicate Settled(s: Stage, ws: Files, objects: set<Files>, lock: map<string, Entry>) {
    (!s.frozen && (IsCallback(s) || s.alwaysChanged)) || !Changed(s, ws, objects, LockEntry(lock, s))
  }

  lemma SkippedStage(exec: Exec, s: Stage, ws: Files, objects: set<Files>, lock: map<string, Entry>, stages: set<Stage>)
    requires Runnable(s) && s in stages && LocalDeps(s) && LockTrue(exec, lock, stages)
    requires !Changed(s, ws, objects, LockEntry(lock, s))
    ensures RunStage(exec, ws, s) == Some(ws)
  {
    assert s.name in lock by {
      var d := s.deps[0];
      assert d in s.deps && d.value in DepPaths(s);
      assert !DepChanged(ws, Recorded(LockEntry(lock, s).deps, d.value), d.value);
    }
    SkippedIsRun(exec, s, ws, objects, LockEntry(lock, s));
  }

  lemma SnapshotSettled(s: Stage, ws: Files, objects: set<Files>, lock: map<string, Entry>)
    requires s.name in lock && lock[s.name] == Snapshot(s, ws)
    requires forall p :: p in DepPaths(s) + OutPaths(s) ==> Exists(ws, p)
    requires objects >= OutContents(s, ws, true)
    ensures Settled(s, ws, objects, lock)
  {
    var e := Snapshot(s, ws);
    forall p | p in DepPaths(s)
      ensures !DepChanged(ws, Recorded(e.deps, p), p)
    {
      assert p in DepPaths(s) + OutPaths(s);
    }
    forall o | o in s.outs
      ensures !OutChanged(ws, objects, Recorded(e.outs, o.path), o)
    {
      assert o.path in OutPaths(s) && o.path in DepPaths(s) + OutPaths(s);
      if o.useCache {
        assert Content(ws, o.path) in OutContents(s, ws, true);
      }
    }
  }

  function Unfrozen(s: Stage): Stage {
    s.(frozen := false)
  }

  lemma SamePaths(s: Stage, ws: Files)
    ensures DepPaths(Unfrozen(s)) == DepPaths(s) && OutPaths(Unfrozen(s)) == OutPaths(s)
    ensures Snapshot(Unfrozen(s), ws) == Snapshot(s, ws)
    ensures OutContents(Unfrozen(s), ws, true) == OutContents(s, ws, true)
  {
    assert Unfrozen(s).deps == s.deps && Unfrozen(s).outs == s.outs;
  }

  lemma UnfrozenIsUnchanged(ws: Files, u: Stage, objects: set<Files>, lock: map<string, Entry>)
    requires !IsCallback(u) && !u.alwaysChanged && NothingMissing(u, ws)
    requires u.name in lock && lock[u.name] == Snapshot(u, ws) && objects >= OutContents(u, ws, true)
    ensures !Changed(u, ws, objects, LockEntry(lock, u))
  {
    SnapshotSettled(u, ws, objects, lock);
  }

  /** Once unfrozen, a stage that has been verified is skipped; rightly so exactly when what was
      recorded is true. */
  lemma UnfrozenIsSkipped(exec: Exec, ws: Files, s: Stage, objects: set<Files>, lock: map<string, Entry>)
    requires s.frozen && s.cmd.Some? && !IsCallback(s) && !s.alwaysChanged && NothingMissing(s, ws)
    requires s.name in lock && lock[s.name] == Snapshot(s, ws) && objects >= OutContents(s, ws, true)
    ensures Runnable(Unfrozen(s)) && !Changed(Unfrozen(s), ws, objects, LockEntry(lock, Unfrozen(s)))
    ensures RunStage(exec, ws, Unfrozen(s)) == Some(ws) <==> TrueEntry(exec, Snapshot(s, ws))
  {
    SamePaths(s, ws);
    UnfrozenIsUnchanged(ws, Unfrozen(s), objects, lock);
    RecordIsRunIff(exec, ws, Unfrozen(s));
  }

  /** A stage whose command turns the file d into the file o. */
  function Copier(frozen: bool): Stage {
    Stage("copy", ["dvc.yaml"], Some("cp d o"), frozen, false, [Some(["d"])], [Out(["o"], true)])
  }

  lemma ContentOfFile(ws: Files, p: Path)
    requires p in ws
    ensures [] in Content(ws, p) && Content(ws, p)[[]] == ws[p]
  {
    assert p <= p && p[|p|..] == [] && p + [] == p;
  }

  lemma CopierPaths(frozen: bool)
    ensures DepPaths(Copier(frozen)) == {["d"]} && OutPaths(Copier(frozen)) == {["o"]}
  {
    assert Copier(frozen).deps[0] == Some(["d"]) && Copier(frozen).outs[0] == Out(["o"], true);
  }

  lemma CopierInPlace(ws: Files, frozen: bool)
    requires ["d"] in ws && ["o"] in ws
    ensures NothingMissing(Copier(frozen), ws)
  {
    CopierPaths(frozen);
    ContentOfFile(ws, ["d"]);
    ContentOfFile(ws, ["o"]);
  }

  /** A record of `edited` is not that of a command that makes `made`. */
  lemma EditIsUntrue(exec: Exec, ws: Files, made: string)
    requires ["o"] in ws && ws[["o"]] != made
    requires forall cmd, deps :: exec(cmd, deps) == Some(map[["o"] := made])
    ensures !TrueEntry(exec, Snapshot(Copier(true), ws))
  {
    CopierPaths(true);
    ContentOfFile(ws, ["o"]);
    ContentOfFile(map[["o"] := made], ["o"]);
    var e := Snapshot(Copier(true), ws);
    assert e.outs[["o"]] == Content(ws, ["o"]) && exec(e.cmd.value, e.deps) == Some(map[["o"] := made]);
  }

  /** Freezing a stage, editing its output, reproducing and unfreezing leaves it unchanged,
      although running it would restore the output. */
  lemma EditedOutputIsSkipped(made: string, edited: string)
    requires made != edited
    ensures var exec: Exec := (cmd, deps) => Some(map[["o"] := made]);
      var ws := map[["d"] := made, ["o"] := edited];
      var s, u := Copier(true), Copier(false);
      var lock, objects := map["copy" := Snapshot(s, ws)], OutContents(s, ws, true);
      && NothingMissing(s, ws) && Settled(s, ws, objects, lock)
      && !Changed(u, ws, objects, LockEntry(lock, u)) && RunStage(exec, ws, u) != Some(ws)
  {
    var exec: Exec := (cmd, deps) => Some(map[["o"] := made]);
    var ws := map[["d"] := made, ["o"] := edited];
    var s := Copier(true);
    var lock, objects := map["copy" := Snapshot(s, ws)], OutContents(s, ws, true);
    CopierInPlace(ws, true);
    SnapshotSettled(s, ws, objects, lock);
    UnfrozenIsSkipped(exec, ws, s, objects, lock);
    assert Unfrozen(s) == Copier(false);
    EditIsUntrue(exec, ws, made);
  }

  /** Reproducing `t` leaves `s` settled when `t` writes neither its dependencies nor its outputs. */
  lemma StillSettled(s: Stage, t: Stage, ws: Files, ws': Files, objects: set<Files>, objects': set<Files>,
      lock: map<string, Entry>, lock': map<string, Entry>)
    requires Settled(s, ws, objects, lock)
    requires objects <= objects' && LockEntry(lock, s) == LockEntry(lock', s)
    requires Strip(ws, OutPaths(t)) == Strip(ws', OutPaths(t))
    requires Apart(OutPaths(s), OutPaths(t)) && (!s.frozen ==> Apart(DepPaths(s), OutPaths(t)))
    ensures Settled(s, ws', objects', lock')
  {
    forall p | p in OutPaths(s) || (!s.frozen && p in DepPaths(s))
      ensures Content(ws, p) == Content(ws', p)
    {
      StripKeepsContent(ws, OutPaths(t), p);
      StripKeepsContent(ws', OutPaths(t), p);
    }
    var e := LockEntry(lock, s);
    if !Changed(s, ws, objects, e) {
      forall o | o in s.outs
        ensures !OutChanged(ws', objects', Recorded(e.outs, o.path), o)
      {
        assert o.path in OutPaths(s);
        assert !OutChanged(ws, objects, Recorded(e.outs, o.path), o);
      }
      if !s.frozen {
        forall p | p in DepPaths(s)
          ensures !DepChanged(ws', Recorded(e.deps, p), p)
        {
          assert !DepChanged(ws, Recorded(e.deps, p), p);
        }
      }
    }
  }

  lemma OthersSettled(exec: Exec, pipeline: seq<Stage>, i: nat, stages: set<Stage>, ws: Files, ws': Files,
      objects: set<Files>, objects': set<Files>, lock: map<string, Entry>, lock': map<string, Entry>)
    requires i < |pipeline| && NoDup(pipeline) && Ready(pipeline) && Accepted(stages) && ToSet(pipeline) <= stages
    requires forall j :: 0 <= j < i ==> Settled(pipeline[j], ws, objects, lock)
    requires objects <= objects' && (lock' == lock || lock' == lock[pipeline[i].name := Snapshot(pipeline[i], ws')])
    requires if Runnable(pipeline[i]) then RunStage(exec, ws, pipeline[i]) == Some(ws') else ws' == ws
    ensures forall j :: 0 <= j < i ==> Settled(pipeline[j], ws', objects', lock')
  {
    var t := pipeline[i];
    forall j | 0 <= j < i
      ensures Settled(pipeline[j], ws', objects', lock')
    {
      var s := pipeline[j];
      assert s in ToSet(pipeline) && t in ToSet(pipeline) && s.name != t.name;
      if Runnable(t) {
        StillSettled(s, t, ws, ws', objects, objects', lock, lock');
      }
    }
  }

  function PathsOf(outs: seq<Out>): set<Path> {
    set o | o in outs :: o.path
  }

  lemma PathsOfAppend(outs: seq<Out>, o: Out)
    ensures PathsOf(outs + [o]) == PathsOf(outs) + {o.path}
  {
    assert forall x :: x in outs + [o] <==> x in outs || x == o;
  }

  /** Everything a reproduction reads and writes. */
  datatype RepoState = RepoState(
    ws: Files, objects: set<Files>, lock: map<string, Entry>, runs: map<RunKey, set<Entry>>)

  /** A stage is left alone when it is not forced and counts as unchanged where it is met. */
  ghost predicate LeftAlone(s: Stage, before: RepoState, forced: bool) {
    !forced && !Changed(s, before.ws, before.objects, LockEntry(before.lock, s))
  }

  /** What reproducing one stage makes of the repository: nothing if it is left alone; otherwise what
      a run leaves, with the record of it. */
  ghost predicate StepOf(exec: Exec, s: Stage, before: RepoState, after: RepoState, forced: bool) {
    if LeftAlone(s, before, forced) then after == before
    else
      && after.lock == before.lock[s.name := Snapshot(s, after.ws)]
      && after.objects >= before.objects && after.runs == SavedRuns(s, after.ws, before.runs)
      && (s.cmd.Some? && !s.frozen ==> RunStage(exec, before.ws, s) == Some(after.ws))
      && (s.cmd.None? || s.frozen ==> after.ws == before.ws)
  }

  /** Stage `i` is forced from the start, or by the first stage that was reproduced. */
  ghost predicate ForcedAt(pipeline: seq<Stage>, i: nat, force: bool, forceDownstream: bool, result: seq<Stage>)
    requires i <= |pipeline|
  {
    force || (forceDownstream && exists j :: 0 <= j < i && pipeline[j] in result)
  }

  /** The stages done are those in `result` and those in `skipped`, each in pipeline order. */
  ghost predicate Divided(done: seq<Stage>, result: seq<Stage>, skipped: seq<Stage>) {
    && (forall x :: x in done ==> (x in result <==> x !in skipped))
    && InOrder(result, done) && InOrder(skipped, done)
  }

  /** The first `n` stages, forced or not as `flags` say, took the repository through these states,
      and those left alone are in `skipped`. */
  ghost predicate Steps(exec: Exec, pipeline: seq<Stage>, n: nat, states: seq<RepoState>, flags: seq<bool>,
      skipped: seq<Stage>)
    requires n <= |pipeline|
  {
    && |states| == n + 1 && |flags| == n
    && (forall i :: 0 <= i < n ==> StepOf(exec, pipeline[i], states[i], states[i + 1], flags[i]))
    && (forall i :: 0 <= i < n ==> (pipeline[i] in skipped <==> LeftAlone(pipeline[i], states[i], flags[i])))
  }

  /** A loop over the first `n` stages: the states it went through, which stages were forced, which
      were left alone and which reproduced. */
  ghost predicate Trace(exec: Exec, pipeline: seq<Stage>, n: nat, states: seq<RepoState>, flags: seq<bool>,
      force: bool, forceDownstream: bool, result: seq<Stage>, skipped: seq<Stage>)
    requires n <= |pipeline|
  {
    && Steps(exec, pipeline, n, states, flags, skipped)
    && (forall i :: 0 <= i < n ==> flags[i] == ForcedAt(pipeline, i, force, forceDownstream, result))
    && Divided(pipeline[..n], result, skipped)
  }

  lemma DividedAppend(done: seq<Stage>, result: seq<Stage>, skipped: seq<Stage>, x: Stage)
    requires Divided(done, result, skipped) && x !in done
    ensures Divided(done + [x], result + [x], skipped) && Divided(done + [x], result, skipped + [x])
  {
    InOrderAppend(result, done, x);
    InOrderAppend(skipped, done, x);
    assert x !in result && x !in skipped;
  }

  lemma ForcedStays(pipeline: seq<Stage>, n: nat, force: bool, forceDownstream: bool, result: seq<Stage>)
    requires NoDup(pipeline) && n < |pipeline|
    ensures forall i :: 0 <= i <= n ==>
      (ForcedAt(pipeline, i, force, forceDownstream, result + [pipeline[n]]) <==>
       ForcedAt(pipeline, i, force, forceDownstream, result))
  {
    forall j | 0 <= j < n
      ensures pipeline[j] in result + [pipeline[n]] <==> pipeline[j] in result
    {
    }
  }

  lemma StepsAppend(exec: Exec, pipeline: seq<Stage>, n: nat, states: seq<RepoState>, flags: seq<bool>,
      skipped: seq<Stage>, after: RepoState, forced: bool, skipped': seq<Stage>)
    requires NoDup(pipeline) && n < |pipeline|
    requires Steps(exec, pipeline, n, states, flags, skipped)
    requires StepOf(exec, pipeline[n], states[n], after, forced)
    requires forall i :: 0 <= i < n ==> (pipeline[i] in skipped' <==> pipeline[i] in skipped)
    requires pipeline[n] in skipped' <==> LeftAlone(pipeline[n], states[n], forced)
    ensures Steps(exec, pipeline, n + 1, states + [after], flags + [forced], skipped')
  {
    var all, flags' := states + [after], flags + [forced];
    forall i | 0 <= i < n + 1
      ensures StepOf(exec, pipeline[i], all[i], all[i + 1], flags'[i])
      ensures pipeline[i] in skipped' <==> LeftAlone(pipeline[i], all[i], flags'[i])
    {
      assert all[i] == states[i];
      if i < n {
        assert all[i + 1] == states[i + 1] && flags'[i] == flags[i];
      }
    }
  }

  lemma OtherMembers(pipeline: seq<Stage>, n: nat, sub: seq<Stage>)
    requires NoDup(pipeline) && n < |pipeline|
    ensures forall i :: 0 <= i < n ==> (pipeline[i] in sub + [pipeline[n]] <==> pipeline[i] in sub)
  {
  }

  lemma TraceStep(exec: Exec, pipeline: seq<Stage>, n: nat, states: seq<RepoState>, flags: seq<bool>, force: bool,
      forceDownstream: bool, result: seq<Stage>, skipped: seq<Stage>, after: RepoState, forced: bool)
    requires NoDup(pipeline) && n < |pipeline|
    requires Trace(exec, pipeline, n, states, flags, force, forceDownstream, result, skipped)
    requires forced == ForcedAt(pipeline, n, force, forceDownstream, result)
    requires StepOf(exec, pipeline[n], states[n], after, forced)
    ensures pipeline[n] !in result
    ensures var s := pipeline[n];
      if LeftAlone(s, states[n], forced) then
        Trace(exec, pipeline, n + 1, states + [after], flags + [forced], force, forceDownstream, result, skipped + [s])
      else
        Trace(exec, pipeline, n + 1, states + [after], flags + [forced], force, forceDownstream, result + [s], skipped)
  {
    assert pipeline[..n + 1] == pipeline[..n] + [pipeline[n]];
    assert pipeline[n] !in pipeline[..n];
    DividedAppend(pipeline[..n], result, skipped, pipeline[n]);
    ForcedStays(pipeline, n, force, forceDownstream, result);
    OtherMembers(pipeline, n, skipped);
    if LeftAlone(pipeline[n], states[n], forced) {
      StepsAppend(exec, pipeline, n, states, flags, skipped, after, forced, skipped + [pipeline[n]]);
    } else {
      StepsAppend(exec, pipeline, n, states, flags, skipped, after, forced, skipped);
    }
  }

  lemma ForcedNext(pipeline: seq<Stage>, n: nat, force: bool, forceDownstream: bool, result: seq<Stage>)
    requires n < |pipeline| && NoDup(pipeline) && pipeline[n] !in result
    ensures ForcedAt(pipeline, n + 1, force, forceDownstream, result) <==>
      ForcedAt(pipeline, n, force, forceDownstream, result)
    ensures ForcedAt(pipeline, n + 1, force, forceDownstream, result + [pipeline[n]]) <==>
      ForcedAt(pipeline, n, force, forceDownstream, result) || forceDownstream
  {
    ForcedStays(pipeline, n, force, forceDownstream, result);
    if forceDownstream {
      assert pipeline[n] in result + [pipeline[n]];
    }
  }

  /** Nothing has changed at `p` since `recorded` was. */
  ghost predicate AsRecorded(ws: Files, recorded: Files, p: Path) {
    && (exists f :: f in ws && p <= f)
    && (forall f :: p <= f ==> (f in ws <==> f[|p|..] in recorded))
    && (forall f :: p <= f && f in ws && f[|p|..] in recorded ==> ws[f] == recorded[f[|p|..]])
  }

  lemma AsRecordedIff(ws: Files, recorded: Files, p: Path)
    ensures AsRecorded(ws, recorded, p) <==> Exists(ws, p) && recorded == Content(ws, p)
  {
    ExistsIff(ws, p);
    if AsRecorded(ws, recorded, p) {
      forall r
        ensures r in recorded <==> r in Content(ws, p)
        ensures r in recorded ==> recorded[r] == Content(ws, p)[r]
      {
        assert p <= p + r && (p + r)[|p|..] == r;
      }
    }
    if Exists(ws, p) && recorded == Content(ws, p) {
      forall f | p <= f
        ensures f in ws <==> f[|p|..] in recorded
      {
        assert p + f[|p|..] == f;
      }
    }
  }

  /** A stage counts as unchanged exactly when its command is the recorded one; unless it is frozen, it
      is not marked as always changed, has dependencies if it has a command, and each dependency is as
      recorded; each output is as recorded; and the cache has what it is to hold. */
  lemma UnchangedIff(s: Stage, ws: Files, objects: set<Files>, lock: map<string, Entry>)
    requires s.name in lock
    ensures var e := lock[s.name];
      !Changed(s, ws, objects, LockEntry(lock, s)) <==>
        && e.cmd == s.cmd
        && (!s.frozen ==> !s.alwaysChanged && (s.cmd.Some? ==> s.deps != []))
        && (!s.frozen ==> forall d :: Some(d) in s.deps ==> d in e.deps && AsRecorded(ws, e.deps[d], d))
        && (forall o :: o in s.outs ==> o.path in e.outs && AsRecorded(ws, e.outs[o.path], o.path))
        && (forall o :: o in s.outs && o.useCache ==> o.path in e.outs && e.outs[o.path] in objects)
  {
    var e := lock[s.name];
    forall d | Some(d) in s.deps
      ensures !DepChanged(ws, Recorded(e.deps, d), d) <==> d in e.deps && AsRecorded(ws, e.deps[d], d)
    {
      if d in e.deps {
        AsRecordedIff(ws, e.deps[d], d);
      }
    }
    forall o | o in s.outs
      ensures !OutChanged(ws, objects, Recorded(e.outs, o.path), o) <==>
        && o.path in e.outs && AsRecorded(ws, e.outs[o.path], o.path)
        && (o.useCache ==> e.outs[o.path] in objects)
    {
      if o.path in e.outs {
        AsRecordedIff(ws, e.outs[o.path], o.path);
      }
    }
    DepsUnchangedIff(s, ws, e);
  }

  lemma DepsUnchangedIff(s: Stage, ws: Files, e: Entry)
    ensures DepsChanged(s, ws, e) <==> exists d :: Some(d) in s.deps && DepChanged(ws, Recorded(e.deps, d), d)
  {
    forall d
      ensures d in DepPaths(s) <==> Some(d) in s.deps
    {
    }
  }

  /** A stage that was never recorded counts as unchanged only if nothing could be recorded of it. */
  lemma UnrecordedIff(s: Stage, ws: Files, objects: set<Files>, lock: map<string, Entry>)
    requires s.name !in lock
    ensures !Changed(s, ws, objects, LockEntry(lock, s)) <==>
      && s.outs == []
      && (!s.frozen ==> !s.alwaysChanged && (s.cmd.Some? ==> s.deps != []) && forall d :: d in s.deps ==> d.None?)
  {
    var e := LockEntry(lock, s);
    forall o | o in s.outs
      ensures OutChanged(ws, objects, Recorded(e.outs, o.path), o)
    {
    }
    forall d | Some(d) in s.deps
      ensures DepChanged(ws, Recorded(e.deps, d), d)
    {
    }
    DepsUnchangedIff(s, ws, e);
    assert s.outs != [] ==> s.outs[0] in s.outs;
  }

  ghost predicate Holds(runs: map<RunKey, set<Entry>>, k: RunKey, e: Entry) {
    k in runs && e in runs[k]
  }

  /** The key of a run of `s`: its command, what its dependencies hold, and where its outputs are. */
  ghost predicate KeyOf(s: Stage, ws: Files, k: RunKey) {
    && s.cmd == Some(k.cmd)
    && (forall d :: d in k.deps <==> Some(d) in s.deps)
    && (forall d :: d in k.deps ==> k.deps[d] == Content(ws, d))
    && (forall p :: p in k.outs <==> exists o :: o in s.outs && o.path == p)
  }

  lemma KeyOfIff(s: Stage, ws: Files, k: RunKey)
    requires s.cmd.Some?
    ensures KeyOf(s, ws, k) <==> k == Key(s, ws)
  {
    assert forall d :: d in DepPaths(s) <==> Some(d) in s.deps;
    assert forall p :: p in OutPaths(s) <==> exists o :: o in s.outs && o.path == p;
    if KeyOf(s, ws, k) {
      assert k.deps.Keys == DepPaths(s) && k.outs == OutPaths(s);
      assert k.deps == Contents(ws, DepPaths(s));
    }
  }

  /** Saving adds one record to the run cache, under the key of the run: if the stage has a command,
      dependencies, all of them in this repository, and outputs, and is not one that always runs. */
  lemma SavedRunsHold(s: Stage, ws: Files, runs: map<RunKey, set<Entry>>, k: RunKey, e: Entry)
    ensures Holds(SavedRuns(s, ws, runs), k, e) <==>
      || Holds(runs, k, e)
      || (&& s.cmd.Some? && s.deps != [] && None !in s.deps && s.outs != [] && !s.alwaysChanged
          && KeyOf(s, ws, k) && e == Snapshot(s, ws))
  {
    HasKeyIff(s);
    if HasKey(s) && !s.alwaysChanged {
      KeyOfIff(s, ws, k);
      AddedHolds(runs, Key(s, ws), Snapshot(s, ws), k, e);
    }
  }

  lemma HasKeyIff(s: Stage)
    ensures HasKey(s) <==> s.cmd.Some? && s.deps != [] && None !in s.deps && s.outs != []
  {
    assert (forall d :: d in s.deps ==> d.Some?) <==> None !in s.deps;
  }

  lemma AddedHolds(runs: map<RunKey, set<Entry>>, at: RunKey, added: Entry, k: RunKey, e: Entry)
    ensures Holds(runs[at := (if at in runs then runs[at] else {}) + {added}], k, e) <==>
      Holds(runs, k, e) || (k == at && e == added)
  {
  }

  /** The record is of the present command and dependencies, and names every output. */
  ghost predicate PresentRun(s: Stage, ws: Files, e: Entry) {
    && e.cmd == s.cmd
    && (forall d :: Some(d) in s.deps ==> d in e.deps && AsRecorded(ws, e.deps[d], d))
    && (forall o :: o in s.outs ==> o.path in e.outs)
  }

  lemma LockHitIff(s: Stage, ws: Files, e: Entry)
    ensures LockHit(s, ws, e) <==> PresentRun(s, ws, e)
  {
    DepsUnchangedIff(s, ws, e);
    forall d | Some(d) in s.deps
      ensures !DepChanged(ws, Recorded(e.deps, d), d) <==> d in e.deps && AsRecorded(ws, e.deps[d], d)
    {
      if d in e.deps {
        AsRecordedIff(ws, e.deps[d], d);
      }
    }
  }

  /** A stage may be restored from its own record, if that is of the present dependencies, and
      otherwise from what the run cache holds under the key of the run that is asked for. */
  lemma CandidatesIff(s: Stage, ws: Files, lock: map<string, Entry>, runs: map<RunKey, set<Entry>>, e: Entry)
    requires s.cmd.Some? && s.deps != [] && None !in s.deps
    ensures e in Candidates(s, ws, lock, runs) <==>
      if s.name in lock && PresentRun(s, ws, lock[s.name]) then e == lock[s.name]
      else s.outs != [] && exists k :: KeyOf(s, ws, k) && Holds(runs, k, e)
  {
    LockHitIff(s, ws, LockEntry(lock, s));
    assert s.deps[0] in s.deps && Some(s.deps[0].value) == s.deps[0];
    if s.name !in lock {
      assert !PresentRun(s, ws, LockEntry(lock, s));
    }
    KeyOfIff(s, ws, Key(s, ws));
    forall k | KeyOf(s, ws, k)
      ensures k == Key(s, ws)
    {
      KeyOfIff(s, ws, k);
    }
  }

  /** A run that was saved is found again once the dependencies hold what they held then, whatever
      else has happened to the workspace, unless the lock entry is found first. */
  lemma SavedIsFound(s: Stage, ws: Files, ws': Files, lock: map<string, Entry>, runs: map<RunKey, set<Entry>>)
    requires s.cmd.Some? && s.deps != [] && None !in s.deps && s.outs != [] && !s.alwaysChanged
    requires forall d :: Some(d) in s.deps ==> Content(ws', d) == Content(ws, d)
    requires !(s.name in lock && PresentRun(s, ws', lock[s.name]))
    ensures Entry(s.cmd, Contents(ws, DepPaths(s)), Contents(ws, OutPaths(s)))
      in Candidates(s, ws', lock, SavedRuns(s, ws, runs))
  {
    var k := Key(s, ws);
    KeyOfIff(s, ws, k);
    assert KeyOf(s, ws', k);
    SavedRunsHold(s, ws, runs, k, Snapshot(s, ws));
    CandidatesIff(s, ws', lock, SavedRuns(s, ws, runs), Snapshot(s, ws));
  }

  lemma {:induction false} StatesStay(exec: Exec, pipeline: seq<Stage>, n: nat, i: nat, states: seq<RepoState>,
      flags: seq<bool>, result: seq<Stage>, skipped: seq<Stage>)
    requires i <= n <= |pipeline| && Trace(exec, pipeline, n, states, flags, false, false, result, skipped)
    requires forall s :: s in pipeline ==> LeftAlone(s, states[0], false)
    ensures states[i] == states[0]
    ensures forall j :: 0 <= j < i ==> pipeline[j] in skipped
  {
    if i > 0 {
      StatesStay(exec, pipeline, n, i - 1, states, flags, result, skipped);
      assert StepOf(exec, pipeline[i - 1], states[i - 1], states[i], flags[i - 1]);
    }
  }

  lemma EmptyIff(stages: seq<Stage>)
    ensures ToSet(stages) == {} <==> stages == []
  {
    if stages != [] {
      assert stages[0] in ToSet(stages);
    }
  }

  /** A settled pipeline without stages that always run is left alone as a whole. */
  lemma SecondRunIsIdle(exec: Exec, pipeline: seq<Stage>, states: seq<RepoState>, flags: seq<bool>,
      result: seq<Stage>, skipped: seq<Stage>)
    requires Trace(exec, pipeline, |pipeline|, states, flags, false, false, result, skipped)
    requires forall s :: s in pipeline ==> Settled(s, states[0].ws, states[0].objects, states[0].lock)
    requires forall s :: s in pipeline ==> s.frozen || (!s.alwaysChanged && (s.cmd.Some? ==> s.deps != []))
    ensures states[|pipeline|] == states[0] && result == []
  {
    StatesStay(exec, pipeline, |pipeline|, |pipeline|, states, flags, result, skipped);
    assert pipeline[..|pipeline|] == pipeline;
    assert ToSet(result) == {};
    EmptyIff(result);
  }

  class Repo {
    var ws: Files
    var objects: set<Files>
    var lock: map<string, Entry>
    var runs: map<RunKey, set<Entry>>

    ghost function State(): RepoState
      reads this
    {
      RepoState(ws, objects, lock, runs)
    }

    /** The hypothesis of incremental building.  It says nothing about the workspace, so edits
        between reproductions cannot break it. */
    ghost predicate RecordsTrue(exec: Exec, stages: set<Stage>)
      reads this`lock, this`runs
    {
      LockTrue(exec, lock, stages) && RunsTrue(exec, runs, stages)
    }

    /** A stage that failed has no record. */
    ghost predicate GaveUp(before: RepoState)
      reads this
    {
      objects == before.objects && lock == before.lock && runs == before.runs
    }

    method RemoveOuts(s: Stage)
      modifies this`ws
      ensures ws == Strip(old(ws), OutPaths(s))
    {
      ghost var start := ws;
      for i := 0 to |s.outs|
        invariant ws == Strip(start, PathsOf(s.outs[..i]))
      {
        assert s.outs[..i + 1] == s.outs[..i] + [s.outs[i]];
        PathsOfAppend(s.outs[..i], s.outs[i]);
        StripTwice(start, PathsOf(s.outs[..i]), {s.outs[i].path});
        ws := Strip(ws, {s.outs[i].path});
      }
      assert s.outs[..|s.outs|] == s.outs;
    }

    method CheckoutOuts(s: Stage, e: Entry)
      requires OwnOutsApart(s) && forall o :: o in s.outs ==> o.path in e.outs
      modifies this`ws
      ensures Strip(ws, OutPaths(s)) == Strip(old(ws), OutPaths(s))
      ensures forall p :: p in OutPaths(s) ==> Content(ws, p) == e.outs[p]
    {
      for i := 0 to |s.outs|
        invariant Strip(ws, OutPaths(s)) == Strip(old(ws), OutPaths(s))
        invariant forall j :: 0 <= j < i ==> Content(ws, s.outs[j].path) == e.outs[s.outs[j].path]
      {
        var p := s.outs[i].path;
        CheckoutContent(ws, p, e.outs[p]);
        CheckoutStripped(ws, p, e.outs[p], OutPaths(s));
        forall j | 0 <= j < i
          ensures Content(Checkout(ws, p, e.outs[p]), s.outs[j].path) == e.outs[s.outs[j].path]
        {
          CheckoutElsewhere(ws, p, e.outs[p], s.outs[j].path);
        }
        ws := Checkout(ws, p, e.outs[p]);
      }
    }

    /** Looks for a recorded run of `s` on the present dependencies: the stage's own lock entry,
        or else any run-cache entry. */
    method FindRun(s: Stage, ghost exec: Exec, ghost stages: set<Stage>) returns (r: Restoration, e: Entry)
      requires s in stages && Runnable(s) && RecordsTrue(exec, stages)
      ensures r.Restored? ==>
        && TrueEntry(exec, e) && e.cmd == s.cmd && e.deps == Contents(ws, DepPaths(s))
        && (forall p :: p in DepPaths(s) ==> Exists(ws, p))
        && (forall o :: o in s.outs ==> o.path in e.outs)
        && e in Candidates(s, ws, lock, runs)
      ensures r.Aborted? <==> RestoreAborts(s, ws, lock)
      ensures r.NotFound? ==> Candidates(s, ws, lock, runs) == {}
    {
      e := LockEntry(lock, s);
      if LockHit(s, ws, e) {
        // The entry is rebuilt from the stage; without outputs it has no "outs" section to read.
        if s.outs == [] {
          return Aborted, e;
        }
        assert s.outs[0].path in e.outs;
        UnchangedDeps(s, ws, e);
        return Restored, e;
      }
      if exists p :: p in DepPaths(s) && !Exists(ws, p) {
        return Aborted, e;
      }
      if !HasKey(s) || Key(s, ws) !in runs || runs[Key(s, ws)] == {} {
        return NotFound, e;
      }
      e :| e in runs[Key(s, ws)];
      CachedRun(exec, runs, stages, s, Key(s, ws), e);
      r := Restored;
    }

    /** Checks out the outputs of a recorded run, if one is found and the cache has them all. */
    method Restore(s: Stage, ghost exec: Exec, ghost stages: set<Stage>) returns (r: Restoration)
      requires s in stages && Runnable(s) && Accepted(stages) && RecordsTrue(exec, stages)
      modifies this`ws
      ensures r.Restored? ==> RunStage(exec, old(ws), s) == Some(ws)
      ensures !r.Restored? ==> ws == old(ws)
      ensures r.Restored? ==> exists e | e in Candidates(s, old(ws), lock, runs) ::
        forall o :: o in s.outs ==> o.path in e.outs && e.outs[o.path] in objects
      ensures r.NotFound? && !IsCallback(s) && !s.alwaysChanged && Candidates(s, ws, lock, runs) != {} ==>
        exists e | e in Candidates(s, ws, lock, runs) ::
          exists o :: o in s.outs && !(o.path in e.outs && e.outs[o.path] in objects)
      ensures r.Aborted? <==> !IsCallback(s) && !s.alwaysChanged && RestoreAborts(s, old(ws), lock)
    {
      if IsCallback(s) || s.alwaysChanged {
        return NotFound;
      }
      var e;
      r, e := FindRun(s, exec, stages);
      if r.Restored? {
        if !OutsCached(s, e, objects) {
          return NotFound;
        }
        CheckoutOuts(s, e);
        RecordedOutputsAreRun(exec, old(ws), s, e, ws);
        assert OutsCached(s, e, objects);
      }
    }

    /** Records the workspace as it stands: lock entry, run-cache entry, cached outputs. */
    method Save(s: Stage, noCommit: bool)
      modifies this`objects, this`lock, this`runs
      ensures lock == old(lock)[s.name := Snapshot(s, ws)]
      ensures runs == SavedRuns(s, ws, old(runs))
      ensures objects == old(objects)
        + (if !IsCallback(s) && !s.alwaysChanged && HasKey(s) then OutContents(s, ws, false) else {})
        + (if noCommit then {} else OutContents(s, ws, true))
    {
      if !(IsCallback(s) || s.alwaysChanged) && HasKey(s) {
        objects := objects + OutContents(s, ws, false);
        runs := SavedRuns(s, ws, runs);
      }
      if !noCommit {
        objects := objects + OutContents(s, ws, true);
      }
      lock := lock[s.name := Snapshot(s, ws)];
    }

    /** Removes the outputs and produces them anew, from a recorded run or by the command. */
    method Execute(s: Stage, force: bool, exec: Exec, ghost stages: set<Stage>) returns (ok: bool)
      requires s in stages && Runnable(s) && Accepted(stages) && RecordsTrue(exec, stages)
      requires Apart(DepPaths(s), OutPaths(s))
      modifies this`ws
      ensures ok ==> RunStage(exec, old(ws), s) == if NothingMissing(s, ws) then Some(ws) else None
      ensures !ok ==>
        || RunStage(exec, old(ws), s).None?
        || (!force && !IsCallback(s) && !s.alwaysChanged && RestoreAborts(s, Strip(old(ws), OutPaths(s)), lock))
    {
      ghost var start := ws;
      RemoveOuts(s);
      RunStageAfterRemoval(exec, start, s);
      var restored := NotFound;
      if !force {
        restored := Restore(s, exec, stages);
        if restored.Restored? {
          RunLeavesAll(exec, Strip(start, OutPaths(s)), s, ws);
        }
      }
      if restored.NotFound? {
        ghost var stripped := ws;
        var result := exec(s.cmd.value, Contents(ws, DepPaths(s)));
        if result.None? {
          return false;
        }
        ws := Strip(ws, OutPaths(s)) + Under(result.value, OutPaths(s));
        RunProduces(exec, stripped, s, ws);
      }
      ok := !restored.Aborted?;
    }

    method Run(s: Stage, force: bool, noCommit: bool, exec: Exec, ghost stages: set<Stage>) returns (ok: bool)
      requires s in stages && Accepted(stages) && RecordsTrue(exec, stages)
      requires Runnable(s) ==> Apart(DepPaths(s), OutPaths(s))
      modifies this
      ensures RecordsTrue(exec, stages)
      ensures ok ==> if Runnable(s) then RunStage(exec, old(ws), s) == Some(ws) else ws == old(ws)
      ensures ok ==> lock == old(lock)[s.name := Snapshot(s, ws)] && objects >= old(objects)
      ensures ok ==> runs == SavedRuns(s, ws, old(runs))
      ensures ok ==> NothingMissing(s, ws)
      ensures !Runnable(s) ==> ws == old(ws)
      ensures !ok && !Runnable(s) ==> !NothingMissing(s, ws)
      ensures !ok && Runnable(s) ==>
        || RunStage(exec, old(ws), s).None?
        || (!force && !IsCallback(s) && !s.alwaysChanged && RestoreAborts(s, Strip(old(ws), OutPaths(s)), old(lock)))
      ensures ok && !noCommit ==> objects >= OutContents(s, ws, true)
      ensures !ok ==> GaveUp(old(State()))
    {
      ghost var start := ws;
      if Runnable(s) {
        ok := Execute(s, force, exec, stages);
        if !ok {
          return;
        }
      }
      if !NothingMissing(s, ws) {
        return false;
      }
      if Runnable(s) {
        SavingRunKeepsRecords(exec, s, start, ws, lock, runs, stages);
      } else {
        SavingSourceKeepsRecords(exec, s, ws, lock, runs, stages);
      }
      Save(s, noCommit);
      ok := true;
    }

    method Reproduce(s: Stage, force: bool, noCommit: bool, exec: Exec, ghost stages: set<Stage>)
      returns (r: Outcome)
      requires s in stages && Accepted(stages) && RecordsTrue(exec, stages)
      requires Runnable(s) ==> Apart(DepPaths(s), OutPaths(s))
      modifies this
      ensures RecordsTrue(exec, stages)
      ensures r.Unchanged? <==> !force && !old(Changed(s, ws, objects, LockEntry(lock, s)))
      ensures r.Unchanged? ==> ws == old(ws) && objects == old(objects) && lock == old(lock) && runs == old(runs)
      ensures r.Reproduced? ==> lock == old(lock)[s.name := Snapshot(s, ws)] && objects >= old(objects)
      ensures r.Reproduced? ==> runs == SavedRuns(s, ws, old(runs))
      ensures !r.Failed? ==> if Runnable(s) then RunStage(exec, old(ws), s) == Some(ws) else ws == old(ws)
      ensures !r.Failed? && !noCommit ==> Settled(s, ws, objects, lock)
      ensures r.Failed? && Runnable(s) ==> RunStage(exec, old(ws), s).None?
      ensures r.Failed? && !Runnable(s) ==> !NothingMissing(s, ws) && ws == old(ws)
      ensures r.Failed? ==> GaveUp(old(State()))
    {
      if !(force || Changed(s, ws, objects, LockEntry(lock, s))) {
        if Runnable(s) {
          SkippedStage(exec, s, ws, objects, lock, stages);
        }
        return Unchanged;
      }
      if !force && Runnable(s) && !IsCallback(s) && !s.alwaysChanged && RestoreAborts(s, Strip(ws, OutPaths(s)), lock) {
        AbortsOnlyUnrunnable(exec, s, ws, objects, lock);
      }
      var ok := Run(s, force, noCommit, exec, stages);
      if ok && !noCommit {
        SnapshotSettled(s, ws, objects, lock);
      }
      r := if ok then Reproduced else Failed;
    }

    /** The loop stands before stage `i`: outside the outputs still to come the workspace is the
        clean build's, and nothing is left to do for the stages behind. */
    ghost predicate UpTo(exec: Exec, start: Files, pipeline: seq<Stage>, i: nat, noCommit: bool)
      reads this
      requires i <= |pipeline|
    {
      && RunAll(exec, start, pipeline[..i]) == Some(Strip(ws, RunOuts(pipeline[i..])))
      && (!noCommit ==> forall j :: 0 <= j < i ==> Settled(pipeline[j], ws, objects, lock))
    }

    /** Stage `i` cannot be reproduced in the workspace `before`, and then neither in the clean build;
        a source has something missing. */
    ghost predicate Stuck(exec: Exec, start: Files, pipeline: seq<Stage>, i: nat, before: Files)
      reads this`ws
      requires i < |pipeline|
    {
      if Runnable(pipeline[i]) then
        RunAll(exec, start, pipeline).None? && RunStage(exec, before, pipeline[i]).None?
      else
        !NothingMissing(pipeline[i], ws) && ws == before
    }

    method ReproduceNext(pipeline: seq<Stage>, i: nat, forced: bool, noCommit: bool,
        exec: Exec, ghost stages: set<Stage>, ghost start: Files)
      returns (r: Outcome)
      requires ToSet(pipeline) <= stages && Accepted(stages) && RecordsTrue(exec, stages)
      requires NoDup(pipeline) && Ready(pipeline)
      requires i < |pipeline| && UpTo(exec, start, pipeline, i, noCommit)
      modifies this
      ensures RecordsTrue(exec, stages)
      ensures !r.Failed? ==> UpTo(exec, start, pipeline, i + 1, noCommit)
      ensures r.Failed? ==> Stuck(exec, start, pipeline, i, old(ws)) && GaveUp(old(State()))
      ensures !r.Failed? ==> StepOf(exec, pipeline[i], old(State()), State(), forced)
      ensures r.Unchanged? <==> LeftAlone(pipeline[i], old(State()), forced)
    {
      var s := pipeline[i];
      ghost var ws0, objects0, lock0 := ws, objects, lock;
      assert s in ToSet(pipeline);
      assert Runnable(s) ==> Apart(DepPaths(s), OutPaths(s));
      r := Reproduce(s, forced, noCommit, exec, stages);
      if !r.Failed? {
        CleanStep(exec, start, pipeline, i, ws0, ws);
        if !noCommit {
          OthersSettled(exec, pipeline, i, stages, ws0, ws, objects0, objects, lock0, lock);
        }
      } else if Runnable(s) {
        FailingStep(exec, start, pipeline, i, ws0);
      }
    }

    /** The run loop.  A completed run leaves the workspace as a from-scratch build would, and
        leaves nothing for an immediate second run to do. */
    method ReproduceStages(pipeline: seq<Stage>, force: bool, forceDownstream: bool, noCommit: bool,
        exec: Exec, ghost stages: set<Stage>)
      returns (done: nat, result: seq<Stage>, skipped: seq<Stage>, ghost states: seq<RepoState>,
        ghost flags: seq<bool>)
      requires ToSet(pipeline) <= stages && Accepted(stages) && RecordsTrue(exec, stages)
      requires NoDup(pipeline) && Ready(pipeline)
      modifies this
      ensures RecordsTrue(exec, stages) && done <= |pipeline|
      ensures Trace(exec, pipeline, done, states, flags, force, forceDownstream, result, skipped)
      ensures states[0] == old(State()) && if done == |pipeline| then states[done] == State() else GaveUp(states[done])
      ensures done == |pipeline| ==>
        CleanBuild(exec, old(ws), pipeline) == Some(ws) && Built(exec, old(ws), pipeline, ws)
      ensures done < |pipeline| && Runnable(pipeline[done]) ==>
        && CleanBuild(exec, old(ws), pipeline).None? && (forall after :: !Built(exec, old(ws), pipeline, after))
        && RunStage(exec, states[done].ws, pipeline[done]).None?
      ensures done < |pipeline| && !Runnable(pipeline[done]) ==>
        !NothingMissing(pipeline[done], ws) && ws == states[done].ws
      ensures done == |pipeline| && !noCommit ==> forall s :: s in pipeline ==> Settled(s, ws, objects, lock)
    {
      ghost var start := Strip(ws, RunOuts(pipeline));
      assert pipeline[0..] == pipeline && pipeline[..0] == [];
      done, result, skipped, states, flags := RunLoop(pipeline, force, forceDownstream, noCommit, exec, stages, start);
      forall after
        ensures CleanBuild(exec, old(ws), pipeline) == Some(after) <==> Built(exec, old(ws), pipeline, after)
      {
        CleanBuildIff(exec, old(ws), pipeline, after);
      }
      if done == |pipeline| {
        StripNothing(ws);
        assert pipeline[|pipeline|..] == [] && pipeline[..|pipeline|] == pipeline;
      }
    }

    /** The loop stands before stage `i`, forced or not, with these stages reproduced and these left alone. */
    ghost predicate Standing(exec: Exec, stages: set<Stage>, start: Files, pipeline: seq<Stage>, i: nat, forced: bool,
        force: bool, forceDownstream: bool, noCommit: bool, result: seq<Stage>, skipped: seq<Stage>,
        states: seq<RepoState>, flags: seq<bool>)
      reads this
      requires i <= |pipeline|
    {
      && RecordsTrue(exec, stages) && UpTo(exec, start, pipeline, i, noCommit)
      && Trace(exec, pipeline, i, states, flags, force, forceDownstream, result, skipped)
      && forced == ForcedAt(pipeline, i, force, forceDownstream, result)
      && states[i] == State()
    }

    method RunLoop(pipeline: seq<Stage>, force: bool, forceDownstream: bool, noCommit: bool,
        exec: Exec, ghost stages: set<Stage>, ghost start: Files)
      returns (done: nat, result: seq<Stage>, skipped: seq<Stage>, ghost states: seq<RepoState>,
        ghost flags: seq<bool>)
      requires ToSet(pipeline) <= stages && Accepted(stages) && RecordsTrue(exec, stages)
      requires NoDup(pipeline) && Ready(pipeline) && UpTo(exec, start, pipeline, 0, noCommit)
      modifies this
      ensures RecordsTrue(exec, stages) && done <= |pipeline|
      ensures done == |pipeline| ==> UpTo(exec, start, pipeline, |pipeline|, noCommit)
      ensures Trace(exec, pipeline, done, states, flags, force, forceDownstream, result, skipped)
      ensures states[0] == old(State()) && if done == |pipeline| then states[done] == State() else GaveUp(states[done])
      ensures done < |pipeline| ==> Stuck(exec, start, pipeline, done, states[done].ws)
    {
      var forced := force;
      result, skipped, states, flags := [], [], [State()], [];
      for i := 0 to |pipeline|
        invariant Standing(exec, stages, start, pipeline, i, forced, force, forceDownstream, noCommit,
                           result, skipped, states, flags)
        invariant states[0] == old(State())
      {
        var failed;
        failed, forced, result, skipped, states, flags :=
          TracedNext(pipeline, i, forced, force, forceDownstream, noCommit, exec, stages, start,
                     result, skipped, states, flags);
        if failed {
          return i, result, skipped, states, flags;
        }
      }
      done := |pipeline|;
    }

    /** One round of the loop, with what it adds to the two lists. */
    method TracedNext(pipeline: seq<Stage>, i: nat, forced0: bool, ghost force: bool, forceDownstream: bool,
        noCommit: bool, exec: Exec, ghost stages: set<Stage>, ghost start: Files,
        result0: seq<Stage>, skipped0: seq<Stage>, ghost states0: seq<RepoState>, ghost flags0: seq<bool>)
      returns (failed: bool, forced: bool, result: seq<Stage>, skipped: seq<Stage>, ghost states: seq<RepoState>,
        ghost flags: seq<bool>)
      requires ToSet(pipeline) <= stages && Accepted(stages) && NoDup(pipeline) && Ready(pipeline)
      requires i < |pipeline|
      requires Standing(exec, stages, start, pipeline, i, forced0, force, forceDownstream, noCommit,
                        result0, skipped0, states0, flags0)
      modifies this
      ensures failed ==>
        && RecordsTrue(exec, stages) && Stuck(exec, start, pipeline, i, old(ws)) && GaveUp(old(State()))
        && result == result0 && skipped == skipped0 && states == states0 && flags == flags0
      ensures !failed ==>
        && Standing(exec, stages, start, pipeline, i + 1, forced, force, forceDownstream, noCommit,
                    result, skipped, states, flags)
        && states[0] == states0[0]
    {
      forced, result, skipped, states, flags := forced0, result0, skipped0, states0, flags0;
      var r := ReproduceNext(pipeline, i, forced, noCommit, exec, stages, start);
      failed := r.Failed?;
      if !failed {
        TraceStep(exec, pipeline, i, states0, flags0, force, forceDownstream, result0, skipped0, State(), forced);
        ForcedNext(pipeline, i, force, forceDownstream, result0);
        states, flags := states0 + [State()], flags0 + [forced0];
        if r.Unchanged? {
          skipped := skipped0 + [pipeline[i]];
        } else {
          result := result0 + [pipeline[i]];
          if forceDownstream {
            forced := true;
          }
        }
      }
    }
  }
}
