/** Uploading through a first-in first-out thread pool, as a state machine over its steps: file
    tasks upload files, directory tasks wait for their files and then upload the directory
    object.  Any upload may fail, and the steps of different workers interleave freely; each task
    is run once, so that the set of uploads that fail can be fixed beforehand. */
module PushProtocol {
  import opened Objects

  /** A directory task waits for the tasks at the given positions. */
  datatype Task = FileTask(hash: Hash) | DirTask(hash: Hash, waits: set<nat>)

  datatype Status = Queued | Running | Done(ok: bool)

  /** The first `submitted` tasks have been handed to the pool, the first `started` taken up by
      a worker. */
  datatype Pool = Pool(
    tasks: seq<Task>,
    workers: nat,
    submitted: nat,
    started: nat,
    status: seq<Status>,
    failing: set<Hash>,
    remote: set<Hash>)

  datatype Step =
    | Submit
    | Start
    | FinishFile(i: nat, ok: bool)
    | AbortDir(i: nat)
    | FinishDir(i: nat, ok: bool)

  /** Directory tasks wait for file tasks submitted before them. */
  ghost predicate WellOrdered(tasks: seq<Task>) {
    forall i :: 0 <= i < |tasks| && tasks[i].DirTask? ==>
      forall w :: w in tasks[i].waits ==> w < i && tasks[w].FileTask?
  }

  ghost predicate Valid(p: Pool) {
    && p.workers > 0
    && WellOrdered(p.tasks)
    && |p.status| == |p.tasks|
    && p.started <= p.submitted <= |p.tasks|
    && (forall i :: 0 <= i < |p.tasks| ==> (p.status[i].Queued? <==> i >= p.started))
    && |RunningTasks(p)| <= p.workers
  }

  function Initial(tasks: seq<Task>, workers: nat, failing: set<Hash>, remote: set<Hash>): Pool {
    Pool(tasks, workers, 0, 0, seq(|tasks|, _ => Queued), failing, remote)
  }

  function RunningTasks(p: Pool): set<nat>
    requires |p.status| == |p.tasks|
  {
    set i: nat | i < |p.tasks| && p.status[i].Running?
  }

  predicate Enabled(p: Pool, step: Step)
    requires |p.status| == |p.tasks|
  {
    match step
    case Submit => p.submitted < |p.tasks|
    case Start => p.started < p.submitted && |RunningTasks(p)| < p.workers
    case FinishFile(i, ok) =>
      && i < |p.tasks| && p.tasks[i].FileTask? && p.status[i].Running?
      && ok == (p.tasks[i].hash !in p.failing)
    case AbortDir(i) =>
      && i < |p.tasks| && p.tasks[i].DirTask? && p.status[i].Running?
      && exists w :: w in p.tasks[i].waits && w < |p.tasks| && p.status[w] == Done(false)
    case FinishDir(i, ok) =>
      && i < |p.tasks| && p.tasks[i].DirTask? && p.status[i].Running?
      && ok == (p.tasks[i].hash !in p.failing)
      && forall w :: w in p.tasks[i].waits ==> w < |p.tasks| && p.status[w] == Done(true)
  }

  function Finish(p: Pool, i: nat, ok: bool): Pool
    requires i < |p.tasks| == |p.status|
  {
    p.(status := p.status[i := Done(ok)], remote := if ok then p.remote + {p.tasks[i].hash} else p.remote)
  }

  function Apply(p: Pool, step: Step): Pool
    requires Valid(p) && Enabled(p, step)
  {
    match step
    case Submit => p.(submitted := p.submitted + 1)
    case Start => p.(status := p.status[p.started := Running], started := p.started + 1)
    case FinishFile(i, ok) => Finish(p, i, ok)
    case AbortDir(i) => Finish(p, i, false)
    case FinishDir(i, ok) => Finish(p, i, ok)
  }

  predicate AllDone(p: Pool) {
    forall s :: s in p.status ==> s.Done?
  }

  /** What the tasks know about directory contents: every file a directory lists is on the
      remote from the start or is uploaded by a task the directory task waits for. */
  ghost predicate Covers(tasks: seq<Task>, contents: Contents, start: set<Hash>) {
    && (forall i :: 0 <= i < |tasks| && tasks[i].FileTask? && tasks[i].hash in contents ==>
      contents[tasks[i].hash] == {})
    && (forall i, f ::
      0 <= i < |tasks| && tasks[i].DirTask? && tasks[i].hash in contents && f in contents[tasks[i].hash] ==>
      f in start || exists w :: w in tasks[i].waits && w < |tasks| && tasks[w].hash == f)
  }

  /** A task succeeds when its upload does not fail and, for a directory, those it waits for do. */
  ghost predicate Succeeds(tasks: seq<Task>, failing: set<Hash>, i: nat)
    requires i < |tasks|
  {
    && tasks[i].hash !in failing
    && (tasks[i].DirTask? ==> forall w :: w in tasks[i].waits ==> w < |tasks| && tasks[w].hash !in failing)
  }

  /** What has been uploaded. */
  ghost function Uploaded(p: Pool): set<Hash>
    requires |p.status| == |p.tasks|
  {
    set i: nat | i < |p.tasks| && p.status[i] == Done(true) :: p.tasks[i].hash
  }

  /** What will have been uploaded when all tasks are done. */
  ghost function Deliverable(tasks: seq<Task>, failing: set<Hash>): set<Hash> {
    set i: nat | i < |tasks| && Succeeds(tasks, failing, i) :: tasks[i].hash
  }

  /** Tasks that are done have come out as they had to. */
  ghost predicate Settled(p: Pool)
    requires |p.status| == |p.tasks|
  {
    forall i :: 0 <= i < |p.tasks| && p.status[i].Done? ==> p.status[i].ok == Succeeds(p.tasks, p.failing, i)
  }

  /** The invariant of a push. */
  ghost predicate Safe(p: Pool, contents: Contents, start: set<Hash>) {
    && Valid(p)
    && Covers(p.tasks, contents, start)
    && Settled(p) && p.remote == start + Uploaded(p)
    && Closed(contents, p.remote)
  }

  lemma InitialSafe(tasks: seq<Task>, workers: nat, failing: set<Hash>, remote: set<Hash>, contents: Contents)
    requires workers > 0 && WellOrdered(tasks) && Covers(tasks, contents, remote) && Closed(contents, remote)
    ensures Safe(Initial(tasks, workers, failing, remote), contents, remote)
  {
    assert Uploaded(Initial(tasks, workers, failing, remote)) == {};
  }

  /** A step takes up at most one more task, and only when a worker is free. */
  lemma WorkersSuffice(p: Pool, step: Step)
    requires Valid(p) && Enabled(p, step)
    ensures |RunningTasks(Apply(p, step))| <= p.workers
  {
    var before, after := RunningTasks(p), RunningTasks(Apply(p, step));
    if step.Start? {
      assert after == before + {p.started};
    } else {
      assert after <= before;
      Smaller(after, before);
    }
  }

  lemma Smaller(a: set<nat>, b: set<nat>)
    requires a <= b
    ensures |a| <= |b|
  {
    assert a + (b - a) == b;
  }

  lemma ApplyValid(p: Pool, step: Step)
    requires Valid(p) && Enabled(p, step)
    ensures Valid(Apply(p, step)) && Apply(p, step).tasks == p.tasks && Apply(p, step).workers == p.workers
    ensures Apply(p, step).failing == p.failing
  {
    WorkersSuffice(p, step);
  }

  lemma FinishedDirIsComplete(p: Pool, contents: Contents, start: set<Hash>, i: nat)
    requires Safe(p, contents, start) && Enabled(p, FinishDir(i, true)) && p.tasks[i].hash in contents
    ensures contents[p.tasks[i].hash] <= p.remote
  {
    forall f | f in contents[p.tasks[i].hash] && f !in start
      ensures f in p.remote
    {
      var w :| w in p.tasks[i].waits && w < |p.tasks| && p.tasks[w].hash == f;
    }
  }

  lemma StepUploads(p: Pool, step: Step, start: set<Hash>)
    requires Valid(p) && Enabled(p, step) && p.remote == start + Uploaded(p)
    ensures Valid(Apply(p, step)) && Apply(p, step).remote == start + Uploaded(Apply(p, step))
  {
    ApplyValid(p, step);
    var q := Apply(p, step);
    forall i: nat | i < |p.tasks|
      ensures p.status[i] == Done(true) ==> q.status[i] == Done(true)
      ensures q.status[i] == Done(true) ==>
        p.status[i] == Done(true) || (q.remote == p.remote + {p.tasks[i].hash} && p.tasks[i].hash in q.remote)
    {
    }
    if q.remote != p.remote {
      assert q.status[step.i] == Done(true) && p.tasks[step.i].hash in Uploaded(q);
    }
  }

  lemma StepSettled(p: Pool, step: Step)
    requires Valid(p) && Enabled(p, step) && Settled(p)
    ensures Valid(Apply(p, step)) && Settled(Apply(p, step))
  {
    ApplyValid(p, step);
    if step.FinishDir? {
      forall w | w in p.tasks[step.i].waits
        ensures p.tasks[w].hash !in p.failing
      {
        assert p.status[w] == Done(true) && Succeeds(p.tasks, p.failing, w);
      }
    }
    if step.AbortDir? {
      var w :| w in p.tasks[step.i].waits && w < |p.tasks| && p.status[w] == Done(false);
      assert p.tasks[w].FileTask? && !Succeeds(p.tasks, p.failing, w);
    }
  }

  /** Every step keeps every directory object on the remote together with all its files. */
  lemma StepKeepsSafe(p: Pool, step: Step, contents: Contents, start: set<Hash>)
    requires Safe(p, contents, start) && Enabled(p, step)
    ensures Safe(Apply(p, step), contents, start)
  {
    ApplyValid(p, step);
    StepUploads(p, step, start);
    StepSettled(p, step);
    var q := Apply(p, step);
    if step.FinishDir? && step.ok {
      if p.tasks[step.i].hash in contents {
        FinishedDirIsComplete(p, contents, start, step.i);
      }
    }
    if step.FinishFile? && step.ok {
      assert p.tasks[step.i].hash in contents ==> contents[p.tasks[step.i].hash] == {};
    }
    assert forall d :: d in contents && d in q.remote ==> d in p.remote || contents[d] <= p.remote;
  }

  /** `steps` can be taken one after the other. */
  ghost predicate IsRun(p: Pool, steps: seq<Step>)
    requires Valid(p)
    decreases |steps|
  {
    steps != [] ==> Enabled(p, steps[0]) && (ApplyValid(p, steps[0]); IsRun(Apply(p, steps[0]), steps[1..]))
  }

  ghost function After(p: Pool, steps: seq<Step>): (r: Pool)
    requires Valid(p) && IsRun(p, steps)
    ensures Valid(r)
    decreases |steps|
  {
    if steps == [] then p
    else
      ApplyValid(p, steps[0]);
      After(Apply(p, steps[0]), steps[1..])
  }

  /** Under every interleaving and every choice of failing uploads, a push from a closed remote
      never exposes a directory object without its files. */
  lemma {:induction false} PushSafe(p: Pool, steps: seq<Step>, contents: Contents, start: set<Hash>)
    requires Safe(p, contents, start) && IsRun(p, steps)
    ensures Safe(After(p, steps), contents, start)
    decreases |steps|
  {
    if steps != [] {
      StepKeepsSafe(p, steps[0], contents, start);
      PushSafe(Apply(p, steps[0]), steps[1..], contents, start);
    }
  }

  function Weight(s: Status): nat {
    match s
    case Queued => 2
    case Running => 1
    case Done(_) => 0
  }

  function Weights(status: seq<Status>): nat {
    if status == [] then 0 else Weight(status[0]) + Weights(status[1..])
  }

  /** Bounds the number of steps left. */
  function Measure(p: Pool): nat
    requires p.submitted <= |p.tasks|
  {
    |p.tasks| - p.submitted + Weights(p.status)
  }

  lemma {:induction false} WeightsUpdate(status: seq<Status>, i: nat, s: Status)
    requires i < |status|
    ensures Weights(status[i := s]) == Weights(status) - Weight(status[i]) + Weight(s)
  {
    if i > 0 {
      WeightsUpdate(status[1..], i - 1, s);
      assert status[i := s][1..] == status[1..][i - 1 := s];
    } else {
      assert status[i := s][1..] == status[1..];
    }
  }

  lemma StepDecreases(p: Pool, step: Step)
    requires Valid(p) && Enabled(p, step)
    ensures Measure(Apply(p, step)) < Measure(p)
  {
    match step
    case Submit =>
    case Start => WeightsUpdate(p.status, p.started, Running);
    case FinishFile(i, ok) => WeightsUpdate(p.status, i, Done(ok));
    case AbortDir(i) => WeightsUpdate(p.status, i, Done(false));
    case FinishDir(i, ok) => WeightsUpdate(p.status, i, Done(ok));
  }

  /** No run is longer than the measure of where it starts. */
  lemma {:induction false} RunsAreBounded(p: Pool, steps: seq<Step>)
    requires Valid(p) && IsRun(p, steps)
    ensures |steps| + Measure(After(p, steps)) <= Measure(p)
    decreases |steps|
  {
    if steps != [] {
      ApplyValid(p, steps[0]);
      StepDecreases(p, steps[0]);
      RunsAreBounded(Apply(p, steps[0]), steps[1..]);
    }
  }

  /** The first task that is not done can always move, or lets the pool move: directory tasks
      only wait for tasks the pool took up before them. */
  lemma NeverStuck(p: Pool) returns (step: Step)
    requires Valid(p) && !AllDone(p)
    ensures Enabled(p, step)
  {
    var i := FirstUndone(p.status, 0);
    if i >= p.submitted {
      return Submit;
    }
    if i >= p.started {
      assert RunningTasks(p) == {} by {
        forall k: nat | k < |p.tasks|
          ensures !p.status[k].Running?
        {
          assert k >= p.started ==> p.status[k].Queued?;
          assert k < i ==> p.status[k].Done?;
        }
      }
      return Start;
    }
    if p.tasks[i].FileTask? {
      return FinishFile(i, p.tasks[i].hash !in p.failing);
    }
    forall w | w in p.tasks[i].waits
      ensures w < i && p.status[w].Done?
    {
      assert p.tasks[w].FileTask?;
    }
    if w :| w in p.tasks[i].waits && p.status[w] == Done(false) {
      return AbortDir(i);
    }
    return FinishDir(i, p.tasks[i].hash !in p.failing);
  }

  lemma {:induction false} FirstUndone(status: seq<Status>, from: nat) returns (i: nat)
    requires from <= |status| && (forall k :: 0 <= k < from ==> status[k].Done?)
    requires exists s :: s in status && !s.Done?
    ensures i < |status| && !status[i].Done? && forall k :: 0 <= k < i ==> status[k].Done?
    decreases |status| - from
  {
    var s :| s in status && !s.Done?;
    var j :| 0 <= j < |status| && status[j] == s;
    assert from <= j;
    if status[from].Done? {
      i := FirstUndone(status, from + 1);
    } else {
      i := from;
    }
  }

  /** A run that cannot be continued has completed every task. */
  lemma MaximalRunsComplete(p: Pool, steps: seq<Step>)
    requires Valid(p) && IsRun(p, steps)
    requires forall step :: !Enabled(After(p, steps), step)
    ensures AllDone(After(p, steps))
  {
    if !AllDone(After(p, steps)) {
      var step := NeverStuck(After(p, steps));
    }
  }

  /** Once all tasks are done, just what could be uploaded has been. */
  lemma DoneIsDelivered(p: Pool)
    requires |p.status| == |p.tasks| && Settled(p) && AllDone(p)
    ensures Uploaded(p) == Deliverable(p.tasks, p.failing)
  {
    forall i: nat | i < |p.tasks|
      ensures p.status[i] == Done(true) <==> Succeeds(p.tasks, p.failing, i)
    {
      assert p.status[i] in p.status && p.status[i].Done?;
    }
  }

  lemma {:induction false} RunKeepsTasks(p: Pool, steps: seq<Step>)
    requires Valid(p) && IsRun(p, steps)
    ensures After(p, steps).tasks == p.tasks && After(p, steps).failing == p.failing
    decreases |steps|
  {
    if steps != [] {
      ApplyValid(p, steps[0]);
      RunKeepsTasks(Apply(p, steps[0]), steps[1..]);
    }
  }

  /** All runs that cannot be continued end with the same remote, whatever the schedule and the
      number of workers. */
  lemma MaximalRunsAgree(p: Pool, steps: seq<Step>, contents: Contents, start: set<Hash>)
    requires Safe(p, contents, start) && IsRun(p, steps)
    requires forall step :: !Enabled(After(p, steps), step)
    ensures After(p, steps).remote == start + Deliverable(p.tasks, p.failing)
  {
    MaximalRunsComplete(p, steps);
    PushSafe(p, steps, contents, start);
    RunKeepsTasks(p, steps);
    DoneIsDelivered(After(p, steps));
  }

  /** All steps that could ever be taken with `n` tasks. */
  function Candidates(n: nat): set<Step> {
    {Submit, Start}
    + (set i: nat, ok: bool | i < n && ok in {true, false} :: FinishFile(i, ok))
    + (set i: nat | i < n :: AbortDir(i))
    + (set i: nat, ok: bool | i < n && ok in {true, false} :: FinishDir(i, ok))
  }

  lemma EnabledIsCandidate(p: Pool, step: Step)
    requires Valid(p) && Enabled(p, step)
    ensures step in Candidates(|p.tasks|)
  {
  }

  function EnabledSteps(p: Pool): set<Step>
    requires |p.status| == |p.tasks|
  {
    set s | s in Candidates(|p.tasks|) && Enabled(p, s)
  }

  /** Runs the pool under an arbitrary schedule until every task is done. */
  method RunPool(start: Pool, ghost contents: Contents, ghost stored: set<Hash>) returns (p: Pool)
    requires Safe(start, contents, stored)
    ensures Safe(p, contents, stored) && AllDone(p) && p.tasks == start.tasks && p.failing == start.failing
    ensures p.remote == stored + Deliverable(start.tasks, start.failing)
  {
    p := start;
    while !AllDone(p)
      invariant Safe(p, contents, stored) && p.tasks == start.tasks && p.failing == start.failing
      decreases Measure(p)
    {
      ghost var possible := NeverStuck(p);
      EnabledIsCandidate(p, possible);
      assert possible in EnabledSteps(p);
      var step :| step in EnabledSteps(p);
      StepKeepsSafe(p, step, contents, stored);
      StepDecreases(p, step);
      ApplyValid(p, step);
      p := Apply(p, step);
    }
    DoneIsDelivered(p);
  }

  function Fails(status: seq<Status>): nat {
    if status == [] then 0 else (if status[0] == Done(false) then 1 else 0) + Fails(status[1..])
  }

  /** What was to be uploaded by the tasks that failed. */
  function FailedHashes(tasks: seq<Task>, status: seq<Status>): set<Hash>
    requires |status| == |tasks|
  {
    set i: nat | i < |tasks| && status[i] == Done(false) :: tasks[i].hash
  }

  /** No two tasks upload the same object. */
  ghost predicate Distinct(tasks: seq<Task>) {
    forall i, j :: 0 <= i < j < |tasks| ==> tasks[i].hash != tasks[j].hash
  }

  lemma {:induction false} FailsAreFailed(tasks: seq<Task>, status: seq<Status>)
    requires |status| == |tasks| && Distinct(tasks)
    ensures Fails(status) == |FailedHashes(tasks, status)|
  {
    if tasks != [] {
      FailsAreFailed(tasks[1..], status[1..]);
      var rest, first := FailedHashes(tasks[1..], status[1..]), tasks[0].hash;
      assert first !in rest;
      forall i: nat | i < |tasks|
        ensures i > 0 ==> tasks[i] == tasks[1..][i - 1] && status[i] == status[1..][i - 1]
      {
      }
      forall h
        ensures h in FailedHashes(tasks, status) <==> h in rest || (status[0] == Done(false) && h == first)
      {
        if h in rest {
          var i: nat :| i < |tasks| - 1 && status[1..][i] == Done(false) && tasks[1..][i].hash == h;
          assert status[i + 1] == Done(false) && tasks[i + 1].hash == h;
        }
      }
      assert FailedHashes(tasks, status) == rest + if status[0] == Done(false) then {first} else {};
    } else {
      assert FailedHashes(tasks, status) == {};
    }
  }

  ghost function TaskHashes(tasks: seq<Task>): set<Hash> {
    set t | t in tasks :: t.hash
  }

  /** The failed uploads are those of the tasks whose objects are not on the remote afterwards. */
  lemma FailsAreMissing(p: Pool, start: set<Hash>)
    requires |p.status| == |p.tasks| && Settled(p) && AllDone(p) && Distinct(p.tasks)
    requires p.remote == start + Deliverable(p.tasks, p.failing) && TaskHashes(p.tasks) !! start
    ensures Fails(p.status) == |TaskHashes(p.tasks) - p.remote|
  {
    FailsAreFailed(p.tasks, p.status);
    forall i: nat | i < |p.tasks|
      ensures p.tasks[i].hash in TaskHashes(p.tasks)
      ensures p.status[i] == Done(false) <==> p.tasks[i].hash !in p.remote
    {
      assert p.tasks[i] in p.tasks;
      assert p.status[i] in p.status && p.status[i].Done?;
    }
    forall h
      ensures h in FailedHashes(p.tasks, p.status) <==> h in TaskHashes(p.tasks) - p.remote
    {
      if h in TaskHashes(p.tasks) {
        var t :| t in p.tasks && t.hash == h;
        var i: nat :| i < |p.tasks| && p.tasks[i] == t;
      }
    }
    assert FailedHashes(p.tasks, p.status) == TaskHashes(p.tasks) - p.remote;
  }

  /** Runs all tasks and counts those that fail. */
  method RunTasks(tasks: seq<Task>, workers: nat, failing: set<Hash>, remote: set<Hash>, ghost contents: Contents)
    returns (stored: set<Hash>, fails: nat)
    requires workers > 0 && WellOrdered(tasks) && Covers(tasks, contents, remote) && Closed(contents, remote)
    requires Distinct(tasks) && TaskHashes(tasks) !! remote
    ensures Closed(contents, stored) && stored == remote + Deliverable(tasks, failing)
    ensures fails == |TaskHashes(tasks) - stored|
  {
    InitialSafe(tasks, workers, failing, remote, contents);
    var pool := RunPool(Initial(tasks, workers, failing, remote), contents, remote);
    FailsAreMissing(pool, remote);
    stored, fails := pool.remote, Fails(pool.status);
  }
}
