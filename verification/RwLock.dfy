/** The hierarchical read/write lock: the lock file's operations, and what every interleaving of
    re-entrant brackets keeps. */
module RwLock {
  import opened Common
  import opened Paths

  /** A holder, as the lock file names it. */
  datatype Info = Info(pid: int, cmd: string)

  /** The lock file: readers and the writer of each path. */
  datatype LockFile = LockFile(read: map<Path, seq<Info>>, write: map<Path, Info>)

  /** What one acquisition added. */
  datatype Changes = Changes(read: seq<Path>, write: seq<Path>)

  predicate WriteBlocked(lock: LockFile, info: Info, p: Path) {
    exists q :: q in lock.write && Overlaps(p, q) && lock.write[q] != info
  }

  predicate ReadBlocked(lock: LockFile, info: Info, p: Path) {
    exists q, i :: q in lock.read && Overlaps(p, q) && 0 <= i < |lock.read[q]| && lock.read[q][i] != info
  }

  /** The acquisition is refused. */
  predicate Blocked(lock: LockFile, info: Info, read: seq<Path>, write: seq<Path>) {
    || (exists p :: p in read + write && WriteBlocked(lock, info, p))
    || (exists p :: p in write && ReadBlocked(lock, info, p))
  }

  /** An acquisition is refused just for a path to be locked at, above or below which another holder
      writes, and for a path to be written at, above or below which another holder reads. */
  lemma BlockedIff(lock: LockFile, info: Info, read: seq<Path>, write: seq<Path>)
    ensures Blocked(lock, info, read, write) <==>
      || (exists p, q :: p in read + write && q in lock.write && (p <= q || q <= p) && lock.write[q] != info)
      || (exists p, q ::
            p in write && q in lock.read && (p <= q || q <= p) && exists k :: k in lock.read[q] && k != info)
  {
    forall p, q
      ensures Overlaps(p, q) <==> p <= q || q <= p
    {
      OverlapIsPrefix(p, q);
    }
    forall q | q in lock.read
      ensures (exists k :: k in lock.read[q] && k != info) <==>
        exists i :: 0 <= i < |lock.read[q]| && lock.read[q][i] != info
    {
      if i :| 0 <= i < |lock.read[q]| && lock.read[q][i] != info {
        assert lock.read[q][i] in lock.read[q];
      }
    }
  }

  ghost function HeldRead(lock: LockFile, info: Info): set<Path> {
    set p | p in lock.read && info in lock.read[p]
  }

  ghost function HeldWrite(lock: LockFile, info: Info): set<Path> {
    set p | p in lock.write && lock.write[p] == info
  }

  /** No path has an empty list of readers or one holder listed twice. */
  ghost predicate WellFormed(lock: LockFile) {
    forall p :: p in lock.read ==> lock.read[p] != [] && NoDup(lock.read[p])
  }

  /** A path that one holder writes overlaps no path that another reads or writes. */
  ghost predicate Exclusive(lock: LockFile) {
    forall h, k, p, q :: h != k && p in HeldWrite(lock, h) && q in HeldWrite(lock, k) + HeldRead(lock, k) ==>
      !Overlaps(p, q)
  }

  /** Everyone but `info` holds in `b` what they hold in `a`. */
  ghost predicate OthersKeep(a: LockFile, b: LockFile, info: Info) {
    forall k :: k != info ==> HeldRead(a, k) == HeldRead(b, k) && HeldWrite(a, k) == HeldWrite(b, k)
  }

  function AddReader(lock: LockFile, info: Info, p: Path): LockFile {
    var readers := if p in lock.read then lock.read[p] else [];
    lock.(read := lock.read[p := readers + [info]])
  }

  lemma AddReaderHeld(lock: LockFile, info: Info, p: Path)
    requires WellFormed(lock) && p !in HeldRead(lock, info)
    ensures var r := AddReader(lock, info, p);
      && WellFormed(r) && OthersKeep(lock, r, info)
      && HeldRead(r, info) == HeldRead(lock, info) + {p} && HeldWrite(r, info) == HeldWrite(lock, info)
  {
    var r := AddReader(lock, info, p);
    var readers := if p in lock.read then lock.read[p] else [];
    NoDupConcat(readers, [info]);
    forall k | k != info
      ensures HeldRead(lock, k) == HeldRead(r, k)
    {
      assert k in readers + [info] <==> k in readers;
    }
  }

  lemma AddWriterHeld(lock: LockFile, info: Info, p: Path)
    requires WellFormed(lock) && p !in lock.write
    ensures var r := lock.(write := lock.write[p := info]);
      && WellFormed(r) && OthersKeep(lock, r, info)
      && HeldWrite(r, info) == HeldWrite(lock, info) + {p} && HeldRead(r, info) == HeldRead(lock, info)
  {
    var r := lock.(write := lock.write[p := info]);
    forall k | k != info
      ensures HeldWrite(lock, k) == HeldWrite(r, k)
    {
    }
  }

  /** `s` without the first occurrence of `x`. */
  function RemoveFirst(s: seq<Info>, x: Info): seq<Info> {
    if s == [] then [] else if s[0] == x then s[1..] else [s[0]] + RemoveFirst(s[1..], x)
  }

  lemma {:induction false} RemoveFirstMembers(s: seq<Info>, x: Info)
    requires NoDup(s)
    ensures NoDup(RemoveFirst(s, x)) && forall y :: y in RemoveFirst(s, x) <==> y in s && y != x
  {
    if s != [] {
      assert NoDup(s[1..]);
      assert s == [s[0]] + s[1..];
      assert s[0] !in s[1..];
      if s[0] != x {
        RemoveFirstMembers(s[1..], x);
      }
    }
  }

  function DropReader(lock: LockFile, info: Info, p: Path): LockFile
    requires p in lock.read
  {
    var readers := RemoveFirst(lock.read[p], info);
    lock.(read := if readers == [] then lock.read - {p} else lock.read[p := readers])
  }

  lemma DropReaderHeld(lock: LockFile, info: Info, p: Path)
    requires WellFormed(lock) && p in HeldRead(lock, info)
    ensures var r := DropReader(lock, info, p);
      && WellFormed(r) && OthersKeep(lock, r, info)
      && HeldRead(r, info) == HeldRead(lock, info) - {p} && HeldWrite(r, info) == HeldWrite(lock, info)
  {
    var r := DropReader(lock, info, p);
    RemoveFirstMembers(lock.read[p], info);
    forall k
      ensures HeldRead(r, k) == if k == info then HeldRead(lock, k) - {p} else HeldRead(lock, k)
    {
    }
  }

  lemma DropWriterHeld(lock: LockFile, info: Info, p: Path)
    requires WellFormed(lock) && p in HeldWrite(lock, info)
    ensures var r := lock.(write := lock.write - {p});
      && WellFormed(r) && OthersKeep(lock, r, info)
      && HeldWrite(r, info) == HeldWrite(lock, info) - {p} && HeldRead(r, info) == HeldRead(lock, info)
  {
    var r := lock.(write := lock.write - {p});
    forall k | k != info
      ensures HeldWrite(lock, k) == HeldWrite(r, k)
    {
    }
  }

  /** What an acquisition that is not refused does to the lock file. */
  ghost predicate Entered(lock: LockFile, info: Info, read: seq<Path>, write: seq<Path>, r: LockFile,
      changes: Changes) {
    && WellFormed(r) && OthersKeep(lock, r, info)
    && HeldRead(r, info) == HeldRead(lock, info) + ToSet(read)
    && HeldWrite(r, info) == HeldWrite(lock, info) + ToSet(write)
    && NoDup(changes.read) && ToSet(changes.read) == ToSet(read) - HeldRead(lock, info)
    && NoDup(changes.write) && ToSet(changes.write) == ToSet(write) - HeldWrite(lock, info)
  }

  /** The assertions made while giving back `changes` all hold. */
  ghost predicate Releasable(lock: LockFile, info: Info, changes: Changes) {
    && NoDup(changes.read) && ToSet(changes.read) <= HeldRead(lock, info)
    && NoDup(changes.write) && ToSet(changes.write) <= HeldWrite(lock, info)
  }

  /** What giving back `changes` does to the lock file. */
  ghost predicate Left(lock: LockFile, info: Info, changes: Changes, r: LockFile) {
    && WellFormed(r) && OthersKeep(lock, r, info)
    && HeldRead(r, info) == HeldRead(lock, info) - ToSet(changes.read)
    && HeldWrite(r, info) == HeldWrite(lock, info) - ToSet(changes.write)
  }

  lemma PrefixSet(s: seq<Path>, i: nat)
    requires i < |s|
    ensures ToSet(s[..i + 1]) == ToSet(s[..i]) + {s[i]}
  {
    assert s[..i + 1] == s[..i] + [s[i]];
  }

  method AcquireRead(lock: LockFile, info: Info, paths: seq<Path>) returns (r: LockFile, changes: seq<Path>)
    requires WellFormed(lock)
    ensures WellFormed(r) && OthersKeep(lock, r, info) && HeldWrite(r, info) == HeldWrite(lock, info)
    ensures r.write == lock.write
    ensures HeldRead(r, info) == HeldRead(lock, info) + ToSet(paths)
    ensures NoDup(changes) && ToSet(changes) == ToSet(paths) - HeldRead(lock, info)
  {
    r, changes := lock, [];
    for i := 0 to |paths|
      invariant WellFormed(r) && OthersKeep(lock, r, info) && r.write == lock.write
      invariant HeldRead(r, info) == HeldRead(lock, info) + ToSet(paths[..i])
      invariant NoDup(changes) && ToSet(changes) == ToSet(paths[..i]) - HeldRead(lock, info)
    {
      var p := paths[i];
      PrefixSet(paths, i);
      var readers := if p in r.read then r.read[p] else [];
      if info !in readers {
        AddReaderHeld(r, info, p);
        NoDupConcat(changes, [p]);
        ToSetConcat(changes, [p]);
        changes, r := changes + [p], AddReader(r, info, p);
      }
    }
    assert paths[..|paths|] == paths;
  }

  method AcquireWrite(lock: LockFile, info: Info, paths: seq<Path>) returns (r: LockFile, changes: seq<Path>)
    requires WellFormed(lock) && forall p :: p in paths && p in lock.write ==> lock.write[p] == info
    ensures WellFormed(r) && OthersKeep(lock, r, info) && HeldRead(r, info) == HeldRead(lock, info)
    ensures HeldWrite(r, info) == HeldWrite(lock, info) + ToSet(paths)
    ensures NoDup(changes) && ToSet(changes) == ToSet(paths) - HeldWrite(lock, info)
  {
    r, changes := lock, [];
    for i := 0 to |paths|
      invariant WellFormed(r) && OthersKeep(lock, r, info) && HeldRead(r, info) == HeldRead(lock, info)
      invariant forall p :: p in paths && p in r.write ==> r.write[p] == info
      invariant HeldWrite(r, info) == HeldWrite(lock, info) + ToSet(paths[..i])
      invariant NoDup(changes) && ToSet(changes) == ToSet(paths[..i]) - HeldWrite(lock, info)
    {
      var p := paths[i];
      PrefixSet(paths, i);
      if p !in r.write || r.write[p] != info {
        AddWriterHeld(r, info, p);
        NoDupConcat(changes, [p]);
        ToSetConcat(changes, [p]);
        changes, r := changes + [p], r.(write := r.write[p := info]);
      }
    }
    assert paths[..|paths|] == paths;
  }

  /** Gives back write locks; `ok` is false when an assertion fails on the way. */
  method ReleaseWrite(lock: LockFile, info: Info, changes: seq<Path>) returns (r: LockFile, ok: bool)
    requires WellFormed(lock)
    ensures ok <==> NoDup(changes) && ToSet(changes) <= HeldWrite(lock, info)
    ensures ok ==>
      && WellFormed(r) && OthersKeep(lock, r, info)
      && HeldRead(r, info) == HeldRead(lock, info)
      && HeldWrite(r, info) == HeldWrite(lock, info) - ToSet(changes)
  {
    r := lock;
    for i := 0 to |changes|
      invariant WellFormed(r) && OthersKeep(lock, r, info) && HeldRead(r, info) == HeldRead(lock, info)
      invariant HeldWrite(r, info) == HeldWrite(lock, info) - ToSet(changes[..i])
      invariant NoDup(changes[..i]) && ToSet(changes[..i]) <= HeldWrite(lock, info)
    {
      var p := changes[i];
      PrefixSet(changes, i);
      assert p in ToSet(changes) && p in ToSet(changes[..i + 1]);
      if p !in r.write || r.write[p] != info {
        NotReleasable(changes, i, HeldWrite(lock, info));
        return r, false;
      }
      DropWriterHeld(r, info, p);
      NoDupConcat(changes[..i], [p]);
      assert changes[..i + 1] == changes[..i] + [p];
      r := r.(write := r.write - {p});
    }
    assert changes[..|changes|] == changes;
    ok := true;
  }

  lemma NotReleasable(changes: seq<Path>, i: nat, held: set<Path>)
    requires i < |changes| && changes[i] !in held - ToSet(changes[..i])
    ensures !(NoDup(changes) && ToSet(changes) <= held)
  {
    assert changes[i] in ToSet(changes);
    if changes[i] in changes[..i] {
      var j :| 0 <= j < i && changes[j] == changes[i];
    }
  }

  method ReleaseRead(lock: LockFile, info: Info, changes: seq<Path>) returns (r: LockFile, ok: bool)
    requires WellFormed(lock)
    ensures ok <==> NoDup(changes) && ToSet(changes) <= HeldRead(lock, info)
    ensures ok ==>
      && WellFormed(r) && OthersKeep(lock, r, info)
      && HeldWrite(r, info) == HeldWrite(lock, info)
      && HeldRead(r, info) == HeldRead(lock, info) - ToSet(changes)
  {
    r := lock;
    for i := 0 to |changes|
      invariant WellFormed(r) && OthersKeep(lock, r, info) && HeldWrite(r, info) == HeldWrite(lock, info)
      invariant HeldRead(r, info) == HeldRead(lock, info) - ToSet(changes[..i])
      invariant NoDup(changes[..i]) && ToSet(changes[..i]) <= HeldRead(lock, info)
    {
      var p := changes[i];
      PrefixSet(changes, i);
      assert p in ToSet(changes) && p in ToSet(changes[..i + 1]);
      if p !in r.read || info !in r.read[p] {
        NotReleasable(changes, i, HeldRead(lock, info));
        return r, false;
      }
      DropReaderHeld(r, info, p);
      NoDupConcat(changes[..i], [p]);
      assert changes[..i + 1] == changes[..i] + [p];
      r := DropReader(r, info, p);
    }
    assert changes[..|changes|] == changes;
    ok := true;
  }

  /** The lock file on disk; each method is one edit of it under the repository lock. */
  class LockStore {
    var lock: LockFile

    method Enter(info: Info, read: seq<Path>, write: seq<Path>) returns (r: Option<Changes>)
      requires WellFormed(lock)
      modifies this
      ensures r.None? <==>
        || (exists p, q ::
              p in read + write && q in old(lock).write && (p <= q || q <= p) && old(lock).write[q] != info)
        || (exists p, q ::
              && p in write && q in old(lock).read && (p <= q || q <= p)
              && exists k :: k in old(lock).read[q] && k != info)
      ensures r.None? ==> lock == old(lock)
      ensures r.Some? ==> Entered(old(lock), info, read, write, lock, r.value)
    {
      BlockedIff(lock, info, read, write);
      if exists p :: p in read + write && WriteBlocked(lock, info, p) {
        return None;
      }
      if exists p :: p in write && ReadBlocked(lock, info, p) {
        return None;
      }
      assert forall p :: p in write ==> !WriteBlocked(lock, info, p) && Overlaps(p, p) by {
        assert forall p :: p in write ==> p in read + write;
      }
      var withReads, readChanges := AcquireRead(lock, info, read);
      var withBoth, writeChanges := AcquireWrite(withReads, info, write);
      lock := withBoth;
      r := Some(Changes(readChanges, writeChanges));
    }

    /** `ok` is false when one of the assertions made on release fails. */
    method Leave(info: Info, changes: Changes) returns (ok: bool)
      requires WellFormed(lock)
      modifies this
      ensures ok <==> Releasable(old(lock), info, changes)
      ensures ok ==> Left(old(lock), info, changes, lock)
      ensures !ok ==> lock == old(lock)
    {
      var r;
      r, ok := ReleaseWrite(lock, info, changes.write);
      if !ok {
        return;
      }
      r, ok := ReleaseRead(r, info, changes.read);
      if ok {
        lock := r;
      }
    }
  }

  /** The lock file with every holder's open brackets, innermost last. */
  datatype State = State(lock: LockFile, open: map<Info, seq<Changes>>) {
    function Frames(info: Info): seq<Changes> {
      if info in open then open[info] else []
    }
  }

  datatype Step = EnterStep(info: Info, read: seq<Path>, write: seq<Path>) | LeaveStep(info: Info)

  /** One edit of the lock file by any holder: a refused acquisition changes nothing, a granted
      one opens a bracket, and leaving closes the innermost one. */
  ghost predicate Next(s: State, step: Step, t: State) {
    match step
    case EnterStep(info, read, write) =>
      if Blocked(s.lock, info, read, write) then t == s
      else exists changes ::
        && Entered(s.lock, info, read, write, t.lock, changes)
        && t.open == s.open[info := s.Frames(info) + [changes]]
    case LeaveStep(info) =>
      var frames := s.Frames(info);
      && frames != []
      && Left(s.lock, info, frames[|frames| - 1], t.lock)
      && t.open == s.open[info := frames[..|frames| - 1]]
  }

  /** The frames were opened one on top of the other within what is held. */
  ghost predicate Stacked(frames: seq<Changes>, read: set<Path>, write: set<Path>) {
    frames != [] ==>
      var top := frames[|frames| - 1];
      && NoDup(top.read) && ToSet(top.read) <= read
      && NoDup(top.write) && ToSet(top.write) <= write
      && Stacked(frames[..|frames| - 1], read - ToSet(top.read), write - ToSet(top.write))
  }

  /** What remains when all frames are closed. */
  ghost function BaseRead(frames: seq<Changes>, read: set<Path>): set<Path> {
    if frames == [] then read
    else BaseRead(frames[..|frames| - 1], read - ToSet(frames[|frames| - 1].read))
  }

  ghost function BaseWrite(frames: seq<Changes>, write: set<Path>): set<Path> {
    if frames == [] then write
    else BaseWrite(frames[..|frames| - 1], write - ToSet(frames[|frames| - 1].write))
  }

  ghost predicate Inv(s: State) {
    && WellFormed(s.lock)
    && Exclusive(s.lock)
    && forall h :: Stacked(s.Frames(h), HeldRead(s.lock, h), HeldWrite(s.lock, h))
  }

  lemma EmptyLockInv()
    ensures Inv(State(LockFile(map[], map[]), map[]))
  {
  }

  lemma EnteredExclusive(lock: LockFile, info: Info, read: seq<Path>, write: seq<Path>, r: LockFile, changes: Changes)
    requires Exclusive(lock) && !Blocked(lock, info, read, write) && Entered(lock, info, read, write, r, changes)
    ensures Exclusive(r)
  {
    forall h, k, p, q | h != k && p in HeldWrite(r, h) && q in HeldWrite(r, k) + HeldRead(r, k)
      ensures !Overlaps(p, q)
    {
      if h == info {
        if p !in HeldWrite(lock, h) {
          assert p in write && p in read + write;
          assert !WriteBlocked(lock, info, p) && !ReadBlocked(lock, info, p);
          if q in HeldRead(r, k) {
            var i :| 0 <= i < |lock.read[q]| && lock.read[q][i] == k;
          }
        }
      } else if k == info {
        OverlapIsPrefix(p, q);
        if q !in HeldWrite(lock, k) + HeldRead(lock, k) {
          assert q in read + write;
          assert !WriteBlocked(lock, info, q);
        }
      }
    }
  }

  lemma EnteredStacked(s: State, info: Info, read: seq<Path>, write: seq<Path>, r: LockFile, changes: Changes)
    requires Stacked(s.Frames(info), HeldRead(s.lock, info), HeldWrite(s.lock, info))
    requires Entered(s.lock, info, read, write, r, changes)
    ensures var frames := s.Frames(info) + [changes];
      && Stacked(frames, HeldRead(r, info), HeldWrite(r, info))
      && BaseRead(frames, HeldRead(r, info)) == BaseRead(s.Frames(info), HeldRead(s.lock, info))
      && BaseWrite(frames, HeldWrite(r, info)) == BaseWrite(s.Frames(info), HeldWrite(s.lock, info))
  {
    var frames := s.Frames(info) + [changes];
    assert frames[..|frames| - 1] == s.Frames(info);
    assert HeldRead(r, info) - ToSet(changes.read) == HeldRead(s.lock, info);
    assert HeldWrite(r, info) - ToSet(changes.write) == HeldWrite(s.lock, info);
  }

  lemma EnterKeepsInv(s: State, info: Info, read: seq<Path>, write: seq<Path>, t: State, changes: Changes)
    requires Inv(s) && !Blocked(s.lock, info, read, write)
    requires Entered(s.lock, info, read, write, t.lock, changes)
    requires t.open == s.open[info := s.Frames(info) + [changes]]
    ensures Inv(t) && OthersKeep(s.lock, t.lock, info)
    ensures forall h :: SameBase(s, t, h)
  {
    EnteredExclusive(s.lock, info, read, write, t.lock, changes);
    EnteredStacked(s, info, read, write, t.lock, changes);
    assert forall h :: h != info ==> t.Frames(h) == s.Frames(h);
  }

  lemma LeaveKeepsInv(s: State, info: Info, t: State)
    requires Inv(s) && Next(s, LeaveStep(info), t)
    ensures Inv(t) && OthersKeep(s.lock, t.lock, info)
    ensures forall h :: SameBase(s, t, h)
  {
    assert forall h :: h != info ==> t.Frames(h) == s.Frames(h);
  }

  /** The holder would hold the same in both states, were all its brackets closed. */
  ghost predicate SameBase(s: State, t: State, h: Info) {
    && BaseRead(t.Frames(h), HeldRead(t.lock, h)) == BaseRead(s.Frames(h), HeldRead(s.lock, h))
    && BaseWrite(t.Frames(h), HeldWrite(t.lock, h)) == BaseWrite(s.Frames(h), HeldWrite(s.lock, h))
  }

  /** Every step keeps the invariant, leaves other holders alone, and keeps what a holder would
      hold with all its brackets closed. */
  lemma StepKeepsInv(s: State, step: Step, t: State)
    requires Inv(s) && Next(s, step, t)
    ensures Inv(t)
    ensures OthersKeep(s.lock, t.lock, step.info)
    ensures forall h :: SameBase(s, t, h)
  {
    match step
    case EnterStep(info, read, write) =>
      if !Blocked(s.lock, info, read, write) {
        var changes :|
          && Entered(s.lock, info, read, write, t.lock, changes)
          && t.open == s.open[info := s.Frames(info) + [changes]];
        EnterKeepsInv(s, info, read, write, t, changes);
      }
    case LeaveStep(info) =>
      LeaveKeepsInv(s, info, t);
  }

  ghost predicate IsRun(states: seq<State>, steps: seq<Step>) {
    && |states| == |steps| + 1
    && forall i :: 0 <= i < |steps| ==> Next(states[i], steps[i], states[i + 1])
  }

  /** In every reachable lock state writers exclude all others, and whatever bracket is left
      next, none of the assertions made on release fails. */
  lemma {:induction false} RunsAreSafe(states: seq<State>, steps: seq<Step>, n: nat)
    requires IsRun(states, steps) && Inv(states[0]) && n < |states|
    ensures Inv(states[n]) && Exclusive(states[n].lock)
    ensures forall h :: states[n].Frames(h) != [] ==>
      Releasable(states[n].lock, h, states[n].Frames(h)[|states[n].Frames(h)| - 1])
  {
    if n > 0 {
      RunsAreSafe(states, steps, n - 1);
      StepKeepsInv(states[n - 1], steps[n - 1], states[n]);
    }
  }

  lemma {:induction false} RunsKeepBase(states: seq<State>, steps: seq<Step>, n: nat, h: Info)
    requires IsRun(states, steps) && Inv(states[0]) && n < |states|
    ensures BaseRead(states[n].Frames(h), HeldRead(states[n].lock, h))
      == BaseRead(states[0].Frames(h), HeldRead(states[0].lock, h))
    ensures BaseWrite(states[n].Frames(h), HeldWrite(states[n].lock, h))
      == BaseWrite(states[0].Frames(h), HeldWrite(states[0].lock, h))
  {
    if n > 0 {
      RunsKeepBase(states, steps, n - 1, h);
      RunsAreSafe(states, steps, n - 1);
      StepKeepsInv(states[n - 1], steps[n - 1], states[n]);
      assert SameBase(states[n - 1], states[n], h);
    }
  }

  lemma {:induction false} HeldIsDetermined(frames: seq<Changes>, r1: set<Path>, w1: set<Path>, r2: set<Path>,
      w2: set<Path>)
    requires Stacked(frames, r1, w1) && Stacked(frames, r2, w2)
    requires BaseRead(frames, r1) == BaseRead(frames, r2) && BaseWrite(frames, w1) == BaseWrite(frames, w2)
    ensures r1 == r2 && w1 == w2
  {
    if frames != [] {
      var top := frames[|frames| - 1];
      HeldIsDetermined(frames[..|frames| - 1],
                       r1 - ToSet(top.read), w1 - ToSet(top.write), r2 - ToSet(top.read), w2 - ToSet(top.write));
      assert r1 == (r1 - ToSet(top.read)) + ToSet(top.read) && r2 == (r2 - ToSet(top.read)) + ToSet(top.read);
      assert w1 == (w1 - ToSet(top.write)) + ToSet(top.write) && w2 == (w2 - ToSet(top.write)) + ToSet(top.write);
    }
  }

  /** Between entering and leaving a bracket, whatever a holder does in properly nested brackets
      and whatever others do meanwhile, leaving restores exactly what the holder held. */
  lemma BracketsRestore(states: seq<State>, steps: seq<Step>, h: Info)
    requires IsRun(states, steps) && Inv(states[0])
    requires states[|steps|].Frames(h) == states[0].Frames(h)
    ensures HeldRead(states[|steps|].lock, h) == HeldRead(states[0].lock, h)
    ensures HeldWrite(states[|steps|].lock, h) == HeldWrite(states[0].lock, h)
  {
    var last := states[|steps|];
    RunsAreSafe(states, steps, |steps|);
    RunsKeepBase(states, steps, |steps|, h);
    HeldIsDetermined(last.Frames(h), HeldRead(last.lock, h), HeldWrite(last.lock, h),
                     HeldRead(states[0].lock, h), HeldWrite(states[0].lock, h));
  }
}
