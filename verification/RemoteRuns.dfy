/** Runs of operations on a remote, in any order, with other clients at work on it too. */
module RemoteRuns {
  import opened Common
  import opened Objects
  import opened Collection
  import opened Remote

  /** An operation of this client, or a change that other clients make. */
  datatype Op =
    | StatusOp(used: Used, download: bool)
    | PushOp(used: Used, workers: nat, failing: set<Hash>)
    | PullOp(used: Used, failing: set<Hash>)
    | GcOp(keep: set<Hash>)
    | OthersOp(left: set<Hash>)

  /** Used sets are complete, and other clients leave directories with their files. */
  ghost predicate Allowed(op: Op, contents: Contents) {
    match op
    case StatusOp(used, download) => Faithful(used, contents)
    case PushOp(used, workers, failing) => Faithful(used, contents) && workers > 0
    case PullOp(used, failing) => Faithful(used, contents)
    case GcOp(keep) => Named(contents) && Closed(contents, keep)
    case OthersOp(left) => Closed(contents, left)
  }

  /** The operation looks at the directories of its used set, which validates the index. */
  predicate Validates(op: Op) {
    match op
    case StatusOp(used, download) => !download && used.dirs != map[]
    case PushOp(used, workers, failing) => used.dirs != map[]
    case PullOp(used, failing) => false
    case GcOp(keep) => false
    case OthersOp(left) => false
  }

  method Perform(r: Remote, op: Op, ghost contents: Contents)
    requires r.Valid(contents) && Allowed(op, contents)
    modifies r
    ensures r.Valid(contents)
    ensures (old(r.Sound()) && !op.OthersOp?) || Validates(op) ==> r.Sound()
  {
    match op
    case StatusOp(used, download) =>
      var dirStatus, fileStatus := r.Status(used, download, contents);
    case PushOp(used, workers, failing) =>
      var done := r.Push(used, workers, failing, contents);
    case PullOp(used, failing) =>
      var done := r.Pull(used, failing, contents);
    case GcOp(keep) =>
      var listing := SetToSeq(r.remote);
      var removed := r.GcRemote(listing, keep, contents);
    case OthersOp(left) =>
      r.remote := left;
  }

  /** The index can be trusted after the operations: one has validated it since the last change by
      others, or it was sound at the start and others have changed nothing. */
  ghost predicate Trusted(ops: seq<Op>, start: bool) {
    if ops == [] then start
    else
      var last := ops[|ops| - 1];
      Validates(last) || (!last.OthersOp? && Trusted(ops[..|ops| - 1], start))
  }

  /** After any run directories are on the remote with their files, and the index names only what
      the remote holds unless others have changed it since it was last validated. */
  method Run(r: Remote, ops: seq<Op>, ghost contents: Contents)
    requires r.Valid(contents) && forall op :: op in ops ==> Allowed(op, contents)
    modifies r
    ensures r.Valid(contents)
    ensures Trusted(ops, old(r.Sound())) ==> r.Sound()
  {
    assert ops[..0] == [];
    for i := 0 to |ops|
      invariant r.Valid(contents)
      invariant Trusted(ops[..i], old(r.Sound())) ==> r.Sound()
    {
      assert ops[..i + 1][..i] == ops[..i];
      Perform(r, ops[i], contents);
    }
    assert ops[..|ops|] == ops;
  }

  /** After a trusted run a status is what looking every hash up would give. */
  method RunThenStatus(r: Remote, ops: seq<Op>, used: Used, ghost contents: Contents)
    returns (dirStatus: map<Hash, FileStatus>, fileStatus: map<Hash, FileStatus>)
    requires r.Valid(contents) && Faithful(used, contents) && forall op :: op in ops ==> Allowed(op, contents)
    modifies r
    ensures dirStatus.Keys == used.dirs.Keys && fileStatus.Keys == used.files
    ensures Trusted(ops, old(r.Sound())) || used.dirs != map[] ==>
      && (forall h :: h in dirStatus ==> dirStatus[h] == StatusOf(h in r.local, h in r.remote))
      && (forall h :: h in fileStatus ==> fileStatus[h] == StatusOf(h in r.local, h in r.remote))
  {
    Run(r, ops, contents);
    dirStatus, fileStatus := r.Status(used, false, contents);
  }

  /** Without changes by others every run from a sound index is trusted. */
  lemma {:induction false} AloneIsTrusted(ops: seq<Op>)
    requires forall op :: op in ops ==> !op.OthersOp?
    ensures Trusted(ops, true)
  {
    if ops != [] {
      AloneIsTrusted(ops[..|ops| - 1]);
    }
  }
}
