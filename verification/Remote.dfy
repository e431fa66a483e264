/** A remote with its local index: status, push, pull and garbage collection.  The index
    remembers hashes as being on the remote on the strength of a directory object implying its
    files. */
module Remote {
  import opened Common
  import opened Objects
  import opened PushProtocol
  import opened Collection

  datatype FileStatus = Present | Missing | New | Deleted

  function StatusOf(local: bool, remote: bool): FileStatus {
    if local && remote then Present
    else if local then New
    else if remote then Deleted
    else Missing
  }

  datatype Transfer = Transferred(count: nat) | TransferFailed(fails: nat)

  /** What status and transfer read from a used set: its directories with their files, and all
      files, listed by a directory or on their own. */
  datatype Used = Used(dirs: map<Hash, set<Hash>>, files: set<Hash>) {
    function Keys(): set<Hash> {
      dirs.Keys + files
    }
  }

  function Flatten(items: Items): Used {
    Used(map k | k in items && items[k].children != map[] :: ChildKeys(items[k]),
         (set k | k in items && items[k].children == map[])
         + set k, c | k in items && c in items[k].children :: c)
  }

  /** The used set records every directory with exactly the files it lists. */
  ghost predicate Faithful(used: Used, contents: Contents) {
    && (forall d :: d in used.dirs ==> d in contents && contents[d] == used.dirs[d] != {} && used.dirs[d] <= used.files)
    && (forall f :: f in used.files && f in contents ==> contents[f] == {})
  }

  /** Directories one level deep that are recorded completely make a faithful used set, and
      nothing of the used set is lost. */
  lemma FlattenIsFaithful(items: Items, contents: Contents)
    requires forall k, c :: k in items && c in items[k].children ==> items[k].children[c].children == map[]
    requires forall k :: k in items && items[k].children != map[] ==>
      k in contents && contents[k] == items[k].children.Keys
    requires forall k :: k in items && items[k].children == map[] && k in contents ==> contents[k] == {}
    requires forall k, c :: k in items && c in items[k].children && c in contents ==> contents[c] == {}
    ensures Faithful(Flatten(items), contents) && Flatten(items).Keys() == SchemeKeys(items)
  {
    forall k | k in items
      ensures ChildKeys(items[k]) == items[k].children.Keys
    {
      OneLevel(items[k]);
    }
    FlattenKeys(items);
    var used := Flatten(items);
    forall d | d in used.dirs
      ensures d in contents && contents[d] == used.dirs[d] != {} && used.dirs[d] <= used.files
    {
      assert used.dirs[d] == items[d].children.Keys;
      var c :| c in items[d].children;
    }
  }

  lemma OneLevel(item: Item)
    requires forall c :: c in item.children ==> item.children[c].children == map[]
    ensures ChildKeys(item) == item.children.Keys
  {
    forall c | c in item.children
      ensures ChildKeys(item.children[c]) == {}
    {
    }
  }

  lemma FlattenKeys(items: Items)
    requires forall k :: k in items ==> ChildKeys(items[k]) == items[k].children.Keys
    ensures Flatten(items).Keys() == SchemeKeys(items)
  {
    forall h
      ensures h in Flatten(items).Keys() <==> h in SchemeKeys(items)
    {
      if h in items {
        assert h in Flatten(items).dirs || h in Flatten(items).files;
      }
    }
  }

  /** Directories together with the files they list. */
  function WithFiles(used: Used, dirs: set<Hash>): set<Hash>
    requires dirs <= used.dirs.Keys
  {
    dirs + set d, h | d in dirs && h in used.dirs[d] :: h
  }

  lemma WithFilesStep(used: Used, dirs: set<Hash>, rest: set<Hash>, d: Hash)
    requires rest <= dirs <= used.dirs.Keys && d in rest
    ensures WithFiles(used, dirs - (rest - {d})) == WithFiles(used, dirs - rest) + {d} + used.dirs[d]
    ensures {d} + used.dirs[d] <= WithFiles(used, dirs)
  {
    assert dirs - (rest - {d}) == dirs - rest + {d};
  }

  lemma WithFilesNext(used: Used, dirs: seq<Hash>, i: nat)
    requires i < |dirs| && dirs[i] in used.dirs && ToSet(dirs[..i]) <= used.dirs.Keys
    ensures ToSet(dirs[..i + 1]) == ToSet(dirs[..i]) + {dirs[i]}
    ensures WithFiles(used, ToSet(dirs[..i + 1])) == WithFiles(used, ToSet(dirs[..i])) + {dirs[i]} + used.dirs[dirs[i]]
  {
    assert dirs[..i + 1] == dirs[..i] + [dirs[i]];
    ToSetConcat(dirs[..i], [dirs[i]]);
  }

  lemma WithFilesStored(used: Used, contents: Contents, dirs: set<Hash>, store: set<Hash>)
    requires Faithful(used, contents) && Closed(contents, store) && dirs <= used.dirs.Keys * store
    ensures WithFiles(used, dirs) <= used.Keys() * store
  {
    forall d, h | d in dirs && h in used.dirs[d]
      ensures h in used.files && h in store
    {
    }
  }

  /** Every row of the index is a directory, indexed with all its files, or a file of an indexed
      directory. */
  ghost predicate Grouped(index: map<Hash, bool>, contents: Contents) {
    forall h :: h in index ==>
      if index[h] then h in contents && contents[h] <= index.Keys
      else exists d :: d in index && index[d] && d in contents && h in contents[d]
  }

  /** A directory is indexed as one, with its files. */
  lemma IndexedWhole(index: map<Hash, bool>, contents: Contents, dir: Hash)
    requires Grouped(index, contents) && FilesListed(contents)
    requires dir in index && dir in contents && contents[dir] != {}
    ensures contents[dir] <= index.Keys
  {
  }

  /** `index` with a directory and its files; rows that are already there stay as they are. */
  function Indexed(index: map<Hash, bool>, dir: Hash, files: set<Hash>): map<Hash, bool> {
    (map h | h in {dir} + files :: h == dir) + index
  }

  lemma IndexedGrouped(index: map<Hash, bool>, contents: Contents, dir: Hash)
    requires Grouped(index, contents) && FilesListed(contents)
    requires dir in contents && contents[dir] != {}
    ensures Grouped(Indexed(index, dir, contents[dir]), contents)
  {
    var r := Indexed(index, dir, contents[dir]);
    assert r[dir];
    forall h | h in r
      ensures if r[h] then h in contents && contents[h] <= r.Keys
        else exists d :: d in r && r[d] && d in contents && h in contents[d]
    {
      if h in index && !index[h] {
        var d :| d in index && index[d] && d in contents && h in contents[d];
        assert d in r && r[d];
      }
    }
  }

  /** What directories list are not directories with content of their own. */
  ghost predicate FilesListed(contents: Contents) {
    forall d, f :: d in contents && f in contents[d] && f in contents ==> contents[f] == {}
  }

  /** If all indexed directories are on a closed remote, so is everything indexed. */
  lemma GroupedIsSound(index: map<Hash, bool>, contents: Contents, store: set<Hash>)
    requires Grouped(index, contents) && Closed(contents, store)
    requires forall d :: d in index && index[d] ==> d in store
    ensures index.Keys <= store
  {
    forall h | h in index
      ensures h in store
    {
      if !index[h] {
        var d :| d in index && index[d] && d in contents && h in contents[d];
      }
    }
  }

  /** The tasks of a push, in the order they are submitted. */
  function Tasks(used: Used, files: seq<Hash>, dirs: seq<Hash>): seq<Task>
    requires forall d :: d in dirs ==> d in used.dirs
  {
    seq(|files|, i requires 0 <= i < |files| => FileTask(files[i]))
    + seq(|dirs|, i requires 0 <= i < |dirs| => DirTask(dirs[i], WaitsFor(files, used.dirs[dirs[i]])))
  }

  /** The positions in `files` of what a directory lists. */
  function WaitsFor(files: seq<Hash>, listed: set<Hash>): set<nat> {
    set i: nat | i < |files| && files[i] in listed
  }

  lemma TasksCover(used: Used, contents: Contents, files: seq<Hash>, dirs: seq<Hash>, store: set<Hash>)
    requires Faithful(used, contents) && forall f :: f in files ==> f in used.files
    requires forall d :: d in dirs ==> d in used.dirs
    requires forall d, f :: d in dirs && f in used.dirs[d] && f !in store ==> f in files
    ensures WellOrdered(Tasks(used, files, dirs)) && Covers(Tasks(used, files, dirs), contents, store)
  {
    var tasks := Tasks(used, files, dirs);
    forall i, f | 0 <= i < |tasks| && tasks[i].DirTask? && f in contents[tasks[i].hash]
      ensures f in store || exists w :: w in tasks[i].waits && w < |tasks| && tasks[w].hash == f
    {
      var d := dirs[i - |files|];
      assert d in dirs && tasks[i].hash == d;
      if f !in store {
        var w :| 0 <= w < |files| && files[w] == f;
        assert w in tasks[i].waits && tasks[w].hash == f;
      }
    }
    forall i | 0 <= i < |tasks| && tasks[i].FileTask? && tasks[i].hash in contents
      ensures contents[tasks[i].hash] == {}
    {
      assert files[i] in files;
    }
  }

  function WithStatus(status: map<Hash, FileStatus>, s: FileStatus): set<Hash> {
    set h | h in status && status[h] == s
  }

  lemma PlanIsExact(used: Used, dirStatus: map<Hash, FileStatus>, fileStatus: map<Hash, FileStatus>,
      local: set<Hash>, remote: set<Hash>, believed: set<Hash>)
    requires dirStatus.Keys == used.dirs.Keys && fileStatus.Keys == used.files
    requires forall h :: h in dirStatus ==> dirStatus[h] == StatusOf(h in local, h in believed)
    requires forall h :: h in fileStatus ==> fileStatus[h] == StatusOf(h in local, h in believed)
    requires used.dirs.Keys != {} ==> believed == remote
    requires forall d :: d in used.dirs ==> used.dirs[d] <= used.files
    ensures WithStatus(fileStatus, New) == OnlyIn(used.files, local, believed)
    ensures WithStatus(dirStatus, New) == OnlyIn(used.dirs.Keys, local, remote)
    ensures (set d | d in WithStatus(dirStatus, New) && used.dirs[d] !! WithStatus(fileStatus, Missing))
      == Uploads(used, local, remote)
  {
    assert forall d :: d in used.dirs ==>
      (used.dirs[d] !! WithStatus(fileStatus, Missing) <==> used.dirs[d] <= local + remote);
  }

  /** True statuses select for download all that the remote has and the local cache lacks. */
  lemma DownloadIsComplete(used: Used, dirStatus: map<Hash, FileStatus>, fileStatus: map<Hash, FileStatus>,
      local: set<Hash>, remote: set<Hash>)
    requires dirStatus.Keys == used.dirs.Keys && fileStatus.Keys == used.files
    requires forall h :: h in dirStatus ==> dirStatus[h] == StatusOf(h in local, h in remote)
    requires forall h :: h in fileStatus ==> fileStatus[h] == StatusOf(h in local, h in remote)
    ensures WithStatus(dirStatus, Deleted) + WithStatus(fileStatus, Deleted) == Wanted(used, remote, local)
  {
  }

  lemma KeepThenAdd(used: Used, remote: set<Hash>, local: set<Hash>, failing: set<Hash>)
    ensures local + (Wanted(used, remote, local) - failing) == local + (used.Keys() * remote - failing)
  {
  }

  lemma NothingToDownload(status: map<Hash, FileStatus>)
    requires forall h :: h in status ==> status[h] == Present
    ensures WithStatus(status, Deleted) == {}
  {
  }

  /** The hashes that are here and not there. */
  ghost function OnlyIn(hashes: set<Hash>, here: set<Hash>, there: set<Hash>): set<Hash> {
    set h | h in hashes && h in here && h !in there
  }

  /** The directories that a push uploads: new ones, none of whose files is missing on both sides. */
  ghost function Uploads(used: Used, local: set<Hash>, remote: set<Hash>): set<Hash> {
    set d | d in used.dirs && d in local && d !in remote && used.dirs[d] <= local + remote
  }

  /** Of new files and directories those that do not fail are delivered; a directory fails with any
      of its new files. */
  ghost function Delivered(used: Used, files: set<Hash>, dirs: set<Hash>, failing: set<Hash>): set<Hash>
    requires dirs <= used.dirs.Keys
  {
    (files - failing) + set d | d in dirs && d !in failing && used.dirs[d] * files !! failing
  }

  /** What was to be uploaded and is not there. */
  ghost function Missed(files: set<Hash>, dirs: set<Hash>, after: set<Hash>): set<Hash> {
    set h | h in files + dirs && h !in after
  }

  /** What a push makes of the remote, and its answer: what did not fail has been added; if anything
      is missing it is counted. */
  ghost function Pushed(used: Used, local: set<Hash>, before: set<Hash>, newFiles: set<Hash>, failing: set<Hash>,
      total: nat): (set<Hash>, Transfer)
  {
    var dirs := Uploads(used, local, before);
    var delivered := Delivered(used, newFiles, dirs, failing);
    var after := before + delivered;
    var missed := Missed(newFiles, dirs, after);
    (after, if missed == {} then Transferred(total) else TransferFailed(|missed|))
  }

  /** How many uploads are announced: of all new directories, and of the new files. */
  ghost function Total(used: Used, local: set<Hash>, before: set<Hash>, newFiles: set<Hash>): nat {
    |OnlyIn(used.dirs.Keys, local, before)| + |newFiles|
  }

  lemma PlanTotal(used: Used, local: set<Hash>, remote: set<Hash>, newDirs: set<Hash>, files: seq<Hash>)
    requires NoDup(files) && newDirs == OnlyIn(used.dirs.Keys, local, remote)
    ensures |newDirs| + |files| == Total(used, local, remote, ToSet(files))
    ensures |newDirs| + |files| == 0 ==> Uploads(used, local, remote) == {} && ToSet(files) == {}
  {
    NoDupSize(files);
    assert Uploads(used, local, remote) <= newDirs;
  }

  lemma NothingPushed(used: Used, local: set<Hash>, remote: set<Hash>, failing: set<Hash>, indexed: set<Hash>)
    requires Uploads(used, local, remote) == {}
    ensures Pushed(used, local, remote, {}, failing, 0) == (remote, Transferred(0))
    ensures indexed == indexed + WithFiles(used, Uploads(used, local, remote))
  {
    var dirs := Uploads(used, local, remote);
    var delivered := Delivered(used, {}, dirs, failing);
    assert delivered == {};
    assert remote == remote + delivered;
    assert Missed({}, dirs, remote) == {};
    assert WithFiles(used, dirs) == {};
  }

  /** The failures that a finished pool counts are the new objects that are not on the remote. */
  lemma PoolPushed(used: Used, local: set<Hash>, before: set<Hash>, files: set<Hash>, failing: set<Hash>,
      after: set<Hash>, fails: nat, total: nat)
    requires after == before + Delivered(used, files, Uploads(used, local, before), failing)
    requires fails == |files + Uploads(used, local, before) - after|
    ensures (after, if fails > 0 then TransferFailed(fails) else Transferred(total))
      == Pushed(used, local, before, files, failing, total)
    ensures fails == 0 ==> Uploads(used, local, before) <= after
  {
    var dirs := Uploads(used, local, before);
    var delivered := Delivered(used, files, dirs, failing);
    assert files + dirs - after == Missed(files, dirs, after);
    forall d | d in dirs && d !in after
      ensures d in Missed(files, dirs, after)
    {
    }
  }

  /** The uploads of a push and, where `failing` fail, those that succeed. */
  lemma TasksDeliver(used: Used, files: seq<Hash>, dirs: seq<Hash>, failing: set<Hash>)
    requires forall d :: d in dirs ==> d in used.dirs
    requires NoDup(files) && NoDup(dirs) && ToSet(files) !! ToSet(dirs)
    ensures Distinct(Tasks(used, files, dirs))
    ensures TaskHashes(Tasks(used, files, dirs)) == ToSet(files) + ToSet(dirs)
    ensures Deliverable(Tasks(used, files, dirs), failing)
      == Delivered(used, ToSet(files), ToSet(dirs), failing)
  {
    var tasks := Tasks(used, files, dirs);
    var delivered := Delivered(used, ToSet(files), ToSet(dirs), failing);
    forall i: nat | i < |tasks|
      ensures tasks[i] in tasks && tasks[i].hash in ToSet(files) + ToSet(dirs)
      ensures i < |files| <==> tasks[i].hash in ToSet(files)
      ensures Succeeds(tasks, failing, i) <==> tasks[i].hash in delivered
    {
      if i < |files| {
        assert files[i] in files && tasks[i].hash == files[i];
      } else {
        assert dirs[i - |files|] in dirs && tasks[i].hash == dirs[i - |files|];
        DirSucceedsIff(used, files, dirs, failing, i);
      }
    }
    forall h | h in ToSet(files) + ToSet(dirs)
      ensures exists i: nat :: i < |tasks| && tasks[i].hash == h
    {
      if h in ToSet(files) {
        var i :| 0 <= i < |files| && files[i] == h;
        assert tasks[i].hash == h;
      } else {
        var i :| 0 <= i < |dirs| && dirs[i] == h;
        assert tasks[|files| + i].hash == h;
      }
    }
    assert delivered <= ToSet(files) + ToSet(dirs);
    TasksDistinct(used, files, dirs);
  }

  lemma TasksDistinct(used: Used, files: seq<Hash>, dirs: seq<Hash>)
    requires forall d :: d in dirs ==> d in used.dirs
    requires NoDup(files) && NoDup(dirs) && ToSet(files) !! ToSet(dirs)
    ensures Distinct(Tasks(used, files, dirs))
  {
    var tasks := Tasks(used, files, dirs);
    forall i, j | 0 <= i < j < |tasks|
      ensures tasks[i].hash != tasks[j].hash
    {
      if i < |files| <= j {
        assert files[i] in ToSet(files) && dirs[j - |files|] in ToSet(dirs);
      }
    }
  }

  lemma DirSucceedsIff(used: Used, files: seq<Hash>, dirs: seq<Hash>, failing: set<Hash>, i: nat)
    requires forall d :: d in dirs ==> d in used.dirs
    requires |files| <= i < |files| + |dirs|
    ensures var d := dirs[i - |files|];
      Succeeds(Tasks(used, files, dirs), failing, i) <==>
        d !in failing && used.dirs[d] * ToSet(files) !! failing
  {
    var tasks, d := Tasks(used, files, dirs), dirs[i - |files|];
    assert tasks[i] == DirTask(d, WaitsFor(files, used.dirs[d]));
    if Succeeds(tasks, failing, i) {
      forall f | f in used.dirs[d] && f in files
        ensures f !in failing
      {
        var w :| 0 <= w < |files| && files[w] == f;
        assert w in tasks[i].waits;
      }
    }
  }

  /** The plan can be run: files and directories are apart, new, and in an order that can wait. */
  lemma PlannedTasks(used: Used, contents: Contents, local: set<Hash>, remote: set<Hash>,
      files: seq<Hash>, dirs: seq<Hash>, failing: set<Hash>)
    requires Faithful(used, contents) && NoDup(files) && ToSet(files) !! remote && ToSet(files) <= used.files
    requires used.dirs.Keys != {} ==> ToSet(files) == used.files * local - remote
    requires NoDup(dirs) && ToSet(dirs) == Uploads(used, local, remote)
    ensures forall d :: d in dirs ==> d in used.dirs
    ensures var tasks := Tasks(used, files, dirs);
      && WellOrdered(tasks) && Covers(tasks, contents, remote) && Distinct(tasks) && TaskHashes(tasks) !! remote
      && TaskHashes(tasks) == ToSet(files) + Uploads(used, local, remote)
      && Deliverable(tasks, failing) == Delivered(used, ToSet(files), Uploads(used, local, remote), failing)
  {
    forall d | d in dirs
      ensures d in used.dirs && d !in used.files && used.dirs[d] <= local + remote
    {
      assert d in ToSet(dirs);
    }
    forall d, f | d in dirs && f in used.dirs[d] && f !in remote
      ensures f in files
    {
      assert f in used.files && f in ToSet(files);
    }
    forall f | f in files
      ensures f in used.files
    {
      assert f in ToSet(files);
    }
    TasksCover(used, contents, files, dirs, remote);
    TasksDeliver(used, files, dirs, failing);
  }

  /** What the remote has and the cache lacks. */
  ghost function Wanted(used: Used, remote: set<Hash>, local: set<Hash>): set<Hash> {
    OnlyIn(used.Keys(), remote, local)
  }

  /** A download fails when any of the wanted objects does. */
  ghost function PullOutcome(wanted: set<Hash>, failing: set<Hash>): Transfer {
    var failed := set h | h in wanted && h in failing;
    if failed == {} then Transferred(|wanted|) else TransferFailed(|failed|)
  }

  class Remote {
    /** The objects on the remote and in the local cache, and the index rows (true: directory). */
    var remote: set<Hash>
    var local: set<Hash>
    var index: map<Hash, bool>

    /** The remote holds directories with their files, and the index is made of whole
        directories.  Another client that removes objects but keeps the remote closed cannot
        break this. */
    ghost predicate Valid(contents: Contents)
      reads this`remote, this`index
    {
      FilesListed(contents) && Closed(contents, remote) && Grouped(index, contents)
    }

    /** The index names only what the remote holds. */
    ghost predicate Sound()
      reads this`remote, this`index
    {
      index.Keys <= remote
    }

    /** What a status takes to be on the remote: without directories in the used set, nothing
        validates the index before it is believed. */
    ghost function Believed(used: Used): set<Hash>
      reads this`remote, this`index
    {
      if used.dirs.Keys == {} then remote + index.Keys else remote
    }

    /** The local files of the used set that are believed not to be on the remote. */
    ghost function NewFiles(used: Used): set<Hash>
      reads this
    {
      OnlyIn(used.files, local, Believed(used))
    }

    ghost predicate AreNew(used: Used, files: set<Hash>)
      reads this
    {
      files !! remote && files <= used.files * local && (used.dirs.Keys != {} ==> files == used.files * local - remote)
    }

    /** What is indexed once a status has looked at the remote. */
    ghost function Looked(used: Used): set<Hash>
      reads this`remote, this`index
    {
      if used.dirs.Keys == {} then index.Keys
      else (if Sound() then index.Keys else {}) + WithFiles(used, used.dirs.Keys * remote)
    }

    method UpdateIndex(dir: Hash, files: set<Hash>, ghost contents: Contents)
      requires Valid(contents) && dir in contents && contents[dir] == files && files != {}
      modifies this`index
      ensures Valid(contents) && index == Indexed(old(index), dir, files)
      ensures index.Keys == old(index.Keys) + {dir} + files
      ensures forall h :: h in index ==> index[h] == if h in old(index) then old(index)[h] else h == dir
    {
      IndexedGrouped(index, contents, dir);
      index := Indexed(index, dir, files);
    }

    method EnsureIndexed(dir: Hash, files: set<Hash>, ghost contents: Contents)
      requires Valid(contents) && Sound() && dir in contents && contents[dir] == files && files != {}
      requires {dir} + files <= remote
      modifies this`index
      ensures Valid(contents) && Sound() && index.Keys == old(index.Keys) + {dir} + files
    {
      if dir !in index {
        UpdateIndex(dir, files, contents);
      } else {
        IndexedWhole(index, contents, dir);
      }
    }

    /** Indexes directories that have been pushed. */
    method IndexPushed(used: Used, dirs: seq<Hash>, ghost pushed: set<Hash>, ghost contents: Contents)
      requires Valid(contents) && Faithful(used, contents)
      requires ToSet(dirs) == pushed <= used.dirs.Keys * remote
      modifies this`index
      ensures Valid(contents) && (old(Sound()) ==> Sound())
      ensures index.Keys == old(index.Keys) + WithFiles(used, pushed)
    {
      for i := 0 to |dirs|
        invariant Valid(contents) && (old(Sound()) ==> Sound())
        invariant ToSet(dirs[..i]) <= used.dirs.Keys
        invariant index.Keys == old(index.Keys) + WithFiles(used, ToSet(dirs[..i]))
      {
        assert dirs[i] in ToSet(dirs) && contents[dirs[i]] <= remote;
        WithFilesNext(used, dirs, i);
        UpdateIndex(dirs[i], used.dirs[dirs[i]], contents);
      }
      assert dirs[..|dirs|] == dirs;
    }

    /** Drops the index when it names a directory that is gone; returns the directories it named
        that exist.  Afterwards the index can be trusted, whatever others did to the remote. */
    method ValidateIndex(ghost contents: Contents) returns (exist: set<Hash>)
      requires Valid(contents)
      modifies this`index
      ensures Valid(contents) && Sound() && exist <= remote
      ensures index == if old(Sound()) then old(index) else map[]
    {
      var indexed := set h | h in index && index[h];
      exist := indexed * remote;
      if exist != indexed {
        index := map[];
      } else {
        assert forall d :: d in index && index[d] ==> d in indexed;
        GroupedIsSound(index, contents, remote);
      }
    }

    method IndexDirs(used: Used, dirs: set<Hash>, ghost contents: Contents) returns (found: set<Hash>)
      requires Valid(contents) && Sound() && Faithful(used, contents)
      requires dirs <= used.dirs.Keys && WithFiles(used, dirs) <= remote
      modifies this`index
      ensures Valid(contents) && Sound() && found == WithFiles(used, dirs)
      ensures index.Keys == old(index.Keys) + found
    {
      found := {};
      var rest := dirs;
      while rest != {}
        invariant rest <= dirs && Valid(contents) && Sound()
        invariant found == WithFiles(used, dirs - rest) && index.Keys == old(index.Keys) + found
        decreases rest
      {
        var d :| d in rest;
        WithFilesStep(used, dirs, rest, d);
        EnsureIndexed(d, used.dirs[d], contents);
        found, rest := found + {d} + used.dirs[d], rest - {d};
      }
      assert dirs - rest == dirs;
    }

    /** The directories of the used set that are on the remote, with their files. */
    method IndexedDirHashes(used: Used, ghost contents: Contents) returns (found: set<Hash>)
      requires Valid(contents) && Faithful(used, contents)
      modifies this`index
      ensures Valid(contents) && Sound()
      ensures found == WithFiles(used, used.dirs.Keys * remote)
      ensures index.Keys == (if old(Sound()) then old(index.Keys) else {}) + found
    {
      var dirs := used.dirs.Keys;
      var exist := ValidateIndex(contents);
      exist := dirs * exist;
      exist := exist + (dirs - exist) * remote;
      assert exist == dirs * remote;
      WithFilesStored(used, contents, exist, remote);
      found := IndexDirs(used, exist, contents);
    }

    /** Membership of hashes, answered by the index where it can be: right exactly when the
        index is right about them. */
    method HashesExist(hashes: set<Hash>) returns (r: set<Hash>)
      ensures r == hashes * (remote + index.Keys)
      ensures r == hashes * remote <==> hashes * index.Keys <= remote
    {
      var indexed := hashes * index.Keys;
      r := indexed + (hashes - indexed) * remote;
    }

    /** What exists on the remote of the used set. */
    method CollectRemote(used: Used, ghost contents: Contents) returns (remoteExists: set<Hash>)
      requires Valid(contents) && Faithful(used, contents)
      modifies this`index
      ensures Valid(contents) && (old(Sound()) ==> Sound())
      ensures remoteExists == used.Keys() * old(Believed(used)) && index.Keys == old(Looked(used))
      ensures used.dirs.Keys != {} || old(Sound()) ==> Sound() && remoteExists == used.Keys() * remote
    {
      var found := {};
      if used.dirs.Keys != {} {
        found := IndexedDirHashes(used, contents);
        WithFilesStored(used, contents, used.dirs.Keys * remote, remote);
      }
      var rest := used.Keys() - found;
      var more := {};
      if rest != {} {
        more := HashesExist(rest);
      }
      remoteExists := found + more;
      assert more == rest * (remote + index.Keys);
      if Sound() {
        assert remote + index.Keys == remote;
        assert used.Keys() * remote == found + (used.Keys() - found) * remote;
      }
    }

    /** A download of objects that are all cached locally does not look at the remote. */
    predicate Shortcut(used: Used, download: bool)
      reads this`local
    {
      download && used.Keys() <= local
    }

    /** The status of the directories and of the files of the used set: what looking each one up
        on the remote would give. */
    method Status(used: Used, download: bool, ghost contents: Contents)
      returns (dirStatus: map<Hash, FileStatus>, fileStatus: map<Hash, FileStatus>)
      requires Valid(contents) && Faithful(used, contents)
      modifies this`index
      ensures Valid(contents) && (old(Sound()) ==> Sound())
      ensures dirStatus.Keys == used.dirs.Keys && fileStatus.Keys == used.files
      ensures WithStatus(dirStatus, New) <= used.dirs.Keys * local && WithStatus(fileStatus, New) <= used.files * local
      ensures Shortcut(used, download) ==>
        && (forall h :: h in dirStatus ==> dirStatus[h] == Present)
        && (forall h :: h in fileStatus ==> fileStatus[h] == Present)
        && index == old(index)
      ensures !Shortcut(used, download) ==>
        && (forall h :: h in dirStatus ==> dirStatus[h] == StatusOf(h in local, h in old(Believed(used))))
        && (forall h :: h in fileStatus ==> fileStatus[h] == StatusOf(h in local, h in old(Believed(used))))
        && index.Keys == old(Looked(used))
      ensures !Shortcut(used, download) && (used.dirs.Keys != {} || old(Sound())) ==>
        && Sound()
        && (forall h :: h in dirStatus ==> dirStatus[h] == StatusOf(h in local, h in remote))
        && (forall h :: h in fileStatus ==> fileStatus[h] == StatusOf(h in local, h in remote))
    {
      var localExists := used.Keys() * local;
      var remoteExists := localExists;
      if !(download && localExists == used.Keys()) {
        remoteExists := CollectRemote(used, contents);
      }
      dirStatus := map h | h in used.dirs.Keys :: StatusOf(h in localExists, h in remoteExists);
      fileStatus := map h | h in used.files :: StatusOf(h in localExists, h in remoteExists);
    }

    /** What a push will upload: new files, and new directories of which no file is missing on
        both sides.  The others count towards the total. */
    method Plan(used: Used, ghost contents: Contents) returns (files: seq<Hash>, dirs: seq<Hash>, total: nat)
      requires Valid(contents) && Faithful(used, contents)
      modifies this`index
      ensures Valid(contents) && (used.dirs.Keys != {} || old(Sound()) ==> Sound())
      ensures index.Keys == old(Looked(used))
      ensures NoDup(files) && ToSet(files) == old(NewFiles(used))
      ensures NoDup(dirs) && ToSet(dirs) == Uploads(used, local, remote)
      ensures total == Total(used, local, remote, old(NewFiles(used)))
      ensures total == 0 ==> ToSet(files) == {} && Uploads(used, local, remote) == {}
    {
      var dirStatus, fileStatus := Status(used, false, contents);
      var missing, newDirs := WithStatus(fileStatus, Missing), WithStatus(dirStatus, New);
      PlanIsExact(used, dirStatus, fileStatus, local, remote, old(Believed(used)));
      files := SetToSeq(WithStatus(fileStatus, New));
      dirs := SetToSeq(set d | d in newDirs && used.dirs[d] !! missing);
      total := |newDirs| + |files|;
      PlanTotal(used, local, remote, newDirs, files);
    }

    /** Uploads what is new: files first, and each directory after the files it waits for; a
        directory with files that are missing on both sides is left out.  Every directory on the
        remote keeps its files throughout, see PushSafe.  The uploads in `failing` fail; all others
        are on the remote afterwards, except directories with a failing new file.  The push fails
        when one of them is not, and then indexes none of them. */
    method Push(used: Used, workers: nat, failing: set<Hash>, ghost contents: Contents) returns (r: Transfer)
      requires Valid(contents) && Faithful(used, contents) && workers > 0
      modifies this`remote, this`index
      ensures Valid(contents)
      ensures used.dirs.Keys != {} || old(Sound()) ==> Sound()
      ensures (remote, r) == Pushed(used, local, old(remote), old(NewFiles(used)), failing,
        Total(used, local, old(remote), old(NewFiles(used))))
      ensures index.Keys ==
        if r.TransferFailed? then old(Looked(used))
        else old(Looked(used)) + WithFiles(used, Uploads(used, local, old(remote)))
    {
      var files, dirs, total := Plan(used, contents);
      r := PushPlanned(used, files, dirs, total, workers, failing, contents, old(NewFiles(used)));
    }

    method PushPlanned(used: Used, files: seq<Hash>, dirs: seq<Hash>, total: nat, workers: nat, failing: set<Hash>,
        ghost contents: Contents, ghost newFiles: set<Hash>)
      returns (r: Transfer)
      requires Valid(contents) && Faithful(used, contents) && workers > 0
      requires AreNew(used, newFiles)
      requires NoDup(files) && ToSet(files) == newFiles && NoDup(dirs) && ToSet(dirs) == Uploads(used, local, remote)
      requires total == 0 ==> ToSet(files) == {} && Uploads(used, local, remote) == {}
      modifies this`remote, this`index
      ensures Valid(contents) && (old(Sound()) ==> Sound())
      ensures (remote, r) == Pushed(used, local, old(remote), newFiles, failing, total)
      ensures index.Keys == if r.Transferred? then old(index.Keys) + WithFiles(used, Uploads(used, local, old(remote)))
        else old(index.Keys)
    {
      if total == 0 {
        NothingPushed(used, local, remote, failing, index.Keys);
        return Transferred(0);
      }
      var stored;
      stored, r := Upload(used, files, dirs, total, workers, failing, contents, newFiles);
      remote := stored;
      if r.Transferred? {
        IndexPushed(used, dirs, Uploads(used, local, old(remote)), contents);
      }
    }

    /** Runs the pool over the planned uploads; what it counts as failures is what is missing. */
    method Upload(used: Used, files: seq<Hash>, dirs: seq<Hash>, total: nat, workers: nat, failing: set<Hash>,
        ghost contents: Contents, ghost newFiles: set<Hash>)
      returns (stored: set<Hash>, r: Transfer)
      requires Valid(contents) && Faithful(used, contents) && workers > 0
      requires AreNew(used, newFiles)
      requires NoDup(files) && ToSet(files) == newFiles && NoDup(dirs) && ToSet(dirs) == Uploads(used, local, remote)
      ensures Closed(contents, stored) && remote <= stored
      ensures (stored, r) == Pushed(used, local, remote, newFiles, failing, total)
      ensures r.Transferred? ==> Uploads(used, local, remote) <= stored
    {
      PlannedTasks(used, contents, local, remote, files, dirs, failing);
      var tasks := Tasks(used, files, dirs);
      var fails;
      stored, fails := RunTasks(tasks, workers, failing, remote, contents);
      PoolPushed(used, local, remote, newFiles, failing, stored, fails, total);
      r := if fails > 0 then TransferFailed(fails) else Transferred(total);
    }

    /** Downloads what the remote has and the local cache lacks; `failing` fail and are counted.  A
        failed download drops the index. */
    method Pull(used: Used, failing: set<Hash>, ghost contents: Contents) returns (r: Transfer)
      requires Valid(contents) && Faithful(used, contents)
      modifies this`local, this`index
      ensures Valid(contents) && (old(Sound()) ==> Sound())
      ensures used.dirs.Keys != {} || old(Sound()) ==>
        && local == old(local) + (used.Keys() * remote - failing)
        && r == PullOutcome(Wanted(used, remote, old(local)), failing)
      ensures r.TransferFailed? ==> index == map[]
      ensures r.Transferred? ==> index.Keys == if used.Keys() <= old(local) then old(index.Keys) else old(Looked(used))
    {
      var wanted := PlanDownload(used, contents);
      KeepThenAdd(used, remote, local, failing);
      local := local + (wanted - failing);
      var failed := set h | h in wanted && h in failing;
      if failed != {} {
        index := map[];
        return TransferFailed(|failed|);
      }
      r := Transferred(|wanted|);
    }

    method PlanDownload(used: Used, ghost contents: Contents) returns (wanted: set<Hash>)
      requires Valid(contents) && Faithful(used, contents)
      modifies this`index
      ensures Valid(contents) && (old(Sound()) ==> Sound())
      ensures used.dirs.Keys != {} || old(Sound()) ==> wanted == Wanted(used, remote, local)
      ensures index.Keys == if used.Keys() <= local then old(index.Keys) else old(Looked(used))
    {
      var dirStatus, fileStatus := Status(used, true, contents);
      wanted := WithStatus(dirStatus, Deleted) + WithStatus(fileStatus, Deleted);
      if Shortcut(used, true) {
        NothingToDownload(dirStatus);
        NothingToDownload(fileStatus);
        assert Wanted(used, remote, local) == {};
      } else if used.dirs.Keys != {} || old(Sound()) {
        DownloadIsComplete(used, dirStatus, fileStatus, local, remote);
      }
    }

    /** Removes from the remote what is not used; `listing` is what the remote lists. */
    method GcRemote(listing: seq<Hash>, used: set<Hash>, ghost contents: Contents) returns (removed: bool)
      requires Valid(contents) && ToSet(listing) == remote
      requires Named(contents) && Closed(contents, used)
      modifies this`remote, this`index
      ensures Valid(contents) && (old(Sound()) ==> Sound())
      ensures remote == old(remote) * used && (removed <==> remote != old(remote))
      ensures index == if removed then map[] else old(index)
    {
      var left, removals;
      left, removed, removals := Gc(remote, listing, used, contents);
      remote := left;
      if removed {
        index := map[];
      }
    }
  }
}
