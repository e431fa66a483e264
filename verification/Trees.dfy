/** Directory trees, and what walking the union of a tree of files and a tree of tracked outputs
    should list. */
module Trees {
  import opened Common
  import opened Paths
  import opened OutputTrees

  /** A directory.  In the tree of files on disk, `isRepo` marks the root of a nested repository
      and `own` is what that repository tracks, by paths relative to it. */
  datatype Tree = Tree(dirs: map<string, Tree>, files: set<string>, isRepo: bool, own: Outputs)

  ghost function Bound(keys: set<Path>): (n: nat)
    ensures forall key :: key in keys ==> |key| <= n
  {
    if keys == {} then 0
    else
      var key :| key in keys;
      var n := Bound(keys - {key});
      if |key| > n then |key| else n
  }

  /** The directory at `r` of a trie whose keys are no longer than `bound`. */
  function TreeOf(trie: Trie, r: Path, bound: nat): Tree
    decreases if |r| < bound then bound - |r| else 0
  {
    var dirs := map d | d in DirNames(trie, r) && |r| < bound :: TreeOf(trie, r + [d], bound);
    Tree(dirs, FileNames(trie, r), false, map[])
  }

  /** The directory of tracked outputs at `r`, all of them filled in. */
  ghost function OutputTree(outs: Outputs, r: Path): Tree {
    TreeOf(Full(outs), r, Bound(Full(outs).Keys))
  }

  lemma OutputTreeListing(outs: Outputs, r: Path)
    ensures OutputTree(outs, r).dirs.Keys == DirNames(Full(outs), r)
    ensures OutputTree(outs, r).files == FileNames(Full(outs), r)
    ensures forall d :: d in OutputTree(outs, r).dirs ==> OutputTree(outs, r).dirs[d] == OutputTree(outs, r + [d])
  {
  }

  /** What a nested repository tracks, as a tree; None if that is nothing. */
  ghost function OwnTree(t: Tree): Option<Tree> {
    if t.own == map[] then None else Some(OutputTree(t.own, []))
  }

  datatype Listing = Listing(dirs: set<string>, files: set<string>)

  /** How the walk is asked to list: into nested repositories, and with DVC-files. */
  datatype Mode = Mode(subrepos: bool, dvcfiles: bool)

  predicate EndsWith(s: string, suffix: string) {
    |suffix| <= |s| && s[|s| - |suffix|..] == suffix
  }

  predicate IsDvcFilename(name: string) {
    EndsWith(name, ".dvc") || name == "Dvcfile" || name == "dvc.yaml"
  }

  function Filtered(mode: Mode, files: set<string>): set<string> {
    set f | f in files && (mode.dvcfiles || !IsDvcFilename(f))
  }

  /** DVC-files are hidden unless they are asked for. */
  ghost predicate Shown(mode: Mode, name: string) {
    || mode.dvcfiles
    || !(name == "Dvcfile" || name == "dvc.yaml" || (|name| >= 4 && name[|name| - 4..] == ".dvc"))
  }

  lemma FilteredAreShown(mode: Mode, files: set<string>)
    ensures Filtered(mode, files) == set name | name in files && Shown(mode, name)
  {
  }

  /** What is walked at one directory: a directory that only the outputs have, a directory of
      files merged with one of outputs, or a nested repository that is passed over. */
  datatype View = Tracked(outs: Tree) | Merged(tree: Tree, tracked: Option<Tree>) | Skipped

  function Names(view: View): set<string> {
    match view
    case Tracked(u) => u.dirs.Keys
    case Merged(t, u) => t.dirs.Keys + if u.Some? then u.value.dirs.Keys else {}
    case Skipped => {}
  }

  ghost function ListingOf(mode: Mode, view: View): Listing
    requires !view.Skipped?
  {
    match view
    case Tracked(u) => Listing(u.dirs.Keys, u.files)
    case Merged(t, u) =>
      var files := t.files + if u.Some? then u.value.files else {};
      Listing(Names(view), set name | name in files && Shown(mode, name))
  }

  ghost predicate IsSubrepo(mode: Mode, t: Tree, u: Option<Tree>, d: string)
    requires d in t.dirs
  {
    !(u.Some? && d in u.value.dirs) && mode.subrepos && t.dirs[d].isRepo
  }

  /** The view of a subdirectory.  A nested repository is entered with its own outputs; one that
      tracks nothing ends the walk there before anything is listed. */
  ghost function Child(mode: Mode, view: View, d: string): View
    requires d in Names(view)
  {
    match view
    case Tracked(u) => Tracked(u.dirs[d])
    case Merged(t, u) =>
      if d !in t.dirs then Tracked(u.value.dirs[d])
      else if u.Some? && d in u.value.dirs then Merged(t.dirs[d], Some(u.value.dirs[d]))
      else if IsSubrepo(mode, t, u, d) then
        if OwnTree(t.dirs[d]).None? then Skipped else Merged(t.dirs[d], OwnTree(t.dirs[d]))
      else Merged(t.dirs[d], None)
  }

  /** What the walk lists at a path below a directory. */
  ghost function At(mode: Mode, view: View, rel: Path): Option<Listing>
    decreases |rel|
  {
    if view.Skipped? then None
    else if rel == [] then Some(ListingOf(mode, view))
    else if rel[0] in Names(view) then At(mode, Child(mode, view, rel[0]), rel[1..])
    else None
  }

  /** What the walk is at when it lists a path below a directory. */
  ghost function ViewAt(mode: Mode, view: View, rel: Path): View
    decreases |rel|
  {
    if rel == [] || view.Skipped? then view
    else if rel[0] in Names(view) then ViewAt(mode, Child(mode, view, rel[0]), rel[1..])
    else Skipped
  }

  /** The files that are listed at a directory, name by name: where it is on disk, those on disk or
      tracked there, and of the DVC-files only those asked for; elsewhere the tracked ones. */
  ghost predicate ListsFiles(mode: Mode, view: View, files: set<string>) {
    match view
    case Skipped => false
    case Tracked(u) => files == u.files
    case Merged(t, u) =>
      forall name :: name in files <==>
        && (name in t.files || (u.Some? && name in u.value.files))
        && (mode.dvcfiles ||
            !(name == "Dvcfile" || name == "dvc.yaml" || (|name| >= 4 && name[|name| - 4..] == ".dvc")))
  }

  lemma {:induction false} ListsFilesAt(mode: Mode, view: View, rel: Path)
    requires At(mode, view, rel).Some?
    ensures ListsFiles(mode, ViewAt(mode, view, rel), At(mode, view, rel).value.files)
    ensures At(mode, view, rel).value.dirs == Names(ViewAt(mode, view, rel))
    decreases |rel|
  {
    if rel != [] {
      ListsFilesAt(mode, Child(mode, view, rel[0]), rel[1..]);
    }
  }

  /** The directory at a path of a single tree. */
  function Lookup(t: Option<Tree>, rel: Path): Option<Tree>
    decreases |rel|
  {
    if t.None? || rel == [] then t
    else if rel[0] in t.value.dirs then Lookup(Some(t.value.dirs[rel[0]]), rel[1..])
    else None
  }

  /** The union of two directories looked up independently; DVC-files are hidden where the
      directory exists on disk. */
  ghost function Combine(mode: Mode, t: Option<Tree>, u: Option<Tree>): Option<Listing> {
    match (t, u)
    case (None, None) => None
    case (None, Some(b)) => Some(Listing(b.dirs.Keys, b.files))
    case (Some(a), None) => Some(Listing(a.dirs.Keys, set name | name in a.files && Shown(mode, name)))
    case (Some(a), Some(b)) =>
      Some(Listing(a.dirs.Keys + b.dirs.Keys, set name | name in a.files + b.files && Shown(mode, name)))
  }

  lemma {:induction false} TrackedAt(mode: Mode, u: Tree, rel: Path)
    ensures At(mode, Tracked(u), rel) == Combine(mode, None, Lookup(Some(u), rel))
    decreases |rel|
  {
    if rel != [] && rel[0] in u.dirs {
      TrackedAt(mode, u.dirs[rel[0]], rel[1..]);
    }
  }

  /** Without nested repositories the walk lists, at every path, the union of what the two
      trees have there. */
  lemma {:induction false} WalkIsUnion(mode: Mode, t: Tree, u: Option<Tree>, rel: Path)
    requires !mode.subrepos
    ensures At(mode, Merged(t, u), rel) == Combine(mode, Lookup(Some(t), rel), Lookup(u, rel))
    decreases |rel|
  {
    if rel == [] {
      assert t.dirs.Keys + {} == t.dirs.Keys && t.files + {} == t.files;
    } else {
      var d := rel[0];
      if d !in t.dirs {
        if u.Some? && d in u.value.dirs {
          TrackedAt(mode, u.value.dirs[d], rel[1..]);
        }
      } else if u.Some? && d in u.value.dirs {
        WalkIsUnion(mode, t.dirs[d], Some(u.value.dirs[d]), rel[1..]);
      } else {
        WalkIsUnion(mode, t.dirs[d], None, rel[1..]);
      }
    }
  }

  /** The union, name by name. */
  lemma UnionByName(mode: Mode, t: Tree, u: Option<Tree>, rel: Path)
    requires !mode.subrepos
    ensures var (a, b, r) := (Lookup(Some(t), rel), Lookup(u, rel), At(mode, Merged(t, u), rel));
      && (r.Some? <==> a.Some? || b.Some?)
      && (r.Some? ==> forall name :: name in r.value.dirs <==>
           (a.Some? && name in a.value.dirs) || (b.Some? && name in b.value.dirs))
      && (r.Some? && a.None? ==> r.value.files == b.value.files)
      && (a.Some? ==> forall name :: name in r.value.files <==>
           && (name in a.value.files || (b.Some? && name in b.value.files))
           && (mode.dvcfiles ||
               !(name == "Dvcfile" || name == "dvc.yaml" || (|name| >= 4 && name[|name| - 4..] == ".dvc"))))
  {
    WalkIsUnion(mode, t, u, rel);
  }

  /** What should be listed when nested repositories are entered: each with its own outputs, if
      it has any. */
  ghost function UnionAt(mode: Mode, t: Tree, u: Option<Tree>, rel: Path): Option<Listing>
    decreases |rel|
  {
    if rel != [] && rel[0] in t.dirs && IsSubrepo(mode, t, u, rel[0]) then
      UnionAt(mode, t.dirs[rel[0]], OwnTree(t.dirs[rel[0]]), rel[1..])
    else if rel != [] && rel[0] in t.dirs then
      UnionAt(mode, t.dirs[rel[0]], Lookup(u, [rel[0]]), rel[1..])
    else Combine(mode, Lookup(Some(t), rel), Lookup(u, rel))
  }

  /** Every nested repository the walk would enter tracks something. */
  ghost predicate SubreposTracked(mode: Mode, t: Tree, u: Option<Tree>)
    decreases t
  {
    forall d :: d in t.dirs ==>
      if IsSubrepo(mode, t, u, d) then
        OwnTree(t.dirs[d]).Some? && SubreposTracked(mode, t.dirs[d], OwnTree(t.dirs[d]))
      else SubreposTracked(mode, t.dirs[d], Lookup(u, [d]))
  }

  lemma LookupOne(u: Option<Tree>, d: string)
    ensures Lookup(u, [d]) == if u.Some? && d in u.value.dirs then Some(u.value.dirs[d]) else None
  {
    assert [d][1..] == [];
  }

  /** At any path, the walk gives the union if every nested repository on the way is tracked. */
  lemma {:induction false} TrackedWalkIsUnion(mode: Mode, t: Tree, u: Option<Tree>, rel: Path)
    requires SubreposTracked(mode, t, u)
    ensures At(mode, Merged(t, u), rel) == UnionAt(mode, t, u, rel)
    decreases |rel|
  {
    if rel == [] {
      assert t.dirs.Keys + {} == t.dirs.Keys && t.files + {} == t.files;
    } else {
      var d := rel[0];
      LookupOne(u, d);
      if d !in t.dirs {
        if u.Some? && d in u.value.dirs {
          TrackedAt(mode, u.value.dirs[d], rel[1..]);
        }
      } else if IsSubrepo(mode, t, u, d) {
        TrackedWalkIsUnion(mode, t.dirs[d], OwnTree(t.dirs[d]), rel[1..]);
      } else {
        TrackedWalkIsUnion(mode, t.dirs[d], Lookup(u, [d]), rel[1..]);
      }
    }
  }

  /** A nested repository that tracks nothing is missing from the walk. */
  lemma {:induction false} UntrackedSubrepoIsMissing(mode: Mode, t: Tree, u: Option<Tree>) returns (rel: Path)
    requires !SubreposTracked(mode, t, u)
    ensures At(mode, Merged(t, u), rel) == None && UnionAt(mode, t, u, rel).Some?
    decreases t
  {
    var d :| d in t.dirs &&
      !(if IsSubrepo(mode, t, u, d) then
          OwnTree(t.dirs[d]).Some? && SubreposTracked(mode, t.dirs[d], OwnTree(t.dirs[d]))
        else SubreposTracked(mode, t.dirs[d], Lookup(u, [d])));
    LookupOne(u, d);
    var below: Path;
    if IsSubrepo(mode, t, u, d) && OwnTree(t.dirs[d]).None? {
      below := [];
    } else if IsSubrepo(mode, t, u, d) {
      below := UntrackedSubrepoIsMissing(mode, t.dirs[d], OwnTree(t.dirs[d]));
    } else {
      below := UntrackedSubrepoIsMissing(mode, t.dirs[d], Lookup(u, [d]));
    }
    rel := [d] + below;
    assert rel[1..] == below;
  }

  /** The walk lists the union everywhere exactly when every nested repository it would enter
      tracks something. */
  lemma WalkIsUnionIff(mode: Mode, t: Tree, u: Option<Tree>)
    ensures (forall rel :: At(mode, Merged(t, u), rel) == UnionAt(mode, t, u, rel)) <==> SubreposTracked(mode, t, u)
  {
    if SubreposTracked(mode, t, u) {
      forall rel
        ensures At(mode, Merged(t, u), rel) == UnionAt(mode, t, u, rel)
      {
        TrackedWalkIsUnion(mode, t, u, rel);
      }
    } else {
      var rel := UntrackedSubrepoIsMissing(mode, t, u);
    }
  }
}
