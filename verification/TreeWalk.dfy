/** The merged walk: two top-down generators kept in lockstep by rewriting the directory lists
    they have yielded. */
module TreeWalk {
  import opened Common
  import opened Paths
  import opened Trees
  import opened Generators

  datatype Entry = Entry(path: Path, dirs: seq<string>, files: set<string>)

  /** The members of `keep`, in the order of `dirs`. */
  function Keep(dirs: seq<string>, keep: set<string>): (r: seq<string>)
    ensures forall d :: d in r <==> d in dirs && d in keep
  {
    if dirs == [] then []
    else (if dirs[0] in keep then [dirs[0]] else []) + Keep(dirs[1..], keep)
  }

  /** The entry is what `view` lists at its path, which is `p` or below. */
  ghost predicate Lists(e: Entry, mode: Mode, p: Path, view: View) {
    p <= e.path && NoDup(e.dirs) && At(mode, view, e.path[|p|..]) == Some(Listing(ToSet(e.dirs), e.files))
  }

  /** Each directory is listed once, and before those below it. */
  ghost predicate TopDown(out: seq<Entry>) {
    forall i, j :: 0 <= i < j < |out| ==> !(out[j].path <= out[i].path)
  }

  /** The entries list, once each, exactly the directories that `view` has at and below `p`. */
  ghost predicate Yields(out: seq<Entry>, mode: Mode, p: Path, view: View) {
    && TopDown(out)
    && (forall e :: e in out ==> Lists(e, mode, p, view))
    && (forall rel :: At(mode, view, rel).Some? ==> exists e :: e in out && e.path == p + rel)
  }

  /** The entries list the directory itself and what lies below the subdirectories `done`. */
  ghost predicate YieldsPart(out: seq<Entry>, mode: Mode, p: Path, view: View, done: seq<string>) {
    && TopDown(out)
    && (forall e :: e in out ==> Lists(e, mode, p, view) && (e.path != p ==> e.path[|p|] in done))
    && (forall rel :: At(mode, view, rel).Some? && (rel == [] || rel[0] in done) ==>
      exists e :: e in out && e.path == p + rel)
  }

  lemma PartStart(e: Entry, mode: Mode, p: Path, view: View)
    requires !view.Skipped? && e.path == p && NoDup(e.dirs)
    requires Listing(ToSet(e.dirs), e.files) == ListingOf(mode, view)
    ensures YieldsPart([e], mode, p, view, [])
  {
    assert p[|p|..] == [];
    forall rel | At(mode, view, rel).Some? && rel == []
      ensures exists x :: x in [e] && x.path == p + rel
    {
      assert e in [e];
    }
  }

  lemma PartStep(out: seq<Entry>, more: seq<Entry>, mode: Mode, p: Path, view: View, done: seq<string>, d: string)
    requires !view.Skipped? && d in Names(view) && d !in done
    requires YieldsPart(out, mode, p, view, done)
    requires Yields(more, mode, p + [d], Child(mode, view, d))
    ensures YieldsPart(out + more, mode, p, view, done + [d])
  {
    var all := out + more;
    forall e | e in more
      ensures p <= e.path && e.path != p && e.path[|p|] == d
      ensures At(mode, view, e.path[|p|..]) == Some(Listing(ToSet(e.dirs), e.files))
    {
      var rel := e.path[|p|..];
      assert e.path[|p + [d]|..] == rel[1..];
      assert rel[0] == d;
    }
    TopDownConcat(out, more, p);
    forall rel | At(mode, view, rel).Some? && (rel == [] || rel[0] in done + [d])
      ensures exists e :: e in all && e.path == p + rel
    {
      if rel != [] && rel[0] == d {
        assert At(mode, Child(mode, view, d), rel[1..]).Some?;
        var e :| e in more && e.path == p + [d] + rel[1..];
        assert p + [d] + rel[1..] == p + rel;
        assert e in all;
      } else {
        var e :| e in out && e.path == p + rel;
        assert e in all;
      }
    }
  }

  lemma TopDownConcat(out: seq<Entry>, more: seq<Entry>, p: Path)
    requires TopDown(out) && TopDown(more)
    requires forall a, b :: a in out && b in more ==>
      p < b.path && (a.path == p || (p < a.path && a.path[|p|] != b.path[|p|]))
    ensures TopDown(out + more)
  {
    var all := out + more;
    forall i, j | 0 <= i < j < |all|
      ensures !(all[j].path <= all[i].path)
    {
      if i < |out| <= j {
        assert all[i] in out && all[j] in more;
        NotBelow(all[i].path, all[j].path, p);
      }
    }
  }

  lemma NotBelow(a: Path, b: Path, p: Path)
    requires p < b && (a == p || (p < a && a[|p|] != b[|p|]))
    ensures !(b <= a)
  {
  }

  lemma PartEnd(out: seq<Entry>, mode: Mode, p: Path, view: View, done: seq<string>)
    requires YieldsPart(out, mode, p, view, done) && Names(view) <= ToSet(done)
    ensures Yields(out, mode, p, view)
  {
    forall rel | At(mode, view, rel).Some?
      ensures exists e :: e in out && e.path == p + rel
    {
      assert rel == [] || rel[0] in ToSet(done);
    }
  }

  lemma BelowNext(p: Path, t: Tree, dirs: seq<string>, i: nat, after: Pending)
    requires i < |dirs| && forall d :: d in dirs ==> d in t.dirs
    ensures Below(p, t, dirs[i..]) + after ==
      [(p + [dirs[i]], t.dirs[dirs[i]])] + (Below(p, t, dirs[i + 1..]) + after)
  {
    BelowHead(p, t, dirs, i);
  }

  lemma BelowHead(p: Path, t: Tree, dirs: seq<string>, i: nat)
    requires i < |dirs| && forall d :: d in dirs ==> d in t.dirs
    ensures Below(p, t, dirs[i..]) == [(p + [dirs[i]], t.dirs[dirs[i]])] + Below(p, t, dirs[i + 1..])
  {
    assert dirs[i..][0] == dirs[i] && dirs[i..][1..] == dirs[i + 1..];
  }

  /** Takes all of one subtree from a generator. */
  method DvcWalk(walk: OutputWalker, mode: Mode, ghost p: Path, ghost u: Tree, ghost after: Pending)
    returns (out: seq<Entry>)
    requires walk.Valid() && walk.Todo() == [(p, u)] + after
    modifies walk
    ensures walk.Valid() && walk.Todo() == after
    ensures Yields(out, mode, p, Tracked(u))
    decreases u, 2
  {
    var ok := walk.Next();
    var first := Entry(walk.base + walk.at, walk.dirs, walk.files);
    PartStart(first, mode, p, Tracked(u));
    out := DvcWalkBelow(walk, mode, p, u, walk.dirs, [first], after);
  }

  /** Goes on with as many subtrees as the generator has yielded subdirectories. */
  method DvcWalkBelow(walk: OutputWalker, mode: Mode, ghost p: Path, ghost u: Tree, dirs: seq<string>,
      first: seq<Entry>,
      ghost after: Pending)
    returns (out: seq<Entry>)
    requires NoDup(dirs) && ToSet(dirs) == u.dirs.Keys && forall d :: d in dirs ==> d in u.dirs
    requires walk.Valid() && walk.Todo() == Below(p, u, dirs) + after
    requires YieldsPart(first, mode, p, Tracked(u), [])
    modifies walk
    ensures walk.Valid() && walk.Todo() == after
    ensures Yields(out, mode, p, Tracked(u))
    decreases u, 1
  {
    out := first;
    assert dirs[0..] == dirs;
    for i := 0 to |dirs|
      invariant walk.Valid() && walk.Todo() == Below(p, u, dirs[i..]) + after
      invariant YieldsPart(out, mode, p, Tracked(u), dirs[..i])
    {
      out := DvcWalkNext(walk, mode, p, u, dirs, i, out, after);
    }
    assert dirs[|dirs|..] == [] && dirs[..|dirs|] == dirs;
    PartEnd(out, mode, p, Tracked(u), dirs);
  }

  method DvcWalkNext(walk: OutputWalker, mode: Mode, ghost p: Path, ghost u: Tree, ghost dirs: seq<string>,
      ghost i: nat,
      first: seq<Entry>, ghost after: Pending)
    returns (out: seq<Entry>)
    requires i < |dirs| && NoDup(dirs) && forall d :: d in dirs ==> d in u.dirs
    requires walk.Valid() && walk.Todo() == Below(p, u, dirs[i..]) + after
    requires YieldsPart(first, mode, p, Tracked(u), dirs[..i])
    modifies walk
    ensures walk.Valid() && walk.Todo() == Below(p, u, dirs[i + 1..]) + after
    ensures YieldsPart(out, mode, p, Tracked(u), dirs[..i + 1])
    decreases u, 0
  {
    ghost var later := Below(p, u, dirs[i + 1..]) + after;
    BelowNext(p, u, dirs, i, after);
    var more := DvcWalk(walk, mode, p + [dirs[i]], u.dirs[dirs[i]], later);
    NextPart(first, more, mode, p, Tracked(u), dirs, i);
    out := first + more;
  }

  lemma NextPart(out: seq<Entry>, more: seq<Entry>, mode: Mode, p: Path, view: View, dirs: seq<string>, i: nat)
    requires !view.Skipped? && i < |dirs| && NoDup(dirs) && dirs[i] in Names(view)
    requires YieldsPart(out, mode, p, view, dirs[..i])
    requires Yields(more, mode, p + [dirs[i]], Child(mode, view, dirs[i]))
    ensures YieldsPart(out + more, mode, p, view, dirs[..i + 1])
  {
    PartStep(out, more, mode, p, view, dirs[..i], dirs[i]);
    assert dirs[..i + 1] == dirs[..i] + [dirs[i]];
  }

  /** The head of what is pending: the subdirectory `d` if the generator descends into it. */
  function Head(p: Path, t: Tree, keep: set<string>, d: string): Pending
    requires keep <= t.dirs.Keys
  {
    if d in keep then [(p + [d], t.dirs[d])] else []
  }

  lemma KeepNext(p: Path, t: Tree, dirs: seq<string>, i: nat, keep: set<string>, after: Pending)
    requires i < |dirs| && keep <= t.dirs.Keys
    ensures Below(p, t, Keep(dirs[i..], keep)) + after ==
      Head(p, t, keep, dirs[i]) + (Below(p, t, Keep(dirs[i + 1..], keep)) + after)
  {
    var s := dirs[i..];
    assert s[0] == dirs[i] && s[1..] == dirs[i + 1..];
    var kept := Keep(s, keep);
    if dirs[i] in keep {
      assert kept == [dirs[i]] + Keep(s[1..], keep);
      assert kept[0] == dirs[i] && kept[1..] == Keep(s[1..], keep);
    } else {
      assert kept == Keep(s[1..], keep);
    }
  }

  /** The directories of `t` that the walk enters through the generator of `t`. */
  ghost function Entered(mode: Mode, t: Tree, u: Option<Tree>): set<string> {
    set d | d in t.dirs && !IsSubrepo(mode, t, u, d)
  }

  function TrackedNames(u: Option<Tree>): set<string> {
    if u.Some? then u.value.dirs.Keys else {}
  }

  /** A list of all names: those both have, then those of one side only. */
  method Ordered(dvc: set<string>, repo: set<string>) returns (dirs: seq<string>)
    ensures NoDup(dirs) && ToSet(dirs) == dvc + repo
  {
    var shared := SetToSeq(dvc * repo);
    var dvcOnly := SetToSeq(dvc - repo);
    var repoOnly := SetToSeq(repo - dvc);
    NoDupConcat(shared, dvcOnly);
    ToSetConcat(shared, dvcOnly);
    NoDupConcat(shared + dvcOnly, repoOnly);
    ToSetConcat(shared + dvcOnly, repoOnly);
    dirs := shared + dvcOnly + repoOnly;
  }

  /** Walks into a nested repository with generators of its own. */
  method SubrepoWalk(p: Path, t: Tree, mode: Mode) returns (out: seq<Entry>)
    ensures Yields(out, mode, p, if OwnTree(t).None? then Skipped else Merged(t, OwnTree(t)))
    decreases t, 5
  {
    var treeWalk := new Walker.From(p, t);
    var dvcWalk := new OutputWalker(p, t.own, []);
    ghost var view := if OwnTree(t).None? then Skipped else Merged(t, OwnTree(t));
    assert p + [] == p;
    assert dvcWalk.Todo() == if OwnTree(t).None? then [] else [(p, OwnTree(t).value)] + [];
    assert treeWalk.Todo() == [(p, t)] + [];
    out := Walk(treeWalk, dvcWalk, mode, p, t, view, [], []);
  }

  /** Merges two generators that stand at the same directory.  Each is advanced by exactly its
      own subtree.  A generator of outputs that has nothing ends the walk. */
  method Walk(repoWalk: Walker, dvcWalk: OutputWalker?, mode: Mode, ghost p: Path, ghost t: Tree, ghost view: View,
      ghost afterRepo: Pending, ghost afterDvc: Pending)
    returns (out: seq<Entry>)
    requires view.Skipped? || (view.Merged? && view.tree == t)
    requires repoWalk.Valid() && repoWalk.Todo() == [(p, t)] + afterRepo
    requires dvcWalk != null ==> dvcWalk.Valid()
    requires view.Skipped? ==> dvcWalk != null && dvcWalk.Todo() == []
    requires view.Merged? ==> (dvcWalk == null <==> view.tracked.None?)
    requires view.Merged? && dvcWalk != null ==> dvcWalk.Todo() == [(p, view.tracked.value)] + afterDvc
    modifies repoWalk, dvcWalk
    ensures repoWalk.Valid() && (dvcWalk != null ==> dvcWalk.Valid())
    ensures view.Merged? ==> repoWalk.Todo() == afterRepo
    ensures view.Merged? && dvcWalk != null ==> dvcWalk.Todo() == afterDvc
    ensures Yields(out, mode, p, view)
    ensures forall e :: e in out ==> ListsFiles(mode, ViewAt(mode, view, e.path[|p|..]), e.files)
    decreases t, 4
  {
    var dvcNames, dvcFiles := {}, {};
    if dvcWalk != null {
      var ok := dvcWalk.Next();
      if !ok {
        return [];
      }
      dvcNames, dvcFiles := ToSet(dvcWalk.dirs), dvcWalk.files;
    }
    out := WalkMerged(repoWalk, dvcWalk, mode, dvcNames, dvcFiles, p, t, view.tracked, afterRepo, afterDvc);
    YieldsFiles(out, mode, p, view);
  }

  lemma YieldsFiles(out: seq<Entry>, mode: Mode, p: Path, view: View)
    requires Yields(out, mode, p, view)
    ensures forall e :: e in out ==> ListsFiles(mode, ViewAt(mode, view, e.path[|p|..]), e.files)
  {
    forall e | e in out
      ensures ListsFiles(mode, ViewAt(mode, view, e.path[|p|..]), e.files)
    {
      assert Lists(e, mode, p, view);
      ListsFilesAt(mode, view, e.path[|p|..]);
    }
  }

  /** Goes on when the generator of outputs, if any, has yielded the directory. */
  method WalkMerged(repoWalk: Walker, dvcWalk: OutputWalker?, mode: Mode, dvcNames: set<string>, dvcFiles: set<string>,
      ghost p: Path, ghost t: Tree, ghost u: Option<Tree>, ghost afterRepo: Pending, ghost afterDvc: Pending)
    returns (out: seq<Entry>)
    requires repoWalk.Valid() && repoWalk.Todo() == [(p, t)] + afterRepo
    requires dvcNames == TrackedNames(u) && dvcFiles == (if u.Some? then u.value.files else {})
    requires dvcWalk == null <==> u.None?
    requires dvcWalk != null ==> dvcWalk.Yielded(p, u.value, afterDvc)
    modifies repoWalk, dvcWalk
    ensures repoWalk.Valid() && repoWalk.Todo() == afterRepo
    ensures dvcWalk != null ==> dvcWalk.Valid() && dvcWalk.Todo() == afterDvc
    ensures Yields(out, mode, p, Merged(t, u))
    decreases t, 3
  {
    var first := MergeListings(repoWalk, mode, dvcNames, dvcFiles, p, t, u, afterRepo);
    var root, tree, dirs := repoWalk.root, repoWalk.node, first.dirs;
    Align(repoWalk, dvcWalk, mode, dvcNames, dirs, p, t, u, afterRepo, afterDvc);
    out := WalkBelow(repoWalk, dvcWalk, mode, root, tree, dvcNames, u, dirs, [first], afterRepo, afterDvc);
  }

  /** The listing of the directory on disk, merged with that of the outputs. */
  method MergeListings(repoWalk: Walker, mode: Mode, dvcNames: set<string>, dvcFiles: set<string>,
      ghost p: Path, ghost t: Tree, ghost u: Option<Tree>, ghost afterRepo: Pending)
    returns (first: Entry)
    requires repoWalk.Valid() && repoWalk.Todo() == [(p, t)] + afterRepo
    requires dvcNames == TrackedNames(u) && dvcFiles == (if u.Some? then u.value.files else {})
    modifies repoWalk
    ensures repoWalk.Yielded(p, t, afterRepo)
    ensures NoDup(first.dirs) && ToSet(first.dirs) == Names(Merged(t, u))
    ensures YieldsPart([first], mode, p, Merged(t, u), [])
  {
    var ok := repoWalk.Next();
    var dirs := Ordered(dvcNames, ToSet(repoWalk.dirs));
    first := Entry(repoWalk.root, dirs, Filtered(mode, repoWalk.node.files + dvcFiles));
    MergedStart(first, mode, p, t, u);
  }

  /** What both generators descend into next comes in the same order for both; nested repositories
      are left to generators of their own. */
  method Align(repoWalk: Walker, dvcWalk: OutputWalker?, mode: Mode, dvcNames: set<string>, dirs: seq<string>,
      ghost p: Path, ghost t: Tree, ghost u: Option<Tree>, ghost afterRepo: Pending, ghost afterDvc: Pending)
    requires repoWalk.Yielded(p, t, afterRepo) && dvcNames == TrackedNames(u) && (dvcWalk == null <==> u.None?)
    requires dvcWalk != null ==> dvcWalk.Yielded(p, u.value, afterDvc)
    modifies repoWalk, dvcWalk
    ensures repoWalk.Valid() && repoWalk.Todo() == Below(p, t, Keep(dirs, Entered(mode, t, u))) + afterRepo
    ensures dvcWalk != null ==> dvcWalk.Valid()
    ensures dvcWalk != null ==> dvcWalk.Todo() == Below(p, u.value, Keep(dirs, dvcNames)) + afterDvc
  {
    var tree := repoWalk.node;
    var subrepos := set d | d in tree.dirs && d !in dvcNames && mode.subrepos && tree.dirs[d].isRepo;
    EnteredIs(mode, t, u, subrepos);
    if dvcWalk != null {
      dvcWalk.Rewrite(Keep(dirs, dvcNames), p, u.value, afterDvc);
    }
    repoWalk.Rewrite(Keep(dirs, tree.dirs.Keys - subrepos), p, t, afterRepo);
  }

  lemma EnteredIs(mode: Mode, t: Tree, u: Option<Tree>, subrepos: set<string>)
    requires subrepos == set d | d in t.dirs && d !in TrackedNames(u) && mode.subrepos && t.dirs[d].isRepo
    ensures t.dirs.Keys - subrepos == Entered(mode, t, u)
  {
  }

  lemma MergedStart(first: Entry, mode: Mode, p: Path, t: Tree, u: Option<Tree>)
    requires first.path == p && NoDup(first.dirs) && ToSet(first.dirs) == t.dirs.Keys + TrackedNames(u)
    requires first.files == Filtered(mode, t.files + if u.Some? then u.value.files else {})
    ensures YieldsPart([first], mode, p, Merged(t, u), [])
  {
    FilteredAreShown(mode, t.files + if u.Some? then u.value.files else {});
    PartStart(first, mode, p, Merged(t, u));
  }

  method WalkBelow(repoWalk: Walker, dvcWalk: OutputWalker?, mode: Mode, p: Path, t: Tree, dvcNames: set<string>,
      ghost u: Option<Tree>, dirs: seq<string>, first: seq<Entry>, ghost afterRepo: Pending, ghost afterDvc: Pending)
    returns (out: seq<Entry>)
    requires dvcNames == TrackedNames(u) && (dvcWalk == null <==> u.None?)
    requires NoDup(dirs) && ToSet(dirs) == Names(Merged(t, u))
    requires repoWalk.Valid() && repoWalk.Todo() == Below(p, t, Keep(dirs, Entered(mode, t, u))) + afterRepo
    requires dvcWalk != null ==> dvcWalk.Valid()
    requires dvcWalk != null ==> dvcWalk.Todo() == Below(p, u.value, Keep(dirs, dvcNames)) + afterDvc
    requires YieldsPart(first, mode, p, Merged(t, u), [])
    modifies repoWalk, dvcWalk
    ensures repoWalk.Valid() && repoWalk.Todo() == afterRepo
    ensures dvcWalk != null ==> dvcWalk.Valid() && dvcWalk.Todo() == afterDvc
    ensures Yields(out, mode, p, Merged(t, u))
    decreases t, 2
  {
    out := first;
    ghost var entered := Entered(mode, t, u);
    assert dirs[0..] == dirs;
    for i := 0 to |dirs|
      invariant repoWalk.Valid() && repoWalk.Todo() == Below(p, t, Keep(dirs[i..], entered)) + afterRepo
      invariant dvcWalk != null ==> dvcWalk.Valid()
      invariant dvcWalk != null ==> dvcWalk.Todo() == Below(p, u.value, Keep(dirs[i..], dvcNames)) + afterDvc
      invariant YieldsPart(out, mode, p, Merged(t, u), dirs[..i])
    {
      out := WalkNext(repoWalk, dvcWalk, mode, p, t, dvcNames, u, dirs, i, out, afterRepo, afterDvc);
    }
    assert dirs[|dirs|..] == [] && dirs[..|dirs|] == dirs;
    PartEnd(out, mode, p, Merged(t, u), dirs);
  }

  method WalkNext(repoWalk: Walker, dvcWalk: OutputWalker?, mode: Mode, p: Path, t: Tree, dvcNames: set<string>,
      ghost u: Option<Tree>, dirs: seq<string>, i: nat, first: seq<Entry>, ghost afterRepo: Pending,
      ghost afterDvc: Pending)
    returns (out: seq<Entry>)
    requires dvcNames == TrackedNames(u) && (dvcWalk == null <==> u.None?)
    requires i < |dirs| && NoDup(dirs) && ToSet(dirs) == Names(Merged(t, u))
    requires repoWalk.Valid() && repoWalk.Todo() == Below(p, t, Keep(dirs[i..], Entered(mode, t, u))) + afterRepo
    requires dvcWalk != null ==> dvcWalk.Valid()
    requires dvcWalk != null ==> dvcWalk.Todo() == Below(p, u.value, Keep(dirs[i..], dvcNames)) + afterDvc
    requires YieldsPart(first, mode, p, Merged(t, u), dirs[..i])
    modifies repoWalk, dvcWalk
    ensures repoWalk.Valid() && repoWalk.Todo() == Below(p, t, Keep(dirs[i + 1..], Entered(mode, t, u))) + afterRepo
    ensures dvcWalk != null ==>
      dvcWalk.Valid() && dvcWalk.Todo() == Below(p, u.value, Keep(dirs[i + 1..], dvcNames)) + afterDvc
    ensures YieldsPart(out, mode, p, Merged(t, u), dirs[..i + 1])
    decreases t, 1
  {
    var d := dirs[i];
    assert d in ToSet(dirs);
    ghost var entered := Entered(mode, t, u);
    ghost var laterRepo := Below(p, t, Keep(dirs[i + 1..], entered)) + afterRepo;
    ghost var laterDvc := if u.Some? then Below(p, u.value, Keep(dirs[i + 1..], dvcNames)) + afterDvc else [];
    KeepNext(p, t, dirs, i, entered, afterRepo);
    if u.Some? {
      KeepNext(p, u.value, dirs, i, dvcNames, afterDvc);
    }
    var more := WalkChild(repoWalk, dvcWalk, mode, p, t, dvcNames, u, d, laterRepo, laterDvc);
    NextPart(first, more, mode, p, Merged(t, u), dirs, i);
    out := first + more;
  }

  /** One subdirectory: a nested repository, a shared directory, or one that a single side has. */
  method WalkChild(repoWalk: Walker, dvcWalk: OutputWalker?, mode: Mode, p: Path, t: Tree, dvcNames: set<string>,
      ghost u: Option<Tree>, d: string, ghost laterRepo: Pending, ghost laterDvc: Pending)
    returns (out: seq<Entry>)
    requires dvcNames == TrackedNames(u) && (dvcWalk == null <==> u.None?) && d in Names(Merged(t, u))
    requires repoWalk.Valid() && repoWalk.Todo() == Head(p, t, Entered(mode, t, u), d) + laterRepo
    requires dvcWalk != null ==> dvcWalk.Valid()
    requires dvcWalk != null ==> dvcWalk.Todo() == Head(p, u.value, dvcNames, d) + laterDvc
    modifies repoWalk, dvcWalk
    ensures repoWalk.Valid() && repoWalk.Todo() == laterRepo
    ensures dvcWalk != null ==> dvcWalk.Valid() && dvcWalk.Todo() == laterDvc
    ensures Yields(out, mode, p + [d], Child(mode, Merged(t, u), d))
    decreases t, 0
  {
    if d !in dvcNames && mode.subrepos && t.dirs[d].isRepo {
      out := SubrepoWalk(p + [d], t.dirs[d], mode);
    } else if d in dvcNames && d in t.dirs {
      ghost var view := Merged(t.dirs[d], Some(u.value.dirs[d]));
      out := Walk(repoWalk, dvcWalk, mode, p + [d], t.dirs[d], view, laterRepo, laterDvc);
    } else if d in dvcNames {
      out := DvcWalk(dvcWalk, mode, p + [d], u.value.dirs[d], laterDvc);
    } else {
      out := Walk(repoWalk, null, mode, p + [d], t.dirs[d], Merged(t.dirs[d], None), laterRepo, []);
    }
  }
}
