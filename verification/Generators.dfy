/** The two top-down generators that a merged walk drives: of the directories on disk, and of the
    tracked outputs, whose trie is filled on the way. */
module Generators {
  import opened Common
  import opened Paths
  import opened OutputTrees
  import opened Trees

  type Pending = seq<(Path, Tree)>

  /** The subdirectories `dirs` of a directory, still to be visited. */
  function Below(p: Path, t: Tree, dirs: seq<string>): (r: Pending)
    requires forall d :: d in dirs ==> d in t.dirs
    ensures |r| == |dirs|
  {
    if dirs == [] then [] else [(p + [dirs[0]], t.dirs[dirs[0]])] + Below(p, t, dirs[1..])
  }

  /** A top-down generator of the directories on disk.  `dirs` is the list it has yielded last; it
      resumes with that list as its consumer has left it. */
  class Walker {
    var root: Path
    var node: Tree
    var dirs: seq<string>
    var rest: Pending

    constructor From(p: Path, t: Tree)
      ensures Valid() && Todo() == [(p, t)]
    {
      root, node, dirs, rest := p, t, [], [(p, t)];
    }

    ghost predicate Valid()
      reads this
    {
      forall d :: d in dirs ==> d in node.dirs
    }

    /** What is still to be yielded, apart from what lies below it. */
    ghost function Todo(): Pending
      requires Valid()
      reads this
    {
      Below(root, node, dirs) + rest
    }

    /** The generator has yielded the directory `t` at `p`, and `after` comes after what is below. */
    ghost predicate Yielded(p: Path, t: Tree, after: Pending)
      reads this
    {
      Valid() && (root, node) == (p, t) && rest == after
    }

    /** The consumer rewrites the list that has been yielded. */
    method Rewrite(kept: seq<string>, ghost p: Path, ghost t: Tree, ghost after: Pending)
      requires Yielded(p, t, after) && forall d :: d in kept ==> d in t.dirs
      modifies this`dirs
      ensures Valid() && Todo() == Below(p, t, kept) + after
    {
      dirs := kept;
    }

    /** The next directory; its subdirectories are listed in no particular order. */
    method Next() returns (ok: bool)
      requires Valid()
      modifies this
      ensures Valid()
      ensures ok <==> old(Todo()) != []
      ensures !ok ==> Todo() == []
      ensures ok ==> Yielded(old(Todo())[0].0, old(Todo())[0].1, old(Todo())[1..])
      ensures ok ==> NoDup(dirs) && ToSet(dirs) == node.dirs.Keys
    {
      var todo := Below(root, node, dirs) + rest;
      if todo == [] {
        return false;
      }
      var names := SetToSeq(todo[0].1.dirs.Keys);
      root, node, dirs, rest := todo[0].0, todo[0].1, names, todo[1..];
      ok := true;
    }
  }

  function PathsBelow(r: Path, dirs: seq<string>): (todo: seq<Path>)
    ensures forall q :: q in todo ==> exists d :: d in dirs && q == r + [d]
  {
    if dirs == [] then [] else [r + [dirs[0]]] + PathsBelow(r, dirs[1..])
  }

  /** Directories of outputs that are still to be visited, with what is below them. */
  ghost function OutputPending(base: Path, outs: Outputs, todo: seq<Path>): (r: Pending)
    ensures |r| == |todo|
  {
    if todo == [] then []
    else [(base + todo[0], OutputTree(outs, todo[0]))] + OutputPending(base, outs, todo[1..])
  }

  lemma {:induction false} PendingConcat(base: Path, outs: Outputs, a: seq<Path>, b: seq<Path>)
    ensures OutputPending(base, outs, a + b) == OutputPending(base, outs, a) + OutputPending(base, outs, b)
  {
    if a == [] {
      assert a + b == b;
    } else {
      assert (a + b)[1..] == a[1..] + b;
      PendingConcat(base, outs, a[1..], b);
    }
  }

  lemma {:induction false} PendingBelow(base: Path, outs: Outputs, r: Path, dirs: seq<string>)
    requires forall d :: d in dirs ==> d in OutputTree(outs, r).dirs
    ensures OutputPending(base, outs, PathsBelow(r, dirs)) == Below(base + r, OutputTree(outs, r), dirs)
  {
    if dirs != [] {
      var q, todo := r + [dirs[0]], PathsBelow(r, dirs[1..]);
      PendingBelow(base, outs, r, dirs[1..]);
      OutputTreeListing(outs, r);
      assert ([q] + todo)[1..] == todo;
      assert base + q == base + r + [dirs[0]];
    }
  }

  /** Every directory output above the pending directories has been filled in. */
  ghost predicate PendingFilled(trie: Trie, outs: Outputs, todo: seq<Path>) {
    forall q :: q in todo ==> FilledAbove(trie, outs, q)
  }

  lemma PendingStays(trie: Trie, more: Trie, outs: Outputs, todo: seq<Path>)
    requires PendingFilled(trie, outs, todo) && trie.Keys <= more.Keys
    ensures PendingFilled(more, outs, todo)
  {
    forall q, b | q in todo && b in outs && b < q
      ensures Filled(more, outs, b)
    {
      FilledStays(trie, more, outs, b);
    }
  }

  lemma ChildrenFilled(trie: Trie, outs: Outputs, r: Path, dirs: seq<string>)
    requires FilledTo(trie, outs, r)
    ensures PendingFilled(trie, outs, PathsBelow(r, dirs))
  {
    forall q | q in PathsBelow(r, dirs)
      ensures FilledAbove(trie, outs, q)
    {
      var d :| d in dirs && q == r + [d];
      ChildFilled(trie, outs, r, d);
    }
  }

  /** What a generator is about to do, on values: the directories still to be visited. */
  lemma TodoFilled(trie: Trie, outs: Outputs, base: Path, at: Path, dirs: seq<string>, rest: seq<Path>)
    requires forall d :: d in dirs ==> d in OutputTree(outs, at).dirs
    requires (dirs != [] ==> FilledTo(trie, outs, at)) && PendingFilled(trie, outs, rest)
    ensures PendingFilled(trie, outs, PathsBelow(at, dirs) + rest)
    ensures OutputPending(base, outs, PathsBelow(at, dirs) + rest) ==
      Below(base + at, OutputTree(outs, at), dirs) + OutputPending(base, outs, rest)
  {
    PendingBelow(base, outs, at, dirs);
    PendingConcat(base, outs, PathsBelow(at, dirs), rest);
    if dirs != [] {
      ChildrenFilled(trie, outs, at, dirs);
    }
  }

  /** The generator of tracked outputs.  `at` is the directory yielded last, relative to `base`. */
  class OutputWalker {
    const base: Path
    ghost const outs: Outputs
    var trie: Trie
    var at: Path
    var dirs: seq<string>
    var files: set<string>
    var rest: seq<Path>

    /** A walk of the outputs of a repository at `base` starts at `top` in it, with the directory
        outputs that hold `top` filled in; without outputs there is nothing to walk. */
    constructor (base: Path, tracked: Outputs, top: Path)
      ensures Valid() && this.base == base && outs == tracked
      ensures Todo() == if tracked == map[] then [] else [(base + top, OutputTree(tracked, top))]
    {
      this.base, outs := base, tracked;
      trie := map p | p in tracked :: Some(tracked[p]);
      at, dirs, files, rest := top, [], {}, if tracked == map[] then [] else [top];
      new;
      FillTo(tracked, top);
    }

    ghost predicate Valid()
      reads this
    {
      && Between(trie, outs)
      && (forall d :: d in dirs ==> d in OutputTree(outs, at).dirs)
      && (dirs != [] ==> FilledTo(trie, outs, at))
      && PendingFilled(trie, outs, rest)
    }

    /** What is still to be yielded, apart from what lies below it. */
    ghost function Todo(): Pending
      requires Valid()
      reads this
    {
      Below(base + at, OutputTree(outs, at), dirs) + OutputPending(base, outs, rest)
    }

    ghost predicate Yielded(p: Path, u: Tree, after: Pending)
      reads this
    {
      && Valid() && FilledTo(trie, outs, at)
      && (base + at, OutputTree(outs, at)) == (p, u) && OutputPending(base, outs, rest) == after
    }

    /** The consumer rewrites the list that has been yielded. */
    method Rewrite(kept: seq<string>, ghost p: Path, ghost u: Tree, ghost after: Pending)
      requires Yielded(p, u, after) && forall d :: d in kept ==> d in u.dirs
      modifies this`dirs
      ensures Valid() && Todo() == Below(p, u, kept) + after
    {
      dirs := kept;
    }

    method FillTo(tracked: Outputs, top: Path)
      requires tracked == outs && Between(trie, outs)
      modifies this`trie
      ensures Between(trie, outs) && FilledTo(trie, outs, top)
    {
      var todo := tracked.Keys;
      while todo != {}
        invariant todo <= outs.Keys && Between(trie, outs)
        invariant forall b :: b in outs && b !in todo && b <= top ==> Filled(trie, outs, b)
        decreases |todo|
      {
        var b :| b in todo;
        if tracked[b].Directory? && b <= top {
          FillOne(b);
        }
        todo := todo - {b};
      }
    }

    method FillOne(b: Path)
      requires Between(trie, outs) && b in outs
      modifies this`trie
      ensures Between(trie, outs) && Filled(trie, outs, b)
      ensures forall a :: a in outs && Filled(old(trie), outs, a) ==> Filled(trie, outs, a)
    {
      AddDirBetween(trie, outs, b);
      forall a | a in outs && Filled(trie, outs, a)
        ensures Filled(AddDir(trie, b), outs, a)
      {
        FilledStays(trie, AddDir(trie, b), outs, a);
      }
      trie := AddDir(trie, b);
    }

    /** The next directory, of the completely filled tree, although only the output that the
        directory may be is filled in now. */
    method Next() returns (ok: bool)
      requires Valid()
      modifies this
      ensures Valid()
      ensures ok <==> old(Todo()) != []
      ensures !ok ==> Todo() == []
      ensures ok ==> Yielded(old(Todo())[0].0, old(Todo())[0].1, old(Todo())[1..])
      ensures ok ==> Todo() == Below(old(Todo())[0].0, old(Todo())[0].1, dirs) + old(Todo())[1..]
      ensures ok ==> NoDup(dirs) && ToSet(dirs) == old(Todo())[0].1.dirs.Keys && files == old(Todo())[0].1.files
    {
      var todo := PathsBelow(at, dirs) + rest;
      TodoFilled(trie, outs, base, at, dirs, rest);
      if todo == [] {
        return false;
      }
      Visit(todo[0]);
      PendingStays(old(trie), trie, outs, todo[1..]);
      rest := todo[1..];
      ok := true;
    }

    /** Lists one directory, after filling in the output that it may be. */
    method Visit(r: Path)
      requires Between(trie, outs) && FilledAbove(trie, outs, r)
      modifies this`trie, this`at, this`dirs, this`files
      ensures Between(trie, outs) && old(trie).Keys <= trie.Keys && FilledTo(trie, outs, r)
      ensures at == r && NoDup(dirs) && ToSet(dirs) == OutputTree(outs, r).dirs.Keys
      ensures files == OutputTree(outs, r).files
    {
      AddDirBetween(trie, outs, r);
      AddDirFills(trie, outs, r);
      trie := AddDir(trie, r);
      LazyListing(trie, outs, r);
      OutputTreeListing(outs, r);
      dirs := SetToSeq(DirNames(trie, r));
      at, files := r, FileNames(trie, r);
    }
  }
}
