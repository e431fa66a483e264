/** The trie of tracked outputs: it is filled with the files of a directory output only when a walk
    comes to it. */
module OutputTrees {
  import opened Common
  import opened Paths

  /** An output is a file, or a directory with the files its directory object lists.  When
      nothing is fetched, nothing is listed. */
  datatype Output = SingleFile | Directory(contents: set<Path>)

  /** Outputs are not nested, and directory objects list proper paths. */
  ghost predicate Proper(outs: map<Path, Output>) {
    && (forall a, b :: a in outs && b in outs && a <= b ==> a == b)
    && (forall b :: b in outs && outs[b].Directory? ==> [] !in outs[b].contents)
  }

  /** The outputs of a repository that its graph accepts. */
  type Outputs = outs: map<Path, Output> | Proper(outs) witness map[]

  /** The keys are outputs, and files listed by directory outputs, which hold None. */
  type Trie = map<Path, Option<Output>>

  predicate IsDirectory(value: Option<Output>) {
    value.Some? && value.value.Directory?
  }

  function Listed(outs: Outputs): set<Path> {
    set b, rel | b in outs && outs[b].Directory? && rel in outs[b].contents :: b + rel
  }

  /** The trie with every directory output filled in. */
  function Full(outs: Outputs): Trie {
    map p | p in outs.Keys + Listed(outs) :: if p in outs then Some(outs[p]) else None
  }

  /** The trie holds the outputs, and of the listed files some. */
  ghost predicate Between(trie: Trie, outs: Outputs) {
    && (forall p :: p in outs ==> p in trie)
    && (forall p :: p in trie ==> p in Full(outs) && trie[p] == Full(outs)[p])
  }

  ghost predicate Filled(trie: Trie, outs: Outputs, b: Path)
    requires b in outs
  {
    outs[b].Directory? ==> forall rel :: rel in outs[b].contents ==> b + rel in trie
  }

  /** Every directory output at or above `r` has been filled in. */
  ghost predicate FilledTo(trie: Trie, outs: Outputs, r: Path) {
    forall b :: b in outs && b <= r ==> Filled(trie, outs, b)
  }

  ghost predicate FilledAbove(trie: Trie, outs: Outputs, r: Path) {
    forall b :: b in outs && b < r ==> Filled(trie, outs, b)
  }

  lemma FilledStays(trie: Trie, more: Trie, outs: Outputs, b: Path)
    requires b in outs && Filled(trie, outs, b) && trie.Keys <= more.Keys
    ensures Filled(more, outs, b)
  {
  }

  function Under(base: Path, contents: set<Path>): set<Path> {
    set rel | rel in contents :: base + rel
  }

  function AddDir(trie: Trie, base: Path): Trie {
    if base in trie && IsDirectory(trie[base]) then
      trie + map p | p in Under(base, trie[base].value.contents) :: None
    else trie
  }

  lemma ChildFilled(trie: Trie, outs: Outputs, r: Path, d: string)
    requires FilledTo(trie, outs, r)
    ensures FilledAbove(trie, outs, r + [d])
  {
    forall b | b in outs && b < r + [d]
      ensures Filled(trie, outs, b)
    {
      assert (r + [d])[..|b|] == r[..|b|];
    }
  }

  /** Filling in the output at `r`, when those above it are. */
  lemma AddDirFills(trie: Trie, outs: Outputs, r: Path)
    requires Between(trie, outs) && FilledAbove(trie, outs, r)
    ensures FilledTo(AddDir(trie, r), outs, r)
  {
    AddDirBetween(trie, outs, r);
    forall b | b in outs && b <= r
      ensures Filled(AddDir(trie, r), outs, b)
    {
      if b != r {
        FilledStays(trie, AddDir(trie, r), outs, b);
      }
    }
  }

  /** The names of subdirectories at `r`: more follows below, or it is a directory output. */
  function DirNames(trie: Trie, r: Path): set<string> {
    set key | key in trie && r < key && (|key| > |r| + 1 || IsDirectory(trie[key])) :: key[|r|]
  }

  function FileNames(trie: Trie, r: Path): set<string> {
    set key | key in trie && r < key && |key| == |r| + 1 && !IsDirectory(trie[key]) :: key[|r|]
  }

  lemma ListedIsNotOutput(outs: Outputs, b: Path, rel: Path)
    requires b in outs && outs[b].Directory? && rel in outs[b].contents
    ensures b + rel in Listed(outs) && b + rel !in outs && rel != []
  {
    assert b <= b + rel;
  }

  lemma AddDirBetween(trie: Trie, outs: Outputs, base: Path)
    requires Between(trie, outs)
    ensures Between(AddDir(trie, base), outs) && trie.Keys <= AddDir(trie, base).Keys
    ensures base in outs ==> Filled(AddDir(trie, base), outs, base)
  {
    if base in trie && IsDirectory(trie[base]) {
      assert base in outs;
      forall rel | rel in outs[base].contents
        ensures base + rel in Full(outs) && Full(outs)[base + rel] == None
      {
        ListedIsNotOutput(outs, base, rel);
      }
    }
  }

  /** A directory lists the same whether the outputs below it have been filled in or not. */
  lemma LazyListing(trie: Trie, outs: Outputs, r: Path)
    requires Between(trie, outs)
    requires FilledTo(trie, outs, r)
    ensures DirNames(trie, r) == DirNames(Full(outs), r)
    ensures FileNames(trie, r) == FileNames(Full(outs), r)
  {
    forall key | key in Full(outs) && key !in trie && r < key
      ensures |key| > |r| + 1 && key[|r|] in DirNames(trie, r)
    {
      BelowUnfilled(trie, outs, r, key);
    }
  }

  lemma Comparable(b: Path, r: Path, key: Path)
    requires b <= key && r <= key
    ensures b <= r || (r < b && b[|r|] == key[|r|])
  {
    assert b == key[..|b|] && r == key[..|r|];
    if |b| <= |r| {
      assert key[..|r|][..|b|] == key[..|b|];
    } else {
      assert key[..|b|][..|r|] == key[..|r|];
    }
  }

  lemma BelowUnfilled(trie: Trie, outs: Outputs, r: Path, key: Path)
    requires Between(trie, outs)
    requires FilledTo(trie, outs, r)
    requires key in Full(outs) && key !in trie && r < key
    ensures |key| > |r| + 1 && key[|r|] in DirNames(trie, r)
  {
    var b, rel :| b in outs && outs[b].Directory? && rel in outs[b].contents && key == b + rel;
    ListedIsNotOutput(outs, b, rel);
    Comparable(b, r, key);
    assert b in trie && IsDirectory(trie[b]) && b[|r|] == key[|r|];
  }

  lemma ListedAt(outs: Outputs, key: Path)
    requires key in Listed(outs)
    ensures key !in outs && key in Full(outs) && Full(outs)[key] == None
  {
    var b, rel :| b in outs && outs[b].Directory? && rel in outs[b].contents && key == b + rel;
    ListedIsNotOutput(outs, b, rel);
  }

  lemma NameAt(trie: Trie, r: Path, name: string)
    ensures name in FileNames(trie, r) <==> r + [name] in trie && !IsDirectory(trie[r + [name]])
  {
    var key := r + [name];
    assert r < key && key[|r|] == name;
    if name in FileNames(trie, r) {
      var k :| k in trie && r < k && |k| == |r| + 1 && !IsDirectory(trie[k]) && k[|r|] == name;
      assert k == k[..|r|] + [k[|r|]] && k[..|r|] == r;
    }
  }

  /** A directory lists exactly the tracked files that it is the parent of. */
  lemma FilesAreTracked(outs: Outputs, r: Path, name: string)
    ensures name in FileNames(Full(outs), r) <==>
      (r + [name] in outs && outs[r + [name]].SingleFile?) || r + [name] in Listed(outs)
  {
    NameAt(Full(outs), r, name);
    if r + [name] in Listed(outs) {
      ListedAt(outs, r + [name]);
    }
  }

  /** A directory has as subdirectories exactly the directory outputs in it, and what is a parent
      directory, at any distance, of an output or of a listed file. */
  lemma DirsAreTracked(outs: Outputs, r: Path, name: string)
    ensures name in DirNames(Full(outs), r) <==>
      || (r + [name] in outs && outs[r + [name]].Directory?)
      || (exists p :: (p in outs || p in Listed(outs)) && r + [name] < p)
  {
    var d := r + [name];
    if name in DirNames(Full(outs), r) {
      var key :| key in Full(outs) && r < key && (|key| > |r| + 1 || IsDirectory(Full(outs)[key])) && key[|r|] == name;
      StepTowards(r, key);
      if key == d && key !in outs {
        ListedAt(outs, key);
      }
    }
    if d in outs && outs[d].Directory? {
      assert d in Full(outs) && d[|r|] == name && r < d;
    }
    if p :| (p in outs || p in Listed(outs)) && d < p {
      assert p in Full(outs) && r < p && p[|r|] == d[|r|] == name;
    }
  }

  lemma StepTowards(r: Path, key: Path)
    requires r < key
    ensures r + [key[|r|]] <= key && (|key| > |r| + 1 ==> r + [key[|r|]] < key)
  {
    assert key[..|r|] == r && key[..|r| + 1] == r + [key[|r|]];
  }
}
