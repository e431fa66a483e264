/** The per-directory cache of merged ignore rules, filled lazily and in any query order. */
module IgnoreFilter {
  import opened Common
  import opened Paths
  import opened GitIgnore
  import opened Verdicts
  import opened PatternFormat

  /** What a directory contributes: the lines of its ignore file, and its subdirectories that
      are repositories of their own. */
  datatype Dir = Dir(ignoreFile: Option<seq<string>>, subrepos: seq<string>)

  /** The file tree; paths are relative to the repository root, which is []. */
  type FileTree = map<Path, Dir>

  const IGNORE_FILE := ".dvcignore"
  const DEFAULT_RULES := [".hg/", ".git/", ".dvc/"]

  function DirAt(fs: FileTree, d: Path): Dir {
    if d in fs then fs[d] else Dir(None, [])
  }

  /** The rules of an ignore file: lines that are neither blank nor comments. */
  function FileRules(lines: seq<string>): seq<string> {
    if lines == [] then []
    else
      var line := Strip(lines[0]);
      (if line != "" && line[0] != '#' then [line] else []) + FileRules(lines[1..])
  }

  /** A line that is a rule: something is left of it, and it is not a comment. */
  ghost predicate IsRule(line: string) {
    Strip(line) != "" && Strip(line)[0] != '#'
  }

  /** The positions of the lines that are rules, in increasing order. */
  ghost predicate RuleLines(lines: seq<string>, at: seq<nat>) {
    && (forall a, b :: 0 <= a < b < |at| ==> at[a] < at[b])
    && (forall k :: 0 <= k < |at| ==> at[k] < |lines| && IsRule(lines[at[k]]))
    && (forall i :: 0 <= i < |lines| && IsRule(lines[i]) ==> i in at)
  }

  /** The positions one line further down. */
  ghost function Later(at: seq<nat>): (r: seq<nat>)
    ensures |r| == |at| && forall k :: 0 <= k < |at| ==> r[k] == at[k] + 1
    ensures forall i :: i in at ==> i + 1 in r
  {
    var r := seq(|at|, k requires 0 <= k < |at| => at[k] + 1);
    assert forall k :: 0 <= k < |at| ==> r[k] in r;
    r
  }

  lemma FirstLine(lines: seq<string>, later: seq<nat>)
    requires lines != [] && IsRule(lines[0])
    requires forall a, b :: 0 <= a < b < |later| ==> 0 < later[a] < later[b]
    requires forall k :: 0 <= k < |later| ==> 0 < later[k] < |lines| && IsRule(lines[later[k]])
    requires forall i :: 0 < i < |lines| && IsRule(lines[i]) ==> i in later
    ensures RuleLines(lines, [0] + later)
  {
    var at := [0] + later;
    forall a, b | 0 <= a < b < |at|
      ensures at[a] < at[b]
    {
      assert at[b] == later[b - 1];
      if a > 0 {
        assert at[a] == later[a - 1];
      }
    }
    forall k | 0 <= k < |at|
      ensures at[k] < |lines| && IsRule(lines[at[k]])
    {
      if k > 0 {
        assert at[k] == later[k - 1];
      }
    }
  }

  lemma NoFirstLine(lines: seq<string>, later: seq<nat>)
    requires lines != [] && !IsRule(lines[0])
    requires forall a, b :: 0 <= a < b < |later| ==> 0 < later[a] < later[b]
    requires forall k :: 0 <= k < |later| ==> 0 < later[k] < |lines| && IsRule(lines[later[k]])
    requires forall i :: 0 < i < |lines| && IsRule(lines[i]) ==> i in later
    ensures RuleLines(lines, later)
  {
  }

  lemma LaterLines(first: string, lines: seq<string>, at: seq<nat>)
    requires RuleLines(lines, at)
    ensures var later, all := Later(at), [first] + lines;
      && (forall a, b :: 0 <= a < b < |later| ==> 0 < later[a] < later[b])
      && (forall k :: 0 <= k < |later| ==> 0 < later[k] < |all| && IsRule(all[later[k]]))
      && (forall i :: 0 < i < |all| && IsRule(all[i]) ==> i in later)
  {
    var all := [first] + lines;
    forall i | 0 < i < |all| && IsRule(all[i])
      ensures i in Later(at)
    {
      assert all[i] == lines[i - 1] && i - 1 in at;
    }
  }

  /** Each rule is what is left of the line at its position. */
  ghost predicate AtLines(lines: seq<string>, at: seq<nat>, rules: seq<string>) {
    |at| == |rules| && forall k :: 0 <= k < |at| ==> at[k] < |lines| && rules[k] == Strip(lines[at[k]])
  }

  lemma AtLinesCons(first: string, lines: seq<string>, at: seq<nat>, rules: seq<string>)
    requires AtLines(lines, at, rules)
    ensures AtLines([first] + lines, Later(at), rules)
    ensures AtLines([first] + lines, [0] + Later(at), [Strip(first)] + rules)
  {
  }

  /** The rules are the stripped lines that are rules, all of them, in the order of the file: the
      `k`-th is that of line `at[k]`. */
  lemma {:induction false} FileRulesByLine(lines: seq<string>) returns (at: seq<nat>)
    ensures RuleLines(lines, at) && |at| == |FileRules(lines)|
    ensures forall k :: 0 <= k < |at| ==> FileRules(lines)[k] == Strip(lines[at[k]])
  {
    at := [];
    if lines != [] {
      var first, others := lines[0], lines[1..];
      var rest := FileRulesByLine(others);
      assert lines == [first] + others;
      LaterLines(first, others, rest);
      AtLinesCons(first, others, rest, FileRules(others));
      FileRulesCons(first, others);
      at := Later(rest);
      if IsRule(first) {
        FirstLine(lines, at);
        at := [0] + at;
      } else {
        NoFirstLine(lines, at);
      }
      assert AtLines(lines, at, FileRules(lines));
    }
  }

  lemma FileRulesCons(first: string, lines: seq<string>)
    ensures FileRules([first] + lines) == if IsRule(first) then [Strip(first)] + FileRules(lines) else FileRules(lines)
  {
    assert ([first] + lines)[1..] == lines;
  }

  lemma {:induction false} SubrepoRulesByName(names: seq<string>)
    ensures |SubrepoRules(names)| == |names|
    ensures forall i :: 0 <= i < |names| ==> SubrepoRules(names)[i] == "/" + names[i] + "/"
  {
    if names != [] {
      SubrepoRulesByName(names[..|names| - 1]);
    }
  }

  lemma {:induction false} NoneMatches(glob: Glob, rules: seq<string>, path: Path, isDir: bool)
    requires forall k :: 0 <= k < |rules| ==> !Matches(glob, Parse(rules[k]), path, isDir)
    ensures LastMatch(glob, rules, path, isDir) == None
  {
    if rules != [] {
      NoneMatches(glob, rules[..|rules| - 1], path, isDir);
    }
  }

  /** The `k`-th rule decides when it matches and none after it does. */
  lemma LastDecides(glob: Glob, rules: seq<string>, path: Path, isDir: bool, k: nat)
    requires k < |rules| && Matches(glob, Parse(rules[k]), path, isDir)
    requires forall j :: k < j < |rules| ==> !Matches(glob, Parse(rules[j]), path, isDir)
    ensures LastMatch(glob, rules, path, isDir) == Some(Parse(rules[k]).ignore)
  {
    var a, b := rules[..k + 1], rules[k + 1..];
    NoneMatches(glob, b, path, isDir);
    LastMatchConcat(glob, a, b, path, isDir);
    assert a + b == rules;
  }

  /** Line `i` of an ignore file matches the path, and no later rule of the file does. */
  ghost predicate LastLine(glob: Glob, lines: seq<string>, path: Path, isDir: bool, i: nat) {
    && i < |lines| && IsRule(lines[i]) && Matches(glob, Parse(Strip(lines[i])), path, isDir)
    && forall j :: i < j < |lines| && IsRule(lines[j]) ==> !Matches(glob, Parse(Strip(lines[j])), path, isDir)
  }

  /** Of an ignore file the last line that matches decides, by its sign. */
  lemma LastLineDecides(glob: Glob, lines: seq<string>, path: Path, isDir: bool, i: nat)
    requires LastLine(glob, lines, path, isDir, i)
    ensures LastMatch(glob, FileRules(lines), path, isDir) == Some(Strip(lines[i])[0] != '!')
  {
    var at := FileRulesByLine(lines);
    var k :| 0 <= k < |at| && at[k] == i;
    forall j | k < j < |at|
      ensures !Matches(glob, Parse(FileRules(lines)[j]), path, isDir)
    {
      assert at[j] in at && IsRule(lines[at[j]]);
    }
    LastDecides(glob, FileRules(lines), path, isDir, k);
    StripIsClean(lines[i]);
    StripClean(Strip(lines[i]));
  }

  function SubrepoRules(names: seq<string>): seq<string> {
    if names == [] then [] else SubrepoRules(names[..|names| - 1]) + ["/" + names[|names| - 1] + "/"]
  }

  /** The rules in force in a directory: the parent's, unless they hide the ignore file the
      directory's own, and those that hide nested repositories. */
  function OwnRules(glob: Glob, fs: FileTree, d: Path, outer: seq<string>): seq<string> {
    var file := DirAt(fs, d).ignoreFile;
    (if LastMatch(glob, outer, d + [IGNORE_FILE], false) != Some(true) && file.Some? then FileRules(file.value) else [])
    + SubrepoRules(DirAt(fs, d).subrepos)
  }

  function Extend(glob: Glob, fs: FileTree, d: Path, outer: seq<string>): seq<string> {
    outer + Rebase(OwnRules(glob, fs, d, outer), d)
  }

  /** The rules of a directory, merged from the root down. */
  function RulesAt(glob: Glob, fs: FileTree, d: Path): seq<string>
    decreases |d|
  {
    Extend(glob, fs, d, if d == [] then DEFAULT_RULES else RulesAt(glob, fs, d[..|d| - 1]))
  }

  /** The parent of a directory; the root is its own. */
  function Above(d: Path): Path {
    if d == [] then [] else d[..|d| - 1]
  }

  lemma AbovePrefix(d: Path, n: nat)
    requires 1 <= n <= |d|
    ensures Above(d[..n]) == d[..n - 1] && d[..n] != []
  {
  }

  /** No prefix of `d` of length `n` or more is in the set. */
  ghost predicate NoneFrom(dirs: set<Path>, d: Path, n: nat) {
    forall k :: n <= k <= |d| ==> d[..k] !in dirs
  }

  lemma NoneFromStep(dirs: set<Path>, d: Path, n: nat)
    requires NoneFrom(dirs, d, n) && n <= |d|
    ensures NoneFrom(dirs + {d[..n]}, d, n + 1)
  {
    forall k | n < k <= |d| ensures d[..k] != d[..n] {
      assert |d[..k]| == k;
    }
  }

  lemma ExtendInTwo(outer: seq<string>, own: seq<string>, subs: seq<string>, d: Path)
    ensures outer + Rebase(own, d) + Rebase(subs, d) == outer + Rebase(own + subs, d)
  {
    RebaseConcat(own, subs, d);
  }

  /** The two steps in which a directory's rules are merged. */
  lemma ExtendIs(glob: Glob, fs: FileTree, d: Path, outer: seq<string>, own: seq<string>)
    requires own + SubrepoRules(DirAt(fs, d).subrepos) == OwnRules(glob, fs, d, outer)
    ensures outer + Rebase(own, d) + Rebase(SubrepoRules(DirAt(fs, d).subrepos), d) == Extend(glob, fs, d, outer)
  {
    ExtendInTwo(outer, own, SubrepoRules(DirAt(fs, d).subrepos), d);
  }

  lemma RebaseConcat(a: seq<string>, b: seq<string>, d: Path)
    ensures Rebase(a + b, d) == Rebase(a, d) + Rebase(b, d)
  {
    var l, r := Rebase(a + b, d), Rebase(a, d) + Rebase(b, d);
    forall i | 0 <= i < |a + b|
      ensures l[i] == r[i]
    {
      assert (a + b)[i] == if i < |a| then a[i] else b[i - |a|];
    }
  }

  /** The rules of a directory with those for the first `n` nested repositories. */
  function WithSubrepos(base: seq<string>, names: seq<string>, n: nat, d: Path): seq<string>
    requires n <= |names|
  {
    base + Rebase(SubrepoRules(names[..n]), d)
  }

  lemma WithSubreposNone(base: seq<string>, names: seq<string>, d: Path)
    ensures WithSubrepos(base, names, 0, d) == base
  {
  }

  lemma SubreposStep(base: seq<string>, names: seq<string>, i: nat, d: Path)
    requires i < |names|
    ensures WithSubrepos(base, names, i + 1, d) ==
      WithSubrepos(base, names, i, d) + Rebase(["/" + names[i] + "/"], d)
  {
    assert names[..i + 1][..i] == names[..i];
    RebaseConcat(SubrepoRules(names[..i]), ["/" + names[i] + "/"], d);
  }

  ghost predicate AncestorClosed(dirs: set<Path>) {
    forall d, p :: d in dirs && p <= d ==> p in dirs
  }

  /** Every cached list is what merging from the root gives, and ancestors are cached too. */
  ghost predicate Merged(glob: Glob, fs: FileTree, cached: map<Path, seq<string>>) {
    && [] in cached
    && AncestorClosed(cached.Keys)
    && (forall d :: d in cached ==> cached[d] == RulesAt(glob, fs, d))
  }

  lemma AddClosed(dirs: set<Path>, d: Path)
    requires AncestorClosed(dirs) && d != [] && Above(d) in dirs
    ensures AncestorClosed(dirs + {d})
  {
    forall p | p <= d && p != d ensures p in dirs {
      assert p <= Above(d);
    }
  }

  /** Filling in a directory below a cached one keeps the cache right. */
  lemma FillKeepsMerged(glob: Glob, fs: FileTree, cached: map<Path, seq<string>>, d: Path)
    requires Merged(glob, fs, cached) && d != [] && Above(d) in cached
    ensures Merged(glob, fs, cached[d := Extend(glob, fs, d, cached[Above(d)])])
  {
    var rules := Extend(glob, fs, d, cached[Above(d)]);
    RulesBelow(glob, fs, d);
    AddClosed(cached.Keys, d);
    assert cached[d := rules].Keys == cached.Keys + {d};
  }

  lemma RulesBelow(glob: Glob, fs: FileTree, d: Path)
    requires d != []
    ensures RulesAt(glob, fs, d) == Extend(glob, fs, d, RulesAt(glob, fs, Above(d)))
  {
  }

  class IgnoreCache {
    var cached: map<Path, seq<string>>

    ghost predicate Valid(glob: Glob, fs: FileTree)
      reads this
    {
      Merged(glob, fs, cached)
    }

    constructor (glob: Glob, fs: FileTree)
      ensures Valid(glob, fs)
    {
      cached := map[[] := DEFAULT_RULES];
      new;
      Update(glob, fs, []);
    }

    /** The deepest cached directory at or above `d`. */
    method LongestPrefix(d: Path) returns (p: Path)
      requires [] in cached
      ensures p <= d && p in cached
      ensures forall k :: |p| < k <= |d| ==> d[..k] !in cached
    {
      var n: nat := |d|;
      assert d[..0] == [];
      while d[..n] !in cached
        invariant n <= |d|
        invariant forall k :: n < k <= |d| ==> d[..k] !in cached
        decreases n
      {
        n := n - 1;
      }
      p := d[..n];
    }

    /** Fills in one directory from what is cached above it. */
    method Update(glob: Glob, fs: FileTree, d: Path)
      requires [] in cached
      requires if d == [] then cached[[]] == DEFAULT_RULES else d !in cached && Above(d) in cached
      modifies this
      ensures cached == old(cached)[d := Extend(glob, fs, d, old(cached)[Above(d)])]
    {
      var p := LongestPrefix(d);
      assert p == d[..|p|] && d[..|d|] == d;
      assert d != [] ==> |p| != |d|;
      assert p == Above(d);
      var outer := cached[p];
      var own := ReadRules(glob, fs, d, outer);
      cached := cached[d := outer + Rebase(own, d)];
      UpdateSubrepos(d, DirAt(fs, d).subrepos);
      ExtendIs(glob, fs, d, outer, own);
    }

    /** The rules of a directory's ignore file, unless the file is itself ignored. */
    method ReadRules(glob: Glob, fs: FileTree, d: Path, outer: seq<string>) returns (own: seq<string>)
      ensures own + SubrepoRules(DirAt(fs, d).subrepos) == OwnRules(glob, fs, d, outer)
    {
      var hidden := Ignores(glob, outer, d + [IGNORE_FILE], false);
      var file := DirAt(fs, d).ignoreFile;
      own := if !hidden && file.Some? then FileRules(file.value) else [];
    }

    method UpdateSubrepos(d: Path, names: seq<string>)
      requires d in cached
      modifies this
      ensures cached == old(cached)[d := old(cached)[d] + Rebase(SubrepoRules(names), d)]
    {
      ghost var start, rules := cached, cached[d];
      WithSubreposNone(start[d], names, d);
      for i := 0 to |names|
        invariant d in cached && cached == start[d := rules] && rules == WithSubrepos(start[d], names, i, d)
      {
        SubreposStep(start[d], names, i, d);
        rules := rules + Rebase(["/" + names[i] + "/"], d);
        cached := cached[d := cached[d] + Rebase(["/" + names[i] + "/"], d)];
      }
      assert names[..|names|] == names;
    }

    method Fill(glob: Glob, fs: FileTree, d: Path)
      requires Valid(glob, fs) && d != [] && d !in cached && Above(d) in cached
      modifies this
      ensures Valid(glob, fs) && cached.Keys == old(cached.Keys) + {d}
    {
      FillKeepsMerged(glob, fs, cached, d);
      Update(glob, fs, d);
    }

    /** The prefix of `d` of length `n` is the deepest cached one. */
    ghost predicate FilledTo(glob: Glob, fs: FileTree, d: Path, n: nat)
      reads this
    {
      Valid(glob, fs) && n <= |d| && d[..n] in cached && NoneFrom(cached.Keys, d, n + 1)
    }

    method FillNext(glob: Glob, fs: FileTree, d: Path, n: nat)
      requires n < |d| && FilledTo(glob, fs, d, n)
      modifies this
      ensures FilledTo(glob, fs, d, n + 1)
    {
      AbovePrefix(d, n + 1);
      NoneFromStep(cached.Keys, d, n + 1);
      Fill(glob, fs, d[..n + 1]);
    }

    method FillDown(glob: Glob, fs: FileTree, d: Path, from: nat)
      requires FilledTo(glob, fs, d, from)
      modifies this
      ensures FilledTo(glob, fs, d, |d|)
    {
      for n := from to |d|
        invariant FilledTo(glob, fs, d, n)
      {
        FillNext(glob, fs, d, n);
      }
    }

    /** The rules of a directory; whatever has been asked before, they are the ones merged from
        the root down. */
    method GetRules(glob: Glob, fs: FileTree, d: Path) returns (rules: seq<string>)
      requires Valid(glob, fs)
      modifies this
      ensures Valid(glob, fs) && d in cached
      ensures rules == RulesAt(glob, fs, d)
    {
      if d !in cached {
        var p := LongestPrefix(d);
        assert p == d[..|p|];
        FillDown(glob, fs, d, |p|);
        assert d[..|d|] == d;
      }
      rules := cached[d];
    }

    /** Whether a path below the root is ignored. */
    method IsIgnored(glob: Glob, fs: FileTree, path: Path, isDir: bool) returns (ignored: bool)
      requires Valid(glob, fs) && path != []
      modifies this
      ensures Valid(glob, fs)
      ensures ignored <==> LastMatch(glob, RulesAt(glob, fs, path[..|path| - 1]), path, isDir) == Some(true)
      ensures forall i: nat :: LineDecides(glob, fs, path, isDir, i) ==>
        (ignored <==> Strip(fs[path[..|path| - 1]].ignoreFile.value[i])[0] != '!')
    {
      DecidingLines(glob, fs, path, isDir);
      var rules := GetRules(glob, fs, path[..|path| - 1]);
      ignored := Ignores(glob, rules, path, isDir);
    }
  }

  /** Re-basing takes all rules of the tree over, and directories have plain names. */
  ghost predicate TreeTakenOver(glob: Glob, fs: FileTree, path: Path) {
    forall d :: d in fs ==>
      && (d != [] ==> PlainDirs(d) && Literal(glob, d))
      && (fs[d].ignoreFile.Some? ==> forall r :: r in FileRules(fs[d].ignoreFile.value) ==> TakenOver(glob, r, path))
      && (forall r :: r in SubrepoRules(fs[d].subrepos) ==> TakenOver(glob, r, path))
  }

  /** The last line that matches in the ignore file beside the path, which is not itself ignored
      and stands in a directory whose nested repositories the path is none of. */
  ghost predicate LineDecides(glob: Glob, fs: FileTree, path: Path, isDir: bool, i: nat)
    requires path != []
  {
    var d, inner := path[..|path| - 1], [path[|path| - 1]];
    && TreeTakenOver(glob, fs, path) && d in fs && fs[d].ignoreFile.Some?
    && LastMatch(glob, OuterRules(glob, fs, d), d + [IGNORE_FILE], false) != Some(true)
    && LastLine(glob, fs[d].ignoreFile.value, inner, isDir, i)
    && forall k :: 0 <= k < |fs[d].subrepos| ==> !Matches(glob, Parse("/" + fs[d].subrepos[k] + "/"), inner, isDir)
  }

  function OuterRules(glob: Glob, fs: FileTree, d: Path): seq<string> {
    if d == [] then DEFAULT_RULES else RulesAt(glob, fs, d[..|d| - 1])
  }

  /** A directory's own verdict on what is below it goes before that of the directories above. */
  lemma OwnVerdict(glob: Glob, fs: FileTree, d: Path, path: Path, isDir: bool)
    requires TreeTakenOver(glob, fs, path) && d in fs && d < path
    requires LastMatch(glob, OwnRules(glob, fs, d, OuterRules(glob, fs, d)), path[|d|..], isDir).Some?
    ensures LastMatch(glob, RulesAt(glob, fs, d), path, isDir) ==
      LastMatch(glob, OwnRules(glob, fs, d, OuterRules(glob, fs, d)), path[|d|..], isDir)
  {
    MergedRulesAreNearest(glob, fs, d, path, isDir);
  }

  lemma DecidingLine(glob: Glob, fs: FileTree, path: Path, isDir: bool, i: nat)
    requires path != [] && LineDecides(glob, fs, path, isDir, i)
    ensures LastMatch(glob, RulesAt(glob, fs, path[..|path| - 1]), path, isDir) ==
      Some(Strip(fs[path[..|path| - 1]].ignoreFile.value[i])[0] != '!')
  {
    var d, inner := path[..|path| - 1], [path[|path| - 1]];
    var lines, names := fs[d].ignoreFile.value, fs[d].subrepos;
    assert path[|d|..] == inner;
    LastLineDecides(glob, lines, inner, isDir, i);
    SubrepoRulesByName(names);
    NoneMatches(glob, SubrepoRules(names), inner, isDir);
    LastMatchConcat(glob, FileRules(lines), SubrepoRules(names), inner, isDir);
    OwnVerdict(glob, fs, d, path, isDir);
  }

  lemma DecidingLines(glob: Glob, fs: FileTree, path: Path, isDir: bool)
    requires path != []
    ensures forall i: nat :: LineDecides(glob, fs, path, isDir, i) ==>
      LastMatch(glob, RulesAt(glob, fs, path[..|path| - 1]), path, isDir) ==
        Some(Strip(fs[path[..|path| - 1]].ignoreFile.value[i])[0] != '!')
  {
    forall i: nat | LineDecides(glob, fs, path, isDir, i)
      ensures LastMatch(glob, RulesAt(glob, fs, path[..|path| - 1]), path, isDir) ==
        Some(Strip(fs[path[..|path| - 1]].ignoreFile.value[i])[0] != '!')
    {
      DecidingLine(glob, fs, path, isDir, i);
    }
  }

  /** A nested repository is ignored from the directory it is in, whatever its ignore file says. */
  lemma NestedRepositoryIgnored(glob: Glob, fs: FileTree, d: Path, name: string)
    requires TreeTakenOver(glob, fs, d + [name]) && d in fs && name in fs[d].subrepos
    requires Bare(name) && glob(name, name)
    requires forall n :: n in fs[d].subrepos ==> Bare(n)
    ensures LastMatch(glob, RulesAt(glob, fs, d), d + [name], true) == Some(true)
  {
    var path, names := d + [name], fs[d].subrepos;
    var outer := OuterRules(glob, fs, d);
    var file := OwnRules(glob, fs, d, outer)[..|OwnRules(glob, fs, d, outer)| - |SubrepoRules(names)|];
    assert path[|d|..] == [name];
    NestedIgnored(glob, names, name);
    LastMatchConcat(glob, file, SubrepoRules(names), [name], true);
    assert OwnRules(glob, fs, d, outer) == file + SubrepoRules(names);
    OwnVerdict(glob, fs, d, path, true);
  }

  lemma LastIs(glob: Glob, rules: seq<string>, rule: string, path: Path, isDir: bool)
    ensures LastMatch(glob, rules + [rule], path, isDir) ==
      if Matches(glob, Parse(rule), path, isDir) then Some(Parse(rule).ignore) else LastMatch(glob, rules, path, isDir)
  {
    assert (rules + [rule])[..|rules|] == rules;
  }

  lemma {:induction false} NestedIgnored(glob: Glob, names: seq<string>, name: string)
    requires name in names && glob(name, name) && forall n :: n in names ==> Bare(n)
    ensures LastMatch(glob, SubrepoRules(names), [name], true) == Some(true)
  {
    var n := |names| - 1;
    var rule := "/" + names[n] + "/";
    AnchoredRule(glob, names[n], [name], true);
    LastIs(glob, SubrepoRules(names[..n]), rule, [name], true);
    if names[n] != name {
      NestedIgnored(glob, names[..n], name);
    }
  }

  /** Without ignore files just the directories of the version control tools are ignored, at every
      level, with all that is below them. */
  lemma DefaultsIgnore(glob: Glob, path: Path, isDir: bool)
    ensures LastMatch(glob, DEFAULT_RULES, path, isDir) == Some(true) <==>
      || NamesDirectory(glob, ".hg", path, isDir)
      || NamesDirectory(glob, ".git", path, isDir)
      || NamesDirectory(glob, ".dvc", path, isDir)
  {
    var names := [".hg", ".git", ".dvc"];
    forall k | 0 <= k < 3
      ensures Matches(glob, Parse(DEFAULT_RULES[k]), path, isDir) <==> NamesDirectory(glob, names[k], path, isDir)
      ensures Parse(DEFAULT_RULES[k]).ignore
    {
      NameRule(glob, names[k], path, isDir);
      assert names[k] + "/" == DEFAULT_RULES[k];
    }
    AllIgnore(glob, DEFAULT_RULES, path, isDir);
    OneOfThree(glob, DEFAULT_RULES, path, isDir);
    assert names[0] == ".hg" && names[1] == ".git" && names[2] == ".dvc";
  }

  lemma OneOfThree(glob: Glob, rules: seq<string>, path: Path, isDir: bool)
    requires |rules| == 3
    ensures (exists k :: 0 <= k < |rules| && Matches(glob, Parse(rules[k]), path, isDir)) <==>
      || Matches(glob, Parse(rules[0]), path, isDir)
      || Matches(glob, Parse(rules[1]), path, isDir)
      || Matches(glob, Parse(rules[2]), path, isDir)
  {
  }

  /** Some directory on the path is called so. */
  ghost predicate NamesDirectory(glob: Glob, name: string, path: Path, isDir: bool) {
    exists i :: 0 <= i < |path| && glob(name, path[i]) && (i == |path| - 1 ==> isDir)
  }

  lemma {:induction false} AllIgnore(glob: Glob, rules: seq<string>, path: Path, isDir: bool)
    requires forall k :: 0 <= k < |rules| ==> Parse(rules[k]).ignore
    ensures LastMatch(glob, rules, path, isDir) == Some(true) <==>
      exists k :: 0 <= k < |rules| && Matches(glob, Parse(rules[k]), path, isDir)
  {
    if rules != [] {
      AllIgnore(glob, rules[..|rules| - 1], path, isDir);
    }
  }

  /** The verdict of the nearest directory, from `d` outwards, that has a rule for the path;
      every directory reads the path relative to itself. */
  function NearestVerdict(glob: Glob, fs: FileTree, d: Path, path: Path, isDir: bool): Option<bool>
    requires d <= path
    decreases |d|
  {
    var outer := if d == [] then DEFAULT_RULES else RulesAt(glob, fs, d[..|d| - 1]);
    var own := LastMatch(glob, OwnRules(glob, fs, d, outer), path[|d|..], isDir);
    if own.Some? then own
    else if d == [] then LastMatch(glob, DEFAULT_RULES, path, isDir)
    else NearestVerdict(glob, fs, d[..|d| - 1], path, isDir)
  }

  /** The cached list of a directory decides like the nearest directory with a matching rule. */
  lemma {:induction false} MergedRulesAreNearest(glob: Glob, fs: FileTree, d: Path, path: Path, isDir: bool)
    requires TreeTakenOver(glob, fs, path) && d < path
    ensures LastMatch(glob, RulesAt(glob, fs, d), path, isDir) == NearestVerdict(glob, fs, d, path, isDir)
    decreases |d|
  {
    var outer := if d == [] then DEFAULT_RULES else RulesAt(glob, fs, d[..|d| - 1]);
    var own := OwnRules(glob, fs, d, outer);
    if d == [] {
      LastMatchConcat(glob, outer, own, path, isDir);
      assert path[|d|..] == path;
    } else {
      MergedRulesAreNearest(glob, fs, d[..|d| - 1], path, isDir);
      if d in fs {
        MergedVerdict(glob, outer, own, d, path, isDir);
      } else {
        assert own == [] && Rebase(own, d) == [];
        assert outer + [] == outer;
      }
    }
  }
}
