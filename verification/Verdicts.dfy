/** Verdicts of re-based and merged rule lists. */
module Verdicts {
  import opened Common
  import opened Paths
  import opened GitIgnore
  import opened Escapes

  /** Re-basing takes the rule over unchanged, as far as the path is concerned: it starts with no
      backslash, or with one that does not matter. */
  ghost predicate TakenOver(glob: Glob, rule: string, path: Path) {
    || Proper(rule)
    || (Escaped(rule) && !LosesEscape(glob, rule) && ReadsWildcards(glob) && PlainDirs(path))
  }

  /** The re-based rule matches below the directory what the rule matched, and keeps its sign. */
  lemma TakenOverMatches(glob: Glob, rule: string, rel: seq<string>, path: Path, isDir: bool)
    requires TakenOver(glob, rule, path) && PlainDirs(rel) && Literal(glob, rel)
    ensures Parse(ChangeRule(rule, Join(rel))).ignore == Parse(rule).ignore
    ensures Matches(glob, Parse(ChangeRule(rule, Join(rel))), path, isDir) <==>
      rel < path && Matches(glob, Parse(rule), path[|rel|..], isDir)
  {
    if Proper(rule) {
      ChangeRuleKeepsMeaning(glob, rule, rel, path, isDir);
    } else {
      EscapedRebase(rule, rel);
      RebasedBelow(glob, rule, rel, path, isDir);
      if rel < path {
        KeptBelow(glob, rule, rel, path[|rel|..], isDir, path);
      }
    }
  }

  lemma {:induction false} RebasedLastMatch(glob: Glob, rules: seq<string>, dir: Path, path: Path, isDir: bool)
    requires dir != [] ==> PlainDirs(dir) && Literal(glob, dir)
    requires forall r :: r in rules ==> TakenOver(glob, r, path)
    ensures LastMatch(glob, Rebase(rules, dir), path, isDir) ==
      if dir == [] then LastMatch(glob, rules, path, isDir)
      else if dir < path then LastMatch(glob, rules, path[|dir|..], isDir)
      else None
  {
    if rules != [] && dir != [] {
      var n := |rules| - 1;
      var r := Rebase(rules, dir);
      assert r[..n] == Rebase(rules[..n], dir) && r[n] == ChangeRule(rules[n], Join(dir));
      RebasedLastMatch(glob, rules[..n], dir, path, isDir);
      TakenOverMatches(glob, rules[n], dir, path, isDir);
    }
  }

  /** A merged list gives, below the directory, the directory's own verdict if it has one and
      otherwise the outer verdict; elsewhere it gives the outer verdict. */
  lemma MergedVerdict(glob: Glob, outer: seq<string>, own: seq<string>, dir: Path, path: Path, isDir: bool)
    requires PlainDirs(dir) && Literal(glob, dir) && forall r :: r in own ==> TakenOver(glob, r, path)
    ensures LastMatch(glob, outer + Rebase(own, dir), path, isDir) ==
      if dir < path && LastMatch(glob, own, path[|dir|..], isDir).Some? then
        LastMatch(glob, own, path[|dir|..], isDir)
      else LastMatch(glob, outer, path, isDir)
  {
    LastMatchConcat(glob, outer, Rebase(own, dir), path, isDir);
    RebasedLastMatch(glob, own, dir, path, isDir);
  }
}
