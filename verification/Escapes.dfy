/** Backslash escapes in ignore rules: re-basing drops a backslash at the head of a rule, and
    when that changes what the rule matches. */
module Escapes {
  import opened Common
  import opened Paths
  import opened GitIgnore

  /** The name starts with `c`, and `rest` matches what follows. */
  ghost predicate Begins(glob: Glob, c: char, rest: string, name: string) {
    name != "" && name[0] == c && glob(rest, name[1..])
  }

  /** How the head of a pattern is read (gitignore documentation, section "PATTERN FORMAT"): `*`
      matches any characters and `?` any one; a bracket expression matches some character; a
      backslash takes the next character literally, and alone at the end matches nothing; any
      other character matches itself. */
  ghost predicate ReadsAt(glob: Glob, p: string, name: string) {
    if p == "" then glob(p, name) <==> name == ""
    else if p[0] == '*' then glob(p, name) <==> exists k :: 0 <= k <= |name| && glob(p[1..], name[k..])
    else if p[0] == '?' then glob(p, name) <==> name != "" && glob(p[1..], name[1..])
    else if p[0] == '[' then glob(p, name) ==> name != ""
    else if p == "\\" then !glob(p, name)
    else if p[0] == '\\' then glob(p, name) <==> Begins(glob, p[1], p[2..], name)
    else glob(p, name) <==> Begins(glob, p[0], p[1..], name)
  }

  ghost predicate ReadsWildcards(glob: Glob) {
    forall p, name :: ReadsAt(glob, p, name)
  }

  /** A backslash in front of the pattern matters: before a wildcard, before a bracket that is
      read as more than a bracket, and before backslashes that it pairs up differently. */
  ghost predicate Alters(glob: Glob, p: string)
    decreases |p|
  {
    if p == "" then true
    else if p[0] == '[' then exists name :: !HasSlash(name) && glob(p, name) != Begins(glob, '[', p[1..], name)
    else if p[0] == '\\' then |p| == 1 || p[1] != '\\' || Alters(glob, p[2..])
    else p[0] == '*' || p[0] == '?'
  }

  lemma {:induction false} NotAltered(glob: Glob, p: string, name: string)
    requires ReadsWildcards(glob) && !Alters(glob, p) && !HasSlash(name)
    ensures glob("\\" + p, name) == glob(p, name)
    decreases |p|
  {
    var escaped := "\\" + p;
    assert ReadsAt(glob, escaped, name) && ReadsAt(glob, p, name);
    assert escaped[1] == p[0] && escaped[2..] == p[1..];
    if p[0] == '\\' && name != "" {
      assert p[1..] == "\\" + p[2..];
      NotAltered(glob, p[2..], name[1..]);
    }
  }

  /** If a backslash matters, some name tells the two patterns apart. */
  lemma {:induction false} Altered(glob: Glob, p: string, name: string) returns (other: string)
    requires ReadsWildcards(glob) && Alters(glob, p) && !HasSlash(name)
    requires glob("\\" + p, name) || glob(p, name)
    ensures glob("\\" + p, other) != glob(p, other) && !HasSlash(other)
    ensures name != "" ==> other != ""
    decreases |p|
  {
    var escaped := "\\" + p;
    assert ReadsAt(glob, escaped, name) && ReadsAt(glob, p, name);
    if p == "" {
      other := name;
    } else {
      assert escaped[1] == p[0] && escaped[2..] == p[1..];
      if p[0] == '[' {
        other :| !HasSlash(other) && glob(p, other) != Begins(glob, '[', p[1..], other);
        assert ReadsAt(glob, escaped, other) && ReadsAt(glob, p, other);
      } else if p[0] == '\\' {
        other := AlteredPair(glob, p, name);
      } else {
        other := AlteredWildcard(glob, p, name);
      }
    }
  }

  lemma AlteredWildcard(glob: Glob, p: string, name: string) returns (other: string)
    requires ReadsWildcards(glob) && p != "" && (p[0] == '*' || p[0] == '?') && !HasSlash(name)
    requires glob("\\" + p, name) || glob(p, name)
    ensures glob("\\" + p, other) != glob(p, other) && !HasSlash(other) && other != ""
  {
    var escaped := "\\" + p;
    assert ReadsAt(glob, escaped, name) && ReadsAt(glob, p, name);
    assert escaped[1] == p[0] && escaped[2..] == p[1..];
    var rest: string;
    if glob(escaped, name) || p[0] == '?' {
      rest := name[1..];
    } else {
      var k :| 0 <= k <= |name| && glob(p[1..], name[k..]);
      rest := name[k..];
    }
    other := "x" + rest;
    assert ReadsAt(glob, escaped, other) && ReadsAt(glob, p, other);
    assert other[1..] == rest;
  }

  lemma {:induction false} AlteredPair(glob: Glob, p: string, name: string) returns (other: string)
    requires ReadsWildcards(glob) && Alters(glob, p) && p != "" && p[0] == '\\' && !HasSlash(name)
    requires glob("\\" + p, name) || glob(p, name)
    ensures glob("\\" + p, other) != glob(p, other) && !HasSlash(other) && other != ""
    decreases |p|, 0
  {
    var escaped := "\\" + p;
    assert ReadsAt(glob, escaped, name) && ReadsAt(glob, p, name);
    assert escaped[1] == p[0] && escaped[2..] == p[1..];
    other := name;
    if |p| > 1 && p[1] == '\\' {
      assert p[1..] == "\\" + p[2..];
      var rest := Altered(glob, p[2..], name[1..]);
      other := "\\" + rest;
      assert other[1..] == rest;
      assert ReadsAt(glob, escaped, other) && ReadsAt(glob, p, other);
    }
  }

  // ---- paths ----

  /** The path is matched by one of the two rules. */
  ghost predicate Either(glob: Glob, a: seq<string>, b: seq<string>, path: Path) {
    PlainDirs(path) && (MatchSegs(glob, a, path) || MatchSegs(glob, b, path))
  }

  ghost predicate Shortest(glob: Glob, a: seq<string>, b: seq<string>, path: Path) {
    Either(glob, a, b, path) && forall q :: Either(glob, a, b, q) ==> |q| >= |path|
  }

  lemma {:induction false} ShortestExists(glob: Glob, a: seq<string>, b: seq<string>, path: Path)
    returns (m: Path)
    requires Either(glob, a, b, path)
    ensures Shortest(glob, a, b, m)
    decreases |path|
  {
    m := path;
    if q :| Either(glob, a, b, q) && |q| < |path| {
      m := ShortestExists(glob, a, b, q);
    }
  }

  /** Components that differ by a backslash at the head, in front of the same others. */
  lemma SameAfterDrop(glob: Glob, p: string, others: seq<string>, path: Path)
    requires ReadsWildcards(glob) && !Alters(glob, p) && forall d :: d in path ==> !HasSlash(d)
    ensures MatchSegs(glob, ["\\" + p] + others, path) == MatchSegs(glob, [p] + others, path)
  {
    if path != [] {
      NotAltered(glob, p, path[0]);
    }
    assert p != "**" && "\\" + p != "**" by { assert ("\\" + p)[0] == '\\'; }
    assert (["\\" + p] + others)[1..] == others && ([p] + others)[1..] == others;
  }

  lemma StarStarHead(glob: Glob, segs: seq<string>, path: Path, k: nat)
    requires k <= |path| && MatchSegs(glob, segs, path[k..]) && segs != []
    ensures MatchSegs(glob, ["**"] + segs, path)
  {
    assert (["**"] + segs)[1..] == segs;
  }

  lemma HeadMatches(glob: Glob, p: string, others: seq<string>, path: Path)
    requires p != "**" && path != []
    ensures MatchSegs(glob, [p] + others, path) <==> glob(p, path[0]) && MatchSegs(glob, others, path[1..])
  {
    assert ([p] + others)[1..] == others;
  }

  lemma DoubleStarMatches(glob: Glob, others: seq<string>, path: Path)
    requires path != [] && MatchSegs(glob, others, path[1..])
    ensures MatchSegs(glob, ["**"] + others, path)
  {
    if others != [] {
      StarStarHead(glob, others, path, 1);
    }
  }

  /** Among the paths of the least length that either pattern matches, one is matched by only
      one of them. */
  lemma OneSided(glob: Glob, p: string, others: seq<string>, m: Path) returns (q: Path)
    requires ReadsWildcards(glob) && Alters(glob, p) && Either(glob, ["\\" + p] + others, [p] + others, m)
    ensures |q| == |m| && PlainDirs(q)
    ensures MatchSegs(glob, ["\\" + p] + others, q) != MatchSegs(glob, [p] + others, q)
  {
    assert ("\\" + p)[0] == '\\' && "\\" + p != "**";
    q := m;
    if MatchSegs(glob, ["\\" + p] + others, m) && MatchSegs(glob, [p] + others, m) {
      HeadMatches(glob, "\\" + p, others, m);
      assert m[0] in m;
      var name := Altered(glob, p, m[0]);
      if p == "**" {
        name := "x";
        assert ReadsAt(glob, "\\" + p, name);
      }
      q := [name] + m[1..];
      assert q[0] == name && q[1..] == m[1..];
      assert forall d :: d in q ==> d == name || d in m;
      HeadMatches(glob, "\\" + p, others, q);
      if p == "**" {
        DoubleStarMatches(glob, others, q);
      } else {
        HeadMatches(glob, p, others, q);
      }
    }
  }

  function Starred(all: bool, segs: seq<string>): seq<string> {
    if all then ["**"] + segs else segs
  }

  lemma SubPath(path: Path, k: nat, n: nat)
    requires PlainDirs(path) && k < n <= |path|
    ensures PlainDirs(path[..n][k..])
  {
    assert forall d :: d in path[..n][k..] ==> d in path;
  }

  /** What a rule's components match, some part of the path is matched by without a `**`. */
  lemma PartMatched(glob: Glob, all: bool, segs: seq<string>, path: Path, n: nat) returns (k: nat)
    requires segs != [] && n <= |path| && MatchSegs(glob, Starred(all, segs), path[..n])
    ensures k < n && MatchSegs(glob, segs, path[..n][k..]) && (!all ==> k == 0)
  {
    var named := path[..n];
    assert named[0..] == named;
    k := 0;
    if all {
      assert (["**"] + segs)[1..] == segs;
      k :| 0 <= k <= n && MatchSegs(glob, segs, named[k..]);
    }
    EmptyPathUnmatched(glob, segs);
    assert named[n..] == [];
  }

  /** A path of the least length is matched by a rule exactly when its components match all of
      it. */
  lemma OnlyWhole(glob: Glob, all: bool, r: Rule, a: seq<string>, b: seq<string>, m: Path, q: Path)
    requires Shortest(glob, a, b, m) || Shortest(glob, b, a, m)
    requires a != [] && r.segs == Starred(all, a) && PlainDirs(q) && |q| == |m|
    ensures Matches(glob, r, q, true) <==> MatchSegs(glob, a, q)
  {
    assert q[..|q|] == q && q[0..] == q;
    if Matches(glob, r, q, true) {
      var n :| 0 <= n <= |q| && MatchesAt(glob, r, q, true, n);
      var k := PartMatched(glob, all, a, q, n);
      SubPath(q, k, n);
      assert Either(glob, a, b, q[..n][k..]) && Either(glob, b, a, q[..n][k..]);
      assert q[..n][k..] == q;
    }
    if MatchSegs(glob, a, q) {
      if all {
        StarStarHead(glob, a, q, 0);
      }
      assert MatchesAt(glob, r, q, true, |q|);
    }
  }

  // ---- rules ----

  /** Whether a rule applies at all levels. */
  predicate AllLevels(rule: string) {
    MatchAllLevel(NotIgnore(Strip(rule)).1).0
  }

  /** The core starts with a backslash and is more than that. */
  predicate Escaped(rule: string) {
    Shaped(rule) && StartsWith(Core(rule), "\\") && Core(rule) != "\\"
  }

  /** The first component of a rule whose core starts with a backslash, without it. */
  function Head(rule: string): string
    requires StartsWith(Core(rule), "\\")
  {
    SplitFirst(Core(rule));
    Split(Core(rule))[0][1..]
  }

  function Others(rule: string): seq<string> {
    Trailing(Split(Core(rule))).0[1..]
  }

  /** The rule as seen from its own directory once re-based: without the backslash. */
  function Dropped(rule: string): Rule
    requires StartsWith(Core(rule), "\\")
  {
    Parse(rule).(segs := Starred(AllLevels(rule), [Head(rule)] + Others(rule)))
  }

  lemma CoreSplit(core: string)
    requires StartsWith(core, "\\") && core != "\\"
    ensures var parts := Split(core);
      && parts[0] != "" && parts[0][0] == '\\'
      && Split(core[1..]) == [parts[0][1..]] + parts[1..] && Split(core[1..]) != [""]
  {
    SplitFirst(core);
    assert core[0] == '\\';
    assert Split(core)[0] == [core[0]] + Split(core[1..])[0];
  }

  lemma StarredSplit(all: bool, s: string)
    ensures Split((if all then "**/" else "") + s) == Starred(all, Split(s))
  {
    if all {
      SplitNoSlash("**");
      SplitAtSlash("**", s);
      assert "**/" + s == "**" + "/" + s;
    } else {
      assert "" + s == s;
    }
  }

  lemma StarredTrailing(all: bool, parts: seq<string>)
    requires parts != [] && parts != [""]
    ensures Trailing(Starred(all, parts)) == (Starred(all, Trailing(parts).0), Trailing(parts).1)
  {
    if all {
      TrailingAfter(["**"], parts);
    }
  }

  /** What is dropped at the end of the parts does not depend on the first of them. */
  lemma TrailingHead(x: string, y: string, rest: seq<string>)
    ensures Trailing([x] + rest) == ([x] + Trailing([y] + rest).0[1..], Trailing([y] + rest).1)
  {
    var a, b, n := [x] + rest, [y] + rest, |rest|;
    if n > 0 {
      assert a[n] == b[n] == rest[n - 1];
      assert a[..n] == [x] + rest[..n - 1] && b[..n] == [y] + rest[..n - 1];
    }
  }

  lemma HeadAndOthers(core: string)
    requires StartsWith(core, "\\") && core != "\\"
    ensures var parts := Split(core);
      && Trailing(parts) == ([parts[0]] + Trailing(parts).0[1..], Trailing(parts).1)
      && Trailing(Split(core[1..])) == ([parts[0][1..]] + Trailing(parts).0[1..], Trailing(parts).1)
  {
    CoreSplit(core);
    var parts := Split(core);
    assert parts == [parts[0]] + parts[1..];
    TrailingHead(parts[0], parts[0], parts[1..]);
    TrailingHead(parts[0][1..], parts[0], parts[1..]);
  }

  lemma EscapedParse(rule: string)
    requires Escaped(rule)
    ensures Parse(rule).segs == Starred(AllLevels(rule), ["\\" + Head(rule)] + Others(rule))
    ensures Parse(rule).dirOnly == Trailing(Split(Core(rule))).1
  {
    var body := NotIgnore(Strip(rule)).1;
    var core := Core(rule);
    CoreSplit(core);
    HeadAndOthers(core);
    TailSplit(body);
    assert body != "**";
    StarredSplit(AllLevels(rule), core);
    StarredTrailing(AllLevels(rule), Split(core));
    assert Split(core)[0] == "\\" + Head(rule);
  }

  /** Re-basing a rule whose core starts with a backslash: the directory in front, the backslash
      gone. */
  lemma EscapedRebase(rule: string, rel: seq<string>)
    requires Escaped(rule) && PlainDirs(rel)
    ensures Parse(ChangeRule(rule, Join(rel))) == Dropped(rule).(segs := rel + Dropped(rule).segs)
  {
    var (negated, body) := NotIgnore(Strip(rule));
    var all, core := AllLevels(rule), Core(rule);
    var tail := (if all then "**/" else "") + core[1..];
    EscapedText(rule, Join(rel));
    StripIsClean(rule);
    assert core[|core| - 1] == body[|body| - 1] && tail[|tail| - 1] == core[|core| - 1];
    SignedText(negated, Join(rel), tail);
    RebasedSplit(rel, tail);
    EscapedTail(rule);
    TrailingAfter(rel, Split(tail));
    EscapedParse(rule);
  }

  lemma EscapedText(rule: string, rel: string)
    requires Escaped(rule)
    ensures var tail := (if AllLevels(rule) then "**/" else "") + Core(rule)[1..];
      ChangeRule(rule, rel) == (if NotIgnore(Strip(rule)).0 then "!/" else "/") + rel + ("/" + tail)
  {
    var core := Core(rule);
    var anchored := (if AllLevels(rule) then "/**/" else "/") + RemoveBackslash(core);
    assert core[0] == '\\';
    assert anchored == "/" + ((if AllLevels(rule) then "**/" else "") + core[1..]);
  }

  lemma EscapedTail(rule: string)
    requires Escaped(rule)
    ensures var parts := Split((if AllLevels(rule) then "**/" else "") + Core(rule)[1..]);
      parts != [""] && Trailing(parts) ==
        (Starred(AllLevels(rule), [Head(rule)] + Others(rule)), Trailing(Split(Core(rule))).1)
  {
    var core := Core(rule);
    CoreSplit(core);
    HeadAndOthers(core);
    StarredSplit(AllLevels(rule), core[1..]);
    StarredTrailing(AllLevels(rule), Split(core[1..]));
  }

  /** The backslash that re-basing drops matters. */
  ghost predicate LosesEscape(glob: Glob, rule: string) {
    StartsWith(Core(rule), "\\") && Alters(glob, Head(rule))
  }

  /** For every path, the re-based rule matches what the rule matched below the directory. */
  ghost predicate KeepsMeaning(glob: Glob, rule: string, rel: seq<string>)
    requires rel != []
  {
    forall path, isDir :: PlainDirs(path) ==>
      (Matches(glob, Parse(ChangeRule(rule, Join(rel))), path, isDir) <==>
        rel < path && Matches(glob, Parse(rule), path[|rel|..], isDir))
  }

  /** The rule, or what it is re-based to, matches something at all below the directory. */
  ghost predicate CanMatch(glob: Glob, rule: string, rel: seq<string>)
    requires rel != []
  {
    exists path, isDir :: PlainDirs(path) &&
      (Matches(glob, Parse(rule), path, isDir) || Matches(glob, Parse(ChangeRule(rule, Join(rel))), rel + path, isDir))
  }

  /** Some name is matched by the component, or, by `**`, any. */
  ghost predicate Matchable(glob: Glob, p: string) {
    p == "**" || exists name :: name != "" && !HasSlash(name) && glob(p, name)
  }

  /** Components match some path exactly when each of them matches some name. */
  lemma {:induction false} MatchedParts(glob: Glob, segs: seq<string>, path: Path)
    requires MatchSegs(glob, segs, path) && forall d :: d in path ==> d != "" && !HasSlash(d)
    ensures forall s :: s in segs ==> Matchable(glob, s)
    decreases |segs|
  {
    if segs != [] {
      assert segs == [segs[0]] + segs[1..];
      if segs[0] != "**" {
        assert forall d :: d in path[1..] ==> d in path;
        MatchedParts(glob, segs[1..], path[1..]);
        assert path[0] in path;
      } else if |segs| > 1 {
        var k :| 0 <= k <= |path| && MatchSegs(glob, segs[1..], path[k..]);
        assert forall d :: d in path[k..] ==> d in path;
        MatchedParts(glob, segs[1..], path[k..]);
      }
    }
  }

  lemma {:induction false} PartsMatched(glob: Glob, segs: seq<string>) returns (path: Path)
    requires segs != [] && forall s :: s in segs ==> Matchable(glob, s)
    ensures PlainDirs(path) && MatchSegs(glob, segs, path)
    decreases |segs|
  {
    assert Matchable(glob, segs[0]);
    var name := "x";
    if segs[0] != "**" {
      name :| name != "" && !HasSlash(name) && glob(segs[0], name);
    }
    path := [name];
    if |segs| > 1 {
      var rest := PartsMatched(glob, segs[1..]);
      path := [name] + rest;
      assert path[1..] == rest;
    } else {
      assert path[1..] == [];
    }
    assert segs == [segs[0]] + segs[1..];
    if segs[0] == "**" && |segs| > 1 {
      StarStarHead(glob, segs[1..], path, 1);
    }
  }

  /** Each component of a rule that starts with a backslash matches some name, the first one with
      the backslash or without it. */
  ghost predicate Satisfiable(glob: Glob, rule: string)
    requires StartsWith(Core(rule), "\\")
  {
    || Core(rule) == "\\"
    || ((Matchable(glob, "\\" + Head(rule)) || Matchable(glob, Head(rule)))
        && forall s :: s in Others(rule) ==> Matchable(glob, s))
  }

  lemma RebasedBelow(glob: Glob, rule: string, rel: seq<string>, path: Path, isDir: bool)
    requires Escaped(rule) && PlainDirs(rel) && Literal(glob, rel)
    ensures Matches(glob, Parse(ChangeRule(rule, Join(rel))), path, isDir) <==>
      rel < path && Matches(glob, Dropped(rule), path[|rel|..], isDir)
  {
    EscapedRebase(rule, rel);
    BelowMatches(glob, Dropped(rule), rel, path, isDir);
  }

  lemma DroppedSame(glob: Glob, rule: string, path: Path, isDir: bool)
    requires Escaped(rule) && ReadsWildcards(glob) && !Alters(glob, Head(rule)) && PlainDirs(path)
    ensures Matches(glob, Dropped(rule), path, isDir) == Matches(glob, Parse(rule), path, isDir)
  {
    EscapedParse(rule);
    forall n | 0 <= n <= |path|
      ensures MatchSegs(glob, Dropped(rule).segs, path[..n]) == MatchSegs(glob, Parse(rule).segs, path[..n])
    {
      assert forall d :: d in path[..n] ==> d in path;
      StarredSame(glob, AllLevels(rule), Head(rule), Others(rule), path[..n]);
    }
    SameComponents(glob, Dropped(rule), Parse(rule), path, isDir);
  }

  lemma StarredSame(glob: Glob, all: bool, p: string, others: seq<string>, path: Path)
    requires ReadsWildcards(glob) && !Alters(glob, p) && forall d :: d in path ==> !HasSlash(d)
    ensures MatchSegs(glob, Starred(all, ["\\" + p] + others), path) ==
      MatchSegs(glob, Starred(all, [p] + others), path)
  {
    var a, b := ["\\" + p] + others, [p] + others;
    assert (["**"] + a)[1..] == a && (["**"] + b)[1..] == b;
    forall k | 0 <= k <= |path|
      ensures MatchSegs(glob, a, path[k..]) == MatchSegs(glob, b, path[k..])
    {
      assert forall d :: d in path[k..] ==> d in path;
      SameAfterDrop(glob, p, others, path[k..]);
    }
    assert path[0..] == path;
  }

  /** A path that only one of the rule and its re-based form matches. */
  lemma LostPath(glob: Glob, rule: string, rel: seq<string>) returns (q: Path)
    requires Escaped(rule) && PlainDirs(rel) && Literal(glob, rel) && ReadsWildcards(glob)
    requires LosesEscape(glob, rule) && CanMatch(glob, rule, rel)
    ensures PlainDirs(q)
    ensures Matches(glob, Parse(rule), q, true) != Matches(glob, Parse(ChangeRule(rule, Join(rel))), rel + q, true)
  {
    var all, p, others := AllLevels(rule), Head(rule), Others(rule);
    var a, b := ["\\" + p] + others, [p] + others;
    EscapedParse(rule);
    var start := SomeMatch(glob, rule, rel);
    var m := ShortestExists(glob, a, b, start);
    q := OneSided(glob, p, others, m);
    OnlyWhole(glob, all, Parse(rule), a, b, m, q);
    ShortestSwap(glob, a, b, m);
    OnlyWhole(glob, all, Dropped(rule), b, a, m, q);
    RebasedBelow(glob, rule, rel, rel + q, true);
    assert (rel + q)[|rel|..] == q;
  }

  lemma ShortestSwap(glob: Glob, a: seq<string>, b: seq<string>, m: Path)
    requires Shortest(glob, a, b, m)
    ensures Shortest(glob, b, a, m)
  {
    forall q | Either(glob, b, a, q)
      ensures |q| >= |m|
    {
      assert Either(glob, a, b, q);
    }
  }

  lemma SomeMatch(glob: Glob, rule: string, rel: seq<string>) returns (start: Path)
    requires Escaped(rule) && PlainDirs(rel) && Literal(glob, rel) && CanMatch(glob, rule, rel)
    ensures Either(glob, ["\\" + Head(rule)] + Others(rule), [Head(rule)] + Others(rule), start)
  {
    var path, isDir :| PlainDirs(path) &&
      (Matches(glob, Parse(rule), path, isDir) || Matches(glob, Parse(ChangeRule(rule, Join(rel))), rel + path, isDir));
    EscapedParse(rule);
    RebasedBelow(glob, rule, rel, rel + path, isDir);
    assert (rel + path)[|rel|..] == path;
    if Matches(glob, Parse(rule), path, isDir) {
      start := SomePart(glob, AllLevels(rule), Parse(rule), ["\\" + Head(rule)] + Others(rule), path, isDir);
    } else {
      start := SomePart(glob, AllLevels(rule), Dropped(rule), [Head(rule)] + Others(rule), path, isDir);
    }
  }

  lemma MatchedIsSatisfiable(glob: Glob, rule: string, rel: seq<string>)
    requires Escaped(rule) && PlainDirs(rel) && Literal(glob, rel) && CanMatch(glob, rule, rel)
    ensures Satisfiable(glob, rule)
  {
    var path := SomeMatch(glob, rule, rel);
    var h, others := Head(rule), Others(rule);
    if MatchSegs(glob, ["\\" + h] + others, path) {
      MatchedParts(glob, ["\\" + h] + others, path);
      PartsOf(glob, "\\" + h, others);
    } else {
      MatchedParts(glob, [h] + others, path);
      PartsOf(glob, h, others);
    }
  }

  lemma PartsOf(glob: Glob, first: string, others: seq<string>)
    ensures (forall s :: s in [first] + others ==> Matchable(glob, s)) <==>
      Matchable(glob, first) && forall s :: s in others ==> Matchable(glob, s)
  {
    assert first in [first] + others;
    assert forall s :: s in others ==> s in [first] + others;
  }

  lemma SatisfiableIsMatched(glob: Glob, rule: string, rel: seq<string>)
    requires Escaped(rule) && PlainDirs(rel) && Literal(glob, rel) && Satisfiable(glob, rule)
    ensures CanMatch(glob, rule, rel)
  {
    var all, h, others := AllLevels(rule), Head(rule), Others(rule);
    EscapedParse(rule);
    if Matchable(glob, "\\" + h) {
      PartsOf(glob, "\\" + h, others);
      var path := PartsMatched(glob, ["\\" + h] + others);
      WholeMatched(glob, all, Parse(rule), ["\\" + h] + others, path);
    } else {
      PartsOf(glob, h, others);
      var path := PartsMatched(glob, [h] + others);
      WholeMatched(glob, all, Dropped(rule), [h] + others, path);
      RebasedBelow(glob, rule, rel, rel + path, true);
      assert (rel + path)[|rel|..] == path;
    }
  }

  lemma WholeMatched(glob: Glob, all: bool, r: Rule, segs: seq<string>, path: Path)
    requires segs != [] && r.segs == Starred(all, segs) && MatchSegs(glob, segs, path)
    ensures Matches(glob, r, path, true)
  {
    assert path[..|path|] == path && path[0..] == path;
    if all {
      StarStarHead(glob, segs, path, 0);
    }
    assert MatchesAt(glob, r, path, true, |path|);
  }

  /** What is below the directory can be matched exactly when each component can. */
  lemma CanMatchIff(glob: Glob, rule: string, rel: seq<string>)
    requires Escaped(rule) && PlainDirs(rel) && Literal(glob, rel)
    ensures CanMatch(glob, rule, rel) <==> Satisfiable(glob, rule)
  {
    if CanMatch(glob, rule, rel) {
      MatchedIsSatisfiable(glob, rule, rel);
    }
    if Satisfiable(glob, rule) {
      SatisfiableIsMatched(glob, rule, rel);
    }
  }

  lemma SomePart(glob: Glob, all: bool, r: Rule, segs: seq<string>, path: Path, isDir: bool) returns (part: Path)
    requires segs != [] && r.segs == Starred(all, segs) && PlainDirs(path) && Matches(glob, r, path, isDir)
    ensures PlainDirs(part) && MatchSegs(glob, segs, part) && part[0] in path
  {
    var n :| 0 <= n <= |path| && MatchesAt(glob, r, path, isDir, n);
    var k := PartMatched(glob, all, segs, path, n);
    SubPath(path, k, n);
    part := path[..n][k..];
  }

  lemma OneName(glob: Glob, p: string, name: string)
    requires p != "**"
    ensures MatchSegs(glob, [p], [name]) <==> glob(p, name)
    ensures forall path :: MatchSegs(glob, [p], path) ==> |path| == 1 && glob(p, path[0])
  {
    assert [p][1..] == [] && [name][1..] == [];
  }

  /** A rule of one component matches nothing on a path none of whose names the component
      matches. */
  lemma NameUnmatched(glob: Glob, all: bool, r: Rule, p: string, path: Path, isDir: bool)
    requires r.segs == Starred(all, [p]) && p != "**" && PlainDirs(path) && forall d :: d in path ==> !glob(p, d)
    ensures !Matches(glob, r, path, isDir)
  {
    if Matches(glob, r, path, isDir) {
      var part := SomePart(glob, all, r, [p], path, isDir);
      OneName(glob, p, "");
    }
  }

  lemma LoneParse(rule: string)
    requires Shaped(rule) && Core(rule) == "\\"
    ensures Parse(rule).segs == Starred(AllLevels(rule), ["\\"])
  {
    TailSplit(NotIgnore(Strip(rule)).1);
    assert NotIgnore(Strip(rule)).1 != "**";
    SplitNoSlash("\\");
    StarredSplit(AllLevels(rule), "\\");
  }

  /** What is left of a lone backslash asks for a directory: the one it is re-based to, or any
      below. */
  lemma LoneRebase(rule: string, rel: seq<string>)
    requires Shaped(rule) && Core(rule) == "\\" && PlainDirs(rel)
    ensures var r := Parse(ChangeRule(rule, Join(rel)));
      r.dirOnly && r.segs == rel + if AllLevels(rule) then ["**"] else []
  {
    var negated, tail := NotIgnore(Strip(rule)).0, if AllLevels(rule) then "**/" else "";
    LoneText(rule, Join(rel));
    SignedText(negated, Join(rel), tail);
    RebasedSplit(rel, tail);
    LoneTail(AllLevels(rule), rel);
  }

  lemma LoneText(rule: string, rel: string)
    requires Shaped(rule) && Core(rule) == "\\"
    ensures ChangeRule(rule, rel) ==
      (if NotIgnore(Strip(rule)).0 then "!/" else "/") + rel + ("/" + if AllLevels(rule) then "**/" else "")
  {
    assert RemoveBackslash("\\") == "";
  }

  lemma LoneTail(all: bool, rel: seq<string>)
    requires rel != []
    ensures Trailing(rel + Split(if all then "**/" else "")) == (rel + if all then ["**"] else [], true)
  {
    var parts := rel + Split(if all then "**/" else "");
    if all {
      StarredSplit(true, "");
      assert "**/" + "" == "**/" && Split("**/") == ["**", ""];
      assert parts[..|parts| - 1] == rel + ["**"];
    } else {
      assert parts[..|parts| - 1] == rel + [];
    }
  }

  lemma LoneMatchesNothing(glob: Glob, rule: string, path: Path)
    requires Shaped(rule) && Core(rule) == "\\" && ReadsWildcards(glob) && PlainDirs(path)
    ensures !Matches(glob, Parse(rule), path, true)
  {
    LoneParse(rule);
    forall d | d in path
      ensures !glob("\\", d)
    {
      assert ReadsAt(glob, "\\", d);
    }
    NameUnmatched(glob, AllLevels(rule), Parse(rule), "\\", path, true);
  }

  lemma LoneMatchesDirectories(glob: Glob, rule: string, rel: seq<string>, inner: Path)
    requires Shaped(rule) && Core(rule) == "\\" && PlainDirs(rel) && Literal(glob, rel) && inner != []
    ensures Matches(glob, Parse(ChangeRule(rule, Join(rel))), rel + inner, true)
  {
    var path, all, r := rel + inner, AllLevels(rule), Parse(ChangeRule(rule, Join(rel)));
    LoneRebase(rule, rel);
    var n := if all then |path| else |rel|;
    MatchBelow(glob, rel, if all then ["**"] else [], path[..n]);
    assert path[..n][|rel|..] == if all then inner else [];
    assert MatchesAt(glob, r, path, true, n);
  }

  /** A lone backslash matches nothing, but its re-based form does. */
  lemma LoneBackslash(glob: Glob, rule: string, rel: seq<string>)
    requires Shaped(rule) && Core(rule) == "\\" && PlainDirs(rel) && Literal(glob, rel) && ReadsWildcards(glob)
    ensures LosesEscape(glob, rule) && CanMatch(glob, rule, rel) && !KeepsMeaning(glob, rule, rel)
  {
    var inner: Path := ["x"];
    SplitNoSlash("\\");
    assert PlainDirs(inner) && PlainDirs(rel + inner) && (rel + inner)[|rel|..] == inner;
    LoneMatchesNothing(glob, rule, inner);
    LoneMatchesDirectories(glob, rule, rel, inner);
  }

  /** Re-basing keeps the meaning of a rule exactly when it drops no backslash that matters, or
      some component of the rule matches no name. */
  lemma RebasingKeepsMeaningIff(glob: Glob, rule: string, rel: seq<string>)
    requires Shaped(rule) && PlainDirs(rel) && Literal(glob, rel) && ReadsWildcards(glob)
    ensures KeepsMeaning(glob, rule, rel) <==> !LosesEscape(glob, rule) || !Satisfiable(glob, rule)
  {
    if Proper(rule) {
      forall path, isDir | PlainDirs(path)
        ensures Matches(glob, Parse(ChangeRule(rule, Join(rel))), path, isDir) <==>
          rel < path && Matches(glob, Parse(rule), path[|rel|..], isDir)
      {
        ChangeRuleKeepsMeaning(glob, rule, rel, path, isDir);
      }
    } else if Core(rule) == "\\" {
      LoneBackslash(glob, rule, rel);
    } else if LosesEscape(glob, rule) && Satisfiable(glob, rule) {
      CanMatchIff(glob, rule, rel);
      var q := LostPath(glob, rule, rel);
      assert (rel + q)[|rel|..] == q;
      assert PlainDirs(rel + q);
    } else {
      CanMatchIff(glob, rule, rel);
      KeptOtherwise(glob, rule, rel);
    }
  }

  lemma KeptOtherwise(glob: Glob, rule: string, rel: seq<string>)
    requires Escaped(rule) && PlainDirs(rel) && Literal(glob, rel) && ReadsWildcards(glob)
    requires !LosesEscape(glob, rule) || !CanMatch(glob, rule, rel)
    ensures KeepsMeaning(glob, rule, rel)
  {
    forall path, isDir | PlainDirs(path)
      ensures Matches(glob, Parse(ChangeRule(rule, Join(rel))), path, isDir) <==>
        rel < path && Matches(glob, Parse(rule), path[|rel|..], isDir)
    {
      RebasedBelow(glob, rule, rel, path, isDir);
      if rel < path {
        KeptBelow(glob, rule, rel, path[|rel|..], isDir, path);
      }
    }
  }

  lemma KeptBelow(glob: Glob, rule: string, rel: seq<string>, inner: Path, isDir: bool, path: Path)
    requires Escaped(rule) && PlainDirs(rel) && Literal(glob, rel) && ReadsWildcards(glob)
    requires !LosesEscape(glob, rule) || !CanMatch(glob, rule, rel)
    requires rel < path && inner == path[|rel|..] && PlainDirs(path)
    ensures Matches(glob, Parse(ChangeRule(rule, Join(rel))), path, isDir) == Matches(glob, Parse(rule), inner, isDir)
  {
    assert rel + inner == path;
    assert PlainDirs(inner) by { assert forall d :: d in inner ==> d in path; }
    RebasedBelow(glob, rule, rel, path, isDir);
    if !LosesEscape(glob, rule) {
      DroppedSame(glob, rule, inner, isDir);
    }
  }

  // ---- examples ----

  /** Names without wildcards match themselves only. */
  lemma {:induction false} PlainMatchesItself(glob: Glob, d: string, name: string)
    requires ReadsWildcards(glob) && forall c :: c in d ==> c !in "*?[\\"
    ensures glob(d, name) <==> d == name
  {
    assert ReadsAt(glob, d, name);
    if d != "" {
      assert d[0] in d;
      if name != "" && d[0] == name[0] {
        PlainMatchesItself(glob, d[1..], name[1..]);
        assert d == [d[0]] + d[1..] && name == [name[0]] + name[1..];
      }
    }
  }

  lemma PlainNamesAreLiteral(glob: Glob, rel: seq<string>)
    requires ReadsWildcards(glob) && forall d, c :: d in rel && c in d ==> c !in "*?[\\"
    ensures Literal(glob, rel)
  {
    forall d | d in rel
      ensures d != "**" && forall name :: glob(d, name) <==> d == name
    {
      assert d == "**" ==> '*' in d;
      forall name ensures glob(d, name) <==> d == name {
        PlainMatchesItself(glob, d, name);
      }
    }
  }

  /** Where a bracket expression that starts the pattern is closed. */
  function Closing(p: string, from: nat): (n: Option<nat>)
    ensures n.Some? ==> from <= n.value < |p|
    decreases |p| - from
  {
    if from >= |p| then None
    else if p[from] == ']' then Some(from)
    else Closing(p, from + 1)
  }

  /** One glob that reads patterns so: brackets list single characters, and an unclosed bracket
      is an ordinary character. */
  predicate Wild(p: string, name: string)
    decreases |p|
  {
    if p == "" then name == ""
    else if p[0] == '*' then exists k :: 0 <= k <= |name| && Wild(p[1..], name[k..])
    else if p[0] == '?' then name != "" && Wild(p[1..], name[1..])
    else if p[0] == '[' && Closing(p, 1).Some? then
      var end := Closing(p, 1).value;
      name != "" && name[0] in p[1..end] && Wild(p[end + 1..], name[1..])
    else if p[0] == '\\' then |p| > 1 && name != "" && name[0] == p[1] && Wild(p[2..], name[1..])
    else name != "" && name[0] == p[0] && Wild(p[1..], name[1..])
  }

  lemma WildReadsWildcards()
    ensures ReadsWildcards((p, name) => Wild(p, name))
  {
    var glob: Glob := (p, name) => Wild(p, name);
    forall p, name
      ensures ReadsAt(glob, p, name)
    {
    }
  }

  lemma StarRule()
    ensures Escaped("\\*a") && Core("\\*a") == "\\*a"
    ensures Parse("\\*a").segs == ["**", "\\*a"] && !Parse("\\*a").dirOnly
    ensures Dropped("\\*a").segs == ["**", "*a"] && !Dropped("\\*a").dirOnly
  {
    var rule := "\\*a";
    StripClean(rule);
    assert Core(rule) == rule && !HasSlash(rule[..2]);
    SplitNoSlash(rule);
    EscapedParse(rule);
    assert Head(rule) == "*a" && Others(rule) == [];
    assert "\\" + "*a" == rule && ["**"] + ([rule] + []) == ["**", rule] && ["**"] + (["*a"] + []) == ["**", "*a"];
  }

  lemma StarNames(glob: Glob)
    requires ReadsWildcards(glob)
    ensures glob("*a", "xa") && !glob("\\*a", "xa")
  {
    assert ReadsAt(glob, "\\*a", "xa");
    assert ReadsAt(glob, "*a", "xa") && ReadsAt(glob, "a", "a") && ReadsAt(glob, "", "");
    assert "xa"[1..] == "a" && "a"[1..] == "" && "*a"[1..] == "a";
  }

  /** The rule for a file named `*a`, once re-based, also matches the file `xa`. */
  lemma EscapeIsLost(glob: Glob, rel: seq<string>)
    requires PlainDirs(rel) && Literal(glob, rel) && ReadsWildcards(glob)
    ensures !Matches(glob, Parse("\\*a"), ["xa"], false)
    ensures Matches(glob, Parse(ChangeRule("\\*a", Join(rel))), rel + ["xa"], false)
  {
    StarRule();
    StarNames(glob);
    NameUnmatched(glob, true, Parse("\\*a"), "\\*a", ["xa"], false);
    NameMatched(glob, Dropped("\\*a"), "*a", "xa", false);
    RebasedBelow(glob, "\\*a", rel, rel + ["xa"], false);
    assert (rel + ["xa"])[|rel|..] == ["xa"];
  }

  lemma NameMatched(glob: Glob, r: Rule, p: string, name: string, isDir: bool)
    requires r.segs == ["**", p] && p != "**" && !r.dirOnly && glob(p, name)
    ensures Matches(glob, r, [name], isDir)
  {
    var path := [name];
    OneName(glob, p, name);
    assert path[0..] == path && path[..1] == path;
    StarStarHead(glob, [p], path, 0);
    assert ["**"] + [p] == r.segs;
    assert MatchesAt(glob, r, path, isDir, 1);
  }
}
