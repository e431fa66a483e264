/** What the forms of ignore rules mean (gitignore documentation, section "PATTERN FORMAT"), in
    terms of the names on a path. */
module PatternFormat {
  import opened Paths
  import opened GitIgnore

  /** A component on its own: no slash, not `**`, nothing a rule is stripped of at its ends. */
  predicate Bare(name: string) {
    name != "" && !HasSlash(name) && name != "**" && Clean(name)
  }

  predicate Signless(name: string) {
    name != "" && name[0] != '!'
  }

  /** What is left of a text is the text without blanks at its ends. */
  lemma {:induction false} StripTrims(s: string) returns (before: string, after: string)
    ensures s == before + Strip(s) + after
    ensures forall c :: c in before + after ==> c in BLANKS
    ensures Strip(s) != "" ==> Clean(Strip(s))
  {
    before := LeftBlanks(s);
    after := RightBlanks(StripLeft(s));
    StripIsClean(s);
  }

  lemma {:induction false} LeftBlanks(s: string) returns (before: string)
    ensures s == before + StripLeft(s) && forall c :: c in before ==> c in BLANKS
  {
    before := "";
    if s != "" && s[0] in BLANKS {
      var rest := LeftBlanks(s[1..]);
      before := [s[0]] + rest;
      assert s == [s[0]] + s[1..];
    }
  }

  lemma {:induction false} RightBlanks(s: string) returns (after: string)
    ensures s == StripRight(s) + after && forall c :: c in after ==> c in BLANKS
  {
    after := "";
    if s != "" && s[|s| - 1] in BLANKS {
      var rest := RightBlanks(s[..|s| - 1]);
      after := rest + [s[|s| - 1]];
      assert s == s[..|s| - 1] + [s[|s| - 1]];
    }
  }

  /** A leading exclamation mark turns the verdict of a rule round, and changes nothing else. */
  lemma NegatedRule(body: string)
    requires Clean(body)
    ensures Parse("!" + body) == Rule(false, ParseBody(body).0, ParseBody(body).1)
    ensures Signless(body) ==> Parse(body) == Rule(true, ParseBody(body).0, ParseBody(body).1)
  {
    var rule := "!" + body;
    assert rule[0] == '!' && rule[|rule| - 1] == body[|body| - 1] && rule[1..] == body;
    StripClean(rule);
    StripClean(body);
  }

  lemma OneComponent(glob: Glob, name: string, path: Path)
    requires name != "**"
    ensures MatchSegs(glob, [name], path) <==> |path| == 1 && glob(name, path[0])
  {
    assert [name][1..] == [];
    if path != [] {
      assert path[1..] == [] <==> |path| == 1;
    }
  }

  /** `**` in front of a name: any directories, then the name. */
  lemma AnyLevel(glob: Glob, name: string, path: Path)
    requires name != "**"
    ensures MatchSegs(glob, ["**", name], path) <==> path != [] && glob(name, path[|path| - 1])
  {
    assert ["**", name][1..] == [name];
    forall k | 0 <= k <= |path|
      ensures MatchSegs(glob, [name], path[k..]) <==> k == |path| - 1 && glob(name, path[k])
    {
      OneComponent(glob, name, path[k..]);
    }
    if path != [] && glob(name, path[|path| - 1]) {
      assert MatchSegs(glob, [name], path[|path| - 1..]);
    }
  }

  /** A rule of components `["**", name]` names every component of that name on the path. */
  lemma AnyLevelMatches(glob: Glob, r: Rule, name: string, path: Path, isDir: bool)
    requires r.segs == ["**", name] && name != "**"
    ensures Matches(glob, r, path, isDir) <==>
      exists i :: 0 <= i < |path| && glob(name, path[i]) && (r.dirOnly && i == |path| - 1 ==> isDir)
  {
    forall n | 0 <= n <= |path|
      ensures MatchesAt(glob, r, path, isDir, n) <==>
        n > 0 && glob(name, path[n - 1]) && (r.dirOnly && n == |path| ==> isDir)
    {
      AnyLevel(glob, name, path[..n]);
    }
    if i :| 0 <= i < |path| && glob(name, path[i]) && (r.dirOnly && i == |path| - 1 ==> isDir) {
      assert MatchesAt(glob, r, path, isDir, i + 1);
    }
  }

  lemma NameParsed(name: string)
    requires Bare(name)
    ensures ParseBody(name) == (["**", name], false)
    ensures ParseBody(name + "/") == (["**", name], true)
    ensures ParseBody("**/" + name) == (["**", name], false)
    ensures ParseBody("/" + name) == ([name], false)
    ensures ParseBody("/" + name + "/") == ([name], true)
  {
    NameSplit(name);
    assert ["**", name, ""][..2] == ["**", name] && [name, ""][..1] == [name];
    assert ["**"] + [name] == ["**", name] && ["**"] + [name, ""] == ["**", name, ""];
  }

  lemma NameSplit(name: string)
    requires Bare(name)
    ensures Split(name) == [name] && Split(name + "/") == [name, ""] && Split("**/" + name) == ["**", name]
    ensures Split("/" + name) == ["", name] && Split("/" + name + "/") == ["", name, ""]
  {
    SplitNoSlash(name);
    EndSlash(name);
    AnyLevelSplit(name);
    RootSplit(name);
    RootSplit(name + "/");
    assert "/" + name + "/" == "/" + (name + "/");
  }

  lemma EndSlash(name: string)
    requires !HasSlash(name)
    ensures Split(name + "/") == [name, ""]
  {
    SplitNoSlash(name);
    SplitNoSlash("");
    SplitAtSlash(name, "");
    assert name + "/" + "" == name + "/";
  }

  lemma RootSplit(name: string)
    ensures Split("/" + name) == [""] + Split(name)
  {
    SplitNoSlash("");
    SplitAtSlash("", name);
    assert "" + "/" + name == "/" + name;
  }

  lemma AnyLevelSplit(name: string)
    ensures Split("**/" + name) == ["**"] + Split(name)
  {
    SplitNoSlash("**");
    SplitAtSlash("**", name);
    assert "**" + "/" + name == "**/" + name;
  }

  /** A name matches at every level; with a trailing slash, directories only. */
  lemma NameRule(glob: Glob, name: string, path: Path, isDir: bool)
    requires Bare(name) && Signless(name)
    ensures Matches(glob, Parse(name), path, isDir) <==> exists i :: 0 <= i < |path| && glob(name, path[i])
    ensures Matches(glob, Parse(name + "/"), path, isDir) <==>
      exists i :: 0 <= i < |path| && glob(name, path[i]) && (i == |path| - 1 ==> isDir)
    ensures Parse(name).ignore && Parse(name + "/").ignore
  {
    NameParsed(name);
    PlainRule(name, ["**", name], false);
    PlainRule(name + "/", ["**", name], true);
    AnyLevelMatches(glob, Parse(name), name, path, isDir);
    AnyLevelMatches(glob, Parse(name + "/"), name, path, isDir);
  }

  lemma PlainRule(body: string, segs: seq<string>, dirOnly: bool)
    requires Clean(body) && Signless(body) && ParseBody(body) == (segs, dirOnly)
    ensures Parse(body) == Rule(true, segs, dirOnly)
  {
    NegatedRule(body);
  }

  /** A leading slash anchors a name to the directory of the rule. */
  lemma AnchoredRule(glob: Glob, name: string, path: Path, isDir: bool)
    requires Bare(name)
    ensures Matches(glob, Parse("/" + name), path, isDir) <==> path != [] && glob(name, path[0])
    ensures Matches(glob, Parse("/" + name + "/"), path, isDir) <==>
      path != [] && glob(name, path[0]) && (|path| == 1 ==> isDir)
    ensures Parse("/" + name).ignore && Parse("/" + name + "/").ignore
  {
    NameParsed(name);
    assert ("/" + name)[|name|] == name[|name| - 1];
    NegatedRule("/" + name);
    NegatedRule("/" + name + "/");
    FirstMatches(glob, Parse("/" + name), name, path, isDir);
    FirstMatches(glob, Parse("/" + name + "/"), name, path, isDir);
  }

  lemma FirstMatches(glob: Glob, r: Rule, name: string, path: Path, isDir: bool)
    requires r.segs == [name] && name != "**"
    ensures Matches(glob, r, path, isDir) <==>
      path != [] && glob(name, path[0]) && (r.dirOnly && |path| == 1 ==> isDir)
  {
    forall n | 0 <= n <= |path|
      ensures MatchesAt(glob, r, path, isDir, n) <==>
        n == 1 && glob(name, path[0]) && (r.dirOnly && |path| == 1 ==> isDir)
    {
      OneComponent(glob, name, path[..n]);
    }
    if path != [] && glob(name, path[0]) && (r.dirOnly && |path| == 1 ==> isDir) {
      assert MatchesAt(glob, r, path, isDir, 1);
    }
  }

  /** Names between slashes match one after the other, from the directory of the rule on. */
  lemma PathRule(glob: Glob, parts: seq<string>, path: Path, isDir: bool)
    requires |parts| > 1 && Signless(parts[0]) && forall i :: 0 <= i < |parts| ==> Bare(parts[i])
    ensures Matches(glob, Parse(Join(parts)), path, isDir) <==>
      |path| >= |parts| && forall i :: 0 <= i < |parts| ==> glob(parts[i], path[i])
    ensures Parse(Join(parts)).ignore
  {
    JoinEnds(parts);
    SplitJoin(parts);
    PlainRule(Join(parts), parts, false);
    PrefixMatches(glob, Parse(Join(parts)), parts, path, isDir);
  }

  lemma PrefixMatches(glob: Glob, r: Rule, parts: seq<string>, path: Path, isDir: bool)
    requires r.segs == parts != [] && !r.dirOnly && forall i :: 0 <= i < |parts| ==> parts[i] != "**"
    ensures Matches(glob, r, path, isDir) <==>
      |path| >= |parts| && forall i :: 0 <= i < |parts| ==> glob(parts[i], path[i])
  {
    forall n | 0 <= n <= |path|
      ensures MatchesAt(glob, r, path, isDir, n) <==>
        n == |parts| && forall i :: 0 <= i < |parts| ==> glob(parts[i], path[i])
    {
      AllComponents(glob, parts, path[..n]);
    }
    if |path| >= |parts| && forall i :: 0 <= i < |parts| ==> glob(parts[i], path[i]) {
      assert MatchesAt(glob, r, path, isDir, |parts|);
    }
  }

  lemma {:induction false} JoinEnds(parts: seq<string>)
    requires parts != [] && forall i :: 0 <= i < |parts| ==> parts[i] != ""
    ensures Join(parts) != "" && Join(parts)[0] == parts[0][0]
    ensures var last := parts[|parts| - 1]; Join(parts)[|Join(parts)| - 1] == last[|last| - 1]
  {
    if |parts| > 1 {
      JoinEnds(parts[1..]);
    }
  }

  lemma {:induction false} AllComponents(glob: Glob, parts: seq<string>, path: Path)
    requires forall i :: 0 <= i < |parts| ==> parts[i] != "**"
    ensures MatchSegs(glob, parts, path) <==>
      |path| == |parts| && forall i :: 0 <= i < |parts| ==> glob(parts[i], path[i])
  {
    if parts != [] {
      if path != [] {
        AllComponents(glob, parts[1..], path[1..]);
        assert forall i :: 0 < i < |parts| && |path| == |parts| ==>
          parts[i] == parts[1..][i - 1] && path[i] == path[1..][i - 1];
      }
    }
  }

  // A name followed by `**` names all that is below it.
  lemma BelowRule(glob: Glob, name: string, path: Path, isDir: bool)
    requires Bare(name) && Signless(name)
    ensures Matches(glob, Parse(name + "/**"), path, isDir) <==> |path| > 1 && glob(name, path[0])
  {
    BelowParsed(name);
    PlainRule(name + "/**", [name, "**"], false);
    BelowMatches(glob, Parse(name + "/**"), name, path, isDir);
  }

  lemma BelowParsed(name: string)
    requires Bare(name) && Signless(name)
    ensures var rule := name + "/**"; Clean(rule) && Signless(rule) && ParseBody(rule) == ([name, "**"], false)
  {
    SplitNoSlash(name);
    SplitNoSlash("**");
    SplitAtSlash(name, "**");
    assert name + "/" + "**" == name + "/**" && [name] + ["**"] == [name, "**"];
  }

  lemma BelowMatches(glob: Glob, r: Rule, name: string, path: Path, isDir: bool)
    requires r.segs == [name, "**"] && !r.dirOnly && name != "**"
    ensures Matches(glob, r, path, isDir) <==> |path| > 1 && glob(name, path[0])
  {
    assert [name, "**"][1..] == ["**"];
    forall n | 0 <= n <= |path|
      ensures MatchesAt(glob, r, path, isDir, n) <==> n > 1 && glob(name, path[0])
    {
      if n > 0 {
        assert path[..n][1..] == path[1..n] && path[..n][0] == path[0];
        assert MatchSegs(glob, ["**"], path[1..n]) <==> n > 1;
      }
    }
    if |path| > 1 && glob(name, path[0]) {
      assert MatchesAt(glob, r, path, isDir, 2);
    }
  }

  // A rule with `**` between a and b matches b any number of directories below a.
  lemma BetweenRule(glob: Glob, a: string, b: string, path: Path, isDir: bool)
    requires Bare(a) && Signless(a) && Bare(b)
    ensures Matches(glob, Parse(a + "/**/" + b), path, isDir) <==>
      path != [] && glob(a, path[0]) && exists j :: 1 <= j < |path| && glob(b, path[j])
  {
    BetweenParsed(a, b);
    PlainRule(a + "/**/" + b, [a, "**", b], false);
    BetweenMatches(glob, Parse(a + "/**/" + b), a, b, path, isDir);
  }

  lemma BetweenParsed(a: string, b: string)
    requires Bare(a) && Signless(a) && Bare(b)
    ensures var rule := a + "/**/" + b; Clean(rule) && Signless(rule) && ParseBody(rule) == ([a, "**", b], false)
  {
    var rule := a + "/**/" + b;
    SplitNoSlash(a);
    SplitNoSlash("**");
    SplitNoSlash(b);
    SplitAtSlash("**", b);
    SplitAtSlash(a, "**/" + b);
    assert a + "/" + ("**/" + b) == rule && "**" + "/" + b == "**/" + b;
    assert [a] + (["**"] + [b]) == [a, "**", b];
    assert rule[|rule| - 1] == b[|b| - 1];
  }

  lemma BetweenMatches(glob: Glob, r: Rule, a: string, b: string, path: Path, isDir: bool)
    requires r.segs == [a, "**", b] && !r.dirOnly && a != "**" && b != "**"
    ensures Matches(glob, r, path, isDir) <==>
      path != [] && glob(a, path[0]) && exists j :: 1 <= j < |path| && glob(b, path[j])
  {
    assert [a, "**", b][1..] == ["**", b];
    forall n | 0 <= n <= |path|
      ensures MatchesAt(glob, r, path, isDir, n) <==> n > 1 && glob(a, path[0]) && glob(b, path[n - 1])
    {
      if n > 0 {
        assert path[..n][1..] == path[1..n];
        AnyLevel(glob, b, path[1..n]);
      }
    }
    if j :| 1 <= j < |path| && glob(b, path[j]) && glob(a, path[0]) {
      assert MatchesAt(glob, r, path, isDir, j + 1);
    }
  }
}
