/** Ignore rules: what a rule means (gitignore documentation, section "PATTERN FORMAT"), moving
    a rule from a directory to one of its ancestors, and verdicts of rule lists. */
module GitIgnore {
  import opened Common
  import opened Paths

  /** Matching of one path component against one component of a rule (`*`, `?`, brackets). */
  type Glob = (string, string) -> bool

  /** A rule taken apart: components, the leading and inner `**` among them. */
  datatype Rule = Rule(ignore: bool, segs: seq<string>, dirOnly: bool)

  function Split(s: string): (r: seq<string>)
    ensures r != []
    decreases |s|
  {
    if s == "" then [""]
    else if s[0] == '/' then [""] + Split(s[1..])
    else
      var r := Split(s[1..]);
      [[s[0]] + r[0]] + r[1..]
  }

  function Join(parts: seq<string>): string
    requires parts != []
  {
    if |parts| == 1 then parts[0] else parts[0] + "/" + Join(parts[1..])
  }

  predicate HasSlash(s: string) {
    '/' in s
  }

  const BLANKS := {' ', '\t', '\n', '\r'}

  function StripLeft(s: string): string {
    if s != "" && s[0] in BLANKS then StripLeft(s[1..]) else s
  }

  function StripRight(s: string): string {
    if s != "" && s[|s| - 1] in BLANKS then StripRight(s[..|s| - 1]) else s
  }

  function Strip(s: string): string {
    StripRight(StripLeft(s))
  }

  /** A rule without its negation and what that says. */
  function NotIgnore(rule: string): (bool, string) {
    if rule != "" && rule[0] == '!' then (true, rule[1..]) else (false, rule)
  }

  /** The components a rule body stands for: a leading slash anchors, a body without any other
      slash than a trailing one applies at every level, and a trailing slash asks for a
      directory. */
  function ParseBody(body: string): (seq<string>, bool) {
    var parts := Split(body);
    var anchored :=
      if parts[0] == "" then parts[1..]
      else if |parts| == 1 || (|parts| == 2 && parts[1] == "") then
        if parts[0] == "**" then parts else ["**"] + parts
      else parts;
    Trailing(anchored)
  }

  function Trailing(parts: seq<string>): (seq<string>, bool) {
    if |parts| > 1 && parts[|parts| - 1] == "" then (parts[..|parts| - 1], true) else (parts, false)
  }

  function Parse(rule: string): Rule {
    var (negated, body) := NotIgnore(Strip(rule));
    var (segs, dirOnly) := ParseBody(body);
    Rule(!negated, segs, dirOnly)
  }

  /** `**` matches any number of directories, or everything below at the end of a rule. */
  predicate MatchSegs(glob: Glob, segs: seq<string>, path: Path)
    decreases |segs|
  {
    if segs == [] then path == []
    else if segs[0] == "**" then
      if |segs| == 1 then path != []
      else exists k :: 0 <= k <= |path| && MatchSegs(glob, segs[1..], path[k..])
    else path != [] && glob(segs[0], path[0]) && MatchSegs(glob, segs[1..], path[1..])
  }

  /** The rule names the directory, or at last the path itself, that `n` components lead to. */
  predicate MatchesAt(glob: Glob, r: Rule, path: Path, isDir: bool, n: nat)
    requires n <= |path|
  {
    MatchSegs(glob, r.segs, path[..n]) && (r.dirOnly && n == |path| ==> isDir)
  }

  /** A rule matches what it names and everything below. */
  predicate Matches(glob: Glob, r: Rule, path: Path, isDir: bool) {
    exists n :: 0 <= n <= |path| && MatchesAt(glob, r, path, isDir, n)
  }

  function RemoveBackslash(rule: string): string {
    if rule != "" && rule[0] == '\\' then rule[1..] else rule
  }

  predicate StartsWith(s: string, prefix: string) {
    prefix <= s
  }

  /** Whether a rule body applies at all levels, and the body without its leading slash or
      leading `**`. */
  function MatchAllLevel(rule: string): (bool, string) {
    if rule != "" && HasSlash(rule[..|rule| - 1]) && !StartsWith(rule, "**/") then
      (false, if rule[0] == '/' then rule[1..] else rule)
    else (true, if StartsWith(rule, "**/") then rule[3..] else rule)
  }

  /** The rule of directory `rel`, written for the directory that `rel` is relative to. */
  function ChangeRule(rule: string, rel: string): string {
    var stripped := Strip(rule);
    if StartsWith(stripped, "#") then stripped
    else
      var (negated, unsigned) := NotIgnore(stripped);
      var (all, body) := MatchAllLevel(unsigned);
      var anchored := (if all then "/**/" else "/") + RemoveBackslash(body);
      (if negated then "!/" else "/") + rel + anchored
  }

  // ---- strings ----

  lemma {:induction false} SplitNoSlash(s: string)
    requires !HasSlash(s)
    ensures Split(s) == [s]
  {
    if s != "" {
      assert !HasSlash(s[1..]);
      SplitNoSlash(s[1..]);
      assert s == [s[0]] + s[1..];
    }
  }

  lemma SplitCons(c: char, s: string)
    ensures Split([c] + s) == Prepend(c, Split(s))
  {
    assert ([c] + s)[1..] == s;
  }

  /** One more character in front of the first part. */
  function Prepend(c: char, parts: seq<string>): seq<string>
    requires parts != []
  {
    if c == '/' then [""] + parts else [[c] + parts[0]] + parts[1..]
  }

  lemma PrependConcat(c: char, x: seq<string>, y: seq<string>)
    requires x != []
    ensures Prepend(c, x + y) == Prepend(c, x) + y
  {
  }

  lemma {:induction false} SplitAtSlash(a: string, b: string)
    ensures Split(a + "/" + b) == Split(a) + Split(b)
    decreases |a|
  {
    if a == "" {
      SplitCons('/', b);
      assert a + "/" + b == ['/'] + b;
    } else {
      SplitConsAtSlash(a[0], a[1..], b);
      assert a == [a[0]] + a[1..];
    }
  }

  lemma {:induction false} SplitConsAtSlash(c: char, t: string, b: string)
    ensures Split(([c] + t) + "/" + b) == Split([c] + t) + Split(b)
    decreases |t| + 1, 0
  {
    assert ([c] + t) + "/" + b == [c] + (t + "/" + b);
    SplitAtSlash(t, b);
    SplitCons(c, t);
    SplitCons(c, t + "/" + b);
    PrependConcat(c, Split(t), Split(b));
  }

  lemma {:induction false} SplitJoin(parts: seq<string>)
    requires parts != [] && forall p :: p in parts ==> !HasSlash(p)
    ensures Split(Join(parts)) == parts
  {
    SplitNoSlash(parts[0]);
    if |parts| > 1 {
      SplitJoin(parts[1..]);
      SplitAtSlash(parts[0], Join(parts[1..]));
      assert parts == [parts[0]] + parts[1..];
    }
  }

  lemma SplitFirst(s: string)
    requires s != ""
    ensures Split(s)[0] == "" <==> s[0] == '/'
  {
  }

  /** A slash before the last character splits into more than a name and an empty rest. */
  lemma {:induction false} SplitCount(s: string)
    ensures |Split(s)| == 1 <==> !HasSlash(s)
    ensures s != "" && !HasSlash(s[..|s| - 1]) && s[|s| - 1] == '/' ==> Split(s) == [s[..|s| - 1], ""]
    ensures s != "" && HasSlash(s[..|s| - 1]) ==> |Split(s)| > 2 || (|Split(s)| == 2 && Split(s)[1] != "")
  {
    if s != "" {
      var t := s[1..];
      SplitCount(t);
      assert s == [s[0]] + t;
      if t != "" {
        assert s[..|s| - 1] == [s[0]] + t[..|t| - 1];
        assert s[|s| - 1] == t[|t| - 1];
        SplitFirst(t);
      }
    }
  }

  predicate Clean(s: string) {
    s != "" && s[0] !in BLANKS && s[|s| - 1] !in BLANKS
  }

  lemma StripClean(s: string)
    requires Clean(s)
    ensures Strip(s) == s
  {
  }

  lemma {:induction false} StripLeftEnds(s: string)
    ensures StripLeft(s) != "" ==> StripLeft(s)[0] !in BLANKS
  {
    if s != "" && s[0] in BLANKS {
      StripLeftEnds(s[1..]);
    }
  }

  lemma {:induction false} StripRightEnds(s: string)
    ensures StripRight(s) != "" ==>
      StripRight(s)[|StripRight(s)| - 1] !in BLANKS && s != "" && StripRight(s)[0] == s[0]
  {
    if s != "" && s[|s| - 1] in BLANKS {
      StripRightEnds(s[..|s| - 1]);
    }
  }

  lemma StripIsClean(s: string)
    ensures Strip(s) != "" ==> Clean(Strip(s))
  {
    StripLeftEnds(s);
    StripRightEnds(StripLeft(s));
  }

  // ---- re-basing ----

  /** Directory components without slashes, as they appear in paths. */
  predicate PlainDirs(rel: seq<string>) {
    rel != [] && forall d :: d in rel ==> d != "" && !HasSlash(d)
  }

  /** A rule as ignore files hold them: not blank, not a comment, not a bare slash or sign. */
  predicate Shaped(rule: string) {
    var stripped := Strip(rule);
    var body := NotIgnore(stripped).1;
    stripped != "" && stripped[0] != '#' && body != "" && body != "/"
  }

  /** A rule without its sign and what says how it is anchored. */
  function Core(rule: string): string {
    MatchAllLevel(NotIgnore(Strip(rule)).1).1
  }

  /** A rule that re-basing takes over unchanged: its core does not start with a backslash. */
  predicate Proper(rule: string) {
    Shaped(rule) && !StartsWith(Core(rule), "\\")
  }

  /** The components of a rule body; `**` alone counts as two so as not to match the directory
      it is re-based to. */
  function Segments(body: string): (seq<string>, bool) {
    if body == "**" then (["**", "**"], false) else ParseBody(body)
  }

  /** The text after the directory in a re-based rule. */
  function Tail(body: string): string {
    var (all, rest) := MatchAllLevel(body);
    (if all then "**/" else "") + rest
  }

  lemma TailOfAnchored(body: string)
    requires body != "" && HasSlash(body[..|body| - 1]) && !StartsWith(body, "**/")
    ensures ParseBody(body) == Trailing(Split(Tail(body))) && Split(Tail(body)) != [""] && body != "**"
  {
    SplitFirst(body);
    SplitCount(body);
    if body[0] == '/' {
      assert Tail(body) == body[1..] && body[1..] != "";
      SplitCount(body[1..]);
    } else {
      assert Tail(body) == body;
    }
  }

  lemma TailOfLeadingStars(body: string)
    requires StartsWith(body, "**/")
    ensures ParseBody(body) == Trailing(Split(Tail(body))) && Split(Tail(body)) != [""] && body != "**"
  {
    assert body == "**" + "/" + body[3..];
    assert Tail(body) == body;
    SplitNoSlash("**");
    SplitAtSlash("**", body[3..]);
  }

  lemma TailOfName(body: string)
    requires body != "" && body != "/" && !HasSlash(body[..|body| - 1]) && !StartsWith(body, "**/")
    ensures Segments(body) == Trailing(Split(Tail(body))) && Split(Tail(body)) != [""]
  {
    assert Tail(body) == "**" + "/" + body;
    SplitNoSlash("**");
    SplitAtSlash("**", body);
    SplitFirst(body);
    SplitCount(body);
    var n := |body| - 1;
    if body[n] == '/' {
      var parts := Split(body);
      assert parts == [body[..n], ""];
      assert body[..n] != "" && body == body[..n] + "/";
      assert body[..n] != "**";
    } else {
      assert !HasSlash(body) by { assert body == body[..n] + [body[n]]; }
      SplitNoSlash(body);
      assert Split(Tail(body)) == ["**", body];
      assert Trailing(["**", body]) == (["**", body], false);
      if body != "**" {
        assert ParseBody(body) == Trailing(["**"] + [body]);
        assert ["**"] + [body] == ["**", body];
      }
    }
  }

  lemma TailSplit(body: string)
    requires body != "" && body != "/"
    ensures Segments(body) == Trailing(Split(Tail(body))) && Split(Tail(body)) != [""]
  {
    if StartsWith(body, "**/") {
      TailOfLeadingStars(body);
    } else if HasSlash(body[..|body| - 1]) {
      TailOfAnchored(body);
    } else {
      TailOfName(body);
    }
  }

  lemma TailEnds(body: string)
    requires body != "" && body[|body| - 1] !in BLANKS && body != "/"
    ensures Tail(body) != "" && Tail(body)[|Tail(body)| - 1] !in BLANKS
  {
    var rest := MatchAllLevel(body).1;
    if rest != "" {
      assert rest[|rest| - 1] == body[|body| - 1];
    }
  }

  lemma ChangedText(rule: string, rel: string)
    requires Proper(rule)
    ensures var (negated, body) := NotIgnore(Strip(rule));
      ChangeRule(rule, rel) == (if negated then "!/" else "/") + rel + ("/" + Tail(body))
  {
    var (negated, body) := NotIgnore(Strip(rule));
    var (all, rest) := MatchAllLevel(body);
    StripIsClean(rule);
    TailEnds(body);
    var anchored := (if all then "/**/" else "/") + RemoveBackslash(rest);
    assert anchored == "/" + Tail(body);
    assert !StartsWith(Strip(rule), "#");
  }

  lemma TrailingAfter(dirs: seq<string>, parts: seq<string>)
    requires dirs != [] && parts != [] && parts != [""]
    ensures Trailing(dirs + parts) == (dirs + Trailing(parts).0, Trailing(parts).1)
  {
    var all := dirs + parts;
    assert all[|all| - 1] == parts[|parts| - 1];
    if |parts| == 1 {
      assert parts == [parts[0]];
    } else {
      assert all[..|all| - 1] == dirs + parts[..|parts| - 1];
    }
  }

  lemma RebasedSplit(rel: seq<string>, tail: string)
    requires PlainDirs(rel)
    ensures Split("/" + (Join(rel) + "/" + tail)) == [""] + (rel + Split(tail))
  {
    var inner := Join(rel) + "/" + tail;
    assert "/" + inner == "" + "/" + inner;
    SplitAtSlash("", inner);
    SplitJoin(rel);
    SplitAtSlash(Join(rel), tail);
  }

  /** Re-basing puts the directory in front of the components, and changes nothing else. */
  lemma RebasedParse(rule: string, rel: seq<string>)
    requires Proper(rule) && PlainDirs(rel)
    ensures var (negated, body) := NotIgnore(Strip(rule));
      Parse(ChangeRule(rule, Join(rel))) == Rule(!negated, rel + Segments(body).0, Segments(body).1)
  {
    var (negated, body) := NotIgnore(Strip(rule));
    var tail := Tail(body);
    ChangedText(rule, Join(rel));
    StripIsClean(rule);
    TailEnds(body);
    SignedText(negated, Join(rel), tail);
    RebasedSplit(rel, tail);
    TailSplit(body);
    TrailingAfter(rel, Split(tail));
  }

  lemma SignedText(negated: bool, rel: string, tail: string)
    requires tail != "" ==> tail[|tail| - 1] !in BLANKS
    ensures var text := (if negated then "!/" else "/") + rel + ("/" + tail);
      NotIgnore(Strip(text)) == (negated, "/" + (rel + "/" + tail))
  {
    var text := (if negated then "!/" else "/") + rel + ("/" + tail);
    assert text[|text| - 1] == if tail == "" then '/' else tail[|tail| - 1];
    StripClean(text);
    var body := "/" + (rel + "/" + tail);
    if negated {
      assert text == "!" + body;
    } else {
      assert text == body;
    }
  }

  // ---- meaning ----

  /** Directory names without glob characters match themselves only. */
  ghost predicate Literal(glob: Glob, rel: seq<string>) {
    forall d :: d in rel ==> d != "**" && forall name :: glob(d, name) <==> d == name
  }

  lemma {:induction false} MatchBelow(glob: Glob, rel: seq<string>, segs: seq<string>, path: Path)
    requires Literal(glob, rel)
    ensures MatchSegs(glob, rel + segs, path) <==> rel <= path && MatchSegs(glob, segs, path[|rel|..])
    decreases |rel|
  {
    if rel == [] {
      assert rel + segs == segs && path[|rel|..] == path;
    } else {
      var all := rel + segs;
      assert all[0] == rel[0] && all[1..] == rel[1..] + segs;
      assert rel[0] in rel;
      if path != [] {
        assert forall d :: d in rel[1..] ==> d in rel;
        MatchBelow(glob, rel[1..], segs, path[1..]);
        assert rel == [rel[0]] + rel[1..] && path == [path[0]] + path[1..];
        if rel <= path {
          assert path[1..][|rel[1..]|..] == path[|rel|..];
        }
      }
    }
  }

  lemma {:induction false} EmptyPathUnmatched(glob: Glob, segs: seq<string>)
    requires segs != []
    ensures !MatchSegs(glob, segs, [])
    decreases |segs|
  {
    if segs[0] == "**" && |segs| > 1 {
      EmptyPathUnmatched(glob, segs[1..]);
      var p: Path := [];
      assert p[0..] == p;
    }
  }

  lemma DoubleStars(glob: Glob, path: Path)
    ensures MatchSegs(glob, ["**", "**"], path) <==> MatchSegs(glob, ["**"], path)
  {
    assert ["**", "**"][1..] == ["**"];
    assert path[0..] == path;
    if path != [] {
      assert MatchSegs(glob, ["**"], path[0..]);
    }
  }

  lemma SomeComponent(body: string)
    requires body != ""
    ensures ParseBody(body).0 != []
  {
    SplitFirst(body);
    if body[0] == '/' {
      assert Split(body) == [""] + Split(body[1..]);
    }
  }

  lemma SegmentsMean(glob: Glob, body: string, path: Path)
    requires body != ""
    ensures MatchSegs(glob, Segments(body).0, path) <==> MatchSegs(glob, ParseBody(body).0, path)
    ensures Segments(body).1 == ParseBody(body).1 && Segments(body).0 != []
  {
    SomeComponent(body);
    if body == "**" {
      SplitNoSlash("**");
      DoubleStars(glob, path);
    }
  }

  /** A rule with a directory in front of its components names, below the directory, what the
      rule named. */
  lemma BelowAt(glob: Glob, r: Rule, rel: seq<string>, path: Path, isDir: bool, n: nat)
    requires Literal(glob, rel) && r.segs != [] && n <= |path|
    ensures MatchesAt(glob, r.(segs := rel + r.segs), path, isDir, n) <==>
      rel < path[..n] && MatchesAt(glob, r, path[|rel|..], isDir, n - |rel|)
  {
    MatchBelow(glob, rel, r.segs, path[..n]);
    if rel == path[..n] {
      EmptyPathUnmatched(glob, r.segs);
      assert path[..n][|rel|..] == [];
    } else if rel < path[..n] {
      assert path[..n][|rel|..] == path[|rel|..][..n - |rel|];
    }
  }

  lemma BelowMatches(glob: Glob, r: Rule, rel: seq<string>, path: Path, isDir: bool)
    requires Literal(glob, rel) && r.segs != []
    ensures Matches(glob, r.(segs := rel + r.segs), path, isDir) <==>
      rel < path && Matches(glob, r, path[|rel|..], isDir)
  {
    var below := r.(segs := rel + r.segs);
    if Matches(glob, below, path, isDir) {
      var n :| 0 <= n <= |path| && MatchesAt(glob, below, path, isDir, n);
      BelowAt(glob, r, rel, path, isDir, n);
    }
    if rel < path && Matches(glob, r, path[|rel|..], isDir) {
      MatchedBelow(glob, r, rel, path, isDir);
    }
  }

  lemma MatchedBelow(glob: Glob, r: Rule, rel: seq<string>, path: Path, isDir: bool)
    requires Literal(glob, rel) && r.segs != [] && rel < path && Matches(glob, r, path[|rel|..], isDir)
    ensures Matches(glob, r.(segs := rel + r.segs), path, isDir)
  {
    var inner := path[|rel|..];
    var n :| 0 <= n <= |inner| && MatchesAt(glob, r, inner, isDir, n);
    EmptyPathUnmatched(glob, r.segs);
    assert inner[..0] == [];
    assert rel < path[..|rel| + n];
    BelowAt(glob, r, rel, path, isDir, |rel| + n);
  }

  /** Rules whose components match the same paths match the same. */
  lemma SameComponents(glob: Glob, a: Rule, b: Rule, path: Path, isDir: bool)
    requires a.dirOnly == b.dirOnly
    requires forall n :: 0 <= n <= |path| ==> MatchSegs(glob, a.segs, path[..n]) == MatchSegs(glob, b.segs, path[..n])
    ensures Matches(glob, a, path, isDir) == Matches(glob, b, path, isDir)
  {
    forall n | 0 <= n <= |path|
      ensures MatchesAt(glob, a, path, isDir, n) == MatchesAt(glob, b, path, isDir, n)
    {
    }
  }

  lemma ChangedDirOnly(rule: string, rel: seq<string>)
    requires Proper(rule) && PlainDirs(rel)
    ensures Parse(ChangeRule(rule, Join(rel))).dirOnly == Parse(rule).dirOnly
    ensures Parse(ChangeRule(rule, Join(rel))).ignore == Parse(rule).ignore
  {
    RebasedParse(rule, rel);
    var (negated, body) := NotIgnore(Strip(rule));
    var anyName: Glob := (a, b) => false;
    SegmentsMean(anyName, body, []);
  }

  /** A re-based rule matches `rel/p` exactly when the rule matched `p`, matches nothing else,
      and keeps its sign. */
  lemma ChangeRuleKeepsMeaning(glob: Glob, rule: string, rel: seq<string>, path: Path, isDir: bool)
    requires Proper(rule) && PlainDirs(rel) && Literal(glob, rel)
    ensures Parse(ChangeRule(rule, Join(rel))).ignore == Parse(rule).ignore
    ensures Matches(glob, Parse(ChangeRule(rule, Join(rel))), path, isDir) <==>
      rel < path && Matches(glob, Parse(rule), path[|rel|..], isDir)
  {
    var (negated, body) := NotIgnore(Strip(rule));
    var (segs, dirOnly) := Segments(body);
    var own := Rule(!negated, segs, dirOnly);
    ChangedDirOnly(rule, rel);
    RebasedParse(rule, rel);
    SegmentsMean(glob, body, []);
    BelowMatches(glob, own, rel, path, isDir);
    if rel < path {
      var inner := path[|rel|..];
      forall n | 0 <= n <= |inner|
        ensures MatchSegs(glob, own.segs, inner[..n]) == MatchSegs(glob, Parse(rule).segs, inner[..n])
      {
        SegmentsMean(glob, body, inner[..n]);
      }
      SameComponents(glob, own, Parse(rule), inner, isDir);
    }
  }

  // ---- verdicts of rule lists ----

  /** The sign of the last rule that matches. */
  function LastMatch(glob: Glob, rules: seq<string>, path: Path, isDir: bool): Option<bool> {
    if rules == [] then None
    else
      var r := Parse(rules[|rules| - 1]);
      if Matches(glob, r, path, isDir) then Some(r.ignore)
      else LastMatch(glob, rules[..|rules| - 1], path, isDir)
  }

  lemma {:induction false} LastMatchConcat(glob: Glob, a: seq<string>, b: seq<string>, path: Path, isDir: bool)
    ensures LastMatch(glob, a + b, path, isDir) ==
      if LastMatch(glob, b, path, isDir).Some? then LastMatch(glob, b, path, isDir) else LastMatch(glob, a, path, isDir)
  {
    if b == [] {
      assert a + b == a;
    } else {
      var n := |b| - 1;
      LastMatchConcat(glob, a, b[..n], path, isDir);
      assert (a + b)[..|a + b| - 1] == a + b[..n] && (a + b)[|a + b| - 1] == b[n];
    }
  }

  /** The rules of directory `dir`, written for the root. */
  function Rebase(rules: seq<string>, dir: Path): seq<string> {
    if dir == [] then rules
    else seq(|rules|, i requires 0 <= i < |rules| => ChangeRule(rules[i], Join(dir)))
  }

  /** A run of consecutive rules of one sign, matched as one alternation. */
  datatype Group = Group(ignore: bool, rules: seq<string>)

  predicate AnyMatches(glob: Glob, rules: seq<string>, path: Path, isDir: bool) {
    exists i :: 0 <= i < |rules| && Matches(glob, Parse(rules[i]), path, isDir)
  }

  /** The groups of one more rule: it joins the last group of its sign, or opens one. */
  function AddRule(groups: seq<Group>, last: string): seq<Group> {
    var n := |groups| - 1;
    if groups != [] && groups[n].ignore == Parse(last).ignore then
      groups[..n] + [Group(groups[n].ignore, groups[n].rules + [last])]
    else groups + [Group(Parse(last).ignore, [last])]
  }

  /** Groups consecutive rules by sign. */
  function GroupRules(rules: seq<string>): seq<Group> {
    if rules == [] then [] else AddRule(GroupRules(rules[..|rules| - 1]), rules[|rules| - 1])
  }

  /** The sign of the last group that matches. */
  function LastGroup(glob: Glob, groups: seq<Group>, path: Path, isDir: bool): Option<bool> {
    if groups == [] then None
    else
      var g := groups[|groups| - 1];
      if AnyMatches(glob, g.rules, path, isDir) then Some(g.ignore)
      else LastGroup(glob, groups[..|groups| - 1], path, isDir)
  }

  lemma AnyMatchesAppend(glob: Glob, rules: seq<string>, last: string, path: Path, isDir: bool)
    ensures AnyMatches(glob, rules + [last], path, isDir) <==>
      AnyMatches(glob, rules, path, isDir) || Matches(glob, Parse(last), path, isDir)
  {
    var all := rules + [last];
    if AnyMatches(glob, rules, path, isDir) {
      var i :| 0 <= i < |rules| && Matches(glob, Parse(rules[i]), path, isDir);
      assert all[i] == rules[i];
    }
    if Matches(glob, Parse(last), path, isDir) {
      assert all[|rules|] == last;
    }
    if AnyMatches(glob, all, path, isDir) {
      var i :| 0 <= i < |all| && Matches(glob, Parse(all[i]), path, isDir);
      if i < |rules| { assert all[i] == rules[i]; }
    }
  }

  /** A list is decided by its last group, then by the groups before. */
  lemma LastGroupAppend(glob: Glob, groups: seq<Group>, g: Group, path: Path, isDir: bool)
    ensures LastGroup(glob, groups + [g], path, isDir) ==
      if AnyMatches(glob, g.rules, path, isDir) then Some(g.ignore) else LastGroup(glob, groups, path, isDir)
  {
    var all := groups + [g];
    assert all[..|all| - 1] == groups;
    assert all[|all| - 1] == g;
  }

  lemma OpenedGroup(glob: Glob, groups: seq<Group>, last: string, path: Path, isDir: bool)
    ensures LastGroup(glob, groups + [Group(Parse(last).ignore, [last])], path, isDir) ==
      if Matches(glob, Parse(last), path, isDir) then Some(Parse(last).ignore) else LastGroup(glob, groups, path, isDir)
  {
    LastGroupAppend(glob, groups, Group(Parse(last).ignore, [last]), path, isDir);
    AnyMatchesAppend(glob, [], last, path, isDir);
    assert [] + [last] == [last];
    assert !AnyMatches(glob, [], path, isDir);
  }

  lemma JoinedGroup(glob: Glob, groups: seq<Group>, g: Group, last: string, path: Path, isDir: bool)
    requires g.ignore == Parse(last).ignore
    ensures LastGroup(glob, groups + [Group(g.ignore, g.rules + [last])], path, isDir) ==
      if Matches(glob, Parse(last), path, isDir) then Some(Parse(last).ignore)
      else LastGroup(glob, groups + [g], path, isDir)
  {
    LastGroupAppend(glob, groups, Group(g.ignore, g.rules + [last]), path, isDir);
    LastGroupAppend(glob, groups, g, path, isDir);
    AnyMatchesAppend(glob, g.rules, last, path, isDir);
  }

  lemma AddedRule(glob: Glob, groups: seq<Group>, last: string, path: Path, isDir: bool)
    ensures LastGroup(glob, AddRule(groups, last), path, isDir) ==
      if Matches(glob, Parse(last), path, isDir) then Some(Parse(last).ignore) else LastGroup(glob, groups, path, isDir)
  {
    var n := |groups| - 1;
    if groups != [] && groups[n].ignore == Parse(last).ignore {
      JoinedGroup(glob, groups[..n], groups[n], last, path, isDir);
      assert groups[..n] + [groups[n]] == groups;
    } else {
      OpenedGroup(glob, groups, last, path, isDir);
    }
  }

  /** Matching by groups is matching by single rules, last match deciding. */
  lemma {:induction false} GroupsDecideLikeRules(glob: Glob, rules: seq<string>, path: Path, isDir: bool)
    ensures LastGroup(glob, GroupRules(rules), path, isDir) == LastMatch(glob, rules, path, isDir)
  {
    if rules != [] {
      var init, last := rules[..|rules| - 1], rules[|rules| - 1];
      GroupsDecideLikeRules(glob, init, path, isDir);
      AddedRule(glob, GroupRules(init), last, path, isDir);
    }
  }

  /** Whether a list of rules ignores a path. */
  method Ignores(glob: Glob, rules: seq<string>, path: Path, isDir: bool) returns (result: bool)
    ensures result <==> LastMatch(glob, rules, path, isDir) == Some(true)
  {
    var groups := GroupRules(rules);
    result := false;
    for i := 0 to |groups|
      invariant result <==> LastGroup(glob, groups[..i], path, isDir) == Some(true)
    {
      assert groups[..i + 1][..i] == groups[..i];
      if AnyMatches(glob, groups[i].rules, path, isDir) {
        result := groups[i].ignore;
      }
    }
    assert groups[..|groups|] == groups;
    GroupsDecideLikeRules(glob, rules, path, isDir);
  }
}
