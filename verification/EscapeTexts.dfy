/** When re-basing keeps the meaning of an ignore rule, read off the text of the rule. */
module EscapeTexts {
  import opened GitIgnore
  import opened Escapes

  /** No bracket opens, and no backslash stands alone at the end. */
  predicate Readable(p: string)
    decreases |p|
  {
    if p == "" then true
    else if p[0] == '[' then false
    else if p[0] == '\\' then |p| > 1 && Readable(p[2..])
    else Readable(p[1..])
  }

  /** A bracket follows an even number of backslashes. */
  predicate Bracketed(p: string)
    decreases |p|
  {
    p != "" && (p[0] == '[' || (p[0] == '\\' && |p| > 1 && p[1] == '\\' && Bracketed(p[2..])))
  }

  /** A backslash in front matters before an odd number of further backslashes, and otherwise when
      these are followed by a wildcard or nothing. */
  predicate Matters(p: string)
    decreases |p|
  {
    || p == "" || p[0] == '*' || p[0] == '?'
    || (p[0] == '\\' && (|p| == 1 || p[1] != '\\' || Matters(p[2..])))
  }

  /** The text of a rule that starts with a backslash can be read without knowing what brackets
      match. */
  predicate Legible(rule: string) {
    StartsWith(Core(rule), "\\") && Core(rule) != "\\" ==>
      && !Bracketed(Head(rule)) && (Readable("\\" + Head(rule)) || Readable(Head(rule)))
      && forall s :: s in Others(rule) ==> Readable(s)
  }

  /** The rule starts with a backslash that re-basing must not drop.  It may be dropped where a
      component is empty, since no path has an empty name. */
  predicate NeedsBackslash(rule: string) {
    && StartsWith(Core(rule), "\\")
    && (Core(rule) == "\\" || (Head(rule) != "" && "" !in Others(rule) && Matters(Head(rule))))
  }

  lemma {:induction false} AltersIsMatters(glob: Glob, p: string)
    requires !Bracketed(p)
    ensures Alters(glob, p) <==> Matters(p)
    decreases |p|
  {
    if p != "" && p[0] == '\\' && |p| > 1 && p[1] == '\\' {
      AltersIsMatters(glob, p[2..]);
    }
  }

  /** A readable pattern matches the name that has `x` for every wildcard. */
  lemma {:induction false} ReadableMatches(glob: Glob, p: string) returns (name: string)
    requires ReadsWildcards(glob) && Readable(p) && !HasSlash(p)
    ensures glob(p, name) && !HasSlash(name) && (p != "" ==> name != "")
    decreases |p|
  {
    if p == "" {
      name := "";
    } else if p[0] == '\\' {
      var rest := ReadableMatches(glob, p[2..]);
      name := [p[1]] + rest;
      assert name[1..] == rest && p[1] in p;
    } else {
      var rest := ReadableMatches(glob, p[1..]);
      name := [if p[0] == '*' || p[0] == '?' then 'x' else p[0]] + rest;
      assert name[1..] == rest && p[0] in p;
    }
    assert ReadsAt(glob, p, name);
  }

  lemma ReadableIsMatchable(glob: Glob, p: string)
    requires ReadsWildcards(glob) && Readable(p) && !HasSlash(p) && p != ""
    ensures Matchable(glob, p)
  {
    var name := ReadableMatches(glob, p);
  }

  lemma EmptyIsUnmatchable(glob: Glob)
    requires ReadsWildcards(glob)
    ensures !Matchable(glob, "") && !Matchable(glob, "\\")
  {
    forall name ensures glob("", name) ==> name == "" {
      assert ReadsAt(glob, "", name);
    }
    forall name ensures !glob("\\", name) {
      assert ReadsAt(glob, "\\", name);
    }
  }

  lemma {:induction false} PartsHaveNoSlash(s: string)
    ensures forall p :: p in Split(s) ==> !HasSlash(p)
  {
    if s != "" {
      PartsHaveNoSlash(s[1..]);
      assert Split(s[1..])[0] in Split(s[1..]);
    }
  }

  lemma ComponentsHaveNoSlash(rule: string)
    requires Escaped(rule)
    ensures !HasSlash("\\" + Head(rule)) && !HasSlash(Head(rule))
    ensures forall s :: s in Others(rule) ==> !HasSlash(s)
  {
    var parts := Split(Core(rule));
    PartsHaveNoSlash(Core(rule));
    CoreSplit(Core(rule));
    assert parts[0] in parts && parts[0] == "\\" + Head(rule);
    assert forall s :: s in Trailing(parts).0 ==> s in parts;
  }

  lemma SatisfiableText(glob: Glob, rule: string)
    requires Escaped(rule) && Legible(rule) && ReadsWildcards(glob)
    ensures Satisfiable(glob, rule) <==> Head(rule) != "" && "" !in Others(rule)
  {
    var h, others := Head(rule), Others(rule);
    ComponentsHaveNoSlash(rule);
    EmptyIsUnmatchable(glob);
    if h != "" {
      if Readable(h) {
        ReadableIsMatchable(glob, h);
      } else {
        ReadableIsMatchable(glob, "\\" + h);
      }
    }
    forall s | s in others && s != ""
      ensures Matchable(glob, s)
    {
      ReadableIsMatchable(glob, s);
    }
    assert h == "" ==> "\\" + h == "\\";
  }

  /** Whatever the glob, re-basing keeps the meaning of a rule exactly when the rule does not start
      with a backslash it needs. */
  lemma MeaningKeptIff(glob: Glob, rule: string, rel: seq<string>)
    requires Shaped(rule) && Legible(rule) && PlainDirs(rel) && Literal(glob, rel) && ReadsWildcards(glob)
    ensures KeepsMeaning(glob, rule, rel) <==> !NeedsBackslash(rule)
  {
    RebasingKeepsMeaningIff(glob, rule, rel);
    if Core(rule) == "\\" {
      SplitNoSlash("\\");
    } else if StartsWith(Core(rule), "\\") {
      SatisfiableText(glob, rule);
      AltersIsMatters(glob, Head(rule));
    }
  }
}
