/** The trie of all outputs: lookups by prefix, and the rejection of equal or nested outputs. */
module OutsTrie {
  import opened Common
  import opened Paths
  import opened Stages

  /** An output path together with the stage that owns it. */
  datatype Owned = Owned(path: Path, stage: Stage)

  type Trie = map<Path, Owned>

  datatype Error =
    | Duplicate(first: Owned, second: Owned)
    | Overlapping(parent: Owned, child: Owned)

  /** The shortest key at least as long as `n` that is a prefix of `key`. */
  function ShortestPrefix(trie: Trie, key: Path, n: nat := 0): (r: Option<Owned>)
    requires n <= |key|
    ensures r.None? ==> forall i :: n <= i <= |key| ==> key[..i] !in trie
    ensures r.Some? ==> exists i ::
      && n <= i <= |key| && key[..i] in trie && r.value == trie[key[..i]]
      && (forall j :: n <= j < i ==> key[..j] !in trie)
    decreases |key| - n
  {
    if key[..n] in trie then Some(trie[key[..n]])
    else if n == |key| then None
    else ShortestPrefix(trie, key, n + 1)
  }

  /** The values of all keys that are prefixes of `key`, `key` included. */
  function Prefixes(trie: Trie, key: Path): set<Owned> {
    set k | k in trie && k <= key :: trie[k]
  }

  function HasSubtrie(trie: Trie, key: Path): bool {
    exists k :: k in trie && key < k
  }

  /** The values of all keys that extend `key`, `key` included. */
  function Values(trie: Trie, key: Path): set<Owned> {
    set k | k in trie && key <= k :: trie[k]
  }

  function OwnedOuts(s: Stage, outs: seq<Out>): (r: seq<Owned>)
    ensures |r| == |outs|
    ensures forall i :: 0 <= i < |outs| ==> r[i] == Owned(outs[i].path, s)
  {
    seq(|outs|, i requires 0 <= i < |outs| => Owned(outs[i].path, s))
  }

  /** All outputs of all stages, in declaration order. */
  function AllOuts(stages: seq<Stage>): seq<Owned> {
    if stages == [] then []
    else AllOuts(stages[..|stages| - 1]) + OwnedOuts(stages[|stages| - 1], stages[|stages| - 1].outs)
  }

  ghost predicate NonOverlapping(outs: seq<Owned>) {
    forall i, j :: 0 <= i < j < |outs| ==> !Overlaps(outs[i].path, outs[j].path)
  }

  /** The trie holds exactly `outs`. */
  ghost predicate Holds(trie: Trie, outs: seq<Owned>) {
    && (forall k :: k in trie ==> trie[k] in outs && trie[k].path == k)
    && (forall o :: o in outs ==> o.path in trie && trie[o.path] == o)
  }

  lemma ClashIsOverlap(trie: Trie, outs: seq<Owned>, o: Owned)
    requires Holds(trie, outs) && o.path !in trie
    ensures (exists i :: 0 <= i < |outs| && Overlaps(outs[i].path, o.path)) <==>
      HasSubtrie(trie, o.path) || ShortestPrefix(trie, o.path).Some?
  {
    forall i | 0 <= i < |outs| && Overlaps(outs[i].path, o.path)
      ensures HasSubtrie(trie, o.path) || ShortestPrefix(trie, o.path).Some?
    {
      var k := outs[i].path;
      assert outs[i] in outs;
      OverlapIsPrefix(k, o.path);
      if k <= o.path { assert o.path[..|k|] == k; }
    }
    if HasSubtrie(trie, o.path) {
      var k :| k in trie && o.path < k;
      OverlapIsPrefix(k, o.path);
      var i :| 0 <= i < |outs| && outs[i] == trie[k];
      assert Overlaps(outs[i].path, o.path);
    } else if ShortestPrefix(trie, o.path).Some? {
      var n :| 0 <= n <= |o.path| && o.path[..n] in trie;
      var k := o.path[..n];
      OverlapIsPrefix(k, o.path);
      var i :| 0 <= i < |outs| && outs[i] == trie[k];
      assert Overlaps(outs[i].path, o.path);
    }
  }

  lemma AppendOut(trie: Trie, outs: seq<Owned>, o: Owned)
    requires Holds(trie, outs) && NonOverlapping(outs) && o.path !in trie
    requires !HasSubtrie(trie, o.path) && ShortestPrefix(trie, o.path).None?
    ensures Holds(trie[o.path := o], outs + [o]) && NonOverlapping(outs + [o])
  {
    ClashIsOverlap(trie, outs, o);
  }

  lemma {:induction false} AllOutsPrefix(stages: seq<Stage>, n: nat)
    requires n <= |stages|
    ensures AllOuts(stages[..n]) <= AllOuts(stages)
  {
    if n < |stages| {
      var m := |stages| - 1;
      assert stages[..m][..n] == stages[..n];
      AllOutsPrefix(stages[..m], n);
    } else {
      assert stages[..n] == stages;
    }
  }

  /** Where the loops stand: the first `i` stages and the first `j` outputs of the next. */
  function Seen(stages: seq<Stage>, i: nat, j: nat): seq<Owned>
    requires i < |stages| && j <= |stages[i].outs|
  {
    AllOuts(stages[..i]) + OwnedOuts(stages[i], stages[i].outs[..j])
  }

  lemma SeenPrefix(stages: seq<Stage>, i: nat, j: nat)
    requires i < |stages| && j < |stages[i].outs|
    ensures Seen(stages, i, j + 1) == Seen(stages, i, j) + [Owned(stages[i].outs[j].path, stages[i])]
    ensures Seen(stages, i, j + 1) <= AllOuts(stages)
  {
    assert stages[..i + 1][..i] == stages[..i];
    AllOutsPrefix(stages, i + 1);
    assert Seen(stages, i, j + 1) <= AllOuts(stages[..i + 1]);
  }

  lemma AddOutDecision(trie: Trie, out: Owned, seen: seq<Owned>)
    requires Holds(trie, seen) && NonOverlapping(seen)
    ensures NonOverlapping(seen + [out]) <==>
      out.path !in trie && !HasSubtrie(trie, out.path) && ShortestPrefix(trie, out.path).None?
  {
    if out.path in trie {
      var k :| 0 <= k < |seen| && seen[k] == trie[out.path];
      OverlapAtEnd(seen, out, k);
    } else {
      ClashIsOverlap(trie, seen, out);
      if HasSubtrie(trie, out.path) || ShortestPrefix(trie, out.path).Some? {
        var k :| 0 <= k < |seen| && Overlaps(seen[k].path, out.path);
        OverlapAtEnd(seen, out, k);
      } else {
        AppendOut(trie, seen, out);
      }
    }
  }

  lemma ClashingPair(trie: Trie, out: Owned, seen: seq<Owned>)
    requires Holds(trie, seen) && out.path !in trie
    ensures HasSubtrie(trie, out.path) ==> Values(trie, out.path) != {}
    ensures forall o :: o in Values(trie, out.path) ==> o in seen && IsIn(o.path, out.path)
    ensures var p := ShortestPrefix(trie, out.path); p.Some? ==> p.value in seen && IsIn(out.path, p.value.path)
  {
    if HasSubtrie(trie, out.path) {
      var k :| k in trie && out.path < k;
      assert trie[k] in Values(trie, out.path);
    }
    forall o | o in Values(trie, out.path)
      ensures o in seen && IsIn(o.path, out.path)
    {
      assert o.path in trie && out.path <= o.path && o.path != out.path;
    }
  }

  /** One output against the trie: rejected exactly when it overlaps what is already there. */
  method AddOut(trie: Trie, out: Owned, ghost seen: seq<Owned>) returns (r: Result<Trie, Error>)
    requires Holds(trie, seen) && NonOverlapping(seen)
    ensures r.Ok? <==> NonOverlapping(seen + [out])
    ensures r.Ok? ==> Holds(r.value, seen + [out])
    ensures r.Err? && r.error.Duplicate? ==>
      r.error.first == out && r.error.second in seen && r.error.second.path == out.path
    ensures r.Err? && r.error.Overlapping? ==>
      && r.error.parent in seen + [out] && r.error.child in seen + [out]
      && IsIn(r.error.child.path, r.error.parent.path)
  {
    AddOutDecision(trie, out, seen);
    if out.path in trie {
      return Err(Duplicate(out, trie[out.path]));
    }
    ClashingPair(trie, out, seen);
    if HasSubtrie(trie, out.path) {
      var overlapping :| overlapping in Values(trie, out.path);
      return Err(Overlapping(out, overlapping));
    }
    var parent := ShortestPrefix(trie, out.path);
    if parent.Some? {
      return Err(Overlapping(parent.value, out));
    }
    AppendOut(trie, seen, out);
    r := Ok(trie[out.path := out]);
  }

  lemma OverlapAtEnd(seen: seq<Owned>, out: Owned, k: nat)
    requires k < |seen| && Overlaps(seen[k].path, out.path)
    ensures !NonOverlapping(seen + [out])
  {
    var s := seen + [out];
    assert s[k] == seen[k] && s[|seen|] == out;
  }

  lemma PrefixNonOverlapping(a: seq<Owned>, b: seq<Owned>)
    requires a <= b && NonOverlapping(b)
    ensures NonOverlapping(a)
  {
    assert forall i :: 0 <= i < |a| ==> a[i] == b[i];
  }

  lemma ClashRemains(a: seq<Owned>, b: seq<Owned>)
    requires a <= b && !NonOverlapping(a)
    ensures !NonOverlapping(b) && forall o :: o in a ==> o in b
  {
    if NonOverlapping(b) {
      PrefixNonOverlapping(a, b);
    }
  }

  method BuildOutsTrie(stages: seq<Stage>) returns (r: Result<Trie, Error>)
    ensures r.Ok? <==> NonOverlapping(AllOuts(stages))
    ensures r.Ok? ==> Holds(r.value, AllOuts(stages))
    ensures r.Err? && r.error.Duplicate? ==>
      && r.error.first in AllOuts(stages) && r.error.second in AllOuts(stages)
      && r.error.first.path == r.error.second.path
    ensures r.Err? && r.error.Overlapping? ==>
      && r.error.parent in AllOuts(stages) && r.error.child in AllOuts(stages)
      && IsIn(r.error.child.path, r.error.parent.path)
  {
    var trie: Trie := map[];
    for i := 0 to |stages|
      invariant NonOverlapping(AllOuts(stages[..i])) && Holds(trie, AllOuts(stages[..i]))
    {
      assert Seen(stages, i, 0) == AllOuts(stages[..i]);
      for j := 0 to |stages[i].outs|
        invariant NonOverlapping(Seen(stages, i, j)) && Holds(trie, Seen(stages, i, j))
      {
        SeenPrefix(stages, i, j);
        r := AddOut(trie, Owned(stages[i].outs[j].path, stages[i]), Seen(stages, i, j));
        if r.Err? {
          ClashRemains(Seen(stages, i, j + 1), AllOuts(stages));
          return;
        }
        trie := r.value;
      }
      assert stages[i].outs[..|stages[i].outs|] == stages[i].outs;
      assert stages[..i + 1][..i] == stages[..i];
    }
    assert stages[..|stages|] == stages;
    r := Ok(trie);
  }

  lemma {:induction false} CountedTwice(outs: seq<Owned>, o: Owned)
    requires multiset(outs)[o] >= 2
    ensures exists i, j :: 0 <= i < j < |outs| && outs[i] == o && outs[j] == o
  {
    var n := |outs| - 1;
    var init := outs[..n];
    assert outs == init + [outs[n]];
    if outs[n] == o {
      assert o in multiset(init);
      var i :| 0 <= i < n && outs[i] == o;
    } else {
      CountedTwice(init, o);
      var i, j :| 0 <= i < j < |init| && init[i] == o && init[j] == o;
      assert outs[i] == o && outs[j] == o;
    }
  }

  lemma TwiceIsCounted(outs: seq<Owned>, i: nat, j: nat)
    requires i < j < |outs| && outs[i] == outs[j]
    ensures multiset(outs)[outs[i]] >= 2
  {
    assert outs == outs[..j] + outs[j..];
    assert outs[..j][i] == outs[i] && outs[j..][0] == outs[i];
    assert outs[i] in multiset(outs[..j]) && outs[i] in multiset(outs[j..]);
  }

  ghost predicate NonOverlappingBag(outs: multiset<Owned>) {
    && (forall o :: o in outs ==> outs[o] == 1)
    && (forall o, p :: o in outs && p in outs && o != p ==> !Overlaps(o.path, p.path))
  }

  lemma NonOverlappingAsBag(outs: seq<Owned>)
    ensures NonOverlapping(outs) <==> NonOverlappingBag(multiset(outs))
  {
    if NonOverlapping(outs) {
      forall o | o in multiset(outs)
        ensures multiset(outs)[o] == 1
      {
        if multiset(outs)[o] >= 2 {
          CountedTwice(outs, o);
        }
      }
    }
    if NonOverlappingBag(multiset(outs)) {
      forall i, j | 0 <= i < j < |outs|
        ensures !Overlaps(outs[i].path, outs[j].path)
      {
        if outs[i] == outs[j] {
          TwiceIsCounted(outs, i, j);
        }
        assert outs[i] in multiset(outs) && outs[j] in multiset(outs);
      }
    }
  }

  /** Acceptance does not depend on the order in which outputs are inserted. */
  lemma AcceptanceIgnoresOrder(a: seq<Stage>, b: seq<Stage>)
    requires multiset(AllOuts(a)) == multiset(AllOuts(b))
    ensures NonOverlapping(AllOuts(a)) <==> NonOverlapping(AllOuts(b))
  {
    NonOverlappingAsBag(AllOuts(a));
    NonOverlappingAsBag(AllOuts(b));
  }

  /** The two trie lookups made for a dependency find exactly the overlapping outputs. */
  lemma LookupsAreOverlaps(trie: Trie, outs: seq<Owned>, dep: Path, o: Owned)
    requires Holds(trie, outs)
    ensures o in Prefixes(trie, dep) + (if HasSubtrie(trie, dep) then Values(trie, dep) else {})
      <==> o in outs && Overlaps(dep, o.path)
  {
    OverlapIsPrefix(dep, o.path);
    if o in outs && Overlaps(dep, o.path) {
      assert trie[o.path] == o;
    }
  }
}
