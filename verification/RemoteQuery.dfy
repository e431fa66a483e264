/** Asking a remote which of some hashes it stores: the size estimate from a sample that may be
    cut short, the choice between single lookups and a traversal, and the sharded traversal. */
module RemoteQuery {
  import opened Common
  import opened HexPrefixes

  /** The constants of a remote tree. */
  datatype Tree = Tree(
    prefixLen: nat,
    thresholdSize: nat,
    weightMultiplier: nat,
    pageSize: nat,
    jobs: nat,
    canTraverse: bool)
  {
    predicate Valid() {
      prefixLen >= 2 && weightMultiplier > 0 && pageSize > 0 && jobs > 0
    }
  }

  /** The remote as the sequence in which it lists its hashes, each once.  Stored hashes start
      with lowercase hexadecimal digits. */
  ghost predicate Stored(tree: Tree, store: seq<Hash>) {
    NoDup(store) && forall h :: h in store ==> |h| >= tree.prefixLen && IsHex(h[..tree.prefixLen])
  }

  /** The stored hashes that begin with `prefix`, in listing order. */
  function ListHashes(store: seq<Hash>, prefix: string): (r: seq<Hash>)
    ensures forall h :: h in r <==> h in store && prefix <= h
    ensures |r| <= |store|
  {
    if store == [] then []
    else (if prefix <= store[0] then [store[0]] else []) + ListHashes(store[1..], prefix)
  }

  lemma {:induction false} ListHashesCount(store: seq<Hash>, prefix: string, h: Hash)
    ensures multiset(ListHashes(store, prefix))[h] == if prefix <= h then multiset(store)[h] else 0
  {
    if store != [] {
      var first := if prefix <= store[0] then [store[0]] else [];
      ListHashesCount(store[1..], prefix, h);
      CountConcat(first, ListHashes(store[1..], prefix), h);
      CountConcat([store[0]], store[1..], h);
      assert store == [store[0]] + store[1..];
    }
  }

  /** The listing, given up as soon as more than `limit` hashes have been seen. */
  method HashesWithLimit(store: seq<Hash>, limit: real, prefix: string) returns (r: seq<Hash>)
    ensures r <= ListHashes(store, prefix)
    ensures r == ListHashes(store, prefix) || |r| as real > limit
    ensures |r| > 1 ==> (|r| - 1) as real <= limit
  {
    var all := ListHashes(store, prefix);
    r := [];
    for i := 0 to |all|
      invariant r == all[..i] && (i > 0 ==> i as real <= limit)
    {
      r := r + [all[i]];
      if |r| as real > limit {
        return;
      }
    }
  }

  function Max(x: real, y: real): real {
    if x < y then y else x
  }

  /** The largest remote for which a traversal is still considered. */
  function MaxEstimationSize(tree: Tree, queried: nat): real
    requires tree.Valid()
  {
    Max(tree.thresholdSize as real, queried as real / tree.weightMultiplier as real * tree.pageSize as real)
  }

  /** Per-object lookups are preferred to a traversal of a remote of this size. */
  predicate PrefersLookups(tree: Tree, queried: nat, size: nat)
    requires tree.Valid()
  {
    var pages := size as real / tree.pageSize as real;
    var weight := if size > tree.thresholdSize then pages * tree.weightMultiplier as real else pages;
    queried as real < weight
  }

  lemma ScaleMonotone(x: real, y: real, p: real)
    requires x < y && p > 0.0
    ensures x * p < y * p
  {
  }

  lemma ScaleIff(q: real, s: real, p: real, w: real)
    requires p > 0.0
    ensures q < s / p * w <==> q * p < s * w
  {
    var x := s / p * w;
    assert s / p * p == s;
    assert x * p == s * w;
    if q < x {
      ScaleMonotone(q, x, p);
    }
    if x < q {
      ScaleMonotone(x, q, p);
    }
  }

  /** Lookups are preferred when there are fewer of them than pages, a page of a remote above the
      threshold counting several times; in whole numbers. */
  lemma PrefersLookupsIff(tree: Tree, queried: nat, size: nat)
    requires tree.Valid()
    ensures PrefersLookups(tree, queried, size) <==>
      queried * tree.pageSize < size * if size > tree.thresholdSize then tree.weightMultiplier else 1
  {
    var w := if size > tree.thresholdSize then tree.weightMultiplier else 1;
    ScaleIff(queried as real, size as real, tree.pageSize as real, w as real);
    assert (queried * tree.pageSize) as real == queried as real * tree.pageSize as real;
    assert (size * w) as real == size as real * w as real;
  }

  /** A traversal is considered up to the threshold, and up to a page for each queried hash, weighted. */
  lemma MaxEstimationIff(tree: Tree, queried: nat, size: nat)
    requires tree.Valid()
    ensures size as real <= MaxEstimationSize(tree, queried) <==>
      size <= tree.thresholdSize || size * tree.weightMultiplier <= queried * tree.pageSize
  {
    var q, w, p := queried as real, tree.weightMultiplier as real, tree.pageSize as real;
    assert q / w * p * w == q * p;
    if size as real <= q / w * p {
      ScaleWeakly(size as real, q / w * p, w);
    } else {
      ScaleMonotone(q / w * p, size as real, w);
    }
    assert (size * tree.weightMultiplier) as real == size as real * w;
    assert (queried * tree.pageSize) as real == q * p;
  }

  lemma ScaleWeakly(x: real, y: real, p: real)
    requires x <= y && p > 0.0
    ensures x * p <= y * p
  {
  }

  lemma ScaleStrict(q: real, w: real, p: real, size: real)
    requires w > 0.0 && p > 0.0 && size > q / w * p
    ensures q < size / p * w
  {
    var x, y := q / w, size / p;
    assert x * w == q && y * p == size;
    if y < x {
      ScaleMonotone(y, x, p);
    }
    ScaleMonotone(x, y, w);
  }

  /** A size above the largest considered one makes lookups preferred. */
  lemma OversizeMeansLookups(tree: Tree, queried: nat, size: nat)
    requires tree.Valid() && size as real > MaxEstimationSize(tree, queried)
    ensures PrefersLookups(tree, queried, size)
  {
    ScaleStrict(queried as real, tree.weightMultiplier as real, tree.pageSize as real, size as real);
  }

  lemma ScaleSample(total: nat, n: nat, max: real)
    requires total > 0 && n as real > max / total as real
    ensures (total * n) as real > max
  {
    var t := total as real;
    assert (max / t) * t == max;
    assert (n as real - max / t) * t > 0.0;
  }

  lemma RatioPositive(x: real, p: real)
    requires x >= 0.0 && p > 0.0
    ensures x / p >= 0.0
  {
  }

  lemma LimitPositive(tree: Tree, queried: nat)
    requires tree.Valid()
    ensures MaxEstimationSize(tree, queried) / Pow16(tree.prefixLen) as real >= 0.0
  {
    RatioPositive(MaxEstimationSize(tree, queried), Pow16(tree.prefixLen) as real);
  }

  /** The size of a remote with so many hashes in the sample. */
  function SizeEstimate(tree: Tree, sampled: nat): (size: nat)
    ensures size >= 1
  {
    var total := Pow16(tree.prefixLen);
    if sampled == 0 then total
    else
      AtLeast(sampled, total);
      total * sampled
  }

  /** A sample that was cut by the limit is of as many hashes as were listed, which are too many
      for a traversal. */
  lemma SampleIsOversize(tree: Tree, store: seq<Hash>, queried: nat, prefix: string, listed: seq<Hash>)
    requires tree.Valid() && NoDup(store) && listed <= ListHashes(store, prefix)
    requires |listed| as real > MaxEstimationSize(tree, queried) / Pow16(tree.prefixLen) as real
    ensures PrefersLookups(tree, queried, SizeEstimate(tree, |ToSet(listed)|))
  {
    ListingNoDup(store, prefix);
    var all := ListHashes(store, prefix);
    assert forall i :: 0 <= i < |listed| ==> listed[i] == all[i];
    SizeOfSample(listed);
    assert listed != [] by { LimitPositive(tree, queried); }
    ScaleSample(Pow16(tree.prefixLen), |listed|, MaxEstimationSize(tree, queried));
    OversizeMeansLookups(tree, queried, SizeEstimate(tree, |listed|));
  }

  /** A cut sample settles the choice as the complete one would have: for lookups. */
  lemma CutChangesNothing(tree: Tree, store: seq<Hash>, queried: nat, prefix: string, listed: seq<Hash>)
    requires tree.Valid() && NoDup(store) && listed <= ListHashes(store, prefix)
    requires |listed| as real > MaxEstimationSize(tree, queried) / Pow16(tree.prefixLen) as real
    ensures PrefersLookups(tree, queried, SizeEstimate(tree, |ToSet(listed)|))
    ensures PrefersLookups(tree, queried, SizeEstimate(tree, |ListHashes(store, prefix)|))
  {
    SampleIsOversize(tree, store, queried, prefix, listed);
    SampleIsOversize(tree, store, queried, prefix, ListHashes(store, prefix));
    ListingNoDup(store, prefix);
    SizeOfSample(ListHashes(store, prefix));
  }

  /** The whole size of the remote, as the stored hashes with the zero prefix suggest it. */
  ghost function FullEstimate(tree: Tree, store: seq<Hash>): nat {
    var n := |ListHashes(store, Zeros(tree.prefixLen))|;
    Pow16(tree.prefixLen) * if n == 0 then 1 else n
  }

  lemma FullEstimateIs(tree: Tree, store: seq<Hash>)
    requires NoDup(store)
    ensures var n := |ListHashes(store, Zeros(tree.prefixLen))|;
      FullEstimate(tree, store) == SizeEstimate(tree, n) && |ToSet(ListHashes(store, Zeros(tree.prefixLen)))| == n
  {
    ListingNoDup(store, Zeros(tree.prefixLen));
    SizeOfSample(ListHashes(store, Zeros(tree.prefixLen)));
  }

  /** The estimate, with the sample it was made from: all stored hashes with the zero prefix, or
      so many of them that the estimate rules a traversal out. */
  method EstimateRemoteSize(tree: Tree, store: seq<Hash>, queried: nat) returns (size: nat, sample: set<Hash>)
    requires tree.Valid() && Stored(tree, store)
    ensures size >= 1 && sample <= ToSet(ListHashes(store, Zeros(tree.prefixLen)))
    ensures sample == ToSet(ListHashes(store, Zeros(tree.prefixLen))) || PrefersLookups(tree, queried, size)
    ensures PrefersLookups(tree, queried, size) <==> PrefersLookups(tree, queried, FullEstimate(tree, store))
    ensures queried == 0 ==> sample == ToSet(ListHashes(store, Zeros(tree.prefixLen)))
  {
    var prefix, total := Zeros(tree.prefixLen), Pow16(tree.prefixLen);
    ghost var all := ListHashes(store, prefix);
    var listed := ListHashes(store, prefix);
    var max := if queried > 0 then MaxEstimationSize(tree, queried) else 0.0;
    if max != 0.0 {
      listed := HashesWithLimit(store, max / total as real, prefix);
    }
    sample := ToSet(listed);
    size := SizeEstimate(tree, |sample|);
    assert forall h :: h in listed ==> h in all;
    FullEstimateIs(tree, store);
    if listed != all {
      CutChangesNothing(tree, store, queried, prefix, listed);
    }
  }

  lemma {:induction false} ListingNoDup(store: seq<Hash>, prefix: string)
    requires NoDup(store)
    ensures NoDup(ListHashes(store, prefix))
  {
    if store != [] {
      ListingNoDup(store[1..], prefix);
      forall i | 0 <= i < |store| - 1
        ensures store[1..][i] != store[0]
      {
      }
      assert store[0] !in store[1..];
    }
  }

  lemma {:induction false} SizeOfSample(s: seq<Hash>)
    requires NoDup(s)
    ensures |ToSet(s)| == |s|
  {
    if s != [] {
      var n := |s| - 1;
      SizeOfSample(s[..n]);
      assert s == s[..n] + [s[n]];
      assert ToSet(s) == ToSet(s[..n]) + {s[n]};
    }
  }

  /** What listing by each prefix in turn yields. */
  function Traversal(store: seq<Hash>, prefixes: seq<string>): seq<Hash> {
    if prefixes == [] then []
    else Traversal(store, prefixes[..|prefixes| - 1]) + ListHashes(store, prefixes[|prefixes| - 1])
  }

  lemma CountConcat(a: seq<Hash>, b: seq<Hash>, h: Hash)
    ensures multiset(a + b)[h] == multiset(a)[h] + multiset(b)[h]
  {
  }

  /** The hash begins with the prefix at `at` and with no other. */
  ghost predicate MetAt(prefixes: seq<string>, h: Hash, at: nat) {
    forall j :: 0 <= j < |prefixes| ==> (prefixes[j] <= h <==> j == at)
  }

  lemma MetAtInit(prefixes: seq<string>, h: Hash, at: nat)
    requires MetAt(prefixes, h, at) && prefixes != []
    ensures var n := |prefixes| - 1; MetAt(prefixes[..n], h, at) && (prefixes[n] <= h <==> n == at)
  {
  }

  /** A hash that begins with the prefix at `at` and no other is met there, as often as stored. */
  lemma {:induction false} TraversalMeets(store: seq<Hash>, prefixes: seq<string>, h: Hash, at: nat)
    requires MetAt(prefixes, h, at)
    ensures multiset(Traversal(store, prefixes))[h] == if at < |prefixes| then multiset(store)[h] else 0
  {
    if prefixes != [] {
      var n := |prefixes| - 1;
      var init, last := Traversal(store, prefixes[..n]), ListHashes(store, prefixes[n]);
      MetAtInit(prefixes, h, at);
      TraversalMeets(store, prefixes[..n], h, at);
      ListHashesCount(store, prefixes[n], h);
      CountConcat(init, last, h);
      assert Traversal(store, prefixes) == init + last;
    }
  }

  lemma {:induction false} TraversalWithin(store: seq<Hash>, prefixes: seq<string>, h: Hash)
    requires h in Traversal(store, prefixes)
    ensures h in store
  {
    var n := |prefixes| - 1;
    if h !in ListHashes(store, prefixes[n]) {
      TraversalWithin(store, prefixes[..n], h);
    }
  }

  /** The sharded listing yields every stored hash exactly as often as a plain listing. */
  lemma TraversalIsListing(tree: Tree, store: seq<Hash>)
    requires tree.Valid() && Stored(tree, store)
    ensures multiset(Traversal(store, AllPrefixes(tree.prefixLen))) == multiset(store)
  {
    var all := AllPrefixes(tree.prefixLen);
    var r := Traversal(store, all);
    forall h
      ensures multiset(r)[h] == multiset(store)[h]
    {
      if h in store {
        forall j | 0 <= j < |all|
          ensures PrefixIndex(h, tree.prefixLen) < |all|
          ensures all[j] <= h <==> j == PrefixIndex(h, tree.prefixLen)
        {
          PrefixesPartition(h, tree.prefixLen, j);
        }
        TraversalMeets(store, all, h, PrefixIndex(h, tree.prefixLen));
      } else if h in r {
        TraversalWithin(store, all, h);
      }
    }
  }

  lemma TraversalFirst(store: seq<Hash>, first: string, rest: seq<string>)
    ensures Traversal(store, [first] + rest) == ListHashes(store, first) + Traversal(store, rest)
  {
    TraversalConcat(store, [first], rest);
    TraversalSnoc(store, [], first);
    assert [] + [first] == [first];
  }

  lemma {:induction false} TraversalConcat(store: seq<Hash>, a: seq<string>, b: seq<string>)
    ensures Traversal(store, a + b) == Traversal(store, a) + Traversal(store, b)
    decreases |b|
  {
    if b == [] {
      assert a + b == a;
    } else {
      TraversalConcatStep(store, a, b[..|b| - 1], b[|b| - 1]);
      assert b == b[..|b| - 1] + [b[|b| - 1]];
    }
  }

  lemma {:induction false} TraversalConcatStep(store: seq<Hash>, a: seq<string>, init: seq<string>, last: string)
    ensures Traversal(store, a + (init + [last])) == Traversal(store, a) + Traversal(store, init + [last])
    decreases |init| + 1, 0
  {
    TraversalConcat(store, a, init);
    TraversalSnoc(store, a + init, last);
    TraversalSnoc(store, init, last);
    ConcatAssoc(a, init, [last]);
    ConcatAssoc(Traversal(store, a), Traversal(store, init), ListHashes(store, last));
  }

  lemma ConcatAssoc<T>(x: seq<T>, y: seq<T>, z: seq<T>)
    ensures x + (y + z) == (x + y) + z
  {
  }

  lemma TraversalSnoc(store: seq<Hash>, prefixes: seq<string>, last: string)
    ensures Traversal(store, prefixes + [last]) == Traversal(store, prefixes) + ListHashes(store, last)
  {
    assert (prefixes + [last])[..|prefixes|] == prefixes;
  }

  /** The listings by each of `prefixes`, one after the other. */
  method ListByPrefixes(store: seq<Hash>, prefixes: seq<string>) returns (r: seq<Hash>)
    ensures r == Traversal(store, prefixes)
  {
    r := [];
    for i := 0 to |prefixes|
      invariant r == Traversal(store, prefixes[..i])
    {
      assert prefixes[..i + 1][..i] == prefixes[..i];
      r := r + ListHashes(store, prefixes[i]);
    }
    assert prefixes[..|prefixes|] == prefixes;
  }

  lemma SampleThenRest(tree: Tree, store: seq<Hash>, first: seq<Hash>)
    requires tree.Valid() && Stored(tree, store) && NoDup(first)
    requires ToSet(first) == ToSet(ListHashes(store, Zeros(tree.prefixLen)))
    ensures multiset(first + Traversal(store, TraversePrefixes(tree.prefixLen))) == multiset(store)
  {
    var zeros, prefixes := Zeros(tree.prefixLen), TraversePrefixes(tree.prefixLen);
    SameMembers(first, ListHashes(store, zeros), store, zeros);
    TraversalFirst(store, zeros, prefixes);
    TraversalIsListing(tree, store);
  }

  lemma FullListing(store: seq<Hash>)
    ensures multiset(ListHashes(store, "")) == multiset(store)
  {
    forall h
      ensures multiset(ListHashes(store, ""))[h] == multiset(store)[h]
    {
      ListHashesCount(store, "", h);
    }
  }

  /** All stored hashes, fetched at once for a small remote and by prefix for a larger one; the
      second way starts from the sample and needs it complete. */
  method ListHashesTraverse(tree: Tree, store: seq<Hash>, size: nat, sample: set<Hash>) returns (r: seq<Hash>)
    requires tree.Valid() && Stored(tree, store)
    requires sample == ToSet(ListHashes(store, Zeros(tree.prefixLen)))
    ensures multiset(r) == multiset(store)
  {
    if size as real / tree.pageSize as real < 256.0 / tree.jobs as real {
      FullListing(store);
      return ListHashes(store, "");
    }
    var first := SetToSeq(sample);
    var rest := ListByPrefixes(store, TraversePrefixes(tree.prefixLen));
    SampleThenRest(tree, store, first);
    r := first + rest;
  }

  lemma NoDupMultiset(s: seq<Hash>, h: Hash)
    requires NoDup(s)
    ensures multiset(s)[h] == if h in s then 1 else 0
  {
    if h in s {
      var i :| 0 <= i < |s| && s[i] == h;
      assert s == s[..i] + [s[i]] + s[i + 1..];
      assert h !in s[..i] && h !in s[i + 1..];
    }
  }

  lemma SameMembers(a: seq<Hash>, b: seq<Hash>, store: seq<Hash>, prefix: string)
    requires NoDup(a) && NoDup(store) && b == ListHashes(store, prefix) && ToSet(a) == ToSet(b)
    ensures multiset(a) == multiset(b)
  {
    ListingNoDup(store, prefix);
    forall h
      ensures multiset(a)[h] == multiset(b)[h]
    {
      NoDupMultiset(a, h);
      NoDupMultiset(b, h);
      assert h in a <==> h in ToSet(a);
      assert h in b <==> h in ToSet(b);
    }
  }

  /** Every stored hash exactly once. */
  method All(tree: Tree, store: seq<Hash>) returns (r: seq<Hash>)
    requires tree.Valid() && Stored(tree, store)
    ensures multiset(r) == multiset(store)
  {
    if !tree.canTraverse {
      FullListing(store);
      return ListHashes(store, "");
    }
    var size, sample := EstimateRemoteSize(tree, store, 0);
    r := ListHashesTraverse(tree, store, size, sample);
  }

  /** The hashes of `hashes` the remote has, looked up one by one. */
  method ListHashesExists(store: seq<Hash>, hashes: set<Hash>) returns (r: seq<Hash>)
    ensures NoDup(r) && ToSet(r) == hashes * ToSet(store)
  {
    r := SetToSeq(set h | h in hashes && h in store);
  }

  /** The queried hashes that the remote stores, whichever way they are found.  The remote is
      traversed when it can be, not one hash is asked for, and there are at least as many of them as
      pages, a page of a remote above the threshold counting several times; that the sample may have
      been cut has no influence. */
  method HashesExist(tree: Tree, store: seq<Hash>, hashes: set<Hash>) returns (r: seq<Hash>, traversed: bool)
    requires tree.Valid() && Stored(tree, store)
    ensures NoDup(r) && ToSet(r) == hashes * ToSet(store)
    ensures var size := FullEstimate(tree, store);
      traversed == (&& |hashes| != 1 && tree.canTraverse
        && |hashes| * tree.pageSize >= size * if size > tree.thresholdSize then tree.weightMultiplier else 1)
  {
    traversed := false;
    if |hashes| == 1 || !tree.canTraverse {
      r := ListHashesExists(store, hashes);
      return;
    }
    PrefersLookupsIff(tree, |hashes|, FullEstimate(tree, store));
    var size, sample := EstimateRemoteSize(tree, store, |hashes|);
    if PrefersLookups(tree, |hashes|, size) {
      var known := SetToSeq(hashes * sample);
      var found := ListHashesExists(store, hashes - sample);
      NoDupConcat(known, found);
      ToSetConcat(known, found);
      assert sample <= ToSet(store);
      r := known + found;
      return;
    }
    traversed := true;
    var remote := ListHashesTraverse(tree, store, size, sample);
    assert ToSet(remote) == ToSet(store) by {
      assert forall h :: h in remote <==> h in multiset(remote);
      assert forall h :: h in store <==> h in multiset(store);
    }
    r := SetToSeq(hashes * ToSet(remote));
  }
}
