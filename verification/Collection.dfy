/** Garbage collection of an object store: directory objects go before files. */
module Collection {
  import opened Common
  import opened Objects

  const DIR_SUFFIX := ".dir"

  predicate IsDirHash(h: Hash) {
    |h| >= |DIR_SUFFIX| && h[|h| - |DIR_SUFFIX|..] == DIR_SUFFIX
  }

  /** Objects that list files are named as directories, and the files they list are not. */
  ghost predicate Named(contents: Contents) {
    forall d, f :: d in contents && f in contents[d] ==> IsDirHash(d) && !IsDirHash(f)
  }

  function Select(listing: seq<Hash>, dirs: bool): (r: seq<Hash>)
    ensures forall h :: h in r <==> h in listing && IsDirHash(h) == dirs
  {
    if listing == [] then []
    else (if IsDirHash(listing[0]) == dirs then [listing[0]] else []) + Select(listing[1..], dirs)
  }

  /** The listing sorted by kind, directory objects first, otherwise in the order listed. */
  function GcOrder(listing: seq<Hash>): seq<Hash> {
    Select(listing, true) + Select(listing, false)
  }

  /** What is left after the unused hashes among `seen` have been removed. */
  function Remaining(store: set<Hash>, used: set<Hash>, seen: seq<Hash>): set<Hash> {
    store - set h | h in seen && h !in used
  }

  lemma DirsBeforeFiles(listing: seq<Hash>, k: nat, d: Hash, f: Hash)
    requires k <= |GcOrder(listing)| && f in GcOrder(listing)[..k] && !IsDirHash(f)
    requires d in listing && IsDirHash(d)
    ensures d in GcOrder(listing)[..k]
  {
    var order, dirs := GcOrder(listing), Select(listing, true);
    var j :| 0 <= j < k && order[j] == f;
    assert forall i :: 0 <= i < |dirs| ==> dirs[i] in dirs && order[i] == dirs[i];
    var i :| 0 <= i < |dirs| && dirs[i] == d;
    assert order[..k][i] == d;
  }

  /** Stopping anywhere in the collection leaves a closed store. */
  lemma EveryPrefixIsClosed(contents: Contents, store: set<Hash>, used: set<Hash>, listing: seq<Hash>, k: nat)
    requires Named(contents) && Closed(contents, store) && Closed(contents, used)
    requires store <= ToSet(listing) && k <= |GcOrder(listing)|
    ensures Closed(contents, Remaining(store, used, GcOrder(listing)[..k]))
  {
    var left := Remaining(store, used, GcOrder(listing)[..k]);
    forall d, f | d in contents && d in left && f in contents[d]
      ensures f in left
    {
      if f in GcOrder(listing)[..k] {
        DirsBeforeFiles(listing, k, d, f);
      }
    }
  }

  /** `r` removes what is not used, and directory objects before files. */
  ghost predicate RemovesInOrder(seen: seq<Hash>, used: set<Hash>, r: seq<Hash>) {
    && (forall h :: h in r <==> h in seen && h !in used)
    && forall i, j :: 0 <= i < j < |r| && IsDirHash(r[j]) ==> IsDirHash(r[i])
  }

  /** Nobody who looks at the store between two removals finds a directory without its files. */
  ghost predicate AlwaysClosed(contents: Contents, store: set<Hash>, removals: seq<Hash>) {
    forall k :: 0 <= k <= |removals| ==> Closed(contents, store - ToSet(removals[..k]))
  }

  lemma DirsFirst(listing: seq<Hash>, i: nat)
    requires i < |GcOrder(listing)|
    ensures IsDirHash(GcOrder(listing)[i]) <==> i < |Select(listing, true)|
  {
    var dirs, files := Select(listing, true), Select(listing, false);
    if i < |dirs| {
      assert GcOrder(listing)[i] == dirs[i] && dirs[i] in dirs;
    } else {
      assert GcOrder(listing)[i] == files[i - |dirs|] && files[i - |dirs|] in files;
    }
  }

  lemma RemovalStep(listing: seq<Hash>, used: set<Hash>, k: nat, r: seq<Hash>)
    requires k < |GcOrder(listing)| && RemovesInOrder(GcOrder(listing)[..k], used, r)
    ensures var h := GcOrder(listing)[k];
      RemovesInOrder(GcOrder(listing)[..k + 1], used, if h in used then r else r + [h])
  {
    var order := GcOrder(listing);
    var h := order[k];
    assert order[..k + 1] == order[..k] + [h];
    if h !in used && IsDirHash(h) {
      forall i | 0 <= i < |r|
        ensures IsDirHash(r[i])
      {
        assert r[i] in r;
        var j :| 0 <= j < k && order[j] == r[i];
        DirsFirst(listing, j);
        DirsFirst(listing, k);
      }
    }
  }

  lemma ClosedStep(contents: Contents, store: set<Hash>, removals: seq<Hash>, h: Hash)
    requires AlwaysClosed(contents, store, removals)
    requires Closed(contents, store - ToSet(removals) - {h})
    ensures AlwaysClosed(contents, store, removals + [h])
  {
    var all := removals + [h];
    ToSetConcat(removals, [h]);
    forall k | 0 <= k <= |all|
      ensures Closed(contents, store - ToSet(all[..k]))
    {
      if k <= |removals| {
        assert all[..k] == removals[..k];
      } else {
        assert all[..k] == all && store - ToSet(all) == store - ToSet(removals) - {h};
      }
    }
  }

  /** The collection stands before position `k` of its order. */
  ghost predicate Swept(contents: Contents, store: set<Hash>, used: set<Hash>, order: seq<Hash>, k: nat,
      left: set<Hash>, removed: bool, removals: seq<Hash>)
    requires k <= |order|
  {
    && left == Remaining(store, used, order[..k]) == store - ToSet(removals)
    && (removed <==> exists h :: h in order[..k] && h !in used)
    && RemovesInOrder(order[..k], used, removals)
    && (Collectable(contents, store, used) ==> Closed(contents, left) && AlwaysClosed(contents, store, removals))
  }

  ghost predicate Collectable(contents: Contents, store: set<Hash>, used: set<Hash>) {
    Named(contents) && Closed(contents, store) && Closed(contents, used)
  }

  lemma SweepKeeps(contents: Contents, store: set<Hash>, used: set<Hash>, listing: seq<Hash>, k: nat,
      left: set<Hash>, removed: bool, removals: seq<Hash>)
    requires k < |GcOrder(listing)| && GcOrder(listing)[k] in used
    requires Swept(contents, store, used, GcOrder(listing), k, left, removed, removals)
    ensures Swept(contents, store, used, GcOrder(listing), k + 1, left, removed, removals)
  {
    assert GcOrder(listing)[..k + 1] == GcOrder(listing)[..k] + [GcOrder(listing)[k]];
    RemovalStep(listing, used, k, removals);
  }

  lemma SweepRemoves(contents: Contents, store: set<Hash>, used: set<Hash>, listing: seq<Hash>, k: nat,
      left: set<Hash>, removed: bool, removals: seq<Hash>)
    requires ToSet(listing) == store && k < |GcOrder(listing)| && GcOrder(listing)[k] !in used
    requires Swept(contents, store, used, GcOrder(listing), k, left, removed, removals)
    ensures var h := GcOrder(listing)[k];
      Swept(contents, store, used, GcOrder(listing), k + 1, left - {h}, true, removals + [h])
  {
    var order, h := GcOrder(listing), GcOrder(listing)[k];
    assert order[..k + 1] == order[..k] + [h];
    RemovalStep(listing, used, k, removals);
    ToSetConcat(removals, [h]);
    assert left - {h} == Remaining(store, used, order[..k + 1]);
    if Collectable(contents, store, used) {
      EveryPrefixIsClosed(contents, store, used, listing, k + 1);
      ClosedStep(contents, store, removals, h);
    }
  }

  lemma SweptAll(contents: Contents, store: set<Hash>, used: set<Hash>, listing: seq<Hash>,
      left: set<Hash>, removed: bool, removals: seq<Hash>)
    requires ToSet(listing) == store
    requires Swept(contents, store, used, GcOrder(listing), |GcOrder(listing)|, left, removed, removals)
    ensures left == store * used && (removed <==> left != store) && RemovesInOrder(listing, used, removals)
  {
    var order := GcOrder(listing);
    assert order[..|order|] == order;
    assert forall h :: h in order <==> h in listing;
    assert forall h :: h in listing <==> h in store;
  }

  /** Removes every stored hash that is not used, directory objects first.  `listing` is what the
      store lists, `removals` what is removed in which order: the store stays closed throughout. */
  method Gc(store: set<Hash>, listing: seq<Hash>, used: set<Hash>, ghost contents: Contents)
    returns (left: set<Hash>, removed: bool, removals: seq<Hash>)
    requires ToSet(listing) == store
    ensures left == store * used
    ensures removed <==> left != store
    ensures RemovesInOrder(listing, used, removals)
    ensures Named(contents) && Closed(contents, store) && Closed(contents, used) ==>
      Closed(contents, left) && AlwaysClosed(contents, store, removals)
  {
    var order := GcOrder(listing);
    left, removed, removals := store, false, [];
    assert store - ToSet(removals[..0]) == store;
    for k := 0 to |order|
      invariant Swept(contents, store, used, order, k, left, removed, removals)
    {
      if order[k] !in used {
        SweepRemoves(contents, store, used, listing, k, left, removed, removals);
        left, removed, removals := left - {order[k]}, true, removals + [order[k]];
      } else {
        SweepKeeps(contents, store, used, listing, k, left, removed, removals);
      }
    }
    SweptAll(contents, store, used, listing, left, removed, removals);
  }
}
