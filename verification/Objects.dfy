/** Object hashes, the contents of directory objects, and the used set with its children. */
module Objects {

  type Hash = string

  /** The files each directory object lists. */
  type Contents = map<Hash, set<Hash>>

  /** A directory object is only stored together with all the files it lists. */
  ghost predicate Closed(contents: Contents, store: set<Hash>) {
    forall d :: d in contents && d in store ==> contents[d] <= store
  }

  datatype Item = Item(names: set<string>, children: map<Hash, Item>)

  type Items = map<Hash, Item>

  const NO_ITEM := Item({}, map[])

  /** All hashes below an item. */
  function ChildKeys(item: Item): set<Hash> {
    item.children.Keys + set k, h | k in item.children && h in ChildKeys(item.children[k]) :: h
  }

  /** A flat set of all keys, children included. */
  function SchemeKeys(items: Items): set<Hash> {
    items.Keys + set k, h | k in items && h in ChildKeys(items[k]) :: h
  }

  function WithSuffix(names: set<string>, suffix: string): set<string> {
    set n | n in names :: n + suffix
  }

  function Merge(item: Item, other: Item, suffix: string): Item
    decreases other
  {
    Item(item.names + WithSuffix(other.names, suffix),
         map k | k in item.children.Keys + other.children.Keys ::
           if k !in other.children then item.children[k]
           else Merge(if k in item.children then item.children[k] else NO_ITEM, other.children[k], ""))
  }

  function MergeAll(items: Items, other: Items, suffix: string): Items {
    map k | k in items.Keys + other.Keys ::
      if k !in other then items[k]
      else Merge(if k in items then items[k] else NO_ITEM, other[k], suffix)
  }

  /** The names of what is reached over `path` below an item. */
  ghost function NamesAt(item: Item, path: seq<Hash>): set<string>
    decreases |path|
  {
    if path == [] then item.names
    else if path[0] in item.children then NamesAt(item.children[path[0]], path[1..])
    else {}
  }

  /** Updating an item unites the names at every level; those of the item itself get the suffix, those
      below it do not. */
  lemma {:induction false} MergeNames(item: Item, other: Item, suffix: string, path: seq<Hash>)
    ensures forall name :: name in NamesAt(Merge(item, other, suffix), path) <==>
      || name in NamesAt(item, path)
      || (path != [] && name in NamesAt(other, path))
      || (path == [] && exists n :: n in other.names && name == n + suffix)
    decreases |path|
  {
    if path != [] && path[0] in other.children {
      var own := if path[0] in item.children then item.children[path[0]] else NO_ITEM;
      MergeNames(own, other.children[path[0]], "", path[1..]);
      Unsuffixed(other.children[path[0]].names);
      if path[0] !in item.children {
        NothingAt(path[1..]);
      }
    }
  }

  lemma Unsuffixed(names: set<string>)
    ensures forall name :: name in names <==> exists n :: n in names && name == n + ""
  {
    forall name
      ensures name + "" == name
    {
    }
    forall name | name in names
      ensures exists n :: n in names && name == n + ""
    {
      assert name == name + "";
    }
  }

  lemma NothingAt(path: seq<Hash>)
    ensures NamesAt(NO_ITEM, path) == {}
  {
  }

  /** The names at an item of a used set, and below it. */
  ghost function ItemNames(items: Items, k: Hash, path: seq<Hash>): set<string> {
    if k in items then NamesAt(items[k], path) else {}
  }

  ghost function Own(own: bool, name: string): set<string> {
    if own then {name} else {}
  }

  /** Every item of another used set updates the one of the same hash. */
  lemma MergeAllNames(items: Items, other: Items, suffix: string, k: Hash, path: seq<Hash>)
    ensures forall name :: name in ItemNames(MergeAll(items, other, suffix), k, path) <==>
      || name in ItemNames(items, k, path)
      || (path != [] && name in ItemNames(other, k, path))
      || (path == [] && k in other && exists n :: n in other[k].names && name == n + suffix)
  {
    if k in other {
      MergeNames(if k in items then items[k] else NO_ITEM, other[k], suffix, path);
      if k !in items {
        NothingAt(path);
      }
    }
  }

  /** Recording children leaves the names of the item itself as they are. */
  lemma WithChildrenNames(items: Items, checksum: Hash, cache: Items, suffix: string, k: Hash, path: seq<Hash>)
    ensures path == [] || k != checksum ==>
      ItemNames(WithChildren(items, checksum, cache, suffix), k, path) == ItemNames(items, k, path)
    ensures path != [] ==> forall name ::
      name in ItemNames(WithChildren(items, checksum, cache, suffix), checksum, path) <==>
        || name in ItemNames(items, checksum, path)
        || (|path| > 1 && name in ItemNames(cache, path[0], path[1..]))
        || (|path| == 1 && path[0] in cache && exists n :: n in cache[path[0]].names && name == n + suffix)
  {
    if path != [] {
      var item := if checksum in items then items[checksum] else NO_ITEM;
      var m := WithChildren(items, checksum, cache, suffix);
      MergeAllNames(item.children, cache, suffix, path[0], path[1..]);
      assert ItemNames(m, checksum, path) == ItemNames(MergeAll(item.children, cache, suffix), path[0], path[1..]);
      assert ItemNames(items, checksum, path) == ItemNames(item.children, path[0], path[1..]);
      assert |path| > 1 <==> path[1..] != [];
    }
  }

  /** What lies below one child of an item, if it has that child. */
  function Below(item: Item, k: Hash): set<Hash> {
    if k in item.children then ChildKeys(item.children[k]) else {}
  }

  /** The keys below an item, one level unfolded. */
  lemma ChildKeysAt(item: Item, h: Hash)
    ensures h in ChildKeys(item) <==> h in item.children || exists k :: k in item.children && h in Below(item, k)
  {
  }

  lemma {:induction false} MergeKeysAt(item: Item, other: Item, m: Item, h: Hash)
    requires m.children.Keys == item.children.Keys + other.children.Keys
    requires forall k :: k in m.children ==> Below(m, k) == Below(item, k) + Below(other, k)
    ensures h in ChildKeys(m) <==> h in ChildKeys(item) + ChildKeys(other)
  {
    ChildKeysAt(item, h);
    ChildKeysAt(other, h);
    ChildKeysAt(m, h);
    if k :| k in item.children && h in Below(item, k) {
      assert k in m.children && h in Below(m, k);
    }
    if k :| k in other.children && h in Below(other, k) {
      assert k in m.children && h in Below(m, k);
    }
  }

  lemma {:induction false} MergeKeys(item: Item, other: Item, suffix: string)
    ensures ChildKeys(Merge(item, other, suffix)) == ChildKeys(item) + ChildKeys(other)
    decreases other
  {
    var m := Merge(item, other, suffix);
    forall k | k in m.children
      ensures Below(m, k) == Below(item, k) + Below(other, k)
    {
      if k in other.children {
        MergeKeys(if k in item.children then item.children[k] else NO_ITEM, other.children[k], "");
      }
    }
    forall h
      ensures h in ChildKeys(m) <==> h in ChildKeys(item) + ChildKeys(other)
    {
      MergeKeysAt(item, other, m, h);
    }
  }

  /** Every directory object among an item's descendants lists only files below it. */
  ghost predicate CompleteItem(contents: Contents, hash: Hash, item: Item)
    decreases item
  {
    && (hash in contents ==> contents[hash] <= ChildKeys(item))
    && forall k :: k in item.children ==> CompleteItem(contents, k, item.children[k])
  }

  /** The recorded children of every directory object are (at least) its full contents. */
  ghost predicate Complete(contents: Contents, items: Items) {
    forall k :: k in items ==> CompleteItem(contents, k, items[k])
  }

  lemma {:induction false} MergeComplete(contents: Contents, hash: Hash, item: Item, other: Item, suffix: string)
    requires item == NO_ITEM || CompleteItem(contents, hash, item)
    requires CompleteItem(contents, hash, other)
    ensures CompleteItem(contents, hash, Merge(item, other, suffix))
    decreases other
  {
    var m := Merge(item, other, suffix);
    MergeKeys(item, other, suffix);
    forall k | k in m.children
      ensures CompleteItem(contents, k, m.children[k])
    {
      if k in other.children {
        MergeComplete(contents, k, if k in item.children then item.children[k] else NO_ITEM, other.children[k], "");
      }
    }
  }

  lemma {:induction false} ItemKeysClosed(contents: Contents, hash: Hash, item: Item, d: Hash)
    requires CompleteItem(contents, hash, item) && d in {hash} + ChildKeys(item) && d in contents
    ensures contents[d] <= ChildKeys(item)
    decreases item
  {
    if d != hash {
      if d in item.children {
        ItemKeysClosed(contents, d, item.children[d], d);
      } else {
        var k :| k in item.children && d in ChildKeys(item.children[k]);
        ItemKeysClosed(contents, k, item.children[k], d);
      }
    }
  }

  /** The used set is closed. */
  lemma UsedSetClosed(contents: Contents, items: Items)
    requires Complete(contents, items)
    ensures Closed(contents, SchemeKeys(items))
  {
    forall d | d in contents && d in SchemeKeys(items)
      ensures contents[d] <= SchemeKeys(items)
    {
      if d in items {
        ItemKeysClosed(contents, d, items[d], d);
      } else {
        var k :| k in items && d in ChildKeys(items[k]);
        ItemKeysClosed(contents, k, items[k], d);
      }
    }
  }

  lemma MergeAllKeys(items: Items, other: Items, suffix: string)
    ensures SchemeKeys(MergeAll(items, other, suffix)) == SchemeKeys(items) + SchemeKeys(other)
  {
    var m := MergeAll(items, other, suffix);
    forall k | k in other
      ensures ChildKeys(m[k]) == ChildKeys(if k in items then items[k] else NO_ITEM) + ChildKeys(other[k])
    {
      MergeKeys(if k in items then items[k] else NO_ITEM, other[k], suffix);
    }
    forall h
      ensures h in SchemeKeys(m) <==> h in SchemeKeys(items) + SchemeKeys(other)
    {
      if h in SchemeKeys(items) && h !in items {
        var k :| k in items && h in ChildKeys(items[k]);
        assert h in ChildKeys(m[k]);
      }
      if h in SchemeKeys(other) && h !in other {
        var k :| k in other && h in ChildKeys(other[k]);
        assert h in ChildKeys(m[k]);
      }
    }
  }

  lemma MergeAllComplete(contents: Contents, items: Items, other: Items, suffix: string)
    requires Complete(contents, items) && Complete(contents, other)
    ensures Complete(contents, MergeAll(items, other, suffix))
  {
    forall k | k in other
      ensures CompleteItem(contents, k, MergeAll(items, other, suffix)[k])
    {
      MergeComplete(contents, k, if k in items then items[k] else NO_ITEM, other[k], suffix);
    }
  }

  /** The items once `cache` has been recorded below `checksum`. */
  function WithChildren(items: Items, checksum: Hash, cache: Items, suffix: string): Items {
    var item := if checksum in items then items[checksum] else NO_ITEM;
    items[checksum := Item(item.names, MergeAll(item.children, cache, suffix))]
  }

  lemma WithChildrenKeys(items: Items, checksum: Hash, cache: Items, suffix: string)
    ensures SchemeKeys(WithChildren(items, checksum, cache, suffix)) ==
      SchemeKeys(items) + {checksum} + SchemeKeys(cache)
  {
    var item := if checksum in items then items[checksum] else NO_ITEM;
    var m := WithChildren(items, checksum, cache, suffix);
    MergeAllKeys(item.children, cache, suffix);
    assert SchemeKeys(item.children) == ChildKeys(item);
    assert ChildKeys(m[checksum]) == SchemeKeys(m[checksum].children);
    forall h
      ensures h in SchemeKeys(m) <==> h in SchemeKeys(items) + {checksum} + SchemeKeys(cache)
    {
      if h in SchemeKeys(items) && h !in items {
        var k :| k in items && h in ChildKeys(items[k]);
        assert h in ChildKeys(m[k]);
      }
      if h in SchemeKeys(cache) {
        assert h in ChildKeys(m[checksum]);
      }
      if h in SchemeKeys(m) && h !in m {
        var k :| k in m && h in ChildKeys(m[k]);
        assert k != checksum ==> h in ChildKeys(items[k]);
      }
    }
  }

  lemma WithChildrenComplete(contents: Contents, items: Items, checksum: Hash, cache: Items, suffix: string)
    requires Complete(contents, items) && Complete(contents, cache)
    requires checksum in contents ==> contents[checksum] <= SchemeKeys(cache)
    ensures Complete(contents, WithChildren(items, checksum, cache, suffix))
  {
    var item := if checksum in items then items[checksum] else NO_ITEM;
    MergeAllKeys(item.children, cache, suffix);
    MergeAllComplete(contents, item.children, cache, suffix);
    var m := Item(item.names, MergeAll(item.children, cache, suffix));
    assert ChildKeys(m) == SchemeKeys(m.children);
    assert CompleteItem(contents, checksum, m);
  }

  /** The used set under construction. */
  class NamedCache {
    var items: Items

    constructor ()
      ensures items == map[]
    {
      items := map[];
    }

    method Add(checksum: Hash, name: string)
      modifies this
      ensures items.Keys == old(items.Keys) + {checksum}
      ensures forall k, path ::
        ItemNames(items, k, path) == ItemNames(old(items), k, path) + Own(k == checksum && path == [], name)
      ensures SchemeKeys(items) == SchemeKeys(old(items)) + {checksum}
    {
      var item := if checksum in items then items[checksum] else NO_ITEM;
      ghost var before := items;
      items := items[checksum := Item(item.names + {name}, item.children)];
      forall k | k in before
        ensures ChildKeys(items[k]) == ChildKeys(before[k])
      {
      }
      assert ChildKeys(items[checksum]) == ChildKeys(item);
      assert checksum !in before ==> ChildKeys(items[checksum]) == {};
    }

    /** Adds everything `cache` records; the used set becomes the union, and stays complete. */
    method Update(cache: NamedCache, suffix: string, ghost contents: Contents)
      modifies this
      ensures items == MergeAll(old(items), old(cache.items), suffix)
      ensures SchemeKeys(items) == SchemeKeys(old(items)) + SchemeKeys(old(cache.items))
      ensures Complete(contents, old(items)) && Complete(contents, old(cache.items)) ==> Complete(contents, items)
    {
      MergeAllKeys(items, cache.items, suffix);
      if Complete(contents, items) && Complete(contents, cache.items) {
        MergeAllComplete(contents, items, cache.items, suffix);
      }
      items := MergeAll(items, cache.items, suffix);
    }

    /** Records what `cache` holds as children of `checksum`; complete if that is all of it. */
    method AddChildCache(checksum: Hash, cache: NamedCache, suffix: string, ghost contents: Contents)
      modifies this
      ensures items == WithChildren(old(items), checksum, old(cache.items), suffix)
      ensures SchemeKeys(items) == SchemeKeys(old(items)) + {checksum} + SchemeKeys(old(cache.items))
      ensures Complete(contents, old(items)) && Complete(contents, old(cache.items))
        && (checksum in contents ==> contents[checksum] <= SchemeKeys(old(cache.items)))
        ==> Complete(contents, items)
    {
      WithChildrenKeys(items, checksum, cache.items, suffix);
      if Complete(contents, items) && Complete(contents, cache.items)
        && (checksum in contents ==> contents[checksum] <= SchemeKeys(cache.items)) {
        WithChildrenComplete(contents, items, checksum, cache.items, suffix);
      }
      items := WithChildren(items, checksum, cache.items, suffix);
    }
  }
}
