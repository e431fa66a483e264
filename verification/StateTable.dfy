/** The bounded table that remembers the hash of every file by inode, with a separately kept
    row count and an eviction of the oldest rows. */
module StateTable {
  import opened Common

  const MAX_INT: int := 0x7FFF_FFFF_FFFF_FFFF
  const MAX_UINT: int := 0xFFFF_FFFF_FFFF_FFFE

  /** The stored form of an unsigned number; None where the source's assertions fail. */
  function ToSqlite(num: int): (ret: Option<int>)
    ensures ret.Some? <==> 0 <= num < MAX_UINT
    ensures ret.Some? ==> -MAX_INT < ret.value <= MAX_INT && FromSqlite(ret.value) == Some(num)
  {
    if num < 0 || num >= MAX_UINT then None
    else
      var ret := if num > MAX_INT then -(num - MAX_INT) else num;
      if FromSqlite(ret) == Some(num) then Some(ret) else None
  }

  function FromSqlite(num: int): Option<int> {
    if !(-MAX_INT <= num <= MAX_INT) then None
    else if num < 0 then Some(-num + MAX_INT)
    else if num >= MAX_UINT then None
    else Some(num)
  }

  /** Exactly the keys above -MAX_INT stand for an inode, each for one. */
  lemma KeysAreInodes(key: int)
    ensures -MAX_INT < key <= MAX_INT <==> exists num :: ToSqlite(num) == Some(key)
    ensures forall m, n :: ToSqlite(m).Some? && ToSqlite(m) == ToSqlite(n) ==> m == n
    ensures 0 <= key <= MAX_INT ==> ToSqlite(key) == Some(key)
    ensures MAX_INT < key < MAX_UINT ==> ToSqlite(key) == Some(MAX_INT - key)
  {
    if -MAX_INT < key <= MAX_INT {
      assert ToSqlite(FromSqlite(key).value) == Some(key);
    }
  }

  datatype Row = Row(mtime: string, size: string, md5: string, timestamp: nat)

  type Rows = map<int, Row>

  // Ordering the rows by age.

  ghost predicate Sorted(rows: Rows, order: seq<int>) {
    && (forall i :: 0 <= i < |order| ==> order[i] in rows)
    && (forall i, j :: 0 <= i < j < |order| ==> rows[order[i]].timestamp <= rows[order[j]].timestamp)
  }

  /** The keys of all rows, oldest first; rows of one age come in any order. */
  ghost predicate Ordered(rows: Rows, order: seq<int>) {
    NoDup(order) && ToSet(order) == rows.Keys && Sorted(rows, order)
  }

  function Insert(rows: Rows, order: seq<int>, key: int): seq<int>
    requires key in rows && forall i :: 0 <= i < |order| ==> order[i] in rows
  {
    if order == [] || rows[key].timestamp <= rows[order[0]].timestamp then [key] + order
    else [order[0]] + Insert(rows, order[1..], key)
  }

  lemma {:induction false} InsertElements(rows: Rows, order: seq<int>, key: int)
    requires key in rows && forall i :: 0 <= i < |order| ==> order[i] in rows
    ensures forall k :: k in Insert(rows, order, key) <==> k == key || k in order
    ensures NoDup(order) && key !in order ==> NoDup(Insert(rows, order, key))
  {
    if order != [] && rows[key].timestamp > rows[order[0]].timestamp {
      InsertElements(rows, order[1..], key);
      assert order == [order[0]] + order[1..];
      var rest := Insert(rows, order[1..], key);
      if NoDup(order) && key !in order {
        assert NoDup(order[1..]) && order[0] !in order[1..];
        assert order[0] !in rest;
      }
    }
  }

  lemma {:induction false} InsertSorted(rows: Rows, order: seq<int>, key: int)
    requires key in rows && Sorted(rows, order)
    ensures Sorted(rows, Insert(rows, order, key))
  {
    InsertElements(rows, order, key);
    if order != [] && rows[key].timestamp > rows[order[0]].timestamp {
      InsertSorted(rows, order[1..], key);
      InsertElements(rows, order[1..], key);
      var rest := Insert(rows, order[1..], key);
      forall k | k in rest ensures rows[order[0]].timestamp <= rows[k].timestamp {
        if k != key {
          var i :| 0 <= i < |order[1..]| && order[1..][i] == k;
          assert order[i + 1] == k;
        }
      }
    }
  }

  method OrderByTimestamp(rows: Rows) returns (order: seq<int>)
    ensures Ordered(rows, order)
  {
    var keys := SetToSeq(rows.Keys);
    order := [];
    for i := 0 to |keys|
      invariant NoDup(order) && Sorted(rows, order)
      invariant forall k :: k in order <==> k in keys[..i]
    {
      assert keys[i] !in keys[..i];
      InsertElements(rows, order, keys[i]);
      InsertSorted(rows, order, keys[i]);
      order := Insert(rows, order, keys[i]);
      assert keys[..i + 1] == keys[..i] + [keys[i]];
    }
    assert keys[..|keys|] == keys;
    assert forall k :: k in ToSet(order) <==> k in rows.Keys;
  }

  // Eviction.

  /** The rows left after deleting those that share a timestamp with one of the first `n`. */
  function Kept(rows: Rows, order: seq<int>, n: nat): Rows
    requires n <= |order| && forall i :: 0 <= i < |order| ==> order[i] in rows
  {
    var doomed := set i | 0 <= i < n :: rows[order[i]].timestamp;
    map k | k in rows && rows[k].timestamp !in doomed :: rows[k]
  }

  /** No two rows are of one age. */
  ghost predicate DistinctAges(rows: Rows) {
    forall j, k :: j in rows && k in rows && rows[j].timestamp == rows[k].timestamp ==> j == k
  }

  lemma OrderedSize(rows: Rows, order: seq<int>)
    requires Ordered(rows, order)
    ensures |order| == |rows|
  {
    NoDupSize(order);
    assert |rows| == |rows.Keys|;
  }

  lemma KeptAreLater(rows: Rows, order: seq<int>, n: nat)
    requires Ordered(rows, order) && n <= |order|
    ensures Kept(rows, order, n).Keys <= ToSet(order[n..])
  {
    forall k | k in Kept(rows, order, n) ensures k in order[n..] {
      assert k in ToSet(order);
      var i :| 0 <= i < |order| && order[i] == k;
      assert order[n..][i - n] == k;
    }
  }

  lemma LaterAreKept(rows: Rows, order: seq<int>, n: nat)
    requires Ordered(rows, order) && n <= |order| && DistinctAges(rows)
    ensures ToSet(order[n..]) <= Kept(rows, order, n).Keys
  {
    forall k | k in order[n..] ensures k in Kept(rows, order, n) {
      var i :| 0 <= i < |order[n..]| && order[n..][i] == k;
      assert order[n + i] == k && k in ToSet(order);
      assert forall j :: 0 <= j < n ==> order[j] in ToSet(order) && order[j] != k;
    }
  }

  /** At least `n` rows go, exactly `n` when no two rows are of one age. */
  lemma EvictionSize(rows: Rows, order: seq<int>, n: nat)
    requires Ordered(rows, order) && n <= |rows|
    ensures n <= |order| && |Kept(rows, order, n)| <= |rows| - n
    ensures DistinctAges(rows) ==> |Kept(rows, order, n)| == |rows| - n
  {
    OrderedSize(rows, order);
    KeptAreLater(rows, order, n);
    NoDupSize(order[n..]);
    var kept := Kept(rows, order, n);
    assert |kept| == |kept.Keys|;
    SubsetSize(kept.Keys, ToSet(order[n..]));
    if DistinctAges(rows) {
      LaterAreKept(rows, order, n);
      assert kept.Keys == ToSet(order[n..]);
    }
  }

  lemma {:induction false} SubsetSize<T>(a: set<T>, b: set<T>)
    requires a <= b
    ensures |a| <= |b|
  {
    assert b == a + (b - a);
  }

  ghost function OlderThan(rows: Rows, timestamp: nat): set<int> {
    set k | k in rows && rows[k].timestamp < timestamp
  }

  /** Which rows go does not depend on how ties were ordered: those with fewer than `n` strictly
      older rows. Hence every survivor is newer than every evicted row. */
  lemma EvictedAreOldest(rows: Rows, order: seq<int>, n: nat, key: int)
    requires Ordered(rows, order) && n <= |order| && key in rows
    ensures key !in Kept(rows, order, n) <==> |OlderThan(rows, rows[key].timestamp)| < n
  {
    var t := rows[key].timestamp;
    var m := OlderIsPrefix(rows, order, t);
    assert NoDup(order[..m]);
    NoDupSize(order[..m]);
    assert key in ToSet(order);
    var j :| 0 <= j < |order| && order[j] == key;
    assert m < |order| && rows[order[m]].timestamp == t;
  }

  lemma OlderIsPrefix(rows: Rows, order: seq<int>, t: nat) returns (m: nat)
    requires Ordered(rows, order)
    ensures m <= |order| && OlderThan(rows, t) == ToSet(order[..m])
    ensures forall i :: 0 <= i < m ==> rows[order[i]].timestamp < t
    ensures forall i :: m <= i < |order| ==> rows[order[i]].timestamp >= t
  {
    m := 0;
    while m < |order| && rows[order[m]].timestamp < t
      invariant m <= |order| && forall i :: 0 <= i < m ==> rows[order[i]].timestamp < t
    {
      m := m + 1;
    }
    forall k | k in OlderThan(rows, t) ensures k in ToSet(order[..m]) {
      assert k in ToSet(order);
      var i :| 0 <= i < |order| && order[i] == k;
      assert order[..m][i] == k;
    }
    forall k | k in ToSet(order[..m]) ensures k in OlderThan(rows, t) {
      var i :| 0 <= i < m && order[i] == k;
    }
  }

  lemma SurvivorsAreNewer(rows: Rows, order: seq<int>, n: nat, gone: int, kept: int)
    requires Ordered(rows, order) && n <= |order|
    requires gone in rows && gone !in Kept(rows, order, n) && kept in Kept(rows, order, n)
    ensures rows[gone].timestamp < rows[kept].timestamp
  {
    EvictedAreOldest(rows, order, n, gone);
    EvictedAreOldest(rows, order, n, kept);
    if rows[kept].timestamp <= rows[gone].timestamp {
      SubsetSize(OlderThan(rows, rows[kept].timestamp), OlderThan(rows, rows[gone].timestamp));
    }
  }

  /** How many rows beyond the surplus a clean-up deletes. */
  function Quota(rowLimit: nat, quota: nat): (n: nat)
    requires quota <= 100
    ensures n == rowLimit * quota / 100 <= rowLimit
  {
    QuotaShare(rowLimit, quota);
    (rowLimit as real * (quota as real / 100.0)).Floor
  }

  lemma QuotaShare(rowLimit: nat, quota: nat)
    requires quota <= 100
    ensures 0 <= (rowLimit as real * (quota as real / 100.0)).Floor == rowLimit * quota / 100 <= rowLimit
  {
    var x := rowLimit as real * (quota as real / 100.0);
    var p := rowLimit * quota;
    assert x == p as real / 100.0;
    assert p == 100 * (p / 100) + p % 100;
    assert x == (p / 100) as real + (p % 100) as real / 100.0;
    assert x.Floor == p / 100;
    assert p + rowLimit * (100 - quota) == 100 * rowLimit;
  }

  lemma {:induction false} RangeSize(s: set<int>, lo: int, hi: int)
    requires lo <= hi && forall k :: k in s ==> lo < k <= hi
    ensures |s| <= hi - lo
    decreases hi - lo
  {
    if lo < hi {
      RangeSize(s - {hi}, lo, hi - 1);
      assert s <= s - {hi} + {hi};
      SubsetSize(s, s - {hi} + {hi});
    } else {
      assert forall k: int :: k !in s;
      assert |s| == 0;
    }
  }

  /** What was saved for a file. */
  datatype Saved = Saved(mtime: string, size: string, md5: string)

  /** Every row is that of an inode and holds what was last saved for it. */
  ghost predicate AsSaved(rows: Rows, saved: map<int, Saved>) {
    forall k :: k in rows ==>
      && -MAX_INT < k <= MAX_INT
      && FromSqlite(k).value in saved
      && saved[FromSqlite(k).value] == Saved(rows[k].mtime, rows[k].size, rows[k].md5)
  }

  /** There are no more rows than inodes that can be stored. */
  lemma RowsFit(rows: Rows, saved: map<int, Saved>)
    requires AsSaved(rows, saved)
    ensures |rows| <= MAX_UINT
  {
    RangeSize(rows.Keys, -MAX_INT, MAX_INT);
    assert |rows| == |rows.Keys|;
  }

  /** The rows with at least `n` strictly older ones. */
  ghost function Survivors(rows: Rows, n: int): Rows {
    map k | k in rows && |OlderThan(rows, rows[k].timestamp)| >= n :: rows[k]
  }

  lemma KeptAreSurvivors(rows: Rows, order: seq<int>, n: nat)
    requires Ordered(rows, order) && n <= |order|
    ensures Kept(rows, order, n) == Survivors(rows, n)
  {
    forall k | k in rows
      ensures k !in Kept(rows, order, n) <==> k !in Survivors(rows, n)
    {
      EvictedAreOldest(rows, order, n, k);
    }
  }

  lemma SurvivorsAsSaved(rows: Rows, n: int, saved: map<int, Saved>)
    requires AsSaved(rows, saved)
    ensures AsSaved(Survivors(rows, n), saved)
  {
  }

  lemma AllSurvive(rows: Rows)
    ensures Survivors(rows, 0) == rows
  {
  }

  /** The schema version of the tables. */
  const VERSION: int := 3

  /** What is found where the table should be. */
  datatype File = Missing | Damaged | Database(version: int)

  class State {
    const rowLimit: nat
    const quota: nat
    var rows: Rows
    var stored: int
    var inserts: nat
    var open: bool
    /** The last record saved for every inode, evicted or not. */
    ghost var saved: map<int, Saved>

    /** The stored count plus the pending inserts is the number of rows, and a row holds what
        was last saved for its inode. */
    ghost predicate Valid()
      reads this
    {
      && 1 <= rowLimit && quota <= 100
      && FromSqlite(stored) == Some(|rows| - inserts)
      && (!open ==> inserts == 0)
      && AsSaved(rows, saved)
    }

    /** The row of an inode. */
    ghost function Lookup(inode: int): Option<Row>
      reads this
    {
      var key := ToSqlite(inode);
      if key.Some? && key.value in rows then Some(rows[key.value]) else None
    }

    constructor (rowLimit: nat, quota: nat)
      requires 1 <= rowLimit && quota <= 100
      ensures Valid() && !open && forall i :: Lookup(i) == None
      ensures this.rowLimit == rowLimit && this.quota == quota
    {
      this.rowLimit, this.quota := rowLimit, quota;
      rows, stored, inserts, open, saved := map[], 0, 0, false, map[];
    }

    /** Opens the table that is found on disk.  A table of this version keeps all rows and its
        count; a missing or damaged file and a table of an older version become an empty table;
        a table of a newer version is refused, and the connection stays open. */
    method Load(file: File) returns (ok: bool)
      requires Valid() && !open
      modifies this
      ensures Valid() && open && saved == old(saved)
      ensures ok <==> !(file.Database? && file.version > VERSION)
      ensures forall i :: Lookup(i) == if file.Database? && file.version >= VERSION then old(Lookup(i)) else None
    {
      open := true;
      var found := file;
      if found == Damaged {
        // The file is removed, and a second try finds none.
        found := Missing;
      }
      if found.Database? && found.version > VERSION {
        return false;
      }
      if !(found.Database? && found.version == VERSION) {
        rows, stored := map[], 0;
      }
      ok := true;
    }

    /** Saves the hash of a file; the rows of all other inodes stay as they are. An inode that
        cannot be stored is refused. */
    method Save(inode: int, mtime: string, size: string, md5: string, now: nat) returns (ok: bool)
      requires Valid() && open
      modifies this
      ensures Valid() && open
      ensures ok <==> 0 <= inode < MAX_UINT
      ensures forall i :: Lookup(i) == if ok && i == inode then Some(Row(mtime, size, md5, now)) else old(Lookup(i))
      ensures saved == if ok then old(saved)[inode := Saved(mtime, size, md5)] else old(saved)
    {
      var key := ToSqlite(inode);
      if key.None? {
        return false;
      }
      KeysAreInodes(key.value);
      if key.value !in rows {
        inserts := inserts + 1;
      }
      rows := rows[key.value := Row(mtime, size, md5, now)];
      saved := saved[inode := Saved(mtime, size, md5)];
      ok := true;
    }

    /** A hash is returned exactly when the inode has a row with the file's mtime and size, and
        then it is the one last saved, for just these; only the age of that row changes.  An
        inode that cannot be stored is refused. */
    method Get(inode: int, mtime: string, size: string, now: nat) returns (ok: bool, md5: Option<string>)
      requires Valid() && open
      modifies this
      ensures Valid() && open && saved == old(saved)
      ensures ok <==> 0 <= inode < MAX_UINT
      ensures md5.Some? <==>
        old(Lookup(inode)).Some? && (old(Lookup(inode)).value.mtime, old(Lookup(inode)).value.size) == (mtime, size)
      ensures md5.Some? ==> ok && inode in saved && saved[inode] == Saved(mtime, size, md5.value)
      ensures md5.Some? ==> Lookup(inode) == Some(Row(mtime, size, md5.value, now))
      ensures forall i :: i != inode || md5.None? ==> Lookup(i) == old(Lookup(i))
    {
      var key := ToSqlite(inode);
      if key.None? {
        return false, None;
      }
      if key.value !in rows {
        return true, None;
      }
      KeysAreInodes(key.value);
      var row := rows[key.value];
      if mtime != row.mtime || size != row.size {
        return true, None;
      }
      rows := rows[key.value := row.(timestamp := now)];
      ok, md5 := true, Some(row.md5);
    }

    /** Whether a dump would clean up, and how many rows it would then ask to delete. */
    ghost function Excess(): int
      reads this
      requires Valid()
    {
      if |rows| > rowLimit then |rows| - rowLimit + rowLimit * quota / 100 else 0
    }

    /** Stores the table, evicting the oldest rows when there are too many. It fails, and changes
        nothing, only for a table with a row for every storable inode whose limit allows it. */
    method Dump() returns (ok: bool)
      requires Valid() && open
      modifies this
      ensures Valid() && open == !ok && saved == old(saved)
      ensures ok <==> old(|rows|) < MAX_UINT || rowLimit < MAX_UINT
      ensures ok ==> |rows| <= rowLimit && FromSqlite(stored) == Some(|rows|)
      ensures rows == Survivors(old(rows), old(Excess()))
      ensures old(|rows|) <= rowLimit ==> rows == old(rows)
      ensures old(|rows|) > rowLimit ==> |rows| <= rowLimit - rowLimit * quota / 100
      ensures old(|rows|) > rowLimit && DistinctAges(old(rows)) ==> |rows| == rowLimit - rowLimit * quota / 100
    {
      SurvivorsAsSaved(rows, Excess(), saved);
      RowsFit(rows, saved);
      var count := CleanUp(FromSqlite(stored).value + inserts);
      ok := StoreCount(count);
    }

    method StoreCount(count: nat) returns (ok: bool)
      modifies this`stored, this`inserts, this`open
      ensures ok <==> count < MAX_UINT
      ensures ok ==> FromSqlite(stored) == Some(count) && inserts == 0 && !open
      ensures !ok ==> stored == old(stored) && inserts == old(inserts) && open == old(open)
    {
      var encoded := ToSqlite(count);
      if encoded.None? {
        return false;
      }
      stored, inserts, open := encoded.value, 0, false;
      ok := true;
    }

    method CleanUp(total: nat) returns (count: nat)
      requires quota <= 100 && total == |rows|
      modifies this`rows
      ensures count == |rows| <= total && count <= rowLimit
      ensures total <= rowLimit ==> rows == old(rows) == Survivors(old(rows), 0)
      ensures total > rowLimit ==>
        && rows == Survivors(old(rows), total - rowLimit + rowLimit * quota / 100)
        && count <= rowLimit - rowLimit * quota / 100
        && (DistinctAges(old(rows)) ==> count == rowLimit - rowLimit * quota / 100)
    {
      count := total;
      if total > rowLimit {
        count := DeleteOldest(total - rowLimit + Quota(rowLimit, quota));
      } else {
        AllSurvive(rows);
      }
    }

    method DeleteOldest(n: nat) returns (count: nat)
      requires n <= |rows|
      modifies this`rows
      ensures count == |rows| <= old(|rows|) - n
      ensures DistinctAges(old(rows)) ==> |rows| == old(|rows|) - n
      ensures rows == Survivors(old(rows), n)
    {
      var order := OrderByTimestamp(rows);
      EvictionSize(rows, order, n);
      KeptAreSurvivors(rows, order, n);
      rows := Kept(rows, order, n);
      count := |rows|;
    }
  }
}
