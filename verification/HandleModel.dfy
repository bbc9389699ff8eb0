/** The object handle database as a value: the entries in allocation order (the linked list is
    this sequence read backwards), and the two hash tables as buckets of entry numbers
    (src/fs_handles_db.c, src/hash_utils.c). The classes of the database are proved against it. */
module HandleModel {
  import opened Bytes
  import opened Options

  type Name = seq<u8>

  /** Root paths of the registered storages. */
  type Stores = map<u32, Name>

  const HASH_TABLE_SIZE: nat := 1024
  const NO_PARENT: u32 := 0xFFFF_FFFF
  const LAST_HANDLE: u32 := 0xFFFF_FFFF
  const ROOT_NAME: Name := [0x2F]

  datatype Rec = Rec(handle: u32, parent: u32, storage: u32, name: Name, isDir: bool, deleted: bool, size: int, wd: int)

  datatype FileInfo = FileInfo(name: Name, isDir: bool, size: int)

  type Table = seq<seq<nat>>

  datatype Db = Db(recs: seq<Rec>, next: u32, byName: Table, byHandle: Table)

  function SignedChar(c: u8): int {
    if c < 0x80 then c else c - 0x100
  }

  /** The djb2 hash in 32-bit arithmetic, from a given state. */
  function HashFrom(name: Name, hash: u32): u32 {
    if name == [] then hash
    else HashFrom(name[1..], ((hash as int) * 33 + SignedChar(name[0])) % 0x1_0000_0000)
  }

  function HashName(name: Name): (b: nat)
    ensures b < HASH_TABLE_SIZE
  {
    HashFrom(name, 5381) % HASH_TABLE_SIZE
  }

  function HashHandle(handle: u32): (b: nat)
    ensures b < HASH_TABLE_SIZE
  {
    handle % HASH_TABLE_SIZE
  }

  /** The hash of a longer name: 33 times the hash before, plus the next signed character, in 32 bits. */
  lemma {:induction false} HashGrows(name: Name, c: u8, hash: u32)
    ensures HashFrom(name + [c], hash) as int
         == (HashFrom(name, hash) as int * 33 + if c < 128 then c as int else c as int - 256) % 0x1_0000_0000
  {
    if name == [] {
      assert ([] + [c])[1..] == [];
    } else {
      assert (name + [c])[1..] == name[1..] + [c];
      HashGrows(name[1..], c, ((hash as int) * 33 + SignedChar(name[0])) % 0x1_0000_0000);
    }
  }

  // ---------------------------------------------------------------- tables

  /** keys[k] is the bucket entry k belongs to. Every entry occurs in that bucket, and no bucket
      holds a foreign entry or the same one twice. */
  ghost predicate Indexed(table: Table, keys: seq<nat>) {
    && |table| == HASH_TABLE_SIZE
    && (forall b, i :: 0 <= b < |table| && 0 <= i < |table[b]| ==> table[b][i] < |keys| && keys[table[b][i]] == b)
    && (forall k :: 0 <= k < |keys| ==> keys[k] < |table| && k in table[keys[k]])
    && (forall b :: 0 <= b < |table| ==> NoRepeats(table[b]))
  }

  ghost predicate NoRepeats(s: seq<nat>) {
    forall i, j :: 0 <= i < j < |s| ==> s[i] != s[j]
  }

  function Put(table: Table, b: nat, k: nat): Table
    requires b < |table|
  {
    table[b := table[b] + [k]]
  }

  /** The bucket without the first occurrence of k, the later entries moved forward. */
  function Without<T(==)>(s: seq<T>, k: T): seq<T> {
    if s == [] then [] else if s[0] == k then s[1..] else [s[0]] + Without(s[1..], k)
  }

  function Take(table: Table, b: nat, k: nat): Table
    requires b < |table|
  {
    table[b := Without(table[b], k)]
  }

  lemma {:induction false} WithoutHolds(s: seq<nat>, k: nat)
    requires NoRepeats(s)
    ensures NoRepeats(Without(s, k)) && k !in Without(s, k)
    ensures forall x :: x != k ==> (x in Without(s, k) <==> x in s)
  {
    if s != [] {
      var t := s[1..];
      assert NoRepeats(t);
      WithoutHolds(t, k);
      assert forall x :: x in s <==> x == s[0] || x in t;
      assert s[0] !in t;
    }
  }

  /** Putting a new entry keeps the table right. */
  lemma PutNew(table: Table, keys: seq<nat>, b: nat)
    requires Indexed(table, keys) && b < HASH_TABLE_SIZE
    ensures Indexed(Put(table, b, |keys|), keys + [b])
  {
    var t, ks := Put(table, b, |keys|), keys + [b];
    forall k | 0 <= k < |ks|
      ensures ks[k] < |t| && k in t[ks[k]]
    {
      if k == |keys| {
        assert t[b][|table[b]|] == k;
      } else {
        assert k in table[keys[k]];
      }
    }
    assert |keys| !in table[b];
  }

  /** Taking an entry out of its bucket and putting it into another moves exactly that entry. */
  lemma MoveEntry(table: Table, keys: seq<nat>, k: nat, b: nat)
    requires Indexed(table, keys) && k < |keys| && b < HASH_TABLE_SIZE
    ensures Indexed(Put(Take(table, keys[k], k), b, k), keys[k := b])
  {
    var mid := Take(table, keys[k], k);
    var t, ks := Put(mid, b, k), keys[k := b];
    WithoutHolds(table[keys[k]], k);
    Untouched(table, keys, k);
    forall j | 0 <= j < |ks|
      ensures ks[j] < |t| && j in t[ks[j]]
    {
      if j == k {
        assert t[b][|mid[b]|] == k;
      } else {
        assert j in mid[keys[j]];
      }
    }
    forall c, i | 0 <= c < |t| && 0 <= i < |t[c]|
      ensures t[c][i] < |ks| && ks[t[c][i]] == c
    {
      if !(c == b && i == |mid[b]|) {
        assert t[c][i] == mid[c][i] && mid[c][i] in mid[c];
      }
    }
    forall c | 0 <= c < |t|
      ensures NoRepeats(t[c])
    {
      assert k !in mid[c];
    }
  }

  lemma Untouched(table: Table, keys: seq<nat>, k: nat)
    requires Indexed(table, keys) && k < |keys|
    ensures var mid := Take(table, keys[k], k);
            && |mid| == |table|
            && (forall c :: 0 <= c < |mid| ==> NoRepeats(mid[c]) && k !in mid[c])
            && (forall c, x :: 0 <= c < |mid| && x in mid[c] ==> x in table[c] && x < |keys| && keys[x] == c)
    ensures forall j :: 0 <= j < |keys| && j != k ==> j in Take(table, keys[k], k)[keys[j]]
  {
    WithoutHolds(table[keys[k]], k);
  }

  lemma {:induction false} CountOnce(s: seq<nat>, k: nat)
    requires NoRepeats(s)
    ensures multiset(s)[k] == if k in s then 1 else 0
  {
    if s != [] {
      var t := s[1..];
      assert NoRepeats(t) && s == [s[0]] + t && s[0] !in t;
      CountOnce(t, k);
    }
  }

  /** Counted with multiplicity: one occurrence in the entry's own bucket, none elsewhere. */
  lemma OccursOnce(table: Table, keys: seq<nat>, k: nat, b: nat)
    requires Indexed(table, keys) && k < |keys| && b < HASH_TABLE_SIZE
    ensures multiset(table[b])[k] == if keys[k] == b then 1 else 0
  {
    CountOnce(table[b], k);
  }

  function NameKeys(recs: seq<Rec>): (keys: seq<nat>)
    ensures |keys| == |recs| && forall k :: 0 <= k < |recs| ==> keys[k] == HashName(recs[k].name)
  {
    seq(|recs|, k requires 0 <= k < |recs| => HashName(recs[k].name))
  }

  function HandleKeys(recs: seq<Rec>): (keys: seq<nat>)
    ensures |keys| == |recs| && forall k :: 0 <= k < |recs| ==> keys[k] == HashHandle(recs[k].handle)
  {
    seq(|recs|, k requires 0 <= k < |recs| => HashHandle(recs[k].handle))
  }

  /** Each entry occurs exactly once in the bucket of its current name and exactly once in the
      bucket of its handle, and the buckets hold nothing else. */
  ghost predicate Agree(db: Db) {
    Indexed(db.byName, NameKeys(db.recs)) && Indexed(db.byHandle, HandleKeys(db.recs))
  }

  // ------------------------------------------------------------ operations

  const EMPTY := Db([], 1, seq(HASH_TABLE_SIZE, _ => []), seq(HASH_TABLE_SIZE, _ => []))

  ghost predicate WellSized(db: Db) {
    |db.byName| == HASH_TABLE_SIZE && |db.byHandle| == HASH_TABLE_SIZE
  }

  function Append(db: Db, r: Rec): Db
    requires WellSized(db)
  {
    db.(recs := db.recs + [r],
        byHandle := Put(db.byHandle, HashHandle(r.handle), |db.recs|),
        byName := Put(db.byName, HashName(r.name), |db.recs|))
  }

  function NewRec(handle: u32, info: FileInfo, parent: u32, storage: u32): Rec {
    Rec(handle, parent, storage, info.name, info.isDir, false, info.size, -1)
  }

  function RootRec(storage: u32): Rec {
    Rec(0, 0, storage, ROOT_NAME, true, false, 1, -1)
  }

  function Alloc(db: Db, info: FileInfo, parent: u32, storage: u32): Db
    requires WellSized(db)
  {
    Append(db, NewRec(db.next, info, parent, storage)).(next := (db.next + 1) % 0x1_0000_0000)
  }

  function AllocRoot(db: Db, storage: u32): Db
    requires WellSized(db)
  {
    Append(db, RootRec(storage))
  }

  /** The entry leaves both tables under its old name and enters them again under the new one. */
  function Rename(db: Db, k: nat, name: Name): Db
    requires WellSized(db) && k < |db.recs|
  {
    var r := db.recs[k];
    var n, h := HashName(r.name), HashHandle(r.handle);
    db.(recs := db.recs[k := r.(name := name)],
        byName := Put(Take(db.byName, n, k), HashName(name), k),
        byHandle := Put(Take(db.byHandle, h, k), h, k))
  }

  function Tombstone(db: Db, k: nat): Db
    requires k < |db.recs|
  {
    db.(recs := db.recs[k := db.recs[k].(deleted := true, wd := -1)])
  }

  function Resize(db: Db, k: nat, size: int): Db
    requires k < |db.recs|
  {
    db.(recs := db.recs[k := db.recs[k].(size := size)])
  }

  function Watch(db: Db, k: nat, wd: int): Db
    requires k < |db.recs|
  {
    db.(recs := db.recs[k := db.recs[k].(wd := wd)])
  }

  // --------------------------------------------------------------- lookups

  datatype Query =
    | ByName(name: Name, parent: u32, storage: u32)
    | ByHandle(handle: u32, stores: Stores)
    | ByHandleStorage(handle: u32, storage: u32)
    | ByWd(wd: int)
    | ByStorage(storage: u32)
    | ChildOf(parent: u32, storage: u32)

  /** Every lookup looks for a live entry. */
  predicate Matches(r: Rec, q: Query) {
    !r.deleted &&
    match q
    case ByName(n, p, s) => r.name == n && r.parent == p && r.storage == s
    case ByHandle(h, stores) => r.handle == h && r.storage in stores
    case ByHandleStorage(h, s) => r.handle == h && r.storage == s
    case ByWd(wd) => r.wd == wd
    case ByStorage(s) => r.storage == s
    case ChildOf(p, s) => r.parent == p && r.storage == s && r.handle != r.parent
  }

  /** Every match below an entry, in list order (newest first). */
  function AllBelow(recs: seq<Rec>, q: Query, below: nat): seq<nat>
    requires below <= |recs|
  {
    if below == 0 then []
    else if Matches(recs[below - 1], q) then [below - 1] + AllBelow(recs, q, below - 1)
    else AllBelow(recs, q, below - 1)
  }

  /** Each match once, newest first, and nothing else. */
  lemma {:induction false} AllBelowHolds(recs: seq<Rec>, q: Query, below: nat)
    requires below <= |recs|
    ensures var ks := AllBelow(recs, q, below);
            && (forall i, j :: 0 <= i < j < |ks| ==> ks[i] > ks[j])
            && (forall k: nat :: k in ks <==> k < below && Matches(recs[k], q))
  {
    if below > 0 {
      var rest := AllBelow(recs, q, below - 1);
      AllBelowHolds(recs, q, below - 1);
      assert forall i :: 0 <= i < |rest| ==> rest[i] in rest;
    }
  }

  /** The first match of a bucket. */
  function FirstIn(bucket: seq<nat>, recs: seq<Rec>, q: Query): (r: Option<nat>)
    ensures r.Some? ==> r.value in bucket && r.value < |recs| && Matches(recs[r.value], q)
    ensures r.None? ==> forall k :: k in bucket && k < |recs| ==> !Matches(recs[k], q)
  {
    if bucket == [] then None
    else if bucket[0] < |recs| && Matches(recs[bucket[0]], q) then Some(bucket[0])
    else
      assert forall k :: k in bucket <==> k == bucket[0] || k in bucket[1..];
      FirstIn(bucket[1..], recs, q)
  }

  /** The linear scan of the list, newest entry first, from below a given entry. */
  function ListScan(recs: seq<Rec>, q: Query, below: nat): (r: Option<nat>)
    requires below <= |recs|
    ensures r.Some? ==> r.value < below && Matches(recs[r.value], q)
    ensures r.Some? ==> forall k :: r.value < k < below ==> !Matches(recs[k], q)
    ensures r.None? ==> forall k :: 0 <= k < below ==> !Matches(recs[k], q)
  {
    if below == 0 then None
    else if Matches(recs[below - 1], q) then Some(below - 1)
    else ListScan(recs, q, below - 1)
  }

  function FindEntry(db: Db, name: Name, parent: u32, storage: u32): (r: Option<nat>)
    requires WellSized(db)
    ensures r.Some? ==> r.value < |db.recs| && Matches(db.recs[r.value], ByName(name, parent, storage))
  {
    FirstIn(db.byName[HashName(name)], db.recs, ByName(name, parent, storage))
  }

  function GetByHandle(db: Db, stores: Stores, handle: u32): (r: Option<nat>)
    requires WellSized(db)
    ensures r.Some? ==> r.value < |db.recs| && Matches(db.recs[r.value], ByHandle(handle, stores))
  {
    FirstIn(db.byHandle[HashHandle(handle)], db.recs, ByHandle(handle, stores))
  }

  function Newest(db: Db, q: Query): Option<nat> {
    ListScan(db.recs, q, |db.recs|)
  }

  /** add_entry: a live entry of that name is kept, otherwise a new one is allocated. */
  function AddEntry(db: Db, info: FileInfo, parent: u32, storage: u32): Db
    requires WellSized(db)
  {
    if FindEntry(db, info.name, parent, storage).Some? then db else Alloc(db, info, parent, storage)
  }

  /** A bucket lookup answers nothing exactly when no entry of the list matches. */
  lemma BucketComplete(table: Table, keys: seq<nat>, recs: seq<Rec>, q: Query, b: nat)
    requires Indexed(table, keys) && |keys| == |recs| && b < HASH_TABLE_SIZE
    requires forall k :: 0 <= k < |recs| && Matches(recs[k], q) ==> keys[k] == b
    ensures FirstIn(table[b], recs, q).None? <==> forall k :: 0 <= k < |recs| ==> !Matches(recs[k], q)
  {
  }

  ghost predicate AtMostOne(recs: seq<Rec>, q: Query) {
    forall i, j :: 0 <= i < j < |recs| ==> !(Matches(recs[i], q) && Matches(recs[j], q))
  }

  /** find_entry refines the linear scan: the same answer whenever at most one entry matches, and in
      any case a live match exactly when there is one, never newer than the scan's. */
  lemma FindEntryRefinesScan(db: Db, name: Name, parent: u32, storage: u32)
    requires Agree(db)
    ensures var q := ByName(name, parent, storage); var r := FindEntry(db, name, parent, storage);
            && (r.None? <==> Newest(db, q).None?)
            && (AtMostOne(db.recs, q) ==> r == Newest(db, q))
            && (r.Some? ==> r.value <= Newest(db, q).value)
  {
    BucketComplete(db.byName, NameKeys(db.recs), db.recs, ByName(name, parent, storage), HashName(name));
  }

  // ------------------------------------------------------------ invariants

  /** A non-root entry's parent handle is smaller than its own; non-root handles strictly increase
      in allocation order and lie below the counter; roots carry handle 0. */
  ghost predicate Ordered(db: Db) {
    && 1 <= db.next
    && (forall k :: 0 <= k < |db.recs| ==> db.recs[k].handle < db.next)
    && (forall k :: 0 <= k < |db.recs| && db.recs[k].handle == 0 ==> db.recs[k].parent == 0)
    && (forall k :: 0 <= k < |db.recs| && db.recs[k].handle != 0 ==> db.recs[k].parent < db.recs[k].handle)
    && (forall i, j :: 0 <= i < j < |db.recs| && db.recs[i].handle != 0 && db.recs[j].handle != 0 ==>
          db.recs[i].handle < db.recs[j].handle)
  }

  ghost predicate Inv(db: Db) {
    Agree(db) && Ordered(db)
  }

  /** All that the ancestor walk relies on: the index by handle and the handle order. While a rename
      tries out a new name this holds, although the index by name does not. */
  ghost predicate Walkable(db: Db) {
    WellSized(db) && Indexed(db.byHandle, HandleKeys(db.recs)) && Ordered(db)
  }

  /** The precondition under which the counter does not wrap; the source's callers pass the handle of
      an entry they found, or 0. */
  predicate MayAlloc(db: Db, parent: u32) {
    db.next < LAST_HANDLE && parent < db.next
  }

  lemma AppendAgrees(db: Db, r: Rec)
    requires Agree(db)
    ensures Agree(Append(db, r))
  {
    PutNew(db.byName, NameKeys(db.recs), HashName(r.name));
    PutNew(db.byHandle, HandleKeys(db.recs), HashHandle(r.handle));
    assert NameKeys(db.recs + [r]) == NameKeys(db.recs) + [HashName(r.name)];
    assert HandleKeys(db.recs + [r]) == HandleKeys(db.recs) + [HashHandle(r.handle)];
  }

  lemma RenameAgrees(db: Db, k: nat, name: Name)
    requires Agree(db) && k < |db.recs|
    ensures Agree(Rename(db, k, name))
  {
    var r := db.recs[k];
    MoveEntry(db.byName, NameKeys(db.recs), k, HashName(name));
    MoveEntry(db.byHandle, HandleKeys(db.recs), k, HashHandle(r.handle));
    var recs := db.recs[k := r.(name := name)];
    assert NameKeys(recs) == NameKeys(db.recs)[k := HashName(name)];
    assert HandleKeys(recs) == HandleKeys(db.recs)[k := HashHandle(r.handle)];
  }

  /** Changing flags, size or watch of an entry moves nothing between buckets. */
  lemma UpdateAgrees(db: Db, k: nat, r: Rec)
    requires Agree(db) && k < |db.recs| && r.name == db.recs[k].name && r.handle == db.recs[k].handle
    ensures Agree(db.(recs := db.recs[k := r]))
  {
    assert NameKeys(db.recs[k := r]) == NameKeys(db.recs);
    assert HandleKeys(db.recs[k := r]) == HandleKeys(db.recs);
  }

  lemma EmptyHolds()
    ensures Inv(EMPTY)
  {
  }

  /** Allocation keeps the invariant exactly while the counter does not wrap and the parent is known. */
  lemma AllocHolds(db: Db, info: FileInfo, parent: u32, storage: u32)
    requires Inv(db)
    ensures Inv(Alloc(db, info, parent, storage)) <==> MayAlloc(db, parent)
  {
    var r := NewRec(db.next, info, parent, storage);
    var db' := Alloc(db, info, parent, storage);
    AppendAgrees(db, r);
    assert Agree(db') by {
      assert db'.recs == Append(db, r).recs && db'.byName == Append(db, r).byName && db'.byHandle == Append(db, r).byHandle;
    }
    assert db'.recs[|db.recs|] == r;
    if MayAlloc(db, parent) {
      AppendOrdered(db, r, db.next + 1);
      assert db'.recs == db.recs + [r] && db'.next == db.next + 1;
    }
  }

  lemma AppendOrdered(db: Db, r: Rec, next: u32)
    requires Ordered(db) && r.handle < next && db.next <= next
    requires if r.handle == 0 then r.parent == 0 else r.handle == db.next && r.parent < r.handle
    ensures Ordered(db.(recs := db.recs + [r], next := next))
  {
  }

  lemma AllocRootHolds(db: Db, storage: u32)
    requires Inv(db)
    ensures Inv(AllocRoot(db, storage))
  {
    AppendAgrees(db, RootRec(storage));
    AppendOrdered(db, RootRec(storage), db.next);
  }

  /** At most one live entry has a given handle other than 0. */
  lemma HandleUnique(db: Db, i: nat, j: nat)
    requires Ordered(db) && i < |db.recs| && j < |db.recs| && db.recs[i].handle == db.recs[j].handle != 0
    ensures i == j
  {
  }

  /** get_entry_by_handle refines the linear scan for every handle but 0, and agrees with the lookup
      by handle and storage. */
  lemma GetByHandleRefinesScan(db: Db, stores: Stores, handle: u32)
    requires Walkable(db) && handle != 0
    ensures var r := GetByHandle(db, stores, handle);
            && r == Newest(db, ByHandle(handle, stores))
            && (r.Some? ==> Newest(db, ByHandleStorage(handle, db.recs[r.value].storage)) == r)
            && (forall s :: s in stores && Newest(db, ByHandleStorage(handle, s)).Some? ==>
                  r == Newest(db, ByHandleStorage(handle, s)))
  {
    BucketComplete(db.byHandle, HandleKeys(db.recs), db.recs, ByHandle(handle, stores), HashHandle(handle));
    var r := GetByHandle(db, stores, handle);
    var s := Newest(db, ByHandle(handle, stores));
    if r.Some? {
      HandleUnique(db, r.value, s.value);
      var t := Newest(db, ByHandleStorage(handle, db.recs[r.value].storage));
      HandleUnique(db, r.value, t.value);
    }
    forall x | x in stores && Newest(db, ByHandleStorage(handle, x)).Some?
      ensures r == Newest(db, ByHandleStorage(handle, x))
    {
      var t := Newest(db, ByHandleStorage(handle, x));
      assert Matches(db.recs[t.value], ByHandle(handle, stores));
      HandleUnique(db, r.value, t.value);
    }
  }

  /** No two live non-root entries share parent, storage and name. */
  ghost predicate UniqueNames(db: Db) {
    forall i, j :: 0 <= i < |db.recs| && 0 <= j < |db.recs| && SameName(db.recs[i], db.recs[j]) ==> i == j
  }

  predicate SameName(a: Rec, b: Rec) {
    && !a.deleted && !b.deleted && a.handle != 0 && b.handle != 0
    && a.parent == b.parent && a.storage == b.storage && a.name == b.name
  }

  lemma AddHolds(db: Db, info: FileInfo, parent: u32, storage: u32)
    requires Inv(db) && MayAlloc(db, parent)
    ensures Inv(AddEntry(db, info, parent, storage))
  {
    AllocHolds(db, info, parent, storage);
  }

  /** add_entry never makes a second live entry of a name. */
  lemma AddKeepsUnique(db: Db, info: FileInfo, parent: u32, storage: u32)
    requires Agree(db) && UniqueNames(db)
    ensures UniqueNames(AddEntry(db, info, parent, storage))
  {
    FindEntryRefinesScan(db, info.name, parent, storage);
    var db' := AddEntry(db, info, parent, storage);
    if FindEntry(db, info.name, parent, storage).None? {
      forall i, j | 0 <= i < |db'.recs| && 0 <= j < |db'.recs| && SameName(db'.recs[i], db'.recs[j])
        ensures i == j
      {
        var q := ByName(info.name, parent, storage);
        assert i < |db.recs| ==> !Matches(db.recs[i], q);
        assert j < |db.recs| ==> !Matches(db.recs[j], q);
      }
    }
  }

  /** Rename does not look for a live sibling of the new name: uniqueness survives it exactly when
      there is none other than the renamed entry. */
  lemma RenameKeepsUniqueExactly(db: Db, k: nat, name: Name)
    requires Inv(db) && UniqueNames(db) && k < |db.recs| && !db.recs[k].deleted && db.recs[k].handle != 0
    ensures UniqueNames(Rename(db, k, name))
       <==> forall j :: 0 <= j < |db.recs| && j != k ==> !SameName(db.recs[j], db.recs[k].(name := name))
  {
    var recs := db.recs[k := db.recs[k].(name := name)];
    assert Rename(db, k, name).recs == recs;
    if forall j :: 0 <= j < |db.recs| && j != k ==> !SameName(db.recs[j], db.recs[k].(name := name)) {
      forall i, j | 0 <= i < |recs| && 0 <= j < |recs| && SameName(recs[i], recs[j])
        ensures i == j
      {
        assert i != k ==> recs[i] == db.recs[i];
        assert j != k ==> recs[j] == db.recs[j];
      }
    } else {
      var j :| 0 <= j < |db.recs| && j != k && SameName(db.recs[j], db.recs[k].(name := name));
      assert SameName(recs[j], recs[k]);
    }
  }

  /** A match in the front of a bucket is found before anything behind it. */
  lemma {:induction false} FirstInFront(front: seq<nat>, back: seq<nat>, recs: seq<Rec>, q: Query)
    requires FirstIn(front, recs, q).Some?
    ensures FirstIn(front + back, recs, q) == FirstIn(front, recs, q)
  {
    assert (front + back)[0] == front[0];
    if !(front[0] < |recs| && Matches(recs[front[0]], q)) {
      assert (front + back)[1..] == front[1..] + back;
      FirstInFront(front[1..], back, recs, q);
    }
  }

  /** The hash lookup and the list find the same entry of a name. */
  predicate LookupsAgree(db: Db, name: Name, parent: u32, storage: u32)
    requires WellSized(db)
  {
    FindEntry(db, name, parent, storage) == Newest(db, ByName(name, parent, storage))
  }

  /** Renaming an entry to the name of a live sibling: the bucket finds the sibling, which was in it
      before, and the list the newer of the two. */
  lemma DuplicateLookups(db: Db, j: nat, k: nat, name: Name)
    requires Agree(db) && UniqueNames(db) && j < |db.recs| && k < |db.recs| && j != k && RootsNotNamed(db, k, name)
    requires SameName(db.recs[j], db.recs[k].(name := name))
    ensures var db' := Rename(db, k, name); var r := db.recs[k];
            && FindEntry(db', name, r.parent, r.storage) == Some(j)
            && Newest(db', ByName(name, r.parent, r.storage)) == Some(if j < k then k else j)
  {
    var r := db.recs[k];
    var db', q := Rename(db, k, name), ByName(name, r.parent, r.storage);
    OnlyTwoMatch(db, j, k, name);
    FoundInFront(db, j, k, name);
    NewerOfTwo(db'.recs, q, j, k);
  }

  lemma NewerOfTwo(recs: seq<Rec>, q: Query, j: nat, k: nat)
    requires j < |recs| && k < |recs|
    requires forall i :: 0 <= i < |recs| ==> (Matches(recs[i], q) <==> i == j || i == k)
    ensures ListScan(recs, q, |recs|) == Some(if j < k then k else j)
  {
    var r := ListScan(recs, q, |recs|);
    assert Matches(recs[j], q) && Matches(recs[k], q) && r.Some?;
    assert r.value == j || r.value == k;
  }

  /** The first match of the new bucket lies in front of the renamed entry, which is put at its end. */
  lemma FoundInFront(db: Db, j: nat, k: nat, name: Name)
    requires Agree(db) && j < |db.recs| && k < |db.recs| && j != k && SameName(db.recs[j], db.recs[k].(name := name))
    ensures FindEntry(Rename(db, k, name), name, db.recs[k].parent, db.recs[k].storage).Some?
    ensures FindEntry(Rename(db, k, name), name, db.recs[k].parent, db.recs[k].storage) != Some(k)
  {
    var r := db.recs[k];
    var db', q := Rename(db, k, name), ByName(name, r.parent, r.storage);
    var front := Take(db.byName, HashName(r.name), k)[HashName(name)];
    Untouched(db.byName, NameKeys(db.recs), k);
    assert NameKeys(db.recs)[j] == HashName(name) && j in front;
    assert db'.byName[HashName(name)] == front + [k];
    FirstInFront(front, [k], db'.recs, q);
  }

  /** No storage root bears the name where the entry lies. */
  ghost predicate RootsNotNamed(db: Db, k: nat, name: Name)
    requires k < |db.recs|
  {
    forall i :: 0 <= i < |db.recs| && db.recs[i].handle == 0 ==>
      !Matches(db.recs[i], ByName(name, db.recs[k].parent, db.recs[k].storage))
  }

  lemma OnlyTwoMatch(db: Db, j: nat, k: nat, name: Name)
    requires WellSized(db) && UniqueNames(db) && j < |db.recs| && k < |db.recs| && j != k && RootsNotNamed(db, k, name)
    requires SameName(db.recs[j], db.recs[k].(name := name))
    ensures var recs := Rename(db, k, name).recs; var q := ByName(name, db.recs[k].parent, db.recs[k].storage);
            forall i :: 0 <= i < |recs| ==> (Matches(recs[i], q) <==> i == j || i == k)
  {
    var recs, q := Rename(db, k, name).recs, ByName(name, db.recs[k].parent, db.recs[k].storage);
    forall i | 0 <= i < |recs| && Matches(recs[i], q)
      ensures i == j || i == k
    {
      assert i != k ==> SameName(db.recs[i], db.recs[j]);
    }
  }

  /** After a rename the two lookups of the new name differ exactly when an older live sibling bears
      it: the bucket finds the sibling, the list the renamed entry. */
  lemma RenameSplitsLookups(db: Db, k: nat, name: Name)
    requires Inv(db) && UniqueNames(db) && k < |db.recs| && db.recs[k].handle != 0 && RootsNotNamed(db, k, name)
    ensures !LookupsAgree(Rename(db, k, name), name, db.recs[k].parent, db.recs[k].storage)
       <==> exists j :: 0 <= j < k && SameName(db.recs[j], db.recs[k].(name := name))
  {
    var r := db.recs[k];
    if j: nat :| j < |db.recs| && j != k && SameName(db.recs[j], r.(name := name)) {
      DuplicateLookups(db, j, k, name);
      forall i | 0 <= i < k && SameName(db.recs[i], r.(name := name))
        ensures i == j
      {
        assert SameName(db.recs[i], db.recs[j]);
      }
    } else {
      NoDuplicateLookups(db, k, name);
    }
  }

  lemma NoDuplicateLookups(db: Db, k: nat, name: Name)
    requires Inv(db) && UniqueNames(db) && k < |db.recs| && db.recs[k].handle != 0 && RootsNotNamed(db, k, name)
    requires forall j :: 0 <= j < |db.recs| && j != k ==> !SameName(db.recs[j], db.recs[k].(name := name))
    ensures LookupsAgree(Rename(db, k, name), name, db.recs[k].parent, db.recs[k].storage)
  {
    var r := db.recs[k];
    var db', q := Rename(db, k, name), ByName(name, r.parent, r.storage);
    RenameAgrees(db, k, name);
    FindEntryRefinesScan(db', name, r.parent, r.storage);
  }

  // ------------------------------------------------------------------ runs

  /** Everything a session does to the entries of the database. */
  datatype Op =
    | DoRoot(storage: u32)
    | DoAdd(info: FileInfo, parent: u32, storage: u32)
    | DoRename(k: nat, name: Name)
    | DoTombstone(k: nat)
    | DoResize(k: nat, size: int)
    | DoWatch(k: nat, wd: int)

  predicate Allowed(db: Db, op: Op) {
    match op
    case DoRoot(_) => true
    case DoAdd(_, parent, _) => MayAlloc(db, parent)
    case DoRename(k, _) => k < |db.recs|
    case DoTombstone(k) => k < |db.recs|
    case DoResize(k, _) => k < |db.recs|
    case DoWatch(k, _) => k < |db.recs|
  }

  function Apply(db: Db, op: Op): Db
    requires WellSized(db) && Allowed(db, op)
  {
    match op
    case DoRoot(s) => AllocRoot(db, s)
    case DoAdd(info, p, s) => AddEntry(db, info, p, s)
    case DoRename(k, n) => Rename(db, k, n)
    case DoTombstone(k) => Tombstone(db, k)
    case DoResize(k, size) => Resize(db, k, size)
    case DoWatch(k, wd) => Watch(db, k, wd)
  }

  lemma ApplyHolds(db: Db, op: Op)
    requires Inv(db) && Allowed(db, op)
    ensures Inv(Apply(db, op))
  {
    match op
    case DoRoot(s) => AllocRootHolds(db, s);
    case DoAdd(info, p, s) => AllocHolds(db, info, p, s);
    case DoRename(k, n) => RenameAgrees(db, k, n);
    case DoTombstone(k) => UpdateHolds(db, k, Tombstone(db, k).recs[k]);
    case DoResize(k, size) => UpdateHolds(db, k, Resize(db, k, size).recs[k]);
    case DoWatch(k, wd) => UpdateHolds(db, k, Watch(db, k, wd).recs[k]);
  }

  predicate LiesIn(r: Rec, name: Name, parent: u32, storage: u32) {
    !r.deleted && r.name == name && r.parent == parent && r.storage == storage
  }

  /** A live entry of the folder bears the name. */
  ghost predicate InFolder(db: Db, name: Name, parent: u32, storage: u32) {
    exists k :: 0 <= k < |db.recs| && LiesIn(db.recs[k], name, parent, storage)
  }

  /** The lookup by name knows whether the folder has a live entry of the name. */
  lemma FoundInFolder(db: Db, name: Name, parent: u32, storage: u32)
    requires Agree(db)
    ensures FindEntry(db, name, parent, storage).Some? <==> InFolder(db, name, parent, storage)
    ensures var f := FindEntry(db, name, parent, storage);
            f.Some? ==> f.value < |db.recs| && LiesIn(db.recs[f.value], name, parent, storage)
  {
    FindEntryRefinesScan(db, name, parent, storage);
    var q := ByName(name, parent, storage);
    assert forall i :: 0 <= i < |db.recs| ==> (LiesIn(db.recs[i], name, parent, storage) <==> Matches(db.recs[i], q));
  }

  /** The entries after an operation: at most one is new or changed, and in what. */
  lemma OperationExactly(db: Db, op: Op)
    requires Inv(db) && Allowed(db, op)
    ensures var recs, db' := db.recs, Apply(db, op);
      match op
      case DoRoot(storage) => db'.recs == recs + [Rec(0, 0, storage, [0x2F], true, false, 1, -1)] && db'.next == db.next
      case DoAdd(info, parent, storage) =>
        if InFolder(db, info.name, parent, storage) then db' == db
        else db'.recs == recs + [Rec(db.next, parent, storage, info.name, info.isDir, false, info.size, -1)]
             && db'.next as int == db.next as int + 1
      case DoRename(k, name) => db'.recs == recs[k := recs[k].(name := name)] && db'.next == db.next
      case DoTombstone(k) => db'.recs == recs[k := recs[k].(deleted := true, wd := -1)] && db'.next == db.next
      case DoResize(k, size) => db'.recs == recs[k := recs[k].(size := size)] && db'.next == db.next
      case DoWatch(k, wd) => db'.recs == recs[k := recs[k].(wd := wd)] && db'.next == db.next
  {
    if op.DoAdd? {
      FoundInFolder(db, op.info.name, op.parent, op.storage);
    }
  }

  lemma UpdateHolds(db: Db, k: nat, r: Rec)
    requires Inv(db) && k < |db.recs| && r.name == db.recs[k].name && SameObject(db.recs[k], r)
    ensures Inv(db.(recs := db.recs[k := r]))
  {
    UpdateAgrees(db, k, r);
  }

  lemma ApplyEvolves(db: Db, op: Op)
    requires Inv(db) && Allowed(db, op)
    ensures Evolves(db, Apply(db, op))
  {
  }

  /** What no operation ever undoes: entries keep handle, parent and storage, tombstones stay, the
      counter grows, and a new entry is a root or has a handle the counter had not reached. */
  ghost predicate Evolves(db: Db, db': Db) {
    && |db.recs| <= |db'.recs| && db.next <= db'.next
    && (forall k :: 0 <= k < |db.recs| ==> SameObject(db.recs[k], db'.recs[k]))
    && (forall k :: |db.recs| <= k < |db'.recs| ==> db'.recs[k].handle == 0 || db'.recs[k].handle >= db.next)
  }

  predicate SameObject(r: Rec, r': Rec) {
    r.handle == r'.handle && r.parent == r'.parent && r.storage == r'.storage && (r.deleted ==> r'.deleted)
  }

  /** Every operation of the run is allowed where it happens. */
  predicate Runs(db: Db, ops: seq<Op>)
    requires WellSized(db)
    decreases |ops|
  {
    ops == [] || (Allowed(db, ops[0]) && Runs(Apply(db, ops[0]), ops[1..]))
  }

  function Run(db: Db, ops: seq<Op>): Db
    requires WellSized(db) && Runs(db, ops)
    decreases |ops|
  {
    if ops == [] then db else Run(Apply(db, ops[0]), ops[1..])
  }

  /** Index agreement and the handle order hold in every state a session reaches. */
  lemma {:induction false} RunHolds(db: Db, ops: seq<Op>)
    requires Inv(db) && Runs(db, ops)
    ensures Inv(Run(db, ops)) && Evolves(db, Run(db, ops))
    decreases |ops|
  {
    if ops != [] {
      ApplyHolds(db, ops[0]);
      ApplyEvolves(db, ops[0]);
      var mid := Apply(db, ops[0]);
      RunHolds(mid, ops[1..]);
      EvolvesTransitive(db, mid, Run(db, ops));
    }
  }

  lemma EvolvesTransitive(a: Db, b: Db, c: Db)
    requires Evolves(a, b) && Evolves(b, c)
    ensures Evolves(a, c)
  {
    forall k | 0 <= k < |a.recs|
      ensures SameObject(a.recs[k], c.recs[k])
    {
      assert SameObject(a.recs[k], b.recs[k]) && SameObject(b.recs[k], c.recs[k]);
    }
    forall k | |a.recs| <= k < |c.recs|
      ensures c.recs[k].handle == 0 || c.recs[k].handle >= a.next
    {
      if k < |b.recs| {
        assert SameObject(b.recs[k], c.recs[k]);
      }
    }
  }

  /** A name that reappears after its entry was tombstoned gets a handle above every earlier one. */
  lemma ReappearingNameGetsNewHandle(db: Db, info: FileInfo, parent: u32, storage: u32)
    requires Inv(db) && MayAlloc(db, parent)
    requires forall k :: 0 <= k < |db.recs| ==> !Matches(db.recs[k], ByName(info.name, parent, storage))
    ensures var db' := AddEntry(db, info, parent, storage);
            && FindEntry(db', info.name, parent, storage) == Some(|db.recs|)
            && db'.recs[|db.recs|].handle == db.next
            && forall k :: 0 <= k < |db.recs| ==> db'.recs[k] == db.recs[k] && db.recs[k].handle < db.next
  {
    AllocHolds(db, info, parent, storage);
    var db' := Alloc(db, info, parent, storage);
    assert FindEntry(db, info.name, parent, storage).None?;
    assert Matches(db'.recs[|db.recs|], ByName(info.name, parent, storage));
    FindEntryRefinesScan(db', info.name, parent, storage);
  }
}
