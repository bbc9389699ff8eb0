/** The object handle database: one set of entries held in a linked list, in a hash table by name, in
    a hash table by handle and in a block pool (src/fs_handles_db.c). Its methods work in place and
    are proved against the value model. */
module FsHandlesDb {
  import opened Bytes
  import opened HandleModel
  import opened Options
  import opened HandlePath
  import opened HandleScan
  import opened HandleEvents
  import opened HashUtils
  import opened EntryPool

  // The parts of the database's invariant. Each is stated under a quantifier whose trigger is Ask, so
  // that a proof sees the facts of a part where it asks for them and is not slowed by the others.
  datatype Part = SHAPE | OWNED | SHOWN | LINKED | TABLES | MODEL

  ghost predicate Ask(p: Part) { true }

  // ----------------------------------------------------- full buckets

  // A bucket of the largest size takes no more entries. These are the operations of the model with
  // that limit; below it they are the model's own.

  function PutIfRoom(table: Table, b: nat, k: nat): Table
    requires b < |table|
  {
    if |table[b]| < MAX_NODE_CAPACITY then Put(table, b, k) else table
  }

  function AppendIfRoom(db: Db, r: Rec): Db
    requires WellSized(db)
  {
    db.(recs := db.recs + [r],
        byHandle := PutIfRoom(db.byHandle, HashHandle(r.handle), |db.recs|),
        byName := PutIfRoom(db.byName, HashName(r.name), |db.recs|))
  }

  function AllocIfRoom(db: Db, info: FileInfo, parent: u32, storage: u32): Db
    requires WellSized(db)
  {
    AppendIfRoom(db, NewRec(db.next, info, parent, storage)).(next := NextOf(db.next))
  }

  function RenameIfRoom(db: Db, k: nat, name: Name): Db
    requires WellSized(db) && k < |db.recs|
  {
    var r := db.recs[k];
    var n, h := HashName(r.name), HashHandle(r.handle);
    db.(recs := db.recs[k := r.(name := name)],
        byName := PutIfRoom(Take(db.byName, n, k), HashName(name), k),
        byHandle := PutIfRoom(Take(db.byHandle, h, k), h, k))
  }

  /** The buckets of a record have room. */
  ghost predicate Fits(db: Db, name: Name, handle: u32)
    requires WellSized(db)
  {
    |db.byName[HashName(name)]| < MAX_NODE_CAPACITY && |db.byHandle[HashHandle(handle)]| < MAX_NODE_CAPACITY
  }

  /** With room the limited operations are the model's. */
  lemma RoomForOne(db: Db, info: FileInfo, parent: u32, storage: u32)
    requires WellSized(db)
    ensures Fits(db, info.name, db.next) ==> AllocIfRoom(db, info, parent, storage) == Alloc(db, info, parent, storage)
    ensures Fits(db, ROOT_NAME, 0) ==> AppendIfRoom(db, RootRec(storage)) == AllocRoot(db, storage)
  {
  }

  /** A dropped index entry is the one thing that breaks index agreement, and only a full bucket
      drops one. */
  lemma AppendAgreesExactly(db: Db, r: Rec)
    requires Agree(db)
    ensures Agree(AppendIfRoom(db, r)) <==> Fits(db, r.name, r.handle)
  {
    var db' := AppendIfRoom(db, r);
    if Fits(db, r.name, r.handle) {
      AppendAgrees(db, r);
      assert db' == Append(db, r);
    } else {
      assert db'.recs[|db.recs|] == r;
      assert NameKeys(db'.recs)[|db.recs|] == HashName(r.name) && HandleKeys(db'.recs)[|db.recs|] == HashHandle(r.handle);
    }
  }

  /** The same for a rename, once the entry has left its buckets. */
  lemma RenameAgreesExactly(db: Db, k: nat, name: Name)
    requires Agree(db) && k < |db.recs|
    ensures Agree(RenameIfRoom(db, k, name)) <==> FitsRenamed(db, k, name)
    ensures FitsRenamed(db, k, name) ==> RenameIfRoom(db, k, name) == Rename(db, k, name)
  {
    var r := db.recs[k];
    var db' := RenameIfRoom(db, k, name);
    if FitsRenamed(db, k, name) {
      RenameAgrees(db, k, name);
    } else {
      Untouched(db.byName, NameKeys(db.recs), k);
      Untouched(db.byHandle, HandleKeys(db.recs), k);
      assert NameKeys(db'.recs)[k] == HashName(name) && HandleKeys(db'.recs)[k] == HashHandle(r.handle);
    }
  }

  ghost predicate FitsRenamed(db: Db, k: nat, name: Name)
    requires WellSized(db) && k < |db.recs|
  {
    var n, h := HashName(db.recs[k].name), HashHandle(db.recs[k].handle);
    && |Take(db.byName, n, k)[HashName(name)]| < MAX_NODE_CAPACITY
    && |Take(db.byHandle, h, k)[h]| < MAX_NODE_CAPACITY
  }

  /** The list stays below the largest bucket size while the absent names of a listing are added. */
  ghost predicate ListRoom(db: Db, listing: seq<FileInfo>, showHidden: bool, parent: u32, storage: u32)
    requires WellSized(db)
    decreases |listing|
  {
    listing == []
    || ((Absent(db, listing[0], showHidden, parent, storage) ==> |db.recs| < MAX_NODE_CAPACITY)
        && ListRoom(AddOne(db, listing[0], showHidden, parent, storage), listing[1..], showHidden, parent, storage))
  }

  /** One name of a listing, with room if it is absent. */
  lemma OneNameFits(db: Db, info: FileInfo, showHidden: bool, parent: u32, storage: u32)
    requires Sane(db) && WellSized(db)
    requires Absent(db, info, showHidden, parent, storage) ==> MayAlloc(db, parent) && |db.recs| < MAX_NODE_CAPACITY
    ensures Sane(AddOne(db, info, showHidden, parent, storage))
    ensures Absent(db, info, showHidden, parent, storage) ==>
      AllocIfRoom(db, info, parent, storage) == Alloc(db, info, parent, storage)
  {
    assert Ask(MODEL);
    AddOneHolds(db, info, showHidden, parent, storage);
    if Absent(db, info, showHidden, parent, storage) {
      FitsBelow(db, info.name, db.next);
      RoomForOne(db, info, parent, storage);
    }
  }

  /** Agreement keeps every bucket shorter than the list, so below the largest capacity there is room. */
  lemma FitsBelow(db: Db, name: Name, handle: u32)
    requires Agree(db) && |db.recs| < MAX_NODE_CAPACITY
    ensures Fits(db, name, handle)
  {
    BucketBound(db.byName[HashName(name)], |db.recs|);
    BucketBound(db.byHandle[HashHandle(handle)], |db.recs|);
  }

  // ------------------------------------------------- entries and numbers

  /** The objects behind a bucket of entry numbers. */
  ghost function Pick(es: seq<FsEntry>, s: seq<nat>): (r: seq<FsEntry?>)
    ensures |r| == |s| && forall i :: 0 <= i < |s| ==> r[i] == if s[i] < |es| then es[s[i]] else null
  {
    seq(|s|, i requires 0 <= i < |s| => if s[i] < |es| then es[s[i]] else null)
  }

  ghost predicate Distinct(es: seq<FsEntry>) {
    forall i, j :: 0 <= i < j < |es| ==> es[i] != es[j]
  }

  ghost predicate Below(s: seq<nat>, n: nat) {
    forall i :: 0 <= i < |s| ==> s[i] < n
  }

  /** The newest of the oldest n entries. */
  ghost function At(es: seq<FsEntry>, n: nat): FsEntry? {
    if 0 < n <= |es| then es[n - 1] else null
  }

  ghost predicate ShowAll(es: seq<FsEntry>, recs: seq<Rec>)
    reads es
  {
    |es| == |recs| && forall k :: 0 <= k < |es| ==> View(es[k]) == recs[k]
  }

  ghost predicate LinkAll(es: seq<FsEntry>)
    reads es
  {
    forall k :: 0 <= k < |es| ==> es[k].next == At(es, k)
  }

  ghost predicate HoldAll(buckets: seq<seq<FsEntry?>>, table: Table, es: seq<FsEntry>) {
    && |buckets| == |table| == HASH_TABLE_SIZE
    && forall b :: 0 <= b < HASH_TABLE_SIZE ==> buckets[b] == Pick(es, table[b]) && Below(table[b], |es|)
  }

  /** Each entry shows its record. */
  ghost predicate Mirrors(es: seq<FsEntry>, recs: seq<Rec>)
    reads es
  {
    |es| == |recs| && forall p {:trigger Ask(p)} :: Ask(p) && p == SHOWN ==> ShowAll(es, recs)
  }

  /** The list is the entries backwards. */
  ghost predicate Linked(es: seq<FsEntry>)
    reads es
  {
    forall p {:trigger Ask(p)} :: Ask(p) && p == LINKED ==> LinkAll(es)
  }

  /** The buckets hold the objects of the numbers the model has there. */
  ghost predicate Holds(buckets: seq<seq<FsEntry?>>, table: Table, es: seq<FsEntry>) {
    && |buckets| == |table| == HASH_TABLE_SIZE
    && forall p {:trigger Ask(p)} :: Ask(p) && p == TABLES ==> HoldAll(buckets, table, es)
  }

  lemma PickGrow(es: seq<FsEntry>, e: FsEntry, s: seq<nat>)
    requires Below(s, |es|)
    ensures Pick(es + [e], s) == Pick(es, s)
    ensures Pick(es + [e], s + [|es|]) == Pick(es, s) + [e]
  {
  }

  /** Removing an object from a bucket is removing its number. */
  lemma {:induction false} PickWithout(es: seq<FsEntry>, s: seq<nat>, k: nat)
    requires Distinct(es) && k < |es| && Below(s, |es|)
    ensures Without(Pick(es, s), es[k]) == Pick(es, Without(s, k))
  {
    if s != [] {
      assert Pick(es, s)[1..] == Pick(es, s[1..]);
      PickWithout(es, s[1..], k);
      assert Pick(es, [s[0]] + Without(s[1..], k)) == [es[s[0]]] + Pick(es, Without(s[1..], k));
    }
  }

  lemma {:induction false} WithoutBelow(s: seq<nat>, n: nat, k: nat)
    requires Below(s, n)
    ensures Below(Without(s, k), n)
  {
    if s != [] {
      WithoutBelow(s[1..], n, k);
    }
  }

  /** A new entry goes into one bucket. */
  lemma HoldsAdded(buckets: seq<seq<FsEntry?>>, table: Table, es: seq<FsEntry>, b: nat, e: FsEntry)
    requires HoldAll(buckets, table, es) && b < HASH_TABLE_SIZE
    ensures HoldAll(Enlisted(buckets, b, e), PutIfRoom(table, b, |es|), es + [e])
  {
    forall c | 0 <= c < HASH_TABLE_SIZE
      ensures Pick(es + [e], table[c]) == Pick(es, table[c])
    {
      PickGrow(es, e, table[c]);
    }
    PickGrow(es, e, table[b]);
  }

  lemma HoldsEnlisted(buckets: seq<seq<FsEntry?>>, table: Table, es: seq<FsEntry>, b: nat, e: FsEntry)
    requires Holds(buckets, table, es) && b < HASH_TABLE_SIZE
    ensures Holds(Enlisted(buckets, b, e), PutIfRoom(table, b, |es|), es + [e])
  {
    assert Ask(TABLES);
    HoldsAdded(buckets, table, es, b, e);
  }

  /** A known entry leaves one bucket and enters another. */
  lemma HoldsMoved(buckets: seq<seq<FsEntry?>>, table: Table, es: seq<FsEntry>, b: nat, c: nat, k: nat)
    requires HoldAll(buckets, table, es) && b < HASH_TABLE_SIZE && c < HASH_TABLE_SIZE && Distinct(es) && k < |es|
    ensures HoldAll(Enlisted(Delisted(buckets, b, es[k]), c, es[k]), PutIfRoom(Take(table, b, k), c, k), es)
  {
    PickWithout(es, table[b], k);
    WithoutBelow(table[b], |es|, k);
    var mid := Take(table, b, k);
    assert HoldAll(Delisted(buckets, b, es[k]), mid, es);
    assert Pick(es, mid[c] + [k]) == Pick(es, mid[c]) + [es[k]];
  }

  lemma MovedBuckets(buckets: seq<seq<FsEntry?>>, table: Table, es: seq<FsEntry>, b: nat, c: nat, k: nat)
    requires Holds(buckets, table, es) && b < HASH_TABLE_SIZE && c < HASH_TABLE_SIZE && Distinct(es) && k < |es|
    ensures Holds(Enlisted(Delisted(buckets, b, es[k]), c, es[k]), PutIfRoom(Take(table, b, k), c, k), es)
  {
    assert Ask(TABLES);
    HoldsMoved(buckets, table, es, b, c, k);
  }

  /** The first hit among the objects is the object of the first match. */
  lemma {:induction false} HitIsFirst(es: seq<FsEntry>, recs: seq<Rec>, s: seq<nat>, q: Query)
    requires ShowAll(es, recs) && Below(s, |es|)
    ensures FirstHit(Pick(es, s), q) == EntryOf(es, FirstIn(s, recs, q))
  {
    if s != [] {
      assert Pick(es, s)[1..] == Pick(es, s[1..]);
      HitIsFirst(es, recs, s[1..], q);
    }
  }

  ghost function EntryOf(es: seq<FsEntry>, r: Option<nat>): FsEntry? {
    if r.Some? && r.value < |es| then es[r.value] else null
  }

  /** The hash lookups: the loop over a bucket finds the entry of the first match. */
  lemma BucketRefines(buckets: seq<seq<FsEntry?>>, table: Table, es: seq<FsEntry>, recs: seq<Rec>, b: nat, q: Query)
    requires Holds(buckets, table, es) && Mirrors(es, recs) && b < HASH_TABLE_SIZE
    ensures FirstHit(buckets[b], q) == EntryOf(es, FirstIn(table[b], recs, q))
  {
    assert Ask(TABLES) && Ask(SHOWN);
    HitIsFirst(es, recs, table[b], q);
  }

  /** The walk down the list for the first live match, and the entry behind it. */
  method ListSearch(start: FsEntry?, q: Query, ghost es: seq<FsEntry>, ghost recs: seq<Rec>, ghost below: nat)
    returns (e: FsEntry?, behind: FsEntry?)
    requires Mirrors(es, recs) && Linked(es) && below <= |es| && start == At(es, below)
    ensures e == EntryOf(es, ListScan(recs, q, below))
    ensures behind == At(es, Rest(ListScan(recs, q, below)))
  {
    assert Ask(SHOWN) && Ask(LINKED);
    e := start;
    ghost var n := below;
    while e != null
      invariant 0 <= n <= below && e == At(es, n) && ListScan(recs, q, n) == ListScan(recs, q, below)
      decreases n
    {
      assert View(e) == recs[n - 1] && e.next == At(es, n - 1);
      if Matches(View(e), q) {
        return e, e.next;
      }
      e := e.next;
      n := n - 1;
    }
    return null, null;
  }

  /** A live entry of that name in that folder. */
  ghost predicate Named(e: FsEntry, name: Name, parent: u32, storage: u32)
    reads e
  {
    !e.deleted && e.name == name && e.parent == parent && e.storage == storage
  }

  ghost predicate Live(e: FsEntry, handle: u32)
    reads e
  {
    !e.deleted && e.handle == handle
  }

  /** A new entry: live, unwatched, and what the file information says, in its folder. */
  ghost predicate Entered(e: FsEntry, handle: u32, info: FileInfo, parent: u32, storage: u32)
    reads e
  {
    && e.handle == handle && e.parent == parent && e.storage == storage && !e.deleted && e.wd == -1
    && e.name == info.name && e.isDir == info.isDir && e.size == info.size
  }

  /** A live entry of a folder; a root does not lie in itself. */
  ghost predicate ChildEntry(e: FsEntry, parent: u32, storage: u32)
    reads e
  {
    !e.deleted && e.parent == parent && e.storage == storage && e.handle != parent
  }

  // What the answers of the lookups mean for the entries.

  lemma NameAnswered(es: seq<FsEntry>, db: Db, name: Name, parent: u32, storage: u32)
    requires WellSized(db) && ShowAll(es, db.recs)
    ensures var e := EntryOf(es, HandleModel.FindEntry(db, name, parent, storage));
      && (e != null ==> e in es && Named(e, name, parent, storage))
      && (e == null && Agree(db) ==> forall x :: x in es ==> !Named(x, name, parent, storage))
  {
    if Agree(db) {
      FindEntryRefinesScan(db, name, parent, storage);
    }
  }

  lemma HandleAnswered(es: seq<FsEntry>, db: Db, stores: Stores, handle: u32)
    requires WellSized(db) && ShowAll(es, db.recs)
    ensures var e := EntryOf(es, GetByHandle(db, stores, handle));
      && (e != null ==> e in es && Live(e, handle) && e.storage in stores)
      && (e == null && Walkable(db) ==> forall x :: x in es ==> !(Live(x, handle) && x.storage in stores))
  {
    if Walkable(db) {
      BucketComplete(db.byHandle, HandleKeys(db.recs), db.recs, ByHandle(handle, stores), HashHandle(handle));
    }
  }

  lemma ChildAnswered(es: seq<FsEntry>, recs: seq<Rec>, parent: u32, storage: u32, below: nat)
    requires ShowAll(es, recs) && below <= |recs|
    ensures var r := ListScan(recs, ChildOf(parent, storage), below); var e := EntryOf(es, r);
      && (e != null ==> e in es && ChildEntry(e, parent, storage))
      && forall k :: Rest(r) <= k < below && es[k] != e ==> !ChildEntry(es[k], parent, storage)
  {
  }

  /** How many entries are left behind a find. */
  function Rest(r: Option<nat>): nat {
    if r.Some? then r.value else 0
  }

  method SetName(e: FsEntry, name: Name, ghost es: seq<FsEntry>, ghost recs: seq<Rec>, ghost k: nat)
    requires Mirrors(es, recs) && Linked(es) && Distinct(es) && k < |es| && e == es[k]
    modifies e`name
    ensures e.name == name
    ensures Mirrors(es, recs[k := recs[k].(name := name)]) && Linked(es)
  {
    assert ShowAll(es, recs) && LinkAll(es) by {
      assert Ask(SHOWN) && Ask(LINKED);
    }
    e.name := name;
    assert ShowAll(es, recs[k := recs[k].(name := name)]);
    assert LinkAll(es);
  }

  /** While a new name is tried out the walk still works, and shows that name in the same folder. */
  lemma TriedName(db: Db, stores: Stores, k: nat, name: Name)
    requires Walkable(db) && k < |db.recs|
    ensures var r := db.recs[k]; var db' := db.(recs := db.recs[k := r.(name := name)]);
      && Walkable(db')
      && FullPath(db', stores, k) == FolderPath(db, stores, r.parent, r.storage) + SLASH + name
  {
    var r := db.recs[k];
    var db' := db.(recs := db.recs[k := r.(name := name)]);
    assert HandleKeys(db'.recs) == HandleKeys(db.recs);
    ChildPath(db', stores, k);
    if r.parent != 0 {
      FolderPathStable(db, db', stores, r.parent, r.storage);
    }
  }

  lemma LastNameSwapped(folder: Name, name: Name, newName: Name, path: Name, path2: Name)
    requires path == folder + SLASH + name + [0] && path2 == folder + SLASH + newName + [0]
    ensures |path| > |name| && path2 == path[..|path| - 1 - |name|] + newName + [0]
  {
    assert path[..|path| - 1 - |name|] == folder + SLASH;
  }

  /** A bucket of distinct numbers is no longer than their range. */
  lemma BucketBound(s: seq<nat>, n: nat)
    requires NoRepeats(s) && Below(s, n)
    ensures |s| <= n
  {
    var elements: set<nat> := set x: nat | x in s;
    SizeOfElements(s);
    assert Numbers(n) == elements + (Numbers(n) - elements);
  }

  ghost function Numbers(n: nat): (r: set<nat>)
    ensures |r| == n && forall k: nat :: k in r <==> k < n
  {
    if n == 0 then {} else Numbers(n - 1) + {n - 1}
  }

  lemma {:induction false} SizeOfElements(s: seq<nat>)
    requires NoRepeats(s)
    ensures |set x: nat | x in s| == |s|
  {
    if s != [] {
      var front, last := s[..|s| - 1], s[|s| - 1];
      SizeOfElements(front);
      assert last !in front;
      assert (set x: nat | x in s) == (set x: nat | x in front) + {last};
    }
  }

  function NextOf(h: u32): (n: u32)
    ensures h < LAST_HANDLE ==> n as int == h as int + 1
  {
    (h as int + 1) % 0x1_0000_0000
  }

  /** Undoes NextOf in 32-bit arithmetic. */
  function Previous(h: u32): (p: u32)
    ensures forall g: u32 :: NextOf(g) == h ==> p == g
  {
    (h as int + 0xFFFF_FFFF) % 0x1_0000_0000
  }

  lemma AllocInSteps(db: Db, info: FileInfo, parent: u32, storage: u32)
    requires WellSized(db)
    ensures AppendIfRoom(db.(next := NextOf(db.next)), NewRec(db.next, info, parent, storage))
         == AllocIfRoom(db, info, parent, storage)
    ensures db.(next := NextOf(db.next)).(next := Previous(NextOf(db.next))) == db
  {
  }

  /** The invariant of the value. */
  ghost predicate Sane(db: Db) {
    forall p {:trigger Ask(p)} :: Ask(p) && p == MODEL ==> Inv(db)
  }

  ghost function SweptOne(db: Db, stores: Stores, files: Files, k: nat): Db {
    if Inv(db) && k < |db.recs| then SweepOne(db, stores, files, k) else db
  }

  /** What the cursor loop of a scan has still to do from below an entry. */
  ghost function SweepLeft(db: Db, stores: Stores, files: Files, parent: u32, storage: u32, below: nat): Db {
    if Inv(db) && below <= |db.recs| then Sweep(db, stores, files, parent, storage, below) else db
  }

  lemma SweepUnfolds(db: Db, stores: Stores, files: Files, parent: u32, storage: u32, below: nat)
    requires Sane(db) && below <= |db.recs|
    ensures var r := ListScan(db.recs, ChildOf(parent, storage), below);
            if r.None? then SweepLeft(db, stores, files, parent, storage, below) == db
            else
              var mid := SweptOne(db, stores, files, r.value);
              Sane(mid) && SweepLeft(db, stores, files, parent, storage, below)
                           == SweepLeft(mid, stores, files, parent, storage, r.value)
  {
    assert Ask(MODEL);
    var r := ListScan(db.recs, ChildOf(parent, storage), below);
    if r.Some? {
      SweepOneHolds(db, stores, files, r.value);
    }
  }

  ghost function Visited(db: Db, stores: Stores, kind: Kind, name: Name, k: nat): (Db, seq<Event>) {
    if Inv(db) && k < |db.recs| then Visit(db, stores, kind, name, k) else (db, [])
  }

  /** Where an event loop ends that has announced some events and has yet to look below an entry. */
  ghost function LoopLeft(soFar: seq<Event>, db: Db, stores: Stores, kind: Kind, name: Name, wd: int, below: nat): (Db, seq<Event>) {
    if Inv(db) && below <= |db.recs| && db.next + below < LAST_HANDLE then
      var v := Loop(db, stores, kind, name, wd, below);
      (v.db, soFar + v.events)
    else (db, soFar)
  }

  lemma NothingLeft(soFar: seq<Event>, db: Db, stores: Stores, kind: Kind, name: Name, wd: int, below: nat)
    requires below <= |db.recs| && ListScan(db.recs, ByWd(wd), below).None?
    ensures LoopLeft(soFar, db, stores, kind, name, wd, below) == (db, soFar)
  {
    assert soFar + [] == soFar;
  }

  lemma OneFolderLess(soFar: seq<Event>, db: Db, stores: Stores, kind: Kind, name: Name, wd: int, below: nat, k: nat)
    requires Sane(db) && below <= |db.recs| && db.next + below < LAST_HANDLE
    requires ListScan(db.recs, ByWd(wd), below) == Some(k)
    ensures var v := Visited(db, stores, kind, name, k);
            LoopLeft(soFar, db, stores, kind, name, wd, below) == LoopLeft(soFar + v.1, v.0, stores, kind, name, wd, k)
  {
    VisitedHolds(db, stores, kind, name, k);
    assert Ask(MODEL);
    var v := Visited(db, stores, kind, name, k);
    HandleEvents.Regroup(soFar, v.1, Loop(v.0, stores, kind, name, wd, k).events);
  }

  lemma VisitedHolds(db: Db, stores: Stores, kind: Kind, name: Name, k: nat)
    requires Sane(db) && k < |db.recs| && db.next < LAST_HANDLE
    ensures var db' := Visited(db, stores, kind, name, k).0;
            Sane(db') && db'.next <= db.next + 1 && |db.recs| <= |db'.recs| <= |db.recs| + 1
  {
    assert Ask(MODEL);
    VisitHolds(db, stores, kind, name, k);
  }

  method SetFields(e: FsEntry, handle: u32, parent: u32, storage: u32, name: Name, isDir: bool, size: int, wd: int)
    modifies e
    ensures View(e) == Rec(handle, parent, storage, name, isDir, false, size, wd)
  {
    e.handle, e.parent, e.storage, e.name := handle, parent, storage, name;
    e.isDir, e.deleted, e.size, e.wd, e.next := isDir, false, size, wd, null;
  }

  method SetState(e: FsEntry, deleted: bool, size: int, wd: int, ghost es: seq<FsEntry>, ghost recs: seq<Rec>, ghost k: nat)
    requires Mirrors(es, recs) && Linked(es) && Distinct(es) && k < |es| && e == es[k]
    modifies e`deleted, e`size, e`wd
    ensures e.deleted == deleted && e.size == size && e.wd == wd
    ensures Mirrors(es, recs[k := recs[k].(deleted := deleted, size := size, wd := wd)]) && Linked(es)
  {
    assert ShowAll(es, recs) && LinkAll(es) by {
      assert Ask(SHOWN) && Ask(LINKED);
    }
    e.deleted, e.size, e.wd := deleted, size, wd;
    assert ShowAll(es, recs[k := recs[k].(deleted := deleted, size := size, wd := wd)]);
    assert LinkAll(es);
  }

  /** A name and the slash before it go in front of what the buffer holds. */
  method PutName(path: array<u8>, offset: nat, end: nat, name: Name) returns (o: nat)
    requires |name| + 1 <= offset <= end <= path.Length
    modifies path
    ensures o == offset - |name| - 1 && path[o..end] == SLASH + name + old(path[offset..end])
    ensures path[..o] == old(path[..o]) && path[end..] == old(path[end..])
  {
    ghost var before := path[..];
    o := offset - |name|;
    CopyName(path, o, name);
    assert path[offset..] == before[offset..];
    o := o - 1;
    path[o] := 0x2F;
    assert path[offset..end] == before[offset..][..end - offset] == before[offset..end];
    assert path[o..end] == [path[o]] + path[o + 1..offset] + path[offset..end];
    assert path[end..] == path[offset..][end - offset..];
  }

  /** malloc and memset of a path buffer. */
  method NewBuffer(total: nat) returns (path: array<u8>)
    ensures fresh(path) && path.Length == total + 1 && path[total..] == [0]
  {
    path := new u8[total + 1](_ => 0);
  }

  lemma Rejoin(above: Name, name: Name, rest: Name)
    ensures above + SLASH + name + rest == above + (SLASH + name + rest)
  {
  }

  /** memcpy of a name. */
  method CopyName(path: array<u8>, at: nat, name: Name)
    requires at + |name| <= path.Length
    modifies path
    ensures path[at..at + |name|] == name
    ensures path[..at] == old(path[..at]) && path[at + |name|..] == old(path[at + |name|..])
  {
    var i := 0;
    while i < |name|
      invariant 0 <= i <= |name| && path[at..at + i] == name[..i]
      invariant path[..at] == old(path[..at]) && path[at + |name|..] == old(path[at + |name|..])
    {
      path[at + i] := name[i];
      assert path[at..at + i + 1] == path[at..at + i] + [name[i]];
      i := i + 1;
    }
  }

  // ------------------------------------------------------- the database

  class Database {
    var entryList: FsEntry?
    const index: Index
    const pool: Pool
    var nextHandle: u32
    var searchEntry: FsEntry?
    var handleSearch: u32
    var storageSearch: u32

    // The value this database stands for, its entries in allocation order, and how many of them the
    // child cursor has yet to look at.
    ghost var m: Db
    ghost var entries: seq<FsEntry>
    ghost var below: nat
    ghost var Repr: set<object>

    /** The parts and how they keep apart. */
    ghost predicate Apart()
      reads this`Repr, index, index.Repr, pool
    {
      && this in Repr && index.Repr <= Repr && pool.Repr <= Repr && index.Repr !! pool.Repr
      && this !in index.Repr && this !in pool.Repr
      && index.Valid() && pool.Valid()
    }

    ghost predicate Shape()
      reads this`Repr, index, index.Repr, pool
    {
      forall p {:trigger Ask(p)} :: Ask(p) && p == SHAPE ==> Apart()
    }

    /** The entries are distinct slots the pool has handed out. */
    ghost predicate OwnAll()
      reads this`entries, pool
    {
      && Distinct(entries)
      && forall k :: 0 <= k < |entries| ==> OwnedEntry(entries[k])
    }

    ghost predicate OwnedEntry(e: FsEntry)
      reads pool
    {
      e in pool.Repr && e in pool.HandedOut()
    }

    ghost predicate Owned()
      reads this`entries, pool
    {
      forall p {:trigger Ask(p)} :: Ask(p) && p == OWNED ==> OwnAll()
    }

    /** The fields that tie the list and the cursor to the entries. */
    ghost predicate Heads()
      reads this`entryList, this`entries, this`nextHandle, this`m, this`below, this`searchEntry
    {
      && entryList == At(entries, |entries|) && nextHandle == m.next
      && below <= |entries| && searchEntry == At(entries, below)
    }

    ghost predicate Valid()
      reads this, index, index.Repr, pool, entries, index.byName, index.byHandle
    {
      && Shape() && Owned() && Heads() && Mirrors(entries, m.recs) && Linked(entries)
      && Holds(index.byName.buckets, m.byName, entries) && Holds(index.byHandle.buckets, m.byHandle, entries)
    }

    constructor ()
      ensures Valid() && fresh(Repr) && m == EMPTY && entries == []
    {
      index := new Index();
      pool := new Pool();
      entryList, searchEntry, nextHandle, handleSearch, storageSearch := null, null, 1, 0, 0;
      m, entries, below := EMPTY, [], 0;
      new;
      Repr := {this} + pool.Repr + index.Repr;
    }

    // -------------------------------------------------------------- lookups

    /** The hash lookup by name. */
    method FindEntry(name: Name, parent: u32, storage: u32) returns (e: FsEntry?)
      requires Valid()
      ensures e == EntryOf(entries, HandleModel.FindEntry(m, name, parent, storage))
      ensures e != null ==> e in entries && Named(e, name, parent, storage)
      ensures e == null && Agree(m) ==> forall x :: x in entries ==> !Named(x, name, parent, storage)
    {
      assert Ask(SHAPE);
      var b := HashFunctionName(name);
      e := BucketSearch(index.byName, b, ByName(name, parent, storage));
      BucketRefines(index.byName.buckets, m.byName, entries, m.recs, b, ByName(name, parent, storage));
      AllShown();
      NameAnswered(entries, m, name, parent, storage);
    }

    lemma AllShown()
      requires Valid()
      ensures WellSized(m) && ShowAll(entries, m.recs)
    {
      assert Ask(SHOWN);
    }

    /** The hash lookup by handle, among registered storages. */
    method GetEntryByHandle(stores: Stores, handle: u32) returns (e: FsEntry?)
      requires Valid()
      ensures e == EntryOf(entries, GetByHandle(m, stores, handle))
      ensures e != null ==> e in entries && Live(e, handle) && e.storage in stores
      ensures e == null && Walkable(m) ==> forall x :: x in entries ==> !(Live(x, handle) && x.storage in stores)
    {
      assert Ask(SHAPE);
      var b := handle % HASH_TABLE_SIZE;
      e := BucketSearch(index.byHandle, b, ByHandle(handle, stores));
      BucketRefines(index.byHandle.buckets, m.byHandle, entries, m.recs, b, ByHandle(handle, stores));
      AllShown();
      HandleAnswered(entries, m, stores, handle);
    }

    method GetEntryByHandleAndStorageId(handle: u32, storage: u32) returns (e: FsEntry?)
      requires Valid()
      ensures e == EntryOf(entries, Newest(m, ByHandleStorage(handle, storage)))
      ensures e != null ==> e in entries && Live(e, handle) && e.storage == storage
      ensures e == null ==> forall x :: x in entries ==> !(Live(x, handle) && x.storage == storage)
    {
      AllShown();
      var behind;
      e, behind := ListSearch(entryList, ByHandleStorage(handle, storage), entries, m.recs, |entries|);
    }

    /** The list lookups start behind a given entry, or at the head when none is given. */
    method GetEntryByWd(wd: int, start: FsEntry?, ghost n: nat) returns (e: FsEntry?)
      requires Valid() && n <= |entries| && start == At(entries, n)
      ensures e == EntryOf(entries, ListScan(m.recs, ByWd(wd), if n == 0 then |m.recs| else n))
      ensures e != null ==> e in entries && !e.deleted && e.wd == wd
      ensures e == null ==> forall x :: x in (if n == 0 then entries else entries[..n]) ==> x.deleted || x.wd != wd
    {
      AllShown();
      var first := if start == null then entryList else start;
      var behind;
      e, behind := ListSearch(first, ByWd(wd), entries, m.recs, if n == 0 then |entries| else n);
    }

    method GetEntryByStorageId(storage: u32, start: FsEntry?, ghost n: nat) returns (e: FsEntry?)
      requires Valid() && n <= |entries| && start == At(entries, n)
      ensures e == EntryOf(entries, ListScan(m.recs, ByStorage(storage), if n == 0 then |m.recs| else n))
      ensures e != null ==> e in entries && !e.deleted && e.storage == storage
      ensures e == null ==> forall x :: x in (if n == 0 then entries else entries[..n]) ==> x.deleted || x.storage != storage
    {
      AllShown();
      var first := if start == null then entryList else start;
      var behind;
      e, behind := ListSearch(first, ByStorage(storage), entries, m.recs, if n == 0 then |entries| else n);
    }

    // --------------------------------------------------------- child cursor

    method InitSearchHandle(parent: u32, storage: u32) returns (e: FsEntry?)
      requires Valid()
      modifies this`searchEntry, this`handleSearch, this`storageSearch, this`below
      ensures Valid() && below == |entries| && handleSearch == parent && storageSearch == storage
      ensures e == entryList
    {
      searchEntry, handleSearch, storageSearch := entryList, parent, storage;
      below := |entries|;
      return searchEntry;
    }

    /** The newest live child the cursor has not passed; the cursor moves behind it. */
    method GetNextChildHandle() returns (e: FsEntry?)
      requires Valid()
      modifies this`searchEntry, this`below
      ensures Valid()
      ensures var r := ListScan(m.recs, ChildOf(handleSearch, storageSearch), old(below));
              e == EntryOf(entries, r) && below == Rest(r)
      ensures e != null ==> e in entries && ChildEntry(e, handleSearch, storageSearch)
      ensures forall k :: below <= k < old(below) && entries[k] != e ==> !ChildEntry(entries[k], handleSearch, storageSearch)
    {
      AllShown();
      ChildAnswered(entries, m.recs, handleSearch, storageSearch, below);
      var behind;
      ghost var r := ListScan(m.recs, ChildOf(handleSearch, storageSearch), below);
      e, behind := ListSearch(searchEntry, ChildOf(handleSearch, storageSearch), entries, m.recs, below);
      searchEntry := behind;
      below := Rest(r);
    }

    // ----------------------------------------------------------- allocation

    /** A slot that is nobody's entry yet. */
    ghost predicate Spare(e: FsEntry)
      reads this`entries, pool
    {
      OwnedEntry(e) && forall k :: 0 <= k < |entries| ==> entries[k] != e
    }

    method TakeSlot(blockOk: bool) returns (e: FsEntry?)
      requires Valid()
      modifies pool, this`Repr
      ensures Valid() && fresh(Repr - old(Repr)) && old(Repr) <= Repr
      ensures e == null <==> old(pool.free) == 0 && !blockOk
      ensures e == null ==> pool.HandedOut() == old(pool.HandedOut())
      ensures e != null ==> Spare(e) && e in Repr && pool.HandedOut() == old(pool.HandedOut()) + [e] && pool.free < POOL_BLOCK_SIZE
    {
      assert pool.Valid() && pool.Repr <= Repr by {
        assert Ask(SHAPE);
      }
      assert OwnAll() by {
        assert Ask(OWNED);
      }
      e := pool.Take(blockOk);
      Repr := Repr + pool.Repr;
      assert Shape() by {
        assert Ask(SHAPE);
      }
      assert Owned();
    }

    /** Nothing the list needs lies in the index. */
    lemma ApartFromIndex()
      requires Shape() && Owned()
      ensures pool !in index.Repr && this !in index.Repr && index.Valid()
      ensures forall k :: 0 <= k < |entries| ==> entries[k] !in index.Repr
      ensures forall e :: e in pool.Repr ==> e !in index.Repr
      ensures this in Repr && pool in Repr && pool.Repr <= Repr && index.Repr <= Repr
    {
      assert Ask(SHAPE) && Ask(OWNED);
    }

    /** Everything but the tables. */
    ghost predicate ListValid()
      reads this, index, index.Repr, pool, entries
    {
      Shape() && Owned() && Heads() && Mirrors(entries, m.recs) && Linked(entries)
    }

    /** The tables, where the model has the given ones. */
    ghost predicate TablesShow(byName: Table, byHandle: Table, es: seq<FsEntry>)
      reads index, index.byName, index.byHandle
    {
      Holds(index.byName.buckets, byName, es) && Holds(index.byHandle.buckets, byHandle, es)
    }

    /** insert_entry of a slot that is not in the list yet. */
    method Enlist(e: FsEntry)
      requires Valid() && Spare(e)
      modifies index.Repr, this`Repr
      ensures ListValid() && fresh(Repr - old(Repr)) && old(Repr) <= Repr && Spare(e) && View(e) == old(View(e))
      ensures WellSized(m) && m == old(m) && entries == old(entries)
      ensures var db := AppendIfRoom(m, View(e)); TablesShow(db.byName, db.byHandle, entries + [e])
    {
      ApartFromIndex();
      HoldsEnlisted(index.byName.buckets, m.byName, entries, HashName(e.name), e);
      HoldsEnlisted(index.byHandle.buckets, m.byHandle, entries, HashHandle(e.handle), e);
      InsertIntoIndex(e);
    }

    method InsertIntoIndex(e: FsEntry)
      requires Shape() && e in pool.Repr && |index.byName.buckets| == HASH_TABLE_SIZE == |index.byHandle.buckets|
      modifies index.Repr, this`Repr
      ensures Shape() && fresh(Repr - old(Repr)) && old(Repr) <= Repr
      ensures index.byHandle.buckets == Enlisted(old(index.byHandle.buckets), HashHandle(e.handle), e)
      ensures index.byName.buckets == Enlisted(old(index.byName.buckets), HashName(e.name), e)
    {
      assert Ask(SHAPE);
      index.Insert(e);
      Repr := Repr + index.Repr;
    }

    /** Prepending to the list. */
    method Prepend(e: FsEntry, ghost db: Db)
      requires ListValid() && Spare(e) && TablesShow(db.byName, db.byHandle, entries + [e])
      requires db.recs == m.recs + [View(e)] && db.next == m.next
      modifies this`entryList, this`entries, this`m, e`next
      ensures Valid() && entries == old(entries) + [e] && m == db && View(e) == old(View(e))
    {
      ghost var was := entries;
      e.next := entryList;
      entryList := e;
      entries := was + [e];
      m := db;
      assert Owned() by {
        assert Ask(OWNED);
      }
      assert Mirrors(entries, m.recs) by {
        assert Ask(SHOWN);
      }
      assert Linked(entries) by {
        assert Ask(LINKED);
      }
    }

    /** The slot becomes the newest entry: both tables, then the head of the list. */
    method Link(e: FsEntry)
      requires Valid() && Spare(e)
      modifies index.Repr, this`Repr, this`entryList, this`entries, this`m, e`next
      ensures Valid() && fresh(Repr - old(Repr)) && old(Repr) <= Repr
      ensures WellSized(old(m)) && entries == old(entries) + [e] && View(e) == old(View(e))
      ensures m == AppendIfRoom(old(m), View(e))
      ensures pool.HandedOut() == old(pool.HandedOut())
    {
      ApartFromIndex();
      Enlist(e);
      Prepend(e, AppendIfRoom(m, View(e)));
    }

    method SetNextHandle(h: u32)
      requires Valid()
      modifies this`nextHandle, this`m
      ensures Valid() && m == old(m).(next := h) && nextHandle == h
    {
      nextHandle := h;
      m := m.(next := h);
    }

    /** memset and the assignments to the fields of a slot nobody uses. */
    method Fill(e: FsEntry, handle: u32, parent: u32, storage: u32, name: Name, isDir: bool, size: int, wd: int)
      requires Valid() && Spare(e)
      modifies e
      ensures Valid() && Spare(e) && View(e) == Rec(handle, parent, storage, name, isDir, false, size, wd)
    {
      ApartFromIndex();
      SetFields(e, handle, parent, storage, name, isDir, size, wd);
      assert Mirrors(entries, m.recs) by {
        assert Ask(SHOWN);
      }
      assert Linked(entries) by {
        assert Ask(LINKED);
      }
    }

    /** The slot handed out last goes back to the pool. */
    method GiveBack(ghost e: FsEntry)
      requires Valid() && Spare(e) && pool.free < POOL_BLOCK_SIZE
      requires pool.HandedOut() != [] && e == pool.HandedOut()[|pool.HandedOut()| - 1]
      modifies pool
      ensures Valid() && pool.HandedOut() == old(pool.HandedOut())[..|old(pool.HandedOut())| - 1]
    {
      ApartFromIndex();
      assert pool.Valid() && OwnAll() by {
        assert Ask(SHAPE) && Ask(OWNED);
      }
      pool.PutBack(e);
      assert Shape() by {
        assert Ask(SHAPE);
      }
      assert Owned();
    }

    /** The end of alloc_entry: the fields, the tables, the list. */
    method Enter(e: FsEntry, handle: u32, parent: u32, storage: u32, name: Name, isDir: bool, size: int)
      requires Valid() && Spare(e) && e in Repr && WellSized(m)
      modifies Repr
      ensures Valid() && fresh(Repr - old(Repr)) && old(Repr) <= Repr && pool.HandedOut() == old(pool.HandedOut())
      ensures entries == old(entries) + [e]
      ensures m == AppendIfRoom(old(m), Rec(handle, parent, storage, name, isDir, false, size, -1))
      ensures View(e) == Rec(handle, parent, storage, name, isDir, false, size, -1) && nextHandle == old(nextHandle)
      ensures unchanged(this`searchEntry, this`handleSearch, this`storageSearch, this`below)
    {
      ApartFromIndex();
      Fill(e, handle, parent, storage, name, isDir, size, -1);
      Link(e);
    }

    /** The name could not be copied: slot and handle are taken back. */
    method RollBack(e: FsEntry)
      requires Valid() && Spare(e) && e in Repr && pool.free < POOL_BLOCK_SIZE
      requires pool.HandedOut() != [] && e == pool.HandedOut()[|pool.HandedOut()| - 1]
      modifies Repr
      ensures Valid() && Repr == old(Repr) && entries == old(entries)
      ensures unchanged(this`searchEntry, this`handleSearch, this`storageSearch, this`below)
      ensures m == old(m).(next := Previous(old(m.next)))
      ensures pool.HandedOut() == old(pool.HandedOut())[..|old(pool.HandedOut())| - 1]
    {
      ApartFromIndex();
      Fill(e, 0, 0, 0, [], false, 0, 0);
      GiveBack(e);
      SetNextHandle(Previous(nextHandle));
    }

    method AllocEntry(info: FileInfo, parent: u32, storage: u32, blockOk: bool, nameOk: bool) returns (e: FsEntry?)
      requires Valid()
      modifies Repr
      ensures Valid() && fresh(Repr - old(Repr)) && old(Repr) <= Repr && WellSized(old(m))
      ensures unchanged(this`searchEntry, this`handleSearch, this`storageSearch, this`below)
      ensures e == null <==> (old(pool.free) == 0 && !blockOk) || !nameOk
      ensures e == null ==> m == old(m) && entries == old(entries) && pool.HandedOut() == old(pool.HandedOut())
      ensures e != null ==> m == AllocIfRoom(old(m), info, parent, storage) && entries == old(entries) + [e]
      ensures e != null ==> pool.HandedOut() == old(pool.HandedOut()) + [e]
      ensures e != null ==> Entered(e, old(nextHandle), info, parent, storage)
      ensures e != null && old(nextHandle) < LAST_HANDLE ==> nextHandle == old(nextHandle) + 1
    {
      ApartFromIndex();
      e := TakeSlot(blockOk);
      if e == null {
        return;
      }
      var handle := nextHandle;
      AllocInSteps(m, info, parent, storage);
      SetNextHandle(NextOf(handle));
      if nameOk {
        Enter(e, handle, parent, storage, info.name, info.isDir, info.size);
      } else {
        RollBack(e);
        return null;
      }
    }

    /** alloc_root_entry. A failed copy of its name loses the slot. */
    method AllocRootEntry(storage: u32, blockOk: bool, nameOk: bool) returns (e: FsEntry?)
      requires Valid()
      modifies Repr
      ensures Valid() && fresh(Repr - old(Repr)) && old(Repr) <= Repr && WellSized(old(m))
      ensures unchanged(this`searchEntry, this`handleSearch, this`storageSearch, this`below)
      ensures e == null <==> (old(pool.free) == 0 && !blockOk) || !nameOk
      ensures e == null ==> m == old(m) && entries == old(entries)
      ensures e == null ==> |pool.HandedOut()| == |old(pool.HandedOut())| + if old(pool.free) == 0 && !blockOk then 0 else 1
      ensures e != null ==> m == AppendIfRoom(old(m), RootRec(storage)) && entries == old(entries) + [e]
      ensures e != null ==> pool.HandedOut() == old(pool.HandedOut()) + [e]
      ensures e != null ==> Entered(e, 0, FileInfo([0x2F], true, 1), 0, storage) && nextHandle == old(nextHandle)
    {
      ApartFromIndex();
      e := TakeSlot(blockOk);
      if e == null {
        return;
      }
      if !nameOk {
        Fill(e, 0, 0, storage, [], false, 0, 0);
        return null;
      }
      Enter(e, 0, 0, storage, ROOT_NAME, true, 1);
    }

    /** add_entry: a live entry of that name in that folder is kept. */
    method AddEntry(info: FileInfo, parent: u32, storage: u32, blockOk: bool, nameOk: bool) returns (e: FsEntry?)
      requires Valid()
      modifies Repr
      ensures Valid() && fresh(Repr - old(Repr)) && old(Repr) <= Repr && WellSized(old(m))
      ensures unchanged(this`searchEntry, this`handleSearch, this`storageSearch, this`below)
      ensures var r := HandleModel.FindEntry(old(m), info.name, parent, storage);
              if r.Some? then m == old(m) && entries == old(entries) && e == entries[r.value]
              else if e == null then m == old(m) && entries == old(entries) && ((old(pool.free) == 0 && !blockOk) || !nameOk)
              else m == AllocIfRoom(old(m), info, parent, storage) && entries == old(entries) + [e]
      ensures e != null ==> Named(e, info.name, parent, storage) && (e in old(entries) || Entered(e, old(nextHandle), info, parent, storage))
    {
      e := FindEntry(info.name, parent, storage);
      assert |entries| == |m.recs|;
      if e == null {
        e := AllocEntry(info, parent, storage, blockOk, nameOk);
      }
    }

    // --------------------------------------------------------------- updates

    /** New flags, size or watch of an entry; the list and the tables stay as they are. */
    method Update(e: FsEntry, ghost k: nat, deleted: bool, size: int, wd: int)
      requires Valid() && k < |entries| && e == entries[k]
      modifies e`deleted, e`size, e`wd, this`m
      ensures Valid() && m == old(m).(recs := old(m).recs[k := old(m).recs[k].(deleted := deleted, size := size, wd := wd)])
      ensures e.deleted == deleted && e.size == size && e.wd == wd
    {
      ApartFromIndex();
      assert OwnAll() && e in pool.Repr by {
        assert Ask(OWNED);
      }
      SetState(e, deleted, size, wd, entries, m.recs, k);
      m := m.(recs := m.recs[k := m.recs[k].(deleted := deleted, size := size, wd := wd)]);
    }

    /** The entry stays in list and tables, marked as deleted; a watch on it ends. */
    method Discard(e: FsEntry, ghost k: nat)
      requires Valid() && k < |entries| && e == entries[k]
      modifies e`deleted, e`size, e`wd, this`m
      ensures Valid() && m == Tombstone(old(m), k) && e.deleted && e.wd == -1 && e.size == old(e.size)
    {
      assert View(e) == m.recs[k] by {
        assert Ask(SHOWN);
      }
      Update(e, k, true, e.size, -1);
    }

    // ------------------------------------------------------------ full paths

    /** The part of a climb above an entry. */
    ghost function ClimbFrom(stores: Stores, r: Option<nat>): Name
      requires Walkable(m) && (r.Some? ==> r.value < |m.recs|)
      reads this`m
    {
      if r.Some? then Climb(m, stores, r.value) else []
    }

    ghost function Height(r: Option<nat>): nat
      requires r.Some? ==> r.value < |m.recs|
      reads this`m
    {
      if r.Some? then m.recs[r.value].handle as int + 1 else 0
    }

    /** The step to the parent, the same in both passes. */
    method ParentOf(stores: Stores, e: FsEntry, ghost k: nat) returns (p: FsEntry?)
      requires Valid() && WellSized(m) && k < |entries| == |m.recs| && e == entries[k]
      ensures p == EntryOf(entries, Up(m, stores, k))
    {
      assert View(e) == m.recs[k] by {
        assert Ask(SHOWN);
      }
      if e.parent != 0 && e.parent != NO_PARENT {
        p := GetEntryByHandle(stores, e.parent);
      } else {
        p := null;
      }
    }

    lemma StepUp(stores: Stores, k: nat)
      requires Walkable(m) && k < |m.recs|
      ensures var u := Up(m, stores, k);
        && Height(u) < Height(Some(k))
        && Climb(m, stores, k) == ClimbFrom(stores, u) + SLASH + m.recs[k].name
    {
      if Up(m, stores, k).Some? {
        UpDecreases(m, stores, k);
      }
      ClimbStep(m, stores, k);
    }

    /** The measuring pass. */
    method MeasurePath(stores: Stores, e: FsEntry, ghost k: nat) returns (total: nat)
      requires Valid() && Walkable(m) && k < |entries| == |m.recs| && e == entries[k]
      ensures total == |Climb(m, stores, k)|
    {
      var cur: FsEntry? := e;
      ghost var r: Option<nat> := Some(k);
      total := 0;
      while cur != null
        invariant r.Some? ==> r.value < |m.recs|
        invariant cur == EntryOf(entries, r) && total + |ClimbFrom(stores, r)| == |Climb(m, stores, k)|
        decreases Height(r)
      {
        StepUp(stores, r.value);
        ShownName(cur, r.value);
        total := total + |cur.name| + 1;
        cur := ParentOf(stores, cur, r.value);
        r := Up(m, stores, r.value);
      }
    }

    lemma ShownName(e: FsEntry, k: nat)
      requires Valid() && k < |entries| && e == entries[k]
      ensures |entries| == |m.recs| && e.name == m.recs[k].name
    {
      assert Ask(SHOWN);
    }

    method PutEntry(path: array<u8>, offset: nat, end: nat, e: FsEntry) returns (o: nat)
      requires Valid() && path !in Repr && |e.name| + 1 <= offset <= end <= path.Length
      modifies path
      ensures Valid()
      ensures o == offset - |e.name| - 1 && path[o..end] == SLASH + e.name + old(path[offset..end])
      ensures path[end..] == old(path[end..])
    {
      ApartFromIndex();
      o := PutName(path, offset, end, e.name);
    }

    /** The filling pass, from the end of the buffer to the front. */
    method FillPath(stores: Stores, e: FsEntry, ghost k: nat, path: array<u8>, end: nat) returns (offset: nat)
      requires Valid() && Walkable(m) && k < |entries| == |m.recs| && e == entries[k]
      requires path.Length > end >= |Climb(m, stores, k)| && path !in Repr
      modifies path
      ensures Valid() && offset == end - |Climb(m, stores, k)|
      ensures path[offset..end] == Climb(m, stores, k) && path[end..] == old(path[end..])
    {
      var cur: FsEntry? := e;
      ghost var r: Option<nat> := Some(k);
      offset := end;
      while cur != null
        invariant r.Some? ==> r.value < |m.recs|
        invariant Valid() && cur == EntryOf(entries, r) && offset == end - |Climb(m, stores, k)| + |ClimbFrom(stores, r)|
        invariant offset <= end && ClimbFrom(stores, r) + path[offset..end] == Climb(m, stores, k)
        invariant path[end..] == old(path[end..])
        decreases Height(r)
      {
        StepUp(stores, r.value);
        ShownName(cur, r.value);
        Rejoin(ClimbFrom(stores, Up(m, stores, r.value)), cur.name, path[offset..end]);
        offset := PutEntry(path, offset, end, cur);
        cur := ParentOf(stores, cur, r.value);
        r := Up(m, stores, r.value);
      }
    }

    method PutRoot(path: array<u8>, prefix: Name, ghost offset: nat, ghost climb: Name)
      requires Valid() && path !in Repr && offset == |prefix| && path.Length == offset + |climb| + 1
      requires path[offset..offset + |climb|] == climb && path[offset + |climb|] == 0
      modifies path
      ensures Valid() && path[..] == prefix + climb + [0]
    {
      ApartFromIndex();
      CopyName(path, 0, prefix);
      assert path[..] == path[0..offset] + path[offset..];
      assert path[offset..] == climb + [0];
    }

    /** build_full_path up to the resolution of the buffer by the kernel: two passes over the same
        ancestors, then the root path in front. */
    method BuildFullPath(stores: Stores, root: Option<Name>, e: FsEntry?, ghost k: nat) returns (path: array?<u8>)
      requires Valid() && Walkable(m) && |entries| == |m.recs| && (e != null ==> k < |entries| && e == entries[k])
      ensures Valid() && (path == null <==> e == null)
      ensures path != null ==> fresh(path) && path[..] == (if root.Some? then root.value else []) + Climb(m, stores, k) + [0]
    {
      if e == null {
        return null;
      }
      var prefix: Name := if root.Some? then root.value else [];
      var total := MeasurePath(stores, e, k);
      total := |prefix| + total;
      path := NewBuffer(total);
      var offset := FillPath(stores, e, k, path, total);
      PutRoot(path, prefix, offset, Climb(m, stores, k));
    }

    // --------------------------------------------------------------- rename

    method RemoveFromIndex(e: FsEntry)
      requires Shape() && e in pool.Repr && |index.byName.buckets| == HASH_TABLE_SIZE == |index.byHandle.buckets|
      modifies index.Repr
      ensures Shape() && index.Repr == old(index.Repr)
      ensures index.byHandle.buckets == Delisted(old(index.byHandle.buckets), HashHandle(e.handle), e)
      ensures index.byName.buckets == Delisted(old(index.byName.buckets), HashName(e.name), e)
    {
      assert Ask(SHAPE);
      index.Remove(e);
    }

    /** Assignment to the name alone; the tables are not touched. */
    method SwapName(e: FsEntry, ghost k: nat, name: Name)
      requires Valid() && k < |entries| && e == entries[k]
      modifies e`name, this`m
      ensures Valid() && |old(m).recs| == |entries| && e.name == name
      ensures m == old(m).(recs := old(m).recs[k := old(m).recs[k].(name := name)])
    {
      ApartFromIndex();
      assert OwnAll() && e in pool.Repr by {
        assert Ask(OWNED);
      }
      SetName(e, name, entries, m.recs, k);
      m := m.(recs := m.recs[k := m.recs[k].(name := name)]);
    }

    /** remove_entry, the new name, insert_entry. */
    method ReplaceInIndex(e: FsEntry, name: Name)
      requires Shape() && e in pool.Repr && TablesShow(m.byName, m.byHandle, entries)
      modifies index.Repr, this`Repr, e`name
      ensures Shape() && fresh(Repr - old(Repr)) && old(Repr) <= Repr && e.name == name
      ensures |old(index.byName.buckets)| == HASH_TABLE_SIZE == |old(index.byHandle.buckets)|
      ensures var mid := Delisted(old(index.byHandle.buckets), HashHandle(old(e.handle)), e);
              index.byHandle.buckets == Enlisted(mid, HashHandle(old(e.handle)), e)
      ensures var mid := Delisted(old(index.byName.buckets), HashName(old(e.name)), e);
              index.byName.buckets == Enlisted(mid, HashName(name), e)
    {
      assert this !in index.Repr && pool !in index.Repr && e !in index.Repr by {
        assert Ask(SHAPE);
      }
      RemoveFromIndex(e);
      e.name := name;
      InsertIntoIndex(e);
    }

    lemma RecordOf(e: FsEntry, k: nat)
      requires Valid() && k < |entries| && e == entries[k]
      ensures |entries| == |m.recs| && View(e) == m.recs[k] && Distinct(entries) && e in pool.Repr
    {
      assert Ask(OWNED) && Ask(SHOWN);
    }

    /** The object moves between the buckets as the model moves its number. */
    method MoveInIndex(e: FsEntry, ghost k: nat, name: Name)
      requires Shape() && WellSized(m) && TablesShow(m.byName, m.byHandle, entries) && Distinct(entries)
      requires k < |entries| == |m.recs| && e == entries[k] && e in pool.Repr && View(e) == m.recs[k]
      modifies index.Repr, this`Repr, e`name
      ensures Shape() && fresh(Repr - old(Repr)) && old(Repr) <= Repr && e.name == name
      ensures WellSized(old(m)) && k < |old(m).recs|
      ensures var db := RenameIfRoom(old(m), k, name); TablesShow(db.byName, db.byHandle, old(entries))
    {
      MovedBuckets(index.byName.buckets, m.byName, entries, HashName(e.name), HashName(name), k);
      MovedBuckets(index.byHandle.buckets, m.byHandle, entries, HashHandle(e.handle), HashHandle(e.handle), k);
      ReplaceInIndex(e, name);
    }

    /** The entry leaves both tables under its old name and enters them under the new one. */
    method Reindex(e: FsEntry, ghost k: nat, name: Name)
      requires Valid() && k < |entries| && e == entries[k]
      modifies index.Repr, this`Repr, this`m, e`name
      ensures Valid() && fresh(Repr - old(Repr)) && old(Repr) <= Repr && entries == old(entries)
      ensures WellSized(old(m)) && k < |old(m).recs| && m == RenameIfRoom(old(m), k, name) && e.name == name
    {
      ghost var db := m;
      ApartFromIndex();
      RecordOf(e, k);
      MoveInIndex(e, k, name);
      m := RenameIfRoom(db, k, name);
      assert Mirrors(entries, m.recs) by {
        assert Ask(SHOWN);
      }
      assert Linked(entries) by {
        assert Ask(LINKED);
      }
    }

    /** The path of an entry under the root of its storage. */
    method PathOf(stores: Stores, e: FsEntry, ghost k: nat) returns (path: array<u8>)
      requires Valid() && Walkable(m) && k < |entries| == |m.recs| && e == entries[k]
      ensures Valid() && fresh(path) && path[..] == FullPath(m, stores, k) + [0]
      ensures e.storage in stores ==> stores[e.storage] <= path[..]
    {
      assert View(e) == m.recs[k] by {
        assert Ask(SHOWN);
      }
      var root := if e.storage in stores then Some(stores[e.storage]) else None;
      path := BuildFullPath(stores, root, e, k);
    }

    /** The path the entry would have under a new name: the name is tried out and put back. */
    method PathAs(stores: Stores, e: FsEntry, ghost k: nat, name: Name, ghost own: seq<u8>) returns (path: array<u8>)
      requires Valid() && Walkable(m) && k < |entries| == |m.recs| && e == entries[k] && own == FullPath(m, stores, k) + [0]
      modifies e`name, this`m
      ensures Valid() && m == old(m) && e.name == old(e.name) && fresh(path)
      ensures var r := m.recs[k];
              path[..] == FolderPath(m, stores, r.parent, r.storage) + SLASH + name + [0]
      ensures |own| > |e.name| && path[..] == own[..|own| - 1 - |e.name|] + name + [0]
    {
      ghost var db := m;
      ShownName(e, k);
      var oldName := e.name;
      TriedName(m, stores, k, name);
      SwapName(e, k, name);
      path := PathOf(stores, e, k);
      SwapName(e, k, oldName);
      assert m.recs == db.recs;
      ChildPath(m, stores, k);
      LastNameSwapped(FolderPath(m, stores, m.recs[k].parent, m.recs[k].storage), oldName, name, own, path[..]);
    }

    /** The file name property of an object. The old path must resolve, the name must be readable, the
        new path must resolve and the file system must rename; else nothing changes. The paths handed
        to the file system are those of the entry under its old and under its new name. */
    method RenameObject(stores: Stores, e: FsEntry, ghost k: nat, newName: Option<Name>,
                        oldResolves: bool, newResolves: bool, renamed: bool)
      returns (ok: bool, path: array<u8>, path2: array?<u8>)
      requires Valid() && Walkable(m) && k < |entries| == |m.recs| && e == entries[k]
      modifies index.Repr, this`Repr, this`m, e`name
      ensures unchanged(this`searchEntry, this`handleSearch, this`storageSearch, this`below)
      ensures Valid() && fresh(Repr - old(Repr)) && old(Repr) <= Repr && entries == old(entries)
      ensures ok <==> oldResolves && newName.Some? && newResolves && renamed
      ensures m == if ok then RenameIfRoom(old(m), k, newName.value) else old(m)
      ensures path[..] == FullPath(old(m), stores, k) + [0]
      ensures path2 != null <==> oldResolves && newName.Some?
      ensures var r := old(m).recs[k];
              path2 != null ==> path2[..] == FolderPath(old(m), stores, r.parent, r.storage) + SLASH + newName.value + [0]
      // the new path is the old one with its last name exchanged, and so is the record
      ensures path2 != null ==>
        path.Length > |old(e.name)| && path2[..] == path[..][..path.Length - 1 - |old(e.name)|] + newName.value + [0]
      ensures e.name == if ok then newName.value else old(e.name)
      ensures ok ==> m.recs == old(m).recs[k := old(m).recs[k].(name := newName.value)] && m.next == old(m).next
    {
      ok, path2 := false, null;
      path := PathOf(stores, e, k);
      if !oldResolves || newName.None? {
        return;
      }
      path2 := PathAs(stores, e, k, newName.value, path[..]);
      ApartFromIndex();
      if !newResolves || !renamed {
        return;
      }
      ok := true;
      Reindex(e, k, newName.value);
    }

    // -------------------------------------------------------------- scanning

    /** The counter and the buckets have room for the names of a listing that are absent. */
    ghost predicate Ready(listing: seq<FileInfo>, showHidden: bool, parent: u32, storage: u32)
      reads this`m
    {
      && WellSized(m) && Sane(m) && Room(m, listing, showHidden, parent, storage)
      && ListRoom(m, listing, showHidden, parent, storage)
    }

    /** One name of the directory. Allocation is taken to succeed. */
    method ScanName(listing: seq<FileInfo>, i: nat, showHidden: bool, parent: u32, storage: u32)
      requires Valid() && i < |listing| && Ready(listing[i..], showHidden, parent, storage)
      modifies Repr
      ensures Valid() && fresh(Repr - old(Repr)) && old(Repr) <= Repr && Ready(listing[i + 1..], showHidden, parent, storage)
      ensures AddAll(m, listing[i + 1..], showHidden, parent, storage) == AddAll(old(m), listing[i..], showHidden, parent, storage)
    {
      ghost var db := m;
      var info := listing[i];
      assert listing[i..][0] == info && listing[i..][1..] == listing[i + 1..];
      OneNameFits(m, info, showHidden, parent, storage);
      if info.name != [DOT, DOT] && info.name != [DOT] && (showHidden || info.name == [] || info.name[0] != DOT) {
        var e := AddEntry(info, parent, storage, true, true);
      }
      assert m == AddOne(db, info, showHidden, parent, storage);
    }

    /** One child of the folder: gone from the disk, or of a size to be noted. */
    method SweepChild(stores: Stores, files: Files, e: FsEntry, ghost k: nat)
      requires Valid() && Sane(m) && k < |entries| == |m.recs| && e == entries[k]
      modifies e`deleted, e`size, e`wd, this`m
      ensures Valid() && m == SweptOne(old(m), stores, files, k)
    {
      assert Inv(m) by {
        assert Ask(MODEL);
      }
      ShownState(e, k);
      var path := PathOf(stores, e, k);
      var name := path[..path.Length - 1];
      assert name == FullPath(m, stores, k);
      if name in files {
        Update(e, k, e.deleted, files[name], e.wd);
      } else {
        Discard(e, k);
      }
    }

    lemma ShownState(e: FsEntry, k: nat)
      requires Valid() && k < |entries| && e == entries[k]
      ensures |entries| == |m.recs| && e.deleted == m.recs[k].deleted && e.wd == m.recs[k].wd
    {
      assert Ask(SHOWN);
    }

    /** The directory loop of a scan. */
    method ScanDirectory(listing: seq<FileInfo>, showHidden: bool, parent: u32, storage: u32)
      requires Valid() && Ready(listing, showHidden, parent, storage)
      modifies Repr
      ensures Valid() && fresh(Repr - old(Repr)) && old(Repr) <= Repr && Sane(m)
      ensures m == AddAll(old(m), listing, showHidden, parent, storage)
    {
      var i := 0;
      assert listing[0..] == listing;
      while i < |listing|
        invariant 0 <= i <= |listing| && Valid() && fresh(Repr - old(Repr)) && old(Repr) <= Repr
        invariant Ready(listing[i..], showHidden, parent, storage)
        invariant AddAll(m, listing[i..], showHidden, parent, storage) == AddAll(old(m), listing, showHidden, parent, storage)
      {
        ScanName(listing, i, showHidden, parent, storage);
        i := i + 1;
      }
    }

    lemma SameLength()
      requires Valid()
      ensures |entries| == |m.recs| && WellSized(m)
    {
    }

    lemma InRepr(k: nat)
      requires Shape() && Owned() && k < |entries|
      ensures entries[k] in Repr
    {
      assert Ask(SHAPE) && Ask(OWNED);
    }

    /** One round of the cursor loop. */
    method SweepNext(stores: Stores, files: Files) returns (more: bool)
      requires Valid() && Sane(m)
      modifies Repr
      ensures Valid() && Sane(m) && Repr == old(Repr) && handleSearch == old(handleSearch) && storageSearch == old(storageSearch)
      ensures SweepLeft(m, stores, files, handleSearch, storageSearch, below)
           == SweepLeft(old(m), stores, files, handleSearch, storageSearch, old(below))
      ensures more ==> below < old(below)
      ensures !more ==> below == 0 && searchEntry == null && m == SweepLeft(old(m), stores, files, handleSearch, storageSearch, old(below))
    {
      ghost var r := ListScan(m.recs, ChildOf(handleSearch, storageSearch), below);
      SameLength();
      SweepUnfolds(m, stores, files, handleSearch, storageSearch, below);
      ApartFromIndex();
      var e := GetNextChildHandle();
      more := e != null;
      if more {
        InRepr(r.value);
        SweepChild(stores, files, e, r.value);
      }
    }

    /** The cursor stands at the end of its own enumeration: whatever enumeration used it before is
        over, the next call returns null. */
    ghost predicate Spent(parent: u32, storage: u32)
      reads this
    {
      below == 0 && searchEntry == null && handleSearch == parent && storageSearch == storage
    }

    /** The cursor loop of a scan. It takes the cursor over. */
    method SweepFolder(stores: Stores, files: Files, parent: u32, storage: u32)
      requires Valid() && Sane(m)
      modifies Repr
      ensures Valid() && Sane(m) && Repr == old(Repr)
      ensures m == SweepLeft(old(m), stores, files, parent, storage, |old(m).recs|)
      ensures Spent(parent, storage)
    {
      SameLength();
      ApartFromIndex();
      var first := InitSearchHandle(parent, storage);
      var more := true;
      while more
        invariant Valid() && Sane(m) && Repr == old(Repr) && handleSearch == parent && storageSearch == storage
        invariant var goal := SweepLeft(old(m), stores, files, parent, storage, |old(m).recs|);
                  SweepLeft(m, stores, files, parent, storage, below) == goal && (!more ==> m == goal)
        invariant !more ==> below == 0 && searchEntry == null
        decreases below, more
      {
        more := SweepNext(stores, files);
      }
    }

    /** scan_and_add_folder. An unreadable directory is reported, but the children are swept all the same. */
    method ScanAndAddFolder(stores: Stores, files: Files, listing: Option<seq<FileInfo>>, showHidden: bool,
                            parent: u32, storage: u32) returns (r: int)
      requires Valid() && Inv(m)
      requires listing.Some? ==> Room(m, listing.value, showHidden, parent, storage)
      requires listing.Some? ==> ListRoom(m, listing.value, showHidden, parent, storage)
      modifies Repr
      ensures Valid() && fresh(Repr - old(Repr)) && old(Repr) <= Repr
      ensures m == Scan(old(m), stores, files, listing, showHidden, parent, storage)
      ensures Spent(parent, storage)
      ensures r == if listing.Some? then 0 else -1
    {
      SameLength();
      ghost var db := m;
      if listing.Some? {
        AddAllHolds(db, listing.value, showHidden, parent, storage);
        ScanDirectory(listing.value, showHidden, parent, storage);
      }
      SweepFolder(stores, files, parent, storage);
      r := if listing.Some? then 0 else -1;
    }

    // ---------------------------------------------------- file system events

    /** What the creation loop does at one watched folder. */
    method VisitCreate(stores: Stores, kind: Kind, name: Name, e: FsEntry, ghost k: nat) returns (events: seq<Event>)
      requires Valid() && Inv(m) && kind.Create? && k < |entries| == |m.recs| && e == entries[k]
      requires m.next < LAST_HANDLE && |m.recs| < MAX_NODE_CAPACITY
      modifies Repr
      ensures unchanged(this`searchEntry, this`handleSearch, this`storageSearch, this`below)
      ensures Valid() && fresh(Repr - old(Repr)) && old(Repr) <= Repr && old(entries) <= entries
      ensures (m, events) == Visit(old(m), stores, kind, name, k)
    {
      ShownFolder(e, k);
      var path := PathOf(stores, e, k);
      var folder := path[..path.Length - 1];
      assert folder == FullPath(m, stores, k);
      events := EnterFile(CreatedInfo(folder + SLASH + name, name, kind), e.handle, e.storage);
    }

    /** A file that appeared in a folder is entered and announced, unless it is known. */
    method EnterFile(info: FileInfo, parent: u32, storage: u32) returns (events: seq<Event>)
      requires Valid() && WellSized(m) && Agree(m) && |m.recs| < MAX_NODE_CAPACITY
      modifies Repr
      ensures unchanged(this`searchEntry, this`handleSearch, this`storageSearch, this`below)
      ensures Valid() && fresh(Repr - old(Repr)) && old(Repr) <= Repr && old(entries) <= entries
      ensures m == HandleModel.AddEntry(old(m), info, parent, storage)
      ensures events == if HandleModel.FindEntry(old(m), info.name, parent, storage).Some? then [] else [ObjectAdded(old(m.next))]
    {
      events := [];
      SameLength();
      FitsBelow(m, info.name, m.next);
      RoomForOne(m, info, parent, storage);
      var oldEntry := FindEntry(info.name, parent, storage);
      if oldEntry == null {
        var newEntry := AddEntry(info, parent, storage, true, true);
        ShownFolder(newEntry, |entries| - 1);
        events := [ObjectAdded(newEntry.handle)];
      }
    }

    method VisitModify(stores: Stores, kind: Kind, name: Name, e: FsEntry, ghost k: nat) returns (events: seq<Event>)
      requires Valid() && Inv(m) && kind.Modify? && k < |entries| == |m.recs| && e == entries[k]
      ensures (m, events) == Visit(m, stores, kind, name, k)
    {
      ShownFolder(e, k);
      var modified := FindEntry(Clip(name), e.handle, e.storage);
      events := [];
      if modified != null {
        ShownFolder(modified, HandleModel.FindEntry(m, Clip(name), e.handle, e.storage).value);
        events := [ObjectInfoChanged(modified.handle)];
      }
    }

    method VisitDelete(stores: Stores, kind: Kind, name: Name, e: FsEntry, ghost k: nat) returns (events: seq<Event>)
      requires Valid() && Inv(m) && kind.Delete? && k < |entries| == |m.recs| && e == entries[k]
      modifies Repr
      ensures unchanged(this`searchEntry, this`handleSearch, this`storageSearch, this`below)
      ensures Valid() && Repr == old(Repr) && entries == old(entries)
      ensures (m, events) == Visit(old(m), stores, kind, name, k)
    {
      ApartFromIndex();
      ShownFolder(e, k);
      ghost var r := HandleModel.FindEntry(m, Clip(name), e.handle, e.storage);
      var deleted := FindEntry(Clip(name), e.handle, e.storage);
      events := [];
      if deleted != null {
        ShownFolder(deleted, r.value);
        InRepr(r.value);
        events := [ObjectRemoved(deleted.handle)];
        Discard(deleted, r.value);
      }
    }

    lemma ShownFolder(e: FsEntry, k: nat)
      requires Valid() && k < |entries| && e == entries[k]
      ensures |entries| == |m.recs| && e.handle == m.recs[k].handle && e.storage == m.recs[k].storage
    {
      assert Ask(SHOWN);
    }

    /** What the loop of the event's kind does at one watched folder. */
    method VisitFolder(stores: Stores, kind: Kind, name: Name, e: FsEntry, ghost k: nat) returns (events: seq<Event>)
      requires Valid() && Sane(m) && k < |entries| == |m.recs| && e == entries[k]
      requires m.next < LAST_HANDLE && |m.recs| < MAX_NODE_CAPACITY
      modifies Repr
      ensures unchanged(this`searchEntry, this`handleSearch, this`storageSearch, this`below)
      ensures Valid() && fresh(Repr - old(Repr)) && old(Repr) <= Repr && old(entries) <= entries
      ensures (m, events) == Visited(old(m), stores, kind, name, k)
    {
      assert Inv(m) by {
        assert Ask(MODEL);
      }
      match kind
      case Create(_, _) => events := VisitCreate(stores, kind, name, e, k);
      case Modify => events := VisitModify(stores, kind, name, e, k);
      case Delete => events := VisitDelete(stores, kind, name, e, k);
    }

    /** Room for a visit to each of the entries left. */
    ghost predicate LoopRoom(n: nat)
      reads this`m
    {
      n <= |m.recs| && m.next + n < LAST_HANDLE && |m.recs| + n <= MAX_NODE_CAPACITY
    }

    /** One round of an event loop: the next watched folder behind the one before, or the first. */
    method EventRound(stores: Stores, kind: Kind, name: Name, wd: int, start: FsEntry?, ghost n: nat,
                      ghost below: nat, soFar: seq<Event>)
      returns (behind: FsEntry?, ghost left: nat, events: seq<Event>)
      requires Valid() && Sane(m) && n <= |entries| && start == At(entries, n)
      requires LoopRoom(below) && below == if n == 0 then |m.recs| else n
      modifies Repr
      ensures unchanged(this`searchEntry, this`handleSearch, this`storageSearch, this`below)
      ensures Valid() && Sane(m) && fresh(Repr - old(Repr)) && old(Repr) <= Repr
      ensures left <= |entries| && behind == At(entries, left) && LoopRoom(left) && (left > 0 ==> left < below)
      ensures LoopLeft(events, m, stores, kind, name, wd, left) == LoopLeft(soFar, old(m), stores, kind, name, wd, below)
    {
      ghost var r := ListScan(m.recs, ByWd(wd), below);
      var e := GetEntryByWd(wd, start, n);
      if e == null {
        NothingLeft(soFar, m, stores, kind, name, wd, below);
        NothingLeft(soFar, m, stores, kind, name, wd, 0);
        return null, 0, soFar;
      }
      VisitedHolds(m, stores, kind, name, r.value);
      OneFolderLess(soFar, m, stores, kind, name, wd, below, r.value);
      events := VisitFolder(stores, kind, name, e, r.value);
      events := soFar + events;
      NextInList(e, r.value);
      behind, left := e.next, r.value;
    }

    lemma NextInList(e: FsEntry, k: nat)
      requires Valid() && k < |entries| && e == entries[k]
      ensures e.next == At(entries, k) && |entries| == |m.recs|
    {
      assert Ask(LINKED);
    }

    /** The loop of an event. */
    method EventLoop(stores: Stores, kind: Kind, name: Name, wd: int) returns (events: seq<Event>)
      requires Valid() && Sane(m) && LoopRoom(|m.recs|)
      modifies Repr
      ensures unchanged(this`searchEntry, this`handleSearch, this`storageSearch, this`below)
      ensures Valid() && fresh(Repr - old(Repr)) && old(Repr) <= Repr
      ensures (m, events) == LoopLeft([], old(m), stores, kind, name, wd, |old(m).recs|)
    {
      var entry: FsEntry?;
      ghost var n: nat;
      entry, n, events := EventRound(stores, kind, name, wd, null, 0, |m.recs|, []);
      while entry != null
        invariant Valid() && Sane(m) && fresh(Repr - old(Repr)) && old(Repr) <= Repr
        invariant unchanged(this`searchEntry, this`handleSearch, this`storageSearch, this`below)
        invariant n <= |entries| && entry == At(entries, n) && LoopRoom(n)
        invariant LoopLeft(events, m, stores, kind, name, wd, n)
               == LoopLeft([], old(m), stores, kind, name, wd, |old(m).recs|)
        decreases n
      {
        entry, n, events := EventRound(stores, kind, name, wd, entry, n, n, events);
      }
      NothingLeft(events, m, stores, kind, name, wd, 0);
    }

    /** An event visits the live folders of its watch, newest first, and announces what it finds. */
    method HandleEvent(stores: Stores, kind: Kind, name: Name, wd: int) returns (events: seq<Event>)
      requires Valid() && Inv(m) && m.next + |m.recs| < LAST_HANDLE && 2 * |m.recs| <= MAX_NODE_CAPACITY
      modifies Repr
      ensures unchanged(this`searchEntry, this`handleSearch, this`storageSearch, this`below)
      ensures Valid() && fresh(Repr - old(Repr)) && old(Repr) <= Repr
      ensures var v := Loop(old(m), stores, kind, name, wd, |old(m).recs|);
              m == v.db && events == v.events
    {
      events := EventLoop(stores, kind, name, wd);
      assert [] + Loop(old(m), stores, kind, name, wd, |old(m).recs|).events == Loop(old(m), stores, kind, name, wd, |old(m).recs|).events;
    }
  }
}
