/** The ancestor walk behind a full path (src/fs_handles_db.c, build_full_path before realpath). */
module HandlePath {
  import opened Bytes
  import opened HandleModel
  import opened Options

  const SLASH: Name := [0x2F]

  /** The entry the walk goes to next: the live entry of the parent handle in a registered storage. */
  function Up(db: Db, stores: Stores, k: nat): (r: Option<nat>)
    requires WellSized(db) && k < |db.recs|
    ensures r.Some? ==> r.value < |db.recs| && db.recs[r.value].handle == db.recs[k].parent != 0
  {
    var p := db.recs[k].parent;
    if p != 0 && p != NO_PARENT then GetByHandle(db, stores, p) else None
  }

  /** Parent handles are smaller than their children's, so the walk ends. */
  lemma UpDecreases(db: Db, stores: Stores, k: nat)
    requires Walkable(db) && k < |db.recs| && Up(db, stores, k).Some?
    ensures db.recs[Up(db, stores, k).value].handle < db.recs[k].handle
  {
  }

  /** The entries the walk visits, the starting entry first. */
  function Chain(db: Db, stores: Stores, k: nat): (c: seq<nat>)
    requires Walkable(db) && k < |db.recs|
    ensures |c| >= 1 && c[0] == k && forall i :: 0 <= i < |c| ==> c[i] < |db.recs|
    decreases db.recs[k].handle
  {
    match Up(db, stores, k)
    case None => [k]
    case Some(j) =>
      UpDecreases(db, stores, k);
      [k] + Chain(db, stores, j)
  }

  /** "/" and the name of every entry of a chain, the last entry first. */
  function Joined(recs: seq<Rec>, chain: seq<nat>): Name
    requires forall i :: 0 <= i < |chain| ==> chain[i] < |recs|
  {
    if chain == [] then [] else Joined(recs, chain[1..]) + SLASH + recs[chain[0]].name
  }

  /** The path of an entry below the storage root. */
  function Climb(db: Db, stores: Stores, k: nat): Name
    requires Walkable(db) && k < |db.recs|
  {
    Joined(db.recs, Chain(db, stores, k))
  }

  function RootOf(stores: Stores, storage: u32): Name {
    if storage in stores then stores[storage] else []
  }

  function FullPath(db: Db, stores: Stores, k: nat): Name
    requires Walkable(db) && k < |db.recs|
  {
    RootOf(stores, db.recs[k].storage) + Climb(db, stores, k)
  }

  /** Each entry of the chain is followed by the one the walk goes to, and the last by none. */
  ghost predicate WholeWalk(db: Db, stores: Stores, c: seq<nat>)
    requires WellSized(db) && forall i :: 0 <= i < |c| ==> c[i] < |db.recs|
  {
    && c != []
    && (forall i :: 0 < i < |c| ==> Up(db, stores, c[i - 1]) == Some(c[i]))
    && Up(db, stores, c[|c| - 1]) == None
  }

  lemma {:induction false} ChainIsWholeWalk(db: Db, stores: Stores, k: nat)
    requires Walkable(db) && k < |db.recs|
    ensures WholeWalk(db, stores, Chain(db, stores, k))
    decreases db.recs[k].handle
  {
    var u := Up(db, stores, k);
    if u.Some? {
      UpDecreases(db, stores, k);
      ChainIsWholeWalk(db, stores, u.value);
      WalkGrows(db, stores, k, Chain(db, stores, u.value));
    }
  }

  lemma WalkGrows(db: Db, stores: Stores, k: nat, t: seq<nat>)
    requires WellSized(db) && k < |db.recs| && forall i :: 0 <= i < |t| ==> t[i] < |db.recs|
    requires WholeWalk(db, stores, t) && Up(db, stores, k) == Some(t[0])
    ensures WholeWalk(db, stores, [k] + t)
  {
    var c := [k] + t;
    forall i | 0 < i < |c|
      ensures Up(db, stores, c[i - 1]) == Some(c[i])
    {
      assert c[i] == t[i - 1];
      if i > 1 {
        assert c[i - 1] == t[i - 2];
      }
    }
  }

  /** The walk is the whole line of ancestors: handles strictly decrease, every entry is the live,
      registered holder of its child's parent handle, and it stops only at an entry without a parent
      or whose parent has no such holder. */
  lemma ChainIsAncestry(db: Db, stores: Stores, k: nat)
    requires Walkable(db) && k < |db.recs|
    ensures var c := Chain(db, stores, k);
      && WholeWalk(db, stores, c)
      && forall i :: 0 < i < |c| ==> Holder(db.recs[c[i - 1]], db.recs[c[i]], stores)
  {
    ChainIsWholeWalk(db, stores, k);
    var c := Chain(db, stores, k);
    forall i | 0 < i < |c|
      ensures Holder(db.recs[c[i - 1]], db.recs[c[i]], stores)
    {
      assert Up(db, stores, c[i - 1]) == Some(c[i]);
    }
  }

  predicate Holder(child: Rec, r: Rec, stores: Stores) {
    r.handle < child.handle && Matches(r, ByHandle(child.parent, stores))
  }

  /** The prefix that every child path of a folder has. */
  function FolderPath(db: Db, stores: Stores, parent: u32, storage: u32): Name
    requires Walkable(db)
  {
    RootOf(stores, storage) +
    if parent == 0 || parent == NO_PARENT then []
    else
      match GetByHandle(db, stores, parent)
      case None => []
      case Some(j) => Climb(db, stores, j)
  }

  /** A child's path is its folder's, a slash and its name. */
  lemma ChildPath(db: Db, stores: Stores, k: nat)
    requires Walkable(db) && k < |db.recs|
    ensures var r := db.recs[k];
            FullPath(db, stores, k) == FolderPath(db, stores, r.parent, r.storage) + SLASH + r.name
  {
    var r, u := db.recs[k], Up(db, stores, k);
    var above := if u.Some? then Climb(db, stores, u.value) else [];
    ClimbStep(db, stores, k);
    Regroup(RootOf(stores, r.storage), above, SLASH, r.name);
  }

  lemma ClimbStep(db: Db, stores: Stores, k: nat)
    requires Walkable(db) && k < |db.recs|
    ensures var u := Up(db, stores, k);
      Climb(db, stores, k) == (if u.Some? then Climb(db, stores, u.value) else []) + SLASH + db.recs[k].name
  {
    var u, c := Up(db, stores, k), Chain(db, stores, k);
    var above := if u.Some? then Chain(db, stores, u.value) else [];
    assert c == [k] + above && c[1..] == above && c[0] == k;
    assert Joined(db.recs, c) == Joined(db.recs, above) + SLASH + db.recs[k].name;
  }

  lemma Regroup(a: Name, b: Name, c: Name, d: Name)
    ensures a + (b + c + d) == a + b + c + d
  {
  }

  /** The path of an entry, from that of the live, registered entry it lies in, or from the root path
      of its storage when it lies in none. */
  lemma PathByParent(db: Db, stores: Stores, k: nat)
    requires Walkable(db) && k < |db.recs| && db.recs[k].storage in stores
    ensures var r := db.recs[k]; var root := stores[r.storage];
      && (forall j :: 0 <= j < |db.recs| && Contains(db.recs[j], r, stores) ==>
            FullPath(db, stores, k) == root + FullPath(db, stores, j)[|stores[db.recs[j].storage]|..] + [0x2F] + r.name)
      && ((forall j :: 0 <= j < |db.recs| ==> !Contains(db.recs[j], r, stores)) ==>
            FullPath(db, stores, k) == root + [0x2F] + r.name)
  {
    var r := db.recs[k];
    ClimbStep(db, stores, k);
    if r.parent == 0 {
      assert FullPath(db, stores, k) == stores[r.storage] + [0x2F] + r.name;
    } else {
      var u := Up(db, stores, k);
      GetByHandleRefinesScan(db, stores, r.parent);
      if u.Some? {
        assert Contains(db.recs[u.value], r, stores);
        PathInFolder(db, stores, k, u.value);
      } else {
        assert FullPath(db, stores, k) == stores[r.storage] + [0x2F] + r.name;
      }
      forall j | 0 <= j < |db.recs| && Contains(db.recs[j], r, stores)
        ensures u == Some(j)
      {
        assert Matches(db.recs[j], ByHandle(r.parent, stores));
        HandleUnique(db, j, u.value);
      }
    }
  }

  lemma PathInFolder(db: Db, stores: Stores, k: nat, j: nat)
    requires Walkable(db) && k < |db.recs| && db.recs[k].storage in stores && Up(db, stores, k) == Some(j)
    requires db.recs[j].storage in stores
    ensures FullPath(db, stores, k)
         == stores[db.recs[k].storage] + FullPath(db, stores, j)[|stores[db.recs[j].storage]|..] + [0x2F] + db.recs[k].name
  {
    ClimbStep(db, stores, k);
    assert FullPath(db, stores, j)[|stores[db.recs[j].storage]|..] == Climb(db, stores, j);
    Regroup(stores[db.recs[k].storage], Climb(db, stores, j), [0x2F], db.recs[k].name);
  }

  /** The live entry of a registered storage that bears the parent handle. */
  predicate Contains(folder: Rec, r: Rec, stores: Stores) {
    !folder.deleted && folder.storage in stores && folder.handle == r.parent && r.parent != 0
  }

  /** Entries whose handle is at most the limit keep what a walk looks at, and no new one appears. */
  ghost predicate StableUpTo(db: Db, db': Db, limit: u32) {
    && |db.recs| <= |db'.recs|
    && (forall k :: 0 <= k < |db.recs| ==> db'.recs[k].handle == db.recs[k].handle)
    && (forall k :: 0 <= k < |db.recs| && db.recs[k].handle <= limit ==> SameWalk(db.recs[k], db'.recs[k]))
    && (forall k :: |db.recs| <= k < |db'.recs| ==> db'.recs[k].handle == 0 || db'.recs[k].handle > limit)
  }

  predicate SameWalk(r: Rec, r': Rec) {
    r'.parent == r.parent && r'.storage == r.storage && r'.name == r.name && r'.deleted == r.deleted
  }

  lemma GetStable(db: Db, db': Db, stores: Stores, limit: u32, handle: u32)
    requires Walkable(db) && Walkable(db') && StableUpTo(db, db', limit) && 0 != handle <= limit
    ensures GetByHandle(db', stores, handle) == GetByHandle(db, stores, handle)
  {
    GetByHandleRefinesScan(db, stores, handle);
    GetByHandleRefinesScan(db', stores, handle);
    var a, b := GetByHandle(db, stores, handle), GetByHandle(db', stores, handle);
    var q := ByHandle(handle, stores);
    if a.Some? {
      assert Matches(db'.recs[a.value], q);
      HandleUnique(db', a.value, b.value);
    }
    if b.Some? {
      assert Matches(db.recs[b.value], q);
    }
  }

  /** A walk does not notice what happens to entries above its starting handle. */
  lemma {:induction false} ClimbStable(db: Db, db': Db, stores: Stores, limit: u32, k: nat)
    requires Walkable(db) && Walkable(db') && StableUpTo(db, db', limit) && k < |db.recs| && db.recs[k].handle <= limit
    ensures Chain(db', stores, k) == Chain(db, stores, k) && Climb(db', stores, k) == Climb(db, stores, k)
    decreases db.recs[k].handle
  {
    var p := db.recs[k].parent;
    assert SameWalk(db.recs[k], db'.recs[k]);
    var u := Up(db, stores, k);
    if p != 0 && p != NO_PARENT {
      GetStable(db, db', stores, limit, p);
    }
    if u.Some? {
      UpDecreases(db, stores, k);
      ClimbStable(db, db', stores, limit, u.value);
      assert ([k] + Chain(db, stores, u.value))[1..] == Chain(db, stores, u.value);
    } else {
      assert Joined(db.recs, [k][1..]) == Joined(db'.recs, [k][1..]) == [];
    }
  }

  /** Neither does the path of a folder notice what happens to entries above it. */
  lemma FolderPathStable(db: Db, db': Db, stores: Stores, parent: u32, storage: u32)
    requires Walkable(db) && Walkable(db') && StableUpTo(db, db', parent)
    ensures FolderPath(db', stores, parent, storage) == FolderPath(db, stores, parent, storage)
  {
    if parent != 0 && parent != NO_PARENT {
      GetStable(db, db', stores, parent, parent);
      var j := GetByHandle(db, stores, parent);
      if j.Some? {
        ClimbStable(db, db', stores, parent, j.value);
      }
    }
  }
}
