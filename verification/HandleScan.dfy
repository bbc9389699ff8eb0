/** Reconciliation of a folder with its directory (src/fs_handles_db.c, scan_and_add_folder). */
module HandleScan {
  import opened Bytes
  import opened HandleModel
  import opened Options
  import opened HandlePath

  const DOT: u8 := 0x2E

  /** Sizes of the files that a stat finds, by path. */
  type Files = map<Name, int>

  /** What the scan takes from a directory: not "." and "..", and hidden names only on demand. */
  predicate Visible(name: Name, showHidden: bool) {
    name != [DOT, DOT] && name != [DOT] && (showHidden || name == [] || name[0] != DOT)
  }

  function AddOne(db: Db, info: FileInfo, showHidden: bool, parent: u32, storage: u32): (db': Db)
    requires WellSized(db)
    ensures WellSized(db')
  {
    if Visible(info.name, showHidden) then AddEntry(db, info, parent, storage) else db
  }

  function AddAll(db: Db, listing: seq<FileInfo>, showHidden: bool, parent: u32, storage: u32): (db': Db)
    requires WellSized(db)
    ensures WellSized(db')
    decreases |listing|
  {
    if listing == [] then db
    else AddAll(AddOne(db, listing[0], showHidden, parent, storage), listing[1..], showHidden, parent, storage)
  }

  /** A child whose path cannot be found is tombstoned, any other gets the size on disk. */
  function SweepOne(db: Db, stores: Stores, files: Files, k: nat): Db
    requires Walkable(db) && k < |db.recs|
  {
    var path := FullPath(db, stores, k);
    if path in files then Resize(db, k, files[path]) else Tombstone(db, k)
  }

  lemma SweepOneHolds(db: Db, stores: Stores, files: Files, k: nat)
    requires Inv(db) && k < |db.recs|
    ensures Inv(SweepOne(db, stores, files, k))
  {
    UpdateHolds(db, k, SweepOne(db, stores, files, k).recs[k]);
  }

  /** The cursor loop over the children, newest first, from below an entry. */
  function Sweep(db: Db, stores: Stores, files: Files, parent: u32, storage: u32, below: nat): Db
    requires Inv(db) && below <= |db.recs|
    decreases below
  {
    match ListScan(db.recs, ChildOf(parent, storage), below)
    case None => db
    case Some(k) =>
      SweepOneHolds(db, stores, files, k);
      Sweep(SweepOne(db, stores, files, k), stores, files, parent, storage, k)
  }

  /** The directory may be unreadable; the sweep runs all the same. */
  function Added(db: Db, listing: Option<seq<FileInfo>>, showHidden: bool, parent: u32, storage: u32): (db': Db)
    requires WellSized(db)
    ensures WellSized(db')
  {
    if listing.Some? then AddAll(db, listing.value, showHidden, parent, storage) else db
  }

  /** A name that the scan takes and the folder has no live entry of. */
  predicate Absent(db: Db, info: FileInfo, showHidden: bool, parent: u32, storage: u32)
    requires WellSized(db)
  {
    Visible(info.name, showHidden) && FindEntry(db, info.name, parent, storage).None?
  }

  /** The counter has room for the names of a listing that are absent. */
  predicate Room(db: Db, listing: seq<FileInfo>, showHidden: bool, parent: u32, storage: u32)
    requires WellSized(db)
    decreases |listing|
  {
    listing == []
    || ((Absent(db, listing[0], showHidden, parent, storage) ==> MayAlloc(db, parent))
        && Room(AddOne(db, listing[0], showHidden, parent, storage), listing[1..], showHidden, parent, storage))
  }

  /** There is room when the counter is further from its end than the listing is long. */
  lemma {:induction false} RoomForAll(db: Db, listing: seq<FileInfo>, showHidden: bool, parent: u32, storage: u32)
    requires WellSized(db) && parent < db.next && db.next + |listing| <= LAST_HANDLE
    ensures Room(db, listing, showHidden, parent, storage)
    decreases |listing|
  {
    if listing != [] {
      RoomForAll(AddOne(db, listing[0], showHidden, parent, storage), listing[1..], showHidden, parent, storage);
    }
  }

  // ------------------------------------------------------------- adding

  /** Adding a listing only appends: new entries are live children of the folder with fresh handles
      and visible names of the listing. */
  ghost predicate Appended(db: Db, db': Db, listing: seq<FileInfo>, showHidden: bool, parent: u32, storage: u32) {
    && |db.recs| <= |db'.recs| && db'.recs[..|db.recs|] == db.recs && db.next <= db'.next
    && (forall k :: |db.recs| <= k < |db'.recs| ==> NewChild(db'.recs[k], db.next, listing, showHidden, parent, storage))
  }

  ghost predicate NewChild(r: Rec, next: u32, listing: seq<FileInfo>, showHidden: bool, parent: u32, storage: u32) {
    && r.handle >= next && r.parent == parent && r.storage == storage && !r.deleted && r.wd == -1
    && Visible(r.name, showHidden)
    && exists i :: 0 <= i < |listing| && Describes(listing[i], r)
  }

  /** Name and kind of an entry are those of the directory. */
  predicate Describes(info: FileInfo, r: Rec) {
    r.name == info.name && r.isDir == info.isDir
  }

  lemma AddOneHolds(db: Db, info: FileInfo, showHidden: bool, parent: u32, storage: u32)
    requires Inv(db) && (Absent(db, info, showHidden, parent, storage) ==> MayAlloc(db, parent))
    ensures var db' := AddOne(db, info, showHidden, parent, storage);
            && Inv(db') && db'.next <= db.next + 1
            && Appended(db, db', [info], showHidden, parent, storage)
            && (Visible(info.name, showHidden) ==> Present(db', info.name, parent, storage))
  {
    if Visible(info.name, showHidden) {
      if Absent(db, info, showHidden, parent, storage) {
        AddHolds(db, info, parent, storage);
        AddAppends(db, info, showHidden, parent, storage);
      }
      AddPresents(db, info, parent, storage);
    }
  }

  lemma AddAppends(db: Db, info: FileInfo, showHidden: bool, parent: u32, storage: u32)
    requires Inv(db) && MayAlloc(db, parent) && Visible(info.name, showHidden)
    ensures var db' := AddEntry(db, info, parent, storage);
            Appended(db, db', [info], showHidden, parent, storage) && db'.next <= db.next + 1
  {
    var r := NewRec(db.next, info, parent, storage);
    assert (db.recs + [r])[..|db.recs|] == db.recs;
    assert Describes([info][0], r);
    assert NewChild(r, db.next, [info], showHidden, parent, storage);
  }

  lemma AddPresents(db: Db, info: FileInfo, parent: u32, storage: u32)
    requires Agree(db)
    ensures Present(AddEntry(db, info, parent, storage), info.name, parent, storage)
  {
    var q := ByName(info.name, parent, storage);
    var f := FindEntry(db, info.name, parent, storage);
    if f.Some? {
      assert Matches(db.recs[f.value], q);
    } else {
      assert Matches(Alloc(db, info, parent, storage).recs[|db.recs|], q);
    }
  }

  /** The folder has a live entry of that name. */
  ghost predicate Present(db: Db, name: Name, parent: u32, storage: u32) {
    exists k :: 0 <= k < |db.recs| && Matches(db.recs[k], ByName(name, parent, storage))
  }

  lemma {:induction false} AddAllHolds(db: Db, listing: seq<FileInfo>, showHidden: bool, parent: u32, storage: u32)
    requires Inv(db) && Room(db, listing, showHidden, parent, storage)
    ensures var db' := AddAll(db, listing, showHidden, parent, storage);
            && Inv(db') && Appended(db, db', listing, showHidden, parent, storage)
            && (forall i :: 0 <= i < |listing| && Visible(listing[i].name, showHidden) ==>
                  Present(db', listing[i].name, parent, storage))
    decreases |listing|
  {
    if listing != [] {
      var mid := AddOne(db, listing[0], showHidden, parent, storage);
      AddOneHolds(db, listing[0], showHidden, parent, storage);
      AddAllHolds(mid, listing[1..], showHidden, parent, storage);
      var db' := AddAll(db, listing, showHidden, parent, storage);
      AppendedTwice(db, mid, db', listing, showHidden, parent, storage);
      forall i | 0 <= i < |listing| && Visible(listing[i].name, showHidden)
        ensures Present(db', listing[i].name, parent, storage)
      {
        if i == 0 {
          StaysPresent(mid, db', listing[0].name, parent, storage);
        } else {
          assert listing[i] == listing[1..][i - 1];
        }
      }
    }
  }

  lemma {:induction false} AddAllKeepsUnique(db: Db, listing: seq<FileInfo>, showHidden: bool, parent: u32, storage: u32)
    requires Inv(db) && UniqueNames(db) && Room(db, listing, showHidden, parent, storage)
    ensures UniqueNames(AddAll(db, listing, showHidden, parent, storage))
    decreases |listing|
  {
    if listing != [] {
      AddOneHolds(db, listing[0], showHidden, parent, storage);
      AddKeepsUnique(db, listing[0], parent, storage);
      AddAllKeepsUnique(AddOne(db, listing[0], showHidden, parent, storage), listing[1..], showHidden, parent, storage);
    }
  }

  lemma StaysPresent(db: Db, db': Db, name: Name, parent: u32, storage: u32)
    requires Present(db, name, parent, storage) && |db.recs| <= |db'.recs| && db'.recs[..|db.recs|] == db.recs
    ensures Present(db', name, parent, storage)
  {
    var k :| 0 <= k < |db.recs| && Matches(db.recs[k], ByName(name, parent, storage));
    assert db'.recs[k] == db'.recs[..|db.recs|][k];
  }

  lemma AppendedTwice(db: Db, mid: Db, db': Db, listing: seq<FileInfo>, showHidden: bool, parent: u32, storage: u32)
    requires listing != [] && Appended(db, mid, [listing[0]], showHidden, parent, storage)
    requires Appended(mid, db', listing[1..], showHidden, parent, storage)
    ensures Appended(db, db', listing, showHidden, parent, storage)
  {
    assert db'.recs[..|db.recs|] == db'.recs[..|mid.recs|][..|db.recs|];
    forall k | |db.recs| <= k < |db'.recs|
      ensures NewChild(db'.recs[k], db.next, listing, showHidden, parent, storage)
    {
      var r := db'.recs[k];
      if k < |mid.recs| {
        assert r == db'.recs[..|mid.recs|][k] == mid.recs[k];
        assert NewChild(mid.recs[k], db.next, [listing[0]], showHidden, parent, storage);
        assert Describes(listing[0], r);
      } else {
        var i :| 0 <= i < |listing[1..]| && Describes(listing[1..][i], r);
        assert Describes(listing[i + 1], r);
      }
    }
  }

  // ----------------------------------------------------------- sweeping

  /** What becomes of a child of a folder whose path is given. */
  function Fate(r: Rec, folder: Name, files: Files): Rec {
    var path := folder + SLASH + r.name;
    if path in files then r.(size := files[path]) else r.(deleted := true, wd := -1)
  }

  /** A change to a child leaves the walk of its folder alone. */
  lemma ChildAboveFolder(db: Db, k: nat, r: Rec, parent: u32, storage: u32)
    requires Inv(db) && k < |db.recs| && Matches(db.recs[k], ChildOf(parent, storage)) && SameObject(db.recs[k], r)
    ensures StableUpTo(db, db.(recs := db.recs[k := r]), parent)
  {
  }

  lemma SweepOneFate(db: Db, stores: Stores, files: Files, parent: u32, storage: u32, k: nat)
    requires Inv(db) && k < |db.recs| && Matches(db.recs[k], ChildOf(parent, storage))
    ensures var folder := FolderPath(db, stores, parent, storage); var db' := SweepOne(db, stores, files, k);
            && Inv(db') && db' == db.(recs := db.recs[k := Fate(db.recs[k], folder, files)])
            && FolderPath(db', stores, parent, storage) == folder
  {
    var db' := SweepOne(db, stores, files, k);
    SweepOneHolds(db, stores, files, k);
    ChildPath(db, stores, k);
    ChildAboveFolder(db, k, db'.recs[k], parent, storage);
    assert db' == db.(recs := db.recs[k := db'.recs[k]]);
    FolderPathStable(db, db', stores, parent, storage);
  }

  /** Only recs change, and only where the sweep passed a child. */
  ghost predicate Swept(db: Db, db': Db, folder: Name, files: Files, parent: u32, storage: u32, below: nat) {
    && db' == db.(recs := db'.recs) && |db'.recs| == |db.recs|
    && (forall k :: 0 <= k < |db.recs| && k < below && Matches(db.recs[k], ChildOf(parent, storage)) ==>
          db'.recs[k] == Fate(db.recs[k], folder, files))
    && (forall k :: 0 <= k < |db.recs| && !(k < below && Matches(db.recs[k], ChildOf(parent, storage))) ==>
          db'.recs[k] == db.recs[k])
  }

  /** The sweep decides every child by the folder's own path, whatever it changed before. */
  lemma {:induction false} SweepFate(db: Db, stores: Stores, files: Files, parent: u32, storage: u32, below: nat)
    requires Inv(db) && below <= |db.recs|
    ensures var folder := FolderPath(db, stores, parent, storage);
            var db' := Sweep(db, stores, files, parent, storage, below);
            && Inv(db') && Swept(db, db', folder, files, parent, storage, below)
            && FolderPath(db', stores, parent, storage) == folder
    decreases below
  {
    var q := ChildOf(parent, storage);
    var s := ListScan(db.recs, q, below);
    if s.Some? {
      var k := s.value;
      var mid := SweepOne(db, stores, files, k);
      SweepOneFate(db, stores, files, parent, storage, k);
      SweepFate(mid, stores, files, parent, storage, k);
      SweptOneMore(db, mid, Sweep(mid, stores, files, parent, storage, k),
                   FolderPath(db, stores, parent, storage), files, parent, storage, k, below);
    }
  }

  lemma SweptOneMore(db: Db, mid: Db, db': Db, folder: Name, files: Files, parent: u32, storage: u32, k: nat, below: nat)
    requires k < below <= |db.recs| && Matches(db.recs[k], ChildOf(parent, storage))
    requires forall i :: k < i < below ==> !Matches(db.recs[i], ChildOf(parent, storage))
    requires mid == db.(recs := db.recs[k := Fate(db.recs[k], folder, files)])
    requires Swept(mid, db', folder, files, parent, storage, k)
    ensures Swept(db, db', folder, files, parent, storage, below)
  {
  }

  lemma SweptKeepsUnique(db: Db, db': Db, folder: Name, files: Files, parent: u32, storage: u32)
    requires UniqueNames(db) && Swept(db, db', folder, files, parent, storage, |db.recs|)
    ensures UniqueNames(db')
  {
    forall i, j | 0 <= i < |db'.recs| && 0 <= j < |db'.recs| && SameName(db'.recs[i], db'.recs[j])
      ensures i == j
    {
      assert SameName(db.recs[i], db.recs[j]);
    }
  }

  /** The fate of each entry, told by its own path: a live entry of the folder that no stat finds is
      deleted and unwatched, one that is found has the size of the file, and no other changes. */
  lemma SweepDecides(db: Db, stores: Stores, files: Files, parent: u32, storage: u32, k: nat)
    requires Inv(db) && k < |db.recs|
    ensures var db' := Sweep(db, stores, files, parent, storage, |db.recs|);
            var r := db.recs[k]; var path := FullPath(db, stores, k);
      && |db'.recs| == |db.recs| && db'.next == db.next
      && db'.recs[k] == if r.deleted || r.parent != parent || r.storage != storage || r.handle == parent then r
                        else if path in files then r.(size := files[path])
                        else r.(deleted := true, wd := -1)
  {
    var folder := FolderPath(db, stores, parent, storage);
    SweepFate(db, stores, files, parent, storage, |db.recs|);
    ChildPath(db, stores, k);
    var db' := Sweep(db, stores, files, parent, storage, |db.recs|);
    SweptDecides(db, db', folder, files, parent, storage, k, FullPath(db, stores, k));
  }

  lemma SweptDecides(db: Db, db': Db, folder: Name, files: Files, parent: u32, storage: u32, k: nat, path: Name)
    requires k < |db.recs| && Swept(db, db', folder, files, parent, storage, |db.recs|)
    requires db.recs[k].parent == parent && db.recs[k].storage == storage ==> path == folder + SLASH + db.recs[k].name
    ensures |db'.recs| == |db.recs| && db'.next == db.next
    ensures var r := db.recs[k];
      db'.recs[k] == if r.deleted || r.parent != parent || r.storage != storage || r.handle == parent then r
                     else if path in files then r.(size := files[path])
                     else r.(deleted := true, wd := -1)
  {
  }

  /** What the directory loop takes: every name but "." and "..", one that begins with a dot only on
      demand; the folder then has a live entry of it. What it adds beside the entries known before
      has such a name, and the kind the directory says. */
  lemma DirectoryTaken(db: Db, listing: seq<FileInfo>, showHidden: bool, parent: u32, storage: u32)
    requires Inv(db) && Room(db, listing, showHidden, parent, storage)
    ensures var db' := AddAll(db, listing, showHidden, parent, storage);
      && |db.recs| <= |db'.recs| && db'.recs[..|db.recs|] == db.recs
      && (forall i :: 0 <= i < |listing| && Wanted(listing[i].name, showHidden) ==>
            InFolder(db', listing[i].name, parent, storage))
      && (forall k :: |db.recs| <= k < |db'.recs| ==>
            && Wanted(db'.recs[k].name, showHidden) && LiesIn(db'.recs[k], db'.recs[k].name, parent, storage)
            && exists i :: 0 <= i < |listing| && Describes(listing[i], db'.recs[k]))
  {
    AddAllHolds(db, listing, showHidden, parent, storage);
    WantedIsVisible(showHidden);
    var db' := AddAll(db, listing, showHidden, parent, storage);
    forall i | 0 <= i < |listing| && Wanted(listing[i].name, showHidden)
      ensures InFolder(db', listing[i].name, parent, storage)
    {
      assert Present(db', listing[i].name, parent, storage);
    }
  }

  ghost predicate Wanted(name: Name, showHidden: bool) {
    name !in {[0x2E], [0x2E, 0x2E]} && ([0x2E] <= name ==> showHidden)
  }

  lemma WantedIsVisible(showHidden: bool)
    ensures forall n :: Wanted(n, showHidden) <==> Visible(n, showHidden)
    ensures forall r: Rec, n, p, s :: Matches(r, ByName(n, p, s)) <==> LiesIn(r, n, p, s)
  {
  }

  // ------------------------------------------------------ reconciliation

  function Scan(db: Db, stores: Stores, files: Files, listing: Option<seq<FileInfo>>, showHidden: bool,
                parent: u32, storage: u32): Db
    requires Inv(db) && (listing.Some? ==> Room(db, listing.value, showHidden, parent, storage))
  {
    if listing.Some? then
      AddAllHolds(db, listing.value, showHidden, parent, storage);
      var mid := AddAll(db, listing.value, showHidden, parent, storage);
      Sweep(mid, stores, files, parent, storage, |mid.recs|)
    else Sweep(db, stores, files, parent, storage, |db.recs|)
  }

  /** A name a directory can hold. */
  predicate FileName(n: Name) {
    n != [] && 0x2F !in n
  }

  /** The directory holds exactly these names, the stat of a file name in the folder finds them and no
      others, and the listing is the directory read in some order. What else a stat finds, files of
      subfolders among it, is left open. */
  ghost predicate Snapshot(disk: map<Name, FileInfo>, listing: seq<FileInfo>, files: Files, folder: Name) {
    && (forall n :: FileName(n) ==> (n in disk <==> folder + SLASH + n in files))
    && (forall n :: n in disk ==> FileName(n) && disk[n].name == n)
    && (forall n :: n in disk ==> folder + SLASH + n in files && files[folder + SLASH + n] == disk[n].size)
    && (forall i :: 0 <= i < |listing| ==> listing[i].name in disk && disk[listing[i].name] == listing[i])
    && (forall n :: n in disk ==> exists i :: 0 <= i < |listing| && listing[i].name == n)
  }

  predicate Child(r: Rec, parent: u32, storage: u32) {
    Matches(r, ChildOf(parent, storage))
  }

  ghost predicate HasChild(db: Db, n: Name, parent: u32, storage: u32) {
    exists k :: 0 <= k < |db.recs| && Child(db.recs[k], parent, storage) && db.recs[k].name == n
  }

  /** A name the folder shows after the scan: visible on disk, or on disk and known before. */
  ghost predicate Shown(db: Db, disk: map<Name, FileInfo>, showHidden: bool, parent: u32, storage: u32, n: Name) {
    n in disk && (Visible(n, showHidden) || HasChild(db, n, parent, storage))
  }

  /** No live child bears something else than a file name behind which a stat finds a file after all,
      as it does behind the empty name a creation leaves when its stat fails. */
  ghost predicate NoStray(db: Db, files: Files, folder: Name, parent: u32, storage: u32) {
    forall k :: 0 <= k < |db.recs| && Child(db.recs[k], parent, storage) && !FileName(db.recs[k].name) ==>
      folder + SLASH + db.recs[k].name !in files
  }

  /** No visible name on disk is taken by an entry that is not a child: a storage root, which counts
      as lying in the folder it is itself. */
  ghost predicate NoShadow(db: Db, disk: map<Name, FileInfo>, showHidden: bool, parent: u32, storage: u32) {
    forall n :: n in disk && Visible(n, showHidden) && Present(db, n, parent, storage) ==> HasChild(db, n, parent, storage)
  }

  /** An added name was not present before. */
  lemma {:induction false} AddAllNew(db: Db, listing: seq<FileInfo>, showHidden: bool, parent: u32, storage: u32)
    requires Inv(db) && Room(db, listing, showHidden, parent, storage)
    ensures var db' := AddAll(db, listing, showHidden, parent, storage);
            forall k :: |db.recs| <= k < |db'.recs| ==> !Present(db, db'.recs[k].name, parent, storage)
    decreases |listing|
  {
    if listing != [] {
      var mid := AddOne(db, listing[0], showHidden, parent, storage);
      AddOneHolds(db, listing[0], showHidden, parent, storage);
      AddOneNew(db, listing[0], showHidden, parent, storage);
      AddAllHolds(mid, listing[1..], showHidden, parent, storage);
      AddAllNew(mid, listing[1..], showHidden, parent, storage);
      NewTwice(db, mid, AddAll(db, listing, showHidden, parent, storage), parent, storage);
    }
  }

  lemma AddOneNew(db: Db, info: FileInfo, showHidden: bool, parent: u32, storage: u32)
    requires Agree(db)
    ensures var db' := AddOne(db, info, showHidden, parent, storage);
            forall k :: |db.recs| <= k < |db'.recs| ==> !Present(db, db'.recs[k].name, parent, storage)
  {
    FindEntryRefinesScan(db, info.name, parent, storage);
  }

  lemma NewTwice(db: Db, mid: Db, db': Db, parent: u32, storage: u32)
    requires |db.recs| <= |mid.recs| <= |db'.recs|
    requires mid.recs[..|db.recs|] == db.recs && db'.recs[..|mid.recs|] == mid.recs
    requires forall k :: |db.recs| <= k < |mid.recs| ==> !Present(db, mid.recs[k].name, parent, storage)
    requires forall k :: |mid.recs| <= k < |db'.recs| ==> !Present(mid, db'.recs[k].name, parent, storage)
    ensures forall k :: |db.recs| <= k < |db'.recs| ==> !Present(db, db'.recs[k].name, parent, storage)
  {
    forall k | |db.recs| <= k < |db'.recs|
      ensures !Present(db, db'.recs[k].name, parent, storage)
    {
      if k < |mid.recs| {
        assert db'.recs[k] == db'.recs[..|mid.recs|][k] == mid.recs[k];
      } else if Present(db, db'.recs[k].name, parent, storage) {
        StaysPresent(db, mid, db'.recs[k].name, parent, storage);
      }
    }
  }

  /** Before the sweep: every visible name on disk is present, new entries are visible. */
  lemma AfterAdding(db: Db, disk: map<Name, FileInfo>, listing: seq<FileInfo>, files: Files, folder: Name,
                    showHidden: bool, parent: u32, storage: u32) returns (mid: Db)
    requires Inv(db) && Room(db, listing, showHidden, parent, storage) && Snapshot(disk, listing, files, folder)
    ensures mid == AddAll(db, listing, showHidden, parent, storage)
    ensures Inv(mid) && Appended(db, mid, listing, showHidden, parent, storage)
    ensures forall n :: n in disk && Visible(n, showHidden) ==> Present(mid, n, parent, storage)
  {
    mid := AddAll(db, listing, showHidden, parent, storage);
    AddAllHolds(db, listing, showHidden, parent, storage);
  }

  lemma AppendedStable(db: Db, mid: Db, listing: seq<FileInfo>, showHidden: bool, parent: u32, storage: u32)
    requires Ordered(mid) && Appended(db, mid, listing, showHidden, parent, storage) && 1 <= db.next
    ensures StableUpTo(db, mid, parent)
  {
    forall k | 0 <= k < |db.recs|
      ensures mid.recs[k] == db.recs[k]
    {
      assert mid.recs[k] == mid.recs[..|db.recs|][k];
    }
    forall k | |db.recs| <= k < |mid.recs|
      ensures mid.recs[k].handle > parent
    {
      assert NewChild(mid.recs[k], db.next, listing, showHidden, parent, storage);
    }
  }

  /** Reconciliation. After a scan of a folder against its directory, the live children of the folder
      are exactly the names it should show, with the sizes on disk; entries known before keep their
      handles and live on exactly when their name is on disk; newcomers have handles the counter had
      not reached; every other entry is as it was. This is so exactly when no stray child survives
      its stat and no root takes a visible name. */
  lemma ScanReconciles(db: Db, stores: Stores, disk: map<Name, FileInfo>, listing: seq<FileInfo>, files: Files,
                       showHidden: bool, parent: u32, storage: u32)
    requires Inv(db) && Room(db, listing, showHidden, parent, storage)
    requires Snapshot(disk, listing, files, FolderPath(db, stores, parent, storage))
    ensures var db' := Scan(db, stores, files, Some(listing), showHidden, parent, storage);
            var folder := FolderPath(db, stores, parent, storage);
            Reconciled(db, db', disk, showHidden, parent, storage)
            <==> NoStray(db, files, folder, parent, storage) && NoShadow(db, disk, showHidden, parent, storage)
  {
    var folder := FolderPath(db, stores, parent, storage);
    var mid := ScanInSteps(db, stores, disk, listing, files, showHidden, parent, storage);
    var db' := Scan(db, stores, files, Some(listing), showHidden, parent, storage);
    ChangesExactly(db, mid, db', disk, listing, files, folder, showHidden, parent, storage);
  }

  lemma ChangesExactly(db: Db, mid: Db, db': Db, disk: map<Name, FileInfo>, listing: seq<FileInfo>, files: Files,
                       folder: Name, showHidden: bool, parent: u32, storage: u32)
    requires ScanContext(db, mid, db', disk, listing, files, folder, showHidden, parent, storage)
    requires forall n :: n in disk && Visible(n, showHidden) ==> Present(mid, n, parent, storage)
    requires forall k :: |db.recs| <= k < |mid.recs| ==> !Present(db, mid.recs[k].name, parent, storage)
    ensures Changes(db, db', disk, showHidden, parent, storage)
       <==> NoStray(db, files, folder, parent, storage) && NoShadow(db, disk, showHidden, parent, storage)
  {
    ShapeReconciled(db, mid, db', disk, listing, files, folder, showHidden, parent, storage);
    if NoStray(db, files, folder, parent, storage) && NoShadow(db, disk, showHidden, parent, storage) {
      KnownEntries(db, mid, db', disk, listing, files, folder, showHidden, parent, storage);
      NamesAreShown(db, mid, db', disk, listing, files, folder, showHidden, parent, storage);
      ChildrenAreShown(db, mid, db', disk, listing, files, folder, showHidden, parent, storage);
    }
    if ShownExactly(db, db', disk, showHidden, parent, storage) {
      NoStrayNeeded(db, mid, db', disk, listing, files, folder, showHidden, parent, storage);
      NoShadowNeeded(db, mid, db', disk, listing, files, folder, showHidden, parent, storage);
    }
  }

  ghost predicate Reconciled(db: Db, db': Db, disk: map<Name, FileInfo>, showHidden: bool, parent: u32, storage: u32) {
    && Inv(db') && (UniqueNames(db) ==> UniqueNames(db'))
    && Changes(db, db', disk, showHidden, parent, storage)
  }

  ghost predicate Changes(db: Db, db': Db, disk: map<Name, FileInfo>, showHidden: bool, parent: u32, storage: u32) {
    && |db.recs| <= |db'.recs|
    && ShownExactly(db, db', disk, showHidden, parent, storage)
    // entries known before, and the others
    && (forall k :: 0 <= k < |db.recs| ==> Kept(db.recs[k], db'.recs[k], disk, parent, storage))
    && (forall k :: |db.recs| <= k < |db'.recs| ==> Newcomer(db'.recs[k], db.next, disk, parent, storage))
  }

  /** A child under a handle the counter had not reached, of the kind it has on disk. */
  predicate Newcomer(r: Rec, next: u32, disk: map<Name, FileInfo>, parent: u32, storage: u32) {
    r.handle >= next && Child(r, parent, storage) && r.name in disk && r.isDir == disk[r.name].isDir
  }

  /** Which names are shown, and with what size. */
  ghost predicate ShownExactly(db: Db, db': Db, disk: map<Name, FileInfo>, showHidden: bool, parent: u32, storage: u32) {
    && (forall n :: Shown(db, disk, showHidden, parent, storage, n) ==> HasChild(db', n, parent, storage))
    && (forall k :: 0 <= k < |db'.recs| && Child(db'.recs[k], parent, storage) ==>
          && Shown(db, disk, showHidden, parent, storage, db'.recs[k].name)
          && db'.recs[k].size == disk[db'.recs[k].name].size)
  }

  /** What holds of every scan: numbers and newcomers. */
  lemma ShapeReconciled(db: Db, mid: Db, db': Db, disk: map<Name, FileInfo>, listing: seq<FileInfo>, files: Files,
                        folder: Name, showHidden: bool, parent: u32, storage: u32)
    requires ScanContext(db, mid, db', disk, listing, files, folder, showHidden, parent, storage)
    ensures |db.recs| <= |db'.recs|
    ensures forall k :: |db.recs| <= k < |db'.recs| ==> Newcomer(db'.recs[k], db.next, disk, parent, storage)
  {
    NewEntries(db, mid, db', disk, listing, files, folder, showHidden, parent, storage);
  }

  predicate Kept(r: Rec, r': Rec, disk: map<Name, FileInfo>, parent: u32, storage: u32) {
    if Child(r, parent, storage) then
      r' == if r.name in disk then r.(size := disk[r.name].size) else r.(deleted := true, wd := -1)
    else r' == r
  }

  ghost predicate ScanContext(db: Db, mid: Db, db': Db, disk: map<Name, FileInfo>, listing: seq<FileInfo>, files: Files,
                              folder: Name, showHidden: bool, parent: u32, storage: u32) {
    && 1 <= db.next && Inv(mid) && Appended(db, mid, listing, showHidden, parent, storage)
    && Snapshot(disk, listing, files, folder) && Swept(mid, db', folder, files, parent, storage, |mid.recs|)
  }

  /** The two loops of a scan: what the first adds, the second decides by the folder's own path. */
  lemma ScanInSteps(db: Db, stores: Stores, disk: map<Name, FileInfo>, listing: seq<FileInfo>, files: Files,
                    showHidden: bool, parent: u32, storage: u32) returns (mid: Db)
    requires Inv(db) && Room(db, listing, showHidden, parent, storage)
    requires Snapshot(disk, listing, files, FolderPath(db, stores, parent, storage))
    ensures var folder := FolderPath(db, stores, parent, storage);
            var db' := Scan(db, stores, files, Some(listing), showHidden, parent, storage);
            && ScanContext(db, mid, db', disk, listing, files, folder, showHidden, parent, storage)
            && Inv(db') && (UniqueNames(db) ==> UniqueNames(db'))
            && FolderPath(db', stores, parent, storage) == folder
            && (forall n :: n in disk && Visible(n, showHidden) ==> Present(mid, n, parent, storage))
            && (forall k :: |db.recs| <= k < |mid.recs| ==> !Present(db, mid.recs[k].name, parent, storage))
  {
    var folder := FolderPath(db, stores, parent, storage);
    mid := AfterAdding(db, disk, listing, files, folder, showHidden, parent, storage);
    AddAllNew(db, listing, showHidden, parent, storage);
    AppendedStable(db, mid, listing, showHidden, parent, storage);
    FolderPathStable(db, mid, stores, parent, storage);
    SweepFate(mid, stores, files, parent, storage, |mid.recs|);
    if UniqueNames(db) {
      AddAllKeepsUnique(db, listing, showHidden, parent, storage);
      SweptKeepsUnique(mid, Scan(db, stores, files, Some(listing), showHidden, parent, storage), folder, files, parent, storage);
    }
  }

  lemma KnownEntries(db: Db, mid: Db, db': Db, disk: map<Name, FileInfo>, listing: seq<FileInfo>, files: Files,
                     folder: Name, showHidden: bool, parent: u32, storage: u32)
    requires ScanContext(db, mid, db', disk, listing, files, folder, showHidden, parent, storage)
    requires NoStray(db, files, folder, parent, storage)
    ensures forall k :: 0 <= k < |db.recs| ==> Kept(db.recs[k], db'.recs[k], disk, parent, storage)
  {
    forall k | 0 <= k < |db.recs|
      ensures Kept(db.recs[k], db'.recs[k], disk, parent, storage)
    {
      assert mid.recs[k] == mid.recs[..|db.recs|][k] == db.recs[k];
    }
  }

  lemma NewEntries(db: Db, mid: Db, db': Db, disk: map<Name, FileInfo>, listing: seq<FileInfo>, files: Files,
                   folder: Name, showHidden: bool, parent: u32, storage: u32)
    requires ScanContext(db, mid, db', disk, listing, files, folder, showHidden, parent, storage)
    ensures forall k :: |db.recs| <= k < |db'.recs| ==>
      Newcomer(db'.recs[k], db.next, disk, parent, storage) && Visible(db'.recs[k].name, showHidden)
  {
    forall k | |db.recs| <= k < |db'.recs|
      ensures Newcomer(db'.recs[k], db.next, disk, parent, storage) && Visible(db'.recs[k].name, showHidden)
    {
      assert NewChild(mid.recs[k], db.next, listing, showHidden, parent, storage);
    }
  }

  lemma NamesAreShown(db: Db, mid: Db, db': Db, disk: map<Name, FileInfo>, listing: seq<FileInfo>, files: Files,
                      folder: Name, showHidden: bool, parent: u32, storage: u32)
    requires ScanContext(db, mid, db', disk, listing, files, folder, showHidden, parent, storage)
    requires NoShadow(db, disk, showHidden, parent, storage)
    requires forall n :: n in disk && Visible(n, showHidden) ==> Present(mid, n, parent, storage)
    ensures forall n :: Shown(db, disk, showHidden, parent, storage, n) ==> HasChild(db', n, parent, storage)
  {
    forall n | Shown(db, disk, showHidden, parent, storage, n)
      ensures HasChild(db', n, parent, storage)
    {
      var k := ShownIsThere(db, mid, disk, listing, showHidden, parent, storage, n);
      assert db'.recs[k] == Fate(mid.recs[k], folder, files);
      assert Child(db'.recs[k], parent, storage) && db'.recs[k].name == n;
    }
  }

  lemma ChildrenAreShown(db: Db, mid: Db, db': Db, disk: map<Name, FileInfo>, listing: seq<FileInfo>, files: Files,
                         folder: Name, showHidden: bool, parent: u32, storage: u32)
    requires ScanContext(db, mid, db', disk, listing, files, folder, showHidden, parent, storage)
    requires NoStray(db, files, folder, parent, storage)
    ensures forall k :: 0 <= k < |db'.recs| && Child(db'.recs[k], parent, storage) ==>
      && Shown(db, disk, showHidden, parent, storage, db'.recs[k].name)
      && db'.recs[k].size == disk[db'.recs[k].name].size
  {
    NewEntries(db, mid, db', disk, listing, files, folder, showHidden, parent, storage);
    forall k | 0 <= k < |db'.recs| && Child(db'.recs[k], parent, storage)
      ensures Shown(db, disk, showHidden, parent, storage, db'.recs[k].name)
      ensures db'.recs[k].size == disk[db'.recs[k].name].size
    {
      assert Child(mid.recs[k], parent, storage) && db'.recs[k] == Fate(mid.recs[k], folder, files);
      if k < |db.recs| {
        assert mid.recs[k] == mid.recs[..|db.recs|][k] == db.recs[k];
      }
    }
  }

  lemma ShownIsThere(db: Db, mid: Db, disk: map<Name, FileInfo>, listing: seq<FileInfo>,
                     showHidden: bool, parent: u32, storage: u32, n: Name) returns (k: nat)
    requires Inv(mid) && Appended(db, mid, listing, showHidden, parent, storage) && 1 <= db.next
    requires NoShadow(db, disk, showHidden, parent, storage)
    requires forall n :: n in disk && Visible(n, showHidden) ==> Present(mid, n, parent, storage)
    requires Shown(db, disk, showHidden, parent, storage, n)
    ensures k < |mid.recs| && Child(mid.recs[k], parent, storage) && mid.recs[k].name == n
  {
    if HasChild(db, n, parent, storage) {
      k :| 0 <= k < |db.recs| && Child(db.recs[k], parent, storage) && db.recs[k].name == n;
      assert mid.recs[k] == mid.recs[..|db.recs|][k] == db.recs[k];
    } else {
      k := NewIsThere(db, mid, listing, showHidden, parent, storage, n);
    }
  }

  lemma NewIsThere(db: Db, mid: Db, listing: seq<FileInfo>, showHidden: bool, parent: u32, storage: u32, n: Name)
    returns (k: nat)
    requires Inv(mid) && Appended(db, mid, listing, showHidden, parent, storage) && 1 <= db.next
    requires Present(mid, n, parent, storage) && !Present(db, n, parent, storage)
    ensures k < |mid.recs| && Child(mid.recs[k], parent, storage) && mid.recs[k].name == n
  {
    k :| 0 <= k < |mid.recs| && Matches(mid.recs[k], ByName(n, parent, storage));
    assert forall i :: 0 <= i < |db.recs| ==> db.recs[i] == mid.recs[..|db.recs|][i] == mid.recs[i];
    assert NewChild(mid.recs[k], db.next, listing, showHidden, parent, storage);
  }

  /** A stray child that its stat finds survives under a name the folder should not show. */
  lemma NoStrayNeeded(db: Db, mid: Db, db': Db, disk: map<Name, FileInfo>, listing: seq<FileInfo>, files: Files,
                      folder: Name, showHidden: bool, parent: u32, storage: u32)
    requires ScanContext(db, mid, db', disk, listing, files, folder, showHidden, parent, storage)
    requires ShownExactly(db, db', disk, showHidden, parent, storage)
    ensures NoStray(db, files, folder, parent, storage)
  {
    forall k | 0 <= k < |db.recs| && Child(db.recs[k], parent, storage) && !FileName(db.recs[k].name)
      ensures folder + SLASH + db.recs[k].name !in files
    {
      assert mid.recs[k] == mid.recs[..|db.recs|][k] == db.recs[k];
      if folder + SLASH + db.recs[k].name in files {
        assert Child(db'.recs[k], parent, storage);
      }
    }
  }

  /** A visible name that a root takes is never added as a child. */
  lemma NoShadowNeeded(db: Db, mid: Db, db': Db, disk: map<Name, FileInfo>, listing: seq<FileInfo>, files: Files,
                       folder: Name, showHidden: bool, parent: u32, storage: u32)
    requires ScanContext(db, mid, db', disk, listing, files, folder, showHidden, parent, storage)
    requires ShownExactly(db, db', disk, showHidden, parent, storage)
    requires forall k :: |db.recs| <= k < |mid.recs| ==> !Present(db, mid.recs[k].name, parent, storage)
    ensures NoShadow(db, disk, showHidden, parent, storage)
  {
    forall n | n in disk && Visible(n, showHidden) && Present(db, n, parent, storage)
      ensures HasChild(db, n, parent, storage)
    {
      assert Shown(db, disk, showHidden, parent, storage, n);
      var k :| 0 <= k < |db'.recs| && Child(db'.recs[k], parent, storage) && db'.recs[k].name == n;
      SurvivorWas(mid, db', folder, files, parent, storage, k);
      assert k < |db.recs|;
      assert mid.recs[k] == mid.recs[..|db.recs|][k] == db.recs[k];
    }
  }

  /** A live child after the sweep was one before, under the same name, and a stat finds it. */
  lemma SurvivorWas(mid: Db, db': Db, folder: Name, files: Files, parent: u32, storage: u32, k: nat)
    requires Swept(mid, db', folder, files, parent, storage, |mid.recs|) && k < |db'.recs| && Child(db'.recs[k], parent, storage)
    ensures k < |mid.recs| && Child(mid.recs[k], parent, storage) && mid.recs[k].name == db'.recs[k].name
    ensures Fate(db'.recs[k], folder, files) == db'.recs[k]
  {
  }

  /** Roots called "/" take no name of a directory. */
  lemma RootsCastNoShadow(db: Db, disk: map<Name, FileInfo>, showHidden: bool, parent: u32, storage: u32)
    requires Ordered(db) && forall n :: n in disk ==> FileName(n)
    requires forall k :: 0 <= k < |db.recs| && db.recs[k].handle == 0 ==> db.recs[k].name == ROOT_NAME
    ensures NoShadow(db, disk, showHidden, parent, storage)
  {
    forall n | n in disk && Present(db, n, parent, storage)
      ensures HasChild(db, n, parent, storage)
    {
      var k :| 0 <= k < |db.recs| && Matches(db.recs[k], ByName(n, parent, storage));
      assert db.recs[k].name == n && 0x2F in ROOT_NAME;
      assert Child(db.recs[k], parent, storage);
    }
  }

  // ------------------------------------------------------- second scan

  /** Adding a listing whose visible names are all present changes nothing. */
  lemma {:induction false} AddAllNothing(db: Db, listing: seq<FileInfo>, showHidden: bool, parent: u32, storage: u32)
    requires Agree(db)
    requires forall i :: 0 <= i < |listing| && Visible(listing[i].name, showHidden) ==>
      Present(db, listing[i].name, parent, storage)
    ensures AddAll(db, listing, showHidden, parent, storage) == db && Room(db, listing, showHidden, parent, storage)
    decreases |listing|
  {
    if listing != [] {
      FindEntryRefinesScan(db, listing[0].name, parent, storage);
      assert forall i :: 0 <= i < |listing| - 1 ==> listing[1..][i] == listing[i + 1];
      AddAllNothing(db, listing[1..], showHidden, parent, storage);
    }
  }

  /** A second scan of the same directory changes nothing. */
  lemma SecondScanChangesNothing(db: Db, stores: Stores, disk: map<Name, FileInfo>, listing: seq<FileInfo>, files: Files,
                                 showHidden: bool, parent: u32, storage: u32)
    requires Inv(db) && Room(db, listing, showHidden, parent, storage)
    requires Snapshot(disk, listing, files, FolderPath(db, stores, parent, storage))
    ensures var db' := Scan(db, stores, files, Some(listing), showHidden, parent, storage);
            && Inv(db')
            && Room(db', listing, showHidden, parent, storage)
            && Scan(db', stores, files, Some(listing), showHidden, parent, storage) == db'
  {
    var folder := FolderPath(db, stores, parent, storage);
    var mid := ScanInSteps(db, stores, disk, listing, files, showHidden, parent, storage);
    var db' := Scan(db, stores, files, Some(listing), showHidden, parent, storage);
    ListingPresent(mid, db', disk, listing, files, folder, showHidden, parent, storage);
    AddAllNothing(db', listing, showHidden, parent, storage);
    forall k | 0 <= k < |db'.recs| && Child(db'.recs[k], parent, storage)
      ensures Fate(db'.recs[k], folder, files) == db'.recs[k]
    {
      SurvivorWas(mid, db', folder, files, parent, storage, k);
    }
    SweepNothing(db', stores, files, parent, storage);
  }

  /** A listed name that was present before the sweep is present after it. */
  lemma ListingPresent(mid: Db, db': Db, disk: map<Name, FileInfo>, listing: seq<FileInfo>, files: Files, folder: Name,
                       showHidden: bool, parent: u32, storage: u32)
    requires Snapshot(disk, listing, files, folder) && Swept(mid, db', folder, files, parent, storage, |mid.recs|)
    requires forall n :: n in disk && Visible(n, showHidden) ==> Present(mid, n, parent, storage)
    ensures forall i :: 0 <= i < |listing| && Visible(listing[i].name, showHidden) ==>
      Present(db', listing[i].name, parent, storage)
  {
    forall i | 0 <= i < |listing| && Visible(listing[i].name, showHidden)
      ensures Present(db', listing[i].name, parent, storage)
    {
      var n := listing[i].name;
      var k :| 0 <= k < |mid.recs| && Matches(mid.recs[k], ByName(n, parent, storage));
      assert Matches(db'.recs[k], ByName(n, parent, storage));
    }
  }

  lemma SweepNothing(db: Db, stores: Stores, files: Files, parent: u32, storage: u32)
    requires Inv(db)
    requires forall k :: 0 <= k < |db.recs| && Child(db.recs[k], parent, storage) ==>
      Fate(db.recs[k], FolderPath(db, stores, parent, storage), files) == db.recs[k]
    ensures Sweep(db, stores, files, parent, storage, |db.recs|) == db
  {
    SweepFate(db, stores, files, parent, storage, |db.recs|);
    assert Sweep(db, stores, files, parent, storage, |db.recs|).recs == db.recs;
  }

  /** The first scan of a root folder with one file on disk, and more below a subfolder: all that
      reconciliation asks for holds, and the file is shown exactly when its name is visible. */
  lemma FirstScan(db: Db, stores: Stores, storage: u32, info: FileInfo, below: Name, showHidden: bool)
    requires Inv(db) && db.recs == [] && db.next < LAST_HANDLE && FileName(info.name)
    ensures var folder := RootOf(stores, storage); var path := folder + SLASH + info.name;
            var disk := map[info.name := info]; var files := map[path + SLASH + below := 0, path := info.size];
      && Room(db, [info], showHidden, 0, storage) && FolderPath(db, stores, 0, storage) == folder
      && Snapshot(disk, [info], files, folder)
      && var db' := Scan(db, stores, files, Some([info]), showHidden, 0, storage);
         Reconciled(db, db', disk, showHidden, 0, storage) && (HasChild(db', info.name, 0, storage) <==> Visible(info.name, showHidden))
  {
    var folder, disk := RootOf(stores, storage), map[info.name := info];
    var path := folder + SLASH + info.name;
    var files := map[path + SLASH + below := 0, path := info.size];
    assert folder + [] == folder;
    OneFile(folder, info, below);
    ScanReconciles(db, stores, disk, [info], files, showHidden, 0, storage);
    assert Shown(db, disk, showHidden, 0, storage, info.name) <==> Visible(info.name, showHidden);
  }

  lemma OneFile(folder: Name, info: FileInfo, below: Name)
    requires FileName(info.name)
    ensures var path := folder + SLASH + info.name;
            Snapshot(map[info.name := info], [info], map[path + SLASH + below := 0, path := info.size], folder)
  {
    var path := folder + SLASH + info.name;
    var disk, files := map[info.name := info], map[path + SLASH + below := 0, path := info.size];
    forall n | FileName(n)
      ensures n in disk <==> folder + SLASH + n in files
    {
      OnlyName(folder, n, info.name, below);
    }
    assert [info][0] == info;
  }

  lemma OnlyName(folder: Name, n: Name, name: Name, below: Name)
    requires FileName(n)
    ensures folder + SLASH + n == folder + SLASH + name <==> n == name
    ensures folder + SLASH + n != folder + SLASH + name + SLASH + below
  {
    var p, f := folder + SLASH + n, |folder| + 1;
    assert p[f..] == n && (folder + SLASH + name)[f..] == name;
    var q := folder + SLASH + name + SLASH + below;
    assert q[f + |name|] == 0x2F && |q| > f + |name|;
    assert |n| > |name| ==> n[|name|] == p[f + |name|] && n[|name|] in n;
  }

  /** Whatever the directory holds, a scan undoes nothing a session relies on. */
  lemma ScanEvolves(db: Db, stores: Stores, files: Files, listing: Option<seq<FileInfo>>, showHidden: bool,
                    parent: u32, storage: u32)
    requires Inv(db) && (listing.Some? ==> Room(db, listing.value, showHidden, parent, storage))
    ensures var db' := Scan(db, stores, files, listing, showHidden, parent, storage);
            Inv(db') && Evolves(db, db')
  {
    var mid := Added(db, listing, showHidden, parent, storage);
    if listing.Some? {
      AddAllHolds(db, listing.value, showHidden, parent, storage);
      AppendedEvolves(db, mid, listing.value, showHidden, parent, storage);
    }
    SweepFate(mid, stores, files, parent, storage, |mid.recs|);
    var db' := Sweep(mid, stores, files, parent, storage, |mid.recs|);
    SweptEvolves(mid, db', FolderPath(mid, stores, parent, storage), files, parent, storage);
    EvolvesTransitive(db, mid, db');
  }

  lemma SweptEvolves(db: Db, db': Db, folder: Name, files: Files, parent: u32, storage: u32)
    requires Swept(db, db', folder, files, parent, storage, |db.recs|)
    ensures Evolves(db, db')
  {
  }

  lemma AppendedEvolves(db: Db, mid: Db, listing: seq<FileInfo>, showHidden: bool, parent: u32, storage: u32)
    requires Appended(db, mid, listing, showHidden, parent, storage)
    ensures Evolves(db, mid)
  {
    forall k | 0 <= k < |mid.recs|
      ensures k < |db.recs| ==> mid.recs[k] == db.recs[k]
      ensures k >= |db.recs| ==> mid.recs[k].handle >= db.next
    {
      if k < |db.recs| {
        assert mid.recs[k] == mid.recs[..|db.recs|][k];
      } else {
        assert NewChild(mid.recs[k], db.next, listing, showHidden, parent, storage);
      }
    }
  }
}
