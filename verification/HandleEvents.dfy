/** The file system events of a session and the MTP events they announce (src/inotify.c). */
module HandleEvents {
  import opened Bytes
  import opened HandleModel
  import opened Options
  import opened HandlePath
  import opened HandleScan
  import opened HandleCursor

  const FS_HANDLE_MAX_FILENAME_SIZE := 256

  datatype Event = ObjectAdded(handle: u32) | ObjectRemoved(handle: u32) | ObjectInfoChanged(handle: u32)

  datatype Stat = Stat(isDir: bool, size: int)

  /** Which of the three loops runs. A creation looks at the disk; when its stat fails, the name comes
      out empty, the size 0 and the directory flag stale. */
  datatype Kind = Create(disk: map<Name, Stat>, stale: bool) | Modify | Delete

  function Clip(name: Name): (c: Name)
    ensures c <= name && |c| == if |name| <= 256 then |name| else 256
  {
    if |name| > FS_HANDLE_MAX_FILENAME_SIZE then name[..FS_HANDLE_MAX_FILENAME_SIZE] else name
  }

  function CreatedInfo(path: Name, name: Name, kind: Kind): FileInfo
    requires kind.Create?
  {
    if path in kind.disk then FileInfo(Clip(name), kind.disk[path].isDir, kind.disk[path].size)
    else FileInfo([], kind.stale, 0)
  }

  /** What the loop does at one watched folder. */
  function Visit(db: Db, stores: Stores, kind: Kind, name: Name, k: nat): (r: (Db, seq<Event>))
    requires Inv(db) && k < |db.recs|
    ensures WellSized(r.0)
  {
    var folder := db.recs[k];
    match kind
    case Create(_, _) =>
      var info := CreatedInfo(FullPath(db, stores, k) + SLASH + name, name, kind);
      if FindEntry(db, info.name, folder.handle, folder.storage).Some? then (db, [])
      else (AddEntry(db, info, folder.handle, folder.storage), [ObjectAdded(db.next)])
    case Modify =>
      var f := FindEntry(db, Clip(name), folder.handle, folder.storage);
      (db, if f.Some? then [ObjectInfoChanged(db.recs[f.value].handle)] else [])
    case Delete =>
      var f := FindEntry(db, Clip(name), folder.handle, folder.storage);
      if f.Some? then (Tombstone(db, f.value), [ObjectRemoved(db.recs[f.value].handle)]) else (db, [])
  }

  lemma AddNext(db: Db, info: FileInfo, parent: u32, storage: u32)
    requires WellSized(db) && db.next < LAST_HANDLE
    ensures AddEntry(db, info, parent, storage).next
         == if FindEntry(db, info.name, parent, storage).Some? then db.next else db.next + 1
  {
  }

  lemma VisitHolds(db: Db, stores: Stores, kind: Kind, name: Name, k: nat)
    requires Inv(db) && k < |db.recs| && db.next < LAST_HANDLE
    ensures var db' := Visit(db, stores, kind, name, k).0;
            Inv(db') && Evolves(db, db') && db'.next <= db.next + 1
  {
    var folder := db.recs[k];
    match kind
    case Create(_, _) =>
      var info := CreatedInfo(FullPath(db, stores, k) + SLASH + name, name, kind);
      ApplyHolds(db, DoAdd(info, folder.handle, folder.storage));
      ApplyEvolves(db, DoAdd(info, folder.handle, folder.storage));
      AddNext(db, info, folder.handle, folder.storage);
    case Modify =>
    case Delete =>
      var f := FindEntry(db, Clip(name), folder.handle, folder.storage);
      if f.Some? {
        ApplyHolds(db, DoTombstone(f.value));
        ApplyEvolves(db, DoTombstone(f.value));
      }
  }

  /** What a visit of watched folder k does, told by the entries alone. A creation whose stat finds the
      file in that folder enters it there under the next handle, with the kind and size of the stat, and
      announces that handle, unless a live entry of the folder bears the name already. A modification
      announces a live entry of the folder with that name, and a deletion ends one and announces it,
      whenever there is one. Nothing else changes. */
  ghost predicate Effect(db: Db, stores: Stores, kind: Kind, name: Name, k: nat, db': Db, events: seq<Event>)
    requires Inv(db) && k < |db.recs|
  {
    var folder := db.recs[k];
    match kind
    case Create(disk, stale) =>
      var path := FullPath(db, stores, k) + [0x2F] + name;
      if path in disk then Entry(db, folder, Clip(name), disk[path].isDir, disk[path].size, db', events)
      else Entry(db, folder, [], stale, 0, db', events)
    case Modify =>
      db' == db && if !InFolder(db, Clip(name), folder.handle, folder.storage) then events == []
                   else exists i :: (
                     && 0 <= i < |db.recs| && LiesIn(db.recs[i], Clip(name), folder.handle, folder.storage)
                     && events == [ObjectInfoChanged(db.recs[i].handle)])
    case Delete =>
      if !InFolder(db, Clip(name), folder.handle, folder.storage) then db' == db && events == []
      else exists i :: (
        && 0 <= i < |db.recs| && LiesIn(db.recs[i], Clip(name), folder.handle, folder.storage)
        && db'.recs == db.recs[i := db.recs[i].(deleted := true, wd := -1)] && db'.next == db.next
        && events == [ObjectRemoved(db.recs[i].handle)])
  }

  /** A name is entered in a folder and announced, unless the folder has a live entry of it. */
  ghost predicate Entry(db: Db, folder: Rec, name: Name, isDir: bool, size: int, db': Db, events: seq<Event>) {
    if InFolder(db, name, folder.handle, folder.storage) then db' == db && events == []
    else
      && db'.recs == db.recs + [Rec(db.next, folder.handle, folder.storage, name, isDir, false, size, -1)]
      && db'.next as int == db.next as int + 1 && events == [ObjectAdded(db.next)]
  }

  lemma CreationExactly(db: Db, stores: Stores, kind: Kind, name: Name, k: nat)
    requires Inv(db) && k < |db.recs| && db.next < LAST_HANDLE && kind.Create?
    ensures var v := Visit(db, stores, kind, name, k); Effect(db, stores, kind, name, k, v.0, v.1)
  {
    var folder, path := db.recs[k], FullPath(db, stores, k) + SLASH + name;
    var info := CreatedInfo(path, name, kind);
    FoundInFolder(db, info.name, folder.handle, folder.storage);
    var v := Visit(db, stores, kind, name, k);
    assert Entry(db, folder, info.name, info.isDir, info.size, v.0, v.1);
  }

  lemma VisitExactly(db: Db, stores: Stores, kind: Kind, name: Name, k: nat)
    requires Inv(db) && k < |db.recs| && db.next < LAST_HANDLE
    ensures var v := Visit(db, stores, kind, name, k); Effect(db, stores, kind, name, k, v.0, v.1)
  {
    if kind.Create? {
      CreationExactly(db, stores, kind, name, k);
    } else {
      FoundInFolder(db, Clip(name), db.recs[k].handle, db.recs[k].storage);
    }
  }

  datatype Visits = Visits(db: Db, events: seq<Event>, folders: seq<nat>)

  /** The loop over the live folders of a watch, newest first, from below an entry. */
  function Loop(db: Db, stores: Stores, kind: Kind, name: Name, wd: int, below: nat): Visits
    requires Inv(db) && below <= |db.recs| && db.next + below < LAST_HANDLE
    decreases below
  {
    match ListScan(db.recs, ByWd(wd), below)
    case None => Visits(db, [], [])
    case Some(k) =>
      VisitHolds(db, stores, kind, name, k);
      var v := Visit(db, stores, kind, name, k);
      var rest := Loop(v.0, stores, kind, name, wd, k);
      Visits(rest.db, v.1 + rest.events, [k] + rest.folders)
  }

  /** Visits one after the other, with what each of them announces. */
  ghost predicate Effects(db: Db, stores: Stores, kind: Kind, name: Name, folders: seq<nat>, db': Db, events: seq<Event>)
    requires Inv(db)
    decreases |folders|
  {
    if folders == [] then db' == db && events == []
    else
      folders[0] < |db.recs| && exists mid: Db, n: nat :: (
        && OneEffect(db, stores, kind, name, folders[0], mid, events, n)
        && Effects(mid, stores, kind, name, folders[1..], db', events[n..]))
  }

  ghost predicate OneEffect(db: Db, stores: Stores, kind: Kind, name: Name, k: nat, mid: Db, events: seq<Event>, n: nat)
    requires Inv(db) && k < |db.recs|
  {
    n <= |events| && Inv(mid) && Effect(db, stores, kind, name, k, mid, events[..n])
  }

  /** An event is the visits of its folders, one after the other, and nothing else. */
  lemma {:induction false} LoopExactly(db: Db, stores: Stores, kind: Kind, name: Name, wd: int, below: nat)
    requires Inv(db) && below <= |db.recs| && db.next + below < LAST_HANDLE
    ensures var v := Loop(db, stores, kind, name, wd, below);
            Effects(db, stores, kind, name, v.folders, v.db, v.events)
    decreases below
  {
    var s := ListScan(db.recs, ByWd(wd), below);
    if s.Some? {
      var v := Visit(db, stores, kind, name, s.value);
      VisitHolds(db, stores, kind, name, s.value);
      VisitExactly(db, stores, kind, name, s.value);
      LoopExactly(v.0, stores, kind, name, wd, s.value);
      FirstEffect(db, stores, kind, name, wd, below, s.value);
    }
  }

  lemma FirstEffect(db: Db, stores: Stores, kind: Kind, name: Name, wd: int, below: nat, k: nat)
    requires Inv(db) && below <= |db.recs| && db.next + below < LAST_HANDLE && ListScan(db.recs, ByWd(wd), below) == Some(k)
    requires var v := Visit(db, stores, kind, name, k);
      && Inv(v.0) && k <= |v.0.recs| && v.0.next + k < LAST_HANDLE && Effect(db, stores, kind, name, k, v.0, v.1)
      && var rest := Loop(v.0, stores, kind, name, wd, k);
         Effects(v.0, stores, kind, name, rest.folders, rest.db, rest.events)
    ensures var v := Loop(db, stores, kind, name, wd, below);
            Effects(db, stores, kind, name, v.folders, v.db, v.events)
  {
    var v, all := Visit(db, stores, kind, name, k), Loop(db, stores, kind, name, wd, below);
    var rest := Loop(v.0, stores, kind, name, wd, k);
    var n := |v.1|;
    assert all.events[..n] == v.1 && all.events[n..] == rest.events && all.folders[1..] == rest.folders;
    assert OneEffect(db, stores, kind, name, k, v.0, all.events, n);
  }

  // --------------------------------------------------------------- trace

  /** What a host may rely on in the announcements so far, and how they sit with the database. */
  ghost predicate TraceInv(trace: seq<Event>, db: Db) {
    && (forall i :: 0 <= i < |trace| ==> trace[i].handle < db.next)
    && (forall i, j :: 0 <= i < j < |trace| && trace[j].ObjectAdded? ==> trace[i].handle != trace[j].handle)
    && (forall i, j :: 0 <= i < j < |trace| && trace[i].ObjectRemoved? && trace[i].handle != 0 ==>
          trace[j].handle != trace[i].handle)
    && (forall i, k :: 0 <= i < |trace| && 0 <= k < |db.recs| && trace[i].ObjectRemoved? && trace[i].handle != 0 ==>
          (db.recs[k].handle == trace[i].handle ==> db.recs[k].deleted))
  }

  /** Operations that announce nothing leave the announcements right. */
  lemma SilentKeepsTrace(trace: seq<Event>, db: Db, db': Db)
    requires TraceInv(trace, db) && Evolves(db, db')
    ensures TraceInv(trace, db')
  {
    forall i, k | 0 <= i < |trace| && trace[i].ObjectRemoved? && trace[i].handle != 0 && 0 <= k < |db'.recs|
      && db'.recs[k].handle == trace[i].handle
      ensures db'.recs[k].deleted
    {
      if k < |db.recs| {
        assert SameObject(db.recs[k], db'.recs[k]);
      }
    }
  }

  lemma VisitKeepsTrace(trace: seq<Event>, db: Db, stores: Stores, kind: Kind, name: Name, k: nat)
    requires Inv(db) && k < |db.recs| && db.next < LAST_HANDLE && TraceInv(trace, db)
    ensures TraceInv(trace + Visit(db, stores, kind, name, k).1, Visit(db, stores, kind, name, k).0)
  {
    var db' := Visit(db, stores, kind, name, k).0;
    VisitHolds(db, stores, kind, name, k);
    SilentKeepsTrace(trace, db, db');
    var events, j := VisitAnnounces(db, stores, kind, name, k);
    if events == [] {
      assert trace + events == trace;
    } else {
      OneMore(trace, events[0], db, db', j);
    }
  }

  /** A visit announces at most one thing, about a new entry or one that is live until then. */
  lemma VisitAnnounces(db: Db, stores: Stores, kind: Kind, name: Name, k: nat) returns (events: seq<Event>, j: nat)
    requires Inv(db) && k < |db.recs| && db.next < LAST_HANDLE
    ensures events == Visit(db, stores, kind, name, k).1
    ensures events == [] || (events == [events[0]] && Announces(events[0], db, Visit(db, stores, kind, name, k).0, j))
  {
    match kind
    case Create(_, _) =>
      CreationAnnounces(db, stores, kind, name, k);
      events, j := Visit(db, stores, kind, name, k).1, 0;
    case Modify =>
      events, j := FindAnnounces(db, stores, kind, name, k);
    case Delete =>
      events, j := FindAnnounces(db, stores, kind, name, k);
  }

  lemma CreationAnnounces(db: Db, stores: Stores, kind: Kind, name: Name, k: nat)
    requires Inv(db) && k < |db.recs| && db.next < LAST_HANDLE && kind.Create?
    ensures var v := Visit(db, stores, kind, name, k);
            v.1 == [] || (v.1 == [ObjectAdded(db.next)] && v.0.next == db.next + 1)
  {
    var folder := db.recs[k];
    var info := CreatedInfo(FullPath(db, stores, k) + SLASH + name, name, kind);
    AddNext(db, info, folder.handle, folder.storage);
  }

  lemma FindAnnounces(db: Db, stores: Stores, kind: Kind, name: Name, k: nat) returns (events: seq<Event>, j: nat)
    requires Inv(db) && k < |db.recs| && !kind.Create?
    ensures events == Visit(db, stores, kind, name, k).1
    ensures events == [] || (events == [events[0]] && Announces(events[0], db, Visit(db, stores, kind, name, k).0, j))
  {
    var f := FindEntry(db, Clip(name), db.recs[k].handle, db.recs[k].storage);
    events := Visit(db, stores, kind, name, k).1;
    j := if f.Some? then f.value else 0;
  }

  /** The event is about entry j, live until then, or about a handle the counter had not reached. */
  predicate Announces(e: Event, db: Db, db': Db, j: nat) {
    && e.handle < db'.next
    && (e.ObjectAdded? ==> e.handle >= db.next)
    && (!e.ObjectAdded? ==> j < |db.recs| && !db.recs[j].deleted && e.handle == db.recs[j].handle)
    && (e.ObjectRemoved? ==> j < |db'.recs| && db'.recs[j].handle == e.handle && db'.recs[j].deleted)
  }

  /** A sound announcement: an addition of a handle not seen before, or news of a live entry, which is
      dead afterwards if it is a removal. */
  lemma OneMore(trace: seq<Event>, e: Event, db: Db, db': Db, j: nat)
    requires Inv(db') && TraceInv(trace, db) && TraceInv(trace, db') && Announces(e, db, db', j)
    ensures TraceInv(trace + [e], db')
  {
    var t := trace + [e];
    forall i, k | 0 <= i < |t| && t[i].ObjectRemoved? && t[i].handle != 0 && 0 <= k < |db'.recs|
      && db'.recs[k].handle == t[i].handle
      ensures db'.recs[k].deleted
    {
      if i == |trace| {
        HandleUnique(db', j, k);
      }
    }
  }

  lemma {:induction false} LoopHolds(db: Db, stores: Stores, kind: Kind, name: Name, wd: int, below: nat)
    requires Inv(db) && below <= |db.recs| && db.next + below < LAST_HANDLE
    ensures var db' := Loop(db, stores, kind, name, wd, below).db; Inv(db') && Evolves(db, db')
    decreases below
  {
    var s := ListScan(db.recs, ByWd(wd), below);
    if s.Some? {
      var mid := Visit(db, stores, kind, name, s.value).0;
      VisitHolds(db, stores, kind, name, s.value);
      LoopHolds(mid, stores, kind, name, wd, s.value);
      EvolvesTransitive(db, mid, Loop(mid, stores, kind, name, wd, s.value).db);
    }
  }

  lemma Regroup(a: seq<Event>, b: seq<Event>, c: seq<Event>)
    ensures a + (b + c) == a + b + c
  {
  }

  lemma {:induction false} LoopKeepsTrace(trace: seq<Event>, total: seq<Event>, db: Db, stores: Stores, kind: Kind,
                                          name: Name, wd: int, below: nat)
    requires Inv(db) && below <= |db.recs| && db.next + below < LAST_HANDLE && TraceInv(trace, db)
    requires total == trace + Loop(db, stores, kind, name, wd, below).events
    ensures TraceInv(total, Loop(db, stores, kind, name, wd, below).db)
    decreases below
  {
    var s := ListScan(db.recs, ByWd(wd), below);
    if s.None? {
      assert total == trace;
    } else {
      var v := Visit(db, stores, kind, name, s.value);
      VisitHolds(db, stores, kind, name, s.value);
      Regroup(trace, v.1, Loop(v.0, stores, kind, name, wd, s.value).events);
      VisitKeepsTrace(trace, db, stores, kind, name, s.value);
      LoopKeepsTrace(trace + v.1, total, v.0, stores, kind, name, wd, s.value);
    }
  }

  /** What happens in a session: file system events, folder scans, and everything else. An event holds the
      lock for one folder at a time, so its visits are steps of their own that others may come between; a
      whole event is the run without interruption. */
  datatype Step =
    | OneVisit(kind: Kind, stores: Stores, name: Name, k: nat)
    | FileEvent(kind: Kind, stores: Stores, name: Name, wd: int)
    | FolderScan(stores: Stores, files: Files, listing: Option<seq<FileInfo>>, showHidden: bool, parent: u32, storage: u32)
    | Operation(op: Op)

  ghost predicate StepAllowed(db: Db, s: Step)
    requires WellSized(db)
  {
    match s
    case OneVisit(_, _, _, k) => k < |db.recs| && db.next < LAST_HANDLE
    case FileEvent(_, _, _, _) => db.next + |db.recs| < LAST_HANDLE
    case FolderScan(_, _, listing, showHidden, parent, storage) =>
      listing.Some? ==> Room(db, listing.value, showHidden, parent, storage)
    case Operation(op) => Allowed(db, op)
  }

  ghost function Perform(db: Db, s: Step): (Db, seq<Event>)
    requires Inv(db) && StepAllowed(db, s)
  {
    match s
    case OneVisit(kind, stores, name, k) => Visit(db, stores, kind, name, k)
    case FileEvent(kind, stores, name, wd) =>
      var v := Loop(db, stores, kind, name, wd, |db.recs|);
      (v.db, v.events)
    case FolderScan(stores, files, listing, showHidden, parent, storage) =>
      (Scan(db, stores, files, listing, showHidden, parent, storage), [])
    case Operation(op) => (Apply(db, op), [])
  }

  lemma PerformHolds(db: Db, s: Step)
    requires Inv(db) && StepAllowed(db, s)
    ensures Inv(Perform(db, s).0) && Evolves(db, Perform(db, s).0)
  {
    match s
    case OneVisit(kind, stores, name, k) => VisitHolds(db, stores, kind, name, k);
    case FileEvent(kind, stores, name, wd) => LoopHolds(db, stores, kind, name, wd, |db.recs|);
    case FolderScan(stores, files, listing, showHidden, parent, storage) =>
      ScanEvolves(db, stores, files, listing, showHidden, parent, storage);
    case Operation(op) =>
      ApplyHolds(db, op);
      ApplyEvolves(db, op);
  }

  lemma PerformKeepsTrace(trace: seq<Event>, db: Db, s: Step)
    requires Inv(db) && StepAllowed(db, s) && TraceInv(trace, db)
    ensures TraceInv(trace + Perform(db, s).1, Perform(db, s).0)
  {
    match s
    case OneVisit(kind, stores, name, k) => VisitKeepsTrace(trace, db, stores, kind, name, k);
    case FileEvent(kind, stores, name, wd) =>
      LoopKeepsTrace(trace, trace + Perform(db, s).1, db, stores, kind, name, wd, |db.recs|);
    case FolderScan(stores, files, listing, showHidden, parent, storage) =>
      ScanEvolves(db, stores, files, listing, showHidden, parent, storage);
      SilentKeepsTrace(trace, db, Perform(db, s).0);
      assert trace + [] == trace;
    case Operation(op) =>
      ApplyEvolves(db, op);
      SilentKeepsTrace(trace, db, Perform(db, s).0);
      assert trace + [] == trace;
  }

  /** Each step of the session is allowed where it happens. */
  ghost predicate Possible(db: Db, steps: seq<Step>)
    requires Inv(db)
    decreases |steps|
  {
    if steps == [] then true
    else if !StepAllowed(db, steps[0]) then false
    else
      PerformHolds(db, steps[0]);
      Possible(Perform(db, steps[0]).0, steps[1..])
  }

  /** The announcements of a session and the database it ends with. */
  ghost function Session(db: Db, steps: seq<Step>): (r: (Db, seq<Event>))
    requires Inv(db) && Possible(db, steps)
    decreases |steps|
  {
    if steps == [] then (db, [])
    else
      PerformHolds(db, steps[0]);
      var first := Perform(db, steps[0]);
      var rest := Session(first.0, steps[1..]);
      (rest.0, first.1 + rest.1)
  }

  /** Index agreement and the handle order hold in every state a session reaches, and nothing an
      earlier state promised is undone. */
  lemma {:induction false} SessionHolds(db: Db, steps: seq<Step>)
    requires Inv(db) && Possible(db, steps)
    ensures Inv(Session(db, steps).0) && Evolves(db, Session(db, steps).0)
    decreases |steps|
  {
    if steps != [] {
      PerformHolds(db, steps[0]);
      var mid := Perform(db, steps[0]).0;
      SessionHolds(mid, steps[1..]);
      EvolvesTransitive(db, mid, Session(mid, steps[1..]).0);
    }
  }

  /** Handles are permanent: after any session the entries known before still carry their handles, an
      entry added since has a greater one than any of them (unless it is a storage root), and no lookup,
      cursor or scan, all of which answer live entries only, finds a handle that was dead before. */
  lemma HandlesArePermanent(db: Db, steps: seq<Step>, k: nat, j: nat, q: Query)
    requires Inv(db) && Possible(db, steps) && k < |db.recs| && db.recs[k].handle != 0
    requires j < |Session(db, steps).0.recs|
    ensures var later := Session(db, steps).0.recs;
      && k < |later| && later[k].handle == db.recs[k].handle
      && (later[j].handle == db.recs[k].handle ==> j == k)
      && (j >= |db.recs| && later[j].handle != 0 ==> later[j].handle > db.recs[k].handle)
      && (db.recs[k].deleted && Matches(later[j], q) ==> later[j].handle != db.recs[k].handle)
  {
    SessionHolds(db, steps);
    var later := Session(db, steps).0;
    assert SameObject(db.recs[k], later.recs[k]);
    if later.recs[j].handle == db.recs[k].handle {
      HandleUnique(later, j, k);
    }
  }

  lemma {:induction false} SessionKeepsTrace(trace: seq<Event>, total: seq<Event>, db: Db, steps: seq<Step>)
    requires Inv(db) && Possible(db, steps) && TraceInv(trace, db) && total == trace + Session(db, steps).1
    ensures TraceInv(total, Session(db, steps).0)
    decreases |steps|
  {
    if steps == [] {
      assert total == trace;
    } else {
      var first := Perform(db, steps[0]);
      PerformHolds(db, steps[0]);
      Regroup(trace, first.1, Session(first.0, steps[1..]).1);
      PerformKeepsTrace(trace, db, steps[0]);
      SessionKeepsTrace(trace + first.1, total, first.0, steps[1..]);
    }
  }

  /** Over every session mixing file system events, scans, renames and deletions, each object is
      announced added at most once and before any other event of its handle, and nothing follows the
      announcement of its removal (storage roots, which share handle 0, apart). */
  lemma SessionTrace(steps: seq<Step>)
    requires Inv(EMPTY) && Possible(EMPTY, steps)
    ensures var trace := Session(EMPTY, steps).1;
            && (forall i, j :: 0 <= i < j < |trace| && trace[j].ObjectAdded? ==> trace[i].handle != trace[j].handle)
            && (forall i, j :: 0 <= i < j < |trace| && trace[i].ObjectRemoved? && trace[i].handle != 0 ==>
                  trace[j].handle != trace[i].handle)
  {
    assert [] + Session(EMPTY, steps).1 == Session(EMPTY, steps).1;
    SessionKeepsTrace([], Session(EMPTY, steps).1, EMPTY, steps);
  }

  // -------------------------------------------------------------- visits

  /** The deletion of a name finds watched folder i when it visits the newer watched folder j. */
  ghost predicate Hit(db: Db, name: Name, wd: int, i: nat, j: nat)
    requires WellSized(db)
  {
    && i < j < |db.recs| && Matches(db.recs[j], ByWd(wd)) && Matches(db.recs[i], ByWd(wd))
    && FindEntry(db, name, db.recs[j].handle, db.recs[j].storage) == Some(i)
  }

  ghost predicate NoHit(db: Db, name: Name, wd: int, below: nat)
    requires WellSized(db)
  {
    forall i: nat, j: nat :: i < j < below ==> !Hit(db, name, wd, i, j)
  }

  ghost predicate NoHitFrom(db: Db, name: Name, wd: int, k: nat)
    requires WellSized(db)
  {
    NoHit(db, name, wd, k) && forall i: nat :: i < k ==> !Hit(db, name, wd, i, k)
  }

  predicate SameFolder(a: Rec, b: Rec) {
    a.handle == b.handle && a.storage == b.storage
  }

  /** No two live folders of the watch share handle and storage. Other than roots none ever do. */
  ghost predicate FoldersApart(db: Db, wd: int) {
    forall i, j :: 0 <= i < j < |db.recs| && Matches(db.recs[i], ByWd(wd)) && Matches(db.recs[j], ByWd(wd)) ==>
      !SameFolder(db.recs[i], db.recs[j])
  }

  /** One live root for a storage is all it takes. */
  lemma OneRootIsEnough(db: Db, wd: int)
    requires Ordered(db)
    requires forall i, j :: 0 <= i < j < |db.recs| && LiveRoot(db.recs[i]) && LiveRoot(db.recs[j]) ==>
      db.recs[i].storage != db.recs[j].storage
    ensures FoldersApart(db, wd)
  {
  }

  predicate LiveRoot(r: Rec) {
    r.handle == 0 && !r.deleted
  }

  /** A visit leaves the folders still to come as they are, unless a deletion hits one of them. */
  lemma VisitUndisturbed(db: Db, stores: Stores, kind: Kind, name: Name, wd: int, k: nat)
    requires Inv(db) && k < |db.recs| && Matches(db.recs[k], ByWd(wd))
    requires kind.Delete? ==> forall i: nat :: i < k ==> !Hit(db, Clip(name), wd, i, k)
    ensures Undisturbed(db.recs, Visit(db, stores, kind, name, k).0.recs, ByWd(wd), k)
  {
    var f := FindEntry(db, Clip(name), db.recs[k].handle, db.recs[k].storage);
    assert kind.Delete? && f.Some? && f.value < k ==> !Hit(db, Clip(name), wd, f.value, k);
  }

  /** The first match of a bucket does not notice a change to an entry that does not match before or after. */
  lemma {:induction false} FirstInKeeps(bucket: seq<nat>, recs: seq<Rec>, recs': seq<Rec>, q: Query, f: nat)
    requires f < |recs| == |recs'| && recs' == recs[f := recs'[f]]
    requires !Matches(recs[f], q) && !Matches(recs'[f], q)
    ensures FirstIn(bucket, recs', q) == FirstIn(bucket, recs, q)
  {
    if bucket != [] {
      FirstInKeeps(bucket[1..], recs, recs', q, f);
    }
  }

  /** What a deletion does in one folder changes no lookup in another. */
  lemma LookupKeeps(db: Db, stores: Stores, name: Name, wd: int, k: nat, j: nat)
    requires Inv(db) && k < |db.recs| && j < |db.recs| && !SameFolder(db.recs[j], db.recs[k])
    ensures var db' := Visit(db, stores, Delete, name, k).0; var r := db.recs[j];
            FindEntry(db', Clip(name), r.handle, r.storage) == FindEntry(db, Clip(name), r.handle, r.storage)
  {
    var folder, r := db.recs[k], db.recs[j];
    var f := FindEntry(db, Clip(name), folder.handle, folder.storage);
    if f.Some? {
      var recs' := Tombstone(db, f.value).recs;
      FirstInKeeps(db.byName[HashName(Clip(name))], db.recs, recs', ByName(Clip(name), r.handle, r.storage), f.value);
    }
  }

  lemma DeletionOnlyEnds(db: Db, stores: Stores, name: Name, k: nat)
    requires Inv(db) && k < |db.recs|
    ensures var recs := Visit(db, stores, Delete, name, k).0.recs;
            && |recs| == |db.recs|
            && forall i :: 0 <= i < |recs| ==> EndedOrSame(db.recs[i], recs[i])
  {
  }

  predicate EndedOrSame(r: Rec, r': Rec) {
    r' == r || r' == r.(deleted := true, wd := -1)
  }

  /** After a visit that hits nothing the hits below it are the ones before. */
  lemma HitsKeep(db: Db, stores: Stores, name: Name, wd: int, k: nat)
    requires Inv(db) && k < |db.recs| && Matches(db.recs[k], ByWd(wd)) && FoldersApart(db, wd)
    requires Undisturbed(db.recs, Visit(db, stores, Delete, name, k).0.recs, ByWd(wd), k)
    ensures var db' := Visit(db, stores, Delete, name, k).0;
            FoldersApart(db', wd) && (NoHit(db', Clip(name), wd, k) <==> NoHit(db, Clip(name), wd, k))
  {
    var db' := Visit(db, stores, Delete, name, k).0;
    DeletionOnlyEnds(db, stores, name, k);
    forall i: nat, j: nat | i < j < k
      ensures Hit(db', Clip(name), wd, i, j) <==> Hit(db, Clip(name), wd, i, j)
    {
      if Matches(db.recs[j], ByWd(wd)) {
        LookupKeeps(db, stores, name, wd, k, j);
      }
    }
  }

  /** The loop, unfolded once. */
  lemma LoopFirst(db: Db, stores: Stores, kind: Kind, name: Name, wd: int, below: nat)
    requires Inv(db) && below <= |db.recs| && db.next + below < LAST_HANDLE
    ensures var s := ListScan(db.recs, ByWd(wd), below); var folders := Loop(db, stores, kind, name, wd, below).folders;
            if s.None? then folders == []
            else
              var db1 := Visit(db, stores, kind, name, s.value).0;
              && Inv(db1) && |db.recs| <= |db1.recs| && db1.next <= db.next + 1
              && folders == [s.value] + Loop(db1, stores, kind, name, wd, s.value).folders
  {
    var s := ListScan(db.recs, ByWd(wd), below);
    if s.Some? {
      VisitHolds(db, stores, kind, name, s.value);
    }
  }

  /** Every visited folder was live and watched when the event came. */
  lemma {:induction false} VisitedWasWatched(db: Db, stores: Stores, kind: Kind, name: Name, wd: int, below: nat,
                                             i: nat)
    requires Inv(db) && below <= |db.recs| && db.next + below < LAST_HANDLE
    requires i in Loop(db, stores, kind, name, wd, below).folders
    ensures i < below && Matches(db.recs[i], ByWd(wd))
    decreases below
  {
    LoopFirst(db, stores, kind, name, wd, below);
    var k := ListScan(db.recs, ByWd(wd), below).value;
    if i != k {
      VisitedWasWatched(Visit(db, stores, kind, name, k).0, stores, kind, name, wd, k, i);
      VisitOnlyEnds(db, stores, kind, name, k, wd);
    }
  }

  lemma VisitOnlyEnds(db: Db, stores: Stores, kind: Kind, name: Name, k: nat, wd: int)
    requires Inv(db) && k < |db.recs|
    ensures var recs := Visit(db, stores, kind, name, k).0.recs;
            |db.recs| <= |recs| && forall i :: 0 <= i < |db.recs| && Matches(recs[i], ByWd(wd)) ==> Matches(db.recs[i], ByWd(wd))
  {
  }

  ghost predicate CanLoop(db: Db, below: nat) {
    Inv(db) && below <= |db.recs| && db.next + below < LAST_HANDLE
  }

  /** The event visits each live folder of its watch below an entry once, newest first. */
  ghost predicate VisitsAll(db: Db, stores: Stores, kind: Kind, name: Name, wd: int, below: nat)
    requires CanLoop(db, below)
  {
    Loop(db, stores, kind, name, wd, below).folders == AllBelow(db.recs, ByWd(wd), below)
  }

  /** A folder that a deletion hits is not visited any more. */
  lemma HitIsMissed(db: Db, stores: Stores, name: Name, wd: int, below: nat, i: nat, k: nat)
    requires Inv(db) && below <= |db.recs| && db.next + below < LAST_HANDLE
    requires ListScan(db.recs, ByWd(wd), below) == Some(k) && Hit(db, Clip(name), wd, i, k)
    ensures !VisitsAll(db, stores, Delete, name, wd, below)
  {
    var db1 := Visit(db, stores, Delete, name, k).0;
    LoopFirst(db, stores, Delete, name, wd, below);
    AllBelowHolds(db.recs, ByWd(wd), below);
    assert !Matches(db1.recs[i], ByWd(wd)) && i in AllBelow(db.recs, ByWd(wd), below);
    if i in Loop(db1, stores, Delete, name, wd, k).folders {
      VisitedWasWatched(db1, stores, Delete, name, wd, k, i);
    }
  }

  /** After a visit that leaves the folders still to come as they are, all hangs on the rest. */
  lemma RestDecides(db: Db, stores: Stores, kind: Kind, name: Name, wd: int, below: nat, k: nat)
    requires Inv(db) && below <= |db.recs| && db.next + below < LAST_HANDLE
    requires ListScan(db.recs, ByWd(wd), below) == Some(k)
    requires Undisturbed(db.recs, Visit(db, stores, kind, name, k).0.recs, ByWd(wd), k)
    ensures CanLoop(Visit(db, stores, kind, name, k).0, k)
    ensures VisitsAll(db, stores, kind, name, wd, below)
       <==> VisitsAll(Visit(db, stores, kind, name, k).0, stores, kind, name, wd, k)
  {
    var db1 := Visit(db, stores, kind, name, k).0;
    LoopFirst(db, stores, kind, name, wd, below);
    NewestIsFirst(db.recs, ByWd(wd), below);
    AllBelowSame(db.recs, db1.recs, ByWd(wd), k);
    SameRest(k, Loop(db1, stores, kind, name, wd, k).folders, AllBelow(db.recs, ByWd(wd), k));
  }

  lemma SameRest(k: nat, a: seq<nat>, b: seq<nat>)
    ensures [k] + a == [k] + b <==> a == b
  {
    assert ([k] + a)[1..] == a && ([k] + b)[1..] == b;
  }

  /** The hits below an entry are those of the newest folder and those below it. */
  lemma HitsSplit(db: Db, name: Name, wd: int, below: nat)
    requires WellSized(db) && below <= |db.recs|
    ensures ListScan(db.recs, ByWd(wd), below).None? ==> NoHit(db, name, wd, below)
    ensures ListScan(db.recs, ByWd(wd), below).Some? ==>
      (NoHit(db, name, wd, below) <==> NoHitFrom(db, name, wd, ListScan(db.recs, ByWd(wd), below).value))
  {
  }

  /** Each event visits every live folder of its watch exactly once, newest first: those of the
      database as the event found it. For a creation and a modification this is always so; for a deletion
      exactly when it hits none of the folders still to come. */
  lemma {:induction false} LoopVisitsEachOnce(db: Db, stores: Stores, kind: Kind, name: Name, wd: int, below: nat)
    requires Inv(db) && below <= |db.recs| && db.next + below < LAST_HANDLE
    requires kind.Delete? ==> FoldersApart(db, wd)
    ensures VisitsAll(db, stores, kind, name, wd, below) <==> (kind.Delete? ==> NoHit(db, Clip(name), wd, below))
    decreases below
  {
    var s := ListScan(db.recs, ByWd(wd), below);
    HitsSplit(db, Clip(name), wd, below);
    if s.None? {
      LoopFirst(db, stores, kind, name, wd, below);
      NewestIsFirst(db.recs, ByWd(wd), below);
    } else if i: nat :| kind.Delete? && i < s.value && Hit(db, Clip(name), wd, i, s.value) {
      HitIsMissed(db, stores, name, wd, below, i, s.value);
    } else {
      VisitUndisturbed(db, stores, kind, name, wd, s.value);
      RestDecides(db, stores, kind, name, wd, below, s.value);
      if kind.Delete? {
        HitsKeep(db, stores, name, wd, s.value);
      }
      LoopVisitsEachOnce(Visit(db, stores, kind, name, s.value).0, stores, kind, name, wd, s.value);
    }
  }

  /** One round of an event with other steps of the session after it, before the lock is taken again. */
  datatype Round = Round(k: nat, others: seq<Step>)

  /** The rounds of one event: each visits the newest watched folder behind the one before, then the
      others act; the last search finds none. What the others do leaves the folders still to come as
      they are. */
  ghost predicate Interleaved(db: Db, stores: Stores, kind: Kind, name: Name, wd: int, below: nat, rounds: seq<Round>)
    requires Inv(db)
    decreases |rounds|
  {
    below <= |db.recs| &&
    if rounds == [] then ListScan(db.recs, ByWd(wd), below) == None
    else if ListScan(db.recs, ByWd(wd), below) != Some(rounds[0].k) || db.next >= LAST_HANDLE then false
    else
      var k := rounds[0].k;
      VisitHolds(db, stores, kind, name, k);
      var db1 := Visit(db, stores, kind, name, k).0;
      if !Possible(db1, rounds[0].others) then false
      else
        SessionHolds(db1, rounds[0].others);
        var db2 := Session(db1, rounds[0].others).0;
        Undisturbed(db.recs, db2.recs, ByWd(wd), k) && Interleaved(db2, stores, kind, name, wd, k, rounds[1..])
  }

  function Folders(rounds: seq<Round>): seq<nat> {
    if rounds == [] then [] else [rounds[0].k] + Folders(rounds[1..])
  }

  /** Whatever else acts between its rounds, an event visits every live folder of its watch exactly once. */
  lemma {:induction false} InterleavedVisitsEachOnce(db: Db, stores: Stores, kind: Kind, name: Name, wd: int, below: nat,
                                                     rounds: seq<Round>)
    requires Inv(db) && Interleaved(db, stores, kind, name, wd, below, rounds)
    ensures below <= |db.recs| && Folders(rounds) == AllBelow(db.recs, ByWd(wd), below)
    decreases |rounds|
  {
    NewestIsFirst(db.recs, ByWd(wd), below);
    if rounds != [] {
      var k := rounds[0].k;
      VisitHolds(db, stores, kind, name, k);
      var db1 := Visit(db, stores, kind, name, k).0;
      SessionHolds(db1, rounds[0].others);
      var db2 := Session(db1, rounds[0].others).0;
      InterleavedVisitsEachOnce(db2, stores, kind, name, wd, k, rounds[1..]);
      AllBelowSame(db.recs, db2.recs, ByWd(wd), k);
    }
  }

  /** In every storage the roots are older than every live entry that is not a root. */
  ghost predicate RootsFirst(db: Db) {
    forall i, j :: 0 <= i < j < |db.recs| && db.recs[j].handle == 0 && db.recs[i].storage == db.recs[j].storage ==>
      db.recs[i].handle == 0 || db.recs[i].deleted
  }

  ghost predicate NoRootNamed(db: Db, name: Name) {
    forall i :: 0 <= i < |db.recs| && db.recs[i].handle == 0 ==> db.recs[i].name != name
  }

  /** Then no deletion hits a folder still to come. */
  lemma RootsFirstNoHit(db: Db, name: Name, wd: int)
    requires Inv(db) && RootsFirst(db) && NoRootNamed(db, name)
    ensures NoHit(db, name, wd, |db.recs|)
  {
  }

  /** Every operation keeps the roots first, but for mounting a storage that still has live entries;
      unmounting tombstones them all. */
  lemma RootsStayFirst(db: Db, op: Op)
    requires Inv(db) && RootsFirst(db) && Allowed(db, op)
    ensures RootsFirst(Apply(db, op)) <==> (op.DoRoot? ==> Unmounted(db, op.storage))
  {
    var db' := Apply(db, op);
    ApplyEvolves(db, op);
    if op.DoRoot? {
      RootOnTop(db, op.storage);
    } else {
      forall i, j | 0 <= i < j < |db'.recs| && db'.recs[j].handle == 0 && db'.recs[i].storage == db'.recs[j].storage
        ensures db'.recs[i].handle == 0 || db'.recs[i].deleted
      {
        assert j < |db.recs|;
        assert SameObject(db.recs[i], db'.recs[i]) && SameObject(db.recs[j], db'.recs[j]);
      }
    }
  }

  /** A storage without live entries other than roots. */
  ghost predicate Unmounted(db: Db, storage: u32) {
    forall i :: 0 <= i < |db.recs| && db.recs[i].storage == storage ==> db.recs[i].handle == 0 || db.recs[i].deleted
  }

  lemma RootOnTop(db: Db, storage: u32)
    requires WellSized(db) && RootsFirst(db)
    ensures RootsFirst(AllocRoot(db, storage)) <==> Unmounted(db, storage)
  {
    var recs := AllocRoot(db, storage).recs;
    assert recs[|db.recs|] == RootRec(storage);
    assert forall i :: 0 <= i < |db.recs| ==> recs[i] == db.recs[i];
  }

  // ----------------------------------------------------- stray children

  /** A storage is mounted and its root watched; then comes a creation whose stat fails. */
  function StraySteps(stores: Stores, storage: u32, wd: int, name: Name, stale: bool): seq<Step> {
    [Operation(DoRoot(storage)), Operation(DoWatch(0, wd)), FileEvent(Create(map[], stale), stores, name, wd)]
  }

  /** What it leaves in the list: the root and a child with the empty name. */
  function StrayRecs(storage: u32, wd: int, stale: bool): seq<Rec> {
    [RootRec(storage).(wd := wd), NewRec(1, FileInfo([], stale, 0), 0, storage)]
  }

  lemma FirstStep(db: Db, steps: seq<Step>)
    requires Inv(db) && steps != [] && StepAllowed(db, steps[0])
    requires Inv(Perform(db, steps[0]).0) && Possible(Perform(db, steps[0]).0, steps[1..])
    ensures Possible(db, steps) && Session(db, steps).0 == Session(Perform(db, steps[0]).0, steps[1..]).0
  {
  }

  /** A single event, with one watched folder. */
  lemma OneEvent(db: Db, kind: Kind, stores: Stores, name: Name, wd: int)
    requires Inv(db) && |db.recs| == 1 && db.next + 1 < LAST_HANDLE && Matches(db.recs[0], ByWd(wd))
    ensures Possible(db, [FileEvent(kind, stores, name, wd)])
    ensures Session(db, [FileEvent(kind, stores, name, wd)]).0 == Visit(db, stores, kind, name, 0).0
  {
    var e := FileEvent(kind, stores, name, wd);
    PerformHolds(db, e);
    FirstStep(db, [e]);
    VisitHolds(db, stores, kind, name, 0);
    assert ListScan(db.recs, ByWd(wd), 1) == Some(0);
  }

  /** The visit gives the empty name an entry of its own in the root folder. */
  lemma StrayVisit(db: Db, stores: Stores, storage: u32, wd: int, name: Name, stale: bool)
    requires Inv(db) && db.recs == [RootRec(storage).(wd := wd)] && db.next == 1
    ensures Visit(db, stores, Create(map[], stale), name, 0).0.recs == StrayRecs(storage, wd, stale)
  {
    FindEntryRefinesScan(db, [], 0, storage);
  }

  lemma StrayEvent(db: Db, stores: Stores, storage: u32, wd: int, name: Name, stale: bool)
    requires Inv(db) && db.recs == [RootRec(storage).(wd := wd)] && db.next == 1
    ensures Possible(db, StraySteps(stores, storage, wd, name, stale)[2..])
    ensures Session(db, StraySteps(stores, storage, wd, name, stale)[2..]).0.recs == StrayRecs(storage, wd, stale)
  {
    StrayVisit(db, stores, storage, wd, name, stale);
    OneEvent(db, Create(map[], stale), stores, name, wd);
    assert StraySteps(stores, storage, wd, name, stale)[2..] == [FileEvent(Create(map[], stale), stores, name, wd)];
  }

  lemma StrayFromRoot(db: Db, stores: Stores, storage: u32, wd: int, name: Name, stale: bool)
    requires Inv(db) && db.recs == [RootRec(storage)] && db.next == 1
    ensures Possible(db, StraySteps(stores, storage, wd, name, stale)[1..])
    ensures Session(db, StraySteps(stores, storage, wd, name, stale)[1..]).0.recs == StrayRecs(storage, wd, stale)
  {
    var steps := StraySteps(stores, storage, wd, name, stale);
    PerformHolds(db, steps[1]);
    StrayEvent(Perform(db, steps[1]).0, stores, storage, wd, name, stale);
    assert steps[1..][1..] == steps[2..];
    FirstStep(db, steps[1..]);
  }

  /** A session reaches a database with a stray child. */
  lemma StrayIsReached(stores: Stores, storage: u32, wd: int, name: Name, stale: bool)
    ensures Inv(EMPTY) && Possible(EMPTY, StraySteps(stores, storage, wd, name, stale))
    ensures Session(EMPTY, StraySteps(stores, storage, wd, name, stale)).0.recs == StrayRecs(storage, wd, stale)
  {
    EmptyHolds();
    AllocRootHolds(EMPTY, storage);
    var db := AllocRoot(EMPTY, storage);
    assert db.recs == [RootRec(storage)];
    StrayFromRoot(db, stores, storage, wd, name, stale);
    FirstStep(EMPTY, StraySteps(stores, storage, wd, name, stale));
  }

  /** No scan of its root folder reconciles it while a stat finds the folder itself. */
  lemma StrayIsNotReconciled(db: Db, stores: Stores, storage: u32, wd: int, stale: bool, disk: map<Name, FileInfo>,
                             listing: seq<FileInfo>, files: Files, showHidden: bool)
    requires Inv(db) && db.recs == StrayRecs(storage, wd, stale)
    requires Snapshot(disk, listing, files, RootOf(stores, storage)) && RootOf(stores, storage) + SLASH in files
    requires Room(db, listing, showHidden, 0, storage)
    ensures !Reconciled(db, Scan(db, stores, files, Some(listing), showHidden, 0, storage), disk, showHidden, 0, storage)
  {
    var folder := RootOf(stores, storage);
    assert folder + SLASH + [] == folder + SLASH;
    assert Child(db.recs[1], 0, storage) && !FileName(db.recs[1].name);
    assert FolderPath(db, stores, 0, storage) == folder;
    ScanReconciles(db, stores, disk, listing, files, showHidden, 0, storage);
    assert !NoStray(db, files, folder, 0, storage);
  }
}
