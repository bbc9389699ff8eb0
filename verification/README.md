# uMTP Responder: a verified model of its core

uMTP Responder serves the files of a Linux device to a USB host over the Media Transfer Protocol.
This project models four of its parts in Dafny and proves what they promise:

* **the object handle database** — one set of entries held as a linked list, as a hash table by name, as a
  hash table by handle and as slots of a block pool; its lookups, allocation with rollback, rename, child
  cursor, folder scan, path building, and the file system events that drive it;
* **the upload data phase and the cancel protocol** — the reassembly loop of SendObject and SendPartialObject,
  and two threads that share `cancel_req` and `transferring_file_data`;
* **the wire codec** — bounded writers, UTF-8 and UTF-16 names, the event, ObjectInfo and property datasets,
  and the ObjectInfo parser;
* **the configuration line grammar** — quoted words and comma-separated flags.

## How it is built

| file | content |
|---|---|
| `Options.dfy` | the option type |
| `Bytes.dfy`, `UsbString.dfy`, `MtpHelpers.dfy`, `MtpDatasets.dfy`, `MtpProperties.dfy` | the wire codec, bottom up |
| `MtpCfg.dfy` | the configuration line grammar |
| `CancelProtocol.dfy`, `SendObject.dfy` | the cancel protocol as a step machine; the upload as a class over a scripted endpoint |
| `HashUtils.dfy`, `EntryPool.dfy` | buckets, hash tables and pool blocks as classes that work in place |
| `HandleModel.dfy`, `HandlePath.dfy`, `HandleScan.dfy`, `HandleCursor.dfy`, `HandleEvents.dfy` | the database as a value, and the theorems about it |
| `FsHandlesDb.dfy` | the database as a class over the list, the tables and the pool |

Code that works in place is modelled in place. `FsHandlesDb.Database` carries a ghost value `m`; `Valid()` says
that the list, both tables, the pool and the cursor show exactly that value, and every method states its effect
as a function of the value before it (`m == Scan(old(m), ...)`). What those functions keep and promise is then
proved on values, for every run, and what each of them does is told once more by the fields it changes or the bytes
a reader finds, without the function (`HandleModel.OperationExactly`, `HandleEvents.VisitExactly`,
`MtpDatasets.ObjectInfoFields` and others). The parts of `Valid()` are stated under a quantifier triggered by `Ask`,
so that a proof sees only the parts it asks for.

Bytes and machine words are subset types of `int` (`u8`, `u16`, `u32`), and wrap-around is written out. Shifts and
masks are written as division and remainder.

## What the proofs found

* Polling until OK after each Cancel does not by itself make every transfer begin with `cancel_req` = 0. An OK is
  given while a cancelled upload is still in its loop (`CancelProtocol.OkWhileStillUploading`), and a transaction
  started then can meet a Cancel that read the old transfer's flag; `PollingAloneFails` gives such a run from the
  start of a session.
* The error exit of a download leaves `transferring_file_data` raised on an idle device, so a later Cancel can end
  with an OK and the flag still up (`CancelProtocol.ReadFailureLeavesFlagUp`). An idle device that is polled until OK
  has the flag down exactly when it was down before or no failed download went before (`IdleBusyAtMostOnce`).
* The exact discipline, failing reads included, is the predicate `CancelProtocol.Careful` beside polling: no start
  while an upload still moves data or an earlier start is pending, no Cancel between a failed download and the next
  transfer, no failing read while the flag is up or being raised. It suffices (`TransfersBeginClean`), and from every
  state it reaches each action against it has a continuation that begins a transfer with the flag up
  (`CarelessIsUnsafe`).
* A Cancel does end a transfer. Under that discipline a flag raised during a transfer stays up until the loop tests it
  and is left (`CancelProtocol.CancelReachesLoop`), and four steps later the device is idle with the flag down
  (`CancelledTransferEnds`).
* Rename does not look for a live sibling of the new name. Uniqueness of names survives it exactly when there is
  none (`HandleModel.RenameKeepsUniqueExactly`). The hash lookup and the list then answer differently exactly when
  that sibling is older than the renamed entry (`HandleModel.RenameSplitsLookups`).
* A scan reconciles a folder exactly when no live child bears something else than a file name that a stat finds all
  the same, and when no root takes a visible name (`HandleScan.ScanReconciles`). Unique names are not needed for it. It
  does fail: a creation whose stat failed leaves an entry with the empty name; mounting a storage, watching its root and
  one such creation are a possible session (`HandleEvents.StrayIsReached`), and no scan of that root folder reconciles
  the database it leaves while a stat finds the folder itself (`HandleEvents.StrayIsNotReconciled`).
* A deletion event visits every live folder of its watch exactly when none of its lookups finds, as the entry to delete,
  another watched folder that is still to come (`HandleEvents.LoopVisitsEachOnce`; watched live folders must differ in
  handle or storage, as all but roots do, `OneRootIsEnough`). That never happens while in every storage the roots are
  older than the other live entries and none bears the deleted name (`RootsFirstNoHit`), which every operation keeps
  but the mounting of a storage that still has live entries (`RootsStayFirst`). No session of the source that reaches
  such a deletion is known: a watch belongs to one directory, and unmounting tombstones what a storage holds.
* The source gives the lock back between two folders of one event. Over sessions in which scans, renames and other
  events fall in between, announcements and handles stay right (`HandleEvents.SessionTrace`, `HandlesArePermanent`), and
  an event still visits every folder exactly once while what comes in between leaves the folders still to come alone
  (`InterleavedVisitsEachOnce`).
* Allocation keeps the handle order exactly until the counter reaches its last value (`HandleModel.AllocHolds`), and
  index agreement exactly while neither bucket has the largest size (`FsHandlesDb.AppendAgreesExactly`).
* An upload whose first transfer holds only the header loses its payload in SendObject, and keeps it in
  SendPartialObject when a length other than zero was announced (`SendObject.SplitHeaderUpload`).
* The list builder writes PERSISTENT_UID as consecutive numbers from the handle; it agrees with the single-value
  builder exactly when parent and storage happen to follow the handle, and a date exactly when it is the constant
  20100102T101112 (`MtpProperties.ListAgreesWithValue`). The association type has no row in the property table, so it
  never appears in a list.
* A missing parameter is reported only when it is not the first one and the line ends in NUL or a comment. Parameter 0
  of a line without words, as in `rmstorage:` with nothing behind it (src/msgqueue.c:119), is answered with 1 and an
  empty word; so is the first one missing before CR or LF. A tab between words is not skipped (`MtpCfg.MissingParam`,
  `MtpCfg.ConfigRoundTrip`).
* All writers refuse an exact fit, so every success bound is strict (`MtpHelpers.WriterLaw`).

## Model

| member | source | states |
|---|---|---|
| `FsHandlesDb.Database.constructor` | src/fs_handles_db.c:230-245 | a new database stands for the empty one: no entries, counter 1, all parts apart from each other |
| `FsHandlesDb.Database.FindEntry` | src/hash_utils.c:142-159 | the bucket loop returns the object of the entry the model's lookup finds, null exactly when it finds none; what it returns is a live entry of that name in that folder, and with agreeing tables null means there is none |
| `HandleModel.FindEntryRefinesScan` | src/hash_utils.c:142-159 | the hash lookup by name is null exactly when a linear scan of the list finds no live match, equals it whenever at most one entry matches, and never finds a newer entry than the scan |
| `FsHandlesDb.Database.GetEntryByHandle` | src/fs_handles_db.c:512-529 | the bucket loop returns the object of the entry the model's lookup by handle among registered storages finds; what it returns is a live holder of the handle, and null means there is none |
| `HandleModel.GetByHandleRefinesScan` | src/fs_handles_db.c:512-547 | for every handle but 0, lookup by handle equals the linear scan for a live match in a registered storage, and agrees with the lookup by handle and storage |
| `FsHandlesDb.Database.GetEntryByHandleAndStorageId` | src/fs_handles_db.c:531-547 | the list walk returns the newest live entry of that handle and storage, null exactly when there is none |
| `FsHandlesDb.Database.GetEntryByWd` | src/fs_handles_db.c:782-798 | from the head, or from a given entry on, the newest live entry with that watch |
| `FsHandlesDb.Database.GetEntryByStorageId` | src/fs_handles_db.c:800-816 | from the head, or from a given entry on, the newest live entry of that storage |
| `FsHandlesDb.ListSearch` | src/fs_handles_db.c:531-547 | walking the links refines the scan over records and ends at the entry behind the find |
| `FsHandlesDb.BucketRefines` | src/hash_utils.c:142-159 | the first hit among a bucket's objects is the object of the first match among its entry numbers |
| `FsHandlesDb.Database.InitSearchHandle` | src/fs_handles_db.c:480-487 | the cursor has every entry ahead of it and remembers parent and storage |
| `FsHandlesDb.Database.GetNextChildHandle` | src/fs_handles_db.c:489-510 | returns the newest live child the cursor has not passed and moves behind it; ends the cursor when there is none; what it returns is live and lies in the folder, and nothing it passes does |
| `HandleCursor.EnumerationIsExact` | src/fs_handles_db.c:480-510 | repeated calls return exactly the children live at the start, each once, in list order, then null, whatever is prepended or already returned and tombstoned in between |
| `HandleCursor.OperationsUndisturbed` | src/fs_handles_db.c:480-510 | an operation on the entries between two calls leaves the enumeration alone exactly when it does not tombstone a child still ahead of the cursor |
| `FsHandlesDb.Database.AllocEntry` | src/fs_handles_db.c:298-345 | a new entry with the next handle enters the list, the pool and both tables, but for a full bucket; the child cursor stays; without a slot or a copy of the name nothing changes, slot and counter included; the new entry is live and unwatched, with the counter's handle, the given folder, and name, kind and size of the file |
| `FsHandlesDb.Database.RollBack` | src/fs_handles_db.c:319-327 | a failed name copy gives back the slot handed out last and steps the counter back in 32-bit arithmetic |
| `FsHandlesDb.Database.AllocRootEntry` | src/fs_handles_db.c:347-387 | a root entry with handle 0; a failed name copy leaves the value alone but loses the slot; the entry is a live directory "/" under handle 0 |
| `FsHandlesDb.Database.AddEntry` | src/fs_handles_db.c:389-408 | a live entry of that name in that folder is returned unchanged, otherwise one is allocated; either way the result is a live entry of that name in that folder |
| `FsHandlesDb.Database.Link` | src/hash_utils.c:130-140 | a spare slot becomes the newest entry of both tables and of the list, the pool unchanged |
| `FsHandlesDb.Database.Discard` | src/fs_handles_db.c:454-463 | the entry stays in list and tables, marked deleted and unwatched, and keeps its size |
| `FsHandlesDb.Database.MeasurePath` | src/fs_handles_db.c:573-596 | the measuring pass terminates with the length of the path below the root |
| `FsHandlesDb.Database.FillPath` | src/fs_handles_db.c:608-635 | the right-to-left pass visits the same ancestors and ends exactly at the root path's length, with the path behind it |
| `FsHandlesDb.Database.BuildFullPath` | src/fs_handles_db.c:549-640 | the buffer handed to realpath is the root path, "/" and the name of every ancestor from the topmost down to the entry, and NUL; null exactly for a null entry |
| `HandlePath.Chain` | src/fs_handles_db.c:567-590 | the ancestor walk terminates, because a parent handle is smaller than its child's |
| `HandlePath.ChainIsAncestry` | src/fs_handles_db.c:581-590 | the walk is the whole line of live, registered ancestors with falling handles, and stops only at an entry without a parent or whose parent has no such holder |
| `HandlePath.ChildPath` | src/fs_handles_db.c:608-639 | the path of an entry is the path of its folder, a slash and its name |
| `HandlePath.PathByParent` | src/fs_handles_db.c:549-640 | a path is the root path of its own storage, the path of the live registered entry it lies in behind that one's root path, a slash and the name; without such an entry it is the root path, a slash and the name |
| `HandlePath.FolderPathStable` | src/fs_handles_db.c:567-640 | the path of a folder does not notice changes to entries with greater handles |
| `FsHandlesDb.Database.RenameObject` | src/mtp_properties.c:564-620 | on success the model's rename, on every failure exit the old state; the file system is asked to rename the entry's path to the same folder and the new name; the new path is the old one with its last name exchanged, and the record changes in its name alone |
| `FsHandlesDb.Database.PathAs` | src/mtp_properties.c:583-597 | the temporary name swap yields the path under the new name and puts everything back |
| `FsHandlesDb.TriedName` | src/mtp_properties.c:583-597 | while the new name is tried out, with the tables still under the old one, the ancestor walk still works and shows the new name in the same folder |
| `FsHandlesDb.Database.Reindex` | src/mtp_properties.c:612-615 | remove, rename, insert moves the object between buckets as the model moves its number |
| `HandleModel.RenameAgrees` | src/mtp_properties.c:612-615 | after a rename each entry is again in the bucket of its current name and of its handle, and buckets hold nothing else |
| `HandleModel.RenameKeepsUniqueExactly` | src/mtp_properties.c:583-618 | uniqueness of (parent, storage, name) among live entries survives a rename exactly when no other live sibling bears the new name |
| `HandleModel.RenameSplitsLookups` | src/mtp_properties.c:583-618 | after a rename the hash lookup and the list scan of the new name differ exactly when an older live sibling bears it |
| `HandleModel.DuplicateLookups` | src/mtp_properties.c:583-618 | of two live siblings of one name the hash lookup finds the one that was not renamed, the list scan the newer one |
| `FsHandlesDb.AppendAgreesExactly` | src/hash_utils.c:107-128 | a new entry keeps index agreement exactly when neither of its buckets has the largest size, so the silent drop is what breaks it |
| `FsHandlesDb.RenameAgreesExactly` | src/hash_utils.c:107-187 | a rename keeps index agreement exactly when both buckets have room once the entry has left them, and is then the model's rename |
| `HandleModel.OccursOnce` | src/hash_utils.c:107-140 | counted with multiplicity, an entry occurs once in its own bucket and in no other |
| `HandleModel.MoveEntry` | src/hash_utils.c:161-187 | taking an entry out of its bucket and putting it into another moves exactly that entry |
| `HandleModel.AddKeepsUnique` | src/fs_handles_db.c:389-408 | adding never makes a second live entry of a name |
| `HandleModel.AllocHolds` | src/fs_handles_db.c:310-311 | allocation keeps index agreement and the handle order exactly while the counter does not wrap and the parent is a known handle |
| `HandleModel.RunHolds` | src/fs_handles_db.c:298-408 | every run of root allocations, additions, renames, tombstones and updates keeps index agreement and handle order and undoes nothing promised before |
| `HandleModel.ReappearingNameGetsNewHandle` | src/fs_handles_db.c:389-408 | a name whose entries are all dead gets a new entry whose handle is above every earlier one |
| `HandleModel.HandleUnique` | src/fs_handles_db.c:310-311 | two entries with the same handle other than 0 are the same entry |
| `FsHandlesDb.Database.ScanAndAddFolder` | src/fs_handles_db.c:410-478 | the directory loop and the cursor loop compute the model's scan, also when the directory cannot be read, and report that; the shared child cursor is taken over and left at its end |
| `FsHandlesDb.Database.SweepNext` | src/fs_handles_db.c:444-472 | one round of the cursor loop decides one child by its path and leaves what the rest of the loop will do unchanged |
| `HandleScan.SweepFate` | src/fs_handles_db.c:445-472 | every child is decided by the folder's own path, whatever the sweep changed before; nothing else changes |
| `HandleScan.SweepDecides` | src/fs_handles_db.c:443-472 | told by full paths: a live entry of the folder that no stat finds is deleted and unwatched, one that is found takes the size, no other entry changes |
| `HandleScan.ScanReconciles` | src/fs_handles_db.c:410-478 | after a scan the live children are exactly the visible names on disk and the known hidden ones still there, with the sizes on disk, survivors keep handles, newcomers get handles not reached before and the kind they have on disk, and all other entries are unchanged, exactly when no stray child has a stat and no root takes a visible name |
| `HandleScan.RootsCastNoShadow` | src/fs_handles_db.c:365-370 | roots named "/" take no name of a directory |
| `HandleEvents.StrayIsReached` | src/inotify.c:161-186 | mounting a storage, watching its root and a creation event whose stat fails are a possible session, and leave exactly that child |
| `HandleEvents.StrayIsNotReconciled` | src/fs_handles_db.c:444-472 | no scan of a root folder with a child of the empty name reconciles it while a stat finds the folder itself |
| `HandleScan.AddAllNew` | src/fs_handles_db.c:421-440 | the directory loop adds only names the folder had no live entry of |
| `HandleScan.DirectoryTaken` | src/fs_handles_db.c:421-440 | the directory loop leaves a live entry in the folder for every name but "." and ".." and, unless asked for, those that begin with a dot; it adds nothing else, and what it adds has the kind the directory says |
| `HandleScan.SecondScanChangesNothing` | src/fs_handles_db.c:410-478 | a second scan of the same directory needs no free handle and is the identity |
| `HandleScan.RoomForAll` | src/fs_handles_db.c:310-311 | room for the whole listing is room for the names that are absent |
| `HandleScan.ScanEvolves` | src/fs_handles_db.c:410-478 | whatever the directory holds, a scan keeps the invariant, handles and tombstones |
| `FsHandlesDb.Database.VisitCreate` | src/inotify.c:161-186 | at one watched folder a creation adds the entry and announces it, unless a live entry of that name is known |
| `FsHandlesDb.Database.EnterFile` | src/inotify.c:164-186 | the file is added and announced exactly when the lookup by name finds none |
| `FsHandlesDb.Database.VisitModify` | src/inotify.c:225-237 | a modification announces the known live entry of that name and changes nothing |
| `FsHandlesDb.Database.VisitDelete` | src/inotify.c:276-295 | a deletion tombstones and announces the known live entry of that name |
| `HandleEvents.VisitExactly` | src/inotify.c:161-291 | told by the entries alone: a creation whose stat finds the file enters it in the visited folder under the next handle with the kind and size of the stat and announces that handle, unless the name is known there; a modification announces and a deletion ends and announces a live entry of that name in that folder whenever there is one; nothing else changes |
| `HandleEvents.LoopExactly` | src/inotify.c:148-317 | the database and the announcements of an event are those of the visits of its folders, one after the other |
| `FsHandlesDb.Database.HandleEvent` | src/inotify.c:148-317 | the loop from watched folder to watched folder behind it computes the model's database and announcements |
| `HandleEvents.LoopVisitsEachOnce` | src/inotify.c:148-317 | an event visits every live folder of its watch exactly once, newest first: always for a creation and a modification, and for a deletion exactly when no lookup at a watched folder finds an older watched folder as the entry to delete |
| `HandleEvents.InterleavedVisitsEachOnce` | src/inotify.c:148-208 | whatever a session does between two rounds of an event, if it leaves the folders still to come alone, the event visits every live folder of its watch exactly once |
| `HandleEvents.OneRootIsEnough` | src/fs_handles_db.c:310-311 | watched live folders differ in handle or storage wherever every storage has at most one live root |
| `HandleEvents.RootsFirstNoHit` | src/inotify.c:262-317 | no deletion finds a folder still to come while in every storage the roots are older than every live entry, and none bears the name |
| `HandleEvents.RootsStayFirst` | src/fs_handles_db.c:347-387 | every operation keeps the roots older, but for allocating the root of a storage that still has live entries |
| `HandleEvents.SessionTrace` | src/inotify.c:148-317 | over every session of single visits, whole events, scans, renames and deletions a handle is announced added at most once and before anything else, and nothing follows its removal |
| `HandleEvents.SessionHolds` | src/inotify.c:148-317 | every session, with the visits of one event apart or together, keeps index agreement and the handle order and undoes nothing promised before |
| `HandleEvents.HandlesArePermanent` | src/fs_handles_db.c:298-345 | after any session, other steps between the visits of an event included, entries keep their handles, later entries have greater ones, and no lookup, cursor or scan finds a handle that was dead before |
| `HashUtils.HashNode.Insert` | src/hash_utils.c:107-128 | appends, doubling a full bucket in place; exactly a bucket of the largest size drops the entry |
| `HashUtils.HashNode.Expand` | src/hash_utils.c:51-70 | twice the capacity, never beyond the largest, and the same contents |
| `HashUtils.HashNode.Remove` | src/hash_utils.c:161-173 | the shifting loop removes exactly the first occurrence |
| `HashUtils.FoundAt` | src/hash_utils.c:163-171 | closing the gap at the first occurrence is the contents without it |
| `HashUtils.HashTable.Insert` | src/hash_utils.c:107-128 | one bucket grows by the entry or, at the largest size, drops it; every other bucket is untouched although its array may have been reallocated |
| `HashUtils.Index.Remove` | src/hash_utils.c:175-187 | the entry leaves the buckets of the name and of the handle it now has |
| `HashUtils.HashFunctionName` | src/hash_utils.c:72-81 | the loop computes the 32-bit djb2 hash of the name |
| `HandleModel.HashGrows` | src/hash_utils.c:72-81 | one more character takes the hash to 33 times itself plus that character, signed, in 32 bits |
| `HashUtils.BucketSearch` | src/hash_utils.c:142-159 | the index loop finds the first entry of the bucket that answers the query |
| `EntryPool.Pool.HandedOut` | src/hash_utils.c:90-105 | handed-out slots are pairwise distinct, they and the free ones make 1024 for each block, and every block but the head is handed out whole |
| `EntryPool.Pool.Take` | src/fs_handles_db.c:302-311 | hands out a slot never handed out before, from a new block when none is free; none exactly when there is no free slot and no block |
| `EntryPool.Pool.PutBack` | src/fs_handles_db.c:319-326 | takes back the slot handed out last |
| `CancelProtocol.StepKeeps` | src/usb_gadget.c:507-573 | every single shared read or write of either thread, and every careful action of a polling host and of the disk, keeps the invariant |
| `CancelProtocol.CancelReachesLoop` | src/mtp_operations/mtp_op_sendobject.c:131-144 | in a disciplined run the flag, once up during a transfer, stays up until the loop tests it, and that test leaves the loop however much data is to come |
| `CancelProtocol.CancelledTransferEnds` | src/mtp_operations/mtp_op_sendobject.c:131-186 | left alone, a cancelled transfer of either kind is over after four steps, whatever data is left: idle device, nothing transferring, flag down, mutex free |
| `CancelProtocol.UncancelledTransferEnds` | src/mtp_operations/mtp_op_sendobject.c:131-186 | with the flag down the loop goes on while there is more, and the transfer ends without touching the flag |
| `CancelProtocol.TransfersBeginClean` | src/usb_gadget.c:507-573 | over every interleaving with such a host, with reads that may fail, every transfer begins with cancel_req = 0 |
| `CancelProtocol.EarlyStartIsUnsafe` | src/mtp_operations/mtp_op_sendobject.c:131-160 | starting while an upload moves data or an earlier start is pending has, from every state the discipline reaches, a continuation with a polling host in which a transfer begins with the flag up |
| `CancelProtocol.CarelessIsUnsafe` | src/usb_gadget.c:507-573 | the same for every action against the discipline: an early start, a Cancel after a failed download, a read failing while the flag is up or being raised |
| `CancelProtocol.PollingAloneFails` | src/usb_gadget.c:507-573 | a run from the start of a session, with a polling host and no failing read, in which a transfer begins with the flag up |
| `CancelProtocol.OkWhileStillUploading` | src/usb_gadget.c:538-573 | a cancelled upload still in its loop is answered busy once and then OK, with the flag up |
| `CancelProtocol.IdleBusyAtMostOnce` | src/usb_gadget.c:538-573 | any idle device answers busy at most once before OK, and with the OK the flag is down exactly when it was down before or `transferring_file_data` is |
| `CancelProtocol.CancelServed` | src/usb_gadget.c:507-526 | a Cancel raises the flag during a transfer and lowers it otherwise |
| `CancelProtocol.StatusServed` | src/usb_gadget.c:538-575 | a poll is answered busy exactly just behind a Cancel that met a transfer, and otherwise OK; it lowers the flag exactly when nothing is transferring |
| `CancelProtocol.ReadFailureLeavesFlagUp` | src/usb_gadget.c:507-573 | after the error exit of a download, which leaves `transferring_file_data` up, a Cancel and two polls end with an OK and the flag up |
| `CancelProtocol.DownloadWaitsForCancel` | src/usb_gadget.c:510-521 | while a Cancel that saw a download holds the mutex, the download does not get past its final check, for which it takes the mutex; it leaves its loop otherwise only by a failing disk read, with transferring_file_data left up |
| `CancelProtocol.SessionBeginsClean` | src/usb_gadget.c:507-573 | the discipline makes every transfer of a whole session begin clean |
| `SendObject.MtpContext.HandleCancel` | src/usb_gadget.c:507-521 | the request is the control thread's run of the step machine, to the state in which it is free, the mutex released and a poll owed; it leaves 2 during a transfer and 0 otherwise |
| `SendObject.MtpContext.HandleGetDeviceStatus` | src/usb_gadget.c:538-573 | the request is the control thread's run of the step machine: same flag, same answer; OK unless the flag is 2, which becomes 1 |
| `SendObject.MtpContext.CommandPhase` | src/mtp_operations/mtp_op_sendobject.c:63-68 | a partial upload stores handle, signed 64-bit offset and size from the packet; the response follows handle and access |
| `SendObject.MtpContext.DataPhase` | src/mtp_operations/mtp_op_sendobject.c:74-163 | the file holds the drained bytes at the start offset, the announced size falls by their number, and a cancellation clears the flag and sends no response; the bytes lie at the announced offset of what the open left of the file, the bytes outside are as before and a gap is zeros |
| `SendObject.MtpContext.TransferLoop` | src/mtp_operations/mtp_op_sendobject.c:131-144 | the read and write loop refines the drain of the arrivals, one read a turn, and stops at a short transfer, an error or a Cancel |
| `SendObject.FramedUploadIsExact` | src/mtp_operations/mtp_op_sendobject.c:106-144 | a framed header and payload are written exactly, with one read per further transfer, unless the upload is partial, fits one short packet and was announced with another length |
| `SendObject.FramedUploadLands` | src/mtp_operations/mtp_op_sendobject.c:104-144 | a framed upload leaves exactly the payload at the announced offset, and the file outside it as it was |
| `SendObject.SplitHeaderUpload` | src/mtp_operations/mtp_op_sendobject.c:121-129 | a header sent alone: the payload behind it arrives exactly when it is empty, or the upload is partial with an announced length other than zero |
| `SendObject.LoopTakesFrame` | src/mtp_operations/mtp_op_sendobject.c:131-144 | the loop takes a framed stream whole and no transfer after it |
| `SendObject.StopsAt` | src/mtp_operations/mtp_op_sendobject.c:131-144 | behind any number of full transfers the loop stops, with all of them written, before the transfer a Cancel precedes, at a failed read, or behind a transfer that is not full |
| `SendObject.CancelledUploadIsPrefix` | src/mtp_operations/mtp_op_sendobject.c:131-160 | whenever Cancels strike, the written bytes are a prefix of the payload |
| `SendObject.OverwriteAppend` | src/mtp_operations/mtp_op_sendobject.c:112-137 | two writes in a row are one write of both chunks, also past the end of the file |
| `UsbString.DecodeEncodeUnit` | src/usbstring.c:162-323 | decoding the encoding of a unit gives the unit and its length, for all three lengths |
| `UsbString.UnitsOfEncode` | src/usbstring.c:162-323 | the units of the UTF-8 of a zero-free unit string are that string |
| `UsbString.CutAtMalformed` | src/usbstring.c:252-323 | a string is cut at its first malformed sequence or zero, and what is before it is decoded in full |
| `UsbString.Utf2Unicode` | src/usbstring.c:268-323 | the byte-wise assembly decodes the head of a string, malformed heads as zero |
| `UsbString.Unicode2CharString` | src/usbstring.c:206-250 | stores the UTF-8 of the longest unit prefix that fits with its terminator, and returns 1 exactly when it cut something |
| `UsbString.FitCountIsLongest` | src/usbstring.c:206-250 | the stored prefix is the longest that fits |
| `UsbString.Char2UnicodeString` | src/usbstring.c:325-363 | writes the wire units of any string exactly when they end below maxsize, and otherwise touches nothing outside the space |
| `UsbString.WireUnitsTerminated` | src/usbstring.c:325-363 | of the 1 to 255 wire units the only zero is the last |
| `MtpHelpers.WriterLaw` | src/mtp_helpers.c:49-243 | any sequence of writer calls is one write of the concatenated encodings: it succeeds exactly when the total ends below maxsize, failures stick, bytes outside are unchanged |
| `MtpHelpers.Poke32` | src/mtp_helpers.c:49-74 | keeps the writer contract with the little-endian word |
| `MtpHelpers.Poke16` | src/mtp_helpers.c:76-99 | keeps the writer contract with the little-endian half word |
| `MtpHelpers.Poke08` | src/mtp_helpers.c:101-116 | keeps the writer contract with one byte |
| `MtpHelpers.Peek` | src/mtp_helpers.c:118-158 | the loop reads the little-endian value of the bytes |
| `MtpHelpers.PokeString` | src/mtp_helpers.c:160-205 | keeps the writer contract with count and units, or a lone zero for the empty string |
| `MtpHelpers.PokeArray` | src/mtp_helpers.c:207-243 | keeps the writer contract with an optional element count and the bytes |
| `MtpHelpers.ArrayRoundTrip` | src/mtp_helpers.c:207-243 | a reader finds the number of whole elements and then the bytes, or the bytes alone |
| `MtpHelpers.NameRoundTrip` | src/mtp_helpers.c:160-205 | 1 to 254 non-zero units whose UTF-8 fits are stored, and written back as count, the same units and one zero unit |
| `MtpHelpers.EncodedAlike` | src/mtp_helpers.c:160-205 | a string is written like one of 1 to 253 units exactly when it has the same units |
| `MtpDatasets.BuildEventDataset` | src/mtp_datasets.c:259-281 | the event container is written whole exactly when it ends below maxsize, with its own length in its first field |
| `MtpDatasets.EventRoundTrip` | src/mtp_datasets.c:259-281 | a reader finds the length, type 4, the code, the session and every parameter at its place |
| `MtpDatasets.BuildObjectInfoDataset` | src/mtp_datasets.c:178-257 | keeps the writer contract with the ObjectInfo encoding and notes the size on disk in the entry, or leaves buffer and entry alone when the stat fails |
| `MtpDatasets.ParseIncomingObjectInfo` | src/mtp.c:339-355 | the extraction from the receive buffer gives the fields and the stored name, NUL-terminated |
| `MtpDatasets.ObjectInfoRoundTrip` | src/mtp_datasets.c:204-250 | parsing a built dataset, whatever follows it, recovers storage, format, saturated size, parent field, association type and stored name |
| `MtpDatasets.ObjectInfoFields` | src/mtp_datasets.c:204-233 | storage, format, size, parent and association type at their places, every other fixed field zero |
| `MtpDatasets.ObjectInfoStrings` | src/mtp_datasets.c:234-250 | behind the fixed fields a reader finds the name, the creation date and the modification date in this order, one zero byte, and nothing more |
| `MtpDatasets.StoredPrefix` | src/mtp.c:347-355 | a name that went through the wire is the encoding of a prefix of at most 254 of its units, and of all of them when they are that few and fit |
| `MtpDatasets.NameRecoveredExactly` | src/mtp.c:347-355 | the name comes back byte for byte exactly when it is the UTF-8 of its own units, has at most 254 of them and at most 256 bytes |
| `MtpProperties.FindType` | src/mtp_properties.c:217-276 | the table walk gives the first row's type of a code, or none |
| `MtpProperties.TypesOnWire` | src/mtp_properties.c:217-276 | the wire type of every property code |
| `MtpProperties.ObjectPropListElement` | src/mtp_properties.c:767-833 | appends the record of a selected property and counts it, and nothing for any other |
| `MtpProperties.BuildObjectPropListDataset` | src/mtp_properties.c:835-925 | a successful list is its count followed by exactly the selected records in order; the entry takes the size on disk when the stat succeeds |
| `MtpProperties.OfferedProps` | src/mtp_properties.c:871-916 | the twelve codes on offer in their order, with the dates and the identifier each in its own place |
| `MtpProperties.ListedExactly` | src/mtp_properties.c:767-833 | a record is in the list exactly when it is that of an offered property that the filter names, or any, and that has a type |
| `MtpProperties.PropListRoundTrip` | src/mtp_properties.c:767-925 | the leading count is the number of records, and parsing that many gives back exactly the selected properties and ends where the list ends |
| `MtpProperties.RecordsRoundTrip` | src/mtp_properties.c:767-833 | self-delimiting records parse back to themselves |
| `MtpProperties.BuildObjectPropValueDataset` | src/mtp_properties.c:636-724 | keeps the writer contract with the value of one property, and writes nothing for an unsupported one |
| `MtpProperties.PropValueNumbers` | src/mtp_properties.c:636-724 | every narrow number reads back: storage, format, parent and kind of the entry, and zero for hidden, system, protection and description |
| `MtpProperties.PropValueSize` | src/mtp_properties.c:658-662 | the size reads back in 64 bits |
| `MtpProperties.PropValueUid` | src/mtp_properties.c:709-714 | the identifier reads back as handle, parent, storage and zero |
| `MtpProperties.PropValueStrings` | src/mtp_properties.c:636-724 | names, dates and the empty display name read back as strings; the codes without a value are all others |
| `MtpProperties.ListAgreesWithValue` | src/mtp_properties.c:636-925 | each listed value has the bytes of the single-value dataset; a date exactly when its units are those of the constant date, so a plain string exactly when it is that date; PERSISTENT_UID exactly when parent, storage and zero follow the handle |
| `MtpCfg.GetNextWord` | src/mtp_cfg.c:125-133 | skips blanks, not tabs, up to the next word or the end |
| `MtpCfg.CopyParam` | src/mtp_cfg.c:135-165 | copies the word with its quotes dropped and ends where it ends, at a blank outside quotes, the end of line or a full buffer |
| `MtpCfg.GetParamOffset` | src/mtp_cfg.c:167-185 | the offset of a parameter, -1 exactly when the walk meets NUL or a comment first |
| `MtpCfg.GetParam` | src/mtp_cfg.c:187-201 | stores the parameter NUL-terminated and returns 1, or leaves the buffer alone and returns -1 |
| `MtpCfg.ConfigRoundTrip` | src/mtp_cfg.c:125-201 | words written bare or in quotes come back by number, quoted ones with inner blanks and tabs, up to 511 characters, whether NUL, a comment, CR or LF ends the line; beyond the last the answer is none before NUL or a comment unless it is parameter 0, and otherwise an empty word |
| `MtpCfg.MissingParam` | src/mtp_cfg.c:180-181 | beyond the last word the walk gives up exactly when the number is not 0 and the line ends in NUL or a comment |
| `MtpCfg.TestFlag` | src/mtp_cfg.c:229-268 | finds the first place where the flag stands as an item, with its value if it has one, which runs up to a comma, a blank or 511 characters |
| `MtpCfg.FlagIsAnItem` | src/mtp_cfg.c:229-268 | the scan succeeds exactly when the flag is one of the comma-separated items, alone or with a value |
| `MtpCfg.ValueIs` | src/mtp_cfg.c:250-262 | the value is the longest text without comma and blank that fits |
| `FsHandlesDb.Database.TakeSlot` | src/fs_handles_db.c:302-310 | a spare slot belongs to no entry and no table; none exactly when the pool is empty and cannot grow |
| `FsHandlesDb.Database.GiveBack` | src/fs_handles_db.c:319-326 | the slot handed out last goes back and every entry keeps its own |
| `FsHandlesDb.Database.Enlist` | src/hash_utils.c:130-140 | both tables hold the new object where the model puts its number; the list is untouched |
| `FsHandlesDb.Database.Prepend` | src/fs_handles_db.c:337-342 | the slot becomes the head of the list and shows the last record |
| `FsHandlesDb.Database.Update` | src/fs_handles_db.c:454-467 | flags, size and watch of one record change; list and tables stay as they are |
| `FsHandlesDb.Database.ParentOf` | src/fs_handles_db.c:581-588 | the step both passes take leads to the live, registered holder of the parent handle, or nowhere |
| `FsHandlesDb.Database.PathOf` | src/fs_handles_db.c:449-449 | with the root of the entry's own storage the buffer holds its full path; it begins with the root path of the storage |
| `FsHandlesDb.Database.SwapName` | src/mtp_properties.c:583-597 | the list shows the name that is tried out while the tables keep the old one |
| `FsHandlesDb.Database.ReplaceInIndex` | src/mtp_properties.c:612-615 | the object leaves the bucket of its old name and enters that of the new one |
| `FsHandlesDb.BucketBound` | src/hash_utils.c:51-70 | a bucket without repetitions is no longer than the list, so it has room below the largest capacity |
| `FsHandlesDb.Database.ScanName` | src/fs_handles_db.c:432-436 | one name of the directory leaves what the rest of the listing will add unchanged |
| `FsHandlesDb.Database.ScanDirectory` | src/fs_handles_db.c:421-440 | the directory loop adds exactly the visible names of the listing |
| `FsHandlesDb.Database.SweepChild` | src/fs_handles_db.c:449-470 | a child whose path has no stat is tombstoned, any other takes the size on disk |
| `FsHandlesDb.Database.SweepFolder` | src/fs_handles_db.c:443-472 | the cursor loop terminates with the model's sweep, and leaves the child cursor where the next call returns null |
| `FsHandlesDb.Database.EventRound` | src/inotify.c:151-208 | one round visits the next watched folder, and what the rest of the loop will announce is unchanged |
| `HandleModel.PutNew` | src/hash_utils.c:107-128 | a new entry in the bucket of its key keeps the table right |
| `HandleModel.ApplyHolds` | src/fs_handles_db.c:298-408 | every single operation keeps index agreement and handle order |
| `HandleModel.OperationExactly` | src/fs_handles_db.c:298-408 | after each operation of a session every entry, field by field, and the counter |
| `HandleModel.AllBelowHolds` | src/fs_handles_db.c:489-510 | the matches below an entry are listed newest first, each once, and nothing else is |
| `HandlePath.UpDecreases` | src/fs_handles_db.c:581-590 | the walk goes to a smaller handle |
| `HandlePath.ClimbStable` | src/fs_handles_db.c:567-590 | an ancestor walk does not notice changes to entries with greater handles |
| `HandleScan.AddAllHolds` | src/fs_handles_db.c:421-440 | after the directory loop every visible name of the listing has a live entry, and whatever is new is a visible name of the listing under a fresh handle |
| `HandleScan.AddAllKeepsUnique` | src/fs_handles_db.c:421-440 | the directory loop makes no second live entry of a name |
| `HandleScan.FirstScan` | src/fs_handles_db.c:410-478 | the first scan of a root folder in an empty database, with one file and more below it, meets everything reconciliation asks for, and shows the file exactly when its name is visible |
| `HandleEvents.VisitKeepsTrace` | src/inotify.c:161-186 | one visit keeps the announcements right with respect to the database |
| `HandleEvents.LoopKeepsTrace` | src/inotify.c:148-317 | one event keeps the announcements right |
| `HashUtils.HashNode.Close` | src/hash_utils.c:165-169 | the entries behind the gap move one place forward |
| `HashUtils.HashTable.Remove` | src/hash_utils.c:161-173 | one bucket loses its first occurrence of the entry, every other bucket is untouched |
| `HashUtils.Index.Insert` | src/hash_utils.c:130-140 | the entry enters the bucket of its handle and the bucket of its name, each unless it is full |
| `EntryPool.Pool.AllocateBlock` | src/hash_utils.c:90-105 | a new block adds 1024 slots distinct from all others and hands out none |
| `SendObject.MtpContext.Receive` | src/mtp_operations/mtp_op_sendobject.c:106-144 | the first packet and the loop together write what the model of the upload writes |
| `SendObject.WrittenIsPrefix` | src/mtp_operations/mtp_op_sendobject.c:131-144 | whenever Cancels or read errors strike, the loop writes a prefix of what the transfers carry |
| `UsbString.PushUnits` | src/usbstring.c:325-363 | the conversion loop writes at most 255 units and stops without one when the space ends |
| `UsbString.EncodeHasNoZero` | src/usbstring.c:162-204 | the UTF-8 of a zero-free unit string has no zero byte |
| `MtpHelpers.WroteCompose` | src/mtp_helpers.c:49-243 | two writes in a row are one write of both encodings |
| `MtpDatasets.ReadName` | src/mtp.c:345-352 | the zeroed unit buffer, the copy loop and the conversion store the name up to its first zero unit |
| `MtpDatasets.ReadUnits` | src/mtp.c:345-350 | the copy loop reads the announced number of units behind the count byte |
| `MtpProperties.PokeElements` | src/mtp_properties.c:871-916 | the element calls append exactly the selected records and count them |
| `MtpProperties.UidAgreement` | src/mtp_properties.c:819-822 | the counter added to the value gives the identifier of the single-value builder exactly when the words are consecutive |
| `MtpProperties.PokeUid` | src/mtp_properties.c:709-714 | keeps the writer contract with handle, parent, storage and zero |
| `MtpCfg.RenderedParam` | src/mtp_cfg.c:135-185 | word k of a rendered line is found and read back |
| `MtpCfg.InsideQuotes` | src/mtp_cfg.c:141-159 | inside quotes a word is copied, blanks and tabs included, as far as it fits |
| `MtpCfg.BareWord` | src/mtp_cfg.c:141-159 | a bare word is copied, as far as it fits, up to the blank, tab or end of line that stops it |
| `MtpCfg.FirstItem` | src/mtp_cfg.c:229-268 | the first item runs to the first comma, and the others are those of what follows it |

## Left out

- `realpath`, symbolic links, the fallback for a path that does not exist yet, the storage prefix check and
  `sanitize_name`: whether a path resolves, and whether a name is accepted, are parameters of the operations.
- Directory reading, `stat`, `open`, `rename`, `fsync`, user switching: a directory is a listing, files are a map from
  path to size, writes are complete. A scan needs the stat of every path in the folder to answer as that map does.
- FsHandlesDb.Database.ScanAndAddFolder: allocation succeeds during a scan and an event, the list has no more than
  0x10000000 entries while absent names are added, and every full path of a child resolves; the source skips a child
  whose path does not resolve.
- FsHandlesDb.Database.SweepChild: the same.
- FsHandlesDb.Database.PathOf: the path as it is handed to the kernel; of an entry without a storage root the source
  returns that path itself.
- A failed allocation of a bucket array, which drops the index entry as a full bucket does.
- FsHandlesDb.Database.RenameObject: the access check and the reading of the new name from the packet are parameters.
- FsHandlesDb.Database.BuildFullPath: allocation of the buffer succeeds; every entry has a name.
- FsHandlesDb.Database.VisitCreate: the path of the watched folder resolves; names are C strings without a slash; a
  failed stat is modelled as the source has it, with an empty name, size 0 and the directory flag left over.
- FsHandlesDb.Database.VisitModify: the path of the watched folder resolves; the source skips a folder whose path does
  not.
- FsHandlesDb.Database.VisitDelete: the same.
- FsHandlesDb.Database.HandleEvent: runs its rounds without another thread in between. The three loops of the thread are
  one loop that calls the visit of its kind.
- FsHandlesDb.ListSearch: the list lookups of the source are four loops that differ in their test; here they share one.
- The inotify mutex is not modelled: every visit of a folder is one atomic step, which is what the lock makes it, and
  other steps may come between two visits.
- The storage table is a map from storage to root path; `hash_function_name` is modelled with signed `char`.
- Deleting a tree, mounting and unmounting storages, GetObject and moving objects are operations not modelled beyond
  the tombstones, root allocations and transfer steps they are made of.
- File descriptors and `entry_open`, `entry_read` and `entry_close` of the database entries, apart from the open state of
  an upload's file.
- CancelProtocol.TransfersBeginClean: suspend and disable events, which also set `cancel_req`, and a failed lock of the
  cancel mutex are not part of the model.
- SendObject.MtpContext.DataPhase: the announced size is an unbounded integer where the source has a signed 64-bit one,
  which no upload can drive out of its range. The two host phases are separate methods, and the lookup of the handle
  is done by their caller.
- SendObject.MtpContext.HandleCancel: served while the I/O thread takes no step; the step machine has the interleavings.
- MtpDatasets.ParseIncomingObjectInfo: the branch that creates folders and what follows the extraction.
- MtpCfg.ConfigRoundTrip: the words in front of the one that is read have fewer than 511 characters; what the reader
  leaves of a longer one counts as the next word. Quotes that begin or end inside a word are not rendered.
- MtpProperties.FindType: the property table keeps the first row of each code; later rows repeat codes for formats.
- MtpProperties.BuildObjectPropListDataset: the element calls, written out one by one in the source, are a loop over
  their arguments; date strings are parameters.
- MtpProperties.BuildObjectPropValueDataset: the entry was found; an unknown handle is the caller's case.
- MtpHelpers.PokeArray: an element size of zero, which the source's division does not survive, is excluded.
- UsbString.Char2UnicodeString: the limit on the units is the constant 255 that its only caller passes.
- `utf8_to_utf16le` and the USB string descriptors: the continuation test of that decoder accepts other bytes than its
  comment says, so no round trip holds beyond ASCII.
- USB descriptors, endpoint setup, threads and signals, logging, code-to-string tables, device properties, keyword
  dispatch of the configuration file: plumbing, or facts of a single branch.
