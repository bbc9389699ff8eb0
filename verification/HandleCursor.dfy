/** The child cursor kept in the database (src/fs_handles_db.c, init_search_handle and
    get_next_child_handle), and what may happen to the list between its calls. */
module HandleCursor {
  import opened Bytes
  import opened HandleModel
  import opened Options

  /** What the list may go through between two calls: it may grow at its head, and entries the cursor
      has not reached keep matching or not matching. */
  ghost predicate Undisturbed(recs: seq<Rec>, recs': seq<Rec>, q: Query, below: nat) {
    && below <= |recs| <= |recs'|
    && forall k :: 0 <= k < below ==> (Matches(recs[k], q) <==> Matches(recs'[k], q))
  }

  /** The calls of one enumeration: call i finds results[i] in states[i], the last call finds nothing. */
  ghost predicate Enumerates(states: seq<seq<Rec>>, results: seq<nat>, q: Query, below: nat)
    decreases |results|
  {
    && |states| == |results| + 1 && below <= |states[0]|
    && if results == [] then ListScan(states[0], q, below) == None
       else
         && ListScan(states[0], q, below) == Some(results[0])
         && Undisturbed(states[0], states[1], q, results[0])
         && Enumerates(states[1..], results[1..], q, results[0])
  }

  lemma {:induction false} AllBelowSame(recs: seq<Rec>, recs': seq<Rec>, q: Query, below: nat)
    requires Undisturbed(recs, recs', q, below)
    ensures AllBelow(recs', q, below) == AllBelow(recs, q, below)
  {
    if below > 0 {
      AllBelowSame(recs, recs', q, below - 1);
    }
  }

  /** The newest match is the first of all matches; below it come the others. */
  lemma {:induction false} NewestIsFirst(recs: seq<Rec>, q: Query, below: nat)
    requires below <= |recs|
    ensures var s := ListScan(recs, q, below);
            AllBelow(recs, q, below) == if s.None? then [] else [s.value] + AllBelow(recs, q, s.value)
  {
    if below == 0 {
      assert ListScan(recs, q, 0) == None;
    } else if Matches(recs[below - 1], q) {
      assert ListScan(recs, q, below) == Some(below - 1);
    } else {
      NewestIsFirst(recs, q, below - 1);
      assert ListScan(recs, q, below) == ListScan(recs, q, below - 1);
    }
  }

  /** An enumeration returns every entry that matched when it began, once, in list order, and then
      nothing; prepended entries are not returned. */
  lemma {:induction false} EnumerationIsExact(states: seq<seq<Rec>>, results: seq<nat>, q: Query, below: nat)
    requires Enumerates(states, results, q, below)
    ensures results == AllBelow(states[0], q, below)
    decreases |results|
  {
    NewestIsFirst(states[0], q, below);
    if results != [] {
      EnumerationIsExact(states[1..], results[1..], q, results[0]);
      AllBelowSame(states[0], states[1], q, results[0]);
    }
  }

  /** An operation changes whether an entry is a live child only by tombstoning it. */
  lemma OperationAt(db: Db, op: Op, k: nat, parent: u32, storage: u32)
    requires WellSized(db) && Allowed(db, op) && k < |db.recs|
    ensures |db.recs| <= |Apply(db, op).recs|
    ensures var q := ChildOf(parent, storage);
            (Matches(db.recs[k], q) <==> Matches(Apply(db, op).recs[k], q))
            <==> !(op.DoTombstone? && op.k == k && Matches(db.recs[k], q))
  {
  }

  /** An operation on the entries between two calls leaves the enumeration of children alone, unless it
      tombstones one the cursor has yet to reach. A folder scan is more than its operations here: it
      takes the cursor over and leaves it at the end. */
  lemma OperationsUndisturbed(db: Db, op: Op, parent: u32, storage: u32, below: nat)
    requires Inv(db) && Allowed(db, op) && below <= |db.recs|
    ensures Undisturbed(db.recs, Apply(db, op).recs, ChildOf(parent, storage), below)
       <==> !(op.DoTombstone? && op.k < below && Matches(db.recs[op.k], ChildOf(parent, storage)))
  {
    var q, recs' := ChildOf(parent, storage), Apply(db, op).recs;
    forall k | 0 <= k < |db.recs|
      ensures |db.recs| <= |recs'|
      ensures (Matches(db.recs[k], q) <==> Matches(recs'[k], q))
              <==> !(op.DoTombstone? && op.k == k && Matches(db.recs[k], q))
    {
      OperationAt(db, op, k, parent, storage);
    }
  }
}
