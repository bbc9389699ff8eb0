/** The block pool the database entries live in (src/hash_utils.c, allocate_pool_block, and the hand-out
    and rollback in src/fs_handles_db.c). */
module EntryPool {
  import opened HashUtils

  /** A block: an array of entries that stay where they are. */
  class PoolBlock {
    const entries: seq<FsEntry>
    const next: PoolBlock?

    /** A block of distinct new entries, in front of the earlier blocks. */
    constructor (next: PoolBlock?)
      ensures this.next == next && |entries| == POOL_BLOCK_SIZE
      ensures forall i :: 0 <= i < POOL_BLOCK_SIZE ==> fresh(entries[i])
      ensures forall i, j :: 0 <= i < j < POOL_BLOCK_SIZE ==> entries[i] != entries[j]
    {
      var es: seq<FsEntry> := [];
      while |es| < POOL_BLOCK_SIZE
        invariant |es| <= POOL_BLOCK_SIZE && forall j :: 0 <= j < |es| ==> fresh(es[j])
        invariant forall j, k :: 0 <= j < k < |es| ==> es[j] != es[k]
      {
        var e := new FsEntry();
        es := es + [e];
      }
      entries, this.next := es, next;
    }
  }

  class Pool {
    var head: PoolBlock?
    var free: nat
    // every slot of every block, in the order they are handed out, and the number of blocks
    ghost var slots: seq<FsEntry>
    ghost var blocks: nat
    ghost var Repr: set<object>

    ghost predicate Valid()
      reads this
    {
      && this in Repr && (forall i :: 0 <= i < |slots| ==> slots[i] in Repr)
      && |slots| == POOL_BLOCK_SIZE * blocks
      && (forall i, j :: 0 <= i < j < |slots| ==> slots[i] != slots[j])
      && (head == null ==> blocks == 0 && free == 0)
      && (head != null ==> blocks > 0 && free <= POOL_BLOCK_SIZE == |head.entries|)
      && (head != null ==> forall i :: 0 <= i < POOL_BLOCK_SIZE ==> head.entries[i] == slots[|slots| - 1 - i])
    }

    /** The slots handed out so far. What is free lies in the head block, so every other block is
        handed out whole. */
    ghost function HandedOut(): (h: seq<FsEntry>)
      reads this
      ensures Valid() ==> |h| + free == POOL_BLOCK_SIZE * blocks
      ensures Valid() && blocks > 0 ==> |h| >= POOL_BLOCK_SIZE * (blocks - 1)
      ensures Valid() ==> forall i, j :: 0 <= i < j < |h| ==> h[i] != h[j]
    {
      if free <= |slots| then slots[..|slots| - free] else []
    }

    constructor ()
      ensures Valid() && HandedOut() == [] && blocks == 0 && fresh(Repr)
    {
      head, free := null, 0;
      slots, blocks := [], 0;
      Repr := {this};
    }

    method AllocateBlock(ok: bool) returns (r: bool)
      requires Valid() && free == 0
      modifies this
      ensures Valid() && r == ok && HandedOut() == old(HandedOut())
      ensures ok ==> free == POOL_BLOCK_SIZE && blocks == old(blocks) + 1
      ensures ok ==> |slots| == |old(slots)| + POOL_BLOCK_SIZE && slots[..|old(slots)|] == old(slots)
      ensures fresh(Repr - old(Repr)) && old(Repr) <= Repr
      ensures !ok ==> free == 0 && slots == old(slots) && blocks == old(blocks)
    {
      if !ok {
        return false;
      }
      var block := new PoolBlock(head);
      ghost var n := |slots|;
      head := block;
      free := free + POOL_BLOCK_SIZE;
      blocks := blocks + 1;
      slots := slots + seq(POOL_BLOCK_SIZE, i requires 0 <= i < POOL_BLOCK_SIZE => block.entries[POOL_BLOCK_SIZE - 1 - i]);
      Repr := Repr + set e | e in block.entries;
      assert forall i :: n <= i < |slots| ==> slots[i] == block.entries[POOL_BLOCK_SIZE - 1 - (i - n)];
      return true;
    }

    /** A slot that was never handed out; none when the pool is empty and cannot grow. */
    method Take(blockOk: bool) returns (e: FsEntry?)
      requires Valid()
      modifies this
      ensures Valid()
      ensures e == null <==> old(free) == 0 && !blockOk
      ensures e == null ==> HandedOut() == old(HandedOut()) && blocks == old(blocks)
      ensures e != null ==> HandedOut() == old(HandedOut()) + [e] && e !in old(HandedOut())
      ensures e != null ==> e in Repr && free < POOL_BLOCK_SIZE
      ensures fresh(Repr - old(Repr)) && old(Repr) <= Repr
    {
      if free == 0 {
        var ok := AllocateBlock(blockOk);
        if !ok {
          return null;
        }
      }
      free := free - 1;
      e := head.entries[free];
      assert e == slots[|slots| - 1 - free] && slots[..|slots| - free] == slots[..|slots| - 1 - free] + [e];
    }

    /** Takes back the slot handed out last. */
    method PutBack(ghost e: FsEntry)
      requires Valid() && HandedOut() != [] && e == HandedOut()[|HandedOut()| - 1] && free < POOL_BLOCK_SIZE
      modifies this`free
      ensures Valid() && HandedOut() == old(HandedOut())[..|old(HandedOut())| - 1]
      ensures blocks == old(blocks)
    {
      free := free + 1;
    }
  }
}
