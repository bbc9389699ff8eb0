/** The database entries, buckets of them that grow and shift in place, and the hash tables made of
    those (src/hash_utils.c). */
module HashUtils {
  import opened Bytes
  import opened HandleModel
  import opened Options

  const INITIAL_NODE_CAPACITY: nat := 4
  const NODE_GROWTH_FACTOR: nat := 2
  const MAX_NODE_CAPACITY: nat := 0x1000_0000   // 0x80000000 bytes of 8-byte pointers
  const POOL_BLOCK_SIZE: nat := 1024

  /** A capacity that doubling takes to the largest one, and not beyond. */
  ghost predicate DoublesToMax(c: nat)
    decreases if c < MAX_NODE_CAPACITY then MAX_NODE_CAPACITY - c else 0
  {
    if c < MAX_NODE_CAPACITY then 0 < c && DoublesToMax(NODE_GROWTH_FACTOR * c) else c == MAX_NODE_CAPACITY
  }

  lemma InitialCapacityDoubles()
    ensures DoublesToMax(INITIAL_NODE_CAPACITY)
  {
    assert DoublesToMax(0x1000_0000) && DoublesToMax(0x800_0000) && DoublesToMax(0x400_0000) && DoublesToMax(0x200_0000);
    assert DoublesToMax(0x100_0000) && DoublesToMax(0x80_0000) && DoublesToMax(0x40_0000) && DoublesToMax(0x20_0000);
    assert DoublesToMax(0x10_0000) && DoublesToMax(0x8_0000) && DoublesToMax(0x4_0000) && DoublesToMax(0x2_0000);
    assert DoublesToMax(0x1_0000) && DoublesToMax(0x8000) && DoublesToMax(0x4000) && DoublesToMax(0x2000);
    assert DoublesToMax(0x1000) && DoublesToMax(0x800) && DoublesToMax(0x400) && DoublesToMax(0x200);
    assert DoublesToMax(0x100) && DoublesToMax(0x80) && DoublesToMax(0x40) && DoublesToMax(0x20);
    assert DoublesToMax(0x10) && DoublesToMax(0x8);
  }

  class FsEntry {
    var handle: u32
    var parent: u32
    var storage: u32
    var name: Name
    var isDir: bool
    var deleted: bool
    var size: int
    var wd: int
    var next: FsEntry?

    constructor ()
    {
      handle, parent, storage, name, isDir, deleted, size, wd, next := 0, 0, 0, [], false, false, 0, 0, null;
    }
  }

  /** What an entry holds, as a value. */
  function View(e: FsEntry): Rec
    reads e
  {
    Rec(e.handle, e.parent, e.storage, e.name, e.isDir, e.deleted, e.size, e.wd)
  }

  class HashNode {
    var entries: array?<FsEntry?>
    var size: nat
    var capacity: nat

    ghost predicate Valid()
      reads this, entries
    {
      if entries == null then size == 0 && capacity == 0
      else capacity == entries.Length && DoublesToMax(capacity) && size <= capacity && forall i :: 0 <= i < size ==> entries[i] != null
    }

    /** The entries in bucket order. */
    ghost function Contents(): seq<FsEntry?>
      requires Valid()
      reads this, entries
    {
      if entries == null then [] else entries[..size]
    }

    constructor ()
      ensures Valid() && Contents() == [] && entries == null
    {
      entries, size, capacity := null, 0, 0;
    }

    /** Appends the entry, growing the bucket when it is full; a bucket of the largest size drops it. */
    method Insert(e: FsEntry)
      requires Valid()
      modifies this, entries
      ensures Valid() && (entries == old(entries) || fresh(entries))
      ensures Contents() == if old(size) < MAX_NODE_CAPACITY then old(Contents()) + [e] else old(Contents())
    {
      InitialCapacityDoubles();
      if entries == null || capacity == 0 {
        entries := new FsEntry?[INITIAL_NODE_CAPACITY](_ => null);
        capacity, size := INITIAL_NODE_CAPACITY, 0;
      }
      if size >= capacity {
        if capacity >= MAX_NODE_CAPACITY {
          return;
        }
        Expand();
      }
      entries[size] := e;
      size := size + 1;
    }

    /** Reallocation to twice the capacity. */
    method Expand()
      requires Valid() && entries != null && capacity < MAX_NODE_CAPACITY
      modifies this`entries, this`capacity
      ensures Valid() && entries != null && fresh(entries)
      ensures capacity == NODE_GROWTH_FACTOR * old(capacity) && Contents() == old(Contents())
    {
      var bigger := new FsEntry?[NODE_GROWTH_FACTOR * capacity](_ => null);
      forall i | 0 <= i < size {
        bigger[i] := entries[i];
      }
      entries := bigger;
      capacity := NODE_GROWTH_FACTOR * capacity;
    }

    /** Removes the first occurrence and moves the later entries forward. */
    method Remove(e: FsEntry)
      requires Valid()
      modifies this`size, entries
      ensures Valid() && Contents() == Without(old(Contents()), e)
    {
      ghost var before := Contents();
      var i := 0;
      while i < size
        invariant 0 <= i <= size && Valid() && Contents() == before && size == old(size)
        invariant forall k :: 0 <= k < i ==> before[k] != e
      {
        if entries[i] == e {
          Close(i);
          FoundAt(before, e, i);
          return;
        }
        i := i + 1;
      }
      NotFound(before, e);
    }

    /** Shifts everything behind position i one place forward. */
    method Close(i: nat)
      requires Valid() && i < size
      modifies this`size, entries
      ensures Valid() && Contents() == old(Contents())[..i] + old(Contents())[i + 1..]
    {
      var j := i;
      while j < size - 1
        invariant i <= j < size == old(size) && entries == old(entries)
        invariant forall k :: 0 <= k < entries.Length ==>
          entries[k] == if i <= k < j then old(entries[k + 1]) else old(entries[k])
      {
        entries[j] := entries[j + 1];
        j := j + 1;
      }
      size := size - 1;
    }
  }

  lemma {:induction false} FoundAt<T>(s: seq<T>, x: T, i: nat)
    requires i < |s| && s[i] == x && forall k :: 0 <= k < i ==> s[k] != x
    ensures Without(s, x) == s[..i] + s[i + 1..]
  {
    if i > 0 {
      FoundAt(s[1..], x, i - 1);
      assert s[..i] == [s[0]] + s[1..][..i - 1];
    }
  }

  lemma {:induction false} NotFound<T>(s: seq<T>, x: T)
    requires forall k :: 0 <= k < |s| ==> s[k] != x
    ensures Without(s, x) == s
  {
    if s != [] {
      NotFound(s[1..], x);
    }
  }

  class HashTable {
    const nodes: array<HashNode>
    ghost var buckets: seq<seq<FsEntry?>>
    ghost var Repr: set<object>

    ghost predicate Valid()
      reads this, Repr
    {
      && this in Repr && nodes in Repr && nodes.Length == HASH_TABLE_SIZE == |buckets|
      && (forall b :: 0 <= b < nodes.Length ==> nodes[b] in Repr)
      && (forall b :: 0 <= b < nodes.Length ==> NodeAt(b))
      && (forall b, c :: 0 <= b < nodes.Length && 0 <= c < nodes.Length && b != c ==> Apart(nodes[b], nodes[c]))
    }

    /** Different buckets share nothing. */
    ghost predicate Apart(m: HashNode, n: HashNode)
      reads m, n
    {
      m != n && (m.entries != null ==> m.entries != n.entries)
    }

    ghost predicate NodeAt(b: nat)
      requires nodes in Repr && b < nodes.Length && b < |buckets|
      reads this, Repr
    {
      var n := nodes[b];
      && n in Repr && (n.entries != null ==> n.entries in Repr)
      && n.Valid() && n.Contents() == buckets[b]
    }

    constructor ()
      ensures Valid() && fresh(Repr) && buckets == seq(HASH_TABLE_SIZE, _ => [])
    {
      var first := new HashNode();
      nodes := new HashNode[HASH_TABLE_SIZE](_ => first);
      new;
      Repr := {this, nodes, first};
      var b := 0;
      while b < HASH_TABLE_SIZE
        invariant 0 <= b <= HASH_TABLE_SIZE && nodes.Length == HASH_TABLE_SIZE
        invariant this in Repr && nodes in Repr && fresh(Repr)
        invariant forall c :: 0 <= c < b ==> nodes[c] in Repr && nodes[c].Valid() && nodes[c].entries == null
        invariant forall c, d :: 0 <= c < d < b ==> nodes[c] != nodes[d]
      {
        var n := new HashNode();
        nodes[b] := n;
        Repr := Repr + {n};
        b := b + 1;
      }
      buckets := seq(HASH_TABLE_SIZE, _ => []);
    }

    method Insert(b: nat, e: FsEntry)
      requires Valid() && b < HASH_TABLE_SIZE
      modifies Repr
      ensures Valid() && fresh(Repr - old(Repr)) && old(Repr) <= Repr
      ensures buckets == Enlisted(old(buckets), b, e)
    {
      var n := nodes[b];
      assert NodeAt(b);
      assert forall c :: 0 <= c < nodes.Length && c != b ==> Apart(nodes[c], n) && NodeAt(c);
      n.Insert(e);
      if n.entries != null {
        Repr := Repr + {n.entries};
      }
      buckets := Enlisted(buckets, b, e);
      forall c | 0 <= c < nodes.Length && c != b
        ensures NodeAt(c) && Apart(nodes[c], n) && Apart(n, nodes[c])
      {
        assert old(Apart(nodes[c], n)) && old(NodeAt(c)) && nodes[c].entries == old(nodes[c].entries);
      }
    }

    method Remove(b: nat, e: FsEntry)
      requires Valid() && b < HASH_TABLE_SIZE
      modifies Repr
      ensures Valid() && Repr == old(Repr)
      ensures buckets == old(buckets)[b := Without(old(buckets)[b], e)]
    {
      var n := nodes[b];
      assert NodeAt(b);
      n.Remove(e);
      buckets := buckets[b := Without(buckets[b], e)];
      forall c | 0 <= c < nodes.Length && c != b
        ensures NodeAt(c) && Apart(nodes[c], n) && Apart(n, nodes[c])
      {
        assert old(Apart(nodes[c], n)) && old(NodeAt(c)) && nodes[c].entries == old(nodes[c].entries);
      }
    }

    method Size(b: nat) returns (n: nat)
      requires Valid() && b < HASH_TABLE_SIZE
      ensures n == |buckets[b]|
    {
      assert NodeAt(b);
      n := nodes[b].size;
    }

    method Get(b: nat, i: nat) returns (e: FsEntry)
      requires Valid() && b < HASH_TABLE_SIZE && i < |buckets[b]|
      ensures e == buckets[b][i]
    {
      assert NodeAt(b);
      e := nodes[b].entries[i];
    }
  }

  /** The first entry of a bucket that answers a query. */
  ghost function FirstHit(es: seq<FsEntry?>, q: Query): FsEntry?
    reads es
  {
    if es == [] then null
    else if es[0] != null && Matches(View(es[0]), q) then es[0]
    else FirstHit(es[1..], q)
  }

  /** The loop over one bucket. */
  method BucketSearch(t: HashTable, b: nat, q: Query) returns (e: FsEntry?)
    requires t.Valid() && b < HASH_TABLE_SIZE
    ensures e == FirstHit(t.buckets[b], q)
  {
    ghost var es := t.buckets[b];
    var n := t.Size(b);
    var i := 0;
    assert es[0..] == es;
    while i < n
      invariant 0 <= i <= n == |es| && FirstHit(es[i..], q) == FirstHit(es, q)
    {
      var x := t.Get(b, i);
      assert es[i..][0] == x && es[i..][1..] == es[i + 1..];
      if Matches(View(x), q) {
        return x;
      }
      i := i + 1;
    }
    return null;
  }

  /** The djb2 loop. */
  method HashFunctionName(name: Name) returns (hash: nat)
    ensures hash == HashName(name)
  {
    var h: u32 := 5381;
    var i := 0;
    while i < |name|
      invariant 0 <= i <= |name| && HashFrom(name[i..], h) == HashFrom(name, 5381)
    {
      assert name[i..][1..] == name[i + 1..];
      h := ((h as int) * 33 + SignedChar(name[i])) % 0x1_0000_0000;
      i := i + 1;
    }
    hash := h % HASH_TABLE_SIZE;
  }

  /** The two tables of the database, filled and emptied together. */
  class Index {
    const byName: HashTable
    const byHandle: HashTable
    ghost var Repr: set<object>

    ghost predicate Valid()
      reads this, Repr
    {
      && this in Repr && byName in Repr && byHandle in Repr
      && byName.Repr <= Repr && byHandle.Repr <= Repr && byName.Repr !! byHandle.Repr
      && this !in byName.Repr && this !in byHandle.Repr
      && byName.Valid() && byHandle.Valid()
    }

    constructor ()
      ensures Valid() && fresh(Repr)
      ensures byName.buckets == byHandle.buckets == seq(HASH_TABLE_SIZE, _ => [])
    {
      byName := new HashTable();
      byHandle := new HashTable();
      new;
      Repr := {this} + byName.Repr + byHandle.Repr;
    }

    /** insert_entry: under its handle and under its name. */
    method Insert(e: FsEntry)
      requires Valid() && e !in Repr
      requires |byName.buckets| == HASH_TABLE_SIZE == |byHandle.buckets|
      modifies Repr
      ensures Valid() && fresh(Repr - old(Repr)) && old(Repr) <= Repr
      ensures byHandle.buckets == Enlisted(old(byHandle.buckets), HashHandle(e.handle), e)
      ensures byName.buckets == Enlisted(old(byName.buckets), HashName(e.name), e)
    {
      var n := HashFunctionName(e.name);
      byHandle.Insert(e.handle % HASH_TABLE_SIZE, e);
      byName.Insert(n, e);
      Repr := Repr + byName.Repr + byHandle.Repr;
    }

    /** remove_entry: from under the name and the handle it now has. */
    method Remove(e: FsEntry)
      requires Valid() && e !in Repr
      requires |byName.buckets| == HASH_TABLE_SIZE == |byHandle.buckets|
      modifies Repr
      ensures Valid() && Repr == old(Repr)
      ensures byHandle.buckets == Delisted(old(byHandle.buckets), HashHandle(e.handle), e)
      ensures byName.buckets == Delisted(old(byName.buckets), HashName(e.name), e)
    {
      var n := HashFunctionName(e.name);
      byName.Remove(n, e);
      byHandle.Remove(e.handle % HASH_TABLE_SIZE, e);
    }
  }

  /** The entry at the end of a bucket, unless the bucket has the largest size. */
  ghost function Enlisted(buckets: seq<seq<FsEntry?>>, b: nat, e: FsEntry): seq<seq<FsEntry?>>
    requires b < |buckets|
  {
    if |buckets[b]| < MAX_NODE_CAPACITY then buckets[b := buckets[b] + [e]] else buckets
  }

  ghost function Delisted(buckets: seq<seq<FsEntry?>>, b: nat, e: FsEntry): seq<seq<FsEntry?>>
    requires b < |buckets|
  {
    buckets[b := Without(buckets[b], e)]
  }
}
