/**
 * TopLevelHamtNode: the table of MAX_IDX entries at the root of the trie,
 * indexed by the first chunk of a hash, with the insert, lookup and remove
 * walks of src/HAMT.cc.  Each walk keeps the entry pointer as a path of frames
 * from the slot (see HamtZipper) and writes through it by plugging.
 */
module HamtTable {
  import opened HamtBitmap
  import opened HamtTrie
  import opened HamtZipper
  import opened HamtNodeOps
  import opened HamtPaths
  import opened HamtInsertSteps
  import opened HamtRemoveSteps

  /** The strings stored in a table. */
  ghost function TableKeys(t: seq<Entry>): set<string>
  {
    set i, s | 0 <= i < |t| && s in Keys(t[i]) :: s
  }

  /** A table of MAX_IDX slots, each well-formed and holding only keys of its first chunk. */
  ghost predicate TableWf(H: string -> bv64, t: seq<Entry>)
  {
    |t| == MAX_IDX as int && forall i :: 0 <= i < |t| ==> WfSlot(H, t[i], i)
  }

  /** A key is in a well-formed table exactly when it is below the slot of its first chunk. */
  lemma SlotKeys(H: string -> bv64, t: seq<Entry>, s: string)
    requires TableWf(H, t)
    ensures s in TableKeys(t) <==> s in Keys(t[Chunk(H(s)) as int])
  {
    if s in TableKeys(t) {
      var i :| 0 <= i < |t| && s in Keys(t[i]);
      assert WfSlot(H, t[i], i);
    }
  }

  /** Replacing a slot by one with more keys adds them to the table. */
  lemma TableAdded(t: seq<Entry>, i: nat, e: Entry, added: set<string>)
    requires i < |t| && Keys(e) == Keys(t[i]) + added
    ensures TableKeys(t[i := e]) == TableKeys(t) + added
  {
    var t' := t[i := e];
    forall s | s in TableKeys(t)
      ensures s in TableKeys(t')
    {
      var j :| 0 <= j < |t| && s in Keys(t[j]);
      if j != i {
        assert t'[j] == t[j];
      }
      assert s in Keys(t'[j]);
    }
    assert t'[i] == e;
  }

  /** Replacing a slot by one that keeps all keys but `str` keeps them in the table. */
  lemma TableKeeps(t: seq<Entry>, i: nat, e: Entry, str: string)
    requires i < |t| && Keys(e) == Keys(t[i]) - {str}
    ensures TableKeys(t) - {str} <= TableKeys(t[i := e])
  {
    var t' := t[i := e];
    forall s | s in TableKeys(t) && s != str
      ensures s in TableKeys(t')
    {
      var j :| 0 <= j < |t| && s in Keys(t[j]);
      if j != i {
        assert t'[j] == t[j];
      }
      assert s in Keys(t'[j]);
    }
  }

  /** Replacing the slot of a key by one without that key leaves the key nowhere in a well-formed table. */
  lemma TableDrops(H: string -> bv64, t: seq<Entry>, e: Entry, str: string)
    requires TableWf(H, t) && Keys(e) == Keys(t[Chunk(H(str)) as int]) - {str}
    ensures TableKeys(t[Chunk(H(str)) as int := e]) <= TableKeys(t) - {str}
  {
    var i := Chunk(H(str)) as int;
    var t' := t[i := e];
    forall s | s in TableKeys(t')
      ensures s in TableKeys(t) && s != str
    {
      var j :| 0 <= j < |t'| && s in Keys(t'[j]);
      SlotDrops(H, t, i, e, str, j, s);
    }
  }

  /** A key below slot `j` of the updated table is a key of the old table other than `str`. */
  lemma SlotDrops(H: string -> bv64, t: seq<Entry>, i: int, e: Entry, str: string, j: int, s: string)
    requires TableWf(H, t) && i == Chunk(H(str)) as int && Keys(e) == Keys(t[i]) - {str}
    requires 0 <= j < |t| && s in Keys(t[i := e][j])
    ensures s in TableKeys(t) && s != str
  {
    if j != i {
      assert t[i := e][j] == t[j];
      assert WfSlot(H, t[j], j);
      assert s in Keys(t[j]);
      assert Chunk(H(s)) as int == j;
    } else {
      assert s in Keys(t[i]);
    }
  }

  /** Replacing the slot of a key by one without that key removes it, and only it, from a well-formed table. */
  lemma TableRemoved(H: string -> bv64, t: seq<Entry>, e: Entry, str: string)
    requires TableWf(H, t) && Keys(e) == Keys(t[Chunk(H(str)) as int]) - {str}
    ensures TableKeys(t[Chunk(H(str)) as int := e]) == TableKeys(t) - {str}
  {
    TableKeeps(t, Chunk(H(str)) as int, e, str);
    TableDrops(H, t, e, str);
  }

  /** Storing a well-formed slot keeps a table well-formed. */
  lemma TableWfUpdate(H: string -> bv64, t: seq<Entry>, i: nat, e: Entry)
    requires TableWf(H, t) && i < |t| && WfSlot(H, e, i)
    ensures TableWf(H, t[i := e])
  {
  }

  class TopLevelHamtNode {
    /** The MAX_IDX entries, indexed by `hash & FIRST_N_BITS`. */
    const table: array<Entry>

    /** The hash function every key of this table was inserted with. */
    ghost const H: string -> bv64

    ghost predicate Valid()
      reads this, table
    {
      TableWf(H, table[..])
    }

    /** The strings in the set. */
    ghost function Contents(): set<string>
      reads this, table
    {
      TableKeys(table[..])
    }

    /** An empty table for keys hashed by `hasher`. */
    constructor (ghost hasher: string -> bv64)
      ensures Valid() && Contents() == {} && H == hasher && fresh(table)
    {
      table := new Entry[MAX_IDX as int](_ => Null);
      H := hasher;
    }

    /**
     * lookup: walk from the slot of the key's first chunk, through the child
     * each node's map points at, to a leaf, and search its keys.
     */
    method Lookup(hash: bv64, str: string) returns (found: bool)
      requires Valid() && hash == H(str)
      ensures found <==> str in Contents()
    {
      var slot := Chunk(hash) as int;
      ghost var present := str in Contents();
      SlotKeys(H, table[..], str);
      var entry := table[slot];
      assert WfSlot(H, entry, slot);
      if entry == Null {
        return false;
      }
      ghost var d: nat := 0;
      var h := hash;
      while true
        invariant entry != Null && d <= 10 && WfAt(H, entry, d) && h == Shr(H(str), d)
        invariant present <==> str in Keys(entry)
        decreases 10 - d
      {
        if entry.Leaf? {
          LeafFind(entry.hash, entry.data, str);
          return Find(entry.data, str) < |entry.data|;
        }
        var m, ch := entry.bitmap, entry.children;
        h := h >> BITS_PER_LEVEL;
        ShrStep(H(str), d);
        NodeStep(H, m, ch, d, str, h);
        if !ContainsHash(m, h) {
          return false;
        }
        entry := ch[NumberOfHashesAbove(m, h) - 1];
        d := d + 1;
      }
    }

    /**
     * insert: a null slot gets a new leaf; otherwise walk down, through the
     * child each node's map points at, until a node lacks the key's chunk
     * (add a leaf there), a leaf of the key's hash is reached (append the key
     * unless it is there), or a leaf of another hash is reached (split it, or
     * push it one level down and go on when the next chunks agree).
     */
    method Insert(hash: bv64, str: string)
      requires Valid() && hash == H(str)
      modifies table
      ensures Valid()
      ensures Contents() == old(Contents()) + {str}
      ensures forall i :: 0 <= i < table.Length && i != Chunk(hash) as int ==> table[i] == old(table[i])
      ensures str in old(Contents()) ==> table[..] == old(table[..])
    {
      var slot := Chunk(hash) as int;
      ghost var t0 := table[..];
      ghost var e0 := t0[slot];
      SlotKeys(H, t0, str);
      assert WfSlot(H, e0, slot);
      if table[slot] == Null {
        NewLeaf(H, slot, str);
        table[slot] := Leaf(hash, [str]);
        Added(t0, slot, str);
        return;
      }
      var e := InsertBelow(H, table[slot], slot, hash, str);
      table[slot] := e;
      Added(t0, slot, str);
    }

    /**
     * remove: walk from the slot of the key's first chunk to its leaf,
     * remembering the last entry with more than one child (the cut); erase
     * the key, and when its leaf becomes empty let deleteFromNode remove the
     * sub-tree below the cut that held only the key.
     */
    method Remove(hash: bv64, str: string) returns (removed: bool)
      requires Valid() && hash == H(str)
      modifies table
      ensures Valid()
      ensures removed <==> str in old(Contents())
      ensures Contents() == old(Contents()) - {str}
      ensures forall i :: 0 <= i < table.Length && i != Chunk(hash) as int ==> table[i] == old(table[i])
      ensures !removed ==> table[..] == old(table[..])
    {
      var slot := Chunk(hash) as int;
      ghost var t0 := table[..];
      SlotKeys(H, t0, str);
      assert WfSlot(H, t0[slot], slot);
      if table[slot] == Null {
        return false;
      }
      var e;
      removed, e := RemoveBelow(H, table[slot], slot, hash, str);
      if removed {
        table[slot] := e;
        Removed(t0, slot, str);
      }
    }

    /**
     * The table is `t0` with the key's slot replaced by what insert leaves
     * there: a well-formed table holding the key as well, and `t0` itself when
     * the key was already there.
     */
    lemma Added(t0: seq<Entry>, slot: nat, str: string)
      requires TableWf(H, t0) && table.Length == |t0| && slot == Chunk(H(str)) as int
      requires Done(H, t0[slot], table[slot], slot, str)
      requires forall i :: 0 <= i < table.Length && i != slot ==> table[i] == t0[i]
      ensures Valid() && Contents() == TableKeys(t0) + {str}
      ensures str in TableKeys(t0) ==> table[..] == t0
    {
      var e := table[slot];
      assert table[..] == t0[slot := e];
      SlotKeys(H, t0, str);
      TableAdded(t0, slot, e, {str});
      TableWfUpdate(H, t0, slot, e);
    }

    /**
     * The table is `t0` with the key's slot replaced by what remove leaves
     * there: a well-formed table without the key.
     */
    lemma Removed(t0: seq<Entry>, slot: nat, str: string)
      requires TableWf(H, t0) && table.Length == |t0| && slot == Chunk(H(str)) as int
      requires WfSlot(H, table[slot], slot) && Keys(table[slot]) == Keys(t0[slot]) - {str}
      requires forall i :: 0 <= i < table.Length && i != slot ==> table[i] == t0[i]
      ensures Valid() && Contents() == TableKeys(t0) - {str}
    {
      var e := table[slot];
      assert table[..] == t0[slot := e];
      TableRemoved(H, t0, e, str);
      TableWfUpdate(H, t0, slot, e);
    }
  }
}
