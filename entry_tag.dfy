/**
 * The one-word representation of a HamtNodeEntry: a pointer-sized integer
 * that is 0 for null, the address of a node, or the address of a leaf with
 * its low bit set.  Nodes and leaves come from malloc/calloc and `new`, so
 * their addresses are non-zero and even; the low bit is then free for the
 * tag.  The rest of the model works on the `Entry` datatype, which is what
 * this word decodes to.
 */
module HamtEntryTag {
  /** The `ptr` word of an entry. */
  datatype EntryWord = EntryWord(ptr: bv64)

  /** An address an allocator may hand out for a node or a leaf: non-zero and even. */
  predicate Allocated(addr: bv64)
  {
    addr != 0 && addr & 1 == 0
  }

  /** isLeaf: the low bit of the word. */
  predicate IsLeaf(e: EntryWord)
  {
    e.ptr & 1 != 0
  }

  /** isNull: the word is zero. */
  predicate IsNull(e: EntryWord)
  {
    e.ptr == 0
  }

  /** The entry that points to the node at `addr`. */
  function NodeEntry(addr: bv64): (e: EntryWord)
    requires Allocated(addr)
    ensures !IsNull(e) && !IsLeaf(e)
  {
    EntryWord(addr)
  }

  /** The entry that points to the leaf at `addr`, with the low bit set. */
  function LeafEntry(addr: bv64): (e: EntryWord)
    requires Allocated(addr)
    ensures IsLeaf(e) && !IsNull(e)
  {
    EntryWord(addr | 1)
  }

  /** The null entry. */
  function NullEntry(): (e: EntryWord)
    ensures IsNull(e) && !IsLeaf(e)
  {
    EntryWord(0)
  }

  /** getChild: the node address of an entry that is neither null nor a leaf. */
  function GetChild(e: EntryWord): (addr: bv64)
    requires !IsNull(e) && !IsLeaf(e)
    ensures Allocated(addr)
  {
    e.ptr
  }

  /** getLeaf: the leaf address of a leaf entry, with the tag bit cleared. */
  function GetLeaf(e: EntryWord): (addr: bv64)
    requires IsLeaf(e)
    ensures addr & 1 == 0
  {
    e.ptr & !1
  }

  /** Reading back a node entry gives the address it was built from. */
  lemma NodeRoundTrip(addr: bv64)
    requires Allocated(addr)
    ensures GetChild(NodeEntry(addr)) == addr
  {
  }

  /** Reading back a leaf entry gives the address it was built from. */
  lemma LeafRoundTrip(addr: bv64)
    requires Allocated(addr)
    ensures GetLeaf(LeafEntry(addr)) == addr
  {
  }

  /**
   * Every word built by the constructors is rebuilt from what it decodes to:
   * a leaf entry from its leaf address, a node entry from its node address.
   */
  lemma LeafRebuilt(e: EntryWord)
    requires IsLeaf(e) && GetLeaf(e) != 0
    ensures Allocated(GetLeaf(e)) && LeafEntry(GetLeaf(e)) == e
  {
  }

  lemma NodeRebuilt(e: EntryWord)
    requires !IsNull(e) && !IsLeaf(e)
    ensures NodeEntry(GetChild(e)) == e
  {
  }

  /**
   * isNull holds for the default word alone, and isLeaf for the words that
   * setting the tag bit leaves unchanged; a leaf word is never null.
   */
  lemma TagTests(e: EntryWord)
    ensures IsNull(e) <==> e == NullEntry()
    ensures IsLeaf(e) <==> EntryWord(e.ptr | 1) == e
    ensures IsLeaf(e) ==> !IsNull(e)
  {
  }

  /** Each word is exactly one of null, a leaf and a node. */
  lemma ExactlyOneKind(e: EntryWord)
    ensures IsNull(e) ==> !IsLeaf(e)
    ensures !IsNull(e) && !IsLeaf(e) ==> Allocated(e.ptr)
  {
  }

  /** Leaf and node entries never coincide, whatever the addresses. */
  lemma KindsDisjoint(a: bv64, b: bv64)
    requires Allocated(a) && Allocated(b)
    ensures LeafEntry(a) != NodeEntry(b)
    ensures LeafEntry(a) == LeafEntry(b) <==> a == b
  {
  }
}
