/**
 * The entries of the trie (HamtNodeEntry, HamtLeaf and HamtNode of
 * include/HAMT.hh) as values, the set of strings an entry stores, and the
 * structural invariant the C++ code keeps at every depth below the top-level
 * table.
 */
module HamtTrie {
  import opened HamtBitmap

  /**
   * An entry of a table: null, a leaf (the hash shifted to the leaf's depth and
   * the keys stored there, in insertion order) or a node (its occupancy map and
   * one child per set bit, highest bit first).
   */
  datatype Entry =
    | Null
    | Leaf(hash: bv64, data: seq<string>)
    | Node(bitmap: bv64, children: seq<Entry>)

  /** A 64-bit hash shifted right by BITS_PER_LEVEL bits `d` times. */
  function Shr(h: bv64, d: nat): bv64
  {
    if d == 0 then h else Shr(h, d - 1) >> BITS_PER_LEVEL
  }

  /** The strings stored below an entry. */
  ghost function Keys(e: Entry): set<string>
  {
    match e
    case Null => {}
    case Leaf(_, data) => set s | s in data
    case Node(_, ch) => set j, s | 0 <= j < |ch| && s in Keys(ch[j]) :: s
  }

  /** No key appears twice in a leaf. */
  predicate Distinct(data: seq<string>)
  {
    forall i, j :: 0 <= i < j < |data| ==> data[i] != data[j]
  }

  /**
   * The invariant of an entry at depth `d` below the top-level table, for the
   * hash function `H` the strings were inserted with:
   * - a leaf holds distinct keys, at least one, and every key's hash shifted
   *   `d` times is the leaf's hash;
   * - a node sits above depth 10 (its children split on chunk d + 1, and chunk
   *   10 holds the last four bits of a 64-bit hash), has one non-null child
   *   per set bit of its map, at least one, and each key below child `j` has
   *   its chunk d + 1 set in the map at the position that owns index `j`.
   */
  ghost predicate WfAt(H: string -> bv64, e: Entry, d: nat)
  {
    match e
    case Null => true
    case Leaf(h, data) =>
      |data| > 0 && Distinct(data) && forall s :: s in data ==> Shr(H(s), d) == h
    case Node(m, ch) =>
      d < 10 && |ch| == NumberOfChildren(m) && |ch| > 0 &&
      forall j :: 0 <= j < |ch| ==>
        ch[j] != Null && WfAt(H, ch[j], d + 1) &&
        forall s :: s in Keys(ch[j]) ==> RoutesTo(m, Shr(H(s), d + 1), j)
  }

  /** The top-level slot at index `slot`: a well-formed entry all of whose keys have that first chunk. */
  ghost predicate WfSlot(H: string -> bv64, e: Entry, slot: nat)
  {
    WfAt(H, e, 0) && forall s :: s in Keys(e) ==> Chunk(H(s)) as int == slot
  }

  /** Two hashes in the same slot have the same first chunk. */
  lemma SameSlot(a: bv64, b: bv64)
    requires Chunk(a) as int == Chunk(b) as int
    ensures Chunk(a) == Chunk(b)
  {
    var c, d := Chunk(a), Chunk(b);
    assert c < 64 && d < 64;
  }

  /** Two different hashes with equal chunk differ in the remaining bits. */
  lemma ChunkAndRest(x: bv64, y: bv64)
    requires x != y && Chunk(x) == Chunk(y)
    ensures x >> 6 != y >> 6
  {
  }

  /** One more level shifts the hash by six more bits. */
  lemma ShrStep(h: bv64, d: nat)
    ensures Shr(h, d + 1) == Shr(h, d) >> 6
  {
  }

  /** Ten shifts leave at most the top four bits; eleven leave nothing. */
  lemma ShrTop(x: bv64)
    ensures Shr(x, 10) < 16 && Shr(x, 11) == 0
  {
    ShrStep(x, 0); ShrStep(x, 1); ShrStep(x, 2); ShrStep(x, 3); ShrStep(x, 4); ShrStep(x, 5);
    ShrStep(x, 6); ShrStep(x, 7); ShrStep(x, 8); ShrStep(x, 9); ShrStep(x, 10);
  }

  /** Below depth 11 every shifted hash is zero. */
  lemma {:induction false} ShrVanishes(x: bv64, d: nat)
    requires d >= 11
    ensures Shr(x, d) == 0
  {
    if d == 11 {
      ShrTop(x);
    } else {
      ShrVanishes(x, d - 1);
    }
  }

  /** Hashes that still differ after `d` shifts do so above depth 11. */
  lemma DistinctDepth(a: bv64, b: bv64, d: nat)
    requires Shr(a, d) != Shr(b, d)
    ensures d <= 10
  {
    if d > 10 {
      ShrVanishes(a, d);
      ShrVanishes(b, d);
    }
  }

  /**
   * Hashes that differ after `d` shifts but agree on chunk `d` differ after
   * `d + 1` shifts, so `d` is at most 9: a node built to separate them fits
   * the depth bound.
   */
  lemma DistinctChunkDepth(a: bv64, b: bv64, d: nat)
    requires Shr(a, d) != Shr(b, d) && Chunk(Shr(a, d)) == Chunk(Shr(b, d))
    ensures Shr(a, d + 1) != Shr(b, d + 1)
    ensures d <= 9
  {
    ChunkAndRest(Shr(a, d), Shr(b, d));
    ShrStep(a, d);
    ShrStep(b, d);
    DistinctDepth(a, b, d + 1);
  }

  /** The keys of a node are those of one child and those of the others. */
  lemma NodeKeysSplit(m: bv64, l: seq<Entry>, c: Entry, r: seq<Entry>)
    ensures Keys(Node(m, l + [c] + r)) == Keys(Node(m, l + r)) + Keys(c)
  {
    var ch, rest := l + [c] + r, l + r;
    forall s | s in Keys(Node(m, ch))
      ensures s in Keys(Node(m, rest)) + Keys(c)
    {
      var j :| 0 <= j < |ch| && s in Keys(ch[j]);
      if j < |l| {
        assert rest[j] == ch[j];
      } else if j > |l| {
        assert rest[j - 1] == ch[j];
      }
    }
    forall s | s in Keys(Node(m, rest)) + Keys(c)
      ensures s in Keys(Node(m, ch))
    {
      if s in Keys(c) {
        assert ch[|l|] == c;
      } else {
        var j :| 0 <= j < |rest| && s in Keys(rest[j]);
        if j < |l| {
          assert ch[j] == rest[j];
        } else {
          assert ch[j + 1] == rest[j];
        }
      }
    }
  }
}
