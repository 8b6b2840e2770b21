/**
 * The entry rewrites insert and remove perform: the leaf operations on
 * HamtLeaf::data (std::find, push_back, erase), adding a child to a node,
 * the two ways of splitting a leaf, and deleteFromNode.  Each is a function
 * from the entry before to the entry after; the loops write the result back
 * through their entry pointer.
 */
module HamtNodeOps {
  import opened HamtBitmap
  import opened HamtTrie

  /** std::find over a leaf's data: the first index holding `str`, or |data| when there is none. */
  function Find(data: seq<string>, str: string): (i: nat)
    ensures i <= |data|
    ensures i < |data| ==> data[i] == str
    ensures forall k :: 0 <= k < i ==> data[k] != str
  {
    if |data| == 0 then 0
    else if data[0] == str then 0
    else 1 + Find(data[1..], str)
  }

  /** std::vector::erase of the element at `i`: the others keep their order. */
  function Erase(data: seq<string>, i: nat): (r: seq<string>)
    requires i < |data|
    ensures |r| == |data| - 1
    ensures forall k :: 0 <= k < i ==> r[k] == data[k]
    ensures forall k :: i <= k < |r| ==> r[k] == data[k + 1]
  {
    data[..i] + data[i + 1..]
  }

  /** Inserting `x` at index `i` of `s`: it lands at `i`, the prefix stays, the rest moves one along. */
  lemma SeqInsert<T>(s: seq<T>, i: nat, x: T)
    requires i <= |s|
    ensures |s[..i] + [x] + s[i..]| == |s| + 1
    ensures (s[..i] + [x] + s[i..])[i] == x
    ensures forall k :: 0 <= k < i ==> (s[..i] + [x] + s[i..])[k] == s[k]
    ensures forall k :: i <= k < |s| ==> (s[..i] + [x] + s[i..])[k + 1] == s[k]
  {
  }

  /**
   * Adding a child for an absent hash to a node (the realloc, markHash and
   * memmove of insert): the new child goes at the index numberOfHashesAbove
   * gives before the bit is set, and the children from there on move one
   * place along.
   */
  function InsertChild(m: bv64, ch: seq<Entry>, hash: bv64, child: Entry): (r: Entry)
    requires |ch| == NumberOfChildren(m)
    ensures NumberOfHashesAbove(m, hash) <= |ch|
    ensures r.Node? && r.bitmap == MarkHash(m, hash) && |r.children| == |ch| + 1
    ensures r.children[NumberOfHashesAbove(m, hash)] == child
    ensures forall k :: 0 <= k < NumberOfHashesAbove(m, hash) ==> r.children[k] == ch[k]
    ensures forall k :: NumberOfHashesAbove(m, hash) <= k < |ch| ==> r.children[k + 1] == ch[k]
  {
    HashesAboveBound(m, hash);
    var idx := NumberOfHashesAbove(m, hash);
    SeqInsert(ch, idx, child);
    Node(MarkHash(m, hash), ch[..idx] + [child] + ch[idx..])
  }

  /**
   * Splitting the leaf of `otherHash` and `otherData` when its hash differs
   * from the new one but its next chunk does not: a node one level down
   * holding a new leaf for `str` and the old leaf, both with their hashes
   * shifted once more, the higher next chunk first.
   */
  function SplitLeaf(hash: bv64, str: string, otherHash: bv64, otherData: seq<string>): (r: Entry)
    requires Chunk(hash >> BITS_PER_LEVEL) != Chunk(otherHash >> BITS_PER_LEVEL)
    ensures r.Node? && |r.children| == 2
    ensures r.bitmap == MarkHash(MarkHash(0, hash >> BITS_PER_LEVEL), otherHash >> BITS_PER_LEVEL)
    ensures Leaf(hash >> BITS_PER_LEVEL, [str]) in r.children
    ensures Leaf(otherHash >> BITS_PER_LEVEL, otherData) in r.children
  {
    var h, oh := hash >> BITS_PER_LEVEL, otherHash >> BITS_PER_LEVEL;
    var m := MarkHash(MarkHash(0, h), oh);
    if Chunk(h) > Chunk(oh) then
      Node(m, [Leaf(h, [str]), Leaf(oh, otherData)])
    else
      Node(m, [Leaf(oh, otherData), Leaf(h, [str])])
  }

  /**
   * Pushing the leaf of `otherHash` and `otherData` one level down when its
   * next chunk equals the new hash's: a one-child node holding the leaf with
   * its hash shifted once more.
   */
  function PushDown(otherHash: bv64, otherData: seq<string>): (r: Entry)
    ensures r.Node? && r.children == [Leaf(otherHash >> BITS_PER_LEVEL, otherData)]
    ensures NumberOfChildren(r.bitmap) == 1
  {
    var oh := otherHash >> BITS_PER_LEVEL;
    OneBit(oh);
    Node(MarkHash(0, oh), [Leaf(oh, otherData)])
  }

  /**
   * deleteFromNode: a leaf, or a node whose only child is being deleted,
   * becomes null; otherwise the node loses the bit of `hash` and the child it
   * owned, and the later children move one place back.
   */
  function DeleteFromNode(e: Entry, hash: bv64): (r: Entry)
    requires e != Null
    requires e.Node? ==> ContainsHash(e.bitmap, hash) && |e.children| == NumberOfChildren(e.bitmap)
    ensures r == Null <==> e.Leaf? || NumberOfChildren(e.bitmap) == 1
    ensures r != Null ==>
      var i := NumberOfHashesAbove(e.bitmap, hash) - 1;
      0 <= i < |e.children| &&
      r == Node(UnmarkHash(e.bitmap, hash), e.children[..i] + e.children[i + 1..])
  {
    if e.Leaf? then Null
    else if NumberOfChildren(e.bitmap) == 1 then Null
    else
      var m := UnmarkHash(e.bitmap, hash);
      UnmarkCounts(e.bitmap, hash);
      RoutesToBounds(e.bitmap, hash);
      var idx := NumberOfHashesAbove(m, hash);
      Node(m, e.children[..idx] + e.children[idx + 1..])
  }

  /** Appending a key that is absent and has the leaf's hash keeps the leaf well-formed. */
  lemma LeafAppend(H: string -> bv64, h: bv64, data: seq<string>, str: string, d: nat)
    requires WfAt(H, Leaf(h, data), d)
    requires Find(data, str) == |data| && Shr(H(str), d) == h
    ensures WfAt(H, Leaf(h, data + [str]), d)
    ensures Keys(Leaf(h, data + [str])) == Keys(Leaf(h, data)) + {str}
  {
  }

  /** Erasing a key from a leaf of two or more keys keeps it well-formed, without that key. */
  lemma LeafErase(H: string -> bv64, h: bv64, data: seq<string>, i: nat, d: nat)
    requires WfAt(H, Leaf(h, data), d) && i < |data| && |data| > 1
    ensures WfAt(H, Leaf(h, Erase(data, i)), d)
    ensures Keys(Leaf(h, Erase(data, i))) == Keys(Leaf(h, data)) - {data[i]}
  {
    var r := Erase(data, i);
    forall s | s in r
      ensures s in data && s != data[i]
    {
      var k :| 0 <= k < |r| && r[k] == s;
      if k >= i {
        assert r[k] == data[k + 1];
      }
    }
    forall s | s in data && s != data[i]
      ensures s in r
    {
      var k :| 0 <= k < |data| && data[k] == s;
      if k < i {
        assert r[k] == s;
      } else {
        assert r[k - 1] == s;
      }
    }
  }

  /** After markHash of an absent hash, the keys of child `j` route to `j`, or `j + 1` from the new index on. */
  lemma ChildRoutesAfterMark(H: string -> bv64, m: bv64, ch: seq<Entry>, hash: bv64, d: nat, j: nat)
    requires WfAt(H, Node(m, ch), d) && !ContainsHash(m, hash) && j < |ch|
    ensures forall s :: s in Keys(ch[j]) ==>
      RoutesTo(MarkHash(m, hash), Shr(H(s), d + 1), if j < NumberOfHashesAbove(m, hash) then j else j + 1)
  {
    forall s | s in Keys(ch[j])
      ensures RoutesTo(MarkHash(m, hash), Shr(H(s), d + 1), if j < NumberOfHashesAbove(m, hash) then j else j + 1)
    {
      MarkRoutes(m, hash, Shr(H(s), d + 1), j);
    }
  }

  /**
   * Adding a child for an absent hash keeps a node well-formed when the child
   * is well-formed one level down and its keys have that hash there; the node
   * then holds the child's keys as well.
   */
  lemma InsertChildWf(H: string -> bv64, m: bv64, ch: seq<Entry>, hash: bv64, child: Entry, d: nat)
    requires WfAt(H, Node(m, ch), d) && !ContainsHash(m, hash)
    requires child != Null && WfAt(H, child, d + 1)
    requires forall s :: s in Keys(child) ==> Shr(H(s), d + 1) == hash
    ensures WfAt(H, InsertChild(m, ch, hash, child), d)
    ensures Keys(InsertChild(m, ch, hash, child)) == Keys(Node(m, ch)) + Keys(child)
  {
    var idx := NumberOfHashesAbove(m, hash);
    var r := InsertChild(m, ch, hash, child);
    var m', ch' := r.bitmap, r.children;
    MarkCounts(m, hash);
    forall j | 0 <= j < |ch'|
      ensures ch'[j] != Null && WfAt(H, ch'[j], d + 1)
      ensures forall s :: s in Keys(ch'[j]) ==> RoutesTo(m', Shr(H(s), d + 1), j)
    {
      if j < idx {
        ChildRoutesAfterMark(H, m, ch, hash, d, j);
      } else if j > idx {
        ChildRoutesAfterMark(H, m, ch, hash, d, j - 1);
      }
    }
    assert ch' == ch[..idx] + [child] + ch[idx..];
    assert ch[..idx] + ch[idx..] == ch;
    NodeKeysSplit(m', ch[..idx], child, ch[idx..]);
  }

  /**
   * Deleting the child at the hole of a node of two or more children, for the
   * hash that routes to the hole, keeps the node well-formed, holding the
   * other children's keys.
   */
  lemma DeleteChildWf(H: string -> bv64, m: bv64, l: seq<Entry>, c: Entry, r: seq<Entry>, hash: bv64, d: nat)
    requires WfAt(H, Node(m, l + [c] + r), d) && RoutesTo(m, hash, |l|) && NumberOfChildren(m) > 1
    ensures DeleteFromNode(Node(m, l + [c] + r), hash) == Node(UnmarkHash(m, hash), l + r)
    ensures WfAt(H, Node(UnmarkHash(m, hash), l + r), d)
  {
    var ch, ch' := l + [c] + r, l + r;
    var m' := UnmarkHash(m, hash);
    assert ch[..|l|] + ch[|l| + 1..] == ch';
    UnmarkCounts(m, hash);
    forall j | 0 <= j < |ch'|
      ensures ch'[j] != Null && WfAt(H, ch'[j], d + 1)
      ensures forall s :: s in Keys(ch'[j]) ==> RoutesTo(m', Shr(H(s), d + 1), j)
    {
      DeletedChildWf(H, m, l, c, r, hash, d, j);
    }
  }

  /** Child `j` of a node once the child at the hole is deleted: child `j` or `j + 1` of the old node, re-indexed by the new map. */
  lemma DeletedChildWf(H: string -> bv64, m: bv64, l: seq<Entry>, c: Entry, r: seq<Entry>, hash: bv64, d: nat, j: nat)
    requires WfAt(H, Node(m, l + [c] + r), d) && RoutesTo(m, hash, |l|) && j < |l + r|
    ensures (l + r)[j] != Null && WfAt(H, (l + r)[j], d + 1)
    ensures forall s :: s in Keys((l + r)[j]) ==> RoutesTo(UnmarkHash(m, hash), Shr(H(s), d + 1), j)
  {
    var ch, ch' := l + [c] + r, l + r;
    var k := if j < |l| then j else j + 1;
    assert ch[k] == ch'[j];
    forall s | s in Keys(ch'[j])
      ensures RoutesTo(UnmarkHash(m, hash), Shr(H(s), d + 1), j)
    {
      RoutesToUnique(m, Shr(H(s), d + 1), hash, k, |l|);
      UnmarkRoutes(m, hash, Shr(H(s), d + 1), k);
    }
  }

  /** A well-formed leaf with its hash shifted once more is well-formed one level down. */
  lemma ShiftedLeafWf(H: string -> bv64, h: bv64, data: seq<string>, d: nat)
    requires WfAt(H, Leaf(h, data), d)
    ensures WfAt(H, Leaf(h >> BITS_PER_LEVEL, data), d + 1)
  {
    forall s | s in data
      ensures Shr(H(s), d + 1) == h >> BITS_PER_LEVEL
    {
      ShrStep(H(s), d);
    }
  }

  /** Two entries make a node with the map `m` when `m` routes each one's keys to its place. */
  lemma PairWf(H: string -> bv64, m: bv64, a: Entry, b: Entry, d: nat)
    requires d < 10 && NumberOfChildren(m) == 2
    requires a != Null && WfAt(H, a, d + 1) && forall s :: s in Keys(a) ==> RoutesTo(m, Shr(H(s), d + 1), 0)
    requires b != Null && WfAt(H, b, d + 1) && forall s :: s in Keys(b) ==> RoutesTo(m, Shr(H(s), d + 1), 1)
    ensures WfAt(H, Node(m, [a, b]), d)
    ensures Keys(Node(m, [a, b])) == Keys(a) + Keys(b)
  {
    var ch := [a, b];
    forall s | s in Keys(Node(m, ch))
      ensures s in Keys(a) + Keys(b)
    {
      var j :| 0 <= j < 2 && s in Keys(ch[j]);
    }
    assert ch[0] == a && ch[1] == b;
  }

  /**
   * Splitting a leaf for a new key whose hash at this depth differs from the
   * leaf's but shares its chunk, and whose next chunks differ, gives a
   * well-formed node holding the leaf's keys and the new one.
   */
  lemma SplitLeafWf(H: string -> bv64, hash: bv64, str: string, oh: bv64, data: seq<string>, d: nat)
    requires WfAt(H, Leaf(oh, data), d)
    requires Shr(H(str), d) == hash && hash != oh && Chunk(hash) == Chunk(oh)
    requires Chunk(hash >> BITS_PER_LEVEL) != Chunk(oh >> BITS_PER_LEVEL)
    ensures WfAt(H, SplitLeaf(hash, str, oh, data), d)
    ensures Keys(SplitLeaf(hash, str, oh, data)) == Keys(Leaf(oh, data)) + {str}
  {
    SplitLeafDepth(H, hash, str, oh, data, d);
    ShiftedLeafWf(H, hash, [str], d);
    ShiftedLeafWf(H, oh, data, d);
    SplitPairWf(H, hash >> BITS_PER_LEVEL, str, oh >> BITS_PER_LEVEL, data, d);
  }

  /** A leaf split for a key whose hash differs from the leaf's but shares its chunk sits above depth 10. */
  lemma SplitLeafDepth(H: string -> bv64, hash: bv64, str: string, oh: bv64, data: seq<string>, d: nat)
    requires WfAt(H, Leaf(oh, data), d)
    requires Shr(H(str), d) == hash && hash != oh && Chunk(hash) == Chunk(oh)
    ensures d < 10
  {
    var a, b := H(str), H(data[0]);
    assert Shr(b, d) == oh;
    DistinctChunkDepth(a, b, d);
  }

  /**
   * The two leaves of a split, one level down and with different chunks there,
   * make a well-formed node under the map of both chunks, the higher first.
   */
  lemma SplitPairWf(H: string -> bv64, h': bv64, str: string, oh': bv64, data: seq<string>, d: nat)
    requires d < 10 && Chunk(h') != Chunk(oh')
    requires WfAt(H, Leaf(h', [str]), d + 1) && WfAt(H, Leaf(oh', data), d + 1)
    ensures var m, mine, theirs := MarkHash(MarkHash(0, h'), oh'), Leaf(h', [str]), Leaf(oh', data);
      WfAt(H, Node(m, if Chunk(h') > Chunk(oh') then [mine, theirs] else [theirs, mine]), d) &&
      Keys(Node(m, if Chunk(h') > Chunk(oh') then [mine, theirs] else [theirs, mine])) == Keys(theirs) + {str}
  {
    var m := MarkHash(MarkHash(0, h'), oh');
    var mine, theirs := Leaf(h', [str]), Leaf(oh', data);
    TwoBits(h', oh');
    if Chunk(h') > Chunk(oh') {
      PairWf(H, m, mine, theirs, d);
    } else {
      PairWf(H, m, theirs, mine, d);
    }
  }

  /** The node of a single well-formed entry whose keys all route to index 0 of `m`. */
  lemma SingleWf(H: string -> bv64, m: bv64, a: Entry, d: nat)
    requires d < 10 && NumberOfChildren(m) == 1
    requires a != Null && WfAt(H, a, d + 1) && forall s :: s in Keys(a) ==> RoutesTo(m, Shr(H(s), d + 1), 0)
    ensures WfAt(H, Node(m, [a]), d)
    ensures Keys(Node(m, [a])) == Keys(a)
  {
    var ch := [a];
    forall s | s in Keys(Node(m, ch))
      ensures s in Keys(a)
    {
      var j :| 0 <= j < 1 && s in Keys(ch[j]);
    }
    assert ch[0] == a;
  }

  /**
   * Pushing a well-formed leaf one level down, above depth 10, gives a
   * well-formed one-child node with the same keys.
   */
  lemma PushDownWf(H: string -> bv64, oh: bv64, data: seq<string>, d: nat)
    requires WfAt(H, Leaf(oh, data), d) && d < 10
    ensures WfAt(H, PushDown(oh, data), d)
    ensures Keys(PushDown(oh, data)) == Keys(Leaf(oh, data))
  {
    var oh' := oh >> BITS_PER_LEVEL;
    OneBit(oh');
    ShiftedLeafWf(H, oh, data, d);
    SingleWf(H, MarkHash(0, oh'), Leaf(oh', data), d);
  }
}
