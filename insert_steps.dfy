/**
 * The loop of TopLevelHamtNode::insert below a non-null slot, and its cases
 * once the entry pointer has reached a non-null entry, each stated on the
 * path and the entry there: what is written through the pointer, and why the
 * slot stays well-formed and gains the key (or, for the push-down, nothing
 * yet).
 */
module HamtInsertSteps {
  import opened HamtBitmap
  import opened HamtTrie
  import opened HamtZipper
  import opened HamtNodeOps
  import opened HamtPaths

  /**
   * The loop invariant of insert on slot `slot`, which held `e0` when insert
   * started: the walk state, the slot's keys unchanged so far, and, when the
   * key was already there, the slot itself unchanged and the key below the
   * entry reached.
   */
  ghost predicate Inv(H: string -> bv64, e0: Entry, ctx: seq<Frame>, cur: Entry, slot: nat, str: string, h: bv64)
  {
    Walk(H, ctx, cur, slot, str, h) && Keys(Plug(ctx, cur)) == Keys(e0) &&
    (str in Keys(e0) ==> Plug(ctx, cur) == e0 && str in Keys(cur))
  }

  /**
   * What insert leaves in slot `slot`, which held `e0`: a well-formed slot
   * holding the keys of `e0` and `str`, and `e0` itself when `str` was there.
   */
  ghost predicate Done(H: string -> bv64, e0: Entry, e: Entry, slot: nat, str: string)
  {
    WfSlot(H, e, slot) && Keys(e) == Keys(e0) + {str} && (str in Keys(e0) ==> e == e0)
  }

  /** A null slot gets a leaf holding only the key. */
  lemma NewLeaf(H: string -> bv64, slot: nat, str: string)
    requires Chunk(H(str)) as int == slot
    ensures Done(H, Null, Leaf(H(str), [str]), slot, str)
  {
    assert Keys(Leaf(H(str), [str])) == {str};
  }

  /** The descent as a step of the insert loop. */
  lemma Descend(H: string -> bv64, e0: Entry, ctx: seq<Frame>, cur: Entry, slot: nat, str: string, h: bv64, h': bv64, idx: int)
    requires Inv(H, e0, ctx, cur, slot, str, h) && cur.Node? && h' == Shr(H(str), |ctx| + 1)
    requires ContainsHash(cur.bitmap, h') && idx == NumberOfHashesAbove(cur.bitmap, h')
    ensures 1 <= idx <= |cur.children| && |ctx| < 10
    ensures Inv(H, e0, ctx + [Frame(cur.bitmap, cur.children[..idx - 1], cur.children[idx..])], cur.children[idx - 1], slot, str, h')
    ensures Plug(ctx + [Frame(cur.bitmap, cur.children[..idx - 1], cur.children[idx..])], cur.children[idx - 1]) == Plug(ctx, cur)
  {
    DescendWalk(H, ctx, cur.bitmap, cur.children, slot, str, h, h', idx);
  }

  /**
   * A node whose map lacks the key's next chunk `h'`: a new leaf for the key
   * is added as a child, and the slot gains the key, which it did not hold.
   */
  lemma {:induction false} AddChild(H: string -> bv64, e0: Entry, ctx: seq<Frame>, cur: Entry, slot: nat, str: string, h: bv64, h': bv64)
    requires Inv(H, e0, ctx, cur, slot, str, h) && cur.Node? && h' == Shr(H(str), |ctx| + 1)
    requires !ContainsHash(cur.bitmap, h')
    ensures str !in Keys(e0)
    ensures Done(H, e0, Plug(ctx, InsertChild(cur.bitmap, cur.children, h', Leaf(h', [str]))), slot, str)
  {
    var n, m, ch := |ctx|, cur.bitmap, cur.children;
    var leaf := Leaf(h', [str]);
    NodeKeyAbsent(H, m, ch, n, str);
    InsertChildWf(H, m, ch, h', leaf, n);
    WriteBack(H, ctx, Node(m, ch), InsertChild(m, ch, h', leaf), slot, str, {str});
  }

  /** A leaf of the key's hash without the key: the key is appended to it. */
  lemma {:induction false} Append(H: string -> bv64, e0: Entry, ctx: seq<Frame>, cur: Entry, slot: nat, str: string, h: bv64)
    requires Inv(H, e0, ctx, cur, slot, str, h) && cur.Leaf? && h == cur.hash && Find(cur.data, str) == |cur.data|
    ensures str !in Keys(e0)
    ensures Done(H, e0, Plug(ctx, Leaf(cur.hash, cur.data + [str])), slot, str)
  {
    var oh, data := cur.hash, cur.data;
    LeafFind(oh, data, str);
    LeafAppend(H, oh, data, str, |ctx|);
    WriteBack(H, ctx, Leaf(oh, data), Leaf(oh, data + [str]), slot, str, {str});
  }

  /** A leaf of the key's hash that holds the key: nothing changes, and the key was there. */
  lemma {:induction false} Present(H: string -> bv64, e0: Entry, ctx: seq<Frame>, cur: Entry, slot: nat, str: string, h: bv64)
    requires Inv(H, e0, ctx, cur, slot, str, h) && cur.Leaf? && h == cur.hash && Find(cur.data, str) < |cur.data|
    ensures str in Keys(e0)
    ensures Done(H, e0, Plug(ctx, cur), slot, str)
  {
    var oh, data := cur.hash, cur.data;
    LeafFind(oh, data, str);
    PlugKeys(ctx, Leaf(oh, data));
  }

  /**
   * A leaf of another hash reached by the key: the two hashes share the
   * chunk of this depth (the assertion insert makes), and the key is not in
   * the leaf.
   */
  lemma {:induction false} OtherLeaf(H: string -> bv64, ctx: seq<Frame>, oh: bv64, data: seq<string>, slot: nat, str: string, h: bv64)
    requires Walk(H, ctx, Leaf(oh, data), slot, str, h)
    ensures Chunk(h) == Chunk(oh)
    ensures h != oh ==> str !in Keys(Leaf(oh, data))
  {
    LeafChunk(H, ctx, oh, data, slot, str);
  }

  /**
   * A leaf of another hash whose next chunk differs from the key's: the leaf
   * is split into a node of two leaves, and the slot gains the key.
   */
  lemma {:induction false} Split(H: string -> bv64, e0: Entry, ctx: seq<Frame>, cur: Entry, slot: nat, str: string, h: bv64)
    requires Inv(H, e0, ctx, cur, slot, str, h) && cur.Leaf? && h != cur.hash
    requires Chunk(h >> BITS_PER_LEVEL) != Chunk(cur.hash >> BITS_PER_LEVEL)
    ensures str !in Keys(e0)
    ensures Done(H, e0, Plug(ctx, SplitLeaf(h, str, cur.hash, cur.data)), slot, str)
  {
    var oh, data := cur.hash, cur.data;
    OtherLeaf(H, ctx, oh, data, slot, str, h);
    SplitLeafWf(H, h, str, oh, data, |ctx|);
    WriteBack(H, ctx, Leaf(oh, data), SplitLeaf(h, str, oh, data), slot, str, {str});
  }

  /**
   * A leaf of another hash with the same next chunk as the key's: the leaf is
   * pushed one level down under a one-child node, the slot keeps its keys,
   * and the walk goes on from the new node at the same depth.
   */
  lemma {:induction false} Push(H: string -> bv64, e0: Entry, ctx: seq<Frame>, cur: Entry, slot: nat, str: string, h: bv64)
    requires Inv(H, e0, ctx, cur, slot, str, h) && cur.Leaf? && h != cur.hash
    requires Chunk(h >> BITS_PER_LEVEL) == Chunk(cur.hash >> BITS_PER_LEVEL)
    ensures str !in Keys(e0)
    ensures Inv(H, e0, ctx, PushDown(cur.hash, cur.data), slot, str, h)
  {
    var oh, data := cur.hash, cur.data;
    OtherLeaf(H, ctx, oh, data, slot, str, h);
    SplitLeafDepth(H, h, str, oh, data, |ctx|);
    PushDownWf(H, oh, data, |ctx|);
    WriteBack(H, ctx, Leaf(oh, data), PushDown(oh, data), slot, str, {});
  }

  /** Shifting the walk's hash once more gives the key's hash at the next depth. */
  lemma NextHash(H: string -> bv64, e0: Entry, ctx: seq<Frame>, cur: Entry, slot: nat, str: string, h: bv64, h': bv64)
    requires Inv(H, e0, ctx, cur, slot, str, h) && h' == h >> BITS_PER_LEVEL
    ensures h' == Shr(H(str), |ctx| + 1)
  {
    ShrStep(H(str), |ctx|);
  }

  /** The two cases of insert at a node, told apart by whether the map has the key's next chunk `h'`. */
  lemma NodeCase(H: string -> bv64, e0: Entry, ctx: seq<Frame>, cur: Entry, slot: nat, str: string, h: bv64, h': bv64, has: bool, idx: int)
    requires Inv(H, e0, ctx, cur, slot, str, h) && cur.Node? && h' == Shr(H(str), |ctx| + 1)
    requires has == ContainsHash(cur.bitmap, h') && idx == NumberOfHashesAbove(cur.bitmap, h')
    ensures has ==> 1 <= idx <= |cur.children| && |ctx| < 10
    ensures has ==> Inv(H, e0, ctx + [Frame(cur.bitmap, cur.children[..idx - 1], cur.children[idx..])], cur.children[idx - 1], slot, str, h')
    ensures has ==> Plug(ctx + [Frame(cur.bitmap, cur.children[..idx - 1], cur.children[idx..])], cur.children[idx - 1]) == Plug(ctx, cur)
    ensures !has ==>
      Done(H, e0, Plug(ctx, InsertChild(cur.bitmap, cur.children, h', Leaf(h', [str]))), slot, str)
  {
    if has {
      Descend(H, e0, ctx, cur, slot, str, h, h', idx);
    } else {
      AddChild(H, e0, ctx, cur, slot, str, h, h');
    }
  }

  /**
   * The four cases of insert at a leaf: the key's hash with and without the
   * key, and another hash whose next chunk differs from or equals the key's.
   */
  lemma LeafCase(H: string -> bv64, e0: Entry, ctx: seq<Frame>, cur: Entry, slot: nat, str: string, h: bv64)
    requires Inv(H, e0, ctx, cur, slot, str, h) && cur.Leaf?
    ensures h == cur.hash && Find(cur.data, str) == |cur.data| ==>
      Done(H, e0, Plug(ctx, Leaf(cur.hash, cur.data + [str])), slot, str)
    ensures h == cur.hash && Find(cur.data, str) < |cur.data| ==> Done(H, e0, Plug(ctx, cur), slot, str)
    ensures h != cur.hash && Chunk(h >> BITS_PER_LEVEL) != Chunk(cur.hash >> BITS_PER_LEVEL) ==>
      Done(H, e0, Plug(ctx, SplitLeaf(h, str, cur.hash, cur.data)), slot, str)
    ensures h != cur.hash && Chunk(h >> BITS_PER_LEVEL) == Chunk(cur.hash >> BITS_PER_LEVEL) ==>
      Inv(H, e0, ctx, PushDown(cur.hash, cur.data), slot, str, h)
  {
    if h == cur.hash {
      if Find(cur.data, str) == |cur.data| {
        Append(H, e0, ctx, cur, slot, str, h);
      } else {
        Present(H, e0, ctx, cur, slot, str, h);
      }
    } else if Chunk(h >> BITS_PER_LEVEL) != Chunk(cur.hash >> BITS_PER_LEVEL) {
      Split(H, e0, ctx, cur, slot, str, h);
    } else {
      Push(H, e0, ctx, cur, slot, str, h);
    }
  }

  /** The walk starts at the slot itself, with the whole hash. */
  lemma Start(H: string -> bv64, e: Entry, slot: nat, str: string, hash: bv64)
    requires WfSlot(H, e, slot) && e != Null && hash == H(str) && Chunk(hash) as int == slot
    ensures Inv(H, e, [], e, slot, str, hash)
  {
  }

  /**
   * The loop of insert below a non-null slot `e`: walk down from it and
   * return what the slot holds once the key has been written through the
   * entry pointer.
   */
  method InsertBelow(ghost H: string -> bv64, e: Entry, ghost slot: nat, hash: bv64, str: string) returns (e': Entry)
    requires WfSlot(H, e, slot) && e != Null && hash == H(str) && Chunk(hash) as int == slot
    ensures Done(H, e, e', slot, str)
  {
    Start(H, e, slot, str, hash);
    var ctx: seq<Frame> := [];
    var cur := e;
    var h := hash;
    while true
      invariant Inv(H, e, ctx, cur, slot, str, h) && |ctx| <= 10
      decreases 2 * (10 - |ctx|) + (if cur.Leaf? then 1 else 0)
    {
      if cur.Node? {
        var h' := h >> BITS_PER_LEVEL;
        NextHash(H, e, ctx, cur, slot, str, h, h');
        var has, idx := ContainsHash(cur.bitmap, h'), NumberOfHashesAbove(cur.bitmap, h');
        NodeCase(H, e, ctx, cur, slot, str, h, h', has, idx);
        if has {
          ctx, cur, h := ctx + [Frame(cur.bitmap, cur.children[..idx - 1], cur.children[idx..])], cur.children[idx - 1], h';
        } else {
          return Plug(ctx, InsertChild(cur.bitmap, cur.children, h', Leaf(h', [str])));
        }
      } else {
        LeafCase(H, e, ctx, cur, slot, str, h);
        if h == cur.hash {
          if Find(cur.data, str) == |cur.data| {
            return Plug(ctx, Leaf(cur.hash, cur.data + [str]));
          }
          return Plug(ctx, cur);
        } else if Chunk(h >> BITS_PER_LEVEL) != Chunk(cur.hash >> BITS_PER_LEVEL) {
          return Plug(ctx, SplitLeaf(h, str, cur.hash, cur.data));
        } else {
          cur := PushDown(cur.hash, cur.data);
        }
      }
    }
  }
}
