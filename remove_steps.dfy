/**
 * The loop of TopLevelHamtNode::remove below a non-null slot: the walk down
 * to the key's leaf, the cut it keeps (entryToDeleteTo and hashToDeleteTo),
 * and what the slot holds once the key is erased and, when its leaf became
 * empty, the sub-tree from the cut on is handed to deleteFromNode.
 */
module HamtRemoveSteps {
  import opened HamtBitmap
  import opened HamtTrie
  import opened HamtZipper
  import opened HamtNodeOps
  import opened HamtPaths

  /**
   * The loop invariant of remove on slot `slot`, which holds `e0`: the walk
   * state, nothing written yet, the cut, and the key below the slot exactly
   * when it is below the entry reached.
   */
  ghost predicate RInv(H: string -> bv64, e0: Entry, ctx: seq<Frame>, cur: Entry, slot: nat, str: string, h: bv64, cut: nat, hcut: bv64)
  {
    Walk(H, ctx, cur, slot, str, h) && Plug(ctx, cur) == e0 && Cut(H, ctx, cut, hcut, str) &&
    (str in Keys(e0) <==> str in Keys(cur))
  }

  /** What remove leaves in slot `slot`, which held `e0` and the key: a well-formed slot without the key. */
  ghost predicate RDone(H: string -> bv64, e0: Entry, e: Entry, slot: nat, str: string)
  {
    str in Keys(e0) && WfSlot(H, e, slot) && Keys(e) == Keys(e0) - {str}
  }

  /** The walk starts at the slot, with the cut at the slot and the hash of its children's chunk. */
  lemma RStart(H: string -> bv64, e: Entry, slot: nat, str: string, hash: bv64, hcut: bv64)
    requires WfSlot(H, e, slot) && e != Null && hash == H(str) && Chunk(hash) as int == slot
    requires hcut == hash >> BITS_PER_LEVEL
    ensures RInv(H, e, [], e, slot, str, hash, 0, hcut)
  {
    ShrStep(H(str), 0);
    assert Plug([], e) == e;
    assert Walk(H, [], e, slot, str, hash);
    assert Cut(H, [], 0, hcut, str);
  }

  /** The entry reached is not null, and shifting the hash once more gives the key's hash at the next depth. */
  lemma RNextHash(H: string -> bv64, e0: Entry, ctx: seq<Frame>, cur: Entry, slot: nat, str: string, h: bv64, cut: nat, hcut: bv64, h': bv64)
    requires RInv(H, e0, ctx, cur, slot, str, h, cut, hcut) && h' == h >> BITS_PER_LEVEL
    ensures cur != Null && h' == Shr(H(str), |ctx| + 1)
  {
    ShrStep(H(str), |ctx|);
  }

  /**
   * Passing a node of `f.bitmap`: the cut moves to it when it has more than
   * one child, and stays otherwise.
   */
  lemma CutSnoc(H: string -> bv64, ctx: seq<Frame>, cut: nat, hcut: bv64, f: Frame, cut': nat, hcut': bv64, str: string)
    requires Cut(H, ctx, cut, hcut, str) && NumberOfChildren(f.bitmap) >= 1
    requires NumberOfChildren(f.bitmap) > 1 ==> cut' == |ctx| && hcut' == Shr(H(str), |ctx| + 1)
    requires NumberOfChildren(f.bitmap) <= 1 ==> cut' == cut && hcut' == hcut
    ensures Cut(H, ctx + [f], cut', hcut', str)
  {
    var ctx' := ctx + [f];
    assert ctx'[|ctx|] == f;
    forall k | cut' < k < |ctx'|
      ensures NumberOfChildren(ctx'[k].bitmap) == 1
    {
      if k < |ctx| {
        assert ctx'[k] == ctx[k];
      }
    }
    if cut' > 0 && cut' < |ctx| {
      assert ctx'[cut'] == ctx[cut'];
    }
  }

  /**
   * The node case of remove: the cut is updated for the node, and then
   * either the walk goes on into the child numberOfHashesAbove points at, or
   * the map lacks the key's next chunk `h'` and the key is not in the slot.
   */
  lemma RNodeCase(H: string -> bv64, e0: Entry, ctx: seq<Frame>, cur: Entry, slot: nat, str: string, h: bv64, h': bv64,
                  cut: nat, hcut: bv64, cut': nat, hcut': bv64, has: bool, idx: int)
    requires RInv(H, e0, ctx, cur, slot, str, h, cut, hcut) && cur.Node? && h' == Shr(H(str), |ctx| + 1)
    requires NumberOfChildren(cur.bitmap) > 1 ==> cut' == |ctx| && hcut' == h'
    requires NumberOfChildren(cur.bitmap) <= 1 ==> cut' == cut && hcut' == hcut
    requires has == ContainsHash(cur.bitmap, h') && idx == NumberOfHashesAbove(cur.bitmap, h')
    ensures has ==> 1 <= idx <= |cur.children| && |ctx| < 10
    ensures has ==> RInv(H, e0, ctx + [Frame(cur.bitmap, cur.children[..idx - 1], cur.children[idx..])], cur.children[idx - 1], slot, str, h', cut', hcut')
    ensures !has ==> str !in Keys(e0)
  {
    var m, ch := cur.bitmap, cur.children;
    if has {
      DescendWalk(H, ctx, m, ch, slot, str, h, h', idx);
      ChildKeys(m, ch, idx - 1);
      CutSnoc(H, ctx, cut, hcut, Frame(m, ch[..idx - 1], ch[idx..]), cut', hcut', str);
    } else {
      NodeKeyAbsent(H, m, ch, |ctx|, str);
    }
  }

  /**
   * The leaf case of remove, `i` being where std::find stops: the key is
   * absent; or it is erased from a leaf that keeps other keys; or the leaf
   * becomes empty and deleteFromNode, applied at the cut, removes the
   * one-child chain down to it.
   */
  lemma RLeafCase(H: string -> bv64, e0: Entry, ctx: seq<Frame>, cur: Entry, slot: nat, str: string, h: bv64, cut: nat, hcut: bv64, i: nat)
    requires RInv(H, e0, ctx, cur, slot, str, h, cut, hcut) && cur.Leaf? && i == Find(cur.data, str)
    ensures i == |cur.data| ==> str !in Keys(e0)
    ensures i < |cur.data| && |Erase(cur.data, i)| > 0 ==>
      RDone(H, e0, Plug(ctx, Leaf(cur.hash, Erase(cur.data, i))), slot, str)
    ensures i < |cur.data| && |Erase(cur.data, i)| == 0 ==>
      CutReady(ctx, cut, cur.hash, hcut) && RDone(H, e0, AfterCut(ctx, cut, cur.hash, hcut), slot, str)
  {
    var lh, data := cur.hash, cur.data;
    LeafFind(lh, data, str);
    if i < |data| {
      if |data| > 1 {
        EraseBack(H, ctx, lh, data, i, slot);
      } else {
        assert data == [str];
        CutDeletable(H, ctx, cut, hcut, lh, str, slot);
        CutBack(H, ctx, cut, hcut, lh, str, slot);
      }
    }
  }

  /**
   * The loop of remove below a non-null slot `e`: whether the key was there,
   * and what the slot holds afterwards.
   */
  method RemoveBelow(ghost H: string -> bv64, e: Entry, ghost slot: nat, hash: bv64, str: string) returns (removed: bool, e': Entry)
    requires WfSlot(H, e, slot) && e != Null && hash == H(str) && Chunk(hash) as int == slot
    ensures removed <==> str in Keys(e)
    ensures removed ==> WfSlot(H, e', slot) && Keys(e') == Keys(e) - {str}
    ensures !removed ==> e' == e
  {
    var cut: nat, hcut := 0, hash >> BITS_PER_LEVEL;
    RStart(H, e, slot, str, hash, hcut);
    var ctx: seq<Frame> := [];
    var cur := e;
    var h := hash;
    while true
      invariant RInv(H, e, ctx, cur, slot, str, h, cut, hcut) && |ctx| <= 10
      decreases 10 - |ctx|
    {
      var h' := h >> BITS_PER_LEVEL;
      RNextHash(H, e, ctx, cur, slot, str, h, cut, hcut, h');
      if cur.Leaf? {
        var i := Find(cur.data, str);
        RLeafCase(H, e, ctx, cur, slot, str, h, cut, hcut, i);
        if i < |cur.data| {
          var data := Erase(cur.data, i);
          if |data| == 0 {
            return true, AfterCut(ctx, cut, cur.hash, hcut);
          }
          return true, Plug(ctx, Leaf(cur.hash, data));
        }
        return false, e;
      }
      ghost var cut0, hcut0 := cut, hcut;
      if NumberOfChildren(cur.bitmap) > 1 {
        cut, hcut := |ctx|, h';
      }
      var has, idx := ContainsHash(cur.bitmap, h'), NumberOfHashesAbove(cur.bitmap, h');
      RNodeCase(H, e, ctx, cur, slot, str, h, h', cut0, hcut0, cut, hcut, has, idx);
      if !has {
        return false, e;
      }
      ctx, cur, h := ctx + [Frame(cur.bitmap, cur.children[..idx - 1], cur.children[idx..])], cur.children[idx - 1], h';
    }
  }
}
