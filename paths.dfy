/**
 * What the three walks of TopLevelHamtNode need to know about the path from a
 * top-level slot down to the entry pointer: where a key must be found, and
 * what writing a new entry through the pointer does to the slot's keys and to
 * its invariant.
 */
module HamtPaths {
  import opened HamtBitmap
  import opened HamtTrie
  import opened HamtZipper
  import opened HamtNodeOps

  /**
   * The state of a walk from slot `slot` towards key `str`: the path taken,
   * the entry reached (not null), and the key's hash shifted to its depth.
   */
  ghost predicate Walk(H: string -> bv64, ctx: seq<Frame>, cur: Entry, slot: nat, str: string, h: bv64)
  {
    WfSlot(H, Plug(ctx, cur), slot) && cur != Null && |ctx| <= 10 && WfAt(H, cur, |ctx|) &&
    Chunk(H(str)) as int == slot && h == Shr(H(str), |ctx|) && Routed(H, ctx, str, 0)
  }

  /** The parts of a walk state. */
  lemma WalkParts(H: string -> bv64, ctx: seq<Frame>, cur: Entry, slot: nat, str: string, h: bv64)
    requires Walk(H, ctx, cur, slot, str, h)
    ensures WfSlot(H, Plug(ctx, cur), slot) && cur != Null && |ctx| <= 10 && WfAt(H, cur, |ctx|)
    ensures Chunk(H(str)) as int == slot && h == Shr(H(str), |ctx|) && Routed(H, ctx, str, 0)
  {
  }

  /** A walk state from its parts. */
  lemma WalkMake(H: string -> bv64, ctx: seq<Frame>, cur: Entry, slot: nat, str: string, h: bv64)
    requires WfSlot(H, Plug(ctx, cur), slot) && cur != Null && |ctx| <= 10 && WfAt(H, cur, |ctx|)
    requires Chunk(H(str)) as int == slot && h == Shr(H(str), |ctx|) && Routed(H, ctx, str, 0)
    ensures Walk(H, ctx, cur, slot, str, h)
  {
  }

  /** Taking child `idx - 1` of the node at the end of a path: one frame more, and the same entry at the start. */
  lemma DescendPlug(ctx: seq<Frame>, m: bv64, ch: seq<Entry>, idx: int)
    requires 1 <= idx <= |ch|
    ensures Plug(ctx + [Frame(m, ch[..idx - 1], ch[idx..])], ch[idx - 1]) == Plug(ctx, Node(m, ch))
  {
    var f := Frame(m, ch[..idx - 1], ch[idx..]);
    assert ch[..idx - 1] + [ch[idx - 1]] + ch[idx..] == ch;
    PlugSnoc(ctx, f, ch[idx - 1]);
  }

  /**
   * A node whose map has the key's next chunk `h'`: the walk goes on into the
   * child numberOfHashesAbove points at, one frame longer.
   */
  lemma {:induction false} DescendWalk(H: string -> bv64, ctx: seq<Frame>, m: bv64, ch: seq<Entry>, slot: nat, str: string, h: bv64, h': bv64, idx: int)
    requires Walk(H, ctx, Node(m, ch), slot, str, h) && h' == Shr(H(str), |ctx| + 1)
    requires ContainsHash(m, h') && idx == NumberOfHashesAbove(m, h')
    ensures 1 <= idx <= |ch|
    ensures Walk(H, ctx + [Frame(m, ch[..idx - 1], ch[idx..])], ch[idx - 1], slot, str, h')
    ensures Plug(ctx + [Frame(m, ch[..idx - 1], ch[idx..])], ch[idx - 1]) == Plug(ctx, Node(m, ch))
    ensures str in Keys(Node(m, ch)) ==> str in Keys(ch[idx - 1])
  {
    var n := |ctx|;
    WalkParts(H, ctx, Node(m, ch), slot, str, h);
    NodeStep(H, m, ch, n, str, h');
    var f := Frame(m, ch[..idx - 1], ch[idx..]);
    var ctx', c := ctx + [f], ch[idx - 1];
    DescendPlug(ctx, m, ch, idx);
    RoutedSnoc(H, ctx, f, str, 0);
    WalkMake(H, ctx', c, slot, str, h');
  }

  /**
   * A key stored below a well-formed node has its chunk set in the map, and
   * it is below the child numberOfHashesAbove points at.
   */
  lemma NodeKeyRoute(H: string -> bv64, m: bv64, ch: seq<Entry>, d: nat, s: string)
    requires WfAt(H, Node(m, ch), d) && s in Keys(Node(m, ch))
    ensures ContainsHash(m, Shr(H(s), d + 1))
    ensures 1 <= NumberOfHashesAbove(m, Shr(H(s), d + 1)) <= |ch|
    ensures s in Keys(ch[NumberOfHashesAbove(m, Shr(H(s), d + 1)) - 1])
  {
    var j :| 0 <= j < |ch| && s in Keys(ch[j]);
    assert RoutesTo(m, Shr(H(s), d + 1), j);
  }

  /** std::find finds a key in a leaf exactly when the key is stored there. */
  lemma LeafFind(h: bv64, data: seq<string>, str: string)
    ensures Find(data, str) < |data| <==> str in Keys(Leaf(h, data))
  {
    if str in data {
      var k :| 0 <= k < |data| && data[k] == str;
    }
  }

  /** A key whose chunk is not set in a well-formed node's map is not below the node. */
  lemma NodeKeyAbsent(H: string -> bv64, m: bv64, ch: seq<Entry>, d: nat, s: string)
    requires WfAt(H, Node(m, ch), d) && !ContainsHash(m, Shr(H(s), d + 1))
    ensures s !in Keys(Node(m, ch))
  {
    if s in Keys(Node(m, ch)) {
      NodeKeyRoute(H, m, ch, d, s);
    }
  }

  /**
   * One step of a walk down a well-formed node with the key's hash at the
   * next depth: a key is below the node exactly when its chunk is set and it
   * is below the child numberOfHashesAbove points at, which is well-formed one
   * level down.
   */
  lemma {:induction false} NodeStep(H: string -> bv64, m: bv64, ch: seq<Entry>, d: nat, str: string, h: bv64)
    requires WfAt(H, Node(m, ch), d) && h == Shr(H(str), d + 1)
    ensures d < 10
    ensures !ContainsHash(m, h) ==> str !in Keys(Node(m, ch))
    ensures ContainsHash(m, h) ==>
      var idx := NumberOfHashesAbove(m, h);
      1 <= idx <= |ch| && ch[idx - 1] != Null && WfAt(H, ch[idx - 1], d + 1) &&
      (str in Keys(Node(m, ch)) <==> str in Keys(ch[idx - 1]))
  {
    if ContainsHash(m, h) {
      RoutesToBounds(m, h);
      var idx := NumberOfHashesAbove(m, h);
      if str in Keys(Node(m, ch)) {
        NodeKeyRoute(H, m, ch, d, str);
      }
      ChildKeys(m, ch, idx - 1);
    } else {
      NodeKeyAbsent(H, m, ch, d, str);
    }
  }

  /** The keys below a child are keys of the node. */
  lemma ChildKeys(m: bv64, ch: seq<Entry>, j: nat)
    requires j < |ch|
    ensures Keys(ch[j]) <= Keys(Node(m, ch))
  {
  }

  /** The last node of a path a key is routed along sends it to the child taken. */
  lemma RoutedLast(H: string -> bv64, ctx: seq<Frame>, s: string, d: nat)
    requires |ctx| > 0 && Routed(H, ctx, s, d)
    ensures RoutesTo(ctx[|ctx| - 1].bitmap, Shr(H(s), d + |ctx|), |ctx[|ctx| - 1].left|)
  {
    var n := |ctx|;
    assert ctx[..n - 1] + [ctx[n - 1]] == ctx;
    RoutedSnoc(H, ctx[..n - 1], ctx[n - 1], s, d);
  }

  /**
   * The chunk of a new key at a leaf the walk reached is the chunk of the
   * leaf's hash: the top-level table or the parent node sent both there.
   */
  lemma LeafChunk(H: string -> bv64, ctx: seq<Frame>, oh: bv64, data: seq<string>, slot: nat, str: string)
    requires WfSlot(H, Plug(ctx, Leaf(oh, data)), slot)
    requires Routed(H, ctx, str, 0) && Chunk(H(str)) as int == slot
    ensures Chunk(Shr(H(str), |ctx|)) == Chunk(oh)
  {
    var n := |ctx|;
    PlugSubtree(H, ctx, Leaf(oh, data), 0);
    var s := data[0];
    PlugKeys(ctx, Leaf(oh, data));
    if n == 0 {
      SameSlot(H(str), H(s));
    } else {
      RoutedLast(H, ctx, str, 0);
      RoutedLast(H, ctx, s, 0);
      var last := ctx[n - 1];
      var a, b := Shr(H(str), n), Shr(H(s), n);
      RoutesToUnique(last.bitmap, a, b, |last.left|, |last.left|);
    }
  }

  /** Writing an entry with more keys at the end of a path adds just those keys to the start. */
  lemma PlugAdded(ctx: seq<Frame>, cur: Entry, y: Entry, added: set<string>)
    requires Keys(y) == Keys(cur) + added
    ensures Keys(Plug(ctx, y)) == Keys(Plug(ctx, cur)) + added
  {
    PlugKeys(ctx, cur);
    PlugKeys(ctx, y);
  }

  /** Writing an entry with fewer keys at the end of a path removes just those keys, when none is off the path. */
  lemma PlugRemoved(ctx: seq<Frame>, cur: Entry, y: Entry, removed: set<string>)
    requires Keys(y) == Keys(cur) - removed && removed !! CtxKeys(ctx)
    ensures Keys(Plug(ctx, y)) == Keys(Plug(ctx, cur)) - removed
  {
    PlugKeys(ctx, cur);
    PlugKeys(ctx, y);
  }

  /** A slot whose keys are among those of a slot and others of its chunk keeps the chunk condition. */
  lemma SlotChunks(H: string -> bv64, e: Entry, e': Entry, slot: nat, extra: set<string>)
    requires WfSlot(H, e, slot) && WfAt(H, e', 0)
    requires Keys(e') <= Keys(e) + extra && forall s :: s in extra ==> Chunk(H(s)) as int == slot
    ensures WfSlot(H, e', slot)
  {
  }

  /** The keys of the old end and the new key routed along a path make all keys of the new end routed. */
  lemma AddedRouted(H: string -> bv64, ctx: seq<Frame>, cur: Entry, y: Entry, str: string, added: set<string>)
    requires forall s :: s in Keys(cur) ==> Routed(H, ctx, s, 0)
    requires Keys(y) == Keys(cur) + added && added <= {str} && Routed(H, ctx, str, 0)
    ensures forall s :: s in Keys(y) ==> Routed(H, ctx, s, 0)
  {
  }

  /** The well-formedness half of WriteBack. */
  lemma WriteBackWf(H: string -> bv64, ctx: seq<Frame>, cur: Entry, y: Entry, str: string, added: set<string>)
    requires WfAt(H, Plug(ctx, cur), 0)
    requires |ctx| > 0 ==> y != Null
    requires WfAt(H, y, |ctx|)
    requires Keys(y) == Keys(cur) + added && added <= {str} && Routed(H, ctx, str, 0)
    ensures WfAt(H, Plug(ctx, y), 0)
  {
    PlugEndRouted(H, ctx, cur, 0);
    AddedRouted(H, ctx, cur, y, str, added);
    PlugReplace(H, ctx, cur, y, 0);
  }

  /**
   * Writing `y` through the entry pointer of insert, where `y` holds the keys
   * of the old entry and possibly the new key, keeps the slot well-formed and
   * adds those keys to it.
   */
  lemma WriteBack(H: string -> bv64, ctx: seq<Frame>, cur: Entry, y: Entry, slot: nat, str: string, added: set<string>)
    requires WfSlot(H, Plug(ctx, cur), slot)
    requires |ctx| > 0 ==> y != Null
    requires WfAt(H, y, |ctx|)
    requires Keys(y) == Keys(cur) + added && added <= {str}
    requires Routed(H, ctx, str, 0) && Chunk(H(str)) as int == slot
    ensures WfSlot(H, Plug(ctx, y), slot)
    ensures Keys(Plug(ctx, y)) == Keys(Plug(ctx, cur)) + added
  {
    WriteBackWf(H, ctx, cur, y, str, added);
    PlugAdded(ctx, cur, y, added);
    SlotChunks(H, Plug(ctx, cur), Plug(ctx, y), slot, added);
  }

  /**
   * Erasing a key from a leaf of two or more keys at the end of a path keeps
   * the slot well-formed and removes just that key from it.
   */
  lemma EraseBack(H: string -> bv64, ctx: seq<Frame>, lh: bv64, data: seq<string>, i: nat, slot: nat)
    requires WfSlot(H, Plug(ctx, Leaf(lh, data)), slot)
    requires i < |data| && |data| > 1
    ensures WfSlot(H, Plug(ctx, Leaf(lh, Erase(data, i))), slot)
    ensures Keys(Plug(ctx, Leaf(lh, Erase(data, i)))) == Keys(Plug(ctx, Leaf(lh, data))) - {data[i]}
  {
    var cur, y := Leaf(lh, data), Leaf(lh, Erase(data, i));
    var str := data[i];
    PlugSubtree(H, ctx, cur, 0);
    LeafErase(H, lh, data, i, |ctx|);
    PlugReplace(H, ctx, cur, y, 0);
    PlugIsolation(H, ctx, cur, str, 0);
    PlugRemoved(ctx, cur, y, {str});
    SlotChunks(H, Plug(ctx, cur), Plug(ctx, y), slot, {});
  }

  /**
   * The cut of remove (entryToDeleteTo and hashToDeleteTo): the path is cut
   * at depth `cut`, the top-level slot or the last node with more than one
   * child; every node after it has one child; `hcut` is the hash the node at
   * the cut routes the key with.
   */
  ghost predicate Cut(H: string -> bv64, ctx: seq<Frame>, cut: nat, hcut: bv64, str: string)
  {
    cut <= |ctx| && (|ctx| > 0 ==> cut < |ctx|) &&
    hcut == Shr(H(str), cut + 1) &&
    (cut > 0 ==> NumberOfChildren(ctx[cut].bitmap) > 1) &&
    forall k :: cut < k < |ctx| ==> NumberOfChildren(ctx[k].bitmap) == 1
  }

  /** The entry remove hands to deleteFromNode: the path from the cut on, ending in the emptied leaf. */
  function CutEntry(ctx: seq<Frame>, cut: nat, lh: bv64): Entry
    requires cut <= |ctx|
  {
    Plug(ctx[cut..], Leaf(lh, []))
  }

  /**
   * The entry at the cut satisfies deleteFromNode's preconditions: it is not
   * null, and if it is a node, its map has the key's chunk and its children
   * match the map.
   */
  lemma {:induction false} CutDeletable(H: string -> bv64, ctx: seq<Frame>, cut: nat, hcut: bv64, lh: bv64, str: string, slot: nat)
    requires WfSlot(H, Plug(ctx, Leaf(lh, [str])), slot) && Cut(H, ctx, cut, hcut, str)
    ensures CutEntry(ctx, cut, lh) != Null
    ensures CutEntry(ctx, cut, lh).Node? ==>
      |ctx| > 0 && CutEntry(ctx, cut, lh).bitmap == ctx[cut].bitmap &&
      RoutesTo(ctx[cut].bitmap, hcut, |ctx[cut].left|) &&
      |CutEntry(ctx, cut, lh).children| == NumberOfChildren(ctx[cut].bitmap)
  {
    if |ctx| > 0 {
      var cur := Leaf(lh, [str]);
      PlugSplit(ctx, cut, cur);
      PlugSubtree(H, ctx[..cut], Plug(ctx[cut..], cur), 0);
      PlugSubtree(H, ctx, cur, 0);
      assert str in Keys(cur);
      RoutedPrefix(H, ctx, cut + 1, str, 0);
      RoutedLast(H, ctx[..cut + 1], str, 0);
      assert ctx[..cut + 1][cut] == ctx[cut] && ctx[cut..][0] == ctx[cut];
    }
  }

  /** The precondition of deleteFromNode for the entry at the cut. */
  ghost predicate CutReady(ctx: seq<Frame>, cut: nat, lh: bv64, hcut: bv64)
  {
    cut <= |ctx| && CutEntry(ctx, cut, lh) != Null &&
    (CutEntry(ctx, cut, lh).Node? ==>
      ContainsHash(CutEntry(ctx, cut, lh).bitmap, hcut) &&
      |CutEntry(ctx, cut, lh).children| == NumberOfChildren(CutEntry(ctx, cut, lh).bitmap))
  }

  /** The slot after remove deleted from the cut: the path up to the cut, ending in what deleteFromNode left. */
  function AfterCut(ctx: seq<Frame>, cut: nat, lh: bv64, hcut: bv64): Entry
    requires CutReady(ctx, cut, lh, hcut)
  {
    Plug(ctx[..cut], DeleteFromNode(CutEntry(ctx, cut, lh), hcut))
  }

  /**
   * When the node at the cut has one child, or the path is empty, the cut is
   * the top-level slot and the key was the slot's only key.
   */
  lemma {:induction false} CutWhole(H: string -> bv64, ctx: seq<Frame>, cut: nat, hcut: bv64, lh: bv64, str: string, slot: nat)
    requires WfSlot(H, Plug(ctx, Leaf(lh, [str])), slot) && Cut(H, ctx, cut, hcut, str)
    requires |ctx| == 0 || NumberOfChildren(ctx[cut].bitmap) == 1
    ensures cut == 0 && Keys(Plug(ctx, Leaf(lh, [str]))) == {str}
  {
    var cur := Leaf(lh, [str]);
    ChainKeys(H, ctx, cur, 0);
    PlugKeys(ctx, cur);
  }

  /** When the node at the cut has two or more children, deleteFromNode drops the child the path took. */
  lemma {:induction false} CutDelete(H: string -> bv64, ctx: seq<Frame>, cut: nat, hcut: bv64, lh: bv64, str: string, slot: nat)
    requires WfSlot(H, Plug(ctx, Leaf(lh, [str])), slot) && Cut(H, ctx, cut, hcut, str)
    requires |ctx| > 0 && NumberOfChildren(ctx[cut].bitmap) > 1
    requires CutReady(ctx, cut, lh, hcut)
    ensures DeleteFromNode(CutEntry(ctx, cut, lh), hcut) ==
      Node(UnmarkHash(ctx[cut].bitmap, hcut), ctx[cut].left + ctx[cut].right)
  {
    CutDeletable(H, ctx, cut, hcut, lh, str, slot);
    var f := ctx[cut];
    var ch := CutEntry(ctx, cut, lh).children;
    var i := |f.left|;
    assert ctx[cut..][0] == f;
    assert ch == f.left + [Plug(ctx[cut..][1..], Leaf(lh, []))] + f.right;
    assert ch[..i] + ch[i + 1..] == f.left + f.right;
  }

  /** The node left at the cut is well-formed, and with it the slot. */
  lemma {:induction false} CutNodeWf(H: string -> bv64, ctx: seq<Frame>, cut: nat, hcut: bv64, lh: bv64, str: string, slot: nat)
    requires WfSlot(H, Plug(ctx, Leaf(lh, [str])), slot) && Cut(H, ctx, cut, hcut, str)
    requires |ctx| > 0 && NumberOfChildren(ctx[cut].bitmap) > 1
    ensures WfAt(H, Plug(ctx[..cut], Node(UnmarkHash(ctx[cut].bitmap, hcut), ctx[cut].left + ctx[cut].right)), 0)
  {
    var cur := Leaf(lh, [str]);
    var f, pre, suf := ctx[cut], ctx[..cut], ctx[cut..];
    var c := Plug(suf[1..], cur);
    var x := Plug(suf, cur);
    var y := Node(UnmarkHash(f.bitmap, hcut), f.left + f.right);
    CutDeletable(H, ctx, cut, hcut, lh, str, slot);
    assert suf[0] == f;
    assert x == Node(f.bitmap, f.left + [c] + f.right);
    PlugSplit(ctx, cut, cur);
    PlugSubtree(H, pre, x, 0);
    DeleteChildWf(H, f.bitmap, f.left, c, f.right, hcut, cut);
    NodeKeysSplit(f.bitmap, f.left, c, f.right);
    assert Keys(y) == Keys(Node(f.bitmap, f.left + f.right));
    PlugReplace(H, pre, x, y, 0);
  }

  /** Below the cut the path runs through one-child nodes only, so nothing is off it there. */
  lemma {:induction false} CutChain(H: string -> bv64, ctx: seq<Frame>, cut: nat, hcut: bv64, lh: bv64, str: string, slot: nat)
    requires WfSlot(H, Plug(ctx, Leaf(lh, [str])), slot) && Cut(H, ctx, cut, hcut, str) && |ctx| > 0
    ensures CtxKeys(ctx[cut + 1..]) == {}
  {
    var cur := Leaf(lh, [str]);
    var f, pre, suf := ctx[cut], ctx[..cut], ctx[cut + 1..];
    PlugSplit(ctx, cut + 1, cur);
    PlugSubtree(H, ctx[..cut + 1], Plug(suf, cur), 0);
    forall k | 0 <= k < |suf|
      ensures NumberOfChildren(suf[k].bitmap) == 1
    {
      assert suf[k] == ctx[cut + 1 + k];
    }
    ChainKeys(H, suf, cur, cut + 1);
  }

  /** Off the path, below the cut there are only the siblings of the child the cut node sends the key to. */
  lemma {:induction false} CutSiblings(H: string -> bv64, ctx: seq<Frame>, cut: nat, hcut: bv64, lh: bv64, str: string, slot: nat)
    requires WfSlot(H, Plug(ctx, Leaf(lh, [str])), slot) && Cut(H, ctx, cut, hcut, str) && |ctx| > 0
    ensures CtxKeys(ctx) == CtxKeys(ctx[..cut]) + Siblings(ctx[cut])
  {
    var suf := ctx[cut..];
    CutChain(H, ctx, cut, hcut, lh, str, slot);
    assert suf[0] == ctx[cut] && suf[1..] == ctx[cut + 1..];
    CtxKeysSplit(ctx, cut);
  }

  /** The slot left by cutting loses exactly the removed key. */
  lemma {:induction false} CutNodeKeys(H: string -> bv64, ctx: seq<Frame>, cut: nat, hcut: bv64, lh: bv64, str: string, slot: nat)
    requires WfSlot(H, Plug(ctx, Leaf(lh, [str])), slot) && Cut(H, ctx, cut, hcut, str)
    requires |ctx| > 0 && NumberOfChildren(ctx[cut].bitmap) > 1
    ensures Keys(Plug(ctx[..cut], Node(UnmarkHash(ctx[cut].bitmap, hcut), ctx[cut].left + ctx[cut].right)))
         == Keys(Plug(ctx, Leaf(lh, [str]))) - {str}
  {
    var cur := Leaf(lh, [str]);
    var f, pre := ctx[cut], ctx[..cut];
    var y := Node(UnmarkHash(f.bitmap, hcut), f.left + f.right);
    CutSiblings(H, ctx, cut, hcut, lh, str, slot);
    assert Keys(y) == Siblings(f);
    PlugKeys(pre, y);
    PlugKeys(ctx, cur);
    PlugSubtree(H, ctx, cur, 0);
    PlugIsolation(H, ctx, cur, str, 0);
  }

  /**
   * Deleting from the cut after the key's leaf ran empty keeps the slot
   * well-formed and removes just that key from it.
   */
  lemma {:induction false} CutBack(H: string -> bv64, ctx: seq<Frame>, cut: nat, hcut: bv64, lh: bv64, str: string, slot: nat)
    requires WfSlot(H, Plug(ctx, Leaf(lh, [str])), slot) && Cut(H, ctx, cut, hcut, str)
    requires CutReady(ctx, cut, lh, hcut)
    ensures WfSlot(H, AfterCut(ctx, cut, lh, hcut), slot)
    ensures Keys(AfterCut(ctx, cut, lh, hcut)) == Keys(Plug(ctx, Leaf(lh, [str]))) - {str}
  {
    var old_ := Plug(ctx, Leaf(lh, [str]));
    if |ctx| == 0 || NumberOfChildren(ctx[cut].bitmap) == 1 {
      CutWhole(H, ctx, cut, hcut, lh, str, slot);
    } else {
      CutDelete(H, ctx, cut, hcut, lh, str, slot);
      CutNodeWf(H, ctx, cut, hcut, lh, str, slot);
      CutNodeKeys(H, ctx, cut, hcut, lh, str, slot);
      SlotChunks(H, old_, AfterCut(ctx, cut, lh, hcut), slot, {});
    }
  }
}
