/**
 * The entry pointer that insert, lookup and remove walk down the trie.  The
 * C++ code holds a `HamtNodeEntry *` into some node's children array; here
 * the path from the top-level slot to that entry is a sequence of frames, one
 * per node passed, and writing through the pointer is plugging a new entry
 * into the hole at the bottom of the path.
 */
module HamtZipper {
  import opened HamtBitmap
  import opened HamtTrie

  /**
   * A node the path went through: its map, the children before the one taken
   * and the children after it.
   */
  datatype Frame = Frame(bitmap: bv64, left: seq<Entry>, right: seq<Entry>)

  /** The entry the path starts from, once `x` is written where the path ends. */
  function Plug(ctx: seq<Frame>, x: Entry): Entry
    decreases |ctx|
  {
    if |ctx| == 0 then x
    else Node(ctx[0].bitmap, ctx[0].left + [Plug(ctx[1..], x)] + ctx[0].right)
  }

  /** The keys below the children of a frame that the path did not take. */
  ghost function Siblings(f: Frame): set<string>
  {
    Keys(Node(f.bitmap, f.left + f.right))
  }

  /** The keys off the path. */
  ghost function CtxKeys(ctx: seq<Frame>): set<string>
    decreases |ctx|
  {
    if |ctx| == 0 then {} else Siblings(ctx[0]) + CtxKeys(ctx[1..])
  }

  /**
   * Every node of the path, the first at depth `d`, sends key `s` into the
   * child the path takes.
   */
  ghost predicate Routed(H: string -> bv64, ctx: seq<Frame>, s: string, d: nat)
    decreases |ctx|
  {
    |ctx| == 0 ||
    (RoutesTo(ctx[0].bitmap, Shr(H(s), d + 1), |ctx[0].left|) && Routed(H, ctx[1..], s, d + 1))
  }

  /** The keys below the start of a path: those off the path and those at its end. */
  lemma {:induction false} PlugKeys(ctx: seq<Frame>, x: Entry)
    ensures Keys(Plug(ctx, x)) == CtxKeys(ctx) + Keys(x)
    decreases |ctx|
  {
    if |ctx| > 0 {
      PlugKeys(ctx[1..], x);
      NodeKeysSplit(ctx[0].bitmap, ctx[0].left, Plug(ctx[1..], x), ctx[0].right);
    }
  }

  /** Going one node further down: the new frame's node is written at the old end. */
  lemma {:induction false} PlugSnoc(ctx: seq<Frame>, f: Frame, y: Entry)
    ensures Plug(ctx + [f], y) == Plug(ctx, Node(f.bitmap, f.left + [y] + f.right))
    decreases |ctx|
  {
    if |ctx| > 0 {
      assert (ctx + [f])[1..] == ctx[1..] + [f];
      PlugSnoc(ctx[1..], f, y);
    }
  }

  /** A path is its first `k` frames followed by the rest. */
  lemma {:induction false} PlugSplit(ctx: seq<Frame>, k: nat, x: Entry)
    requires k <= |ctx|
    ensures Plug(ctx, x) == Plug(ctx[..k], Plug(ctx[k..], x))
    decreases k
  {
    if k > 0 {
      assert ctx[..k][1..] == ctx[1..][..k - 1];
      assert ctx[k..] == ctx[1..][k - 1..];
      PlugSplit(ctx[1..], k - 1, x);
    }
  }

  /** The keys off a path are those off its first `k` frames and those off the rest. */
  lemma {:induction false} CtxKeysSplit(ctx: seq<Frame>, k: nat)
    requires k <= |ctx|
    ensures CtxKeys(ctx) == CtxKeys(ctx[..k]) + CtxKeys(ctx[k..])
    decreases k
  {
    if k > 0 {
      assert ctx[..k][1..] == ctx[1..][..k - 1];
      assert ctx[k..] == ctx[1..][k - 1..];
      CtxKeysSplit(ctx[1..], k - 1);
    }
  }

  /** A key is routed along a longer path when it is routed along the shorter one and by the new node. */
  lemma {:induction false} RoutedSnoc(H: string -> bv64, ctx: seq<Frame>, f: Frame, s: string, d: nat)
    ensures Routed(H, ctx + [f], s, d)
        <==> Routed(H, ctx, s, d) && RoutesTo(f.bitmap, Shr(H(s), d + |ctx| + 1), |f.left|)
    decreases |ctx|
  {
    if |ctx| > 0 {
      assert (ctx + [f])[1..] == ctx[1..] + [f];
      RoutedSnoc(H, ctx[1..], f, s, d + 1);
    }
  }

  /** A key routed along a path is routed along each of its prefixes. */
  lemma {:induction false} RoutedPrefix(H: string -> bv64, ctx: seq<Frame>, k: nat, s: string, d: nat)
    requires k <= |ctx| && Routed(H, ctx, s, d)
    ensures Routed(H, ctx[..k], s, d)
    decreases k
  {
    if k > 0 {
      assert ctx[..k][1..] == ctx[1..][..k - 1];
      RoutedPrefix(H, ctx[1..], k - 1, s, d + 1);
    }
  }

  /** The child at the hole of a well-formed node is well-formed and its keys route to the hole. */
  lemma NodeChildWf(H: string -> bv64, m: bv64, l: seq<Entry>, c: Entry, r: seq<Entry>, d: nat)
    requires WfAt(H, Node(m, l + [c] + r), d)
    ensures c != Null && WfAt(H, c, d + 1)
    ensures forall s :: s in Keys(c) ==> RoutesTo(m, Shr(H(s), d + 1), |l|)
  {
    assert (l + [c] + r)[|l|] == c;
  }

  /** Replacing the child at the hole keeps a node well-formed when the new child routes to the hole. */
  lemma NodeReplaceWf(H: string -> bv64, m: bv64, l: seq<Entry>, c: Entry, c': Entry, r: seq<Entry>, d: nat)
    requires WfAt(H, Node(m, l + [c] + r), d)
    requires c' != Null && WfAt(H, c', d + 1)
    requires forall s :: s in Keys(c') ==> RoutesTo(m, Shr(H(s), d + 1), |l|)
    ensures WfAt(H, Node(m, l + [c'] + r), d)
  {
    var ch, ch' := l + [c] + r, l + [c'] + r;
    forall j | 0 <= j < |ch'| && j != |l|
      ensures ch'[j] == ch[j]
    {
    }
  }

  /** Below a node the end of a path through a well-formed entry is not null. */
  lemma {:induction false} PlugEndNotNull(H: string -> bv64, ctx: seq<Frame>, x: Entry, d: nat)
    requires WfAt(H, Plug(ctx, x), d)
    ensures |ctx| > 0 ==> x != Null
    decreases |ctx|
  {
    if |ctx| > 0 {
      var f := ctx[0];
      NodeChildWf(H, f.bitmap, f.left, Plug(ctx[1..], x), f.right, d);
      PlugEndNotNull(H, ctx[1..], x, d + 1);
    }
  }

  /** The end of a path through a well-formed entry is well-formed at depth `e`, the path's length below `d`. */
  lemma {:induction false} PlugEndWf(H: string -> bv64, ctx: seq<Frame>, x: Entry, d: nat, e: nat)
    requires WfAt(H, Plug(ctx, x), d) && e == d + |ctx|
    ensures WfAt(H, x, e)
    decreases |ctx|
  {
    if |ctx| > 0 {
      var f := ctx[0];
      NodeChildWf(H, f.bitmap, f.left, Plug(ctx[1..], x), f.right, d);
      PlugEndWf(H, ctx[1..], x, d + 1, e);
    }
  }

  /** The keys at the end of a path through a well-formed entry are routed along the path. */
  lemma {:induction false} PlugEndRouted(H: string -> bv64, ctx: seq<Frame>, x: Entry, d: nat)
    requires WfAt(H, Plug(ctx, x), d)
    ensures forall s :: s in Keys(x) ==> Routed(H, ctx, s, d)
    decreases |ctx|
  {
    if |ctx| > 0 {
      var f := ctx[0];
      NodeChildWf(H, f.bitmap, f.left, Plug(ctx[1..], x), f.right, d);
      PlugEndRouted(H, ctx[1..], x, d + 1);
      PlugKeys(ctx[1..], x);
    }
  }

  /** The end of a path through a well-formed entry is well-formed, and its keys are routed along the path. */
  lemma PlugSubtree(H: string -> bv64, ctx: seq<Frame>, x: Entry, d: nat)
    requires WfAt(H, Plug(ctx, x), d)
    ensures |ctx| > 0 ==> x != Null
    ensures WfAt(H, x, d + |ctx|)
    ensures forall s :: s in Keys(x) ==> Routed(H, ctx, s, d)
  {
    PlugEndNotNull(H, ctx, x, d);
    PlugEndWf(H, ctx, x, d, d + |ctx|);
    PlugEndRouted(H, ctx, x, d);
  }

  /**
   * Writing a new entry at the end of a path through a well-formed entry keeps
   * it well-formed when the new entry is well-formed at that depth, is not null
   * below a node, and all its keys are routed along the path.
   */
  lemma {:induction false} PlugReplace(H: string -> bv64, ctx: seq<Frame>, x: Entry, y: Entry, d: nat)
    requires WfAt(H, Plug(ctx, x), d)
    requires |ctx| > 0 ==> y != Null
    requires WfAt(H, y, d + |ctx|)
    requires forall s :: s in Keys(y) ==> Routed(H, ctx, s, d)
    ensures WfAt(H, Plug(ctx, y), d)
    decreases |ctx|
  {
    if |ctx| > 0 {
      var f := ctx[0];
      NodeChildWf(H, f.bitmap, f.left, Plug(ctx[1..], x), f.right, d);
      PlugReplace(H, ctx[1..], x, y, d + 1);
      PlugKeys(ctx[1..], x);
      PlugKeys(ctx[1..], y);
      NodeReplaceWf(H, f.bitmap, f.left, Plug(ctx[1..], x), Plug(ctx[1..], y), f.right, d);
    }
  }

  /** A key routed along a path through a well-formed entry is not off the path. */
  lemma {:induction false} PlugIsolation(H: string -> bv64, ctx: seq<Frame>, x: Entry, s: string, d: nat)
    requires WfAt(H, Plug(ctx, x), d) && Routed(H, ctx, s, d)
    ensures s !in CtxKeys(ctx)
    decreases |ctx|
  {
    if |ctx| > 0 {
      var f := ctx[0];
      var ch := f.left + [Plug(ctx[1..], x)] + f.right;
      NodeChildWf(H, f.bitmap, f.left, Plug(ctx[1..], x), f.right, d);
      PlugIsolation(H, ctx[1..], x, s, d + 1);
      if s in Siblings(f) {
        var j :| 0 <= j < |f.left + f.right| && s in Keys((f.left + f.right)[j]);
        var k := if j < |f.left| then j else j + 1;
        assert ch[k] == (f.left + f.right)[j];
        RoutesToUnique(f.bitmap, Shr(H(s), d + 1), Shr(H(s), d + 1), k, |f.left|);
      }
    }
  }

  /** Along a path of one-child nodes through a well-formed entry there is nothing off the path. */
  lemma {:induction false} ChainKeys(H: string -> bv64, ctx: seq<Frame>, x: Entry, d: nat)
    requires WfAt(H, Plug(ctx, x), d)
    requires forall k :: 0 <= k < |ctx| ==> NumberOfChildren(ctx[k].bitmap) == 1
    ensures CtxKeys(ctx) == {}
    decreases |ctx|
  {
    if |ctx| > 0 {
      var f := ctx[0];
      NodeChildWf(H, f.bitmap, f.left, Plug(ctx[1..], x), f.right, d);
      assert f.left + f.right == [];
      forall k | 0 <= k < |ctx[1..]|
        ensures NumberOfChildren(ctx[1..][k].bitmap) == 1
      {
        assert ctx[1..][k] == ctx[k + 1];
      }
      ChainKeys(H, ctx[1..], x, d + 1);
    }
  }
}
