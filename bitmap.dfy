/**
 * The constants of the trie and the bitmap helpers of HamtNode: a node keeps
 * a 64-bit occupancy bitmap, one bit per 6-bit chunk value, and its children
 * array holds one entry per set bit, ordered from the highest bit to the lowest.
 * Bit positions are bv64 values below 64, as in the C++ code.
 */
module HamtBitmap {

  /** The number of hash bits consumed by each level of the trie. */
  const BITS_PER_LEVEL: bv64 := 6

  /** The mask that takes those bits off a hash. */
  const FIRST_N_BITS: bv64 := (1 << BITS_PER_LEVEL) - 1

  /** The (exclusive) maximum index of a table or a bitmap. */
  const MAX_IDX: bv64 := 1 << BITS_PER_LEVEL

  /**
   * The chunk of a hash used at one level, `hash & FIRST_N_BITS`: always a
   * valid top-level table index and a valid bit position of a 64-bit bitmap.
   */
  function Chunk(hash: bv64): (c: bv64)
    ensures c < 64
  {
    hash & FIRST_N_BITS
  }

  /**
   * The header's constants: `hash & FIRST_N_BITS` is always a valid index of
   * the 64-entry top-level table and a valid bit position of a 64-bit map.
   */
  lemma ConstantsAgree(hash: bv64)
    ensures BITS_PER_LEVEL == 6 && FIRST_N_BITS == 63 && MAX_IDX == 64
    ensures Chunk(hash) < MAX_IDX
  {
  }

  /** Bit `i` of `x`. */
  predicate Bit(x: bv64, i: bv64)
    requires i < 64
  {
    x & (1 << i) != 0
  }

  /** The number of set bits of `x`, as `__builtin_popcountll` computes it. */
  function PopCount(x: bv64): nat
    decreases x
  {
    if x == 0 then 0 else (if x & 1 == 1 then 1 else 0) + PopCount(x >> 1)
  }

  /** Reference definition: the number of set bits of `m` at positions `c` and above. */
  function BitsFrom(m: bv64, c: bv64): nat
    requires c <= 64
    decreases 64 - c
  {
    if c == 64 then 0 else (if Bit(m, c) then 1 else 0) + BitsFrom(m, c + 1)
  }

  /** One step of the count: the lowest bit, then the rest. */
  lemma PopCountStep(y: bv64)
    ensures PopCount(y) == (if y & 1 == 1 then 1 else 0) + PopCount(y >> 1)
  {
    if y == 0 {
      assert y >> 1 == 0;
    }
  }

  /** Halving never grows a bitmap, and strictly shrinks a nonempty one. */
  lemma HalfSmaller(m: bv64)
    ensures m != 0 ==> m >> 1 < m
  {
  }

  /** Only the empty bitmap has no set bit. */
  lemma {:induction false} PopCountZero(x: bv64)
    ensures PopCount(x) == 0 <==> x == 0
    decreases x
  {
    if x != 0 && x & 1 == 0 {
      assert x >> 1 != 0;
      HalfSmaller(x);
      PopCountZero(x >> 1);
    }
  }

  /** The empty bitmap has no set bit at any position. */
  lemma {:induction false} BitsFromZero(c: bv64)
    requires c <= 64
    ensures BitsFrom(0, c) == 0
    decreases 64 - c
  {
    if c < 64 {
      BitsFromZero(c + 1);
    }
  }

  /** Bit `c` of `m >> 1` is bit `c + 1` of `m`. */
  lemma HalfBit(m: bv64, c: bv64)
    requires c < 63
    ensures Bit(m >> 1, c) == Bit(m, c + 1)
  {
  }

  /** Counting from `c` in `m >> 1` counts from `c + 1` in `m`. */
  lemma {:induction false} BitsFromHalf(m: bv64, c: bv64)
    requires c < 64
    ensures BitsFrom(m >> 1, c) == BitsFrom(m, c + 1)
    decreases 64 - c
  {
    if c < 63 {
      HalfBit(m, c);
      BitsFromHalf(m, c + 1);
    } else {
      assert !Bit(m >> 1, 63);
    }
  }

  /** Shifting by one and by `c` commute. */
  lemma ShiftCommutes(m: bv64, c: bv64)
    requires c < 64
    ensures (m >> c) >> 1 == (m >> 1) >> c
  {
  }

  /** Stripping bit 0 of `m >> c` leaves `(m >> 1) >> c`. */
  lemma PopCountShiftedStep(m: bv64, c: bv64)
    requires c < 64
    ensures PopCount(m >> c) as int - BitsFrom(m, c) == PopCount((m >> 1) >> c) as int - BitsFrom(m >> 1, c)
  {
    PopCountStep(m >> c);
    ShiftCommutes(m, c);
    BitsFromHalf(m, c);
  }

  /** Counting the bits of `m >> c` counts the bits of `m` at positions `c` and above. */
  lemma {:induction false} PopCountShifted(m: bv64, c: bv64)
    requires c < 64
    ensures PopCount(m >> c) == BitsFrom(m, c)
    decreases m
  {
    if m == 0 {
      assert m >> c == 0;
      BitsFromZero(c);
    } else {
      forall k: bv64 | k < m
        ensures PopCount(k >> c) == BitsFrom(k, c)
      {
        PopCountShifted(k, c);
      }
      HalfSmaller(m);
      PopCountShiftedStep(m, c);
    }
  }

  /** HamtNode::numberOfChildren. */
  function NumberOfChildren(m: bv64): nat
  {
    PopCount(m)
  }

  /** The number of children of a node is the number of set bits of its bitmap; none for an empty one. */
  lemma NumberOfChildrenCounts(m: bv64)
    ensures NumberOfChildren(m) == BitsFrom(m, 0)
    ensures NumberOfChildren(m) == 0 <==> m == 0
  {
    PopCountShifted(m, 0);
    assert m >> 0 == m;
    PopCountZero(m);
  }

  /** HamtNode::numberOfHashesAbove. */
  function NumberOfHashesAbove(m: bv64, hash: bv64): nat
  {
    PopCount(m >> Chunk(hash))
  }

  /**
   * numberOfHashesAbove counts the set bits of the bitmap at positions greater
   * than or equal to the hash's low six bits (the position itself included).
   */
  lemma NumberOfHashesAboveCounts(m: bv64, hash: bv64)
    ensures NumberOfHashesAbove(m, hash) == BitsFrom(m, Chunk(hash))
  {
    forall c: bv64 | c < 64
      ensures PopCount(m >> c) == BitsFrom(m, c)
    {
      PopCountShifted(m, c);
    }
  }

  /**
   * The example of the header's comment on numberOfHashesAbove, here with
   * six bits per level: a bitmap holding chunks 0, 2 and 3.  For chunk 2 the
   * count is 2, as the comment says; for chunk 0 it is 3 (all three set bits
   * are at or above position 0), where the comment says 2.
   */
  lemma HashesAboveExample()
    ensures NumberOfHashesAbove(13, 2) == 2
    ensures NumberOfHashesAbove(13, 0) == 3
  {
    assert PopCount(1) == 1 && PopCount(3) == 2 && PopCount(6) == 2 && PopCount(13) == 3;
  }

  /** HamtNode::containsHash, stated as the bit of the chunk for its callers. */
  function ContainsHash(m: bv64, hash: bv64): (b: bool)
    ensures b == Bit(m, Chunk(hash))
  {
    m & (1 << Chunk(hash)) != 0
  }

  /** HamtNode::markHash. */
  function MarkHash(m: bv64, hash: bv64): bv64
  {
    m | (1 << Chunk(hash))
  }

  /** HamtNode::unmarkHash. */
  function UnmarkHash(m: bv64, hash: bv64): bv64
  {
    m & !(1 << Chunk(hash))
  }

  /**
   * containsHash holds exactly when marking the hash changes nothing, and
   * exactly when numberOfHashesAbove counts one bit more than the set bits
   * strictly above the hash's chunk.
   */
  lemma ContainsHashMeans(m: bv64, hash: bv64)
    ensures ContainsHash(m, hash) <==> MarkHash(m, hash) == m
    ensures ContainsHash(m, hash) <==> NumberOfHashesAbove(m, hash) == BitsFrom(m, Chunk(hash) + 1) + 1
  {
    NumberOfHashesAboveCounts(m, hash);
  }

  /** markHash sets bit `hash & 63`. */
  lemma MarkSets(m: bv64, hash: bv64)
    ensures Bit(MarkHash(m, hash), Chunk(hash))
  {
  }

  /** markHash keeps every bit that was set. */
  lemma MarkKeeps(m: bv64, hash: bv64, b: bv64)
    requires b < 64
    ensures Bit(m, b) ==> Bit(MarkHash(m, hash), b)
  {
  }

  /** markHash sets no bit other than `hash & 63`. */
  lemma MarkOnly(m: bv64, hash: bv64, b: bv64)
    requires b < 64 && b != Chunk(hash)
    ensures Bit(MarkHash(m, hash), b) ==> Bit(m, b)
  {
  }

  /** markHash sets bit `hash & 63` and leaves every other bit as it was. */
  lemma MarkHashBit(m: bv64, hash: bv64, b: bv64)
    requires b < 64
    ensures Bit(MarkHash(m, hash), b) == (b == Chunk(hash) || Bit(m, b))
  {
    if b == Chunk(hash) {
      MarkSets(m, hash);
    } else {
      MarkKeeps(m, hash, b);
      MarkOnly(m, hash, b);
    }
  }

  /** unmarkHash clears bit `hash & 63`. */
  lemma UnmarkClears(m: bv64, hash: bv64)
    ensures !Bit(UnmarkHash(m, hash), Chunk(hash))
  {
  }

  /** unmarkHash sets no bit. */
  lemma UnmarkOnly(m: bv64, hash: bv64, b: bv64)
    requires b < 64
    ensures Bit(UnmarkHash(m, hash), b) ==> Bit(m, b)
  {
  }

  /** unmarkHash keeps every set bit other than `hash & 63`. */
  lemma UnmarkKeeps(m: bv64, hash: bv64, b: bv64)
    requires b < 64 && b != Chunk(hash)
    ensures Bit(m, b) ==> Bit(UnmarkHash(m, hash), b)
  {
  }

  /** unmarkHash clears bit `hash & 63` and leaves every other bit as it was. */
  lemma UnmarkHashBit(m: bv64, hash: bv64, b: bv64)
    requires b < 64
    ensures Bit(UnmarkHash(m, hash), b) == (b != Chunk(hash) && Bit(m, b))
  {
    if b == Chunk(hash) {
      UnmarkClears(m, hash);
    } else {
      UnmarkOnly(m, hash, b);
      UnmarkKeeps(m, hash, b);
    }
  }

  /** One position of the count of two bitmaps that differ only at position `c`. */
  lemma OneMoreStep(x: bv64, y: bv64, c: bv64, j: bv64)
    requires c < 64 && j < 64
    requires Bit(x, c) && !Bit(y, c)
    requires j != c ==> Bit(x, j) == Bit(y, j)
    ensures BitsFrom(x, j) as int - BitsFrom(y, j) - (if j <= c then 1 else 0)
         == BitsFrom(x, j + 1) as int - BitsFrom(y, j + 1) - (if j + 1 <= c then 1 else 0)
  {
  }

  /**
   * Two bitmaps that differ only at position `c`, set in `x` and clear in `y`:
   * every count taken at or below `c` is one larger in `x`.
   */
  lemma {:induction false} BitsFromOneMore(x: bv64, y: bv64, c: bv64, j: bv64)
    requires c < 64 && j <= 64
    requires Bit(x, c) && !Bit(y, c)
    requires forall b: bv64 :: b < 64 && b != c ==> Bit(x, b) == Bit(y, b)
    ensures BitsFrom(x, j) == BitsFrom(y, j) + (if j <= c then 1 else 0)
    decreases 64 - j
  {
    if j < 64 {
      BitsFromOneMore(x, y, c, j + 1);
      OneMoreStep(x, y, c, j);
    }
  }

  /** Marking a new hash adds one to every count taken at or below its position. */
  lemma BitsFromAfterMark(m: bv64, hash: bv64, j: bv64)
    requires j <= 64 && !ContainsHash(m, hash)
    ensures BitsFrom(MarkHash(m, hash), j) == BitsFrom(m, j) + (if j <= Chunk(hash) then 1 else 0)
  {
    forall b: bv64 | b < 64
      ensures Bit(MarkHash(m, hash), b) == (b == Chunk(hash) || Bit(m, b))
    {
      MarkHashBit(m, hash, b);
    }
    BitsFromOneMore(MarkHash(m, hash), m, Chunk(hash), j);
  }

  /** Unmarking a present hash takes one from every count taken at or below its position. */
  lemma BitsFromAfterUnmark(m: bv64, hash: bv64, j: bv64)
    requires j <= 64 && ContainsHash(m, hash)
    ensures BitsFrom(UnmarkHash(m, hash), j) + (if j <= Chunk(hash) then 1 else 0) == BitsFrom(m, j)
  {
    forall b: bv64 | b < 64
      ensures Bit(UnmarkHash(m, hash), b) == (b != Chunk(hash) && Bit(m, b))
    {
      UnmarkHashBit(m, hash, b);
    }
    BitsFromOneMore(m, UnmarkHash(m, hash), Chunk(hash), j);
  }

  /** Fewer positions never hold more set bits. */
  lemma {:induction false} BitsFromMonotonic(m: bv64, j: bv64, k: bv64)
    requires j <= k <= 64
    ensures BitsFrom(m, j) >= BitsFrom(m, k)
    decreases k - j
  {
    if j < k {
      BitsFromMonotonic(m, j + 1, k);
    }
  }

  /**
   * Where the C++ code puts a child: a set bit `b` of `m` owns the child at
   * index BitsFrom(m, b) - 1.  A higher set bit owns a smaller index.
   */
  lemma HigherBitSmallerIndex(m: bv64, b: bv64, c: bv64)
    requires c < b < 64 && Bit(m, c)
    ensures BitsFrom(m, b) < BitsFrom(m, c)
  {
    BitsFromMonotonic(m, c + 1, b);
  }

  /** Bit `hash & 63` of `m` is set and owns the child at index `j`. */
  predicate RoutesTo(m: bv64, hash: bv64, j: int)
  {
    ContainsHash(m, hash) && NumberOfHashesAbove(m, hash) == j + 1
  }

  /**
   * A bitmap routes two hashes to the same child exactly when they share the
   * chunk: the child index of a set bit determines the bit.
   */
  lemma RoutesToUnique(m: bv64, h1: bv64, h2: bv64, j1: int, j2: int)
    requires RoutesTo(m, h1, j1) && RoutesTo(m, h2, j2)
    ensures j1 == j2 <==> Chunk(h1) == Chunk(h2)
  {
    var c1, c2 := Chunk(h1), Chunk(h2);
    NumberOfHashesAboveCounts(m, h1);
    NumberOfHashesAboveCounts(m, h2);
    if c1 < c2 {
      HigherBitSmallerIndex(m, c2, c1);
    } else if c2 < c1 {
      HigherBitSmallerIndex(m, c1, c2);
    }
  }

  /** The index numberOfHashesAbove gives a present hash is that of an existing child. */
  lemma RoutesToBounds(m: bv64, hash: bv64)
    requires ContainsHash(m, hash)
    ensures 1 <= NumberOfHashesAbove(m, hash) <= NumberOfChildren(m)
  {
    NumberOfHashesAboveCounts(m, hash);
    NumberOfChildrenCounts(m);
    BitsFromMonotonic(m, 0, Chunk(hash));
  }

  /** numberOfHashesAbove never exceeds the number of children. */
  lemma HashesAboveBound(m: bv64, hash: bv64)
    ensures NumberOfHashesAbove(m, hash) <= NumberOfChildren(m)
  {
    NumberOfHashesAboveCounts(m, hash);
    NumberOfChildrenCounts(m);
    BitsFromMonotonic(m, 0, Chunk(hash));
  }

  /** markHash of a new hash adds one child, owned by the index the C++ code inserts at. */
  lemma MarkCounts(m: bv64, hash: bv64)
    requires !ContainsHash(m, hash)
    ensures NumberOfChildren(MarkHash(m, hash)) == NumberOfChildren(m) + 1
    ensures RoutesTo(MarkHash(m, hash), hash, NumberOfHashesAbove(m, hash))
  {
    BitsFromAfterMark(m, hash, 0);
    BitsFromAfterMark(m, hash, Chunk(hash));
    NumberOfChildrenCounts(m);
    NumberOfChildrenCounts(MarkHash(m, hash));
    NumberOfHashesAboveCounts(m, hash);
    NumberOfHashesAboveCounts(MarkHash(m, hash), hash);
    MarkSets(m, hash);
  }

  /**
   * markHash of a new hash moves every child at or after the index it
   * inserts at one place along and leaves the others where they were.
   */
  lemma MarkRoutes(m: bv64, hash: bv64, x: bv64, k: int)
    requires !ContainsHash(m, hash) && RoutesTo(m, x, k)
    ensures RoutesTo(MarkHash(m, hash), x, if k < NumberOfHashesAbove(m, hash) then k else k + 1)
  {
    var cx, ch := Chunk(x), Chunk(hash);
    NumberOfHashesAboveCounts(m, x);
    NumberOfHashesAboveCounts(m, hash);
    NumberOfHashesAboveCounts(MarkHash(m, hash), x);
    MarkKeeps(m, hash, cx);
    BitsFromAfterMark(m, hash, cx);
    if cx < ch {
      HigherBitSmallerIndex(m, ch, cx);
    } else {
      BitsFromMonotonic(m, ch, cx);
    }
  }

  /** unmarkHash of a present hash removes one child, the one owned by that hash. */
  lemma UnmarkCounts(m: bv64, hash: bv64)
    requires ContainsHash(m, hash)
    ensures NumberOfChildren(UnmarkHash(m, hash)) + 1 == NumberOfChildren(m)
    ensures NumberOfHashesAbove(UnmarkHash(m, hash), hash) + 1 == NumberOfHashesAbove(m, hash)
  {
    BitsFromAfterUnmark(m, hash, 0);
    BitsFromAfterUnmark(m, hash, Chunk(hash));
    NumberOfChildrenCounts(m);
    NumberOfChildrenCounts(UnmarkHash(m, hash));
    NumberOfHashesAboveCounts(m, hash);
    NumberOfHashesAboveCounts(UnmarkHash(m, hash), hash);
  }

  /**
   * unmarkHash of a present hash moves every child after the one it owns one
   * place back and leaves the children before it where they were.
   */
  lemma UnmarkRoutes(m: bv64, hash: bv64, x: bv64, k: int)
    requires ContainsHash(m, hash) && RoutesTo(m, x, k) && Chunk(x) != Chunk(hash)
    ensures RoutesTo(UnmarkHash(m, hash), x, if k < NumberOfHashesAbove(m, hash) - 1 then k else k - 1)
  {
    var cx, ch := Chunk(x), Chunk(hash);
    NumberOfHashesAboveCounts(m, x);
    NumberOfHashesAboveCounts(m, hash);
    NumberOfHashesAboveCounts(UnmarkHash(m, hash), x);
    UnmarkKeeps(m, hash, cx);
    BitsFromAfterUnmark(m, hash, cx);
    if cx < ch {
      HigherBitSmallerIndex(m, ch, cx);
    } else {
      HigherBitSmallerIndex(m, cx, ch);
    }
  }

  /** A map with the single bit of `b` has one child, owned by `b`. */
  lemma OneBit(b: bv64)
    ensures NumberOfChildren(MarkHash(0, b)) == 1
    ensures RoutesTo(MarkHash(0, b), b, 0)
  {
    EmptyBit(Chunk(b));
    assert (0 as bv64) >> Chunk(b) == 0;
    MarkCounts(0, b);
  }

  /** The empty map has no bit set. */
  lemma EmptyBit(c: bv64)
    requires c < 64
    ensures !Bit(0, c)
  {
  }

  /** In the map of `a` alone, a hash of another chunk is absent. */
  lemma SecondAbsent(a: bv64, b: bv64)
    requires Chunk(a) != Chunk(b)
    ensures !ContainsHash(MarkHash(0, a), b)
  {
    MarkHashBit(0, a, Chunk(b));
    EmptyBit(Chunk(b));
  }

  /** In the map of `a` alone, a hash of another chunk finds one bit above it or none. */
  lemma SecondBit(a: bv64, b: bv64)
    requires Chunk(a) != Chunk(b)
    ensures !ContainsHash(MarkHash(0, a), b)
    ensures NumberOfHashesAbove(MarkHash(0, a), b) == if Chunk(a) > Chunk(b) then 1 else 0
  {
    SecondAbsent(a, b);
    NumberOfHashesAboveCounts(MarkHash(0, a), b);
    EmptyBit(Chunk(a));
    BitsFromAfterMark(0, a, Chunk(b));
    BitsFromZero(Chunk(b));
  }

  /**
   * A map with the bits of two hashes of different chunks has two children:
   * the higher chunk owns index 0, the lower index 1.
   */
  lemma TwoBits(a: bv64, b: bv64)
    requires Chunk(a) != Chunk(b)
    ensures NumberOfChildren(MarkHash(MarkHash(0, a), b)) == 2
    ensures RoutesTo(MarkHash(MarkHash(0, a), b), a, if Chunk(a) > Chunk(b) then 0 else 1)
    ensures RoutesTo(MarkHash(MarkHash(0, a), b), b, if Chunk(a) > Chunk(b) then 1 else 0)
  {
    var m1 := MarkHash(0, a);
    OneBit(a);
    SecondBit(a, b);
    MarkCounts(m1, b);
    MarkRoutes(m1, b, a, 0);
  }
}
