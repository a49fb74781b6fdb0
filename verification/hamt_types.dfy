/**
 * The word-level vocabulary of the persistent hash array mapped trie: the
 * hash constants, the tag bits of an index pointer, the rank of a slot in
 * a bitmap-compressed node, and the sizes of the stored nodes.
 */
module HamtTypes {
  import BitCount

  /** `hash_size`: bits in a `hash_type`. */
  const HashSize: nat := 64
  /** `hash_index_bits`: the population count of the highest bit number of a hash. */
  const HashIndexBits: nat := 6
  /** `max_hash_bits`: the hash rounded up to a whole number of levels. */
  const MaxHashBits: nat := 66
  const HashIndexMask: nat := 63
  /** `max_internal_depth`. */
  const MaxInternalDepth: nat := 11
  /** `max_tree_depth`: the internal levels, a linear node and a leaf. */
  const MaxTreeDepth: nat := 13
  /** Bitmaps are `hash_type` values: below 2^64. */
  const BitmapLimit: nat := 0x1_0000_0000_0000_0000
  /** `details::not_found`: the largest `std::size_t`. */
  const NotFound: nat := 0xFFFF_FFFF_FFFF_FFFF

  /** The constants are the values of the formulas that define them for a 64-bit hash. */
  lemma HashConstants()
    ensures HashIndexBits == BitCount.PopCount(HashSize - 1)
    ensures MaxHashBits == (HashSize + 7) / HashIndexBits * HashIndexBits
    ensures HashIndexMask == BitCount.Pow2(HashIndexBits) - 1
    ensures MaxInternalDepth == MaxHashBits / HashIndexBits
    ensures MaxTreeDepth == MaxInternalDepth + 2
  {
    assert BitCount.PopCount(1) == 1;
    assert BitCount.PopCount(3) == 2;
    assert BitCount.PopCount(7) == 3;
    assert BitCount.PopCount(15) == 4;
    assert BitCount.PopCount(31) == 5;
    assert BitCount.Pow2(3) == 8;
  }

  /** `depth_is_internal_node(shift)`: nodes above the last full level are internal, the rest linear. */
  predicate DepthIsInternalNode(shift: nat)
  {
    shift < MaxHashBits
  }

  /** The internal depths are the multiples of six below 66: eleven levels of internal nodes. */
  lemma InternalDepths(shift: nat)
    requires shift % HashIndexBits == 0
    ensures DepthIsInternalNode(shift) <==> shift / HashIndexBits < MaxInternalDepth
  {
  }

  // Index pointer words. A word is an address in the store, or a
  // heap pointer tagged in its two low bits.

  /** `is_internal`: bit 0, `internal_node_bit`. */
  predicate IsInternalWord(w: nat)
  {
    w % 2 == 1
  }

  /** `is_heap`: bit 1, `heap_node_bit`. */
  predicate IsHeapWord(w: nat)
  {
    w / 2 % 2 == 1
  }

  /** `tag`: a heap pointer with both low bits set. */
  function Tag(p: nat): nat
  {
    p - p % 4 + 3
  }

  /** `untag`: both low bits cleared. */
  function Untag(w: nat): nat
  {
    w - w % 4
  }

  /** `untag_internal_address`, `untag_linear_address`: only bit 0 cleared. */
  function UntagAddress(w: nat): (r: nat)
    ensures r <= w && r % 2 == 0
    ensures r / 2 == w / 2
    ensures IsHeapWord(r) == IsHeapWord(w)
  {
    w - w % 2
  }

  /** `address | internal_node_bit`. */
  function OrInternalBit(a: nat): (r: nat)
    ensures IsInternalWord(r) && UntagAddress(r) == a - a % 2
    ensures IsHeapWord(r) == IsHeapWord(a)
  {
    a - a % 2 + 1
  }

  /**
   * A node pointer is aligned to at least four bytes, so tagging it makes
   * it both a heap and an internal word, and untagging gives it back.
   */
  lemma TagRoundTrip(p: nat)
    requires p % 4 == 0
    ensures IsHeapWord(Tag(p)) && IsInternalWord(Tag(p)) && Tag(p) != 0
    ensures Untag(Tag(p)) == p
  {
    var q := p / 4;
    assert p == 4 * q;
    assert Tag(p) == 4 * q + 3;
    assert (4 * q + 3) / 2 == 2 * q + 1;
  }

  // The slots of a bitmap-compressed node. A bitmap is a natural below
  // 2^64; its bit operations are defined one bit at a time.

  /** `bitmap & (1 << i)` is non-zero. */
  predicate HasBit(b: nat, i: nat)
  {
    if i == 0 then b % 2 == 1 else HasBit(b / 2, i - 1)
  }

  /** `bitmap | (1 << h)`. */
  function SetBit(b: nat, h: nat): nat
  {
    if h == 0 then b - b % 2 + 1 else b % 2 + 2 * SetBit(b / 2, h - 1)
  }

  /** `hash_type{1} << i`. */
  function Bit(i: nat): nat
  {
    SetBit(0, i)
  }

  /** `bitmap & ((1 << i) - 1)`: the bits below bit `i`. */
  function LowBits(b: nat, i: nat): nat
  {
    if i == 0 then 0 else b % 2 + 2 * LowBits(b / 2, i - 1)
  }

  /** The number of bits of `b` set below bit `n`: the slot of bit `n` in a compressed array. */
  function Rank(b: nat, n: nat): (r: nat)
    ensures r <= n
  {
    if n == 0 then 0 else b % 2 + Rank(b / 2, n - 1)
  }

  /** `bit_count::pop_count` of a 64-bit bitmap. */
  function PopCount(b: nat): nat
  {
    Rank(b, HashSize)
  }

  lemma {:induction false} RankGrows(b: nat, m: nat, n: nat)
    requires m <= n
    ensures Rank(b, m) <= Rank(b, n)
  {
    if 0 < m {
      RankGrows(b / 2, m - 1, n - 1);
    }
  }

  /** Bit `i` counts towards the rank of every later bit. */
  lemma {:induction false} RankAtSetBit(b: nat, i: nat)
    requires HasBit(b, i)
    ensures Rank(b, i + 1) == Rank(b, i) + 1
  {
    if i > 0 {
      RankAtSetBit(b / 2, i - 1);
    }
  }

  /** A clear bit adds nothing to the rank. */
  lemma {:induction false} RankAtClearBit(b: nat, i: nat)
    requires !HasBit(b, i)
    ensures Rank(b, i + 1) == Rank(b, i)
  {
    if i > 0 {
      RankAtClearBit(b / 2, i - 1);
    }
  }

  /** A set bit has a slot below the population count. */
  lemma SetBitHasSlot(b: nat, i: nat)
    requires i < HashSize && HasBit(b, i)
    ensures Rank(b, i) < PopCount(b)
  {
    RankAtSetBit(b, i);
    RankGrows(b, i + 1, HashSize);
  }

  /** Two set bits have distinct slots, in the order of the bits. */
  lemma SlotsFollowBits(b: nat, i: nat, j: nat)
    requires i < j && HasBit(b, i)
    ensures Rank(b, i) < Rank(b, j)
  {
    RankAtSetBit(b, i);
    RankGrows(b, i + 1, j);
  }

  /** `pop_count(bitmap & (bit_pos - 1))` is the rank of bit `i`. */
  lemma {:induction false} LowBitsCountIsRank(b: nat, i: nat)
    requires i <= HashSize
    ensures PopCount(LowBits(b, i)) == Rank(b, i)
  {
    LowBitsRank(b, i, HashSize);
  }

  lemma {:induction false} LowBitsRank(b: nat, i: nat, n: nat)
    requires i <= n
    ensures Rank(LowBits(b, i), n) == Rank(b, i)
  {
    if i == 0 {
      RankOfZero(n);
    } else {
      var l := LowBits(b, i);
      assert l % 2 == b % 2 && l / 2 == LowBits(b / 2, i - 1);
      LowBitsRank(b / 2, i - 1, n - 1);
    }
  }

  lemma {:induction false} RankOfZero(n: nat)
    ensures Rank(0, n) == 0
  {
    if n > 0 {
      RankOfZero(n - 1);
    }
  }

  /** Setting a bit sets it and leaves every other bit as it was. */
  lemma {:induction false} SetBitBits(b: nat, h: nat, k: nat)
    ensures HasBit(SetBit(b, h), k) <==> k == h || HasBit(b, k)
  {
    if h > 0 && k > 0 {
      SetBitBits(b / 2, h - 1, k - 1);
    }
  }

  /** Setting a clear bit adds one to the rank of every later bit and leaves earlier ranks alone. */
  lemma {:induction false} RankAfterSet(b: nat, h: nat, n: nat)
    requires !HasBit(b, h)
    ensures Rank(SetBit(b, h), n) == Rank(b, n) + (if h < n then 1 else 0)
  {
    if n > 0 && h > 0 {
      var s := SetBit(b, h);
      assert s % 2 == b % 2 && s / 2 == SetBit(b / 2, h - 1);
      RankAfterSet(b / 2, h - 1, n - 1);
    }
  }

  /** A clear bit leaves room in the node: at most 63 bits are set. */
  lemma ClearBitLeavesRoom(b: nat, h: nat)
    requires h < HashSize && !HasBit(b, h)
    ensures PopCount(b) < HashSize
  {
    RankAfterSet(b, h, HashSize);
  }

  /** Bits of a bitmap narrower than 64 bits stay below 2^64. */
  lemma {:induction false} SetBitStaysBelow(b: nat, h: nat, w: nat)
    requires h < w && b < BitCount.Pow2(w)
    ensures SetBit(b, h) < BitCount.Pow2(w)
  {
    var p := BitCount.Pow2(w - 1);
    assert BitCount.Pow2(w) == 2 * p;
    assert b == 2 * (b / 2) + b % 2;
    assert b / 2 < p;
    if h == 0 {
      assert SetBit(b, h) == 2 * (b / 2) + 1;
    } else {
      SetBitStaysBelow(b / 2, h - 1, w - 1);
      assert SetBit(b, h) == b % 2 + 2 * SetBit(b / 2, h - 1);
    }
  }

  /** Setting one of the 64 bits of a bitmap keeps it a 64-bit value. */
  lemma SetBitKeepsWidth(b: nat, h: nat)
    requires h < HashSize && b < BitmapLimit
    ensures SetBit(b, h) < BitmapLimit
  {
    BitCount.Pow2Of64();
    SetBitStaysBelow(b, h, HashSize);
  }

  lemma {:induction false} NoBitsOfZero(i: nat)
    ensures !HasBit(0, i)
  {
    if i > 0 {
      NoBitsOfZero(i - 1);
    }
  }

  /** The only bitmap with no set bits among the low 64 is zero. */
  lemma {:induction false} ZeroRank(b: nat, n: nat)
    requires b < BitCount.Pow2(n)
    ensures Rank(b, n) == 0 <==> b == 0
  {
    if n == 0 {
    } else {
      ZeroRank(b / 2, n - 1);
    }
  }

  /** A 64-bit bitmap has no set bit exactly when it is zero. */
  lemma EmptyBitmap(b: nat)
    requires b < BitmapLimit
    ensures PopCount(b) == 0 <==> b == 0
  {
    BitCount.Pow2Of64();
    ZeroRank(b, HashSize);
  }

  /** `linear_node::size_bytes(n)`: signature, size, then `n` leaf addresses. */
  function LinearSizeBytes(n: nat): (r: nat)
    ensures r == 16 + 8 * n
  {
    16 + 8 * n
  }

  /** `internal_node::size_bytes(n)`: signature, bitmap, then `n` children. */
  function InternalSizeBytes(n: nat): (r: nat)
    requires 0 < n < MaxHashBits
    ensures r == 16 + 8 * n
  {
    16 + 8 * n
  }

  /** `get_new_index`: the new leaf takes slot 1 exactly when its hash chunk is not below the existing one. */
  function GetNewIndex(newHash: nat, existingHash: nat): (r: nat)
    ensures r == 1 <==> newHash >= existingHash
    ensures r <= 1
  {
    if newHash >= existingHash then 1 else 0
  }
}
