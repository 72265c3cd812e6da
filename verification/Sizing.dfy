/** How the hash tables choose the size of their directory: a power of two for a load of 7/10. */
module Sizing {
  import opened Bits

  /** The exponent that Hashmap::setSize and the constructor of HashmapSmall compute. */
  function DirectoryBits(size: nat): nat {
    BitLength(size) + if 7 * Pow2(BitLength(size)) < 10 * size then 1 else 0
  }

  /** The directory has room for `size` entries at that load, and half of it would not have. */
  lemma DirectoryFits(size: nat)
    requires size > 0
    ensures 10 * size <= 7 * Pow2(DirectoryBits(size)) < 20 * size
    ensures Pow2(DirectoryBits(size)) <= 4 * size
  {
    BitLengthBounds(size);
  }

  lemma {:induction false} Pow2Order(a: nat, b: nat)
    requires Pow2(a) < Pow2(b)
    ensures a < b && Pow2(a + 1) <= Pow2(b)
  {
    if b <= a {
      Pow2Monotone(b, a);
    } else {
      Pow2Monotone(a + 1, b);
    }
  }

  // 10 * size <= 7 * 2^30
  const LARGEST: nat := 751_619_276

  /** Up to that size the directory has at most 2^30 slots. */
  lemma DirectoryIsInt(size: nat)
    requires 0 < size <= LARGEST
    ensures Pow2(DirectoryBits(size)) <= 0x4000_0000
  {
    BitLengthBounds(size);
    Pow2Of30();
    Pow2Order(BitLength(size) - 1, 30);
    if 7 * Pow2(BitLength(size)) < 10 * size {
      Pow2Order(BitLength(size), 30);
    }
  }
}
