/** The 64-bit slot word of Hashmap.hpp: a 48-bit entry address below a 16-bit filter, and the
  chains of entries that such words start. */
module TaggedWord {
  import opened Bits

  type Hash = h: nat | h < Pow2(64)

  /** hash & mask, for a directory of 2^exp slots. */
  function Slot(exp: nat, hash: Hash): (pos: nat)
    ensures pos < Pow2(exp)
  {
    MaskIsMod(hash, exp);
    And(hash, Pow2(exp) - 1)
  }

  // nullptr
  const END: nat := 0

  /** maskPointer: the 48 low bits; maskTag: the 16 high bits. */
  function MaskPointer(): nat { Pow2(48) - 1 }

  function MaskTag(): nat { ShiftLeft(Pow2(16) - 1, 48) }

  /** The four highest bits of a hash choose one of the sixteen filter bits. */
  function TagPos(hash: Hash): (pos: nat)
    ensures pos < 16
  {
    ShiftRightBound(hash, 60, 4);
    ShiftRight(hash, 60)
  }

  function Tag(hash: Hash): nat { ShiftLeft(1, TagPos(hash) + 48) }

  function Ptr(p: nat): nat { And(p, MaskPointer()) }

  function Update(was: nat, p: nat, hash: Hash): nat {
    Or(Or(p, And(was, MaskTag())), Tag(hash))
  }

  /** A user-space address: not null, and nothing where the tags go. */
  predicate IsAddress(p: nat) { p != END && p < Pow2(48) }

  /** Filter bit `pos` of a word is set. */
  predicate Shows(word: nat, pos: nat) { BitAt(word, pos + 48) }

  /** The parts of a hash and of a word by arithmetic: the slot is the hash's remainder, its tag is the bit
    that its four highest bits choose among the sixteen highest of the word, and the pointer is the
    word below 2^48. */
  lemma WordArithmetic(exp: nat, hash: Hash, word: nat)
    ensures Slot(exp, hash) == hash % Pow2(exp)
    ensures TagPos(hash) == hash / Pow2(60) && Tag(hash) == Pow2(48 + hash / Pow2(60))
    ensures Ptr(word) == word % Pow2(48)
  {
    hide And, Pow2, ShiftLeft, ShiftRight;
    MaskIsMod(hash, exp);
    MaskIsMod(word, 48);
    ShiftRightIsQuotient(hash, 60);
    ShiftLeftIsProduct(1, TagPos(hash) + 48);
  }

  /** What every bit of an updated word is. */
  lemma UpdateBit(was: nat, p: nat, hash: Hash, i: nat)
    requires IsAddress(p)
    ensures BitAt(Update(was, p, hash), i) <==>
      BitAt(p, i) || (BitAt(was, i) && 48 <= i < 64) || i == TagPos(hash) + 48
  {
    hide And, Or, BitAt, ShiftLeft;
    OrBit(Or(p, And(was, MaskTag())), Tag(hash), i);
    OrBit(p, And(was, MaskTag()), i);
    AndBit(was, MaskTag(), i);
    ShiftBit(Pow2(16) - 1, 48, i);
    ShiftBit(1, TagPos(hash) + 48, i);
    if i >= 48 {
      OnesBit(16, i - 48);
    }
    if i >= TagPos(hash) + 48 {
      OneBit(i - (TagPos(hash) + 48));
    }
  }

  /** The new word points to the entry. */
  lemma UpdatePointer(was: nat, p: nat, hash: Hash)
    requires IsAddress(p)
    ensures Ptr(Update(was, p, hash)) == p
  {
    hide And, BitAt, Update;
    forall i: nat
      ensures BitAt(Ptr(Update(was, p, hash)), i) <==> BitAt(p, i)
    {
      AndBit(Update(was, p, hash), MaskPointer(), i);
      OnesBit(48, i);
      UpdateBit(was, p, hash, i);
      if i >= 48 {
        HighBitsAreZero(p, 48, i);
      }
    }
    SameBits(Ptr(Update(was, p, hash)), p);
  }

  /** Its filter gains exactly the entry's bit. */
  lemma UpdateFilter(was: nat, p: nat, hash: Hash, pos: nat)
    requires IsAddress(p) && pos < 16
    ensures Shows(Update(was, p, hash), pos) <==> pos == TagPos(hash) || Shows(was, pos)
  {
    UpdateBit(was, p, hash, pos + 48);
    HighBitsAreZero(p, 48, pos + 48);
  }

  /** The match find_chain_tagged tests is the filter bit of the hash. */
  lemma MatchIsShows(word: nat, hash: Hash)
    ensures And(word, Tag(hash)) != 0 <==> Shows(word, TagPos(hash))
  {
    ZeroIffNoBit(word, Tag(hash), TagPos(hash) + 48);
  }

  lemma EmptyWord(pos: nat)
    ensures Ptr(END) == END && !Shows(END, pos)
  {
    ZeroBit(pos + 48);
  }

  // ------------------------------------------------------------------------- Chains

  /** Following `next` from `p` meets exactly `chain` and ends. */
  ghost predicate IsChain(next: map<nat, nat>, p: nat, chain: seq<nat>)
    decreases chain
  {
    if chain == [] then p == END
    else p == chain[0] && p != END && p in next && IsChain(next, next[p], chain[1..])
  }

  lemma {:induction false} ChainFrame(next: map<nat, nat>, next': map<nat, nat>, p: nat, chain: seq<nat>)
    requires IsChain(next, p, chain)
    requires forall e | e in chain && e in next :: e in next' && next'[e] == next[e]
    ensures IsChain(next', p, chain)
    decreases chain
  {
    if chain != [] {
      ChainFrame(next, next', next[p], chain[1..]);
    }
  }

  /** A chain is determined by where it starts, so a walk along it cannot go round in circles. */
  lemma {:induction false} ChainIsUnique(next: map<nat, nat>, p: nat, a: seq<nat>, b: seq<nat>)
    requires IsChain(next, p, a) && IsChain(next, p, b)
    ensures a == b
    decreases a
  {
    if a != [] {
      ChainIsUnique(next, next[p], a[1..], b[1..]);
      assert a == [a[0]] + a[1..] && b == [b[0]] + b[1..];
    }
  }

  predicate Covers(hash: map<nat, Hash>, chain: seq<nat>) {
    forall i | 0 <= i < |chain| :: chain[i] in hash
  }

  /** Some entry of the chain sets filter bit `b`. */
  predicate AnyAt(hash: map<nat, Hash>, chain: seq<nat>, b: nat)
    requires Covers(hash, chain)
  {
    exists i :: 0 <= i < |chain| && TagPos(hash[chain[i]]) == b
  }

  /** The slot word shows a filter bit exactly for the entries of its chain. */
  ghost predicate FilterInv(hash: map<nat, Hash>, word: nat, chain: seq<nat>)
    requires Covers(hash, chain)
  {
    forall b | 0 <= b < 16 :: Shows(word, b) <==> AnyAt(hash, chain, b)
  }

  /** Pushing an entry on a chain: the word update keeps the filter exact. */
  lemma PushKeepsFilter(hash: map<nat, Hash>, was: nat, e: nat, chain: seq<nat>)
    requires Covers(hash, chain) && e in hash && IsAddress(e) && FilterInv(hash, was, chain)
    ensures Covers(hash, [e] + chain) && FilterInv(hash, Update(was, e, hash[e]), [e] + chain)
  {
    var word, grown := Update(was, e, hash[e]), [e] + chain;
    forall b | 0 <= b < 16
      ensures Shows(word, b) <==> AnyAt(hash, grown, b)
    {
      UpdateFilter(was, e, hash[e], b);
      PushAnyAt(hash, e, chain, b);
    }
  }

  lemma PushAnyAt(hash: map<nat, Hash>, e: nat, chain: seq<nat>, b: nat)
    requires Covers(hash, chain) && e in hash
    ensures Covers(hash, [e] + chain)
    ensures AnyAt(hash, [e] + chain, b) <==> TagPos(hash[e]) == b || AnyAt(hash, chain, b)
  {
    var grown := [e] + chain;
    assert grown[0] == e && forall i | 0 <= i < |chain| :: grown[i + 1] == chain[i];
  }
}
