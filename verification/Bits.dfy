/** Bit arithmetic on naturals: what `&` with a mask, shifts by a power of two and
  count-leading-zeros mean on the unsigned words of the source. */
module Bits {

  function Pow2(k: nat): (p: nat)
    ensures p >= 1
  {
    if k == 0 then 1 else 2 * Pow2(k - 1)
  }

  /** Bitwise and. */
  function And(a: nat, b: nat): nat {
    if a == 0 || b == 0 then 0 else (a % 2) * (b % 2) + 2 * And(a / 2, b / 2)
  }

  /** Bitwise or. */
  function Or(a: nat, b: nat): nat {
    if a == 0 && b == 0 then 0 else (if a % 2 == 1 || b % 2 == 1 then 1 else 0) + 2 * Or(a / 2, b / 2)
  }

  /** Bit i of a word. */
  predicate BitAt(a: nat, i: nat)
    decreases i
  {
    if i == 0 then a % 2 == 1 else BitAt(a / 2, i - 1)
  }

  /** a << k. */
  function ShiftLeft(a: nat, k: nat): nat
    decreases k
  {
    if k == 0 then a else 2 * ShiftLeft(a, k - 1)
  }

  /** n >> k. */
  function ShiftRight(n: nat, k: nat): nat
    decreases k
  {
    if k == 0 then n else ShiftRight(n / 2, k - 1)
  }

  /** 64 - __builtin_clzll(n): the position of the highest set bit, counted from one. */
  function BitLength(n: nat): nat {
    if n == 0 then 0 else 1 + BitLength(n / 2)
  }

  lemma {:induction false} AndZero(a: nat)
    ensures And(a, 0) == 0
  {
  }

  /** hash & (capacity - 1) is the remainder by a power of two. */
  lemma {:induction false} MaskIsMod(h: nat, k: nat)
    ensures And(h, Pow2(k) - 1) == h % Pow2(k)
  {
    if k == 0 {
      AndZero(h);
    } else {
      MaskIsMod(h / 2, k - 1);
      MaskStep(h, Pow2(k - 1));
    }
  }

  lemma MaskStep(h: nat, p: nat)
    requires p >= 1 && And(h / 2, p - 1) == h / 2 % p
    ensures And(h, 2 * p - 1) == h % (2 * p)
  {
    AndOnes(h, p);
    ModByDouble(h, p);
  }

  lemma AndOnes(h: nat, p: nat)
    requires p >= 1
    ensures And(h, 2 * p - 1) == h % 2 + 2 * And(h / 2, p - 1)
  {
    assert (2 * p - 1) / 2 == p - 1 && (2 * p - 1) % 2 == 1;
  }

  lemma ModByDouble(h: nat, p: nat)
    requires p >= 1
    ensures h % (2 * p) == h % 2 + 2 * (h / 2 % p)
  {
    var q := h / 2 / p;
    assert h / 2 == q * p + h / 2 % p;
    assert h == (2 * p) * q + (h % 2 + 2 * (h / 2 % p)) by {
      assert 2 * (q * p) == (2 * p) * q;
    }
    RemainderIsUnique(h, 2 * p, q, h % 2 + 2 * (h / 2 % p));
  }

  lemma RemainderIsUnique(h: nat, d: nat, q: nat, r: nat)
    requires h == d * q + r && r < d
    ensures h % d == r && h / d == q
  {
    var q' := h / d;
    assert h == d * q' + h % d;
    ProductStep(d, q, q');
    ProductStep(d, q', q);
  }

  lemma {:induction false} ProductStep(d: nat, a: nat, b: nat)
    ensures a < b ==> d * a + d <= d * b
    decreases b
  {
    if a + 1 < b {
      ProductStep(d, a, b - 1);
      assert d * b == d * (b - 1) + d;
    } else if a + 1 == b {
      assert d * b == d * a + d;
    }
  }

  lemma {:induction false} BitLengthBounds(n: nat)
    requires n >= 1
    ensures Pow2(BitLength(n)) > n >= Pow2(BitLength(n) - 1)
  {
    if n > 1 {
      BitLengthBounds(n / 2);
    }
  }

  lemma {:induction false} Pow2Monotone(a: nat, b: nat)
    requires a <= b
    ensures Pow2(a) <= Pow2(b)
    decreases b - a
  {
    if a < b {
      Pow2Monotone(a, b - 1);
    }
  }

  lemma {:induction false} Pow2Adds(a: nat, b: nat)
    ensures Pow2(a + b) == Pow2(a) * Pow2(b)
  {
    if a > 0 {
      Pow2Adds(a - 1, b);
      assert 2 * (Pow2(a - 1) * Pow2(b)) == (2 * Pow2(a - 1)) * Pow2(b);
    }
  }

  lemma Pow2Of10()
    ensures Pow2(10) == 1024
  {
    assert Pow2(5) == 32;
    Pow2Adds(5, 5);
  }

  lemma Pow2Of30()
    ensures Pow2(30) == 0x4000_0000
  {
    Pow2Of10();
    Pow2Adds(10, 10);
    Pow2Adds(20, 10);
  }

  lemma {:induction false} ShiftRightBound(n: nat, k: nat, b: nat)
    requires n < Pow2(k + b)
    ensures ShiftRight(n, k) < Pow2(b)
    decreases k
  {
    if k > 0 {
      ShiftRightBound(n / 2, k - 1, b);
    }
  }

  lemma AndHalves(a: nat, b: nat)
    ensures And(a, b) / 2 == And(a / 2, b / 2)
    ensures And(a, b) % 2 == 1 <==> a % 2 == 1 && b % 2 == 1
  {
  }

  lemma {:induction false} AndBit(a: nat, b: nat, i: nat)
    ensures BitAt(And(a, b), i) <==> BitAt(a, i) && BitAt(b, i)
    decreases i
  {
    AndHalves(a, b);
    if i > 0 {
      AndBit(a / 2, b / 2, i - 1);
    }
  }

  lemma OrHalves(a: nat, b: nat)
    ensures Or(a, b) / 2 == Or(a / 2, b / 2)
    ensures Or(a, b) % 2 == 1 <==> a % 2 == 1 || b % 2 == 1
  {
  }

  lemma {:induction false} OrBit(a: nat, b: nat, i: nat)
    ensures BitAt(Or(a, b), i) <==> BitAt(a, i) || BitAt(b, i)
    decreases i
  {
    OrHalves(a, b);
    if i > 0 {
      OrBit(a / 2, b / 2, i - 1);
    }
  }

  lemma {:induction false} ZeroBit(i: nat)
    ensures !BitAt(0, i)
  {
    if i > 0 {
      ZeroBit(i - 1);
    }
  }

  lemma {:induction false} OneBit(k: nat)
    ensures BitAt(1, k) <==> k == 0
  {
    if k > 0 {
      ZeroBit(k - 1);
    }
  }

  lemma {:induction false} ShiftBit(a: nat, k: nat, i: nat)
    ensures BitAt(ShiftLeft(a, k), i) <==> i >= k && BitAt(a, i - k)
    decreases k
  {
    if k > 0 && i > 0 {
      ShiftBit(a, k - 1, i - 1);
    }
  }

  /** A number below 2^k has no bit at or above k. */
  lemma {:induction false} HighBitsAreZero(a: nat, k: nat, i: nat)
    requires a < Pow2(k) && i >= k
    ensures !BitAt(a, i)
    decreases i
  {
    if i > 0 {
      if k > 0 {
        HighBitsAreZero(a / 2, k - 1, i - 1);
      } else {
        ZeroBit(i - 1);
      }
    }
  }

  lemma OddHalf(p: nat)
    requires p >= 1
    ensures (2 * p - 1) / 2 == p - 1 && (2 * p - 1) % 2 == 1
  {
  }

  /** The bits of 2^k - 1 are the k lowest. */
  lemma {:induction false} OnesBit(k: nat, i: nat)
    ensures BitAt(Pow2(k) - 1, i) <==> i < k
    decreases k
  {
    if k == 0 {
      ZeroBit(i);
    } else {
      OddHalf(Pow2(k - 1));
      if i > 0 {
        OnesBit(k - 1, i - 1);
      }
    }
  }

  /** Words with the same bits are equal. */
  lemma {:induction false} SameBits(a: nat, b: nat)
    requires forall i: nat :: BitAt(a, i) <==> BitAt(b, i)
    ensures a == b
    decreases a + b
  {
    assert BitAt(a, 0) <==> BitAt(b, 0);
    forall i: nat
      ensures BitAt(a / 2, i) <==> BitAt(b / 2, i)
    {
      assert BitAt(a, i + 1) <==> BitAt(b, i + 1);
    }
    if a + b > 0 {
      SameBits(a / 2, b / 2);
    }
  }

  lemma {:induction false} ZeroIffNoBit(a: nat, b: nat, i: nat)
    requires b == ShiftLeft(1, i)
    ensures And(a, b) != 0 <==> BitAt(a, i)
    decreases i
  {
    if i == 0 {
      assert And(a / 2, 0) == 0;
    } else if a > 0 {
      ZeroIffNoBit(a / 2, b / 2, i - 1);
    } else {
      ZeroBit(i);
    }
  }

  // ------------------------------------------------------ The operations as arithmetic

  lemma HalfQuotient(n: nat, p: nat)
    requires p >= 1
    ensures n / (2 * p) == n / 2 / p
  {
    var q := n / 2 / p;
    assert n / 2 == p * q + n / 2 % p;
    assert n == (2 * p) * q + (2 * (n / 2 % p) + n % 2) by {
      assert 2 * (p * q) == (2 * p) * q;
    }
    RemainderIsUnique(n, 2 * p, q, 2 * (n / 2 % p) + n % 2);
  }

  lemma {:induction false} ShiftRightIsQuotient(n: nat, k: nat)
    ensures ShiftRight(n, k) == n / Pow2(k)
    decreases k
  {
    if k > 0 {
      ShiftRightIsQuotient(n / 2, k - 1);
      HalfQuotient(n, Pow2(k - 1));
    }
  }

  lemma {:induction false} ShiftLeftIsProduct(n: nat, k: nat)
    ensures ShiftLeft(n, k) == n * Pow2(k)
    decreases k
  {
    if k > 0 {
      ShiftLeftIsProduct(n, k - 1);
      assert 2 * (n * Pow2(k - 1)) == n * (2 * Pow2(k - 1));
    }
  }

  lemma {:induction false} BitAtIsPlace(n: nat, k: nat)
    ensures BitAt(n, k) <==> n / Pow2(k) % 2 == 1
    decreases k
  {
    if k > 0 {
      BitAtIsPlace(n / 2, k - 1);
      HalfQuotient(n, Pow2(k - 1));
    }
  }
}
