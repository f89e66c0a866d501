/**
 * Powers of two, shifts and bit reversal on natural numbers.
 *
 * Shifts are defined by repeated doubling and halving, so that facts about them need no non-linear arithmetic.
 */
module Bits {

  function Pow2(k: nat): (r: nat)
    ensures r >= 1
  {
    if k == 0 then 1 else 2 * Pow2(k - 1)
  }

  /** s * 2^e. */
  function Shl(s: nat, e: nat): nat {
    if e == 0 then s else 2 * Shl(s, e - 1)
  }

  /** s / 2^e. */
  function Shr(s: nat, e: nat): nat {
    if e == 0 then s else Shr(s / 2, e - 1)
  }

  /** The number whose k-bit representation is that of s read backwards. */
  function Rev(k: nat, s: nat): nat {
    if k == 0 then 0 else (if s % 2 == 1 then Pow2(k - 1) else 0) + Rev(k - 1, s / 2)
  }

  lemma {:induction false} Pow2Monotone(a: nat, b: nat)
    requires a <= b
    ensures Pow2(a) <= Pow2(b)
  {
    if a < b {
      Pow2Monotone(a, b - 1);
    }
  }

  lemma Pow2Order(a: nat, b: nat)
    ensures a < b <==> Pow2(a) < Pow2(b)
  {
    if a < b {
      Pow2Monotone(a + 1, b);
    } else {
      Pow2Monotone(b, a);
    }
  }

  lemma {:induction false} ShlAdd(s: nat, t: nat, e: nat)
    ensures Shl(s + t, e) == Shl(s, e) + Shl(t, e)
  {
    if e > 0 {
      ShlAdd(s, t, e - 1);
    }
  }

  lemma {:induction false} ShlPow2(a: nat, e: nat)
    ensures Shl(Pow2(a), e) == Pow2(a + e)
  {
    if e > 0 {
      ShlPow2(a, e - 1);
    }
  }

  /** Shifting by a + b is shifting by a, then by b. */
  lemma {:induction false} ShlShl(s: nat, a: nat, b: nat)
    ensures Shl(Shl(s, a), b) == Shl(s, a + b)
  {
    if b > 0 {
      ShlShl(s, a, b - 1);
    }
  }

  lemma {:induction false} ShlLess(s: nat, t: nat, e: nat)
    ensures Shl(s, e) < Shl(t, e) <==> s < t
  {
    if e > 0 {
      ShlLess(s, t, e - 1);
    }
  }

  lemma {:induction false} ShlAtLeast(s: nat, e: nat)
    ensures Shl(s, e) >= s
  {
    if e > 0 {
      ShlAtLeast(s, e - 1);
    }
  }

  /** The next block of length 2^e starts 2^e further on. */
  lemma ShlNext(b: nat, e: nat)
    ensures Shl(b + 1, e) == Shl(b, e) + Pow2(e)
  {
    ShlAdd(b, 1, e);
    ShlPow2(0, e);
  }

  /** A product with a power of two is a shift. */
  lemma {:induction false} ShlIsProduct(s: nat, e: nat)
    ensures Shl(s, e) == s * Pow2(e)
  {
    if e > 0 {
      ShlIsProduct(s, e - 1);
    }
  }

  /** The block of length 2^e that starts at Shl(b, e) is the one with number b. */
  lemma {:induction false} ShrInBlock(b: nat, e: nat, t: nat)
    requires t < Pow2(e)
    ensures Shr(Shl(b, e) + t, e) == b
  {
    if e > 0 {
      ShrInBlock(b, e - 1, t / 2);
      assert (Shl(b, e) + t) / 2 == Shl(b, e - 1) + t / 2;
    }
  }

  lemma {:induction false} JoinBound(a: nat, b: nat, lo: nat, hi: nat)
    requires lo < Pow2(a) && hi < Pow2(b)
    ensures lo + Shl(hi, a) < Pow2(a + b)
  {
    if a > 0 {
      JoinBound(a - 1, b, lo / 2, hi);
    }
  }

  lemma {:induction false} ShrBound(s: nat, a: nat, b: nat)
    requires s < Pow2(a + b)
    ensures Shr(s, a) < Pow2(b)
  {
    if a > 0 {
      ShrBound(s / 2, a - 1, b);
    }
  }

  /** The low e bits of s. */
  function Low(s: nat, e: nat): nat {
    if e == 0 then 0 else 2 * Low(s / 2, e - 1) + s % 2
  }

  /** Every number is its low bits and the shifted rest. */
  lemma {:induction false} SplitBits(s: nat, e: nat)
    ensures Low(s, e) < Pow2(e) && s == Low(s, e) + Shl(Shr(s, e), e)
  {
    if e > 0 {
      SplitBits(s / 2, e - 1);
    }
  }

  lemma {:induction false} LowInBlock(b: nat, e: nat, t: nat)
    requires t < Pow2(e)
    ensures Low(t + Shl(b, e), e) == t
  {
    if e > 0 {
      LowInBlock(b, e - 1, t / 2);
      assert (t + Shl(b, e)) / 2 == t / 2 + Shl(b, e - 1);
    }
  }

  lemma {:induction false} RevBound(k: nat, s: nat)
    ensures Rev(k, s) < Pow2(k)
  {
    if k > 0 {
      RevBound(k - 1, s / 2);
    }
  }

  lemma {:induction false} RevZero(k: nat)
    ensures Rev(k, 0) == 0
  {
    if k > 0 {
      RevZero(k - 1);
    }
  }

  /** Reversing a + b bits reverses the low a bits and the high b bits and exchanges them. */
  lemma {:induction false} RevSplit(a: nat, b: nat, lo: nat, hi: nat)
    requires lo < Pow2(a)
    ensures Rev(a + b, lo + Shl(hi, a)) == Shl(Rev(a, lo), b) + Rev(b, hi)
  {
    hide Rev, Shl, Pow2;
    ShlZero(b);
    if a == 0 {
      NoBits(lo, hi);
    } else {
      var s := lo + Shl(hi, a);
      var top := if lo % 2 == 1 then Pow2(a - 1) else 0;
      Doubled(hi, a);
      assert s % 2 == lo % 2 && s / 2 == lo / 2 + Shl(hi, a - 1);
      RevSplit(a - 1, b, lo / 2, hi);
      FirstBit(a, lo);
      FirstBit(a + b, s);
      ShlAdd(top, Rev(a - 1, lo / 2), b);
      ShlPow2(a - 1, b);
    }
  }

  // The definitions, one step at a time.

  lemma ShlZero(e: nat)
    ensures Shl(0, e) == 0
  {
    ShlAdd(0, 0, e);
  }

  lemma Doubled(s: nat, e: nat)
    requires e >= 1
    ensures Shl(s, e) == 2 * Shl(s, e - 1) && Pow2(e) == 2 * Pow2(e - 1)
  {
  }

  lemma FirstBit(k: nat, s: nat)
    requires k >= 1
    ensures Rev(k, s) == (if s % 2 == 1 then Pow2(k - 1) else 0) + Rev(k - 1, s / 2)
  {
  }

  lemma Pow2Up(e: nat)
    ensures Pow2(e + 1) == 2 * Pow2(e) && Pow2(e + 2) == 4 * Pow2(e) && Pow2(e + 3) == 8 * Pow2(e)
  {
    assert Pow2(e + 3) == 2 * Pow2(e + 2) && Pow2(e + 2) == 2 * Pow2(e + 1);
  }

  lemma ShlUp(s: nat)
    ensures Shl(s, 0) == s && Shl(s, 1) == 2 * s && Shl(s, 2) == 4 * s && Shl(s, 3) == 8 * s
  {
    assert Shl(s, 3) == 2 * Shl(s, 2) && Shl(s, 2) == 2 * Shl(s, 1);
  }

  lemma NoBits(s: nat, t: nat)
    ensures Rev(0, s) == 0 && Shl(t, 0) == t && Pow2(0) == 1
  {
  }

  /** Neighbours in reversed order are half of the range apart. */
  lemma {:induction false} ReversedNeighbours(k: nat, c: nat)
    requires k >= 1
    ensures Pow2(k) == 2 * Pow2(k - 1)
    ensures Rev(k, 2 * c) == Rev(k - 1, c) && Rev(k, 2 * c + 1) == Pow2(k - 1) + Rev(k - 1, c)
  {
    var even, odd := 2 * c, 2 * c + 1;
    assert even / 2 == c && even % 2 == 0;
    assert odd / 2 == c && odd % 2 == 1;
  }

  /** A number of at most k bits, reversed in k + d bits. */
  lemma RevWiden(k: nat, d: nat, s: nat)
    requires s < Pow2(k)
    ensures Rev(k + d, s) == Shl(Rev(k, s), d)
  {
    hide Rev, Shl, Pow2;
    RevZero(d);
    ShlZero(k);
    RevSplit(k, d, s, 0);
  }

  /** Twice the reversal of s is the reversal of s / 2, up to a multiple of 2^k. */
  lemma RevDouble(k: nat, s: nat)
    requires s < Pow2(k)
    ensures 2 * Rev(k, s) == Rev(k, s / 2) + (if s % 2 == 1 then Pow2(k) else 0)
  {
    hide Rev, Shl, Pow2;
    NoBits(s, s / 2);
    if k > 0 {
      Doubled(s, k);
      FirstBit(k, s);
      RevWiden(k - 1, 1, s / 2);
      Doubled(Rev(k - 1, s / 2), 1);
      NoBits(s, Rev(k - 1, s / 2));
    } else {
      NoBits(s / 2, s);
    }
  }

  /** Reversing twice gives the number back: the permutation is its own inverse. */
  lemma {:induction false} RevInvolution(k: nat, s: nat)
    requires s < Pow2(k)
    ensures Rev(k, Rev(k, s)) == s
  {
    hide Rev, Shl, Pow2;
    NoBits(s, s / 2);
    if k > 0 {
      var r, top := Rev(k - 1, s / 2), s % 2;
      Doubled(s / 2, k);
      RevInvolution(k - 1, s / 2);
      RevBound(k - 1, s / 2);
      RevSplit(k - 1, 1, r, top);
      ShlPow2(0, k - 1);
      ShlZero(k - 1);
      FirstBit(k, s);
      assert Rev(k, s) == r + Shl(top, k - 1);
      FirstBit(1, top);
      NoBits(top / 2, s / 2);
      Doubled(s / 2, 1);
    }
  }
}
