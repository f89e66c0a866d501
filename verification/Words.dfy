/** Machine words as natural numbers: bits, and the operators of C on unsigned words. `Low` cuts to a width. */
module Words {
  import opened Bits

  /** Bit j of x; bit 0 is the lowest. */
  function Bit(x: nat, j: nat): bool {
    if j == 0 then x % 2 == 1 else Bit(x / 2, j - 1)
  }

  function And(x: nat, y: nat): nat {
    if x == 0 then 0 else (if x % 2 == 1 && y % 2 == 1 then 1 else 0) + 2 * And(x / 2, y / 2)
  }

  function Or(x: nat, y: nat): nat
    decreases x + y
  {
    if x == 0 && y == 0 then 0 else (if x % 2 == 1 || y % 2 == 1 then 1 else 0) + 2 * Or(x / 2, y / 2)
  }

  /** The complement in a word of w bits. */
  function Not(x: nat, w: nat): nat {
    if w == 0 then 0 else 1 - x % 2 + 2 * Not(x / 2, w - 1)
  }

  lemma {:induction false} BitOfZero(j: nat)
    ensures !Bit(0, j)
  {
    if j > 0 {
      BitOfZero(j - 1);
    }
  }

  lemma {:induction false} BitOfLow(x: nat, w: nat, j: nat)
    ensures Bit(Low(x, w), j) <==> j < w && Bit(x, j)
  {
    if w == 0 {
      BitOfZero(j);
    } else if j > 0 {
      BitOfLow(x / 2, w - 1, j - 1);
    }
  }

  lemma {:induction false} BitOfAnd(x: nat, y: nat, j: nat)
    ensures Bit(And(x, y), j) <==> Bit(x, j) && Bit(y, j)
  {
    if x == 0 {
      BitOfZero(j);
    } else if j > 0 {
      BitOfAnd(x / 2, y / 2, j - 1);
    }
  }

  lemma {:induction false} BitOfOr(x: nat, y: nat, j: nat)
    ensures Bit(Or(x, y), j) <==> Bit(x, j) || Bit(y, j)
  {
    if x == 0 && y == 0 {
      BitOfZero(j);
    } else if j > 0 {
      BitOfOr(x / 2, y / 2, j - 1);
    }
  }

  lemma {:induction false} BitOfNot(x: nat, w: nat, j: nat)
    ensures Bit(Not(x, w), j) <==> j < w && !Bit(x, j)
  {
    if w == 0 {
      BitOfZero(j);
    } else if j > 0 {
      BitOfNot(x / 2, w - 1, j - 1);
    }
  }

  lemma {:induction false} BitOfShl(x: nat, k: nat, j: nat)
    ensures Bit(Shl(x, k), j) <==> j >= k && Bit(x, j - k)
  {
    if k > 0 && j > 0 {
      BitOfShl(x, k - 1, j - 1);
    }
  }

  lemma {:induction false} BitOfShr(x: nat, k: nat, j: nat)
    ensures Bit(Shr(x, k), j) <==> Bit(x, j + k)
  {
    if k > 0 {
      BitOfShr(x / 2, k - 1, j);
    }
  }

  /** The word of k ones. */
  lemma {:induction false} BitOfOnes(k: nat, j: nat)
    ensures Shl(1, k) >= 1 && (Bit(Shl(1, k) - 1, j) <==> j < k)
  {
    if k == 0 {
      BitOfZero(j);
    } else {
      BitOfOnes(k - 1, if j == 0 then 0 else j - 1);
      assert (Shl(1, k) - 1) / 2 == Shl(1, k - 1) - 1;
    }
  }

  /** Numbers with the same bits are the same. */
  lemma {:induction false} SameBits(x: nat, y: nat)
    requires forall j: nat :: Bit(x, j) <==> Bit(y, j)
    ensures x == y
    decreases x + y
  {
    if x > 0 || y > 0 {
      assert Bit(x, 0) <==> Bit(y, 0);
      forall j: nat ensures Bit(x / 2, j) <==> Bit(y / 2, j) {
        assert Bit(x, j + 1) <==> Bit(y, j + 1);
      }
      SameBits(x / 2, y / 2);
    }
  }

  /** A number below 2^w has no bits from w on. */
  lemma {:induction false} NoHighBits(x: nat, w: nat, j: nat)
    requires x < Pow2(w) && j >= w
    ensures !Bit(x, j)
  {
    if w == 0 {
      BitOfZero(j);
    } else {
      NoHighBits(x / 2, w - 1, j - 1);
    }
  }

  lemma {:induction false} FewBits(x: nat, w: nat)
    requires forall j: nat | j >= w :: !Bit(x, j)
    ensures x < Pow2(w)
    decreases x, w
  {
    if x > 0 {
      if w == 0 {
        forall j: nat ensures Bit(x, j) <==> Bit(0, j) {
          BitOfZero(j);
        }
        SameBits(x, 0);
      } else {
        forall j: nat | j >= w - 1 ensures !Bit(x / 2, j) {
          assert !Bit(x, j + 1);
        }
        FewBits(x / 2, w - 1);
      }
    }
  }

  // ---------- big-endian numbers ----------

  /** The number that a sequence of bits denotes, highest bit first. */
  function Number(bits: seq<bool>): nat {
    if |bits| == 0 then 0 else 2 * Number(bits[..|bits| - 1]) + (if bits[|bits| - 1] then 1 else 0)
  }

  /** The lowest n bits of a number, highest bit first. */
  function ToBits(x: nat, n: nat): (bits: seq<bool>)
    ensures |bits| == n
  {
    if n == 0 then [] else ToBits(x / 2, n - 1) + [x % 2 == 1]
  }

  lemma {:induction false} BitOfNumber(bits: seq<bool>, j: nat)
    ensures Bit(Number(bits), j) <==> j < |bits| && bits[|bits| - 1 - j]
  {
    if |bits| == 0 {
      BitOfZero(j);
    } else if j > 0 {
      BitOfNumber(bits[..|bits| - 1], j - 1);
    }
  }

  lemma {:induction false} ToBitsAt(x: nat, n: nat, i: nat)
    requires i < n
    ensures ToBits(x, n)[i] <==> Bit(x, n - 1 - i)
  {
    if i < n - 1 {
      ToBitsAt(x / 2, n - 1, i);
    }
  }

  /** A word is the number of these bits if it has exactly the bits that they say. */
  lemma IsNumber(x: nat, bits: seq<bool>)
    requires forall j: nat :: Bit(x, j) <==> j < |bits| && bits[|bits| - 1 - j]
    ensures x == Number(bits)
  {
    forall j: nat ensures Bit(x, j) <==> Bit(Number(bits), j) {
      BitOfNumber(bits, j);
    }
    SameBits(x, Number(bits));
  }

  lemma {:induction false} NumberOfToBits(x: nat, n: nat)
    requires x < Pow2(n)
    ensures Number(ToBits(x, n)) == x
  {
    if n > 0 {
      NumberOfToBits(x / 2, n - 1);
      assert ToBits(x, n)[..n - 1] == ToBits(x / 2, n - 1);
    }
  }

  lemma {:induction false} ToBitsOfNumber(bits: seq<bool>)
    ensures ToBits(Number(bits), |bits|) == bits && Number(bits) < Pow2(|bits|)
  {
    if |bits| > 0 {
      ToBitsOfNumber(bits[..|bits| - 1]);
    }
  }

  // ---------- lengths ----------

  /** The number of bits in the binary representation of x. */
  function BitLength(x: nat): nat {
    if x == 0 then 0 else 1 + BitLength(x / 2)
  }

  lemma {:induction false} BitLengthBounds(x: nat)
    ensures x < Pow2(BitLength(x))
    ensures x > 0 ==> BitLength(x) > 0 && Pow2(BitLength(x) - 1) <= x
    ensures x > 0 ==> Bit(x, BitLength(x) - 1)
  {
    if x > 0 {
      BitLengthBounds(x / 2);
    }
  }

  /** These bounds determine the length. */
  lemma BitLengthIs(x: nat, n: nat)
    requires n > 0 && Pow2(n - 1) <= x < Pow2(n)
    ensures BitLength(x) == n
  {
    BitLengthBounds(x);
    Pow2Order(n - 1, BitLength(x));
    Pow2Order(BitLength(x) - 1, n);
  }
}
