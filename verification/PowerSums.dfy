/**
 * What a partly transformed array holds.
 *
 * Let y be 2^K complex samples in bit-reversed order. After the stages up to block length l, position b*l + r holds
 * the sum over the samples s of block b of y[s] times the r-th power of the twiddle factor e(Rev(K, s) / 2^K). With
 * l = 1 that is y itself, with l = 2^K it is the discrete Fourier transform of the samples in natural order.
 */
module PowerSums {
  import opened Bits
  import opened Circle
  import opened ComplexNumbers

  /** The factor of sample s; also the factor of a whole block with number s when the frequency grows by its length. */
  function Twiddle(turn: Turns, K: nat, s: nat): Complex {
    turn(Rev(K, s), Pow2(K))
  }

  ghost function Term(turn: Turns, y: seq<Complex>, K: nat, s: nat, r: nat): Complex
    requires s < |y|
  {
    Mul(y[s], Power(Twiddle(turn, K, s), r))
  }

  ghost function PowerSum(turn: Turns, y: seq<Complex>, K: nat, lo: nat, hi: nat, r: nat): Complex
    requires lo <= hi <= |y|
  {
    if lo == hi then ZERO else Add(PowerSum(turn, y, K, lo, hi - 1, r), Term(turn, y, K, hi - 1, r))
  }

  lemma {:induction false} SumSplit(turn: Turns, y: seq<Complex>, K: nat, lo: nat, mid: nat, hi: nat, r: nat)
    requires lo <= mid <= hi <= |y|
    ensures PowerSum(turn, y, K, lo, hi, r) == Add(PowerSum(turn, y, K, lo, mid, r), PowerSum(turn, y, K, mid, hi, r))
  {
    hide Term;
    if mid < hi {
      SumSplit(turn, y, K, lo, mid, hi - 1, r);
    }
  }

  lemma SumOfOne(turn: Turns, y: seq<Complex>, K: nat, s: nat)
    requires s < |y|
    ensures PowerSum(turn, y, K, s, s + 1, 0) == y[s]
  {
    MulOne(y[s]);
    assert PowerSum(turn, y, K, s, s, 0) == ZERO;
  }

  lemma TwiddleZero(turn: Turns, K: nat)
    requires IsCircle(turn)
    ensures Twiddle(turn, K, 0) == ONE
  {
    RevZero(K);
    TurnZero(turn, Pow2(K));
  }

  lemma TwiddleSquare(turn: Turns, K: nat, s: nat)
    requires IsCircle(turn) && s < Pow2(K)
    ensures Mul(Twiddle(turn, K, s), Twiddle(turn, K, s)) == Twiddle(turn, K, s / 2)
  {
    hide Mul;
    TurnAdd(turn, Rev(K, s), Rev(K, s), Pow2(K));
    RevDouble(K, s);
    TurnAdd(turn, Rev(K, s / 2), Pow2(K), Pow2(K));
    TurnParts(turn, K);
    MulOne(Twiddle(turn, K, s / 2));
  }

  lemma TwiddleOdd(turn: Turns, K: nat, c: nat)
    requires IsCircle(turn) && K >= 1
    ensures Twiddle(turn, K, 2 * c + 1) == Neg(Twiddle(turn, K, 2 * c))
  {
    hide Mul, IsCircle, Rev, Pow2;
    ReversedNeighbours(K, c);
    TurnAdd(turn, Rev(K - 1, c), Pow2(K - 1), Pow2(K));
    TurnParts(turn, K);
    MulMinusOne(Twiddle(turn, K, 2 * c));
  }

  lemma MulMinusOne(x: Complex)
    ensures Mul(x, Neg(ONE)) == Neg(x)
  {
  }

  lemma TwiddleQuarter(turn: Turns, K: nat, c: nat)
    requires IsCircle(turn) && K >= 2
    ensures Twiddle(turn, K, 4 * c + 2) == Mul(I, Twiddle(turn, K, 4 * c))
  {
    hide Mul, IsCircle, Rev, Pow2;
    ReversedNeighbours(K, 2 * c);
    ReversedNeighbours(K - 1, c);
    ReversedNeighbours(K, 2 * c + 1);
    assert 2 * (2 * c) == 4 * c && 2 * (2 * c + 1) == 4 * c + 2;
    TurnAdd(turn, Rev(K - 2, c), Pow2(K - 2), Pow2(K));
    TurnParts(turn, K);
    MulComm(I, Twiddle(turn, K, 4 * c));
  }

  /** The 2^e-th power of a twiddle factor depends only on the block of length 2^e. */
  lemma {:induction false} TwiddlePower(turn: Turns, K: nat, s: nat, e: nat)
    requires IsCircle(turn) && s < Pow2(K)
    ensures Power(Twiddle(turn, K, s), Pow2(e)) == Twiddle(turn, K, Shr(s, e))
  {
    hide Mul, Twiddle;
    var w := Twiddle(turn, K, s);
    if e == 0 {
      assert Power(w, 1) == Mul(Power(w, 0), w);
      MulOne(w);
    } else {
      PowerTwice(w, Pow2(e - 1));
      TwiddleSquare(turn, K, s);
      TwiddlePower(turn, K, s / 2, e - 1);
    }
  }

  lemma MulPermute(x: Complex, u: Complex, v: Complex)
    ensures Mul(x, Mul(u, v)) == Mul(v, Mul(x, u))
  {
    hide Mul;
    MulAssoc(x, u, v);
    MulComm(Mul(x, u), v);
  }

  /** Raising the frequency by the block length multiplies the block sum by the block's own twiddle factor. */
  lemma {:induction false} ShiftSum(turn: Turns, y: seq<Complex>, K: nat, e: nat, c: nat, lo: nat, hi: nat, r: nat)
    requires IsCircle(turn) && lo <= hi <= |y| <= Pow2(K)
    requires lo == Shl(c, e) && hi <= lo + Pow2(e)
    ensures PowerSum(turn, y, K, lo, hi, r + Pow2(e)) == Mul(Twiddle(turn, K, c), PowerSum(turn, y, K, lo, hi, r))
  {
    var v := Twiddle(turn, K, c);
    if lo < hi {
      hide Mul, Twiddle;
      var s, w := hi - 1, Twiddle(turn, K, hi - 1);
      ShiftSum(turn, y, K, e, c, lo, s, r);
      ShrInBlock(c, e, s - lo);
      TwiddlePower(turn, K, s, e);
      PowerAdd(w, r, Pow2(e));
      MulPermute(y[s], Power(w, r), v);
      MulAdd(v, PowerSum(turn, y, K, lo, s, r), Term(turn, y, K, s, r));
    }
  }

  /** One radix-2 step: two neighbouring blocks of length 2^e make one of length 2^(e+1). */
  lemma Radix2Step(turn: Turns, y: seq<Complex>, K: nat, e: nat, d: nat, lo: nat, l: nat, r: nat)
    requires IsCircle(turn) && K >= 1 && |y| <= Pow2(K)
    requires l == Pow2(e) && lo == Shl(d, e + 1) && lo + 2 * l <= |y|
    ensures var a0, a1 := PowerSum(turn, y, K, lo, lo + l, r), PowerSum(turn, y, K, lo + l, lo + 2 * l, r);
            && PowerSum(turn, y, K, lo, lo + 2 * l, r) == Add(a0, a1)
            && PowerSum(turn, y, K, lo, lo + 2 * l, r + l) == Mul(Twiddle(turn, K, 2 * d), Sub(a0, a1))
  {
    hide Mul, Term, Twiddle;
    var a0, a1 := PowerSum(turn, y, K, lo, lo + l, r), PowerSum(turn, y, K, lo + l, lo + 2 * l, r);
    SumSplit(turn, y, K, lo, lo + l, lo + 2 * l, r);
    SumSplit(turn, y, K, lo, lo + l, lo + 2 * l, r + l);
    assert lo == Shl(2 * d, e) by {
      ShlShl(d, 1, e);
      assert Shl(d, 1) == 2 * d;
    }
    ShiftSum(turn, y, K, e, 2 * d, lo, lo + l, r);
    ShlNext(2 * d, e);
    ShiftSum(turn, y, K, e, 2 * d + 1, lo + l, lo + 2 * l, r);
    TwiddleOdd(turn, K, d);
    OppositeFactors(Twiddle(turn, K, 2 * d), a0, a1);
  }

  lemma OppositeFactors(w: Complex, x: Complex, y: Complex)
    ensures Add(Mul(w, x), Mul(Neg(w), y)) == Mul(w, Sub(x, y))
  {
  }

  /** One radix-4 step: the four values at distance l in a block of length 4l, from those of its four quarters. */
  lemma Radix4Step(turn: Turns, y: seq<Complex>, K: nat, e: nat, b: nat, lo: nat, l: nat, r: nat)
    requires IsCircle(turn) && K >= 2 && |y| <= Pow2(K)
    requires l == Pow2(e) && lo == Shl(b, e + 2) && lo + 4 * l <= |y|
    ensures var a0 := PowerSum(turn, y, K, lo, lo + l, r);
            var a1 := PowerSum(turn, y, K, lo + l, lo + 2 * l, r);
            var a2 := PowerSum(turn, y, K, lo + 2 * l, lo + 3 * l, r);
            var a3 := PowerSum(turn, y, K, lo + 3 * l, lo + 4 * l, r);
            var w1, w2 := Twiddle(turn, K, 4 * b), Twiddle(turn, K, 2 * b);
            && PowerSum(turn, y, K, lo, lo + 4 * l, r) == Add(Add(a0, a1), Add(a2, a3))
            && PowerSum(turn, y, K, lo, lo + 4 * l, r + l) == Mul(w1, Add(Sub(a0, a1), Rotate(Sub(a2, a3))))
            && PowerSum(turn, y, K, lo, lo + 4 * l, r + 2 * l) == Mul(w2, Sub(Add(a0, a1), Add(a2, a3)))
            && PowerSum(turn, y, K, lo, lo + 4 * l, r + 3 * l)
               == Mul(Mul(w1, w2), Sub(Sub(a0, a1), Rotate(Sub(a2, a3))))
  {
    hide Mul, Rotate, Term, Twiddle, PowerSum;
    var w1, w2 := Twiddle(turn, K, 4 * b), Twiddle(turn, K, 2 * b);
    assert lo == Shl(2 * b, e + 1) by {
      ShlShl(b, 1, e + 1);
      assert Shl(b, 1) == 2 * b;
    }
    assert Pow2(e + 1) == 2 * l;
    ShlNext(2 * b, e + 1);
    Radix2Step(turn, y, K, e, 2 * b, lo, l, r);
    Radix2Step(turn, y, K, e, 2 * b + 1, lo + 2 * l, l, r);
    Radix2Step(turn, y, K, e + 1, b, lo, 2 * l, r);
    Radix2Step(turn, y, K, e + 1, b, lo, 2 * l, r + l);
    TwiddleQuarter(turn, K, b);
    var x1 := Sub(PowerSum(turn, y, K, lo, lo + l, r), PowerSum(turn, y, K, lo + l, lo + 2 * l, r));
    var x3 := Sub(PowerSum(turn, y, K, lo + 2 * l, lo + 3 * l, r), PowerSum(turn, y, K, lo + 3 * l, lo + 4 * l, r));
    RotatedPair(w1, w2, x1, x3);
    MulI(x3);
  }

  lemma RotatedPair(w1: Complex, w2: Complex, x1: Complex, x3: Complex)
    ensures Add(Mul(w1, x1), Mul(Mul(I, w1), x3)) == Mul(w1, Add(x1, Mul(I, x3)))
    ensures Mul(w2, Sub(Mul(w1, x1), Mul(Mul(I, w1), x3))) == Mul(Mul(w1, w2), Sub(x1, Mul(I, x3)))
  {
    RotatedTerm(w1, x3);
    MulAdd(w1, x1, Mul(I, x3));
    MulSub(w1, x1, Mul(I, x3));
    MulAssoc(w2, w1, Sub(x1, Mul(I, x3)));
    MulComm(w1, w2);
  }

  lemma RotatedTerm(w: Complex, x: Complex)
    ensures Mul(Mul(I, w), x) == Mul(w, Mul(I, x))
  {
  }
}
