/**
 * The real discrete Fourier transform as fft4g.c documents it, and how it is obtained from a complex transform of half
 * the size: the passes rftfsub and rftbsub, on values.
 */
module RealDft {
  import opened Bits
  import opened Circle
  import opened ComplexNumbers
  import opened Dft

  ghost function RealTerm(turn: Turns, x: seq<real>, n: nat, k: nat): nat -> Complex {
    (j: nat) => if j < |x| then Scale(x[j], turn(k * j, n)) else ZERO
  }

  /** The sum over j of x[j] (cos(2 pi j k / n) + i sin(2 pi j k / n)), where n is the number of samples. */
  ghost function RealDftAt(turn: Turns, x: seq<real>, k: nat): Complex {
    Sum(RealTerm(turn, x, |x|, k), |x|)
  }

  /** Neighbouring real samples taken as complex ones. */
  ghost predicate IsPaired(x: seq<real>, c: seq<Complex>) {
    && |x| == 2 * |c|
    && forall j: nat | j < |c| :: c[j] == Complex(x[2 * j], x[2 * j + 1])
  }

  // The contributions of the even and of the odd samples.

  ghost function EvenTerm(turn: Turns, c: seq<Complex>, N: nat, p: nat): nat -> Complex {
    (j: nat) => if j < |c| then Scale(c[j].re, turn(p * j, N)) else ZERO
  }

  ghost function OddTerm(turn: Turns, c: seq<Complex>, N: nat, p: nat): nat -> Complex {
    (j: nat) => if j < |c| then Scale(c[j].im, turn(p * j, N)) else ZERO
  }

  ghost function EvenPart(turn: Turns, c: seq<Complex>, p: nat): Complex {
    Sum(EvenTerm(turn, c, |c|, p), |c|)
  }

  ghost function OddPart(turn: Turns, c: seq<Complex>, p: nat): Complex {
    Sum(OddTerm(turn, c, |c|, p), |c|)
  }

  /** The complex transform of the paired samples is E + i O. */
  lemma ComplexParts(turn: Turns, c: seq<Complex>, p: nat)
    ensures DftAt(turn, c, p) == Add(EvenPart(turn, c, p), Mul(I, OddPart(turn, c, p)))
  {
    hide Mul, Scale, Sum, Add;
    var N := |c|;
    var rotated := (j: nat) => Mul(I, OddTerm(turn, c, N, p)(j));
    forall j: nat | j < N
      ensures DftTerm(turn, c, N, p)(j) == Add(EvenTerm(turn, c, N, p)(j), rotated(j))
    {
      assert OddTerm(turn, c, N, p)(j) == Scale(c[j].im, turn(p * j, N));
      SplitProduct(c[j], turn(p * j, N));
    }
    SumAdd(EvenTerm(turn, c, N, p), rotated, DftTerm(turn, c, N, p), N);
    SumMul(I, OddTerm(turn, c, N, p), rotated, N);
  }

  lemma SplitProduct(c: Complex, w: Complex)
    ensures Mul(c, w) == Add(Scale(c.re, w), Mul(I, Scale(c.im, w)))
  {
  }

  /** The real transform of n = 2N samples is E + e(p / n) O. */
  lemma RealParts(turn: Turns, x: seq<real>, c: seq<Complex>, p: nat)
    requires IsCircle(turn) && IsPaired(x, c) && |c| > 0
    ensures RealDftAt(turn, x, p) == Add(EvenPart(turn, c, p), Mul(turn(p, |x|), OddPart(turn, c, p)))
  {
    hide Mul, Scale, Sum, Add, IsCircle;
    var N, t := |c|, turn(p, |x|);
    var rotated := (j: nat) => Mul(t, OddTerm(turn, c, N, p)(j));
    forall j: nat | j < N
      ensures EvenTerm(turn, c, N, p)(j) == RealTerm(turn, x, |x|, p)(2 * j)
      ensures rotated(j) == RealTerm(turn, x, |x|, p)(2 * j + 1)
    {
      RealIndex(p, j);
      TurnHalf(turn, p * j, N);
      TurnAdd(turn, 2 * (p * j), p, 2 * N);
      assert OddTerm(turn, c, N, p)(j) == Scale(x[2 * j + 1], turn(p * j, N));
      MulScale(t, x[2 * j + 1], turn(p * j, N));
    }
    SumEvenOdd(RealTerm(turn, x, |x|, p), EvenTerm(turn, c, N, p), rotated, N);
    SumMul(t, OddTerm(turn, c, N, p), rotated, N);
  }

  lemma RealIndex(p: nat, j: nat)
    ensures p * (2 * j) == 2 * (p * j) && p * (2 * j + 1) == 2 * (p * j) + p
  {
  }

  lemma MulScale(t: Complex, r: real, w: Complex)
    ensures Mul(t, Scale(r, w)) == Scale(r, Mul(w, t))
  {
    assert t.re * (r * w.re) == r * (w.re * t.re) && t.im * (r * w.im) == r * (w.im * t.im);
    assert t.re * (r * w.im) == r * (w.im * t.re) && t.im * (r * w.re) == r * (w.re * t.im);
  }

  /** The parts at the mirrored frequency are the conjugates. */
  lemma MirroredParts(turn: Turns, c: seq<Complex>, K: nat, p: nat)
    requires IsCircle(turn) && |c| == Pow2(K) && p <= |c|
    ensures EvenPart(turn, c, |c| - p) == Conj(EvenPart(turn, c, p))
    ensures OddPart(turn, c, |c| - p) == Conj(OddPart(turn, c, p))
  {
    hide Scale, Sum, Conj, IsCircle;
    var N := |c|;
    forall j: nat | j < N
      ensures EvenTerm(turn, c, N, N - p)(j) == Conj(EvenTerm(turn, c, N, p)(j))
      ensures OddTerm(turn, c, N, N - p)(j) == Conj(OddTerm(turn, c, N, p)(j))
    {
      TurnComplement(turn, p, j, K);
      ConjScale(c[j].re, turn(p * j, N));
      ConjScale(c[j].im, turn(p * j, N));
    }
    SumConj(EvenTerm(turn, c, N, p), EvenTerm(turn, c, N, N - p), N);
    SumConj(OddTerm(turn, c, N, p), OddTerm(turn, c, N, N - p), N);
  }

  lemma ConjScale(r: real, w: Complex)
    ensures Scale(r, Conj(w)) == Conj(Scale(r, w))
  {
  }

  // ---------- the passes ----------

  /** The factor (0.5 - sin / 2) + i cos / 2 of angle 2 pi p / n, n = 2^(K+1), which both passes multiply with. */
  function PassFactor(turn: Turns, K: nat, p: nat): Complex {
    var t := turn(p, Pow2(K + 1));
    Complex(0.5 - 0.5 * t.im, 0.5 * t.re)
  }

  /** Element p after rftfsub, for 0 < p < N. */
  ghost function ForwardAt(turn: Turns, K: nat, y: seq<Complex>, p: nat): Complex
    requires 0 < p < |y|
  {
    Sub(y[p], Mul(PassFactor(turn, K, p), Sub(y[p], Conj(y[|y| - p]))))
  }

  /** Element p after rftbsub, for 0 < p < N. */
  ghost function BackwardAt(turn: Turns, K: nat, y: seq<Complex>, p: nat): Complex
    requires 0 < p < |y|
  {
    Conj(Sub(y[p], Mul(Conj(PassFactor(turn, K, p)), Sub(y[p], Conj(y[|y| - p])))))
  }

  /** The factor of the mirrored position is the conjugate; in the middle it is zero. */
  lemma {:induction false} MirroredFactor(turn: Turns, K: nat, p: nat)
    requires IsCircle(turn) && p <= Pow2(K)
    ensures PassFactor(turn, K, Pow2(K) - p) == Conj(PassFactor(turn, K, p))
  {
    MirroredTurn(turn, K, p);
  }

  lemma {:induction false} MirroredTurn(turn: Turns, K: nat, p: nat)
    requires IsCircle(turn) && p <= Pow2(K)
    ensures var t := turn(p, Pow2(K + 1)); turn(Pow2(K) - p, Pow2(K + 1)) == Complex(-t.re, t.im)
  {
    hide Mul, IsCircle, Norm2, Neg;
    var n, N := Pow2(K + 1), Pow2(K);
    TurnAdd(turn, N - p, p, n);
    TurnParts(turn, K + 1);
    TurnUnit(turn, p, n);
    HalfTurnMirror(turn(N - p, n), turn(p, n));
  }

  lemma HalfTurnMirror(x: Complex, z: Complex)
    requires Mul(x, z) == Neg(ONE) && Mul(z, Conj(z)) == ONE
    ensures x == Complex(-z.re, z.im)
  {
    hide Mul;
    MulAssoc(x, z, Conj(z));
    MulOne(x);
    MulNeg(ONE, Conj(z));
    MulOne(Conj(z));
  }

  lemma MiddleFactor(turn: Turns, K: nat)
    requires IsCircle(turn) && K >= 1
    ensures PassFactor(turn, K, Pow2(K - 1)) == ZERO
  {
    TurnParts(turn, K + 1);
  }

  /** rftbsub after rftfsub conjugates every element. */
  lemma PassesUndo(turn: Turns, K: nat, y: seq<Complex>, z: seq<Complex>, p: nat)
    requires IsCircle(turn) && |y| == |z| == Pow2(K) && 0 < p < |y|
    requires z[p] == ForwardAt(turn, K, y, p) && z[|y| - p] == ForwardAt(turn, K, y, |y| - p)
    ensures BackwardAt(turn, K, z, p) == Conj(y[p])
  {
    hide Mul, Conj;
    var N := |y|;
    var w, t := PassFactor(turn, K, p), turn(p, Pow2(K + 1));
    MirroredFactor(turn, K, p);
    TurnUnit(turn, p, Pow2(K + 1));
    assert 0 < N - p < N && N - (N - p) == p;
    PassAlgebra(t, w, y[p], y[N - p], z[p], z[N - p]);
  }

  lemma PassAlgebra(t: Complex, w: Complex, u: Complex, v: Complex, u': Complex, v': Complex)
    requires Norm2(t) == 1.0 && w == Complex(0.5 - 0.5 * t.im, 0.5 * t.re)
    requires u' == Sub(u, Mul(w, Sub(u, Conj(v)))) && v' == Sub(v, Mul(Conj(w), Sub(v, Conj(u))))
    ensures Sub(u', Mul(Conj(w), Sub(u', Conj(v')))) == u
  {
    hide Mul;
    var d := Sub(u, Conj(v));
    var wd := Mul(w, d);
    assert Conj(v') == Add(Conj(v), wd) by {
      ConjPass(w, u, v);
    }
    var d' := Sub(d, Scale(2.0, wd));
    assert Sub(u', Conj(v')) == d';
    assert Mul(Conj(w), d') == Neg(wd) by {
      FactorIdentity(t, w, d);
    }
    assert Sub(u', Neg(wd)) == u;
  }

  lemma ConjPass(w: Complex, u: Complex, v: Complex)
    ensures Conj(Sub(v, Mul(Conj(w), Sub(v, Conj(u))))) == Add(Conj(v), Mul(w, Sub(u, Conj(v))))
  {
  }

  /** This is where (0.5 - c[nc-kk])^2 + c[kk]^2 = 0.5 - c[nc-kk] comes in. */
  lemma FactorIdentity(t: Complex, w: Complex, d: Complex)
    requires Norm2(t) == 1.0 && w == Complex(0.5 - 0.5 * t.im, 0.5 * t.re)
    ensures Mul(Conj(w), Sub(d, Scale(2.0, Mul(w, d)))) == Neg(Mul(w, d))
  {
    hide Mul;
    assert Mul(Conj(w), w) == Complex(w.re, 0.0) by {
      FactorNorm(t, w);
    }
    MulAssoc(Conj(w), w, d);
    var wd := Mul(w, d);
    MulDifferenceScaled(Conj(w), d, wd);
    RealMinusConj(w, d);
  }

  lemma FactorNorm(t: Complex, w: Complex)
    requires Norm2(t) == 1.0 && w == Complex(0.5 - 0.5 * t.im, 0.5 * t.re)
    ensures Mul(Conj(w), w) == Complex(w.re, 0.0)
  {
    assert w.re * w.re == 0.25 - 0.5 * t.im + 0.25 * (t.im * t.im);
    assert w.im * w.im == 0.25 * (t.re * t.re);
  }

  lemma MulDifferenceScaled(x: Complex, d: Complex, e: Complex)
    ensures Mul(x, Sub(d, Scale(2.0, e))) == Sub(Mul(x, d), Scale(2.0, Mul(x, e)))
  {
  }

  lemma RealMinusConj(w: Complex, d: Complex)
    ensures Sub(Mul(Conj(w), d), Scale(2.0, Mul(Complex(w.re, 0.0), d))) == Neg(Mul(w, d))
  {
  }

  /** rftfsub turns the complex transform of the paired samples into the real transform. */
  lemma ForwardIsReal(turn: Turns, x: seq<real>, c: seq<Complex>, y: seq<Complex>, K: nat, p: nat)
    requires IsCircle(turn) && IsPaired(x, c) && |c| == |y| == Pow2(K) && 0 < p < |y|
    requires forall q: nat | q < |y| :: y[q] == DftAt(turn, c, q)
    ensures ForwardAt(turn, K, y, p) == RealDftAt(turn, x, p)
  {
    hide Mul, Conj;
    var N := |c|;
    var E, O := EvenPart(turn, c, p), OddPart(turn, c, p);
    ComplexParts(turn, c, p);
    ComplexParts(turn, c, N - p);
    MirroredParts(turn, c, K, p);
    RealParts(turn, x, c, p);
    UnmixAlgebra(turn(p, Pow2(K + 1)), E, O);
  }

  lemma UnmixAlgebra(t: Complex, E: Complex, O: Complex)
    ensures var w := Complex(0.5 - 0.5 * t.im, 0.5 * t.re);
            var y, y' := Add(E, Mul(I, O)), Add(Conj(E), Mul(I, Conj(O)));
            Sub(y, Mul(w, Sub(y, Conj(y')))) == Add(E, Mul(t, O))
  {
    var y, y' := Add(E, Mul(I, O)), Add(Conj(E), Mul(I, Conj(O)));
    assert Sub(y, Conj(y')) == Complex(-2.0 * O.im, 2.0 * O.re);
  }

  /** The elements at 0 and N of the real transform, from element 0 of the complex one. */
  lemma EndsAreReal(turn: Turns, x: seq<real>, c: seq<Complex>, K: nat)
    requires IsCircle(turn) && IsPaired(x, c) && |c| == Pow2(K)
    ensures var z := DftAt(turn, c, 0);
            && RealDftAt(turn, x, 0) == Complex(z.re + z.im, 0.0)
            && RealDftAt(turn, x, |c|) == Complex(z.re - z.im, 0.0)
  {
    hide Mul, Conj, IsCircle;
    var N := |c|;
    var E, O := EvenPart(turn, c, 0), OddPart(turn, c, 0);
    ComplexParts(turn, c, 0);
    RealParts(turn, x, c, 0);
    RealParts(turn, x, c, N);
    TurnZero(turn, 2 * N);
    TurnParts(turn, K + 1);
    MulI(O);
    MulOne(O);
    MulNeg(ONE, O);
    RealAtZero(turn, c);
    PeriodAtZero(turn, c, K);
  }

  lemma RealAtZero(turn: Turns, c: seq<Complex>)
    requires IsCircle(turn) && |c| > 0
    ensures EvenPart(turn, c, 0).im == 0.0 && OddPart(turn, c, 0).im == 0.0
  {
    hide IsCircle, Sum;
    var N := |c|;
    forall j: nat | j < N
      ensures EvenTerm(turn, c, N, 0)(j) == Conj(EvenTerm(turn, c, N, 0)(j))
      ensures OddTerm(turn, c, N, 0)(j) == Conj(OddTerm(turn, c, N, 0)(j))
    {
      TurnZero(turn, N);
      assert 0 * j == 0;
    }
    SumConj(EvenTerm(turn, c, N, 0), EvenTerm(turn, c, N, 0), N);
    SumConj(OddTerm(turn, c, N, 0), OddTerm(turn, c, N, 0), N);
  }

  lemma PeriodAtZero(turn: Turns, c: seq<Complex>, K: nat)
    requires IsCircle(turn) && |c| == Pow2(K)
    ensures EvenPart(turn, c, |c|) == EvenPart(turn, c, 0) && OddPart(turn, c, |c|) == OddPart(turn, c, 0)
  {
    hide IsCircle, Sum;
    RealAtZero(turn, c);
    MirroredParts(turn, c, K, 0);
  }
}
