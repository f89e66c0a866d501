/** The inverse real transform as fft4g.c documents it, and how rftbsub and a complex transform compute it. */
module RealInverse {
  import opened Bits
  import opened Circle
  import opened ComplexNumbers
  import opened Dft
  import opened RealDft

  /** R[p] cos(2 pi p k / n) + I[p] sin(2 pi p k / n), where R and I are the packed halves of s. */
  ghost function InverseRealTerm(turn: Turns, s: seq<real>, k: nat, p: nat): real
    requires 2 * p + 1 < |s|
  {
    s[2 * p] * turn(k * p, |s|).re + s[2 * p + 1] * turn(k * p, |s|).im
  }

  ghost function InverseRealSum(turn: Turns, s: seq<real>, k: nat, m: nat): real
    requires 2 * m <= |s|
  {
    if m <= 1 then 0.0 else InverseRealSum(turn, s, k, m - 1) + InverseRealTerm(turn, s, k, m - 1)
  }

  /**
   * Sample k of the inverse transform of n = |s| packed values: s[0] is R[0], s[1] is R[n/2], and s[2p], s[2p + 1] are
   * R[p] and I[p] for 0 < p < n/2.
   */
  ghost function InverseRealAt(turn: Turns, s: seq<real>, k: nat): real
    requires |s| >= 2
  {
    (s[0] + (if k % 2 == 0 then s[1] else -s[1])) / 2.0 + InverseRealSum(turn, s, k, |s| / 2)
  }

  /** s, as the first two lines of the backward branch of WebRtc_rdft leave it. */
  ghost predicate IsUnpacked(s: seq<real>, z: seq<Complex>) {
    && |s| == 2 * |z| && |z| > 0
    && z[0] == Complex(0.5 * (s[0] + s[1]), 0.5 * (s[0] - s[1]))
    && forall p: nat | 0 < p < |z| :: z[p] == Complex(s[2 * p], s[2 * p + 1])
  }

  /** The elements that rftbsub leaves. */
  ghost predicate IsBackward(turn: Turns, K: nat, z: seq<Complex>, u: seq<Complex>) {
    && |u| == |z| == Pow2(K)
    && u[0] == Conj(z[0])
    && forall p: nat | 0 < p < |z| :: u[p] == BackwardAt(turn, K, z, p)
  }

  // ---------- the sums of the even and of the odd samples ----------

  /** z[p] turned back by k steps of 2 pi p / n; nothing for p = 0. */
  ghost function TurnedBack(turn: Turns, z: seq<Complex>, n: nat, k: nat): nat -> Complex {
    (p: nat) => if 0 < p < |z| then Mul(z[p], Conj(turn(k * p, n))) else ZERO
  }

  lemma {:induction false} TurnedBackIsReal(turn: Turns, s: seq<real>, z: seq<Complex>, k: nat, m: nat)
    requires IsUnpacked(s, z) && |s| == 2 * |z| && m <= |z|
    ensures Sum(TurnedBack(turn, z, |s|, k), m).re == InverseRealSum(turn, s, k, m)
  {
    hide Mul, Conj, InverseRealTerm, TurnedBack, IsUnpacked;
    if m > 0 {
      TurnedBackIsReal(turn, s, z, k, m - 1);
      if m > 1 {
        TermIsReal(turn, s, z, k, m - 1);
      } else {
        TurnedBackFirst(turn, z, |s|, k);
      }
    }
  }

  lemma TurnedBackFirst(turn: Turns, z: seq<Complex>, n: nat, k: nat)
    ensures TurnedBack(turn, z, n, k)(0) == ZERO
  {
  }

  lemma TermIsReal(turn: Turns, s: seq<real>, z: seq<Complex>, k: nat, p: nat)
    requires IsUnpacked(s, z) && 0 < p < |z|
    ensures TurnedBack(turn, z, |s|, k)(p).re == InverseRealTerm(turn, s, k, p)
  {
    ReProduct(z[p], turn(k * p, |s|));
  }

  lemma ReProduct(x: Complex, t: Complex)
    ensures Mul(x, Conj(t)).re == x.re * t.re + x.im * t.im
  {
  }

  /** Reading the elements 1 .. N - 1 backwards does not change their sum. */
  lemma {:induction false} SumMirrored(f: nat -> Complex, g: nat -> Complex, N: nat)
    requires N > 0 && f(0) == ZERO && g(0) == ZERO
    requires forall p: nat | 0 < p < N :: g(p) == f(N - p)
    ensures Sum(g, N) == Sum(f, N)
  {
    hide Add;
    SumBackwards(f, g, N, N - 1);
    assert Sum(g, 1) == Add(Sum(g, 0), g(0));
    AddZero(Sum(f, N));
    AddZero(ZERO);
  }

  /** The sum of g beyond index N - m is that of f below m + 1. */
  lemma {:induction false} SumBackwards(f: nat -> Complex, g: nat -> Complex, N: nat, m: nat)
    requires m < N && f(0) == ZERO
    requires forall p: nat | 0 < p < N :: g(p) == f(N - p)
    ensures Sum(g, N) == Add(Sum(g, N - m), Sum(f, m + 1))
  {
    hide Add;
    if m == 0 {
      assert Sum(f, 1) == Add(Sum(f, 0), f(0));
      AddZero(ZERO);
      AddZero(Sum(g, N));
    } else {
      SumBackwards(f, g, N, m - 1);
      var p: nat := N - m;
      assert Sum(g, p + 1) == Add(Sum(g, p), g(p));
      assert Sum(f, m + 1) == Add(Sum(f, m), f(m));
      assert N - p == m && g(p) == f(m);
      AddSwap(Sum(g, p), g(p), Sum(f, m));
    }
  }

  lemma AddSwap(x: Complex, y: Complex, z: Complex)
    ensures Add(Add(x, y), z) == Add(x, Add(z, y))
  {
  }

  /** The element of the conjugated backward pass, split into the parts that make the even and the odd samples. */
  ghost function EvenShare(z: seq<Complex>, p: nat): Complex
    requires 0 < p < |z|
  {
    Scale(0.5, Add(z[p], Conj(z[|z| - p])))
  }

  ghost function OddShare(turn: Turns, K: nat, z: seq<Complex>, p: nat): Complex
    requires 0 < p < |z|
  {
    Scale(0.5, Mul(Conj(turn(p, Pow2(K + 1))), Sub(z[p], Conj(z[|z| - p]))))
  }

  lemma BackwardShares(turn: Turns, K: nat, z: seq<Complex>, p: nat)
    requires 0 < p < |z|
    ensures Conj(BackwardAt(turn, K, z, p)) == Add(EvenShare(z, p), Rotate(OddShare(turn, K, z, p)))
  {
    ShareAlgebra(turn(p, Pow2(K + 1)), z[p], Conj(z[|z| - p]));
  }

  lemma ShareAlgebra(t: Complex, u: Complex, v: Complex)
    ensures var w := Complex(0.5 - 0.5 * t.im, 0.5 * t.re);
            Sub(u, Mul(Conj(w), Sub(u, v)))
            == Add(Scale(0.5, Add(u, v)), Rotate(Scale(0.5, Mul(Conj(t), Sub(u, v)))))
  {
    var d := Sub(u, v);
    assert Add(u, v) == Sub(Scale(2.0, u), d);
    HalfFactor(t, d);
  }

  lemma HalfFactor(t: Complex, d: Complex)
    ensures var w := Complex(0.5 - 0.5 * t.im, 0.5 * t.re);
            Mul(Conj(w), d) == Sub(Scale(0.5, d), Rotate(Scale(0.5, Mul(Conj(t), d))))
  {
  }

  // ---------- the two halves of an output element ----------

  ghost function EvenShareTerm(turn: Turns, z: seq<Complex>, j: nat): nat -> Complex {
    (p: nat) => if 0 < p < |z| then Mul(EvenShare(z, p), Conj(turn(j * p, |z|))) else ZERO
  }

  ghost function OddShareTerm(turn: Turns, K: nat, z: seq<Complex>, j: nat): nat -> Complex {
    (p: nat) => if 0 < p < |z| then Mul(OddShare(turn, K, z, p), Conj(turn(j * p, |z|))) else ZERO
  }

  /** f and its mirror image, conjugated, average to the real part. */
  lemma {:induction false} AverageIsReal(f: nat -> Complex, h: nat -> Complex, N: nat)
    requires N > 0 && f(0) == ZERO && h(0) == ZERO
    requires forall p: nat | 0 < p < N :: h(p) == Scale(0.5, Add(f(p), Conj(f(N - p))))
    ensures Sum(h, N) == Complex(Sum(f, N).re, 0.0)
  {
    hide Sum, Mul, Scale, Mirror, Add, Conj;
    var m := Mirror(f, N);
    MirrorValues(f, N);
    SumMirrored(f, m, N);
    var mc := (p: nat) => Conj(m(p));
    SumConj(m, mc, N);
    var both := (p: nat) => Add(f(p), mc(p));
    SumAdd(f, mc, both, N);
    forall p: nat | p < N ensures h(p) == Mul(Complex(0.5, 0.0), both(p)) {
      HalfScale(both(p));
      if p > 0 {
        assert both(p) == Add(f(p), Conj(f(N - p)));
      } else {
        assert both(0) == Add(ZERO, Conj(ZERO));
        Average(ZERO);
      }
    }
    SumMul(Complex(0.5, 0.0), both, h, N);
    HalfScale(Sum(both, N));
    Average(Sum(f, N));
  }

  lemma Average(x: Complex)
    ensures Scale(0.5, Add(x, Conj(x))) == Complex(x.re, 0.0)
  {
  }

  ghost function Mirror(f: nat -> Complex, N: nat): nat -> Complex {
    (p: nat) => if 0 < p < N then f(N - p) else ZERO
  }

  lemma MirrorValues(f: nat -> Complex, N: nat)
    ensures Mirror(f, N)(0) == ZERO
    ensures forall p: nat {:trigger Mirror(f, N)(p)} | 0 < p < N :: Mirror(f, N)(p) == f(N - p)
  {
  }

  lemma HalfScale(x: Complex)
    ensures Mul(Complex(0.5, 0.0), x) == Scale(0.5, x)
  {
  }

  lemma EvenShares(turn: Turns, z: seq<Complex>, K: nat, j: nat)
    requires IsCircle(turn) && |z| == Pow2(K)
    ensures Sum(EvenShareTerm(turn, z, j), |z|) == Complex(Sum(TurnedBack(turn, z, 2 * |z|, 2 * j), |z|).re, 0.0)
  {
    hide Sum, Mul, Scale, Conj, Add, IsCircle;
    var N := |z|;
    var f := TurnedBack(turn, z, 2 * N, 2 * j);
    forall p: nat | 0 < p < N
      ensures EvenShareTerm(turn, z, j)(p) == Scale(0.5, Add(f(p), Conj(f(N - p))))
    {
      BackAngle(turn, K, j, p);
      BackAngle(turn, K, j, N - p);
      TurnComplement2(turn, K, j, p);
      EvenShareAlgebra(z[p], z[N - p], turn(j * p, N));
    }
    AverageIsReal(f, EvenShareTerm(turn, z, j), N);
  }

  lemma EvenShareAlgebra(u: Complex, v: Complex, t: Complex)
    ensures Mul(Scale(0.5, Add(u, Conj(v))), Conj(t)) == Scale(0.5, Add(Mul(u, Conj(t)), Conj(Mul(v, Conj(Conj(t))))))
  {
  }

  lemma BackAngle(turn: Turns, K: nat, j: nat, p: nat)
    requires IsCircle(turn)
    ensures turn((2 * j) * p, 2 * Pow2(K)) == turn(j * p, Pow2(K))
  {
    assert (2 * j) * p == 2 * (j * p);
    TurnHalf(turn, j * p, Pow2(K));
  }

  lemma TurnComplement2(turn: Turns, K: nat, j: nat, p: nat)
    requires IsCircle(turn) && p <= Pow2(K)
    ensures turn(j * (Pow2(K) - p), Pow2(K)) == Conj(turn(j * p, Pow2(K)))
  {
    TurnComplement(turn, p, j, K);
    assert j * (Pow2(K) - p) == (Pow2(K) - p) * j && j * p == p * j;
  }

  lemma OddShares(turn: Turns, z: seq<Complex>, K: nat, j: nat)
    requires IsCircle(turn) && |z| == Pow2(K)
    ensures Sum(OddShareTerm(turn, K, z, j), |z|) == Complex(Sum(TurnedBack(turn, z, 2 * |z|, 2 * j + 1), |z|).re, 0.0)
  {
    hide Sum, Mul, Scale, Conj, Add, IsCircle;
    var N := |z|;
    var f := TurnedBack(turn, z, 2 * N, 2 * j + 1);
    forall p: nat | 0 < p < N
      ensures OddShareTerm(turn, K, z, j)(p) == Scale(0.5, Add(f(p), Conj(f(N - p))))
    {
      OddAngle(turn, K, j, p);
      OddAngle(turn, K, j, N - p);
      TurnComplement2(turn, K, j, p);
      MirroredTurn(turn, K, p);
      OddShareAlgebra(z[p], z[N - p], turn(p, 2 * N), turn(N - p, 2 * N), turn(j * p, N));
    }
    AverageIsReal(f, OddShareTerm(turn, K, z, j), N);
  }

  /** The angle of an odd sample is half a step further on than that of the even one before it. */
  lemma OddAngle(turn: Turns, K: nat, j: nat, p: nat)
    requires IsCircle(turn)
    ensures turn((2 * j + 1) * p, 2 * Pow2(K)) == Mul(turn(j * p, Pow2(K)), turn(p, 2 * Pow2(K)))
  {
    hide Mul;
    assert (2 * j + 1) * p == 2 * (j * p) + p;
    TurnHalf(turn, j * p, Pow2(K));
    TurnAdd(turn, 2 * (j * p), p, 2 * Pow2(K));
  }

  lemma OddShareAlgebra(u: Complex, v: Complex, h: Complex, h': Complex, t: Complex)
    requires h' == Complex(-h.re, h.im)
    ensures Mul(Scale(0.5, Mul(Conj(h), Sub(u, Conj(v)))), Conj(t))
         == Scale(0.5, Add(Mul(u, Conj(Mul(t, h))), Conj(Mul(v, Conj(Mul(Conj(t), h'))))))
  {
    hide Mul;
    var a, b := Mul(u, Conj(Mul(t, h))), Conj(Mul(v, Conj(Mul(Conj(t), h'))));
    assert Mul(Mul(Conj(h), u), Conj(t)) == a by {
      ConjMul(t, h);
      MulAssoc(Conj(h), u, Conj(t));
      MulComm(Conj(h), Mul(u, Conj(t)));
      MulAssoc(u, Conj(t), Conj(h));
    }
    assert Neg(Mul(Mul(Conj(h), Conj(v)), Conj(t))) == b by {
      assert h' == Neg(Conj(h));
      ConjMul(v, Conj(Mul(Conj(t), h')));
      MulNeg(Conj(t), Conj(h));
      MulNeg(Conj(v), Mul(Conj(t), Conj(h)));
      MulAssoc(Conj(h), Conj(v), Conj(t));
      MulComm(Conj(h), Mul(Conj(v), Conj(t)));
      MulAssoc(Conj(v), Conj(t), Conj(h));
    }
    DistributeShares(Conj(h), u, Conj(v), Conj(t));
  }

  lemma DistributeShares(h: Complex, u: Complex, v: Complex, t: Complex)
    ensures Mul(Scale(0.5, Mul(h, Sub(u, v))), t) == Scale(0.5, Add(Mul(Mul(h, u), t), Neg(Mul(Mul(h, v), t))))
  {
    hide Mul;
    MulSub(h, u, v);
    ScaleMul(Mul(h, Sub(u, v)), t);
    SubtractMul(Mul(h, u), Mul(h, v), t);
  }

  lemma ScaleMul(x: Complex, t: Complex)
    ensures Mul(Scale(0.5, x), t) == Scale(0.5, Mul(x, t))
  {
  }

  lemma SubtractMul(x: Complex, y: Complex, t: Complex)
    ensures Mul(Sub(x, y), t) == Add(Mul(x, t), Neg(Mul(y, t)))
  {
  }

  // ---------- the backward transform ----------

  /** Each element of the backward transform is a pair of neighbouring samples of the inverse real transform. */
  lemma BackwardIsInverse(turn: Turns, s: seq<real>, z: seq<Complex>, u: seq<Complex>, K: nat, j: nat)
    requires IsCircle(turn) && IsUnpacked(s, z) && IsBackward(turn, K, z, u) && j < |z|
    ensures Conj(DftAt(turn, u, j)) == Complex(InverseRealAt(turn, s, 2 * j), InverseRealAt(turn, s, 2 * j + 1))
  {
    hide Sum, Mul, Conj, IsCircle, InverseRealSum, EvenShareTerm, OddShareTerm, TurnedBack, Rotate;
    var N := |z|;
    ConjugatedSum(turn, s, z, u, K, j);
    EvenShares(turn, z, K, j);
    OddShares(turn, z, K, j);
    TurnedBackIsReal(turn, s, z, 2 * j, N);
    TurnedBackIsReal(turn, s, z, 2 * j + 1, N);
    EndTerms(s, z, Sum(EvenShareTerm(turn, z, j), N), Sum(OddShareTerm(turn, K, z, j), N));
  }

  lemma EndTerms(s: seq<real>, z: seq<Complex>, E: Complex, O: Complex)
    requires IsUnpacked(s, z) && E.im == 0.0 && O.im == 0.0
    ensures Add(z[0], Add(E, Rotate(O))) == Complex((s[0] + s[1]) / 2.0 + E.re, (s[0] - s[1]) / 2.0 + O.re)
  {
  }

  /** The conjugate of the transform of u, split into element 0 and the two kinds of shares. */
  lemma ConjugatedSum(turn: Turns, s: seq<real>, z: seq<Complex>, u: seq<Complex>, K: nat, j: nat)
    requires IsCircle(turn) && IsBackward(turn, K, z, u) && j < |z|
    ensures Conj(DftAt(turn, u, j))
         == Add(z[0], Add(Sum(EvenShareTerm(turn, z, j), |z|), Rotate(Sum(OddShareTerm(turn, K, z, j), |z|))))
  {
    hide Sum, Mul, Conj, Add, IsCircle, Rotate;
    var N := |z|;
    var f := DftTerm(turn, u, N, j);
    var cf := Conjugated(f);
    SumConj(f, cf, N);
    var e, o := EvenShareTerm(turn, z, j), OddShareTerm(turn, K, z, j);
    var ro := Rotated(o);
    RotatedSum(o, N);
    var shares := Added(e, ro);
    SumAdd(e, ro, shares, N);
    var first := OnlyFirst(z[0]);
    SumSingle(first, 0, N);
    forall p: nat | p < N ensures cf(p) == Add(first(p), shares(p)) {
      ConjugatedTerm(turn, z, u, K, j, p);
    }
    SumAdd(first, shares, cf, N);
  }

  ghost function Conjugated(f: nat -> Complex): nat -> Complex {
    (p: nat) => Conj(f(p))
  }

  ghost function Rotated(f: nat -> Complex): nat -> Complex {
    (p: nat) => Rotate(f(p))
  }

  ghost function Added(f: nat -> Complex, g: nat -> Complex): nat -> Complex {
    (p: nat) => Add(f(p), g(p))
  }

  ghost function OnlyFirst(x: Complex): nat -> Complex {
    (p: nat) => if p == 0 then x else ZERO
  }

  lemma {:induction false} RotatedSum(f: nat -> Complex, n: nat)
    ensures Sum(Rotated(f), n) == Rotate(Sum(f, n))
  {
    if n > 0 {
      RotatedSum(f, n - 1);
    }
  }

  lemma ConjugatedTerm(turn: Turns, z: seq<Complex>, u: seq<Complex>, K: nat, j: nat, p: nat)
    requires IsCircle(turn) && IsBackward(turn, K, z, u) && p < |z|
    ensures Conj(DftTerm(turn, u, |z|, j)(p))
         == Add(OnlyFirst(z[0])(p), Add(EvenShareTerm(turn, z, j)(p), Rotate(OddShareTerm(turn, K, z, j)(p))))
  {
    hide Mul, IsCircle, BackwardAt, EvenShare, OddShare, Add, Rotate, Conj;
    if p == 0 {
      FirstTerm(turn, z, u, K, j);
    } else {
      LaterTerm(turn, z, u, K, j, p);
      AddZero(Add(EvenShareTerm(turn, z, j)(p), Rotate(OddShareTerm(turn, K, z, j)(p))));
    }
  }

  lemma FirstTerm(turn: Turns, z: seq<Complex>, u: seq<Complex>, K: nat, j: nat)
    requires IsCircle(turn) && IsBackward(turn, K, z, u)
    ensures Conj(DftTerm(turn, u, |z|, j)(0))
         == Add(z[0], Add(EvenShareTerm(turn, z, j)(0), Rotate(OddShareTerm(turn, K, z, j)(0))))
  {
    hide Mul, IsCircle, BackwardAt, Add, Rotate, Conj;
    TurnZero(turn, |z|);
    MulOne(u[0]);
    TimesZero(j);
    NoShares(z[0]);
  }

  lemma TimesZero(j: nat)
    ensures j * 0 == 0
  {
  }

  lemma NoShares(x: Complex)
    ensures Conj(Conj(x)) == x && Add(x, Add(ZERO, Rotate(ZERO))) == x
  {
    hide Add;
    RotateNothing();
    AddZero(ZERO);
    AddZero(x);
  }

  lemma RotateNothing()
    ensures Rotate(ZERO) == ZERO
  {
  }

  lemma LaterTerm(turn: Turns, z: seq<Complex>, u: seq<Complex>, K: nat, j: nat, p: nat)
    requires IsBackward(turn, K, z, u) && 0 < p < |z|
    ensures Conj(DftTerm(turn, u, |z|, j)(p))
         == Add(EvenShareTerm(turn, z, j)(p), Rotate(OddShareTerm(turn, K, z, j)(p)))
  {
    hide Mul, BackwardAt, EvenShare, OddShare, Add, Rotate, Conj;
    var t := turn(j * p, |z|);
    ConjMul(u[p], t);
    BackwardShares(turn, K, z, p);
    DistributeRotated(EvenShare(z, p), OddShare(turn, K, z, p), Conj(t));
  }

  lemma DistributeRotated(e: Complex, o: Complex, t: Complex)
    ensures Mul(Add(e, Rotate(o)), t) == Add(Mul(e, t), Rotate(Mul(o, t)))
  {
  }
}
