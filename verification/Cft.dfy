/** The complex transforms cftfsub and cftbsub of fft4g.c, on data in bit-reversed order. */
module Cft {
  import opened Bits
  import opened Circle
  import opened ComplexNumbers
  import opened PowerSums
  import opened Butterflies
  import opened CftBlocks
  import opened Parseval

  /** The table w holds the twiddle factors a transform of 2^K complex elements reads. */
  ghost predicate HoldsTwiddles(turn: Turns, K: nat, w: array<real>)
    reads w
  {
    forall t: nat | 4 * t < Pow2(K) :: 2 * t + 1 < w.Length && At(w, t) == Twiddle(turn, K, 4 * t)
  }

  /** The source's formula for the third twiddle factor; for odd blocks it is applied to i times wk2. */
  function Third(wk1: Complex, wk2: Complex): Complex {
    Complex(wk1.re - 2.0 * wk2.im * wk1.im, 2.0 * wk2.im * wk1.re - wk1.im)
  }

  /** The source computes the cube of a unit twiddle factor from the factor and its square. */
  lemma ThirdFactor(w1: Complex, w2: Complex)
    requires Norm2(w1) == 1.0 && w2 == Mul(w1, w1)
    ensures Mul(w1, w2) == Third(w1, w2)
  {
    var x, y := w1.re, w1.im;
    assert w2.re == 1.0 - 2.0 * (y * y) && w2.im == 2.0 * (x * y);
    assert w2.im * y == 2.0 * (x * (y * y));
    assert w2.im * x == 2.0 * ((x * x) * y);
    ThirdFactorTerms(x, y);
  }

  lemma ThirdFactorTerms(x: real, y: real)
    requires x * x + y * y == 1.0
    ensures x * (1.0 - 2.0 * (y * y)) - y * (2.0 * (x * y)) == x - 4.0 * (x * (y * y))
    ensures x * (2.0 * (x * y)) + y * (1.0 - 2.0 * (y * y)) == 4.0 * ((x * x) * y) - y
  {
    assert x * (y * y) == y * (x * y);
    assert (x * x) * y == x * (x * y);
    assert y * (y * y) == y - (x * x) * y;
  }

  /** An eighth of a turn has equal real and imaginary parts. */
  lemma EighthTurn(turn: Turns, K: nat)
    requires IsCircle(turn) && K >= 3
    ensures Twiddle(turn, K, 4).re == Twiddle(turn, K, 4).im
    ensures Twiddle(turn, K, 2) == I
  {
    hide Norm2;
    var h := Twiddle(turn, K, 4);
    TwiddleQuarter(turn, K, 0);
    TwiddleZero(turn, K);
    MulOne(I);
    Pow2Monotone(3, K);
    assert Pow2(3) == 8;
    TwiddleSquare(turn, K, 4);
    SquareRootOfI(h);
  }

  lemma SquareRootOfI(h: Complex)
    requires Mul(h, h) == I
    ensures h.re == h.im
  {
    EqualParts(h.re, h.im);
  }

  lemma EqualParts(x: real, y: real)
    requires x * x - y * y == 0.0 && x * y + y * x == 1.0
    ensures x == y
  {
    assert (x - y) * (x + y) == 0.0;
    if x != y {
      OppositeParts(x, y);
      assert false;
    }
  }

  lemma OppositeParts(x: real, y: real)
    requires (x - y) * (x + y) == 0.0 && x != y
    ensures x * y + y * x <= 0.0
  {
    assert x + y == 0.0;
    assert x * y == -(y * y);
  }

  lemma TwiddleUnit(turn: Turns, K: nat, s: nat)
    requires IsCircle(turn)
    ensures Norm2(Twiddle(turn, K, s)) == 1.0
  {
    TurnUnit(turn, Rev(K, s), Pow2(K));
  }

  /** The third twiddle factor of block b, as the source computes it from the other two. */
  lemma BlockFactors(turn: Turns, K: nat, b: nat)
    requires IsCircle(turn) && 4 * b < Pow2(K)
    ensures var w1, w2 := Twiddle(turn, K, 4 * b), Twiddle(turn, K, 2 * b);
            Mul(w1, w2) == Third(w1, w2)
  {
    hide Twiddle, Mul, Norm2, IsCircle, Third;
    TwiddleUnit(turn, K, 4 * b);
    TwiddleSquare(turn, K, 4 * b);
    assert (4 * b) / 2 == 2 * b;
    ThirdFactor(Twiddle(turn, K, 4 * b), Twiddle(turn, K, 2 * b));
  }

  /** The twiddle factors of blocks 2t and 2t + 1, as the source finds them in the table. */
  lemma TableFactors(turn: Turns, K: nat, w: array<real>, t: nat)
    requires IsCircle(turn) && K >= 3 && HoldsTwiddles(turn, K, w) && 8 * t + 8 <= Pow2(K)
    ensures 4 * t + 3 < w.Length
    ensures var wk2, wk1, wk1' := At(w, t), At(w, 2 * t), At(w, 2 * t + 1);
            && Twiddle(turn, K, 4 * t) == wk2
            && Twiddle(turn, K, 8 * t) == wk1
            && Mul(wk1, wk2) == Third(wk1, wk2)
            && Twiddle(turn, K, 4 * t + 2) == Complex(-wk2.im, wk2.re)
            && Twiddle(turn, K, 8 * t + 4) == wk1'
            && Mul(wk1', Complex(-wk2.im, wk2.re)) == Third(wk1', Complex(-wk2.im, wk2.re))
  {
    hide Twiddle, Mul, IsCircle, Third;
    TableEntries(turn, K, w, t);
    BlockFactors(turn, K, 2 * t);
    BlockFactors(turn, K, 2 * t + 1);
    assert 4 * (2 * t) == 8 * t && 2 * (2 * t) == 4 * t && 4 * (2 * t + 1) == 8 * t + 4 && 2 * (2 * t + 1) == 4 * t + 2;
    TwiddleQuarter(turn, K, t);
    MulI(At(w, t));
  }

  lemma TableEntries(turn: Turns, K: nat, w: array<real>, t: nat)
    requires HoldsTwiddles(turn, K, w) && 8 * t + 8 <= Pow2(K)
    ensures 4 * t + 3 < w.Length
    ensures At(w, t) == Twiddle(turn, K, 4 * t)
    ensures At(w, 2 * t) == Twiddle(turn, K, 8 * t)
    ensures At(w, 2 * t + 1) == Twiddle(turn, K, 8 * t + 4)
  {
    hide Twiddle, At;
    assert 4 * (2 * t) == 8 * t && 4 * (2 * t + 1) == 8 * t + 4;
  }

  /** The blocks below b have been through the stage from block length 2^e to 2^(e+2), the others not yet. */
  ghost predicate Progress(turn: Turns, y: seq<Complex>, K: nat, e: nat, z: seq<Complex>, b: nat) {
    && |z| == |y| && Shl(b, e + 2) <= |z|
    && Stage(turn, y, K, e + 2, z, 0, Shl(b, e + 2))
    && Stage(turn, y, K, e, z, Shl(b, e + 2), |z|)
  }

  ghost predicate StageContext(turn: Turns, y: seq<Complex>, K: nat, e: nat, l: nat) {
    IsCircle(turn) && K >= 3 && e + 3 <= K && |y| == Pow2(K) && l == 2 * Pow2(e)
  }

  /** There is room for block b, and it is ready to be transformed. */
  lemma NextReady(turn: Turns, y: seq<Complex>, K: nat, e: nat, z: seq<Complex>, b: nat, l: nat)
    requires StageContext(turn, y, K, e, l) && Progress(turn, y, K, e, z, b)
    requires Shl(b, e + 2) < |y|
    ensures Shl(b + 1, e + 2) == Shl(b, e + 2) + 2 * l <= |y|
    ensures BlockReady(turn, y, K, e, b, z, 2 * Shl(b, e + 2), l)
  {
    hide BlockValue, IsCircle;
    ShlNext(b, e + 2);
    assert Pow2(e + 2) == 2 * Pow2(e + 1) && Pow2(e + 1) == 2 * Pow2(e);
    ShlPow2(K - e - 2, e + 2);
    ShlLess(b, Pow2(K - e - 2), e + 2);
    ShlLess(b + 1, Pow2(K - e - 2), e + 2);
    ShlLess(Pow2(K - e - 2), b + 1, e + 2);
  }

  lemma ProgressStep(turn: Turns, y: seq<Complex>, K: nat, e: nat, z: seq<Complex>, z': seq<Complex>, b: nat, l: nat)
    requires StageContext(turn, y, K, e, l) && Progress(turn, y, K, e, z, b)
    requires Shl(b + 1, e + 2) == Shl(b, e + 2) + 2 * l <= |y|
    requires Shl(b, e + 2) + Pow2(e + 2) <= |z| && BlockDone(turn, y, K, e, b, z, z')
    ensures Progress(turn, y, K, e, z', b + 1)
  {
    hide BlockValue, IsCircle, Shl;
    assert Pow2(e + 2) == 2 * Pow2(e + 1) && Pow2(e + 1) == 2 * Pow2(e);
  }

  /** After the last block the whole array has been through the stage. */
  lemma ProgressDone(turn: Turns, y: seq<Complex>, K: nat, e: nat, z: seq<Complex>, b: nat)
    requires Progress(turn, y, K, e, z, b) && Shl(b, e + 2) >= |y|
    ensures Stage(turn, y, K, e + 2, z, 0, |z|)
  {
    hide BlockValue, Shl;
  }

  lemma ProgressStart(turn: Turns, y: seq<Complex>, K: nat, e: nat, z: seq<Complex>)
    requires |z| == |y| && Stage(turn, y, K, e, z, 0, |z|)
    ensures Shl(0, e + 2) == 0 && Progress(turn, y, K, e, z, 0)
  {
    hide BlockValue;
    ShlAdd(0, 0, e + 2);
  }

  lemma FirstFactors(turn: Turns, K: nat)
    requires IsCircle(turn)
    ensures Twiddle(turn, K, 4 * 0) == Twiddle(turn, K, 2 * 0) == ONE
  {
    hide Twiddle, IsCircle;
    TwiddleZero(turn, K);
  }

  lemma TableEighth(turn: Turns, K: nat, w: array<real>)
    requires IsCircle(turn) && K >= 3 && HoldsTwiddles(turn, K, w)
    ensures 3 < w.Length
    ensures Twiddle(turn, K, 4 * 1) == Complex(w[2], w[2]) && Twiddle(turn, K, 2 * 1) == I
  {
    hide Twiddle, IsCircle;
    EighthTurn(turn, K);
    Pow2Monotone(3, K);
    assert Pow2(3) == 8;
    assert At(w, 1) == Twiddle(turn, K, 4 * 1);
  }

  /** Blocks come in pairs: if there is room for block 2t there is room for block 2t + 1, and for its table entry. */
  lemma RoomForPair(K: nat, e: nat, t: nat, l: nat)
    requires e + 3 <= K && l == 2 * Pow2(e) && Shl(2 * t, e + 2) < Pow2(K)
    ensures Shl(2 * t, e + 2) + 4 * l <= Pow2(K) && 8 * t + 8 <= Pow2(K)
  {
    hide Shl, Pow2;
    var c := e + 3;
    Pow2Up(e);
    ShlUp(t);
    ShlUp(t + 1);
    ShlShl(t, 1, e + 2);
    ShlPow2(K - c, c);
    ShlLess(t, Pow2(K - c), c);
    ShlLess(Pow2(K - c), t + 1, c);
    ShlNext(t, c);
    ShlShl(t + 1, 3, e);
    ShlAtLeast(8 * t + 8, e);
  }

  /** The body of cftmdl's outer loop: blocks 2t and 2t + 1, from one table entry and the next two. */
  method BlockPair(n: nat, k: nat, k1: nat, l: nat, a: array<real>, w: array<real>, ghost turn: Turns,
                   ghost y: seq<Complex>, ghost K: nat, ghost e: nat, ghost t: nat, ghost z0: seq<Complex>)
    returns (ghost z: seq<Complex>)
    requires a != w && StageContext(turn, y, K, e, l) && n == 2 * |y| && HoldsTwiddles(turn, K, w)
    requires Holds(a, z0) && |z0| == |y| && Progress(turn, y, K, e, z0, 2 * t)
    requires k1 == 2 * t && k == 2 * Shl(2 * t, e + 2) && k < n
    modifies a
    ensures Holds(a, z) && |z| == |y| && Progress(turn, y, K, e, z, 2 * t + 2)
    ensures 2 * Shl(2 * t + 2, e + 2) == k + 8 * l
    ensures forall i | n <= i < a.Length :: a[i] == old(a[i])
  {
    hide IsCircle, Holds, BlockValue, Twiddle, Mul, Shl, BlockReady, BlockDone, Progress, HoldsTwiddles, Third;
    var k2 := 2 * k1;
    RoomForPair(K, e, t, l);
    TableFactors(turn, K, w, t);
    var wk2r := w[k1];
    var wk2i := w[k1 + 1];
    var wk1r := w[k2];
    var wk1i := w[k2 + 1];
    var wk3 := Third(Complex(wk1r, wk1i), Complex(wk2r, wk2i));
    NextReady(turn, y, K, e, z0, 2 * t, l);
    ghost var z1 := Block(a, k, l, wk1r, wk1i, wk2r, wk2i, wk3.re, wk3.im, turn, y, K, e, 2 * t, z0);
    ProgressStep(turn, y, K, e, z0, z1, 2 * t, l);
    wk1r := w[k2 + 2];
    wk1i := w[k2 + 3];
    wk3 := Third(Complex(wk1r, wk1i), Complex(-wk2i, wk2r));
    NextReady(turn, y, K, e, z1, 2 * t + 1, l);
    z := Block(a, k + l * 4, l, wk1r, wk1i, -wk2i, wk2r, wk3.re, wk3.im, turn, y, K, e, 2 * t + 1, z1);
    ProgressStep(turn, y, K, e, z1, z, 2 * t + 1, l);
  }

  /**
   * cftmdl: one radix-4 stage, from blocks of l / 2 to blocks of 2l complex elements. The straight-line code of cft1st
   * is the same stage for l == 2, and `Cft1st` below runs it as such.
   */
  method Cftmdl(n: nat, l: nat, a: array<real>, w: array<real>, ghost turn: Turns, ghost y: seq<Complex>, ghost K: nat,
                ghost e: nat, ghost z0: seq<Complex>) returns (ghost z: seq<Complex>)
    requires a != w && StageContext(turn, y, K, e, l) && n == 2 * |y| && HoldsTwiddles(turn, K, w)
    requires Holds(a, z0) && |z0| == |y| && Stage(turn, y, K, e, z0, 0, |z0|)
    modifies a
    ensures Holds(a, z) && |z| == |y| && Stage(turn, y, K, e + 2, z, 0, |z|)
    ensures forall i | n <= i < a.Length :: a[i] == old(a[i])
  {
    hide IsCircle, Holds, BlockValue, Twiddle, Mul, Shl, BlockReady, BlockDone, Progress, HoldsTwiddles;
    var m := l * 4;
    ProgressStart(turn, y, K, e, z0);
    RoomForPair(K, e, 0, l);
    z := z0;

    NextReady(turn, y, K, e, z, 0, l);
    FirstFactors(turn, K);
    ghost var z1 := BlockPlain(a, 0, l, turn, y, K, e, 0, z);
    ProgressStep(turn, y, K, e, z, z1, 0, l);

    TableEighth(turn, K, w);
    var wk1r := w[2];
    NextReady(turn, y, K, e, z1, 1, l);
    ghost var z2 := BlockEighth(a, m, l, wk1r, turn, y, K, e, 1, z1);
    ProgressStep(turn, y, K, e, z1, z2, 1, l);
    z := z2;

    var k1 := 0;
    var m2 := 2 * m;
    var k := m2;
    ghost var t := 1;
    while k < n
      invariant t >= 1 && k1 == 2 * (t - 1) && k == 2 * Shl(2 * t, e + 2)
      invariant Holds(a, z) && |z| == |y| && Progress(turn, y, K, e, z, 2 * t)
      invariant forall i | n <= i < a.Length :: a[i] == old(a[i])
      invariant HoldsTwiddles(turn, K, w)
      decreases n - k
    {
      k1 := k1 + 2;
      RoomForPair(K, e, t, l);
      z := BlockPair(n, k, k1, l, a, w, turn, y, K, e, t, z);
      k := k + m2;
      t := t + 1;
    }
    ProgressDone(turn, y, K, e, z, 2 * t);
  }

  lemma StageZero(turn: Turns, y: seq<Complex>, K: nat)
    ensures Stage(turn, y, K, 0, y, 0, |y|)
  {
    hide PowerSum;
    forall p: nat | p < |y| ensures y[p] == BlockValue(turn, y, K, 0, p) {
      SumOfOne(turn, y, K, p);
    }
  }

  /** What a complex transform may rely on: 2^K elements, and the table if there are stages that read it. */
  ghost predicate CftContext(turn: Turns, K: nat, n: nat, w: array<real>)
    reads w
  {
    IsCircle(turn) && K >= 1 && n == 2 * Pow2(K) && (K >= 3 ==> HoldsTwiddles(turn, K, w))
  }

  /** cft1st: the first stage, on blocks of four. */
  method Cft1st(n: nat, a: array<real>, w: array<real>, ghost turn: Turns, ghost y: seq<Complex>, ghost K: nat)
    returns (ghost z: seq<Complex>)
    requires a != w && CftContext(turn, K, n, w) && K >= 3 && |y| == Pow2(K) && Holds(a, y)
    modifies a
    ensures Holds(a, z) && |z| == |y| && Stage(turn, y, K, 2, z, 0, |z|)
    ensures forall i | n <= i < a.Length :: a[i] == old(a[i])
  {
    hide IsCircle, Holds, Stage, HoldsTwiddles;
    StageZero(turn, y, K);
    z := Cftmdl(n, 2, a, w, turn, y, K, 0, y);
  }

  /** The common first part of cftfsub and cftbsub: every stage but the last. */
  method CftStages(n: nat, a: array<real>, w: array<real>, ghost turn: Turns, ghost y: seq<Complex>, ghost K: nat)
    returns (l: nat, ghost e: nat, ghost z: seq<Complex>)
    requires a != w && CftContext(turn, K, n, w) && |y| == Pow2(K) && Holds(a, y)
    modifies a
    ensures Holds(a, z) && |z| == |y| && Stage(turn, y, K, e, z, 0, |z|)
    ensures l == 2 * Pow2(e) && (K == e + 1 || K == e + 2)
    ensures forall i | n <= i < a.Length :: a[i] == old(a[i])
  {
    hide IsCircle, Holds, Stage, HoldsTwiddles;
    StageZero(turn, y, K);
    z := y;
    e := 0;
    l := 2;
    assert Pow2(1) == 2 && Pow2(2) == 4 && Pow2(3) == 8;
    Pow2Order(2, K);
    if n > 8 {
      z := Cft1st(n, a, w, turn, y, K);
      l := 8;
      e := 2;
      while l * 4 < n
        invariant l == 2 * Pow2(e) && 2 <= e < K
        invariant Holds(a, z) && |z| == |y| && Stage(turn, y, K, e, z, 0, |z|)
        invariant forall i | n <= i < a.Length :: a[i] == old(a[i])
        invariant K >= 3 && HoldsTwiddles(turn, K, w)
        decreases n - l
      {
        assert Pow2(e + 2) == 2 * Pow2(e + 1) && Pow2(e + 1) == 2 * Pow2(e);
        Pow2Order(e + 2, K);
        z := Cftmdl(n, l, a, w, turn, y, K, e, z);
        l := l * 4;
        e := e + 2;
      }
      assert Pow2(e + 2) == 2 * Pow2(e + 1) && Pow2(e + 1) == 2 * Pow2(e);
      Pow2Order(e + 2, K);
    }
  }

  lemma LastBlock(turn: Turns, y: seq<Complex>, K: nat, e: nat, z: seq<Complex>, l: nat)
    requires IsCircle(turn) && |z| == |y| == Pow2(K) && Stage(turn, y, K, e, z, 0, |z|)
    requires l == 2 * Pow2(e) && K == e + 2
    ensures Shl(0, e + 2) == 0 && BlockReady(turn, y, K, e, 0, z, 0, l)
  {
    hide BlockValue, IsCircle;
    ShlAdd(0, 0, e + 2);
  }

  lemma LastBlockDone(turn: Turns, y: seq<Complex>, K: nat, e: nat, z: seq<Complex>)
    requires |z| == |y| == Pow2(K) && K == e + 2 && Shl(0, e + 2) == 0
    requires Stage(turn, y, K, e + 2, z, 0, Pow2(e + 2))
    ensures forall p: nat | p < |y| :: z[p] == PowerSum(turn, y, K, 0, |y|, p)
  {
    hide PowerSum, BlockValue;
    forall p: nat | p < |y| ensures z[p] == PowerSum(turn, y, K, 0, |y|, p) {
      BlockValueAt(turn, y, K, e + 2, 0, p);
    }
  }

  lemma HeldParts(a: array<real>, n: nat, y: seq<Complex>)
    requires Holds(a, y) && n == 2 * |y|
    ensures n <= a.Length && PartsOf(a[..n], y)
  {
    forall p: nat | p < |y| ensures 2 * p + 1 < n && a[..n][2 * p] == y[p].re && a[..n][2 * p + 1] == y[p].im {
      HoldsAt(a, y, p);
    }
  }

  lemma ElementsHeld(a: array<real>, n: nat)
    requires n % 2 == 0 && n <= a.Length
    ensures var z := Elements(a[..n]); |z| == n / 2 && forall p: nat | p < |z| :: z[p] == At(a, p)
  {
    var s := a[..n];
    forall p: nat | p < n / 2 ensures Elements(s)[p] == At(a, p) {
      assert s[2 * p] == a[2 * p] && s[2 * p + 1] == a[2 * p + 1];
    }
  }

  /** The sum of squares that the last stage leaves. */
  lemma EnergyLeft(a: array<real>, n: nat, turn: Turns, y: seq<Complex>, K: nat, before: seq<real>)
    requires IsCircle(turn) && |y| == Pow2(K) && n == 2 * |y| <= a.Length && PartsOf(before, y)
    requires || (forall p: nat | p < |y| :: At(a, p) == PowerSum(turn, y, K, 0, |y|, p))
             || (forall p: nat | p < |y| :: At(a, p) == Conj(PowerSum(turn, y, K, 0, |y|, p)))
    ensures SumOfSquares(a[..n]) == Pow2(K) as real * SumOfSquares(before)
  {
    hide Mul, IsCircle, PowerSum, Pow2, SumOfSquares, Conj, Elements;
    ElementsHeld(a, n);
    ArrayEnergy(turn, y, K, before, a[..n]);
    RealFactor(Pow2(K) as real, SumOfSquares(before), SumOfSquares(a[..n]));
  }

  /** cftfsub: element p becomes the power sum of frequency p over all elements. */
  method Cftfsub(n: nat, a: array<real>, w: array<real>, ghost turn: Turns, ghost y: seq<Complex>, ghost K: nat)
    requires a != w && CftContext(turn, K, n, w) && |y| == Pow2(K) && Holds(a, y)
    modifies a
    ensures forall p: nat | p < |y| :: At(a, p) == PowerSum(turn, y, K, 0, |y|, p)
    ensures SumOfSquares(a[..n]) == Pow2(K) as real * SumOfSquares(old(a[..n]))
    ensures forall i | n <= i < a.Length :: a[i] == old(a[i])
  {
    hide IsCircle, Holds, Stage, HoldsTwiddles, PowerSum, BlockReady, Twiddle, At, SumOfSquares, PartsOf,
         Pow2, Shl;
    HoldsAll(a, y);
    HeldParts(a, n, y);
    ghost var e, z;
    var l;
    l, e, z := CftStages(n, a, w, turn, y, K);
    Pow2Order(e + 2, K);
    Pow2Order(K, e + 2);
    Pow2Up(e);
    if l * 4 == n {
      LastBlock(turn, y, K, e, z, l);
      FirstFactors(turn, K);
      z := BlockPlain(a, 0, l, turn, y, K, e, 0, z);
      LastBlockDone(turn, y, K, e, z);
      HoldsAll(a, z);
    } else {
      HalvesPlain(a, l, turn, y, K, e, z);
    }
    EnergyLeft(a, n, turn, y, K, old(a[..n]));
  }

  /** cftbsub: element p becomes the conjugate of the power sum of frequency p. */
  method Cftbsub(n: nat, a: array<real>, w: array<real>, ghost turn: Turns, ghost y: seq<Complex>, ghost K: nat)
    requires a != w && CftContext(turn, K, n, w) && |y| == Pow2(K) && Holds(a, y)
    modifies a
    ensures forall p: nat | p < |y| :: At(a, p) == Conj(PowerSum(turn, y, K, 0, |y|, p))
    ensures SumOfSquares(a[..n]) == Pow2(K) as real * SumOfSquares(old(a[..n]))
    ensures forall i | n <= i < a.Length :: a[i] == old(a[i])
  {
    hide IsCircle, Holds, Stage, HoldsTwiddles, PowerSum, BlockReady, Twiddle, At, SumOfSquares, PartsOf,
         Pow2, Shl;
    HoldsAll(a, y);
    HeldParts(a, n, y);
    ghost var e, z;
    var l;
    l, e, z := CftStages(n, a, w, turn, y, K);
    Pow2Order(e + 2, K);
    Pow2Order(K, e + 2);
    Pow2Up(e);
    if l * 4 == n {
      LastBlock(turn, y, K, e, z, l);
      BlockConj(a, l, turn, y, K, e, z);
    } else {
      HalvesConj(a, l, turn, y, K, e, z);
    }
    EnergyLeft(a, n, turn, y, K, old(a[..n]));
  }
}
