/** Discrete Fourier transforms as sums, and the facts that connect them with the power sums of the fast transform. */
module Dft {
  import opened Bits
  import opened Circle
  import opened ComplexNumbers
  import opened PowerSums

  // ---------- finite sums ----------

  ghost function Sum(f: nat -> Complex, n: nat): Complex {
    if n == 0 then ZERO else Add(Sum(f, n - 1), f(n - 1))
  }

  lemma {:induction false} SumCongruent(f: nat -> Complex, g: nat -> Complex, n: nat)
    requires forall i: nat | i < n :: f(i) == g(i)
    ensures Sum(f, n) == Sum(g, n)
  {
    if n > 0 {
      SumCongruent(f, g, n - 1);
    }
  }

  lemma {:induction false} SumAdd(f: nat -> Complex, g: nat -> Complex, h: nat -> Complex, n: nat)
    requires forall i: nat | i < n :: h(i) == Add(f(i), g(i))
    ensures Sum(h, n) == Add(Sum(f, n), Sum(g, n))
  {
    if n > 0 {
      SumAdd(f, g, h, n - 1);
    }
  }

  lemma {:induction false} SumMul(c: Complex, f: nat -> Complex, h: nat -> Complex, n: nat)
    requires forall i: nat | i < n :: h(i) == Mul(c, f(i))
    ensures Sum(h, n) == Mul(c, Sum(f, n))
  {
    hide Mul;
    if n > 0 {
      SumMul(c, f, h, n - 1);
      MulAdd(c, Sum(f, n - 1), f(n - 1));
    } else {
      MulZero(c);
    }
  }

  lemma MulZero(c: Complex)
    ensures Mul(c, ZERO) == ZERO
  {
  }

  lemma {:induction false} SumConj(f: nat -> Complex, h: nat -> Complex, n: nat)
    requires forall i: nat | i < n :: h(i) == Conj(f(i))
    ensures Sum(h, n) == Conj(Sum(f, n))
  {
    if n > 0 {
      SumConj(f, h, n - 1);
    }
  }

  lemma {:induction false} SumZero(f: nat -> Complex, n: nat)
    requires forall i: nat | i < n :: f(i) == ZERO
    ensures Sum(f, n) == ZERO
  {
    if n > 0 {
      SumZero(f, n - 1);
    }
  }

  lemma {:induction false} SumJoin(f: nat -> Complex, g: nat -> Complex, m: nat, n: nat)
    requires forall i: nat | i < n :: g(i) == f(m + i)
    ensures Sum(f, m + n) == Add(Sum(f, m), Sum(g, n))
  {
    if n > 0 {
      SumJoin(f, g, m, n - 1);
    }
  }

  /** A sum over 2n indices is the sum over the even and the odd ones. */
  lemma {:induction false} SumEvenOdd(f: nat -> Complex, e: nat -> Complex, o: nat -> Complex, n: nat)
    requires forall i: nat | i < n :: e(i) == f(2 * i) && o(i) == f(2 * i + 1)
    ensures Sum(f, 2 * n) == Add(Sum(e, n), Sum(o, n))
  {
    hide Add;
    if n == 0 {
      assert Add(ZERO, ZERO) == ZERO by {
        AddZero(ZERO);
      }
    } else {
      var m := 2 * (n - 1);
      SumEvenOdd(f, e, o, n - 1);
      assert Sum(f, m + 2) == Add(Add(Sum(f, m), f(m)), f(m + 1));
      assert f(m) == e(n - 1) && f(m + 1) == o(n - 1);
      AddPairs(Sum(e, n - 1), Sum(o, n - 1), e(n - 1), o(n - 1));
    }
  }

  lemma AddZero(x: Complex)
    ensures Add(x, ZERO) == x && Add(ZERO, x) == x
  {
  }

  lemma AddPairs(u: Complex, v: Complex, x: Complex, y: Complex)
    ensures Add(Add(Add(u, v), x), y) == Add(Add(u, x), Add(v, y))
  {
  }

  /** A sum over 2n indices, folded in the middle. */
  lemma SumFolded(f: nat -> Complex, pair: nat -> Complex, n: nat)
    requires forall j: nat {:trigger pair(j)} | j < n :: pair(j) == Add(f(j), f(n + j))
    ensures Sum(pair, n) == Sum(f, 2 * n)
  {
    hide Add, Sum;
    var upper := (j: nat) => f(n + j);
    SumAdd(f, upper, pair, n);
    SumJoin(f, upper, n, n);
  }

  /** A sum over 2n indices, each even index taken with the next. */
  lemma SumPaired(g: nat -> Complex, both: nat -> Complex, n: nat)
    requires forall c: nat {:trigger both(c)} | c < n :: both(c) == Add(g(2 * c), g(2 * c + 1))
    ensures Sum(both, n) == Sum(g, 2 * n)
  {
    hide Add, Sum;
    var even := (c: nat) => g(2 * c);
    var odd := (c: nat) => g(2 * c + 1);
    SumEvenOdd(g, even, odd, n);
    SumAdd(even, odd, both, n);
  }

  /** g visits the values of f in bit-reversed order. */
  ghost predicate Reordered(f: nat -> Complex, g: nat -> Complex, k: nat) {
    forall s: nat | s < Pow2(k) :: g(s) == f(Rev(k, s))
  }

  ghost predicate FoldsTo(f: nat -> Complex, pair: nat -> Complex, n: nat) {
    forall j: nat {:trigger pair(j)} | j < n :: pair(j) == Add(f(j), f(n + j))
  }

  /** Neighbours in the reversed order are n apart in the natural one. */
  lemma ReorderedNeighbours(f: nat -> Complex, g: nat -> Complex, pair: nat -> Complex, both: nat -> Complex, k: nat, c: nat)
    requires k >= 1 && c < Pow2(k - 1) && Reordered(f, g, k) && FoldsTo(f, pair, Pow2(k - 1))
    requires Reordered(pair, both, k - 1)
    ensures both(c) == Add(g(2 * c), g(2 * c + 1))
  {
    hide Rev, Pow2, Add;
    ReversedNeighbours(k, c);
    RevBound(k - 1, c);
    var r := Rev(k - 1, c);
    assert both(c) == pair(r) == Add(f(r), f(Pow2(k - 1) + r));
    assert g(2 * c) == f(Rev(k, 2 * c));
    assert g(2 * c + 1) == f(Rev(k, 2 * c + 1));
  }

  lemma SumReversedStep(f: nat -> Complex, g: nat -> Complex, pair: nat -> Complex, both: nat -> Complex, k: nat)
    requires k >= 1 && Reordered(f, g, k) && FoldsTo(f, pair, Pow2(k - 1)) && Reordered(pair, both, k - 1)
    requires Sum(both, Pow2(k - 1)) == Sum(pair, Pow2(k - 1))
    ensures Sum(g, Pow2(k)) == Sum(f, Pow2(k))
  {
    hide Add, Sum, Rev, Pow2, Reordered;
    var h := Pow2(k - 1);
    forall c: nat | c < h ensures both(c) == Add(g(2 * c), g(2 * c + 1)) {
      ReorderedNeighbours(f, g, pair, both, k, c);
    }
    SumPaired(g, both, h);
    SumFolded(f, pair, h);
    ReversedNeighbours(k, 0);
  }

  ghost function Folded(f: nat -> Complex, n: nat): nat -> Complex {
    (j: nat) => FoldedAt(f, n, j)
  }

  ghost function FoldedAt(f: nat -> Complex, n: nat, j: nat): Complex {
    Add(f(j), f(n + j))
  }

  lemma FoldedFolds(f: nat -> Complex, n: nat)
    ensures FoldsTo(f, Folded(f, n), n)
  {
    forall j: nat | j < n ensures Folded(f, n)(j) == Add(f(j), f(n + j)) {
      assert Folded(f, n)(j) == FoldedAt(f, n, j);
    }
  }

  lemma Reorder(f: nat -> Complex, k: nat) returns (g: nat -> Complex)
    ensures Reordered(f, g, k)
  {
    g := (c: nat) => f(Rev(k, c));
  }

  lemma SumOfOneReordered(f: nat -> Complex, g: nat -> Complex)
    requires Reordered(f, g, 0)
    ensures Sum(g, Pow2(0)) == Sum(f, Pow2(0))
  {
    assert Rev(0, 0) == 0 && Pow2(0) == 1;
    SumCongruent(f, g, 1);
  }

  /** A sum is not changed by visiting its terms in bit-reversed order. */
  lemma {:induction false} SumReversed(f: nat -> Complex, g: nat -> Complex, k: nat)
    requires Reordered(f, g, k)
    ensures Sum(g, Pow2(k)) == Sum(f, Pow2(k))
    decreases k
  {
    hide Add, Sum, Rev, Pow2, Reordered, FoldsTo, Folded;
    if k == 0 {
      SumOfOneReordered(f, g);
    } else {
      var pair := Folded(f, Pow2(k - 1));
      FoldedFolds(f, Pow2(k - 1));
      var both := Reorder(pair, k - 1);
      SumReversed(pair, both, k - 1);
      SumReversedStep(f, g, pair, both, k);
    }
  }

  // ---------- the complex transform ----------

  /** The term of sample j at frequency r: c[j] e(j r / N). */
  ghost function DftTerm(turn: Turns, c: seq<Complex>, N: nat, r: nat): nat -> Complex {
    (j: nat) => if j < |c| then Mul(c[j], turn(r * j, N)) else ZERO
  }

  /** The discrete Fourier transform of N samples, at frequency r. */
  ghost function DftAt(turn: Turns, c: seq<Complex>, r: nat): Complex {
    Sum(DftTerm(turn, c, |c|, r), |c|)
  }

  lemma {:induction false} PowerSumIsSum(turn: Turns, y: seq<Complex>, K: nat, n: nat, r: nat, g: nat -> Complex)
    requires n <= |y| && forall s: nat | s < n :: g(s) == Term(turn, y, K, s, r)
    ensures PowerSum(turn, y, K, 0, n, r) == Sum(g, n)
  {
    hide Term;
    if n > 0 {
      PowerSumIsSum(turn, y, K, n - 1, r, g);
    }
  }

  /** The power sum of samples in bit-reversed order is the Fourier transform of the samples in their natural order. */
  lemma PowerSumIsDft(turn: Turns, c: seq<Complex>, y: seq<Complex>, K: nat, r: nat)
    requires IsCircle(turn) && |c| == |y| == Pow2(K)
    requires forall s: nat | s < |y| :: Rev(K, s) < |c| && y[s] == c[Rev(K, s)]
    ensures PowerSum(turn, y, K, 0, |y|, r) == DftAt(turn, c, r)
  {
    hide Mul, Rev, Pow2;
    var f := DftTerm(turn, c, |c|, r);
    var g := (s: nat) => f(Rev(K, s));
    forall s: nat | s < |y| ensures g(s) == Term(turn, y, K, s, r) {
      PowerOfTurn(turn, Rev(K, s), Pow2(K), r);
    }
    PowerSumIsSum(turn, y, K, |y|, r, g);
    SumReversed(f, g, K);
  }

  // ---------- orthogonality ----------

  ghost function Powers(z: Complex): nat -> Complex {
    (p: nat) => Power(z, p)
  }

  /** The sum of the first 2m powers, from that of the first m. */
  lemma PowersDouble(z: Complex, m: nat)
    ensures Sum(Powers(z), 2 * m) == Add(Sum(Powers(z), m), Mul(Power(z, m), Sum(Powers(z), m)))
  {
    hide Mul, Power, Sum, Add;
    var g := (p: nat) => Power(z, m + p);
    forall p: nat | p < m ensures g(p) == Mul(Power(z, m), Powers(z)(p)) {
      PowerAdd(z, m, p);
    }
    SumMul(Power(z, m), Powers(z), g, m);
    SumJoin(Powers(z), g, m, m);
  }

  /** The powers of e(d / 2^k) add up to zero, or to 2^k if d is a multiple of 2^k. */
  lemma {:induction false} SumOfPowers(turn: Turns, d: nat, k: nat)
    requires IsCircle(turn)
    ensures Sum(Powers(turn(d, Pow2(k))), Pow2(k))
         == if Low(d, k) == 0 then Complex(Pow2(k) as real, 0.0) else ZERO
  {
    hide Mul, IsCircle, Power, Powers, Add;
    if k == 0 {
      SumOfOnePower(turn(d, 1));
    } else {
      var m, z := Pow2(k - 1), turn(d, Pow2(k));
      var S := Sum(Powers(z), m);
      PowersDouble(z, m);
      MulOne(S);
      if d % 2 == 0 {
        var h := d / 2;
        TurnHalf(turn, h, m);
        SumOfPowers(turn, h, k - 1);
        FullTurnPower(turn, h, k - 1);
        AddTwice(m as real);
      } else {
        HalfTurnPower(turn, d / 2, k);
        MulNeg(ONE, S);
        AddNeg(S);
      }
    }
  }

  lemma SumOfOnePower(z: Complex)
    ensures Sum(Powers(z), 1) == Complex(1.0, 0.0)
  {
    assert Sum(Powers(z), 1) == Add(Sum(Powers(z), 0), ONE);
  }

  lemma AddTwice(x: real)
    ensures Add(Complex(x, 0.0), Complex(x, 0.0)) == Complex(2.0 * x, 0.0) && Add(ZERO, ZERO) == ZERO
  {
  }

  lemma AddNeg(x: Complex)
    ensures Add(x, Neg(x)) == ZERO
  {
  }

  /** e(h / 2^k) to the power 2^k is one. */
  lemma {:induction false} FullTurnPower(turn: Turns, h: nat, k: nat)
    requires IsCircle(turn)
    ensures Power(turn(h, Pow2(k)), Pow2(k)) == ONE
  {
    hide Mul, IsCircle;
    var N := Pow2(k);
    PowerOfTurn(turn, h, N, N);
    PowerOfTurn(turn, N, N, h);
    TurnParts(turn, k);
    PowerOfOne(h);
    assert N * h == h * N;
  }

  /** e(d / 2^k) to the power 2^(k-1) is minus one if d is odd. */
  lemma HalfTurnPower(turn: Turns, h: nat, k: nat)
    requires IsCircle(turn) && k >= 1
    ensures Power(turn(2 * h + 1, Pow2(k)), Pow2(k - 1)) == Neg(ONE)
  {
    hide Mul, IsCircle;
    var N, m := Pow2(k), Pow2(k - 1);
    PowerOfTurn(turn, 2 * h + 1, N, m);
    PowerOfTurn(turn, N, N, h);
    PowerOfOne(h);
    TurnParts(turn, k);
    TurnAdd(turn, h * N, m, N);
    MulOne(Neg(ONE));
    HalfTurnIndex(h, N, m);
  }

  lemma HalfTurnIndex(h: nat, N: nat, m: nat)
    requires N == 2 * m
    ensures m * (2 * h + 1) == h * N + m
  {
    assert h * N == 2 * (h * m);
  }

  /** e(-p j / N), as the source's backward transform needs it. */
  lemma TurnComplement(turn: Turns, p: nat, j: nat, k: nat)
    requires IsCircle(turn) && p <= Pow2(k)
    ensures turn((Pow2(k) - p) * j, Pow2(k)) == Conj(turn(p * j, Pow2(k)))
  {
    hide Mul, IsCircle, Conj;
    var N := Pow2(k);
    var x, z := turn((N - p) * j, N), turn(p * j, N);
    TurnAdd(turn, (N - p) * j, p * j, N);
    ComplementIndex(N, p, j);
    PowerOfTurn(turn, j, N, N);
    FullTurnPower(turn, j, k);
    assert Mul(x, z) == ONE;
    TurnUnit(turn, p * j, N);
    MulAssoc(x, z, Conj(z));
    MulOne(x);
    MulOne(Conj(z));
  }

  lemma ComplementIndex(N: nat, p: nat, j: nat)
    requires p <= N
    ensures (N - p) * j >= 0 && (N - p) * j + p * j == N * j
  {
  }

  // ---------- the inverse of the complex transform ----------

  ghost function Row(F: (nat, nat) -> Complex, i: nat): nat -> Complex {
    (p: nat) => F(p, i)
  }

  ghost function Column(F: (nat, nat) -> Complex, p: nat): nat -> Complex {
    (i: nat) => F(p, i)
  }

  ghost function RowSums(F: (nat, nat) -> Complex, m: nat): nat -> Complex {
    (i: nat) => Sum(Row(F, i), m)
  }

  ghost function ColumnSums(F: (nat, nat) -> Complex, n: nat): nat -> Complex {
    (p: nat) => Sum(Column(F, p), n)
  }

  /** The order of a double sum does not matter. */
  lemma {:induction false} SumExchange(F: (nat, nat) -> Complex, m: nat, n: nat)
    ensures Sum(ColumnSums(F, n), m) == Sum(RowSums(F, m), n)
  {
    hide Add;
    if m == 0 {
      forall i: nat | i < n ensures RowSums(F, 0)(i) == ZERO {
        assert Sum(Row(F, i), 0) == ZERO;
      }
      SumZero(RowSums(F, 0), n);
    } else {
      SumExchange(F, m - 1, n);
      forall i: nat | i < n ensures RowSums(F, m)(i) == Add(RowSums(F, m - 1)(i), Column(F, m - 1)(i)) {
        assert Sum(Row(F, i), m) == Add(Sum(Row(F, i), m - 1), Row(F, i)(m - 1));
      }
      SumAdd(RowSums(F, m - 1), Column(F, m - 1), RowSums(F, m), n);
      assert ColumnSums(F, n)(m - 1) == Sum(Column(F, m - 1), n);
    }
  }

  lemma {:induction false} SumSingle(f: nat -> Complex, j: nat, n: nat)
    requires j < n && forall i: nat | i < n && i != j :: f(i) == ZERO
    ensures Sum(f, n) == f(j)
  {
    if j == n - 1 {
      SumZero(f, n - 1);
    } else {
      SumSingle(f, j, n - 1);
    }
  }

  /** Sample i, transformed at frequency p and turned back by e(-j p / N). */
  ghost function InverseTerm(turn: Turns, c: seq<Complex>, N: nat, j: nat): (nat, nat) -> Complex {
    (p: nat, i: nat) => if i < |c| then Mul(c[i], Mul(turn(p * i, N), Conj(turn(j * p, N)))) else ZERO
  }

  lemma KernelPower(turn: Turns, i: nat, j: nat, p: nat, k: nat)
    requires IsCircle(turn) && j <= Pow2(k)
    ensures Mul(turn(p * i, Pow2(k)), Conj(turn(j * p, Pow2(k)))) == Power(turn(i + Pow2(k) - j, Pow2(k)), p)
  {
    hide Mul, IsCircle, Conj;
    var N := Pow2(k);
    TurnComplement(turn, j, p, k);
    KernelIndex(N, i, j, p);
    TurnAdd(turn, p * i, (N - j) * p, N);
    PowerOfTurn(turn, i + N - j, N, p);
  }

  lemma KernelIndex(N: nat, i: nat, j: nat, p: nat)
    requires j <= N
    ensures (N - j) * p >= 0 && p * i + (N - j) * p == p * (i + N - j)
  {
  }

  lemma OnlyMultiple(d: nat, k: nat)
    requires 0 < d < 2 * Pow2(k) && Low(d, k) == 0
    ensures d == Pow2(k)
  {
    var q := Shr(d, k);
    SplitBits(d, k);
    ShlIsProduct(0, k);
    ShlIsProduct(1, k);
    ShlIsProduct(2, k);
    ShlLess(0, q, k);
    ShlLess(q, 2, k);
  }

  lemma DistinctDifference(i: nat, j: nat, k: nat)
    requires i < Pow2(k) && j < Pow2(k)
    ensures Low(i + Pow2(k) - j, k) == 0 <==> i == j
  {
    if i == j {
      ShlIsProduct(1, k);
      LowInBlock(1, k, 0);
    } else if Low(i + Pow2(k) - j, k) == 0 {
      OnlyMultiple(i + Pow2(k) - j, k);
    }
  }

  /** Orthogonality: what sample i contributes to sample j after a forward and a backward transform. */
  lemma InverseRow(turn: Turns, c: seq<Complex>, k: nat, j: nat, i: nat)
    requires IsCircle(turn) && |c| == Pow2(k) && i < |c| && j < |c|
    ensures Sum(Row(InverseTerm(turn, c, |c|, j), i), |c|)
         == if i == j then Scale(Pow2(k) as real, c[j]) else ZERO
  {
    hide Mul, IsCircle, Low, Power, Sum, Scale, Conj, Pow2;
    var N := |c|;
    var z := turn(i + N - j, N);
    forall p: nat | p < N
      ensures Row(InverseTerm(turn, c, N, j), i)(p) == Mul(c[i], Powers(z)(p))
    {
      KernelPower(turn, i, j, p, k);
    }
    SumMul(c[i], Powers(z), Row(InverseTerm(turn, c, N, j), i), N);
    SumOfPowers(turn, i + N - j, k);
    DistinctDifference(i, j, k);
    MulZero(c[i]);
    MulReal(c[i], N as real);
  }

  lemma MulReal(x: Complex, r: real)
    ensures Mul(x, Complex(r, 0.0)) == Scale(r, x)
  {
  }

  /** The conjugates of the transform of c, transformed and conjugated again, are N times c. */
  lemma DftInverse(turn: Turns, c: seq<Complex>, u: seq<Complex>, k: nat, j: nat)
    requires IsCircle(turn) && |c| == |u| == Pow2(k) && j < |c|
    requires forall p: nat | p < |u| :: u[p] == Conj(DftAt(turn, c, p))
    ensures Conj(DftAt(turn, u, j)) == Scale(Pow2(k) as real, c[j])
  {
    hide Mul, IsCircle, Scale, Conj;
    var N := |c|;
    var F := InverseTerm(turn, c, N, j);
    forall p: nat | p < N
      ensures ColumnSums(F, N)(p) == Conj(DftTerm(turn, u, N, j)(p))
    {
      InverseColumn(turn, c, u, k, j, p);
    }
    SumConj(DftTerm(turn, u, N, j), ColumnSums(F, N), N);
    SumExchange(F, N, N);
    forall i: nat | i < N
      ensures RowSums(F, N)(i) == if i == j then Scale(Pow2(k) as real, c[j]) else ZERO
    {
      InverseRow(turn, c, k, j, i);
    }
    SumSingle(RowSums(F, N), j, N);
  }

  lemma InverseColumn(turn: Turns, c: seq<Complex>, u: seq<Complex>, k: nat, j: nat, p: nat)
    requires |c| == |u| == Pow2(k) && p < |u| && u[p] == Conj(DftAt(turn, c, p))
    ensures Sum(Column(InverseTerm(turn, c, |c|, j), p), |c|) == Conj(DftTerm(turn, u, |u|, j)(p))
  {
    hide Mul, Conj;
    var N := |c|;
    var t := Conj(turn(j * p, N));
    forall i: nat | i < N
      ensures Column(InverseTerm(turn, c, N, j), p)(i) == Mul(t, DftTerm(turn, c, N, p)(i))
    {
      MulPermute(c[i], turn(p * i, N), t);
    }
    SumMul(t, DftTerm(turn, c, N, p), Column(InverseTerm(turn, c, N, j), p), N);
    ConjProduct(DftAt(turn, c, p), turn(j * p, N));
  }

  lemma ConjProduct(x: Complex, z: Complex)
    ensures Conj(Mul(Conj(x), z)) == Mul(Conj(z), x)
  {
  }
}
