/** The fast transform multiplies the sum of squares of its array by the number of complex elements. */
module Parseval {
  import opened Bits
  import opened Circle
  import opened ComplexNumbers
  import opened Dft
  import opened PowerSums

  /** The squared modulus of element p, as a complex number. */
  ghost function SquareAt(c: seq<Complex>, p: nat): Complex {
    if p < |c| then Mul(c[p], Conj(c[p])) else ZERO
  }

  ghost function Squares(c: seq<Complex>): nat -> Complex {
    (p: nat) => SquareAt(c, p)
  }

  /** The sum of the squares of all real and imaginary parts. */
  ghost function Energy(c: seq<Complex>): real {
    if |c| == 0 then 0.0 else Energy(c[..|c| - 1]) + Norm2(c[|c| - 1])
  }

  lemma {:induction false} EnergyIsSum(c: seq<Complex>, n: nat)
    requires n <= |c|
    ensures Sum(Squares(c), n) == Complex(Energy(c[..n]), 0.0)
  {
    if n > 0 {
      EnergyIsSum(c, n - 1);
      assert c[..n][..n - 1] == c[..n - 1];
      SquareIsNorm(c[n - 1]);
      assert Squares(c)(n - 1) == SquareAt(c, n - 1);
    }
  }

  lemma SquareIsNorm(x: Complex)
    ensures Mul(x, Conj(x)) == Complex(Norm2(x), 0.0)
  {
  }

  /** u[p] c[j] e(p j / N): summed over j it is what frequency p contributes, summed over p what sample j does. */
  ghost function CrossAt(turn: Turns, c: seq<Complex>, u: seq<Complex>, p: nat, j: nat): Complex {
    if p < |u| && j < |c| then Mul(u[p], Mul(c[j], turn(p * j, |c|))) else ZERO
  }

  ghost function Cross(turn: Turns, c: seq<Complex>, u: seq<Complex>): (nat, nat) -> Complex {
    (p: nat, j: nat) => CrossAt(turn, c, u, p, j)
  }

  lemma CrossColumn(turn: Turns, c: seq<Complex>, u: seq<Complex>, p: nat)
    requires |c| == |u| && p < |u|
    ensures Sum(Column(Cross(turn, c, u), p), |c|) == Mul(u[p], DftAt(turn, c, p))
  {
    hide Mul;
    forall j: nat | j < |c| ensures Column(Cross(turn, c, u), p)(j) == Mul(u[p], DftTerm(turn, c, |c|, p)(j)) {
      assert Column(Cross(turn, c, u), p)(j) == CrossAt(turn, c, u, p, j);
    }
    SumMul(u[p], DftTerm(turn, c, |c|, p), Column(Cross(turn, c, u), p), |c|);
  }

  lemma CrossRow(turn: Turns, c: seq<Complex>, u: seq<Complex>, j: nat)
    requires |c| == |u| && j < |c|
    ensures Sum(Row(Cross(turn, c, u), j), |c|) == Mul(c[j], DftAt(turn, u, j))
  {
    hide Mul;
    forall p: nat | p < |c| ensures Row(Cross(turn, c, u), j)(p) == Mul(c[j], DftTerm(turn, u, |u|, j)(p)) {
      assert Row(Cross(turn, c, u), j)(p) == CrossAt(turn, c, u, p, j);
      Rearrange(u[p], c[j], turn(p * j, |c|));
      assert p * j == j * p;
    }
    SumMul(c[j], DftTerm(turn, u, |u|, j), Row(Cross(turn, c, u), j), |c|);
  }

  lemma Rearrange(u: Complex, c: Complex, t: Complex)
    ensures Mul(u, Mul(c, t)) == Mul(c, Mul(u, t))
  {
    MulAssoc(u, c, t);
    MulComm(u, c);
    MulAssoc(c, u, t);
  }

  lemma ScaledSquare(c: Complex, d: Complex, r: real)
    requires Conj(d) == Scale(r, c)
    ensures Mul(c, d) == Mul(Complex(r, 0.0), Mul(c, Conj(c)))
  {
    assert d == Complex(r * c.re, -(r * c.im));
    Factor(c.re, c.im, r);
  }

  lemma Factor(x: real, y: real, r: real)
    ensures x * (r * x) + y * (r * y) == r * (x * x + y * y)
    ensures x * (r * y) == y * (r * x)
  {
  }

  /** Parseval's theorem for a transform of 2^k samples. */
  lemma DftEnergy(turn: Turns, c: seq<Complex>, z: seq<Complex>, k: nat)
    requires IsCircle(turn) && |c| == |z| == Pow2(k)
    requires forall p: nat | p < |z| :: z[p] == DftAt(turn, c, p)
    ensures Sum(Squares(z), |z|) == Mul(Complex(Pow2(k) as real, 0.0), Sum(Squares(c), |c|))
  {
    hide Mul, Conj, IsCircle, DftAt, Scale;
    var N, u := |c|, seq(|c|, p requires 0 <= p < |c| => Conj(DftAt(turn, c, p)));
    var F := Cross(turn, c, u);
    forall p: nat | p < N ensures ColumnSums(F, N)(p) == Squares(z)(p) {
      CrossColumn(turn, c, u, p);
      MulComm(u[p], z[p]);
      assert Squares(z)(p) == SquareAt(z, p);
    }
    SumCongruent(ColumnSums(F, N), Squares(z), N);
    SumExchange(F, N, N);
    var r := Complex(Pow2(k) as real, 0.0);
    forall j: nat | j < N ensures RowSums(F, N)(j) == Mul(r, Squares(c)(j)) {
      CrossRow(turn, c, u, j);
      DftInverse(turn, c, u, k, j);
      ScaledSquare(c[j], DftAt(turn, u, j), Pow2(k) as real);
      assert Squares(c)(j) == SquareAt(c, j);
    }
    SumMul(r, Squares(c), RowSums(F, N), N);
  }

  /** y is c in bit-reversed order. */
  ghost predicate Reversed(y: seq<Complex>, c: seq<Complex>, K: nat) {
    |y| == |c| == Pow2(K) && forall s: nat | s < |y| :: Rev(K, s) < |c| && y[s] == c[Rev(K, s)]
  }

  /** The samples in their natural order. */
  lemma Unreverse(y: seq<Complex>, K: nat) returns (c: seq<Complex>)
    requires |y| == Pow2(K)
    ensures Reversed(y, c, K)
  {
    hide Rev, Pow2;
    forall s: nat | s < |y| ensures Rev(K, s) < |y| {
      RevBound(K, s);
    }
    c := seq(|y|, s requires 0 <= s < |y| => y[Rev(K, s)]);
    forall s: nat | s < |y| ensures y[s] == c[Rev(K, s)] {
      var r := Rev(K, s);
      RevInvolution(K, s);
      assert c[r] == y[Rev(K, r)];
    }
  }

  lemma EnergyReversed(y: seq<Complex>, c: seq<Complex>, K: nat)
    requires Reversed(y, c, K)
    ensures Sum(Squares(y), |y|) == Sum(Squares(c), |c|)
  {
    hide Mul, Conj, Rev, Pow2, Sum;
    forall s: nat | s < Pow2(K) ensures Squares(y)(s) == Squares(c)(Rev(K, s)) {
      assert Squares(y)(s) == SquareAt(y, s) && Squares(c)(Rev(K, s)) == SquareAt(c, Rev(K, s));
    }
    SumReversed(Squares(c), Squares(y), K);
  }

  /** Power sums over elements in bit-reversed order are the transform of the elements in natural order. */
  lemma PowerSumsAreDft(turn: Turns, y: seq<Complex>, z: seq<Complex>, K: nat) returns (c: seq<Complex>)
    requires IsCircle(turn) && |y| == |z| == Pow2(K)
    requires forall p: nat | p < |z| :: z[p] == PowerSum(turn, y, K, 0, |y|, p)
    ensures Reversed(y, c, K) && forall p: nat | p < |z| :: z[p] == DftAt(turn, c, p)
  {
    hide IsCircle, DftAt, PowerSum, Rev, Pow2;
    c := Unreverse(y, K);
    forall p: nat | p < |z| ensures z[p] == DftAt(turn, c, p) {
      PowerSumIsDft(turn, c, y, K, p);
    }
  }

  /** So they have as many times the energy as there are elements. */
  lemma PowerSumEnergy(turn: Turns, y: seq<Complex>, z: seq<Complex>, K: nat)
    requires IsCircle(turn) && |y| == |z| == Pow2(K)
    requires forall p: nat | p < |z| :: z[p] == PowerSum(turn, y, K, 0, |y|, p)
    ensures Complex(Energy(z), 0.0) == Mul(Complex(Pow2(K) as real, 0.0), Complex(Energy(y), 0.0))
  {
    hide Mul, IsCircle, DftAt, PowerSum, Rev, Pow2, Sum, Energy, Squares;
    var c := PowerSumsAreDft(turn, y, z, K);
    DftEnergy(turn, c, z, K);
    EnergyReversed(y, c, K);
    WholeEnergy(z);
    WholeEnergy(y);
  }

  lemma WholeEnergy(c: seq<Complex>)
    ensures Sum(Squares(c), |c|) == Complex(Energy(c), 0.0)
  {
    EnergyIsSum(c, |c|);
    assert c[..|c|] == c;
  }

  lemma RealFactor(r: real, x: real, y: real)
    requires Complex(y, 0.0) == Mul(Complex(r, 0.0), Complex(x, 0.0))
    ensures y == r * x
  {
  }

  // ---------- arrays of reals ----------

  ghost function SumOfSquares(s: seq<real>): real {
    if |s| == 0 then 0.0 else SumOfSquares(s[..|s| - 1]) + s[|s| - 1] * s[|s| - 1]
  }

  /** The reals in s are the parts of the elements of z, one after the other. */
  ghost predicate PartsOf(s: seq<real>, z: seq<Complex>) {
    |s| == 2 * |z| && forall p: nat | p < |z| :: s[2 * p] == z[p].re && s[2 * p + 1] == z[p].im
  }

  lemma {:induction false} EnergyOfParts(s: seq<real>, z: seq<Complex>)
    requires PartsOf(s, z)
    ensures SumOfSquares(s) == Energy(z)
  {
    if |z| > 0 {
      var n := |z| - 1;
      assert PartsOf(s[..2 * n], z[..n]);
      EnergyOfParts(s[..2 * n], z[..n]);
      LastTwo(s);
    }
  }

  lemma LastTwo(s: seq<real>)
    requires |s| >= 2
    ensures var x, y := s[|s| - 2], s[|s| - 1]; SumOfSquares(s) == SumOfSquares(s[..|s| - 2]) + x * x + y * y
  {
    assert s[..|s| - 1][..|s| - 2] == s[..|s| - 2];
  }

  ghost function Elements(s: seq<real>): (z: seq<Complex>)
    requires |s| % 2 == 0
    ensures |z| == |s| / 2 && PartsOf(s, z)
  {
    seq(|s| / 2, p requires 0 <= p < |s| / 2 => Complex(s[2 * p], s[2 * p + 1]))
  }

  /** The same for power sums that have all been conjugated. */
  lemma ConjugatedPowerSumEnergy(turn: Turns, y: seq<Complex>, z: seq<Complex>, K: nat)
    requires IsCircle(turn) && |y| == |z| == Pow2(K)
    requires forall p: nat | p < |z| :: z[p] == Conj(PowerSum(turn, y, K, 0, |y|, p))
    ensures Complex(Energy(z), 0.0) == Mul(Complex(Pow2(K) as real, 0.0), Complex(Energy(y), 0.0))
  {
    hide Mul, IsCircle, PowerSum, Pow2, Energy;
    var u := seq(|z|, p requires 0 <= p < |z| => Conj(z[p]));
    forall p: nat | p < |u| ensures u[p] == PowerSum(turn, y, K, 0, |y|, p) {
      assert z[p] == Conj(PowerSum(turn, y, K, 0, |y|, p));
    }
    PowerSumEnergy(turn, y, u, K);
    ConjugatedEnergy(z, u);
  }

  /** An array of which each complex element becomes a power sum of all, up to conjugation. */
  lemma ArrayEnergy(turn: Turns, y: seq<Complex>, K: nat, before: seq<real>, after: seq<real>)
    requires IsCircle(turn) && |y| == Pow2(K) && PartsOf(before, y) && |after| == 2 * |y|
    requires || (forall p: nat | p < |y| :: Elements(after)[p] == PowerSum(turn, y, K, 0, |y|, p))
             || (forall p: nat | p < |y| :: Elements(after)[p] == Conj(PowerSum(turn, y, K, 0, |y|, p)))
    ensures Complex(SumOfSquares(after), 0.0) == Mul(Complex(Pow2(K) as real, 0.0), Complex(SumOfSquares(before), 0.0))
  {
    hide Mul, Conj, IsCircle, PowerSum, Pow2, Energy, SumOfSquares, PartsOf, Elements;
    var z := Elements(after);
    EnergyOfParts(before, y);
    EnergyOfParts(after, z);
    if forall p: nat | p < |y| :: z[p] == PowerSum(turn, y, K, 0, |y|, p) {
      PowerSumEnergy(turn, y, z, K);
    } else {
      ConjugatedPowerSumEnergy(turn, y, z, K);
    }
  }

  lemma {:induction false} ConjugatedEnergy(z: seq<Complex>, u: seq<Complex>)
    requires |u| == |z| && forall p: nat | p < |z| :: u[p] == Conj(z[p])
    ensures Energy(u) == Energy(z)
  {
    if |z| > 0 {
      ConjugatedEnergy(z[..|z| - 1], u[..|z| - 1]);
    }
  }
}
