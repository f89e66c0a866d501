/** The passes rftfsub and rftbsub of fft4g.c, between the complex transform and the real one. */
module Rft {
  import opened Bits
  import opened Circle
  import opened ComplexNumbers
  import opened Butterflies
  import opened RealDft

  /** The table of makect, at c[base ..]: halves of the cosines of the first quarter turn, except for entry 0. */
  ghost predicate HoldsHalfCosines(turn: Turns, nc: nat, c: array<real>, base: nat)
    reads c
  {
    forall k: nat | 1 <= k < nc :: base + k < c.Length && c[base + k] == 0.5 * turn(k, 4 * nc).re
  }

  /** In a quarter turn, the cosine of the rest is the sine. */
  lemma {:induction false} QuarterMirror(turn: Turns, r: nat, k: nat)
    requires IsCircle(turn) && k <= Pow2(r)
    ensures var t := turn(k, Pow2(r + 2)); turn(Pow2(r) - k, Pow2(r + 2)) == Complex(t.im, t.re)
  {
    hide Mul, IsCircle, Norm2;
    var n, N := Pow2(r + 2), Pow2(r);
    TurnAdd(turn, N - k, k, n);
    TurnParts(turn, r + 2);
    TurnUnit(turn, k, n);
    QuarterTurnMirror(turn(N - k, n), turn(k, n));
  }

  lemma QuarterTurnMirror(x: Complex, z: Complex)
    requires Mul(x, z) == I && Mul(z, Conj(z)) == ONE
    ensures x == Complex(z.im, z.re)
  {
    hide Mul;
    MulAssoc(x, z, Conj(z));
    MulOne(x);
    MulI(Conj(z));
  }

  /** What both passes rely on: a table of nc = 2^r entries, at least a quarter of n = 2^(K+1). */
  ghost predicate PassContext(turn: Turns, K: nat, r: nat, n: nat, nc: nat, c: array<real>, base: nat, y: seq<Complex>)
    reads c
  {
    && IsCircle(turn) && K >= 2 && r + 1 >= K && n == 2 * |y| && |y| == Pow2(K) && nc == Pow2(r)
    && HoldsHalfCosines(turn, nc, c, base)
  }

  /** The stride with which a pass walks through a table that may be larger than it needs. */
  lemma {:induction false} Stride(K: nat, r: nat)
    requires K >= 1 && r + 1 >= K
    ensures 2 * Pow2(r) / Pow2(K) == Pow2(r + 1 - K)
  {
    var d := r + 1 - K;
    ShlPow2(d, K);
    ShlIsProduct(Pow2(d), K);
    Quotient(Pow2(d), Pow2(K));
    assert Pow2(r + 1) == 2 * Pow2(r);
  }

  lemma Quotient(x: nat, y: nat)
    requires y > 0
    ensures x * y / y == x
  {
    var q, r := x * y / y, x * y % y;
    assert (x - q) * y == r;
    OnlyZero(x - q, y);
  }

  lemma OnlyZero(t: int, y: nat)
    requires 0 <= t * y < y
    ensures t == 0
  {
    if t >= 1 {
      AtLeast(t - 1, y);
    } else if t <= -1 {
      AtLeast(-1 - t, y);
    }
  }

  lemma AtLeast(s: int, y: int)
    requires s >= 0 && y >= 0
    ensures (s + 1) * y >= y && (-1 - s) * y <= -y
  {
  }

  /** At step q the table entry kk and its mirror make up the factor of position q. */
  lemma {:induction false} TableFactor(turn: Turns, K: nat, r: nat, n: nat, nc: nat, c: array<real>, base: nat,
                                       y: seq<Complex>, q: nat, kk: nat)
    requires PassContext(turn, K, r, n, nc, c, base, y) && 0 < q && 2 * q < |y| && kk == Shl(q, r + 1 - K)
    ensures 0 < kk < nc && base + kk < c.Length && base + (nc - kk) < c.Length
    ensures Complex(0.5 - c[base + (nc - kk)], c[base + kk]) == PassFactor(turn, K, q)
  {
    hide IsCircle, Shl, Pow2;
    var d := r + 1 - K;
    ShlPow2(K - 1, d);
    ShlLess(0, q, d);
    ShlZero(d);
    ShlLess(q, Pow2(K - 1), d);
    Pow2Up(r);
    Pow2Up(K - 1);
    ShlPow2(K + 1, d);
    TurnScale(turn, q, Pow2(K + 1), d);
    QuarterMirror(turn, r, kk);
  }

  method Product(wkr: real, wki: real, xr: real, xi: real) returns (yr: real, yi: real)
    ensures Complex(yr, yi) == Mul(Complex(wkr, wki), Complex(xr, xi))
  {
    yr := wkr * xr - wki * xi;
    yi := wkr * xi + wki * xr;
  }

  method ConjProduct(wkr: real, wki: real, xr: real, xi: real) returns (yr: real, yi: real)
    ensures Complex(yr, yi) == Mul(Conj(Complex(wkr, wki)), Complex(xr, xi))
  {
    yr := wkr * xr + wki * xi;
    yi := wkr * xi - wki * xr;
  }

  lemma MirroredDifference(u: Complex, v: Complex)
    ensures Complex(u.re - v.re, u.im + v.im) == Sub(u, Conj(v))
  {
  }

  /** What the two passes store at the two positions of a pair, in real and imaginary parts. */
  lemma StoredPair(u: Complex, v: Complex, yr: real, yi: real)
    ensures Sub(u, Complex(yr, yi)) == Complex(u.re - yr, u.im - yi)
    ensures Add(v, Conj(Complex(yr, yi))) == Complex(v.re + yr, v.im - yi)
    ensures Conj(Sub(u, Complex(yr, yi))) == Complex(u.re - yr, yi - u.im)
    ensures Conj(Add(v, Conj(Complex(yr, yi)))) == Complex(v.re + yr, yi - v.im)
  {
  }

  /** The loop has finished the positions below q and, mirrored, those above N - q. */
  ghost predicate ForwardDone(turn: Turns, K: nat, y: seq<Complex>, z: seq<Complex>, q: nat) {
    && |z| == |y| > 0
    && z[0] == y[0]
    && forall p: nat | 0 < p < |y| :: z[p] == if p < q || p + q > |y| then ForwardAt(turn, K, y, p) else y[p]
  }

  lemma ForwardStep(turn: Turns, K: nat, y: seq<Complex>, z: seq<Complex>, q: nat, w: Complex)
    requires IsCircle(turn) && |y| == Pow2(K) && ForwardDone(turn, K, y, z, q) && 0 < q && 2 * q < |y|
    requires w == PassFactor(turn, K, q)
    ensures var yv := Mul(w, Sub(z[q], Conj(z[|z| - q])));
            ForwardDone(turn, K, y, z[q := Sub(z[q], yv)][|z| - q := Add(z[|z| - q], Conj(yv))], q + 1)
  {
    hide Mul, IsCircle, PassFactor;
    MirroredFactor(turn, K, q);
    ConjDifference(w, y[q], y[|y| - q]);
  }

  /** The update of the mirrored position is that position's own formula. */
  lemma ConjDifference(w: Complex, u: Complex, v: Complex)
    ensures Add(v, Conj(Mul(w, Sub(u, Conj(v))))) == Sub(v, Mul(Conj(w), Sub(v, Conj(u))))
  {
  }

  lemma ForwardEnd(turn: Turns, K: nat, y: seq<Complex>, z: seq<Complex>, q: nat)
    requires IsCircle(turn) && K >= 1 && |y| == Pow2(K) && ForwardDone(turn, K, y, z, q) && 2 * q == |y|
    ensures forall p: nat | 0 < p < |y| :: z[p] == ForwardAt(turn, K, y, p)
  {
    hide Mul, IsCircle, PassFactor;
    MiddleFactor(turn, K);
    MulNothing(Sub(y[q], Conj(y[|y| - q])));
  }

  lemma MulNothing(x: Complex)
    ensures Mul(ZERO, x) == ZERO && Conj(ZERO) == ZERO
  {
  }

  /** The loop body of rftfsub: the elements at q and, mirrored, at N - q. */
  method ForwardPair(n: nat, j: nat, kk: nat, a: array<real>, nc: nat, c: array<real>, base: nat, ghost turn: Turns,
                     ghost K: nat, ghost r: nat, ghost y: seq<Complex>, ghost z0: seq<Complex>, ghost q: nat)
    returns (ghost z: seq<Complex>)
    requires a != c && PassContext(turn, K, r, n, nc, c, base, y) && Holds(a, z0) && ForwardDone(turn, K, y, z0, q)
    requires 0 < q && 2 * q < |y| && j == 2 * q && kk == Shl(q, r + 1 - K)
    modifies a
    ensures Holds(a, z) && |z| == |y| && ForwardDone(turn, K, y, z, q + 1)
    ensures forall i | n <= i < a.Length :: a[i] == old(a[i])
  {
    hide Mul, IsCircle, PassFactor, ForwardDone, ForwardAt, Holds, HoldsHalfCosines, Shl, Pow2, Add, Sub, Conj;
    ForwardSize(turn, K, y, z0, q);
    var k := n - j;
    TableFactor(turn, K, r, n, nc, c, base, y, q, kk);
    var wkr := 0.5 - c[base + (nc - kk)];
    var wki := c[base + kk];
    HoldsAt(a, z0, q);
    HoldsAt(a, z0, |z0| - q);
    var xr := a[j] - a[k];
    var xi := a[j + 1] + a[k + 1];
    MirroredDifference(z0[q], z0[|z0| - q]);
    var yr, yi := Product(wkr, wki, xr, xi);
    ForwardStep(turn, K, y, z0, q, Complex(wkr, wki));
    StoredPair(z0[q], z0[|z0| - q], yr, yi);
    ghost var z1 := z0[q := Sub(z0[q], Complex(yr, yi))];
    Put(a, j, a[j] - yr, a[j + 1] - yi, z0, q);
    HoldsAt(a, z1, |z1| - q);
    Put(a, k, a[k] + yr, a[k + 1] - yi, z1, |z1| - q);
    z := z1[|z1| - q := Add(z0[|z0| - q], Conj(Complex(yr, yi)))];
  }

  /** rftfsub. */
  method Rftfsub(n: nat, a: array<real>, nc: nat, c: array<real>, base: nat, ghost turn: Turns, ghost K: nat, ghost r: nat,
                 ghost y: seq<Complex>)
    requires a != c && PassContext(turn, K, r, n, nc, c, base, y) && Holds(a, y)
    modifies a
    ensures 2 * |y| <= a.Length && At(a, 0) == y[0]
    ensures forall p: nat | 0 < p < |y| :: At(a, p) == ForwardAt(turn, K, y, p)
    ensures forall i | n <= i < a.Length :: a[i] == old(a[i])
  {
    hide Mul, IsCircle, PassFactor, ForwardDone, ForwardAt, Holds, HoldsHalfCosines;
    HoldsAll(a, y);
    var m := n / 2;
    Stride(K, r);
    var ks := 2 * nc / m;
    var kk := 0;
    ghost var z, q := y, 1;
    ForwardStart(turn, K, y);
    PassSize(K, r);
    var j := 2;
    while j < m
      invariant j == 2 * q && 2 <= j <= m && kk + ks == Shl(q, r + 1 - K)
      invariant Holds(a, z) && |z| == |y| && ForwardDone(turn, K, y, z, q)
      invariant forall i | n <= i < a.Length :: a[i] == old(a[i])
      invariant PassContext(turn, K, r, n, nc, c, base, y)
    {
      kk := kk + ks;
      z := ForwardPair(n, j, kk, a, nc, c, base, turn, K, r, y, z, q);
      ShlNext(q, r + 1 - K);
      j := j + 2;
      q := q + 1;
    }
    ForwardEnd(turn, K, y, z, q);
    ForwardFirst(turn, K, y, z, q);
    HoldsAll(a, z);
  }

  lemma ForwardSize(turn: Turns, K: nat, y: seq<Complex>, z: seq<Complex>, q: nat)
    requires ForwardDone(turn, K, y, z, q)
    ensures |z| == |y|
  {
  }

  lemma ForwardStart(turn: Turns, K: nat, y: seq<Complex>)
    requires |y| > 0
    ensures ForwardDone(turn, K, y, y, 1)
  {
  }

  lemma ForwardFirst(turn: Turns, K: nat, y: seq<Complex>, z: seq<Complex>, q: nat)
    requires ForwardDone(turn, K, y, z, q)
    ensures |z| == |y| > 0 && z[0] == y[0]
  {
  }

  lemma PassSize(K: nat, r: nat)
    requires K >= 2 && r + 1 >= K
    ensures Pow2(K) == 4 * Pow2(K - 2) && Shl(1, r + 1 - K) == Pow2(r + 1 - K)
  {
    ShlPow2(0, r + 1 - K);
  }

  ghost predicate BackwardDone(turn: Turns, K: nat, y: seq<Complex>, z: seq<Complex>, q: nat) {
    && |z| == |y| > 0
    && z[0] == Conj(y[0])
    && forall p: nat | 0 < p < |y| :: z[p] == if p < q || p + q > |y| then BackwardAt(turn, K, y, p) else y[p]
  }

  lemma BackwardStep(turn: Turns, K: nat, y: seq<Complex>, z: seq<Complex>, q: nat, w: Complex)
    requires IsCircle(turn) && |y| == Pow2(K) && BackwardDone(turn, K, y, z, q) && 0 < q && 2 * q < |y|
    requires w == PassFactor(turn, K, q)
    ensures var yv := Mul(Conj(w), Sub(z[q], Conj(z[|z| - q])));
            BackwardDone(turn, K, y, z[q := Conj(Sub(z[q], yv))][|z| - q := Conj(Add(z[|z| - q], Conj(yv)))], q + 1)
  {
    hide Mul, IsCircle, PassFactor;
    MirroredFactor(turn, K, q);
    ConjDifference(Conj(w), y[q], y[|y| - q]);
  }

  lemma BackwardEnd(turn: Turns, K: nat, y: seq<Complex>, z: seq<Complex>, q: nat)
    requires IsCircle(turn) && K >= 1 && |y| == Pow2(K) && BackwardDone(turn, K, y, z, q) && 2 * q == |y|
    ensures var z' := z[q := Conj(z[q])];
            z'[0] == Conj(y[0]) && forall p: nat | 0 < p < |y| :: z'[p] == BackwardAt(turn, K, y, p)
  {
    hide Mul, IsCircle, PassFactor;
    MiddleFactor(turn, K);
    MulNothing(Sub(y[q], Conj(y[|y| - q])));
  }

  lemma BackwardSize(turn: Turns, K: nat, y: seq<Complex>, z: seq<Complex>, q: nat)
    requires BackwardDone(turn, K, y, z, q)
    ensures |z| == |y|
  {
  }

  lemma BackwardStart(turn: Turns, K: nat, y: seq<Complex>)
    requires |y| > 0
    ensures BackwardDone(turn, K, y, y[0 := Conj(y[0])], 1)
  {
  }

  /** The loop body of rftbsub: the elements at q and, mirrored, at N - q. */
  method BackwardPair(n: nat, j: nat, kk: nat, a: array<real>, nc: nat, c: array<real>, base: nat, ghost turn: Turns,
                     ghost K: nat, ghost r: nat, ghost y: seq<Complex>, ghost z0: seq<Complex>, ghost q: nat)
    returns (ghost z: seq<Complex>)
    requires a != c && PassContext(turn, K, r, n, nc, c, base, y) && Holds(a, z0) && BackwardDone(turn, K, y, z0, q)
    requires 0 < q && 2 * q < |y| && j == 2 * q && kk == Shl(q, r + 1 - K)
    modifies a
    ensures Holds(a, z) && |z| == |y| && BackwardDone(turn, K, y, z, q + 1)
    ensures forall i | n <= i < a.Length :: a[i] == old(a[i])
  {
    hide Mul, IsCircle, PassFactor, BackwardDone, BackwardAt, Holds, HoldsHalfCosines, Shl, Pow2, Add, Sub, Conj;
    BackwardSize(turn, K, y, z0, q);
    var k := n - j;
    TableFactor(turn, K, r, n, nc, c, base, y, q, kk);
    var wkr := 0.5 - c[base + (nc - kk)];
    var wki := c[base + kk];
    HoldsAt(a, z0, q);
    HoldsAt(a, z0, |z0| - q);
    var xr := a[j] - a[k];
    var xi := a[j + 1] + a[k + 1];
    MirroredDifference(z0[q], z0[|z0| - q]);
    var yr, yi := ConjProduct(wkr, wki, xr, xi);
    BackwardStep(turn, K, y, z0, q, Complex(wkr, wki));
    StoredPair(z0[q], z0[|z0| - q], yr, yi);
    ghost var z1 := z0[q := Conj(Sub(z0[q], Complex(yr, yi)))];
    Put(a, j, a[j] - yr, yi - a[j + 1], z0, q);
    HoldsAt(a, z1, |z1| - q);
    Put(a, k, a[k] + yr, yi - a[k + 1], z1, |z1| - q);
    z := z1[|z1| - q := Conj(Add(z0[|z0| - q], Conj(Complex(yr, yi))))];
  }

  /** rftbsub. */
  method Rftbsub(n: nat, a: array<real>, nc: nat, c: array<real>, base: nat, ghost turn: Turns, ghost K: nat, ghost r: nat,
                 ghost y: seq<Complex>)
    requires a != c && PassContext(turn, K, r, n, nc, c, base, y) && Holds(a, y)
    modifies a
    ensures 2 * |y| <= a.Length && At(a, 0) == Conj(y[0])
    ensures forall p: nat | 0 < p < |y| :: At(a, p) == BackwardAt(turn, K, y, p)
    ensures forall i | n <= i < a.Length :: a[i] == old(a[i])
  {
    hide Mul, IsCircle, PassFactor, BackwardDone, BackwardAt, Holds, HoldsHalfCosines;
    HoldsAll(a, y);
    HoldsAt(a, y, 0);
    Put(a, 0, a[0], -a[1], y, 0);
    var m := n / 2;
    Stride(K, r);
    var ks := 2 * nc / m;
    var kk := 0;
    ghost var z, q := y[0 := Conj(y[0])], 1;
    BackwardStart(turn, K, y);
    PassSize(K, r);
    var j := 2;
    while j < m
      invariant j == 2 * q && 2 <= j <= m && kk + ks == Shl(q, r + 1 - K)
      invariant Holds(a, z) && |z| == |y| && BackwardDone(turn, K, y, z, q)
      invariant forall i | n <= i < a.Length :: a[i] == old(a[i])
      invariant PassContext(turn, K, r, n, nc, c, base, y)
    {
      kk := kk + ks;
      z := BackwardPair(n, j, kk, a, nc, c, base, turn, K, r, y, z, q);
      ShlNext(q, r + 1 - K);
      j := j + 2;
      q := q + 1;
    }
    HoldsAt(a, z, q);
    Put(a, m, a[m], -a[m + 1], z, q);
    BackwardEnd(turn, K, y, z, q);
    HoldsAll(a, z[q := Conj(z[q])]);
  }
}
