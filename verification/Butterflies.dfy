/**
 * The radix-4 and radix-2 butterflies of fft4g.c.
 *
 * As in the source, a[2p] and a[2p + 1] hold the real and imaginary part of the complex element at position p, and
 * code indices (j, j1, ...) count reals. Ghost parameters p0, p1, ... are the positions the code indices denote, and
 * the ghost sequence z is the array seen as complex elements.
 */
module Butterflies {
  import opened ComplexNumbers

  /** The complex element at position p. */
  function At(a: array<real>, p: nat): Complex
    requires 2 * p + 1 < a.Length
    reads a
  {
    Complex(a[2 * p], a[2 * p + 1])
  }

  /** The array starts with the complex elements z. */
  ghost predicate Holds(a: array<real>, z: seq<Complex>)
    reads a
  {
    && 2 * |z| <= a.Length
    && forall p: nat | p < |z| :: At(a, p) == z[p]
  }

  lemma HoldsAt(a: array<real>, z: seq<Complex>, p: nat)
    requires Holds(a, z) && p < |z|
    ensures 2 * |z| <= a.Length && a[2 * p] == z[p].re && a[2 * p + 1] == z[p].im
  {
    assert At(a, p) == z[p];
  }

  lemma HoldsAll(a: array<real>, z: seq<Complex>)
    requires Holds(a, z)
    ensures 2 * |z| <= a.Length && forall p: nat | p < |z| :: At(a, p) == z[p]
  {
  }

  // The four outputs of a radix-4 butterfly, before the multiplication by a twiddle factor.

  function Out0(a0: Complex, a1: Complex, a2: Complex, a3: Complex): Complex {
    Add(Add(a0, a1), Add(a2, a3))
  }

  function Out1(a0: Complex, a1: Complex, a2: Complex, a3: Complex): Complex {
    Add(Sub(a0, a1), Rotate(Sub(a2, a3)))
  }

  function Out2(a0: Complex, a1: Complex, a2: Complex, a3: Complex): Complex {
    Sub(Add(a0, a1), Add(a2, a3))
  }

  function Out3(a0: Complex, a1: Complex, a2: Complex, a3: Complex): Complex {
    Sub(Sub(a0, a1), Rotate(Sub(a2, a3)))
  }

  /** The elements after four stores. */
  function Store4(z: seq<Complex>, p0: nat, p1: nat, p2: nat, p3: nat,
                  c0: Complex, c1: Complex, c2: Complex, c3: Complex): seq<Complex>
    requires p0 < |z| && p1 < |z| && p2 < |z| && p3 < |z|
  {
    z[p0 := c0][p2 := c2][p1 := c1][p3 := c3]
  }

  ghost predicate Indices4(z: seq<Complex>, j: nat, j1: nat, j2: nat, j3: nat, p0: nat, p1: nat, p2: nat, p3: nat) {
    j == 2 * p0 && j1 == 2 * p1 && j2 == 2 * p2 && j3 == 2 * p3 && p0 < p1 < p2 < p3 < |z|
  }

  /** Stores a complex element: the pair of assignments to a[j] and a[j + 1]. */
  method Put(a: array<real>, j: nat, re: real, im: real, ghost z: seq<Complex>, ghost p: nat)
    requires Holds(a, z) && p < |z| && j == 2 * p
    modifies a
    ensures Holds(a, z[p := Complex(re, im)])
    ensures forall i | 2 * |z| <= i < a.Length :: a[i] == old(a[i])
  {
    a[j] := re;
    a[j + 1] := im;
  }

  /** Stores the product of the factor wkr + i wki with xr + i xi. */
  method PutProduct(a: array<real>, j: nat, wkr: real, wki: real, xr: real, xi: real, ghost z: seq<Complex>, ghost p: nat)
    requires Holds(a, z) && p < |z| && j == 2 * p
    modifies a
    ensures Holds(a, z[p := Mul(Complex(wkr, wki), Complex(xr, xi))])
    ensures forall i | 2 * |z| <= i < a.Length :: a[i] == old(a[i])
  {
    Put(a, j, wkr * xr - wki * xi, wkr * xi + wki * xr, z, p);
  }

  /** Stores wkr times xr + i xi. */
  method PutScaled(a: array<real>, j: nat, wkr: real, xr: real, xi: real, ghost z: seq<Complex>, ghost p: nat)
    requires Holds(a, z) && p < |z| && j == 2 * p
    modifies a
    ensures Holds(a, z[p := Scale(wkr, Complex(xr, xi))])
    ensures forall i | 2 * |z| <= i < a.Length :: a[i] == old(a[i])
  {
    Put(a, j, wkr * xr, wkr * xi, z, p);
  }

  /** The butterfly with unit twiddle factors. */
  method ButterflyPlain(a: array<real>, j: nat, j1: nat, j2: nat, j3: nat, ghost z: seq<Complex>,
                        ghost p0: nat, ghost p1: nat, ghost p2: nat, ghost p3: nat)
    requires Holds(a, z) && Indices4(z, j, j1, j2, j3, p0, p1, p2, p3)
    modifies a
    ensures Holds(a, Store4(z, p0, p1, p2, p3,
                            Out0(z[p0], z[p1], z[p2], z[p3]), Out1(z[p0], z[p1], z[p2], z[p3]),
                            Out2(z[p0], z[p1], z[p2], z[p3]), Out3(z[p0], z[p1], z[p2], z[p3])))
    ensures forall i | 2 * |z| <= i < a.Length :: a[i] == old(a[i])
  {
    hide Holds;
    HoldsAt(a, z, p0);
    HoldsAt(a, z, p1);
    HoldsAt(a, z, p2);
    HoldsAt(a, z, p3);
    var x0r := a[j] + a[j1];
    var x0i := a[j + 1] + a[j1 + 1];
    var x1r := a[j] - a[j1];
    var x1i := a[j + 1] - a[j1 + 1];
    var x2r := a[j2] + a[j3];
    var x2i := a[j2 + 1] + a[j3 + 1];
    var x3r := a[j2] - a[j3];
    var x3i := a[j2 + 1] - a[j3 + 1];
    assert Complex(x0r + x2r, x0i + x2i) == Out0(z[p0], z[p1], z[p2], z[p3]);
    assert Complex(x1r - x3i, x1i + x3r) == Out1(z[p0], z[p1], z[p2], z[p3]);
    assert Complex(x0r - x2r, x0i - x2i) == Out2(z[p0], z[p1], z[p2], z[p3]);
    assert Complex(x1r + x3i, x1i - x3r) == Out3(z[p0], z[p1], z[p2], z[p3]);
    Put(a, j, x0r + x2r, x0i + x2i, z, p0);
    ghost var z0 := z[p0 := Complex(x0r + x2r, x0i + x2i)];
    Put(a, j2, x0r - x2r, x0i - x2i, z0, p2);
    ghost var z2 := z0[p2 := Complex(x0r - x2r, x0i - x2i)];
    Put(a, j1, x1r - x3i, x1i + x3r, z2, p1);
    ghost var z1 := z2[p1 := Complex(x1r - x3i, x1i + x3r)];
    Put(a, j3, x1r + x3i, x1i - x3r, z1, p3);
  }

  /** The butterfly with twiddle factors h + ih, i and -h + ih, where h is wk1r. */
  method ButterflyEighth(a: array<real>, j: nat, j1: nat, j2: nat, j3: nat, wk1r: real, ghost z: seq<Complex>,
                         ghost p0: nat, ghost p1: nat, ghost p2: nat, ghost p3: nat)
    requires Holds(a, z) && Indices4(z, j, j1, j2, j3, p0, p1, p2, p3)
    modifies a
    ensures Holds(a, Store4(z, p0, p1, p2, p3,
                            Out0(z[p0], z[p1], z[p2], z[p3]),
                            Mul(Complex(wk1r, wk1r), Out1(z[p0], z[p1], z[p2], z[p3])),
                            Rotate(Out2(z[p0], z[p1], z[p2], z[p3])),
                            Mul(Complex(-wk1r, wk1r), Out3(z[p0], z[p1], z[p2], z[p3]))))
    ensures forall i | 2 * |z| <= i < a.Length :: a[i] == old(a[i])
  {
    hide Holds, Mul, Scale;
    HoldsAt(a, z, p0);
    HoldsAt(a, z, p1);
    HoldsAt(a, z, p2);
    HoldsAt(a, z, p3);
    var x0r := a[j] + a[j1];
    var x0i := a[j + 1] + a[j1 + 1];
    var x1r := a[j] - a[j1];
    var x1i := a[j + 1] - a[j1 + 1];
    var x2r := a[j2] + a[j3];
    var x2i := a[j2 + 1] + a[j3 + 1];
    var x3r := a[j2] - a[j3];
    var x3i := a[j2 + 1] - a[j3 + 1];
    Put(a, j, x0r + x2r, x0i + x2i, z, p0);
    ghost var z0 := z[p0 := Complex(x0r + x2r, x0i + x2i)];
    Put(a, j2, x2i - x0i, x0r - x2r, z0, p2);
    ghost var z2 := z0[p2 := Complex(x2i - x0i, x0r - x2r)];
    x0r := x1r - x3i;
    x0i := x1i + x3r;
    PutScaled(a, j1, wk1r, x0r - x0i, x0r + x0i, z2, p1);
    ghost var z1 := z2[p1 := Scale(wk1r, Complex(x0r - x0i, x0r + x0i))];
    ghost var o1 := Complex(x0r, x0i);
    x0r := x3i + x1r;
    x0i := x3r - x1i;
    PutScaled(a, j3, wk1r, x0i - x0r, x0i + x0r, z1, p3);
    ghost var o3 := Complex(x0r, -x0i);
    EighthProducts(wk1r, o1, o3);
    assert o1 == Out1(z[p0], z[p1], z[p2], z[p3]) && o3 == Out3(z[p0], z[p1], z[p2], z[p3]);
  }

  lemma EighthProducts(h: real, o1: Complex, o3: Complex)
    ensures Mul(Complex(h, h), o1) == Scale(h, Complex(o1.re - o1.im, o1.re + o1.im))
    ensures Mul(Complex(-h, h), o3) == Scale(h, Complex(-o3.im - o3.re, -o3.im + o3.re))
  {
  }

  /** The butterfly with general twiddle factors wk1, wk2 and wk3. */
  method Butterfly(a: array<real>, j: nat, j1: nat, j2: nat, j3: nat,
                   wk1r: real, wk1i: real, wk2r: real, wk2i: real, wk3r: real, wk3i: real, ghost z: seq<Complex>,
                   ghost p0: nat, ghost p1: nat, ghost p2: nat, ghost p3: nat)
    requires Holds(a, z) && Indices4(z, j, j1, j2, j3, p0, p1, p2, p3)
    modifies a
    ensures Holds(a, Store4(z, p0, p1, p2, p3,
                            Out0(z[p0], z[p1], z[p2], z[p3]),
                            Mul(Complex(wk1r, wk1i), Out1(z[p0], z[p1], z[p2], z[p3])),
                            Mul(Complex(wk2r, wk2i), Out2(z[p0], z[p1], z[p2], z[p3])),
                            Mul(Complex(wk3r, wk3i), Out3(z[p0], z[p1], z[p2], z[p3]))))
    ensures forall i | 2 * |z| <= i < a.Length :: a[i] == old(a[i])
  {
    hide Holds, Mul;
    HoldsAt(a, z, p0);
    HoldsAt(a, z, p1);
    HoldsAt(a, z, p2);
    HoldsAt(a, z, p3);
    var x0r := a[j] + a[j1];
    var x0i := a[j + 1] + a[j1 + 1];
    var x1r := a[j] - a[j1];
    var x1i := a[j + 1] - a[j1 + 1];
    var x2r := a[j2] + a[j3];
    var x2i := a[j2 + 1] + a[j3 + 1];
    var x3r := a[j2] - a[j3];
    var x3i := a[j2 + 1] - a[j3 + 1];
    Put(a, j, x0r + x2r, x0i + x2i, z, p0);
    ghost var z0 := z[p0 := Complex(x0r + x2r, x0i + x2i)];
    x0r := x0r - x2r;
    x0i := x0i - x2i;
    PutProduct(a, j2, wk2r, wk2i, x0r, x0i, z0, p2);
    ghost var z2 := z0[p2 := Mul(Complex(wk2r, wk2i), Complex(x0r, x0i))];
    x0r := x1r - x3i;
    x0i := x1i + x3r;
    PutProduct(a, j1, wk1r, wk1i, x0r, x0i, z2, p1);
    ghost var z1 := z2[p1 := Mul(Complex(wk1r, wk1i), Complex(x0r, x0i))];
    x0r := x1r + x3i;
    x0i := x1i - x3r;
    PutProduct(a, j3, wk3r, wk3i, x0r, x0i, z1, p3);
  }

  /** The last butterfly of the backward transform: the conjugates of what ButterflyPlain stores. */
  method ButterflyConj(a: array<real>, j: nat, j1: nat, j2: nat, j3: nat, ghost z: seq<Complex>,
                       ghost p0: nat, ghost p1: nat, ghost p2: nat, ghost p3: nat)
    requires Holds(a, z) && Indices4(z, j, j1, j2, j3, p0, p1, p2, p3)
    modifies a
    ensures Holds(a, Store4(z, p0, p1, p2, p3,
                            Conj(Out0(z[p0], z[p1], z[p2], z[p3])), Conj(Out1(z[p0], z[p1], z[p2], z[p3])),
                            Conj(Out2(z[p0], z[p1], z[p2], z[p3])), Conj(Out3(z[p0], z[p1], z[p2], z[p3]))))
    ensures forall i | 2 * |z| <= i < a.Length :: a[i] == old(a[i])
  {
    hide Holds;
    HoldsAt(a, z, p0);
    HoldsAt(a, z, p1);
    HoldsAt(a, z, p2);
    HoldsAt(a, z, p3);
    var x0r := a[j] + a[j1];
    var x0i := -a[j + 1] - a[j1 + 1];
    var x1r := a[j] - a[j1];
    var x1i := -a[j + 1] + a[j1 + 1];
    var x2r := a[j2] + a[j3];
    var x2i := a[j2 + 1] + a[j3 + 1];
    var x3r := a[j2] - a[j3];
    var x3i := a[j2 + 1] - a[j3 + 1];
    assert Complex(x0r + x2r, x0i - x2i) == Conj(Out0(z[p0], z[p1], z[p2], z[p3]));
    assert Complex(x1r - x3i, x1i - x3r) == Conj(Out1(z[p0], z[p1], z[p2], z[p3]));
    assert Complex(x0r - x2r, x0i + x2i) == Conj(Out2(z[p0], z[p1], z[p2], z[p3]));
    assert Complex(x1r + x3i, x1i + x3r) == Conj(Out3(z[p0], z[p1], z[p2], z[p3]));
    Put(a, j, x0r + x2r, x0i - x2i, z, p0);
    ghost var z0 := z[p0 := Complex(x0r + x2r, x0i - x2i)];
    Put(a, j2, x0r - x2r, x0i + x2i, z0, p2);
    ghost var z2 := z0[p2 := Complex(x0r - x2r, x0i + x2i)];
    Put(a, j1, x1r - x3i, x1i - x3r, z2, p1);
    ghost var z1 := z2[p1 := Complex(x1r - x3i, x1i - x3r)];
    Put(a, j3, x1r + x3i, x1i + x3r, z1, p3);
  }

  /** The last, radix-2 butterfly of the forward transform. */
  method Butterfly2(a: array<real>, j: nat, j1: nat, ghost z: seq<Complex>, ghost p0: nat, ghost p1: nat)
    requires Holds(a, z) && j == 2 * p0 && j1 == 2 * p1 && p0 < p1 < |z|
    modifies a
    ensures Holds(a, z[p0 := Add(z[p0], z[p1])][p1 := Sub(z[p0], z[p1])])
    ensures forall i | 2 * |z| <= i < a.Length :: a[i] == old(a[i])
  {
    assert At(a, p0) == z[p0] && At(a, p1) == z[p1];
    var x0r := a[j] - a[j1];
    var x0i := a[j + 1] - a[j1 + 1];
    Put(a, j, a[j] + a[j1], a[j + 1] + a[j1 + 1], z, p0);
    Put(a, j1, x0r, x0i, z[p0 := Add(z[p0], z[p1])], p1);
  }

  /** The last, radix-2 butterfly of the backward transform. */
  method Butterfly2Conj(a: array<real>, j: nat, j1: nat, ghost z: seq<Complex>, ghost p0: nat, ghost p1: nat)
    requires Holds(a, z) && j == 2 * p0 && j1 == 2 * p1 && p0 < p1 < |z|
    modifies a
    ensures Holds(a, z[p0 := Conj(Add(z[p0], z[p1]))][p1 := Conj(Sub(z[p0], z[p1]))])
    ensures forall i | 2 * |z| <= i < a.Length :: a[i] == old(a[i])
  {
    assert At(a, p0) == z[p0] && At(a, p1) == z[p1];
    var x0r := a[j] - a[j1];
    var x0i := -a[j + 1] + a[j1 + 1];
    Put(a, j, a[j] + a[j1], -a[j + 1] - a[j1 + 1], z, p0);
    Put(a, j1, x0r, x0i, z[p0 := Conj(Add(z[p0], z[p1]))], p1);
  }
}
