/** WebRtc_rdft of fft4g.c: the real transform and its inverse, with the tables carried from call to call in ip and w. */
module Rdft {
  import opened Bits
  import opened Circle
  import opened ComplexNumbers
  import opened Dft
  import opened PowerSums
  import opened RealDft
  import opened RealInverse
  import opened Butterflies
  import opened BitReversal
  import opened Cft
  import opened Rft
  import opened Tables

  /**
   * s is the packed real transform of x: s[2k] and s[2k + 1] are the cosine and sine sums R[k] and I[k] for
   * 0 < k < n/2, and the two real values R[0] and R[n/2] are in s[0] and s[1].
   */
  ghost predicate IsRealDft(turn: Turns, x: seq<real>, s: seq<real>) {
    && |s| == |x| >= 2 && |x| % 2 == 0
    && RealDftAt(turn, x, 0) == Complex(s[0], 0.0)
    && RealDftAt(turn, x, |x| / 2) == Complex(s[1], 0.0)
    && forall k: nat {:trigger RealDftAt(turn, x, k)} | 0 < k < |x| / 2 ::
         RealDftAt(turn, x, k) == Complex(s[2 * k], s[2 * k + 1])
  }

  /** y is the inverse real transform of the packed values s. */
  ghost predicate IsInverseRealDft(turn: Turns, s: seq<real>, y: seq<real>) {
    && |y| == |s| >= 2
    && forall k: nat | k < |s| :: y[k] == InverseRealAt(turn, s, k)
  }

  /**
   * The state of the tables between calls: none at all (nw is 0), or both tables made for transforms of up to
   * 2^(Kw+1) reals.
   */
  ghost predicate TablesValid(turn: Turns, ip: array<nat>, w: array<real>, Kw: nat)
    reads ip, w
  {
    && ip.Length >= 2 && TableSize(ip[0], Kw)
    && (Kw >= 1 ==> ip[1] == Pow2(Kw - 1) && ip[0] + ip[1] <= w.Length && HoldsHalfCosines(turn, ip[1], w, ip[0]))
    && (Kw >= 3 ==> HoldsTwiddles(turn, Kw, w))
  }

  /** What the documentation asks of the caller: n = 2^(K+1), and work areas of the stated lengths. */
  ghost predicate ValidSizes(n: nat, a: array<real>, ip: array<nat>, w: array<real>, K: nat) {
    && n == 2 * Pow2(K) && n <= a.Length && a != w
    && 2 + Pow2(K / 2) <= ip.Length && n / 2 <= w.Length
  }

  lemma TableOrder(n: nat, nw: nat, K: nat, Kw: nat)
    requires n == 2 * Pow2(K) && TableSize(nw, Kw)
    ensures n > nw * 4 <==> (Kw == 0 || K > Kw)
    ensures TableSize(n / 4, K)
    ensures K >= 1 ==> n / 4 == Pow2(K - 1) && n / 2 == n / 4 + n / 4
  {
    if Kw >= 1 {
      assert 4 * Pow2(Kw - 1) == 2 * Pow2(Kw);
      Pow2Order(Kw, K);
    }
  }

  lemma ScratchRoom(K: nat)
    ensures K >= 1 ==> Pow2((K - 1) / 2) <= Pow2(K / 2)
    ensures K >= 4 ==> Pow2((K - 3) / 2) <= Pow2(K / 2)
  {
    if K >= 1 {
      Pow2Monotone((K - 1) / 2, K / 2);
    }
    if K >= 4 {
      Pow2Monotone((K - 3) / 2, K / 2);
    }
  }

  /** makect leaves the twiddle factors, which lie before the part it fills, alone. */
  method MakectAfter(nc: nat, ip: array<nat>, w: array<real>, nw: nat, turn: Turns, ghost K: nat)
    requires IsCircle(turn) && K >= 1 && nc == Pow2(K - 1) && ip.Length >= 2 && nw == nc && nw + nc <= w.Length
    requires K >= 3 ==> HoldsTwiddles(turn, K, w)
    modifies ip, w
    ensures ip[0] == old(ip[0]) && ip[1] == nc
    ensures HoldsHalfCosines(turn, nc, w, nw)
    ensures K >= 3 ==> HoldsTwiddles(turn, K, w)
  {
    hide IsCircle, Twiddle, HoldsHalfCosines;
    label before:
    Makect(nc, ip, w, nw, turn, K - 1);
    if K >= 3 {
      assert Pow2(K) == 2 * nw;
      forall t: nat | 4 * t < Pow2(K)
        ensures 2 * t + 1 < w.Length && At(w, t) == Twiddle(turn, K, 4 * t)
      {
        assert old@before(At(w, t)) == Twiddle(turn, K, 4 * t);
      }
    }
  }

  lemma NoCosines(turn: Turns, w: array<real>, base: nat)
    ensures HoldsHalfCosines(turn, 1, w, base)
  {
  }

  /** Tables large enough for the twiddle factors are large enough for the cosines. */
  lemma CosinesSuffice(n: nat, K: nat, Kw: nat)
    requires n == 2 * Pow2(K) && Kw >= K && Kw >= 1
    ensures n <= 4 * Pow2(Kw - 1)
  {
    Pow2Monotone(K, Kw);
  }

  /** The first part of WebRtc_rdft: makes the tables if those at hand are too small. */
  method EnsureTables(n: nat, a: array<real>, ip: array<nat>, w: array<real>, turn: Turns, ghost K: nat, ghost Kw: nat)
    returns (nw: nat, nc: nat, ghost Kw': nat)
    requires IsCircle(turn) && ValidSizes(n, a, ip, w, K) && TablesValid(turn, ip, w, Kw)
    modifies ip, w
    ensures Kw' == if Kw >= K then Kw else K
    ensures TablesValid(turn, ip, w, Kw') && nw == ip[0] && nc == ip[1]
  {
    hide IsCircle, HoldsTwiddles, HoldsHalfCosines;
    Kw' := if Kw >= K then Kw else K;
    nw := ip[0];
    TableOrder(n, nw, K, Kw);
    CosineOrder(n, K);
    ScratchRoom(K);
    if Kw >= K && Kw >= 1 {
      CosinesSuffice(n, K, Kw);
    }
    if n > nw * 4 {
      nw := n / 4;
      Makewt(nw, ip, w, turn, K);
      NoCosines(turn, w, nw);
    }
    nc := ip[1];
    if n > nc * 4 {
      nc := n / 4;
      MakectAfter(nc, ip, w, nw, turn, K);
    }
  }

  lemma CosineOrder(n: nat, K: nat)
    requires n == 2 * Pow2(K)
    ensures n > 4 <==> K >= 2
    ensures Pow2(0) == 1 && (K == 1 ==> Pow2(K - 1) == 1)
  {
    assert Pow2(1) == 2;
    Pow2Order(1, K);
  }

  ghost function Pairs(x: seq<real>): (c: seq<Complex>)
    ensures |c| == |x| / 2 && (|x| % 2 == 0 ==> IsPaired(x, c))
  {
    seq(|x| / 2, j requires 0 <= j < |x| / 2 => Complex(x[2 * j], x[2 * j + 1]))
  }

  ghost function Spectrum(turn: Turns, c: seq<Complex>): (y: seq<Complex>)
    ensures |y| == |c| && forall p: nat | p < |c| :: y[p] == DftAt(turn, c, p)
  {
    seq(|c|, p requires 0 <= p => DftAt(turn, c, p))
  }

  ghost function Reversed(c: seq<Complex>, K: nat): (y: seq<Complex>)
    requires |c| == Pow2(K)
    ensures |y| == |c| && forall p: nat | p < |c| :: Rev(K, p) < |c| && y[p] == c[Rev(K, p)]
  {
    assert forall p: nat | p < |c| :: Rev(K, p) < |c| by {
      forall p: nat | p < |c| ensures Rev(K, p) < |c| {
        RevBound(K, p);
      }
    }
    seq(|c|, p requires 0 <= p < |c| => c[Rev(K, p)])
  }

  /** What a caller may rely on between the parts of WebRtc_rdft: the tables serve 2^(K+1) reals. */
  ghost predicate Ready(turn: Turns, n: nat, a: array<real>, ip: array<nat>, w: array<real>, K: nat, Kw: nat)
    reads ip, w
  {
    IsCircle(turn) && ValidSizes(n, a, ip, w, K) && TablesValid(turn, ip, w, Kw) && Kw >= K
  }

  lemma ReadyForCft(turn: Turns, n: nat, a: array<real>, ip: array<nat>, w: array<real>, K: nat, Kw: nat)
    requires Ready(turn, n, a, ip, w, K, Kw) && K >= 1
    ensures CftContext(turn, K, n, w)
    ensures 2 + Pow2((K - 1) / 2) <= ip.Length
  {
    ScratchRoom(K);
    if K >= 3 {
      SmallerTable(turn, K, Kw, w);
    }
  }

  lemma ReadyForPass(turn: Turns, n: nat, a: array<real>, ip: array<nat>, w: array<real>, K: nat, Kw: nat, y: seq<Complex>)
    requires Ready(turn, n, a, ip, w, K, Kw) && K >= 2 && |y| == Pow2(K)
    ensures PassContext(turn, K, Kw - 1, n, ip[1], w, ip[0], y)
  {
  }

  lemma HoldsPairs(a: array<real>, n: nat)
    requires n <= a.Length && n % 2 == 0
    ensures Holds(a, Pairs(a[..n]))
  {
    var c := Pairs(a[..n]);
    forall p: nat | p < |c| ensures At(a, p) == c[p] {
    }
  }

  lemma HoldsFrom(a: array<real>, z: seq<Complex>)
    requires 2 * |z| <= a.Length && forall p: nat | p < |z| :: At(a, p) == z[p]
    ensures Holds(a, z)
  {
  }

  /** bitrv2 followed by cftfsub leaves the complex transform. */
  method ComplexForward(n: nat, a: array<real>, ip: array<nat>, w: array<real>, ghost turn: Turns, ghost K: nat,
                        ghost Kw: nat, ghost c: seq<Complex>)
    requires Ready(turn, n, a, ip, w, K, Kw) && K >= 1 && |c| == Pow2(K) && Holds(a, c)
    modifies a, ip
    ensures Holds(a, Spectrum(turn, c)) && Ready(turn, n, a, ip, w, K, Kw)
    ensures ip[0] == old(ip[0]) && ip[1] == old(ip[1])
    ensures forall i | n <= i < a.Length :: a[i] == old(a[i])
  {
    hide Holds, DftAt, PowerSum, IsCircle, HoldsTwiddles, HoldsHalfCosines, TableSize, At, Rev;
    ReadyForCft(turn, n, a, ip, w, K, Kw);
    HoldsAll(a, c);
    ghost var y := Reversed(c, K);
    Bitrv2(n, ip, 2, a, K, c);
    HoldsFrom(a, y);
    Cftfsub(n, a, w, turn, y, K);
    forall p: nat | p < |c| ensures At(a, p) == DftAt(turn, c, p) {
      PowerSumIsDft(turn, c, y, K, p);
    }
    HoldsFrom(a, Spectrum(turn, c));
  }

  /** bitrv2 followed by cftbsub leaves the conjugate of the complex transform. */
  method ComplexBackward(n: nat, a: array<real>, ip: array<nat>, w: array<real>, ghost turn: Turns, ghost K: nat,
                         ghost Kw: nat, ghost c: seq<Complex>)
    requires Ready(turn, n, a, ip, w, K, Kw) && K >= 1 && |c| == Pow2(K) && Holds(a, c)
    modifies a, ip
    ensures Ready(turn, n, a, ip, w, K, Kw)
    ensures ip[0] == old(ip[0]) && ip[1] == old(ip[1])
    ensures 2 * |c| <= a.Length && forall p: nat | p < |c| :: At(a, p) == Conj(DftAt(turn, c, p))
    ensures forall i | n <= i < a.Length :: a[i] == old(a[i])
  {
    hide Holds, DftAt, PowerSum, IsCircle, HoldsTwiddles, HoldsHalfCosines, TableSize, At, Rev, Conj;
    ReadyForCft(turn, n, a, ip, w, K, Kw);
    HoldsAll(a, c);
    ghost var y := Reversed(c, K);
    Bitrv2(n, ip, 2, a, K, c);
    HoldsFrom(a, y);
    Cftbsub(n, a, w, turn, y, K);
    forall p: nat | p < |c| ensures At(a, p) == Conj(DftAt(turn, c, p)) {
      PowerSumIsDft(turn, c, y, K, p);
    }
  }

  /** Two elements are in bit-reversed order as they are, so that n = 4 needs no permutation. */
  method ComplexOfTwo(a: array<real>, ip: array<nat>, w: array<real>, ghost turn: Turns, ghost Kw: nat,
                      ghost c: seq<Complex>)
    requires Ready(turn, 4, a, ip, w, 1, Kw) && |c| == 2 && Holds(a, c)
    modifies a
    ensures Holds(a, Spectrum(turn, c))
    ensures forall i | 4 <= i < a.Length :: a[i] == old(a[i])
  {
    hide Holds, DftAt, PowerSum, IsCircle, HoldsTwiddles, HoldsHalfCosines, TableSize, At;
    ReadyForCft(turn, 4, a, ip, w, 1, Kw);
    HoldsAll(a, c);
    SmallReversals();
    Cftfsub(4, a, w, turn, c, 1);
    forall p: nat | p < |c| ensures At(a, p) == DftAt(turn, c, p) {
      PowerSumIsDft(turn, c, c, 1, p);
    }
    HoldsFrom(a, Spectrum(turn, c));
  }

  lemma HoldsReals(a: array<real>, z: seq<Complex>, n: nat)
    requires Holds(a, z) && n == 2 * |z|
    ensures n <= a.Length
    ensures forall p: nat | p < |z| :: z[p] == Complex(a[..n][2 * p], a[..n][2 * p + 1])
  {
    forall p: nat | p < |z| ensures z[p] == Complex(a[..n][2 * p], a[..n][2 * p + 1]) {
      HoldsAt(a, z, p);
    }
  }

  /** The first N complex elements of the array. */
  ghost function Elements(a: array<real>, N: nat): (z: seq<Complex>)
    requires 2 * N <= a.Length
    reads a
    ensures |z| == N && Holds(a, z) && forall p: nat | p < N :: z[p] == At(a, p)
  {
    Pairs(a[..2 * N])
  }

  // ---------- forward ----------

  /** The elements before the last three lines of the forward branch: element 0 is not separated yet. */
  ghost predicate ForwardElements(turn: Turns, x: seq<real>, c: seq<Complex>, z: seq<Complex>) {
    && |z| == |c| > 0
    && z[0] == DftAt(turn, c, 0)
    && forall p: nat | 0 < p < |z| :: z[p] == RealDftAt(turn, x, p)
  }

  lemma AfterPass(turn: Turns, x: seq<real>, c: seq<Complex>, z: seq<Complex>, K: nat)
    requires IsCircle(turn) && IsPaired(x, c) && |c| == |z| == Pow2(K)
    requires z[0] == DftAt(turn, c, 0)
    requires forall p: nat | 0 < p < |z| :: z[p] == ForwardAt(turn, K, Spectrum(turn, c), p)
    ensures ForwardElements(turn, x, c, z)
  {
    hide DftAt, RealDftAt, IsCircle, ForwardAt;
    forall p: nat | 0 < p < |z| ensures z[p] == RealDftAt(turn, x, p) {
      ForwardIsReal(turn, x, c, Spectrum(turn, c), K, p);
    }
  }

  lemma WithoutPass(turn: Turns, x: seq<real>, c: seq<Complex>, K: nat)
    requires IsCircle(turn) && IsPaired(x, c) && |c| == Pow2(K) && K <= 1
    ensures ForwardElements(turn, x, c, Spectrum(turn, c))
  {
    hide DftAt, RealDftAt, IsCircle, Mul, PassFactor;
    var y := Spectrum(turn, c);
    if K == 1 {
      assert Pow2(1) == 2 && Pow2(0) == 1;
      ForwardIsReal(turn, x, c, y, K, 1);
      MiddleFactor(turn, K);
      MulNothing(Sub(y[1], Conj(y[1])));
    }
  }

  lemma SpectrumOfOne(turn: Turns, c: seq<Complex>)
    requires IsCircle(turn) && |c| == 1
    ensures Spectrum(turn, c) == c
  {
    hide IsCircle;
    TurnZero(turn, 1);
    MulOne(c[0]);
    assert DftAt(turn, c, 0) == Add(Sum(DftTerm(turn, c, 1, 0), 0), DftTerm(turn, c, 1, 0)(0));
    assert DftTerm(turn, c, 1, 0)(0) == Mul(c[0], turn(0, 1));
  }

  lemma ForwardFinished(turn: Turns, x: seq<real>, c: seq<Complex>, z: seq<Complex>, s: seq<real>, K: nat)
    requires IsCircle(turn) && IsPaired(x, c) && |c| == Pow2(K) && ForwardElements(turn, x, c, z)
    requires |s| == |x| && s[0] == z[0].re + z[0].im && s[1] == z[0].re - z[0].im
    requires forall p: nat | 0 < p < |z| :: z[p] == Complex(s[2 * p], s[2 * p + 1])
    ensures IsRealDft(turn, x, s)
  {
    hide DftAt, RealDftAt, IsCircle;
    EndsAreReal(turn, x, c, K);
  }

  /** The forward branch of WebRtc_rdft. */
  method Forward(n: nat, a: array<real>, ip: array<nat>, w: array<real>, nw: nat, nc: nat, ghost turn: Turns, ghost K: nat,
                 ghost Kw: nat)
    requires Ready(turn, n, a, ip, w, K, Kw) && nw == ip[0] && nc == ip[1]
    modifies a, ip
    ensures IsRealDft(turn, old(a[..n]), a[..n]) && TablesValid(turn, ip, w, Kw)
    ensures forall i | n <= i < a.Length :: a[i] == old(a[i])
  {
    hide Holds, DftAt, RealDftAt, IsCircle, HoldsTwiddles, HoldsHalfCosines, TableSize, At, IsRealDft, ForwardElements;
    hide ForwardAt;
    ghost var x := a[..n];
    ghost var c := Pairs(x);
    ghost var z;
    HoldsPairs(a, n);
    CosineOrder(n, K);
    if n > 4 {
      ComplexForward(n, a, ip, w, turn, K, Kw, c);
      z := Spectrum(turn, c);
      ReadyForPass(turn, n, a, ip, w, K, Kw, z);
      Rftfsub(n, a, nc, w, nw, turn, K, Kw - 1, z);
      z := Elements(a, |c|);
      AfterPass(turn, x, c, z, K);
    } else if n == 4 {
      ComplexOfTwo(a, ip, w, turn, Kw, c);
      z := Spectrum(turn, c);
      WithoutPass(turn, x, c, K);
    } else {
      z := c;
      SpectrumOfOne(turn, c);
      WithoutPass(turn, x, c, K);
    }
    HoldsAt(a, z, 0);
    var xi := a[0] - a[1];
    Put(a, 0, a[0] + a[1], xi, z, 0);
    HoldsReals(a, z[0 := Complex(z[0].re + z[0].im, xi)], n);
    ForwardFinished(turn, x, c, z, a[..n], K);
  }

  // ---------- backward ----------

  ghost function Unpacked(s: seq<real>): (z: seq<Complex>)
    requires |s| >= 2 && |s| % 2 == 0
    ensures IsUnpacked(s, z)
  {
    seq(|s| / 2, p requires 0 <= p < |s| / 2 =>
      if p == 0 then Complex(0.5 * (s[0] + s[1]), 0.5 * (s[0] - s[1])) else Complex(s[2 * p], s[2 * p + 1]))
  }

  /** The elements rftbsub leaves, whether or not it is called. */
  ghost function Backed(turn: Turns, K: nat, z: seq<Complex>): (u: seq<Complex>)
    requires |z| == Pow2(K)
    ensures IsBackward(turn, K, z, u)
  {
    seq(|z|, p requires 0 <= p < |z| => if p == 0 then Conj(z[0]) else BackwardAt(turn, K, z, p))
  }

  /** For n = 4 the source leaves out two conjugations, which is right because the factors are real. */
  lemma WithoutConjugation(turn: Turns, z: seq<Complex>, r: nat)
    requires IsCircle(turn) && |z| == Pow2(1) && r < 2
    ensures Conj(DftAt(turn, Backed(turn, 1, z), r)) == DftAt(turn, z, r)
  {
    hide Mul, Sum, IsCircle, PassFactor;
    var u := Backed(turn, 1, z);
    assert u[1] == Conj(z[1]) by {
      MiddleFactor(turn, 1);
      assert Pow2(0) == 1;
      MulNothing(Sub(z[1], Conj(z[1])));
    }
    forall j: nat | j < 2
      ensures DftTerm(turn, z, 2, r)(j) == Conj(DftTerm(turn, u, 2, r)(j))
    {
      RealFactor(turn, r, j);
      ConjMul(u[j], turn(r * j, 2));
    }
    SumConj(DftTerm(turn, u, 2, r), DftTerm(turn, z, 2, r), 2);
  }

  lemma RealFactor(turn: Turns, r: nat, j: nat)
    requires IsCircle(turn) && r < 2 && j < 2
    ensures Conj(turn(r * j, 2)) == turn(r * j, 2)
  {
    hide IsCircle;
    TurnZero(turn, 2);
    BasicTurns(turn);
    if r == 0 || j == 0 {
      assert r * j == 0;
    } else {
      assert r * j == 1;
    }
  }

  lemma BackwardFinished(turn: Turns, s: seq<real>, y: seq<real>, K: nat)
    requires IsCircle(turn) && |s| == |y| == 2 * Pow2(K)
    requires forall j: nat | j < Pow2(K) ::
               Complex(y[2 * j], y[2 * j + 1]) == Conj(DftAt(turn, Backed(turn, K, Unpacked(s)), j))
    ensures IsInverseRealDft(turn, s, y)
  {
    hide DftAt, IsCircle, InverseRealAt, Conj;
    var z := Unpacked(s);
    forall k: nat | k < |s| ensures y[k] == InverseRealAt(turn, s, k) {
      BackwardIsInverse(turn, s, z, Backed(turn, K, z), K, k / 2);
      assert k == 2 * (k / 2) || k == 2 * (k / 2) + 1;
    }
  }

  /** The backward branch of WebRtc_rdft. */
  method Backward(n: nat, a: array<real>, ip: array<nat>, w: array<real>, nw: nat, nc: nat, ghost turn: Turns,
                  ghost K: nat, ghost Kw: nat)
    requires Ready(turn, n, a, ip, w, K, Kw) && nw == ip[0] && nc == ip[1]
    modifies a, ip
    ensures IsInverseRealDft(turn, old(a[..n]), a[..n]) && TablesValid(turn, ip, w, Kw)
    ensures forall i | n <= i < a.Length :: a[i] == old(a[i])
  {
    hide Holds, DftAt, IsCircle, HoldsTwiddles, HoldsHalfCosines, TableSize, At, IsInverseRealDft, BackwardAt, Conj,
         Pow2;
    ghost var s := a[..n];
    ghost var z := Unpacked(s);
    ghost var u := Backed(turn, K, z);
    HoldsPairs(a, n);
    CosineOrder(n, K);
    var half := 0.5 * (a[0] - a[1]);
    Put(a, 0, a[0] - half, half, Pairs(s), 0);
    assert Pairs(s)[0 := Complex(s[0] - half, half)] == z;
    if n > 4 {
      ReadyForPass(turn, n, a, ip, w, K, Kw, z);
      Rftbsub(n, a, nc, w, nw, turn, K, Kw - 1, z);
      HoldsFrom(a, u);
      ComplexBackward(n, a, ip, w, turn, K, Kw, u);
    } else if n == 4 {
      ComplexOfTwo(a, ip, w, turn, Kw, z);
      HoldsAll(a, Spectrum(turn, z));
      WithoutConjugation(turn, z, 0);
      WithoutConjugation(turn, z, 1);
    } else {
      HoldsAll(a, z);
      SpectrumOfOne(turn, u);
      ConjTwice(z[0]);
    }
    Finish(turn, s, a, n, K);
  }

  lemma ConjTwice(x: Complex)
    ensures Conj(Conj(x)) == x
  {
  }

  lemma Finish(turn: Turns, s: seq<real>, a: array<real>, n: nat, K: nat)
    requires IsCircle(turn) && |s| == n == 2 * Pow2(K) && n <= a.Length
    requires forall j: nat | j < Pow2(K) :: At(a, j) == Conj(DftAt(turn, Backed(turn, K, Unpacked(s)), j))
    ensures IsInverseRealDft(turn, s, a[..n])
  {
    hide DftAt, IsCircle, IsInverseRealDft, Conj;
    forall j: nat | j < Pow2(K)
      ensures Complex(a[..n][2 * j], a[..n][2 * j + 1]) == Conj(DftAt(turn, Backed(turn, K, Unpacked(s)), j))
    {
      assert At(a, j) == Complex(a[2 * j], a[2 * j + 1]);
    }
    BackwardFinished(turn, s, a[..n], K);
  }

  // ---------- both ----------

  /**
   * WebRtc_rdft: the documented transform for isgn >= 0 and its documented inverse for isgn < 0, whatever tables earlier
   * calls have left behind.
   */
  method Rdft(n: nat, isgn: int, a: array<real>, ip: array<nat>, w: array<real>, turn: Turns, ghost K: nat, ghost Kw: nat)
    returns (ghost Kw': nat)
    requires IsCircle(turn) && ValidSizes(n, a, ip, w, K) && TablesValid(turn, ip, w, Kw)
    modifies a, ip, w
    ensures isgn >= 0 ==> IsRealDft(turn, old(a[..n]), a[..n])
    ensures isgn < 0 ==> IsInverseRealDft(turn, old(a[..n]), a[..n])
    ensures forall i | n <= i < a.Length :: a[i] == old(a[i])
    ensures TablesValid(turn, ip, w, Kw')
  {
    hide IsCircle, TablesValid, IsRealDft, IsInverseRealDft;
    var nw, nc;
    nw, nc, Kw' := EnsureTables(n, a, ip, w, turn, K, Kw);
    if isgn >= 0 {
      Forward(n, a, ip, w, nw, nc, turn, K, Kw');
    } else {
      Backward(n, a, ip, w, nw, nc, turn, K, Kw');
    }
  }

  /** Freshly declared work areas, with ip[0] set to 0, are a valid state of the tables. */
  lemma NoTables(turn: Turns, ip: array<nat>, w: array<real>)
    requires ip.Length >= 2 && ip[0] == 0
    ensures TablesValid(turn, ip, w, 0)
  {
  }

  /** The inverse transform of the transform of x is n/2 times x, for every power of two n >= 2. */
  lemma RoundTrip(turn: Turns, x: seq<real>, s: seq<real>, y: seq<real>, K: nat)
    requires IsCircle(turn) && |x| == 2 * Pow2(K)
    requires IsRealDft(turn, x, s) && IsInverseRealDft(turn, s, y)
    ensures |y| == |x|
    ensures forall k: nat | k < |x| :: y[k] == (Pow2(K) as real) * x[k]
  {
    hide DftAt, RealDftAt, IsCircle, InverseRealAt, Conj, ForwardAt, BackwardAt;
    var c, z := Pairs(x), Unpacked(s);
    var u := Backed(turn, K, z);
    SpectrumRecovered(turn, x, s, K);
    forall k: nat | k < |x| ensures y[k] == (Pow2(K) as real) * x[k] {
      var j := k / 2;
      DftInverse(turn, c, u, K, j);
      BackwardIsInverse(turn, s, z, u, K, j);
      assert k == 2 * j || k == 2 * j + 1;
    }
  }

  /** Unpacking the real transform of x and undoing the pass gives back the conjugate of the complex transform. */
  lemma SpectrumRecovered(turn: Turns, x: seq<real>, s: seq<real>, K: nat)
    requires IsCircle(turn) && |x| == 2 * Pow2(K) && IsRealDft(turn, x, s)
    ensures forall p: nat | p < Pow2(K) :: Backed(turn, K, Unpacked(s))[p] == Conj(DftAt(turn, Pairs(x), p))
  {
    hide DftAt, RealDftAt, IsCircle, ForwardAt, BackwardAt;
    var c, z := Pairs(x), Unpacked(s);
    var N, y := |c|, Spectrum(turn, c);
    EndsAreReal(turn, x, c, K);
    assert z[0] == DftAt(turn, c, 0);
    forall p: nat | 0 < p < N ensures z[p] == ForwardAt(turn, K, y, p) {
      ForwardIsReal(turn, x, c, y, K, p);
    }
    forall p: nat | p < N ensures Backed(turn, K, z)[p] == Conj(DftAt(turn, c, p)) {
      if p > 0 {
        PassesUndo(turn, K, y, z, p);
      }
    }
  }

  /** The remark in the documentation: after both calls every value is n/2 times what it was. */
  method ThereAndBack(n: nat, a: array<real>, ip: array<nat>, w: array<real>, turn: Turns, ghost K: nat, ghost Kw: nat)
    requires IsCircle(turn) && ValidSizes(n, a, ip, w, K) && TablesValid(turn, ip, w, Kw)
    modifies a, ip, w
    ensures forall k: nat | k < n :: a[k] == (Pow2(K) as real) * old(a[k])
    ensures forall i | n <= i < a.Length :: a[i] == old(a[i])
  {
    hide IsCircle, TablesValid, IsRealDft, IsInverseRealDft, Pow2;
    ghost var x := a[..n];
    ghost var Kw' := Rdft(n, 1, a, ip, w, turn, K, Kw);
    ghost var s := a[..n];
    Kw' := Rdft(n, -1, a, ip, w, turn, K, Kw');
    RoundTrip(turn, x, s, a[..n], K);
    forall k: nat | k < n ensures a[k] == (Pow2(K) as real) * old(a[k]) {
      assert a[..n][k] == (Pow2(K) as real) * x[k];
    }
  }
}
