/** The inner loops of the complex transform: one block of a radix-4 stage at a time. */
module CftBlocks {
  import opened Bits
  import opened Circle
  import opened ComplexNumbers
  import opened PowerSums
  import opened Butterflies

  /** What position p holds once blocks of length 2^e are transformed. */
  ghost function BlockValue(turn: Turns, y: seq<Complex>, K: nat, e: nat, p: nat): Complex {
    var lo := Shl(Shr(p, e), e);
    if lo <= p && lo + Pow2(e) <= |y| then PowerSum(turn, y, K, lo, lo + Pow2(e), p - lo) else ZERO
  }

  lemma BlockValueAt(turn: Turns, y: seq<Complex>, K: nat, e: nat, b: nat, p: nat)
    requires Shl(b, e) <= p < Shl(b, e) + Pow2(e) <= |y|
    ensures BlockValue(turn, y, K, e, p) == PowerSum(turn, y, K, Shl(b, e), Shl(b, e) + Pow2(e), p - Shl(b, e))
  {
    ShrInBlock(b, e, p - Shl(b, e));
  }

  /** Positions from .. to hold what they should after the stages up to block length 2^e. */
  ghost predicate Stage(turn: Turns, y: seq<Complex>, K: nat, e: nat, z: seq<Complex>, from: nat, to: nat)
    requires to <= |z|
  {
    forall p: nat | from <= p < to :: z[p] == BlockValue(turn, y, K, e, p)
  }

  /** The two differ at most at the positions from .. to. */
  ghost predicate SameOutside(z: seq<Complex>, z': seq<Complex>, from: nat, to: nat) {
    |z| == |z'| && forall p: nat | p < |z| && !(from <= p < to) :: z'[p] == z[p]
  }

  lemma SameOutsideTransitive(z0: seq<Complex>, z1: seq<Complex>, z2: seq<Complex>, from: nat, to: nat)
    requires SameOutside(z0, z1, from, to) && SameOutside(z1, z2, from, to)
    ensures SameOutside(z0, z2, from, to)
  {
  }

  lemma SameOutsideReflexive(z: seq<Complex>, from: nat, to: nat)
    ensures SameOutside(z, z, from, to)
  {
  }

  /** The value position lo + r of a finished block holds; the backward transform stores conjugates at the end. */
  ghost function Goal(turn: Turns, y: seq<Complex>, K: nat, lo: nat, hi: nat, r: nat, conj: bool): Complex
    requires lo <= hi <= |y|
  {
    if conj then Conj(PowerSum(turn, y, K, lo, hi, r)) else PowerSum(turn, y, K, lo, hi, r)
  }

  /**
   * Within the block lo .. hi, the part of length l at start has its first q positions transformed as part of the
   * whole block, and the others still as part of that part alone.
   */
  ghost predicate Part(turn: Turns, y: seq<Complex>, K: nat, z: seq<Complex>, lo: nat, hi: nat, start: nat, l: nat,
                       q: nat, conj: bool)
    requires q <= l && lo <= start && start + l <= hi <= |y| == |z|
  {
    && (forall p: nat | start <= p < start + q :: z[p] == Goal(turn, y, K, lo, hi, p - lo, conj))
    && (forall p: nat | start + q <= p < start + l :: z[p] == PowerSum(turn, y, K, start, start + l, p - start))
  }

  lemma PartReady(turn: Turns, y: seq<Complex>, K: nat, e: nat, c: nat, z: seq<Complex>, lo: nat, hi: nat, start: nat,
                  conj: bool)
    requires start == Shl(c, e) && lo <= start && start + Pow2(e) <= hi <= |y| == |z|
    requires Stage(turn, y, K, e, z, start, start + Pow2(e))
    ensures Part(turn, y, K, z, lo, hi, start, Pow2(e), 0, conj)
  {
    hide PowerSum, BlockValue;
    forall p: nat | start <= p < start + Pow2(e)
      ensures z[p] == PowerSum(turn, y, K, start, start + Pow2(e), p - start)
    {
      BlockValueAt(turn, y, K, e, c, p);
    }
  }

  lemma PartAdvance(turn: Turns, y: seq<Complex>, K: nat, z: seq<Complex>, z': seq<Complex>, lo: nat, hi: nat,
                    start: nat, l: nat, q: nat, conj: bool)
    requires q < l && lo <= start && start + l <= hi <= |y| == |z| == |z'|
    requires Part(turn, y, K, z, lo, hi, start, l, q, conj)
    requires z'[start + q] == Goal(turn, y, K, lo, hi, start + q - lo, conj)
    requires forall p: nat | start <= p < start + l && p != start + q :: z'[p] == z[p]
    ensures Part(turn, y, K, z', lo, hi, start, l, q + 1, conj)
  {
    hide Goal, PowerSum;
  }

  // ---------- radix 4 ----------

  ghost predicate Quarters(turn: Turns, y: seq<Complex>, K: nat, z: seq<Complex>, lo: nat, l: nat, q: nat, conj: bool)
    requires q <= l && lo + 4 * l <= |y| == |z|
  {
    && Part(turn, y, K, z, lo, lo + 4 * l, lo, l, q, conj)
    && Part(turn, y, K, z, lo, lo + 4 * l, lo + l, l, q, conj)
    && Part(turn, y, K, z, lo, lo + 4 * l, lo + 2 * l, l, q, conj)
    && Part(turn, y, K, z, lo, lo + 4 * l, lo + 3 * l, l, q, conj)
  }

  /** Block b of length 2^(e+2) is to be transformed: the common precondition of the inner loops of radix 4. */
  ghost predicate BlockReady(turn: Turns, y: seq<Complex>, K: nat, e: nat, b: nat, z: seq<Complex>, k: nat, l: nat) {
    && IsCircle(turn) && K >= 2 && |z| == |y| <= Pow2(K)
    && l == 2 * Pow2(e) && k == 2 * Shl(b, e + 2) && Shl(b, e + 2) + Pow2(e + 2) <= |y|
    && Stage(turn, y, K, e, z, Shl(b, e + 2), Shl(b, e + 2) + Pow2(e + 2))
  }

  /** Block b has been transformed and nothing else has changed. */
  ghost predicate BlockDone(turn: Turns, y: seq<Complex>, K: nat, e: nat, b: nat, z: seq<Complex>, z': seq<Complex>)
    requires Shl(b, e + 2) + Pow2(e + 2) <= |z|
  {
    && SameOutside(z, z', Shl(b, e + 2), Shl(b, e + 2) + Pow2(e + 2))
    && Stage(turn, y, K, e + 2, z', Shl(b, e + 2), Shl(b, e + 2) + Pow2(e + 2))
  }

  lemma StageToQuarters(turn: Turns, y: seq<Complex>, K: nat, e: nat, b: nat, z: seq<Complex>, k: nat, l: nat, conj: bool)
    requires BlockReady(turn, y, K, e, b, z, k, l)
    ensures Pow2(e + 2) == 4 * Pow2(e)
    ensures Quarters(turn, y, K, z, Shl(b, e + 2), Pow2(e), 0, conj)
  {
    hide PowerSum, BlockValue, Part, IsCircle, Shl, Pow2;
    var lo, lc := Shl(b, e + 2), Pow2(e);
    Pow2Up(e);
    var c := Shl(b, 2);
    ShlShl(b, 2, e);
    ShlNext(c, e);
    ShlNext(c + 1, e);
    ShlNext(c + 2, e);
    PartReady(turn, y, K, e, c, z, lo, lo + 4 * lc, lo, conj);
    PartReady(turn, y, K, e, c + 1, z, lo, lo + 4 * lc, lo + lc, conj);
    PartReady(turn, y, K, e, c + 2, z, lo, lo + 4 * lc, lo + 2 * lc, conj);
    PartReady(turn, y, K, e, c + 3, z, lo, lo + 4 * lc, lo + 3 * lc, conj);
  }

  lemma QuartersToStage(turn: Turns, y: seq<Complex>, K: nat, e: nat, b: nat, z: seq<Complex>)
    requires Pow2(e + 2) == 4 * Pow2(e)
    requires Shl(b, e + 2) + Pow2(e + 2) <= |y| == |z|
    requires Quarters(turn, y, K, z, Shl(b, e + 2), Pow2(e), Pow2(e), false)
    ensures Stage(turn, y, K, e + 2, z, Shl(b, e + 2), Shl(b, e + 2) + Pow2(e + 2))
  {
    hide PowerSum, BlockValue;
    var lo, lc := Shl(b, e + 2), Pow2(e);
    forall p: nat | lo <= p < lo + 4 * lc
      ensures z[p] == BlockValue(turn, y, K, e + 2, p)
    {
      BlockValueAt(turn, y, K, e + 2, b, p);
    }
  }

  /** The elements after a butterfly at offset q of the block at lo. */
  ghost function AfterButterfly(turn: Turns, y: seq<Complex>, K: nat, z: seq<Complex>, lo: nat, l: nat, q: nat, conj: bool)
    : seq<Complex>
    requires q < l && lo + 4 * l <= |y| == |z|
  {
    Store4(z, lo + q, lo + l + q, lo + 2 * l + q, lo + 3 * l + q,
           Goal(turn, y, K, lo, lo + 4 * l, q, conj), Goal(turn, y, K, lo, lo + 4 * l, q + l, conj),
           Goal(turn, y, K, lo, lo + 4 * l, q + 2 * l, conj), Goal(turn, y, K, lo, lo + 4 * l, q + 3 * l, conj))
  }

  lemma ButterflyStores(turn: Turns, y: seq<Complex>, K: nat, z: seq<Complex>, lo: nat, l: nat, q: nat, conj: bool)
    requires q < l && lo + 4 * l <= |y| == |z|
    ensures var z' := AfterButterfly(turn, y, K, z, lo, l, q, conj);
            && |z'| == |z|
            && z'[lo + q] == Goal(turn, y, K, lo, lo + 4 * l, q, conj)
            && z'[lo + l + q] == Goal(turn, y, K, lo, lo + 4 * l, q + l, conj)
            && z'[lo + 2 * l + q] == Goal(turn, y, K, lo, lo + 4 * l, q + 2 * l, conj)
            && z'[lo + 3 * l + q] == Goal(turn, y, K, lo, lo + 4 * l, q + 3 * l, conj)
            && forall p: nat | p < |z| && p != lo + q && p != lo + l + q && p != lo + 2 * l + q && p != lo + 3 * l + q ::
                 z'[p] == z[p]
  {
    hide Goal;
  }

  /** A butterfly at offset q moves every quarter on by one position. */
  lemma QuartersAdvance(turn: Turns, y: seq<Complex>, K: nat, z: seq<Complex>, lo: nat, l: nat, q: nat, conj: bool)
    requires q < l && lo + 4 * l <= |y| == |z|
    requires Quarters(turn, y, K, z, lo, l, q, conj)
    ensures |AfterButterfly(turn, y, K, z, lo, l, q, conj)| == |z|
    ensures Quarters(turn, y, K, AfterButterfly(turn, y, K, z, lo, l, q, conj), lo, l, q + 1, conj)
    ensures SameOutside(z, AfterButterfly(turn, y, K, z, lo, l, q, conj), lo, lo + 4 * l)
  {
    hide Goal, PowerSum, Part, AfterButterfly;
    ButterflyStores(turn, y, K, z, lo, l, q, conj);
    var z' := AfterButterfly(turn, y, K, z, lo, l, q, conj);
    PartAdvance(turn, y, K, z, z', lo, lo + 4 * l, lo, l, q, conj);
    PartAdvance(turn, y, K, z, z', lo, lo + 4 * l, lo + l, l, q, conj);
    PartAdvance(turn, y, K, z, z', lo, lo + 4 * l, lo + 2 * l, l, q, conj);
    PartAdvance(turn, y, K, z, z', lo, lo + 4 * l, lo + 3 * l, l, q, conj);
  }

  /** What the butterfly at offset q of block b must store, as the outputs of a butterfly on what it reads. */
  lemma BlockStep(turn: Turns, y: seq<Complex>, K: nat, e: nat, b: nat, z: seq<Complex>, lo: nat, l: nat, q: nat,
                  conj: bool)
    requires IsCircle(turn) && K >= 2 && |y| == |z| <= Pow2(K)
    requires l == Pow2(e) && lo == Shl(b, e + 2) && q < l && lo + 4 * l <= |y|
    requires Quarters(turn, y, K, z, lo, l, q, conj)
    ensures var a0, a1, a2, a3 := z[lo + q], z[lo + l + q], z[lo + 2 * l + q], z[lo + 3 * l + q];
            var w1, w2 := Twiddle(turn, K, 4 * b), Twiddle(turn, K, 2 * b);
            && PowerSum(turn, y, K, lo, lo + 4 * l, q) == Out0(a0, a1, a2, a3)
            && PowerSum(turn, y, K, lo, lo + 4 * l, q + l) == Mul(w1, Out1(a0, a1, a2, a3))
            && PowerSum(turn, y, K, lo, lo + 4 * l, q + 2 * l) == Mul(w2, Out2(a0, a1, a2, a3))
            && PowerSum(turn, y, K, lo, lo + 4 * l, q + 3 * l) == Mul(Mul(w1, w2), Out3(a0, a1, a2, a3))
  {
    hide Mul, PowerSum, Twiddle, Rotate, Add, Sub, IsCircle;
    Radix4Step(turn, y, K, e, b, lo, l, q);
  }

  ghost predicate StepReady(turn: Turns, y: seq<Complex>, K: nat, e: nat, b: nat, z: seq<Complex>, lo: nat, l: nat,
                            q: nat, conj: bool) {
    && IsCircle(turn) && K >= 2 && |y| == |z| <= Pow2(K)
    && l == Pow2(e) && lo == Shl(b, e + 2) && q < l && lo + 4 * l <= |y|
    && Quarters(turn, y, K, z, lo, l, q, conj)
  }

  lemma StepPlain(turn: Turns, y: seq<Complex>, K: nat, e: nat, b: nat, z: seq<Complex>, lo: nat, l: nat, q: nat)
    requires StepReady(turn, y, K, e, b, z, lo, l, q, false)
    requires Twiddle(turn, K, 4 * b) == Twiddle(turn, K, 2 * b) == ONE
    ensures var a0, a1, a2, a3 := z[lo + q], z[lo + l + q], z[lo + 2 * l + q], z[lo + 3 * l + q];
            AfterButterfly(turn, y, K, z, lo, l, q, false)
            == Store4(z, lo + q, lo + l + q, lo + 2 * l + q, lo + 3 * l + q,
                      Out0(a0, a1, a2, a3), Out1(a0, a1, a2, a3), Out2(a0, a1, a2, a3), Out3(a0, a1, a2, a3))
  {
    hide Mul, PowerSum, Twiddle, Out0, Out1, Out2, Out3, Quarters, Store4, IsCircle;
    BlockStep(turn, y, K, e, b, z, lo, l, q, false);
    var a0, a1, a2, a3 := z[lo + q], z[lo + l + q], z[lo + 2 * l + q], z[lo + 3 * l + q];
    MulOne(ONE);
    MulOne(Out1(a0, a1, a2, a3));
    MulOne(Out2(a0, a1, a2, a3));
    MulOne(Out3(a0, a1, a2, a3));
  }

  lemma StepConj(turn: Turns, y: seq<Complex>, K: nat, e: nat, b: nat, z: seq<Complex>, lo: nat, l: nat, q: nat)
    requires StepReady(turn, y, K, e, b, z, lo, l, q, true)
    requires Twiddle(turn, K, 4 * b) == Twiddle(turn, K, 2 * b) == ONE
    ensures var a0, a1, a2, a3 := z[lo + q], z[lo + l + q], z[lo + 2 * l + q], z[lo + 3 * l + q];
            AfterButterfly(turn, y, K, z, lo, l, q, true)
            == Store4(z, lo + q, lo + l + q, lo + 2 * l + q, lo + 3 * l + q,
                      Conj(Out0(a0, a1, a2, a3)), Conj(Out1(a0, a1, a2, a3)),
                      Conj(Out2(a0, a1, a2, a3)), Conj(Out3(a0, a1, a2, a3)))
  {
    hide Mul, PowerSum, Twiddle, Out0, Out1, Out2, Out3, Quarters, Store4, IsCircle, Conj;
    BlockStep(turn, y, K, e, b, z, lo, l, q, true);
    var a0, a1, a2, a3 := z[lo + q], z[lo + l + q], z[lo + 2 * l + q], z[lo + 3 * l + q];
    MulOne(ONE);
    MulOne(Out1(a0, a1, a2, a3));
    MulOne(Out2(a0, a1, a2, a3));
    MulOne(Out3(a0, a1, a2, a3));
  }

  lemma StepGeneral(turn: Turns, y: seq<Complex>, K: nat, e: nat, b: nat, z: seq<Complex>, lo: nat, l: nat, q: nat,
                    w1: Complex, w2: Complex, w3: Complex)
    requires StepReady(turn, y, K, e, b, z, lo, l, q, false)
    requires Twiddle(turn, K, 4 * b) == w1 && Twiddle(turn, K, 2 * b) == w2 && Mul(w1, w2) == w3
    ensures var a0, a1, a2, a3 := z[lo + q], z[lo + l + q], z[lo + 2 * l + q], z[lo + 3 * l + q];
            AfterButterfly(turn, y, K, z, lo, l, q, false)
            == Store4(z, lo + q, lo + l + q, lo + 2 * l + q, lo + 3 * l + q,
                      Out0(a0, a1, a2, a3), Mul(w1, Out1(a0, a1, a2, a3)),
                      Mul(w2, Out2(a0, a1, a2, a3)), Mul(w3, Out3(a0, a1, a2, a3)))
  {
    hide Mul, PowerSum, Twiddle, Out0, Out1, Out2, Out3, Quarters, Store4, IsCircle;
    BlockStep(turn, y, K, e, b, z, lo, l, q, false);
  }

  lemma EighthFactor(h: real)
    ensures Mul(Complex(h, h), I) == Complex(-h, h)
  {
  }

  /** The inner loop of cftmdl over the first block, and the last loop of cftfsub when it is of radix 4. */
  method BlockPlain(a: array<real>, k: nat, l: nat, ghost turn: Turns, ghost y: seq<Complex>, ghost K: nat,
                    ghost e: nat, ghost b: nat, ghost z0: seq<Complex>) returns (ghost z: seq<Complex>)
    requires Holds(a, z0) && BlockReady(turn, y, K, e, b, z0, k, l)
    requires Twiddle(turn, K, 4 * b) == Twiddle(turn, K, 2 * b) == ONE
    modifies a
    ensures |z| == |z0| && Holds(a, z) && BlockDone(turn, y, K, e, b, z0, z)
    ensures forall i | 2 * |y| <= i < a.Length :: a[i] == old(a[i])
  {
    hide Mul, PowerSum, Twiddle, Rotate, Out0, Out1, Out2, Out3, Quarters, Holds, Stage, Goal, AfterButterfly;
    hide IsCircle, SameOutside, Store4;
    HoldsAll(a, z0);
    ghost var lo, lc := Shl(b, e + 2), Pow2(e);
    StageToQuarters(turn, y, K, e, b, z0, k, l, false);
    SameOutsideReflexive(z0, lo, lo + 4 * lc);
    z := z0;
    var j := k;
    ghost var q := 0;
    while j < k + l
      invariant j == k + 2 * q && q <= lc
      invariant |z| == |y| && SameOutside(z0, z, lo, lo + 4 * lc)
      invariant Holds(a, z) && Quarters(turn, y, K, z, lo, lc, q, false)
      invariant forall i | 2 * |y| <= i < a.Length :: a[i] == old(a[i])
    {
      var j1 := j + l;
      var j2 := j1 + l;
      var j3 := j2 + l;
      StepPlain(turn, y, K, e, b, z, lo, lc, q);
      QuartersAdvance(turn, y, K, z, lo, lc, q, false);
      ButterflyPlain(a, j, j1, j2, j3, z, lo + q, lo + lc + q, lo + 2 * lc + q, lo + 3 * lc + q);
      SameOutsideTransitive(z0, z, AfterButterfly(turn, y, K, z, lo, lc, q, false), lo, lo + 4 * lc);
      z := AfterButterfly(turn, y, K, z, lo, lc, q, false);
      j := j + 2;
      q := q + 1;
    }
    QuartersToStage(turn, y, K, e, b, z);
  }

  /** The inner loop of cftmdl over the second block, whose twiddle factors are an eighth and a quarter of a turn. */
  method BlockEighth(a: array<real>, k: nat, l: nat, wk1r: real, ghost turn: Turns, ghost y: seq<Complex>, ghost K: nat,
                     ghost e: nat, ghost b: nat, ghost z0: seq<Complex>) returns (ghost z: seq<Complex>)
    requires Holds(a, z0) && BlockReady(turn, y, K, e, b, z0, k, l)
    requires Twiddle(turn, K, 4 * b) == Complex(wk1r, wk1r) && Twiddle(turn, K, 2 * b) == I
    modifies a
    ensures |z| == |z0| && Holds(a, z) && BlockDone(turn, y, K, e, b, z0, z)
    ensures forall i | 2 * |y| <= i < a.Length :: a[i] == old(a[i])
  {
    hide Mul, PowerSum, Twiddle, Rotate, Out0, Out1, Out2, Out3, Quarters, Holds, Stage, Goal, AfterButterfly;
    hide IsCircle, SameOutside, Store4;
    HoldsAll(a, z0);
    EighthFactor(wk1r);
    ghost var lo, lc := Shl(b, e + 2), Pow2(e);
    StageToQuarters(turn, y, K, e, b, z0, k, l, false);
    SameOutsideReflexive(z0, lo, lo + 4 * lc);
    z := z0;
    var j := k;
    ghost var q := 0;
    while j < l + k
      invariant j == k + 2 * q && q <= lc
      invariant |z| == |y| && SameOutside(z0, z, lo, lo + 4 * lc)
      invariant Holds(a, z) && Quarters(turn, y, K, z, lo, lc, q, false)
      invariant forall i | 2 * |y| <= i < a.Length :: a[i] == old(a[i])
    {
      var j1 := j + l;
      var j2 := j1 + l;
      var j3 := j2 + l;
      StepGeneral(turn, y, K, e, b, z, lo, lc, q, Complex(wk1r, wk1r), I, Complex(-wk1r, wk1r));
      MulI(Out2(z[lo + q], z[lo + lc + q], z[lo + 2 * lc + q], z[lo + 3 * lc + q]));
      QuartersAdvance(turn, y, K, z, lo, lc, q, false);
      ButterflyEighth(a, j, j1, j2, j3, wk1r, z, lo + q, lo + lc + q, lo + 2 * lc + q, lo + 3 * lc + q);
      SameOutsideTransitive(z0, z, AfterButterfly(turn, y, K, z, lo, lc, q, false), lo, lo + 4 * lc);
      z := AfterButterfly(turn, y, K, z, lo, lc, q, false);
      j := j + 2;
      q := q + 1;
    }
    QuartersToStage(turn, y, K, e, b, z);
  }

  /** The inner loop of cftmdl over any later block. */
  method Block(a: array<real>, k: nat, l: nat, wk1r: real, wk1i: real, wk2r: real, wk2i: real, wk3r: real, wk3i: real,
               ghost turn: Turns, ghost y: seq<Complex>, ghost K: nat, ghost e: nat, ghost b: nat, ghost z0: seq<Complex>)
    returns (ghost z: seq<Complex>)
    requires Holds(a, z0) && BlockReady(turn, y, K, e, b, z0, k, l)
    requires Twiddle(turn, K, 4 * b) == Complex(wk1r, wk1i) && Twiddle(turn, K, 2 * b) == Complex(wk2r, wk2i)
    requires Mul(Complex(wk1r, wk1i), Complex(wk2r, wk2i)) == Complex(wk3r, wk3i)
    modifies a
    ensures |z| == |z0| && Holds(a, z) && BlockDone(turn, y, K, e, b, z0, z)
    ensures forall i | 2 * |y| <= i < a.Length :: a[i] == old(a[i])
  {
    hide Mul, PowerSum, Twiddle, Rotate, Out0, Out1, Out2, Out3, Quarters, Holds, Stage, Goal, AfterButterfly;
    hide IsCircle, SameOutside, Store4;
    HoldsAll(a, z0);
    ghost var lo, lc := Shl(b, e + 2), Pow2(e);
    StageToQuarters(turn, y, K, e, b, z0, k, l, false);
    SameOutsideReflexive(z0, lo, lo + 4 * lc);
    z := z0;
    var j := k;
    ghost var q := 0;
    while j < l + k
      invariant j == k + 2 * q && q <= lc
      invariant |z| == |y| && SameOutside(z0, z, lo, lo + 4 * lc)
      invariant Holds(a, z) && Quarters(turn, y, K, z, lo, lc, q, false)
      invariant forall i | 2 * |y| <= i < a.Length :: a[i] == old(a[i])
    {
      var j1 := j + l;
      var j2 := j1 + l;
      var j3 := j2 + l;
      StepGeneral(turn, y, K, e, b, z, lo, lc, q, Complex(wk1r, wk1i), Complex(wk2r, wk2i), Complex(wk3r, wk3i));
      QuartersAdvance(turn, y, K, z, lo, lc, q, false);
      Butterfly(a, j, j1, j2, j3, wk1r, wk1i, wk2r, wk2i, wk3r, wk3i, z,
                lo + q, lo + lc + q, lo + 2 * lc + q, lo + 3 * lc + q);
      SameOutsideTransitive(z0, z, AfterButterfly(turn, y, K, z, lo, lc, q, false), lo, lo + 4 * lc);
      z := AfterButterfly(turn, y, K, z, lo, lc, q, false);
      j := j + 2;
      q := q + 1;
    }
    QuartersToStage(turn, y, K, e, b, z);
  }

  /** The last loop of cftbsub when it is of radix 4. */
  method BlockConj(a: array<real>, l: nat, ghost turn: Turns, ghost y: seq<Complex>, ghost K: nat, ghost e: nat,
                   ghost z0: seq<Complex>)
    requires Holds(a, z0) && BlockReady(turn, y, K, e, 0, z0, 0, l) && |y| == Pow2(e + 2)
    modifies a
    ensures forall p: nat | p < |y| :: At(a, p) == Conj(PowerSum(turn, y, K, 0, |y|, p))
    ensures forall i | 2 * |y| <= i < a.Length :: a[i] == old(a[i])
  {
    hide Mul, PowerSum, Twiddle, Rotate, Out0, Out1, Out2, Out3, Quarters, Stage, Conj, IsCircle, Holds, Goal;
    hide AfterButterfly, Pow2, Shl;
    HoldsAll(a, z0);
    ghost var lc := Pow2(e);
    ShlZero(e + 2);
    StageToQuarters(turn, y, K, e, 0, z0, 0, l, true);
    TwiddleZero(turn, K);
    ghost var z := z0;
    var j := 0;
    ghost var q := 0;
    while j < l
      invariant j == 2 * q && q <= lc && |z| == |y|
      invariant Holds(a, z) && Quarters(turn, y, K, z, 0, lc, q, true)
      invariant forall i | 2 * |y| <= i < a.Length :: a[i] == old(a[i])
    {
      var j1 := j + l;
      var j2 := j1 + l;
      var j3 := j2 + l;
      StepConj(turn, y, K, e, 0, z, 0, lc, q);
      QuartersAdvance(turn, y, K, z, 0, lc, q, true);
      ButterflyConj(a, j, j1, j2, j3, z, q, lc + q, 2 * lc + q, 3 * lc + q);
      z := AfterButterfly(turn, y, K, z, 0, lc, q, true);
      j := j + 2;
      q := q + 1;
    }
    QuartersDone(turn, y, K, z, lc, true);
    HoldsAll(a, z);
  }

  lemma QuartersDone(turn: Turns, y: seq<Complex>, K: nat, z: seq<Complex>, l: nat, conj: bool)
    requires |y| == |z| == 4 * l
    requires Quarters(turn, y, K, z, 0, l, l, conj)
    ensures !conj ==> forall p: nat | p < |y| :: z[p] == PowerSum(turn, y, K, 0, |y|, p)
    ensures conj ==> forall p: nat | p < |y| :: z[p] == Conj(PowerSum(turn, y, K, 0, |y|, p))
  {
    hide PowerSum, Conj;
  }

  // ---------- radix 2 ----------

  ghost predicate Halves(turn: Turns, y: seq<Complex>, K: nat, z: seq<Complex>, l: nat, q: nat, conj: bool)
    requires q <= l && 2 * l <= |y| == |z|
  {
    && Part(turn, y, K, z, 0, 2 * l, 0, l, q, conj)
    && Part(turn, y, K, z, 0, 2 * l, l, l, q, conj)
  }

  /** Two transformed halves are to be joined: the common precondition of the last loops of radix 2. */
  ghost predicate HalvesReady(turn: Turns, y: seq<Complex>, K: nat, e: nat, z: seq<Complex>, l: nat) {
    && IsCircle(turn) && K >= 1 && l == 2 * Pow2(e) && |z| == |y| == 2 * Pow2(e) <= Pow2(K)
    && Stage(turn, y, K, e, z, 0, |z|)
  }

  lemma StageToHalves(turn: Turns, y: seq<Complex>, K: nat, e: nat, z: seq<Complex>, l: nat, conj: bool)
    requires HalvesReady(turn, y, K, e, z, l)
    ensures Halves(turn, y, K, z, Pow2(e), 0, conj)
  {
    hide PowerSum, BlockValue, Part, IsCircle;
    ShlAdd(0, 0, e);
    ShlNext(0, e);
    PartReady(turn, y, K, e, 0, z, 0, 2 * Pow2(e), 0, conj);
    PartReady(turn, y, K, e, 1, z, 0, 2 * Pow2(e), Pow2(e), conj);
  }

  lemma HalvesStep(turn: Turns, y: seq<Complex>, K: nat, e: nat, z: seq<Complex>, l: nat, q: nat, conj: bool)
    requires IsCircle(turn) && K >= 1 && |y| <= Pow2(K)
    requires l == Pow2(e) && q < l && |y| == |z| == 2 * l
    requires Halves(turn, y, K, z, l, q, conj)
    ensures PowerSum(turn, y, K, 0, 2 * l, q) == Add(z[q], z[l + q])
    ensures PowerSum(turn, y, K, 0, 2 * l, q + l) == Sub(z[q], z[l + q])
  {
    hide Mul, PowerSum, Twiddle, Add, Sub, IsCircle;
    ShlAdd(0, 0, e + 1);
    Radix2Step(turn, y, K, e, 0, 0, l, q);
    TwiddleZero(turn, K);
    MulOne(Sub(z[q], z[l + q]));
  }

  ghost function AfterButterfly2(turn: Turns, y: seq<Complex>, K: nat, z: seq<Complex>, l: nat, q: nat, conj: bool)
    : seq<Complex>
    requires q < l && 2 * l <= |y| == |z|
  {
    z[q := Goal(turn, y, K, 0, 2 * l, q, conj)][l + q := Goal(turn, y, K, 0, 2 * l, q + l, conj)]
  }

  lemma HalvesAdvance(turn: Turns, y: seq<Complex>, K: nat, z: seq<Complex>, l: nat, q: nat, conj: bool)
    requires q < l && 2 * l <= |y| == |z|
    requires Halves(turn, y, K, z, l, q, conj)
    ensures Halves(turn, y, K, AfterButterfly2(turn, y, K, z, l, q, conj), l, q + 1, conj)
  {
    hide Goal, PowerSum, Part;
    var z' := AfterButterfly2(turn, y, K, z, l, q, conj);
    PartAdvance(turn, y, K, z, z', 0, 2 * l, 0, l, q, conj);
    PartAdvance(turn, y, K, z, z', 0, 2 * l, l, l, q, conj);
  }

  lemma HalvesDone(turn: Turns, y: seq<Complex>, K: nat, z: seq<Complex>, l: nat, conj: bool)
    requires |y| == |z| == 2 * l
    requires Halves(turn, y, K, z, l, l, conj)
    ensures !conj ==> forall p: nat | p < |y| :: z[p] == PowerSum(turn, y, K, 0, |y|, p)
    ensures conj ==> forall p: nat | p < |y| :: z[p] == Conj(PowerSum(turn, y, K, 0, |y|, p))
  {
    hide PowerSum, Conj;
  }

  /** The last loop of cftfsub when it is of radix 2. */
  method HalvesPlain(a: array<real>, l: nat, ghost turn: Turns, ghost y: seq<Complex>, ghost K: nat, ghost e: nat,
                     ghost z0: seq<Complex>)
    requires Holds(a, z0) && HalvesReady(turn, y, K, e, z0, l)
    modifies a
    ensures forall p: nat | p < |y| :: At(a, p) == PowerSum(turn, y, K, 0, |y|, p)
    ensures forall i | 2 * |y| <= i < a.Length :: a[i] == old(a[i])
  {
    hide PowerSum, Add, Sub, Halves;
    ghost var lc := Pow2(e);
    StageToHalves(turn, y, K, e, z0, l, false);
    ghost var z := z0;
    var j := 0;
    ghost var q := 0;
    while j < l
      invariant j == 2 * q && q <= lc && |z| == |y|
      invariant Holds(a, z) && Halves(turn, y, K, z, lc, q, false)
      invariant forall i | 2 * |y| <= i < a.Length :: a[i] == old(a[i])
    {
      var j1 := j + l;
      HalvesStep(turn, y, K, e, z, lc, q, false);
      HalvesAdvance(turn, y, K, z, lc, q, false);
      Butterfly2(a, j, j1, z, q, lc + q);
      z := AfterButterfly2(turn, y, K, z, lc, q, false);
      j := j + 2;
      q := q + 1;
    }
    HalvesDone(turn, y, K, z, lc, false);
  }

  /** The last loop of cftbsub when it is of radix 2. */
  method HalvesConj(a: array<real>, l: nat, ghost turn: Turns, ghost y: seq<Complex>, ghost K: nat, ghost e: nat,
                    ghost z0: seq<Complex>)
    requires Holds(a, z0) && HalvesReady(turn, y, K, e, z0, l)
    modifies a
    ensures forall p: nat | p < |y| :: At(a, p) == Conj(PowerSum(turn, y, K, 0, |y|, p))
    ensures forall i | 2 * |y| <= i < a.Length :: a[i] == old(a[i])
  {
    hide PowerSum, Add, Sub, Halves, Conj;
    ghost var lc := Pow2(e);
    StageToHalves(turn, y, K, e, z0, l, true);
    ghost var z := z0;
    var j := 0;
    ghost var q := 0;
    while j < l
      invariant j == 2 * q && q <= lc && |z| == |y|
      invariant Holds(a, z) && Halves(turn, y, K, z, lc, q, true)
      invariant forall i | 2 * |y| <= i < a.Length :: a[i] == old(a[i])
    {
      var j1 := j + l;
      HalvesStep(turn, y, K, e, z, lc, q, true);
      HalvesAdvance(turn, y, K, z, lc, q, true);
      Butterfly2Conj(a, j, j1, z, q, lc + q);
      z := AfterButterfly2(turn, y, K, z, lc, q, true);
      j := j + 2;
      q := q + 1;
    }
    HalvesDone(turn, y, K, z, lc, true);
  }
}
