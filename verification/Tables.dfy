/**
 * The tables of fft4g.c: makewt fills w with twiddle factors and makect fills c with halved cosines. The cosines and
 * sines themselves are those of a `Turns` value: delta * j in the source is the fraction j / (8 nwh) of a turn.
 */
module Tables {
  import opened Bits
  import opened Circle
  import opened ComplexNumbers
  import opened PowerSums
  import opened Butterflies
  import opened BitReversal
  import opened Cft
  import opened Rft

  /** The fraction u / 2^K of a turn, u < 2^(K-2): the table before it is put in bit-reversed order. */
  ghost function Unordered(turn: Turns, K: nat): (y: seq<Complex>)
    requires K >= 2
    ensures |y| == Pow2(K - 2)
  {
    seq(Pow2(K - 2), u requires 0 <= u => turn(u, Pow2(K)))
  }

  /** Entry u, from position p on and up to position N - p, is not filled yet. */
  ghost predicate Filled(turn: Turns, K: nat, z: seq<Complex>, p: nat) {
    && K >= 3 && |z| == Pow2(K - 2) && 1 <= p && 2 * p <= |z|
    && z[|z| / 2] == turn(|z| / 2, Pow2(K))
    && z[0] == turn(0, Pow2(K))
    && forall u: nat | 0 < u < |z| && (u < p || u + p > |z|) :: z[u] == turn(u, Pow2(K))
  }

  lemma FilledStep(turn: Turns, K: nat, z: seq<Complex>, p: nat, x: real, y: real)
    requires IsCircle(turn) && Filled(turn, K, z, p) && 2 * p < |z|
    requires turn(p, Pow2(K)) == Complex(x, y)
    ensures 2 * p + 2 <= |z|
    ensures Filled(turn, K, z[p := Complex(x, y)][|z| - p := Complex(y, x)], p + 1)
  {
    hide IsCircle, Pow2;
    QuarterMirror(turn, K - 2, p);
    EvenSize(K, |z|, p);
  }

  lemma EvenSize(K: nat, N: nat, p: nat)
    requires K >= 3 && N == Pow2(K - 2) && 1 <= p && 2 * p < N
    ensures 2 * p + 2 <= N
  {
  }

  lemma FilledEnd(turn: Turns, K: nat, z: seq<Complex>, p: nat)
    requires Filled(turn, K, z, p) && 2 * p == |z|
    ensures z == Unordered(turn, K)
  {
    forall u: nat | u < |z| ensures z[u] == turn(u, Pow2(K)) {
      if u == p {
        assert |z| / 2 == p;
      }
    }
  }

  /** In bit-reversed order the table holds the factors of every fourth block. */
  lemma {:induction false} ReversedTable(turn: Turns, K: nat, w: array<real>, z: seq<Complex>)
    requires IsCircle(turn) && K >= 3 && z == Unordered(turn, K) && 2 * |z| <= w.Length
    requires forall p: nat | p < |z| :: Rev(K - 2, p) < |z| && At(w, p) == z[Rev(K - 2, p)]
    ensures HoldsTwiddles(turn, K, w)
  {
    hide Rev, IsCircle, Pow2;
    Pow2Up(K - 2);
    forall t: nat | 4 * t < Pow2(K)
      ensures 2 * t + 1 < w.Length && At(w, t) == Twiddle(turn, K, 4 * t)
    {
      FourthReversed(K, t);
      assert At(w, t) == z[Rev(K - 2, t)];
    }
  }

  lemma {:induction false} FourthReversed(K: nat, t: nat)
    requires K >= 2
    ensures Rev(K, 4 * t) == Rev(K - 2, t)
  {
    ReversedNeighbours(K, 2 * t);
    ReversedNeighbours(K - 1, t);
    assert 2 * (2 * t) == 4 * t;
  }

  /** The eighth of a turn stored in the middle: its sine is its cosine. */
  lemma {:induction false} MiddleEntry(turn: Turns, K: nat)
    requires IsCircle(turn) && K >= 3
    ensures var t := turn(Pow2(K - 3), Pow2(K)); t.re == t.im
    ensures turn(Pow2(K - 3), Pow2(K)) == turn(1, 8)
  {
    hide IsCircle;
    TurnScale(turn, 1, 8, K - 3);
    ShlPow2(0, K - 3);
    ShlPow2(3, K - 3);
    assert Pow2(3) == 8;
    TurnAdd(turn, 1, 1, 8);
    TurnHalf(turn, 1, 4);
    BasicTurns(turn);
    SquareRootOfI(turn(1, 8));
  }

  /** A table made for a large transform serves every smaller one. */
  lemma {:induction false} SmallerTable(turn: Turns, K: nat, K': nat, w: array<real>)
    requires IsCircle(turn) && K <= K' && HoldsTwiddles(turn, K', w)
    ensures HoldsTwiddles(turn, K, w)
  {
    hide IsCircle, Twiddle, Pow2;
    Pow2Monotone(K, K');
    forall t: nat | 4 * t < Pow2(K)
      ensures 2 * t + 1 < w.Length && At(w, t) == Twiddle(turn, K, 4 * t)
    {
      TwiddleWiden(turn, K, K' - K, 4 * t);
    }
  }

  /** The factor of a block is the same in a larger transform. */
  lemma TwiddleWiden(turn: Turns, K: nat, d: nat, s: nat)
    requires IsCircle(turn) && s < Pow2(K)
    ensures Twiddle(turn, K + d, s) == Twiddle(turn, K, s)
  {
    hide IsCircle, Rev, Shl, Pow2;
    RevWiden(K, d, s);
    ShlPow2(K, d);
    TurnScale(turn, Rev(K, s), Pow2(K), d);
  }

  /** The number of bits of the table size nw: the source's tables have power-of-two sizes only. */
  ghost predicate TableSize(nw: nat, K: nat) {
    nw == if K >= 1 then Pow2(K - 1) else 0
  }

  /** makewt: the twiddle factors for transforms of up to n = 4 nw reals, 2^K = 2 nw complex elements. */
  method Makewt(nw: nat, ip: array<nat>, w: array<real>, turn: Turns, ghost K: nat)
    requires IsCircle(turn) && TableSize(nw, K)
    requires ip.Length >= 2 && nw <= w.Length
    requires K >= 4 ==> 2 + Pow2((K - 3) / 2) <= ip.Length
    modifies ip, w
    ensures ip[0] == nw && ip[1] == 1
    ensures K >= 3 ==> HoldsTwiddles(turn, K, w)
    ensures forall i | nw <= i < w.Length :: w[i] == old(w[i])
  {
    hide IsCircle, Rev, Twiddle, Mul, HoldsTwiddles, Pow2;
    ip[0] := nw;
    ip[1] := 1;
    WhichSize(nw, K);
    if nw > 2 {
      var nwh := nw / 2;
      ghost var z := FillTable(nw, nwh, w, turn, K);
      if nwh > 2 {
        Bitrv2(nw, ip, 2, w, K - 2, z);
      } else {
        TwoEntries(w, z, K);
      }
      ReversedTable(turn, K, w, z);
    }
  }

  lemma WhichSize(nw: nat, K: nat)
    requires TableSize(nw, K)
    ensures nw > 2 <==> K >= 3
    ensures nw > 4 <==> K >= 4
    ensures K >= 3 ==> nw == 4 * Pow2(K - 3) && nw == 2 * Pow2(K - 2)
  {
    assert Pow2(0) == 1 && Pow2(1) == 2 && Pow2(2) == 4;
    if K >= 1 {
      Pow2Order(1, K - 1);
      Pow2Order(2, K - 1);
    }
    if K >= 3 {
      assert Pow2(K - 1) == 2 * Pow2(K - 2) && Pow2(K - 2) == 2 * Pow2(K - 3);
    }
  }

  /** A table of two entries is in bit-reversed order as it is. */
  lemma TwoEntries(w: array<real>, z: seq<Complex>, K: nat)
    requires K == 3 && Holds(w, z) && |z| == Pow2(K - 2)
    ensures forall p: nat | p < |z| :: Rev(K - 2, p) < |z| && At(w, p) == z[Rev(K - 2, p)]
  {
    SmallReversals();
  }

  /** The loop of makewt, which fills the table from both ends towards the middle. */
  method FillTable(nw: nat, nwh: nat, w: array<real>, turn: Turns, ghost K: nat) returns (ghost z: seq<Complex>)
    requires IsCircle(turn) && K >= 3 && nw == 4 * Pow2(K - 3) && nw == 2 * Pow2(K - 2) && nwh == nw / 2 && nw <= w.Length
    modifies w
    ensures z == Unordered(turn, K) && Holds(w, z)
    ensures forall i | nw <= i < w.Length :: w[i] == old(w[i])
  {
    hide IsCircle, Filled, Holds;
    w[0] := 1.0;
    w[1] := 0.0;
    w[nwh] := turn(nwh, 8 * nwh).re;
    w[nwh + 1] := w[nwh];
    z := Start(turn, K, nw, nwh, w);
    var j := 2;
    ghost var p := 1;
    while j < nwh
      invariant j == 2 * p && 2 * p <= |z| && |z| == nwh
      invariant Holds(w, z) && Filled(turn, K, z, p)
      invariant forall i | nw <= i < w.Length :: w[i] == old(w[i])
    {
      var x := turn(j, 8 * nwh).re;
      var y := turn(j, 8 * nwh).im;
      TurnHalf(turn, p, 4 * nwh);
      AngleUnit(K, nwh);
      FilledStep(turn, K, z, p, x, y);
      Put(w, j, x, y, z, p);
      Put(w, nw - j, y, x, z[p := Complex(x, y)], |z| - p);
      z := z[p := Complex(x, y)][|z| - p := Complex(y, x)];
      j := j + 2;
      p := p + 1;
    }
    FilledEnd(turn, K, z, p);
  }

  lemma AngleUnit(K: nat, nwh: nat)
    requires K >= 3 && nwh == Pow2(K - 2)
    ensures 4 * nwh == Pow2(K)
  {
    assert Pow2(K) == 2 * Pow2(K - 1) && Pow2(K - 1) == 2 * Pow2(K - 2);
  }

  /** The array with its first and its middle entry set, as complex elements. */
  lemma {:induction false} Start(turn: Turns, K: nat, nw: nat, nwh: nat, w: array<real>) returns (z: seq<Complex>)
    requires IsCircle(turn) && K >= 3 && nw == 4 * Pow2(K - 3) && nw == 2 * Pow2(K - 2) && nwh == nw / 2 && nw <= w.Length
    requires w[0] == 1.0 && w[1] == 0.0
    requires w[nwh] == w[nwh + 1] == turn(nwh, 8 * nwh).re
    ensures Holds(w, z) && |z| == nwh && Filled(turn, K, z, 1)
  {
    hide IsCircle;
    var s := w[..];
    z := seq(nwh, p requires 0 <= p < nwh => Complex(s[2 * p], s[2 * p + 1]));
    AngleUnit(K, nwh);
    TurnZero(turn, Pow2(K));
    MiddleEntry(turn, K);
    TurnHalf(turn, nwh / 2, 4 * nwh);
    assert 2 * (nwh / 2) == nwh;
  }

  /** Entry k holds half a cosine: what the loop of makect stores below j and, mirrored, above nc - j. */
  ghost predicate HalfFilled(turn: Turns, nc: nat, c: array<real>, base: nat, j: nat)
    requires base + nc <= c.Length
    reads c
  {
    forall k: nat | 1 <= k < nc && (k < j || k + j > nc || 2 * k == nc) :: c[base + k] == 0.5 * turn(k, 4 * nc).re
  }

  /** makect: the table of halved cosines with nc = 2^r entries, at c[base ..]. */
  method Makect(nc: nat, ip: array<nat>, c: array<real>, base: nat, turn: Turns, ghost r: nat)
    requires IsCircle(turn) && nc == Pow2(r) && ip.Length >= 2 && base + nc <= c.Length
    modifies ip, c
    ensures ip[1] == nc
    ensures forall i | 0 <= i < ip.Length && i != 1 :: ip[i] == old(ip[i])
    ensures HoldsHalfCosines(turn, nc, c, base)
    ensures forall i | 0 <= i < c.Length && !(base <= i < base + nc) :: c[i] == old(c[i])
  {
    hide IsCircle, Pow2, HalfFilled;
    ip[1] := nc;
    if nc > 1 {
      var nch := nc / 2;
      CosineSize(r);
      c[base] := turn(nch, 8 * nch).re;
      c[base + nch] := 0.5 * c[base];
      FirstCosine(turn, nc, c, base);
      var j := 1;
      while j < nch
        invariant 1 <= j <= nch
        invariant HalfFilled(turn, nc, c, base, j)
        invariant forall i | 0 <= i < c.Length && !(base <= i < base + nc) :: c[i] == old(c[i])
        modifies c
      {
        StoreCosine(nc, nch, c, base, j, turn, r);
        j := j + 1;
      }
      AllCosines(turn, nc, c, base);
    }
  }

  lemma FirstCosine(turn: Turns, nc: nat, c: array<real>, base: nat)
    requires nc > 1 && base + nc <= c.Length && nc == 2 * (nc / 2)
    requires c[base + nc / 2] == 0.5 * turn(nc / 2, 8 * (nc / 2)).re
    ensures HalfFilled(turn, nc, c, base, 1)
  {
    assert 8 * (nc / 2) == 4 * nc;
  }

  /** The loop body of makect: the cosine of an angle and, at the other end, its sine. */
  method StoreCosine(nc: nat, nch: nat, c: array<real>, base: nat, j: nat, turn: Turns, ghost r: nat)
    requires IsCircle(turn) && nc == Pow2(r) && Pow2(r + 2) == 4 * nc && nc == 2 * nch && 1 <= j < nch
    requires base + nc <= c.Length && HalfFilled(turn, nc, c, base, j)
    modifies c
    ensures HalfFilled(turn, nc, c, base, j + 1)
    ensures forall i | 0 <= i < c.Length && !(base <= i < base + nc) :: c[i] == old(c[i])
  {
    hide IsCircle, Pow2;
    QuarterMirror(turn, r, j);
    c[base + j] := 0.5 * turn(j, 8 * nch).re;
    c[base + (nc - j)] := 0.5 * turn(j, 8 * nch).im;
  }

  lemma AllCosines(turn: Turns, nc: nat, c: array<real>, base: nat)
    requires nc == 2 * (nc / 2) && base + nc <= c.Length && HalfFilled(turn, nc, c, base, nc / 2)
    ensures HoldsHalfCosines(turn, nc, c, base)
  {
  }

  lemma CosineSize(r: nat)
    requires Pow2(r) > 1
    ensures r >= 1 && Pow2(r) == 2 * (Pow2(r) / 2) && Pow2(r + 2) == 4 * Pow2(r)
  {
    hide Pow2;
    NoBits(0, 0);
    Pow2Up(r);
    Pow2Up(r - 1);
  }
}
