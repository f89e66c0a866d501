/** bitrv2 of fft4g.c: the in-place permutation that sends every complex element to its bit-reversed index. */
module BitReversal {
  import opened Bits
  import opened ComplexNumbers
  import opened Butterflies

  /**
   * The index with low s bits lo, middle bits mid and, above them, s bits whose reversal is hi. The source reaches it
   * as lo + mid * m + ip[hi] / 2, where m is 2^s.
   */
  function Pos(K: nat, s: nat, lo: nat, mid: nat, hi: nat): nat {
    lo + Shl(mid, s) + Rev(K, hi)
  }

  function HighOf(s: nat, e: nat, p: nat): nat {
    Rev(s, Shr(Shr(p, s), e))
  }

  lemma PosShape(K: nat, s: nat, e: nat, lo: nat, mid: nat, hi: nat)
    requires K == s + (e + s) && hi < Pow2(s)
    ensures Pos(K, s, lo, mid, hi) == lo + Shl(mid + Shl(Rev(s, hi), e), s)
  {
    RevWiden(s, e + s, hi);
    ShlShl(Rev(s, hi), e, s);
    ShlAdd(mid, Shl(Rev(s, hi), e), s);
  }

  /** Reversal exchanges lo with hi and reverses mid. */
  lemma PosReversed(K: nat, s: nat, e: nat, lo: nat, mid: nat, hi: nat)
    requires K == s + (e + s) && lo < Pow2(s) && mid < Pow2(e) && hi < Pow2(s)
    ensures Pos(K, s, lo, mid, hi) < Pow2(K)
    ensures Rev(K, Pos(K, s, lo, mid, hi)) == Pos(K, s, hi, Rev(e, mid), lo)
  {
    hide Rev, Shl, Pow2;
    var top := mid + Shl(Rev(s, hi), e);
    PosShape(K, s, e, lo, mid, hi);
    RevBound(s, hi);
    JoinBound(e, s, mid, Rev(s, hi));
    JoinBound(s, e + s, lo, top);
    RevSplit(s, e + s, lo, top);
    RevSplit(e, s, mid, Rev(s, hi));
    RevInvolution(s, hi);
    RevWiden(s, e + s, lo);
  }

  lemma PosFields(K: nat, s: nat, e: nat, lo: nat, mid: nat, hi: nat)
    requires K == s + (e + s) && lo < Pow2(s) && mid < Pow2(e) && hi < Pow2(s)
    ensures Low(Pos(K, s, lo, mid, hi), s) == lo && HighOf(s, e, Pos(K, s, lo, mid, hi)) == hi
  {
    hide Rev, Shl, Shr, Low, Pow2;
    var top := mid + Shl(Rev(s, hi), e);
    PosShape(K, s, e, lo, mid, hi);
    LowInBlock(top, s, lo);
    ShrInBlock(top, s, lo);
    ShrInBlock(Rev(s, hi), e, mid);
    RevInvolution(s, hi);
  }

  /** Every index has such fields. */
  lemma PosOnto(K: nat, s: nat, e: nat, p: nat) returns (mid: nat)
    requires K == s + (e + s) && p < Pow2(K)
    ensures mid < Pow2(e) && Low(p, s) < Pow2(s) && HighOf(s, e, p) < Pow2(s)
    ensures p == Pos(K, s, Low(p, s), mid, HighOf(s, e, p))
  {
    hide Rev, Shl, Shr, Low, Pow2;
    var top := Shr(p, s);
    mid := Low(top, e);
    SplitBits(p, s);
    SplitBits(top, e);
    ShrBound(p, s, e + s);
    ShrBound(top, e, s);
    RevBound(s, Shr(top, e));
    RevInvolution(s, Shr(top, e));
    PosShape(K, s, e, Low(p, s), mid, HighOf(s, e, p));
  }

  /** z is y with the elements at the positions in S moved to their bit-reversed positions. */
  ghost predicate Swapped(K: nat, y: seq<Complex>, z: seq<Complex>, S: set<nat>) {
    && |z| == |y| == Pow2(K)
    && (forall p | p in S :: p < |y| && Rev(K, p) < |y| && Rev(K, p) in S)
    && (forall p: nat | p < |y| && p !in S :: z[p] == y[p])
    && (forall p: nat | p in S :: z[p] == y[Rev(K, p)])
  }

  ghost function WithPair(S: set<nat>, p: nat, q: nat): set<nat> {
    S + {p, q}
  }

  /** Exchanging the elements at p and at its reversal puts both where they belong. */
  lemma SwapStep(K: nat, y: seq<Complex>, z: seq<Complex>, S: set<nat>, p: nat, q: nat)
    requires Swapped(K, y, z, S) && p < |y| && q == Rev(K, p) && q < |y| && p !in S && q !in S
    ensures Swapped(K, y, z[p := z[q]][q := z[p]], WithPair(S, p, q))
  {
    hide Rev, Pow2;
    RevInvolution(K, p);
  }

  /** Exchanges two complex elements: the source's eight assignments through xr, xi, yr and yi. */
  method Swap(a: array<real>, j1: nat, k1: nat, ghost z: seq<Complex>, ghost p: nat, ghost q: nat)
    requires Holds(a, z) && p < |z| && q < |z| && j1 == 2 * p && k1 == 2 * q
    modifies a
    ensures Holds(a, z[p := z[q]][q := z[p]])
    ensures forall i | 2 * |z| <= i < a.Length :: a[i] == old(a[i])
  {
    hide Holds;
    HoldsAt(a, z, p);
    HoldsAt(a, z, q);
    var xr := a[j1];
    var xi := a[j1 + 1];
    var yr := a[k1];
    var yi := a[k1 + 1];
    Put(a, j1, yr, yi, z, p);
    Put(a, k1, xr, xi, z[p := z[q]], q);
  }

  /** The pairs of fields below (k, j): those the double loop has been through when it reaches k and j. */
  predicate Visited(k: nat, j: nat, lo: nat, hi: nat) {
    (lo < k && hi < k) || (lo == k && hi < j) || (hi == k && lo < j)
  }

  /** Exactly the elements with visited fields have been moved; elements that are their own reversal never are. */
  ghost predicate Progressed(K: nat, s: nat, e: nat, S: set<nat>, k: nat, j: nat) {
    && (forall p | p in S :: p < Pow2(K) && Visited(k, j, Low(p, s), HighOf(s, e, p)))
    && (forall p: nat | p < Pow2(K) && Visited(k, j, Low(p, s), HighOf(s, e, p)) :: p in S || Rev(K, p) == p)
  }

  lemma NothingVisited(K: nat, s: nat, e: nat)
    ensures Progressed(K, s, e, {}, 0, 0)
  {
  }

  /** The elements with fields j and k have not been moved when the loop gets to them. */
  lemma NotYetMoved(K: nat, s: nat, e: nat, S: set<nat>, k: nat, j: nat, mid: nat)
    requires K == s + (e + s) && j <= k < Pow2(s) && mid < Pow2(e) && Progressed(K, s, e, S, k, j)
    ensures Pos(K, s, j, mid, k) < Pow2(K) && Pos(K, s, k, mid, j) < Pow2(K)
    ensures Pos(K, s, j, mid, k) !in S && Pos(K, s, k, mid, j) !in S
  {
    hide Rev, Pos, Low, HighOf, Pow2;
    PosFields(K, s, e, j, mid, k);
    PosFields(K, s, e, k, mid, j);
    PosReversed(K, s, e, j, mid, k);
    PosReversed(K, s, e, k, mid, j);
  }

  /** D is the set of the elements with low field lo and high field hi, and of those with the two exchanged. */
  ghost predicate IsPair(K: nat, s: nat, e: nat, D: set<nat>, lo: nat, hi: nat) {
    && (forall mid: nat | mid < Pow2(e) :: Pos(K, s, lo, mid, hi) in D && Pos(K, s, hi, mid, lo) in D)
    && (forall p | p in D :: exists mid: nat | mid < Pow2(e) :: p == Pos(K, s, lo, mid, hi) || p == Pos(K, s, hi, mid, lo))
  }

  lemma PairVisited(K: nat, s: nat, e: nat, D: set<nat>, k: nat, j: nat, p: nat)
    requires K == s + (e + s) && j < k < Pow2(s) && IsPair(K, s, e, D, j, k) && p in D
    ensures p < Pow2(K) && Visited(k, j + 1, Low(p, s), HighOf(s, e, p))
  {
    hide Rev, Pos, Low, HighOf, Pow2;
    var mid: nat :| mid < Pow2(e) && (p == Pos(K, s, j, mid, k) || p == Pos(K, s, k, mid, j));
    PosFields(K, s, e, j, mid, k);
    PosFields(K, s, e, k, mid, j);
    PosReversed(K, s, e, j, mid, k);
    PosReversed(K, s, e, k, mid, j);
  }

  lemma NewFields(k: nat, j: nat, lo: nat, hi: nat)
    requires j < k && Visited(k, j + 1, lo, hi) && !Visited(k, j, lo, hi)
    ensures (lo == j && hi == k) || (lo == k && hi == j)
  {
  }

  lemma NewlyVisited(K: nat, s: nat, e: nat, D: set<nat>, k: nat, j: nat, p: nat)
    requires K == s + (e + s) && j < k < Pow2(s) && IsPair(K, s, e, D, j, k) && p < Pow2(K)
    requires Visited(k, j + 1, Low(p, s), HighOf(s, e, p)) && !Visited(k, j, Low(p, s), HighOf(s, e, p))
    ensures p in D
  {
    hide Rev, Pos, Low, HighOf, Pow2, Visited;
    NewFields(k, j, Low(p, s), HighOf(s, e, p));
    var mid := PosOnto(K, s, e, p);
    if Low(p, s) == j {
      assert p == Pos(K, s, j, mid, k);
    } else {
      assert p == Pos(K, s, k, mid, j);
    }
  }

  /** Moving all elements with fields j and k takes the inner loop from j to j + 1. */
  lemma InnerStep(K: nat, s: nat, e: nat, S: set<nat>, D: set<nat>, k: nat, j: nat)
    requires K == s + (e + s) && j < k < Pow2(s) && Progressed(K, s, e, S, k, j) && IsPair(K, s, e, D, j, k)
    ensures Progressed(K, s, e, S + D, k, j + 1)
  {
    hide Rev, Pos, Low, HighOf, Pow2, IsPair;
    forall p | p in S + D
      ensures p < Pow2(K) && Visited(k, j + 1, Low(p, s), HighOf(s, e, p))
    {
      if p in D {
        PairVisited(K, s, e, D, k, j, p);
      }
    }
    forall p: nat | p < Pow2(K) && Visited(k, j + 1, Low(p, s), HighOf(s, e, p))
      ensures p in S + D || Rev(K, p) == p
    {
      if !Visited(k, j, Low(p, s), HighOf(s, e, p)) {
        NewlyVisited(K, s, e, D, k, j, p);
      }
    }
  }

  /** Moving the elements on the diagonal that are not their own reversals takes the outer loop from k to k + 1. */
  lemma OuterStep(K: nat, s: nat, e: nat, S: set<nat>, D: set<nat>, k: nat)
    requires K == s + (e + s) && k < Pow2(s) && Progressed(K, s, e, S, k, k)
    requires forall p | p in D :: exists mid: nat | mid < Pow2(e) :: p == Pos(K, s, k, mid, k)
    requires forall mid: nat | mid < Pow2(e) :: Pos(K, s, k, mid, k) in D || Rev(e, mid) == mid
    ensures Progressed(K, s, e, S + D, k + 1, 0)
  {
    hide Rev, Pos, Low, HighOf, Pow2;
    forall p | p in S + D
      ensures p < Pow2(K) && Visited(k + 1, 0, Low(p, s), HighOf(s, e, p))
    {
      if p in D {
        var mid: nat :| mid < Pow2(e) && p == Pos(K, s, k, mid, k);
        PosFields(K, s, e, k, mid, k);
        PosReversed(K, s, e, k, mid, k);
      }
    }
    forall p: nat | p < Pow2(K) && Visited(k + 1, 0, Low(p, s), HighOf(s, e, p))
      ensures p in S + D || Rev(K, p) == p
    {
      if !Visited(k, k, Low(p, s), HighOf(s, e, p)) {
        var mid := PosOnto(K, s, e, p);
        PosReversed(K, s, e, k, mid, k);
      }
    }
  }

  lemma AllVisited(K: nat, s: nat, e: nat, y: seq<Complex>, z: seq<Complex>, S: set<nat>, m: nat)
    requires K == s + (e + s) && m == Pow2(s) && Swapped(K, y, z, S) && Progressed(K, s, e, S, m, 0)
    ensures forall p: nat | p < |z| :: Rev(K, p) < |y| && z[p] == y[Rev(K, p)]
  {
    hide Rev, Pos, Low, HighOf, Pow2;
    forall p: nat | p < |z|
      ensures Rev(K, p) < |y| && z[p] == y[Rev(K, p)]
    {
      var mid := PosOnto(K, s, e, p);
      RevBound(K, p);
    }
  }

  /** The entries of the scratch table: ip[base + j] is twice the K-bit reversal of j. */
  ghost predicate HoldsOffsets(ip: array<nat>, base: nat, K: nat, count: nat)
    reads ip
  {
    && base + count <= ip.Length
    && forall j: nat | j < count :: ip[base + j] == 2 * Rev(K, j)
  }

  lemma NextOffset(K: nat, s: nat, j: nat)
    requires s < K && j < Pow2(s)
    ensures Rev(K, Pow2(s) + j) == Rev(K, j) + Pow2(K - s - 1)
  {
    hide Rev, Shl, Pow2;
    RevWiden(s, K - s, j);
    RevSplit(s, K - s, j, 1);
    NoBits(0, 0);
    ShlPow2(0, s);
    FirstBit(K - s, 1);
    RevZero(K - s - 1);
  }

  lemma FirstOffset(ip: array<nat>, base: nat, K: nat)
    requires base < ip.Length && ip[base] == 0
    ensures HoldsOffsets(ip, base, K, 1) && Pow2(0) == 1
  {
    RevZero(K);
  }

  /** The inner loop of the first loop of bitrv2: as many offsets again, each `l` further on than the one before. */
  method DoubleOffsets(ip: array<nat>, base: nat, m: nat, l: nat, ghost K: nat, ghost s: nat)
    requires s < K && m == Pow2(s) && l == 2 * Pow2(K - s - 1)
    requires base + 2 * m <= ip.Length && HoldsOffsets(ip, base, K, m)
    modifies ip
    ensures HoldsOffsets(ip, base, K, 2 * m)
    ensures forall i | 0 <= i < base :: ip[i] == old(ip[i])
  {
    hide Pow2, Rev;
    var j := 0;
    while j < m
      invariant j <= m
      invariant HoldsOffsets(ip, base, K, m + j)
      invariant forall i | 0 <= i < base :: ip[i] == old(ip[i])
    {
      NextOffset(K, s, j);
      ip[base + (m + j)] := ip[base + j] + l;
      j := j + 1;
    }
  }

  /** The first loop of bitrv2, which doubles the table of offsets until about the square root of n. */
  method Offsets(n: nat, ip: array<nat>, base: nat, ghost K: nat) returns (l: nat, m: nat, ghost s: nat)
    requires n == 2 * Pow2(K) && K >= 1 && base + Pow2((K - 1) / 2) <= ip.Length
    modifies ip
    ensures K == 2 * s + 1 || K == 2 * s + 2
    ensures m == Pow2(s) && l == 2 * Pow2(K - s) && HoldsOffsets(ip, base, K, m)
    ensures forall i | 0 <= i < base :: ip[i] == old(ip[i])
  {
    hide Pow2, Rev, HoldsOffsets;
    ip[base] := 0;
    l := n;
    m := 1;
    s := 0;
    FirstOffset(ip, base, K);
    while m * 8 < l
      invariant 2 * s + 1 <= K && m == Pow2(s) && l == 2 * Pow2(K - s)
      invariant HoldsOffsets(ip, base, K, m)
      invariant forall i | 0 <= i < base :: ip[i] == old(ip[i])
      decreases l
    {
      OffsetsRoom(K, s);
      l := l / 2;
      DoubleOffsets(ip, base, m, l, K, s);
      m := m * 2;
      s := s + 1;
    }
    OffsetsEnd(K, s);
  }

  lemma OffsetsRoom(K: nat, s: nat)
    requires 2 * s + 1 <= K && 8 * Pow2(s) < 2 * Pow2(K - s)
    ensures 2 * s + 3 <= K && 2 * Pow2(s) == Pow2(s + 1) <= Pow2((K - 1) / 2) && Pow2(K - s) == 2 * Pow2(K - s - 1)
  {
    hide Pow2;
    Pow2Up(s);
    Pow2Order(s + 2, K - s);
    Pow2Up(K - s - 1);
    Pow2Monotone(s + 1, (K - 1) / 2);
  }

  lemma OffsetsEnd(K: nat, s: nat)
    requires 2 * s + 1 <= K && 8 * Pow2(s) >= 2 * Pow2(K - s)
    ensures K == 2 * s + 1 || K == 2 * s + 2
  {
    assert Pow2(s + 2) == 2 * Pow2(s + 1);
    Pow2Order(s + 2, K - s);
  }

  /** Exchanges the element at p, at code index j1, with the one at its reversal, at code index k1. */
  method SwapReversed(a: array<real>, j1: nat, k1: nat, ghost K: nat, ghost y: seq<Complex>, ghost z0: seq<Complex>,
                      ghost S: set<nat>, ghost p: nat) returns (ghost z: seq<Complex>)
    requires Holds(a, z0) && Swapped(K, y, z0, S) && p < |y| && Rev(K, p) < |y|
    requires p !in S && Rev(K, p) !in S && j1 == 2 * p && k1 == 2 * Rev(K, p)
    modifies a
    ensures Holds(a, z) && Swapped(K, y, z, WithPair(S, p, Rev(K, p)))
    ensures forall i | 2 * |y| <= i < a.Length :: a[i] == old(a[i])
  {
    hide Holds, Rev;
    ghost var q := Rev(K, p);
    SwapStep(K, y, z0, S, p, q);
    Swap(a, j1, k1, z0, p, q);
    z := z0[p := z0[q]][q := z0[p]];
  }

  /** The code index of Pos(lo, mid, hi), as the source computes it from the table of offsets. */
  lemma CodeIndex(ip: array<nat>, base: nat, K: nat, s: nat, lo: nat, mid: nat, hi: nat, m: nat)
    requires m == Pow2(s) && hi < m && HoldsOffsets(ip, base, K, m)
    ensures base + hi < ip.Length
    ensures 2 * Pos(K, s, lo, mid, hi) == 2 * lo + ip[base + hi] + 2 * Shl(mid, s)
  {
  }

  lemma MiddleParts(s: nat, m: nat)
    requires m == Pow2(s)
    ensures Shl(0, s) == 0 && Shl(1, s) == m && Shl(2, s) == 2 * m && Shl(3, s) == 3 * m
  {
    ShlIsProduct(0, s);
    ShlIsProduct(1, s);
    ShlIsProduct(2, s);
    ShlIsProduct(3, s);
  }

  lemma SmallReversals()
    ensures Rev(1, 0) == 0 && Rev(1, 1) == 1
    ensures Rev(2, 0) == 0 && Rev(2, 1) == 2 && Rev(2, 2) == 1 && Rev(2, 3) == 3
    ensures Pow2(1) == 2 && Pow2(2) == 4
  {
    assert Rev(0, 0) == Rev(0, 1) == 0;
    assert Rev(1, 0) == 0 && Rev(1, 1) == 1;
  }

  /** The two elements exchanged for fields j < k and middle bits mid, and what sets them apart from the others. */
  lemma PairPositions(K: nat, s: nat, e: nat, S: set<nat>, k: nat, j: nat, mid: nat)
    requires K == s + (e + s) && j < k < Pow2(s) && mid < Pow2(e) && Rev(e, mid) < Pow2(e) && Progressed(K, s, e, S, k, j)
    ensures var p, q := Pos(K, s, j, mid, k), Pos(K, s, k, Rev(e, mid), j);
            && p < Pow2(K) && q < Pow2(K) && q == Rev(K, p) && p !in S && q !in S
            && Low(p, s) == j && Low(q, s) == k
  {
    hide Rev, Pos, Low, HighOf, Pow2, Progressed;
    NotYetMoved(K, s, e, S, k, j, mid);
    NotYetMoved(K, s, e, S, k, j, Rev(e, mid));
    PosReversed(K, s, e, j, mid, k);
    PosFields(K, s, e, j, mid, k);
    PosFields(K, s, e, k, Rev(e, mid), j);
  }

  /** The inner loop body when n is 8 m^2: four exchanges. */
  method ExchangeFour(a: array<real>, ip: array<nat>, base: nat, j: nat, k: nat, m: nat, ghost K: nat, ghost s: nat,
                      ghost y: seq<Complex>, ghost z0: seq<Complex>, ghost S0: set<nat>)
    returns (ghost z: seq<Complex>, ghost S: set<nat>)
    requires K == s + (2 + s) && m == Pow2(s) && j < k < m && HoldsOffsets(ip, base, K, m)
    requires |y| == Pow2(K) && Holds(a, z0) && Swapped(K, y, z0, S0) && Progressed(K, s, 2, S0, k, j)
    modifies a
    ensures Holds(a, z) && Swapped(K, y, z, S) && Progressed(K, s, 2, S, k, j + 1)
    ensures forall i | 2 * |y| <= i < a.Length :: a[i] == old(a[i])
  {
    hide Holds, Rev, Pow2, Low, HighOf, Pos, Progressed, Shl, WithPair, Swapped;
    SmallReversals();
    MiddleParts(s, m);
    ghost var p0, q0 := Pos(K, s, j, 0, k), Pos(K, s, k, 0, j);
    ghost var p1, q1 := Pos(K, s, j, 1, k), Pos(K, s, k, 2, j);
    ghost var p2, q2 := Pos(K, s, j, 2, k), Pos(K, s, k, 1, j);
    ghost var p3, q3 := Pos(K, s, j, 3, k), Pos(K, s, k, 3, j);
    FourPositions(ip, base, K, s, S0, k, j, m);
    ghost var S1 := WithPair(S0, p0, q0);
    ghost var S2 := WithPair(S1, p1, q1);
    ghost var S3 := WithPair(S2, p2, q2);
    var m2 := 2 * m;
    var j1 := 2 * j + ip[base + k];
    var k1 := 2 * k + ip[base + j];
    z := SwapReversed(a, j1, k1, K, y, z0, S0, p0);
    j1 := j1 + m2;
    k1 := k1 + 2 * m2;
    z := SwapReversed(a, j1, k1, K, y, z, S1, p1);
    j1 := j1 + m2;
    k1 := k1 - m2;
    z := SwapReversed(a, j1, k1, K, y, z, S2, p2);
    j1 := j1 + m2;
    k1 := k1 + 2 * m2;
    z := SwapReversed(a, j1, k1, K, y, z, S3, p3);
    S := WithPair(S3, p3, q3);
  }

  lemma FourPositions(ip: array<nat>, base: nat, K: nat, s: nat, S: set<nat>, k: nat, j: nat, m: nat)
    requires K == s + (2 + s) && m == Pow2(s) && j < k < m && HoldsOffsets(ip, base, K, m)
    requires Progressed(K, s, 2, S, k, j)
    ensures var p0, q0 := Pos(K, s, j, 0, k), Pos(K, s, k, 0, j);
            var p1, q1 := Pos(K, s, j, 1, k), Pos(K, s, k, 2, j);
            var p2, q2 := Pos(K, s, j, 2, k), Pos(K, s, k, 1, j);
            var p3, q3 := Pos(K, s, j, 3, k), Pos(K, s, k, 3, j);
            && base + k < ip.Length
            && 2 * p0 == 2 * j + ip[base + k] && 2 * q0 == 2 * k + ip[base + j]
            && p1 == p0 + m && p2 == p0 + 2 * m && p3 == p0 + 3 * m
            && q1 == q0 + 2 * m && q2 == q0 + m && q3 == q0 + 3 * m
            && q0 == Rev(K, p0) && q1 == Rev(K, p1) && q2 == Rev(K, p2) && q3 == Rev(K, p3)
            && p3 < Pow2(K) && q0 < Pow2(K) && q1 < Pow2(K) && q2 < Pow2(K) && q3 < Pow2(K)
            && p0 !in S && q0 !in S
            && var S1 := WithPair(S, p0, q0);
            && p1 !in S1 && q1 !in S1
            && var S2 := WithPair(S1, p1, q1);
            && p2 !in S2 && q2 !in S2
            && var S3 := WithPair(S2, p2, q2);
            && p3 !in S3 && q3 !in S3
            && Progressed(K, s, 2, WithPair(S3, p3, q3), k, j + 1)
  {
    hide Rev, Pow2, Low, HighOf, Progressed, Shl;
    FourPairs(K, s, S, k, j, m);
    SmallReversals();
    MiddleParts(s, m);
    CodeIndex(ip, base, K, s, j, 0, k, m);
    CodeIndex(ip, base, K, s, k, 0, j, m);
    PairPositions(K, s, 2, S, k, j, 0);
    PairPositions(K, s, 2, S, k, j, 1);
    PairPositions(K, s, 2, S, k, j, 2);
    PairPositions(K, s, 2, S, k, j, 3);
    var p0, q0, p1, q1 := Pos(K, s, j, 0, k), Pos(K, s, k, 0, j), Pos(K, s, j, 1, k), Pos(K, s, k, 2, j);
    var p2, q2, p3, q3 := Pos(K, s, j, 2, k), Pos(K, s, k, 1, j), Pos(K, s, j, 3, k), Pos(K, s, k, 3, j);
    assert WithPair(WithPair(WithPair(WithPair(S, p0, q0), p1, q1), p2, q2), p3, q3)
        == S + {p0, q0, p1, q1, p2, q2, p3, q3};
  }

  /** The sets of moved elements after each of the four exchanges. */
  lemma FourPairs(K: nat, s: nat, S: set<nat>, k: nat, j: nat, m: nat)
    requires K == s + (2 + s) && m == Pow2(s) && j < k < m && Progressed(K, s, 2, S, k, j)
    ensures var D := {Pos(K, s, j, 0, k), Pos(K, s, k, 0, j), Pos(K, s, j, 1, k), Pos(K, s, k, 2, j),
                      Pos(K, s, j, 2, k), Pos(K, s, k, 1, j), Pos(K, s, j, 3, k), Pos(K, s, k, 3, j)};
            Progressed(K, s, 2, S + D, k, j + 1)
  {
    hide Rev, Low, HighOf, Progressed, Shl, Pos;
    var D := {Pos(K, s, j, 0, k), Pos(K, s, k, 0, j), Pos(K, s, j, 1, k), Pos(K, s, k, 2, j),
              Pos(K, s, j, 2, k), Pos(K, s, k, 1, j), Pos(K, s, j, 3, k), Pos(K, s, k, 3, j)};
    SmallReversals();
    assert IsPair(K, s, 2, D, j, k);
    InnerStep(K, s, 2, S, D, k, j);
  }

  /** The inner loop body when n is 4 m^2: two exchanges. */
  method ExchangeTwo(a: array<real>, ip: array<nat>, base: nat, j: nat, k: nat, m: nat, ghost K: nat, ghost s: nat,
                     ghost y: seq<Complex>, ghost z0: seq<Complex>, ghost S0: set<nat>)
    returns (ghost z: seq<Complex>, ghost S: set<nat>)
    requires K == s + (1 + s) && m == Pow2(s) && j < k < m && HoldsOffsets(ip, base, K, m)
    requires |y| == Pow2(K) && Holds(a, z0) && Swapped(K, y, z0, S0) && Progressed(K, s, 1, S0, k, j)
    modifies a
    ensures Holds(a, z) && Swapped(K, y, z, S) && Progressed(K, s, 1, S, k, j + 1)
    ensures forall i | 2 * |y| <= i < a.Length :: a[i] == old(a[i])
  {
    hide Holds, Rev, Pow2, Low, HighOf, Pos, Progressed, Shl, WithPair, Swapped;
    ghost var p0, q0 := Pos(K, s, j, 0, k), Pos(K, s, k, 0, j);
    ghost var p1, q1 := Pos(K, s, j, 1, k), Pos(K, s, k, 1, j);
    TwoPositions(ip, base, K, s, S0, k, j, m);
    ghost var S1 := WithPair(S0, p0, q0);
    var m2 := 2 * m;
    var j1 := 2 * j + ip[base + k];
    var k1 := 2 * k + ip[base + j];
    z := SwapReversed(a, j1, k1, K, y, z0, S0, p0);
    j1 := j1 + m2;
    k1 := k1 + m2;
    z := SwapReversed(a, j1, k1, K, y, z, S1, p1);
    S := WithPair(S1, p1, q1);
  }

  lemma TwoPositions(ip: array<nat>, base: nat, K: nat, s: nat, S: set<nat>, k: nat, j: nat, m: nat)
    requires K == s + (1 + s) && m == Pow2(s) && j < k < m && HoldsOffsets(ip, base, K, m)
    requires Progressed(K, s, 1, S, k, j)
    ensures var p0, q0 := Pos(K, s, j, 0, k), Pos(K, s, k, 0, j);
            var p1, q1 := Pos(K, s, j, 1, k), Pos(K, s, k, 1, j);
            && base + k < ip.Length
            && 2 * p0 == 2 * j + ip[base + k] && 2 * q0 == 2 * k + ip[base + j]
            && p1 == p0 + m && q1 == q0 + m
            && q0 == Rev(K, p0) && q1 == Rev(K, p1)
            && p1 < Pow2(K) && q1 < Pow2(K)
            && p0 !in S && q0 !in S
            && var S1 := WithPair(S, p0, q0);
            && p1 !in S1 && q1 !in S1
            && Progressed(K, s, 1, WithPair(S1, p1, q1), k, j + 1)
  {
    hide Rev, Pow2, Low, HighOf, Progressed, Shl;
    SmallReversals();
    MiddleParts(s, m);
    CodeIndex(ip, base, K, s, j, 0, k, m);
    CodeIndex(ip, base, K, s, k, 0, j, m);
    PairPositions(K, s, 1, S, k, j, 0);
    PairPositions(K, s, 1, S, k, j, 1);
    TwoPairs(K, s, S, k, j);
    var p0, q0, p1, q1 := Pos(K, s, j, 0, k), Pos(K, s, k, 0, j), Pos(K, s, j, 1, k), Pos(K, s, k, 1, j);
    assert WithPair(WithPair(S, p0, q0), p1, q1) == S + {p0, q0, p1, q1};
  }

  lemma TwoPairs(K: nat, s: nat, S: set<nat>, k: nat, j: nat)
    requires K == s + (1 + s) && j < k < Pow2(s) && Progressed(K, s, 1, S, k, j)
    ensures var D := {Pos(K, s, j, 0, k), Pos(K, s, k, 0, j), Pos(K, s, j, 1, k), Pos(K, s, k, 1, j)};
            Progressed(K, s, 1, S + D, k, j + 1)
  {
    hide Rev, Low, HighOf, Progressed, Shl, Pos;
    var D := {Pos(K, s, j, 0, k), Pos(K, s, k, 0, j), Pos(K, s, j, 1, k), Pos(K, s, k, 1, j)};
    SmallReversals();
    assert IsPair(K, s, 1, D, j, k);
    InnerStep(K, s, 1, S, D, k, j);
  }

  /** The end of a row when n is 8 m^2: one exchange on the diagonal. */
  method ExchangeDiagonal(a: array<real>, ip: array<nat>, base: nat, k: nat, m: nat, ghost K: nat, ghost s: nat,
                          ghost y: seq<Complex>, ghost z0: seq<Complex>, ghost S0: set<nat>)
    returns (ghost z: seq<Complex>, ghost S: set<nat>)
    requires K == s + (2 + s) && m == Pow2(s) && k < m && HoldsOffsets(ip, base, K, m)
    requires |y| == Pow2(K) && Holds(a, z0) && Swapped(K, y, z0, S0) && Progressed(K, s, 2, S0, k, k)
    modifies a
    ensures Holds(a, z) && Swapped(K, y, z, S) && Progressed(K, s, 2, S, k + 1, 0)
    ensures forall i | 2 * |y| <= i < a.Length :: a[i] == old(a[i])
  {
    hide Holds, Rev, Pow2, Low, HighOf, Pos, Progressed, Shl, WithPair, Swapped;
    ghost var p, q := Pos(K, s, k, 1, k), Pos(K, s, k, 2, k);
    DiagonalPositions(ip, base, K, s, S0, k, m);
    var m2 := 2 * m;
    var j1 := 2 * k + m2 + ip[base + k];
    var k1 := j1 + m2;
    z := SwapReversed(a, j1, k1, K, y, z0, S0, p);
    S := WithPair(S0, p, q);
  }

  lemma DiagonalPositions(ip: array<nat>, base: nat, K: nat, s: nat, S: set<nat>, k: nat, m: nat)
    requires K == s + (2 + s) && m == Pow2(s) && k < m && HoldsOffsets(ip, base, K, m)
    requires Progressed(K, s, 2, S, k, k)
    ensures var p, q := Pos(K, s, k, 1, k), Pos(K, s, k, 2, k);
            && base + k < ip.Length
            && 2 * p == 2 * k + 2 * m + ip[base + k] && q == p + m && q == Rev(K, p)
            && p < Pow2(K) && q < Pow2(K) && p !in S && q !in S
            && Progressed(K, s, 2, WithPair(S, p, q), k + 1, 0)
  {
    hide Rev, Pow2, Low, HighOf, Progressed, Shl;
    SmallReversals();
    MiddleParts(s, m);
    CodeIndex(ip, base, K, s, k, 1, k, m);
    NotYetMoved(K, s, 2, S, k, k, 1);
    NotYetMoved(K, s, 2, S, k, k, 2);
    PosReversed(K, s, 2, k, 1, k);
    DiagonalStep(K, s, S, k);
  }

  lemma DiagonalStep(K: nat, s: nat, S: set<nat>, k: nat)
    requires K == s + (2 + s) && k < Pow2(s) && Progressed(K, s, 2, S, k, k)
    ensures Progressed(K, s, 2, WithPair(S, Pos(K, s, k, 1, k), Pos(K, s, k, 2, k)), k + 1, 0)
  {
    hide Rev, Pow2, Low, HighOf, Progressed, Shl, Pos;
    SmallReversals();
    OuterStep(K, s, 2, S, {Pos(K, s, k, 1, k), Pos(K, s, k, 2, k)}, k);
  }

  /** With a single middle bit the diagonal consists of elements that are their own reversals. */
  lemma DiagonalFixed(K: nat, s: nat, S: set<nat>, k: nat)
    requires K == s + (1 + s) && k < Pow2(s) && Progressed(K, s, 1, S, k, k)
    ensures Progressed(K, s, 1, S, k + 1, 0)
  {
    hide Rev, Low, HighOf, Progressed, Shl, Pow2;
    SmallReversals();
    OuterStep(K, s, 1, S, {}, k);
    assert S + {} == S;
  }

  lemma UnmovedAtFirst(K: nat, y: seq<Complex>)
    requires |y| == Pow2(K)
    ensures Swapped(K, y, y, {})
  {
  }

  /**
   * bitrv2: every complex element moves to the index with its bits reversed, for n twice any power of two from 2 on. The
   * scratch table starts at ip[base].
   */
  method Bitrv2(n: nat, ip: array<nat>, base: nat, a: array<real>, ghost K: nat, ghost y: seq<Complex>)
    requires n == 2 * Pow2(K) && K >= 1 && base + Pow2((K - 1) / 2) <= ip.Length
    requires |y| == Pow2(K) && Holds(a, y)
    modifies ip, a
    ensures 2 * |y| <= a.Length
    ensures forall p: nat | p < |y| :: Rev(K, p) < |y| && At(a, p) == y[Rev(K, p)]
    ensures forall i | n <= i < a.Length :: a[i] == old(a[i])
    ensures forall i | 0 <= i < base :: ip[i] == old(ip[i])
  {
    hide Holds, HoldsOffsets, Swapped, Progressed, Rev, At, Pow2;
    HoldsAll(a, y);
    var l, m;
    ghost var s;
    l, m, s := Offsets(n, ip, base, K);
    ghost var z, S := y, {};
    UnmovedAtFirst(K, y);
    BranchTaken(K, s);
    if m * 8 == l {
      NothingVisited(K, s, 2);
      var k := 0;
      while k < m
        invariant k <= m
        invariant Holds(a, z) && Swapped(K, y, z, S) && Progressed(K, s, 2, S, k, 0)
        invariant forall i | n <= i < a.Length :: a[i] == old(a[i])
        modifies a
      {
        var j := 0;
        while j < k
          invariant j <= k
          invariant Holds(a, z) && Swapped(K, y, z, S) && Progressed(K, s, 2, S, k, j)
          invariant forall i | n <= i < a.Length :: a[i] == old(a[i])
          modifies a
        {
          z, S := ExchangeFour(a, ip, base, j, k, m, K, s, y, z, S);
          j := j + 1;
        }
        z, S := ExchangeDiagonal(a, ip, base, k, m, K, s, y, z, S);
        k := k + 1;
      }
      AllVisited(K, s, 2, y, z, S, m);
    } else {
      NothingVisited(K, s, 1);
      DiagonalFixed(K, s, {}, 0);
      var k := 1;
      while k < m
        invariant 1 <= k <= m
        invariant Holds(a, z) && Swapped(K, y, z, S) && Progressed(K, s, 1, S, k, 0)
        invariant forall i | n <= i < a.Length :: a[i] == old(a[i])
        modifies a
      {
        var j := 0;
        while j < k
          invariant j <= k
          invariant Holds(a, z) && Swapped(K, y, z, S) && Progressed(K, s, 1, S, k, j)
          invariant forall i | n <= i < a.Length :: a[i] == old(a[i])
          modifies a
        {
          z, S := ExchangeTwo(a, ip, base, j, k, m, K, s, y, z, S);
          j := j + 1;
        }
        DiagonalFixed(K, s, S, k);
        k := k + 1;
      }
      AllVisited(K, s, 1, y, z, S, m);
    }
    SwappedSize(K, y, z, S);
    HoldsAll(a, z);
  }

  lemma SwappedSize(K: nat, y: seq<Complex>, z: seq<Complex>, S: set<nat>)
    requires Swapped(K, y, z, S)
    ensures |z| == |y| == Pow2(K)
  {
  }

  /** The source tells the two shapes of n apart by whether 8 m equals l. */
  lemma BranchTaken(K: nat, s: nat)
    requires K == 2 * s + 1 || K == 2 * s + 2
    ensures 8 * Pow2(s) == 2 * Pow2(K - s) <==> K == s + (2 + s)
    ensures 8 * Pow2(s) != 2 * Pow2(K - s) <==> K == s + (1 + s)
  {
    assert Pow2(s + 2) == 2 * Pow2(s + 1) && Pow2(s + 1) == 2 * Pow2(s);
  }
}
