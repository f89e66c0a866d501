/** What the FIR filters compute: convolution of a whole stream, which starts after silence, over exact reals. */
module Convolution {
  import opened Samples

  /** Sample t of a stream; before it starts there are zeros. */
  function At(stream: seq<real>, t: int): real {
    if 0 <= t < |stream| then stream[t] else 0.0
  }

  function Product(x: real, c: real): real {
    x * c
  }

  /** The sum of coefficients[j] times the sample j before sample t. */
  function Convolve(coefficients: seq<real>, stream: seq<real>, t: int): real {
    if |coefficients| == 0 then 0.0
    else Product(At(stream, t), coefficients[0]) + Convolve(coefficients[1..], stream, t - 1)
  }

  /** The filtered stream. */
  ghost function Filtered(coefficients: seq<real>, stream: seq<real>): (out: seq<real>)
    ensures |out| == |stream|
    ensures forall t: nat | t < |stream| :: out[t] == Convolve(coefficients, stream, t)
  {
    seq(|stream|, t => Convolve(coefficients, stream, t))
  }

  /** The products that make up output t: only of coefficients and samples that are there, so none for j > t. */
  ghost function Terms(coefficients: seq<real>, stream: seq<real>, t: int): (terms: seq<real>)
    requires t < |stream|
    ensures |terms| == |coefficients|
    ensures forall j: nat | j < |coefficients| :: terms[j] == if j <= t then coefficients[j] * stream[t - j] else 0.0
  {
    seq(|coefficients|, j requires 0 <= j < |coefficients| => if j <= t then coefficients[j] * stream[t - j] else 0.0)
  }

  lemma FirstTerm(c: real, stream: seq<real>, t: int)
    requires t < |stream|
    ensures Product(At(stream, t), c) == if 0 <= t then c * stream[t] else 0.0
  {
  }

  lemma TotalOf(first: real, terms: seq<real>, later: seq<real>)
    requires |terms| == |later| + 1 && terms[0] == first && forall j: nat | j < |later| :: terms[j + 1] == later[j]
    ensures Total(terms) == first + Total(later)
  {
    assert terms[1..] == later;
  }

  lemma {:induction false} ConvolveIsTotal(coefficients: seq<real>, stream: seq<real>, t: int)
    requires t < |stream|
    ensures Convolve(coefficients, stream, t) == Total(Terms(coefficients, stream, t))
  {
    hide At, Product;
    if |coefficients| > 0 {
      ConvolveIsTotal(coefficients[1..], stream, t - 1);
      FirstTerm(coefficients[0], stream, t);
      TotalOf(Product(At(stream, t), coefficients[0]), Terms(coefficients, stream, t),
              Terms(coefficients[1..], stream, t - 1));
    }
  }

  /** Filtering a single one gives the coefficients, then silence. */
  lemma ImpulseResponse(coefficients: seq<real>, m: nat)
    requires m + 1 >= |coefficients|
    ensures Filtered(coefficients, [1.0] + Zeros(m)) == coefficients + Zeros(m + 1 - |coefficients|)
  {
    hide Convolve;
    forall t: nat | t <= m
      ensures Convolve(coefficients, [1.0] + Zeros(m), t) == if t < |coefficients| then coefficients[t] else 0.0
    {
      ImpulseAt(coefficients, m, t);
    }
  }

  lemma {:induction false} ImpulseAt(coefficients: seq<real>, m: nat, t: int)
    ensures Convolve(coefficients, [1.0] + Zeros(m), t) == if 0 <= t < |coefficients| then coefficients[t] else 0.0
  {
    if |coefficients| > 0 {
      ImpulseAt(coefficients[1..], m, t - 1);
    }
  }

  /** Filtering a weighted sum of streams gives the weighted sum of what filtering each of them gives. */
  lemma Linear(coefficients: seq<real>, x: seq<real>, y: seq<real>, a: real, b: real, sum: seq<real>)
    requires |x| == |y| == |sum| && forall i: nat | i < |x| :: sum[i] == Product(x[i], a) + Product(y[i], b)
    ensures forall i: nat | i < |x| ::
              Filtered(coefficients, sum)[i]
              == Product(Filtered(coefficients, x)[i], a) + Product(Filtered(coefficients, y)[i], b)
  {
    hide Convolve, Product;
    forall i: nat | i < |x|
      ensures Filtered(coefficients, sum)[i]
              == Product(Filtered(coefficients, x)[i], a) + Product(Filtered(coefficients, y)[i], b)
    {
      LinearAt(coefficients, x, y, a, b, sum, i);
    }
  }

  lemma {:induction false} LinearAt(coefficients: seq<real>, x: seq<real>, y: seq<real>, a: real, b: real,
                                    sum: seq<real>, t: int)
    requires |x| == |y| == |sum| && forall i: nat | i < |x| :: sum[i] == Product(x[i], a) + Product(y[i], b)
    ensures Convolve(coefficients, sum, t)
            == Product(Convolve(coefficients, x, t), a) + Product(Convolve(coefficients, y, t), b)
  {
    hide Product;
    NoProduct(a);
    NoProduct(b);
    if |coefficients| > 0 {
      LinearAt(coefficients[1..], x, y, a, b, sum, t - 1);
      var c, tail := coefficients[0], coefficients[1..];
      assert At(sum, t) == Product(At(x, t), a) + Product(At(y, t), b);
      Distributed(c, At(x, t), At(y, t), a, b, Convolve(tail, x, t - 1), Convolve(tail, y, t - 1));
    }
  }

  lemma NoProduct(a: real)
    ensures Product(0.0, a) == 0.0
  {
  }

  lemma Distributed(c: real, x: real, y: real, a: real, b: real, p: real, q: real)
    ensures Product(Product(x, a) + Product(y, b), c) + (Product(p, a) + Product(q, b))
            == Product(Product(x, c) + p, a) + Product(Product(y, c) + q, b)
  {
    assert (x * c + p) * a == x * c * a + p * a;
    assert (y * c + q) * b == y * c * b + q * b;
    assert (x * a + y * b) * c == x * c * a + y * c * b;
  }

  lemma {:induction false} Causal(coefficients: seq<real>, stream: seq<real>, more: seq<real>, t: int)
    requires t < |stream|
    ensures Convolve(coefficients, stream + more, t) == Convolve(coefficients, stream, t)
  {
    if |coefficients| > 0 {
      Causal(coefficients[1..], stream, more, t - 1);
    }
  }

  /** Filtering does not look ahead: what follows makes no difference to the output so far. */
  lemma FilteredInPieces(coefficients: seq<real>, stream: seq<real>, more: seq<real>, out: seq<real>)
    requires |out| == |more|
    requires forall i: nat | i < |more| :: out[i] == Convolve(coefficients, stream + more, |stream| + i)
    ensures Filtered(coefficients, stream + more) == Filtered(coefficients, stream) + out
  {
    hide Convolve;
    var all := Filtered(coefficients, stream) + out;
    forall t: nat | t < |stream + more| ensures Filtered(coefficients, stream + more)[t] == all[t] {
      if t < |stream| {
        Causal(coefficients, stream, more, t);
      } else {
        assert out[t - |stream|] == Convolve(coefficients, stream + more, |stream| + (t - |stream|));
      }
    }
  }

  /** A step of a sum of products. */
  method MultiplyAdd(sum: real, x: real, c: real) returns (r: real)
    ensures r == sum + Product(x, c)
  {
    r := sum + x * c;
  }

  /** One more coefficient at the front: the step of a loop that starts with the oldest sample. */
  lemma OneMore(coefficients: seq<real>, stream: seq<real>, t: int, j: nat)
    requires j < |coefficients|
    ensures Convolve(coefficients[j..], stream, t - j) == Product(At(stream, t - j), coefficients[j])
                                                          + Convolve(coefficients[j + 1..], stream, t - (j + 1))
  {
    hide Product;
    assert coefficients[j..][1..] == coefficients[j + 1..];
  }

  /** Four coefficients at once. */
  lemma FourMore(coefficients: seq<real>, stream: seq<real>, t: int, j: nat)
    requires j + 4 <= |coefficients|
    ensures Convolve(coefficients[j..], stream, t - j)
            == Product(At(stream, t - j), coefficients[j]) + Product(At(stream, t - (j + 1)), coefficients[j + 1])
               + Product(At(stream, t - (j + 2)), coefficients[j + 2])
               + Product(At(stream, t - (j + 3)), coefficients[j + 3])
               + Convolve(coefficients[j + 4..], stream, t - (j + 4))
  {
    hide Convolve, At, Product;
    OneMore(coefficients, stream, t, j);
    OneMore(coefficients, stream, t, j + 1);
    OneMore(coefficients, stream, t, j + 2);
    OneMore(coefficients, stream, t, j + 3);
  }

  /** `held` is what a filter remembers of a stream: its last samples, or zeros from before it. */
  ghost predicate Remembers(held: seq<real>, stream: seq<real>) {
    forall k: nat | k < |held| :: held[k] == At(stream, |stream| - |held| + k)
  }

  /** The last |held| samples of both together. */
  lemma EndOf(held: seq<real>, more: seq<real>)
    ensures (held + more)[|more|..] == if |more| >= |held| then more[|more| - |held|..] else held[|more|..] + more
  {
  }

  /** A filter that has remembered `held` and keeps as much of that and what follows remembers the longer stream. */
  lemma RememberMore(held: seq<real>, stream: seq<real>, more: seq<real>, now: seq<real>)
    requires Remembers(held, stream) && |now| == |held|
    requires now == (held + more)[|more|..]
    ensures Remembers(now, stream + more)
  {
    var n, all := |held|, stream + more;
    forall k: nat | k < n ensures now[k] == At(all, |all| - n + k) {
      if |more| + k < n {
        assert held[|more| + k] == At(stream, |stream| - n + (|more| + k));
      }
    }
  }

  lemma {:induction false} LeadingZeros(n: nat, coefficients: seq<real>, stream: seq<real>, t: int)
    ensures Convolve(Zeros(n) + coefficients, stream, t) == Convolve(coefficients, stream, t - n)
  {
    if n == 0 {
      assert Zeros(0) + coefficients == coefficients;
    } else {
      LeadingZeros(n - 1, coefficients, stream, t - 1);
      assert (Zeros(n) + coefficients)[1..] == Zeros(n - 1) + coefficients;
    }
  }

  lemma {:induction false} TrailingZeros(coefficients: seq<real>, n: nat, stream: seq<real>, t: int)
    ensures Convolve(coefficients + Zeros(n), stream, t) == Convolve(coefficients, stream, t)
  {
    if |coefficients| == 0 {
      LeadingZeros(n, [], stream, t);
      assert coefficients + Zeros(n) == Zeros(n) + [];
    } else {
      TrailingZeros(coefficients[1..], n, stream, t - 1);
      assert (coefficients + Zeros(n))[1..] == coefficients[1..] + Zeros(n);
    }
  }

  // ---------- sparse coefficients ----------

  /** The coefficients with sparsity - 1 zeros between them, after `offset` zeros. */
  function Spread(coefficients: seq<real>, sparsity: nat, offset: nat): seq<real>
    requires sparsity > 0
  {
    if |coefficients| == 0 then []
    else Zeros(offset) + ([coefficients[0]] + Spread(coefficients[1..], sparsity, sparsity - 1))
  }

  /** The sum of coefficients[j] times the sample j * sparsity before sample t. */
  function ConvolveSparsely(coefficients: seq<real>, sparsity: nat, stream: seq<real>, t: int): real {
    if |coefficients| == 0 then 0.0
    else Product(At(stream, t), coefficients[0]) + ConvolveSparsely(coefficients[1..], sparsity, stream, t - sparsity)
  }

  /** The same for sparse coefficients, the j-th of which goes with the sample j * sparsity + offset before. */
  ghost function SparseTerms(coefficients: seq<real>, sparsity: nat, offset: nat, stream: seq<real>, t: int)
    : (terms: seq<real>)
    requires t < |stream|
    ensures |terms| == |coefficients|
  {
    seq(|coefficients|, j requires 0 <= j < |coefficients| =>
      if Back(j, sparsity, offset) <= t then coefficients[j] * stream[t - Back(j, sparsity, offset)] else 0.0)
  }

  /** How many samples back the j-th coefficient reaches. */
  function Back(j: nat, sparsity: nat, offset: nat): nat {
    j * sparsity + offset
  }

  lemma NextBack(j: nat, sparsity: nat, offset: nat)
    ensures Back(j + 1, sparsity, offset) == Back(j, sparsity, offset + sparsity)
    ensures Back(0, sparsity, offset) == offset
  {
    assert (j + 1) * sparsity == j * sparsity + sparsity;
  }

  lemma FirstSparseTerm(coefficients: seq<real>, sparsity: nat, offset: nat, stream: seq<real>, t: int)
    requires t < |stream| && |coefficients| > 0
    ensures SparseTerms(coefficients, sparsity, offset, stream, t)[0] == Product(At(stream, t - offset), coefficients[0])
  {
    hide Back, At, Product;
    NextBack(0, sparsity, offset);
    FirstTerm(coefficients[0], stream, t - offset);
  }

  lemma NextSparseTerm(coefficients: seq<real>, sparsity: nat, offset: nat, stream: seq<real>, t: int, j: nat)
    requires t < |stream| && j + 1 < |coefficients|
    ensures SparseTerms(coefficients, sparsity, offset, stream, t)[j + 1]
            == SparseTerms(coefficients[1..], sparsity, offset + sparsity, stream, t)[j]
  {
    hide Back;
    NextBack(j, sparsity, offset);
  }

  lemma {:induction false} SparseIsTotal(coefficients: seq<real>, sparsity: nat, offset: nat, stream: seq<real>, t: int)
    requires t < |stream|
    ensures ConvolveSparsely(coefficients, sparsity, stream, t - offset)
            == Total(SparseTerms(coefficients, sparsity, offset, stream, t))
  {
    hide SparseTerms, At, Product;
    var terms := SparseTerms(coefficients, sparsity, offset, stream, t);
    if |coefficients| > 0 {
      SparseIsTotal(coefficients[1..], sparsity, offset + sparsity, stream, t);
      var later := SparseTerms(coefficients[1..], sparsity, offset + sparsity, stream, t);
      FirstSparseTerm(coefficients, sparsity, offset, stream, t);
      forall j: nat | j < |coefficients| - 1 ensures terms[j + 1] == later[j] {
        NextSparseTerm(coefficients, sparsity, offset, stream, t, j);
      }
      TotalOf(terms[0], terms, later);
    }
  }

  lemma {:induction false} SparseIsSpread(coefficients: seq<real>, sparsity: nat, offset: nat, stream: seq<real>, t: int)
    requires sparsity > 0
    ensures Convolve(Spread(coefficients, sparsity, offset), stream, t)
            == ConvolveSparsely(coefficients, sparsity, stream, t - offset)
  {
    if |coefficients| > 0 {
      var rest := Spread(coefficients[1..], sparsity, sparsity - 1);
      LeadingZeros(offset, [coefficients[0]] + rest, stream, t);
      assert ([coefficients[0]] + rest)[1..] == rest;
      SparseIsSpread(coefficients[1..], sparsity, sparsity - 1, stream, t - offset - 1);
    }
  }

  lemma OneMoreSparse(coefficients: seq<real>, sparsity: nat, stream: seq<real>, t: int, j: nat)
    requires j < |coefficients|
    ensures ConvolveSparsely(coefficients[j..], sparsity, stream, t)
            == Product(At(stream, t), coefficients[j])
               + ConvolveSparsely(coefficients[j + 1..], sparsity, stream, t - sparsity)
  {
    assert coefficients[j..][1..] == coefficients[j + 1..];
  }
}
