/** sparse_fir_filter.cc. */
module SparseFirFilters {
  import opened Convolution
  import opened Samples
  import FirFilters

  class SparseFIRFilter {
    const sparsity: nat
    const offset: nat
    const nonzeroCoefficients: seq<real>
    const state: array<real>

    ghost var fed: seq<real>
    ghost var emitted: seq<real>

    /** The coefficients of the dense filter that this one stands for. */
    ghost function Kernel(): seq<real>
      requires sparsity > 0
    {
      Spread(nonzeroCoefficients, sparsity, offset)
    }

    ghost predicate Valid()
      reads this, state
    {
      && sparsity > 0 && |nonzeroCoefficients| > 0
      && state.Length == sparsity * (|nonzeroCoefficients| - 1) + offset
      && Remembers(state[..], fed)
      && emitted == Filtered(Kernel(), fed)
    }

    /** The RTC_CHECKs demand one coefficient and a positive sparsity. */
    constructor (coefficients: seq<real>, everySoMany: nat, initialZeros: nat)
      requires |coefficients| >= 1 && everySoMany >= 1
      ensures Valid() && fed == [] && fresh(state) && forall k | 0 <= k < state.Length :: state[k] == 0.0
      ensures nonzeroCoefficients == coefficients && sparsity == everySoMany && offset == initialZeros
    {
      sparsity, offset, nonzeroCoefficients := everySoMany, initialZeros, coefficients;
      NotNegative(everySoMany, |coefficients| - 1);
      state := new real[everySoMany * (|coefficients| - 1) + initialZeros](_ => 0.0);
      fed, emitted := [], [];
    }

    /** The body of Filter's outer loop: the i-th output. */
    method Output(input: seq<real>, i: nat) returns (sum: real)
      requires Valid() && i < |input|
      ensures sum == Convolve(Kernel(), fed + input, |fed| + i)
    {
      hide Convolve, ConvolveSparsely, Filtered, Spread, At, Product;
      var n := |nonzeroCoefficients|;
      ghost var all, t := fed + input, |fed| + i - offset;
      SparseIsSpread(nonzeroCoefficients, sparsity, offset, all, |fed| + i);
      ghost var total := ConvolveSparsely(nonzeroCoefficients, sparsity, all, t);
      sum := 0.0;
      var j := 0;
      NoMultiple(sparsity);
      assert nonzeroCoefficients[0..] == nonzeroCoefficients;
      while i >= j * sparsity + offset && j < n
        invariant 0 <= j <= n
        invariant sum + ConvolveSparsely(nonzeroCoefficients[j..], sparsity, all, t - j * sparsity) == total
      {
        NextMultiple(j, sparsity, n);
        ghost var back := j * sparsity;
        OneMoreSparse(nonzeroCoefficients, sparsity, all, t - back, j);
        NewSample(fed, input, i, back + offset);
        sum := MultiplyAdd(sum, input[i - j * sparsity - offset], nonzeroCoefficients[j]);
        j := j + 1;
      }
      while j < n
        invariant 0 <= j <= n && (j < n ==> i < j * sparsity + offset)
        invariant sum + ConvolveSparsely(nonzeroCoefficients[j..], sparsity, all, t - j * sparsity) == total
      {
        NextMultiple(j, sparsity, n);
        ghost var back := j * sparsity;
        OneMoreSparse(nonzeroCoefficients, sparsity, all, t - back, j);
        OldSample(state[..], fed, input, i, back + offset);
        var k := i + (n - j - 1) * sparsity;
        sum := MultiplyAdd(sum, state[k], nonzeroCoefficients[j]);
        j := j + 1;
      }
      NothingLeft(nonzeroCoefficients, sparsity, all, t - j * sparsity);
    }

    method Filter(input: seq<real>) returns (out: array<real>)
      requires Valid()
      modifies `fed, `emitted, state
      ensures Valid() && fed == old(fed) + input && emitted == old(emitted) + out[..]
      ensures fresh(out) && out.Length == |input|
    {
      hide Convolve, Filtered, Spread;
      out := new real[|input|];
      for i := 0 to |input|
        invariant forall k: nat | k < i :: out[k] == Convolve(Kernel(), fed + input, |fed| + k)
        modifies out
      {
        var sum := Output(input, i);
        out[i] := sum;
      }
      FilteredInPieces(Kernel(), fed, input, out[..]);
      FirFilters.UpdateState(state, input, fed);
      fed, emitted := fed + input, emitted + out[..];
    }
  }

  /**
   * What the filter puts out, whatever the chunks: sums over samples that have been fed, of which the one that goes with
   * coefficient j is j * sparsity + offset samples back.
   */
  lemma OutputIsSum(filter: SparseFIRFilter)
    requires filter.Valid()
    ensures |filter.emitted| == |filter.fed|
    ensures forall t: nat | t < |filter.fed| ::
              filter.emitted[t]
              == Total(SparseTerms(filter.nonzeroCoefficients, filter.sparsity, filter.offset, filter.fed, t))
  {
    hide Convolve, ConvolveSparsely, Spread, SparseTerms, Total;
    forall t: nat | t < |filter.fed|
      ensures filter.emitted[t]
              == Total(SparseTerms(filter.nonzeroCoefficients, filter.sparsity, filter.offset, filter.fed, t))
    {
      SparseIsSpread(filter.nonzeroCoefficients, filter.sparsity, filter.offset, filter.fed, t);
      SparseIsTotal(filter.nonzeroCoefficients, filter.sparsity, filter.offset, filter.fed, t);
    }
  }

  lemma NothingLeft(coefficients: seq<real>, sparsity: nat, stream: seq<real>, t: int)
    ensures ConvolveSparsely(coefficients[|coefficients|..], sparsity, stream, t) == 0.0
  {
  }

  lemma NewSample(stream: seq<real>, more: seq<real>, i: nat, back: nat)
    requires back <= i < |more|
    ensures At(stream + more, |stream| + i - back) == more[i - back]
  {
  }

  lemma OldSample(held: seq<real>, stream: seq<real>, more: seq<real>, i: nat, back: nat)
    requires Remembers(held, stream) && i < back <= |held| + i
    ensures At(stream + more, |stream| + i - back) == held[|held| + i - back]
  {
    assert held[|held| + i - back] == At(stream, |stream| - |held| + (|held| + i - back));
  }

  lemma NoMultiple(sparsity: nat)
    ensures 0 * sparsity == 0
  {
  }

  lemma NotNegative(sparsity: nat, j: nat)
    ensures sparsity * j >= 0 && j * sparsity >= 0
  {
  }

  lemma NextMultiple(j: nat, sparsity: nat, n: nat)
    requires j < n
    ensures (j + 1) * sparsity == j * sparsity + sparsity && j * sparsity >= 0
    ensures (n - j - 1) * sparsity == sparsity * (n - 1) - j * sparsity && (n - j - 1) * sparsity >= 0
  {
    Distribute(j, 1, sparsity);
    Distribute(n - j - 1, j, sparsity);
    NotNegative(sparsity, j);
    NotNegative(sparsity, n - j - 1);
  }

  lemma Distribute(a: int, b: int, c: int)
    ensures (a + b) * c == a * c + b * c && (a + b) * c == c * (a + b)
  {
  }
}
