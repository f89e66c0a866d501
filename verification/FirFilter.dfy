/** fir_filter.cc and fir_filter_sse.cc. */
module FirFilters {
  import opened Convolution
  import opened Samples

  /** The end of FIRFilterC.Filter and of SparseFIRFilter.Filter: the state becomes the last samples of the stream. */
  method UpdateState(state: array<real>, input: seq<real>, ghost stream: seq<real>)
    requires Remembers(state[..], stream)
    modifies state
    ensures Remembers(state[..], stream + input)
  {
    hide Remembers;
    var length := |input|;
    ghost var before := state[..];
    if length >= state.Length {
      forall k | 0 <= k < state.Length {
        state[k] := input[length - state.Length + k];
      }
      assert state[..] == input[length - state.Length..];
    } else {
      forall k | 0 <= k < state.Length - length {
        state[k] := state[length + k];
      }
      assert state[..state.Length - length] == before[length..];
      forall k | 0 <= k < length {
        state[state.Length - length + k] := input[k];
      }
      assert state[..] == before[length..] + input;
    }
    EndOf(before, input);
    RememberMore(before, stream, input, state[..]);
  }

  class FIRFilterC {
    const coefficients: array<real>  // the oldest sample's first
    const state: array<real>

    ghost const kernel: seq<real>    // the coefficients that were given
    ghost var fed: seq<real>
    ghost var emitted: seq<real>

    ghost predicate Valid()
      reads this, coefficients, state
    {
      && |kernel| > 0 && coefficients.Length == |kernel| && state.Length == |kernel| - 1 && coefficients != state
      && (forall j: nat | j < |kernel| :: coefficients[j] == kernel[|kernel| - 1 - j])
      && Remembers(state[..], fed)
      && emitted == Filtered(kernel, fed)
    }

    constructor (given: seq<real>)
      requires |given| > 0
      ensures Valid() && kernel == given && fed == [] && fresh(coefficients) && fresh(state)
      ensures forall k | 0 <= k < state.Length :: state[k] == 0.0
    {
      var n := |given|;
      coefficients := new real[n](i requires 0 <= i < n => given[n - i - 1]);
      state := new real[n - 1](_ => 0.0);
      kernel, fed, emitted := given, [], [];
    }

    /** The body of Filter's outer loop: the i-th output. */
    method Output(input: seq<real>, i: nat) returns (sum: real)
      requires Valid() && i < |input|
      ensures sum == Convolve(kernel, fed + input, |fed| + i)
    {
      hide Convolve, Filtered;
      var length := state.Length;
      ghost var all, n, t := fed + input, |kernel|, |fed| + i;
      sum := 0.0;
      var j := 0;
      Empty(kernel, all, t - n);
      while length > i && j < length - i
        invariant 0 <= j <= n && (j > 0 ==> j <= length - i)
        invariant sum == Convolve(kernel[n - j..], all, t - (n - j))
      {
        OneMore(kernel, all, t, n - j - 1);
        assert state[..][i + j] == At(fed, |fed| - length + (i + j));
        sum := MultiplyAdd(sum, state[i + j], coefficients[j]);
        j := j + 1;
      }
      while j < coefficients.Length
        invariant 0 <= j <= n && j + i >= length
        invariant sum == Convolve(kernel[n - j..], all, t - (n - j))
      {
        OneMore(kernel, all, t, n - j - 1);
        sum := MultiplyAdd(sum, input[j + i - length], coefficients[j]);
        j := j + 1;
      }
      assert kernel[n - j..] == kernel;
    }

    method Filter(input: seq<real>) returns (out: array<real>)
      requires Valid() && |input| > 0
      modifies `fed, `emitted, state
      ensures Valid() && fed == old(fed) + input && emitted == old(emitted) + out[..]
      ensures fresh(out) && out.Length == |input|
    {
      hide Convolve, Filtered;
      out := new real[|input|];
      for i := 0 to |input|
        invariant forall k: nat | k < i :: out[k] == Convolve(kernel, fed + input, |fed| + k)
        modifies out
      {
        var sum := Output(input, i);
        out[i] := sum;
      }
      FilteredInPieces(kernel, fed, input, out[..]);
      UpdateState(state, input, fed);
      fed, emitted := fed + input, emitted + out[..];
    }
  }

  lemma Empty(kernel: seq<real>, stream: seq<real>, t: int)
    ensures Convolve(kernel[|kernel|..], stream, t) == 0.0
  {
  }

  class FIRFilterSSE2 {
    const coefficients: array<real>  // the oldest sample's first, after zeros that fill up a multiple of four
    const stateLength: nat
    const state: array<real>         // with room for the input after it
    const maxInputLength: nat

    ghost const kernel: seq<real>
    ghost var fed: seq<real>
    ghost var emitted: seq<real>

    /** The coefficients with as many zeros at the end as it takes to have a multiple of four. */
    ghost function Padded(): (p: seq<real>)
      requires coefficients.Length >= |kernel|
      ensures |p| == coefficients.Length
    {
      kernel + Zeros(coefficients.Length - |kernel|)
    }

    ghost predicate Valid()
      reads this, coefficients, state
    {
      && |kernel| > 0 && |kernel| <= coefficients.Length < |kernel| + 4 && coefficients.Length % 4 == 0
      && stateLength == coefficients.Length - 1 && state.Length == maxInputLength + stateLength && coefficients != state
      && (forall j: nat | j < coefficients.Length :: coefficients[j] == Padded()[coefficients.Length - 1 - j])
      && Remembers(state[..stateLength], fed)
      && emitted == Filtered(kernel, fed)
    }

    constructor (given: seq<real>, maxLength: nat)
      requires |given| > 0
      ensures Valid() && kernel == given && maxInputLength == maxLength && fed == []
      ensures fresh(coefficients) && fresh(state) && forall k | 0 <= k < state.Length :: state[k] == 0.0
    {
      var length := (|given| + 3) / 4 * 4;  // (coefficients_length + 3) & ~0x03
      var padding := length - |given|;
      coefficients := new real[length](i requires 0 <= i < length =>
        if i < padding then 0.0 else given[|given| - (i - padding) - 1]);
      stateLength := length - 1;
      state := new real[maxLength + (length - 1)](_ => 0.0);
      maxInputLength := maxLength;
      kernel, fed, emitted := given, [], [];
    }

    /** The body of Filter's outer loop: four products at a time, added up in four lanes. */
    method Output(ghost input: seq<real>, i: nat) returns (sum: real)
      requires coefficients.Length % 4 == 0 && 0 < |kernel| <= coefficients.Length
      requires forall j: nat | j < coefficients.Length :: coefficients[j] == Padded()[coefficients.Length - 1 - j]
      requires stateLength == coefficients.Length - 1 && i < |input| && stateLength + |input| <= state.Length
      requires forall k: nat | k < stateLength + |input| :: state[k] == At(fed + input, |fed| - stateLength + k)
      ensures sum == Convolve(kernel, fed + input, |fed| + i)
    {
      hide Convolve, At, Padded;
      ghost var all, n, t, padded := fed + input, coefficients.Length, |fed| + i, Padded();
      var sum0, sum1, sum2, sum3 := 0.0, 0.0, 0.0, 0.0;
      var j := 0;
      Empty(padded, all, t - n);
      while j < coefficients.Length
        invariant 0 <= j <= n && j % 4 == 0
        invariant sum0 + sum1 + sum2 + sum3 == Convolve(padded[n - j..], all, t - (n - j))
      {
        sum0, sum1, sum2, sum3 := Lanes(input, i, j, sum0, sum1, sum2, sum3);
        j := j + 4;
      }
      assert padded[n - j..] == padded;
      WithoutPadding(all, t);
      sum := (sum2 + sum0) + (sum3 + sum1);
    }

    /** The body of the inner loop. */
    method Lanes(ghost input: seq<real>, i: nat, j: nat, sum0: real, sum1: real, sum2: real, sum3: real)
      returns (r0: real, r1: real, r2: real, r3: real)
      requires |kernel| <= coefficients.Length && j + 4 <= coefficients.Length
      requires forall k: nat | k < coefficients.Length :: coefficients[k] == Padded()[coefficients.Length - 1 - k]
      requires stateLength == coefficients.Length - 1 && i < |input| && stateLength + |input| <= state.Length
      requires forall k: nat | k < stateLength + |input| :: state[k] == At(fed + input, |fed| - stateLength + k)
      ensures var all, n, t := fed + input, coefficients.Length, |fed| + i;
              r0 + r1 + r2 + r3 == sum0 + sum1 + sum2 + sum3 + Convolve(Padded()[n - j - 4..], all, t - (n - j - 4))
                                   - Convolve(Padded()[n - j..], all, t - (n - j))
    {
      hide Convolve, At, Product, Padded;
      FourMore(Padded(), fed + input, |fed| + i, coefficients.Length - j - 4);
      r0 := MultiplyAdd(sum0, state[i + j], coefficients[j]);
      r1 := MultiplyAdd(sum1, state[i + j + 1], coefficients[j + 1]);
      r2 := MultiplyAdd(sum2, state[i + j + 2], coefficients[j + 2]);
      r3 := MultiplyAdd(sum3, state[i + j + 3], coefficients[j + 3]);
    }

    lemma WithoutPadding(stream: seq<real>, t: int)
      requires coefficients.Length >= |kernel|
      ensures Convolve(Padded(), stream, t) == Convolve(kernel, stream, t)
    {
      TrailingZeros(kernel, coefficients.Length - |kernel|, stream, t);
    }

    /** The start of Filter: the input is put after the state. */
    method AppendInput(input: seq<real>)
      requires Valid() && |input| <= maxInputLength
      modifies state
      ensures forall k: nat | k < stateLength + |input| :: state[k] == At(fed + input, |fed| - stateLength + k)
    {
      hide Filtered;
      ghost var before := state[..stateLength];
      forall k | 0 <= k < |input| {
        state[stateLength + k] := input[k];
      }
      forall k: nat | k < stateLength + |input| ensures state[k] == At(fed + input, |fed| - stateLength + k) {
        if k < stateLength {
          assert state[k] == before[k] == At(fed, |fed| - stateLength + k);
        }
      }
    }

    /** The end of Filter: what follows the first samples moves to the front. */
    method ShiftState(length: nat)
      requires length + stateLength <= state.Length
      modifies state
      ensures forall k: nat | k < stateLength :: state[k] == old(state[length + k])
    {
      forall k | 0 <= k < stateLength {
        state[k] := state[length + k];
      }
    }

    method Filter(input: seq<real>) returns (out: array<real>)
      requires Valid() && 0 < |input| <= maxInputLength
      modifies `fed, `emitted, state
      ensures Valid() && fed == old(fed) + input && emitted == old(emitted) + out[..]
      ensures fresh(out) && out.Length == |input|
    {
      hide Convolve, Filtered, At, Padded;
      ghost var all := fed + input;
      AppendInput(input);
      out := new real[|input|];
      for i := 0 to |input|
        invariant forall k: nat | k < i :: out[k] == Convolve(kernel, all, |fed| + k)
        modifies out
      {
        var sum := Output(input, i);
        out[i] := sum;
      }
      FilteredInPieces(kernel, fed, input, out[..]);
      ShiftState(|input|);
      fed, emitted := all, emitted + out[..];
    }
  }

  /** What the filters put out, whatever the chunks: sums over samples that have been fed, as before them is silence. */
  lemma OutputsAreSums(plain: FIRFilterC, vectorized: FIRFilterSSE2)
    requires plain.Valid() && vectorized.Valid()
    ensures |plain.emitted| == |plain.fed| && |vectorized.emitted| == |vectorized.fed|
    ensures forall t: nat | t < |plain.fed| :: plain.emitted[t] == Total(Terms(plain.kernel, plain.fed, t))
    ensures forall t: nat | t < |vectorized.fed| ::
              vectorized.emitted[t] == Total(Terms(vectorized.kernel, vectorized.fed, t))
  {
    hide Convolve, Terms, Total;
    forall t: nat | t < |plain.fed| ensures plain.emitted[t] == Total(Terms(plain.kernel, plain.fed, t)) {
      ConvolveIsTotal(plain.kernel, plain.fed, t);
    }
    forall t: nat | t < |vectorized.fed|
      ensures vectorized.emitted[t] == Total(Terms(vectorized.kernel, vectorized.fed, t))
    {
      ConvolveIsTotal(vectorized.kernel, vectorized.fed, t);
    }
  }

  /** A single one, fed in any chunks, gives the coefficients, then silence. */
  lemma Impulse(plain: FIRFilterC, vectorized: FIRFilterSSE2, m: nat)
    requires plain.Valid() && plain.fed == [1.0] + Zeros(m) && m + 1 >= |plain.kernel|
    requires vectorized.Valid() && vectorized.fed == [1.0] + Zeros(m) && m + 1 >= |vectorized.kernel|
    ensures plain.emitted == plain.kernel + Zeros(m + 1 - |plain.kernel|)
    ensures vectorized.emitted == vectorized.kernel + Zeros(m + 1 - |vectorized.kernel|)
  {
    hide Filtered, Convolve;
    ImpulseResponse(plain.kernel, m);
    ImpulseResponse(vectorized.kernel, m);
  }

  /** The two implementations agree, whatever the chunks. */
  lemma ImplementationsAgree(plain: FIRFilterC, vectorized: FIRFilterSSE2)
    requires plain.Valid() && vectorized.Valid()
    requires plain.kernel == vectorized.kernel && plain.fed == vectorized.fed
    ensures plain.emitted == vectorized.emitted
  {
  }
}
