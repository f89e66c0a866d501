/** Streams of audio samples, over exact reals. */
module Samples {

  /** Silence. */
  function Zeros(n: nat): (s: seq<real>)
    ensures |s| == n && forall i | 0 <= i < n :: s[i] == 0.0
  {
    seq(n, _ => 0.0)
  }

  /** The sum of all of them. */
  function Total(s: seq<real>): real {
    if |s| == 0 then 0.0 else s[0] + Total(s[1..])
  }
}
