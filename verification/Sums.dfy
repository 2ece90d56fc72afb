/** Finite sums over sequences, and how far rounding each term moves the sum. */
module Sums {
  import opened Money

  function Sum(xs: seq<int>): int {
    if xs == [] then 0 else Sum(xs[..|xs| - 1]) + xs[|xs| - 1]
  }

  function SumReal(xs: seq<real>): real {
    if xs == [] then 0.0 else SumReal(xs[..|xs| - 1]) + xs[|xs| - 1]
  }

  function QuantiseAll(xs: seq<real>): (cs: seq<int>)
    ensures |cs| == |xs|
    ensures forall i :: 0 <= i < |xs| ==> cs[i] == Quantise(xs[i])
  {
    seq(|xs|, i requires 0 <= i < |xs| => Quantise(xs[i]))
  }

  lemma SumAppend(xs: seq<int>, x: int)
    ensures Sum(xs + [x]) == Sum(xs) + x
  {
    assert (xs + [x])[..|xs|] == xs;
  }

  /** Rounding n terms moves their sum by at most n half-cents. */
  lemma {:induction false} RoundedSumBound(xs: seq<real>)
    ensures Abs(Chf(Sum(QuantiseAll(xs))) - SumReal(xs)) <= HALF_CENT * |xs| as real
  {
    if xs != [] {
      var n := |xs| - 1;
      RoundedSumBound(xs[..n]);
      assert QuantiseAll(xs)[..n] == QuantiseAll(xs[..n]);
      assert HALF_CENT * |xs| as real == HALF_CENT * n as real + HALF_CENT;
    }
  }
}
