/** Unity's global random generator, seen from the generators.

    After `Random.InitState(seed)` the generator yields a fixed stream of raw
    draws; every call to `Random.Range` or `Random.value` consumes one of them.
    The stream is abstract here (any function from draw number to integer), so
    every property proved about the generators holds for every seed. Where a
    contract states a result as a function of the stream, two runs over the
    same stream give the same result. */
module Rand {

  /** `Random.Range(lo, hi)` for integers: a value in [lo, hi), or `lo` itself
      when the range is empty (lo == hi), as Unity documents. */
  function RangeOf(lo: int, hi: int, draw: int): (r: int)
    requires lo <= hi
    ensures lo < hi ==> lo <= r < hi
    ensures lo == hi ==> r == lo
  {
    if lo == hi then lo else lo + draw % (hi - lo)
  }

  /** No outcome that Unity can produce is lost by the abstraction: every value
      of a non-empty range is the result of some draw. */
  lemma RangeOfReachesAll(lo: int, hi: int, v: int)
    requires lo <= v < hi
    ensures exists d :: RangeOf(lo, hi, d) == v
  {
    assert RangeOf(lo, hi, v - lo) == v;
  }

  class Random {
    /** The stream of raw draws that the seed determines. */
    const draws: nat -> int
    /** How many draws have been consumed so far. */
    var position: nat

    constructor (draws: nat -> int)
      ensures this.draws == draws && position == 0
    {
      this.draws := draws;
      position := 0;
    }

    /** `Random.Range(lo, hi)` on integers. */
    method Range(lo: int, hi: int) returns (r: int)
      requires lo <= hi
      modifies this
      ensures position == old(position) + 1
      ensures r == RangeOf(lo, hi, draws(old(position)))
    {
      r := RangeOf(lo, hi, draws(position));
      position := position + 1;
    }

    /** `Random.value > 0.5f`: a fair coin. */
    method Coin() returns (b: bool)
      modifies this
      ensures position == old(position) + 1
      ensures b == (draws(old(position)) % 2 == 1)
    {
      b := draws(position) % 2 == 1;
      position := position + 1;
    }

    /** `Random.value < p` with p given in percent. */
    method Chance(percent: int) returns (b: bool)
      modifies this
      ensures position == old(position) + 1
      ensures b == (draws(old(position)) % 100 < percent)
      ensures percent <= 0 ==> !b
      ensures percent >= 100 ==> b
    {
      b := draws(position) % 100 < percent;
      position := position + 1;
    }
  }
}
