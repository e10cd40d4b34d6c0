/** The rejection sampler the engines use to draw trial bases. */
module Utility {
  import opened Arith

  datatype Option<T> = None | Some(value: T)

  /** BigInteger.bitLength: the number of bits of the minimal two's
      complement representation of x, excluding the sign bit. */
  function BitLength(x: int): (k: nat)
    decreases x < 0, if x < 0 then 0 else x
  {
    if x < 0 then BitLength(-x - 1)
    else if x == 0 then 0
    else 1 + BitLength(x / 2)
  }

  /** For x >= 0, BitLength(x) is the least k with x < 2^k. */
  lemma {:induction false} BitLengthBounds(x: int)
    requires x >= 0
    ensures x < Pow(2, BitLength(x))
    ensures x > 0 ==> Pow(2, BitLength(x) - 1) <= x
    decreases x
  {
    if x > 0 {
      BitLengthBounds(x / 2);
    }
  }

  /** A candidate draw fits in high's bit length, as
      `new BigInteger(high.bitLength(), random)` guarantees. */
  ghost predicate InDrawSpace(high: int, draws: seq<int>) {
    forall k :: 0 <= k < |draws| ==> 0 <= draws[k] < Pow(2, BitLength(high))
  }

  /** Rejection sampling over a stream of random candidate draws: the first
      draw inside [low, high] is returned, together with the number of
      draws consumed. None means that every draw of the stream was rejected,
      i.e. the sampler's do-while loop would still be running. */
  method UniformRandom(low: int, high: int, draws: seq<int>) returns (r: Option<int>, used: nat)
    requires InDrawSpace(high, draws)
    ensures r.Some? ==> low <= r.value <= high
    ensures low > high ==> r.None?
    ensures r.Some? ==> 1 <= used <= |draws| && r.value == draws[used - 1]
    ensures r.None? ==> used == |draws|
    ensures forall k :: 0 <= k < used && (r.Some? ==> k < used - 1) ==> !(low <= draws[k] <= high)
  {
    used := 0;
    while used < |draws|
      invariant 0 <= used <= |draws|
      invariant forall k :: 0 <= k < used ==> !(low <= draws[k] <= high)
    {
      var result := draws[used];
      used := used + 1;
      if !(result < low || result > high) {
        return Some(result), used;
      }
    }
    return None, used;
  }

  /** Every value of [low, high] can be drawn when 0 <= low: the range lies
      inside [0, 2^bitLength(high)). */
  lemma RangeInsideDrawSpace(low: int, high: int, v: int)
    requires 0 <= low <= v <= high
    ensures 0 <= v < Pow(2, BitLength(high))
  {
    BitLengthBounds(high);
  }
}
