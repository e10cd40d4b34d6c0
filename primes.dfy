/** Test inputs: Mersenne numbers 2^p - 1 and some known Mersenne primes. */
module Primes {
  import opened Arith
  import opened MillerRabinCore
  import opened Utility

  /** The Mersenne number 2^power - 1: the largest number below 2^power,
      and for power >= 1 no smaller than 2^(power-1), i.e. a power-bit
      number with every bit set. */
  function Mersenneify(power: nat): (m: nat)
    ensures m < Pow(2, power)
    ensures power >= 1 ==> Pow(2, power - 1) <= m
  {
    Pow(2, power) - 1
  }

  const M_11: nat := Mersenneify(107)
  const M_15: nat := Mersenneify(1279)
  const M_16: nat := Mersenneify(2203)
  const M_17: nat := Mersenneify(2281)
  const M_18: nat := Mersenneify(3217)
  const M_19: nat := Mersenneify(4253)
  const M_20: nat := Mersenneify(4423)
  const M_21: nat := Mersenneify(9689)
  const M_22: nat := Mersenneify(9941)
  const M_23: nat := Mersenneify(11213)
  const M_25: nat := Mersenneify(21701)
  const M_28: nat := Mersenneify(86243)

  /** 2^(p+1) - 1 is 2^p - 1 followed by one more 1 bit. */
  lemma MersenneStep(p: nat)
    ensures Mersenneify(p + 1) == 2 * Mersenneify(p) + 1
  {
  }

  /** 2^p - 1 has exactly p bits. */
  lemma {:induction false} MersenneBitLength(p: nat)
    ensures BitLength(Mersenneify(p)) == p
  {
    if p > 0 {
      MersenneStep(p - 1);
      MersenneBitLength(p - 1);
      assert Mersenneify(p) / 2 == Mersenneify(p - 1);
    }
  }

  /** For p >= 1, 2^p - 1 is odd. */
  lemma {:induction false} MersenneOdd(p: nat)
    requires p >= 1
    ensures Mersenneify(p) % 2 == 1
  {
    MersenneStep(p - 1);
  }

  /** For p >= 2, 2^p - 1 is odd and at least 3: both engines accept it. */
  lemma {:induction false} MersenneIsCandidate(p: nat)
    requires p >= 2
    ensures IsCandidate(Mersenneify(p))
  {
    MersenneStep(p - 1);
    MersenneOdd(p);
    assert Pow(2, p - 1) >= 2 by {
      assert Pow(2, p - 1) == 2 * Pow(2, p - 2);
    }
  }

  /** For p >= 2, n - 1 == 2 * (2^(p-1) - 1) with an odd second factor, so
      the decomposition of n == 2^p - 1 has s == 1 and d == 2^(p-1) - 1. */
  lemma MersenneDecomposition(p: nat)
    requires p >= 2
    ensures Mersenneify(p) >= 3
    ensures Split(Mersenneify(p) - 1) == (1, Mersenneify(p - 1))
  {
    MersenneIsCandidate(p);
    MersenneStep(p - 1);
    MersenneOdd(p - 1);
    SplitUnique(Mersenneify(p) - 1, 1, Mersenneify(p - 1));
  }

  /** On a Mersenne number a base is a witness exactly when its first value
      a^(2^(p-1) - 1) mod n is neither 1 nor n - 1: no squaring takes place. */
  lemma MersenneWitness(p: nat, a: int)
    requires p >= 2
    ensures IsCandidate(Mersenneify(p))
    ensures IsWitness(Mersenneify(p), a) <==>
      ModPow(a, Mersenneify(p - 1), Mersenneify(p)) !in {1, Mersenneify(p) - 1}
  {
    MersenneDecomposition(p);
    SingleSquaring(Mersenneify(p), a);
  }

  /** The listed Mersenne numbers are valid inputs with exactly as many
      bits as their exponent. */
  lemma ListedNumbersAreCandidates()
    ensures IsCandidate(M_11) && BitLength(M_11) == 107
    ensures IsCandidate(M_15) && BitLength(M_15) == 1279
    ensures IsCandidate(M_16) && BitLength(M_16) == 2203
    ensures IsCandidate(M_17) && BitLength(M_17) == 2281
    ensures IsCandidate(M_18) && BitLength(M_18) == 3217
    ensures IsCandidate(M_19) && BitLength(M_19) == 4253
    ensures IsCandidate(M_20) && BitLength(M_20) == 4423
    ensures IsCandidate(M_21) && BitLength(M_21) == 9689
    ensures IsCandidate(M_22) && BitLength(M_22) == 9941
    ensures IsCandidate(M_23) && BitLength(M_23) == 11213
    ensures IsCandidate(M_25) && BitLength(M_25) == 21701
    ensures IsCandidate(M_28) && BitLength(M_28) == 86243
  {
    MersenneIsCandidate(107);
    MersenneBitLength(107);
    MersenneIsCandidate(1279);
    MersenneBitLength(1279);
    MersenneIsCandidate(2203);
    MersenneBitLength(2203);
    MersenneIsCandidate(2281);
    MersenneBitLength(2281);
    MersenneIsCandidate(3217);
    MersenneBitLength(3217);
    MersenneIsCandidate(4253);
    MersenneBitLength(4253);
    MersenneIsCandidate(4423);
    MersenneBitLength(4423);
    MersenneIsCandidate(9689);
    MersenneBitLength(9689);
    MersenneIsCandidate(9941);
    MersenneBitLength(9941);
    MersenneIsCandidate(11213);
    MersenneBitLength(11213);
    MersenneIsCandidate(21701);
    MersenneBitLength(21701);
    MersenneIsCandidate(86243);
    MersenneBitLength(86243);
  }
}
