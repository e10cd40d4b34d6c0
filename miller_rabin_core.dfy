/** The pieces both Miller-Rabin engines share: the input checks, the
    decomposition n - 1 == 2^s * d with d odd, and the witness condition of
    one trial (Handbook of Applied Cryptography, Algorithm 4.24). */
module MillerRabinCore {
  import opened Arith
  import opened Primality

  /** Why a call fails instead of answering. */
  datatype Failure =
    | TooSmall           // IllegalArgumentException: n must be at least 3
    | NotOdd             // IllegalArgumentException: n must be odd
    | RejectedExecution  // a task was submitted to a pool that is shut down

  datatype Result<T> = Ok(value: T) | Err(failure: Failure)

  /** The inputs the engines accept: odd and at least 3. */
  predicate IsCandidate(n: int) {
    n >= 3 && n % 2 == 1
  }

  /** Number of trials a call runs when no witness shows up. */
  function TrialCount(numIter: int): nat {
    if numIter <= 0 then 0 else numIter
  }

  // ---------------------------------------------------------------------
  // Decomposition

  /** Reference definition of the decomposition: the exponent of 2 in m
      and the odd part of m. */
  function Split(m: nat): (r: (nat, nat))
    requires m > 0
    ensures r.1 % 2 == 1 && Pow(2, r.0) * r.1 == m
  {
    if m % 2 == 1 then (0, m)
    else
      var (s, d) := Split(m / 2);
      (s + 1, d)
  }

  /** The decomposition is unique: any odd d and s with 2^s * d == m are
      the ones Split computes. */
  lemma {:induction false} SplitUnique(m: nat, s: nat, d: nat)
    requires m > 0 && d % 2 == 1 && Pow(2, s) * d == m
    ensures Split(m) == (s, d)
  {
    if s == 0 {
      assert m == d;
    } else {
      var t := Pow(2, s - 1) * d;
      MulAssoc(2, Pow(2, s - 1), d);
      assert m == 2 * t;
      DivModUnique(m, 2, t, 0);
      SplitUnique(t, s - 1, d);
    }
  }

  /** The halving loop both engines run on n - 1. */
  method Decompose(n: int) returns (s: nat, d: nat)
    requires IsCandidate(n)
    ensures s >= 1 && d % 2 == 1 && n - 1 == Pow(2, s) * d
    ensures (s, d) == Split(n - 1)
  {
    s, d := 0, n - 1;
    while d % 2 == 0
      invariant d > 0 && n - 1 == Pow(2, s) * d
      decreases d
    {
      s := s + 1;
      d := d / 2;
    }
    SplitUnique(n - 1, s, d);
  }

  // ---------------------------------------------------------------------
  // One trial

  /** The j-th value of a trial: a^(2^j * d) mod n. The trial starts from
      Chain(0) == a^d mod n and squares it modulo n at each step. */
  function Chain(n: int, a: int, d: nat, j: nat): (x: int)
    requires n > 0
    ensures 0 <= x < n
  {
    ModPow(a, Pow(2, j) * d, n)
  }

  /** a is a strong witness for the compositeness of n = 2^s * d + 1 when
      a^d is not 1 and none of a^d, a^(2d), ..., a^(2^(s-1) d) is n - 1,
      all modulo n. */
  predicate IsStrongWitness(n: int, a: int, s: nat, d: nat)
    requires n > 0
  {
    Chain(n, a, d, 0) != 1 && forall j :: 0 <= j < s ==> Chain(n, a, d, j) != n - 1
  }

  /** The witness condition for a candidate, with its own decomposition. */
  predicate IsWitness(n: int, a: int)
    requires IsCandidate(n)
  {
    var (s, d) := Split(n - 1);
    IsStrongWitness(n, a, s, d)
  }

  /** The verdict of a test on the given bases: no base is a witness. */
  predicate NoWitnessAmong(n: int, bases: seq<int>)
    requires IsCandidate(n)
  {
    forall i :: 0 <= i < |bases| ==> !IsWitness(n, bases[i])
  }

  lemma ChainStart(n: int, a: int, d: nat)
    requires n > 0
    ensures Chain(n, a, d, 0) == ModPow(a, d, n)
  {
    assert Pow(2, 0) * d == d;
  }

  /** Squaring the j-th value modulo n gives the next one: this is what
      the trial loop computes with x.modPow(2, n). */
  lemma ChainStep(n: int, a: int, d: nat, j: nat)
    requires n > 0
    ensures Chain(n, a, d, j + 1) == ModPow(Chain(n, a, d, j), 2, n)
  {
    var k := Pow(2, j) * d;
    assert Pow(2, j + 1) * d == 2 * k;
    PowDouble(a, k);
    SquareMod(Pow(a, k), n);
    ModPowSquare(Chain(n, a, d, j), n);
  }

  /** Once a value of the chain is 1, all later values are 1. */
  lemma {:induction false} ChainStaysOne(n: int, a: int, d: nat, j: nat, k: nat)
    requires n > 1 && j <= k && Chain(n, a, d, j) == 1
    ensures Chain(n, a, d, k) == 1
    decreases k - j
  {
    if j < k {
      ChainStep(n, a, d, j);
      ModPowSquare(1, n);
      DivModUnique(1, n, 0, 1);
      assert Chain(n, a, d, j + 1) == 1;
      ChainStaysOne(n, a, d, j + 1, k);
    }
  }

  /** (n-1)^e mod n alternates between 1 and n - 1. */
  lemma {:induction false} MinusOnePow(n: int, e: nat)
    requires n >= 3
    ensures ModPow(n - 1, e, n) == if e % 2 == 1 then n - 1 else 1
  {
    if e == 0 {
      DivModUnique(1, n, 0, 1);
    } else {
      MinusOnePow(n, e - 1);
      var prev := Pow(n - 1, e - 1);
      ModMul(n - 1, prev, n);
      DivModUnique(n - 1, n, 0, n - 1);
      if e % 2 == 1 {
        // prev == 1 (mod n), so (n-1) * prev == n - 1 (mod n)
        DivModUnique(n - 1, n, 0, n - 1);
      } else {
        // prev == n - 1 (mod n), and (n-1)^2 == n*(n-2) + 1
        assert (n - 1) * (n - 1) == n * (n - 2) + 1;
        DivModUnique((n - 1) * (n - 1), n, n - 2, 1);
      }
    }
  }

  /** The base n - 1 is never a witness: d is odd, so (n-1)^d mod n is
      n - 1 and the trial ends inconclusive at once. This is why drawing
      bases from [2, n-1] rather than [2, n-2] does no harm. */
  lemma LastBaseNeverWitness(n: int)
    requires IsCandidate(n)
    ensures !IsWitness(n, n - 1)
  {
    var (s, d) := Split(n - 1);
    ChainStart(n, n - 1, d);
    MinusOnePow(n, d);
    assert Chain(n, n - 1, d, 0) == n - 1;
  }

  /** When n - 1 has a single factor 2 (s == 1), a base is a witness exactly
      when its first value a^d mod n is neither 1 nor n - 1. */
  lemma SingleSquaring(n: int, a: int)
    requires IsCandidate(n) && Split(n - 1).0 == 1
    ensures IsWitness(n, a) <==> ModPow(a, Split(n - 1).1, n) !in {1, n - 1}
  {
    ChainStart(n, a, Split(n - 1).1);
  }

  // ---------------------------------------------------------------------
  // Soundness

  /** Along the chain of a strong witness modulo a prime, no value is 1. */
  lemma {:induction false} WitnessChainAvoidsOne(n: int, a: int, s: nat, d: nat, j: nat)
    requires IsPrime(n) && IsStrongWitness(n, a, s, d) && j <= s
    ensures Chain(n, a, d, j) != 1
  {
    if j > 0 {
      WitnessChainAvoidsOne(n, a, s, d, j - 1);
      var x := Chain(n, a, d, j - 1);
      ChainStep(n, a, d, j - 1);
      ModPowSquare(x, n);
      if Chain(n, a, d, j) == 1 {
        SquareRootOfOne(n, x);
      }
    }
  }

  /** Soundness of one trial: modulo a prime n no base in [2, n-1] is a
      witness, so a witness proves n composite. */
  lemma PrimeHasNoWitness(n: int, a: int)
    requires IsCandidate(n) && 2 <= a <= n - 1
    ensures IsPrime(n) ==> !IsWitness(n, a)
  {
    if IsPrime(n) && IsWitness(n, a) {
      var (s, d) := Split(n - 1);
      WitnessChainAvoidsOne(n, a, s, d, s);
      DivModUnique(a, n, 0, a);
      Fermat(n, a);
    }
  }

  /** Soundness of a whole test: a prime passes every trial. */
  lemma PrimePassesAllTrials(n: int, bases: seq<int>)
    requires IsCandidate(n) && IsPrime(n)
    requires forall i :: 0 <= i < |bases| ==> 2 <= bases[i] <= n - 1
    ensures NoWitnessAmong(n, bases)
  {
    forall i | 0 <= i < |bases| ensures !IsWitness(n, bases[i]) {
      PrimeHasNoWitness(n, bases[i]);
    }
  }
}
