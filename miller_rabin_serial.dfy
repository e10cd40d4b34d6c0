/** The serial engine: trials run one after the other and the test stops at
    the first witness. */
module MillerRabinSerial {
  import opened Arith
  import opened MillerRabinCore

  /** Tests n with numIter trials; trial i uses bases[i], the value the
      random sampler draws for it from [2, n-1].
      Ok(true) means "probably prime", Ok(false) "proved composite".
      The ghost result `trials` is the number of trials actually run. */
  method IsProbablePrime(n: int, numIter: int, bases: seq<int>) returns (r: Result<bool>, ghost trials: nat)
    requires numIter <= |bases|
    ensures n < 3 ==> r == Err(TooSmall)
    ensures n >= 3 && n % 2 == 0 ==> r == Err(NotOdd)
    ensures !IsCandidate(n) ==> trials == 0
    ensures IsCandidate(n) ==> r.Ok? && (r.value <==> NoWitnessAmong(n, bases[..TrialCount(numIter)]))
    ensures IsCandidate(n) && r == Ok(false) ==>
      1 <= trials <= TrialCount(numIter) && IsWitness(n, bases[trials - 1]) && NoWitnessAmong(n, bases[..trials - 1])
    ensures IsCandidate(n) && r == Ok(true) ==> trials == TrialCount(numIter)
    ensures IsCandidate(n) && numIter <= 0 ==> r == Ok(true) && trials == 0
  {
    trials := 0;
    if n < 3 {
      return Err(TooSmall), trials;
    }
    if n % 2 == 0 {
      return Err(NotOdd), trials;
    }

    var s, d := Decompose(n);

    var i := 0;
    while i < numIter
      invariant 0 <= i <= TrialCount(numIter)
      invariant NoWitnessAmong(n, bases[..i])
      invariant trials == i
    {
      trials := i + 1;
      var a := bases[i];
      var x := ModPow(a, d, n);
      ChainStart(n, a, d);
      if x == 1 || x == n - 1 {
        // a^d is 1 or n - 1: a cannot be a witness, go to the next trial
        assert bases[..i + 1] == bases[..i] + [a];
        i := i + 1;
        continue;
      }

      var r := 1;
      while r < s
        invariant 1 <= r <= s
        invariant x == Chain(n, a, d, r - 1)
        invariant forall j :: 0 <= j < r ==> Chain(n, a, d, j) != 1 && Chain(n, a, d, j) != n - 1
      {
        ChainStep(n, a, d, r - 1);
        x := ModPow(x, 2, n);
        if x == 1 {
          // a^(2^r d) == 1 after values other than 1 and n - 1: n is composite
          forall j | r <= j < s ensures Chain(n, a, d, j) != n - 1 {
            ChainStaysOne(n, a, d, r, j);
          }
          return Ok(false), trials;
        }
        if x == n - 1 {
          break;
        }
        r := r + 1;
      }
      if r == s {
        // no value reached n - 1: a is a witness
        return Ok(false), trials;
      }
      assert bases[..i + 1] == bases[..i] + [a];
      i := i + 1;
    }
    assert bases[..TrialCount(numIter)] == bases[..i];
    return Ok(true), trials;
  }
}
