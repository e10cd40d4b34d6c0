/** The threaded engine: one task per trial, every task runs, and the
    collected outcomes are ANDed together. The worker pool is replaced by
    running the tasks one after the other; the outcome of each task is what
    its future yields. */
module MillerRabinThreaded {
  import opened Arith
  import opened Primality
  import opened MillerRabinCore
  import MillerRabinSerial

  /** One trial task, carrying the (n, d, s) of its test. */
  datatype MillerRabinCallable = MillerRabinCallable(n: int, d: nat, s: nat) {

    /** The decomposition the task is built with: n - 1 == 2^s * d, d odd
        (which makes n an odd number of at least 3). */
    predicate Valid() {
      IsCandidate(n) && s >= 1 && d % 2 == 1 && n - 1 == Pow(2, s) * d
    }

    /** Runs one trial with base a (drawn from [2, n-1] by the sampler).
        true: no compositeness detected; false: a is a witness. */
    method Call(a: int) returns (passed: bool)
      requires Valid()
      ensures passed <==> !IsStrongWitness(n, a, s, d)
      ensures passed <==> !IsWitness(n, a)
    {
      SplitUnique(n - 1, s, d);
      var x := ModPow(a, d, n);
      ChainStart(n, a, d);
      if x == 1 || x == n - 1 {
        return true;
      }
      var r := 1;
      while r < s
        invariant 1 <= r <= s
        invariant x == Chain(n, a, d, r - 1)
        invariant forall j :: 0 <= j < r ==> Chain(n, a, d, j) != 1 && Chain(n, a, d, j) != n - 1
      {
        ChainStep(n, a, d, r - 1);
        x := ModPow(x, 2, n);
        if x == 1 {
          forall j | r <= j < s ensures Chain(n, a, d, j) != n - 1 {
            ChainStaysOne(n, a, d, r, j);
          }
          return false;
        }
        if x == n - 1 {
          return true;
        }
        r := r + 1;
      }
      // Since s >= 1 the loop always ends with r == s, so the trailing
      // `return true` of call() after this test is never reached.
      assert r == s;
      return false;
    }
  }

  /** The resolved result of a submitted task. */
  datatype Future = Future(task: MillerRabinCallable, outcome: bool)

  /** The fold over the collected results: every trial passed. */
  predicate AllPassed(results: seq<Future>) {
    forall k :: 0 <= k < |results| ==> results[k].outcome
  }

  /** The order in which results are collected does not matter. */
  lemma AllPassedAnyOrder(results: seq<Future>, reordered: seq<Future>)
    requires multiset(results) == multiset(reordered)
    ensures AllPassed(results) <==> AllPassed(reordered)
  {
    forall k | 0 <= k < |reordered| && AllPassed(results) ensures reordered[k].outcome {
      assert reordered[k] in multiset(results);
    }
    forall k | 0 <= k < |results| && AllPassed(reordered) ensures results[k].outcome {
      assert results[k] in multiset(reordered);
    }
  }

  /** The futures a call adds, one per trial, for the given bases. */
  ghost predicate TasksFor(n: int, futures: seq<Future>, bases: seq<int>)
    requires IsCandidate(n)
  {
    var (s, d) := Split(n - 1);
    |futures| == |bases| &&
    forall k :: 0 <= k < |futures| ==>
      futures[k].task == MillerRabinCallable(n, d, s) &&
      (futures[k].outcome <==> !IsWitness(n, bases[k]))
  }

  lemma TasksForVerdict(n: int, futures: seq<Future>, bases: seq<int>)
    requires IsCandidate(n) && TasksFor(n, futures, bases)
    ensures AllPassed(futures) <==> NoWitnessAmong(n, bases)
  {
  }

  class MillerRabinThreaded {
    /** Size of the worker pool; scheduling is not modelled. */
    const numThreads: int
    /** The futures of all tasks submitted so far. */
    var results: seq<Future>
    /** Set once the pool has been shut down; later submissions are refused. */
    var shutDown: bool

    constructor (numThreads: int)
      requires numThreads > 0
      ensures this.numThreads == numThreads
      ensures results == [] && !shutDown
    {
      this.numThreads := numThreads;
      results := [];
      shutDown := false;
    }

    /** Tests n with numIter trial tasks; task i uses bases[i]. */
    method IsProbablePrime(n: int, numIter: int, bases: seq<int>) returns (r: Result<bool>)
      requires numIter <= |bases|
      modifies this
      ensures n < 3 ==> r == Err(TooSmall) && unchanged(this)
      ensures n >= 3 && n % 2 == 0 ==> r == Err(NotOdd) && unchanged(this)
      ensures IsCandidate(n) && old(shutDown) && numIter > 0 ==>
        r == Err(RejectedExecution) && results == old(results) && shutDown
      ensures IsCandidate(n) && !(old(shutDown) && numIter > 0) ==>
        && shutDown
        && |results| == |old(results)| + TrialCount(numIter)
        && results[..|old(results)|] == old(results)
        && TasksFor(n, results[|old(results)|..], bases[..|results| - |old(results)|])
        && r == Ok(AllPassed(results))
    {
      if n < 3 {
        return Err(TooSmall);
      }
      if n % 2 == 0 {
        return Err(NotOdd);
      }

      var s, d := Decompose(n);

      ghost var before := results;
      var i := 0;
      while i < numIter
        invariant 0 <= i <= TrialCount(numIter)
        invariant shutDown ==> i == 0
        invariant |results| == |before| + i && results[..|before|] == before
        invariant TasksFor(n, results[|before|..], bases[..i])
        invariant shutDown == old(shutDown)
      {
        var task := MillerRabinCallable(n, d, s);
        if shutDown {
          return Err(RejectedExecution);
        }
        var outcome := task.Call(bases[i]);
        results := results + [Future(task, outcome)];
        i := i + 1;
      }
      shutDown := true;

      var isProbablePrime := true;
      var k := 0;
      while k < |results|
        invariant 0 <= k <= |results|
        invariant isProbablePrime <==> AllPassed(results[..k])
      {
        if !results[k].outcome {
          isProbablePrime := false;
          break;
        }
        k := k + 1;
      }
      return Ok(isProbablePrime);
    }
  }

  /** On the same bases, a fresh threaded engine gives the serial engine's
      answer: each task is one serial trial, and the AND of the outcomes is
      the serial verdict. On a prime with bases in [2, n-1] both say
      "probably prime". */
  method EnginesAgree(n: int, numIter: int, numThreads: int, bases: seq<int>)
    returns (serial: Result<bool>, threaded: Result<bool>)
    requires numIter <= |bases| && numThreads > 0
    ensures serial == threaded
    ensures IsCandidate(n) && IsPrime(n) && (forall i :: 0 <= i < |bases| ==> 2 <= bases[i] <= n - 1) ==>
      threaded == Ok(true)
  {
    ghost var trials;
    serial, trials := MillerRabinSerial.IsProbablePrime(n, numIter, bases);
    var engine := new MillerRabinThreaded(numThreads);
    threaded := engine.IsProbablePrime(n, numIter, bases);
    if IsCandidate(n) {
      assert engine.results[0..] == engine.results;
      TasksForVerdict(n, engine.results, bases[..TrialCount(numIter)]);
      if IsPrime(n) && forall i :: 0 <= i < |bases| ==> 2 <= bases[i] <= n - 1 {
        PrimePassesAllTrials(n, bases[..TrialCount(numIter)]);
      }
    }
  }
}
