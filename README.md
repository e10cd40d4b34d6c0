# Miller–Rabin primality test: a verified model

This project models the Miller–Rabin probabilistic primality test of the
`MillerRabinTests` Java repository (Handbook of Applied Cryptography,
section 4.2.3, Algorithm 4.24). The repository has two engines:

- **Serial engine** (`MillerRabinSerial.isProbablePrime`). It rejects `n < 3`
  and even `n`, writes `n - 1 = 2^s * d` with `d` odd by repeated halving,
  and runs `numIter` trials. Each trial takes a random base `a` in `[2, n-1]`
  and computes `x = a^d mod n`. It then squares `x` modulo `n` at most
  `s - 1` times. The engine returns `false` at the first witness.
- **Threaded engine** (`MillerRabinThreaded`). It does the same checks and
  decomposition, then submits one `MillerRabinCallable` task per trial and
  stores each task's future in `results`. After the pool drains, it ANDs the
  outcomes.

Two helpers complete the core:

- `Utility.uniformRandom`: the rejection sampler that draws bases.
- `Primes.mersenneify`: builds `2^p - 1`; the `M_*` constants are built with it.

## How the model is organised

- `arith.dfy` (module `Arith`): `Pow` and `ModPow`, which stand for
  `BigInteger.pow` and `BigInteger.modPow`, plus the modular-arithmetic
  lemmas the proofs use.
- `primality.dfy` (module `Primality`): `IsPrime`, Euclid's lemma, the square
  roots of 1 modulo a prime, and Fermat's little theorem, proved by the
  permutation argument. The test's soundness rests on these.
- `miller_rabin_core.dfy` (module `MillerRabinCore`): the pieces both engines
  share.
  - The input checks and the failure results.
  - The halving loop `Decompose`, and `Split`, the reference definition it
    is proved equal to. Both engines run this same loop.
  - The values of one trial, `Chain(j) = a^(2^j d) mod n`.
  - The textbook strong-witness condition `IsStrongWitness`: `a^d != 1` and
    no `Chain(j)` with `j < s` equals `n - 1`.
  - The soundness lemmas.
- `miller_rabin_serial.dfy`: the serial engine as one method. It has the
  decomposition call, the trial loop, and the inner squaring loop with the
  original early exits (`continue`, `break`, `return false`).
- `miller_rabin_threaded.dfy` covers the threaded engine.
  - `MillerRabinCallable` is an immutable datatype with the trial method
    `Call`.
  - `MillerRabinThreaded` is a class. Its fields are `results`, the futures
    of the submitted tasks, and `shutDown`, whether the pool has been shut
    down.
  - Each task runs when it is submitted, and its outcome is stored in its
    future. The fold then ANDs the stored outcomes.
- `utility.dfy`: `BitLength` (`BigInteger.bitLength`) and the rejection
  sampler.
- `primes.dfy`: `Mersenneify` and the twelve listed Mersenne numbers.

Integers are unbounded, like `BigInteger`. The random bases are inputs.
Trial `i` of either engine uses `bases[i]`, so the two engines can be
compared on the same draws. The sampler is modelled on its own, over a
finite stream of raw draws. Its postcondition puts every returned value in
`[low, high]`. Called with `(2, n-1)`, it therefore meets the soundness
lemma's requirement `2 <= a <= n - 1`.

On a second call to the same `MillerRabinThreaded` instance, the pool is
already shut down. The model keeps what that call does in the original.
With `numIter > 0`, the first submission is refused (`RejectedExecution`).
With `numIter <= 0`, the fold still runs over the stale results of the
earlier call, because `results` is never cleared.

## Model

| member | source | states |
|---|---|---|
| `Arith.ModPow` | src/MillerRabinSerial.java:87 | `a.modPow(d, n)` for a positive modulus is the least non-negative residue, in `[0, n)` |
| `MillerRabinCore.Split` | src/MillerRabinSerial.java:70-78 | the reference decomposition of `m > 0`: the odd part `d` and exponent `s` with `2^s * d == m` |
| `MillerRabinCore.SplitUnique` | src/MillerRabinSerial.java:78 | the decomposition is unique: any odd `d` with `2^s * d == m` is the one `Split` gives, so every copy of the loop yields the same `(s, d)` |
| `MillerRabinCore.Decompose` | src/MillerRabinSerial.java:70-76 | the halving loop ends (d strictly decreases) with `n - 1 == 2^s * d`, `d` odd and `s >= 1`; the threaded copy at src/MillerRabinThreaded.java:140-146 is the same loop |
| `MillerRabinCore.ChainStart` | src/MillerRabinSerial.java:87 | a trial's first value `a^d mod n` is the 0-th value `a^(2^0 d) mod n` of the squaring chain |
| `MillerRabinCore.ChainStep` | src/MillerRabinSerial.java:96-98 | `x.modPow(2, n)` turns `a^(2^j d) mod n` into `a^(2^(j+1) d) mod n`, so the inner loop walks the chain |
| `MillerRabinCore.ChainStaysOne` | src/MillerRabinSerial.java:99-101 | once a chain value is 1 every later one is 1, so none can be `n - 1`: hitting 1 after values other than 1 and `n - 1` proves a witness |
| `MillerRabinCore.MinusOnePow` | src/MillerRabinSerial.java:85-88 | `(n-1)^e mod n` is `n - 1` for odd `e` and 1 for even `e` |
| `MillerRabinCore.LastBaseNeverWitness` | src/MillerRabinSerial.java:85-88 | the base `n - 1`, which the draw from `[2, n-1]` allows although the comment says `[2, n-2]`, is never a witness, since `d` is odd |
| `MillerRabinCore.SingleSquaring` | src/MillerRabinSerial.java:96-111 | when `s == 1` the squaring loop runs zero times and a base is a witness exactly when `a^d mod n` is neither 1 nor `n - 1` |
| `MillerRabinCore.WitnessChainAvoidsOne` | src/MillerRabinSerial.java:10-14 | modulo a prime, the chain of a strong witness never reaches 1 (square roots of 1 are only 1 and `n - 1`) |
| `MillerRabinCore.PrimeHasNoWitness` | src/MillerRabinSerial.java:10-14 | soundness: if `n` is prime, no base in `[2, n-1]` is a witness, so a witness proves `n` composite |
| `MillerRabinCore.PrimePassesAllTrials` | src/MillerRabinSerial.java:113-117 | a prime passes every trial on bases from `[2, n-1]`: the engines answer "probably prime" for it |
| `Primality.SquareRootOfOne` | src/MillerRabinSerial.java:10-14 | modulo a prime `p`, `x^2 == 1` only for `x == 1` or `x == p - 1` |
| `Primality.Fermat` | src/MillerRabinSerial.java:10-14 | Fermat's little theorem: `a^(p-1) mod p == 1` for a prime `p` not dividing `a` |
| `MillerRabinSerial.IsProbablePrime` | src/MillerRabinSerial.java:61-118 | `n < 3` gives `TooSmall` and even `n` gives `NotOdd`, before any work (no trial is run); otherwise the answer is `true` iff none of the first `numIter` bases is a strong witness (`numIter <= 0` gives `true`); a `false` comes from the first witness, after exactly that many trials |
| `MillerRabinThreaded.MillerRabinCallable.Call` | src/MillerRabinThreaded.java:83-106 | one task's trial returns `false` exactly when its base is a strong witness, the same decision as one serial trial; the final `return true` is unreachable (`r == s` after the loop) |
| `MillerRabinThreaded.AllPassedAnyOrder` | src/MillerRabinThreaded.java:170-178 | the AND-fold over the futures does not depend on the order in which they are collected |
| `MillerRabinThreaded.TasksForVerdict` | src/MillerRabinThreaded.java:151-158 | when each submitted task carries the test's `(n, d, s)` and its trial's outcome, their AND is the serial verdict on the same bases |
| `MillerRabinThreaded.MillerRabinThreaded.constructor` | src/MillerRabinThreaded.java:115-120 | a new engine, built with a positive pool size as `newFixedThreadPool` demands, has no pending results and a pool that accepts tasks |
| `MillerRabinThreaded.MillerRabinThreaded.IsProbablePrime` | src/MillerRabinThreaded.java:131-186 | invalid `n` fails before any task is created and nothing changes; otherwise exactly `numIter` tasks (none if `numIter <= 0`), each with the same `(n, d, s)`, are appended to `results`, the pool is shut down and the answer is the AND over all results; a shut-down pool refuses the first submission |
| `MillerRabinThreaded.EnginesAgree` | src/MillerRabinThreaded.java:84-85 | on the same bases, a fresh threaded engine with a positive pool size returns exactly the serial engine's result, errors included; on a prime with bases in `[2, n-1]` both answer `true` |
| `Utility.BitLengthBounds` | src/Utility.java:72 | `bitLength(x)` for `x >= 0` is the least `k` with `x < 2^k` |
| `Utility.UniformRandom` | src/Utility.java:67-75 | the value returned is the first draw inside `[low, high]`, all earlier draws were rejected, and no value is returned when `low > high` |
| `Utility.RangeInsideDrawSpace` | src/Utility.java:72-73 | for `0 <= low`, every value of `[low, high]` lies below `2^bitLength(high)`, so the sampler can draw it |
| `Primes.Mersenneify` | src/Primes.java:14-16 | `2^power - 1` for a non-negative exponent: the largest number below `2^power`, and for `power >= 1` at least `2^(power-1)` |
| `Primes.MersenneBitLength` | src/Primes.java:5-8 | `2^p - 1` has exactly `p` bits |
| `Primes.MersenneIsCandidate` | src/Primes.java:14-16 | for `p >= 2`, `2^p - 1` is odd and at least 3, so both engines accept it |
| `Primes.MersenneDecomposition` | src/Primes.java:15 | for `p >= 2`, `2^p - 1` decomposes with `s == 1` and `d == 2^(p-1) - 1` |
| `Primes.MersenneWitness` | src/Primes.java:15 | on `2^p - 1` a base is a witness exactly when `a^(2^(p-1)-1) mod n` is neither 1 nor `n - 1` |
| `Primes.ListedNumbersAreCandidates` | src/Primes.java:19-32 | each listed `M_*` is a valid input whose bit length equals its exponent |

## Left out

- The worker pool: concurrent scheduling, `submit` as an asynchronous
  operation, `awaitTermination(60, SECONDS)` and `Future.get()`. Each task
  runs when it is submitted, and its outcome is what its future yields. The
  pool size `numThreads` is stored and has no other effect.
- The exception-swallowing paths of the threaded engine. An interrupted
  `awaitTermination` only prints a stack trace: the fold then waits in
  `get()` for every task, so its result is complete. The same holds when
  the 60-second wait times out, since its `false` is ignored. A `get()`
  that throws, however, ends the fold early and returns the partial
  value, possibly `true` (src/MillerRabinThreaded.java:179-184). This path is
  not modelled because no task can fail or be cancelled in the model. It is
  a known defect of the original.
- Randomness. `java.util.Random` is replaced by caller-supplied bases for the
  engines and a finite stream of draws for the sampler. The uniformity of the
  draws and the false-positive bound `(1/4)^k` are probabilistic claims and
  are not stated.
- Utility.UniformRandom: the original loops forever while no draw passes
  the guard. The model reports `None` once its finite stream is used up.
- Primes.Mersenneify: a negative exponent makes `BigInteger.pow` throw an
  `ArithmeticException`. The model's exponent is a `nat`. That the listed
  `M_*` numbers are prime is not proved.
- Java `int` overflow of `numIter`, `s` and `r` is not modelled. `s` is at
  most the bit length of `n`, so it never overflows.
- `Tester.java` (timing and console output), `Utility.writeToFile` (file
  I/O), the behaviour-free `Pair` and `Triplet` records, and the `main`
  methods.
