# Prime-counting thread-pool benchmark, modelled in Dafny

The program times how long it takes to count the primes of a range
`[start, end]` on a fixed-size thread pool, for every pool width from one up
to the number of available cores. For one width, `findPrimes` runs a
configured number of trials. Each trial:

- resets a shared atomic counter;
- submits one task per candidate `j`, which increments the counter when
  `isPrime(j)` answers `true`;
- shuts the pool down and waits for it with a timeout.

The stopwatch reading of every trial that drained in time goes into a list.
The smallest and then the largest reading are removed from that list, and
the rest are averaged.

The model covers four parts, each in its own module:

- `Primality` covers `isPrime`, keeping its quirks:
  - a non-positive argument is an error;
  - 1, 2 and every even number are "not prime";
  - odd candidates are tried only while `i * i < n` (strict), so the
    squares of odd primes (9, 25, 49, 121, ...) are "prime". Other odd
    squares such as 81 or 225 are still caught by a smaller divisor.

  The model states exactly what the code answers (`Reported`). Lemmas relate
  that answer to textbook primality in both directions, and `ReportedExactly`
  pins it down: the primes from 3 on and their squares.
- `TaskPool` covers one trial's counting. The pool and the atomic counter are
  modelled by their effect: the tasks run in some order (any permutation of
  the range), each adding 0 or 1. The pool width shows up only through each
  attempt's schedule, of which the order is one part.
  The main result is that a drained trial leaves the counter at the number
  of reported numbers of the range, whatever the order. `findPrimes` never
  reads that counter (see "## Left out"), so this is the counter's state,
  not an output.
- `Trimming` covers the statistics step: `Collections.min`, `List.remove`
  of the first occurrence, `Collections.max`, a second `remove` and
  `average().getAsDouble()`. `Collections.min`, `Collections.max` and
  `getAsDouble` each throw on an empty list, which gives the three error
  cases; `remove` never throws.
- `Benchmark` covers `findPrimes` for one width. The environment (scheduler
  order, how many tasks finished by the deadline, stopwatch reading) is
  supplied per attempt as a `Schedule`.

`Sequences` and `Wrappers` hold shared helpers. `Samples` evaluates concrete
scenarios.

On `[2, 100]` a drained trial leaves the counter at 27: the 24 odd primes of the range
plus the odd squares 9, 25 and 49, which the strict loop bound lets
through; 2 is not counted. `Samples.HundredRangeCount` proves the 27.

## Model

| member | source | states |
|---|---|---|
| Primality.IsPrime | src/main/java/cl/ucn/disc/hpc/primos/Main.java:100-130 | fails with an invalid-argument error exactly when `n <= 0`; otherwise answers `true` exactly when `n` is odd, at least 3, and no odd `i >= 3` with `i * i < n` divides it |
| Primality.OddTrial | src/main/java/cl/ucn/disc/hpc/primos/Main.java:121-129 | the odd-candidate loop started at `i` passes exactly when no odd candidate from `i` on, with square below `n`, divides `n` |
| Primality.IsPrimeLoop | src/main/java/cl/ucn/disc/hpc/primos/Main.java:100-130 | the early returns and the `i += 2` loop as written compute the same answer as `IsPrime`, the reported-prime predicate for positive `n`, and an error otherwise |
| Primality.NonPositiveRejected | src/main/java/cl/ucn/disc/hpc/primos/Main.java:103-105 | every `n <= 0` is rejected with `IllegalArgumentException` instead of being answered |
| Primality.SmallAndEvenNotReported | src/main/java/cl/ucn/disc/hpc/primos/Main.java:108-118 | 1, 2 and every positive even number are answered `false` |
| Primality.ReportedIsOddAtLeastThree | src/main/java/cl/ucn/disc/hpc/primos/Main.java:108-118 | a `true` answer is only given for an odd number of at least 3 |
| Primality.NotReportedHasDivisor | src/main/java/cl/ucn/disc/hpc/primos/Main.java:116-126 | a `false` answer for `n > 2` is sound: `n` has a divisor strictly between 1 and `n` |
| Primality.MathPrimeReported | src/main/java/cl/ucn/disc/hpc/primos/Main.java:116-129 | every prime of at least 3 is answered `true`: the loop never rejects a prime |
| Primality.TwoNotReported | src/main/java/cl/ucn/disc/hpc/primos/Main.java:112-114 | 2 is prime but is answered `false` |
| Primality.OddSquaresReported | src/main/java/cl/ucn/disc/hpc/primos/Main.java:121 | the strict `i * i < n` bound answers `true` for 9, 25 and 49, none of which is prime |
| Primality.PrimeSquareReported | src/main/java/cl/ucn/disc/hpc/primos/Main.java:116-129 | the square of every odd prime is answered `true` although it is composite: its only proper divisor is its root, which the strict bound never tries |
| Primality.ReportedCompositeIsPrimeSquare | src/main/java/cl/ucn/disc/hpc/primos/Main.java:116-129 | every composite answered `true` is the square of an odd prime, so odd squares such as 81 or 225 are caught by a smaller divisor |
| Primality.ReportedExactly | src/main/java/cl/ucn/disc/hpc/primos/Main.java:100-130 | `isPrime` answers `true` exactly for the primes from 3 on and the squares of those primes |
| Primality.SampleAnswers | src/main/java/cl/ucn/disc/hpc/primos/Main.java:100-130 | 3 and 97 are answered `true`; 4 and 100 are answered `false` |
| TaskPool.Counts | src/main/java/cl/ucn/disc/hpc/primos/Main.java:66-70 | a task increments the counter exactly when its candidate is positive and reported prime; for `j <= 0` the exception from `isPrime` is captured by the pool and the task adds nothing |
| TaskPool.Candidates | src/main/java/cl/ucn/disc/hpc/primos/Main.java:64 | the tasks are submitted for `start, start + 1, ..., end`: one per candidate, the `k`-th for `start + k`, none when `end < start` |
| TaskPool.RunTasks | src/main/java/cl/ucn/disc/hpc/primos/Main.java:62-71 | running tasks one after another never lowers the counter and raises it by at most one per task |
| TaskPool.RunTasksAddsTally | src/main/java/cl/ucn/disc/hpc/primos/Main.java:62-71 | running the tasks in any order adds exactly the number of reported candidates to the counter's starting value, so the reset to 0 is what makes a trial count only its own primes |
| TaskPool.TallyDeleteAt | src/main/java/cl/ucn/disc/hpc/primos/Main.java:64-71 | leaving one task out of a run removes exactly that task's increment from the count |
| TaskPool.TallyPermutation | src/main/java/cl/ucn/disc/hpc/primos/Main.java:64-71 | how many tasks increment the counter does not depend on the order the pool runs them in |
| TaskPool.TallyCandidates | src/main/java/cl/ucn/disc/hpc/primos/Main.java:64-70 | one task per `j` in `[start, end]` counts exactly the set of reported numbers of the range |
| TaskPool.CountIsOrderIndependent | src/main/java/cl/ucn/disc/hpc/primos/Main.java:62-71 | from 0, any execution order of the submitted tasks leaves the counter at the number of reported numbers in `[start, end]` |
| TaskPool.RunTrial | src/main/java/cl/ucn/disc/hpc/primos/Main.java:61-79 | a trial drains exactly when every task has run by the deadline; a drained trial's count is the number of reported numbers of the range; a timed-out trial's count never exceeds it; the stopwatch reading is kept as given |
| TaskPool.CountIndependentOfWidth | src/main/java/cl/ucn/disc/hpc/primos/Main.java:61-71 | two drained trials of the same range report the same count whatever execution orders they ran in, so the order a pool width produces cannot change a drained trial's count |
| TaskPool.TallyIsCountUp | src/main/java/cl/ucn/disc/hpc/primos/Main.java:64-70 | the submission-order tally equals a plain upward count of reported candidates |
| Trimming.Min | src/main/java/cl/ucn/disc/hpc/primos/Main.java:82 | `Collections.min` returns a member of the list that is no larger than any member |
| Trimming.Max | src/main/java/cl/ucn/disc/hpc/primos/Main.java:86 | `Collections.max` returns a member of the list that is no smaller than any member |
| Trimming.FirstIndex | src/main/java/cl/ucn/disc/hpc/primos/Main.java:84-88 | the scan inside `remove` stops at a position holding the value, with no earlier position holding it |
| Trimming.Remove | src/main/java/cl/ucn/disc/hpc/primos/Main.java:84 | `remove` of an absent value leaves the list unchanged; of a present value, it takes out exactly one copy of it |
| Trimming.RemoveFirstOccurrence | src/main/java/cl/ucn/disc/hpc/primos/Main.java:84 | the copy taken out is the first one: everything before it is kept in order and is not equal to it, and everything after it follows |
| Trimming.Trim | src/main/java/cl/ucn/disc/hpc/primos/Main.java:82-88 | an empty list fails at the minimum and a one-element list at the maximum; otherwise the removed values are the least and greatest recorded times, two fewer times remain, the recorded times are exactly the kept ones plus the two extremes, and every kept time lies between them |
| Trimming.TrimIsTwoRemovals | src/main/java/cl/ucn/disc/hpc/primos/Main.java:82-88 | restates the definition of `Trim` as the two calls of lines 84 and 88: the kept list is the recorded list with the minimum removed, then the maximum of what is left removed, where the minimum is a recorded time and the maximum survives the first removal |
| Trimming.TrimKeepsOrder | src/main/java/cl/ucn/disc/hpc/primos/Main.java:84-88 | the kept times are the recorded times with two positions deleted, one holding the minimum and one the maximum, in their original order |
| Trimming.Sum | src/main/java/cl/ucn/disc/hpc/primos/Main.java:90 | the total of the readings that are averaged; readings that are all non-negative (stopwatch milliseconds) give a non-negative total |
| Trimming.SumPermutation | src/main/java/cl/ucn/disc/hpc/primos/Main.java:90 | the total of the times depends only on which times were recorded, not their order |
| Trimming.SumBetween | src/main/java/cl/ucn/disc/hpc/primos/Main.java:90 | `n` times that each lie between `lo` and `hi` total between `n * lo` and `n * hi` |
| Trimming.TrimmedTotal | src/main/java/cl/ucn/disc/hpc/primos/Main.java:82-90 | the kept times total the recorded total less the two removed extremes |
| Trimming.Summarize | src/main/java/cl/ucn/disc/hpc/primos/Main.java:82-90 | the statistics succeed exactly when at least three times were recorded, and fail at the minimum, maximum or average for 0, 1 or 2 times; on success the discarded values are the least and greatest recorded times, and the averaged total is the recorded total less both, over two fewer times |
| Trimming.Average | src/main/java/cl/ucn/disc/hpc/primos/Main.java:90 | `average()` is the value that, counted once per kept reading, adds up to their total |
| Trimming.AverageWithinExtremes | src/main/java/cl/ucn/disc/hpc/primos/Main.java:82-90 | the trimmed average lies between the discarded minimum and maximum |
| Trimming.SummaryOfKnownExtremes | src/main/java/cl/ucn/disc/hpc/primos/Main.java:82-90 | when the least and greatest of at least three readings are known, the statistics discard exactly those two and average the rest |
| Trimming.SummaryIgnoresOrder | src/main/java/cl/ucn/disc/hpc/primos/Main.java:73-90 | the minimum, maximum and average do not depend on the order the trials finished in |
| Benchmark.CompletedCountIsDrained | src/main/java/cl/ucn/disc/hpc/primos/Main.java:73-75 | the count of drained trials, which the recorded list's length equals, is exactly the number of positions `i` whose trial `i` drained in time |
| Benchmark.CompletedTimes | src/main/java/cl/ucn/disc/hpc/primos/Main.java:73-79 | the list holds one reading per drained trial |
| Benchmark.DrainedTrialsRecorded | src/main/java/cl/ucn/disc/hpc/primos/Main.java:73-75 | every drained trial's reading is in the list, at the position given by how many earlier trials drained |
| Benchmark.OnlyDrainedTrialsRecorded | src/main/java/cl/ucn/disc/hpc/primos/Main.java:73-79 | every reading in the list is the reading of some drained trial; timed-out trials contribute nothing |
| Benchmark.RecordingOneTrial | src/main/java/cl/ucn/disc/hpc/primos/Main.java:73-79 | the one-step form of the definition of `CompletedTimes`, for appending a trial at the end: a timed-out trial leaves the list unchanged, and a drained one appends its reading |
| Benchmark.Replay | src/main/java/cl/ucn/disc/hpc/primos/Main.java:60-80 | the attempts loop produces exactly one trial per attempt, in the order the attempts ran |
| Benchmark.ReplayFaithful | src/main/java/cl/ucn/disc/hpc/primos/Main.java:60-80 | each trial drained exactly when its schedule ran every task, each drained trial counted the reported numbers of the range, and each trial carries its own stopwatch reading |
| Benchmark.RunAttempts | src/main/java/cl/ucn/disc/hpc/primos/Main.java:56-80 | the attempts loop yields the replayed trials, one per attempt, each drained exactly when all its tasks ran, then counting the reported numbers of the range, and each with its attempt's reading; it also yields the list of the drained trials' readings |
| Benchmark.FindPrimes | src/main/java/cl/ucn/disc/hpc/primos/Main.java:54-93 | `findPrimes` for one width: the trials are the replayed attempts; trial `i` drained exactly when attempt `i` ran every task, and it carries attempt `i`'s reading; every drained trial counts the reported numbers of the range; the recorded list is the drained trials' readings in order; the statistics are those of that list, and they succeed exactly when at least three trials drained |
| Benchmark.TimeoutsDoNotChangeSummary | src/main/java/cl/ucn/disc/hpc/primos/Main.java:73-79 | appending any number of timed-out trials leaves the recorded readings and the statistics unchanged |
| Samples.SampleRangeCount | src/main/java/cl/ucn/disc/hpc/primos/Main.java:62-71 | a drained trial on `[2, 30]` counts 11: 2 is left out, and 9 and 25 are counted |
| Samples.HundredRangeCount | src/main/java/cl/ucn/disc/hpc/primos/Main.java:62-71 | a drained trial on `[2, 100]` counts 27: the 24 odd primes plus 9, 25 and 49, without 2 |
| Samples.SampleTrimmedAverage | src/main/java/cl/ucn/disc/hpc/primos/Main.java:82-90 | readings 10, 20, 30, 40 and 1000 ms discard 10 and 1000 and average 30 ms |
| Samples.SampleTooFewTimes | src/main/java/cl/ucn/disc/hpc/primos/Main.java:82-90 | two readings fail at the average, one at the maximum, none at the minimum |

## Left out

- The thread pool, `ExecutorService.submit`, `shutdown` and `awaitTermination` are not modelled as code. Their observable effect is an input per attempt: the order the tasks ran in, how many had finished at the deadline, and whether the pool drained.
- `AtomicInteger` is modelled as a sequential accumulator over an unbounded `int`. Concurrent increments commute, so the execution order stands for any interleaving. The Java counter is 32-bit and would wrap after 2^31 − 1 increments; a range has to hold more than that many reported numbers for this to matter, which `main`'s range `[2, 5000000]` does not.
- The `StopWatch` reading is an input (`elapsedMillis`). Clocks cannot be modelled.
- The driver loop in `main` (lines 29-43) is left out: its fixed range `[2, 5000000]`, 20 attempts and 5-minute timeout, reading `availableProcessors`, and calling `findPrimes` once per width from 1 to the core count. The width affects only each attempt's `Schedule`: the execution order, how many tasks finished by the deadline, and the stopwatch reading. Of these, a drained trial's count could depend only on the order, and `CountIndependentOfWidth` shows it does not. A non-positive width, for which `newFixedThreadPool` (line 61) would throw, cannot occur from `main`, whose widths run from 1 upward.
- `awaitTermination` (line 73) can throw `InterruptedException`, which `findPrimes` declares at line 54. It would end `findPrimes` and `main`. The model has no interruption, and every attempt either drains or times out.
- Logging (lines 58, 78, 83, 87, 92) is left out because it has no effect on the results. `findPrimes` logs the minimum, the maximum and the average; the model computes all three.
- The count is never read. The only `counter.get()` is inside the log statement at line 76, which is commented out. `TrialResult.primeCount` is the counter's value after the drain, which the model states properties of; the program neither logs nor returns it.
- Trimming.AverageWithinExtremes: the average is an exact rational (`Trimming.Average`), not the IEEE `double` that `average()` returns, so rounding is not modelled.
- Primality.IsPrime: `long` is modelled as an unbounded integer, so the overflow of `i * i` for `n` near 2^63 is not modelled. The model answers as if the square never wrapped.
- Trimming.Summarize: the sum of the `long` readings is unbounded, so overflow of the total is not modelled.
- A task whose `isPrime` throws (`j <= 0`) adds nothing to the counter. Its exception is captured in a future that is never read, so the model treats it as a task that does not increment.
- Only the trial's count is modelled for a pool that timed out. The tasks still running after `awaitTermination` returns are not modelled. Because the counter is a single static field, such tasks could still increment it after the next trial's reset at line 62; the model gives each trial its own counter.
