/**
 * One trial of `findPrimes` (Main.java): the shared counter is reset to 0,
 * one task per candidate `j` in `[start, end]` is submitted to a fixed-size
 * thread pool, each task increments the counter when `isPrime(j)` answers
 * `true`, and the pool is drained or times out.
 *
 * The pool and the atomic counter are modelled by their observable effect:
 * the tasks run in SOME order (any permutation of the range, chosen by the
 * scheduler), each adding 0 or 1 to a sequential
 * accumulator. The main result is that a drained trial's count is the number
 * of reported numbers in the range whatever that order was.
 */
module TaskPool {
  import opened Wrappers
  import opened Primality
  import opened Sequences

  /** The task for `j` increments the counter exactly when `isPrime(j)`
      returns `true`. An exception thrown for `j <= 0` is captured in the
      task's future, which nobody reads, so such a task adds nothing. */
  predicate Counts(j: int): (increments: bool)
    ensures increments <==> j > 0 && Reported(j)
    ensures j <= 0 ==> !increments
  {
    IsPrime(j) == Success(true)
  }

  /** The candidates `start, start + 1, ..., end` in submission order. */
  function Candidates(start: int, end: int): (r: seq<int>)
    ensures |r| == if end < start then 0 else end - start + 1
    ensures forall k :: 0 <= k < |r| ==> r[k] == start + k
    decreases end - start
  {
    if end < start then [] else [start] + Candidates(start + 1, end)
  }

  /** The reference answer: the candidates of the range that `isPrime` reports. */
  ghost function ReportedIn(start: int, end: int): (reported: set<int>)
  {
    set j | start <= j <= end && Counts(j)
  }

  /** The counter's value after the tasks run one after another in `order`,
      starting from `counter`. */
  function RunTasks(counter: int, order: seq<int>): (final: int)
    ensures counter <= final <= counter + |order|
    decreases |order|
  {
    if |order| == 0 then counter
    else RunTasks(counter + (if Counts(order[0]) then 1 else 0), order[1..])
  }

  /** How many tasks of `tasks` increment the counter. */
  function Tally(tasks: seq<int>): (n: nat)
  {
    if |tasks| == 0 then 0
    else (if Counts(tasks[0]) then 1 else 0) + Tally(tasks[1..])
  }

  /** Running the tasks adds exactly their tally to whatever the counter held:
      without the reset of line 62 a trial would also include the previous
      trial's count. */
  lemma {:induction false} RunTasksAddsTally(counter: int, order: seq<int>)
    ensures RunTasks(counter, order) == counter + Tally(order)
    decreases |order|
  {
    if |order| > 0 {
      RunTasksAddsTally(counter + (if Counts(order[0]) then 1 else 0), order[1..]);
    }
  }

  lemma {:induction false} TallyAppend(a: seq<int>, b: seq<int>)
    ensures Tally(a + b) == Tally(a) + Tally(b)
    decreases |a|
  {
    if |a| == 0 {
      assert a + b == b;
    } else {
      assert (a + b)[1..] == a[1..] + b;
      TallyAppend(a[1..], b);
    }
  }

  /** Deleting one task takes exactly that task's contribution off the tally. */
  lemma {:induction false} TallyDeleteAt(tasks: seq<int>, k: nat)
    requires k < |tasks|
    ensures Tally(tasks) == (if Counts(tasks[k]) then 1 else 0) + Tally(DeleteAt(tasks, k))
    decreases k
  {
    if k == 0 {
      assert DeleteAt(tasks, k) == tasks[1..];
    } else {
      var r := DeleteAt(tasks, k);
      assert r[0] == tasks[0];
      assert r[1..] == DeleteAt(tasks[1..], k - 1);
      TallyDeleteAt(tasks[1..], k - 1);
    }
  }

  /** The tally depends only on which tasks run, not on their order. */
  lemma {:induction false} TallyPermutation(a: seq<int>, b: seq<int>)
    requires multiset(a) == multiset(b)
    ensures Tally(a) == Tally(b)
    decreases |a|
  {
    if |a| == 0 {
      assert |b| == |multiset(b)| == 0;
    } else {
      var k := PositionOfHead(a, b);
      PermutationTail(a, b, k);
      TallyPermutation(a[1..], DeleteAt(b, k));
      TallyDeleteAt(b, k);
    }
  }

  /** Tallying the candidates in submission order counts the reference set. */
  lemma {:induction false} TallyCandidates(start: int, end: int)
    ensures Tally(Candidates(start, end)) == |ReportedIn(start, end)|
    decreases end - start
  {
    if end < start {
      assert ReportedIn(start, end) == {};
    } else {
      var c := Candidates(start, end);
      assert c[1..] == Candidates(start + 1, end);
      TallyCandidates(start + 1, end);
      var later := ReportedIn(start + 1, end);
      assert start !in later;
      if Counts(start) {
        assert ReportedIn(start, end) == later + {start};
      } else {
        assert ReportedIn(start, end) == later;
      }
    }
  }

  /** Whatever order the pool runs the tasks in, a counter started at 0 ends
      at the number of reported numbers in `[start, end]`. */
  lemma CountIsOrderIndependent(start: int, end: int, order: seq<int>)
    requires multiset(order) == multiset(Candidates(start, end))
    ensures RunTasks(0, order) == |ReportedIn(start, end)|
  {
    RunTasksAddsTally(0, order);
    TallyPermutation(order, Candidates(start, end));
    TallyCandidates(start, end);
  }

  /** What one trial leaves behind: whether the pool drained in time, the
      stopwatch reading, and the counter's value. */
  datatype TrialResult = TrialResult(completed: bool, elapsedMillis: nat, primeCount: nat)

  /** One trial (lines 61-79): the counter is reset to 0, the tasks run in
      `order`, and `finished` of them have run when `awaitTermination`
      returns, which it reports as success exactly when all have run. A
      timed-out trial's count is a snapshot of a prefix of the order. */
  function RunTrial(start: int, end: int, order: seq<int>, finished: nat, elapsedMillis: nat): (t: TrialResult)
    requires multiset(order) == multiset(Candidates(start, end))
    requires finished <= |order|
    ensures t.completed <==> finished == |order|
    ensures t.completed ==> t.primeCount == |ReportedIn(start, end)|
    ensures t.primeCount <= |ReportedIn(start, end)|
    ensures t.elapsedMillis == elapsedMillis
  {
    var counter := 0;
    var done := order[..finished];
    RunTasksAddsTally(counter, done);
    assert order == done + order[finished..];
    TallyAppend(done, order[finished..]);
    CountIsOrderIndependent(start, end, order);
    RunTasksAddsTally(counter, order);
    TrialResult(finished == |order|, elapsedMillis, RunTasks(counter, done))
  }

  /** Among the things the pool width affects (order, tasks finished by the
      deadline, stopwatch reading), a drained trial's count depends only on
      the order, and not even on that: two drained trials of the same range
      report the same count whatever orders they ran in. */
  lemma CountIndependentOfWidth(start: int, end: int, order1: seq<int>, order2: seq<int>, elapsed1: nat, elapsed2: nat)
    requires multiset(order1) == multiset(Candidates(start, end))
    requires multiset(order2) == multiset(Candidates(start, end))
    ensures RunTrial(start, end, order1, |order1|, elapsed1).primeCount
         == RunTrial(start, end, order2, |order2|, elapsed2).primeCount
  {
  }

  /** The number of reported numbers among `j, j + 1, ..., end`, counted
      upwards one candidate at a time. */
  function CountUpFrom(j: int, end: int): (n: nat)
    decreases end - j
  {
    if end < j then 0 else (if Counts(j) then 1 else 0) + CountUpFrom(j + 1, end)
  }

  lemma {:induction false} TallyIsCountUp(start: int, end: int)
    ensures Tally(Candidates(start, end)) == CountUpFrom(start, end)
    decreases end - start
  {
    if start <= end {
      assert Candidates(start, end)[1..] == Candidates(start + 1, end);
      TallyIsCountUp(start + 1, end);
    }
  }
}
