/**
 * `findPrimes` (Main.java) for one pool width: run the configured number of
 * trials one after another, keep the stopwatch reading of each trial whose
 * pool drained in time, and summarise those readings.
 *
 * The thread pool, the stopwatch and `awaitTermination` are environment:
 * each attempt is given as a `Schedule` saying in which order the pool ran
 * the tasks, how many had finished at the deadline, and what the stopwatch
 * read.
 */
module Benchmark {
  import opened Wrappers
  import opened TaskPool
  import opened Trimming

  /** What the environment decided for one attempt. */
  datatype Schedule = Schedule(order: seq<int>, finished: nat, elapsedMillis: nat)

  /** The pool ran every task of `[start, end]` exactly once, and no more
      tasks finished than were submitted. */
  predicate ValidSchedule(start: int, end: int, s: Schedule)
  {
    multiset(s.order) == multiset(Candidates(start, end)) && s.finished <= |s.order|
  }

  /** How many of the trials drained in time. */
  function CompletedCount(trials: seq<TrialResult>): (n: nat)
    ensures n <= |trials|
  {
    if |trials| == 0 then 0
    else CompletedCount(trials[..|trials| - 1]) + (if trials[|trials| - 1].completed then 1 else 0)
  }

  /** The positions of the trials that drained in time. */
  ghost function DrainedIndices(trials: seq<TrialResult>): (drained: set<int>)
  {
    set i | 0 <= i < |trials| && trials[i].completed
  }

  /** `CompletedCount` is the number of trials that drained in time. */
  lemma {:induction false} CompletedCountIsDrained(trials: seq<TrialResult>)
    ensures CompletedCount(trials) == |DrainedIndices(trials)|
    decreases |trials|
  {
    if |trials| > 0 {
      var n := |trials| - 1;
      var init := trials[..n];
      CompletedCountIsDrained(init);
      assert n !in DrainedIndices(init);
      if trials[n].completed {
        assert DrainedIndices(trials) == DrainedIndices(init) + {n};
      } else {
        assert DrainedIndices(trials) == DrainedIndices(init);
      }
    } else {
      assert DrainedIndices(trials) == {};
    }
  }

  /** The list `times` after the attempts of lines 60-80: the readings of
      the drained trials, in the order the trials ran. */
  function CompletedTimes(trials: seq<TrialResult>): (times: seq<int>)
    ensures |times| == CompletedCount(trials)
  {
    if |trials| == 0 then []
    else
      var last := trials[|trials| - 1];
      var earlier := CompletedTimes(trials[..|trials| - 1]);
      if last.completed then earlier + [last.elapsedMillis] else earlier
  }

  /** Every drained trial's reading is recorded, after the readings of the
      drained trials that ran before it. */
  lemma {:induction false} DrainedTrialsRecorded(trials: seq<TrialResult>)
    ensures forall i :: 0 <= i < |trials| && trials[i].completed ==>
      CompletedCount(trials[..i]) < |CompletedTimes(trials)|
      && CompletedTimes(trials)[CompletedCount(trials[..i])] == trials[i].elapsedMillis
    decreases |trials|
  {
    if |trials| > 0 {
      var n := |trials| - 1;
      var init := trials[..n];
      DrainedTrialsRecorded(init);
      forall i | 0 <= i < |trials| && trials[i].completed
        ensures CompletedCount(trials[..i]) < |CompletedTimes(trials)|
        ensures CompletedTimes(trials)[CompletedCount(trials[..i])] == trials[i].elapsedMillis
      {
        if i < n {
          assert init[i] == trials[i];
          assert init[..i] == trials[..i];
        } else {
          assert trials[..i] == init;
        }
      }
    }
  }

  /** `x` is the reading of some trial that drained in time. */
  predicate IsDrainedReading(trials: seq<TrialResult>, x: int)
  {
    exists i :: 0 <= i < |trials| && trials[i].completed && trials[i].elapsedMillis == x
  }

  /** Nothing but the readings of drained trials is recorded. */
  lemma {:induction false} OnlyDrainedTrialsRecorded(trials: seq<TrialResult>)
    ensures forall x :: x in CompletedTimes(trials) ==> IsDrainedReading(trials, x)
    decreases |trials|
  {
    if |trials| > 0 {
      var n := |trials| - 1;
      var init := trials[..n];
      OnlyDrainedTrialsRecorded(init);
      var earlier := CompletedTimes(init);
      forall x | x in CompletedTimes(trials)
        ensures IsDrainedReading(trials, x)
      {
        if x in earlier {
          var i :| 0 <= i < |init| && init[i].completed && init[i].elapsedMillis == x;
          assert trials[i] == init[i];
        } else {
          assert trials[n].completed && trials[n].elapsedMillis == x;
        }
      }
    }
  }

  /** A trial that timed out leaves the recorded times as they were; one
      that drained appends its reading. */
  lemma RecordingOneTrial(trials: seq<TrialResult>, t: TrialResult)
    ensures !t.completed ==> CompletedTimes(trials + [t]) == CompletedTimes(trials)
    ensures t.completed ==> CompletedTimes(trials + [t]) == CompletedTimes(trials) + [t.elapsedMillis]
  {
    assert (trials + [t])[..|trials|] == trials;
  }

  /** The trials of lines 60-80, one per attempt, in the order they ran. */
  function Replay(start: int, end: int, attempts: seq<Schedule>): (trials: seq<TrialResult>)
    requires forall i :: 0 <= i < |attempts| ==> ValidSchedule(start, end, attempts[i])
    ensures |trials| == |attempts|
  {
    if |attempts| == 0 then []
    else
      var a := attempts[|attempts| - 1];
      assert ValidSchedule(start, end, a);
      Replay(start, end, attempts[..|attempts| - 1]) + [RunTrial(start, end, a.order, a.finished, a.elapsedMillis)]
  }

  /** Every replayed trial drained exactly when its schedule ran every
      task, and every drained trial counted the reported numbers. */
  lemma {:induction false} ReplayFaithful(start: int, end: int, attempts: seq<Schedule>)
    requires forall i :: 0 <= i < |attempts| ==> ValidSchedule(start, end, attempts[i])
    ensures forall i :: 0 <= i < |attempts| ==>
      (Replay(start, end, attempts)[i].completed <==> attempts[i].finished == |attempts[i].order|)
    ensures forall i :: 0 <= i < |attempts| && Replay(start, end, attempts)[i].completed ==>
      Replay(start, end, attempts)[i].primeCount == |ReportedIn(start, end)|
    ensures forall i :: 0 <= i < |attempts| ==>
      Replay(start, end, attempts)[i].elapsedMillis == attempts[i].elapsedMillis
    decreases |attempts|
  {
    if |attempts| > 0 {
      var n := |attempts| - 1;
      var earlier := attempts[..n];
      ReplayFaithful(start, end, earlier);
      var r := Replay(start, end, attempts);
      assert forall k :: 0 <= k < n ==> r[k] == Replay(start, end, earlier)[k] && attempts[k] == earlier[k];
    }
  }

  /** Lines 56-80: run every attempt in turn and record the reading of
      each trial that drained. Every drained trial left the counter at the
      number of reported numbers of the range; timed-out trials record
      nothing. */
  method RunAttempts(start: int, end: int, attempts: seq<Schedule>)
    returns (trials: seq<TrialResult>, times: seq<int>)
    requires forall i :: 0 <= i < |attempts| ==> ValidSchedule(start, end, attempts[i])
    ensures trials == Replay(start, end, attempts)
    ensures |trials| == |attempts|
    ensures forall i :: 0 <= i < |trials| ==>
      (trials[i].completed <==> attempts[i].finished == |attempts[i].order|)
    ensures forall i :: 0 <= i < |trials| && trials[i].completed ==>
      trials[i].primeCount == |ReportedIn(start, end)|
    ensures forall i :: 0 <= i < |trials| ==> trials[i].elapsedMillis == attempts[i].elapsedMillis
    ensures times == CompletedTimes(trials)
  {
    trials := [];
    times := [];
    var i := 0;
    while i < |attempts|
      invariant 0 <= i <= |attempts|
      invariant trials == Replay(start, end, attempts[..i])
      invariant times == CompletedTimes(trials)
    {
      var a := attempts[i];
      var t := RunTrial(start, end, a.order, a.finished, a.elapsedMillis);
      RecordingOneTrial(trials, t);
      if t.completed {
        times := times + [t.elapsedMillis];
      }
      assert attempts[..i + 1][..i] == attempts[..i];
      trials := trials + [t];
      i := i + 1;
    }
    assert attempts[..i] == attempts;
    ReplayFaithful(start, end, attempts);
  }

  /** Lines 56-92: run the attempts, then trim and average the recorded
      readings. The summary exists exactly when at least three trials
      drained. */
  method FindPrimes(start: int, end: int, attempts: seq<Schedule>)
    returns (trials: seq<TrialResult>, times: seq<int>, summary: Result<Summary, TrimError>)
    requires forall i :: 0 <= i < |attempts| ==> ValidSchedule(start, end, attempts[i])
    ensures trials == Replay(start, end, attempts)
    ensures |trials| == |attempts|
    ensures forall i :: 0 <= i < |trials| ==>
      (trials[i].completed <==> attempts[i].finished == |attempts[i].order|)
      && trials[i].elapsedMillis == attempts[i].elapsedMillis
    ensures forall i :: 0 <= i < |trials| && trials[i].completed ==>
      trials[i].primeCount == |ReportedIn(start, end)|
    ensures times == CompletedTimes(trials)
    ensures summary == Summarize(times)
    ensures summary.Success? <==> CompletedCount(trials) >= 3
  {
    trials, times := RunAttempts(start, end, attempts);
    ReplayFaithful(start, end, attempts);
    summary := Summarize(times);
  }

  /** Timed-out trials do not count toward the three readings the summary
      needs: appending any number of timed-out trials to a run leaves the
      recorded readings, and so the summary, unchanged. */
  lemma {:induction false} TimeoutsDoNotChangeSummary(trials: seq<TrialResult>, extra: seq<TrialResult>)
    requires forall i :: 0 <= i < |extra| ==> !extra[i].completed
    ensures CompletedTimes(trials + extra) == CompletedTimes(trials)
    ensures Summarize(CompletedTimes(trials + extra)) == Summarize(CompletedTimes(trials))
    decreases |extra|
  {
    if |extra| > 0 {
      var n := |extra| - 1;
      TimeoutsDoNotChangeSummary(trials, extra[..n]);
      assert trials + extra == (trials + extra[..n]) + [extra[n]];
      RecordingOneTrial(trials + extra[..n], extra[n]);
    } else {
      assert trials + extra == trials;
    }
  }
}
