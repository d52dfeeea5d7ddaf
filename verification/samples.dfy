/** Concrete scenarios of the benchmark, evaluated on the model. */
module Samples {
  import opened Wrappers
  import opened TaskPool
  import opened Trimming

  lemma {:induction false} CountUpSplit(j: int, mid: int, end: int)
    requires j <= mid + 1 && mid <= end
    ensures CountUpFrom(j, end) == CountUpFrom(j, mid) + CountUpFrom(mid + 1, end)
    decreases mid - j
  {
    if j <= mid {
      CountUpSplit(j + 1, mid, end);
    }
  }

  /** 3, 5, 7 and 9 are reported; 2 is not. */
  lemma CountTwoToTen()
    ensures CountUpFrom(2, 10) == 4
  {
  }

  /** 11, 13, 17 and 19 are reported. */
  lemma CountElevenToTwenty()
    ensures CountUpFrom(11, 20) == 4
  {
  }

  /** 23, 25 and 29 are reported. */
  lemma CountTwentyOneToThirty()
    ensures CountUpFrom(21, 30) == 3
  {
  }

  /** 31 and 37 are reported. */
  lemma CountThirtyOneToForty()
    ensures CountUpFrom(31, 40) == 2
  {
  }

  /** 41, 43, 47 and 49 are reported. */
  lemma CountFortyOneToFifty()
    ensures CountUpFrom(41, 50) == 4
  {
  }

  /** 53 and 59 are reported. */
  lemma CountFiftyOneToSixty()
    ensures CountUpFrom(51, 60) == 2
  {
  }

  /** 61 and 67 are reported. */
  lemma CountSixtyOneToSeventy()
    ensures CountUpFrom(61, 70) == 2
  {
  }

  /** 71, 73 and 79 are reported. */
  lemma CountSeventyOneToEighty()
    ensures CountUpFrom(71, 80) == 3
  {
  }

  /** 83 and 89 are reported. */
  lemma CountEightyOneToNinety()
    ensures CountUpFrom(81, 90) == 2
  {
  }

  /** None of 91 to 95 is reported. */
  lemma CountNinetyOneToNinetyFive()
    ensures CountUpFrom(91, 95) == 0
  {
  }

  /** 97 is reported. */
  lemma CountNinetySixToHundred()
    ensures CountUpFrom(96, 100) == 1
  {
  }

  lemma CountTwoToThirty()
    ensures CountUpFrom(2, 30) == 11
  {
    CountTwoToTen();
    CountElevenToTwenty();
    CountTwentyOneToThirty();
    CountUpSplit(2, 10, 30);
    CountUpSplit(11, 20, 30);
  }

  /** On `[2, 30]` a drained trial counts 11, not the 10 primes of that
      range: 2 is not reported, and the odd squares 9 and 25 are. */
  lemma SampleRangeCount()
    ensures |ReportedIn(2, 30)| == 11
  {
    TallyCandidates(2, 30);
    TallyIsCountUp(2, 30);
    CountTwoToThirty();
  }

  /** On `[2, 100]` a drained trial counts 27: the 24 odd primes of the
      range plus the odd squares 9, 25 and 49, with 2 left out. */
  lemma HundredRangeCount()
    ensures |ReportedIn(2, 100)| == 27
  {
    TallyCandidates(2, 100);
    TallyIsCountUp(2, 100);
    CountTwoToThirty();
    CountThirtyOneToForty();
    CountFortyOneToFifty();
    CountFiftyOneToSixty();
    CountSixtyOneToSeventy();
    CountSeventyOneToEighty();
    CountEightyOneToNinety();
    CountNinetyOneToNinetyFive();
    CountNinetySixToHundred();
    CountUpSplit(2, 30, 100);
    CountUpSplit(31, 40, 100);
    CountUpSplit(41, 50, 100);
    CountUpSplit(51, 60, 100);
    CountUpSplit(61, 70, 100);
    CountUpSplit(71, 80, 100);
    CountUpSplit(81, 90, 100);
    CountUpSplit(91, 95, 100);
  }

  lemma SampleTotal()
    ensures Sum([10, 20, 30, 40, 1000]) == 1100
  {
  }

  /** Entries that lie between `lo` and `hi` position by position are
      members that lie between them. */
  lemma MembersBetween(s: seq<int>, lo: int, hi: int)
    requires forall k :: 0 <= k < |s| ==> lo <= s[k] <= hi
    ensures forall x :: x in s ==> lo <= x <= hi
  {
    forall x | x in s
      ensures lo <= x <= hi
    {
      var k :| 0 <= k < |s| && s[k] == x;
    }
  }

  /** Readings 10, 20, 30, 40 and 1000 ms: 10 and 1000 are discarded and
      the remaining 20, 30 and 40 average to 30 ms. */
  lemma SampleTrimmedAverage()
    ensures Summarize([10, 20, 30, 40, 1000]) == Success(Summary(10, 1000, 90, 3))
    ensures Average(Summarize([10, 20, 30, 40, 1000]).value) == 30.0
  {
    var times := [10, 20, 30, 40, 1000];
    assert times[0] == 10 && times[4] == 1000;
    MembersBetween(times, 10, 1000);
    SummaryOfKnownExtremes(times, 10, 1000);
    SampleTotal();
  }

  /** Two readings are trimmed away entirely, and averaging nothing fails. */
  lemma SampleTooFewTimes()
    ensures Summarize([5, 7]) == Failure(NoAverage)
    ensures Summarize([5]) == Failure(NoMaximum)
    ensures Summarize([]) == Failure(NoMinimum)
  {
  }
}
