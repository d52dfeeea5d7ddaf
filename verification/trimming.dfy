/**
 * The statistics step at the end of `findPrimes` (Main.java): take the
 * smallest recorded time out of the list, then the largest of what is left,
 * each with `List.remove(Object)` (the first occurrence of that value), and
 * average the remaining times. Each of the three steps throws
 * `NoSuchElementException` when it meets an empty list, so the step fails
 * unless at least three times were recorded.
 *
 * Times are whole milliseconds; the average is an exact `real` rather than
 * a `double`.
 */
module Trimming {
  import opened Wrappers
  import opened Sequences

  /** Which step threw `NoSuchElementException`. */
  datatype TrimError =
    | NoMinimum   // `Collections.min` on an empty list
    | NoMaximum   // `Collections.max` on the list emptied by removing the minimum
    | NoAverage   // `average().getAsDouble()` on the list emptied by both removals

  /** `Collections.min`: the smallest value of a non-empty list. */
  function Min(s: seq<int>): (m: int)
    requires |s| > 0
    ensures m in s
    ensures forall x :: x in s ==> m <= x
  {
    if |s| == 1 then s[0]
    else
      var m := Min(s[1..]);
      assert forall x :: x in s ==> x == s[0] || x in s[1..];
      if s[0] <= m then s[0] else m
  }

  /** `Collections.max`: the largest value of a non-empty list. */
  function Max(s: seq<int>): (m: int)
    requires |s| > 0
    ensures m in s
    ensures forall x :: x in s ==> x <= m
  {
    if |s| == 1 then s[0]
    else
      var m := Max(s[1..]);
      assert forall x :: x in s ==> x == s[0] || x in s[1..];
      if s[0] >= m then s[0] else m
  }

  /** The position of the first occurrence of `x` in `s`. */
  function FirstIndex(s: seq<int>, x: int): (k: nat)
    requires x in s
    ensures k < |s| && s[k] == x
    ensures x !in s[..k]
  {
    if s[0] == x then 0
    else
      var k := FirstIndex(s[1..], x);
      assert s[..k + 1] == [s[0]] + s[1..][..k];
      k + 1
  }

  /** `List.remove(Object)`: `ArrayList` scans for the first element equal
      to `x` and deletes it; when there is none the list is unchanged. */
  function Remove(s: seq<int>, x: int): (r: seq<int>)
    ensures x !in s ==> r == s
    ensures x in s ==> |r| == |s| - 1 && multiset(r) + multiset{x} == multiset(s)
  {
    if x in s then DeleteAt(s, FirstIndex(s, x)) else s
  }

  /** Removal deletes the first occurrence of `x`: the elements before it
      are kept, none of them equal to `x`, followed by everything after it. */
  lemma RemoveFirstOccurrence(s: seq<int>, x: int)
    requires x in s
    ensures exists k :: (0 <= k < |s| && s[k] == x && x !in s[..k]
      && Remove(s, x) == s[..k] + s[k + 1..])
  {
    var k := FirstIndex(s, x);
    assert Remove(s, x) == s[..k] + s[k + 1..];
  }

  /** Every element of a sub-multiset's sequence occurs in the larger one. */
  lemma MembersOfSmaller(a: seq<int>, b: seq<int>)
    requires multiset(a) <= multiset(b)
    ensures forall x :: x in a ==> x in b
  {
    forall x | x in a
      ensures x in b
    {
      assert x in multiset(a);
    }
  }

  /** Removing `x` leaves every other value present. */
  lemma OthersRemain(s: seq<int>, x: int, y: int)
    requires y in s && y != x
    ensures y in Remove(s, x)
  {
    assert y in multiset(s);
    assert multiset(Remove(s, x))[y] == multiset(s)[y] by {
      assert (multiset(Remove(s, x)) + multiset{x})[y] == multiset(s)[y];
    }
  }

  /** Taking one minimum out of a list of two or more leaves its maximum. */
  lemma MaxSurvivesMinRemoval(times: seq<int>, rest: seq<int>)
    requires |times| >= 2 && rest == Remove(times, Min(times))
    ensures |rest| > 0
    ensures forall x :: x in times ==> x <= Max(rest)
  {
    var min := Min(times);
    var max := Max(rest);
    forall x | x in times
      ensures x <= max
    {
      if x != min {
        OthersRemain(times, min, x);
      } else {
        assert max in multiset(rest);
        assert max in times;
      }
    }
  }

  /** Two successive removals take exactly the two removed values out. */
  lemma TwoRemovals(times: seq<int>, min: int, max: int)
    requires min in times && max in Remove(times, min)
    ensures multiset(times) == multiset(Remove(Remove(times, min), max)) + multiset{min, max}
  {
  }

  /** The minimum and maximum that were taken out, and the times that stay. */
  datatype Trimmed = Trimmed(min: int, max: int, kept: seq<int>)

  /** Lines 82-88: remove one occurrence of the minimum, then one of the
      maximum of what is left. */
  function Trim(times: seq<int>): (r: Result<Trimmed, TrimError>)
    ensures |times| == 0 <==> r == Failure(NoMinimum)
    ensures |times| == 1 <==> r == Failure(NoMaximum)
    ensures r.Success? <==> |times| >= 2
    ensures r.Success? ==> r.value.min in times && forall x :: x in times ==> r.value.min <= x
    ensures r.Success? ==> r.value.max in times && forall x :: x in times ==> x <= r.value.max
    ensures r.Success? ==> |r.value.kept| == |times| - 2
    ensures r.Success? ==> multiset(times) == multiset(r.value.kept) + multiset{r.value.min, r.value.max}
    ensures r.Success? ==> forall x :: x in r.value.kept ==> r.value.min <= x <= r.value.max
  {
    if |times| == 0 then Failure(NoMinimum)
    else
      var min := Min(times);
      var rest := Remove(times, min);
      if |rest| == 0 then Failure(NoMaximum)
      else
        var max := Max(rest);
        var kept := Remove(rest, max);
        MembersOfSmaller(rest, times);
        MembersOfSmaller(kept, rest);
        MaxSurvivesMinRemoval(times, rest);
        TwoRemovals(times, min, max);
        Success(Trimmed(min, max, kept))
  }

  /** Deleting position `i` and then position `j` of what is left deletes
      two distinct positions of `s`, keeping the order of the rest. */
  lemma DeleteAtTwice(s: seq<int>, i: nat, j: nat)
    requires i < |s| && j < |s| - 1
    ensures exists p, q :: (0 <= p < q < |s|
      && DeleteAt(DeleteAt(s, i), j) == s[..p] + s[p + 1..q] + s[q + 1..]
      && multiset{s[p], s[q]} == multiset{s[i], DeleteAt(s, i)[j]})
  {
    var r := DeleteAt(s, i);
    if j < i {
      assert r[..j] == s[..j];
      assert r[j + 1..] == s[j + 1..i] + s[i + 1..];
      assert DeleteAt(r, j) == s[..j] + s[j + 1..i] + s[i + 1..];
      assert multiset{s[j], s[i]} == multiset{s[i], r[j]};
    } else {
      assert r[..j] == s[..i] + s[i + 1..j + 1];
      assert r[j + 1..] == s[j + 2..];
      assert DeleteAt(r, j) == s[..i] + s[i + 1..j + 1] + s[j + 2..];
      assert multiset{s[i], s[j + 1]} == multiset{s[i], r[j]};
    }
  }

  /** A successful trim is the two removals of lines 84 and 88. */
  lemma TrimIsTwoRemovals(times: seq<int>)
    requires |times| >= 2
    ensures Trim(times).Success?
    ensures Trim(times).value.kept == Remove(Remove(times, Trim(times).value.min), Trim(times).value.max)
    ensures Trim(times).value.min in times
    ensures Trim(times).value.max in Remove(times, Trim(times).value.min)
  {
  }

  /** The kept times are the recorded ones with exactly two positions deleted,
      one holding the minimum and one the maximum, in their original order. */
  lemma TrimKeepsOrder(times: seq<int>)
    requires |times| >= 2
    ensures Trim(times).Success?
    ensures exists p, q :: (0 <= p < q < |times|
      && Trim(times).value.kept == times[..p] + times[p + 1..q] + times[q + 1..]
      && multiset{times[p], times[q]} == multiset{Trim(times).value.min, Trim(times).value.max})
  {
    TrimIsTwoRemovals(times);
    var t := Trim(times).value;
    var i := FirstIndex(times, t.min);
    var j := FirstIndex(DeleteAt(times, i), t.max);
    DeleteAtTwice(times, i, j);
  }

  /** The total of the times. */
  function Sum(s: seq<int>): (total: int)
    ensures (forall x :: x in s ==> x >= 0) ==> total >= 0
  {
    if |s| == 0 then 0
    else
      assert s[0] in s && forall x :: x in s[1..] ==> x in s;
      s[0] + Sum(s[1..])
  }

  lemma {:induction false} SumAppend(a: seq<int>, b: seq<int>)
    ensures Sum(a + b) == Sum(a) + Sum(b)
    decreases |a|
  {
    if |a| == 0 {
      assert a + b == b;
    } else {
      assert (a + b)[1..] == a[1..] + b;
      SumAppend(a[1..], b);
    }
  }

  /** Deleting one time takes exactly that time off the total. */
  lemma {:induction false} SumDeleteAt(s: seq<int>, k: nat)
    requires k < |s|
    ensures Sum(s) == s[k] + Sum(DeleteAt(s, k))
    decreases k
  {
    if k == 0 {
      assert DeleteAt(s, k) == s[1..];
    } else {
      var r := DeleteAt(s, k);
      assert r[0] == s[0];
      assert r[1..] == DeleteAt(s[1..], k - 1);
      SumDeleteAt(s[1..], k - 1);
    }
  }

  /** The total depends only on which times were recorded, not their order. */
  lemma {:induction false} SumPermutation(a: seq<int>, b: seq<int>)
    requires multiset(a) == multiset(b)
    ensures Sum(a) == Sum(b)
    decreases |a|
  {
    if |a| == 0 {
      assert |b| == |multiset(b)| == 0;
    } else {
      var k := PositionOfHead(a, b);
      PermutationTail(a, b, k);
      SumPermutation(a[1..], DeleteAt(b, k));
      SumDeleteAt(b, k);
    }
  }

  lemma MulSucc(n: int, c: int)
    ensures (n + 1) * c == c + n * c
  {
  }

  /** Values between `lo` and `hi` add up to between `|s| * lo` and `|s| * hi`. */
  lemma {:induction false} SumBetween(s: seq<int>, lo: int, hi: int)
    requires forall x :: x in s ==> lo <= x <= hi
    ensures |s| * lo <= Sum(s) <= |s| * hi
    decreases |s|
  {
    if |s| > 0 {
      var rest := s[1..];
      assert forall x :: x in rest ==> x in s;
      SumBetween(rest, lo, hi);
      assert lo <= s[0] <= hi by {
        assert s[0] in s;
      }
      MulSucc(|rest|, lo);
      MulSucc(|rest|, hi);
    }
  }

  /** Taking two values out of a multiset of times takes both off the total. */
  lemma SumWithoutTwo(times: seq<int>, kept: seq<int>, x: int, y: int)
    requires multiset(times) == multiset(kept) + multiset{x, y}
    ensures Sum(times) == Sum(kept) + x + y
  {
    var both := kept + [x, y];
    assert multiset(both) == multiset(kept) + multiset{x, y};
    SumPermutation(times, both);
    SumAppend(kept, [x, y]);
    assert Sum([x, y]) == x + y by {
      assert [x, y][1..] == [y];
      assert [y][1..] == [];
      assert Sum([y]) == y;
    }
  }

  /** The kept times add up to the total less the two removed extremes. */
  lemma TrimmedTotal(times: seq<int>)
    requires |times| >= 2
    ensures Trim(times).Success?
    ensures Sum(times) == Sum(Trim(times).value.kept) + Trim(times).value.min + Trim(times).value.max
  {
    var t := Trim(times).value;
    SumWithoutTwo(times, t.kept, t.min, t.max);
  }

  /** The statistics of one pool width: the two discarded extremes, which
      `findPrimes` logs (lines 83 and 87), and the total and number of the
      times kept, from which the logged average (line 92) is computed. */
  datatype Summary = Summary(min: int, max: int, keptTotal: int, keptCount: nat)

  /** `LongStream.average()`: the number that, taken once per kept time,
      adds up to their total; an exact real. */
  function Average(s: Summary): (avg: real)
    requires s.keptCount > 0
    ensures avg * s.keptCount as real == s.keptTotal as real
  {
    s.keptTotal as real / s.keptCount as real
  }

  /** Lines 82-90: trim one minimum and one maximum, then average the rest,
      which `getAsDouble` refuses when nothing is left. The step fails unless
      at least three times were recorded; what is averaged is the total less
      the two extremes, over two fewer times. */
  function Summarize(times: seq<int>): (r: Result<Summary, TrimError>)
    ensures r.Success? <==> |times| >= 3
    ensures |times| == 0 ==> r == Failure(NoMinimum)
    ensures |times| == 1 ==> r == Failure(NoMaximum)
    ensures |times| == 2 ==> r == Failure(NoAverage)
    ensures r.Success? ==> r.value.min in times && forall x :: x in times ==> r.value.min <= x
    ensures r.Success? ==> r.value.max in times && forall x :: x in times ==> x <= r.value.max
    ensures r.Success? ==> r.value.keptCount == |times| - 2
    ensures r.Success? ==> r.value.keptTotal == Sum(times) - r.value.min - r.value.max
    ensures r.Success? ==> r.value.keptCount * r.value.min <= r.value.keptTotal <= r.value.keptCount * r.value.max
  {
    match Trim(times)
    case Failure(e) => Failure(e)
    case Success(t) =>
      if |t.kept| == 0 then Failure(NoAverage)
      else
        TrimmedTotal(times);
        SumBetween(t.kept, t.min, t.max);
        Success(Summary(t.min, t.max, Sum(t.kept), |t.kept|))
  }

  /** A mean of `n` values whose total lies between `n * lo` and `n * hi`
      lies between `lo` and `hi`. */
  lemma MeanBetween(total: int, n: int, lo: int, hi: int)
    requires n > 0 && n * lo <= total <= n * hi
    ensures lo as real <= total as real / n as real <= hi as real
  {
    var mean := total as real / n as real;
    assert mean * n as real == total as real;
    assert (n * lo) as real == n as real * lo as real;
    assert (n * hi) as real == n as real * hi as real;
  }

  /** The trimmed average lies between the discarded minimum and maximum. */
  lemma AverageWithinExtremes(times: seq<int>)
    requires |times| >= 3
    ensures Summarize(times).Success?
    ensures Summarize(times).value.min as real <= Average(Summarize(times).value)
    ensures Average(Summarize(times).value) <= Summarize(times).value.max as real
  {
    var v := Summarize(times).value;
    MeanBetween(v.keptTotal, v.keptCount, v.min, v.max);
  }

  /** When the least and greatest readings are known, the summary discards
      exactly them and averages the rest. */
  lemma SummaryOfKnownExtremes(times: seq<int>, lo: int, hi: int)
    requires |times| >= 3 && lo in times && hi in times
    requires forall x :: x in times ==> lo <= x <= hi
    ensures Summarize(times) == Success(Summary(lo, hi, Sum(times) - lo - hi, |times| - 2))
  {
    var r := Summarize(times);
    assert r.Success?;
    var v := r.value;
    assert v.min == lo && v.max == hi;
    assert v.keptCount == |times| - 2;
    assert v.keptTotal == Sum(times) - lo - hi;
    assert v == Summary(lo, hi, Sum(times) - lo - hi, |times| - 2);
    assert r == Success(v);
  }

  /** Two lists with the same elements counted with multiplicity have the
      same elements. */
  lemma SameMembers(a: seq<int>, b: seq<int>)
    requires multiset(a) == multiset(b)
    ensures forall x :: x in a <==> x in b
  {
    forall x
      ensures x in a <==> x in b
    {
      assert x in a <==> x in multiset(a);
      assert x in b <==> x in multiset(b);
    }
  }

  /** Permuted lists have the same least and the same greatest element. */
  lemma SameExtremes(a: seq<int>, b: seq<int>, lowA: int, lowB: int, highA: int, highB: int)
    requires multiset(a) == multiset(b)
    requires lowA in a && forall x :: x in a ==> lowA <= x
    requires lowB in b && forall x :: x in b ==> lowB <= x
    requires highA in a && forall x :: x in a ==> x <= highA
    requires highB in b && forall x :: x in b ==> x <= highB
    ensures lowA == lowB && highA == highB
  {
    SameMembers(a, b);
  }

  /** Permuted lists of at least three times trim to the same summary. */
  lemma SameSummary(a: seq<int>, b: seq<int>)
    requires multiset(a) == multiset(b) && |a| >= 3
    ensures Summarize(a) == Summarize(b)
  {
    assert |a| == |multiset(a)| == |multiset(b)| == |b|;
    var sa := Summarize(a).value;
    var sb := Summarize(b).value;
    SameExtremes(a, b, sa.min, sb.min, sa.max, sb.max);
    SumPermutation(a, b);
    assert sa == sb;
    assert Summarize(a) == Success(sa) && Summarize(b) == Success(sb);
  }

  /** The summary depends only on which times were recorded, not on the
      order the trials finished in. */
  lemma SummaryIgnoresOrder(a: seq<int>, b: seq<int>)
    requires multiset(a) == multiset(b)
    ensures Summarize(a) == Summarize(b)
  {
    assert |a| == |multiset(a)| == |b|;
    if |a| >= 3 {
      SameSummary(a, b);
    }
  }
}
