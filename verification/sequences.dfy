/** Sequence facts shared by the counting and the timing parts of the model. */
module Sequences {

  /** `s` without its element at position `k`. */
  function DeleteAt<T>(s: seq<T>, k: nat): (r: seq<T>)
    requires k < |s|
    ensures |r| == |s| - 1
    ensures multiset(r) + multiset{s[k]} == multiset(s)
  {
    assert s == s[..k] + [s[k]] + s[k + 1..];
    s[..k] + s[k + 1..]
  }

  /** Two permutations stay permutations of each other once the first
      element of one is deleted from wherever it sits in the other. */
  lemma PermutationTail<T>(a: seq<T>, b: seq<T>, k: nat)
    requires multiset(a) == multiset(b) && |a| > 0 && k < |b| && b[k] == a[0]
    ensures multiset(a[1..]) == multiset(DeleteAt(b, k))
  {
    assert a == [a[0]] + a[1..];
    var x := a[0];
    assert multiset(a[1..]) == multiset(a) - multiset{x};
    assert multiset(DeleteAt(b, k)) == multiset(b) - multiset{x};
  }

  /** Where a permutation's first element sits in the other sequence. */
  lemma PositionOfHead<T>(a: seq<T>, b: seq<T>) returns (k: nat)
    requires multiset(a) == multiset(b) && |a| > 0
    ensures k < |b| && b[k] == a[0]
  {
    assert a[0] in multiset(b);
    k :| 0 <= k < |b| && b[k] == a[0];
  }
}
