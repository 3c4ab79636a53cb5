/** What the sorting drivers of sort.h compute, stated on values.

    `SortSeq` is an independent reference sort (insertion into a sorted
    sequence).  A sorted permutation of a sequence is unique, so whatever
    a driver leaves in its range is `SortSeq` of the range's original
    contents, and the four drivers agree with one another. */
module Sorting {

  /** Non-decreasing order, the only order the program sorts by. */
  predicate Sorted(s: seq<int>) {
    forall p, q :: 0 <= p < q < |s| ==> s[p] <= s[q]
  }

  /** Every element of `lo` is at most every element of `hi`. */
  ghost predicate Below(lo: seq<int>, hi: seq<int>) {
    forall p, q :: 0 <= p < |lo| && 0 <= q < |hi| ==> lo[p] <= hi[q]
  }

  /** Puts `x` into the sorted sequence `s` in front of the first element not smaller than it. */
  function Insert(x: int, s: seq<int>): (r: seq<int>)
    requires Sorted(s)
    ensures Sorted(r)
    ensures multiset(r) == multiset(s) + multiset{x}
    ensures |r| == |s| + 1 && (r[0] == x || (s != [] && r[0] == s[0]))
  {
    if s == [] || x <= s[0] then [x] + s
    else
      assert s == [s[0]] + s[1..];
      [s[0]] + Insert(x, s[1..])
  }

  /** The reference sort: the sorted permutation of `s`. */
  function SortSeq(s: seq<int>): (r: seq<int>)
    ensures Sorted(r)
    ensures multiset(r) == multiset(s)
  {
    if s == [] then []
    else
      assert s == [s[0]] + s[1..];
      Insert(s[0], SortSeq(s[1..]))
  }

  /** The multiset of a sequence with `x` in front. */
  lemma ConsMultiset(x: int, t: seq<int>, s: seq<int>)
    requires s == [x] + t
    ensures multiset(s) == multiset{x} + multiset(t)
  {
  }

  /** A multiset has exactly one sorted arrangement. */
  lemma {:induction false} SortedUnique(s: seq<int>, t: seq<int>)
    requires Sorted(s) && Sorted(t)
    requires multiset(s) == multiset(t)
    ensures s == t
  {
    assert |s| == |multiset(s)| == |multiset(t)| == |t|;
    if s != [] {
      assert s[0] in multiset(t);
      assert t[0] in multiset(s);
      assert s[0] == t[0];
      assert s == [s[0]] + s[1..];
      assert t == [t[0]] + t[1..];
      calc {
        multiset(s[1..]);
        multiset(s) - multiset{s[0]};
        multiset(t) - multiset{t[0]};
        multiset(t[1..]);
      }
      SortedUnique(s[1..], t[1..]);
    }
  }

  /** Whatever sorted permutation of `s` a driver produces, it is `SortSeq(s)`. */
  lemma SortedPermutationIsSortSeq(s: seq<int>, t: seq<int>)
    requires Sorted(t) && multiset(t) == multiset(s)
    ensures t == SortSeq(s)
  {
    SortedUnique(t, SortSeq(s));
  }

  /** Two sorted sequences, the first below the second, make a sorted sequence. */
  lemma JoinSorted(x: seq<int>, y: seq<int>)
    requires Sorted(x) && Sorted(y) && Below(x, y)
    ensures Sorted(x + y)
  {
    forall p, q | 0 <= p < q < |x + y|
      ensures (x + y)[p] <= (x + y)[q]
    {
      if q < |x| {
        assert (x + y)[p] == x[p] && (x + y)[q] == x[q];
      } else if p < |x| {
        assert (x + y)[p] == x[p] && (x + y)[q] == y[q - |x|];
      } else {
        assert (x + y)[p] == y[p - |x|] && (x + y)[q] == y[q - |x|];
      }
    }
  }

  /** `Below` depends only on the elements of each side, not on their order. */
  lemma BelowPermuted(a: seq<int>, b: seq<int>, x: seq<int>, y: seq<int>)
    requires Below(a, b)
    requires multiset(x) == multiset(a) && multiset(y) == multiset(b)
    ensures Below(x, y)
  {
    forall p, q | 0 <= p < |x| && 0 <= q < |y|
      ensures x[p] <= y[q]
    {
      assert x[p] in multiset(a);
      var u :| 0 <= u < |a| && a[u] == x[p];
      assert y[q] in multiset(b);
      var v :| 0 <= v < |b| && b[v] == y[q];
    }
  }

}
