/** The merge step of sort.h's merge sort, stated on values.

    `Merge(l, r)` is what the merge loops append to the scratch buffer when
    the left range holds `l` and the right range holds `r`; `MergeOrigin`
    says, for each appended value, which cell it was read from.  Together
    they state that the merge is stable: equal values leave in the order of
    the cells they came from.  `MergeSortSeq` is the recursive merge sort
    built from `Merge`, splitting at the same midpoint as sort.h, and
    `MergeSortOrigin` follows its values back to their input positions. */
module Merging {
  import opened Sorting

  /** The smaller head goes first, the left head on a tie; once one side
      is used up, the other side's remainder follows unchanged. */
  function Merge(l: seq<int>, r: seq<int>): (out: seq<int>)
    ensures |out| == |l| + |r|
    decreases |l| + |r|
  {
    if l == [] then r
    else if r == [] then l
    else if l[0] <= r[0] then [l[0]] + Merge(l[1..], r)
    else [r[0]] + Merge(l, r[1..])
  }

  /** The merge appends every value of both sides exactly once. */
  lemma {:induction false} MergePermutes(l: seq<int>, r: seq<int>)
    ensures multiset(Merge(l, r)) == multiset(l) + multiset(r)
    decreases |l| + |r|
  {
    if l != [] && r != [] {
      if l[0] <= r[0] {
        var t := Merge(l[1..], r);
        MergePermutes(l[1..], r);
        ConsMultiset(l[0], l[1..], l);
        ConsMultiset(l[0], t, Merge(l, r));
      } else {
        var t := Merge(l, r[1..]);
        MergePermutes(l, r[1..]);
        ConsMultiset(r[0], r[1..], r);
        ConsMultiset(r[0], t, Merge(l, r));
      }
    }
  }

  /** Once either side is empty, the merge is the two sides one after the
      other: appending them in turn to `done` completes `whole`. */
  lemma MergeUsedUp(done: seq<int>, l: seq<int>, r: seq<int>, withL: seq<int>, withR: seq<int>, whole: seq<int>)
    requires done + Merge(l, r) == whole
    requires l == [] || r == []
    requires withL == done + l && withR == withL + r
    ensures withR == whole
  {
    assert Merge(l, r) == l + r;
  }

  /** When the left head is not above the right head, the merge takes it
      next: `done` followed by it and the merge of the rest is still `whole`. */
  lemma MergeTakeLeft(done: seq<int>, l: seq<int>, r: seq<int>, whole: seq<int>)
    requires done + Merge(l, r) == whole
    requires l != [] && r != [] && l[0] <= r[0]
    ensures (done + [l[0]]) + Merge(l[1..], r) == whole
  {
  }

  /** When the right head is below the left head, the merge takes it next. */
  lemma MergeTakeRight(done: seq<int>, l: seq<int>, r: seq<int>, whole: seq<int>)
    requires done + Merge(l, r) == whole
    requires l != [] && r != [] && r[0] < l[0]
    ensures (done + [r[0]]) + Merge(l, r[1..]) == whole
  {
  }

  /** Every element of `s` is at least `x`. */
  ghost predicate AtLeast(s: seq<int>, x: int) {
    forall k :: 0 <= k < |s| ==> x <= s[k]
  }

  /** A value that is at most a sorted sequence's head is at most all of it. */
  lemma SortedAtLeast(s: seq<int>, x: int)
    requires Sorted(s) && (s != [] ==> x <= s[0])
    ensures AtLeast(s, x)
  {
  }

  /** Putting `x` in front of a sorted sequence whose elements are at least
      `x` keeps it sorted. */
  lemma ConsSorted(x: int, t: seq<int>, s: seq<int>)
    requires s == [x] + t && Sorted(t) && AtLeast(t, x)
    ensures Sorted(s)
  {
    forall p, q | 0 <= p < q < |s|
      ensures s[p] <= s[q]
    {
      assert s[q] == t[q - 1];
      if p > 0 {
        assert s[p] == t[p - 1];
      }
    }
  }

  /** Merging two sorted sequences gives a sorted sequence, and a value at
      most both heads is at most every element of the result. */
  lemma {:induction false} MergeSortedAtLeast(l: seq<int>, r: seq<int>, x: int)
    requires Sorted(l) && Sorted(r)
    requires l != [] ==> x <= l[0]
    requires r != [] ==> x <= r[0]
    ensures Sorted(Merge(l, r)) && AtLeast(Merge(l, r), x)
    decreases |l| + |r|
  {
    if l == [] {
      SortedAtLeast(r, x);
    } else if r == [] {
      SortedAtLeast(l, x);
    } else if l[0] <= r[0] {
      MergeSortedAtLeast(l[1..], r, l[0]);
      ConsSorted(l[0], Merge(l[1..], r), Merge(l, r));
    } else {
      MergeSortedAtLeast(l, r[1..], r[0]);
      ConsSorted(r[0], Merge(l, r[1..]), Merge(l, r));
    }
  }

  /** Merging two sorted sequences gives a sorted arrangement of their
      concatenation. */
  lemma MergeSorted(l: seq<int>, r: seq<int>)
    requires Sorted(l) && Sorted(r)
    ensures Sorted(Merge(l, r))
    ensures multiset(Merge(l, r)) == multiset(l + r)
  {
    var x := if l == [] then (if r == [] then 0 else r[0])
             else if r == [] then l[0]
             else if l[0] <= r[0] then l[0] else r[0];
    MergeSortedAtLeast(l, r, x);
    MergePermutes(l, r);
  }

  /** Merging two sorted sequences gives exactly the reference sort of their
      concatenation. */
  lemma MergeIsSortSeq(l: seq<int>, r: seq<int>)
    requires Sorted(l) && Sorted(r)
    ensures Merge(l, r) == SortSeq(l + r)
  {
    MergeSorted(l, r);
    SortedPermutationIsSortSeq(l + r, Merge(l, r));
  }

  /** The tag of each value `Merge(l, r)` appends, when the values of `l`
      carry the tags `tl` and those of `r` the tags `tr`: the tags travel with
      their values.  With cell indices as tags, this says which cell each
      value of the merged range was read from. */
  function MergeOrigin(l: seq<int>, r: seq<int>, tl: seq<int>, tr: seq<int>): (o: seq<int>)
    requires |tl| == |l| && |tr| == |r|
    ensures |o| == |l| + |r|
    decreases |l| + |r|
  {
    if l == [] then tr
    else if r == [] then tl
    else if l[0] <= r[0] then [tl[0]] + MergeOrigin(l[1..], r, tl[1..], tr)
    else [tr[0]] + MergeOrigin(l, r[1..], tl, tr[1..])
  }

  /** Each `v[k]` is the value of cell `t[k]` of `src`. */
  ghost predicate Tagged(src: seq<int>, v: seq<int>, t: seq<int>) {
    && |t| == |v|
    && forall k :: 0 <= k < |v| ==> 0 <= t[k] < |src| && v[k] == src[t[k]]
  }

  /** Equal values appear in increasing order of their tags. */
  ghost predicate TagOrdered(v: seq<int>, t: seq<int>)
    requires |t| == |v|
  {
    forall p, q :: 0 <= p < q < |v| && v[p] == v[q] ==> t[p] < t[q]
  }

  /** Every value equal to `x` carries a tag greater than `tx`. */
  ghost predicate TagsAfter(v: seq<int>, t: seq<int>, x: int, tx: int)
    requires |t| == |v|
  {
    forall k :: 0 <= k < |v| && v[k] == x ==> tx < t[k]
  }

  /** `dst` is a rearrangement of `src` in which `dst[k]` is `src[origin[k]]`,
      and equal values keep the relative order of the cells they came from.
      (Distinct values come from distinct cells, and equal ones from
      increasing cells, so `origin` is a one-to-one map onto the cells of
      `src`.) */
  ghost predicate StableRearrangement(src: seq<int>, dst: seq<int>, origin: seq<int>) {
    |dst| == |src| && Tagged(src, dst, origin) && TagOrdered(dst, origin)
  }

  lemma TaggedCons(src: seq<int>, x: int, tx: int, v: seq<int>, t: seq<int>)
    requires Tagged(src, v, t) && 0 <= tx < |src| && x == src[tx]
    ensures Tagged(src, [x] + v, [tx] + t)
  {
    var v', t' := [x] + v, [tx] + t;
    forall k | 1 <= k < |v'|
      ensures 0 <= t'[k] < |src| && v'[k] == src[t'[k]]
    {
      assert v'[k] == v[k - 1] && t'[k] == t[k - 1];
    }
  }

  lemma TaggedTail(src: seq<int>, v: seq<int>, t: seq<int>)
    requires Tagged(src, v, t) && v != []
    ensures Tagged(src, v[1..], t[1..])
  {
    forall k | 0 <= k < |v| - 1
      ensures 0 <= t[1..][k] < |src| && v[1..][k] == src[t[1..][k]]
    {
      assert v[1..][k] == v[k + 1] && t[1..][k] == t[k + 1];
    }
  }

  /** The merge takes every value from `l` or `r` together with its tag. */
  lemma {:induction false} MergeTagged(src: seq<int>, l: seq<int>, r: seq<int>, tl: seq<int>, tr: seq<int>)
    requires Tagged(src, l, tl) && Tagged(src, r, tr)
    ensures Tagged(src, Merge(l, r), MergeOrigin(l, r, tl, tr))
    decreases |l| + |r|
  {
    if l != [] && r != [] {
      if l[0] <= r[0] {
        TaggedTail(src, l, tl);
        MergeTagged(src, l[1..], r, tl[1..], tr);
        TaggedCons(src, l[0], tl[0], Merge(l[1..], r), MergeOrigin(l[1..], r, tl[1..], tr));
      } else {
        TaggedTail(src, r, tr);
        MergeTagged(src, l, r[1..], tl, tr[1..]);
        TaggedCons(src, r[0], tr[0], Merge(l, r[1..]), MergeOrigin(l, r[1..], tl, tr[1..]));
      }
    }
  }

  lemma TagsAfterCons(y: int, ty: int, v: seq<int>, t: seq<int>, x: int, tx: int)
    requires |t| == |v| && TagsAfter(v, t, x, tx) && (y == x ==> tx < ty)
    ensures TagsAfter([y] + v, [ty] + t, x, tx)
  {
    forall k | 1 <= k < |v| + 1 && ([y] + v)[k] == x
      ensures tx < ([ty] + t)[k]
    {
      assert ([y] + v)[k] == v[k - 1] && ([ty] + t)[k] == t[k - 1];
    }
  }

  lemma TagsAfterTail(v: seq<int>, t: seq<int>, x: int, tx: int)
    requires |t| == |v| && v != [] && TagsAfter(v, t, x, tx)
    ensures TagsAfter(v[1..], t[1..], x, tx)
  {
    forall k | 0 <= k < |v| - 1 && v[1..][k] == x
      ensures tx < t[1..][k]
    {
      assert v[1..][k] == v[k + 1] && t[1..][k] == t[k + 1];
    }
  }

  /** A bound on the tags of the values equal to `x` in both inputs holds in
      the merge. */
  lemma {:induction false} MergeTagsAfter(l: seq<int>, r: seq<int>, tl: seq<int>, tr: seq<int>, x: int, tx: int)
    requires |tl| == |l| && |tr| == |r|
    requires TagsAfter(l, tl, x, tx) && TagsAfter(r, tr, x, tx)
    ensures TagsAfter(Merge(l, r), MergeOrigin(l, r, tl, tr), x, tx)
    decreases |l| + |r|
  {
    if l != [] && r != [] {
      if l[0] <= r[0] {
        TagsAfterTail(l, tl, x, tx);
        MergeTagsAfter(l[1..], r, tl[1..], tr, x, tx);
        TagsAfterCons(l[0], tl[0], Merge(l[1..], r), MergeOrigin(l[1..], r, tl[1..], tr), x, tx);
      } else {
        TagsAfterTail(r, tr, x, tx);
        MergeTagsAfter(l, r[1..], tl, tr[1..], x, tx);
        TagsAfterCons(r[0], tr[0], Merge(l, r[1..]), MergeOrigin(l, r[1..], tl, tr[1..]), x, tx);
      }
    }
  }

  lemma TagOrderedCons(x: int, tx: int, v: seq<int>, t: seq<int>)
    requires |t| == |v| && TagOrdered(v, t) && TagsAfter(v, t, x, tx)
    ensures TagOrdered([x] + v, [tx] + t)
  {
    var v', t' := [x] + v, [tx] + t;
    forall p, q | 0 <= p < q < |v'| && v'[p] == v'[q]
      ensures t'[p] < t'[q]
    {
      assert v'[q] == v[q - 1] && t'[q] == t[q - 1];
      if p > 0 {
        assert v'[p] == v[p - 1] && t'[p] == t[p - 1];
      }
    }
  }

  /** In a tag-ordered sequence, the values after the head that equal it
      carry greater tags. */
  lemma TagOrderedTail(v: seq<int>, t: seq<int>)
    requires |t| == |v| && v != [] && TagOrdered(v, t)
    ensures TagOrdered(v[1..], t[1..]) && TagsAfter(v[1..], t[1..], v[0], t[0])
  {
    forall k | 0 <= k < |v| - 1 && v[1..][k] == v[0]
      ensures t[0] < t[1..][k]
    {
      assert v[1..][k] == v[k + 1] && t[1..][k] == t[k + 1];
    }
    forall p, q | 0 <= p < q < |v| - 1 && v[1..][p] == v[1..][q]
      ensures t[1..][p] < t[1..][q]
    {
      assert v[1..][p] == v[p + 1] && t[1..][p] == t[p + 1];
      assert v[1..][q] == v[q + 1] && t[1..][q] == t[q + 1];
    }
  }

  /** A value smaller than the head of a sorted sequence occurs nowhere in it. */
  lemma AbsentFromSorted(v: seq<int>, t: seq<int>, x: int, tx: int)
    requires |t| == |v| && Sorted(v) && v != [] && x < v[0]
    ensures TagsAfter(v, t, x, tx)
  {
  }

  /** Every tag of `tl` is below every tag of `tr`. */
  ghost predicate TagsBefore(tl: seq<int>, tr: seq<int>) {
    forall p, q :: 0 <= p < |tl| && 0 <= q < |tr| ==> tl[p] < tr[q]
  }

  /** Every value of `r` equal to `x` carries a greater tag than `tx` when
      `tx` is below all of `r`'s tags. */
  lemma TagsAfterBefore(r: seq<int>, tr: seq<int>, x: int, tx: int)
    requires |tr| == |r| && forall q :: 0 <= q < |tr| ==> tx < tr[q]
    ensures TagsAfter(r, tr, x, tx)
  {
  }

  /** The merge is stable: when the left tags all precede the right tags and
      each side is tag-ordered, the merge is tag-ordered. */
  lemma {:induction false} MergeTagOrdered(l: seq<int>, r: seq<int>, tl: seq<int>, tr: seq<int>)
    requires |tl| == |l| && |tr| == |r|
    requires Sorted(l) && TagOrdered(l, tl) && TagOrdered(r, tr) && TagsBefore(tl, tr)
    ensures TagOrdered(Merge(l, r), MergeOrigin(l, r, tl, tr))
    decreases |l| + |r|
  {
    if l != [] && r != [] {
      if l[0] <= r[0] {
        TagOrderedTail(l, tl);
        TagsAfterBefore(r, tr, l[0], tl[0]);
        MergeTagsAfter(l[1..], r, tl[1..], tr, l[0], tl[0]);
        assert TagsBefore(tl[1..], tr);
        MergeTagOrdered(l[1..], r, tl[1..], tr);
        TagOrderedCons(l[0], tl[0], Merge(l[1..], r), MergeOrigin(l[1..], r, tl[1..], tr));
      } else {
        TagOrderedTail(r, tr);
        AbsentFromSorted(l, tl, r[0], tr[0]);
        MergeTagsAfter(l, r[1..], tl, tr[1..], r[0], tr[0]);
        assert TagsBefore(tl, tr[1..]);
        MergeTagOrdered(l, r[1..], tl, tr[1..]);
        TagOrderedCons(r[0], tr[0], Merge(l, r[1..]), MergeOrigin(l, r[1..], tl, tr[1..]));
      }
    }
  }

  /** Tags of the right half of a range, shifted past the left half's cells. */
  ghost function Shift(o: seq<int>, d: int): (r: seq<int>)
    ensures |r| == |o|
  {
    seq(|o|, k requires 0 <= k < |o| => o[k] + d)
  }

  /** Each cell tagged with its own index. */
  ghost function Identity(n: nat): (o: seq<int>)
    ensures |o| == n
  {
    seq(n, k => k)
  }

  /** Leaving a sequence as it is rearranges it stably. */
  lemma IdentityStable(s: seq<int>)
    ensures StableRearrangement(s, s, Identity(|s|))
  {
  }

  /** One merge sort step: stable rearrangements `t1` of `s1` and `t2` of
      `s2`, with `t1` sorted, merge into a stable rearrangement of `s1 + s2`,
      whose tags are those of the halves, the right ones shifted by `|s1|`. */
  lemma MergeStepStable(s1: seq<int>, s2: seq<int>, t1: seq<int>, t2: seq<int>, o1: seq<int>, o2: seq<int>)
    requires Sorted(t1)
    requires StableRearrangement(s1, t1, o1) && StableRearrangement(s2, t2, o2)
    ensures StableRearrangement(s1 + s2, Merge(t1, t2), MergeOrigin(t1, t2, o1, Shift(o2, |s1|)))
  {
    var s, o2' := s1 + s2, Shift(o2, |s1|);
    forall k | 0 <= k < |t1|
      ensures 0 <= o1[k] < |s| && t1[k] == s[o1[k]]
    {
      assert s[o1[k]] == s1[o1[k]];
    }
    forall k | 0 <= k < |t2|
      ensures 0 <= o2'[k] < |s| && t2[k] == s[o2'[k]]
    {
      assert s[o2'[k]] == s2[o2[k]];
    }
    MergeTagged(s, t1, t2, o1, o2');
    MergeTagOrdered(t1, t2, o1, o2');
  }

  /** Merging the sorted `l` with `r` is a stable rearrangement of `l + r`:
      the merged value at each position is read from one cell, and equal
      values leave in the order of their cells. */
  lemma MergeStable(l: seq<int>, r: seq<int>)
    requires Sorted(l)
    ensures StableRearrangement(l + r, Merge(l, r), MergeOrigin(l, r, Identity(|l|), Shift(Identity(|r|), |l|)))
  {
    IdentityStable(l);
    IdentityStable(r);
    MergeStepStable(l, r, l, r, Identity(|l|), Identity(|r|));
  }

  /** Merge sort on values, splitting as sort.h does: the left part of a
      range `[low, high]` ends at `(low + high) / 2`, so it holds the first
      `(|s| - 1) / 2 + 1` values. */
  function MergeSortSeq(s: seq<int>): (r: seq<int>)
    ensures |r| == |s|
    decreases |s|
  {
    if |s| <= 1 then s
    else
      var m := (|s| - 1) / 2 + 1;
      Merge(MergeSortSeq(s[..m]), MergeSortSeq(s[m..]))
  }

  /** The definition of `MergeSortSeq`, one level deep, for a split point `m`.
      It adds no fact of its own: calling it keeps the solver from unfolding
      the definition inside proofs full of slices. */
  lemma MergeSortSeqUnfold(w: seq<int>, m: int)
    requires |w| > 1 && m == (|w| - 1) / 2 + 1
    ensures MergeSortSeq(w) == Merge(MergeSortSeq(w[..m]), MergeSortSeq(w[m..]))
  {
  }

  /** Merge sort returns the values it was given, in ascending order. */
  lemma {:induction false} MergeSortSeqSorts(s: seq<int>)
    ensures Sorted(MergeSortSeq(s)) && multiset(MergeSortSeq(s)) == multiset(s)
    decreases |s|
  {
    if |s| > 1 {
      var m := (|s| - 1) / 2 + 1;
      var l, r := s[..m], s[m..];
      assert s == l + r;
      MergeSortSeqUnfold(s, m);
      MergeSortSeqSorts(l);
      MergeSortSeqSorts(r);
      MergeSorted(MergeSortSeq(l), MergeSortSeq(r));
    }
  }

  /** Merge sort returns exactly the reference sort of its input. */
  lemma MergeSortSeqIsSortSeq(s: seq<int>)
    ensures MergeSortSeq(s) == SortSeq(s)
  {
    MergeSortSeqSorts(s);
    SortedPermutationIsSortSeq(s, MergeSortSeq(s));
  }

  /** For each value merge sort returns, the position in the input it came
      from: the tags of both halves, merged alongside their values. */
  ghost function MergeSortOrigin(s: seq<int>): (o: seq<int>)
    ensures |o| == |s|
    decreases |s|
  {
    if |s| <= 1 then Identity(|s|)
    else
      var m := (|s| - 1) / 2 + 1;
      MergeOrigin(MergeSortSeq(s[..m]), MergeSortSeq(s[m..]), MergeSortOrigin(s[..m]), Shift(MergeSortOrigin(s[m..]), m))
  }

  /** The definition of `MergeSortOrigin`, one level deep, for a split point
      `m`; like `MergeSortSeqUnfold`, it only keeps the unfolding cheap. */
  lemma MergeSortOriginUnfold(w: seq<int>, m: int)
    requires |w| > 1 && m == (|w| - 1) / 2 + 1
    ensures MergeSortOrigin(w)
            == MergeOrigin(MergeSortSeq(w[..m]), MergeSortSeq(w[m..]), MergeSortOrigin(w[..m]), Shift(MergeSortOrigin(w[m..]), m))
  {
  }

  /** Merge sort is stable: it rearranges its input so that equal values
      keep the order of the positions they came from. */
  lemma {:induction false} MergeSortSeqStable(s: seq<int>)
    ensures StableRearrangement(s, MergeSortSeq(s), MergeSortOrigin(s))
    decreases |s|
  {
    if |s| <= 1 {
      IdentityStable(s);
    } else {
      var m := (|s| - 1) / 2 + 1;
      var l, r := s[..m], s[m..];
      assert s == l + r;
      MergeSortSeqUnfold(s, m);
      MergeSortOriginUnfold(s, m);
      MergeSortSeqStable(l);
      MergeSortSeqStable(r);
      MergeSortSeqSorts(l);
      MergeJoinStable(l, r, MergeSortSeq(l), MergeSortSeq(r), MergeSortOrigin(l), MergeSortOrigin(r),
                      s, MergeSortSeq(s), MergeSortOrigin(s));
    }
  }

  /** `MergeStepStable` for a sequence `whole` that is the two runs joined,
      with the merge and its tags given names.  It states nothing new: the
      names let `MergeSortSeqStable` match the conclusion without unfolding
      `MergeSortSeq` and `MergeSortOrigin` again, which keeps that proof cheap. */
  lemma MergeJoinStable(s1: seq<int>, s2: seq<int>, t1: seq<int>, t2: seq<int>, o1: seq<int>, o2: seq<int>,
                        whole: seq<int>, merged: seq<int>, origin: seq<int>)
    requires Sorted(t1)
    requires StableRearrangement(s1, t1, o1) && StableRearrangement(s2, t2, o2)
    requires whole == s1 + s2 && merged == Merge(t1, t2) && origin == MergeOrigin(t1, t2, o1, Shift(o2, |s1|))
    ensures StableRearrangement(whole, merged, origin)
  {
    MergeStepStable(s1, s2, t1, t2, o1, o2);
  }
}
