/**
 * Specifications used by the two sorting algorithms of ArraySeq: what
 * "sorted" means, the merge step, and the result of a top-down merge sort,
 * together with their properties.
 */
module Sorting {

  /** s is non-decreasing. */
  ghost predicate Sorted(s: seq<int>)
  {
    forall i, j :: 0 <= i < j < |s| ==> s[i] <= s[j]
  }

  /** x is at most every element of s. */
  ghost predicate LowerBound(x: int, s: seq<int>)
  {
    forall k :: 0 <= k < |s| ==> x <= s[k]
  }

  /** x is strictly above every element of s. */
  ghost predicate StrictUpperBound(s: seq<int>, x: int)
  {
    forall k :: 0 <= k < |s| ==> s[k] < x
  }

  /**
   * The merge step of merge_sort: take the left head when the right side is
   * used up or when it is strictly smaller than the right head (so the right
   * one wins ties), otherwise the right head.
   */
  ghost function Merge(xs: seq<int>, ys: seq<int>): (r: seq<int>)
    ensures |r| == |xs| + |ys|
    decreases |xs| + |ys|
  {
    if xs == [] && ys == [] then []
    else if ys == [] || (xs != [] && xs[0] < ys[0]) then [xs[0]] + Merge(xs[1..], ys)
    else [ys[0]] + Merge(xs, ys[1..])
  }

  /** Length of the left half when merge_sort splits a range of n >= 2 elements at mid = (start + end) / 2. */
  function LeftHalf(n: int): (m: int)
    requires n >= 2
    ensures 1 <= m < n
  {
    (n - 1) / 2 + 1
  }

  /** What merge_sort leaves in a range that held s. */
  ghost function MergeSorted(s: seq<int>): (r: seq<int>)
    ensures |r| == |s|
    decreases |s|
  {
    if |s| <= 1 then s
    else
      var m := LeftHalf(|s|);
      Merge(MergeSorted(s[..m]), MergeSorted(s[m..]))
  }

  /** What merge_sort(start, end) leaves in a whole buffer that held s: the closed range [start, end] sorted, the rest as it was. */
  ghost function MergeSortedRange(s: seq<int>, start: int, end: int): (r: seq<int>)
    requires 0 <= start <= end + 1 <= |s|
    ensures |r| == |s|
  {
    s[..start] + MergeSorted(s[start..end + 1]) + s[end + 1..]
  }

  /** Sorting the range [0, n) of a buffer leaves MergeSorted of its first n elements there. */
  lemma MergeSortedPrefix(s: seq<int>, n: int)
    requires 0 <= n <= |s|
    ensures MergeSortedRange(s, 0, n - 1)[..n] == MergeSorted(s[..n])
  {
    assert s[..0] == [];
  }

  /**
   * One level of merge_sort(start, end) on a whole buffer: sorting [start, mid]
   * (s0 to s1), then [mid + 1, end] (s1 to s2), then writing the merge of the
   * two halves of s2 over [start, end] sorts [start, end] of s0.
   */
  lemma MergeSortedRangeStep(s0: seq<int>, s1: seq<int>, s2: seq<int>, start: int, mid: int, end: int)
    requires 0 <= start < end < |s0| && mid == start + LeftHalf(end - start + 1) - 1
    requires s1 == MergeSortedRange(s0, start, mid)
    requires s2 == MergeSortedRange(s1, mid + 1, end)
    ensures s2[..start] + Merge(s2[start..mid + 1], s2[mid + 1..end + 1]) + s2[end + 1..]
         == MergeSortedRange(s0, start, end)
  {
    var whole := s0[start..end + 1];
    var m := mid - start + 1;
    assert whole[..m] == s0[start..mid + 1] && whole[m..] == s0[mid + 1..end + 1];
    LeftHalfSorted(s0, s1, start, mid, end);
    RightHalfSorted(s1, s2, start, mid, end);
    MergeSortedStep(whole, m, s2[start..mid + 1], s2[mid + 1..end + 1]);
  }

  /** Sorting [start, mid] of s0 into s1 leaves s1 equal to s0 on each of the other three parts of [0, |s0|). */
  lemma LeftHalfSorted(s0: seq<int>, s1: seq<int>, start: int, mid: int, end: int)
    requires 0 <= start <= mid < end < |s0|
    requires s1 == MergeSortedRange(s0, start, mid)
    ensures s1[..start] == s0[..start] && s1[start..mid + 1] == MergeSorted(s0[start..mid + 1])
    ensures s1[mid + 1..end + 1] == s0[mid + 1..end + 1] && s1[end + 1..] == s0[end + 1..]
  {
    var t := MergeSorted(s0[start..mid + 1]);
    SplicePrefix(s0, t, s1, start, mid + 1, start);
    SpliceMiddle(s0, t, s1, start, mid + 1);
    SpliceKeeps(s0, t, s1, start, mid + 1, mid + 1, end + 1);
    SpliceSuffix(s0, t, s1, start, mid + 1, end + 1);
  }

  /** Sorting [mid + 1, end] of s1 into s2, as LeftHalfSorted. */
  lemma RightHalfSorted(s1: seq<int>, s2: seq<int>, start: int, mid: int, end: int)
    requires 0 <= start <= mid < end < |s1|
    requires s2 == MergeSortedRange(s1, mid + 1, end)
    ensures s2[..start] == s1[..start] && s2[start..mid + 1] == s1[start..mid + 1]
    ensures s2[mid + 1..end + 1] == MergeSorted(s1[mid + 1..end + 1]) && s2[end + 1..] == s1[end + 1..]
  {
    var t := MergeSorted(s1[mid + 1..end + 1]);
    SplicePrefix(s1, t, s2, mid + 1, end + 1, start);
    SpliceKeeps(s1, t, s2, mid + 1, end + 1, start, mid + 1);
    SpliceMiddle(s1, t, s2, mid + 1, end + 1);
    SpliceSuffix(s1, t, s2, mid + 1, end + 1, end + 1);
  }

  /** Replacing the range [lo, hi) of s by t puts t there. */
  lemma SpliceMiddle(s: seq<int>, t: seq<int>, r: seq<int>, lo: int, hi: int)
    requires 0 <= lo <= hi <= |s| && |t| == hi - lo && r == s[..lo] + t + s[hi..]
    ensures r[lo..hi] == t
  {
    assert r == (s[..lo] + t) + s[hi..];
    assert (s[..lo] + t)[lo..] == t;
  }

  /** Replacing the range [lo, hi) of s keeps every range [i, j) outside it. */
  lemma SpliceKeeps(s: seq<int>, t: seq<int>, r: seq<int>, lo: int, hi: int, i: int, j: int)
    requires 0 <= lo <= hi <= |s| && |t| == hi - lo && r == s[..lo] + t + s[hi..]
    requires 0 <= i <= j <= |s| && (j <= lo || hi <= i)
    ensures r[i..j] == s[i..j]
  {
    forall k | i <= k < j ensures r[k] == s[k] {
      if k < lo {
        assert r[k] == s[..lo][k];
      } else {
        assert r[k] == s[hi..][k - hi];
      }
    }
  }

  /** Replacing the range [lo, hi) of s keeps every prefix up to lo. */
  lemma SplicePrefix(s: seq<int>, t: seq<int>, r: seq<int>, lo: int, hi: int, i: int)
    requires 0 <= lo <= hi <= |s| && |t| == hi - lo && r == s[..lo] + t + s[hi..]
    requires 0 <= i <= lo
    ensures r[..i] == s[..i]
  {
    forall k | 0 <= k < i ensures r[k] == s[k] {
      assert r[k] == s[..lo][k];
    }
  }

  /** Replacing the range [lo, hi) of s keeps every suffix from hi on. */
  lemma SpliceSuffix(s: seq<int>, t: seq<int>, r: seq<int>, lo: int, hi: int, i: int)
    requires 0 <= lo <= hi <= |s| && |t| == hi - lo && r == s[..lo] + t + s[hi..]
    requires hi <= i <= |s|
    ensures r[i..] == s[i..]
  {
    forall k | i <= k < |s| ensures r[k] == s[k] {
      assert r[k] == s[hi..][k - hi];
    }
  }

  /** One level of merge_sort: sorting both halves and merging them. */
  lemma MergeSortedStep(s: seq<int>, m: int, left: seq<int>, right: seq<int>)
    requires |s| >= 2 && m == LeftHalf(|s|)
    requires left == MergeSorted(s[..m]) && right == MergeSorted(s[m..])
    ensures MergeSorted(s) == Merge(left, right)
  {
  }

  /** Putting x in front of a rearrangement of a and b rearranges x + a and b. */
  lemma ConsPermutesLeft(x: int, t: seq<int>, a: seq<int>, b: seq<int>)
    requires multiset(t) == multiset(a) + multiset(b)
    ensures multiset([x] + t) == multiset([x] + a) + multiset(b)
  {
  }

  /** Putting x in front of a rearrangement of a and b rearranges a and x + b. */
  lemma ConsPermutesRight(x: int, t: seq<int>, a: seq<int>, b: seq<int>)
    requires multiset(t) == multiset(a) + multiset(b)
    ensures multiset([x] + t) == multiset(a) + multiset([x] + b)
  {
  }

  /** Merging loses and invents nothing. */
  lemma {:induction false} MergePermutes(xs: seq<int>, ys: seq<int>)
    ensures multiset(Merge(xs, ys)) == multiset(xs) + multiset(ys)
    decreases |xs| + |ys|
  {
    if xs == [] && ys == [] {
    } else if ys == [] || (xs != [] && xs[0] < ys[0]) {
      MergePermutes(xs[1..], ys);
      ConsPermutesLeft(xs[0], Merge(xs[1..], ys), xs[1..], ys);
      assert xs == [xs[0]] + xs[1..];
    } else {
      MergePermutes(xs, ys[1..]);
      ConsPermutesRight(ys[0], Merge(xs, ys[1..]), xs, ys[1..]);
      assert ys == [ys[0]] + ys[1..];
    }
  }

  /** A lower bound of two sequences bounds any rearrangement of their union. */
  lemma LowerBoundOfUnion(x: int, a: seq<int>, b: seq<int>, t: seq<int>)
    requires LowerBound(x, a) && LowerBound(x, b)
    requires multiset(t) == multiset(a) + multiset(b)
    ensures LowerBound(x, t)
  {
    forall k | 0 <= k < |t| ensures x <= t[k] {
      assert t[k] in multiset(t);
      assert t[k] in a || t[k] in b;
    }
  }

  /** Putting a lower bound in front of a sorted sequence keeps it sorted. */
  lemma SortedCons(x: int, t: seq<int>)
    requires LowerBound(x, t) && Sorted(t)
    ensures Sorted([x] + t)
  {
    forall i, j | 0 <= i < j < |t| + 1 ensures ([x] + t)[i] <= ([x] + t)[j] {
      if i > 0 {
        assert ([x] + t)[i] == t[i - 1];
      }
      assert ([x] + t)[j] == t[j - 1];
    }
  }

  /** Merging two sorted sequences gives a sorted sequence. */
  lemma {:induction false} MergeOfSorted(xs: seq<int>, ys: seq<int>)
    requires Sorted(xs) && Sorted(ys)
    ensures Sorted(Merge(xs, ys))
    decreases |xs| + |ys|
  {
    if xs == [] && ys == [] {
    } else if ys == [] || (xs != [] && xs[0] < ys[0]) {
      var t := Merge(xs[1..], ys);
      MergeOfSorted(xs[1..], ys);
      MergePermutes(xs[1..], ys);
      LowerBoundOfUnion(xs[0], xs[1..], ys, t);
      SortedCons(xs[0], t);
    } else {
      var t := Merge(xs, ys[1..]);
      MergeOfSorted(xs, ys[1..]);
      MergePermutes(xs, ys[1..]);
      LowerBoundOfUnion(ys[0], xs, ys[1..], t);
      SortedCons(ys[0], t);
    }
  }

  /** Cutting a sequence in two keeps its elements. */
  lemma SplitPermutes(s: seq<int>, m: int)
    requires 0 <= m <= |s|
    ensures multiset(s) == multiset(s[..m]) + multiset(s[m..])
  {
    assert s == s[..m] + s[m..];
  }

  /** Once one side is used up, merging copies the other. */
  lemma {:induction false} MergeWithEmpty(xs: seq<int>, ys: seq<int>)
    requires xs == [] || ys == []
    ensures Merge(xs, ys) == xs + ys
    decreases |xs| + |ys|
  {
    if xs != [] {
      MergeWithEmpty(xs[1..], ys);
      assert xs == [xs[0]] + xs[1..];
      assert Merge(xs, ys) == [xs[0]] + Merge(xs[1..], ys);
    } else if ys != [] {
      MergeWithEmpty(xs, ys[1..]);
      assert ys == [ys[0]] + ys[1..];
      assert Merge(xs, ys) == [ys[0]] + Merge(xs, ys[1..]);
    }
  }

  /** merge_sort's result is a sorted permutation of its input. */
  lemma {:induction false} MergeSortedIsSortedPermutation(s: seq<int>)
    ensures Sorted(MergeSorted(s))
    ensures multiset(MergeSorted(s)) == multiset(s)
    decreases |s|
  {
    if |s| > 1 {
      var m := LeftHalf(|s|);
      MergeSortedIsSortedPermutation(s[..m]);
      MergeSortedIsSortedPermutation(s[m..]);
      MergeOfSorted(MergeSorted(s[..m]), MergeSorted(s[m..]));
      MergePermutes(MergeSorted(s[..m]), MergeSorted(s[m..]));
      SplitPermutes(s, m);
    }
  }

  /** Two sorted sequences with the same elements are equal. */
  lemma {:induction false} SortedPermutationsAreEqual(a: seq<int>, b: seq<int>)
    requires Sorted(a) && Sorted(b)
    requires multiset(a) == multiset(b)
    ensures a == b
    decreases |a|
  {
    assert |a| == |multiset(a)| == |multiset(b)| == |b|;
    if a != [] {
      assert a[0] in multiset(b) && b[0] in multiset(a);
      assert a[0] in b && b[0] in a;
      assert a[0] == b[0];
      assert a == [a[0]] + a[1..] && b == [b[0]] + b[1..];
      assert multiset(a) == multiset{a[0]} + multiset(a[1..]);
      assert multiset(b) == multiset{a[0]} + multiset(b[1..]);
      MultisetCancel(multiset{a[0]}, multiset(a[1..]), multiset(b[1..]));
      SortedPermutationsAreEqual(a[1..], b[1..]);
    }
  }

  /** Adding the same elements to two multisets keeps them apart. */
  lemma MultisetCancel(m: multiset<int>, x: multiset<int>, y: multiset<int>)
    requires m + x == m + y
    ensures x == y
  {
    forall e ensures x[e] == y[e] {
      assert (m + x)[e] == (m + y)[e];
    }
  }

  /** Multiset union cancels on the right. */
  lemma MultisetCancelRight(x: multiset<int>, y: multiset<int>, m: multiset<int>)
    requires x + m == y + m
    ensures x == y
  {
    forall e ensures x[e] == y[e] {
      assert (x + m)[e] == (y + m)[e];
    }
  }

  /** A sequence sorted on both sides of a pivot that separates them is sorted. */
  lemma JoinAroundPivot(s: seq<int>, p: int)
    requires 0 <= p < |s|
    requires Sorted(s[..p]) && Sorted(s[p + 1..])
    requires StrictUpperBound(s[..p], s[p])
    requires LowerBound(s[p], s[p + 1..])
    ensures Sorted(s)
  {
    forall i, j | 0 <= i < j < |s| ensures s[i] <= s[j] {
      if j < p {
        assert s[..p][i] == s[i] && s[..p][j] == s[j];
      } else if i > p {
        assert s[p + 1..][i - p - 1] == s[i] && s[p + 1..][j - p - 1] == s[j];
      } else {
        if i < p { assert s[..p][i] == s[i]; }
        if j > p { assert s[p + 1..][j - p - 1] == s[j]; }
      }
    }
  }

  /**
   * The last step of quick_sort: after partitioning (parted) the pivot sits
   * at p with smaller elements before it and the others after it; sorting
   * [start, p) (leftDone) and then (p, end] (final) in place, each a
   * rearrangement that leaves everything else alone, sorts [start, end].
   */
  lemma SortedAfterBothSides(parted: seq<int>, leftDone: seq<int>, final: seq<int>, start: int, p: int, end: int)
    requires 0 <= start <= p <= end < |parted| == |leftDone| == |final|
    requires StrictUpperBound(parted[start..p], parted[p])
    requires LowerBound(parted[p], parted[p + 1..end + 1])
    requires multiset(parted) == multiset(leftDone)
    requires forall k :: 0 <= k < |parted| && !(start <= k < p) ==> parted[k] == leftDone[k]
    requires Sorted(leftDone[start..p])
    requires multiset(leftDone) == multiset(final)
    requires forall k :: 0 <= k < |parted| && !(p < k <= end) ==> leftDone[k] == final[k]
    requires Sorted(final[p + 1..end + 1])
    ensures Sorted(final[start..end + 1])
    ensures multiset(final[start..end + 1]) == multiset(parted[start..end + 1])
  {
    AgreeOutside(parted, leftDone, start, p, p + 1, end + 1);
    AgreeOutside(leftDone, final, p + 1, end + 1, start, p);
    assert final[p] == leftDone[p] == parted[p];
    RearrangedSlice(parted, leftDone, start, p);
    PermutationKeepsBounds(parted[start..p], leftDone[start..p], parted[p]);
    RearrangedSlice(leftDone, final, p + 1, end + 1);
    PermutationKeepsBounds(leftDone[p + 1..end + 1], final[p + 1..end + 1], parted[p]);
    var range := final[start..end + 1];
    AroundPivot(final, start, p, end, range);
    JoinAroundPivot(range, p - start);
    BothSidesRearrange(parted, leftDone, final, start, p, end);
  }

  /**
   * The two recursive calls of quick_sort(start, end) each rearrange one side
   * and leave the rest alone, so together they rearrange [start, end].
   */
  lemma BothSidesRearrange(parted: seq<int>, leftDone: seq<int>, final: seq<int>, start: int, p: int, end: int)
    requires 0 <= start <= p <= end < |parted| == |leftDone| == |final|
    requires multiset(parted) == multiset(leftDone) && multiset(leftDone) == multiset(final)
    requires forall k :: 0 <= k < |parted| && !(start <= k < p) ==> parted[k] == leftDone[k]
    requires forall k :: 0 <= k < |parted| && !(p < k <= end) ==> leftDone[k] == final[k]
    ensures multiset(final[start..end + 1]) == multiset(parted[start..end + 1])
  {
    RearrangedSlice(parted, final, start, end + 1);
  }

  /** Two sequences that agree outside [lo, hi) agree on every range [i, j) outside it. */
  lemma AgreeOutside(a: seq<int>, b: seq<int>, lo: int, hi: int, i: int, j: int)
    requires |a| == |b| && 0 <= i <= j <= |a| && (j <= lo || hi <= i)
    requires forall k :: 0 <= k < |a| && !(lo <= k < hi) ==> a[k] == b[k]
    ensures a[i..j] == b[i..j]
  {
    forall k | i <= k < j ensures a[k] == b[k] {
    }
  }

  /** The parts of range == s[start..end + 1] around index p of s. */
  lemma AroundPivot(s: seq<int>, start: int, p: int, end: int, range: seq<int>)
    requires 0 <= start <= p <= end < |s| && range == s[start..end + 1]
    ensures range[..p - start] == s[start..p] && range[p - start + 1..] == s[p + 1..end + 1]
  {
  }

  /** Rearranging a sequence keeps its bounds. */
  lemma PermutationKeepsBounds(s: seq<int>, t: seq<int>, x: int)
    requires multiset(s) == multiset(t)
    ensures StrictUpperBound(s, x) ==> StrictUpperBound(t, x)
    ensures LowerBound(x, s) ==> LowerBound(x, t)
  {
    forall k | 0 <= k < |t| ensures t[k] in s {
      assert t[k] in multiset(t);
    }
  }

  /**
   * When b is a rearrangement of a that agrees with a outside [lo, hi), the
   * slice [lo, hi) of b is a rearrangement of that of a.
   */
  lemma RearrangedSlice(a: seq<int>, b: seq<int>, lo: int, hi: int)
    requires 0 <= lo <= hi <= |a| == |b|
    requires multiset(a) == multiset(b)
    requires forall k :: 0 <= k < |a| && !(lo <= k < hi) ==> a[k] == b[k]
    ensures multiset(a[lo..hi]) == multiset(b[lo..hi])
  {
    AgreeOutside(a, b, lo, hi, 0, lo);
    assert a[..lo] == a[0..lo] && b[..lo] == b[0..lo];
    RearrangedSuffix(a, b, lo);
    AgreeOutside(a, b, lo, hi, hi, |a|);
    assert a[lo..][hi - lo..] == a[hi..|a|] && b[lo..][hi - lo..] == b[hi..|b|];
    RearrangedPrefix(a[lo..], b[lo..], hi - lo);
    assert a[lo..][..hi - lo] == a[lo..hi] && b[lo..][..hi - lo] == b[lo..hi];
  }

  /** Rearrangements with the same first lo elements have rearranged rests. */
  lemma RearrangedSuffix(a: seq<int>, b: seq<int>, lo: int)
    requires 0 <= lo <= |a| == |b| && multiset(a) == multiset(b) && a[..lo] == b[..lo]
    ensures multiset(a[lo..]) == multiset(b[lo..])
  {
    SplitPermutes(a, lo);
    SplitPermutes(b, lo);
    MultisetCancel(multiset(a[..lo]), multiset(a[lo..]), multiset(b[lo..]));
  }

  /** Rearrangements with the same elements from hi on have rearranged beginnings. */
  lemma RearrangedPrefix(a: seq<int>, b: seq<int>, hi: int)
    requires 0 <= hi <= |a| == |b| && multiset(a) == multiset(b) && a[hi..] == b[hi..]
    ensures multiset(a[..hi]) == multiset(b[..hi])
  {
    SplitPermutes(a, hi);
    SplitPermutes(b, hi);
    MultisetCancelRight(multiset(a[..hi]), multiset(b[..hi]), multiset(a[hi..]));
  }


  /**
   * The merge loops of merge_sort(start, end) over one buffer s: the
   * closed ranges [first1, last1] and [first2, last2] are merged by taking
   * s[first1] only when it is strictly smaller than s[first2], and once one
   * range is used up the rest of the other is copied.
   */
  ghost function MergeRanges(s: seq<int>, first1: int, last1: int, first2: int, last2: int): (r: seq<int>)
    requires 0 <= first1 <= last1 + 1 <= |s| && 0 <= first2 <= last2 + 1 <= |s|
    ensures |r| == (last1 + 1 - first1) + (last2 + 1 - first2)
    decreases (last1 + 1 - first1) + (last2 + 1 - first2)
  {
    if first1 > last1 then s[first2..last2 + 1]
    else if first2 > last2 then s[first1..last1 + 1]
    else if s[first1] < s[first2] then [s[first1]] + MergeRanges(s, first1 + 1, last1, first2, last2)
    else [s[first2]] + MergeRanges(s, first1, last1, first2 + 1, last2)
  }

  /** The merge loops compute Merge of the two ranges. */
  lemma {:induction false} MergeRangesIsMerge(s: seq<int>, first1: int, last1: int, first2: int, last2: int)
    requires 0 <= first1 <= last1 + 1 <= |s| && 0 <= first2 <= last2 + 1 <= |s|
    ensures MergeRanges(s, first1, last1, first2, last2) == Merge(s[first1..last1 + 1], s[first2..last2 + 1])
    decreases (last1 + 1 - first1) + (last2 + 1 - first2)
  {
    var xs, ys := s[first1..last1 + 1], s[first2..last2 + 1];
    if first1 > last1 || first2 > last2 {
      MergeWithEmpty(xs, ys);
    } else if s[first1] < s[first2] {
      MergeRangesIsMerge(s, first1 + 1, last1, first2, last2);
      assert xs[0] == s[first1] && xs[1..] == s[first1 + 1..last1 + 1];
      assert Merge(xs, ys) == [xs[0]] + Merge(xs[1..], ys);
    } else {
      MergeRangesIsMerge(s, first1, last1, first2 + 1, last2);
      assert ys[0] == s[first2] && ys[1..] == s[first2 + 1..last2 + 1];
      assert Merge(xs, ys) == [ys[0]] + Merge(xs, ys[1..]);
    }
  }

  /** Once one range is used up, the merge loops copy both rests. */
  lemma RangesExhausted(s: seq<int>, first1: int, last1: int, first2: int, last2: int)
    requires 0 <= first1 <= last1 + 1 <= |s| && 0 <= first2 <= last2 + 1 <= |s|
    requires first1 > last1 || first2 > last2
    ensures MergeRanges(s, first1, last1, first2, last2) == s[first1..last1 + 1] + s[first2..last2 + 1]
  {
    if first1 > last1 { assert s[first1..last1 + 1] == []; } else { assert s[first2..last2 + 1] == []; }
  }

  /** Taking s[first1] keeps "written so far, then the merge of what is left" equal to the whole merge. */
  lemma TakeFirst(s: seq<int>, done: seq<int>, total: seq<int>, first1: int, last1: int, first2: int, last2: int)
    requires 0 <= first1 <= last1 < |s| && 0 <= first2 <= last2 < |s| && s[first1] < s[first2]
    requires done + MergeRanges(s, first1, last1, first2, last2) == total
    ensures (done + [s[first1]]) + MergeRanges(s, first1 + 1, last1, first2, last2) == total
  {
    assert (done + [s[first1]]) + MergeRanges(s, first1 + 1, last1, first2, last2)
        == done + ([s[first1]] + MergeRanges(s, first1 + 1, last1, first2, last2));
  }

  /** Taking s[first2], as TakeFirst. */
  lemma TakeSecond(s: seq<int>, done: seq<int>, total: seq<int>, first1: int, last1: int, first2: int, last2: int)
    requires 0 <= first1 <= last1 < |s| && 0 <= first2 <= last2 < |s| && !(s[first1] < s[first2])
    requires done + MergeRanges(s, first1, last1, first2, last2) == total
    ensures (done + [s[first2]]) + MergeRanges(s, first1, last1, first2 + 1, last2) == total
  {
    assert (done + [s[first2]]) + MergeRanges(s, first1, last1, first2 + 1, last2)
        == done + ([s[first2]] + MergeRanges(s, first1, last1, first2 + 1, last2));
  }

  /** One round of a copy loop: writing s[f] at index j extends the copied block s[first..f] by one. */
  lemma CopyStep(t: seq<int>, before: seq<int>, s: seq<int>, i: int, j: int, first: int, f: int)
    requires 0 <= i <= j < |t| == |before| && 0 <= first <= f < |s| && j - i == f - first
    requires t == before[..i] + s[first..f] + before[j..]
    ensures t[j := s[f]] == before[..i] + s[first..f + 1] + before[j + 1..]
  {
    assert s[first..f + 1] == s[first..f] + [s[f]];
    assert before[j..] == [before[j]] + before[j + 1..];
  }

  /** Two copy loops, one after the other, append both blocks. */
  lemma AppendTwice(t1: seq<int>, t2: seq<int>, t3: seq<int>, xs: seq<int>, ys: seq<int>, i: int)
    requires 0 <= i && |t1| == i + |xs| + |ys|
    requires t2 == t1[..i] + xs + t1[i + |xs|..]
    requires |t2| == |t1| && t3 == t2[..i + |xs|] + ys + t2[i + |xs| + |ys|..]
    ensures t3 == t1[..i] + (xs + ys)
  {
    assert t2[..i + |xs|] == t1[..i] + xs;
  }
}
