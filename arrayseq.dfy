/**
 * ArraySeq: a growable array sequence (arrayseq.h). The elements live in
 * buffer[0..count); the buffer holds capacity slots, starts out empty and
 * doubles (or becomes 1 from 0) whenever an insertion would overflow it.
 */
module ArraySeqs {
  import opened Results
  import opened Sorting

  /** n is 1, 2, 4, 8, ... */
  ghost predicate IsPowerOfTwo(n: int)
    decreases n
  {
    n == 1 || (n > 1 && n % 2 == 0 && IsPowerOfTwo(n / 2))
  }

  /** The capacity resize() moves to: 1 from 0, otherwise twice as much. */
  function NextCapacity(capacity: int): (c: int)
    requires capacity >= 0
    ensures c > capacity
    ensures capacity == 0 || IsPowerOfTwo(capacity) ==> IsPowerOfTwo(c)
  {
    if capacity == 0 then 1 else capacity * 2
  }

  class ArraySeq<T(0,==)> {
    var buffer: array<T>  // the C++ field `array`
    var count: int
    var capacity: int

    /** count never exceeds capacity, the buffer has capacity slots, and capacity is 0 or a power of two. */
    ghost predicate Valid()
      reads this
    {
      0 <= count <= capacity && capacity == buffer.Length &&
      (capacity == 0 || IsPowerOfTwo(capacity))
    }

    /** The elements of the sequence, in order. */
    function Contents(): (s: seq<T>)
      reads this, buffer
      requires Valid()
    {
      buffer[..count]
    }

    /** The default constructor: no buffer, no elements. */
    constructor ()
      ensures Valid() && Contents() == [] && capacity == 0
      ensures fresh(buffer)
    {
      buffer := new T[0];
      count := 0;
      capacity := 0;
    }

    /** The copy constructor: inserts rhs's elements one by one into a fresh sequence. */
    constructor Copy(rhs: ArraySeq<T>)
      requires rhs.Valid()
      ensures Valid() && Contents() == rhs.Contents()
      ensures fresh(buffer)
    {
      buffer := new T[0];
      count := 0;
      capacity := 0;
      new;
      var i := 0;
      while i < rhs.Size()
        invariant Valid() && fresh(buffer)
        invariant 0 <= i <= rhs.count
        invariant Contents() == rhs.Contents()[..i]
      {
        var ok := Insert(rhs.At(i).value, i);
        i := i + 1;
      }
    }

    /** The copy assignment operator: unless rhs is this sequence, empties it and inserts rhs's elements one by one. */
    method Assign(rhs: ArraySeq<T>)
      requires Valid() && rhs.Valid()
      modifies this
      ensures Valid() && rhs.Valid()
      ensures Contents() == old(rhs.Contents())
      ensures rhs.Contents() == old(rhs.Contents())
      ensures rhs != this ==> fresh(buffer)
      ensures rhs == this ==> unchanged(this)
    {
      if this != rhs {
        // make_empty(): no elements and no capacity
        buffer := new T[0];
        count := 0;
        capacity := 0;
        if !rhs.Empty() {
          var i := 0;
          while i < rhs.Size()
            invariant Valid() && fresh(buffer)
            invariant 0 <= i <= rhs.count
            invariant rhs.Contents() == old(rhs.Contents())
            invariant Contents() == rhs.Contents()[..i]
          {
            var ok := Insert(rhs.At(i).value, i);
            i := i + 1;
          }
        }
      }
    }

    /** size(): the number of elements. */
    function Size(): (n: int)
      reads this, buffer
      requires Valid()
      ensures n == |Contents()|
    {
      count
    }

    /** empty(): true exactly when there are no elements. */
    function Empty(): (b: bool)
      reads this, buffer
      requires Valid()
      ensures b <==> Contents() == []
    {
      count == 0
    }

    /** operator[] used to read: the element at index, or out_of_range for an index outside [0, count). */
    function At(index: int): (r: Result<T>)
      reads this, buffer
      requires Valid()
      ensures r.Ok? <==> 0 <= index < |Contents()|
      ensures r.Ok? ==> r.value == Contents()[index]
    {
      if index >= count || index < 0 then OutOfRange else Ok(buffer[index])
    }

    /** operator[] used to write: stores elem at index, or reports out_of_range and changes nothing. */
    method Update(index: int, elem: T) returns (ok: bool)
      requires Valid()
      modifies buffer
      ensures Valid()
      ensures ok <==> 0 <= index < old(count)
      ensures Contents() == if ok then old(Contents())[index := elem] else old(Contents())
      ensures !ok ==> unchanged(buffer)
    {
      if index >= count || index < 0 {
        return false;
      }
      buffer[index] := elem;
      assert buffer[..count] == old(buffer[..count])[index := elem];
      return true;
    }

    /**
     * insert(elem, index): grows the buffer when it is full, shifts the
     * elements at index and after one slot to the right and stores elem at
     * index. An index outside [0, count] is out_of_range and changes nothing.
     */
    method Insert(elem: T, index: int) returns (ok: bool)
      requires Valid()
      modifies this, buffer
      ensures Valid()
      ensures ok <==> 0 <= index <= old(count)
      ensures ok ==> Contents() == old(Contents())[..index] + [elem] + old(Contents())[index..]
      ensures ok ==> At(index) == Ok(elem)
      ensures ok ==> capacity == if old(count) == old(capacity) then NextCapacity(old(capacity)) else old(capacity)
      ensures !ok ==> unchanged(this) && unchanged(buffer)
      ensures buffer == old(buffer) || fresh(buffer)
    {
      if index > count || index < 0 {
        return false;
      }
      if count + 1 > capacity {
        Resize();
      }
      ShiftIn(elem, index);
      return true;
    }

    /**
     * The rest of insert once there is room: carries the elements from index
     * on one slot to the right (temp1 holding the one displaced last), stores
     * elem at index and counts it.
     */
    method ShiftIn(elem: T, index: int)
      requires Valid() && 0 <= index <= count < capacity
      modifies this`count, buffer
      ensures Valid() && count == old(count) + 1
      ensures Contents() == old(Contents())[..index] + [elem] + old(Contents())[index..]
    {
      ghost var s0 := buffer[..];
      var temp1 := buffer[index];
      var i := index;
      while i < count
        modifies buffer
        invariant index <= i <= count
        invariant temp1 == s0[i]
        invariant buffer[..] == s0[..index + 1] + s0[index..i] + s0[i + 1..]
      {
        ShiftStep(buffer[..], s0, index, i);
        var temp2 := buffer[i + 1];
        buffer[i + 1] := temp1;
        temp1 := temp2;
        i := i + 1;
      }
      InsertDone(buffer[..], s0, index, count, elem);
      buffer[index] := elem;
      count := count + 1;
    }

    /**
     * erase(index): shifts the elements after index one slot to the left and
     * drops the last one; the buffer keeps its capacity. An index outside
     * [0, count) is out_of_range and changes nothing.
     */
    method Erase(index: int) returns (ok: bool)
      requires Valid()
      modifies this, buffer
      ensures Valid()
      ensures buffer == old(buffer) && capacity == old(capacity)
      ensures ok <==> 0 <= index < old(count)
      ensures ok ==> Contents() == old(Contents())[..index] + old(Contents())[index + 1..]
      ensures !ok ==> unchanged(this) && unchanged(buffer)
    {
      if index >= count || index < 0 {
        return false;
      }
      ghost var s := buffer[..count];
      var i := index;
      while i < count - 1
        modifies buffer
        invariant index <= i <= count - 1
        invariant forall k :: 0 <= k < index ==> buffer[k] == s[k]
        invariant forall k :: index <= k < i ==> buffer[k] == s[k + 1]
        invariant forall k :: i <= k < count ==> buffer[k] == s[k]
      {
        buffer[i] := buffer[i + 1];
        i := i + 1;
      }
      count := count - 1;
      assert buffer[..count] == s[..index] + s[index + 1..];
      return true;
    }

    /** contains(elem): a linear scan of the elements for one equal to elem. */
    method Contains(elem: T) returns (found: bool)
      requires Valid()
      ensures found <==> elem in Contents()
    {
      var i := 0;
      while i < count
        invariant 0 <= i <= count
        invariant elem !in buffer[..i]
      {
        if buffer[i] == elem {
          return true;
        }
        i := i + 1;
      }
      return false;
    }

    /** resize(): moves to a fresh buffer of the next capacity, copying the old capacity's worth of slots. */
    method Resize()
      requires Valid()
      modifies this
      ensures Valid()
      ensures capacity == NextCapacity(old(capacity))
      ensures count == old(count) && Contents() == old(Contents())
      ensures fresh(buffer)
    {
      if capacity == 0 {
        capacity := 1;
      } else {
        capacity := capacity * 2;
      }
      var newArray := new T[capacity];
      var i := 0;
      while i < capacity / 2
        modifies newArray
        invariant 0 <= i <= capacity / 2
        invariant forall k :: 0 <= k < i ==> newArray[k] == buffer[k]
      {
        newArray[i] := buffer[i];
        i := i + 1;
      }
      buffer := newArray;
    }
  }

  /** s.insert(elem, s.size()), the way the maps build their key sequences: appends elem. */
  method InsertAtEnd<T(0,==)>(s: ArraySeq<T>, elem: T)
    requires s.Valid()
    modifies s, s.buffer
    ensures s.Valid()
    ensures s.Contents() == old(s.Contents()) + [elem]
    ensures s.buffer == old(s.buffer) || fresh(s.buffer)
  {
    var ok := s.Insert(elem, s.Size());
    assert old(s.Contents())[..|old(s.Contents())|] == old(s.Contents());
  }

  /**
   * One round of insert's shifting loop: with the slots after index holding
   * s0[index..i] and the slot i + 1 still original, writing s0[i] there
   * extends the shifted block by one.
   */
  lemma ShiftStep<T>(t: seq<T>, s0: seq<T>, index: int, i: int)
    requires 0 <= index <= i && i + 1 < |s0|
    requires t == s0[..index + 1] + s0[index..i] + s0[i + 1..]
    ensures t[i + 1] == s0[i + 1]
    ensures t[i + 1 := s0[i]] == s0[..index + 1] + s0[index..i + 1] + s0[i + 2..]
  {
    assert s0[index..i + 1] == s0[index..i] + [s0[i]];
    assert s0[i + 1..] == [s0[i + 1]] + s0[i + 2..];
  }

  /** After insert's shifting loop, storing elem at index puts it between the first index elements and the rest. */
  lemma InsertDone<T>(t: seq<T>, s0: seq<T>, index: int, count: int, elem: T)
    requires 0 <= index <= count < |s0|
    requires t == s0[..index + 1] + s0[index..count] + s0[count + 1..]
    ensures t[index := elem][..count + 1] == s0[..count][..index] + [elem] + s0[..count][index..]
  {
    assert s0[..index + 1] == s0[..count][..index] + [s0[index]];
    assert s0[index..count] == s0[..count][index..];
  }

  /*
   * The two sorts are members of the ArraySeq template that need the element
   * type's `<`; they are modelled here for sequences of int.
   */

  /** merge_sort(): sorts the elements with a top-down merge sort. */
  method MergeSort(s: ArraySeq<int>)
    requires s.Valid()
    modifies s.buffer
    ensures s.Valid()
    ensures s.Contents() == MergeSorted(old(s.Contents()))
    ensures Sorted(s.Contents())
    ensures multiset(s.Contents()) == multiset(old(s.Contents()))
  {
    ghost var before := s.Contents();
    ghost var whole := s.buffer[..];
    assert before == whole[..s.count];
    MergeSortRange(s.buffer, 0, s.count - 1);
    MergeSortedPrefix(whole, s.count);
    assert s.Contents() == s.buffer[..][..s.count];
    MergeSortedIsSortedPermutation(before);
  }

  /**
   * merge_sort(start, end): sorts the closed range [start, end] by sorting
   * its two halves around mid = (start + end) / 2, merging them into a
   * temporary buffer and copying that back. Nothing outside the range moves.
   */
  method MergeSortRange(a: array<int>, start: int, end: int)
    requires 0 <= start <= end + 1 <= a.Length
    modifies a
    ensures a[..] == MergeSortedRange(old(a[..]), start, end)
    decreases end - start
  {
    if start >= end {
      assert a[start..end + 1] == MergeSorted(a[start..end + 1]);
      assert a[..] == a[..start] + a[start..end + 1] + a[end + 1..];
      return;
    }
    var mid := (start + end) / 2;
    ghost var s0 := a[..];
    MergeSortRange(a, start, mid);
    ghost var s1 := a[..];
    MergeSortRange(a, mid + 1, end);
    ghost var s2 := a[..];
    MergeSortedRangeStep(s0, s1, s2, start, mid, end);
    var temp := MergeHalves(a, start, mid, end);
    MergeRangesIsMerge(s2, start, mid, mid + 1, end);
    CopyBack(a, start, temp);
  }

  /** The last loop of merge_sort(start, end): writes the merged buffer back over [start, end]. */
  method CopyBack(a: array<int>, start: int, temp: array<int>)
    requires 0 <= start && start + temp.Length <= a.Length && a != temp
    modifies a
    ensures a[..] == old(a[..start]) + temp[..] + old(a[start + temp.Length..])
  {
    ghost var before := a[..];
    for i := 0 to temp.Length
      invariant forall j :: start <= j < start + i ==> a[j] == temp[j - start]
      invariant forall j :: 0 <= j < a.Length && !(start <= j < start + i) ==> a[j] == before[j]
    {
      a[start + i] := temp[i];
    }
    assert a[..] == before[..start] + temp[..] + before[start + temp.Length..];
  }

  /**
   * The merge step of merge_sort(start, end): merges the sorted halves
   * [start, mid] and [mid + 1, end] into a fresh temporary buffer. The first
   * loop (MergeFronts) runs while both halves have elements left; the other
   * two (CopyRest) copy what is left of the left half, then of the right half.
   */
  method MergeHalves(a: array<int>, start: int, mid: int, end: int) returns (temp: array<int>)
    requires 0 <= start <= mid < end < a.Length
    ensures fresh(temp) && temp.Length == end - start + 1
    ensures temp[..] == MergeRanges(a[..], start, mid, mid + 1, end)
  {
    temp := new int[end - start + 1];
    var first1, first2, i := MergeFronts(a, start, mid, end, temp);
    ghost var fronts := temp[..];
    RangesExhausted(a[..], first1, mid, first2, end);
    var i1 := CopyRest(a, first1, mid, temp, i);
    ghost var leftRest := temp[..];
    var i2 := CopyRest(a, first2, end, temp, i1);
    AppendTwice(fronts, leftRest, temp[..], a[first1..mid + 1], a[first2..end + 1], i);
  }

  /**
   * The first merge loop: while both halves have elements left, moves the
   * smaller front element (the right one on ties) to temp. What it writes,
   * followed by the merge of what is left, is the merge of both halves.
   */
  method MergeFronts(a: array<int>, start: int, mid: int, end: int, temp: array<int>) returns (first1: int, first2: int, i: int)
    requires 0 <= start <= mid < end < a.Length && temp.Length == end - start + 1 && a != temp
    modifies temp
    ensures start <= first1 <= mid + 1 && mid + 1 <= first2 <= end + 1 && i == (first1 - start) + (first2 - mid - 1)
    ensures first1 == mid + 1 || first2 == end + 1
    ensures temp[..i] + MergeRanges(a[..], first1, mid, first2, end) == MergeRanges(a[..], start, mid, mid + 1, end)
  {
    ghost var s := a[..];
    ghost var total := MergeRanges(s, start, mid, mid + 1, end);
    first1, first2, i := start, mid + 1, 0;
    while first1 <= mid && first2 <= end
      modifies temp
      invariant start <= first1 <= mid + 1 && mid + 1 <= first2 <= end + 1 && i == (first1 - start) + (first2 - mid - 1)
      invariant temp[..i] + MergeRanges(s, first1, mid, first2, end) == total
    {
      first1, first2 := MergeStep(a, temp, first1, mid, first2, end, i, s, total);
      i := i + 1;
    }
  }

  /** One round of the first merge loop: moves the smaller front element to temp[i]. */
  method MergeStep(a: array<int>, temp: array<int>, first1: int, last1: int, first2: int, last2: int, i: int,
                   ghost s: seq<int>, ghost total: seq<int>) returns (next1: int, next2: int)
    requires 0 <= first1 <= last1 < |s| && 0 <= first2 <= last2 < |s| && |s| == a.Length
    requires a[first1] == s[first1] && a[first2] == s[first2]
    requires 0 <= i < temp.Length && a != temp
    requires temp[..i] + MergeRanges(s, first1, last1, first2, last2) == total
    modifies temp
    ensures (next1, next2) == (first1 + 1, first2) || (next1, next2) == (first1, first2 + 1)
    ensures temp[..i + 1] + MergeRanges(s, next1, last1, next2, last2) == total
  {
    var next;
    if a[first1] < a[first2] {
      TakeFirst(s, temp[..i], total, first1, last1, first2, last2);
      next, next1, next2 := a[first1], first1 + 1, first2;
    } else {
      TakeSecond(s, temp[..i], total, first1, last1, first2, last2);
      next, next1, next2 := a[first2], first1, first2 + 1;
    }
    Put(temp, i, next);
  }

  /** temp[i] = x, with the written prefix described by its contract. */
  method Put(temp: array<int>, i: int, x: int)
    requires 0 <= i < temp.Length
    modifies temp
    ensures temp[..i + 1] == old(temp[..i]) + [x]
  {
    temp[i] := x;
    assert temp[..i + 1] == temp[..i] + [x];
  }

  /** The second and third merge loops: copy a[first..last] to temp from index i on. */
  method CopyRest(a: array<int>, first: int, last: int, temp: array<int>, i: int) returns (j: int)
    requires 0 <= first <= last + 1 <= a.Length && 0 <= i && i + (last + 1 - first) <= temp.Length && a != temp
    modifies temp
    ensures j == i + (last + 1 - first)
    ensures temp[..] == old(temp[..i]) + a[first..last + 1] + old(temp[j..])
  {
    ghost var before := temp[..];
    j := i;
    var f := first;
    while f <= last
      modifies temp
      invariant first <= f <= last + 1 && j == i + (f - first)
      invariant temp[..] == before[..i] + a[first..f] + before[j..]
    {
      CopyStep(temp[..], before, a[..], i, j, first, f);
      temp[j] := a[f];
      j, f := j + 1, f + 1;
    }
  }

  /** quick_sort(): sorts the elements with a quick sort. */
  method QuickSort(s: ArraySeq<int>)
    requires s.Valid()
    modifies s.buffer
    ensures s.Valid()
    ensures Sorted(s.Contents())
    ensures multiset(s.Contents()) == multiset(old(s.Contents()))
    ensures s.Contents() == MergeSorted(old(s.Contents()))
  {
    ghost var before := s.Contents();
    QuickSortRange(s.buffer, 0, s.count - 1);
    RearrangedSlice(old(s.buffer[..]), s.buffer[..], 0, s.count);
    assert old(s.buffer[..])[0..s.count] == before;
    assert s.buffer[..][0..s.count] == s.Contents();
    MergeSortedIsSortedPermutation(before);
    SortedPermutationsAreEqual(s.Contents(), MergeSorted(before));
  }

  /**
   * The partition step of quick_sort(start, end): with the first element as
   * pivot, moves every element smaller than the pivot to the front of the
   * range, swapping each behind a growing boundary, then swaps the pivot to
   * the boundary, whose position p is returned.
   */
  method Partition(a: array<int>, start: int, end: int) returns (p: int)
    requires 0 <= start < end < a.Length
    modifies a
    ensures start <= p <= end
    ensures a[p] == old(a[start])
    ensures forall k :: start <= k < p ==> a[k] < a[p]
    ensures forall k :: p < k <= end ==> a[p] <= a[k]
    ensures multiset(a[..]) == multiset(old(a[..]))
    ensures forall k :: 0 <= k < a.Length && !(start <= k <= end) ==> a[k] == old(a[k])
  {
    var pivot := a[start];
    p := start;
    for i := start + 1 to end + 1
      invariant start <= p < i
      invariant a[start] == pivot
      invariant forall k :: start < k <= p ==> a[k] < pivot
      invariant forall k :: p < k < i ==> pivot <= a[k]
      invariant multiset(a[..]) == multiset(old(a[..]))
      invariant forall k :: 0 <= k < a.Length && !(start <= k <= end) ==> a[k] == old(a[k])
    {
      if a[i] < pivot {
        p := p + 1;
        Swap(a, i, p);
      }
    }
    Swap(a, start, p);
  }

  /** Exchanges a[i] and a[j] through a temporary, as quick_sort does inline. */
  method Swap(a: array<int>, i: int, j: int)
    requires 0 <= i < a.Length && 0 <= j < a.Length
    modifies a
    ensures a[i] == old(a[j]) && a[j] == old(a[i])
    ensures forall k :: 0 <= k < a.Length && k != i && k != j ==> a[k] == old(a[k])
    ensures multiset(a[..]) == multiset(old(a[..]))
  {
    var temp := a[i];
    a[i] := a[j];
    a[j] := temp;
  }

  /**
   * quick_sort(start, end): partitions the closed range [start, end] around
   * its first element and sorts both sides. Nothing outside the range moves.
   */
  method QuickSortRange(a: array<int>, start: int, end: int)
    requires 0 <= start <= end + 1 <= a.Length
    modifies a
    ensures Sorted(a[start..end + 1])
    ensures multiset(a[..]) == multiset(old(a[..]))
    ensures forall k :: 0 <= k < a.Length && !(start <= k <= end) ==> a[k] == old(a[k])
    decreases end - start
  {
    if start < end {
      var p := Partition(a, start, end);
      ghost var parted := a[..];
      assert StrictUpperBound(parted[start..p], parted[p]);
      assert LowerBound(parted[p], parted[p + 1..end + 1]);
      QuickSortRange(a, start, p - 1);
      ghost var leftDone := a[..];
      QuickSortRange(a, p + 1, end);
      SortedAfterBothSides(parted, leftDone, a[..], start, p, end);
    }
  }
}
