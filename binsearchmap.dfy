/**
 * BinSearchMap (binsearchmap.h): a map that keeps its (key, value) pairs in
 * an ArraySeq and finds keys with a binary search over a copy of the keys
 * taken in storage order. Keys are ints.
 */
module BinSearchMaps {
  import opened Results
  import opened Sorting
  import opened Maps
  import opened ArraySeqs

  /** What bin_search reports: whether the key was found, and the index it left behind. */
  datatype Probed = Probed(found: bool, index: int)

  /**
   * The loop of bin_search on the closed range [start, end] of keys, with
   * index the last probed position. It probes mid = (start + end) / 2; a
   * one-element range ends the search either way (and leaves index at
   * start); otherwise an equal key ends it, a smaller one moves start past
   * mid and a larger one moves end before mid. A range that runs empty
   * leaves index at the last probe.
   */
  function Probe(keys: seq<int>, key: int, start: int, end: int, index: int): (r: Probed)
    requires 0 <= start && end < |keys|
    ensures r.found ==> 0 <= r.index < |keys| && keys[r.index] == key
    ensures start <= end || 0 <= index < |keys| ==> 0 <= r.index < |keys|
    decreases end - start + 1
  {
    if start > end then Probed(false, index)
    else
      var mid := (start + end) / 2;
      if start == end then
        (if keys[mid] == key then Probed(true, mid) else Probed(false, start))
      else if keys[mid] == key then Probed(true, mid)
      else if keys[mid] < key then Probe(keys, key, mid + 1, end, mid)
      else Probe(keys, key, start, mid - 1, mid)
  }

  /** bin_search(key, index) on keys, the caller having set index beforehand: an empty map reports not found and leaves index alone. */
  function Search(keys: seq<int>, key: int, index: int): (r: Probed)
    ensures |keys| == 0 ==> !r.found && r.index == index
    ensures |keys| > 0 ==> 0 <= r.index < |keys|
    ensures r.found ==> 0 <= r.index < |keys| && keys[r.index] == key
  {
    if |keys| == 0 then Probed(false, index) else Probe(keys, key, 0, |keys| - 1, index)
  }

  /** Whenever bin_search reports found, the key sits at the index it reports. */
  lemma SearchFoundAtIndex(keys: seq<int>, key: int, index: int)
    ensures Search(keys, key, index).found ==> 0 <= Search(keys, key, index).index < |keys|
    ensures Search(keys, key, index).found ==> keys[Search(keys, key, index).index] == key
    ensures Search(keys, key, index).found ==> key in keys
  {
  }

  /**
   * On a non-empty map bin_search leaves an index in [0, size - 1], found or
   * not; on an empty one it leaves the caller's index. With the callers'
   * index = 0 the index is always a valid insertion position.
   */
  lemma SearchIndexInRange(keys: seq<int>, key: int)
    ensures |keys| > 0 ==> 0 <= Search(keys, key, 0).index < |keys|
    ensures 0 <= Search(keys, key, 0).index <= |keys|
  {
  }

  /** A key that does not occur is never found, in whatever order the keys are stored. */
  lemma AbsentNotFound(keys: seq<int>, key: int, index: int)
    requires key !in keys
    ensures !Search(keys, key, index).found
  {
    SearchFoundAtIndex(keys, key, index);
  }

  /**
   * The loop invariant of bin_search on sorted keys: a key present in
   * [start, end] is found. Each step drops only positions whose keys are
   * all smaller or all larger than the key.
   */
  lemma {:induction false} ProbeFindsPresentKey(keys: seq<int>, key: int, start: int, end: int, index: int, k: int)
    requires Sorted(keys)
    requires 0 <= start <= k <= end < |keys| && keys[k] == key
    ensures Probe(keys, key, start, end, index).found
    decreases end - start + 1
  {
    var mid := (start + end) / 2;
    if start == end || keys[mid] == key {
    } else if keys[mid] < key {
      ProbeFindsPresentKey(keys, key, mid + 1, end, mid, k);
    } else {
      ProbeFindsPresentKey(keys, key, start, mid - 1, mid, k);
    }
  }

  /** On sorted keys, bin_search reports found exactly when the key occurs. */
  lemma SearchCorrectWhenSorted(keys: seq<int>, key: int, index: int)
    requires Sorted(keys)
    ensures Search(keys, key, index).found <==> key in keys
  {
    if key in keys {
      var k :| 0 <= k < |keys| && keys[k] == key;
      ProbeFindsPresentKey(keys, key, 0, |keys| - 1, index, k);
    }
  }

  /**
   * insert does not keep the keys sorted: in a map holding key 1, key 2 is
   * probed at index 0 and inserted there, giving keys [2, 1]; inserting
   * key 1 next is not found either and gives keys [1, 2, 1].
   */
  lemma InsertOrderExample()
    ensures Search([1], 2, 0) == Probed(false, 0)
    ensures !Sorted([2, 1])
    ensures Search([2, 1], 1, 0) == Probed(false, 0)
  {
    assert [2, 1][0] > [2, 1][1];
  }

  /** The map: its pairs in storage order, in an ArraySeq. */
  class BinSearchMap<V(0,==)> {
    var pairs: ArraySeq<(int, V)>  // the C++ member `seq`

    ghost predicate Valid()
      reads this, pairs
    {
      pairs.Valid()
    }

    /** The stored pairs, in storage order. */
    function Pairs(): (ps: seq<(int, V)>)
      reads this, pairs, pairs.buffer
      requires Valid()
    {
      pairs.Contents()
    }

    /** The keys in storage order. */
    function Keys(): (ks: seq<int>)
      reads this, pairs, pairs.buffer
      requires Valid()
    {
      KeysOf(Pairs())
    }

    /** The implicit default constructor: an empty map. */
    constructor ()
      ensures Valid() && Pairs() == []
      ensures fresh(pairs) && fresh(pairs.buffer)
    {
      pairs := new ArraySeq<(int, V)>();
    }

    /** size(): the number of pairs. */
    function Size(): (n: int)
      reads this, pairs, pairs.buffer
      requires Valid()
      ensures n == |Pairs()|
    {
      pairs.Size()
    }

    /** empty(): true exactly when there are no pairs. */
    function Empty(): (b: bool)
      reads this, pairs, pairs.buffer
      requires Valid()
      ensures b <==> Pairs() == []
    {
      pairs.Empty()
    }

    /** sorted_keys(): a fresh ArraySeq of the keys in storage order; nothing sorts them. */
    method SortedKeys() returns (r: ArraySeq<int>)
      requires Valid()
      ensures fresh(r) && fresh(r.buffer) && r.Valid()
      ensures r.Contents() == Keys()
      ensures |r.Contents()| == Size()
    {
      r := new ArraySeq<int>();
      var i := 0;
      while i < pairs.Size()
        invariant 0 <= i <= pairs.Size()
        invariant fresh(r) && fresh(r.buffer) && r.Valid()
        invariant r.Contents() == KeysOf(Pairs()[..i])
      {
        KeysOfPrefix(Pairs(), i);
        InsertAtEnd(r, pairs.At(i).value.0);
        i := i + 1;
      }
      assert Pairs()[..i] == Pairs();
    }

    /**
     * bin_search(key, index): searches a copy of the keys (sorted_keys()) by
     * the loop Probe describes; index is the caller's value on entry.
     */
    method BinSearch(key: int, index0: int) returns (found: bool, index: int)
      requires Valid()
      ensures Probed(found, index) == Search(Keys(), key, index0)
    {
      index := index0;
      if pairs.Size() == 0 {
        return false, index;
      }
      var newSeq := SortedKeys();
      ghost var keys := newSeq.Contents();
      assert keys == Keys();
      var start := 0;
      var end := newSeq.Size() - 1;
      while start <= end
        invariant 0 <= start && end < |keys|
        invariant Probe(keys, key, start, end, index) == Search(keys, key, index0)
        decreases end - start + 1
      {
        index := (start + end) / 2;
        var probed := newSeq.At(index).value;  // new_seq[index]
        if start == end {
          if probed == key {
            return true, index;
          }
          index := start;
          return false, index;
        }
        if probed == key {
          return true, index;
        }
        if probed < key {
          start := index + 1;
        }
        if probed > key {
          end := index - 1;
        }
      }
      return false, index;
    }

    /**
     * insert(key, value): when bin_search does not find the key, inserts the
     * pair at the index it left; when it does, changes nothing.
     */
    method Insert(key: int, value: V)
      requires Valid()
      modifies pairs, pairs.buffer
      ensures Valid() && pairs == old(pairs)
      ensures pairs.buffer == old(pairs.buffer) || fresh(pairs.buffer)
      ensures var r := Search(old(Keys()), key, 0);
        Pairs() == if r.found then old(Pairs())
                   else old(Pairs())[..r.index] + [(key, value)] + old(Pairs())[r.index..]
    {
      var found, index := BinSearch(key, 0);
      SearchIndexInRange(Keys(), key);
      if !found {
        var ok := pairs.Insert((key, value), index);
      }
    }

    /**
     * erase(key): when bin_search finds the key, erases the pair at its
     * index; otherwise reports out_of_range and changes nothing.
     */
    method Erase(key: int) returns (ok: bool)
      requires Valid()
      modifies pairs, pairs.buffer
      ensures Valid() && pairs == old(pairs) && pairs.buffer == old(pairs.buffer)
      ensures var r := Search(old(Keys()), key, 0);
        ok == r.found &&
        Pairs() == if ok then old(Pairs())[..r.index] + old(Pairs())[r.index + 1..] else old(Pairs())
      ensures !ok ==> unchanged(pairs) && unchanged(pairs.buffer)
    {
      var found, index := BinSearch(key, 0);
      SearchFoundAtIndex(Keys(), key, 0);
      if found {
        ok := pairs.Erase(index);
      } else {
        ok := false;
      }
    }

    /** operator[] used to read: the value of the pair bin_search finds, or out_of_range. */
    method Lookup(key: int) returns (r: Result<V>)
      requires Valid()
      ensures var s := Search(Keys(), key, 0);
        (r.Ok? <==> s.found) && (r.Ok? ==> r.value == Pairs()[s.index].1)
    {
      var found, index := BinSearch(key, 0);
      SearchFoundAtIndex(Keys(), key, 0);
      if found {
        return Ok(pairs.At(index).value.1);
      }
      return OutOfRange;
    }

    /**
     * operator[] used to write: sets the value of the pair bin_search finds
     * (its key stays), or reports out_of_range and changes nothing.
     */
    method Update(key: int, value: V) returns (ok: bool)
      requires Valid()
      modifies pairs.buffer
      ensures Valid()
      ensures var s := Search(old(Keys()), key, 0);
        ok == s.found &&
        Pairs() == if ok then old(Pairs())[s.index := (key, value)] else old(Pairs())
      ensures !ok ==> unchanged(pairs.buffer)
    {
      var found, index := BinSearch(key, 0);
      SearchFoundAtIndex(Keys(), key, 0);
      if found {
        ok := pairs.Update(index, (pairs.At(index).value.0, value));
      } else {
        ok := false;
      }
    }

    /** contains(key): a linear scan of the pairs, whatever their order. */
    method Contains(key: int) returns (b: bool)
      requires Valid()
      ensures b <==> key in Keys()
    {
      ghost var keys := Keys();
      var i := 0;
      while i < pairs.Size()
        invariant 0 <= i <= |keys|
        invariant key !in keys[..i]
      {
        if pairs.At(i).value.0 == key {
          return true;
        }
        assert keys[..i + 1] == keys[..i] + [keys[i]];
        i := i + 1;
      }
      assert keys[..i] == keys;
      return false;
    }

    /** find_keys(k1, k2): the keys of sorted_keys() with k1 <= k <= k2, in that order. */
    method FindKeys(k1: int, k2: int) returns (r: ArraySeq<int>)
      requires Valid()
      ensures fresh(r) && fresh(r.buffer) && r.Valid()
      ensures r.Contents() == KeysBetween(Keys(), k1, k2)
    {
      r := new ArraySeq<int>();
      var keys := SortedKeys();
      var i := 0;
      while i < keys.Size()
        invariant keys.Valid() && keys.Contents() == Keys()
        invariant 0 <= i <= keys.Size()
        invariant fresh(r) && fresh(r.buffer) && r.Valid() && r != keys && r.buffer != keys.buffer
        invariant r.Contents() == KeysBetween(keys.Contents()[..i], k1, k2)
      {
        KeysBetweenPrefix(keys.Contents(), i, k1, k2);
        if keys.At(i).value >= k1 && keys.At(i).value <= k2 {
          InsertAtEnd(r, keys.At(i).value);
        }
        i := i + 1;
      }
      assert keys.Contents()[..i] == keys.Contents();
    }
  }
}
