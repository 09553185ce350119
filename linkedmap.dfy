/**
 * LinkedMap (linkedmap.h): a map kept as an association list, its
 * (key, value) pairs in insertion order in a linked sequence, here the
 * sequence value `pairs`. Keys are ints.
 */
module LinkedMaps {
  import opened Results
  import opened Sorting
  import opened Maps
  import opened ArraySeqs

  /**
   * The position of the first pair whose key is key, or -1 when there is
   * none: what the scans of operator[] and erase stop at.
   */
  function FirstIndexOf<V>(ps: seq<(int, V)>, key: int): (i: int)
    ensures -1 <= i < |ps|
    ensures i >= 0 ==> ps[i].0 == key
  {
    if ps == [] then -1
    else if ps[0].0 == key then 0
    else
      var j := FirstIndexOf(ps[1..], key);
      if j == -1 then -1 else j + 1
  }

  /**
   * FirstIndexOf is -1 exactly when no pair has the key, and otherwise no
   * pair before the one it names has the key.
   */
  lemma {:induction false} FirstIndexOfIsFirst<V>(ps: seq<(int, V)>, key: int)
    ensures FirstIndexOf(ps, key) == -1 <==> key !in KeysOf(ps)
    ensures FirstIndexOf(ps, key) >= 0 ==> key !in KeysOf(ps)[..FirstIndexOf(ps, key)]
  {
    if ps != [] && ps[0].0 != key {
      FirstIndexOfIsFirst(ps[1..], key);
      var j := FirstIndexOf(ps[1..], key);
      var keys := KeysOf(ps);
      assert keys == [ps[0].0] + KeysOf(ps[1..]);
      if j >= 0 {
        assert keys[..j + 1] == [ps[0].0] + KeysOf(ps[1..])[..j];
      }
    }
  }

  /**
   * insert appends without checking: a key already present keeps the value
   * found first, and an absent key is found at the new last pair.
   */
  lemma {:induction false} FirstIndexOfAppend<V>(ps: seq<(int, V)>, k: int, v: V, key: int)
    ensures FirstIndexOf(ps + [(k, v)], key)
         == if FirstIndexOf(ps, key) >= 0 then FirstIndexOf(ps, key)
            else if k == key then |ps| else -1
    decreases |ps|
  {
    if ps != [] {
      assert (ps + [(k, v)])[1..] == ps[1..] + [(k, v)];
      FirstIndexOfAppend(ps[1..], k, v, key);
    } else {
      assert ps + [(k, v)] == [(k, v)];
    }
  }

  /** The first pair with the key is the one at i when the key does not occur before i. */
  lemma FirstIndexAt<V>(ps: seq<(int, V)>, key: int, i: int)
    requires 0 <= i < |ps| && ps[i].0 == key && key !in KeysOf(ps)[..i]
    ensures FirstIndexOf(ps, key) == i
  {
    FirstIndexOfIsFirst(ps, key);
    var keys := KeysOf(ps);
    assert keys[i] == key;
  }

  /** The map: its pairs in insertion order. */
  class LinkedMap<V> {
    var pairs: seq<(int, V)>  // the C++ member `seq`, a LinkedSeq

    /** The implicit default constructor: an empty map. */
    constructor ()
      ensures pairs == []
    {
      pairs := [];
    }

    /** size(): the number of pairs, duplicates included. */
    function Size(): (n: int)
      reads this
      ensures n >= 0 && (n == 0 <==> pairs == [])
      ensures n == |KeysOf(pairs)|
    {
      |pairs|
    }

    /** empty(): true exactly when there are no pairs. */
    function Empty(): (b: bool)
      reads this
      ensures b <==> Size() == 0
    {
      pairs == []
    }

    /** insert(key, value): appends the pair, without looking for the key. */
    method Insert(key: int, value: V)
      modifies this
      ensures pairs == old(pairs) + [(key, value)]
      ensures KeysOf(pairs) == KeysOf(old(pairs)) + [key]
    {
      pairs := pairs + [(key, value)];
      KeysOfSnoc(old(pairs), (key, value));
    }

    /** contains(key): a linear scan for a pair with that key. */
    method Contains(key: int) returns (b: bool)
      ensures b <==> key in KeysOf(pairs)
    {
      ghost var keys := KeysOf(pairs);
      var i := 0;
      while i < |pairs|
        invariant 0 <= i <= |pairs|
        invariant key !in keys[..i]
      {
        if pairs[i].0 == key {
          return true;
        }
        assert keys[..i + 1] == keys[..i] + [keys[i]];
        i := i + 1;
      }
      assert keys[..i] == keys;
      return false;
    }

    /**
     * The scan shared by operator[] and erase once contains(key) holds: the
     * index of the first pair with that key.
     */
    method FindFirst(key: int) returns (index: int)
      requires key in KeysOf(pairs)
      ensures 0 <= index < |pairs| && index == FirstIndexOf(pairs, key)
    {
      ghost var keys := KeysOf(pairs);
      index := -1;
      var i := 0;
      while i < |pairs|
        invariant 0 <= i <= |pairs|
        invariant key !in keys[..i]
      {
        if pairs[i].0 == key {
          index := i;
          break;
        }
        assert keys[..i + 1] == keys[..i] + [keys[i]];
        i := i + 1;
      }
      FirstIndexAt(pairs, key, index);
    }

    /** operator[] used to read: the value of the first pair with that key, or out_of_range. */
    method Lookup(key: int) returns (r: Result<V>)
      ensures r.Ok? <==> key in KeysOf(pairs)
      ensures r.Ok? ==> var i := FirstIndexOf(pairs, key); 0 <= i && r.value == pairs[i].1
    {
      var present := Contains(key);
      if present {
        var i := FindFirst(key);
        return Ok(pairs[i].1);
      }
      return OutOfRange;
    }

    /**
     * operator[] used to write: sets the value of the first pair with that
     * key, or reports out_of_range and changes nothing.
     */
    method Update(key: int, value: V) returns (ok: bool)
      modifies this
      ensures ok <==> key in KeysOf(old(pairs))
      ensures ok ==> var i := FirstIndexOf(old(pairs), key); 0 <= i && pairs == old(pairs)[i := (key, value)]
      ensures !ok ==> pairs == old(pairs)
      ensures KeysOf(pairs) == KeysOf(old(pairs))
    {
      var present := Contains(key);
      if present {
        var i := FindFirst(key);
        pairs := pairs[i := (pairs[i].0, value)];
        assert forall j :: 0 <= j < |pairs| ==> pairs[j].0 == old(pairs)[j].0;
        return true;
      }
      return false;
    }

    /**
     * erase(key): removes the first pair with that key, keeping the order of
     * the others; an absent key is out_of_range and changes nothing.
     */
    method Erase(key: int) returns (ok: bool)
      modifies this
      ensures ok <==> key in KeysOf(old(pairs))
      ensures ok ==> var i := FirstIndexOf(old(pairs), key); 0 <= i && pairs == old(pairs)[..i] + old(pairs)[i + 1..]
      ensures ok ==> |pairs| == |old(pairs)| - 1
      ensures !ok ==> pairs == old(pairs)
    {
      var present := Contains(key);
      if present {
        var index := FindFirst(key);
        pairs := pairs[..index] + pairs[index + 1..];
        return true;
      }
      return false;
    }

    /** all_keys(): a fresh ArraySeq of the keys in insertion order, one per pair. */
    method AllKeys() returns (r: ArraySeq<int>)
      ensures fresh(r) && fresh(r.buffer) && r.Valid()
      ensures r.Contents() == KeysOf(pairs)
    {
      r := new ArraySeq<int>();
      var i := 0;
      while i < |pairs|
        invariant 0 <= i <= |pairs|
        invariant fresh(r) && fresh(r.buffer) && r.Valid()
        invariant r.Contents() == KeysOf(pairs[..i])
      {
        KeysOfPrefix(pairs, i);
        InsertAtEnd(r, pairs[i].0);
        i := i + 1;
      }
      assert pairs[..i] == pairs;
    }

    /** find_keys(k1, k2): the keys of all_keys() with k1 <= k <= k2, in insertion order (not necessarily ascending). */
    method FindKeys(k1: int, k2: int) returns (r: ArraySeq<int>)
      ensures fresh(r) && fresh(r.buffer) && r.Valid()
      ensures r.Contents() == KeysBetween(KeysOf(pairs), k1, k2)
    {
      r := new ArraySeq<int>();
      var keys := AllKeys();
      var i := 0;
      while i < keys.Size()
        invariant keys.Valid() && keys.Contents() == KeysOf(pairs)
        invariant 0 <= i <= keys.Size()
        invariant fresh(r) && fresh(r.buffer) && r.Valid() && r != keys && r.buffer != keys.buffer
        invariant r.Contents() == KeysBetween(keys.Contents()[..i], k1, k2)
      {
        KeysBetweenPrefix(keys.Contents(), i, k1, k2);
        if keys.At(i).value >= k1 && keys.At(i).value <= k2 {
          InsertAtEnd(r, keys.At(i).value);
        }
        i := i + 1;
      }
      assert keys.Contents()[..i] == keys.Contents();
    }

    /** sorted_keys(): the keys copied into a fresh ArraySeq and sorted there by merge_sort(). */
    method SortedKeys() returns (r: ArraySeq<int>)
      ensures fresh(r) && fresh(r.buffer) && r.Valid()
      ensures r.Contents() == MergeSorted(KeysOf(pairs))
      ensures Sorted(r.Contents())
      ensures multiset(r.Contents()) == multiset(KeysOf(pairs))
    {
      r := new ArraySeq<int>();
      var i := 0;
      while i < |pairs|
        invariant 0 <= i <= |pairs|
        invariant fresh(r) && fresh(r.buffer) && r.Valid()
        invariant r.Contents() == KeysOf(pairs[..i])
      {
        KeysOfPrefix(pairs, i);
        InsertAtEnd(r, pairs[i].0);
        i := i + 1;
      }
      assert pairs[..i] == pairs;
      MergeSort(r);
    }
  }
}
