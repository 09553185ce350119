/**
 * What BinSearchMap and LinkedMap have in common: both store (key, value)
 * pairs in a sequence, report their keys in storage order and filter those
 * keys by a closed range [k1, k2].
 */
module Maps {

  /** The keys of the pairs, in storage order, one per pair. */
  function KeysOf<V>(ps: seq<(int, V)>): (ks: seq<int>)
    ensures |ks| == |ps|
    ensures forall i :: 0 <= i < |ps| ==> ks[i] == ps[i].0
  {
    if ps == [] then [] else [ps[0].0] + KeysOf(ps[1..])
  }

  /** A key occurs among the pairs exactly when some pair carries it. */
  lemma KeyInKeysOf<V>(ps: seq<(int, V)>, key: int)
    ensures key in KeysOf(ps) <==> exists i :: 0 <= i < |ps| && ps[i].0 == key
  {
    if key in KeysOf(ps) {
      var i :| 0 <= i < |ps| && KeysOf(ps)[i] == key;
    }
  }

  /** Adding one pair at the end adds its key at the end. */
  lemma KeysOfSnoc<V>(ps: seq<(int, V)>, p: (int, V))
    ensures KeysOf(ps + [p]) == KeysOf(ps) + [p.0]
  {
    assert forall i :: 0 <= i < |ps| ==> (ps + [p])[i] == ps[i];
  }

  /** The keys of a prefix one longer than ps[..i] gain ps[i]'s key. */
  lemma KeysOfPrefix<V>(ps: seq<(int, V)>, i: int)
    requires 0 <= i < |ps|
    ensures KeysOf(ps[..i + 1]) == KeysOf(ps[..i]) + [ps[i].0]
  {
    assert ps[..i + 1] == ps[..i] + [ps[i]];
    KeysOfSnoc(ps[..i], ps[i]);
  }

  /** find_keys(k1, k2): the keys k with k1 <= k <= k2, in the order given. */
  function KeysBetween(ks: seq<int>, k1: int, k2: int): (r: seq<int>)
    ensures |r| <= |ks|
  {
    if ks == [] then []
    else (if k1 <= ks[0] <= k2 then [ks[0]] else []) + KeysBetween(ks[1..], k1, k2)
  }

  /** A key is kept exactly when it occurs in ks and lies in [k1, k2]. */
  lemma {:induction false} KeysBetweenMembers(ks: seq<int>, k1: int, k2: int, x: int)
    ensures x in KeysBetween(ks, k1, k2) <==> x in ks && k1 <= x <= k2
    decreases |ks|
  {
    if ks != [] {
      KeysBetweenMembers(ks[1..], k1, k2, x);
      assert ks == [ks[0]] + ks[1..];
    }
  }

  /** Filtering works piece by piece, so it keeps the order of what it keeps. */
  lemma {:induction false} KeysBetweenAppend(a: seq<int>, b: seq<int>, k1: int, k2: int)
    ensures KeysBetween(a + b, k1, k2) == KeysBetween(a, k1, k2) + KeysBetween(b, k1, k2)
    decreases |a|
  {
    if a == [] {
      assert a + b == b;
    } else {
      var x, t := a[0], a[1..];
      assert a == [x] + t && a + b == [x] + (t + b);
      KeysBetweenAppend(t, b, k1, k2);
      KeysBetweenCons(x, t + b, k1, k2);
      KeysBetweenCons(x, t, k1, k2);
    }
  }

  /** The filter of x followed by t: x if it is in range, then the filter of t. */
  lemma KeysBetweenCons(x: int, t: seq<int>, k1: int, k2: int)
    ensures KeysBetween([x] + t, k1, k2) == (if k1 <= x <= k2 then [x] else []) + KeysBetween(t, k1, k2)
  {
    assert ([x] + t)[0] == x && ([x] + t)[1..] == t;
  }

  /** Filtering keeps every key in range as often as it occurs and drops the others. */
  lemma {:induction false} KeysBetweenCounts(ks: seq<int>, k1: int, k2: int, x: int)
    ensures multiset(KeysBetween(ks, k1, k2))[x] == if k1 <= x <= k2 then multiset(ks)[x] else 0
    decreases |ks|
  {
    if ks != [] {
      KeysBetweenCounts(ks[1..], k1, k2, x);
      assert ks == [ks[0]] + ks[1..];
    }
  }

  /** The keys of ks[..i + 1] in range are those of ks[..i] and then ks[i] if it is in range. */
  lemma KeysBetweenPrefix(ks: seq<int>, i: int, k1: int, k2: int)
    requires 0 <= i < |ks|
    ensures KeysBetween(ks[..i + 1], k1, k2)
         == KeysBetween(ks[..i], k1, k2) + (if k1 <= ks[i] <= k2 then [ks[i]] else [])
  {
    assert ks[..i + 1] == ks[..i] + [ks[i]];
    KeysBetweenAppend(ks[..i], [ks[i]], k1, k2);
    assert [ks[i]][1..] == [];
  }
}
