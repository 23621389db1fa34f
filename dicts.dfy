/** Python dictionaries as sequences of key/value pairs in insertion order. Reading a key
    finds its first entry; assigning `d[k] = v` replaces the value in place when `k` is
    present and appends the pair otherwise, as Python does. */
module Dicts {
  import opened Wrappers

  /** Position of the first entry whose key is `k`. */
  function IndexOfKey<K(==), V>(d: seq<(K, V)>, k: K): (r: Option<nat>)
    ensures r.Some? ==> r.value < |d| && d[r.value].0 == k
    ensures r.Some? ==> forall j :: 0 <= j < r.value ==> d[j].0 != k
    ensures r.None? ==> forall j :: 0 <= j < |d| ==> d[j].0 != k
  {
    if |d| == 0 then None
    else if d[0].0 == k then Some(0)
    else
      match IndexOfKey(d[1..], k)
      case None => None
      case Some(i) => Some(i + 1)
  }

  /** The keys, in insertion order. */
  function Keys<K, V>(d: seq<(K, V)>): (ks: seq<K>)
    ensures |ks| == |d|
    ensures forall i :: 0 <= i < |d| ==> ks[i] == d[i].0
  {
    seq(|d|, i requires 0 <= i < |d| => d[i].0)
  }

  /** `k in d` */
  predicate HasKey<K(==), V>(d: seq<(K, V)>, k: K)
  {
    IndexOfKey(d, k).Some?
  }

  /** `d.get(k)`, None when absent. */
  function Get<K(==), V>(d: seq<(K, V)>, k: K): (r: Option<V>)
    ensures r.Some? <==> HasKey(d, k)
    ensures r.Some? ==> exists i :: 0 <= i < |d| && d[i] == (k, r.value)
  {
    match IndexOfKey(d, k)
    case None => None
    case Some(i) => Some(d[i].1)
  }

  /** `d.get(k, default)` */
  function GetOr<K(==), V>(d: seq<(K, V)>, k: K, default: V): V
  {
    Get(d, k).GetOr(default)
  }

  /** `d[k] = v` */
  function Put<K(==), V>(d: seq<(K, V)>, k: K, v: V): (r: seq<(K, V)>)
    ensures HasKey(d, k) ==> Keys(r) == Keys(d)
    ensures !HasKey(d, k) ==> Keys(r) == Keys(d) + [k]
  {
    match IndexOfKey(d, k)
    case None => d + [(k, v)]
    case Some(i) => d[i := (k, v)]
  }

  /** No key is stored twice. */
  predicate DistinctKeys<K(==), V>(d: seq<(K, V)>)
  {
    forall i, j :: 0 <= i < j < |d| ==> d[i].0 != d[j].0
  }

  /** The first match depends on the keys alone. */
  lemma {:induction false} SameKeysSameIndex<K, V>(d: seq<(K, V)>, e: seq<(K, V)>, k: K)
    requires Keys(d) == Keys(e)
    ensures IndexOfKey(d, k) == IndexOfKey(e, k)
    decreases |d|
  {
    if |d| > 0 {
      assert d[0].0 == Keys(d)[0] == Keys(e)[0] == e[0].0;
      assert Keys(d[1..]) == Keys(d)[1..] == Keys(e)[1..] == Keys(e[1..]);
      SameKeysSameIndex(d[1..], e[1..], k);
    } else {
      assert |e| == |Keys(e)| == 0;
    }
  }

  /** The entry at `i` is the first one with key `k`. */
  lemma IndexOfKeyIs<K, V>(d: seq<(K, V)>, k: K, i: nat)
    requires i < |d| && d[i].0 == k
    requires forall j :: 0 <= j < i ==> d[j].0 != k
    ensures IndexOfKey(d, k) == Some(i)
  {
  }

  /** After `d[k] = v`, reading `k` gives `v` and every other key reads as before. */
  lemma GetPut<K, V>(d: seq<(K, V)>, k: K, v: V, q: K)
    ensures Get(Put(d, k, v), q) == if q == k then Some(v) else Get(d, q)
  {
    var r := Put(d, k, v);
    match IndexOfKey(d, k)
    case None =>
      if q == k {
        IndexOfKeyIs(r, q, |d|);
      } else {
        match IndexOfKey(d, q)
        case None =>
          assert forall j :: 0 <= j < |r| ==> r[j].0 != q;
        case Some(i) =>
          IndexOfKeyIs(r, q, i);
      }
    case Some(i) =>
      SameKeysSameIndex(r, d, q);
  }

  /** An entry appended at the end is read only for a key the dictionary lacked. */
  lemma GetAppend<K, V>(d: seq<(K, V)>, k: K, v: V, q: K)
    ensures Get(d + [(k, v)], q) == if HasKey(d, q) then Get(d, q) else if q == k then Some(v) else None
  {
    var r := d + [(k, v)];
    match IndexOfKey(d, q)
    case Some(i) =>
      IndexOfKeyIs(r, q, i);
    case None =>
      if q == k {
        IndexOfKeyIs(r, q, |d|);
      } else {
        assert forall j :: 0 <= j < |r| ==> r[j].0 != q;
      }
  }

  /** Assignment never introduces a duplicate key. */
  lemma PutDistinct<K, V>(d: seq<(K, V)>, k: K, v: V)
    requires DistinctKeys(d)
    ensures DistinctKeys(Put(d, k, v))
  {
    var r := Put(d, k, v);
    forall i, j | 0 <= i < j < |r|
      ensures r[i].0 != r[j].0
    {
      assert r[i].0 == Keys(r)[i] && r[j].0 == Keys(r)[j];
    }
  }
}
