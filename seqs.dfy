/** Counting and Python's stable `sorted(..., reverse=True)`, over any element type with a
    numeric sort key. */
module Seqs {

  /** Number of elements satisfying `p`. */
  function Count<T>(s: seq<T>, p: T -> bool): (n: nat)
    ensures n <= |s|
  {
    if |s| == 0 then 0 else Count(s[..|s| - 1], p) + (if p(s[|s| - 1]) then 1 else 0)
  }

  lemma {:induction false} CountAppend<T>(a: seq<T>, b: seq<T>, p: T -> bool)
    ensures Count(a + b, p) == Count(a, p) + Count(b, p)
    decreases |b|
  {
    if |b| == 0 {
      assert a + b == a;
    } else {
      assert (a + b)[..|a + b| - 1] == a + b[..|b| - 1];
      CountAppend(a, b[..|b| - 1], p);
    }
  }

  /** Counts depend on the multiset of elements only, not on their order. */
  lemma {:induction false} CountPerm<T>(a: seq<T>, b: seq<T>, p: T -> bool)
    requires multiset(a) == multiset(b)
    ensures Count(a, p) == Count(b, p)
    decreases |a|
  {
    if |a| == 0 {
      assert |b| == |multiset(b)| == 0;
    } else {
      var x := a[|a| - 1];
      assert x in multiset(b);
      var j :| 0 <= j < |b| && b[j] == x;
      var b' := b[..j] + b[j + 1..];
      assert b == b[..j] + [x] + b[j + 1..];
      assert a == a[..|a| - 1] + [x];
      assert multiset(a) == multiset(a[..|a| - 1]) + multiset{x};
      assert multiset(b) == multiset(b[..j]) + multiset{x} + multiset(b[j + 1..]);
      assert multiset(b') == multiset(b[..j]) + multiset(b[j + 1..]);
      assert multiset(a[..|a| - 1]) == multiset(a) - multiset{x};
      assert multiset(b') == multiset(b) - multiset{x};
      CountPerm(a[..|a| - 1], b', p);
      CountAppend(b[..j] + [x], b[j + 1..], p);
      CountAppend(b[..j], [x], p);
      CountAppend(b[..j], b[j + 1..], p);
      assert Count([x], p) == (if p(x) then 1 else 0) by {
        assert [x][..0] == [];
      }
    }
  }

  /** Counting elementwise: where `p` holds of `a[i]`, `q` holds of `b[i]`. */
  lemma {:induction false} CountMono<T, U>(a: seq<T>, p: T -> bool, b: seq<U>, q: U -> bool)
    requires |a| == |b|
    requires forall i :: 0 <= i < |a| ==> p(a[i]) ==> q(b[i])
    ensures Count(a, p) <= Count(b, q)
    decreases |a|
  {
    if |a| > 0 {
      CountMono(a[..|a| - 1], p, b[..|b| - 1], q);
    }
  }

  lemma {:induction false} CountAll<T>(s: seq<T>, p: T -> bool)
    requires forall i :: 0 <= i < |s| ==> p(s[i])
    ensures Count(s, p) == |s|
    decreases |s|
  {
    if |s| > 0 {
      CountAll(s[..|s| - 1], p);
    }
  }

  lemma {:induction false} CountNone<T>(s: seq<T>, p: T -> bool)
    requires forall i :: 0 <= i < |s| ==> !p(s[i])
    ensures Count(s, p) == 0
    decreases |s|
  {
    if |s| > 0 {
      CountNone(s[..|s| - 1], p);
    }
  }

  /** Non-increasing by `key`. */
  predicate SortedDesc<T>(s: seq<T>, key: T -> real)
  {
    forall i, j :: 0 <= i < j < |s| ==> key(s[i]) >= key(s[j])
  }

  /** Insert `x` after every element whose key is at least `x`'s, which keeps equal keys in
      their arrival order. */
  function InsertDesc<T>(x: T, s: seq<T>, key: T -> real): (r: seq<T>)
    requires SortedDesc(s, key)
    ensures |r| == |s| + 1
    ensures multiset(r) == multiset(s) + multiset{x}
    ensures SortedDesc(r, key)
  {
    if |s| == 0 then [x]
    else if key(s[0]) >= key(x) then
      var rest := InsertDesc(x, s[1..], key);
      assert s == [s[0]] + s[1..];
      HeadOverInsert(x, s, key, rest);
      [s[0]] + rest
    else
      [x] + s
  }

  /** The head of a sorted sequence stays in front of an insertion into its tail that lands
      after it. */
  lemma HeadOverInsert<T>(x: T, s: seq<T>, key: T -> real, rest: seq<T>)
    requires |s| > 0 && SortedDesc(s, key) && key(s[0]) >= key(x)
    requires multiset(rest) == multiset(s[1..]) + multiset{x} && SortedDesc(rest, key)
    ensures SortedDesc([s[0]] + rest, key)
  {
    var r := [s[0]] + rest;
    forall i | 0 < i < |r|
      ensures key(r[0]) >= key(r[i])
    {
      var y := rest[i - 1];
      assert y in multiset(rest);
      if y != x {
        assert y in multiset(s[1..]);
        var m :| 0 <= m < |s[1..]| && s[1..][m] == y;
        assert s[m + 1] == y;
      }
    }
    forall i, j | 0 <= i < j < |r|
      ensures key(r[i]) >= key(r[j])
    {
      if i > 0 {
        assert r[i] == rest[i - 1] && r[j] == rest[j - 1];
      }
    }
  }

  /** Python's `sorted(s, key=key, reverse=True)`: stable insertion sort, descending. */
  function SortDesc<T>(s: seq<T>, key: T -> real): (r: seq<T>)
    ensures |r| == |s|
    ensures multiset(r) == multiset(s)
    ensures SortedDesc(r, key)
  {
    if |s| == 0 then []
    else
      assert s == s[..|s| - 1] + [s[|s| - 1]];
      InsertDesc(s[|s| - 1], SortDesc(s[..|s| - 1], key), key)
  }

  /** The first element of a descending order is a maximum. */
  lemma SortedHeadIsMax<T>(s: seq<T>, key: T -> real, x: T)
    requires |s| > 0 && x in s
    ensures key(SortDesc(s, key)[0]) >= key(x)
  {
    var r := SortDesc(s, key);
    assert x in multiset(r);
    var j :| 0 <= j < |r| && r[j] == x;
  }

  /** A prefix of a descending order is its top: it is drawn from the sequence, and nothing
      left out ranks above its last element. */
  lemma SortedPrefixTop<T>(p: seq<T>, key: T -> real, k: nat)
    requires SortedDesc(p, key) && 0 < k <= |p|
    ensures multiset(p[..k]) <= multiset(p)
    ensures forall x :: x in multiset(p) - multiset(p[..k]) ==> key(x) <= key(p[k - 1])
  {
    assert p == p[..k] + p[k..];
    assert multiset(p) == multiset(p[..k]) + multiset(p[k..]);
    forall x | x in multiset(p) - multiset(p[..k])
      ensures key(x) <= key(p[k - 1])
    {
      assert x in multiset(p[k..]);
      var j :| 0 <= j < |p[k..]| && p[k..][j] == x;
      assert p[k + j] == x;
    }
  }
  /** A prefix `t` of a descending sequence is a sub-multiset of it, and whatever it leaves
      out has a key at most that of its last element. */
  lemma SortedTakeTop<T>(p: seq<T>, key: T -> real, t: seq<T>)
    requires SortedDesc(p, key) && |t| <= |p| && t == p[..|t|]
    ensures multiset(t) <= multiset(p)
    ensures |t| > 0 ==> forall x :: x in multiset(p) - multiset(t) ==> key(x) <= key(t[|t| - 1])
  {
    if |t| > 0 {
      SortedPrefixTop(p, key, |t|);
    } else {
      assert multiset(t) == multiset{};
    }
  }


  /** The elements whose key reaches `v`. */
  function KeyAtLeast<T>(key: T -> real, v: real): T -> bool
  {
    x => key(x) >= v
  }

  /** In a descending order, everything up to an element that reaches `v` reaches it. */
  lemma SortedPrefixReaches<T>(s: seq<T>, key: T -> real, v: real, k: nat)
    requires SortedDesc(s, key) && k < |s| && key(s[k]) >= v
    ensures Count(s[..k + 1], KeyAtLeast(key, v)) == k + 1
  {
    var pre := s[..k + 1];
    forall i | 0 <= i < |pre|
      ensures KeyAtLeast(key, v)(pre[i])
    {
      assert pre[i] == s[i];
    }
    CountAll(pre, KeyAtLeast(key, v));
  }

  /** In a descending order, nothing from an element that misses `v` on reaches it. */
  lemma SortedSuffixMisses<T>(s: seq<T>, key: T -> real, v: real, k: nat)
    requires SortedDesc(s, key) && k < |s| && key(s[k]) < v
    ensures Count(s[k..], KeyAtLeast(key, v)) == 0
  {
    var high := s[k..];
    forall i | 0 <= i < |high|
      ensures !KeyAtLeast(key, v)(high[i])
    {
      assert high[i] == s[k + i];
    }
    CountNone(high, KeyAtLeast(key, v));
  }

  /** In a descending order, more than `k` elements reach `v` exactly when the element at
      position `k` does. */
  lemma SortedCount<T>(s: seq<T>, key: T -> real, v: real, k: nat)
    requires SortedDesc(s, key) && k < |s|
    ensures Count(s, KeyAtLeast(key, v)) > k <==> key(s[k]) >= v
  {
    var p := KeyAtLeast(key, v);
    if key(s[k]) >= v {
      assert s == s[..k + 1] + s[k + 1..];
      CountAppend(s[..k + 1], s[k + 1..], p);
      SortedPrefixReaches(s, key, v, k);
    } else {
      assert s == s[..k] + s[k..];
      CountAppend(s[..k], s[k..], p);
      SortedSuffixMisses(s, key, v, k);
    }
  }

  /** No element satisfies `p` exactly when the count is zero. */
  lemma {:induction false} CountZero<T>(s: seq<T>, p: T -> bool)
    ensures Count(s, p) == 0 <==> forall i :: 0 <= i < |s| ==> !p(s[i])
    decreases |s|
  {
    if |s| > 0 {
      var init := s[..|s| - 1];
      CountZero(init, p);
      assert forall i :: 0 <= i < |init| ==> init[i] == s[i];
    }
  }

  /** The distinct elements in order of first appearance (`Series.unique()`). */
  function Unique<T(==)>(s: seq<T>): (r: seq<T>)
    ensures forall i :: 0 <= i < |r| ==> r[i] in s
    ensures forall i :: 0 <= i < |s| ==> s[i] in r
    ensures forall i, j :: 0 <= i < j < |r| ==> r[i] != r[j]
  {
    if |s| == 0 then []
    else
      var u := Unique(s[..|s| - 1]);
      assert forall i :: 0 <= i < |s| - 1 ==> s[..|s| - 1][i] == s[i];
      if s[|s| - 1] in u then u else u + [s[|s| - 1]]
  }

  /** The position of the first occurrence of `x`. */
  function FirstAt<T(==)>(s: seq<T>, x: T): (i: nat)
    requires x in s
    ensures i < |s| && s[i] == x && forall j :: 0 <= j < i ==> s[j] != x
  {
    if s[0] == x then 0 else 1 + FirstAt(s[1..], x)
  }

  /** The distinct elements come in the order in which each first appears. */
  lemma {:induction false} UniqueFirstAppearance<T>(s: seq<T>, i: nat, j: nat)
    requires i < j < |Unique(s)|
    ensures FirstAt(s, Unique(s)[i]) < FirstAt(s, Unique(s)[j])
    decreases |s|
  {
    var init := s[..|s| - 1];
    var u := Unique(init);
    var x := Unique(s)[i];
    var y := Unique(s)[j];
    assert forall k :: 0 <= k < |init| ==> init[k] == s[k];
    if j < |u| {
      UniqueFirstAppearance(init, i, j);
      FirstAtPrefix(s, init, x);
      FirstAtPrefix(s, init, y);
    } else {
      assert y == s[|s| - 1] && y !in init;
      FirstAtPrefix(s, init, x);
    }
  }

  /** In a sequence extending `init`, an element of `init` is first met where it is in `init`. */
  lemma FirstAtPrefix<T>(s: seq<T>, init: seq<T>, x: T)
    requires |init| <= |s| && init == s[..|init|] && x in init
    ensures x in s && FirstAt(s, x) == FirstAt(init, x)
  {
    var a := FirstAt(init, x);
    assert s[a] == x;
    assert forall j :: 0 <= j < a ==> s[j] == init[j];
  }
}
