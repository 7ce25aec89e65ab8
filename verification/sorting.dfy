/** The stable sort `Array.prototype.sort` performs with a numeric comparator
    `(a, b) => key(a) - key(b)`, modelled as an insertion sort on sequences. */
module Sorting {

  /** Keys never decrease along `s`. */
  predicate SortedBy<T>(s: seq<T>, key: T -> int) {
    forall i, j :: 0 <= i < j < |s| ==> key(s[i]) <= key(s[j])
  }

  /** The elements of `s` whose key is `k`, in their order in `s`. */
  function WithKey<T>(s: seq<T>, key: T -> int, k: int): seq<T>
  {
    if |s| == 0 then []
    else (if key(s[0]) == k then [s[0]] else []) + WithKey(s[1..], key, k)
  }

  /** Puts `x` in front of the first element whose key is not smaller, so that
      `x` precedes the elements of equal key already in `s`. */
  function Insert<T>(x: T, s: seq<T>, key: T -> int): (r: seq<T>)
    requires SortedBy(s, key)
    ensures SortedBy(r, key)
    ensures multiset(r) == multiset(s) + multiset{x}
    ensures forall k :: WithKey(r, key, k) == (if key(x) == k then [x] else []) + WithKey(s, key, k)
  {
    if |s| == 0 || key(x) <= key(s[0]) then
      ConsSorted(x, s, key);
      WithKeyConsAll(x, s, key);
      [x] + s
    else
      SortedBy1(s, key);
      var t := Insert(x, s[1..], key);
      HeadBelowInsert(x, s, t, key);
      ConsSorted(s[0], t, key);
      assert s == [s[0]] + s[1..];
      InsertBehindWithKey(x, s, t, key);
      [s[0]] + t
  }

  lemma WithKeyCons<T>(x: T, s: seq<T>, key: T -> int, k: int)
    ensures WithKey([x] + s, key, k) == (if key(x) == k then [x] else []) + WithKey(s, key, k)
  {
    assert ([x] + s)[1..] == s;
  }

  lemma WithKeyConsAll<T>(x: T, s: seq<T>, key: T -> int)
    ensures forall k :: WithKey([x] + s, key, k) == (if key(x) == k then [x] else []) + WithKey(s, key, k)
  {
    forall k
      ensures WithKey([x] + s, key, k) == (if key(x) == k then [x] else []) + WithKey(s, key, k)
    {
      WithKeyCons(x, s, key, k);
    }
  }

  /** The stability half of the `Insert` step that keeps `s[0]` in front. */
  lemma InsertBehindWithKey<T>(x: T, s: seq<T>, t: seq<T>, key: T -> int)
    requires |s| > 0 && key(s[0]) < key(x)
    requires forall k :: WithKey(t, key, k) == (if key(x) == k then [x] else []) + WithKey(s[1..], key, k)
    ensures forall k :: WithKey([s[0]] + t, key, k) == (if key(x) == k then [x] else []) + WithKey(s, key, k)
  {
    forall k
      ensures WithKey([s[0]] + t, key, k) == (if key(x) == k then [x] else []) + WithKey(s, key, k)
    {
      InsertBehindWithKeyAt(x, s, t, key, k);
    }
  }

  lemma InsertBehindWithKeyAt<T>(x: T, s: seq<T>, t: seq<T>, key: T -> int, k: int)
    requires |s| > 0 && key(s[0]) < key(x)
    requires WithKey(t, key, k) == (if key(x) == k then [x] else []) + WithKey(s[1..], key, k)
    ensures WithKey([s[0]] + t, key, k) == (if key(x) == k then [x] else []) + WithKey(s, key, k)
  {
    WithKeyCons(s[0], t, key, k);
    var w1 := WithKey(s[1..], key, k);
    if key(x) == k {
      assert WithKey([s[0]] + t, key, k) == [] + ([x] + w1);
      assert WithKey(s, key, k) == [] + w1;
    } else if key(s[0]) == k {
      assert WithKey([s[0]] + t, key, k) == [s[0]] + ([] + w1);
      assert WithKey(s, key, k) == [s[0]] + w1;
    } else {
      assert WithKey([s[0]] + t, key, k) == [] + ([] + w1);
      assert WithKey(s, key, k) == [] + w1;
    }
  }

  lemma HeadBelowInsert<T>(x: T, s: seq<T>, t: seq<T>, key: T -> int)
    requires |s| > 0 && SortedBy(s, key) && key(s[0]) < key(x)
    requires multiset(t) == multiset(s[1..]) + multiset{x}
    ensures forall i :: 0 <= i < |t| ==> key(s[0]) <= key(t[i])
  {
    forall i | 0 <= i < |t|
      ensures key(s[0]) <= key(t[i])
    {
      assert t[i] in multiset(t);
      if t[i] != x {
        assert t[i] in multiset(s[1..]);
        var j :| 0 <= j < |s[1..]| && s[1..][j] == t[i];
        assert s[1..][j] == s[j + 1];
      }
    }
  }

  lemma ConsSorted<T>(y: T, t: seq<T>, key: T -> int)
    requires SortedBy(t, key)
    requires forall i :: 0 <= i < |t| ==> key(y) <= key(t[i])
    ensures SortedBy([y] + t, key)
  {
    forall i, j | 0 <= i < j < |[y] + t|
      ensures key(([y] + t)[i]) <= key(([y] + t)[j])
    {
      if i > 0 {
        assert ([y] + t)[i] == t[i - 1];
      }
      assert ([y] + t)[j] == t[j - 1];
    }
  }

  /** `s` sorted by ascending key: a permutation of `s`, sorted, and stable —
      the elements sharing any one key keep their relative order. */
  function Sort<T>(s: seq<T>, key: T -> int): (r: seq<T>)
    ensures SortedBy(r, key)
    ensures multiset(r) == multiset(s)
    ensures |r| == |s|
    ensures forall k :: WithKey(r, key, k) == WithKey(s, key, k)
  {
    if |s| == 0 then []
    else
      var t := Sort(s[1..], key);
      assert s == [s[0]] + s[1..];
      WithKeyConsAll(s[0], s[1..], key);
      var r := Insert(s[0], t, key);
      assert |r| == |multiset(r)|;
      r
  }

  /** The first element of a sorted permutation has the smallest key. */
  lemma SortedHeadIsMin<T>(s: seq<T>, key: T -> int)
    requires |s| > 0
    ensures |Sort(s, key)| == |s|
    ensures Sort(s, key)[0] in s
    ensures forall i :: 0 <= i < |s| ==> key(Sort(s, key)[0]) <= key(s[i])
  {
    var r := Sort(s, key);
    assert r[0] in multiset(r);
    forall i | 0 <= i < |s|
      ensures key(r[0]) <= key(s[i])
    {
      assert s[i] in multiset(r);
      var j :| 0 <= j < |r| && r[j] == s[i];
    }
  }

  /** Two sorted sequences that agree, key by key, on which elements carry
      that key and in what order, are equal: a stable sort has exactly one
      possible outcome. */
  lemma {:induction false} SortedStableUnique<T>(a: seq<T>, b: seq<T>, key: T -> int)
    requires SortedBy(a, key) && SortedBy(b, key)
    requires forall k :: WithKey(a, key, k) == WithKey(b, key, k)
    ensures a == b
    decreases |a| + |b|
  {
    if |a| == 0 || |b| == 0 {
      if |a| > 0 {
        WithKeyNonEmpty(a, key);
      } else if |b| > 0 {
        WithKeyNonEmpty(b, key);
      }
    } else {
      assert a == [a[0]] + a[1..];
      assert b == [b[0]] + b[1..];
      WithKeyCons(a[0], a[1..], key, key(a[0]));
      WithKeyCons(b[0], b[1..], key, key(b[0]));
      if key(a[0]) < key(b[0]) {
        WithKeyAllAbove(b, key, key(a[0]));
        assert false;
      } else if key(b[0]) < key(a[0]) {
        WithKeyAllAbove(a, key, key(b[0]));
        assert false;
      } else {
        assert WithKey(a, key, key(a[0]))[0] == a[0];
        assert WithKey(b, key, key(a[0]))[0] == b[0];
        SortedBy1(a, key);
        SortedBy1(b, key);
        forall k
          ensures WithKey(a[1..], key, k) == WithKey(b[1..], key, k)
        {
          WithKeyCons(a[0], a[1..], key, k);
          WithKeyCons(b[0], b[1..], key, k);
          assert WithKey(a, key, k) == WithKey(b, key, k);
          if k == key(a[0]) {
            var wa := WithKey(a[1..], key, k);
            var wb := WithKey(b[1..], key, k);
            assert wa == ([a[0]] + wa)[1..];
            assert wb == ([b[0]] + wb)[1..];
          } else {
            assert WithKey(a, key, k) == WithKey(a[1..], key, k);
            assert WithKey(b, key, k) == WithKey(b[1..], key, k);
          }
        }
        SortedStableUnique(a[1..], b[1..], key);
      }
    }
  }

  lemma WithKeyNonEmpty<T>(s: seq<T>, key: T -> int)
    requires |s| > 0
    ensures WithKey(s, key, key(s[0])) != []
  {
  }

  lemma SortedBy1<T>(s: seq<T>, key: T -> int)
    requires |s| > 0 && SortedBy(s, key)
    ensures SortedBy(s[1..], key)
  {
  }

  /** In a sorted sequence whose first key is above `k`, nothing has key `k`. */
  lemma {:induction false} WithKeyAllAbove<T>(s: seq<T>, key: T -> int, k: int)
    requires |s| > 0 && SortedBy(s, key) && k < key(s[0])
    ensures WithKey(s, key, k) == []
    decreases |s|
  {
    if |s| > 1 {
      assert key(s[0]) <= key(s[1]);
      SortedBy1(s, key);
      WithKeyAllAbove(s[1..], key, k);
    }
  }
}
