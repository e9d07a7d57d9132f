/** A stable sort on an integer key: the behaviour of Python's `sorted(xs, key=...)`,
    which is guaranteed stable, modelled as an insertion sort. */
module Sorting {

  /** `s` is non-decreasing in `key`. */
  predicate SortedBy<T>(s: seq<T>, key: T -> int)
  {
    forall i, j :: 0 <= i < j < |s| ==> key(s[i]) <= key(s[j])
  }

  /** The elements of `s` whose key is `k`, in their order in `s`: a stable sort
      must leave each of these classes exactly as it found it. This is a `filter`
      on `key(x) == k`, written as its own recursion so that the stability proofs
      can unfold it directly without the closure a filter predicate would need. */
  function WithKey<T>(s: seq<T>, key: T -> int, k: int): seq<T>
  {
    if |s| == 0 then []
    else (if key(s[0]) == k then [s[0]] else []) + WithKey(s[1..], key, k)
  }

  /** Inserts `x` in front of the first element whose key is not smaller. */
  function Insert<T(==)>(x: T, s: seq<T>, key: T -> int): (r: seq<T>)
    ensures multiset(r) == multiset(s) + multiset{x}
  {
    if |s| == 0 || key(x) <= key(s[0]) then [x] + s
    else
      assert s == [s[0]] + s[1..];
      [s[0]] + Insert(x, s[1..], key)
  }

  lemma {:induction false} InsertKeepsSorted<T>(x: T, s: seq<T>, key: T -> int)
    requires SortedBy(s, key)
    ensures SortedBy(Insert(x, s, key), key)
  {
    if |s| > 0 && key(x) > key(s[0]) {
      var t := Insert(x, s[1..], key);
      InsertKeepsSorted(x, s[1..], key);
      var r := [s[0]] + t;
      assert Insert(x, s, key) == r;
      forall i, j | 0 <= i < j < |r| ensures key(r[i]) <= key(r[j]) {
        assert r[j] == t[j - 1];
        assert r[j] in multiset(t);
        if r[j] != x {
          assert r[j] in multiset(s[1..]);
          var m :| 0 <= m < |s[1..]| && s[1..][m] == r[j];
          assert s[m + 1] == r[j];
        }
        if i > 0 {
          assert r[i] == t[i - 1];
        }
      }
    }
  }

  /** Python's `sorted(s, key=key)`. */
  function SortBy<T(==)>(s: seq<T>, key: T -> int): (r: seq<T>)
    ensures multiset(r) == multiset(s)
    ensures SortedBy(r, key)
  {
    if |s| == 0 then []
    else
      assert s == [s[0]] + s[1..];
      InsertKeepsSorted(s[0], SortBy(s[1..], key), key);
      Insert(s[0], SortBy(s[1..], key), key)
  }

  lemma {:induction false} WithKeyConcat<T>(a: seq<T>, b: seq<T>, key: T -> int, k: int)
    ensures WithKey(a + b, key, k) == WithKey(a, key, k) + WithKey(b, key, k)
  {
    if |a| == 0 {
      assert a + b == b;
    } else {
      var h := if key(a[0]) == k then [a[0]] else [];
      assert (a + b)[0] == a[0];
      assert (a + b)[1..] == a[1..] + b;
      WithKeyConcat(a[1..], b, key, k);
      assert WithKey(a + b, key, k) == h + WithKey(a[1..] + b, key, k);
      assert WithKey(a, key, k) == h + WithKey(a[1..], key, k);
    }
  }

  /** Every element of `s` has a key other than `k`. */
  lemma {:induction false} WithKeyAbsent<T>(s: seq<T>, key: T -> int, k: int)
    requires forall i :: 0 <= i < |s| ==> key(s[i]) != k
    ensures WithKey(s, key, k) == []
  {
    if |s| > 0 {
      WithKeyAbsent(s[1..], key, k);
    }
  }

  lemma WithKeySingle<T>(y: T, key: T -> int, k: int)
    ensures WithKey([y], key, k) == if key(y) == k then [y] else []
  {
    assert [y][1..] == [];
  }

  lemma {:induction false} InsertKeepsClasses<T>(x: T, s: seq<T>, key: T -> int, k: int)
    ensures WithKey(Insert(x, s, key), key, k) == WithKey([x] + s, key, k)
  {
    if |s| > 0 && key(x) > key(s[0]) {
      var u := s[1..];
      var t := Insert(x, u, key);
      assert Insert(x, s, key) == [s[0]] + t;
      assert s == [s[0]] + u;
      assert [x] + s == [x] + [s[0]] + u;
      WithKeySingle(x, key, k);
      WithKeySingle(s[0], key, k);
      InsertKeepsClasses(x, u, key, k);
      WithKeyConcat([s[0]], t, key, k);
      WithKeyConcat([x], u, key, k);
      WithKeyConcat([x] + [s[0]], u, key, k);
      WithKeyConcat([x], [s[0]], key, k);
      assert WithKey([s[0]], key, k) + WithKey([x], key, k)
          == WithKey([x], key, k) + WithKey([s[0]], key, k);
    }
  }

  /** Stability: the sort keeps the relative order of elements with equal keys. */
  lemma {:induction false} SortByStable<T>(s: seq<T>, key: T -> int, k: int)
    ensures WithKey(SortBy(s, key), key, k) == WithKey(s, key, k)
  {
    if |s| > 0 {
      SortByStable(s[1..], key, k);
      InsertKeepsClasses(s[0], SortBy(s[1..], key), key, k);
      WithKeyConcat([s[0]], SortBy(s[1..], key), key, k);
      WithKeyConcat([s[0]], s[1..], key, k);
      assert s == [s[0]] + s[1..];
    }
  }

  lemma WithKeyHead<T>(s: seq<T>, key: T -> int)
    requires |s| > 0
    ensures WithKey(s, key, key(s[0])) != []
  {
  }

  /** A sorted sequence is determined by its per-key classes. */
  lemma {:induction false} SortedClassesDetermine<T>(a: seq<T>, b: seq<T>, key: T -> int)
    requires SortedBy(a, key) && SortedBy(b, key)
    requires forall k :: WithKey(a, key, k) == WithKey(b, key, k)
    ensures a == b
  {
    if |a| == 0 && |b| == 0 {
    } else if |a| == 0 {
      WithKeyHead(b, key);
      assert false;
    } else if |b| == 0 {
      WithKeyHead(a, key);
      assert false;
    } else {
      var m, n := key(a[0]), key(b[0]);
      if m < n {
        WithKeyAbsent(b, key, m);
        assert false;
      } else if n < m {
        WithKeyAbsent(a, key, n);
        assert false;
      } else {
        assert WithKey(a, key, m)[0] == a[0];
        assert WithKey(b, key, m)[0] == b[0];
        assert a[0] == b[0];
        forall k
          ensures WithKey(a[1..], key, k) == WithKey(b[1..], key, k)
        {
          assert WithKey(a, key, k) == WithKey(b, key, k);
          assert a == [a[0]] + a[1..] && b == [b[0]] + b[1..];
          WithKeyConcat([a[0]], a[1..], key, k);
          WithKeyConcat([b[0]], b[1..], key, k);
          WithKeySingle(a[0], key, k);
          if key(a[0]) == k {
            assert WithKey(a[1..], key, k) == WithKey(a, key, k)[1..];
            assert WithKey(b[1..], key, k) == WithKey(b, key, k)[1..];
          } else {
            assert WithKey(a[1..], key, k) == WithKey(a, key, k);
          }
        }
        SortedClassesDetermine(a[1..], b[1..], key);
        assert a == [a[0]] + a[1..] && b == [b[0]] + b[1..];
      }
    }
  }

  /** `SortBy` is the only sorted arrangement of `s` that keeps every class of
      equal keys in its original order: a reference characterisation of the
      stable sort, independent of the insertion algorithm. */
  lemma SortByCharacterised<T>(s: seq<T>, key: T -> int, r: seq<T>)
    requires SortedBy(r, key)
    requires forall k :: WithKey(r, key, k) == WithKey(s, key, k)
    ensures r == SortBy(s, key)
  {
    forall k ensures WithKey(r, key, k) == WithKey(SortBy(s, key), key, k) {
      SortByStable(s, key, k);
    }
    SortedClassesDetermine(r, SortBy(s, key), key);
  }

}
