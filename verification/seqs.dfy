/** Sequence helpers that stand in for the ORM's `filter` and `get`. */
module Seqs {
  import opened Wrappers

  /** The elements of `s` satisfying `p`, in their original order
      (a queryset `filter`). */
  function Filter<T(==,!new)>(s: seq<T>, p: T -> bool): (r: seq<T>)
    ensures |r| <= |s|
    ensures forall x :: x in r <==> x in s && p(x)
    ensures forall x :: multiset(r)[x] == if p(x) then multiset(s)[x] else 0
  {
    if |s| == 0 then []
    else
      assert s == [s[0]] + s[1..];
      (if p(s[0]) then [s[0]] else []) + Filter(s[1..], p)
  }

  /** `a` can be obtained from `b` by deleting elements (relative order kept). */
  predicate IsSubsequence<T(==)>(a: seq<T>, b: seq<T>)
    decreases |b|
  {
    if |a| == 0 then true
    else if |b| == 0 then false
    else if a[0] == b[0] then IsSubsequence(a[1..], b[1..])
    else IsSubsequence(a, b[1..])
  }

  lemma {:induction false} FilterIsSubsequence<T(!new)>(s: seq<T>, p: T -> bool)
    ensures IsSubsequence(Filter(s, p), s)
  {
    if |s| > 0 {
      var t := Filter(s[1..], p);
      FilterIsSubsequence(s[1..], p);
      if p(s[0]) {
        assert Filter(s, p) == [s[0]] + t;
        assert ([s[0]] + t)[1..] == t;
      } else {
        assert Filter(s, p) == t;
        if |t| > 0 {
          assert p(t[0]);
          assert t[0] != s[0];
        }
      }
    }
  }

  /** Filtering depends only on the values of the predicate. */
  lemma {:induction false} FilterExt<T(!new)>(s: seq<T>, p: T -> bool, q: T -> bool)
    requires forall x :: x in s ==> p(x) == q(x)
    ensures Filter(s, p) == Filter(s, q)
  {
    if |s| > 0 {
      FilterExt(s[1..], p, q);
    }
  }

  /** No two elements of `s` share the key `f`. */
  predicate Injective<T, K(==)>(s: seq<T>, f: T -> K)
  {
    forall i, j :: 0 <= i < |s| && 0 <= j < |s| && f(s[i]) == f(s[j]) ==> i == j
  }

  lemma InjectiveTail<T, K>(s: seq<T>, f: T -> K)
    requires |s| > 0 && Injective(s, f)
    ensures Injective(s[1..], f)
    ensures forall y :: y in s[1..] ==> f(y) != f(s[0])
  {
    var t := s[1..];
    forall i, j | 0 <= i < |t| && 0 <= j < |t| && f(t[i]) == f(t[j])
      ensures i == j
    {
      assert t[i] == s[i + 1] && t[j] == s[j + 1];
    }
    forall y | y in t
      ensures f(y) != f(s[0])
    {
      var m :| 0 <= m < |t| && t[m] == y;
      assert s[m + 1] == y;
    }
  }

  lemma InjectiveCons<T, K>(x: T, t: seq<T>, f: T -> K)
    requires Injective(t, f)
    requires forall y :: y in t ==> f(y) != f(x)
    ensures Injective([x] + t, f)
  {
    var r := [x] + t;
    forall i, j | 0 <= i < |r| && 0 <= j < |r| && f(r[i]) == f(r[j])
      ensures i == j
    {
      if i > 0 {
        assert r[i] == t[i - 1] && r[i] in t;
      }
      if j > 0 {
        assert r[j] == t[j - 1] && r[j] in t;
      }
    }
  }

  lemma {:induction false} FilterKeepsInjective<T(!new), K>(s: seq<T>, p: T -> bool, f: T -> K)
    requires Injective(s, f)
    ensures Injective(Filter(s, p), f)
  {
    if |s| > 0 {
      InjectiveTail(s, f);
      FilterKeepsInjective(s[1..], p, f);
      var t := Filter(s[1..], p);
      if p(s[0]) {
        assert Filter(s, p) == [s[0]] + t;
        InjectiveCons(s[0], t, f);
      } else {
        assert Filter(s, p) == t;
      }
    }
  }

  /** Rearranging a sequence keeps its members. */
  lemma PermutationKeepsMembers<T>(a: seq<T>, b: seq<T>)
    requires multiset(a) == multiset(b)
    ensures forall x :: x in a <==> x in b
  {
    forall x ensures x in a <==> x in b {
      assert x in a <==> x in multiset(a);
      assert x in b <==> x in multiset(b);
    }
  }

  /** Some element of `s` satisfying `p`, or None when there is none
      (a queryset `get` whose DoesNotExist becomes None). */
  function FindFirst<T(==,!new)>(s: seq<T>, p: T -> bool): (r: Option<T>)
    ensures r.Some? ==> r.value in s && p(r.value)
    ensures r.None? <==> forall x :: x in s ==> !p(x)
  {
    if |s| == 0 then None
    else if p(s[0]) then Some(s[0])
    else FindFirst(s[1..], p)
  }

}
