/**
 * The LINQ operators the controller applies to balance lists: `Where`
 * (a filter that keeps order) and `OrderBy` (a STABLE sort by an integer
 * key; `OrderByDescending(b => b.Balance)` is `OrderBy` by the negated
 * balance, which is also stable). Stability fixes the tie-breaking order,
 * which the source leaves to these operators.
 */
module Linq {

  function Where<T(!new)>(s: seq<T>, p: T -> bool): (r: seq<T>)
    ensures |r| <= |s|
    ensures forall x :: multiset(r)[x] == if p(x) then multiset(s)[x] else 0
    ensures forall i :: 0 <= i < |r| ==> p(r[i]) && r[i] in s
  {
    if s == [] then []
    else
      var rest := Where(s[1..], p);
      assert s == [s[0]] + s[1..];
      if p(s[0]) then [s[0]] + rest else rest
  }

  lemma WhereCons<T(!new)>(x: T, s: seq<T>, p: T -> bool)
    ensures Where([x] + s, p) == if p(x) then [x] + Where(s, p) else Where(s, p)
  {
    assert ([x] + s)[1..] == s;
  }

  /** The filter keeps order: filtering a concatenation concatenates the filtered parts. */
  lemma {:induction false} WhereAppend<T(!new)>(a: seq<T>, b: seq<T>, p: T -> bool)
    ensures Where(a + b, p) == Where(a, p) + Where(b, p)
    decreases |a|
  {
    if a == [] {
      assert a + b == b;
    } else {
      var x, t := a[0], a[1..];
      assert a == [x] + t;
      assert a + b == [x] + (t + b);
      WhereAppend(t, b, p);
      WhereCons(x, t, p);
      WhereCons(x, t + b, p);
      if p(x) {
        ConcatAssoc([x], Where(t, p), Where(b, p));
      }
    }
  }

  lemma ConcatAssoc<T>(a: seq<T>, b: seq<T>, c: seq<T>)
    ensures a + (b + c) == (a + b) + c
  {
  }

  /** Non-decreasing by `key`. */
  predicate SortedBy<T>(s: seq<T>, key: T -> int)
  {
    forall i, j :: 0 <= i < j < |s| ==> key(s[i]) <= key(s[j])
  }

  /** The elements of `s` whose key is `k`, in their order in `s`. */
  function WithKey<T>(s: seq<T>, key: T -> int, k: int): seq<T>
  {
    if s == [] then []
    else (if key(s[0]) == k then [s[0]] else []) + WithKey(s[1..], key, k)
  }

  /** Inserts `x` before the first element whose key is not smaller, so `x` precedes the elements with its key. */
  function InsertBy<T>(x: T, s: seq<T>, key: T -> int): (r: seq<T>)
    ensures multiset(r) == multiset(s) + multiset{x}
  {
    if s == [] then [x]
    else if key(x) <= key(s[0]) then [x] + s
    else
      assert s == [s[0]] + s[1..];
      [s[0]] + InsertBy(x, s[1..], key)
  }

  lemma {:induction false} InsertBySorted<T>(x: T, s: seq<T>, key: T -> int)
    requires SortedBy(s, key)
    ensures SortedBy(InsertBy(x, s, key), key)
    decreases |s|
  {
    if s != [] && key(x) > key(s[0]) {
      var rest := InsertBy(x, s[1..], key);
      InsertBySorted(x, s[1..], key);
      var r := [s[0]] + rest;
      forall i, j | 0 <= i < j < |r| ensures key(r[i]) <= key(r[j]) {
        if i == 0 {
          assert r[j] in multiset(rest);
          if r[j] != x {
            assert r[j] in multiset(s[1..]);
            var m :| 0 <= m < |s[1..]| && s[1..][m] == r[j];
            assert s[m + 1] == r[j];
          }
        } else {
          assert r[i] == rest[i - 1] && r[j] == rest[j - 1];
        }
      }
    }
  }

  lemma {:induction false} InsertByWithKey<T>(x: T, s: seq<T>, key: T -> int, k: int)
    ensures WithKey(InsertBy(x, s, key), key, k) == if key(x) == k then [x] + WithKey(s, key, k) else WithKey(s, key, k)
    decreases |s|
  {
    if s == [] {
    } else if key(x) <= key(s[0]) {
      assert ([x] + s)[1..] == s;
    } else {
      var r := InsertBy(x, s, key);
      assert r[0] == s[0] && r[1..] == InsertBy(x, s[1..], key);
      InsertByWithKey(x, s[1..], key, k);
    }
  }

  /** Stable sort by `key`: insertion sort, each element inserted ahead of the later elements with its key. */
  function OrderBy<T>(s: seq<T>, key: T -> int): (r: seq<T>)
    ensures multiset(r) == multiset(s)
    ensures |r| == |s|
    ensures SortedBy(r, key)
    ensures forall k :: WithKey(r, key, k) == WithKey(s, key, k)
  {
    if s == [] then []
    else
      assert s == [s[0]] + s[1..];
      var t := OrderBy(s[1..], key);
      InsertBySorted(s[0], t, key);
      assert forall k :: WithKey(InsertBy(s[0], t, key), key, k) == WithKey(s, key, k) by {
        forall k ensures WithKey(InsertBy(s[0], t, key), key, k) == WithKey(s, key, k) {
          InsertByWithKey(s[0], t, key, k);
        }
      }
      InsertBy(s[0], t, key)
  }

  /** When every element with key `k` passes the filter, those elements come through it unchanged and in order. */
  lemma {:induction false} WhereWithKey<T(!new)>(s: seq<T>, p: T -> bool, key: T -> int, k: int)
    requires forall x :: key(x) == k ==> p(x)
    ensures WithKey(Where(s, p), key, k) == WithKey(s, key, k)
    decreases |s|
  {
    if s != [] {
      WhereWithKey(s[1..], p, key, k);
      WhereCons(s[0], s[1..], p);
      assert s == [s[0]] + s[1..];
      assert ([s[0]] + Where(s[1..], p))[1..] == Where(s[1..], p);
    }
  }

  lemma OrderByCons<T>(x: T, s: seq<T>, key: T -> int)
    ensures OrderBy([x] + s, key) == InsertBy(x, OrderBy(s, key), key)
  {
    assert ([x] + s)[1..] == s;
  }

  /** The sum of `f` over `s`. */
  function SumBy<T>(s: seq<T>, f: T -> int): int
  {
    if s == [] then 0 else f(s[0]) + SumBy(s[1..], f)
  }

  lemma SumByCons<T>(x: T, s: seq<T>, f: T -> int)
    ensures SumBy([x] + s, f) == f(x) + SumBy(s, f)
  {
    assert ([x] + s)[1..] == s;
  }

  /** No two elements of `s` agree on `f`. */
  ghost predicate InjectiveOn<T, K>(s: seq<T>, f: T -> K)
  {
    forall i, j :: 0 <= i < j < |s| ==> f(s[i]) != f(s[j])
  }

  lemma {:induction false} InsertBySum<T>(x: T, s: seq<T>, key: T -> int, f: T -> int)
    ensures SumBy(InsertBy(x, s, key), f) == f(x) + SumBy(s, f)
    decreases |s|
  {
    if s != [] && key(x) > key(s[0]) {
      var r := InsertBy(x, s, key);
      assert r[1..] == InsertBy(x, s[1..], key);
      InsertBySum(x, s[1..], key, f);
    } else if s != [] {
      assert ([x] + s)[1..] == s;
    }
  }

  /** Sorting does not change a sum over the elements. */
  lemma {:induction false} OrderBySum<T>(s: seq<T>, key: T -> int, f: T -> int)
    ensures SumBy(OrderBy(s, key), f) == SumBy(s, f)
    decreases |s|
  {
    if s != [] {
      OrderBySum(s[1..], key, f);
      InsertBySum(s[0], OrderBy(s[1..], key), key, f);
    }
  }

  lemma {:induction false} InsertByInjective<T, K>(x: T, s: seq<T>, key: T -> int, f: T -> K)
    requires InjectiveOn(s, f)
    requires forall i :: 0 <= i < |s| ==> f(s[i]) != f(x)
    ensures InjectiveOn(InsertBy(x, s, key), f)
    decreases |s|
  {
    if s != [] && key(x) > key(s[0]) {
      var rest := InsertBy(x, s[1..], key);
      InsertByInjective(x, s[1..], key, f);
      var r := [s[0]] + rest;
      forall j | 0 < j < |r| ensures f(r[0]) != f(r[j]) {
        assert r[j] in multiset(rest);
        if r[j] != x {
          var m :| 0 <= m < |s[1..]| && s[1..][m] == r[j];
          assert s[m + 1] == r[j];
        }
      }
      assert InsertBy(x, s, key) == r;
    }
  }

  /** Sorting keeps `f` injective: sorting a list with distinct users yields a list with distinct users. */
  lemma {:induction false} OrderByInjective<T, K>(s: seq<T>, key: T -> int, f: T -> K)
    requires InjectiveOn(s, f)
    ensures InjectiveOn(OrderBy(s, key), f)
    decreases |s|
  {
    if s != [] {
      var t := OrderBy(s[1..], key);
      OrderByInjective(s[1..], key, f);
      forall i | 0 <= i < |t| ensures f(t[i]) != f(s[0]) {
        assert t[i] in multiset(s[1..]);
        var m :| 0 <= m < |s[1..]| && s[1..][m] == t[i];
        assert s[m + 1] == t[i];
      }
      InsertByInjective(s[0], t, key, f);
    }
  }

  /** Filtering keeps `f` injective. */
  lemma {:induction false} WhereInjective<T(!new), K>(s: seq<T>, p: T -> bool, f: T -> K)
    requires InjectiveOn(s, f)
    ensures InjectiveOn(Where(s, p), f)
    decreases |s|
  {
    if s != [] {
      WhereInjective(s[1..], p, f);
      var rest := Where(s[1..], p);
      if p(s[0]) {
        var r := [s[0]] + rest;
        forall j | 0 < j < |r| ensures f(r[0]) != f(r[j]) {
          assert r[j] in s[1..];
          var m :| 0 <= m < |s[1..]| && s[1..][m] == r[j];
          assert s[m + 1] == r[j];
        }
      }
    }
  }
}
