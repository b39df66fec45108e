/** Python's `sorted` and string comparison, as every component of the planner uses them. */
module Ordering {

  /** A reflexive, total and transitive comparison: what a sort key induces. */
  ghost predicate TotalPreorder<T(!new)>(leq: (T, T) -> bool) {
    && (forall x, y :: leq(x, y) || leq(y, x))
    && (forall x, y, z :: leq(x, y) && leq(y, z) ==> leq(x, z))
  }

  ghost predicate SortedBy<T>(xs: seq<T>, leq: (T, T) -> bool) {
    forall i, j | 0 <= i < j < |xs| :: leq(xs[i], xs[j])
  }

  /** Puts `x` in front of the first element it does not exceed. */
  function Insert<T>(x: T, xs: seq<T>, leq: (T, T) -> bool): seq<T> {
    if xs == [] || leq(x, xs[0]) then [x] + xs else [xs[0]] + Insert(x, xs[1..], leq)
  }

  /** A stable sort: elements that compare equal keep their order, as in Python. */
  function SortBy<T>(xs: seq<T>, leq: (T, T) -> bool): seq<T> {
    if xs == [] then [] else Insert(xs[0], SortBy(xs[1..], leq), leq)
  }

  lemma {:induction false} InsertKeeps<T>(x: T, xs: seq<T>, leq: (T, T) -> bool)
    ensures multiset(Insert(x, xs, leq)) == multiset{x} + multiset(xs)
  {
    if xs == [] || leq(x, xs[0]) {
    } else {
      InsertKeeps(x, xs[1..], leq);
      assert xs == [xs[0]] + xs[1..];
    }
  }

  lemma {:induction false} SortByPermutes<T>(xs: seq<T>, leq: (T, T) -> bool)
    ensures multiset(SortBy(xs, leq)) == multiset(xs)
    ensures |SortBy(xs, leq)| == |xs|
    ensures forall x :: x in SortBy(xs, leq) <==> x in xs
  {
    if xs == [] {
    } else {
      SortByPermutes(xs[1..], leq);
      InsertKeeps(xs[0], SortBy(xs[1..], leq), leq);
      assert xs == [xs[0]] + xs[1..];
    }
    assert |multiset(SortBy(xs, leq))| == |multiset(xs)|;
    forall x ensures x in SortBy(xs, leq) <==> x in xs {
      assert x in multiset(SortBy(xs, leq)) <==> x in multiset(xs);
    }
  }

  lemma {:induction false} InsertSorts<T(!new)>(x: T, xs: seq<T>, leq: (T, T) -> bool)
    requires TotalPreorder(leq) && SortedBy(xs, leq)
    ensures SortedBy(Insert(x, xs, leq), leq)
  {
    if xs == [] || leq(x, xs[0]) {
    } else {
      InsertSorts(x, xs[1..], leq);
      InsertKeeps(x, xs[1..], leq);
      var rest := Insert(x, xs[1..], leq);
      forall k | 0 <= k < |rest| ensures leq(xs[0], rest[k]) {
        assert rest[k] in multiset(rest);
        if rest[k] != x {
          assert rest[k] in multiset(xs[1..]);
        }
      }
    }
  }

  lemma {:induction false} SortBySorts<T(!new)>(xs: seq<T>, leq: (T, T) -> bool)
    requires TotalPreorder(leq)
    ensures SortedBy(SortBy(xs, leq), leq)
  {
    if xs == [] {
    } else {
      SortBySorts(xs[1..], leq);
      InsertSorts(xs[0], SortBy(xs[1..], leq), leq);
    }
  }

  lemma RepeatCounts<T>(xs: seq<T>, i: nat, j: nat)
    requires i < j < |xs| && xs[i] == xs[j]
    ensures multiset(xs)[xs[i]] >= 2
  {
    assert xs == xs[..i] + [xs[i]] + xs[i + 1..j] + [xs[j]] + xs[j + 1..];
  }

  /** Sorting neither invents nor loses repetitions. */
  lemma DistinctAfterSort<T>(xs: seq<T>, leq: (T, T) -> bool)
    requires Distinct(xs)
    ensures Distinct(SortBy(xs, leq))
  {
    SortByPermutes(xs, leq);
    var ys := SortBy(xs, leq);
    DistinctCounts(xs);
    forall i, j | 0 <= i < j < |ys| && ys[i] == ys[j] ensures false {
      RepeatCounts(ys, i, j);
    }
  }

  predicate Distinct<T(==)>(xs: seq<T>) {
    forall i, j | 0 <= i < j < |xs| :: xs[i] != xs[j]
  }

  lemma {:induction false} DistinctCounts<T>(xs: seq<T>)
    requires Distinct(xs)
    ensures forall x :: multiset(xs)[x] <= 1
  {
    if xs != [] {
      DistinctCounts(xs[1..]);
      assert xs == [xs[0]] + xs[1..];
      assert xs[0] !in multiset(xs[1..]);
    }
  }

  function SetOf<T>(xs: seq<T>): set<T> {
    set x | x in xs
  }

  /** `len(set(xs)) == len(xs)` is the source's test for repetitions. */
  lemma {:induction false} DistinctIffCount<T>(xs: seq<T>)
    ensures |SetOf(xs)| <= |xs|
    ensures |SetOf(xs)| == |xs| <==> Distinct(xs)
  {
    if xs != [] {
      var front, last := xs[..|xs| - 1], xs[|xs| - 1];
      DistinctIffCount(front);
      assert xs == front + [last];
      assert SetOf(xs) == SetOf(front) + {last};
      if last in front {
        var i :| 0 <= i < |front| && front[i] == last;
        assert xs[i] == xs[|front|];
        assert SetOf(xs) == SetOf(front);
      }
    }
  }

  /** Counting the members of `all` met so far, one element at a time. */
  lemma CountOne<T>(all: set<T>, done: set<T>, x: T)
    requires x !in done
    ensures |all * (done + {x})| == |all * done| + if x in all then 1 else 0
  {
    if x in all {
      assert all * (done + {x}) == all * done + {x};
    } else {
      assert all * (done + {x}) == all * done;
    }
  }

  /** Lexicographic order on code points, Python's `<=` on strings. */
  predicate StrLeq(a: string, b: string) {
    if a == [] then true
    else if b == [] then false
    else if a[0] == b[0] then StrLeq(a[1..], b[1..])
    else a[0] < b[0]
  }

  /** Lexicographic: a prefix, or the smaller character at the first difference. */
  lemma {:induction false} StrLeqMeans(a: string, b: string)
    ensures StrLeq(a, b) <==> a <= b || exists k :: FirstSmaller(a, b, k)
  {
    if a != [] && b != [] && a[0] == b[0] {
      var x, y := a[1..], b[1..];
      StrLeqMeans(x, y);
      assert a == [a[0]] + x && b == [b[0]] + y;
      if k :| FirstSmaller(x, y, k) {
        assert a[..k + 1] == [a[0]] + x[..k] && b[..k + 1] == [b[0]] + y[..k];
        assert FirstSmaller(a, b, k + 1);
      }
      if k :| FirstSmaller(a, b, k) {
        assert k > 0 && x[..k - 1] == a[..k][1..] && y[..k - 1] == b[..k][1..];
        assert FirstSmaller(x, y, k - 1);
      }
    } else if a != [] && b != [] {
      assert a[0] < b[0] ==> FirstSmaller(a, b, 0);
      forall k | 0 < k < |a| && k < |b| ensures a[..k] != b[..k] {
        assert a[..k][0] != b[..k][0];
      }
    }
  }

  predicate FirstSmaller(a: string, b: string, k: int) {
    0 <= k < |a| && k < |b| && a[..k] == b[..k] && a[k] < b[k]
  }

  lemma {:induction false} StrLeqTotal(a: string, b: string)
    ensures StrLeq(a, b) || StrLeq(b, a)
    ensures StrLeq(a, b) && StrLeq(b, a) ==> a == b
  {
    if a != [] && b != [] && a[0] == b[0] {
      StrLeqTotal(a[1..], b[1..]);
      assert a == [a[0]] + a[1..] && b == [b[0]] + b[1..];
    }
  }

  lemma {:induction false} StrLeqTransitive(a: string, b: string, c: string)
    requires StrLeq(a, b) && StrLeq(b, c)
    ensures StrLeq(a, c)
  {
    if a != [] && b != [] && c != [] && a[0] == b[0] == c[0] {
      StrLeqTransitive(a[1..], b[1..], c[1..]);
    }
  }

  predicate IsLeast(s: set<string>, m: string) {
    m in s && forall y | y in s :: StrLeq(m, y)
  }

  lemma {:induction false} LeastExists(s: set<string>)
    requires s != {}
    ensures exists m :: IsLeast(s, m)
    decreases |s|
  {
    var x :| x in s;
    var rest := s - {x};
    StrLeqTotal(x, x);
    if rest == {} {
      assert s == {x} && IsLeast(s, x);
    } else {
      LeastExists(rest);
      var m :| IsLeast(rest, m);
      LeastExtends(rest, m, x);
      assert s == rest + {x};
    }
  }

  lemma LeastExtends(rest: set<string>, m: string, x: string)
    requires IsLeast(rest, m)
    ensures exists k :: IsLeast(rest + {x}, k)
  {
    StrLeqTotal(x, m);
    StrLeqTotal(x, x);
    if StrLeq(x, m) {
      forall y | y in rest ensures StrLeq(x, y) {
        StrLeqTransitive(x, m, y);
      }
      assert IsLeast(rest + {x}, x);
    } else {
      assert IsLeast(rest + {x}, m);
    }
  }

  function Least(s: set<string>): (m: string)
    requires s != {}
    ensures IsLeast(s, m)
  {
    LeastExists(s);
    assert forall a, b | IsLeast(s, a) && IsLeast(s, b) :: a == b by {
      forall a, b | IsLeast(s, a) && IsLeast(s, b) ensures a == b {
        StrLeqTotal(a, b);
      }
    }
    var m :| IsLeast(s, m);
    m
  }

  /** `sorted(s)` for a set of strings. */
  function SortedSet(s: set<string>): (r: seq<string>)
    ensures |r| == |s|
    ensures forall x :: x in r <==> x in s
  {
    if s == {} then [] else
    var m := Least(s);
    [m] + SortedSet(s - {m})
  }

  lemma {:induction false} SortedSetSorts(s: set<string>)
    ensures Distinct(SortedSet(s)) && SortedBy(SortedSet(s), StrLeq)
  {
    if s != {} {
      var m := Least(s);
      SortedSetSorts(s - {m});
      PrependLeast(m, SortedSet(s - {m}));
    }
  }

  lemma PrependLeast(m: string, rest: seq<string>)
    requires Distinct(rest) && SortedBy(rest, StrLeq)
    requires forall x | x in rest :: x != m && StrLeq(m, x)
    ensures Distinct([m] + rest) && SortedBy([m] + rest, StrLeq)
  {
    var all := [m] + rest;
    forall i, j | 0 <= i < j < |all| ensures all[i] != all[j] && StrLeq(all[i], all[j]) {
      assert all[j] == rest[j - 1] && rest[j - 1] in rest;
    }
  }

  /** `tuple(dict.fromkeys(xs))`: first occurrences only. */
  function Dedup<T(==, !new)>(xs: seq<T>): (r: seq<T>)
    ensures forall x :: x in r <==> x in xs
    ensures Distinct(r)
  {
    if xs == [] then [] else
    var front := Dedup(xs[..|xs| - 1]);
    var last := xs[|xs| - 1];
    assert xs == xs[..|xs| - 1] + [last];
    if last in front then front else front + [last]
  }
}

/** Order-free finite sums, the meaning of Python's `sum` over a dict or a list. */
module Sums {
  ghost function SumOver<K(!new)>(s: set<K>, f: K -> int): int {
    if s == {} then 0 else
    var k :| k in s;
    f(k) + SumOver(s - {k}, f)
  }

  /** The sum does not depend on which element is taken out first. */
  lemma {:induction false} SumRemove<K(!new)>(s: set<K>, f: K -> int, x: K)
    requires x in s
    ensures SumOver(s, f) == f(x) + SumOver(s - {x}, f)
    decreases |s|
  {
    var k :| k in s && SumOver(s, f) == f(k) + SumOver(s - {k}, f);
    if k != x {
      SumRemove(s - {k}, f, x);
      SumRemove(s - {x}, f, k);
      assert s - {k} - {x} == s - {x} - {k};
    }
  }

  lemma SumInsert<K(!new)>(s: set<K>, f: K -> int, x: K)
    requires x !in s
    ensures SumOver(s + {x}, f) == f(x) + SumOver(s, f)
  {
    SumRemove(s + {x}, f, x);
    assert s + {x} - {x} == s;
  }

  lemma {:induction false} SumCongruent<K(!new)>(s: set<K>, f: K -> int, g: K -> int)
    requires forall k | k in s :: f(k) == g(k)
    ensures SumOver(s, f) == SumOver(s, g)
    decreases |s|
  {
    if s != {} {
      var k :| k in s;
      SumRemove(s, f, k);
      SumRemove(s, g, k);
      SumCongruent(s - {k}, f, g);
    }
  }

  lemma {:induction false} SumCompare<K(!new)>(s: set<K>, f: K -> int, g: K -> int)
    requires forall k | k in s :: f(k) <= g(k)
    ensures SumOver(s, f) <= SumOver(s, g)
    decreases |s|
  {
    if s != {} {
      var k :| k in s;
      SumRemove(s, f, k);
      SumRemove(s, g, k);
      SumCompare(s - {k}, f, g);
    }
  }

  lemma {:induction false} SumConstant<K(!new)>(s: set<K>, c: int)
    ensures SumOver(s, (_: K) => c) == c * |s|
    decreases |s|
  {
    var f := (_: K) => c;
    if s != {} {
      var k :| k in s;
      SumRemove(s, f, k);
      SumConstant(s - {k}, c);
      Successor(c, |s - {k}|);
    }
  }

  lemma Successor(c: int, n: nat)
    ensures c * (n + 1) == c * n + c
  {
  }

  lemma {:induction false} SumMonotone<K(!new)>(small: set<K>, large: set<K>, f: K -> int)
    requires small <= large
    requires forall k | k in large :: f(k) >= 0
    ensures SumOver(small, f) <= SumOver(large, f)
    decreases |large|
  {
    if large - small != {} {
      var k :| k in large - small;
      SumRemove(large, f, k);
      SumMonotone(small, large - {k}, f);
    } else {
      assert small == large;
    }
  }

  lemma {:induction false} SumZero<K(!new)>(s: set<K>, f: K -> int)
    requires forall k | k in s :: f(k) == 0
    ensures SumOver(s, f) == 0
    decreases |s|
  {
    if s != {} {
      var k :| k in s;
      SumRemove(s, f, k);
      SumZero(s - {k}, f);
    }
  }
}
