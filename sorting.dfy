/** Python's `sorted` on strings (and on records by a string key), and the
    listing of a set, whose order Python leaves unspecified. Strings compare
    code point by code point, a proper prefix first. */
module Sorting {

  /** `a <= b` for Python strings. */
  predicate LexLe(a: string, b: string)
    decreases |a|
  {
    if a == [] then true
    else if b == [] then false
    else if a[0] != b[0] then a[0] < b[0]
    else LexLe(a[1..], b[1..])
  }

  lemma {:induction false} LexLeTotal(a: string, b: string)
    ensures LexLe(a, b) || LexLe(b, a)
    decreases |a|
  {
    if a != [] && b != [] && a[0] == b[0] {
      LexLeTotal(a[1..], b[1..]);
    }
  }

  lemma {:induction false} LexLeAntisymmetric(a: string, b: string)
    requires LexLe(a, b) && LexLe(b, a)
    ensures a == b
    decreases |a|
  {
    if a != [] && b != [] {
      LexLeAntisymmetric(a[1..], b[1..]);
      assert a == [a[0]] + a[1..] && b == [b[0]] + b[1..];
    }
  }

  lemma {:induction false} LexLeTransitive(a: string, b: string, c: string)
    requires LexLe(a, b) && LexLe(b, c)
    ensures LexLe(a, c)
    decreases |a|
  {
    if a != [] && b != [] && c != [] && a[0] == b[0] == c[0] {
      LexLeTransitive(a[1..], b[1..], c[1..]);
    }
  }

  /** The key that sorts strings by themselves. */
  function Id(s: string): string { s }

  predicate SortedBy<T>(xs: seq<T>, key: T -> string) {
    forall i, j | 0 <= i < j < |xs| :: LexLe(key(xs[i]), key(xs[j]))
  }

  predicate Distinct<T(==)>(xs: seq<T>) {
    forall i, j | 0 <= i < j < |xs| :: xs[i] != xs[j]
  }

  /** Inserts `x` before the first element whose key is not below its own. */
  function Insert<T>(x: T, xs: seq<T>, key: T -> string): (r: seq<T>)
    requires SortedBy(xs, key)
    ensures SortedBy(r, key)
    ensures multiset(r) == multiset(xs) + multiset{x}
  {
    if xs == [] then [x]
    else if LexLe(key(x), key(xs[0])) then
      forall j | 0 < j < |xs| ensures LexLe(key(x), key(xs[j])) {
        LexLeTransitive(key(x), key(xs[0]), key(xs[j]));
      }
      [x] + xs
    else
      var tail := Insert(x, xs[1..], key);
      LexLeTotal(key(x), key(xs[0]));
      assert xs == [xs[0]] + xs[1..];
      forall y | y in tail ensures LexLe(key(xs[0]), key(y)) {
        assert y in multiset(tail);
      }
      [xs[0]] + tail
  }

  /** `sorted(xs, key=key)` */
  function SortBy<T>(xs: seq<T>, key: T -> string): (r: seq<T>)
    ensures SortedBy(r, key)
    ensures multiset(r) == multiset(xs)
  {
    if xs == [] then []
    else
      assert xs == [xs[0]] + xs[1..];
      Insert(xs[0], SortBy(xs[1..], key), key)
  }

  /** A sorted permutation of distinct elements is distinct. */
  lemma SortPreservesDistinct<T>(xs: seq<T>, key: T -> string)
    requires Distinct(xs)
    ensures Distinct(SortBy(xs, key))
  {
    forall x ensures multiset(SortBy(xs, key))[x] <= 1 {
      DistinctCountsOne(xs, x);
    }
    CountsOneDistinct(SortBy(xs, key));
  }

  lemma {:induction false} CountsOneDistinct<T>(xs: seq<T>)
    requires forall x :: multiset(xs)[x] <= 1
    ensures Distinct(xs)
  {
    if xs != [] {
      assert xs == [xs[0]] + xs[1..];
      assert multiset(xs) == multiset{xs[0]} + multiset(xs[1..]);
      forall x ensures multiset(xs[1..])[x] <= 1 {
        assert multiset(xs)[x] <= 1;
      }
      CountsOneDistinct(xs[1..]);
      assert multiset(xs)[xs[0]] <= 1;
      assert xs[0] !in multiset(xs[1..]);
    }
  }

  lemma {:induction false} DistinctCountsOne<T>(xs: seq<T>, x: T)
    requires Distinct(xs)
    ensures multiset(xs)[x] <= 1
  {
    if xs != [] {
      assert xs == [xs[0]] + xs[1..];
      DistinctCountsOne(xs[1..], x);
      if xs[0] == x {
        assert x !in xs[1..];
      }
    }
  }

  /** Lists a set in some order: `list(s)`, whose order Python leaves open. */
  method Enumerate<T(==)>(s: set<T>) returns (xs: seq<T>)
    ensures forall x :: x in xs <==> x in s
    ensures Distinct(xs)
    ensures |xs| == |s|
  {
    xs := [];
    var rest := s;
    while rest != {}
      invariant rest <= s
      invariant forall x :: x in xs <==> x in s && x !in rest
      invariant Distinct(xs)
      invariant |xs| + |rest| == |s|
      decreases |rest|
    {
      var x :| x in rest;
      xs := xs + [x];
      rest := rest - {x};
    }
  }
}
