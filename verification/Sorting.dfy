/** Python's `sorted`, by an arbitrary strict total order. */
module Sorting {

  ghost predicate StrictOrder<T(!new)>(less: (T, T) -> bool) {
    && (forall x :: !less(x, x))
    && (forall x, y, z :: less(x, y) && less(y, z) ==> less(x, z))
    && (forall x, y :: x == y || less(x, y) || less(y, x))
  }

  predicate StrictlySorted<T>(less: (T, T) -> bool, s: seq<T>) {
    forall i, j :: 0 <= i < j < |s| ==> less(s[i], s[j])
  }

  function Insert<T(==)>(less: (T, T) -> bool, x: T, s: seq<T>): seq<T> {
    if s == [] then [x]
    else if x == s[0] then s
    else if less(x, s[0]) then [x] + s
    else [s[0]] + Insert(less, x, s[1..])
  }

  /** `sorted(set(xs))`. */
  function SortUnique<T(==)>(less: (T, T) -> bool, xs: seq<T>): seq<T> {
    if xs == [] then [] else Insert(less, xs[0], SortUnique(less, xs[1..]))
  }

  lemma {:induction false} InsertElements<T(!new)>(less: (T, T) -> bool, x: T, s: seq<T>)
    ensures forall y :: y in Insert(less, x, s) <==> y == x || y in s
  {
    if s != [] && x != s[0] && !less(x, s[0]) { InsertElements(less, x, s[1..]); }
  }

  /** Something below every element of a strictly sorted list may go in front of it. */
  lemma SortedInFront<T(!new)>(less: (T, T) -> bool, x: T, s: seq<T>)
    requires StrictlySorted(less, s) && forall y :: y in s ==> less(x, y)
    ensures StrictlySorted(less, [x] + s)
  {
  }

  lemma BelowAll<T(!new)>(less: (T, T) -> bool, x: T, s: seq<T>)
    requires StrictOrder(less) && StrictlySorted(less, s) && s != [] && less(x, s[0])
    ensures forall y :: y in s ==> less(x, y)
  {
    forall y | y in s ensures less(x, y) {
      var k :| 0 <= k < |s| && s[k] == y;
      if k > 0 { assert less(s[0], s[k]); }
    }
  }

  lemma {:induction false} InsertKeeps<T(!new)>(less: (T, T) -> bool, x: T, s: seq<T>)
    requires StrictOrder(less) && StrictlySorted(less, s)
    ensures StrictlySorted(less, Insert(less, x, s))
    ensures forall y :: y in Insert(less, x, s) <==> y == x || y in s
  {
    InsertElements(less, x, s);
    if s == [] || x == s[0] {
    } else if less(x, s[0]) {
      BelowAll(less, x, s);
      SortedInFront(less, x, s);
    } else {
      InsertKeeps(less, x, s[1..]);
      assert forall y :: y in s[1..] ==> less(s[0], y);
      SortedInFront(less, s[0], Insert(less, x, s[1..]));
    }
  }

  lemma {:induction false} SortUniqueSorts<T(!new)>(less: (T, T) -> bool, xs: seq<T>)
    requires StrictOrder(less)
    ensures StrictlySorted(less, SortUnique(less, xs))
    ensures forall y :: y in SortUnique(less, xs) <==> y in xs
  {
    if xs != [] {
      SortUniqueSorts(less, xs[1..]);
      InsertKeeps(less, xs[0], SortUnique(less, xs[1..]));
      assert xs == [xs[0]] + xs[1..];
    }
  }

  /** A strictly sorted list is determined by its elements. */
  lemma {:induction false} SortedIsCanonical<T(!new)>(less: (T, T) -> bool, s: seq<T>, t: seq<T>)
    requires StrictOrder(less) && StrictlySorted(less, s) && StrictlySorted(less, t)
    requires forall y :: y in s <==> y in t
    ensures s == t
  {
    if s == [] {
      assert forall i :: 0 <= i < |t| ==> t[i] in t;
    } else {
      assert s[0] in s;
      assert t != [];
      assert t[0] in t;
      assert s[0] == t[0];
      forall y ensures y in s[1..] <==> y in t[1..] {
        assert s == [s[0]] + s[1..] && t == [t[0]] + t[1..];
        if y in s[1..] { assert less(s[0], y); assert y in s && y in t; }
        if y in t[1..] { assert less(t[0], y); assert y in t && y in s; }
      }
      SortedIsCanonical(less, s[1..], t[1..]);
      assert s == [s[0]] + s[1..] && t == [t[0]] + t[1..];
    }
  }

  // ---- stable sorting by a key, duplicates kept ----

  ghost predicate WeakOrder<T(!new)>(less: (T, T) -> bool) {
    && (forall x, y :: less(x, y) ==> !less(y, x))
    && (forall x, y, z :: less(x, z) ==> less(x, y) || less(y, z))
  }

  ghost predicate Sorted<T>(less: (T, T) -> bool, s: seq<T>) {
    forall i, j :: 0 <= i < j < |s| ==> !less(s[j], s[i])
  }

  function InsertLast<T>(less: (T, T) -> bool, x: T, s: seq<T>): seq<T> {
    if s == [] || less(x, s[0]) then [x] + s else [s[0]] + InsertLast(less, x, s[1..])
  }

  /** `sorted(xs, key=...)`: equal keys keep their order. */
  function StableSort<T>(less: (T, T) -> bool, xs: seq<T>): seq<T> {
    if xs == [] then [] else InsertLast(less, xs[|xs| - 1], StableSort(less, xs[..|xs| - 1]))
  }

  lemma {:induction false} InsertLastElements<T>(less: (T, T) -> bool, x: T, s: seq<T>)
    ensures multiset(InsertLast(less, x, s)) == multiset(s) + multiset{x}
  {
    if s != [] && !less(x, s[0]) {
      InsertLastElements(less, x, s[1..]);
      assert s == [s[0]] + s[1..];
    }
  }

  lemma {:induction false} InsertLastKeeps<T(!new)>(less: (T, T) -> bool, x: T, s: seq<T>)
    requires WeakOrder(less) && Sorted(less, s)
    ensures Sorted(less, InsertLast(less, x, s))
  {
    if s == [] {
    } else if less(x, s[0]) {
      forall y | y in s ensures !less(y, x) {
        var k :| 0 <= k < |s| && s[k] == y;
        if k > 0 { assert !less(s[k], s[0]); }
      }
    } else {
      var tail := s[1..];
      InsertLastKeeps(less, x, tail);
      InsertLastElements(less, x, tail);
      var rest := InsertLast(less, x, tail);
      forall y | y in rest ensures !less(y, s[0]) {
        assert y in multiset(rest);
        if y != x {
          assert y in tail;
          var k :| 0 <= k < |tail| && tail[k] == y;
          assert !less(s[k + 1], s[0]);
        }
      }
      assert forall i :: 0 <= i < |rest| ==> rest[i] in rest;
    }
  }

  lemma {:induction false} StableSortSorts<T(!new)>(less: (T, T) -> bool, xs: seq<T>)
    requires WeakOrder(less)
    ensures Sorted(less, StableSort(less, xs))
    ensures multiset(StableSort(less, xs)) == multiset(xs)
    ensures |StableSort(less, xs)| == |xs|
  {
    if xs != [] {
      var n := |xs| - 1;
      StableSortSorts(less, xs[..n]);
      InsertLastKeeps(less, xs[n], StableSort(less, xs[..n]));
      InsertLastElements(less, xs[n], StableSort(less, xs[..n]));
      assert xs == xs[..n] + [xs[n]];
    }
    assert |multiset(StableSort(less, xs))| == |StableSort(less, xs)|;
    assert |multiset(xs)| == |xs|;
  }

  // ---- the orders the source sorts by ----

  /** Python's string order: code points, left to right. */
  predicate StringLess(a: string, b: string) {
    if b == "" then false
    else if a == "" then true
    else if a[0] != b[0] then a[0] < b[0]
    else StringLess(a[1..], b[1..])
  }

  /** The texts agree up to `k`, where the first has the smaller character. */
  predicate SmallerAt(a: string, b: string, k: nat) {
    k < |a| && k < |b| && a[..k] == b[..k] && a[k] < b[k]
  }

  /** A proper prefix, or smaller where the texts first differ. */
  ghost predicate ComesFirst(a: string, b: string) { a < b || exists k: nat :: SmallerAt(a, b, k) }

  lemma {:induction false} StringLessIff(a: string, b: string)
    ensures StringLess(a, b) <==> ComesFirst(a, b)
  {
    if a == "" || b == "" {
      assert forall k: nat :: !SmallerAt(a, b, k);
    } else if a[0] != b[0] {
      assert forall k: nat :: SmallerAt(a, b, k) <==> k == 0 && a[0] < b[0];
      if a[0] < b[0] { assert SmallerAt(a, b, 0); }
    } else {
      StringLessIff(a[1..], b[1..]);
      SameFirst(a, b);
    }
  }

  lemma SameFirst(a: string, b: string)
    requires a != "" && b != "" && a[0] == b[0]
    ensures a < b <==> a[1..] < b[1..]
    ensures (exists k: nat :: SmallerAt(a, b, k)) <==> exists k: nat :: SmallerAt(a[1..], b[1..], k)
  {
    assert a == [a[0]] + a[1..] && b == [b[0]] + b[1..];
    if k: nat :| SmallerAt(a, b, k) {
      assert a[..k][1..] == a[1..][..k - 1] && b[..k][1..] == b[1..][..k - 1];
      assert SmallerAt(a[1..], b[1..], k - 1);
    }
    if k: nat :| SmallerAt(a[1..], b[1..], k) {
      assert a[..k + 1] == [a[0]] + a[1..][..k] && b[..k + 1] == [b[0]] + b[1..][..k];
      assert SmallerAt(a, b, k + 1);
    }
  }

  lemma {:induction false} StringLessTransitive(a: string, b: string, c: string)
    requires StringLess(a, b) && StringLess(b, c)
    ensures StringLess(a, c)
  {
    if a != "" && a[0] == b[0] && b[0] == c[0] {
      StringLessTransitive(a[1..], b[1..], c[1..]);
    }
  }

  lemma {:induction false} StringLessIrreflexive(a: string)
    ensures !StringLess(a, a)
  {
    if a != "" { StringLessIrreflexive(a[1..]); }
  }

  lemma StringLessAsymmetric(a: string, b: string)
    requires StringLess(a, b)
    ensures !StringLess(b, a)
  {
    if StringLess(b, a) {
      StringLessTransitive(a, b, a);
      StringLessIrreflexive(a);
    }
  }

  lemma {:induction false} StringLessConnected(a: string, b: string)
    ensures a == b || StringLess(a, b) || StringLess(b, a)
  {
    if a != "" && b != "" && a[0] == b[0] {
      StringLessConnected(a[1..], b[1..]);
      assert a == [a[0]] + a[1..] && b == [b[0]] + b[1..];
    }
  }

  lemma StringLessIsStrictOrder()
    ensures StrictOrder(StringLess)
  {
    forall a: string ensures !StringLess(a, a) { StringLessIrreflexive(a); }
    forall a: string, b: string, c: string | StringLess(a, b) && StringLess(b, c)
      ensures StringLess(a, c) { StringLessTransitive(a, b, c); }
    forall a: string, b: string ensures a == b || StringLess(a, b) || StringLess(b, a) {
      StringLessConnected(a, b);
    }
  }

  /** Some element of a set: the iteration order of a Python set is not fixed. */
  method Pick<T>(s: set<T>) returns (x: T)
    requires s != {}
    ensures x in s
  {
    x :| x in s;
  }

  /** The elements of a set, in order. */
  method SortedOf<T(==,!new)>(s: set<T>, less: (T, T) -> bool) returns (q: seq<T>)
    requires StrictOrder(less)
    ensures StrictlySorted(less, q)
    ensures forall y :: y in q <==> y in s
  {
    q := [];
    var rest := s;
    while rest != {}
      invariant rest <= s
      invariant StrictlySorted(less, q)
      invariant forall y :: y in q <==> y in s && y !in rest
      decreases rest
    {
      var x :| x in rest;
      InsertKeeps(less, x, q);
      q := Insert(less, x, q);
      rest := rest - {x};
    }
  }
}
