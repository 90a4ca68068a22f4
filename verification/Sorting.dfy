/** Sorting by a key order, as `sorted` and `sort_by` do, and the order of strings. */
module Sorting {
  import opened Prelude

  /** A strict weak order: what a comparison by key amounts to. */
  ghost predicate WeakOrder<T(!new)>(less: (T, T) -> bool) {
    && (forall a :: !less(a, a))
    && (forall a, b, c :: less(a, b) && less(b, c) ==> less(a, c))
    && (forall a, b, c :: !less(a, b) && !less(b, c) ==> !less(a, c))
  }

  ghost predicate Sorted<T>(less: (T, T) -> bool, s: seq<T>) {
    forall i, j :: 0 <= i < j < |s| ==> !less(s[j], s[i])
  }

  function Insert<T(!new)>(less: (T, T) -> bool, x: T, s: seq<T>): (r: seq<T>)
    requires WeakOrder(less) && Sorted(less, s)
    ensures Sorted(less, r) && multiset(r) == multiset{x} + multiset(s) && |r| == |s| + 1
  {
    if s == [] || !less(s[0], x) then
      HeadFirst(less, x, s);
      [x] + s
    else
      var rest := Insert(less, x, s[1..]);
      InsertedLater(less, x, s, rest);
      [s[0]] + rest
  }

  lemma {:induction false} HeadFirst<T(!new)>(less: (T, T) -> bool, x: T, s: seq<T>)
    requires WeakOrder(less) && Sorted(less, s) && (s == [] || !less(s[0], x))
    ensures Sorted(less, [x] + s)
  {
    var r := [x] + s;
    forall i, j | 0 <= i < j < |r|
      ensures !less(r[j], r[i])
    {
      if i == 0 {
        assert r[j] == s[j - 1];
        if j > 1 { assert !less(s[j - 1], s[0]); }
      } else {
        assert r[i] == s[i - 1] && r[j] == s[j - 1];
      }
    }
  }

  lemma {:induction false} InsertedLater<T(!new)>(less: (T, T) -> bool, x: T, s: seq<T>, rest: seq<T>)
    requires WeakOrder(less) && Sorted(less, s) && s != [] && less(s[0], x)
    requires Sorted(less, rest) && multiset(rest) == multiset{x} + multiset(s[1..])
    ensures Sorted(less, [s[0]] + rest) && multiset([s[0]] + rest) == multiset{x} + multiset(s)
  {
    assert s == [s[0]] + s[1..];
    var r := [s[0]] + rest;
    forall j | 0 < j < |r|
      ensures !less(r[j], s[0])
    {
      assert r[j] == rest[j - 1] && rest[j - 1] in multiset(rest);
      if r[j] != x {
        assert r[j] in s[1..];
        var k :| 0 <= k < |s[1..]| && s[1..][k] == r[j];
        assert r[j] == s[k + 1];
      } else {
        assert less(x, s[0]) ==> less(x, x);
      }
    }
    assert forall i, j :: 0 < i < j < |r| ==> r[i] == rest[i - 1] && r[j] == rest[j - 1];
  }

  function Sort<T(!new)>(less: (T, T) -> bool, s: seq<T>): (r: seq<T>)
    requires WeakOrder(less)
    ensures Sorted(less, r) && multiset(r) == multiset(s) && |r| == |s|
  {
    if s == [] then [] else
      assert s == [s[0]] + s[1..];
      Insert(less, s[0], Sort(less, s[1..]))
  }

  ghost predicate NoTies<T>(less: (T, T) -> bool, s: seq<T>) {
    forall x, y :: x in s && y in s && x != y ==> less(x, y) || less(y, x)
  }

  lemma {:induction false} HeadsAgree<T(!new)>(less: (T, T) -> bool, s: seq<T>, t: seq<T>)
    requires WeakOrder(less) && Sorted(less, s) && Sorted(less, t)
    requires multiset(s) == multiset(t) && NoTies(less, s) && s != [] && t != []
    ensures s[0] == t[0]
  {
    assert s[0] in multiset(t) && t[0] in multiset(s);
    var i :| 0 <= i < |t| && t[i] == s[0];
    var j :| 0 <= j < |s| && s[j] == t[0];
  }

  lemma {:induction false} TailMultiset<T>(s: seq<T>)
    requires s != []
    ensures multiset(s[1..]) == multiset(s) - multiset{s[0]}
  {
    assert s == [s[0]] + s[1..];
  }

  lemma {:induction false} TailSorted<T(!new)>(less: (T, T) -> bool, s: seq<T>)
    requires Sorted(less, s) && NoTies(less, s) && s != []
    ensures Sorted(less, s[1..]) && NoTies(less, s[1..])
  {
    assert forall x :: x in s[1..] ==> x in s;
  }

  lemma {:induction false} TailsAgree<T>(s: seq<T>, t: seq<T>)
    requires multiset(s) == multiset(t) && s != [] && t != [] && s[0] == t[0]
    ensures multiset(s[1..]) == multiset(t[1..])
  {
    TailMultiset(s);
    TailMultiset(t);
  }

  lemma {:induction false} SameLength<T>(s: seq<T>, t: seq<T>)
    requires multiset(s) == multiset(t)
    ensures |s| == |t|
  {
    assert |multiset(s)| == |s| && |multiset(t)| == |t|;
  }

  lemma {:induction false} SameTies<T(!new)>(less: (T, T) -> bool, s: seq<T>, t: seq<T>)
    requires multiset(s) == multiset(t) && NoTies(less, s)
    ensures NoTies(less, t)
  {
    SameElements(s, t);
  }

  /** Without ties, only one arrangement of given elements is sorted. */
  lemma {:induction false} SortedUnique<T(!new)>(less: (T, T) -> bool, s: seq<T>, t: seq<T>)
    requires WeakOrder(less) && Sorted(less, s) && Sorted(less, t)
    requires multiset(s) == multiset(t) && NoTies(less, s)
    ensures s == t
    decreases |s|
  {
    SameLength(s, t);
    if s != [] {
      HeadsAgree(less, s, t);
      SameTies(less, s, t);
      TailsAgree(s, t);
      TailSorted(less, s);
      TailSorted(less, t);
      SortedUnique(less, s[1..], t[1..]);
      assert s == [s[0]] + s[1..] && t == [t[0]] + t[1..];
    }
  }

  // ----- strings, character by character -----

  predicate StringLess(a: string, b: string) {
    if b == [] then false
    else if a == [] then true
    else if a[0] != b[0] then a[0] < b[0]
    else StringLess(a[1..], b[1..])
  }

  lemma {:induction false} StringLessIrreflexive(a: string)
    ensures !StringLess(a, a)
  {
    if a != [] { StringLessIrreflexive(a[1..]); }
  }

  lemma {:induction false} StringLessTotal(a: string, b: string)
    ensures a != b ==> StringLess(a, b) || StringLess(b, a)
  {
    if a != [] && b != [] && a[0] == b[0] {
      StringLessTotal(a[1..], b[1..]);
      assert a == [a[0]] + a[1..] && b == [b[0]] + b[1..];
    }
  }

  lemma {:induction false} StringLessTransitive(a: string, b: string, c: string)
    requires StringLess(a, b) && StringLess(b, c)
    ensures StringLess(a, c)
  {
    if a != [] && a[0] == b[0] == c[0] { StringLessTransitive(a[1..], b[1..], c[1..]); }
  }

  lemma {:induction false} StringOrder()
    ensures WeakOrder(StringLess)
    ensures forall a, b :: a == b || StringLess(a, b) || StringLess(b, a)
  {
    forall a ensures !StringLess(a, a) { StringLessIrreflexive(a); }
    forall a, b ensures a == b || StringLess(a, b) || StringLess(b, a) { StringLessTotal(a, b); }
    forall a, b, c | StringLess(a, b) && StringLess(b, c) ensures StringLess(a, c) { StringLessTransitive(a, b, c); }
  }

  /** The strings agree up to `n`, where the first one ends or has the smaller character. */
  ghost predicate SmallerAt(a: string, b: string, n: nat) {
    n <= |a| && n < |b| && (forall i :: 0 <= i < n ==> a[i] == b[i]) && (n < |a| ==> a[n] < b[n])
  }

  lemma {:induction false} StringLessAt(a: string, b: string) returns (n: nat)
    requires StringLess(a, b)
    ensures SmallerAt(a, b, n)
  {
    if a == [] || a[0] != b[0] {
      n := 0;
    } else {
      var k := StringLessAt(a[1..], b[1..]);
      n := k + 1;
      forall i | 0 <= i < n ensures a[i] == b[i] {
        if i > 0 { assert a[1..][i - 1] == b[1..][i - 1]; }
      }
    }
  }

  lemma {:induction false} SmallerAtLess(a: string, b: string, n: nat)
    requires SmallerAt(a, b, n)
    ensures StringLess(a, b)
    decreases n
  {
    if n > 0 { SmallerAtLess(a[1..], b[1..], n - 1); }
  }

  /** Strings are compared at the first place where they differ. */
  lemma {:induction false} StringLessIff(a: string, b: string)
    ensures StringLess(a, b) <==> exists n: nat :: SmallerAt(a, b, n)
  {
    if StringLess(a, b) { var n := StringLessAt(a, b); }
    forall n: nat | SmallerAt(a, b, n) ensures StringLess(a, b) { SmallerAtLess(a, b, n); }
  }
}
