// Definitions shared by the models: optional values and sums over finite collections.
module Prelude {

  datatype Option<+T> = None | Some(value: T)

  datatype Result<+T, +E> = Ok(value: T) | Err(error: E)

  type byte = x: int | 0 <= x < 0x100

  // ----- sums over a finite set -----

  ghost function PickOne<T>(s: set<T>): (x: T)
    requires s != {}
    ensures x in s
  {
    var x :| x in s;
    x
  }

  /** Sum of `f` over the keys in `s`. */
  ghost function SumOver<T(!new)>(s: set<T>, f: T -> nat): nat
  {
    if s == {} then 0 else var x := PickOne(s); f(x) + SumOver(s - {x}, f)
  }

  lemma {:induction false} SumOverRemove<T(!new)>(s: set<T>, x: T, f: T -> nat)
    requires x in s
    ensures SumOver(s, f) == f(x) + SumOver(s - {x}, f)
    decreases s
  {
    var y := PickOne(s);
    if y != x {
      SumOverRemove(s - {y}, x, f);
      SumOverRemove(s - {x}, y, f);
      assert s - {y} - {x} == s - {x} - {y};
    }
  }

  lemma {:induction false} SumOverMonotone<T(!new)>(s: set<T>, t: set<T>, f: T -> nat, g: T -> nat)
    requires s <= t
    requires forall x :: x in s ==> f(x) <= g(x)
    ensures SumOver(s, f) <= SumOver(t, g)
    decreases t
  {
    if t != {} {
      var x := PickOne(t);
      if x in s {
        SumOverRemove(s, x, f);
      } else {
        assert s <= t - {x};
      }
      SumOverMonotone(s - {x}, t - {x}, f, g);
      assert x !in s ==> s - {x} == s;
    }
  }

  /** Sum of `f` over the elements of `s`, for real values. */
  ghost function SumReal<T(!new)>(s: set<T>, f: T -> real): real
  {
    if s == {} then 0.0 else var x := PickOne(s); f(x) + SumReal(s - {x}, f)
  }

  lemma {:induction false} SumRealRemove<T(!new)>(s: set<T>, x: T, f: T -> real)
    requires x in s
    ensures SumReal(s, f) == f(x) + SumReal(s - {x}, f)
    decreases s
  {
    var y := PickOne(s);
    if y != x {
      SumRealRemove(s - {y}, x, f);
      SumRealRemove(s - {x}, y, f);
      assert s - {y} - {x} == s - {x} - {y};
    }
  }

  lemma {:induction false} SumRealAdd<T(!new)>(s: set<T>, f: T -> real, g: T -> real, h: T -> real)
    requires forall x :: x in s ==> h(x) == f(x) + g(x)
    ensures SumReal(s, h) == SumReal(s, f) + SumReal(s, g)
    decreases s
  {
    if s != {} { SumRealAdd(s - {PickOne(s)}, f, g, h); }
  }

  lemma {:induction false} SumRealZero<T(!new)>(s: set<T>, f: T -> real)
    requires forall x :: x in s ==> f(x) == 0.0
    ensures SumReal(s, f) == 0.0
    decreases s
  {
    if s != {} { SumRealZero(s - {PickOne(s)}, f); }
  }

  lemma {:induction false} SumRealNonNegative<T(!new)>(s: set<T>, f: T -> real)
    requires forall x :: x in s ==> f(x) >= 0.0
    ensures SumReal(s, f) >= 0.0
    decreases s
  {
    if s != {} { SumRealNonNegative(s - {PickOne(s)}, f); }
  }

  lemma {:induction false} SumRealSplit<T(!new)>(a: set<T>, b: set<T>, f: T -> real)
    ensures SumReal(a, f) == SumReal(a * b, f) + SumReal(a - b, f)
    decreases a
  {
    if a == {} {
      assert a * b == {} && a - b == {};
    } else {
      var x := PickOne(a);
      SumRealSplit(a - {x}, b, f);
      if x in b {
        SumRealRemove(a * b, x, f);
        assert a * b - {x} == (a - {x}) * b && (a - {x}) - b == a - b;
      } else {
        SumRealRemove(a - b, x, f);
        assert a - b - {x} == (a - {x}) - b && (a - {x}) * b == a * b;
      }
    }
  }

  lemma {:induction false} SubsetSize<T>(a: set<T>, b: set<T>)
    requires a <= b
    ensures |a| <= |b| && (|a| == |b| ==> a == b)
  {
    assert b == a + (b - a);
  }

  ghost function NumbersBelow(n: nat): (r: set<nat>)
    ensures forall i: nat :: i in r <==> i < n
    ensures |r| == n
  {
    if n == 0 then {} else NumbersBelow(n - 1) + {n - 1}
  }

  /** Multiplication under a name of its own, which keeps products apart in the proofs. */
  function Times(k: real, a: real): real { k * a }

  /** A quotient times its divisor. */
  lemma {:induction false} QuotientBack(q: real, a: real, b: real)
    requires b != 0.0 && q == a / b
    ensures Times(q, b) == a
  {
  }

  // ----- sequences without repetition -----

  ghost predicate NoRepeats<T>(s: seq<T>) {
    forall i, j :: 0 <= i < j < |s| ==> s[i] != s[j]
  }

  function Elements<T(==)>(s: seq<T>): set<T> { set x | x in s }

  lemma {:induction false} ElementsSize<T>(s: seq<T>)
    requires NoRepeats(s)
    ensures |Elements(s)| == |s|
  {
    if s != [] {
      var n := |s| - 1;
      ElementsSize(s[..n]);
      assert s == s[..n] + [s[n]];
      assert Elements(s) == Elements(s[..n]) + {s[n]};
    }
  }

  lemma {:induction false} SameElements<T>(s: seq<T>, t: seq<T>)
    requires multiset(s) == multiset(t)
    ensures forall x :: x in s <==> x in t
  {
    assert forall x :: x in s <==> x in multiset(s);
    assert forall x :: x in t <==> x in multiset(t);
  }

  lemma {:induction false} SetWithOneMore<T>(elements: set<T>, x: T)
    requires x !in elements
    ensures multiset(elements + {x}) == multiset(elements) + multiset{x}
  {
  }

  lemma {:induction false} OnceInMultiset<T>(s: seq<T>)
    requires NoRepeats(s)
    ensures forall x :: multiset(s)[x] <= 1
    ensures multiset(s) == multiset(Elements(s))
  {
    if s != [] {
      var front, x := s[..|s| - 1], s[|s| - 1];
      OnceInMultiset(front);
      assert s == front + [x];
      SetWithOneMore(Elements(front), x);
      assert Elements(s) == Elements(front) + {x};
    }
  }

  lemma {:induction false} TwiceInMultiset<T>(s: seq<T>, i: nat, j: nat)
    requires i < j < |s| && s[i] == s[j]
    ensures multiset(s)[s[i]] >= 2
  {
    assert s == s[..i] + [s[i]] + s[i + 1..j] + [s[j]] + s[j + 1..];
  }

  lemma {:induction false} FromSetOnce<T>(s: seq<T>, elements: set<T>)
    requires multiset(s) == multiset(elements)
    ensures NoRepeats(s) && Elements(s) == elements
  {
    forall i, j | 0 <= i < j < |s|
      ensures s[i] != s[j]
    {
      if s[i] == s[j] { TwiceInMultiset(s, i, j); }
    }
    forall x
      ensures x in s <==> x in elements
    {
      assert x in s <==> x in multiset(s);
    }
  }

  lemma {:induction false} PermutationOnce<T>(r: seq<T>, s: seq<T>)
    requires NoRepeats(s) && multiset(r) == multiset(s)
    ensures NoRepeats(r) && forall x :: x in r <==> x in s
  {
    OnceInMultiset(s);
    SameElements(r, s);
    FromSetOnce(r, Elements(s));
  }

  /** Taking one place out of a sequence. */
  lemma {:induction false} RemovedMultiset<T>(t: seq<T>, i: nat)
    requires i < |t|
    ensures multiset(t) == multiset(t[..i] + t[i + 1..]) + multiset{t[i]}
    ensures multiset(t[..i] + t[i + 1..]) == multiset(t) - multiset{t[i]}
  {
    assert t == t[..i] + [t[i]] + t[i + 1..];
  }

  lemma {:induction false} RemovedTail<T>(s: seq<T>, i: nat)
    requires 0 < i < |s|
    ensures var t := s[..i] + s[i + 1..]; t[0] == s[0] && t[1..] == s[1..][..i - 1] + s[1..][i..]
  {
  }

  lemma {:induction false} SameMultiset<T>(s: seq<T>, t: seq<T>)
    requires NoRepeats(s) && NoRepeats(t) && forall x :: x in s <==> x in t
    ensures multiset(s) == multiset(t)
  {
    OnceInMultiset(s);
    OnceInMultiset(t);
    assert Elements(s) == Elements(t);
  }
}
