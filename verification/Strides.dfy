/** Euclid's algorithm and when multiples repeat modulo a number. */
module Strides {

  ghost predicate Divides(d: int, n: int) { exists k: int :: d * k == n }

  function Gcd(a: nat, b: nat): (g: nat)
    decreases b
  {
    if b == 0 then a else Gcd(b, a % b)
  }

  lemma {:induction false} DividesSum(d: int, m: int, n: int, p: int)
    requires Divides(d, m) && Divides(d, n)
    ensures Divides(d, m * p + n)
  {
    var k :| d * k == m;
    var l :| d * l == n;
    assert d * (k * p + l) == m * p + n;
  }

  lemma {:induction false} BezoutStep(a: nat, b: nat, x: int, y: int)
    requires b > 0 && Divides(Gcd(b, a % b), b) && Divides(Gcd(b, a % b), a % b)
    requires x * b + y * (a % b) == Gcd(b, a % b)
    ensures Gcd(a, b) == Gcd(b, a % b) && Divides(Gcd(a, b), a)
    ensures y * a + (x - (a / b) * y) * b == Gcd(a, b)
  {
    assert b * (a / b) + a % b == a;
    DividesSum(Gcd(a, b), b, a % b, a / b);
    Regroup(x, y, a, b, a / b, a % b);
  }

  /** The greatest common divisor divides both numbers and is a combination of them. */
  lemma {:induction false} Bezout(a: nat, b: nat) returns (u: int, v: int)
    ensures Divides(Gcd(a, b), a) && Divides(Gcd(a, b), b) && u * a + v * b == Gcd(a, b)
    decreases b
  {
    if b == 0 {
      u, v := 1, 0;
      assert a * 1 == a && a * 0 == b;
    } else {
      var x, y := Bezout(b, a % b);
      u, v := y, x - (a / b) * y;
      BezoutStep(a, b, x, y);
    }
  }

  lemma {:induction false} Regroup(x: int, y: int, a: int, b: int, q: int, r: int)
    requires b * q + r == a
    ensures y * a + (x - q * y) * b == x * b + y * r
  {
    assert y * a == y * (b * q) + y * r;
    assert (x - q * y) * b == x * b - q * y * b;
    assert y * (b * q) == q * y * b;
  }

  lemma {:induction false} Split(x: int, n: int)
    requires n > 0
    ensures x == n * (x / n) + x % n
  {
  }

  lemma {:induction false} SmallMultiple(n: int, k: int)
    requires n > 0 && -n < n * k < n
    ensures k == 0
  {
    if k >= 1 { Product(n, k - 1); } else if k <= -1 { Product(n, -k - 1); }
    assert n * (k - 1) == n * k - n && n * (-k - 1) == -(n * k) - n;
  }

  lemma {:induction false} Product(a: int, b: int)
    requires a >= 0 && b >= 0
    ensures a * b >= 0
  {
  }

  lemma {:induction false} SameRemainderIff(x: int, y: int, n: int)
    requires n > 0
    ensures x % n == y % n <==> Divides(n, y - x)
  {
    Split(x, n);
    Split(y, n);
    if x % n == y % n {
      assert n * (y / n - x / n) == n * (y / n) - n * (x / n);
    }
    if Divides(n, y - x) {
      var k :| n * k == y - x;
      var rest := k - (y / n - x / n);
      assert n * rest == n * k - n * (y / n) + n * (x / n);
      SmallMultiple(n, rest);
      assert n * rest == 0;
    }
  }

  /** Multiples of a step agree modulo `g * m` exactly every `m` steps, for `g` the divisor shared. */
  lemma {:induction false} StepsApart(d: int, s: int, m: int, g: int, u: int, v: int)
    requires g > 0 && u * s + v * m == 1
    ensures Divides(g * m, d * (g * s)) <==> Divides(m, d)
  {
    if Divides(g * m, d * (g * s)) {
      var q :| g * m * q == d * (g * s);
      Cancel(g, m * q, d * s, m, q, d, s);
      OneTimes(d, u, s, v, m);
      assert d == u * (d * s) + (d * v) * m == u * (m * q) + (d * v) * m;
      Gather(u, m, q, d, v);
      assert m * (u * q + d * v) == d;
    }
    if Divides(m, d) {
      var t :| m * t == d;
      Gather2(g, m, t, s, d);
      assert g * m * (t * s) == d * (g * s);
    }
  }

  lemma {:induction false} OneTimes(d: int, u: int, s: int, v: int, m: int)
    requires u * s + v * m == 1
    ensures d == u * (d * s) + (d * v) * m
  {
    assert d * (u * s + v * m) == d * (u * s) + d * (v * m);
    assert d * (u * s) == u * (d * s) && d * (v * m) == (d * v) * m;
  }

  lemma {:induction false} Cancel(g: int, left: int, right: int, m: int, q: int, d: int, s: int)
    requires g > 0 && left == m * q && right == d * s && g * m * q == d * (g * s)
    ensures left == right
  {
    assert g * m * q == g * left && d * (g * s) == g * right;
    assert g * (left - right) == 0;
  }

  lemma {:induction false} Gather(u: int, m: int, q: int, d: int, v: int)
    ensures u * (m * q) + (d * v) * m == m * (u * q + d * v)
  {
    assert u * (m * q) == m * (u * q);
    assert (d * v) * m == m * (d * v);
    assert m * (u * q + d * v) == m * (u * q) + m * (d * v);
  }

  lemma {:induction false} Gather2(g: int, m: int, t: int, s: int, d: int)
    requires m * t == d
    ensures g * m * (t * s) == d * (g * s)
  {
    assert g * m * (t * s) == g * (m * t) * s;
    assert d * (g * s) == g * d * s;
  }

  lemma {:induction false} Quotient(g: int, m: int)
    requires g > 0
    ensures g * m / g == m
  {
    Split(g * m, g);
    var rest := m - g * m / g;
    assert g * rest == g * m - g * (g * m / g);
    SmallMultiple(g, rest);
  }

  lemma {:induction false} PositiveFactors(g: int, m: int)
    requires g >= 0 && g * m > 0
    ensures g > 0 && m > 0
  {
    if m <= 0 { Product(g, -m); }
  }

  lemma {:induction false} NotDivided(m: int, d: int)
    requires 0 < d < m
    ensures !Divides(m, d)
  {
    forall k: int
      ensures m * k != d
    {
      if -m < m * k < m { SmallMultiple(m, k); }
    }
  }

  /** Two multiples of a step agree modulo `n` exactly if they are a multiple of `n / Gcd` apart. */
  lemma {:induction false} RepeatsIff(step: nat, n: nat, i: nat, j: nat)
    requires n > 0
    ensures Gcd(step, n) > 0
    ensures i * step % n == j * step % n <==> Divides(n / Gcd(step, n), j - i)
  {
    var g := Gcd(step, n);
    var u, v := Bezout(step, n);
    var s :| g * s == step;
    var m :| g * m == n;
    PositiveFactors(g, m);
    Quotient(g, m);
    SameRemainderIff(i * step, j * step, n);
    assert (j - i) * step == j * step - i * step;
    UnitCombination(g, s, m, u, v, step, n);
    StepsApart(j - i, s, m, g, u, v);
  }

  lemma {:induction false} UnitCombination(g: int, s: int, m: int, u: int, v: int, step: int, n: int)
    requires g > 0 && g * s == step && g * m == n && u * step + v * n == g
    ensures u * s + v * m == 1
  {
    assert u * (g * s) == g * (u * s) && v * (g * m) == g * (v * m);
    assert g * (u * s + v * m) == g * (u * s) + g * (v * m);
    assert g * (u * s + v * m - 1) == g * (u * s + v * m) - g == 0;
  }

  function Multiple(i: nat, step: nat, n: nat): nat
    requires n > 0
  {
    i * step % n
  }

  ghost predicate DistinctMultiples(step: nat, n: nat, count: nat)
    requires n > 0
  {
    forall i: nat, j: nat :: i < j < count ==> Multiple(i, step, n) != Multiple(j, step, n)
  }

  /** The first multiples of a step are distinct modulo `n` for exactly `n / Gcd` of them. */
  lemma {:induction false} DistinctIff(step: nat, n: nat, count: nat)
    requires n > 0
    ensures Gcd(step, n) > 0
    ensures DistinctMultiples(step, n, count) <==> count <= n / Gcd(step, n)
  {
    RepeatsIff(step, n, 0, 0);
    var m := n / Gcd(step, n);
    var u, v := Bezout(step, n);
    var w :| Gcd(step, n) * w == n;
    Quotient(Gcd(step, n), w);
    PositiveFactors(Gcd(step, n), w);
    if count <= m {
      forall i: nat, j: nat | i < j < count
        ensures Multiple(i, step, n) != Multiple(j, step, n)
      {
        RepeatsIff(step, n, i, j);
        NotDivided(m, j - i);
      }
    } else {
      RepeatsIff(step, n, 0, m);
      assert m * 1 == m - 0;
      assert Multiple(0, step, n) == Multiple(m, step, n);
    }
  }
}
