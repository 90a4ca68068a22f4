/** Discounted cumulative gain over the reals, for any positive non-increasing discount. */
module Gains {
  import opened Prelude
  import opened Sorting

  /** 2 ** g for an integer exponent. */
  function Pow2(g: int): (r: real)
    ensures r > 0.0
    decreases if g < 0 then -g else g
  {
    if g == 0 then 1.0 else if g > 0 then 2.0 * Pow2(g - 1) else Pow2(g + 1) / 2.0
  }

  function Gain(grade: int): real { Pow2(grade) - 1.0 }

  lemma {:induction false} Pow2Doubles(g: int)
    ensures Pow2(g + 1) == 2.0 * Pow2(g)
  {
  }

  /** Each further grade doubles the gain and adds one. */
  lemma {:induction false} GainDoubles(g: int)
    ensures Gain(0) == 0.0 && Gain(g + 1) == 2.0 * Gain(g) + 1.0
  {
    Pow2Doubles(g);
  }

  lemma {:induction false} GainIncreases(a: int, b: int)
    requires a < b
    ensures Gain(a) < Gain(b)
    decreases b - a
  {
    Pow2Doubles(b - 1);
    if a < b - 1 { GainIncreases(a, b - 1); }
  }

  lemma {:induction false} GainMonotone(a: int, b: int)
    requires a <= b
    ensures Gain(a) <= Gain(b)
  {
    if a < b { GainIncreases(a, b); }
  }

  lemma {:induction false} GainSign(g: int)
    ensures g > 0 ==> Gain(g) > 0.0
    ensures g == 0 ==> Gain(g) == 0.0
    ensures g < 0 ==> Gain(g) < 0.0
  {
    if g > 0 { GainIncreases(0, g); }
    if g < 0 { GainIncreases(g, 0); }
  }

  /** The rank discounts, 1 / log2(rank + 2) in the scripts. */
  ghost predicate IsDiscount(d: nat -> real) {
    (forall i: nat :: d(i) > 0.0) && (forall i: nat, j: nat :: i <= j ==> d(j) <= d(i))
  }

  ghost predicate IsStrictDiscount(d: nat -> real) {
    (forall i: nat :: d(i) > 0.0) && (forall i: nat, j: nat :: i < j ==> d(j) < d(i))
  }

  function SumTo(f: nat -> real, n: nat): real {
    if n == 0 then 0.0 else SumTo(f, n - 1) + f(n - 1)
  }

  function WeightedTo(f: nat -> real, d: nat -> real, n: nat): real {
    if n == 0 then 0.0 else WeightedTo(f, d, n - 1) + f(n - 1) * d(n - 1)
  }

  /** The gain at each rank; ranks past the end gain nothing. */
  function GainAt(grades: seq<int>): nat -> real {
    (i: nat) => if i < |grades| then Gain(grades[i]) else 0.0
  }

  function Dcg(grades: seq<int>, d: nat -> real): real {
    WeightedTo(GainAt(grades), d, |grades|)
  }

  function Take<T>(s: seq<T>, k: nat): seq<T> { if k < |s| then s[..k] else s }

  /** Cutting the list off at `k` sums the first `k` ranks. */
  lemma {:induction false} DcgTake(grades: seq<int>, d: nat -> real, k: nat)
    ensures Dcg(Take(grades, k), d) == WeightedTo(GainAt(grades), d, k)
  {
    var m := |Take(grades, k)|;
    WeightedAgrees(GainAt(Take(grades, k)), GainAt(grades), d, m);
    WeightedTail(GainAt(grades), d, m, k);
  }

  lemma {:induction false} WeightedAgrees(f: nat -> real, g: nat -> real, d: nat -> real, n: nat)
    requires forall i :: 0 <= i < n ==> f(i) == g(i)
    ensures WeightedTo(f, d, n) == WeightedTo(g, d, n)
  {
    if n > 0 { WeightedAgrees(f, g, d, n - 1); }
  }

  lemma {:induction false} WeightedTail(f: nat -> real, d: nat -> real, m: nat, n: nat)
    requires m <= n && forall i :: m <= i < n ==> f(i) == 0.0
    ensures WeightedTo(f, d, n) == WeightedTo(f, d, m)
  {
    if m < n { WeightedTail(f, d, m, n - 1); }
  }

  /** One more document adds its gain, discounted by the rank it stands at. */
  lemma {:induction false} DcgOneMore(grades: seq<int>, g: int, d: nat -> real)
    ensures Dcg([], d) == 0.0 && Dcg(grades + [g], d) == Dcg(grades, d) + Gain(g) * d(|grades|)
  {
    WeightedAgrees(GainAt(grades + [g]), GainAt(grades), d, |grades|);
  }

  // ----- summation by parts -----

  /** Every prefix sum of `f` is at most that of `g`. */
  ghost predicate Dominated(f: nat -> real, g: nat -> real, n: nat) {
    forall m :: 0 <= m <= n ==> SumTo(f, m) <= SumTo(g, m)
  }

  lemma {:induction false} Distribute(a: real, b: real, c: real)
    ensures (a + b) * c == a * c + b * c
    ensures (a - b) * c == a * c - b * c
  {
  }

  lemma {:induction false} NonNegativeProduct(a: real, b: real)
    requires a >= 0.0 && b >= 0.0
    ensures a * b >= 0.0
  {
  }

  lemma {:induction false} AbelStep(e: real, s: real, x: real, dPrev: real, dNext: real)
    requires e >= s * dPrev && s >= 0.0 && dNext <= dPrev
    ensures e + x * dNext >= (s + x) * dNext
    ensures e + x * dNext == (s + x) * dNext ==> (dPrev - dNext) * s == 0.0 && e == s * dPrev
  {
    NonNegativeProduct(dPrev - dNext, s);
    Distribute(dPrev, dNext, s);
    Distribute(s, x, dNext);
    var p, q := s * dPrev, s * dNext;
    assert p == dPrev * s && q == dNext * s;
  }

  /** A prefix of two weighted sums: `e` the sums, `s` the plain prefix sums, at two successive lengths. */
  lemma {:induction false} DominatedStep(eF: real, eG: real, sF: real, sG: real, x: real, y: real, dPrev: real,
                                         dNext: real,
                                         eF': real, eG': real, sF': real, sG': real)
    requires eG - eF >= (sG - sF) * dPrev && sF <= sG && 0.0 < dNext <= dPrev
    requires eF' == eF + x * dNext && eG' == eG + y * dNext && sF' == sF + x && sG' == sG + y
    ensures eG' - eF' >= (sG' - sF') * dNext
    ensures eG' - eF' == (sG' - sF') * dNext && dNext < dPrev ==> sF == sG && eG - eF == (sG - sF) * dPrev
  {
    AbelStep(eG - eF, sG - sF, y - x, dPrev, dNext);
    Distribute(y, x, dNext);
    assert sG' - sF' == (sG - sF) + (y - x);
    if eG' - eF' == (sG' - sF') * dNext && dNext < dPrev { ZeroFactor(dPrev - dNext, sG - sF); }
  }

  lemma {:induction false} DominatedFirst(x: real, y: real, c: real, eF': real, eG': real, sF': real, sG': real)
    requires eF' == x * c && eG' == y * c && sF' == x && sG' == y
    ensures eG' - eF' >= (sG' - sF') * c
  {
    Distribute(y, x, c);
  }

  /** Prefix dominance survives any positive non-increasing weighting. */
  lemma {:induction false} WeightedDominated(f: nat -> real, g: nat -> real, d: nat -> real, n: nat)
    requires IsDiscount(d) && Dominated(f, g, n) && n > 0
    ensures WeightedTo(g, d, n) - WeightedTo(f, d, n) >= (SumTo(g, n) - SumTo(f, n)) * d(n - 1)
  {
    var m := n - 1;
    if m == 0 {
      DominatedFirst(f(0), g(0), d(0), WeightedTo(f, d, 1), WeightedTo(g, d, 1), SumTo(f, 1), SumTo(g, 1));
    } else {
      WeightedDominated(f, g, d, m);
      assert SumTo(f, m) <= SumTo(g, m) && SumTo(f, n) <= SumTo(g, n);
      DominatedStep(WeightedTo(f, d, m), WeightedTo(g, d, m), SumTo(f, m), SumTo(g, m), f(m), g(m), d(m - 1), d(m),
                    WeightedTo(f, d, n), WeightedTo(g, d, n), SumTo(f, n), SumTo(g, n));
    }
  }

  lemma {:induction false} WeightedAtMost(f: nat -> real, g: nat -> real, d: nat -> real, n: nat)
    requires IsDiscount(d) && Dominated(f, g, n)
    ensures WeightedTo(f, d, n) <= WeightedTo(g, d, n)
  {
    if n > 0 {
      WeightedDominated(f, g, d, n);
      assert SumTo(f, n) <= SumTo(g, n);
      NonNegativeProduct(SumTo(g, n) - SumTo(f, n), d(n - 1));
    }
  }

  lemma {:induction false} EqualityStep(f: nat -> real, g: nat -> real, d: nat -> real, n: nat)
    requires IsStrictDiscount(d) && Dominated(f, g, n) && n > 1
    requires WeightedTo(g, d, n) - WeightedTo(f, d, n) == (SumTo(g, n) - SumTo(f, n)) * d(n - 1)
    ensures SumTo(f, n - 1) == SumTo(g, n - 1)
    ensures WeightedTo(g, d, n - 1) - WeightedTo(f, d, n - 1) == (SumTo(g, n - 1) - SumTo(f, n - 1)) * d(n - 2)
  {
    WeightedDominated(f, g, d, n - 1);
    assert SumTo(f, n - 1) <= SumTo(g, n - 1);
    DominatedStep(WeightedTo(f, d, n - 1), WeightedTo(g, d, n - 1), SumTo(f, n - 1), SumTo(g, n - 1),
                  f(n - 1), g(n - 1), d(n - 2), d(n - 1),
                  WeightedTo(f, d, n), WeightedTo(g, d, n), SumTo(f, n), SumTo(g, n));
  }

  /** Under a strictly decreasing weighting only equal sequences reach equality. */
  lemma {:induction false} WeightedEquality(f: nat -> real, g: nat -> real, d: nat -> real, n: nat)
    requires IsStrictDiscount(d) && Dominated(f, g, n) && n > 0
    requires WeightedTo(g, d, n) - WeightedTo(f, d, n) == (SumTo(g, n) - SumTo(f, n)) * d(n - 1)
    ensures forall i :: 0 <= i < n - 1 ==> f(i) == g(i)
    ensures SumTo(f, n - 1) == SumTo(g, n - 1)
  {
    if n > 1 {
      EqualityStep(f, g, d, n);
      WeightedEquality(f, g, d, n - 1);
    }
  }

  lemma {:induction false} ZeroFactor(a: real, b: real)
    requires a * b == 0.0 && a > 0.0
    ensures b == 0.0
  {
  }

  // ----- sorted ideals -----

  ghost predicate Descending(s: seq<int>) {
    forall i, j :: 0 <= i < j < |s| ==> s[i] >= s[j]
  }

  predicate Higher(a: int, b: int) { a > b }

  /** Python's `sorted(values, reverse=True)`. */
  function SortDescending(s: seq<int>): (r: seq<int>)
    ensures Descending(r) && multiset(r) == multiset(s) && |r| == |s|
  {
    Sort(Higher, s)
  }

  function SumGains(s: seq<int>): real {
    if s == [] then 0.0 else Gain(s[0]) + SumGains(s[1..])
  }

  lemma {:induction false} SumGainsRemove(s: seq<int>, i: nat)
    requires i < |s|
    ensures SumGains(s) == Gain(s[i]) + SumGains(s[..i] + s[i + 1..])
  {
    if i > 0 {
      SumGainsRemove(s[1..], i - 1);
      RemovedTail(s, i);
    } else {
      assert s[..0] + s[1..] == s[1..];
    }
  }

  lemma {:induction false} SumGainsTake(s: seq<int>, n: nat)
    requires n <= |s|
    ensures SumGains(s[..n]) == SumTo(GainAt(s), n)
  {
    if n > 0 {
      SumGainsTake(s, n - 1);
      SumGainsRemove(s[..n], n - 1);
      assert s[..n][..n - 1] + s[..n][n..] == s[..n - 1];
    }
  }

  /** Shifting a descending list forward by one cannot raise its leading gains. */
  lemma {:induction false} ShiftedTake(s: seq<int>, n: nat)
    requires Descending(s) && n < |s|
    ensures SumGains(s[1..][..n]) <= SumGains(s[..n])
  {
    if n > 0 {
      ShiftedTake(s, n - 1);
      SumGainsRemove(s[..n], n - 1);
      SumGainsRemove(s[1..][..n], n - 1);
      assert s[..n][..n - 1] + s[..n][n..] == s[..n - 1];
      assert s[1..][..n][..n - 1] + s[1..][..n][n..] == s[1..][..n - 1];
      GainMonotone(s[n], s[n - 1]);
    }
  }

  /** No selection of n members of a descending list gains more than its first n. */
  lemma {:induction false} SelectionBound(s: seq<int>, t: seq<int>)
    requires Descending(s) && multiset(t) <= multiset(s)
    ensures |t| <= |s| && SumGains(t) <= SumGains(s[..|t|])
    decreases |s|
  {
    MultisetSize(t, s);
    if t != [] {
      if s[0] in t {
        var i :| 0 <= i < |t| && t[i] == s[0];
        var rest := t[..i] + t[i + 1..];
        RemoveHead(s, t, i);
        SelectionBound(s[1..], rest);
        SumGainsRemove(t, i);
        assert s[..|t|][1..] == s[1..][..|rest|];
      } else {
        AbsentHead(s, t);
        SelectionBound(s[1..], t);
        ShiftedTake(s, |t|);
      }
    }
  }

  lemma {:induction false} RemoveHead(s: seq<int>, t: seq<int>, i: nat)
    requires s != [] && i < |t| && t[i] == s[0] && multiset(t) <= multiset(s)
    ensures multiset(t[..i] + t[i + 1..]) <= multiset(s[1..])
  {
    RemovedMultiset(t, i);
    assert s == [s[0]] + s[1..];
    var rest, tail := multiset(t[..i] + t[i + 1..]), multiset(s[1..]);
    assert multiset(s) == tail + multiset{s[0]};
    forall x
      ensures rest[x] <= tail[x]
    {
      assert multiset(t)[x] == (rest + multiset{s[0]})[x] <= multiset(s)[x] == (tail + multiset{s[0]})[x];
    }
  }

  lemma {:induction false} AbsentHead(s: seq<int>, t: seq<int>)
    requires s != [] && s[0] !in t && multiset(t) <= multiset(s)
    ensures multiset(t) <= multiset(s[1..])
  {
    assert s == [s[0]] + s[1..];
    forall x
      ensures multiset(t)[x] <= multiset(s[1..])[x]
    {
      if x == s[0] { assert x !in multiset(t); }
    }
  }

  lemma {:induction false} MultisetSize(t: seq<int>, s: seq<int>)
    requires multiset(t) <= multiset(s)
    ensures |t| <= |s|
  {
    assert multiset(s) == multiset(t) + (multiset(s) - multiset(t));
    assert |multiset(s)| == |s| && |multiset(t)| == |t|;
  }

  // ----- judged rankings -----

  function Positives(s: seq<int>): (r: seq<int>)
    ensures |r| <= |s| && forall x :: x in r ==> x > 0
  {
    if s == [] then [] else if s[|s| - 1] > 0 then Positives(s[..|s| - 1]) + [s[|s| - 1]] else Positives(s[..|s| - 1])
  }

  lemma {:induction false} PositivesTake(s: seq<int>, n: nat)
    requires n <= |s|
    ensures multiset(Positives(s[..n])) <= multiset(Positives(s))
    decreases |s|
  {
    if n < |s| {
      PositivesTake(s[..|s| - 1], n);
      assert s[..|s| - 1][..n] == s[..n];
    } else {
      assert s[..n] == s;
    }
  }

  lemma {:induction false} PositivesGain(s: seq<int>)
    requires forall x :: x in s ==> x >= 0
    ensures SumGains(Positives(s)) == SumGains(s)
  {
    if s != [] {
      var n := |s| - 1;
      assert forall x :: x in s[..n] ==> x in s;
      PositivesGain(s[..n]);
      SumGainsRemove(s, n);
      assert s[n] in s;
      assert s[..n] + s[n + 1..] == s[..n];
      GainSign(s[n]);
      if s[n] > 0 {
        var p := Positives(s);
        SumGainsRemove(p, |p| - 1);
        assert p[..|p| - 1] + p[|p|..] == Positives(s[..n]);
      }
    }
  }

  /** The positive grades of a ranking are matched to distinct grades of the ideal. */
  ghost predicate Judged(grades: seq<int>, ideal: seq<int>) {
    && (forall x :: x in grades ==> x >= 0)
    && multiset(Positives(grades)) <= multiset(ideal)
  }

  ghost predicate NonNegativeTop(ideal: seq<int>, k: nat) {
    forall i :: 0 <= i < k && i < |ideal| ==> SortDescending(ideal)[i] >= 0
  }

  lemma {:induction false} SumToGrows(s: seq<int>, m: nat, n: nat)
    requires m <= n && forall i :: m <= i < n && i < |s| ==> s[i] >= 0
    ensures SumTo(GainAt(s), m) <= SumTo(GainAt(s), n)
  {
    if m < n {
      SumToGrows(s, m, n - 1);
      if n - 1 < |s| { GainSign(s[n - 1]); }
    }
  }

  /** A judged ranking never leads the sorted ideal. */
  lemma {:induction false} JudgedDominated(grades: seq<int>, ideal: seq<int>, k: nat)
    requires Judged(grades, ideal) && NonNegativeTop(ideal, k)
    ensures Dominated(GainAt(grades), GainAt(SortDescending(ideal)), k)
  {
    var sorted := SortDescending(ideal);
    forall m | 0 <= m <= k
      ensures SumTo(GainAt(grades), m) <= SumTo(GainAt(sorted), m)
    {
      PrefixDominated(grades, sorted, m);
    }
  }

  lemma {:induction false} PrefixDominated(grades: seq<int>, sorted: seq<int>, m: nat)
    requires Judged(grades, sorted) && Descending(sorted)
    requires forall i :: 0 <= i < m && i < |sorted| ==> sorted[i] >= 0
    ensures SumTo(GainAt(grades), m) <= SumTo(GainAt(sorted), m)
  {
    var n := if m < |grades| then m else |grades|;
    var top := Positives(grades[..n]);
    assert forall x :: x in grades[..n] ==> x in grades;
    SumTail(grades, n, m);
    SumGainsTake(grades, n);
    PositivesTake(grades, n);
    PositivesGain(grades[..n]);
    SelectionBound(sorted, top);
    SumGainsTake(sorted, |top|);
    SumToGrows(sorted, |top|, m);
  }

  lemma {:induction false} SumTail(s: seq<int>, m: nat, n: nat)
    requires m <= n && (m == n || |s| <= m)
    ensures SumTo(GainAt(s), n) == SumTo(GainAt(s), m)
  {
    if m < n { SumTail(s, m, n - 1); }
  }

  // ----- grades picked from distinct places -----

  function Indices(picks: seq<Option<nat>>): set<nat> {
    set o | o in picks && o.Some? :: o.value
  }

  function Pick(values: seq<int>, o: Option<nat>): int {
    if o.Some? && o.value < |values| then values[o.value] else 0
  }

  /** The value at each picked index, 0 where nothing is picked. */
  function Picked(values: seq<int>, picks: seq<Option<nat>>): seq<int> {
    seq(|picks|, i requires 0 <= i < |picks| => Pick(values, picks[i]))
  }

  ghost predicate DistinctPicks(picks: seq<Option<nat>>) {
    forall i, k :: 0 <= i < k < |picks| && picks[i].Some? ==> picks[i] != picks[k]
  }

  lemma {:induction false} IndicesAppend(c: seq<Option<nat>>, o: Option<nat>)
    ensures Indices(c + [o]) == Indices(c) + (if o.Some? then {o.value} else {})
  {
    assert forall x :: x in c + [o] <==> x in c || x == o;
  }

  lemma {:induction false} DistinctAppend(c: seq<Option<nat>>, o: Option<nat>)
    ensures DistinctPicks(c + [o]) <==> DistinctPicks(c) && (o.Some? ==> o.value !in Indices(c))
  {
    var longer := c + [o];
    if DistinctPicks(longer) {
      forall i, k | 0 <= i < k < |c| && c[i].Some?
        ensures c[i] != c[k]
      {
        assert longer[i] == c[i] && longer[k] == c[k];
      }
      forall i | 0 <= i < |c| ensures o.Some? ==> c[i] != o { assert longer[i] == c[i] && longer[|c|] == o; }
    }
  }

  /** How many of the first `n` values equal `v` and stand at an index in `s`. */
  ghost function CountOver(values: seq<int>, s: set<nat>, v: int, n: nat): nat
    requires n <= |values|
  {
    if n == 0 then 0
    else CountOver(values, s, v, n - 1) + (if n - 1 in s && values[n - 1] == v then 1 else 0)
  }

  lemma {:induction false} CountOverAdd(values: seq<int>, s: set<nat>, b: nat, v: int, n: nat)
    requires n <= |values| && b < |values| && b !in s
    ensures CountOver(values, s + {b}, v, n) == CountOver(values, s, v, n) + (if b < n && values[b] == v then 1 else 0)
  {
    if n > 0 { CountOverAdd(values, s, b, v, n - 1); }
  }

  lemma {:induction false} CountOverWithin(values: seq<int>, s: set<nat>, v: int, n: nat)
    requires n <= |values|
    ensures CountOver(values, s, v, n) <= multiset(values[..n])[v]
  {
    if n > 0 {
      CountOverWithin(values, s, v, n - 1);
      assert values[..n] == values[..n - 1] + [values[n - 1]];
    }
  }

  lemma {:induction false} PickedAppend(values: seq<int>, c: seq<Option<nat>>, o: Option<nat>, v: int)
    ensures multiset(Positives(Picked(values, c + [o])))[v] ==
            multiset(Positives(Picked(values, c)))[v] + (if Pick(values, o) == v && v > 0 then 1 else 0)
  {
    var longer, x := Picked(values, c + [o]), Pick(values, o);
    assert longer == Picked(values, c) + [x];
    assert longer[..|longer| - 1] == Picked(values, c);
  }

  lemma {:induction false} PickedPositives(values: seq<int>, picks: seq<Option<nat>>, v: int)
    requires DistinctPicks(picks) && forall i :: i in Indices(picks) ==> i < |values|
    ensures multiset(Positives(Picked(values, picks)))[v] <= CountOver(values, Indices(picks), v, |values|)
  {
    if picks != [] {
      var front, o := picks[..|picks| - 1], picks[|picks| - 1];
      assert picks == front + [o];
      IndicesAppend(front, o);
      DistinctAppend(front, o);
      PickedPositives(values, front, v);
      PickedAppend(values, front, o, v);
      if o.Some? {
        CountOverAdd(values, Indices(front), o.value, v, |values|);
      } else {
        assert Indices(front) + {} == Indices(front);
      }
    }
  }

  /** Distinct picks of non-negative grades are a judged ranking of those grades. */
  lemma {:induction false} PickedIsJudged(values: seq<int>, picks: seq<Option<nat>>)
    requires DistinctPicks(picks) && forall i :: i in Indices(picks) ==> i < |values| && values[i] >= 0
    ensures Judged(Picked(values, picks), values)
  {
    forall v
      ensures multiset(Positives(Picked(values, picks)))[v] <= multiset(values)[v]
    {
      PickedPositives(values, picks, v);
      CountOverWithin(values, Indices(picks), v, |values|);
      assert values[..|values|] == values;
    }
    forall x | x in Picked(values, picks)
      ensures x >= 0
    {
      var i :| 0 <= i < |picks| && x == Pick(values, picks[i]);
      if picks[i].Some? { assert picks[i].value in Indices(picks); }
    }
  }

  // ----- counting the grades above a bound -----

  function CountAbove(s: seq<int>, x: int): nat {
    if s == [] then 0 else CountAbove(s[1..], x) + (if s[0] > x then 1 else 0)
  }

  lemma {:induction false} CountAboveRemove(s: seq<int>, i: nat, x: int)
    requires i < |s|
    ensures CountAbove(s, x) == CountAbove(s[..i] + s[i + 1..], x) + (if s[i] > x then 1 else 0)
  {
    if i > 0 {
      CountAboveRemove(s[1..], i - 1, x);
      RemovedTail(s, i);
    } else {
      assert s[..0] + s[1..] == s[1..];
    }
  }

  lemma {:induction false} CountAboveOfPermutation(s: seq<int>, t: seq<int>, x: int)
    requires multiset(s) == multiset(t)
    ensures CountAbove(s, x) == CountAbove(t, x)
    decreases |s|
  {
    assert |multiset(s)| == |s| && |multiset(t)| == |t|;
    if s != [] {
      assert s[0] in multiset(t);
      var i :| 0 <= i < |t| && t[i] == s[0];
      RemovedMultiset(t, i);
      TailMultiset(s);
      assert multiset(t[..i] + t[i + 1..]) == multiset(t) - multiset{s[0]};
      CountAboveOfPermutation(s[1..], t[..i] + t[i + 1..], x);
      CountAboveRemove(t, i, x);
    }
  }

  lemma {:induction false} CountAboveSorted(s: seq<int>, i: nat, x: int)
    requires Descending(s) && i < |s| && s[i] > x
    ensures CountAbove(s, x) > i
  {
    if i > 0 { CountAboveSorted(s[1..], i - 1, x); }
  }

  function AboveIndices(s: seq<int>, x: int): set<nat> { set i: nat | i < |s| && s[i] > x }

  lemma {:induction false} CountAboveIsCardinality(s: seq<int>, x: int)
    ensures |AboveIndices(s, x)| == CountAbove(s, x)
  {
    if s == [] {
      assert AboveIndices(s, x) == {};
    } else {
      var n := |s| - 1;
      CountAboveIsCardinality(s[..n], x);
      CountAboveRemove(s, n, x);
      assert s[..n] + s[n + 1..] == s[..n];
      assert AboveIndices(s, x) == AboveIndices(s[..n], x) + (if s[n] > x then {n} else {});
    }
  }

  lemma {:induction false} IndicesSize(picks: seq<Option<nat>>)
    ensures |Indices(picks)| <= |picks|
  {
    if picks == [] {
      assert Indices(picks) == {};
    } else {
      var front, o := picks[..|picks| - 1], picks[|picks| - 1];
      IndicesSize(front);
      assert picks == front + [o];
      IndicesAppend(front, o);
    }
  }

  // ----- the normalised score -----

  const EPSILON: real := 1.0 / 4503599627370496.0  // sys.float_info.epsilon, 2 ** -52

  function NdcgAt(grades: seq<int>, ideal: seq<int>, k: nat, d: nat -> real): real {
    var best := Dcg(Take(SortDescending(ideal), k), d);
    if best > EPSILON then Dcg(Take(grades, k), d) / best else 0.0
  }

  lemma {:induction false} DcgNonNegative(grades: seq<int>, d: nat -> real)
    requires IsDiscount(d) && forall x :: x in grades ==> x >= 0
    ensures Dcg(grades, d) >= 0.0
  {
    WeightedNonNegative(grades, d, |grades|);
  }

  lemma {:induction false} WeightedNonNegative(grades: seq<int>, d: nat -> real, n: nat)
    requires IsDiscount(d) && n <= |grades| && forall x :: x in grades ==> x >= 0
    ensures WeightedTo(GainAt(grades), d, n) >= 0.0
  {
    if n > 0 {
      WeightedNonNegative(grades, d, n - 1);
      assert grades[n - 1] in grades;
      GainSign(grades[n - 1]);
      NonNegativeProduct(Gain(grades[n - 1]), d(n - 1));
    }
  }

  lemma {:induction false} DcgAtMostIdeal(grades: seq<int>, ideal: seq<int>, k: nat, d: nat -> real)
    requires IsDiscount(d) && Judged(grades, ideal) && NonNegativeTop(ideal, k)
    ensures Dcg(Take(grades, k), d) <= Dcg(Take(SortDescending(ideal), k), d)
  {
    JudgedDominated(grades, ideal, k);
    WeightedAtMost(GainAt(grades), GainAt(SortDescending(ideal)), d, k);
    DcgTake(grades, d, k);
    DcgTake(SortDescending(ideal), d, k);
  }

  lemma {:induction false} Quotient(a: real, b: real)
    requires b > 0.0
    ensures a / b <= 1.0 <==> a <= b
    ensures a / b == 1.0 <==> a == b
    ensures a >= 0.0 ==> a / b >= 0.0
  {
    var q := a / b;
    assert q * b == a;
    if q > 1.0 { NonNegativeProduct(q - 1.0, b); Distribute(q, 1.0, b); }
  }

  /** The score times the ideal's gain over the first `k` ranks is the ranking's; without an ideal it is 0. */
  lemma {:induction false} NdcgTimesIdeal(grades: seq<int>, ideal: seq<int>, k: nat, d: nat -> real, best: real)
    requires best == WeightedTo(GainAt(SortDescending(ideal)), d, k)
    ensures best > EPSILON ==> Times(NdcgAt(grades, ideal, k, d), best) == WeightedTo(GainAt(grades), d, k)
    ensures best <= EPSILON ==> NdcgAt(grades, ideal, k, d) == 0.0
  {
    DcgTake(SortDescending(ideal), d, k);
    DcgTake(grades, d, k);
    if best > EPSILON { QuotientBack(NdcgAt(grades, ideal, k, d), Dcg(Take(grades, k), d), best); }
  }

  lemma {:induction false} NdcgBounds(grades: seq<int>, ideal: seq<int>, k: nat, d: nat -> real)
    requires IsDiscount(d) && Judged(grades, ideal)
    ensures 0.0 <= NdcgAt(grades, ideal, k, d)
    ensures NonNegativeTop(ideal, k) ==> NdcgAt(grades, ideal, k, d) <= 1.0
  {
    var best := Dcg(Take(SortDescending(ideal), k), d);
    assert forall x :: x in Take(grades, k) ==> x in grades;
    DcgNonNegative(Take(grades, k), d);
    if NonNegativeTop(ideal, k) { DcgAtMostIdeal(grades, ideal, k, d); }
    if best > EPSILON { Quotient(Dcg(Take(grades, k), d), best); }
  }

  lemma {:induction false} WeightedEqualIff(f: nat -> real, g: nat -> real, d: nat -> real, n: nat)
    requires IsStrictDiscount(d) && Dominated(f, g, n)
    ensures WeightedTo(f, d, n) == WeightedTo(g, d, n) <==> forall i :: 0 <= i < n ==> f(i) == g(i)
  {
    if forall i :: 0 <= i < n ==> f(i) == g(i) {
      WeightedAgrees(f, g, d, n);
    }
    if n > 0 && WeightedTo(f, d, n) == WeightedTo(g, d, n) {
      WeightedDominated(f, g, d, n);
      var gap := SumTo(g, n) - SumTo(f, n);
      assert SumTo(f, n) <= SumTo(g, n);
      NonNegativeProduct(gap, d(n - 1));
      assert gap * d(n - 1) == d(n - 1) * gap == 0.0;
      ZeroFactor(d(n - 1), gap);
      WeightedEquality(f, g, d, n);
    }
  }

  /** Under a strictly decreasing discount, the ideal is matched only by gaining as much at every rank. */
  lemma {:induction false} IdealIsMatchedIff(grades: seq<int>, ideal: seq<int>, k: nat, d: nat -> real)
    requires IsStrictDiscount(d) && Judged(grades, ideal) && NonNegativeTop(ideal, k)
    ensures Dcg(Take(grades, k), d) == Dcg(Take(SortDescending(ideal), k), d) <==>
            forall i :: 0 <= i < k ==> GainAt(grades)(i) == GainAt(SortDescending(ideal))(i)
  {
    DcgTake(grades, d, k);
    DcgTake(SortDescending(ideal), d, k);
    JudgedDominated(grades, ideal, k);
    WeightedEqualIff(GainAt(grades), GainAt(SortDescending(ideal)), d, k);
  }

  /** nDCG is 1 exactly when every one of the first k ranks gains what the ideal gains there. */
  lemma {:induction false} FullScoreIff(grades: seq<int>, ideal: seq<int>, k: nat, d: nat -> real)
    requires IsStrictDiscount(d) && Judged(grades, ideal) && NonNegativeTop(ideal, k)
    ensures NdcgAt(grades, ideal, k, d) == 1.0 <==>
            && Dcg(Take(SortDescending(ideal), k), d) > EPSILON
            && forall i :: 0 <= i < k ==> GainAt(grades)(i) == GainAt(SortDescending(ideal))(i)
  {
    IdealIsMatchedIff(grades, ideal, k, d);
    var best := Dcg(Take(SortDescending(ideal), k), d);
    if best > EPSILON { Quotient(Dcg(Take(grades, k), d), best); }
  }

  // ----- small lists -----

  lemma {:induction false} SingleDcg(grade: int, d: nat -> real)
    ensures Dcg([grade], d) == Gain(grade) * d(0)
  {
    assert WeightedTo(GainAt([grade]), d, 0) == 0.0;
  }

  lemma {:induction false} SmallGains()
    ensures Gain(3) == 7.0 && Gain(1) == 1.0 && Gain(-1) == -0.5 && Gain(-2) == -0.75 && Gain(-3) == -0.875
  {
    assert Pow2(1) == 2.0 && Pow2(2) == 4.0 && Pow2(3) == 8.0;
    assert Pow2(-1) == 0.5 && Pow2(-2) == 0.25 && Pow2(-3) == 0.125;
  }

  lemma {:induction false} DcgOfTwo(a: int, b: int, d: nat -> real)
    ensures Dcg([a, b], d) == Gain(a) * d(0) + Gain(b) * d(1)
  {
    var f := GainAt([a, b]);
    assert WeightedTo(f, d, 1) == WeightedTo(f, d, 0) + Gain(a) * d(0);
  }

  lemma {:induction false} DescendingUnique(s: seq<int>, t: seq<int>)
    requires Descending(s) && Descending(t) && multiset(s) == multiset(t)
    ensures s == t
  {
    SortedUnique(Higher, s, t);
  }

  lemma {:induction false} GoodBesideBad(d: nat -> real)
    requires IsDiscount(d)
    ensures 6.5 * d(0) <= Dcg([3, -1], d) < Dcg([3], d)
  {
    DcgOfTwo(3, -1, d);
    SingleDcg(3, d);
    SmallGains();
    assert 0.0 < d(1) <= d(0);
  }

  // ----- where the upper bound stops holding -----

  lemma {:induction false} PositivesIdempotent(s: seq<int>)
    ensures Positives(Positives(s)) == Positives(s)
  {
    if s != [] {
      PositivesIdempotent(s[..|s| - 1]);
      var p := Positives(s);
      if s[|s| - 1] > 0 { assert p[..|p| - 1] == Positives(s[..|s| - 1]); }
    }
  }

  lemma {:induction false} PositivesWithin(s: seq<int>)
    ensures multiset(Positives(s)) <= multiset(s)
  {
    if s != [] {
      PositivesWithin(s[..|s| - 1]);
      assert s == s[..|s| - 1] + [s[|s| - 1]];
    }
  }

  lemma {:induction false} AllPositive(s: seq<int>)
    requires forall i :: 0 <= i < |s| ==> s[i] > 0
    ensures Positives(s) == s
  {
    if s != [] {
      AllPositive(s[..|s| - 1]);
      assert s == s[..|s| - 1] + [s[|s| - 1]];
    }
  }

  /** A descending list leads with its positives. */
  lemma {:induction false} PositivesLead(s: seq<int>)
    requires Descending(s)
    ensures Positives(s) == s[..|Positives(s)|]
    ensures forall i :: |Positives(s)| <= i < |s| ==> s[i] <= 0
  {
    if s != [] {
      var n := |s| - 1;
      if s[n] > 0 {
        AllPositive(s);
      } else {
        PositivesLead(s[..n]);
      }
    }
  }

  lemma {:induction false} BelowStep(eF: real, eG: real, x: real, y: real, c: real, eF': real, eG': real)
    requires eF <= eG && x <= y && c > 0.0
    requires eF' == eF + x * c && eG' == eG + y * c
    ensures eF' <= eG'
    ensures x < y || eF < eG ==> eF' < eG'
  {
    Distribute(y, x, c);
    NonNegativeProduct(y - x, c);
    if x < y && (y - x) * c == 0.0 { ZeroFactor(y - x, c); }
  }

  lemma {:induction false} WeightedBelow(f: nat -> real, g: nat -> real, d: nat -> real, n: nat, at: nat)
    requires IsDiscount(d) && forall i :: 0 <= i < n ==> f(i) <= g(i)
    ensures WeightedTo(f, d, n) <= WeightedTo(g, d, n)
    ensures at < n && f(at) < g(at) ==> WeightedTo(f, d, n) < WeightedTo(g, d, n)
  {
    if n > 0 {
      WeightedBelow(f, g, d, n - 1, at);
      BelowStep(WeightedTo(f, d, n - 1), WeightedTo(g, d, n - 1), f(n - 1), g(n - 1), d(n - 1),
                WeightedTo(f, d, n), WeightedTo(g, d, n));
    }
  }

  lemma {:induction false} FoundGainsMore(s: seq<int>, i: nat)
    requires Descending(s)
    ensures GainAt(s)(i) <= GainAt(Positives(s))(i)
    ensures i < |s| && s[i] < 0 ==> GainAt(s)(i) < GainAt(Positives(s))(i)
  {
    PositivesLead(s);
    var p := Positives(s);
    if i < |p| {
      assert s[i] == p[i] && p[i] in p;
    } else if i < |s| {
      GainSign(s[i]);
    }
  }

  lemma {:induction false} FoundGainsLess(s: seq<int>, t: seq<int>, i: nat)
    requires Descending(s) && (i < |s| ==> i < |t| && 0 <= t[i] && s[i] <= t[i])
    requires |t| <= |s|
    ensures GainAt(Positives(s))(i) <= GainAt(t)(i)
  {
    PositivesLead(s);
    if i < |s| {
      GainSign(t[i]);
      GainMonotone(s[i], t[i]);
    }
  }

  lemma {:induction false} FoundDcgMore(s: seq<int>, k: nat, d: nat -> real, at: nat)
    requires IsDiscount(d) && Descending(s) && at < k && at < |s| && s[at] < 0
    ensures Dcg(Take(s, k), d) < Dcg(Take(Positives(s), k), d)
  {
    forall i: nat ensures GainAt(s)(i) <= GainAt(Positives(s))(i) { FoundGainsMore(s, i); }
    FoundGainsMore(s, at);
    WeightedBelow(GainAt(s), GainAt(Positives(s)), d, k, at);
    DcgTake(s, d, k);
    DcgTake(Positives(s), d, k);
  }

  /** No judged ranking ever scores above 1. */
  ghost predicate AlwaysAtMostOne(ideal: seq<int>, k: nat, d: nat -> real) {
    forall grades :: Judged(grades, ideal) ==> NdcgAt(grades, ideal, k, d) <= 1.0
  }

  /** A negative grade among the first k of the ideal lowers the normaliser, and then the
      ranking that finds exactly the positive grades scores above 1. */
  lemma {:induction false} NegativeGradeOvershoots(ideal: seq<int>, k: nat, d: nat -> real)
    requires IsDiscount(d) && !NonNegativeTop(ideal, k)
    requires Dcg(Take(SortDescending(ideal), k), d) > EPSILON
    ensures Judged(Positives(SortDescending(ideal)), ideal)
    ensures NdcgAt(Positives(SortDescending(ideal)), ideal, k, d) > 1.0
  {
    var sorted := SortDescending(ideal);
    PositivesIdempotent(sorted);
    PositivesWithin(sorted);
    var at :| 0 <= at < k && at < |ideal| && sorted[at] < 0;
    FoundDcgMore(sorted, k, d, at);
    Quotient(Dcg(Take(Positives(sorted), k), d), Dcg(Take(sorted, k), d));
  }

  lemma {:induction false} AtMostOneIff(ideal: seq<int>, k: nat, d: nat -> real)
    requires IsDiscount(d)
    ensures AlwaysAtMostOne(ideal, k, d) <==>
            NonNegativeTop(ideal, k) || Dcg(Take(SortDescending(ideal), k), d) <= EPSILON
  {
    if NonNegativeTop(ideal, k) {
      forall grades | Judged(grades, ideal)
        ensures NdcgAt(grades, ideal, k, d) <= 1.0
      {
        NdcgBounds(grades, ideal, k, d);
      }
    } else if Dcg(Take(SortDescending(ideal), k), d) > EPSILON {
      NegativeGradeOvershoots(ideal, k, d);
    }
  }
}
