/** Algorithm R as `LoadStats.record` in scripts/soak_mcp_sessions.py runs it. */
module Reservoir {
  import opened Prelude

  /** One observation. The draw is looked at only when the bucket is full. */
  function Keep<T>(cap: nat, bucket: seq<T>, x: T, draw: nat): (r: seq<T>)
    requires |bucket| <= cap
    ensures |r| == if |bucket| < cap then |bucket| + 1 else cap
  {
    if |bucket| < cap then bucket + [x]
    else if draw < cap then bucket[draw := x]
    else bucket
  }

  /** One observation of Algorithm R: it joins a bucket with room, or takes the drawn place of a full one,
      or is dropped when the draw names no place. */
  ghost predicate Sampled<T>(cap: nat, was: seq<T>, x: T, draw: nat, now: seq<T>) {
    if |was| < cap then |now| == |was| + 1 && now[|was|] == x && forall i :: 0 <= i < |was| ==> now[i] == was[i]
    else |now| == |was| && forall i :: 0 <= i < |was| ==> now[i] == if i == draw < cap then x else was[i]
  }

  datatype Observation<T> = Observation(kind: string, sample: T, draw: nat)

  /** What the counters and the buckets hold. */
  datatype Tally<T> = Tally(calls: map<string, nat>, latencies: map<string, seq<T>>)

  function CallsOf(calls: map<string, nat>, kind: string): nat { if kind in calls then calls[kind] else 0 }

  function BucketOf<T>(latencies: map<string, seq<T>>, kind: string): seq<T> {
    if kind in latencies then latencies[kind] else []
  }

  ghost predicate Within<T>(cap: nat, t: Tally<T>) {
    forall kind :: kind in t.latencies ==> |t.latencies[kind]| <= cap
  }

  /** One more observation counts for its own kind only. */
  ghost function Counted<T>(cap: nat, t: Tally<T>, o: Observation<T>): (u: Tally<T>)
    requires Within(cap, t)
    ensures Within(cap, u)
  {
    Tally(t.calls[o.kind := CallsOf(t.calls, o.kind) + 1],
          t.latencies[o.kind := Keep(cap, BucketOf(t.latencies, o.kind), o.sample, o.draw)])
  }

  class LoadStats<T> {
    var calls: map<string, nat>
    var latencies: map<string, seq<T>>
    const cap: nat

    /** Each bucket holds as many samples as its calls, up to the capacity. */
    ghost predicate Valid()
      reads this
    {
      && 0 < cap
      && calls.Keys == latencies.Keys
      && forall kind :: kind in calls ==> |latencies[kind]| == (if calls[kind] < cap then calls[kind] else cap)
    }

    constructor (maxLatencySamples: nat)
      requires 1 <= maxLatencySamples
      ensures Valid() && calls == map[] && latencies == map[] && cap == maxLatencySamples
    {
      calls, latencies, cap := map[], map[], maxLatencySamples;
    }

    ghost function Value(): Tally<T>
      reads this
    {
      Tally(calls, latencies)
    }

    /** `draw` stands for `randrange(self.calls[kind])`, evaluated after the increment. */
    method Record(kind: string, sample: T, draw: nat)
      requires Valid() && draw <= CallsOf(calls, kind)
      modifies this
      ensures Valid() && Value() == Counted(cap, old(Value()), Observation(kind, sample, draw))
      ensures forall k :: CallsOf(calls, k) == CallsOf(old(calls), k) + (if k == kind then 1 else 0)
      ensures forall k :: k != kind ==> BucketOf(latencies, k) == BucketOf(old(latencies), k)
      ensures Sampled(cap, BucketOf(old(latencies), kind), sample, draw, BucketOf(latencies, kind))
    {
      calls := calls[kind := CallsOf(calls, kind) + 1];
      var bucket := BucketOf(latencies, kind);
      if |bucket| < cap {
        latencies := latencies[kind := bucket + [sample]];
        return;
      }
      var index := draw;
      if index < cap {
        bucket := bucket[index := sample];
      }
      latencies := latencies[kind := bucket];
    }
  }

  // ----- runs beyond the capacity -----

  /** The bucket after a stream, given one draw for each observation beyond the first `cap`. */
  function After<T>(cap: nat, stream: seq<T>, draws: seq<nat>): (bucket: seq<T>)
    requires |stream| == cap + |draws|
    ensures |bucket| == cap
    decreases |draws|
  {
    if draws == [] then stream
    else
      var n := |draws| - 1;
      Keep(cap, After(cap, stream[..cap + n], draws[..n]), stream[cap + n], draws[n])
  }

  /** The bucket of one kind after recording a whole stream, one draw an observation. */
  function Recorded<T>(cap: nat, stream: seq<T>, draws: seq<nat>): (bucket: seq<T>)
    requires |draws| == |stream|
    ensures |bucket| == if |stream| < cap then |stream| else cap
  {
    if stream == [] then []
    else
      var n := |stream| - 1;
      Keep(cap, Recorded(cap, stream[..n], draws[..n]), stream[n], draws[n])
  }

  /** Short streams are kept whole; beyond the capacity only the later draws matter. */
  lemma {:induction false} RecordedIs<T>(cap: nat, stream: seq<T>, draws: seq<nat>)
    requires |draws| == |stream|
    ensures |stream| <= cap ==> Recorded(cap, stream, draws) == stream
    ensures |stream| >= cap ==> Recorded(cap, stream, draws) == After(cap, stream, draws[cap..])
    decreases |stream|
  {
    if stream != [] {
      var n := |stream| - 1;
      RecordedIs(cap, stream[..n], draws[..n]);
      assert stream == stream[..n] + [stream[n]];
      if cap < |stream| {
        assert draws[..n][cap..] == draws[cap..][..n - cap];
      }
    }
  }

  /** The stream that numbers its own observations. */
  function Positions(n: nat): seq<nat> { seq(n, i => i) }

  /** The observation numbers retained under the given draws. */
  function Retained(cap: nat, draws: seq<nat>): (r: seq<nat>)
    ensures |r| == cap
  {
    After(cap, Positions(cap + |draws|), draws)
  }

  lemma {:induction false} RetainedStep(cap: nat, draws: seq<nat>, d: nat)
    ensures Retained(cap, draws + [d]) == Keep(cap, Retained(cap, draws), cap + |draws|, d)
  {
    var n := cap + |draws|;
    assert Positions(n + 1)[..n] == Positions(n);
    assert (draws + [d])[..|draws|] == draws;
  }

  /** Whatever the draws, the bucket holds distinct observations of the stream. */
  lemma {:induction false} RetainedDistinct(cap: nat, draws: seq<nat>)
    ensures NoRepeats(Retained(cap, draws))
    ensures forall i :: 0 <= i < cap ==> Retained(cap, draws)[i] < cap + |draws|
    decreases |draws|
  {
    if draws != [] {
      var n := |draws| - 1;
      RetainedDistinct(cap, draws[..n]);
      RetainedStep(cap, draws[..n], draws[n]);
      assert draws[..n] + [draws[n]] == draws;
    }
  }

  /** The bucket holds the stream's values at the given places. */
  ghost predicate Located<T>(stream: seq<T>, bucket: seq<T>, places: seq<nat>) {
    |bucket| == |places| && forall i :: 0 <= i < |bucket| ==> places[i] < |stream| && bucket[i] == stream[places[i]]
  }

  /** A sample and its position are kept or replaced together. */
  lemma {:induction false} KeptTogether<T>(stream: seq<T>, x: T, bucket: seq<T>, places: seq<nat>, d: nat)
    requires Located(stream, bucket, places)
    ensures Located(stream + [x], Keep(|bucket|, bucket, x, d), Keep(|bucket|, places, |stream|, d))
  {
  }

  lemma {:induction false} AfterStep<T>(cap: nat, stream: seq<T>, x: T, draws: seq<nat>, d: nat)
    requires |stream| == cap + |draws|
    ensures After(cap, stream + [x], draws + [d]) == Keep(cap, After(cap, stream, draws), x, d)
  {
    assert (stream + [x])[..|stream|] == stream && (draws + [d])[..|draws|] == draws;
  }

  /** The retained samples are the stream's values at the retained positions. */
  lemma {:induction false} AfterIsRetained<T>(cap: nat, stream: seq<T>, draws: seq<nat>)
    requires |stream| == cap + |draws|
    ensures Located(stream, After(cap, stream, draws), Retained(cap, draws))
    decreases |draws|
  {
    if draws == [] {
      assert Retained(cap, draws) == Positions(cap);
    } else {
      var front, x, early, d := stream[..|stream| - 1], stream[|stream| - 1], draws[..|draws| - 1], draws[|draws| - 1];
      AfterIsRetained(cap, front, early);
      assert stream == front + [x] && draws == early + [d];
      AfterStep(cap, front, x, early, d);
      RetainedStep(cap, early, d);
      KeptTogether(front, x, After(cap, front, early), Retained(cap, early), d);
    }
  }

  // ----- runs over several kinds -----

  /** The counters and buckets after a run of calls to `record`. */
  ghost function TallyOf<T>(cap: nat, run: seq<Observation<T>>): (t: Tally<T>)
    ensures Within(cap, t)
  {
    if run == [] then Tally(map[], map[])
    else
      var n := |run| - 1;
      Counted(cap, TallyOf(cap, run[..n]), run[n])
  }

  /** The observations of one kind, in order. */
  function OfKind<T>(run: seq<Observation<T>>, kind: string): seq<Observation<T>> {
    if run == [] then []
    else
      var n := |run| - 1;
      OfKind(run[..n], kind) + (if run[n].kind == kind then [run[n]] else [])
  }

  function Samples<T>(run: seq<Observation<T>>): seq<T> {
    seq(|run|, i requires 0 <= i < |run| => run[i].sample)
  }

  function Draws<T>(run: seq<Observation<T>>): seq<nat> {
    seq(|run|, i requires 0 <= i < |run| => run[i].draw)
  }

  /** Every draw comes from the numbers below its kind's count of calls, this one included. */
  ghost predicate Drawn<T>(run: seq<Observation<T>>) {
    forall i :: 0 <= i < |run| ==> run[i].draw <= |OfKind(run[..i], run[i].kind)|
  }

  lemma {:induction false} RecordedNext<T>(cap: nat, own: seq<Observation<T>>, o: Observation<T>)
    ensures Recorded(cap, Samples(own + [o]), Draws(own + [o])) ==
            Keep(cap, Recorded(cap, Samples(own), Draws(own)), o.sample, o.draw)
  {
    assert Samples(own + [o])[..|own|] == Samples(own);
    assert Draws(own + [o])[..|own|] == Draws(own);
  }

  /** However the kinds interleave, each bucket is what its own observations alone would make of it. */
  lemma {:induction false} BucketOfKind<T>(cap: nat, run: seq<Observation<T>>, kind: string)
    ensures var t, own := TallyOf(cap, run), OfKind(run, kind);
            && CallsOf(t.calls, kind) == |own|
            && BucketOf(t.latencies, kind) == Recorded(cap, Samples(own), Draws(own))
  {
    if run != [] {
      var n := |run| - 1;
      BucketOfKind(cap, run[..n], kind);
      var own := OfKind(run[..n], kind);
      if run[n].kind == kind {
        RecordedNext(cap, own, run[n]);
      } else {
        assert OfKind(run, kind) == own;
      }
    }
  }

  lemma {:induction false} OwnDraws<T>(run: seq<Observation<T>>, kind: string, j: nat)
    requires Drawn(run) && j < |OfKind(run, kind)|
    ensures OfKind(run, kind)[j].draw <= j
  {
    var n := |run| - 1;
    if j < |OfKind(run[..n], kind)| {
      assert forall i :: 0 <= i < n ==> run[..n][..i] == run[..i];
      OwnDraws(run[..n], kind, j);
    }
  }

  lemma {:induction false} LateDraws<T>(cap: nat, run: seq<Observation<T>>, kind: string)
    requires Drawn(run) && |OfKind(run, kind)| >= cap
    ensures IsDraws(cap, |OfKind(run, kind)| - cap, Draws(OfKind(run, kind))[cap..])
  {
    var own := OfKind(run, kind);
    forall j | 0 <= j < |own| - cap ensures Draws(own)[cap..][j] <= cap + j { OwnDraws(run, kind, cap + j); }
  }

  /** A full bucket is the retained part of its kind's stream under draws that the counting below
      ranges over, so its kind's observations are all as likely to be in it. */
  lemma {:induction false} FullBucket<T>(cap: nat, run: seq<Observation<T>>, kind: string)
    requires Drawn(run) && |OfKind(run, kind)| >= cap
    ensures var own := OfKind(run, kind);
            var late := Draws(own)[cap..];
            && IsDraws(cap, |own| - cap, late)
            && BucketOf(TallyOf(cap, run).latencies, kind) == After(cap, Samples(own), late)
  {
    var own := OfKind(run, kind);
    BucketOfKind(cap, run, kind);
    RecordedIs(cap, Samples(own), Draws(own));
    LateDraws(cap, run, kind);
  }

  // ----- counting draw sequences -----

  /** `m` draws after a full bucket: the j-th comes from `cap + j + 1` values. */
  ghost predicate IsDraws(cap: nat, m: nat, draws: seq<nat>) {
    |draws| == m && forall j :: 0 <= j < m ==> draws[j] <= cap + j
  }

  ghost predicate AreAllDraws(cap: nat, m: nat, all: set<seq<nat>>) {
    forall ds :: ds in all <==> IsDraws(cap, m, ds)
  }

  /** All of them, each as likely as any other. */
  ghost function AllDraws(cap: nat, m: nat): (all: set<seq<nat>>)
    ensures AreAllDraws(cap, m, all)
  {
    SomeSetHasAllDraws(cap, m);
    var all: set<seq<nat>> :| AreAllDraws(cap, m, all);
    all
  }

  lemma {:induction false} SomeSetHasAllDraws(cap: nat, m: nat)
    ensures exists all :: AreAllDraws(cap, m, all)
  {
    var all := FinitelyManyDraws(cap, m);
  }

  lemma {:induction false} FinitelyManyDraws(cap: nat, m: nat) returns (all: set<seq<nat>>)
    ensures AreAllDraws(cap, m, all)
  {
    if m == 0 {
      all := {[]};
    } else {
      var shorter := FinitelyManyDraws(cap, m - 1);
      all := set ds, d | ds in shorter && d in NumbersBelow(cap + m) :: ds + [d];
      forall ds
        ensures ds in all <==> IsDraws(cap, m, ds)
      {
        if IsDraws(cap, m, ds) {
          assert ds == ds[..m - 1] + [ds[m - 1]] && IsDraws(cap, m - 1, ds[..m - 1]);
        }
      }
    }
  }

  /** The draw sequences after which the bucket holds exactly the observations in `kept`. */
  ghost function Outcomes(cap: nat, m: nat, kept: set<nat>): set<seq<nat>> {
    set ds | ds in AllDraws(cap, m) && Elements(Retained(cap, ds)) == kept
  }

  function Factorial(n: nat): nat { if n == 0 then 1 else n * Factorial(n - 1) }

  // Cardinality of a union of equally large disjoint families.

  ghost predicate Family<I(!new), T(!new)>(index: set<I>, f: I -> set<T>, size: nat) {
    && (forall i :: i in index ==> |f(i)| == size)
    && (forall i, j :: i in index && j in index && i != j ==> f(i) !! f(j))
  }

  ghost function Union<I(!new), T(!new)>(index: set<I>, f: I -> set<T>): set<T> {
    set i, x | i in index && x in f(i) :: x
  }

  lemma {:induction false} UnionPick<I(!new), T(!new)>(index: set<I>, f: I -> set<T>, i: I, size: nat)
    requires Family(index, f, size) && i in index
    ensures Union(index, f) == f(i) + Union(index - {i}, f)
    ensures f(i) !! Union(index - {i}, f)
    ensures Family(index - {i}, f, size)
  {
  }

  lemma {:induction false} MulSuccessor(a: nat, b: nat)
    ensures (a + 1) * b == a * b + b
  {
  }

  lemma {:induction false} UnionSize<I(!new), T(!new)>(index: set<I>, f: I -> set<T>, size: nat)
    requires Family(index, f, size)
    ensures |Union(index, f)| == |index| * size
  {
    if index == {} {
      assert Union(index, f) == {};
    } else {
      var i := PickOne(index);
      var rest := index - {i};
      UnionPick(index, f, i, size);
      UnionSize(rest, f, size);
      MulSuccessor(|rest|, size);
    }
  }

  ghost function Image<T(!new), U(!new)>(s: set<T>, g: T -> U): set<U> { set x | x in s :: g(x) }

  /** An injective image has as many elements. */
  lemma {:induction false} ImageSize<T(!new), U(!new)>(s: set<T>, g: T -> U)
    requires forall x, y :: x in s && y in s && g(x) == g(y) ==> x == y
    ensures |Image(s, g)| == |s|
  {
    if s != {} {
      var x := PickOne(s);
      ImageSize(s - {x}, g);
      assert Image(s, g) == {g(x)} + Image(s - {x}, g);
      assert g(x) !in Image(s - {x}, g);
    }
  }

  // ----- extending draw sequences by one -----

  function Front(s: seq<nat>): seq<nat>
    requires s != []
  {
    s[..|s| - 1]
  }

  function Last(s: seq<nat>): nat
    requires s != []
  {
    s[|s| - 1]
  }

  lemma {:induction false} FrontLast(s: seq<nat>, d: nat)
    ensures Front(s + [d]) == s && Last(s + [d]) == d
    ensures s != [] ==> Front(s) + [Last(s)] == s
  {
  }

  ghost function Extensions(shorter: set<seq<nat>>, index: set<nat>): set<seq<nat>> {
    set ds, d | ds in shorter && d in index :: ds + [d]
  }

  lemma {:induction false} InExtensions(shorter: set<seq<nat>>, index: set<nat>, draws: seq<nat>)
    ensures draws in Extensions(shorter, index) <==> draws != [] && Front(draws) in shorter && Last(draws) in index
  {
    if draws in Extensions(shorter, index) {
      var ds, d :| ds in shorter && d in index && draws == ds + [d];
      FrontLast(ds, d);
    }
    FrontLast(draws, 0);
  }

  ghost function EndedBy(shorter: set<seq<nat>>, g: seq<nat> -> nat): set<seq<nat>> {
    set ds | ds in shorter :: ds + [g(ds)]
  }

  lemma {:induction false} InEndedBy(shorter: set<seq<nat>>, g: seq<nat> -> nat, draws: seq<nat>)
    ensures draws in EndedBy(shorter, g) <==> draws != [] && Front(draws) in shorter && Last(draws) == g(Front(draws))
  {
    if draws in EndedBy(shorter, g) {
      var ds :| ds in shorter && draws == ds + [g(ds)];
      FrontLast(ds, g(ds));
    }
    FrontLast(draws, 0);
  }

  lemma {:induction false} EndedBySize(shorter: set<seq<nat>>, g: seq<nat> -> nat)
    ensures |EndedBy(shorter, g)| == |shorter|
  {
    var h := (ds: seq<nat>) => ds + [g(ds)];
    forall a, b | a in shorter && b in shorter && h(a) == h(b)
      ensures a == b
    {
      FrontLast(a, g(a));
      FrontLast(b, g(b));
    }
    ImageSize(shorter, h);
    assert Image(shorter, h) == EndedBy(shorter, g);
  }

  lemma {:induction false} ExtensionsSize(shorter: set<seq<nat>>, index: set<nat>)
    ensures |Extensions(shorter, index)| == |index| * |shorter|
  {
    var f := (d: nat) => EndedBy(shorter, _ => d);
    forall d ensures |f(d)| == |shorter| { EndedBySize(shorter, _ => d); }
    forall d, e | d != e ensures f(d) !! f(e) { EndedApart(shorter, d, e); }
    UnionSize(index, f, |shorter|);
    forall x
      ensures x in Extensions(shorter, index) <==> x in Union(index, f)
    {
      InExtensions(shorter, index, x);
      forall d ensures x in f(d) <==> x != [] && Front(x) in shorter && Last(x) == d { InEndedBy(shorter, _ => d, x); }
      assert x in Union(index, f) <==> exists d :: d in index && x in f(d);
    }
    assert Extensions(shorter, index) == Union(index, f);
  }

  lemma {:induction false} EndedApart(shorter: set<seq<nat>>, d: nat, e: nat)
    requires d != e
    ensures EndedBy(shorter, _ => d) !! EndedBy(shorter, _ => e)
  {
    var first := EndedBy(shorter, _ => d);
    forall x | x in first
      ensures x !in EndedBy(shorter, _ => e)
    {
      InEndedBy(shorter, _ => d, x);
      InEndedBy(shorter, _ => e, x);
    }
  }

  /** A sequence of `m` draws is one of `m - 1` and a last draw below `cap + m`. */
  lemma {:induction false} LastDraw(cap: nat, m: nat, draws: seq<nat>)
    requires m > 0
    ensures IsDraws(cap, m, draws) <==> draws != [] && IsDraws(cap, m - 1, Front(draws)) && Last(draws) < cap + m
  {
  }

  lemma {:induction false} AllDrawsExtend(cap: nat, m: nat)
    requires m > 0
    ensures AllDraws(cap, m) == Extensions(AllDraws(cap, m - 1), NumbersBelow(cap + m))
  {
    forall ds
      ensures ds in AllDraws(cap, m) <==> ds in Extensions(AllDraws(cap, m - 1), NumbersBelow(cap + m))
    {
      InExtensions(AllDraws(cap, m - 1), NumbersBelow(cap + m), ds);
      LastDraw(cap, m, ds);
    }
  }

  lemma {:induction false} DrawCountStep(cap: nat, m: nat)
    requires m > 0
    ensures |AllDraws(cap, m)| == (cap + m) * |AllDraws(cap, m - 1)|
  {
    AllDrawsExtend(cap, m);
    ExtensionsSize(AllDraws(cap, m - 1), NumbersBelow(cap + m));
  }

  lemma {:induction false} MulRegroup(a: nat, b: nat, c: nat)
    ensures a * b * c == a * (b * c) && a * b * c == b * (a * c)
  {
  }

  lemma {:induction false} DrawCount(cap: nat, m: nat)
    ensures |AllDraws(cap, m)| * Factorial(cap) == Factorial(cap + m)
  {
    if m == 0 {
      assert AllDraws(cap, 0) == {[]};
    } else {
      DrawCount(cap, m - 1);
      DrawCountStep(cap, m);
      MulRegroup(cap + m, |AllDraws(cap, m - 1)|, Factorial(cap));
    }
  }

  // ----- what the last draw does to the bucket -----

  /** A draw beyond the capacity leaves the bucket; a draw within it swaps one observation out. */
  lemma {:induction false} ContentsStep(cap: nat, draws: seq<nat>)
    requires draws != []
    ensures var was, now := Retained(cap, Front(draws)), Retained(cap, draws);
            var n, d := cap + |draws| - 1, Last(draws);
            && n !in Elements(was)
            && (d >= cap ==> Elements(now) == Elements(was))
            && (d < cap ==> Elements(now) == Elements(was) - {was[d]} + {n})
  {
    var ds, d := Front(draws), Last(draws);
    FrontLast(draws, 0);
    RetainedStep(cap, ds, d);
    RetainedDistinct(cap, ds);
    var was, n := Retained(cap, ds), cap + |ds|;
    if d < cap {
      SwapContents(was, d, n);
    }
  }

  lemma {:induction false} SwapContents(was: seq<nat>, d: nat, n: nat)
    requires d < |was| && NoRepeats(was)
    ensures Elements(was[d := n]) == Elements(was) - {was[d]} + {n}
  {
    var now := was[d := n];
    assert now[d] == n;
    forall x | x in was && x != was[d]
      ensures x in now
    {
      var i :| 0 <= i < |was| && was[i] == x;
      assert now[i] == x;
    }
  }

  ghost function Slot(cap: nat, ds: seq<nat>, x: nat): (d: nat)
    ensures x in Elements(Retained(cap, ds)) ==> d < cap && Retained(cap, ds)[d] == x
  {
    if x in Elements(Retained(cap, ds)) then var d: nat :| d < cap && Retained(cap, ds)[d] == x; d else 0
  }

  lemma {:induction false} SlotOnly(cap: nat, ds: seq<nat>, d: nat)
    requires d < cap
    ensures Retained(cap, ds)[d] in Elements(Retained(cap, ds)) && Slot(cap, ds, Retained(cap, ds)[d]) == d
  {
    RetainedDistinct(cap, ds);
  }

  // ----- uniformity -----

  /** The newest observation is absent: the last draw was one of the `m` misses. */
  lemma {:induction false} OutcomesWithoutNewestAre(cap: nat, m: nat, kept: set<nat>)
    requires m > 0 && cap + m - 1 !in kept
    ensures Outcomes(cap, m, kept) == Extensions(Outcomes(cap, m - 1, kept), NumbersBelow(cap + m) - NumbersBelow(cap))
  {
    var shorter, misses := Outcomes(cap, m - 1, kept), NumbersBelow(cap + m) - NumbersBelow(cap);
    forall draws
      ensures draws in Outcomes(cap, m, kept) <==> draws in Extensions(shorter, misses)
    {
      InExtensions(shorter, misses, draws);
      LastDraw(cap, m, draws);
      if draws != [] { ContentsStep(cap, draws); }
    }
  }

  lemma {:induction false} OutcomesWithoutNewest(cap: nat, m: nat, kept: set<nat>)
    requires m > 0 && cap + m - 1 !in kept
    ensures |Outcomes(cap, m, kept)| == m * |Outcomes(cap, m - 1, kept)|
  {
    OutcomesWithoutNewestAre(cap, m, kept);
    assert NumbersBelow(cap) <= NumbersBelow(cap + m);
    ExtensionsSize(Outcomes(cap, m - 1, kept), NumbersBelow(cap + m) - NumbersBelow(cap));
  }

  /** The bucket before the newest observation took the place of `x`. */
  ghost function Before(cap: nat, m: nat, kept: set<nat>, x: nat): set<nat>
    requires m > 0
  {
    kept - {cap + m - 1} + {x}
  }

  /** Draw sequences that end by replacing observation `x` with the newest one. */
  ghost function SwapOut(cap: nat, m: nat, kept: set<nat>, x: nat): set<seq<nat>>
    requires m > 0
  {
    EndedBy(Outcomes(cap, m - 1, Before(cap, m, kept, x)), ds => Slot(cap, ds, x))
  }

  lemma {:induction false} InSwapOut(cap: nat, m: nat, kept: set<nat>, x: nat, draws: seq<nat>)
    requires m > 0
    ensures draws in SwapOut(cap, m, kept, x) <==>
            && draws != [] && IsDraws(cap, m - 1, Front(draws))
            && Elements(Retained(cap, Front(draws))) == Before(cap, m, kept, x)
            && Last(draws) == Slot(cap, Front(draws), x)
  {
    InEndedBy(Outcomes(cap, m - 1, Before(cap, m, kept, x)), ds => Slot(cap, ds, x), draws);
  }

  lemma {:induction false} NewestReplacesOne(cap: nat, m: nat, kept: set<nat>, draws: seq<nat>)
    requires m > 0 && cap + m - 1 in kept && kept <= NumbersBelow(cap + m)
    requires draws in Outcomes(cap, m, kept)
    ensures exists x :: x in NumbersBelow(cap + m - 1) - kept && draws in SwapOut(cap, m, kept, x)
  {
    LastDraw(cap, m, draws);
    ContentsStep(cap, draws);
    var ds, d := Front(draws), Last(draws);
    RetainedDistinct(cap, ds);
    SlotOnly(cap, ds, d);
    var x := Retained(cap, ds)[d];
    assert Elements(Retained(cap, ds)) == Before(cap, m, kept, x);
    InSwapOut(cap, m, kept, x, draws);
  }

  lemma {:induction false} SwappedIn(cap: nat, draws: seq<nat>, kept: set<nat>, x: nat)
    requires draws != [] && cap + |draws| - 1 in kept && x !in kept
    requires Elements(Retained(cap, Front(draws))) == kept - {cap + |draws| - 1} + {x}
    requires Last(draws) == Slot(cap, Front(draws), x)
    ensures Last(draws) < cap && Elements(Retained(cap, draws)) == kept
  {
    assert x in Elements(Retained(cap, Front(draws)));
    ContentsStep(cap, draws);
    SwapBack(kept, cap + |draws| - 1, x);
  }

  lemma {:induction false} SwapOutIsOutcome(cap: nat, m: nat, kept: set<nat>, x: nat, draws: seq<nat>)
    requires m > 0 && cap + m - 1 in kept && x in NumbersBelow(cap + m - 1) - kept
    requires draws in SwapOut(cap, m, kept, x)
    ensures draws in Outcomes(cap, m, kept)
  {
    InSwapOut(cap, m, kept, x, draws);
    SwappedIn(cap, draws, kept, x);
    LastDraw(cap, m, draws);
  }

  lemma {:induction false} SwapBack(kept: set<nat>, n: nat, x: nat)
    requires n in kept && x !in kept
    ensures kept - {n} + {x} - {x} + {n} == kept
  {
  }

  lemma {:induction false} BeforeIs(cap: nat, m: nat, kept: set<nat>, x: nat)
    requires m > 0 && kept <= NumbersBelow(cap + m) && cap + m - 1 in kept && x in NumbersBelow(cap + m - 1) - kept
    ensures |Before(cap, m, kept, x)| == |kept| && Before(cap, m, kept, x) <= NumbersBelow(cap + m - 1)
  {
  }

  lemma {:induction false} SwapOutSize(cap: nat, m: nat, kept: set<nat>, x: nat, size: nat)
    requires m > 0 && |Outcomes(cap, m - 1, Before(cap, m, kept, x))| == size
    ensures |SwapOut(cap, m, kept, x)| == size
  {
    EndedBySize(Outcomes(cap, m - 1, Before(cap, m, kept, x)), ds => Slot(cap, ds, x));
  }

  lemma {:induction false} SwapOutApart(cap: nat, m: nat, kept: set<nat>, x: nat, y: nat)
    requires m > 0 && x != y && x !in kept && y !in kept
    ensures SwapOut(cap, m, kept, x) !! SwapOut(cap, m, kept, y)
  {
    forall draws | draws in SwapOut(cap, m, kept, x)
      ensures draws !in SwapOut(cap, m, kept, y)
    {
      InSwapOut(cap, m, kept, x, draws);
      InSwapOut(cap, m, kept, y, draws);
      assert x in Before(cap, m, kept, x) && x !in Before(cap, m, kept, y);
    }
  }

  /** The newest observation is kept: it swapped out one of the `m` older ones not kept. */
  lemma {:induction false} OutcomesWithNewest(cap: nat, m: nat, kept: set<nat>, size: nat)
    requires m > 0 && cap + m - 1 in kept && kept <= NumbersBelow(cap + m) && |kept| == cap
    requires forall x :: x in NumbersBelow(cap + m - 1) - kept ==> |SwapOut(cap, m, kept, x)| == size
    ensures |Outcomes(cap, m, kept)| == m * size
  {
    var swapped, f := NumbersBelow(cap + m - 1) - kept, (x: nat) => SwapOut(cap, m, kept, x);
    SwappedCount(cap, m, kept);
    forall x, y | x in swapped && y in swapped && x != y ensures f(x) !! f(y) { SwapOutApart(cap, m, kept, x, y); }
    UnionSize(swapped, f, size);
    forall draws
      ensures draws in Outcomes(cap, m, kept) <==> draws in Union(swapped, f)
    {
      if draws in Outcomes(cap, m, kept) {
        NewestReplacesOne(cap, m, kept, draws);
        var x :| x in swapped && draws in SwapOut(cap, m, kept, x);
        assert draws in f(x);
      }
      if draws in Union(swapped, f) {
        var x :| x in swapped && draws in f(x);
        SwapOutIsOutcome(cap, m, kept, x, draws);
      }
    }
    assert Outcomes(cap, m, kept) == Union(swapped, f);
  }

  lemma {:induction false} OlderKept(cap: nat, m: nat, kept: set<nat>)
    requires m > 0 && cap + m - 1 in kept && kept <= NumbersBelow(cap + m)
    ensures kept - {cap + m - 1} <= NumbersBelow(cap + m - 1) && |kept - {cap + m - 1}| == |kept| - 1
    ensures NumbersBelow(cap + m - 1) - kept == NumbersBelow(cap + m - 1) - (kept - {cap + m - 1})
  {
    forall i | i in kept ensures i in NumbersBelow(cap + m) {}
  }

  lemma {:induction false} SwappedCount(cap: nat, m: nat, kept: set<nat>)
    requires m > 0 && cap + m - 1 in kept && kept <= NumbersBelow(cap + m) && |kept| == cap
    ensures |NumbersBelow(cap + m - 1) - kept| == m
  {
    OlderKept(cap, m, kept);
    DifferenceSize(NumbersBelow(cap + m - 1), kept - {cap + m - 1});
  }

  /** Algorithm R is exactly uniform: every set of `cap` observations out of `cap + m` is what
      the bucket holds after the same number, m!, of the equally likely draw sequences. */
  lemma {:induction false} EverySubsetEquallyOften(cap: nat, m: nat, kept: set<nat>)
    requires kept <= NumbersBelow(cap + m) && |kept| == cap
    ensures |Outcomes(cap, m, kept)| == Factorial(m)
    decreases m, 2
  {
    if m == 0 {
      FirstBucket(cap, kept);
    } else if cap + m - 1 in kept {
      NewestEquallyOften(cap, m, kept);
    } else {
      forall i | i in kept ensures i in NumbersBelow(cap + m - 1) { assert i in NumbersBelow(cap + m); }
      EverySubsetEquallyOften(cap, m - 1, kept);
      OutcomesWithoutNewest(cap, m, kept);
    }
  }

  lemma {:induction false} NewestEquallyOften(cap: nat, m: nat, kept: set<nat>)
    requires m > 0 && kept <= NumbersBelow(cap + m) && |kept| == cap && cap + m - 1 in kept
    ensures |Outcomes(cap, m, kept)| == Factorial(m)
    decreases m, 1
  {
    forall x | x in NumbersBelow(cap + m - 1) - kept
      ensures |SwapOut(cap, m, kept, x)| == Factorial(m - 1)
    {
      SwapOutShare(cap, m, kept, x);
    }
    OutcomesWithNewest(cap, m, kept, Factorial(m - 1));
  }

  lemma {:induction false} SwapOutShare(cap: nat, m: nat, kept: set<nat>, x: nat)
    requires m > 0 && kept <= NumbersBelow(cap + m) && |kept| == cap
    requires cap + m - 1 in kept && x in NumbersBelow(cap + m - 1) - kept
    ensures |SwapOut(cap, m, kept, x)| == Factorial(m - 1)
    decreases m, 0
  {
    BeforeIs(cap, m, kept, x);
    EverySubsetEquallyOften(cap, m - 1, Before(cap, m, kept, x));
    SwapOutSize(cap, m, kept, x, Factorial(m - 1));
  }

  lemma {:induction false} FirstBucket(cap: nat, kept: set<nat>)
    requires kept <= NumbersBelow(cap) && |kept| == cap
    ensures Outcomes(cap, 0, kept) == {[]}
  {
    assert |NumbersBelow(cap) - kept| == |NumbersBelow(cap)| - |kept|;
    assert NumbersBelow(cap) - kept == {};
    forall i: nat
      ensures i in Elements(Retained(cap, [])) <==> i in kept
    {
      if i < cap { assert Positions(cap)[i] == i; }
      assert i in NumbersBelow(cap) <==> i < cap;
      assert Retained(cap, []) == Positions(cap);
    }
    assert Elements(Retained(cap, [])) == kept;
    assert IsDraws(cap, 0, []);
  }

  // ----- the share of a single observation -----

  ghost function Keeping(cap: nat, m: nat, p: nat): set<seq<nat>> {
    set ds | ds in AllDraws(cap, m) && p in Elements(Retained(cap, ds))
  }

  /** An older observation survives every last draw but the one that names its slot. */
  lemma {:induction false} KeepingOlderAre(cap: nat, m: nat, p: nat)
    requires m > 0 && p < cap + m - 1
    ensures var shorter := Keeping(cap, m - 1, p);
            var every := Extensions(shorter, NumbersBelow(cap + m));
    var lost := EndedBy(shorter, (ds: seq<nat>) => Slot(cap, ds, p));
            lost <= every && Keeping(cap, m, p) == every - lost
  {
    var shorter, g := Keeping(cap, m - 1, p), (ds: seq<nat>) => Slot(cap, ds, p);
    var every, lost := Extensions(shorter, NumbersBelow(cap + m)), EndedBy(shorter, g);
    forall draws
      ensures draws in lost ==> draws in every
      ensures draws in Keeping(cap, m, p) <==> draws in every - lost
    {
      InExtensions(shorter, NumbersBelow(cap + m), draws);
      InEndedBy(shorter, g, draws);
      LastDraw(cap, m, draws);
      if draws != [] {
        ContentsStep(cap, draws);
        if Last(draws) < cap { SlotOnly(cap, Front(draws), Last(draws)); }
      }
    }
  }

  lemma {:induction false} ExtensionsButOne(shorter: set<seq<nat>>, index: set<nat>, g: seq<nat> -> nat)
    requires EndedBy(shorter, g) <= Extensions(shorter, index)
    ensures |Extensions(shorter, index) - EndedBy(shorter, g)| == |index| * |shorter| - |shorter|
  {
    ExtensionsSize(shorter, index);
    EndedBySize(shorter, g);
    DifferenceSize(Extensions(shorter, index), EndedBy(shorter, g));
  }

  lemma {:induction false} KeepingOlder(cap: nat, m: nat, p: nat)
    requires m > 0 && p < cap + m - 1
    ensures |Keeping(cap, m, p)| == (cap + m) * |Keeping(cap, m - 1, p)| - |Keeping(cap, m - 1, p)|
  {
    KeepingOlderAre(cap, m, p);
    ExtensionsButOne(Keeping(cap, m - 1, p), NumbersBelow(cap + m), (ds: seq<nat>) => Slot(cap, ds, p));
  }

  lemma {:induction false} DifferenceSize<T>(a: set<T>, b: set<T>)
    requires b <= a
    ensures |a - b| == |a| - |b|
  {
    assert a == (a - b) + b;
  }

  lemma {:induction false} KeepingNewest(cap: nat, m: nat)
    requires m > 0
    ensures |Keeping(cap, m, cap + m - 1)| == cap * |AllDraws(cap, m - 1)|
  {
    var shorter, n := AllDraws(cap, m - 1), cap + m - 1;
    ExtensionsSize(shorter, NumbersBelow(cap));
    forall draws
      ensures draws in Keeping(cap, m, n) <==> draws in Extensions(shorter, NumbersBelow(cap))
    {
      InExtensions(shorter, NumbersBelow(cap), draws);
      LastDraw(cap, m, draws);
      if draws != [] { ContentsStep(cap, draws); }
    }
    assert Keeping(cap, m, n) == Extensions(shorter, NumbersBelow(cap));
  }

  lemma {:induction false} ShareArithmetic(cap: nat, n: nat, keeping: nat, shorter: nat, all: nat)
    requires keeping == cap * shorter && all == n * shorter
    ensures keeping * n == cap * all
  {
    MulRegroup(cap, shorter, n);
    MulRegroup(n, shorter, cap);
  }

  /** Every observation out of N = cap + m is retained under exactly cap/N of the draw sequences. */
  lemma {:induction false} EveryObservationEquallyOften(cap: nat, m: nat, p: nat)
    requires p < cap + m
    ensures |Keeping(cap, m, p)| * (cap + m) == cap * |AllDraws(cap, m)|
    decreases m
  {
    if m == 0 {
      assert Positions(cap)[p] == p;
      assert p in Elements(Retained(cap, []));
      assert IsDraws(cap, 0, []);
      assert Keeping(cap, 0, p) == AllDraws(cap, 0) == {[]};
    } else {
      var shorter := |AllDraws(cap, m - 1)|;
      DrawCountStep(cap, m);
      if p == cap + m - 1 {
        KeepingNewest(cap, m);
      } else {
        KeepingOlder(cap, m, p);
        EveryObservationEquallyOften(cap, m - 1, p);
        assert (cap + m) * |Keeping(cap, m - 1, p)| - |Keeping(cap, m - 1, p)| == |Keeping(cap, m - 1, p)| * (cap +
            m - 1);
      }
      ShareArithmetic(cap, cap + m, |Keeping(cap, m, p)|, shorter, |AllDraws(cap, m)|);
    }
  }
}
