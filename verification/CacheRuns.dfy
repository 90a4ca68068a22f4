/** Whole runs of the cache of src/byte_cache.rs: every state a sequence of operations can reach. */
module CacheRuns {
  import opened Prelude
  import opened Recency
  import opened ByteCaches

  datatype Op<K, V> = Get(key: K) | Insert(key: K, value: V, cost: usize) | Remove(key: K)

  datatype Limits = Limits(maxEntries: nat, maxBytes: usize)

  /** The recency list after one call, as the contracts of `ByteCache` give it. */
  function Step<K(==), V>(list: Listing<K, V>, op: Op<K, V>, lim: Limits): Listing<K, V>
    requires 0 < lim.maxEntries
  {
    match op
    case Get(key) => Touch(list, key)
    case Insert(key, value, cost) => Inserted(list, key, value, cost, lim.maxEntries, lim.maxBytes)
    case Remove(key) => Without(list, key)
  }

  function Run<K(==), V>(list: Listing<K, V>, ops: seq<Op<K, V>>, lim: Limits): Listing<K, V>
    requires 0 < lim.maxEntries
  {
    if ops == [] then list else Step(Run(list, ops[..|ops| - 1], lim), ops[|ops| - 1], lim)
  }

  // ----- both limits hold in every reachable state -----

  lemma {:induction false} AppendDistinct<K, V>(rest: Listing<K, V>, m: nat, e: Entry<K, Costed<V>>)
    requires DistinctKeys(rest) && m <= |rest| && Position(rest, e.key) == |rest|
    ensures DistinctKeys(rest[m..] + [e])
  {
    assert forall j :: 0 <= j < |rest[m..]| ==> rest[m..][j] == rest[m + j];
  }

  lemma {:induction false} InsertedBounded<K, V>(rest: Listing<K, V>, e: Entry<K, Costed<V>>, lim: Limits)
    requires 0 < lim.maxEntries && DistinctKeys(rest) && Position(rest, e.key) == |rest|
    requires e.payload.cost <= lim.maxBytes
    ensures Bounded(rest[Surplus(rest, e.payload.cost, lim.maxEntries, lim.maxBytes)..] + [e],
                    lim.maxEntries, lim.maxBytes)
  {
    var m := Surplus(rest, e.payload.cost, lim.maxEntries, lim.maxBytes);
    AppendDistinct(rest, m, e);
    CostOne(e);
    CostConcat(rest[m..], [e]);
  }

  lemma {:induction false} TouchBounded<K, V>(list: Listing<K, V>, key: K, lim: Limits)
    requires Bounded(list, lim.maxEntries, lim.maxBytes)
    ensures Bounded(Touch(list, key), lim.maxEntries, lim.maxBytes)
  {
    CostTouch(list, key);
    WithoutForgets(list, key);
    if Find(list, key).Some? {
      var rest := Without(list, key);
      assert rest[0..] == rest;
      AppendDistinct(rest, 0, Entry(key, Find(list, key).value));
    }
  }

  lemma {:induction false} StepBounded<K, V>(list: Listing<K, V>, op: Op<K, V>, lim: Limits)
    requires 0 < lim.maxEntries && Bounded(list, lim.maxEntries, lim.maxBytes)
    ensures Bounded(Step(list, op, lim), lim.maxEntries, lim.maxBytes)
  {
    WithoutForgets(list, op.key);
    CostWithout(list, op.key);
    match op {
      case Get(key) => TouchBounded(list, key, lim);
      case Remove(_) =>
      case Insert(key, value, cost) =>
        if cost <= lim.maxBytes { InsertedBounded(Without(list, key), Entry(key, Costed(value, cost)), lim); }
    }
  }

  lemma {:induction false} RunBounded<K, V>(ops: seq<Op<K, V>>, lim: Limits)
    requires 0 < lim.maxEntries
    ensures Bounded(Run([], ops, lim), lim.maxEntries, lim.maxBytes)
  {
    if ops != [] {
      RunBounded(ops[..|ops| - 1], lim);
      StepBounded(Run([], ops[..|ops| - 1], lim), ops[|ops| - 1], lim);
    }
  }

  // ----- a lookup answers with the latest write or with nothing -----

  /** The pair most recently written for `key`, unless it has been removed since. */
  function LatestWrite<K(==), V>(ops: seq<Op<K, V>>, key: K): Option<Costed<V>> {
    if ops == [] then None
    else
      var last := ops[|ops| - 1];
      if last.key != key || last.Get? then LatestWrite(ops[..|ops| - 1], key)
      else if last.Insert? then Some(Costed(last.value, last.cost)) else None
  }

  lemma {:induction false} FindAppended<K, V>(list: Listing<K, V>, e: Entry<K, Costed<V>>, key: K)
    requires Position(list, e.key) == |list|
    ensures Find(list + [e], key) == if key == e.key then Some(e.payload) else Find(list, key)
  {
    var p, longer := Position(list, key), list + [e];
    assert forall j :: 0 <= j < |list| ==> longer[j] == list[j];
    if p < |list| {
      PositionFirst(longer, p, key);
    } else if key == e.key {
      PositionFirst(longer, |list|, key);
    }
  }

  lemma {:induction false} FindSuffix<K, V>(list: Listing<K, V>, m: nat, key: K)
    requires DistinctKeys(list) && m <= |list|
    ensures Position(list, key) < m ==> Find(list[m..], key) == None
    ensures m <= Position(list, key) ==> Find(list[m..], key) == Find(list, key)
  {
    var p := Position(list, key);
    assert forall j :: m <= j < |list| ==> list[m..][j - m] == list[j];
    if m <= p < |list| { PositionIs(list[m..], p - m); }
  }

  /** What one call does to the entry of every key. */
  lemma {:induction false} StepFind<K, V>(list: Listing<K, V>, op: Op<K, V>, lim: Limits, key: K)
    requires 0 < lim.maxEntries && DistinctKeys(list)
    ensures var after := Find(Step(list, op, lim), key);
            match op
            case Get(_) => after == Find(list, key)
            case Remove(k) => after == if key == k then None else Find(list, key)
            case Insert(k, value, cost) =>
              if key != k then after == Find(list, key) || after == None
              else after == if cost <= lim.maxBytes then Some(Costed(value, cost)) else None
  {
    WithoutForgets(list, op.key);
    WithoutKeepsOthers(list, op.key);
    var rest := Without(list, op.key);
    match op {
      case Remove(_) =>
      case Get(k) =>
        if Find(list, k).Some? { FindAppended(rest, Entry(k, Find(list, k).value), key); }
      case Insert(k, value, cost) =>
        if cost <= lim.maxBytes {
          var m := Surplus(rest, cost, lim.maxEntries, lim.maxBytes);
          FindSuffix(rest, m, key);
          FindSuffix(rest, m, k);
          FindAppended(rest[m..], Entry(k, Costed(value, cost)), key);
        }
    }
  }

  lemma {:induction false} LookupIsLatest<K, V>(ops: seq<Op<K, V>>, lim: Limits, key: K)
    requires 0 < lim.maxEntries
    ensures Find(Run([], ops, lim), key).Some? ==> Find(Run([], ops, lim), key) == LatestWrite(ops, key)
  {
    if ops != [] {
      var front := ops[..|ops| - 1];
      RunBounded(front, lim);
      LookupIsLatest(front, lim, key);
      StepFind(Run([], front, lim), ops[|ops| - 1], lim, key);
    }
  }

  // ----- the working set stays -----

  function Max(a: nat, b: nat): nat { if a < b then b else a }

  function Raise<K>(costs: map<K, nat>, key: K, cost: nat): map<K, nat> {
    costs[key := if key in costs then Max(costs[key], cost) else cost]
  }

  /** The other keys stored or read since, each with the largest cost it was seen with. */
  function Touched<K(==), V>(list: Listing<K, V>, ops: seq<Op<K, V>>, key: K, lim: Limits): map<K, nat>
    requires 0 < lim.maxEntries
  {
    if ops == [] then map[]
    else
      var front, op := ops[..|ops| - 1], ops[|ops| - 1];
      var before := Touched(list, front, key, lim);
      if op.key == key then before
      else match op
        case Get(k) =>
          (match Find(Run(list, front, lim), k)
           case Some(w) => Raise(before, k, w.cost as int)
           case None => before)
        case Insert(k, _, cost) => if cost <= lim.maxBytes then Raise(before, k, cost as int) else before
        case Remove(_) => before
  }

  ghost function Total<K(!new)>(costs: map<K, nat>): nat {
    SumOver(costs.Keys, k => if k in costs then costs[k] else 0)
  }

  ghost predicate Within<K, V>(e: Entry<K, Costed<V>>, costs: map<K, nat>) {
    e.key in costs && e.payload.cost as int <= costs[e.key]
  }

  ghost predicate AllWithin<K, V>(list: Listing<K, V>, costs: map<K, nat>) {
    forall i :: 0 <= i < |list| ==> Within(list[i], costs)
  }

  /** Entries with distinct keys weigh no more than the costs recorded for them. */
  lemma {:induction false} WithinTotal<K(!new), V>(list: Listing<K, V>, costs: map<K, nat>)
    requires DistinctKeys(list) && AllWithin(list, costs)
    ensures |list| <= |costs| && Cost(list) <= Total(costs)
  {
    if list != [] {
      var k := list[0].key;
      var rest := costs - {k};
      assert Within(list[0], costs);
      forall i | 0 <= i < |list[1..]|
        ensures Within(list[1..][i], rest)
      {
        assert Within(list[i + 1], costs);
      }
      WithinTotal(list[1..], rest);
      assert rest.Keys == costs.Keys - {k};
      assert |costs.Keys| == |rest.Keys| + 1;
      var f := (x: K) => if x in costs then costs[x] else 0;
      var g := (x: K) => if x in rest then rest[x] else 0;
      SumOverRemove(costs.Keys, k, f);
      SumOverMonotone(rest.Keys, rest.Keys, g, f);
    }
  }

  ghost predicate Below<K>(a: map<K, nat>, b: map<K, nat>) {
    forall k :: k in a ==> k in b && a[k] <= b[k]
  }

  lemma {:induction false} BelowTotal<K(!new)>(a: map<K, nat>, b: map<K, nat>)
    requires Below(a, b)
    ensures |a| <= |b| && Total(a) <= Total(b)
  {
    assert a.Keys <= b.Keys;
    SubsetSize(a.Keys, b.Keys);
    SumOverMonotone(a.Keys, b.Keys, (x: K) => if x in a then a[x] else 0, (x: K) => if x in b then b[x] else 0);
  }

  /** `key` is cached with `w`, and everything more recent is accounted for by `costs`. */
  ghost predicate Protected<K(!new), V>(list: Listing<K, V>, key: K, w: Costed<V>, costs: map<K, nat>) {
    && DistinctKeys(list)
    && Find(list, key) == Some(w)
    && key !in costs
    && AllWithin(list[Position(list, key) + 1..], costs)
  }

  ghost predicate FitsWith<K(!new), V>(w: Costed<V>, costs: map<K, nat>, lim: Limits) {
    |costs| + 1 <= lim.maxEntries && w.cost as int + Total(costs) <= lim.maxBytes as int
  }

  /** Removing another key moves an entry by at most one place. */
  lemma {:induction false} PositionWithout<K, V>(list: Listing<K, V>, key: K, other: K)
    requires DistinctKeys(list) && Position(list, key) < |list| && other != key
    ensures var p, i := Position(list, key), Position(list, other);
            Position(Without(list, other), key) == if i < p then p - 1 else p
  {
    var rest, p, i := Without(list, other), Position(list, key), Position(list, other);
    WithoutForgets(list, other);
    var q := if i < p then p - 1 else p;
    assert rest[q] == list[p];
    PositionIs(rest, q);
  }

  /** What is newer than an entry once another key is removed. */
  lemma {:induction false} NewerKept<K, V>(list: Listing<K, V>, key: K, other: K, j: nat)
    requires DistinctKeys(list) && Position(list, key) < |list| && other != key
    requires Position(Without(list, other), key) < j < |Without(list, other)|
    ensures Without(list, other)[j].key != other
    ensures Without(list, other)[j] in list[Position(list, key) + 1..]
  {
    var rest, p, i := Without(list, other), Position(list, key), Position(list, other);
    PositionWithout(list, key, other);
    var at := if i < |list| && i <= j then j + 1 else j;
    assert rest[j] == list[at] && list[at] == list[p + 1..][at - p - 1];
  }

  /** Removing another key keeps the protection. */
  lemma {:induction false} WithoutProtected<K(!new), V>(list: Listing<K, V>, key: K, w: Costed<V>, costs: map<K, nat>,
                                                        other: K)
    requires Protected(list, key, w, costs) && other != key
    ensures var rest := Without(list, other);
            && Protected(rest, key, w, costs) && Position(rest, other) == |rest|
            && AllWithin(rest[Position(rest, key) + 1..], costs - {other})
  {
    var rest := Without(list, other);
    WithoutForgets(list, other);
    WithoutKeepsOthers(list, other);
    var q := Position(rest, key);
    var newer := rest[q + 1..];
    forall j | 0 <= j < |newer|
      ensures Within(newer[j], costs) && Within(newer[j], costs - {other})
    {
      NewerKept(list, key, other, q + 1 + j);
    }
  }

  /** Dropping older entries and appending an accounted one keeps the protection. */
  lemma {:induction false} AppendProtected<K(!new), V>(rest: Listing<K, V>, m: nat, e: Entry<K, Costed<V>>, key: K,
                                                      w: Costed<V>, costs: map<K, nat>, raised: map<K, nat>)
    requires Protected(rest, key, w, costs) && m <= Position(rest, key)
    requires Position(rest, e.key) == |rest| && e.key != key
    requires Below(costs, raised) && key !in raised && Within(e, raised)
    ensures Protected(rest[m..] + [e], key, w, raised)
    ensures (rest[m..] + [e])[Position(rest[m..] + [e], key) + 1..] == rest[Position(rest, key) + 1..] + [e]
  {
    var q, after := Position(rest, key), rest[m..] + [e];
    var newer := rest[q + 1..];
    AppendDistinct(rest, m, e);
    PositionIs(after, q - m);
    assert after[q - m + 1..] == newer + [e];
    forall j | 0 <= j < |newer + [e]|
      ensures Within((newer + [e])[j], raised)
    {
      if j < |newer| { assert Within(newer[j], costs); }
    }
  }

  /** Beside a protected entry, its newer ones and an accounted insertion there is room. */
  lemma {:induction false} RoomBeside<K(!new), V>(rest: Listing<K, V>, key: K, w: Costed<V>, costs: map<K, nat>,
                                                  e: Entry<K, Costed<V>>, lim: Limits)
    requires Protected(rest, key, w, costs)
    requires AllWithin(rest[Position(rest, key) + 1..], costs - {e.key})
    requires FitsWith(w, Raise(costs, e.key, e.payload.cost as int), lim)
    ensures Room(rest[Position(rest, key)..], e.payload.cost, lim.maxEntries, lim.maxBytes)
  {
    var q := Position(rest, key);
    var newer, raised := rest[q + 1..], Raise(costs, e.key, e.payload.cost as int);
    assert forall j :: 0 <= j < |newer| ==> newer[j] == rest[q + 1 + j];
    forall j | 0 <= j < |newer + [e]|
      ensures Within((newer + [e])[j], raised)
    {
      if j < |newer| { assert Within(newer[j], costs - {e.key}); }
    }
    assert forall j :: 0 <= j < |newer| ==> Within(newer[j], costs - {e.key});
    WithinTotal(newer + [e], raised);
    CostOne(e);
    CostConcat(newer, [e]);
    assert rest[q..][1..] == newer && rest[q..][0] == rest[q];
  }

  /** An insertion next to a protected entry never evicts it. */
  lemma {:induction false} InsertProtected<K(!new), V>(list: Listing<K, V>, key: K, w: Costed<V>, costs: map<K, nat>,
                                                      other: K, value: V, cost: usize, lim: Limits)
    requires Protected(list, key, w, costs) && other != key && cost <= lim.maxBytes
    requires FitsWith(w, Raise(costs, other, cost as int), lim)
    ensures Protected(Inserted(list, other, value, cost, lim.maxEntries, lim.maxBytes), key, w,
                      Raise(costs, other, cost as int))
  {
    WithoutProtected(list, key, w, costs, other);
    var rest, e := Without(list, other), Entry(other, Costed(value, cost));
    RoomBeside(rest, key, w, costs, e, lim);
    var m := Surplus(rest, cost, lim.maxEntries, lim.maxBytes);
    assert Inserted(list, other, value, cost, lim.maxEntries, lim.maxBytes) == rest[m..] + [e];
    AppendProtected(rest, m, e, key, w, costs, Raise(costs, other, cost as int));
  }

  /** A lookup of another key keeps the protection once that key is accounted for. */
  lemma {:induction false} GetProtected<K(!new), V>(list: Listing<K, V>, key: K, w: Costed<V>, costs: map<K, nat>,
                                                    other: K)
    requires Protected(list, key, w, costs)
    requires other != key && Find(list, other).Some?
    ensures Protected(Touch(list, other), key, w, Raise(costs, other, Find(list, other).value.cost as int))
  {
    WithoutProtected(list, key, w, costs, other);
    var rest, e := Without(list, other), Entry(other, Find(list, other).value);
    AppendProtected(rest, 0, e, key, w, costs, Raise(costs, other, e.payload.cost as int));
    assert rest[0..] == rest;
  }

  /** Reading the protected key itself makes it the newest entry. */
  lemma {:induction false} RefreshProtected<K(!new), V>(list: Listing<K, V>, key: K, w: Costed<V>, costs: map<K, nat>)
    requires DistinctKeys(list) && Find(list, key) == Some(w) && key !in costs
    ensures Protected(Touch(list, key), key, w, costs)
  {
    var rest, after := Without(list, key), Touch(list, key);
    WithoutForgets(list, key);
    assert forall j :: 0 <= j < |rest| ==> after[j] == rest[j];
    assert DistinctKeys(after);
    PositionIs(after, |rest|);
  }

  lemma {:induction false} RunProtected<K(!new), V>(list: Listing<K, V>, ops: seq<Op<K, V>>, key: K, w: Costed<V>,
                                                    lim: Limits)
    requires 0 < lim.maxEntries && Protected(list, key, w, map[])
    requires forall i :: 0 <= i < |ops| ==> ops[i].key == key ==> ops[i].Get?
    requires FitsWith(w, Touched(list, ops, key, lim), lim)
    ensures Protected(Run(list, ops, lim), key, w, Touched(list, ops, key, lim))
  {
    if ops != [] {
      var front, op := ops[..|ops| - 1], ops[|ops| - 1];
      var before, touched := Touched(list, front, key, lim), Touched(list, ops, key, lim);
      assert ops[|ops| - 1] == op;
      BelowTotal(before, touched);
      RunProtected(list, front, key, w, lim);
      var mid := Run(list, front, lim);
      match op {
        case Get(k) =>
          if k == key {
            RefreshProtected(mid, key, w, before);
          } else if Find(mid, k).Some? {
            GetProtected(mid, key, w, before, k);
          }
        case Remove(k) => WithoutProtected(mid, key, w, before, k);
        case Insert(k, value, cost) =>
          if cost <= lim.maxBytes {
            InsertProtected(mid, key, w, before, k, value, cost, lim);
          } else {
            WithoutProtected(mid, key, w, before, k);
          }
      }
    }
  }

  /** An insertion that fits, or a lookup that hits, makes its key the most recent one. */
  ghost predicate Uses<K, V>(list: Listing<K, V>, op: Op<K, V>, w: Costed<V>, lim: Limits) {
    match op
    case Insert(_, value, cost) => cost <= lim.maxBytes && w == Costed(value, cost)
    case Get(k) => Find(list, k) == Some(w)
    case Remove(_) => false
  }

  /** The working-set guarantee: from its use on, an entry survives any run that neither
      re-inserts nor removes it, as long as the distinct other keys touched since then,
      at their largest costs, fit beside it within both limits. */
  lemma {:induction false} WorkingSetStays<K(!new), V>(history: seq<Op<K, V>>, use: Op<K, V>, ops: seq<Op<K, V>>,
                                                       w: Costed<V>, lim: Limits)
    requires 0 < lim.maxEntries
    requires Uses(Run([], history, lim), use, w, lim)
    requires forall i :: 0 <= i < |ops| ==> ops[i].key == use.key ==> ops[i].Get?
    requires FitsWith(w, Touched(Run([], history + [use], lim), ops, use.key, lim), lim)
    ensures Find(Run(Run([], history + [use], lim), ops, lim), use.key) == Some(w)
  {
    var list := Run([], history, lim);
    RunBounded(history, lim);
    StepBounded(list, use, lim);
    StepFind(list, use, lim, use.key);
    assert (history + [use])[..|history|] == history;
    var used := Step(list, use, lim);
    assert used[|used| - 1] == Entry(use.key, w);
    PositionIs(used, |used| - 1);
    RunProtected(used, ops, use.key, w, lim);
  }
}
