/** src/byte_cache.rs: retained payloads bounded by bytes and by entries. */
module ByteCaches {
  import opened Prelude
  import opened Recency
  import opened Lru

  newtype usize = n: int | 0 <= n < 0x1_0000_0000_0000_0000

  datatype Costed<V> = Costed(value: V, cost: usize)

  type Listing<K, V> = seq<Entry<K, Costed<V>>>

  function Cost<K, V>(list: Listing<K, V>): nat {
    if list == [] then 0 else list[0].payload.cost as int + Cost(list[1..])
  }

  /** There is room beside `list` for one more entry of the given cost. */
  predicate Room<K, V>(list: Listing<K, V>, cost: usize, maxEntries: nat, maxBytes: usize) {
    |list| < maxEntries && Cost(list) + cost as int <= maxBytes as int
  }

  /** How many of the least recently used entries an insertion has to give up. */
  function Surplus<K, V>(list: Listing<K, V>, cost: usize, maxEntries: nat, maxBytes: usize): (m: nat)
    requires 0 < maxEntries && cost <= maxBytes
    ensures m <= |list| && Room(list[m..], cost, maxEntries, maxBytes)
    ensures forall j :: 0 <= j < m ==> !Room(list[j..], cost, maxEntries, maxBytes)
  {
    if Room(list, cost, maxEntries, maxBytes) then 0
    else
      assert forall j :: 1 <= j <= |list| ==> list[j..] == list[1..][j - 1..];
      1 + Surplus(list[1..], cost, maxEntries, maxBytes)
  }

  /** The recency list after an insertion. */
  function Inserted<K(==), V>(list: Listing<K, V>, key: K, value: V, cost: usize,
                              maxEntries: nat, maxBytes: usize): Listing<K, V>
    requires 0 < maxEntries
  {
    var rest := Without(list, key);
    if cost > maxBytes then rest
    else rest[Surplus(rest, cost, maxEntries, maxBytes)..] + [Entry(key, Costed(value, cost))]
  }

  /** What every reachable cache satisfies. */
  ghost predicate Bounded<K, V>(list: Listing<K, V>, maxEntries: nat, maxBytes: usize) {
    DistinctKeys(list) && |list| <= maxEntries && Cost(list) <= maxBytes as int
  }

  // ----- byte accounting -----

  lemma {:induction false} CostConcat<K, V>(a: Listing<K, V>, b: Listing<K, V>)
    ensures Cost(a + b) == Cost(a) + Cost(b)
  {
    if a == [] {
      assert a + b == b;
    } else {
      assert (a + b)[1..] == a[1..] + b;
      CostConcat(a[1..], b);
    }
  }

  lemma {:induction false} CostWithout<K, V>(list: Listing<K, V>, key: K)
    ensures Cost(Without(list, key)) ==
            Cost(list) - (match Find(list, key) case Some(w) => w.cost as int case None => 0)
  {
    var i := Position(list, key);
    if i < |list| {
      CostConcat(list[..i], list[i + 1..]);
      CostConcat(list[..i], list[i..]);
      assert list == list[..i] + list[i..];
    }
  }

  lemma {:induction false} CostOne<K, V>(e: Entry<K, Costed<V>>)
    ensures Cost([e]) == e.payload.cost as int
  {
    assert [e][1..] == [];
  }

  /** Evicting by bytes first and by count afterwards gives up no more than the shortest prefix. */
  lemma {:induction false} SurplusInTwoPhases<K, V>(list: Listing<K, V>, cost: usize, maxEntries: nat,
                                                    maxBytes: usize, n: nat)
    requires 0 < maxEntries && cost <= maxBytes && |list| <= maxEntries
    requires n <= |list| && Cost(list[n..]) + cost as int <= maxBytes as int
    requires forall j :: 0 <= j < n ==> Cost(list[j..]) + cost as int > maxBytes as int
    ensures Surplus(list, cost, maxEntries, maxBytes) == if |list[n..]| == maxEntries then n + 1 else n
  {
    if |list| - n == maxEntries {
      assert n == 0;
      if list != [] { assert Room(list[1..], cost, maxEntries, maxBytes); }
    } else {
      assert Room(list[n..], cost, maxEntries, maxBytes);
    }
  }

  /** The first `n` entries were evicted, each while the new entry's bytes did not fit. */
  ghost predicate EvictedWhileFull<K, V>(list: Listing<K, V>, n: nat, cost: usize, maxBytes: usize) {
    && n <= |list|
    && forall j :: 0 <= j < n ==> Cost(list[j..]) + cost as int > maxBytes as int
  }

  lemma {:induction false} EvictOneMore<K, V>(list: Listing<K, V>, n: nat, cost: usize, maxBytes: usize)
    requires EvictedWhileFull(list, n, cost, maxBytes) && cost <= maxBytes
    requires Cost(list[n..]) + cost as int > maxBytes as int
    ensures n < |list| && EvictedWhileFull(list, n + 1, cost, maxBytes)
    ensures list[n..][0] == list[n] && list[n..][1..] == list[n + 1..]
    ensures Cost(list[n..]) == list[n].payload.cost as int + Cost(list[n + 1..])
  {
  }

  /** Pushing an absent key: what is displaced, what the list is then, and what it costs. */
  lemma {:induction false} CostPushed<K, V>(kept: Listing<K, V>, key: K, w: Costed<V>, maxEntries: nat)
    requires 0 < maxEntries && Position(kept, key) == |kept|
    ensures var out, after := Displaced(kept, key, maxEntries), Pushed(kept, key, w, maxEntries);
            && after == (if |kept| == maxEntries then kept[1..] else kept) + [Entry(key, w)]
            && Cost(after) == Cost(kept) - (if out.Some? then out.value.payload.cost as int else 0) + w.cost as int
            && (out.Some? ==> out.value.payload.cost as int <= Cost(kept))
  {
    var e := Entry(key, w);
    CostOne(e);
    if |kept| == maxEntries { CostConcat(kept[1..], [e]); } else { CostConcat(kept, [e]); }
  }

  lemma {:induction false} AbsentFromRest<K, V>(list: Listing<K, V>, n: nat, key: K)
    requires n <= |list| && Position(list, key) == |list|
    ensures Position(list[n..], key) == |list[n..]|
  {
    assert forall j :: n <= j < |list| ==> list[n..][j - n] == list[j];
  }

  /** Once the bytes fit, a push that may still evict one entry completes the insertion. */
  lemma {:induction false} AfterByteEviction<K, V>(list: Listing<K, V>, n: nat, key: K, value: V, cost: usize,
                                maxEntries: nat, maxBytes: usize)
    requires 0 < maxEntries && cost <= maxBytes && |list| <= maxEntries
    requires EvictedWhileFull(list, n, cost, maxBytes)
    requires Cost(list[n..]) + cost as int <= maxBytes as int
    requires Position(list, key) == |list|
    ensures var kept, out := list[n..], Displaced(list[n..], key, maxEntries);
            var after := Pushed(kept, key, Costed(value, cost), maxEntries);
            && after == list[Surplus(list, cost, maxEntries, maxBytes)..] + [Entry(key, Costed(value, cost))]
            && Cost(after) == Cost(kept) - (if out.Some? then out.value.payload.cost as int else 0) + cost as int
            && (out.Some? ==> out.value.payload.cost as int <= Cost(kept))
  {
    SurplusInTwoPhases(list, cost, maxEntries, maxBytes, n);
    AbsentFromRest(list, n, key);
    CostPushed(list[n..], key, Costed(value, cost), maxEntries);
    if |list[n..]| == maxEntries { assert list[n + 1..] == list[n..][1..]; }
  }

  class ByteCache<K(==), V> {
    const entries: LruCache<K, Costed<V>>
    var bytes: usize
    const maxBytes: usize

    ghost predicate Valid()
      reads this, entries
    {
      && entries.Valid()
      && bytes as int == Cost(entries.list) <= maxBytes as int
    }

    ghost function List(): Listing<K, V>
      reads entries
    {
      entries.list
    }

    constructor (maxEntries: nat, maxBytes: usize)
      requires 0 < maxEntries
      ensures Valid() && fresh(entries) && List() == []
      ensures entries.cap == maxEntries && this.maxBytes == maxBytes
    {
      entries := new LruCache(maxEntries);
      bytes := 0;
      this.maxBytes := maxBytes;
    }

    method Get(key: K) returns (r: Option<V>)
      requires Valid()
      modifies entries
      ensures Valid() && List() == Touch(old(List()), key)
      ensures r == match Find(old(List()), key) case Some(w) => Some(w.value) case None => None
    {
      CostTouch(entries.list, key);
      var found := entries.Get(key);
      r := match found case Some(w) => Some(w.value) case None => None;
    }

    predicate Fits(cost: usize)
    {
      cost <= maxBytes
    }

    method Remove(key: K)
      requires Valid()
      modifies this, entries
      ensures Valid() && List() == Without(old(List()), key)
    {
      CostWithout(entries.list, key);
      var popped := entries.Pop(key);
      if popped.Some? {
        bytes := bytes - popped.value.cost;
      }
    }

    /** The byte phase of an insertion: oldest entries go until `cost` more bytes fit. */
    method EvictBytes(cost: usize) returns (ghost n: nat)
      requires Valid() && cost <= maxBytes
      modifies this, entries
      ensures Valid() && bytes <= maxBytes - cost
      ensures EvictedWhileFull(old(List()), n, cost, maxBytes) && List() == old(List())[n..]
    {
      ghost var was := entries.list;
      n := 0;
      while bytes > maxBytes - cost
        invariant Valid() && EvictedWhileFull(was, n, cost, maxBytes) && entries.list == was[n..]
        decreases |entries.list|
      {
        EvictOneMore(was, n, cost, maxBytes);
        var popped := entries.PopLru();
        if popped.Some? {
          bytes := bytes - popped.value.payload.cost;
        }
        n := n + 1;
      }
    }

    method Insert(key: K, value: V, cost: usize)
      requires Valid()
      modifies this, entries
      ensures Valid() && List() == Inserted(old(List()), key, value, cost, entries.cap, maxBytes)
    {
      WithoutForgets(entries.list, key);
      Remove(key);
      if !Fits(cost) {
        return;
      }
      ghost var rest := entries.list;
      ghost var n := EvictBytes(cost);
      AfterByteEviction(rest, n, key, value, cost, entries.cap, maxBytes);
      var displaced := entries.Push(key, Costed(value, cost));
      if displaced.Some? {
        bytes := bytes - displaced.value.payload.cost;
      }
      bytes := bytes + cost;
    }
  }

  lemma {:induction false} CostTouch<K, V>(list: Listing<K, V>, key: K)
    ensures Cost(Touch(list, key)) == Cost(list)
  {
    var i := Position(list, key);
    if i < |list| {
      CostWithout(list, key);
      CostOne(list[i]);
      CostConcat(Without(list, key), [list[i]]);
    }
  }
}
