/** The recency list kept by `lru::LruCache`, on which src/byte_cache.rs is built.
    The list runs from the least recently used entry (index 0) to the most recently used. */
module Recency {
  import opened Prelude

  datatype Entry<K, W> = Entry(key: K, payload: W)

  ghost predicate DistinctKeys<K, W>(list: seq<Entry<K, W>>) {
    forall i, j :: 0 <= i < j < |list| ==> list[i].key != list[j].key
  }

  /** Index of `key`, or the length of the list when the key is absent. */
  function Position<K(==), W>(list: seq<Entry<K, W>>, key: K): (i: nat)
    ensures i <= |list|
    ensures i < |list| ==> list[i].key == key
    ensures forall j :: 0 <= j < i ==> list[j].key != key
  {
    if list == [] || list[0].key == key then 0 else 1 + Position(list[1..], key)
  }

  function Find<K(==), W>(list: seq<Entry<K, W>>, key: K): Option<W> {
    var i := Position(list, key);
    if i < |list| then Some(list[i].payload) else None
  }

  function Without<K(==), W>(list: seq<Entry<K, W>>, key: K): seq<Entry<K, W>> {
    var i := Position(list, key);
    if i < |list| then list[..i] + list[i + 1..] else list
  }

  /** The list after a lookup: a present entry becomes the most recently used one. */
  function Touch<K(==), W>(list: seq<Entry<K, W>>, key: K): seq<Entry<K, W>> {
    match Find(list, key)
    case Some(w) => Without(list, key) + [Entry(key, w)]
    case None => list
  }

  /** What a push into a cache of the given capacity displaces: the key's old payload,
      or the least recently used entry of a full cache. */
  function Displaced<K(==), W>(list: seq<Entry<K, W>>, key: K, cap: nat): Option<Entry<K, W>>
    requires 0 < cap
  {
    match Find(list, key)
    case Some(w) => Some(Entry(key, w))
    case None => if |list| == cap then Some(list[0]) else None
  }

  function Pushed<K(==), W>(list: seq<Entry<K, W>>, key: K, payload: W, cap: nat): seq<Entry<K, W>>
    requires 0 < cap
  {
    (match Find(list, key)
     case Some(_) => Without(list, key)
     case None => if |list| == cap then list[1..] else list) + [Entry(key, payload)]
  }

  lemma {:induction false} PositionIs<K, W>(list: seq<Entry<K, W>>, i: nat)
    requires DistinctKeys(list) && i < |list|
    ensures Position(list, list[i].key) == i
  {
  }

  lemma {:induction false} PositionFirst<K, W>(list: seq<Entry<K, W>>, i: nat, key: K)
    requires i < |list| && list[i].key == key && forall j :: 0 <= j < i ==> list[j].key != key
    ensures Position(list, key) == i
  {
  }

  lemma {:induction false} WithoutForgets<K, W>(list: seq<Entry<K, W>>, key: K)
    requires DistinctKeys(list)
    ensures DistinctKeys(Without(list, key)) && Position(Without(list, key), key) == |Without(list, key)|
  {
    var rest := Without(list, key);
    assert forall e :: e in rest ==> e.key != key;
  }

  lemma {:induction false} WithoutKeepsOthers<K, W>(list: seq<Entry<K, W>>, key: K)
    requires DistinctKeys(list)
    ensures forall k :: k != key ==> Find(Without(list, key), k) == Find(list, k)
  {
    var i := Position(list, key);
    var rest := Without(list, key);
    forall k | k != key
      ensures Find(rest, k) == Find(list, k)
    {
      var p := Position(list, k);
      if p < |list| {
        var q := if p < i then p else p - 1;
        assert i < |list| ==> rest[q] == list[p];
        if i < |list| { PositionIs(rest, q); }
      } else {
        assert forall e :: e in rest ==> e in list;
      }
    }
  }
}
