/** `lru::LruCache`: a hash map of slots linked from the oldest to the newest key. */
module Lru {
  import opened Prelude
  import opened Recency

  datatype Slot<K, W> = Slot(payload: W, older: Option<K>, newer: Option<K>)

  ghost function KeyAt<K, W>(list: seq<Entry<K, W>>, i: int): Option<K> {
    if 0 <= i < |list| then Some(list[i].key) else None
  }

  /** Slot `i` carries the i-th payload and names both neighbours of the i-th key. */
  ghost predicate SlotAt<K, W>(slots: map<K, Slot<K, W>>, list: seq<Entry<K, W>>, i: nat)
    requires i < |list|
  {
    && list[i].key in slots
    && slots[list[i].key] == Slot(list[i].payload, KeyAt(list, i - 1), KeyAt(list, i + 1))
  }

  ghost function KeySet<K, W>(list: seq<Entry<K, W>>): set<K> { set i | 0 <= i < |list| :: list[i].key }

  /** The linked slots spell out exactly the recency list. */
  ghost predicate Spells<K, W>(slots: map<K, Slot<K, W>>, list: seq<Entry<K, W>>) {
    && DistinctKeys(list)
    && slots.Keys == KeySet(list)
    && (forall i :: 0 <= i < |list| ==> SlotAt(slots, list, i))
  }

  function WithNewer<K, W>(slots: map<K, Slot<K, W>>, at: Option<K>, k: Option<K>): map<K, Slot<K, W>> {
    if at.Some? && at.value in slots then slots[at.value := slots[at.value].(newer := k)] else slots
  }

  function WithOlder<K, W>(slots: map<K, Slot<K, W>>, at: Option<K>, k: Option<K>): map<K, Slot<K, W>> {
    if at.Some? && at.value in slots then slots[at.value := slots[at.value].(older := k)] else slots
  }

  /** The slots once the i-th key is detached and its neighbours are joined. */
  ghost function Unlinked<K, W>(slots: map<K, Slot<K, W>>, list: seq<Entry<K, W>>, i: nat): map<K, Slot<K, W>>
    requires i < |list|
  {
    var older, newer := KeyAt(list, i - 1), KeyAt(list, i + 1);
    WithOlder(WithNewer(slots, older, newer), newer, older) - {list[i].key}
  }

  lemma {:induction false} UnlinkedSlotAt<K, W>(slots: map<K, Slot<K, W>>, list: seq<Entry<K, W>>, i: nat, j: nat)
    requires Spells(slots, list) && i < |list| && j < |list| - 1
    ensures SlotAt(Unlinked(slots, list, i), list[..i] + list[i + 1..], j)
  {
    var rest, p := list[..i] + list[i + 1..], if j < i then j else j + 1;
    assert SlotAt(slots, list, p) && rest[j] == list[p];
    assert KeyAt(rest, j - 1) == if p == i + 1 then KeyAt(list, i - 1) else KeyAt(list, p - 1);
    assert KeyAt(rest, j + 1) == if p + 1 == i then KeyAt(list, i + 1) else KeyAt(list, p + 1);
  }

  lemma {:induction false} RestKeys<K, W>(list: seq<Entry<K, W>>, i: nat)
    requires DistinctKeys(list) && i < |list|
    ensures DistinctKeys(list[..i] + list[i + 1..])
    ensures KeySet(list[..i] + list[i + 1..]) == KeySet(list) - {list[i].key}
  {
    var rest := list[..i] + list[i + 1..];
    assert forall j :: 0 <= j < |rest| ==> rest[j] == list[if j < i then j else j + 1];
    forall p | 0 <= p < |list| && p != i
      ensures list[p].key in KeySet(rest)
    {
      assert rest[if p < i then p else p - 1] == list[p];
    }
    forall k | k in KeySet(rest)
      ensures k in KeySet(list) - {list[i].key}
    {
      var j :| 0 <= j < |rest| && rest[j].key == k;
      var p := if j < i then j else j + 1;
      assert list[p].key == k && list[p].key != list[i].key;
    }
  }

  lemma {:induction false} UnlinkSpells<K, W>(slots: map<K, Slot<K, W>>, list: seq<Entry<K, W>>, i: nat)
    requires Spells(slots, list) && i < |list|
    ensures Spells(Unlinked(slots, list, i), list[..i] + list[i + 1..])
  {
    var after, rest := Unlinked(slots, list, i), list[..i] + list[i + 1..];
    RestKeys(list, i);
    assert after.Keys == slots.Keys - {list[i].key};
    forall j | 0 <= j < |rest|
      ensures SlotAt(after, rest, j)
    {
      UnlinkedSlotAt(slots, list, i, j);
    }
  }

  lemma {:induction false} AppendSpells<K, W>(slots: map<K, Slot<K, W>>, list: seq<Entry<K, W>>, key: K, payload: W)
    requires Spells(slots, list) && key !in slots
    ensures Spells(WithNewer(slots, KeyAt(list, |list| - 1), Some(key))[key := Slot(payload, KeyAt(list, |list| - 1),
        None)],
                   list + [Entry(key, payload)])
  {
    var last := KeyAt(list, |list| - 1);
    var after := WithNewer(slots, last, Some(key))[key := Slot(payload, last, None)];
    var longer := list + [Entry(key, payload)];
    forall j | 0 <= j < |longer|
      ensures SlotAt(after, longer, j)
    {
      if j < |list| {
        assert SlotAt(slots, list, j) && longer[j] == list[j];
        assert KeyAt(longer, j - 1) == KeyAt(list, j - 1);
      }
    }
    assert forall j :: 0 <= j < |list| ==> longer[j] == list[j];
    assert after.Keys == slots.Keys + {key};
    assert KeySet(longer) == KeySet(list) + {key} by {
      assert longer[|list|].key == key;
    }
  }

  lemma {:induction false} SpellsCount<K, W>(slots: map<K, Slot<K, W>>, list: seq<Entry<K, W>>)
    requires Spells(slots, list)
    ensures |slots| == |list|
  {
    KeyCount(list);
    assert |slots| == |slots.Keys|;
  }

  lemma {:induction false} KeyCount<K, W>(list: seq<Entry<K, W>>)
    requires DistinctKeys(list)
    ensures |KeySet(list)| == |list|
  {
    if list != [] {
      var front, last := list[..|list| - 1], list[|list| - 1].key;
      KeyCount(front);
      assert KeySet(list) == KeySet(front) + {last};
    }
  }

  class LruCache<K(==), W> {
    const cap: nat
    var slots: map<K, Slot<K, W>>
    var oldest: Option<K>
    var newest: Option<K>
    ghost var list: seq<Entry<K, W>>

    ghost predicate Valid()
      reads this
    {
      && 0 < cap
      && |list| <= cap
      && Linked()
    }

    ghost predicate Linked()
      reads this
    {
      && Spells(slots, list)
      && oldest == KeyAt(list, 0)
      && newest == KeyAt(list, |list| - 1)
    }

    constructor (cap: nat)
      requires 0 < cap
      ensures Valid() && list == [] && this.cap == cap
    {
      this.cap := cap;
      slots, oldest, newest, list := map[], None, None, [];
    }

    ghost method Locate(key: K) returns (i: nat)
      requires Linked()
      ensures key in slots ==> i < |list| && SlotAt(slots, list, i)
      ensures i == Position(list, key) && (key in slots <==> i < |list|)
    {
      i := Position(list, key);
      if key in slots {
        var j :| 0 <= j < |list| && list[j].key == key;
        PositionIs(list, j);
      }
    }

    /** Detaches a present slot and joins its two neighbours. */
    method Unlink(key: K) returns (payload: W)
      requires Linked() && key in slots
      modifies this
      ensures Linked() && list == Without(old(list), key) && key !in slots
      ensures Find(old(list), key) == Some(payload)
    {
      ghost var i := Locate(key);
      UnlinkSpells(slots, list, i);
      ghost var rest := list[..i] + list[i + 1..];
      var slot := slots[key];
      payload := slot.payload;
      slots := WithOlder(WithNewer(slots, slot.older, slot.newer), slot.newer, slot.older) - {key};
      if slot.older == None { oldest := slot.newer; }
      if slot.newer == None { newest := slot.older; }
      list := rest;
    }

    /** Attaches an absent key as the most recently used one. */
    method Append(key: K, payload: W)
      requires Linked() && key !in slots
      modifies this
      ensures Linked() && list == old(list) + [Entry(key, payload)]
    {
      AppendSpells(slots, list, key, payload);
      slots := WithNewer(slots, newest, Some(key))[key := Slot(payload, newest, None)];
      if newest == None { oldest := Some(key); }
      newest := Some(key);
      list := list + [Entry(key, payload)];
    }

    method Get(key: K) returns (r: Option<W>)
      requires Valid()
      modifies this
      ensures Valid() && r == Find(old(list), key) && list == Touch(old(list), key)
    {
      ghost var i := Locate(key);
      if key in slots {
        var payload := Unlink(key);
        Append(key, payload);
        r := Some(payload);
      } else {
        r := None;
      }
    }

    method Pop(key: K) returns (r: Option<W>)
      requires Valid()
      modifies this
      ensures Valid() && r == Find(old(list), key) && list == Without(old(list), key)
    {
      ghost var i := Locate(key);
      if key in slots {
        var payload := Unlink(key);
        r := Some(payload);
      } else {
        r := None;
      }
    }

    method PopLru() returns (r: Option<Entry<K, W>>)
      requires Valid()
      modifies this
      ensures Valid()
      ensures old(list) == [] ==> r == None && list == []
      ensures old(list) != [] ==> r == Some(old(list)[0]) && list == old(list)[1..]
    {
      match oldest {
        case None => r := None;
        case Some(k) =>
          assert SlotAt(slots, list, 0);
          var payload := Unlink(k);
          r := Some(Entry(k, payload));
      }
    }

    /** Stores a pair as the most recent one and hands back whatever it displaced. */
    method Push(key: K, payload: W) returns (r: Option<Entry<K, W>>)
      requires Valid()
      modifies this
      ensures Valid() && r == Displaced(old(list), key, cap) && list == Pushed(old(list), key, payload, cap)
    {
      ghost var i := Locate(key);
      SpellsCount(slots, list);
      if key in slots {
        var displaced := Unlink(key);
        r := Some(Entry(key, displaced));
      } else if |slots| == cap {
        r := PopLru();
      } else {
        r := None;
      }
      Append(key, payload);
    }
  }
}
