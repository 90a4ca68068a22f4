/** The min-heap of `(-priority, index)` pairs that scripts/export_public_retrieval.py keeps with `heapq`. */
module DistractorHeap {
  import opened Sorting

  datatype Pair = Pair(negPriority: int, index: nat)

  predicate Less(a: Pair, b: Pair) {
    a.negPriority < b.negPriority || (a.negPriority == b.negPriority && a.index < b.index)
  }

  lemma {:induction false} PairOrder()
    ensures WeakOrder(Less)
    ensures forall a, b :: a == b || Less(a, b) || Less(b, a)
  {
  }

  function Parent(k: nat): nat
    requires k > 0
  {
    (k - 1) / 2
  }

  predicate AtLeast(h: seq<Pair>, k: nat, j: nat)
    requires k < |h| && j < |h|
  {
    !Less(h[k], h[j])
  }

  ghost predicate IsHeap(h: seq<Pair>) {
    forall k :: 0 < k < |h| ==> AtLeast(h, k, Parent(k))
  }

  lemma {:induction false} RootIsLeast(h: seq<Pair>, k: nat)
    requires IsHeap(h) && k < |h|
    ensures AtLeast(h, k, 0)
  {
    if k > 0 {
      RootIsLeast(h, Parent(k));
      assert AtLeast(h, k, Parent(k));
    }
  }

  function Swap(h: seq<Pair>, i: nat, j: nat): (r: seq<Pair>)
    requires i < |h| && j < |h|
    ensures multiset(r) == multiset(h) && |r| == |h|
  {
    h[i := h[j]][j := h[i]]
  }

  /** A heap except that entry `i` may be smaller than its parent. */
  ghost predicate HeapAbove(h: seq<Pair>, i: nat) {
    && (forall k :: 0 < k < |h| && k != i ==> AtLeast(h, k, Parent(k)))
    && (forall k :: 0 < i < |h| && 0 < k < |h| && Parent(k) == i ==> AtLeast(h, k, Parent(i)))
  }

  lemma {:induction false} SwapUp(h: seq<Pair>, i: nat)
    requires 0 < i < |h| && HeapAbove(h, i) && !AtLeast(h, i, Parent(i))
    ensures HeapAbove(Swap(h, i, Parent(i)), Parent(i))
  {
    var p := Parent(i);
    var r := Swap(h, i, p);
    forall k | 0 < k < |r| && k != p
      ensures AtLeast(r, k, Parent(k))
    {
      if k != i { assert AtLeast(h, k, Parent(k)); }
      if Parent(k) == i { assert AtLeast(h, k, p); }
    }
    forall k | 0 < p < |r| && 0 < k < |r| && Parent(k) == p
      ensures AtLeast(r, k, Parent(p))
    {
      assert AtLeast(h, p, Parent(p));
      if k != i { assert AtLeast(h, k, Parent(k)); }
    }
  }

  method Push(h: seq<Pair>, x: Pair) returns (r: seq<Pair>)
    requires IsHeap(h)
    ensures IsHeap(r) && multiset(r) == multiset(h) + multiset{x}
  {
    r := h + [x];
    var i: nat := |h|;
    assert forall k :: 0 < k < |h| ==> AtLeast(h, k, Parent(k)) && AtLeast(r, k, Parent(k));
    while i > 0 && !AtLeast(r, i, Parent(i))
      invariant i < |r| && HeapAbove(r, i) && multiset(r) == multiset(h) + multiset{x}
    {
      SwapUp(r, i);
      r := Swap(r, i, Parent(i));
      i := Parent(i);
    }
  }

  /** A heap except that entry `i` may be larger than its children. */
  ghost predicate HeapBelow(h: seq<Pair>, i: nat) {
    && (forall k :: 0 < k < |h| && Parent(k) != i ==> AtLeast(h, k, Parent(k)))
    && (forall k :: 0 < i < |h| && 0 < k < |h| && Parent(k) == i ==> AtLeast(h, k, Parent(i)))
  }

  /** `c` is the least child of `i`. */
  ghost predicate LeastChild(h: seq<Pair>, i: nat, c: nat) {
    0 < c < |h| && Parent(c) == i && forall k :: 0 < k < |h| && Parent(k) == i ==> AtLeast(h, k, c)
  }

  lemma {:induction false} SwapDown(h: seq<Pair>, i: nat, c: nat)
    requires i < |h| && HeapBelow(h, i) && LeastChild(h, i, c) && !AtLeast(h, c, i)
    ensures HeapBelow(Swap(h, i, c), c)
  {
    var r := Swap(h, i, c);
    forall k | 0 < k < |r| && Parent(k) != c
      ensures AtLeast(r, k, Parent(k))
    {
      if Parent(k) != i { assert AtLeast(h, k, Parent(k)); } else { assert AtLeast(h, k, c); }
      if k == i { assert AtLeast(h, c, Parent(i)); }
    }
    forall k | 0 < k < |r| && Parent(k) == c
      ensures AtLeast(r, k, Parent(c))
    {
      assert AtLeast(h, k, Parent(k));
    }
  }

  lemma {:induction false} Settled(h: seq<Pair>, i: nat)
    requires i < |h| && HeapBelow(h, i)
    requires forall k :: 0 < k < |h| && Parent(k) == i ==> AtLeast(h, k, i)
    ensures IsHeap(h)
  {
  }

  method PickChild(h: seq<Pair>, i: nat) returns (c: nat)
    requires 2 * i + 1 < |h|
    ensures LeastChild(h, i, c) && i < c
  {
    c := 2 * i + 1;
    if c + 1 < |h| && Less(h[c + 1], h[c]) {
      c := c + 1;
    }
    forall k | 0 < k < |h| && Parent(k) == i
      ensures AtLeast(h, k, c)
    {
      assert k == 2 * i + 1 || k == 2 * i + 2;
    }
  }

  /** Puts `x` in the place of the root and lets it sink. */
  method Replace(h: seq<Pair>, x: Pair) returns (r: seq<Pair>)
    requires IsHeap(h) && h != []
    ensures IsHeap(r) && multiset(r) == multiset(h) - multiset{h[0]} + multiset{x}
  {
    r := h[0 := x];
    var i: nat := 0;
    assert forall k :: 0 < k < |h| && Parent(k) != 0 ==> AtLeast(h, k, Parent(k)) && AtLeast(r, k, Parent(k));
    while 2 * i + 1 < |r|
      invariant i < |r| && HeapBelow(r, i)
      invariant multiset(r) == multiset(h) - multiset{h[0]} + multiset{x}
      decreases |r| - i
    {
      var c := PickChild(r, i);
      if AtLeast(r, c, i) {
        forall k | 0 < k < |r| && Parent(k) == i ensures AtLeast(r, k, i) { assert AtLeast(r, k, c); }
        Settled(r, i);
        return;
      }
      SwapDown(r, i, c);
      r := Swap(r, i, c);
      i := c;
    }
    Settled(r, i);
  }
}
