/** `sampled_corpus_indices` of scripts/export_public_retrieval.py. The digest that ranks a
    document is an arbitrary function of its identifier. */
module CorpusSample {
  import opened Prelude
  import opened Sorting
  import opened DistractorHeap

  type Priority = string -> nat

  datatype Outcome = Rows(indices: seq<nat>) | TooSmall | MissingDocuments

  // ----- what a bounded selection keeps -----

  /** `kept` are the `limit` greatest of `items`, or all of them when there are fewer. */
  ghost predicate Greatest(items: set<Pair>, limit: nat, kept: set<Pair>) {
    && kept <= items
    && |kept| == (if |items| < limit then |items| else limit)
    && forall x, y :: x in kept && y in items - kept ==> Less(y, x)
  }

  /** Raising the limit only adds rows. */
  lemma {:induction false} GreatestGrows(items: set<Pair>, limit: nat, more: nat, a: set<Pair>, b: set<Pair>)
    requires limit <= more && Greatest(items, limit, a) && Greatest(items, more, b)
    ensures a <= b
  {
    PairOrder();
    if !(a <= b) {
      var x :| x in a && x !in b;
      if b <= a { SubsetSize(b, a); }
      var y :| y in b && y !in a;
      Asymmetric(x, y);
      assert false;
    }
  }

  lemma {:induction false} Asymmetric(x: Pair, y: Pair)
    ensures !(Less(x, y) && Less(y, x))
  {
  }

  lemma {:induction false} GreatestUnique(items: set<Pair>, limit: nat, a: set<Pair>, b: set<Pair>)
    requires Greatest(items, limit, a) && Greatest(items, limit, b)
    ensures a == b
  {
    GreatestGrows(items, limit, limit, a, b);
    GreatestGrows(items, limit, limit, b, a);
  }

  /** One more item: it joins, it takes the least one's place, or it is passed over. */
  lemma {:induction false} GreatestNext(items: set<Pair>, limit: nat, kept: set<Pair>, x: Pair, least: Pair)
    requires Greatest(items, limit, kept) && x !in items && 0 < limit
    requires |kept| == limit ==> least in kept && forall y :: y in kept ==> !Less(y, least)
    ensures Greatest(items + {x}, limit,
              if |kept| < limit then kept + {x} else if Less(least, x) then kept - {least} + {x} else kept)
  {
    PairOrder();
    SubsetSize(kept, items);
  }

  // ----- the script -----

  function PairOf(corpus: seq<string>, p: Priority, i: nat): Pair
    requires i < |corpus|
  {
    Pair(-(p(corpus[i]) as int), i)
  }

  /** The rows among the first `n` that no judgment requires. */
  ghost function Distractors(corpus: seq<string>, required: set<string>, p: Priority, n: nat): set<Pair>
    requires n <= |corpus|
  {
    set i: nat | i < n && corpus[i] !in required :: PairOf(corpus, p, i)
  }

  ghost function RequiredRows(corpus: seq<string>, required: set<string>, n: nat): set<nat>
    requires n <= |corpus|
  {
    set i: nat | i < n && corpus[i] in required
  }

  ghost predicate Increasing(s: seq<nat>) {
    forall i, j :: 0 <= i < j < |s| ==> s[i] < s[j]
  }

  ghost function RowsOf(kept: set<Pair>): set<nat> { set x | x in kept :: x.index }

  /** The sample is the required rows and the greatest distractors, in row order. */
  ghost predicate IsSample(corpus: seq<string>, required: set<string>, p: Priority, limit: nat, rows: seq<nat>) {
    && Increasing(rows)
    && exists kept :: Greatest(Distractors(corpus, required, p, |corpus|), limit, kept) &&
                      Elements(rows) == RequiredRows(corpus, required, |corpus|) + RowsOf(kept)
  }

  lemma {:induction false} NextRequired(corpus: seq<string>, required: set<string>, p: Priority, index: nat,
                                        rows: seq<nat>)
    requires index < |corpus| && corpus[index] in required
    requires Increasing(rows) && Elements(rows) == RequiredRows(corpus, required, index)
    ensures Increasing(rows + [index]) && Elements(rows + [index]) == RequiredRows(corpus, required, index + 1)
    ensures Distractors(corpus, required, p, index + 1) == Distractors(corpus, required, p, index)
  {
    assert forall k :: 0 <= k < |rows| ==> rows[k] in Elements(rows);
    assert Elements(rows + [index]) == Elements(rows) + {index};
  }

  lemma {:induction false} NextDistractor(corpus: seq<string>, required: set<string>, p: Priority, index: nat)
    requires index < |corpus| && corpus[index] !in required
    ensures RequiredRows(corpus, required, index + 1) == RequiredRows(corpus, required, index)
    ensures PairOf(corpus, p, index) !in Distractors(corpus, required, p, index)
    ensures Distractors(corpus, required, p, index + 1) == Distractors(corpus, required, p, index) + {PairOf(corpus,
        p, index)}
  {
    assert forall y :: y in Distractors(corpus, required, p, index) ==> y.index < index;
  }

  /** The heap holds exactly the greatest of the distractors seen so far. */
  ghost predicate Holds(heap: seq<Pair>, items: set<Pair>, limit: nat, kept: set<Pair>) {
    IsHeap(heap) && multiset(heap) == multiset(kept) && Greatest(items, limit, kept)
  }

  lemma {:induction false} HeapSize(heap: seq<Pair>, items: set<Pair>, limit: nat, kept: set<Pair>)
    requires Holds(heap, items, limit, kept)
    ensures |heap| == |kept| <= limit && Elements(heap) == kept
    ensures heap != [] ==> heap[0] in kept && forall y :: y in kept ==> !Less(y, heap[0])
  {
    FromSetOnce(heap, kept);
    ElementsSize(heap);
    forall y | y in kept
      ensures heap != [] ==> !Less(y, heap[0])
    {
      assert y in Elements(heap);
      var k :| 0 <= k < |heap| && heap[k] == y;
      RootIsLeast(heap, k);
    }
    assert heap != [] ==> heap[0] in Elements(heap);
  }

  /** Offers one more distractor to the bounded heap. */
  method Offer(heap: seq<Pair>, limit: nat, item: Pair, ghost items: set<Pair>, ghost kept: set<Pair>)
    returns (heap': seq<Pair>, ghost kept': set<Pair>)
    requires Holds(heap, items, limit, kept) && item !in items
    ensures Holds(heap', items + {item}, limit, kept')
  {
    heap', kept' := heap, kept;
    HeapSize(heap, items, limit, kept);
    if limit == 0 {
      return;
    }
    GreatestNext(items, limit, kept, item, if heap == [] then item else heap[0]);
    if |heap| < limit {
      heap' := Push(heap, item);
      kept' := kept + {item};
    } else if Less(heap[0], item) {
      heap' := Replace(heap, item);
      kept' := kept - {heap[0]} + {item};
    }
  }

  predicate RowLess(a: nat, b: nat) { a < b }

  function SortRows(rows: seq<nat>): (r: seq<nat>)
    ensures Sorted(RowLess, r) && multiset(r) == multiset(rows)
  {
    Sort(RowLess, rows)
  }

  lemma {:induction false} IncreasingOnce(s: seq<nat>)
    requires Increasing(s)
    ensures NoRepeats(s) && |Elements(s)| == |s|
  {
    ElementsSize(s);
  }

  lemma {:induction false} SortedRows(s: seq<nat>, elements: set<nat>)
    requires multiset(s) == multiset(elements)
    ensures Increasing(SortRows(s)) && Elements(SortRows(s)) == elements
  {
    var r := SortRows(s);
    FromSetOnce(r, elements);
    forall i, j | 0 <= i < j < |r|
      ensures r[i] < r[j]
    {
      assert !RowLess(r[j], r[i]);
    }
  }

  function Indexes(pairs: seq<Pair>): seq<nat> {
    if pairs == [] then [] else Indexes(pairs[..|pairs| - 1]) + [pairs[|pairs| - 1].index]
  }

  lemma {:induction false} IndexesOnce(pairs: seq<Pair>)
    requires forall i, j :: 0 <= i < j < |pairs| ==> pairs[i].index != pairs[j].index
    ensures NoRepeats(Indexes(pairs)) && Elements(Indexes(pairs)) == RowsOf(Elements(pairs))
    ensures |Indexes(pairs)| == |pairs|
  {
    if pairs != [] {
      var n := |pairs| - 1;
      IndexesOnce(pairs[..n]);
      assert pairs == pairs[..n] + [pairs[n]];
      assert Elements(pairs) == Elements(pairs[..n]) + {pairs[n]};
      forall x | x in Indexes(pairs[..n])
        ensures x != pairs[n].index
      {
        assert x in RowsOf(Elements(pairs[..n]));
      }
      assert RowsOf(Elements(pairs)) == RowsOf(Elements(pairs[..n])) + {pairs[n].index};
      assert Elements(Indexes(pairs)) == Elements(Indexes(pairs[..n])) + {pairs[n].index};
    }
  }

  lemma {:induction false} AppendOnce<T>(a: seq<T>, b: seq<T>)
    requires NoRepeats(a) && NoRepeats(b) && Elements(a) !! Elements(b)
    ensures multiset(a + b) == multiset(Elements(a) + Elements(b))
  {
    OnceInMultiset(a);
    OnceInMultiset(b);
    forall x
      ensures multiset(a + b)[x] == multiset(Elements(a) + Elements(b))[x]
    {
      assert x in a ==> x in Elements(a);
      assert x in b ==> x in Elements(b);
    }
  }

  lemma {:induction false} RowsAreSample(corpus: seq<string>, required: set<string>, p: Priority, limit: nat,
                                        requiredIndices: seq<nat>, distractors: seq<Pair>, kept: set<Pair>)
    requires Increasing(requiredIndices) && Elements(requiredIndices) == RequiredRows(corpus, required, |corpus|)
    requires Holds(distractors, Distractors(corpus, required, p, |corpus|), limit, kept)
    ensures IsSample(corpus, required, p, limit, SortRows(requiredIndices + Indexes(distractors)))
  {
    FromSetOnce(distractors, kept);
    DistractorRowsOnce(corpus, required, p, distractors);
    IncreasingOnce(requiredIndices);
    IndexesOnce(distractors);
    AppendOnce(requiredIndices, Indexes(distractors));
    SortedRows(requiredIndices + Indexes(distractors), RequiredRows(corpus, required, |corpus|) + RowsOf(kept));
  }

  lemma {:induction false} DistractorRowsOnce(corpus: seq<string>, required: set<string>, p: Priority, pairs: seq<Pair>)
    requires NoRepeats(pairs) && Elements(pairs) <= Distractors(corpus, required, p, |corpus|)
    ensures forall i, j :: 0 <= i < j < |pairs| ==> pairs[i].index != pairs[j].index
    ensures RowsOf(Elements(pairs)) !! RequiredRows(corpus, required, |corpus|)
  {
    forall x | x in pairs
      ensures x.index < |corpus| && x == PairOf(corpus, p, x.index) && corpus[x.index] !in required
    {
      assert x in Elements(pairs);
    }
  }

  /** The single pass over the corpus. */
  method Collect(corpus: seq<string>, required: set<string>, limit: nat, p: Priority)
    returns (requiredIndices: seq<nat>, distractors: seq<Pair>, ghost kept: set<Pair>)
    ensures Increasing(requiredIndices) && Elements(requiredIndices) == RequiredRows(corpus, required, |corpus|)
    ensures Holds(distractors, Distractors(corpus, required, p, |corpus|), limit, kept)
  {
    requiredIndices, distractors, kept := [], [], {};
    for index := 0 to |corpus|
      invariant Increasing(requiredIndices) && Elements(requiredIndices) == RequiredRows(corpus, required, index)
      invariant Holds(distractors, Distractors(corpus, required, p, index), limit, kept)
    {
      if corpus[index] in required {
        NextRequired(corpus, required, p, index, requiredIndices);
        requiredIndices := requiredIndices + [index];
      } else {
        NextDistractor(corpus, required, p, index);
        distractors, kept := Offer(distractors, limit, PairOf(corpus, p, index), Distractors(corpus, required, p,
            index), kept);
      }
    }
  }

  function AllRows(n: nat): seq<nat> { seq(n, i => i) }

  /** All rows, one of the two errors, or the sample. */
  ghost predicate IsOutcome(corpus: seq<string>, required: set<string>, sampleCorpus: Option<int>, p: Priority,
                            r: Outcome) {
    if sampleCorpus == None || sampleCorpus.value >= |corpus| then r == Rows(AllRows(|corpus|))
    else if sampleCorpus.value < |required| then r == TooSmall
    else if |RequiredRows(corpus, required, |corpus|)| != |required| then r == MissingDocuments
    else r.Rows? && IsSample(corpus, required, p, sampleCorpus.value - |required|, r.indices)
  }

  /** Row `i` is taken before row `j`: its digest is smaller, or the same and it stands later. */
  predicate Precedes(corpus: seq<string>, p: Priority, i: nat, j: nat)
    requires i < |corpus| && j < |corpus|
  {
    p(corpus[i]) < p(corpus[j]) || (p(corpus[i]) == p(corpus[j]) && i > j)
  }

  /** A row that no judgment requires. */
  predicate IsFree(corpus: seq<string>, required: set<string>, i: nat) { i < |corpus| && corpus[i] !in required }

  /** Between rows that no judgment requires, those returned come first in digest order. */
  ghost predicate TakesSmallest(corpus: seq<string>, required: set<string>, p: Priority, rows: seq<nat>) {
    forall i, j :: IsFree(corpus, required, i) && IsFree(corpus, required, j) && i in rows && j !in rows ==>
                     Precedes(corpus, p, i, j)
  }

  lemma {:induction false} SmallestTaken(corpus: seq<string>, required: set<string>, p: Priority, limit: nat,
                                         rows: seq<nat>, i: nat, j: nat)
    requires IsSample(corpus, required, p, limit, rows) && i in rows && j !in rows
    requires IsFree(corpus, required, i) && IsFree(corpus, required, j)
    ensures Precedes(corpus, p, i, j)
  {
    var items, req := Distractors(corpus, required, p, |corpus|), RequiredRows(corpus, required, |corpus|);
    var kept :| Greatest(items, limit, kept) && Elements(rows) == req + RowsOf(kept);
    assert i in Elements(rows) && i !in req && j !in Elements(rows);
    var x: Pair :| x in kept && x.index == i;
    assert x in items && x == PairOf(corpus, p, i);
    assert PairOf(corpus, p, j) in items - kept;
    assert Less(PairOf(corpus, p, j), PairOf(corpus, p, i));
  }

  /** The sample by rows and digests alone. */
  lemma {:induction false} SampleTakesSmallest(corpus: seq<string>, required: set<string>, p: Priority, limit: nat,
                                               rows: seq<nat>)
    requires IsSample(corpus, required, p, limit, rows)
    ensures TakesSmallest(corpus, required, p, rows)
  {
    forall i, j | IsFree(corpus, required, i) && IsFree(corpus, required, j) && i in rows && j !in rows
      ensures Precedes(corpus, p, i, j)
    {
      SmallestTaken(corpus, required, p, limit, rows, i, j);
    }
  }

  method SampledCorpusIndices(corpus: seq<string>, required: set<string>, sampleCorpus: Option<int>, p: Priority)
    returns (r: Outcome)
    ensures IsOutcome(corpus, required, sampleCorpus, p, r)
    ensures r.Rows? ==> Increasing(r.indices) && TakesSmallest(corpus, required, p, r.indices)
    ensures r.Rows? && sampleCorpus.Some? && sampleCorpus.value < |corpus| ==>
              && |r.indices| == sampleCorpus.value
              && forall i :: 0 <= i < |corpus| && corpus[i] in required ==> i in r.indices
  {
    if sampleCorpus == None || sampleCorpus.value >= |corpus| {
      forall j | 0 <= j < |corpus| ensures j in AllRows(|corpus|) { assert AllRows(|corpus|)[j] == j; }
      return Rows(AllRows(|corpus|));
    }
    if sampleCorpus.value < |required| {
      return TooSmall;
    }
    var limit: nat := sampleCorpus.value - |required|;
    var requiredIndices, distractors, kept := Collect(corpus, required, limit, p);
    IncreasingOnce(requiredIndices);
    if |requiredIndices| != |required| {
      return MissingDocuments;
    }
    RowsAreSample(corpus, required, p, limit, requiredIndices, distractors, kept);
    var rows := SortRows(requiredIndices + Indexes(distractors));
    SampleTakesSmallest(corpus, required, p, limit, rows);
    SampleSize(corpus, required, p, sampleCorpus.value, rows);
    r := Rows(rows);
  }

  // ----- what the sample is -----

  lemma {:induction false} TailOnce<T>(s: seq<T>, cut: nat)
    requires NoRepeats(s) && cut <= |s|
    ensures NoRepeats(s[cut..]) && |Elements(s[cut..])| == |s| - cut && Elements(s[cut..]) <= Elements(s)
  {
    assert forall k :: 0 <= k < |s[cut..]| ==> s[cut..][k] == s[cut + k];
    ElementsSize(s[cut..]);
  }

  lemma {:induction false} TailIsGreatest(sorted: seq<Pair>, limit: nat, cut: nat)
    requires Sorted(Less, sorted) && NoRepeats(sorted)
    requires cut == if limit < |sorted| then |sorted| - limit else 0
    ensures Greatest(Elements(sorted), limit, Elements(sorted[cut..]))
  {
    ElementsSize(sorted);
    TailOnce(sorted, cut);
    forall x, y | x in Elements(sorted[cut..]) && y in Elements(sorted) - Elements(sorted[cut..])
      ensures Less(y, x)
    {
      TailGreater(sorted, cut, x, y);
    }
  }

  /** The kept distractors are the tail of a full sort by (-priority, index). */
  lemma {:induction false} FullSortAgrees(items: seq<Pair>, sorted: seq<Pair>, limit: nat, kept: set<Pair>)
    requires NoRepeats(items) && Sorted(Less, sorted) && multiset(sorted) == multiset(items)
    ensures var cut := if limit < |sorted| then |sorted| - limit else 0;
            Greatest(Elements(items), limit, kept) <==> kept == Elements(sorted[cut..])
  {
    var cut := if limit < |sorted| then |sorted| - limit else 0;
    PermutationOnce(sorted, items);
    assert Elements(sorted) == Elements(items);
    TailIsGreatest(sorted, limit, cut);
    if Greatest(Elements(items), limit, kept) {
      GreatestUnique(Elements(items), limit, kept, Elements(sorted[cut..]));
    }
  }

  lemma {:induction false} TailGreater(sorted: seq<Pair>, cut: nat, x: Pair, y: Pair)
    requires cut <= |sorted| && Sorted(Less, sorted) && x in sorted[cut..] && y in sorted && y !in sorted[cut..]
    ensures Less(y, x)
  {
    PairOrder();
    var tail := sorted[cut..];
    var i :| 0 <= i < |tail| && tail[i] == x;
    forall k | cut <= k < |sorted| ensures sorted[k] in tail { assert tail[k - cut] == sorted[k]; }
    var j :| 0 <= j < |sorted| && sorted[j] == y;
    assert sorted[cut + i] == x;
    assert !Less(sorted[cut + i], sorted[j]);
  }

  lemma {:induction false} DistractorCount(corpus: seq<string>, required: set<string>, p: Priority, n: nat)
    requires n <= |corpus|
    ensures |Distractors(corpus, required, p, n)| + |RequiredRows(corpus, required, n)| == n
  {
    if n == 0 {
      assert Distractors(corpus, required, p, 0) == {} && RequiredRows(corpus, required, 0) == {};
    } else {
      DistractorCount(corpus, required, p, n - 1);
      if corpus[n - 1] in required {
        OneMoreRequired(corpus, required, p, n - 1);
      } else {
        NextDistractor(corpus, required, p, n - 1);
      }
    }
  }

  lemma {:induction false} OneMoreRequired(corpus: seq<string>, required: set<string>, p: Priority, index: nat)
    requires index < |corpus| && corpus[index] in required
    ensures RequiredRows(corpus, required, index + 1) == RequiredRows(corpus, required, index) + {index}
    ensures Distractors(corpus, required, p, index + 1) == Distractors(corpus, required, p, index)
  {
  }

  /** Distractors stand on rows of their own that no judgment requires. */
  lemma {:induction false} KeptRows(corpus: seq<string>, required: set<string>, p: Priority, kept: set<Pair>)
    requires kept <= Distractors(corpus, required, p, |corpus|)
    ensures |RowsOf(kept)| == |kept| && RowsOf(kept) !! RequiredRows(corpus, required, |corpus|)
  {
    forall x | x in kept
      ensures x.index < |corpus| && corpus[x.index] !in required && x == PairOf(corpus, p, x.index)
    {
      assert x in Distractors(corpus, required, p, |corpus|);
    }
    RowsOfSize(kept);
  }

  lemma {:induction false} RowsOfSize(kept: set<Pair>)
    requires forall x, y :: x in kept && y in kept && x.index == y.index ==> x == y
    ensures |RowsOf(kept)| == |kept|
  {
    if kept != {} {
      var x := PickOne(kept);
      RowsOfSize(kept - {x});
      assert RowsOf(kept) == RowsOf(kept - {x}) + {x.index};
    }
  }

  /** A sample has exactly the requested number of rows, in strictly increasing order,
      and leaves out no row of a required document. */
  lemma {:induction false} SampleSize(corpus: seq<string>, required: set<string>, p: Priority, n: nat, rows: seq<nat>)
    requires |required| <= n < |corpus| && |RequiredRows(corpus, required, |corpus|)| == |required|
    requires IsSample(corpus, required, p, n - |required|, rows)
    ensures |rows| == n && Increasing(rows)
    ensures forall i :: 0 <= i < |corpus| && corpus[i] in required ==> i in rows
  {
    var items, req := Distractors(corpus, required, p, |corpus|), RequiredRows(corpus, required, |corpus|);
    var kept :| Greatest(items, n - |required|, kept) && Elements(rows) == req + RowsOf(kept);
    DistractorCount(corpus, required, p, |corpus|);
    KeptRows(corpus, required, p, kept);
    IncreasingOnce(rows);
    forall i | 0 <= i < |corpus| && corpus[i] in required ensures i in rows { assert i in req; }
  }

  lemma {:induction false} SampleUnique(corpus: seq<string>, required: set<string>, p: Priority, limit: nat,
                                        a: seq<nat>, b: seq<nat>)
    requires IsSample(corpus, required, p, limit, a) && IsSample(corpus, required, p, limit, b)
    ensures a == b
  {
    SamplesNested(corpus, required, p, limit, limit, a, b);
    SamplesNested(corpus, required, p, limit, limit, b, a);
    IncreasingEqual(a, b);
  }

  lemma {:induction false} IncreasingEqual(a: seq<nat>, b: seq<nat>)
    requires Increasing(a) && Increasing(b) && Elements(a) == Elements(b)
    ensures a == b
  {
    IncreasingOnce(a);
    IncreasingOnce(b);
    assert forall x :: x in a <==> x in Elements(a);
    assert forall x :: x in b <==> x in Elements(b);
    SameMultiset(a, b);
    assert Sorted(RowLess, a) && Sorted(RowLess, b);
    SortedUnique(RowLess, a, b);
  }

  lemma {:induction false} SamplesNested(corpus: seq<string>, required: set<string>, p: Priority, limit: nat,
                                         more: nat, a: seq<nat>, b: seq<nat>)
    requires limit <= more && IsSample(corpus, required, p, limit, a) && IsSample(corpus, required, p, more, b)
    ensures Elements(a) <= Elements(b)
  {
    var items, req := Distractors(corpus, required, p, |corpus|), RequiredRows(corpus, required, |corpus|);
    var x :| Greatest(items, limit, x) && Elements(a) == req + RowsOf(x);
    var y :| Greatest(items, more, y) && Elements(b) == req + RowsOf(y);
    GreatestGrows(items, limit, more, x, y);
  }

  lemma {:induction false} SampleWithin(corpus: seq<string>, required: set<string>, p: Priority, limit: nat,
                                        a: seq<nat>)
    requires IsSample(corpus, required, p, limit, a)
    ensures Elements(a) <= Elements(AllRows(|corpus|))
  {
    var items, req := Distractors(corpus, required, p, |corpus|), RequiredRows(corpus, required, |corpus|);
    var kept :| Greatest(items, limit, kept) && Elements(a) == req + RowsOf(kept);
    forall i | i in Elements(a)
      ensures i in AllRows(|corpus|)
    {
      assert i < |corpus|;
      assert AllRows(|corpus|)[i] == i;
    }
  }

  /** Asking for more rows, up to all of them, keeps every row sampled before and raises no new error. */
  lemma {:induction false} SampleGrows(corpus: seq<string>, required: set<string>, p: Priority, size: int,
                                       more: Option<int>, r: Outcome, wider: Outcome)
    requires IsOutcome(corpus, required, Some(size), p, r) && r.Rows?
    requires IsOutcome(corpus, required, more, p, wider) && (more == None || size <= more.value)
    ensures wider.Rows? && Elements(r.indices) <= Elements(wider.indices)
  {
    if size < |corpus| {
      if more == None || more.value >= |corpus| {
        SampleWithin(corpus, required, p, size - |required|, r.indices);
      } else {
        SamplesNested(corpus, required, p, size - |required|, more.value - |required|, r.indices, wider.indices);
      }
    }
  }

  // ----- what the missing-document check detects -----

  ghost predicate RequiredOnce(corpus: seq<string>, required: set<string>) {
    forall i, j :: 0 <= i < j < |corpus| && corpus[i] in required ==> corpus[i] != corpus[j]
  }

  ghost predicate AllPresent(corpus: seq<string>, required: set<string>) {
    forall id :: id in required ==> id in corpus
  }

  ghost function IdsOf(corpus: seq<string>, rows: set<nat>): set<string>
    requires forall i :: i in rows ==> i < |corpus|
  {
    set i | i in rows :: corpus[i]
  }

  lemma {:induction false} IdsOfSize(corpus: seq<string>, rows: set<nat>)
    requires forall i :: i in rows ==> i < |corpus|
    ensures |IdsOf(corpus, rows)| <= |rows|
    ensures |IdsOf(corpus, rows)| == |rows| <==> forall i, j :: i in rows && j in rows && i != j ==>
        corpus[i] != corpus[j]
  {
    if rows != {} {
      var i := PickOne(rows);
      var rest := rows - {i};
      IdsOfSize(corpus, rest);
      assert IdsOf(corpus, rows) == IdsOf(corpus, rest) + {corpus[i]};
      if corpus[i] in IdsOf(corpus, rest) {
        var j :| j in rest && corpus[j] == corpus[i];
        assert IdsOf(corpus, rows) == IdsOf(corpus, rest);
      } else {
        assert forall j :: j in rest ==> corpus[j] in IdsOf(corpus, rest);
      }
    }
  }

  lemma {:induction false} AllIdsFound(corpus: seq<string>, required: set<string>)
    ensures AllPresent(corpus, required) <==> IdsOf(corpus, RequiredRows(corpus, required, |corpus|)) == required
  {
    var rows := RequiredRows(corpus, required, |corpus|);
    var ids := IdsOf(corpus, rows);
    if AllPresent(corpus, required) {
      forall id | id in required
        ensures id in ids
      {
        var i :| 0 <= i < |corpus| && corpus[i] == id;
        assert i in rows;
      }
      assert ids == required;
    }
    if ids == required {
      forall id | id in required
        ensures id in corpus
      {
        assert id in ids;
        var i :| i in rows && corpus[i] == id;
      }
    }
  }

  lemma {:induction false} OnceHasAsManyIds(corpus: seq<string>, required: set<string>)
    ensures var rows := RequiredRows(corpus, required, |corpus|);
            RequiredOnce(corpus, required) <==> |IdsOf(corpus, rows)| == |rows|
  {
    var rows := RequiredRows(corpus, required, |corpus|);
    IdsOfSize(corpus, rows);
    if RequiredOnce(corpus, required) {
      forall i, j | i in rows && j in rows && i != j
        ensures corpus[i] != corpus[j]
      {
        if i < j { assert corpus[i] in required; } else { assert corpus[j] in required; }
      }
    }
    if forall i, j :: i in rows && j in rows && i != j ==> corpus[i] != corpus[j] {
      forall i, j | 0 <= i < j < |corpus| && corpus[i] in required
        ensures corpus[i] != corpus[j]
      {
        if corpus[j] in required { assert i in rows && j in rows; }
      }
    }
  }

  lemma {:induction false} IdsWithin(corpus: seq<string>, required: set<string>)
    ensures var ids := IdsOf(corpus, RequiredRows(corpus, required, |corpus|));
            ids <= required && (|ids| == |required| ==> ids == required)
  {
    SubsetSize(IdsOf(corpus, RequiredRows(corpus, required, |corpus|)), required);
  }

  /** The script compares only counts: when the counts agree, every required document is
      present exactly when none of them occurs twice. */
  lemma {:induction false} CountCheckMeans(corpus: seq<string>, required: set<string>)
    requires |RequiredRows(corpus, required, |corpus|)| == |required|
    ensures AllPresent(corpus, required) <==> RequiredOnce(corpus, required)
  {
    AllIdsFound(corpus, required);
    OnceHasAsManyIds(corpus, required);
    IdsWithin(corpus, required);
  }

  /** When no required document occurs twice the check passes exactly when each of them is there. */
  lemma {:induction false} CountCheckIsExact(corpus: seq<string>, required: set<string>)
    requires RequiredOnce(corpus, required)
    ensures |RequiredRows(corpus, required, |corpus|)| == |required| <==> AllPresent(corpus, required)
  {
    AllIdsFound(corpus, required);
    OnceHasAsManyIds(corpus, required);
    IdsWithin(corpus, required);
  }

  /** A repeated document hides a missing one. */
  lemma {:induction false} RepeatHidesMissing()
    ensures |RequiredRows(["a", "a", "c"], {"a", "b"}, 3)| == |{"a", "b"}|
    ensures !AllPresent(["a", "a", "c"], {"a", "b"})
  {
    var corpus := ["a", "a", "c"];
    assert RequiredRows(corpus, {"a", "b"}, 3) == {0, 1};
    assert "a" != "b" && "b" != "c";
    assert "b" !in corpus;
    assert |{"a", "b"}| == 2;
  }
}
