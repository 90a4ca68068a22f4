/** Reciprocal-rank fusion, `fuse_search_outputs` of scripts/eval_code_retrieval.py. */
module RankFusion {
  import opened Prelude
  import opened Sorting

  datatype Item<T> = Item(path: string, payload: T)
  datatype Fused<T> = Fused(item: Item<T>, score: Option<real>)

  type Output<T> = seq<Item<T>>

  /** Every denominator is positive. */
  predicate ValidK(rrfK: real) { rrfK + 1.0 > 0.0 }

  /** No denominator of a path that counts is zero. */
  predicate Divides<T>(output: Output<T>, rrfK: real) {
    forall rank :: 0 <= rank < |output| && output[rank].path != "" ==> rrfK + rank as real + 1.0 != 0.0
  }

  function Weight(index: nat, originalWeight: real): real { if index == 0 then originalWeight else 1.0 }

  function Reciprocal(weight: real, rrfK: real, rank: nat): real
  {
    if rrfK + rank as real + 1.0 == 0.0 then 0.0 else weight / (rrfK + rank as real + 1.0)
  }

  /** What one list adds to the score of a path. */
  function ListScore<T>(output: Output<T>, path: string, weight: real, rrfK: real): real
  {
    if output == [] then 0.0
    else
      var n := |output| - 1;
      ListScore(output[..n], path, weight, rrfK) +
      (if output[n].path == path then Reciprocal(weight, rrfK, n) else 0.0)
  }

  function Score<T>(outputs: seq<Output<T>>, path: string, originalWeight: real, rrfK: real): real
  {
    if outputs == [] then 0.0
    else
      var n := |outputs| - 1;
      Score(outputs[..n], path, originalWeight, rrfK) +
      ListScore(outputs[n], path, Weight(n, originalWeight), rrfK)
  }

  predicate Occurs<T>(output: Output<T>, path: string) {
    exists i :: 0 <= i < |output| && output[i].path == path
  }

  /** Keys of the score dict: non-empty paths in order of first occurrence. */
  function Keys<T>(keys: seq<string>, output: Output<T>): seq<string> {
    if output == [] then keys
    else
      var n := |output| - 1;
      var before := Keys(keys, output[..n]);
      if output[n].path == "" || output[n].path in before then before else before + [output[n].path]
  }

  function AllKeys<T>(outputs: seq<Output<T>>): seq<string> {
    if outputs == [] then [] else Keys(AllKeys(outputs[..|outputs| - 1]), outputs[|outputs| - 1])
  }

  /** The sort key `(-scores[path], path)`. */
  predicate RanksBefore(scores: string -> real, a: string, b: string) {
    scores(a) > scores(b) || (scores(a) == scores(b) && StringLess(a, b))
  }

  lemma {:induction false} RankOrder(scores: string -> real)
    ensures WeakOrder((a: string, b: string) => RanksBefore(scores, a, b))
    ensures forall a, b :: a == b || RanksBefore(scores, a, b) || RanksBefore(scores, b, a)
  {
    StringOrder();
  }

  function Ranked<T>(outputs: seq<Output<T>>, originalWeight: real, rrfK: real): (r: seq<string>)
    ensures multiset(r) == multiset(AllKeys(outputs))
  {
    var scores := (p: string) => Score(outputs, p, originalWeight, rrfK);
    RankOrder(scores);
    Sort((a: string, b: string) => RanksBefore(scores, a, b), AllKeys(outputs))
  }

  // ----- the loops -----

  /** `scores.get(path, 0.0)` */
  function Lookup(scores: map<string, real>, p: string): real { if p in scores then scores[p] else 0.0 }

  /** `sorted(scores, key=...)` over the keys of the score dict. */
  function RankedKeys(keys: seq<string>, scores: map<string, real>): (r: seq<string>)
    ensures multiset(r) == multiset(keys)
  {
    var tallied := (p: string) => Lookup(scores, p);
    RankOrder(tallied);
    Sort((a: string, b: string) => RanksBefore(tallied, a, b), keys)
  }

  /** Two ways of sorting the same paths agree where the scores of those paths agree. */
  lemma {:induction false} RankedAlike(f: string -> real, g: string -> real, a: seq<string>, b: seq<string>)
    requires multiset(a) == multiset(b) && forall p :: p in a ==> f(p) == g(p)
    requires Sorted((x: string, y: string) => RanksBefore(f, x, y), a)
    requires Sorted((x: string, y: string) => RanksBefore(g, x, y), b)
    ensures a == b
  {
    SameElements(a, b);
    RankOrder(f);
    var less := (x: string, y: string) => RanksBefore(f, x, y);
    var less' := (x: string, y: string) => RanksBefore(g, x, y);
    forall i, j | 0 <= i < j < |b|
      ensures !less(b[j], b[i])
    {
      assert b[i] in b && b[j] in b && !less'(b[j], b[i]);
    }
    SortedUnique(less, a, b);
  }

  lemma {:induction false} RankedKeysAgree<T>(outputs: seq<Output<T>>, originalWeight: real, rrfK: real,
                                             scores: map<string, real>)
    requires forall p :: p in AllKeys(outputs) ==> p in scores && scores[p] == Score(outputs, p, originalWeight, rrfK)
    ensures RankedKeys(AllKeys(outputs), scores) == Ranked(outputs, originalWeight, rrfK)
  {
    var f, g := (p: string) => Lookup(scores, p), (p: string) => Score(outputs, p, originalWeight, rrfK);
    var a, b := RankedKeys(AllKeys(outputs), scores), Ranked(outputs, originalWeight, rrfK);
    SameElements(a, AllKeys(outputs));
    RankOrder(f);
    RankOrder(g);
    RankedAlike(f, g, a, b);
  }

  /** The first item of each path, as `setdefault` keeps it. */
  function FirstItems<T>(first: map<string, Item<T>>, output: Output<T>): map<string, Item<T>> {
    if output == [] then first
    else
      var n := |output| - 1;
      var before := FirstItems(first, output[..n]);
      if output[n].path == "" || output[n].path in before then before else before[output[n].path := output[n]]
  }

  function AllFirstItems<T>(outputs: seq<Output<T>>): map<string, Item<T>> {
    if outputs == [] then map[] else FirstItems(AllFirstItems(outputs[..|outputs| - 1]), outputs[|outputs| - 1])
  }

  /** The dicts after some lists and a part of the next one. */
  ghost predicate Tallied<T>(outputs: seq<Output<T>>, part: Output<T>, weight: real, originalWeight: real, rrfK: real,
                             keys: seq<string>, scores: map<string, real>, selected: map<string, Item<T>>)
  {
    && keys == Keys(AllKeys(outputs), part)
    && (forall p :: p in scores <==> p in keys)
    && selected == FirstItems(AllFirstItems(outputs), part)
    && selected.Keys == scores.Keys
    && (forall p :: p in scores ==>
          scores[p] == Score(outputs, p, originalWeight, rrfK) + ListScore(part, p, weight, rrfK))
    && (forall p :: p != "" && p !in scores ==>
          Score(outputs, p, originalWeight, rrfK) == 0.0 && ListScore(part, p, weight, rrfK) == 0.0)
    && "" !in scores
  }

  /** What one more item of a list changes. */
  lemma {:induction false} PartGrows<T>(outputs: seq<Output<T>>, output: Output<T>, rank: nat, weight: real, rrfK: real)
    requires rank < |output|
    ensures var item, keys := output[rank], Keys(AllKeys(outputs), output[..rank]);
            Keys(AllKeys(outputs), output[..rank + 1]) ==
            if item.path == "" || item.path in keys then keys else keys + [item.path]
    ensures var item, first := output[rank], FirstItems(AllFirstItems(outputs), output[..rank]);
            FirstItems(AllFirstItems(outputs), output[..rank + 1]) ==
            if item.path == "" || item.path in first then first else first[item.path := item]
    ensures forall p :: ListScore(output[..rank + 1], p, weight, rrfK) ==
                        ListScore(output[..rank], p, weight, rrfK) +
                        (if output[rank].path == p then Reciprocal(weight, rrfK, rank) else 0.0)
  {
    var part := output[..rank + 1];
    assert part[..rank] == output[..rank] && part[rank] == output[rank];
  }

  /** One more item of a list, counted as the loop counts it, keeps the dicts up to date. */
  lemma {:induction false} ItemTallied<T>(outputs: seq<Output<T>>, output: Output<T>, rank: nat, weight: real,
                                         originalWeight: real, rrfK: real,
                                         keys: seq<string>, scores: map<string, real>, selected: map<string, Item<T>>)
    requires rank < |output| && Tallied(outputs, output[..rank], weight, originalWeight, rrfK, keys, scores, selected)
    ensures var path, amount := output[rank].path, Reciprocal(weight, rrfK, rank);
            Tallied(outputs, output[..rank + 1], weight, originalWeight, rrfK,
                    if path == "" || path in scores then keys else keys + [path],
                    if path == "" then scores else scores[path := Lookup(scores, path) + amount],
                    if path == "" || path in scores then selected else selected[path := output[rank]])
  {
    PartGrows(outputs, output, rank, weight, rrfK);
  }

  method AddList<T>(ghost outputs: seq<Output<T>>, output: Output<T>, weight: real, ghost originalWeight: real,
                    rrfK: real,
                    keys: seq<string>, scores: map<string, real>, selected: map<string, Item<T>>)
    returns (ok: bool, keys': seq<string>, scores': map<string, real>, selected': map<string, Item<T>>)
    requires Tallied(outputs, [], weight, originalWeight, rrfK, keys, scores, selected)
    ensures ok <==> Divides(output, rrfK)
    ensures ok ==> Tallied(outputs, output, weight, originalWeight, rrfK, keys', scores', selected')
  {
    keys', scores', selected' := keys, scores, selected;
    for rank := 0 to |output|
      invariant Tallied(outputs, output[..rank], weight, originalWeight, rrfK, keys', scores', selected')
      invariant forall r :: 0 <= r < rank && output[r].path != "" ==> rrfK + r as real + 1.0 != 0.0
    {
      var path := output[rank].path;
      ItemTallied(outputs, output, rank, weight, originalWeight, rrfK, keys', scores', selected');
      if path != "" {
        if rrfK + rank as real + 1.0 == 0.0 {
          ok := false;
          return;
        }
        if path !in scores' {
          keys' := keys' + [path];
          selected' := selected'[path := output[rank]];
        }
        scores' := scores'[path := Lookup(scores', path) + Reciprocal(weight, rrfK, rank)];
      }
    }
    ok := true;
    assert output[..|output|] == output;
  }

  /** The list handed back: each ranked path's first item with its score. */
  function FusedItems<T>(ranked: seq<string>, scores: map<string, real>, selected: map<string, Item<T>>): seq<Fused<T>>
    requires forall p :: p in ranked ==> p in scores && p in selected
  {
    if ranked == [] then []
    else [Fused(selected[ranked[0]], Some(scores[ranked[0]]))] + FusedItems(ranked[1..], scores, selected)
  }

  lemma {:induction false} FusedItemsAt<T>(ranked: seq<string>, scores: map<string, real>, selected: map<string,
                                           Item<T>>)
    requires forall p :: p in ranked ==> p in scores && p in selected
    ensures |FusedItems(ranked, scores, selected)| == |ranked|
    ensures forall i :: 0 <= i < |ranked| ==>
              FusedItems(ranked, scores, selected)[i] == Fused(selected[ranked[i]], Some(scores[ranked[i]]))
  {
    if ranked != [] { FusedItemsAt(ranked[1..], scores, selected); }
  }

  lemma {:induction false} TalliedNext<T>(outputs: seq<Output<T>>, output: Output<T>, weight: real, next: real,
                                         originalWeight: real, rrfK: real,
                                         keys: seq<string>, scores: map<string, real>, selected: map<string, Item<T>>)
    requires weight == Weight(|outputs|, originalWeight)
    requires Tallied(outputs, output, weight, originalWeight, rrfK, keys, scores, selected)
    ensures Tallied(outputs + [output], [], next, originalWeight, rrfK, keys, scores, selected)
  {
    var longer := outputs + [output];
    assert longer[..|longer| - 1] == outputs;
  }

  /** The ranked paths in order, each with its first item and its fused score. */
  ghost predicate IsFusion<T>(outputs: seq<Output<T>>, originalWeight: real, rrfK: real, fused: seq<Fused<T>>)
  {
    var ranked, first := Ranked(outputs, originalWeight, rrfK), AllFirstItems(outputs);
    && |fused| == |ranked|
    && forall i :: 0 <= i < |fused| ==>
         && ranked[i] in first
         && fused[i] == Fused(first[ranked[i]], Some(Score(outputs, ranked[i], originalWeight, rrfK)))
  }

  /** The outer loop's body: the next list under its weight. */
  method AddNext<T>(outputs: seq<Output<T>>, outputIndex: nat, originalWeight: real, rrfK: real,
                    keys: seq<string>, scores: map<string, real>, selected: map<string, Item<T>>)
    returns (ok: bool, keys': seq<string>, scores': map<string, real>, selected': map<string, Item<T>>)
    requires outputIndex < |outputs|
    requires Tallied(outputs[..outputIndex], [], Weight(outputIndex, originalWeight), originalWeight, rrfK,
                     keys, scores, selected)
    ensures ok <==> Divides(outputs[outputIndex], rrfK)
    ensures ok ==> Tallied(outputs[..outputIndex + 1], [], Weight(outputIndex + 1, originalWeight), originalWeight,
                           rrfK, keys', scores', selected')
  {
    var weight := if outputIndex == 0 then originalWeight else 1.0;
    ok, keys', scores', selected' := AddList(outputs[..outputIndex], outputs[outputIndex], weight, originalWeight,
                                             rrfK, keys, scores, selected);
    if ok {
      TalliedNext(outputs[..outputIndex], outputs[outputIndex], weight, Weight(outputIndex + 1, originalWeight),
                  originalWeight, rrfK, keys', scores', selected');
      assert outputs[..outputIndex + 1] == outputs[..outputIndex] + [outputs[outputIndex]];
    }
  }

  lemma {:induction false} FusionDone<T>(outputs: seq<Output<T>>, weight: real, originalWeight: real, rrfK: real,
                                        keys: seq<string>, scores: map<string, real>, selected: map<string, Item<T>>)
    requires Tallied(outputs, [], weight, originalWeight, rrfK, keys, scores, selected)
    ensures forall p :: p in RankedKeys(keys, scores) ==> p in scores && p in selected
    ensures IsFusion(outputs, originalWeight, rrfK, FusedItems(RankedKeys(keys, scores), scores, selected))
  {
    var ranked := RankedKeys(keys, scores);
    SameElements(ranked, keys);
    RankedKeysAgree(outputs, originalWeight, rrfK, scores);
    FusedItemsAt(ranked, scores, selected);
  }

  /** `fuse_search_outputs`: a single list is passed through; otherwise paths are ranked by fused score,
      and a zero denominator raises. */
  method Fuse<T>(outputs: seq<Output<T>>, rrfK: real, originalWeight: real) returns (fused: Option<seq<Fused<T>>>)
    ensures |outputs| == 1 ==>
              fused == Some(seq(|outputs[0]|, i requires 0 <= i < |outputs[0]| => Fused(outputs[0][i], None)))
    ensures |outputs| != 1 ==> (fused.Some? <==> forall o :: o in outputs ==> Divides(o, rrfK))
    ensures |outputs| != 1 && fused.Some? ==>
              && IsFusion(outputs, originalWeight, rrfK, fused.value)
              && (forall f :: f in fused.value ==> IsFusedItem(outputs, originalWeight, rrfK, f))
              && InOrder(fused.value) && Complete(outputs, fused.value)
  {
    if |outputs| == 1 {
      fused := Some(seq(|outputs[0]|, i requires 0 <= i < |outputs[0]| => Fused(outputs[0][i], None)));
      return;
    }
    var keys: seq<string>, scores: map<string, real>, selected: map<string, Item<T>> := [], map[], map[];
    for outputIndex := 0 to |outputs|
      invariant Tallied(outputs[..outputIndex], [], Weight(outputIndex, originalWeight), originalWeight, rrfK,
                        keys, scores, selected)
      invariant forall k :: 0 <= k < outputIndex ==> Divides(outputs[k], rrfK)
    {
      var ok;
      ok, keys, scores, selected := AddNext(outputs, outputIndex, originalWeight, rrfK, keys, scores, selected);
      if !ok {
        fused := None;
        assert outputs[outputIndex] in outputs;
        return;
      }
    }
    assert outputs[..|outputs|] == outputs;
    FusionDone(outputs, Weight(|outputs|, originalWeight), originalWeight, rrfK, keys, scores, selected);
    fused := Some(FusedItems(RankedKeys(keys, scores), scores, selected));
    FusionMeans(outputs, originalWeight, rrfK, fused.value);
  }

  // ----- each path once -----

  lemma {:induction false} KeysOnce<T>(keys: seq<string>, output: Output<T>)
    requires NoRepeats(keys) && "" !in keys
    ensures NoRepeats(Keys(keys, output)) && "" !in Keys(keys, output)
    ensures forall p :: p in Keys(keys, output) <==> p in keys || (p != "" && Occurs(output, p))
  {
    if output != [] {
      var n := |output| - 1;
      KeysOnce(keys, output[..n]);
      assert forall p :: Occurs(output, p) <==> Occurs(output[..n], p) || output[n].path == p by {
        forall p | Occurs(output[..n], p) ensures Occurs(output, p) {
          var i :| 0 <= i < n && output[..n][i].path == p;
          assert output[i].path == p;
        }
        forall p | Occurs(output, p) && output[n].path != p ensures Occurs(output[..n], p) {
          var i :| 0 <= i < |output| && output[i].path == p;
          assert output[..n][i].path == p;
        }
      }
    }
  }

  lemma {:induction false} AllKeysOnce<T>(outputs: seq<Output<T>>)
    ensures NoRepeats(AllKeys(outputs)) && "" !in AllKeys(outputs)
    ensures forall p :: p in AllKeys(outputs) <==> p != "" && exists o :: o in outputs && Occurs(o, p)
  {
    if outputs != [] {
      var n := |outputs| - 1;
      AllKeysOnce(outputs[..n]);
      KeysOnce(AllKeys(outputs[..n]), outputs[n]);
      assert forall o :: o in outputs <==> o in outputs[..n] || o == outputs[n];
    }
  }

  /** The fused order holds every non-empty path of any list, once. */
  lemma {:induction false} RankedOnce<T>(outputs: seq<Output<T>>, originalWeight: real, rrfK: real)
    ensures NoRepeats(Ranked(outputs, originalWeight, rrfK))
    ensures forall p :: p in Ranked(outputs, originalWeight, rrfK) <==>
                        p != "" && exists o :: o in outputs && Occurs(o, p)
  {
    AllKeysOnce(outputs);
    PermutationOnce(Ranked(outputs, originalWeight, rrfK), AllKeys(outputs));
  }

  // ----- what a score is made of -----

  /** An amount times the denominator of a rank. */
  function Scaled(amount: real, rrfK: real, rank: nat): real { amount * (rrfK + rank as real + 1.0) }

  /** One amount a listing: the weight over `rrf_k + rank + 1` where the path is listed, and nothing elsewhere. */
  ghost predicate AreAmounts<T>(output: Output<T>, path: string, weight: real, rrfK: real, amounts: seq<real>) {
    && |amounts| == |output|
    && forall r :: 0 <= r < |output| ==>
         if output[r].path == path then Scaled(amounts[r], rrfK, r) == weight else amounts[r] == 0.0
  }

  function Total(amounts: seq<real>): real {
    if amounts == [] then 0.0 else Total(amounts[..|amounts| - 1]) + amounts[|amounts| - 1]
  }

  function TotalOfLists(amounts: seq<seq<real>>): real {
    if amounts == [] then 0.0 else TotalOfLists(amounts[..|amounts| - 1]) + Total(amounts[|amounts| - 1])
  }

  ghost predicate AllAmounts<T>(outputs: seq<Output<T>>, path: string, originalWeight: real, rrfK: real,
                                amounts: seq<seq<real>>) {
    && |amounts| == |outputs|
    && forall j :: 0 <= j < |outputs| ==>
         AreAmounts(outputs[j], path, if j == 0 then originalWeight else 1.0, rrfK, amounts[j])
  }

  /** The sum of a path's amounts over all its listings. */
  ghost predicate IsScore<T>(outputs: seq<Output<T>>, path: string, originalWeight: real, rrfK: real, score: real) {
    exists amounts :: AllAmounts(outputs, path, originalWeight, rrfK, amounts) && score == TotalOfLists(amounts)
  }

  lemma {:induction false} DividesFront<T>(output: Output<T>, rrfK: real)
    requires Divides(output, rrfK) && output != []
    ensures Divides(output[..|output| - 1], rrfK)
  {
    var front := output[..|output| - 1];
    forall r | 0 <= r < |front| && front[r].path != ""
      ensures rrfK + r as real + 1.0 != 0.0
    {
      assert output[r] == front[r];
    }
  }

  lemma {:induction false} AmountsGrow<T>(output: Output<T>, path: string, weight: real, rrfK: real,
                                         front: seq<real>, a: real)
    requires output != [] && AreAmounts(output[..|output| - 1], path, weight, rrfK, front)
    requires if output[|output| - 1].path == path then Scaled(a, rrfK, |output| - 1) == weight else a == 0.0
    ensures AreAmounts(output, path, weight, rrfK, front + [a]) && Total(front + [a]) == Total(front) + a
  {
    assert (front + [a])[..|front|] == front;
    forall r | 0 <= r < |output|
      ensures if output[r].path == path then Scaled((front + [a])[r], rrfK, r) == weight
              else (front + [a])[r] == 0.0
    {
      if r < |front| { assert output[..|output| - 1][r] == output[r]; }
    }
  }

  lemma {:induction false} ListAmounts<T>(output: Output<T>, path: string, weight: real, rrfK: real)
    returns (amounts: seq<real>)
    requires path != "" && Divides(output, rrfK)
    ensures AreAmounts(output, path, weight, rrfK, amounts) && ListScore(output, path, weight, rrfK) == Total(amounts)
  {
    if output == [] {
      amounts := [];
    } else {
      var n := |output| - 1;
      DividesFront(output, rrfK);
      var front := ListAmounts(output[..n], path, weight, rrfK);
      var a := if output[n].path == path then Reciprocal(weight, rrfK, n) else 0.0;
      if output[n].path == path { QuotientBack(a, weight, rrfK + n as real + 1.0); }
      AmountsGrow(output, path, weight, rrfK, front, a);
      amounts := front + [a];
    }
  }

  lemma {:induction false} AllAmountsGrow<T>(outputs: seq<Output<T>>, path: string, originalWeight: real, rrfK: real,
                                            front: seq<seq<real>>, last: seq<real>)
    requires outputs != [] && AllAmounts(outputs[..|outputs| - 1], path, originalWeight, rrfK, front)
    requires AreAmounts(outputs[|outputs| - 1], path, Weight(|outputs| - 1, originalWeight), rrfK, last)
    ensures AllAmounts(outputs, path, originalWeight, rrfK, front + [last])
    ensures TotalOfLists(front + [last]) == TotalOfLists(front) + Total(last)
  {
    assert (front + [last])[..|front|] == front;
    forall j | 0 <= j < |outputs|
      ensures AreAmounts(outputs[j], path, if j == 0 then originalWeight else 1.0, rrfK, (front + [last])[j])
    {
      if j < |front| { assert outputs[..|outputs| - 1][j] == outputs[j] && (front + [last])[j] == front[j]; }
    }
  }

  lemma {:induction false} AllAmountsOf<T>(outputs: seq<Output<T>>, path: string, originalWeight: real, rrfK: real)
    returns (amounts: seq<seq<real>>)
    requires path != "" && forall o :: o in outputs ==> Divides(o, rrfK)
    ensures AllAmounts(outputs, path, originalWeight, rrfK, amounts)
    ensures Score(outputs, path, originalWeight, rrfK) == TotalOfLists(amounts)
  {
    if outputs == [] {
      amounts := [];
    } else {
      var n := |outputs| - 1;
      assert forall o :: o in outputs[..n] ==> o in outputs;
      var front := AllAmountsOf(outputs[..n], path, originalWeight, rrfK);
      var last := ListAmounts(outputs[n], path, Weight(n, originalWeight), rrfK);
      AllAmountsGrow(outputs, path, originalWeight, rrfK, front, last);
      amounts := front + [last];
    }
  }

  lemma {:induction false} ScoreIsAmounts<T>(outputs: seq<Output<T>>, path: string, originalWeight: real, rrfK: real)
    requires path != "" && forall o :: o in outputs ==> Divides(o, rrfK)
    ensures IsScore(outputs, path, originalWeight, rrfK, Score(outputs, path, originalWeight, rrfK))
  {
    var amounts := AllAmountsOf(outputs, path, originalWeight, rrfK);
  }

  lemma {:induction false} TotalOfZeros(amounts: seq<real>)
    requires forall r :: 0 <= r < |amounts| ==> amounts[r] == 0.0
    ensures Total(amounts) == 0.0
  {
    if amounts != [] { TotalOfZeros(amounts[..|amounts| - 1]); }
  }

  lemma {:induction false} TotalOfOne(amounts: seq<real>, at: nat)
    requires at < |amounts| && forall r :: 0 <= r < |amounts| && r != at ==> amounts[r] == 0.0
    ensures Total(amounts) == amounts[at]
  {
    if at == |amounts| - 1 {
      TotalOfZeros(amounts[..at]);
    } else {
      TotalOfOne(amounts[..|amounts| - 1], at);
    }
  }

  lemma {:induction false} TotalOfOneList(amounts: seq<seq<real>>, at: nat)
    requires at <= |amounts| && forall j :: 0 <= j < |amounts| && j != at ==> Total(amounts[j]) == 0.0
    ensures TotalOfLists(amounts) == if at < |amounts| then Total(amounts[at]) else 0.0
  {
    if amounts != [] {
      var n := |amounts| - 1;
      TotalOfOneList(amounts[..n], if at < n then at else n);
    }
  }

  ghost predicate ListedOnce<T>(outputs: seq<Output<T>>, path: string, j: nat, r: nat) {
    && j < |outputs| && r < |outputs[j]| && outputs[j][r].path == path
    && (forall q :: 0 <= q < |outputs[j]| && q != r ==> outputs[j][q].path != path)
    && forall i :: 0 <= i < |outputs| && i != j ==> !Occurs(outputs[i], path)
  }

  lemma {:induction false} AbsentTotal<T>(output: Output<T>, path: string, weight: real, rrfK: real, amounts: seq<real>)
    requires AreAmounts(output, path, weight, rrfK, amounts) && !Occurs(output, path)
    ensures Total(amounts) == 0.0
  {
    forall r | 0 <= r < |amounts| ensures amounts[r] == 0.0 { assert output[r].path != path; }
    TotalOfZeros(amounts);
  }

  lemma {:induction false} OnceTotal<T>(output: Output<T>, path: string, weight: real, rrfK: real, amounts: seq<real>,
                                       r: nat)
    requires AreAmounts(output, path, weight, rrfK, amounts) && r < |output| && output[r].path == path
    requires forall q :: 0 <= q < |output| && q != r ==> output[q].path != path
    ensures Scaled(Total(amounts), rrfK, r) == weight
  {
    forall q | 0 <= q < |amounts| && q != r ensures amounts[q] == 0.0 { assert output[q].path != path; }
    TotalOfOne(amounts, r);
  }

  lemma {:induction false} OtherList<T>(outputs: seq<Output<T>>, path: string, originalWeight: real, rrfK: real,
                                       amounts: seq<seq<real>>, j: nat, r: nat, i: nat)
    requires AllAmounts(outputs, path, originalWeight, rrfK, amounts) && ListedOnce(outputs, path, j, r)
    requires i < |amounts| && i != j
    ensures Total(amounts[i]) == 0.0
  {
    AbsentTotal(outputs[i], path, if i == 0 then originalWeight else 1.0, rrfK, amounts[i]);
  }

  lemma {:induction false} OnlyList<T>(outputs: seq<Output<T>>, path: string, originalWeight: real, rrfK: real,
                                      amounts: seq<seq<real>>, j: nat, r: nat, weight: real)
    requires AllAmounts(outputs, path, originalWeight, rrfK, amounts) && ListedOnce(outputs, path, j, r)
    requires weight == if j == 0 then originalWeight else 1.0
    ensures Scaled(Total(amounts[j]), rrfK, r) == weight
  {
    OnceTotal(outputs[j], path, weight, rrfK, amounts[j], r);
  }

  lemma {:induction false} OnlyListTotals<T>(outputs: seq<Output<T>>, path: string, originalWeight: real, rrfK: real,
                                            amounts: seq<seq<real>>, j: nat, r: nat)
    requires AllAmounts(outputs, path, originalWeight, rrfK, amounts) && ListedOnce(outputs, path, j, r)
    ensures TotalOfLists(amounts) == Total(amounts[j])
  {
    forall i | 0 <= i < |amounts| && i != j
      ensures Total(amounts[i]) == 0.0
    {
      OtherList(outputs, path, originalWeight, rrfK, amounts, j, r, i);
    }
    TotalOfOneList(amounts, j);
  }

  lemma {:induction false} OnlyListScores<T>(outputs: seq<Output<T>>, path: string, originalWeight: real, rrfK: real,
                                            amounts: seq<seq<real>>, j: nat, r: nat, weight: real)
    requires AllAmounts(outputs, path, originalWeight, rrfK, amounts) && ListedOnce(outputs, path, j, r)
    requires weight == if j == 0 then originalWeight else 1.0
    ensures Scaled(TotalOfLists(amounts), rrfK, r) == weight
  {
    OnlyListTotals(outputs, path, originalWeight, rrfK, amounts, j, r);
    OnlyList(outputs, path, originalWeight, rrfK, amounts, j, r, weight);
  }

  /** A path listed once, at rank `r` of list `j`, scores that list's weight over `rrf_k + r + 1`. */
  lemma {:induction false} ListedOnceScores<T>(outputs: seq<Output<T>>, path: string, originalWeight: real, rrfK: real,
                                              score: real, j: nat, r: nat, weight: real)
    requires IsScore(outputs, path, originalWeight, rrfK, score) && ListedOnce(outputs, path, j, r)
    requires weight == if j == 0 then originalWeight else 1.0
    ensures score * (rrfK + r as real + 1.0) == weight
  {
    forall amounts | AllAmounts(outputs, path, originalWeight, rrfK, amounts)
      ensures Scaled(TotalOfLists(amounts), rrfK, r) == weight
    {
      OnlyListScores(outputs, path, originalWeight, rrfK, amounts, j, r, weight);
    }
  }

  // ----- the fused list in terms of the listings -----

  ghost predicate FirstIn<T>(output: Output<T>, r: int, path: string) {
    0 <= r < |output| && output[r].path == path && forall q :: 0 <= q < r ==> output[q].path != path
  }

  /** List `j` is the first to list the path, and lists it at rank `r` first. */
  ghost predicate FirstListing<T>(outputs: seq<Output<T>>, j: int, r: int, path: string) {
    0 <= j < |outputs| && FirstIn(outputs[j], r, path) && forall i :: 0 <= i < j ==> !Occurs(outputs[i], path)
  }

  lemma {:induction false} OccursNext<T>(output: Output<T>, path: string)
    requires output != []
    ensures Occurs(output, path) <==> Occurs(output[..|output| - 1], path) || output[|output| - 1].path == path
  {
    var n := |output| - 1;
    if Occurs(output[..n], path) {
      var i :| 0 <= i < n && output[..n][i].path == path;
      assert output[i].path == path;
    }
    if Occurs(output, path) && output[n].path != path {
      var i :| 0 <= i < |output| && output[i].path == path;
      assert output[..n][i].path == path;
    }
  }

  lemma {:induction false} FirstInFront<T>(output: Output<T>, r: int, path: string)
    requires output != []
    ensures FirstIn(output[..|output| - 1], r, path) ==>
              FirstIn(output, r, path) && output[r] == output[..|output| - 1][r]
    ensures !Occurs(output[..|output| - 1], path) && output[|output| - 1].path == path ==>
              FirstIn(output, |output| - 1, path)
  {
    assert forall q :: 0 <= q < |output| - 1 ==> output[..|output| - 1][q] == output[q];
  }

  lemma {:induction false} FirstItemsAre<T>(first: map<string, Item<T>>, output: Output<T>, path: string)
    requires path != ""
    ensures var after := FirstItems(first, output);
            && (path in after <==> path in first || Occurs(output, path))
            && (path in first ==> after[path] == first[path])
            && (path !in first && path in after ==> exists r :: FirstIn(output, r, path) && after[path] == output[r])
  {
    if output != [] {
      var n := |output| - 1;
      FirstItemsAre(first, output[..n], path);
      OccursNext(output, path);
      var before := FirstItems(first, output[..n]);
      if path !in first {
        if path in before {
          var r :| FirstIn(output[..n], r, path) && before[path] == output[..n][r];
          FirstInFront(output, r, path);
        } else {
          FirstInFront(output, n, path);
        }
      }
    }
  }

  lemma {:induction false} FirstListingStays<T>(outputs: seq<Output<T>>, j: int, r: int, path: string)
    requires outputs != [] && FirstListing(outputs[..|outputs| - 1], j, r, path)
    ensures FirstListing(outputs, j, r, path) && outputs[j] == outputs[..|outputs| - 1][j]
  {
    assert forall i :: 0 <= i < |outputs| - 1 ==> outputs[..|outputs| - 1][i] == outputs[i];
  }

  lemma {:induction false} FirstListingLast<T>(outputs: seq<Output<T>>, r: int, path: string)
    requires outputs != [] && path != "" && path !in AllFirstItems(outputs[..|outputs| - 1])
    requires FirstIn(outputs[|outputs| - 1], r, path)
    ensures FirstListing(outputs, |outputs| - 1, r, path)
  {
    NotYetListed(outputs[..|outputs| - 1], path);
    assert forall i :: 0 <= i < |outputs| - 1 ==> outputs[i] == outputs[..|outputs| - 1][i];
  }

  lemma {:induction false} AllFirstItemsAre<T>(outputs: seq<Output<T>>, path: string) returns (j: int, r: int)
    requires path != "" && path in AllFirstItems(outputs)
    ensures FirstListing(outputs, j, r, path) && AllFirstItems(outputs)[path] == outputs[j][r]
  {
    var n := |outputs| - 1;
    FirstItemsAre(AllFirstItems(outputs[..n]), outputs[n], path);
    if path in AllFirstItems(outputs[..n]) {
      j, r := AllFirstItemsAre(outputs[..n], path);
      FirstListingStays(outputs, j, r, path);
    } else {
      r :| FirstIn(outputs[n], r, path) && AllFirstItems(outputs)[path] == outputs[n][r];
      j := n;
      FirstListingLast(outputs, r, path);
    }
  }

  lemma {:induction false} NotYetListed<T>(outputs: seq<Output<T>>, path: string)
    requires path != "" && path !in AllFirstItems(outputs)
    ensures forall i :: 0 <= i < |outputs| ==> !Occurs(outputs[i], path)
  {
    if outputs != [] {
      var n := |outputs| - 1;
      FirstItemsAre(AllFirstItems(outputs[..n]), outputs[n], path);
      NotYetListed(outputs[..n], path);
      assert forall i :: 0 <= i < n ==> outputs[i] == outputs[..n][i];
    }
  }

  /** An item of the fused list: the first listing of its path, with the sum of that path's amounts. */
  ghost predicate IsFusedItem<T>(outputs: seq<Output<T>>, originalWeight: real, rrfK: real, f: Fused<T>) {
    && f.item.path != "" && f.score.Some? && IsScore(outputs, f.item.path, originalWeight, rrfK, f.score.value)
    && exists j, r :: FirstListing(outputs, j, r, f.item.path) && f.item == outputs[j][r]
  }

  /** A greater score comes first, and between equal scores the lesser path. */
  ghost predicate InOrder<T>(fused: seq<Fused<T>>) {
    forall i, j :: 0 <= i < j < |fused| && fused[i].score.Some? && fused[j].score.Some? ==>
                     fused[i].score.value > fused[j].score.value ||
                     (fused[i].score == fused[j].score && StringLess(fused[i].item.path, fused[j].item.path))
  }

  /** Every path that any list names is in the fused list. */
  ghost predicate Complete<T>(outputs: seq<Output<T>>, fused: seq<Fused<T>>) {
    forall o, p :: o in outputs && p != "" && Occurs(o, p) ==> exists i :: 0 <= i < |fused| && fused[i].item.path == p
  }

  lemma {:induction false} FirstItemPath<T>(outputs: seq<Output<T>>, path: string)
    requires path != "" && path in AllFirstItems(outputs)
    ensures AllFirstItems(outputs)[path].path == path
  {
    var j, r := AllFirstItemsAre(outputs, path);
  }

  lemma {:induction false} FusedItemMeans<T>(outputs: seq<Output<T>>, originalWeight: real, rrfK: real,
                                            fused: seq<Fused<T>>, i: nat)
    requires IsFusion(outputs, originalWeight, rrfK, fused) && i < |fused|
    requires forall o :: o in outputs ==> Divides(o, rrfK)
    ensures fused[i].item.path == Ranked(outputs, originalWeight, rrfK)[i]
    ensures IsFusedItem(outputs, originalWeight, rrfK, fused[i])
  {
    var ranked := Ranked(outputs, originalWeight, rrfK);
    RankedOnce(outputs, originalWeight, rrfK);
    assert ranked[i] in ranked;
    FirstItemPath(outputs, ranked[i]);
    var j, r := AllFirstItemsAre(outputs, ranked[i]);
    ScoreIsAmounts(outputs, ranked[i], originalWeight, rrfK);
  }

  lemma {:induction false} RankedInOrder<T>(outputs: seq<Output<T>>, originalWeight: real, rrfK: real, i: nat, j: nat)
    requires i < j < |Ranked(outputs, originalWeight, rrfK)|
    ensures var r := Ranked(outputs, originalWeight, rrfK);
            RanksBefore((p: string) => Score(outputs, p, originalWeight, rrfK), r[i], r[j])
  {
    var r, scores := Ranked(outputs, originalWeight, rrfK), (p: string) => Score(outputs, p, originalWeight, rrfK);
    RankedOnce(outputs, originalWeight, rrfK);
    RankOrder(scores);
    var less := (x: string, y: string) => RanksBefore(scores, x, y);
    assert Sorted(less, r) && !less(r[j], r[i]) && r[i] != r[j];
  }

  lemma {:induction false} FusionInOrder<T>(outputs: seq<Output<T>>, originalWeight: real, rrfK: real,
                                           fused: seq<Fused<T>>)
    requires IsFusion(outputs, originalWeight, rrfK, fused) && forall o :: o in outputs ==> Divides(o, rrfK)
    ensures InOrder(fused)
  {
    forall i, j | 0 <= i < j < |fused|
      ensures fused[i].score.Some? && fused[j].score.Some?
      ensures fused[i].score.value > fused[j].score.value ||
              (fused[i].score == fused[j].score && StringLess(fused[i].item.path, fused[j].item.path))
    {
      RankedInOrder(outputs, originalWeight, rrfK, i, j);
      FusedItemMeans(outputs, originalWeight, rrfK, fused, i);
      FusedItemMeans(outputs, originalWeight, rrfK, fused, j);
    }
  }

  lemma {:induction false} FusionComplete<T>(outputs: seq<Output<T>>, originalWeight: real, rrfK: real,
                                            fused: seq<Fused<T>>)
    requires IsFusion(outputs, originalWeight, rrfK, fused) && forall o :: o in outputs ==> Divides(o, rrfK)
    ensures Complete(outputs, fused)
  {
    var ranked := Ranked(outputs, originalWeight, rrfK);
    RankedOnce(outputs, originalWeight, rrfK);
    forall o, p | o in outputs && p != "" && Occurs(o, p)
      ensures exists i :: 0 <= i < |fused| && fused[i].item.path == p
    {
      assert p in ranked;
      var i :| 0 <= i < |ranked| && ranked[i] == p;
      FusedItemMeans(outputs, originalWeight, rrfK, fused, i);
    }
  }

  /** What a fused list is, in terms of the listings alone. */
  lemma {:induction false} FusionMeans<T>(outputs: seq<Output<T>>, originalWeight: real, rrfK: real,
                                         fused: seq<Fused<T>>)
    requires IsFusion(outputs, originalWeight, rrfK, fused) && forall o :: o in outputs ==> Divides(o, rrfK)
    ensures forall f :: f in fused ==> IsFusedItem(outputs, originalWeight, rrfK, f)
    ensures InOrder(fused) && Complete(outputs, fused)
  {
    forall i | 0 <= i < |fused|
      ensures IsFusedItem(outputs, originalWeight, rrfK, fused[i])
    {
      FusedItemMeans(outputs, originalWeight, rrfK, fused, i);
    }
    FusionInOrder(outputs, originalWeight, rrfK, fused);
    FusionComplete(outputs, originalWeight, rrfK, fused);
  }

  // ----- unanimity -----

  ghost predicate DistinctPaths<T>(output: Output<T>) {
    forall i, j :: 0 <= i < j < |output| ==> output[i].path != output[j].path
  }

  /** `a` stands before `b` wherever `b` is listed. */
  ghost predicate Precedes<T>(output: Output<T>, a: string, b: string) {
    forall j :: 0 <= j < |output| && output[j].path == b ==> exists i :: 0 <= i < j && output[i].path == a
  }

  lemma {:induction false} ListScoreAbsent<T>(output: Output<T>, path: string, weight: real, rrfK: real)
    requires !Occurs(output, path)
    ensures ListScore(output, path, weight, rrfK) == 0.0
  {
    if output != [] {
      var n := |output| - 1;
      assert output[n].path != path;
      forall i | 0 <= i < n ensures output[..n][i].path != path { assert output[i].path != path; }
      ListScoreAbsent(output[..n], path, weight, rrfK);
    }
  }

  lemma {:induction false} ReciprocalPositive(weight: real, rrfK: real, rank: nat)
    requires ValidK(rrfK) && weight > 0.0
    ensures Reciprocal(weight, rrfK, rank) > 0.0
  {
    QuotientPositive(weight, rrfK + rank as real + 1.0);
  }

  lemma {:induction false} QuotientPositive(a: real, b: real)
    requires a > 0.0 && b > 0.0
    ensures a / b > 0.0
  {
  }

  lemma {:induction false} QuotientShrinks(a: real, b: real, c: real)
    requires a > 0.0 && 0.0 < b < c
    ensures a / b > a / c
  {
    assert a / b * b == a && a / c * c == a;
  }

  /** A path listed once scores by its rank. */
  lemma {:induction false} ListScoreAt<T>(output: Output<T>, i: nat, weight: real, rrfK: real)
    requires DistinctPaths(output) && i < |output|
    ensures ListScore(output, output[i].path, weight, rrfK) == Reciprocal(weight, rrfK, i)
  {
    var n := |output| - 1;
    if i < n {
      assert output[..n][i] == output[i];
      ListScoreAt(output[..n], i, weight, rrfK);
    } else {
      ListScoreAbsent(output[..n], output[n].path, weight, rrfK);
    }
  }

  lemma {:induction false} ListScoreNonNegative<T>(output: Output<T>, path: string, weight: real, rrfK: real)
    requires ValidK(rrfK) && weight > 0.0
    ensures ListScore(output, path, weight, rrfK) >= 0.0
  {
    if output != [] {
      ListScoreNonNegative(output[..|output| - 1], path, weight, rrfK);
      ReciprocalPositive(weight, rrfK, |output| - 1);
    }
  }

  lemma {:induction false} ListPrefers<T>(output: Output<T>, a: string, b: string, weight: real, rrfK: real)
    requires ValidK(rrfK) && weight > 0.0 && DistinctPaths(output) && Precedes(output, a, b)
    ensures ListScore(output, b, weight, rrfK) <= ListScore(output, a, weight, rrfK)
    ensures Occurs(output, b) ==> ListScore(output, b, weight, rrfK) < ListScore(output, a, weight, rrfK)
  {
    if Occurs(output, b) {
      var j :| 0 <= j < |output| && output[j].path == b;
      var i :| 0 <= i < j && output[i].path == a;
      ListScoreAt(output, i, weight, rrfK);
      ListScoreAt(output, j, weight, rrfK);
      QuotientShrinks(weight, rrfK + i as real + 1.0, rrfK + j as real + 1.0);
    } else {
      ListScoreAbsent(output, b, weight, rrfK);
      ListScoreNonNegative(output, a, weight, rrfK);
    }
  }

  lemma {:induction false} ScorePrefers<T>(outputs: seq<Output<T>>, a: string, b: string, originalWeight: real,
                                           rrfK: real)
    requires ValidK(rrfK) && originalWeight > 0.0
    requires forall o :: o in outputs ==> DistinctPaths(o) && Precedes(o, a, b)
    ensures Score(outputs, b, originalWeight, rrfK) <= Score(outputs, a, originalWeight, rrfK)
    ensures (exists o :: o in outputs && Occurs(o, b)) ==>
              Score(outputs, b, originalWeight, rrfK) < Score(outputs, a, originalWeight, rrfK)
  {
    if outputs != [] {
      var n := |outputs| - 1;
      ScorePrefers(outputs[..n], a, b, originalWeight, rrfK);
      ListPrefers(outputs[n], a, b, Weight(n, originalWeight), rrfK);
      assert forall o :: o in outputs <==> o in outputs[..n] || o == outputs[n];
    }
  }

  /** Fusion respects unanimity: when every list that contains `b` has `a` before it,
      `a` comes before `b` in the fused order. */
  lemma {:induction false} Unanimity<T>(outputs: seq<Output<T>>, a: string, b: string, originalWeight: real, rrfK: real,
                                        at: nat, bt: nat)
    requires ValidK(rrfK) && originalWeight > 0.0
    requires forall o :: o in outputs ==> DistinctPaths(o) && Precedes(o, a, b)
    requires at < |Ranked(outputs, originalWeight, rrfK)| && Ranked(outputs, originalWeight, rrfK)[at] == a
    requires bt < |Ranked(outputs, originalWeight, rrfK)| && Ranked(outputs, originalWeight, rrfK)[bt] == b
    ensures at < bt
  {
    var r, scores := Ranked(outputs, originalWeight, rrfK), (p: string) => Score(outputs, p, originalWeight, rrfK);
    RankedOnce(outputs, originalWeight, rrfK);
    ScorePrefers(outputs, a, b, originalWeight, rrfK);
    assert r[bt] in r;
    RankOrder(scores);
    var less := (x: string, y: string) => RanksBefore(scores, x, y);
    assert Sorted(less, r);
    assert less(a, b);
  }

  // ----- the order of the expansions does not matter -----

  function RestScore<T>(outputs: seq<Output<T>>, path: string, rrfK: real): real
  {
    if outputs == [] then 0.0 else ListScore(outputs[0], path, 1.0, rrfK) + RestScore(outputs[1..], path, rrfK)
  }

  lemma {:induction false} RestScoreAppend<T>(outputs: seq<Output<T>>, last: Output<T>, path: string, rrfK: real)
    ensures RestScore(outputs + [last], path, rrfK) == RestScore(outputs, path, rrfK) + ListScore(last, path, 1.0, rrfK)
  {
    if outputs == [] {
      assert (outputs + [last])[1..] == [];
    } else {
      assert (outputs + [last])[1..] == outputs[1..] + [last];
      RestScoreAppend(outputs[1..], last, path, rrfK);
    }
  }

  lemma {:induction false} RestScoreRemove<T>(outputs: seq<Output<T>>, i: nat, path: string, rrfK: real)
    requires i < |outputs|
    ensures RestScore(outputs, path, rrfK) ==
            ListScore(outputs[i], path, 1.0, rrfK) + RestScore(outputs[..i] + outputs[i + 1..], path, rrfK)
  {
    if i > 0 {
      RestScoreRemove(outputs[1..], i - 1, path, rrfK);
      RemovedTail(outputs, i);
    } else {
      assert outputs[..0] + outputs[1..] == outputs[1..];
    }
  }

  lemma {:induction false} RestScorePermuted<T>(s: seq<Output<T>>, t: seq<Output<T>>, path: string, rrfK: real)
    requires multiset(s) == multiset(t)
    ensures RestScore(s, path, rrfK) == RestScore(t, path, rrfK)
    decreases |s|
  {
    assert |multiset(s)| == |s| && |multiset(t)| == |t|;
    if s != [] {
      assert s[0] in multiset(t);
      var i :| 0 <= i < |t| && t[i] == s[0];
      TailMultiset(s);
      RemovedMultiset(t, i);
      RestScorePermuted(s[1..], t[..i] + t[i + 1..], path, rrfK);
      RestScoreRemove(t, i, path, rrfK);
    }
  }

  lemma {:induction false} ScoreSplit<T>(outputs: seq<Output<T>>, path: string, originalWeight: real, rrfK: real)
    requires outputs != []
    ensures Score(outputs, path, originalWeight, rrfK) ==
            ListScore(outputs[0], path, originalWeight, rrfK) + RestScore(outputs[1..], path, rrfK)
  {
    if |outputs| > 1 {
      var n := |outputs| - 1;
      ScoreSplit(outputs[..n], path, originalWeight, rrfK);
      assert outputs[1..] == outputs[..n][1..] + [outputs[n]];
      RestScoreAppend(outputs[..n][1..], outputs[n], path, rrfK);
    } else {
      assert Score(outputs[..0], path, originalWeight, rrfK) == 0.0;
    }
  }

  /** Rearranging the lists other than the original one leaves the fused order unchanged. */
  lemma {:induction false} OrderOfExpansions<T>(s: seq<Output<T>>, t: seq<Output<T>>, originalWeight: real, rrfK: real)
    requires s != [] && t != [] && s[0] == t[0] && multiset(s[1..]) == multiset(t[1..])
    ensures Ranked(s, originalWeight, rrfK) == Ranked(t, originalWeight, rrfK)
  {
    var f, g := (p: string) => Score(s, p, originalWeight, rrfK), (p: string) => Score(t, p, originalWeight, rrfK);
    forall p
      ensures f(p) == g(p)
    {
      ScoreSplit(s, p, originalWeight, rrfK);
      ScoreSplit(t, p, originalWeight, rrfK);
      RestScorePermuted(s[1..], t[1..], p, rrfK);
    }
    SameElements(s[1..], t[1..]);
    assert forall o :: o in s <==> o == s[0] || o in s[1..];
    assert forall o :: o in t <==> o == t[0] || o in t[1..];
    RankedOnce(s, originalWeight, rrfK);
    RankedOnce(t, originalWeight, rrfK);
    var a, b := Ranked(s, originalWeight, rrfK), Ranked(t, originalWeight, rrfK);
    SameMultiset(a, b);
    RankOrder(f);
    RankOrder(g);
    RankedAlike(f, g, a, b);
  }
}
