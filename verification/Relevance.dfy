/** The relevance metrics of scripts/eval_relevance.py. Glob matching is an arbitrary predicate. */
module Relevance {
  import opened Prelude
  import opened Gains

  const RELEVANT_GRADE: int := 2

  datatype Judgment = Judgment(pattern: string, grade: int)

  /** `fnmatchcase(path, pattern)` */
  type Matcher = (string, string) -> bool

  // ----- greedy grading -----

  /** Judgment `i` may grade this path: not consumed yet, matching, and better than no grade. */
  predicate Eligible(path: string, js: seq<Judgment>, used: set<nat>, m: Matcher, i: nat)
    requires i < |js|
  {
    i !in used && m(path, js[i].pattern) && js[i].grade > 0
  }

  /** The first eligible judgment of the largest grade among the first `n`. */
  ghost predicate IsBest(path: string, js: seq<Judgment>, used: set<nat>, m: Matcher, n: nat, best: Option<nat>)
    requires n <= |js|
  {
    match best
    case None => forall i :: 0 <= i < n ==> !Eligible(path, js, used, m, i)
    case Some(b) =>
      && b < n && Eligible(path, js, used, m, b)
      && forall i :: 0 <= i < n && Eligible(path, js, used, m, i) ==>
           js[i].grade <= js[b].grade && (i < b ==> js[i].grade < js[b].grade)
  }

  function Best(path: string, js: seq<Judgment>, used: set<nat>, m: Matcher, n: nat): (best: Option<nat>)
    requires n <= |js|
    ensures IsBest(path, js, used, m, n, best)
  {
    if n == 0 then None
    else
      var best := Best(path, js, used, m, n - 1);
      if Eligible(path, js, used, m, n - 1) && (best == None || js[n - 1].grade > js[best.value].grade)
      then Some(n - 1) else best
  }

  /** The judgment each path consumes, in rank order. */
  function Consumed(paths: seq<string>, js: seq<Judgment>, m: Matcher): (c: seq<Option<nat>>)
    ensures |c| == |paths|
  {
    if paths == [] then []
    else
      var c := Consumed(paths[..|paths| - 1], js, m);
      c + [Best(paths[|paths| - 1], js, Indices(c), m, |js|)]
  }

  function Ideal(js: seq<Judgment>): seq<int> {
    seq(|js|, i requires 0 <= i < |js| => js[i].grade)
  }

  function Graded(paths: seq<string>, js: seq<Judgment>, m: Matcher): seq<int> {
    Picked(Ideal(js), Consumed(paths, js, m))
  }

  /** The inner loop of `graded`: the best judgment still available to one path. */
  method BestJudgment(path: string, js: seq<Judgment>, used: set<nat>, m: Matcher)
    returns (bestIdx: Option<nat>, bestGrade: int)
    ensures bestIdx == Best(path, js, used, m, |js|) && bestGrade == Pick(Ideal(js), bestIdx)
  {
    bestIdx, bestGrade := None, 0;
    for idx := 0 to |js|
      invariant bestIdx == Best(path, js, used, m, idx) && bestGrade == Pick(Ideal(js), bestIdx)
    {
      if idx !in used && m(path, js[idx].pattern) && js[idx].grade > bestGrade {
        bestIdx, bestGrade := Some(idx), js[idx].grade;
      }
    }
  }

  /** `graded`: every ranked path consumes its best judgment not consumed before. */
  method GradePaths(paths: seq<string>, js: seq<Judgment>, m: Matcher) returns (grades: seq<int>)
    ensures grades == Graded(paths, js, m)
  {
    var used: set<nat> := {};
    grades := [];
    ghost var c: seq<Option<nat>> := [];
    for k := 0 to |paths|
      invariant c == Consumed(paths[..k], js, m) && used == Indices(c) && grades == Picked(Ideal(js), c)
    {
      var bestIdx, bestGrade := BestJudgment(paths[k], js, used, m);
      assert paths[..k + 1][..k] == paths[..k];
      IndicesAppend(c, bestIdx);
      if bestIdx.Some? {
        used := used + {bestIdx.value};
      }
      c := c + [bestIdx];
      grades := grades + [bestGrade];
    }
    assert paths[..|paths|] == paths;
  }

  /** No judgment is consumed twice, and each consumed one matches its path with a positive grade. */
  ghost predicate Matching(paths: seq<string>, js: seq<Judgment>, m: Matcher, c: seq<Option<nat>>) {
    && |c| == |paths|
    && (forall i :: 0 <= i < |c| && c[i].Some? ==>
          c[i].value < |js| && js[c[i].value].grade > 0 && m(paths[i], js[c[i].value].pattern))
    && DistinctPicks(c)
  }

  lemma {:induction false} ConsumedMatching(paths: seq<string>, js: seq<Judgment>, m: Matcher)
    ensures Matching(paths, js, m, Consumed(paths, js, m))
  {
    if paths != [] {
      var n := |paths| - 1;
      ConsumedMatching(paths[..n], js, m);
      var c := Consumed(paths[..n], js, m);
      DistinctAppend(c, Best(paths[n], js, Indices(c), m, |js|));
    }
  }

  lemma {:induction false} ConsumedFront(paths: seq<string>, js: seq<Judgment>, m: Matcher)
    requires paths != []
    ensures Consumed(paths, js, m)[..|paths| - 1] == Consumed(paths[..|paths| - 1], js, m)
  {
  }

  lemma {:induction false} PrefixOfPrefix<T>(s: seq<T>, n: nat, k: nat)
    requires k <= n <= |s|
    ensures s[..n][..k] == s[..k]
  {
  }

  lemma {:induction false} ConsumedPrefix(paths: seq<string>, js: seq<Judgment>, m: Matcher, k: nat)
    requires k <= |paths|
    ensures Consumed(paths[..k], js, m) == Consumed(paths, js, m)[..k]
  {
    if k == |paths| {
      assert paths[..k] == paths;
    } else {
      var n := |paths| - 1;
      ConsumedPrefix(paths[..n], js, m, k);
      ConsumedFront(paths, js, m);
      PrefixOfPrefix(paths, n, k);
      PrefixOfPrefix(Consumed(paths, js, m), n, k);
    }
  }

  lemma {:induction false} PickedPrefix(values: seq<int>, picks: seq<Option<nat>>, k: nat)
    requires k <= |picks|
    ensures Picked(values, picks[..k]) == Picked(values, picks)[..k]
  {
  }

  /** Grading a prefix grades its paths as the whole list does. */
  lemma {:induction false} GradedPrefix(paths: seq<string>, js: seq<Judgment>, m: Matcher, k: nat)
    requires k <= |paths|
    ensures Consumed(paths[..k], js, m) == Consumed(paths, js, m)[..k]
    ensures Graded(paths[..k], js, m) == Graded(paths, js, m)[..k]
  {
    ConsumedPrefix(paths, js, m, k);
    PickedPrefix(Ideal(js), Consumed(paths, js, m), k);
  }

  /** Each path consumes the best judgment the paths before it leave. */
  lemma {:induction false} ConsumedAt(paths: seq<string>, js: seq<Judgment>, m: Matcher, at: nat)
    requires at < |paths|
    ensures var c := Consumed(paths, js, m); c[at] == Best(paths[at], js, Indices(c[..at]), m, |js|)
  {
    GradedPrefix(paths, js, m, at);
    GradedPrefix(paths, js, m, at + 1);
    assert paths[..at + 1][..at] == paths[..at];
    assert Consumed(paths[..at + 1], js, m)[at] == Consumed(paths, js, m)[at];
  }

  lemma {:induction false} NotTaken(c: seq<Option<nat>>, j: nat)
    requires Some(j) !in c
    ensures j !in Indices(c)
  {
    assert forall o :: o in c && o.Some? ==> o.value != j;
  }

  /** A path takes from what the paths before it left: any matching judgment of a positive grade is either taken
      by one of them or no better than the path's own, and the first one among equals. */
  lemma {:induction false} GradedGreedily(paths: seq<string>, js: seq<Judgment>, m: Matcher, at: nat, j: nat)
    requires at < |paths| && j < |js| && js[j].grade > 0 && m(paths[at], js[j].pattern)
    requires forall i :: 0 <= i < at ==> Consumed(paths, js, m)[i] != Some(j)
    ensures var c := Consumed(paths, js, m);
            && c[at].Some? && c[at].value < |js| && Graded(paths, js, m)[at] == js[c[at].value].grade
            && js[j].grade <= js[c[at].value].grade && (j < c[at].value ==> js[j].grade < js[c[at].value].grade)
  {
    ConsumedAt(paths, js, m, at);
    var c := Consumed(paths, js, m);
    NotTaken(c[..at], j);
    assert Eligible(paths[at], js, Indices(c[..at]), m, j);
  }

  /** A path that takes no judgment is graded 0, and the others by the judgment they take. */
  lemma {:induction false} GradedByConsumed(paths: seq<string>, js: seq<Judgment>, m: Matcher, at: nat)
    requires at < |paths|
    ensures |Graded(paths, js, m)| == |paths|
    ensures match Consumed(paths, js, m)[at]
            case None => Graded(paths, js, m)[at] == 0
            case Some(b) => b < |js| && js[b].grade == Graded(paths, js, m)[at] > 0 && m(paths[at], js[b].pattern)
  {
    ConsumedMatching(paths, js, m);
  }

  // ----- nDCG of a graded ranking -----

  /** Greedy grading matches the positive grades to distinct judgments. */
  lemma {:induction false} GradedIsJudged(paths: seq<string>, js: seq<Judgment>, m: Matcher)
    ensures Judged(Graded(paths, js, m), Ideal(js))
  {
    var c := Consumed(paths, js, m);
    ConsumedMatching(paths, js, m);
    forall i | i in Indices(c)
      ensures i < |js| && js[i].grade > 0
    {
      var k :| 0 <= k < |c| && c[k] == Some(i);
    }
    PickedIsJudged(Ideal(js), c);
  }

  /** The reported score lies in [0, 1] whenever no negative grade reaches the ideal's first k. */
  lemma {:induction false} GradedNdcgBounds(paths: seq<string>, js: seq<Judgment>, m: Matcher, k: nat, d: nat -> real)
    requires IsDiscount(d)
    ensures 0.0 <= NdcgAt(Graded(paths, js, m), Ideal(js), k, d)
    ensures NonNegativeTop(Ideal(js), k) ==> NdcgAt(Graded(paths, js, m), Ideal(js), k, d) <= 1.0
  {
    GradedIsJudged(paths, js, m);
    NdcgBounds(Graded(paths, js, m), Ideal(js), k, d);
  }

  /** When every path matches every judgment, each rank is graded at least as the ideal's. */
  lemma {:induction false} GreedyLeads(paths: seq<string>, js: seq<Judgment>, m: Matcher, i: nat)
    requires i < |paths| && forall p, q :: m(p, q)
    ensures i < |js| ==> SortDescending(Ideal(js))[i] <= Graded(paths, js, m)[i]
  {
    var values, sorted := Ideal(js), SortDescending(Ideal(js));
    var used, x := Indices(Consumed(paths, js, m)[..i]), Graded(paths, js, m)[i];
    ConsumedMatching(paths, js, m);
    ConsumedAt(paths, js, m, i);
    if i < |js| && sorted[i] > x {
      CountAboveSorted(sorted, i, x);
      CountAboveOfPermutation(sorted, values, x);
      CountAboveIsCardinality(values, x);
      forall j | j in AboveIndices(values, x)
        ensures j in used
      {
        if j !in used { assert Eligible(paths[i], js, used, m, j); }
      }
      IndicesSize(Consumed(paths, js, m)[..i]);
      SubsetSize(AboveIndices(values, x), used);
    }
  }

  /** `n` different paths. */
  function Paths(n: nat): (paths: seq<string>)
    ensures |paths| == n && NoRepeats(paths)
  {
    var paths := seq(n, i requires 0 <= i < n => seq(i, j requires 0 <= j < i => 'p'));
    assert forall i :: 0 <= i < n ==> |paths[i]| == i;
    paths
  }

  /** A ranking of as many paths as judgments, all of them matching, reaches the positive grades' DCG. */
  lemma {:induction false} AllMatchingReaches(js: seq<Judgment>, m: Matcher, k: nat, d: nat -> real)
    requires IsDiscount(d) && forall p, q :: m(p, q)
    ensures Dcg(Take(Positives(SortDescending(Ideal(js))), k), d) <= Dcg(Take(Graded(Paths(|js|), js, m), k), d)
  {
    var found, grades := Positives(SortDescending(Ideal(js))), Graded(Paths(|js|), js, m);
    forall i: nat ensures GainAt(found)(i) <= GainAt(grades)(i) { GreedyGainsMore(js, m, i); }
    WeightedBelow(GainAt(found), GainAt(grades), d, k, k);
    DcgTake(found, d, k);
    DcgTake(grades, d, k);
  }

  lemma {:induction false} GreedyGainsMore(js: seq<Judgment>, m: Matcher, i: nat)
    requires forall p, q :: m(p, q)
    ensures GainAt(Positives(SortDescending(Ideal(js))))(i) <= GainAt(Graded(Paths(|js|), js, m))(i)
  {
    var sorted, grades := SortDescending(Ideal(js)), Graded(Paths(|js|), js, m);
    if i < |js| {
      GreedyLeads(Paths(|js|), js, m, i);
      GradedIsJudged(Paths(|js|), js, m);
      assert grades[i] in grades;
    }
    FoundGainsLess(sorted, grades, i);
  }

  lemma {:induction false} AllMatchingExceeds(js: seq<Judgment>, m: Matcher, k: nat, d: nat -> real)
    requires IsDiscount(d) && forall p, q :: m(p, q)
    requires !NonNegativeTop(Ideal(js), k) && Dcg(Take(SortDescending(Ideal(js)), k), d) > EPSILON
    ensures NdcgAt(Graded(Paths(|js|), js, m), Ideal(js), k, d) > 1.0
  {
    var sorted := SortDescending(Ideal(js));
    var at :| 0 <= at < k && at < |sorted| && sorted[at] < 0;
    FoundDcgMore(sorted, k, d, at);
    AllMatchingReaches(js, m, k, d);
    Quotient(Dcg(Take(Graded(Paths(|js|), js, m), k), d), Dcg(Take(sorted, k), d));
  }

  /** Whatever paths are returned and whichever match, the reported score never exceeds 1. */
  ghost predicate NeverAboveOne(js: seq<Judgment>, k: nat, d: nat -> real) {
    forall paths, m :: NoRepeats(paths) ==> NdcgAt(Graded(paths, js, m), Ideal(js), k, d) <= 1.0
  }

  /** The exact condition on the judgments for the reported score never to exceed 1. */
  lemma {:induction false} NeverAboveOneIff(js: seq<Judgment>, k: nat, d: nat -> real)
    requires IsDiscount(d)
    ensures NeverAboveOne(js, k, d) <==>
            NonNegativeTop(Ideal(js), k) || Dcg(Take(SortDescending(Ideal(js)), k), d) <= EPSILON
  {
    var sorted := SortDescending(Ideal(js));
    if NonNegativeTop(Ideal(js), k) {
      forall paths, m: Matcher | NoRepeats(paths)
        ensures NdcgAt(Graded(paths, js, m), Ideal(js), k, d) <= 1.0
      {
        GradedNdcgBounds(paths, js, m, k, d);
      }
    } else if Dcg(Take(sorted, k), d) > EPSILON {
      var m: Matcher := (p, q) => true;
      AllMatchingExceeds(js, m, k, d);
      assert NoRepeats(Paths(|js|));
    }
  }

  lemma {:induction false} OneHit(js: seq<Judgment>, path: string, m: Matcher)
    requires js != [] && js[0].grade > 0 && m(path, js[0].pattern)
    requires forall i :: 0 < i < |js| ==> js[i].grade <= 0
    ensures Graded([path], js, m) == [js[0].grade]
  {
    assert [path][..0] == [] && Consumed([], js, m) == [] && Indices([]) == {};
    var best := Best(path, js, {}, m, |js|);
    assert Eligible(path, js, {}, m, 0) && best == Some(0);
    assert Consumed([path], js, m) == [best];
  }

  /** Grades 3 and -1: a ranking of one path that the first judgment matches scores above 1. */
  lemma {:induction false} OneHitScoresAboveOne(js: seq<Judgment>, path: string, m: Matcher, k: nat, d: nat -> real)
    requires IsDiscount(d) && d(0) == 1.0 && k >= 2
    requires Ideal(js) == [3, -1] && m(path, js[0].pattern)
    ensures NdcgAt(Graded([path], js, m), Ideal(js), k, d) > 1.0
  {
    assert js[0].grade == Ideal(js)[0] && js[1].grade == Ideal(js)[1];
    OneHit(js, path, m);
    DescendingUnique([3, -1], SortDescending([3, -1]));
    GoodBesideBad(d);
    Quotient(Dcg([3], d), Dcg([3, -1], d));
  }

  // ----- precision, recall and rank -----

  predicate IsPrimary(j: Judgment) { j.grade >= RELEVANT_GRADE }

  function Relevant(grades: seq<int>): (n: nat)
    ensures n <= |grades|
  {
    if grades == [] then 0
    else Relevant(grades[..|grades| - 1]) + (if grades[|grades| - 1] >= RELEVANT_GRADE then 1 else 0)
  }

  function PrecisionAt(grades: seq<int>, k: nat): real
    requires k > 0
  {
    Relevant(Take(grades, k)) as real / k as real
  }

  /** The ranks that hold a relevant grade. */
  function RelevantRanks(grades: seq<int>): set<nat> { set i: nat | i < |grades| && grades[i] >= 2 }

  lemma {:induction false} RelevantIsSize(grades: seq<int>)
    ensures Relevant(grades) == |RelevantRanks(grades)|
  {
    if grades == [] {
      assert RelevantRanks(grades) == {};
    } else {
      var n := |grades| - 1;
      RelevantIsSize(grades[..n]);
      if grades[n] >= 2 {
        assert RelevantRanks(grades) == RelevantRanks(grades[..n]) + {n};
      } else {
        assert RelevantRanks(grades) == RelevantRanks(grades[..n]);
      }
    }
  }

  /** Precision at `k` times `k` is the number of relevant grades among the first `k`. */
  lemma {:induction false} PrecisionTimesCutoff(grades: seq<int>, k: nat)
    requires k > 0
    ensures Times(PrecisionAt(grades, k), k as real) == |RelevantRanks(Take(grades, k))| as real
  {
    RelevantIsSize(Take(grades, k));
    QuotientBack(PrecisionAt(grades, k), Relevant(Take(grades, k)) as real, k as real);
  }

  /** Reciprocal rank of the first relevant grade at index `at` or later. */
  function MrrFrom(grades: seq<int>, at: nat): real
    requires at <= |grades|
    decreases |grades| - at
  {
    if at == |grades| then 0.0
    else if grades[at] >= RELEVANT_GRADE then 1.0 / (at + 1) as real
    else MrrFrom(grades, at + 1)
  }

  function Mrr(grades: seq<int>): real { MrrFrom(grades, 0) }

  predicate MatchesPrimary(path: string, js: seq<Judgment>, m: Matcher) {
    exists i :: 0 <= i < |js| && IsPrimary(js[i]) && m(path, js[i].pattern)
  }

  function PrimaryIndices(js: seq<Judgment>): set<nat> {
    set i: nat | i < |js| && IsPrimary(js[i])
  }

  /** `relevant_judgment_matches` */
  function MatchedPrimary(paths: seq<string>, js: seq<Judgment>, m: Matcher): set<nat> {
    set i: nat | i < |js| && IsPrimary(js[i]) && exists p :: p in paths && m(p, js[i].pattern)
  }

  function RelevantRecall(paths: seq<string>, js: seq<Judgment>, m: Matcher): real {
    if PrimaryIndices(js) == {} then 0.0
    else |MatchedPrimary(paths, js, m)| as real / |PrimaryIndices(js)| as real
  }

  function RecallAt(paths: seq<string>, js: seq<Judgment>, m: Matcher, k: nat): real {
    RelevantRecall(Take(paths, k), js, m)
  }

  /** Recall at `k` times the number of primary judgments is how many of them the first `k` paths match. */
  lemma {:induction false} RecallTimesPrimaries(paths: seq<string>, js: seq<Judgment>, m: Matcher, k: nat)
    ensures Times(RecallAt(paths, js, m, k), |PrimaryIndices(js)| as real) ==
            |MatchedPrimary(Take(paths, k), js, m)| as real
  {
    var primary, matched := PrimaryIndices(js), MatchedPrimary(Take(paths, k), js, m);
    SubsetSize(matched, primary);
    if primary != {} { QuotientBack(RecallAt(paths, js, m, k), |matched| as real, |primary| as real); }
  }

  function FirstRelevantFrom(paths: seq<string>, js: seq<Judgment>, m: Matcher, at: nat): (r: Option<nat>)
    requires at <= |paths|
    ensures r == None ==> forall i :: at <= i < |paths| ==> !MatchesPrimary(paths[i], js, m)
    ensures r.Some? ==> at < r.value <= |paths| && MatchesPrimary(paths[r.value - 1], js, m) &&
                        forall i :: at <= i < r.value - 1 ==> !MatchesPrimary(paths[i], js, m)
    decreases |paths| - at
  {
    if at == |paths| then None
    else if MatchesPrimary(paths[at], js, m) then Some(at + 1)
    else FirstRelevantFrom(paths, js, m, at + 1)
  }

  /** The 1-based rank of the first path that matches a primary judgment. */
  function FirstRelevantRank(paths: seq<string>, js: seq<Judgment>, m: Matcher): Option<nat> {
    if PrimaryIndices(js) == {} then None else FirstRelevantFrom(paths, js, m, 0)
  }

  lemma {:induction false} BestIsPrimary(path: string, js: seq<Judgment>, used: set<nat>, m: Matcher)
    requires forall i :: i in used ==> i < |js| && !IsPrimary(js[i])
    ensures Pick(Ideal(js), Best(path, js, used, m, |js|)) >= RELEVANT_GRADE <==> MatchesPrimary(path, js, m)
  {
    if MatchesPrimary(path, js, m) {
      var i :| 0 <= i < |js| && IsPrimary(js[i]) && m(path, js[i].pattern);
      assert Eligible(path, js, used, m, i);
    }
  }

  /** Until a path matches a primary judgment, none is consumed; that path then consumes one. */
  lemma {:induction false} FirstPrimaryIsGraded(paths: seq<string>, js: seq<Judgment>, m: Matcher, at: nat)
    requires at < |paths|
    requires forall i :: 0 <= i < at ==> !MatchesPrimary(paths[i], js, m)
    ensures Graded(paths, js, m)[at] >= RELEVANT_GRADE <==> MatchesPrimary(paths[at], js, m)
  {
    ConsumedMatching(paths, js, m);
    ConsumedAt(paths, js, m, at);
    var c := Consumed(paths, js, m);
    var before := c[..at];
    forall i: nat | i in Indices(before)
      ensures i < |js| && !IsPrimary(js[i])
    {
      var k :| 0 <= k < at && before[k] == Some(i);
      assert c[k] == Some(i) && !MatchesPrimary(paths[k], js, m);
    }
    BestIsPrimary(paths[at], js, Indices(before), m);
  }

  lemma {:induction false} MrrFromIsFirstRank(paths: seq<string>, js: seq<Judgment>, m: Matcher, at: nat)
    requires at <= |paths|
    requires forall i :: 0 <= i < at ==> !MatchesPrimary(paths[i], js, m)
    ensures MrrFrom(Graded(paths, js, m), at) ==
            match FirstRelevantFrom(paths, js, m, at) case Some(r) => 1.0 / r as real case None => 0.0
    decreases |paths| - at
  {
    if at < |paths| {
      FirstPrimaryIsGraded(paths, js, m, at);
      if !MatchesPrimary(paths[at], js, m) { MrrFromIsFirstRank(paths, js, m, at + 1); }
    }
  }

  /** The two definitions of the first useful result agree. */
  lemma {:induction false} MrrIsFirstRank(paths: seq<string>, js: seq<Judgment>, m: Matcher)
    ensures Mrr(Graded(paths, js, m)) ==
            match FirstRelevantRank(paths, js, m) case Some(r) => 1.0 / r as real case None => 0.0
  {
    MrrFromIsFirstRank(paths, js, m, 0);
    if PrimaryIndices(js) == {} && FirstRelevantFrom(paths, js, m, 0).Some? {
      var i :| 0 <= i < |js| && IsPrimary(js[i]) && m(paths[FirstRelevantFrom(paths, js, m, 0).value - 1],
                                                      js[i].pattern);
      assert i in PrimaryIndices(js);
    }
  }

  /** Relevant grades come from distinct primary judgments that some ranked path matches. */
  lemma {:induction false} RelevantWithinMatched(paths: seq<string>, js: seq<Judgment>, m: Matcher)
    ensures Relevant(Graded(paths, js, m)) <= |MatchedPrimary(paths, js, m)|
  {
    var c := Consumed(paths, js, m);
    ConsumedMatching(paths, js, m);
    RelevantIndices(c, js);
    var primary := PrimaryAmong(Indices(c), js);
    forall i | i in primary
      ensures i in MatchedPrimary(paths, js, m)
    {
      var o :| o in c && o == Some(i);
      var k :| 0 <= k < |c| && c[k] == o;
      assert paths[k] in paths;
    }
    SubsetSize(primary, MatchedPrimary(paths, js, m));
  }

  ghost function PrimaryAmong(s: set<nat>, js: seq<Judgment>): set<nat> {
    set i | i in s && i < |js| && IsPrimary(js[i])
  }

  lemma {:induction false} PrimaryAmongAdd(s: set<nat>, i: nat, js: seq<Judgment>)
    requires i !in s
    ensures |PrimaryAmong(s + {i}, js)| == |PrimaryAmong(s, js)| + (if i < |js| && IsPrimary(js[i]) then 1 else 0)
  {
    var before, after := PrimaryAmong(s, js), PrimaryAmong(s + {i}, js);
    if i < |js| && IsPrimary(js[i]) {
      assert after == before + {i};
    } else {
      assert after == before;
    }
  }

  lemma {:induction false} RelevantAppend(values: seq<int>, front: seq<Option<nat>>, o: Option<nat>)
    ensures Relevant(Picked(values, front + [o])) ==
            Relevant(Picked(values, front)) + (if Pick(values, o) >= RELEVANT_GRADE then 1 else 0)
  {
    var all := Picked(values, front + [o]);
    assert all[..|all| - 1] == Picked(values, front);
  }

  lemma {:induction false} PickedPrimary(o: Option<nat>, js: seq<Judgment>)
    requires o.Some? ==> o.value < |js|
    ensures Pick(Ideal(js), o) >= RELEVANT_GRADE <==> o.Some? && IsPrimary(js[o.value])
  {
  }

  lemma {:induction false} RelevantIndices(c: seq<Option<nat>>, js: seq<Judgment>)
    requires forall i :: 0 <= i < |c| && c[i].Some? ==> c[i].value < |js|
    requires DistinctPicks(c)
    ensures Relevant(Picked(Ideal(js), c)) == |PrimaryAmong(Indices(c), js)|
  {
    if c == [] {
      assert Indices(c) == {};
    } else {
      var n := |c| - 1;
      var front, o := c[..n], c[n];
      assert c == front + [o];
      DistinctAppend(front, o);
      RelevantIndices(front, js);
      IndicesAppend(front, o);
      RelevantAppend(Ideal(js), front, o);
      PickedPrimary(o, js);
      if o.Some? {
        PrimaryAmongAdd(Indices(front), o.value, js);
      } else {
        assert Indices(front) + {} == Indices(front);
      }
    }
  }

  lemma {:induction false} SharesOrdered(a: nat, k: nat, b: nat, n: nat, p: real, r: real)
    requires k > 0 && a <= b && (n == 0 ==> b == 0)
    requires p == a as real / k as real && r == if n == 0 then 0.0 else b as real / n as real
    ensures p * k as real <= r * n as real
  {
    QuotientBack(p, a as real, k as real);
    if n > 0 { QuotientBack(r, b as real, n as real); }
    assert p * k as real == a as real && r * n as real == b as real;
  }

  lemma {:induction false} RelevantCounts(paths: seq<string>, js: seq<Judgment>, m: Matcher, k: nat)
    ensures Relevant(Take(Graded(paths, js, m), k)) <= |MatchedPrimary(Take(paths, k), js, m)| <= |PrimaryIndices(js)|
  {
    GradedPrefix(paths, js, m, if k < |paths| then k else |paths|);
    assert Take(Graded(paths, js, m), k) == Graded(Take(paths, k), js, m);
    RelevantWithinMatched(Take(paths, k), js, m);
    SubsetSize(MatchedPrimary(Take(paths, k), js, m), PrimaryIndices(js));
  }

  /** A ranking's relevant hits among its first k never exceed the primary judgments it recalls. */
  lemma {:induction false} PrecisionWithinRecall(paths: seq<string>, js: seq<Judgment>, m: Matcher, k: nat,
                                                 precision: real, recall: real, primaries: nat)
    requires k > 0 && primaries == |PrimaryIndices(js)|
    requires precision == PrecisionAt(Graded(paths, js, m), k) && recall == RecallAt(paths, js, m, k)
    ensures precision * k as real <= recall * primaries as real
  {
    RelevantCounts(paths, js, m, k);
    SharesOrdered(Relevant(Take(Graded(paths, js, m), k)), k, |MatchedPrimary(Take(paths, k), js, m)|,
                  primaries, precision, recall);
  }

  // ----- the recall audit -----

  datatype Stage = Satisfied | CandidateBudget | FirstUsefulLow | AfterFiltering | BeforeFusion | NoPrimary

  function ClassifyAuditStage(finalFirst: Option<nat>, deepFirst: Option<nat>, candidateRecall: real,
                              satisfactionK: nat, js: seq<Judgment>): Stage {
    if PrimaryIndices(js) == {} then NoPrimary
    else if finalFirst.Some? && finalFirst.value <= satisfactionK then Satisfied
    else if finalFirst.Some? then FirstUsefulLow
    else if deepFirst.Some? then (if deepFirst.value <= satisfactionK then CandidateBudget else FirstUsefulLow)
    else if candidateRecall > 0.0 then AfterFiltering
    else BeforeFusion
  }

  /** One audited query: the answer, the deep probe, and the union with both source probes. */
  datatype Probes = Probes(final: seq<string>, deep: seq<string>, lexical: seq<string>, literal: seq<string>)

  function AuditStage(p: Probes, js: seq<Judgment>, m: Matcher, satisfactionK: nat): Stage {
    ClassifyAuditStage(FirstRelevantRank(p.final, js, m), FirstRelevantRank(p.deep, js, m),
                       RelevantRecall(p.final + p.deep + p.lexical + p.literal, js, m), satisfactionK, js)
  }

  ghost predicate Finds(paths: seq<string>, js: seq<Judgment>, m: Matcher) {
    exists p :: p in paths && MatchesPrimary(p, js, m)
  }

  lemma {:induction false} RankIffFinds(paths: seq<string>, js: seq<Judgment>, m: Matcher)
    ensures FirstRelevantRank(paths, js, m).Some? <==> Finds(paths, js, m)
    ensures Finds(paths, js, m) ==> PrimaryIndices(js) != {}
  {
    if Finds(paths, js, m) {
      var p :| p in paths && MatchesPrimary(p, js, m);
      var i :| 0 <= i < |js| && IsPrimary(js[i]) && m(p, js[i].pattern);
      assert i in PrimaryIndices(js);
    }
  }

  lemma {:induction false} FindsIffMatched(paths: seq<string>, js: seq<Judgment>, m: Matcher)
    ensures Finds(paths, js, m) <==> MatchedPrimary(paths, js, m) != {}
  {
    var matched := MatchedPrimary(paths, js, m);
    if Finds(paths, js, m) {
      var p :| p in paths && MatchesPrimary(p, js, m);
      var i :| 0 <= i < |js| && IsPrimary(js[i]) && m(p, js[i].pattern);
      assert i in matched;
    }
    if matched != {} {
      var i :| i in matched;
      var p :| p in paths && m(p, js[i].pattern);
      assert MatchesPrimary(p, js, m);
    }
  }

  lemma {:induction false} PositiveShare(a: nat, b: nat)
    requires b > 0
    ensures a as real / b as real > 0.0 <==> a > 0
  {
  }

  lemma {:induction false} RecallIffFinds(paths: seq<string>, js: seq<Judgment>, m: Matcher)
    ensures RelevantRecall(paths, js, m) > 0.0 <==> Finds(paths, js, m)
  {
    FindsIffMatched(paths, js, m);
    var matched, primary := MatchedPrimary(paths, js, m), PrimaryIndices(js);
    SubsetSize(matched, primary);
    if primary != {} { PositiveShare(|matched|, |primary|); }
  }

  /** What each verdict of the audit says about the four result lists. */
  lemma {:induction false} AuditStageMeans(p: Probes, js: seq<Judgment>, m: Matcher, satisfactionK: nat)
    ensures var stage := AuditStage(p, js, m, satisfactionK);
            var useful := Finds(Take(p.final, satisfactionK), js, m);
            var probed := Finds(p.final, js, m) || Finds(p.deep, js, m);
            && (stage == NoPrimary <==> PrimaryIndices(js) == {})
            && (stage == Satisfied <==> useful)
            && (stage == CandidateBudget <==> !Finds(p.final, js, m) && Finds(Take(p.deep, satisfactionK), js, m))
            && (stage == FirstUsefulLow <==>
                  && PrimaryIndices(js) != {} && !useful
                  && (Finds(p.final, js, m) ||
                      (Finds(p.deep, js, m) && !Finds(Take(p.deep, satisfactionK), js, m))))
            && (stage == AfterFiltering <==> !probed && (Finds(p.lexical, js, m) || Finds(p.literal, js, m)))
            && (stage == BeforeFusion <==>
                  PrimaryIndices(js) != {} && !probed && !Finds(p.lexical, js, m) && !Finds(p.literal, js, m))
  {
    var all := p.final + p.deep + p.lexical + p.literal;
    RankIffFinds(p.final, js, m);
    RankIffFinds(p.deep, js, m);
    RankIffFinds(p.lexical, js, m);
    RankIffFinds(p.literal, js, m);
    RecallIffFinds(all, js, m);
    assert forall x :: x in all <==> x in p.final || x in p.deep || x in p.lexical || x in p.literal;
    RankWithin(p.final, js, m, satisfactionK);
    RankWithin(p.deep, js, m, satisfactionK);
  }

  lemma {:induction false} RankWithin(paths: seq<string>, js: seq<Judgment>, m: Matcher, k: nat)
    ensures Finds(Take(paths, k), js, m) <==>
            FirstRelevantRank(paths, js, m).Some? && FirstRelevantRank(paths, js, m).value <= k
  {
    RankIffFinds(paths, js, m);
    var r := FirstRelevantRank(paths, js, m);
    if r.Some? && r.value <= k {
      assert Take(paths, k)[r.value - 1] == paths[r.value - 1];
    }
    if Finds(Take(paths, k), js, m) {
      var i :| 0 <= i < |Take(paths, k)| && MatchesPrimary(Take(paths, k)[i], js, m);
      assert paths[i] in paths;
    }
  }
}
