/** `score_query` of scripts/eval_code_retrieval.py. */
module CodeRetrieval {
  import opened Prelude
  import opened Sorting
  import opened Gains

  datatype JudgedDoc = JudgedDoc(id: string, grade: int)

  /** A dict of judgments: its items in insertion order, one per document. */
  ghost predicate IsDict(judgments: seq<JudgedDoc>) {
    forall i, j :: 0 <= i < j < |judgments| ==> judgments[i].id != judgments[j].id
  }

  /** `judgments.get(doc_id, 0)` */
  function GradeFor(judgments: seq<JudgedDoc>, id: string): int {
    if judgments == [] then 0
    else if judgments[0].id == id then judgments[0].grade
    else GradeFor(judgments[1..], id)
  }

  function Values(judgments: seq<JudgedDoc>): seq<int> {
    seq(|judgments|, i requires 0 <= i < |judgments| => judgments[i].grade)
  }

  function RankedGrades(ranked: seq<string>, judgments: seq<JudgedDoc>): seq<int> {
    seq(|ranked|, i requires 0 <= i < |ranked| => GradeFor(judgments, ranked[i]))
  }

  function IdealDcg(judgments: seq<JudgedDoc>, d: nat -> real): real {
    Dcg(Take(SortDescending(Values(judgments)), 10), d)
  }

  function NdcgAt10(ranked: seq<string>, judgments: seq<JudgedDoc>, d: nat -> real): real {
    var ideal := IdealDcg(judgments, d);
    if ideal != 0.0 then Dcg(Take(RankedGrades(ranked, judgments), 10), d) / ideal else 0.0
  }

  ghost predicate NonNegative(judgments: seq<JudgedDoc>) {
    forall i :: 0 <= i < |judgments| ==> judgments[i].grade >= 0
  }

  /** Where the judgment of a document stands, if it has one. */
  function PickFor(judgments: seq<JudgedDoc>, id: string): (o: Option<nat>)
    ensures o.Some? ==> o.value < |judgments| && judgments[o.value].id == id
    ensures o == None ==> forall i :: 0 <= i < |judgments| ==> judgments[i].id != id
  {
    if judgments == [] then None
    else if judgments[0].id == id then Some(0)
    else match PickFor(judgments[1..], id)
      case Some(i) => Some(i + 1)
      case None => None
  }

  function Picks(ranked: seq<string>, judgments: seq<JudgedDoc>): seq<Option<nat>> {
    seq(|ranked|, i requires 0 <= i < |ranked| => PickFor(judgments, ranked[i]))
  }

  lemma {:induction false} GradeIsPick(judgments: seq<JudgedDoc>, id: string)
    ensures GradeFor(judgments, id) == Pick(Values(judgments), PickFor(judgments, id))
  {
    if judgments != [] && judgments[0].id != id {
      GradeIsPick(judgments[1..], id);
      assert Values(judgments)[1..] == Values(judgments[1..]);
    }
  }

  lemma {:induction false} RankedIsPicked(ranked: seq<string>, judgments: seq<JudgedDoc>)
    ensures RankedGrades(ranked, judgments) == Picked(Values(judgments), Picks(ranked, judgments))
  {
    forall i | 0 <= i < |ranked| { GradeIsPick(judgments, ranked[i]); }
  }

  lemma {:induction false} RankedIsJudged(ranked: seq<string>, judgments: seq<JudgedDoc>)
    requires NoRepeats(ranked) && NonNegative(judgments)
    ensures Judged(RankedGrades(ranked, judgments), Values(judgments))
  {
    RankedIsPicked(ranked, judgments);
    var picks := Picks(ranked, judgments);
    forall i | i in Indices(picks)
      ensures i < |judgments|
    {
      var k :| 0 <= k < |picks| && picks[k] == Some(i);
    }
    PickedIsJudged(Values(judgments), picks);
  }

  lemma {:induction false} NonNegativeIdeal(judgments: seq<JudgedDoc>, k: nat)
    requires NonNegative(judgments)
    ensures NonNegativeTop(Values(judgments), k)
  {
    var sorted := SortDescending(Values(judgments));
    forall i | 0 <= i < |sorted|
      ensures sorted[i] >= 0
    {
      assert sorted[i] in multiset(Values(judgments));
      assert sorted[i] in Values(judgments);
    }
  }

  /** The score of a ranking without repeats lies in [0, 1]. */
  lemma {:induction false} ScoreBounds(ranked: seq<string>, judgments: seq<JudgedDoc>, d: nat -> real)
    requires IsDiscount(d) && NoRepeats(ranked) && NonNegative(judgments)
    ensures 0.0 <= NdcgAt10(ranked, judgments, d) <= 1.0
  {
    var grades, values := RankedGrades(ranked, judgments), Values(judgments);
    RankedIsJudged(ranked, judgments);
    NonNegativeIdeal(judgments, 10);
    DcgAtMostIdeal(grades, values, 10, d);
    assert forall x :: x in Take(grades, 10) ==> x in grades;
    DcgNonNegative(Take(grades, 10), d);
    var best := IdealDcg(judgments, d);
    if best != 0.0 { Quotient(Dcg(Take(grades, 10), d), best); }
  }

  /** A full score means every one of the ten ranks gains what the ideal gains there. */
  lemma {:induction false} FullScoreMeans(ranked: seq<string>, judgments: seq<JudgedDoc>, d: nat -> real)
    requires IsStrictDiscount(d) && NoRepeats(ranked) && NonNegative(judgments)
    ensures NdcgAt10(ranked, judgments, d) == 1.0 <==>
            && IdealDcg(judgments, d) != 0.0
            && forall i :: 0 <= i < 10 ==>
                 GainAt(RankedGrades(ranked, judgments))(i) == GainAt(SortDescending(Values(judgments)))(i)
  {
    var grades, values := RankedGrades(ranked, judgments), Values(judgments);
    RankedIsJudged(ranked, judgments);
    NonNegativeIdeal(judgments, 10);
    IdealIsMatchedIff(grades, values, 10, d);
    DcgAtMostIdeal(grades, values, 10, d);
    assert forall x :: x in Take(grades, 10) ==> x in grades;
    DcgNonNegative(Take(grades, 10), d);
    var best := IdealDcg(judgments, d);
    if best != 0.0 { Quotient(Dcg(Take(grades, 10), d), best); }
  }

  /** The score times the ideal's gain over the first ten ranks is the ranking's; without an ideal it is 0. */
  lemma {:induction false} ScoreTimesIdeal(ranked: seq<string>, judgments: seq<JudgedDoc>, d: nat -> real, best: real)
    requires best == WeightedTo(GainAt(SortDescending(Values(judgments))), d, 10)
    ensures best != 0.0 ==>
              Times(NdcgAt10(ranked, judgments, d), best) == WeightedTo(GainAt(RankedGrades(ranked, judgments)), d, 10)
    ensures best == 0.0 ==> NdcgAt10(ranked, judgments, d) == 0.0
  {
    var grades := RankedGrades(ranked, judgments);
    DcgTake(SortDescending(Values(judgments)), d, 10);
    DcgTake(grades, d, 10);
    if best != 0.0 { QuotientBack(NdcgAt10(ranked, judgments, d), Dcg(Take(grades, 10), d), best); }
  }

  /** A document's grade is its judgment's, and 0 without one. */
  lemma {:induction false} GradeForMeans(judgments: seq<JudgedDoc>, id: string)
    requires IsDict(judgments)
    ensures forall i :: 0 <= i < |judgments| && judgments[i].id == id ==> GradeFor(judgments, id) == judgments[i].grade
    ensures (forall i :: 0 <= i < |judgments| ==> judgments[i].id != id) ==> GradeFor(judgments, id) == 0
  {
    forall i | 0 <= i < |judgments| && judgments[i].id == id
      ensures GradeFor(judgments, id) == judgments[i].grade
    {
      GradeForIs(judgments, i);
    }
    if forall i :: 0 <= i < |judgments| ==> judgments[i].id != id { NoGradeFor(judgments, id); }
  }

  lemma {:induction false} NoGradeFor(judgments: seq<JudgedDoc>, id: string)
    requires forall i :: 0 <= i < |judgments| ==> judgments[i].id != id
    ensures GradeFor(judgments, id) == 0
  {
    if judgments != [] { NoGradeFor(judgments[1..], id); }
  }

  // ----- rankings that lead with the best documents -----

  /** The grade at a rank; a missing rank counts as ungraded. */
  function GradeAt(grades: seq<int>, i: nat): int { if i < |grades| then grades[i] else 0 }

  /** The first ten ranks are in non-increasing grade order, and no judged document left out
      of them has a higher grade than any of them. */
  ghost predicate LeadsWithBest(ranked: seq<string>, judgments: seq<JudgedDoc>) {
    var grades := RankedGrades(ranked, judgments);
    && (forall i, k :: 0 <= i < k < 10 ==> GradeAt(grades, i) >= GradeAt(grades, k))
    && (forall j, i :: 0 <= j < |judgments| && judgments[j].id !in Take(ranked, 10) && 0 <= i < 10 ==>
          judgments[j].grade <= GradeAt(grades, i))
  }

  /** Such a ranking grades every rank at least as high as the sorted ideal. */
  lemma {:induction false} BestLeads(ranked: seq<string>, judgments: seq<JudgedDoc>, i: nat)
    requires IsDict(judgments) && NonNegative(judgments) && LeadsWithBest(ranked, judgments) && i < 10
    ensures GradeAt(SortDescending(Values(judgments)), i) <= GradeAt(RankedGrades(ranked, judgments), i)
  {
    var grades, values := RankedGrades(ranked, judgments), Values(judgments);
    var sorted, x := SortDescending(values), GradeAt(grades, i);
    if i < |grades| { GradeForNonNegative(judgments, ranked[i]); }
    if i < |sorted| && sorted[i] > x {
      CountAboveSorted(sorted, i, x);
      CountAboveOfPermutation(sorted, values, x);
      CountAboveIsCardinality(values, x);
      var n := if i < |ranked| then i else |ranked|;
      var lead := Picks(ranked, judgments)[..n];
      forall j | j in AboveIndices(values, x)
        ensures j in Indices(lead)
      {
        LeadHolds(ranked, judgments, i, j);
      }
      IndicesSize(lead);
      SubsetSize(AboveIndices(values, x), Indices(lead));
    }
  }

  /** A document graded above rank `i` stands before rank `i`. */
  lemma {:induction false} LeadHolds(ranked: seq<string>, judgments: seq<JudgedDoc>, i: nat, j: nat)
    requires IsDict(judgments) && LeadsWithBest(ranked, judgments) && i < 10 && j < |judgments|
    requires judgments[j].grade > GradeAt(RankedGrades(ranked, judgments), i)
    ensures j in Indices(Picks(ranked, judgments)[..if i < |ranked| then i else |ranked|])
  {
    var grades := RankedGrades(ranked, judgments);
    assert judgments[j].id in Take(ranked, 10);
    var p :| 0 <= p < |Take(ranked, 10)| && Take(ranked, 10)[p] == judgments[j].id;
    GradeForIs(judgments, j);
    assert GradeAt(grades, p) == judgments[j].grade;
    assert p < i;
    var lead := Picks(ranked, judgments)[..if i < |ranked| then i else |ranked|];
    assert PickFor(judgments, ranked[p]) == Some(j);
    assert lead[p] == Some(j);
  }

  /** Ranks that are each at least the ideal's, under an ideal that dominates, equal the ideal's. */
  lemma {:induction false} SqueezedGains(f: nat -> real, g: nat -> real, n: nat)
    requires Dominated(f, g, n) && forall i :: 0 <= i < n ==> g(i) <= f(i)
    ensures SumTo(f, n) == SumTo(g, n) && forall i :: 0 <= i < n ==> f(i) == g(i)
  {
    if n > 0 {
      SqueezedGains(f, g, n - 1);
      assert SumTo(f, n) <= SumTo(g, n);
    }
  }

  /** A ranking that leads with the best documents scores 1 unless there is nothing to find. */
  lemma {:induction false} BestFirstScoresOne(ranked: seq<string>, judgments: seq<JudgedDoc>, d: nat -> real)
    requires IsDiscount(d) && IsDict(judgments) && NoRepeats(ranked) && NonNegative(judgments)
    requires LeadsWithBest(ranked, judgments) && IdealDcg(judgments, d) != 0.0
    ensures NdcgAt10(ranked, judgments, d) == 1.0
  {
    var grades, sorted := RankedGrades(ranked, judgments), SortDescending(Values(judgments));
    var f, g := GainAt(grades), GainAt(sorted);
    RankedIsJudged(ranked, judgments);
    NonNegativeIdeal(judgments, 10);
    JudgedDominated(grades, Values(judgments), 10);
    forall i | 0 <= i < 10 ensures g(i) <= f(i) { BestLeadsGain(ranked, judgments, i); }
    SqueezedGains(f, g, 10);
    DcgTake(grades, d, 10);
    DcgTake(sorted, d, 10);
    WeightedAgrees(f, g, d, 10);
    assert forall x :: x in Take(grades, 10) ==> x in grades;
    DcgNonNegative(Take(grades, 10), d);
    Quotient(Dcg(Take(grades, 10), d), IdealDcg(judgments, d));
  }

  lemma {:induction false} BestLeadsGain(ranked: seq<string>, judgments: seq<JudgedDoc>, i: nat)
    requires IsDict(judgments) && NonNegative(judgments) && LeadsWithBest(ranked, judgments) && i < 10
    ensures GainAt(SortDescending(Values(judgments)))(i) <= GainAt(RankedGrades(ranked, judgments))(i)
  {
    var grades, sorted := RankedGrades(ranked, judgments), SortDescending(Values(judgments));
    BestLeads(ranked, judgments, i);
    GradeAtGain(grades, i);
    GradeAtGain(sorted, i);
    GainMonotone(GradeAt(sorted, i), GradeAt(grades, i));
  }

  lemma {:induction false} GradeAtGain(grades: seq<int>, i: nat)
    ensures GainAt(grades)(i) == Gain(GradeAt(grades, i))
  {
    GainSign(0);
  }

  // ----- rankings made of judged documents -----

  function Ids(docs: seq<JudgedDoc>): seq<string> {
    seq(|docs|, i requires 0 <= i < |docs| => docs[i].id)
  }

  /** A ranking of judged documents has their grades, and no repeats if they are distinct. */
  lemma {:induction false} RankedDocs(judgments: seq<JudgedDoc>, docs: seq<JudgedDoc>)
    requires IsDict(judgments) && NoRepeats(docs) && forall i :: 0 <= i < |docs| ==> docs[i] in judgments
    ensures RankedGrades(Ids(docs), judgments) == Values(docs) && NoRepeats(Ids(docs))
  {
    forall i | 0 <= i < |docs|
      ensures GradeFor(judgments, docs[i].id) == docs[i].grade
    {
      assert docs[i] in judgments;
      var j :| 0 <= j < |judgments| && judgments[j] == docs[i];
      GradeForIs(judgments, j);
    }
    forall i, k | 0 <= i < k < |docs|
      ensures docs[i].id != docs[k].id
    {
      assert docs[i] in judgments && docs[k] in judgments && docs[i] != docs[k];
      var a :| 0 <= a < |judgments| && judgments[a] == docs[i];
      var b :| 0 <= b < |judgments| && judgments[b] == docs[k];
      assert a < b || b < a;
    }
  }

  predicate HigherGrade(a: JudgedDoc, b: JudgedDoc) { a.grade > b.grade }

  /** The documents from the highest grade to the lowest. */
  function BestFirst(judgments: seq<JudgedDoc>): seq<JudgedDoc> { Sort(HigherGrade, judgments) }

  lemma {:induction false} ValuesSorted(docs: seq<JudgedDoc>)
    ensures Sorted(HigherGrade, docs) <==> Sorted(Higher, Values(docs))
  {
    if Sorted(Higher, Values(docs)) {
      forall i, j | 0 <= i < j < |docs|
        ensures !HigherGrade(docs[j], docs[i])
      {
        assert !Higher(Values(docs)[j], Values(docs)[i]);
      }
    }
  }

  lemma {:induction false} ValuesFirst(x: JudgedDoc, docs: seq<JudgedDoc>)
    ensures Values([x] + docs) == [x.grade] + Values(docs)
  {
  }

  lemma {:induction false} ValuesRest(docs: seq<JudgedDoc>)
    requires docs != []
    ensures Values(docs)[0] == docs[0].grade && Values(docs)[1..] == Values(docs[1..])
  {
  }

  lemma {:induction false} ValuesInserted(x: JudgedDoc, docs: seq<JudgedDoc>)
    requires Sorted(HigherGrade, docs) && Sorted(Higher, Values(docs))
    ensures Values(Insert(HigherGrade, x, docs)) == Insert(Higher, x.grade, Values(docs))
    decreases |docs|
  {
    if docs == [] || !HigherGrade(docs[0], x) {
      ValuesFirst(x, docs);
    } else {
      ValuesRest(docs);
      ValuesSorted(docs[1..]);
      ValuesInserted(x, docs[1..]);
      ValuesFirst(docs[0], Insert(HigherGrade, x, docs[1..]));
    }
  }

  lemma {:induction false} ValuesOfSort(judgments: seq<JudgedDoc>)
    ensures Values(Sort(HigherGrade, judgments)) == Sort(Higher, Values(judgments))
  {
    if judgments != [] {
      var rest := Sort(HigherGrade, judgments[1..]);
      ValuesRest(judgments);
      ValuesOfSort(judgments[1..]);
      ValuesSorted(rest);
      ValuesInserted(judgments[0], rest);
    }
  }

  lemma {:induction false} BestFirstIs(judgments: seq<JudgedDoc>)
    requires IsDict(judgments)
    ensures NoRepeats(BestFirst(judgments)) && |BestFirst(judgments)| == |judgments|
    ensures forall x :: x in BestFirst(judgments) ==> x in judgments
    ensures Values(BestFirst(judgments)) == SortDescending(Values(judgments))
  {
    PermutationOnce(BestFirst(judgments), judgments);
    ValuesOfSort(judgments);
  }

  // ----- when scores stay at 0 or above -----

  ghost predicate NeverNegative(judgments: seq<JudgedDoc>, d: nat -> real) {
    forall ranked :: NoRepeats(ranked) ==> NdcgAt10(ranked, judgments, d) >= 0.0
  }

  ghost predicate NonePositive(judgments: seq<JudgedDoc>) {
    forall i :: 0 <= i < |judgments| ==> judgments[i].grade <= 0
  }

  /** The exact condition for scores never to be negative: nothing to divide by, no negative grade
      under a positive ideal, or no positive grade under a negative one. */
  lemma {:induction false} NeverNegativeIff(judgments: seq<JudgedDoc>, d: nat -> real)
    requires IsDiscount(d) && IsDict(judgments)
    ensures NeverNegative(judgments, d) <==>
            || IdealDcg(judgments, d) == 0.0
            || (IdealDcg(judgments, d) > 0.0 && NonNegative(judgments))
            || (IdealDcg(judgments, d) < 0.0 && NonePositive(judgments))
  {
    var ideal := IdealDcg(judgments, d);
    if ideal > 0.0 && NonNegative(judgments) {
      forall ranked | NoRepeats(ranked)
        ensures NdcgAt10(ranked, judgments, d) >= 0.0
      {
        ScoreBounds(ranked, judgments, d);
      }
    } else if ideal < 0.0 && NonePositive(judgments) {
      forall ranked | NoRepeats(ranked)
        ensures NdcgAt10(ranked, judgments, d) >= 0.0
      {
        NothingGained(ranked, judgments, d);
        QuotientSigns(Dcg(Take(RankedGrades(ranked, judgments), 10), d), ideal);
      }
    } else if ideal > 0.0 {
      var j :| 0 <= j < |judgments| && judgments[j].grade < 0;
      LoneHit(judgments, j, d);
      QuotientSigns(Dcg([judgments[j].grade], d), ideal);
    } else if ideal < 0.0 {
      var j :| 0 <= j < |judgments| && judgments[j].grade > 0;
      LoneHit(judgments, j, d);
      QuotientSigns(Dcg([judgments[j].grade], d), ideal);
    }
  }

  /** The ranking of one judged document alone. */
  lemma {:induction false} LoneHit(judgments: seq<JudgedDoc>, j: nat, d: nat -> real)
    requires IsDiscount(d) && IsDict(judgments) && j < |judgments|
    ensures var ranked := [judgments[j].id];
            NoRepeats(ranked) && Take(RankedGrades(ranked, judgments), 10) == [judgments[j].grade]
    ensures judgments[j].grade < 0 ==> Dcg([judgments[j].grade], d) < 0.0
    ensures judgments[j].grade > 0 ==> Dcg([judgments[j].grade], d) > 0.0
  {
    GradeForIs(judgments, j);
    SingleDcg(judgments[j].grade, d);
    GainSign(judgments[j].grade);
    ProductSign(Gain(judgments[j].grade), d(0), Dcg([judgments[j].grade], d));
  }

  lemma {:induction false} ProductSign(a: real, b: real, c: real)
    requires b > 0.0 && c == a * b
    ensures a < 0.0 ==> c < 0.0
    ensures a > 0.0 ==> c > 0.0
  {
  }

  lemma {:induction false} NothingGained(ranked: seq<string>, judgments: seq<JudgedDoc>, d: nat -> real)
    requires IsDiscount(d) && NonePositive(judgments)
    ensures Dcg(Take(RankedGrades(ranked, judgments), 10), d) <= 0.0
  {
    var grades := RankedGrades(ranked, judgments);
    forall i: nat
      ensures GainAt(grades)(i) <= GainAt([])(i)
    {
      if i < |grades| {
        GradeForNonPositive(judgments, ranked[i]);
        GainSign(grades[i]);
      }
    }
    DcgTake(grades, d, 10);
    WeightedBelow(GainAt(grades), GainAt([]), d, 10, 10);
    WeightedNothing(d, 10);
  }

  lemma {:induction false} WeightedNothing(d: nat -> real, n: nat)
    ensures WeightedTo(GainAt([]), d, n) == 0.0
  {
    if n > 0 { WeightedNothing(d, n - 1); }
  }

  lemma {:induction false} GradeForNonPositive(judgments: seq<JudgedDoc>, id: string)
    requires NonePositive(judgments)
    ensures GradeFor(judgments, id) <= 0
  {
    if judgments != [] { GradeForNonPositive(judgments[1..], id); }
  }

  /** A quotient by either sign: where it stands to 0 and to 1. */
  lemma {:induction false} QuotientSigns(a: real, b: real)
    requires b != 0.0
    ensures b > 0.0 ==> (a / b >= 0.0 <==> a >= 0.0) && (a / b <= 1.0 <==> a <= b)
    ensures b < 0.0 ==> (a / b >= 0.0 <==> a <= 0.0) && (a / b <= 1.0 <==> a >= b)
  {
    if b > 0.0 {
      PositiveQuotient(a, b, a / b);
    } else {
      NegatedQuotient(a, b, a / b);
      PositiveQuotient(-a, -b, a / b);
    }
  }

  lemma {:induction false} PositiveQuotient(a: real, b: real, q: real)
    requires b > 0.0 && a == q * b
    ensures q >= 0.0 <==> a >= 0.0
    ensures q <= 1.0 <==> a <= b
  {
    if q < 0.0 { ProductSign(q, b, a); } else { NonNegativeProduct(q, b); }
    Distribute(q, 1.0, b);
    if q <= 1.0 { NonNegativeProduct(1.0 - q, b); Distribute(1.0, q, b); } else { ProductSign(q - 1.0, b, a - b); }
  }

  lemma {:induction false} NegatedQuotient(a: real, b: real, q: real)
    requires b != 0.0 && q == a / b
    ensures -a == q * -b
  {
    assert q * b == a;
  }

  // ----- when scores stay at 1 or below -----

  ghost predicate NeverAboveOne(judgments: seq<JudgedDoc>, d: nat -> real) {
    forall ranked :: NoRepeats(ranked) ==> NdcgAt10(ranked, judgments, d) <= 1.0
  }

  ghost predicate AllEqual(judgments: seq<JudgedDoc>) {
    forall i, j :: 0 <= i < j < |judgments| ==> judgments[i].grade == judgments[j].grade
  }

  /** The picks of a ranking without those of negative grade. */
  function Kept(values: seq<int>, picks: seq<Option<nat>>): seq<Option<nat>> {
    seq(|picks|, i requires 0 <= i < |picks| => if Pick(values, picks[i]) < 0 then None else picks[i])
  }

  /** Leaving out the negative grades makes a ranking judged and costs no gain. */
  lemma {:induction false} KeptIsJudged(ranked: seq<string>, judgments: seq<JudgedDoc>, d: nat -> real)
    requires IsDiscount(d) && NoRepeats(ranked)
    ensures var values := Values(judgments);
            var kept := Picked(values, Kept(values, Picks(ranked, judgments)));
            && Judged(kept, values)
            && Dcg(Take(RankedGrades(ranked, judgments), 10), d) <= Dcg(Take(kept, 10), d)
  {
    var values, picks := Values(judgments), Picks(ranked, judgments);
    var some := Kept(values, picks);
    var grades, kept := RankedGrades(ranked, judgments), Picked(values, some);
    RankedIsPicked(ranked, judgments);
    forall i | i in Indices(some)
      ensures i < |values| && values[i] >= 0
    {
      var k :| 0 <= k < |some| && some[k] == Some(i);
      assert picks[k] == Some(i);
    }
    assert DistinctPicks(some) by {
      forall i, k | 0 <= i < k < |some| && some[i].Some? ensures some[i] != some[k] { assert picks[i] == some[i]; }
    }
    PickedIsJudged(values, some);
    forall i: nat
      ensures GainAt(grades)(i) <= GainAt(kept)(i)
    {
      if i < |grades| {
        GainSign(grades[i]);
        GainSign(0);
      }
    }
    DcgTake(grades, d, 10);
    DcgTake(kept, d, 10);
    WeightedBelow(GainAt(grades), GainAt(kept), d, 10, 10);
  }

  /** The ranking of the first `n` documents, best first. */
  lemma {:induction false} LeadersRanked(judgments: seq<JudgedDoc>, n: nat)
    requires IsDict(judgments) && n <= |judgments|
    ensures |BestFirst(judgments)| == |judgments| == |SortDescending(Values(judgments))|
    ensures NoRepeats(Ids(BestFirst(judgments)[..n]))
    ensures RankedGrades(Ids(BestFirst(judgments)[..n]), judgments) == SortDescending(Values(judgments))[..n]
  {
    var docs := BestFirst(judgments);
    BestFirstIs(judgments);
    var leaders := docs[..n];
    forall i | 0 <= i < n ensures leaders[i] in judgments { assert docs[i] in docs; }
    RankedDocs(judgments, leaders);
    assert Values(leaders) == Values(docs)[..n];
  }

  /** The documents of positive grade, best first, gain more than an ideal with a negative grade. */
  lemma {:induction false} FoundBeatsIdeal(judgments: seq<JudgedDoc>, d: nat -> real)
    requires IsDiscount(d) && IsDict(judgments) && !NonNegativeTop(Values(judgments), 10)
    ensures exists ranked :: NoRepeats(ranked) &&
              Dcg(Take(RankedGrades(ranked, judgments), 10), d) > IdealDcg(judgments, d)
  {
    var sorted := SortDescending(Values(judgments));
    var at :| 0 <= at < 10 && at < |sorted| && sorted[at] < 0;
    FoundDcgMore(sorted, 10, d, at);
    PositivesLead(sorted);
    LeadersRanked(judgments, |Positives(sorted)|);
  }

  // ----- below a negative ideal -----

  /** The sum of so many equal gains. */
  function Repeated(n: nat, g: real): real { if n == 0 then 0.0 else Repeated(n - 1, g) + g }

  lemma {:induction false} RepeatedFalls(a: nat, b: nat, g: real)
    requires a <= b && g <= 0.0
    ensures Repeated(b, g) <= Repeated(a, g)
  {
    if a < b { RepeatedFalls(a, b - 1, g); }
  }

  lemma {:induction false} EqualSum(s: seq<int>, c: int, m: nat)
    requires forall i :: 0 <= i < |s| ==> s[i] == c
    ensures SumTo(GainAt(s), m) == Repeated(if m < |s| then m else |s|, Gain(c))
  {
    if m > 0 { EqualSum(s, c, m - 1); }
  }

  lemma {:induction false} PickedSum(values: seq<int>, picks: seq<Option<nat>>, c: int, m: nat)
    requires forall i :: 0 <= i < |values| ==> values[i] == c
    requires DistinctPicks(picks) && forall i :: i in Indices(picks) ==> i < |values|
    requires m <= |picks|
    ensures SumTo(GainAt(Picked(values, picks)), m) == Repeated(|Indices(picks[..m])|, Gain(c))
  {
    if m > 0 {
      PickedSum(values, picks, c, m - 1);
      OneMorePick(picks, m - 1);
      if picks[m - 1].Some? { assert picks[m - 1].value in Indices(picks); }
      GainSign(0);
      assert Picked(values, picks)[m - 1] == if picks[m - 1].Some? then c else 0;
    } else {
      assert Indices(picks[..0]) == {};
    }
  }

  lemma {:induction false} OneMorePick(picks: seq<Option<nat>>, n: nat)
    requires DistinctPicks(picks) && n < |picks|
    ensures |Indices(picks[..n + 1])| == |Indices(picks[..n])| + (if picks[n].Some? then 1 else 0)
  {
    var front, o := picks[..n], picks[n];
    assert picks[..n + 1] == front + [o];
    IndicesAppend(front, o);
    DistinctAppend(front, o);
    assert DistinctPicks(front + [o]);
    if o == None { assert Indices(front) + {} == Indices(front); }
  }

  /** Equal negative grades: a ranking can find each once, so loses no more than the ideal does. */
  lemma {:induction false} EqualLoss(ranked: seq<string>, judgments: seq<JudgedDoc>, c: int, m: nat)
    requires NoRepeats(ranked) && c < 0 && forall i :: 0 <= i < |judgments| ==> judgments[i].grade == c
    ensures SumTo(GainAt(SortDescending(Values(judgments))), m) <= SumTo(GainAt(RankedGrades(ranked, judgments)), m)
  {
    var values, picks, sorted := Values(judgments), Picks(ranked, judgments), SortDescending(Values(judgments));
    RankedIsPicked(ranked, judgments);
    SameElements(sorted, values);
    forall i | 0 <= i < |sorted| ensures sorted[i] == c { assert sorted[i] in values; }
    EqualSum(sorted, c, m);
    forall i | i in Indices(picks)
      ensures i < |values|
    {
      var k :| 0 <= k < |picks| && picks[k] == Some(i);
    }
    var n := if m < |picks| then m else |picks|;
    PickedSum(values, picks, c, n);
    SumTail(RankedGrades(ranked, judgments), n, m);
    IndicesSize(picks[..n]);
    assert Indices(picks[..n]) <= NumbersBelow(|values|) by {
      assert forall o :: o in picks[..n] ==> o in picks;
    }
    SubsetSize(Indices(picks[..n]), NumbersBelow(|values|));
    GainSign(c);
    RepeatedFalls(|Indices(picks[..n])|, if m < |sorted| then m else |sorted|, Gain(c));
  }

  lemma {:induction false} NoneBelowEqualIdeal(ranked: seq<string>, judgments: seq<JudgedDoc>, c: int, d: nat -> real)
    requires IsDiscount(d) && NoRepeats(ranked)
    requires c < 0 && forall i :: 0 <= i < |judgments| ==> judgments[i].grade == c
    ensures IdealDcg(judgments, d) <= Dcg(Take(RankedGrades(ranked, judgments), 10), d)
  {
    var f, g := GainAt(SortDescending(Values(judgments))), GainAt(RankedGrades(ranked, judgments));
    forall m | 0 <= m <= 10 ensures SumTo(f, m) <= SumTo(g, m) { EqualLoss(ranked, judgments, c, m); }
    WeightedAtMost(f, g, d, 10);
    DcgTake(SortDescending(Values(judgments)), d, 10);
    DcgTake(RankedGrades(ranked, judgments), d, 10);
  }

  /** The list with its first and last places exchanged. */
  function Exchanged<T>(s: seq<T>): seq<T>
    requires s != []
  {
    s[0 := s[|s| - 1]][|s| - 1 := s[0]]
  }

  lemma {:induction false} ExchangedSum(s: seq<int>, m: nat)
    requires |s| > 1
    ensures SumTo(GainAt(Exchanged(s)), m) ==
            SumTo(GainAt(s), m) + (if 0 < m < |s| then Gain(s[|s| - 1]) - Gain(s[0]) else 0.0)
  {
    if m > 0 { ExchangedSum(s, m - 1); }
  }

  /** Putting the worst document first and the best last costs gain, if fewer than all ranks count or the
      discount falls. */
  lemma {:induction false} ExchangedDcgLess(s: seq<int>, d: nat -> real, k: nat)
    requires IsStrictDiscount(d) && |s| > 1 && s[0] > s[|s| - 1] && k > 0
    ensures Dcg(Take(Exchanged(s), k), d) < Dcg(Take(s, k), d)
  {
    var f, g := GainAt(Exchanged(s)), GainAt(s);
    GainIncreases(s[|s| - 1], s[0]);
    forall m | 0 <= m <= k ensures SumTo(f, m) <= SumTo(g, m) { ExchangedSum(s, m); }
    WeightedAtMost(f, g, d, k);
    WeightedEqualIff(f, g, d, k);
    assert f(0) != g(0);
    DcgTake(Exchanged(s), d, k);
    DcgTake(s, d, k);
  }

  lemma {:induction false} WorstFirstBelowIdeal(judgments: seq<JudgedDoc>, d: nat -> real)
    requires IsStrictDiscount(d) && IsDict(judgments) && !AllEqual(judgments)
    ensures exists ranked :: NoRepeats(ranked) &&
              Dcg(Take(RankedGrades(ranked, judgments), 10), d) < IdealDcg(judgments, d)
  {
    var docs := BestFirst(judgments);
    BestFirstIs(judgments);
    NotAllEqual(judgments);
    var worst := Exchanged(docs);
    assert forall i :: 0 <= i < |worst| ==> worst[i] in docs;
    RankedDocs(judgments, worst);
    assert Values(worst) == Exchanged(Values(docs));
    ExchangedDcgLess(Values(docs), d, 10);
    assert NoRepeats(Ids(worst)) && RankedGrades(Ids(worst), judgments) == Exchanged(Values(docs));
  }

  lemma {:induction false} DescendingEnds(s: seq<int>, a: nat, b: nat)
    requires Descending(s) && a < |s| && b < |s| && s[a] != s[b]
    ensures |s| > 1 && s[0] > s[|s| - 1]
  {
    assert s[0] >= s[a] >= s[|s| - 1] && s[0] >= s[b] >= s[|s| - 1];
  }

  lemma {:induction false} NotAllEqual(judgments: seq<JudgedDoc>)
    requires !AllEqual(judgments)
    ensures var s := SortDescending(Values(judgments)); |s| > 1 && s[0] > s[|s| - 1]
  {
    var i, j :| 0 <= i < j < |judgments| && judgments[i].grade != judgments[j].grade;
    var values, s := Values(judgments), SortDescending(Values(judgments));
    SameElements(s, values);
    assert values[i] in s && values[j] in s;
    var a :| 0 <= a < |s| && s[a] == values[i];
    var b :| 0 <= b < |s| && s[b] == values[j];
    DescendingEnds(s, a, b);
  }

  /** The exact condition for scores never to exceed 1: nothing to divide by, a positive ideal without
      a negative grade, or a negative ideal of equal grades. */
  lemma {:induction false} NeverAboveOneIff(judgments: seq<JudgedDoc>, d: nat -> real)
    requires IsStrictDiscount(d) && IsDict(judgments)
    ensures NeverAboveOne(judgments, d) <==>
            || IdealDcg(judgments, d) == 0.0
            || (IdealDcg(judgments, d) > 0.0 && NonNegativeTop(Values(judgments), 10))
            || (IdealDcg(judgments, d) < 0.0 && AllEqual(judgments))
  {
    var ideal := IdealDcg(judgments, d);
    if ideal > 0.0 { AboveOnePositive(judgments, d); } else if ideal < 0.0 { AboveOneNegative(judgments, d); }
  }

  lemma {:induction false} AboveOnePositive(judgments: seq<JudgedDoc>, d: nat -> real)
    requires IsDiscount(d) && IsDict(judgments) && IdealDcg(judgments, d) > 0.0
    ensures NeverAboveOne(judgments, d) <==> NonNegativeTop(Values(judgments), 10)
  {
    var ideal := IdealDcg(judgments, d);
    if NonNegativeTop(Values(judgments), 10) {
      forall ranked | NoRepeats(ranked)
        ensures NdcgAt10(ranked, judgments, d) <= 1.0
      {
        var values := Values(judgments);
        var kept := Picked(values, Kept(values, Picks(ranked, judgments)));
        KeptIsJudged(ranked, judgments, d);
        DcgAtMostIdeal(kept, values, 10, d);
        QuotientSigns(Dcg(Take(RankedGrades(ranked, judgments), 10), d), ideal);
      }
    } else {
      FoundBeatsIdeal(judgments, d);
      var ranked :| NoRepeats(ranked) && Dcg(Take(RankedGrades(ranked, judgments), 10), d) > ideal;
      QuotientSigns(Dcg(Take(RankedGrades(ranked, judgments), 10), d), ideal);
    }
  }

  lemma {:induction false} AboveOneNegative(judgments: seq<JudgedDoc>, d: nat -> real)
    requires IsStrictDiscount(d) && IsDict(judgments) && IdealDcg(judgments, d) < 0.0
    ensures NeverAboveOne(judgments, d) <==> AllEqual(judgments)
  {
    var ideal := IdealDcg(judgments, d);
    if AllEqual(judgments) {
      NegativeIdeal(judgments, d);
      forall ranked | NoRepeats(ranked)
        ensures NdcgAt10(ranked, judgments, d) <= 1.0
      {
        NoneBelowEqualIdeal(ranked, judgments, judgments[0].grade, d);
        QuotientSigns(Dcg(Take(RankedGrades(ranked, judgments), 10), d), ideal);
      }
    } else {
      WorstFirstBelowIdeal(judgments, d);
      var ranked :| NoRepeats(ranked) && Dcg(Take(RankedGrades(ranked, judgments), 10), d) < ideal;
      QuotientSigns(Dcg(Take(RankedGrades(ranked, judgments), 10), d), ideal);
    }
  }

  lemma {:induction false} NegativeIdeal(judgments: seq<JudgedDoc>, d: nat -> real)
    requires IsDiscount(d) && AllEqual(judgments) && IdealDcg(judgments, d) < 0.0
    ensures judgments != [] && judgments[0].grade < 0
    ensures forall i :: 0 <= i < |judgments| ==> judgments[i].grade == judgments[0].grade
  {
    if judgments == [] || judgments[0].grade >= 0 {
      NonNegativeIdeal(judgments, 10);
      var sorted := SortDescending(Values(judgments));
      assert forall x :: x in Take(sorted, 10) ==> x in sorted;
      SameElements(sorted, Values(judgments));
      DcgNonNegative(Take(sorted, 10), d);
    }
  }

  // ----- judgments that leave the unit interval -----

  /** Grades 3 and -1: the ideal is positive, the good document alone scores above 1, the bad one below 0. */
  lemma {:induction false} PositiveIdealFails(judgments: seq<JudgedDoc>, d: nat -> real)
    requires IsStrictDiscount(d) && IsDict(judgments) && Values(judgments) == [3, -1]
    ensures IdealDcg(judgments, d) > 0.0
    ensures NdcgAt10([judgments[0].id], judgments, d) > 1.0 && NdcgAt10([judgments[1].id], judgments, d) < 0.0
  {
    IdealInOrder(judgments, d);
    GoodBesideBad(d);
    assert judgments[0].grade == Values(judgments)[0] && judgments[1].grade == Values(judgments)[1];
    LoneHit(judgments, 0, d);
    LoneHit(judgments, 1, d);
    QuotientSigns(Dcg([3], d), IdealDcg(judgments, d));
    QuotientSigns(Dcg([-1], d), IdealDcg(judgments, d));
  }

  /** Grades -1 and -2: the ideal is negative, and the worse document first scores above 1. */
  lemma {:induction false} NegativeIdealFails(judgments: seq<JudgedDoc>, d: nat -> real)
    requires IsStrictDiscount(d) && IsDict(judgments) && Values(judgments) == [-1, -2]
    ensures IdealDcg(judgments, d) < 0.0 && NdcgAt10([judgments[1].id, judgments[0].id], judgments, d) > 1.0
  {
    var ranked := [judgments[1].id, judgments[0].id];
    IdealInOrder(judgments, d);
    BadBesideWorse(d);
    assert judgments[0].grade == Values(judgments)[0] && judgments[1].grade == Values(judgments)[1];
    GradeForIs(judgments, 0);
    GradeForIs(judgments, 1);
    assert RankedGrades(ranked, judgments) == [-2, -1];
    QuotientSigns(Dcg([-2, -1], d), Dcg([-1, -2], d));
  }

  lemma {:induction false} BadBesideWorse(d: nat -> real)
    requires IsStrictDiscount(d)
    ensures Dcg([-2, -1], d) < Dcg([-1, -2], d) < 0.0
  {
    DcgOfTwo(-1, -2, d);
    DcgOfTwo(-2, -1, d);
    SmallGains();
    assert 0.0 < d(1) < d(0);
  }

  /** A grade of 1 above three grades of -3. */
  ghost predicate OneGoodThreeBad(grades: seq<int>) {
    |grades| == 4 && grades[0] == 1 && forall i :: 1 <= i < 4 ==> grades[i] == -3
  }

  /** Grades 1, -3, -3 and -3: the ideal is negative, and the good document alone scores below 0.
      The bounds hold of the script's 1 / log2(rank + 2). */
  lemma {:induction false} GoodDocumentBelowZero(judgments: seq<JudgedDoc>, d: nat -> real)
    requires IsStrictDiscount(d) && d(0) == 1.0 && d(1) >= 0.6 && d(2) >= 0.5 && d(3) >= 0.4
    requires IsDict(judgments) && OneGoodThreeBad(Values(judgments))
    ensures IdealDcg(judgments, d) < 0.0 && NdcgAt10([judgments[0].id], judgments, d) < 0.0
  {
    IdealInOrder(judgments, d);
    OneBesideThree(Values(judgments), d);
    assert judgments[0].grade == Values(judgments)[0];
    LoneHit(judgments, 0, d);
    QuotientSigns(Dcg([1], d), IdealDcg(judgments, d));
  }

  lemma {:induction false} OneBesideThree(s: seq<int>, d: nat -> real)
    requires OneGoodThreeBad(s) && d(0) == 1.0 && d(1) >= 0.6 && d(2) >= 0.5 && d(3) >= 0.4
    ensures Dcg(s, d) < 0.0
  {
    DcgOfFour(s, d);
    SmallGains();
    Loss(d(1), Gain(-3));
    Loss(d(2), Gain(-3));
    Loss(d(3), Gain(-3));
  }

  lemma {:induction false} Loss(c: real, g: real)
    requires g == -0.875
    ensures g * c == -0.875 * c
  {
  }

  /** Judgments listed best first. */
  lemma {:induction false} IdealInOrder(judgments: seq<JudgedDoc>, d: nat -> real)
    requires Descending(Values(judgments)) && |judgments| <= 10
    ensures IdealDcg(judgments, d) == Dcg(Values(judgments), d)
  {
    DescendingUnique(Values(judgments), SortDescending(Values(judgments)));
  }

  lemma {:induction false} DcgOfFour(s: seq<int>, d: nat -> real)
    requires |s| == 4
    ensures Dcg(s, d) == Gain(s[0]) * d(0) + Gain(s[1]) * d(1) + Gain(s[2]) * d(2) + Gain(s[3]) * d(3)
  {
    var f := GainAt(s);
    assert WeightedTo(f, d, 1) == WeightedTo(f, d, 0) + Gain(s[0]) * d(0);
    assert WeightedTo(f, d, 2) == WeightedTo(f, d, 1) + Gain(s[1]) * d(1);
    assert WeightedTo(f, d, 3) == WeightedTo(f, d, 2) + Gain(s[2]) * d(2);
  }

  // ----- recall and exact answers -----

  function RelevantIds(judgments: seq<JudgedDoc>): set<string> {
    set j | j in judgments && j.grade > 0 :: j.id
  }

  function Hits(ranked: seq<string>, relevant: set<string>): nat {
    if ranked == [] then 0
    else Hits(ranked[..|ranked| - 1], relevant) + (if ranked[|ranked| - 1] in relevant then 1 else 0)
  }

  function Recall(ranked: seq<string>, judgments: seq<JudgedDoc>, cutoff: nat): real {
    var relevant := RelevantIds(judgments);
    if relevant == {} then 0.0 else Hits(Take(ranked, cutoff), relevant) as real / |relevant| as real
  }

  predicate Exact(ranked: seq<string>, judgments: seq<JudgedDoc>, cutoff: nat) {
    RelevantIds(judgments) != {} && forall id :: id in RelevantIds(judgments) ==> id in Take(ranked, cutoff)
  }

  ghost function Found(ranked: seq<string>, relevant: set<string>): set<string> {
    set id | id in ranked && id in relevant
  }

  lemma {:induction false} FoundNext(front: seq<string>, last: string, relevant: set<string>)
    requires last !in front
    ensures |Found(front + [last], relevant)| == |Found(front, relevant)| + (if last in relevant then 1 else 0)
  {
    if last in relevant {
      assert Found(front + [last], relevant) == Found(front, relevant) + {last};
    } else {
      assert Found(front + [last], relevant) == Found(front, relevant);
    }
  }

  lemma {:induction false} HitsAreFound(ranked: seq<string>, relevant: set<string>)
    requires NoRepeats(ranked)
    ensures Hits(ranked, relevant) == |Found(ranked, relevant)|
  {
    if ranked == [] {
      assert Found(ranked, relevant) == {};
    } else {
      var front, last := ranked[..|ranked| - 1], ranked[|ranked| - 1];
      HitsAreFound(front, relevant);
      assert ranked == front + [last];
      FoundNext(front, last, relevant);
    }
  }

  /** Without repeats recall never exceeds 1, and it is 1 exactly when the answer is exact. */
  lemma {:induction false} FullRecallIsExact(ranked: seq<string>, judgments: seq<JudgedDoc>, cutoff: nat)
    requires NoRepeats(ranked)
    ensures 0.0 <= Recall(ranked, judgments, cutoff) <= 1.0
    ensures Recall(ranked, judgments, cutoff) == 1.0 <==> Exact(ranked, judgments, cutoff)
  {
    var relevant, top := RelevantIds(judgments), Take(ranked, cutoff);
    if relevant != {} {
      var found := Found(top, relevant);
      HitsAreFound(top, relevant);
      SubsetSize(found, relevant);
      assert |relevant| > 0;
      Quotient(Hits(top, relevant) as real, |relevant| as real);
      if |found| == |relevant| {
        assert |relevant - found| == 0;
        assert relevant == found;
      }
      if Exact(ranked, judgments, cutoff) { assert found == relevant; }
    }
  }

  function HitRanks(ranked: seq<string>, relevant: set<string>): set<nat> {
    set i: nat | i < |ranked| && ranked[i] in relevant
  }

  lemma {:induction false} HitsAreRanks(ranked: seq<string>, relevant: set<string>)
    ensures Hits(ranked, relevant) == |HitRanks(ranked, relevant)|
  {
    if ranked == [] {
      assert HitRanks(ranked, relevant) == {};
    } else {
      var n := |ranked| - 1;
      HitsAreRanks(ranked[..n], relevant);
      if ranked[n] in relevant {
        assert HitRanks(ranked, relevant) == HitRanks(ranked[..n], relevant) + {n};
      } else {
        assert HitRanks(ranked, relevant) == HitRanks(ranked[..n], relevant);
      }
    }
  }

  /** Recall times the number of relevant documents is how many ranks before the cutoff hold one of them. */
  lemma {:induction false} RecallTimesRelevant(ranked: seq<string>, judgments: seq<JudgedDoc>, cutoff: nat)
    ensures Times(Recall(ranked, judgments, cutoff), |RelevantIds(judgments)| as real) ==
            |HitRanks(Take(ranked, cutoff), RelevantIds(judgments))| as real
  {
    var relevant, top := RelevantIds(judgments), Take(ranked, cutoff);
    HitsAreRanks(top, relevant);
    if relevant == {} {
      assert HitRanks(top, relevant) == {};
    } else {
      QuotientBack(Recall(ranked, judgments, cutoff), Hits(top, relevant) as real, |relevant| as real);
    }
  }

  /** The relevant documents are those whose grade adds to a ranking's gain. */
  lemma {:induction false} RelevantMeans(judgments: seq<JudgedDoc>, id: string)
    requires IsDict(judgments)
    ensures id in RelevantIds(judgments) <==> Gain(GradeFor(judgments, id)) > 0.0
  {
    GradeForMeans(judgments, id);
    GainSign(GradeFor(judgments, id));
    if i :| 0 <= i < |judgments| && judgments[i].id == id {
      assert judgments[i] in judgments;
      forall j | j in judgments && j.id == id ensures j == judgments[i] {
        var k :| 0 <= k < |judgments| && judgments[k] == j;
      }
    }
  }

  lemma {:induction false} GradeForIs(judgments: seq<JudgedDoc>, i: nat)
    requires IsDict(judgments) && i < |judgments|
    ensures GradeFor(judgments, judgments[i].id) == judgments[i].grade
  {
    if i > 0 { GradeForIs(judgments[1..], i - 1); }
  }

  lemma {:induction false} GradeForNonNegative(judgments: seq<JudgedDoc>, id: string)
    requires NonNegative(judgments)
    ensures GradeFor(judgments, id) >= 0
  {
    if judgments != [] { GradeForNonNegative(judgments[1..], id); }
  }
}
