/** `retrieval_metrics` and `constant_topk_baseline` of scripts/bench_context_retrieval.py. */
module ConstantBaseline {
  import opened Prelude
  import opened Sorting

  /** The gold paths of one task, in the order of the fixture. */
  type Task = seq<string>

  // ----- metrics of one answer -----

  datatype Metrics = Metrics(selected: nat, matched: nat, recall: real, precision: real, reciprocalRank: real)

  /** `dict.fromkeys`: first occurrences in order. */
  function Unique(paths: seq<string>): (r: seq<string>)
    ensures NoRepeats(r) && forall p :: p in r <==> p in paths
  {
    if paths == [] then []
    else
      var n := |paths| - 1;
      var r := Unique(paths[..n]);
      assert paths == paths[..n] + [paths[n]];
      if paths[n] in r then r else r + [paths[n]]
  }

  function FirstRank(paths: seq<string>, expected: set<string>): (r: nat)
    ensures r <= |paths|
    ensures r == 0 <==> forall p :: p in paths ==> p !in expected
    ensures r > 0 ==> paths[r - 1] in expected && forall i :: 0 <= i < r - 1 ==> paths[i] !in expected
  {
    if paths == [] then 0
    else if paths[0] in expected then 1
    else
      var rest := FirstRank(paths[1..], expected);
      assert paths == [paths[0]] + paths[1..];
      assert forall i :: 0 < i < |paths| ==> paths[i] == paths[1..][i - 1];
      if rest == 0 then 0 else rest + 1
  }

  /** `None` where the division by the number of expected paths raises. */
  function RetrievalMetrics(paths: seq<string>, expectedPaths: Task): Option<Metrics> {
    var unique, expected := Unique(paths), Elements(expectedPaths);
    var matched, rank := |expected * Elements(unique)|, FirstRank(unique, expected);
    if |expected| == 0 then None
    else
      Some(Metrics(|unique|, matched, matched as real / |expected| as real,
                   if |unique| > 0 then matched as real / |unique| as real else 0.0,
                   if rank > 0 then 1.0 / rank as real else 0.0))
  }

  lemma {:induction false} Fraction(part: nat, whole: nat)
    requires 0 < whole && part <= whole
    ensures 0.0 <= part as real / whole as real <= 1.0
    ensures part as real / whole as real == 1.0 <==> part == whole
    ensures part as real / whole as real == 0.0 <==> part == 0
  {
    QuotientBetween(part as real / whole as real, part as real, whole as real);
  }

  lemma {:induction false} QuotientBetween(q: real, a: real, b: real)
    requires b > 0.0 && q == a / b && 0.0 <= a <= b
    ensures 0.0 <= q <= 1.0 && (q == 1.0 <==> a == b) && (q == 0.0 <==> a == 0.0)
  {
    assert a == q * b;
    if q < 0.0 { PositiveProduct(-q, b); }
    if q > 1.0 { PositiveProduct(q - 1.0, b); }
    if 0.0 < q { PositiveProduct(q, b); }
    if q < 1.0 { PositiveProduct(1.0 - q, b); }
  }

  lemma {:induction false} PositiveProduct(a: real, b: real)
    requires a > 0.0 && b > 0.0
    ensures a * b > 0.0
  {
  }

  lemma {:induction false} Shared(a: set<string>, b: set<string>)
    ensures |a * b| <= |a| && |a * b| <= |b|
    ensures |a * b| == |a| <==> a <= b
    ensures |a * b| == |b| <==> b <= a
    ensures |a * b| == 0 <==> a !! b
  {
    assert a !! b <==> a * b == {} by {
      if a * b == {} {
        forall x | x in a ensures x !in b { assert x !in a * b; }
      }
    }
    SubsetSize(a * b, a);
    SubsetSize(a * b, b);
    assert a <= b ==> a * b == a;
    assert b <= a ==> a * b == b;
  }

  lemma {:induction false} UniqueSize(paths: seq<string>)
    ensures |Elements(Unique(paths))| == |Unique(paths)| && Elements(Unique(paths)) == Elements(paths)
  {
    ElementsSize(Unique(paths));
    assert Elements(Unique(paths)) == Elements(paths);
  }

  lemma {:induction false} MetricsSizes(paths: seq<string>, expectedPaths: Task)
    requires expectedPaths != []
    ensures var m, given, expected := RetrievalMetrics(paths, expectedPaths), Elements(paths), Elements(expectedPaths);
            && |expected| > 0 && m.Some? && m.value.selected == |given| && m.value.matched == |expected * given|
            && m.value.recall == m.value.matched as real / |expected| as real
            && m.value.precision == if |given| > 0 then m.value.matched as real / |given| as real else 0.0
  {
    assert expectedPaths[0] in Elements(expectedPaths);
    UniqueSize(paths);
  }

  /** The metrics as numbers of different paths: given, found, and found of those expected or given. */
  lemma {:induction false} MetricsCount(paths: seq<string>, expectedPaths: Task, m: Metrics, given: set<string>,
                                        expected: set<string>)
    requires expectedPaths != [] && given == Elements(paths) && expected == Elements(expectedPaths)
    requires RetrievalMetrics(paths, expectedPaths) == Some(m)
    ensures m.selected == |given| && m.matched == |expected * given|
    ensures Times(m.recall, |expected| as real) == m.matched as real
    ensures Times(m.precision, |given| as real) == m.matched as real
  {
    MetricsSizes(paths, expectedPaths);
    Shared(expected, given);
    QuotientBack(m.recall, m.matched as real, |expected| as real);
    if |given| > 0 { QuotientBack(m.precision, m.matched as real, |given| as real); }
  }

  /** Full recall is finding every expected path, no recall finding none. */
  lemma {:induction false} RecallMeans(paths: seq<string>, expectedPaths: Task)
    requires expectedPaths != []
    ensures var m, given, expected := RetrievalMetrics(paths, expectedPaths), Elements(paths), Elements(expectedPaths);
            && m.Some? && 0.0 <= m.value.recall <= 1.0
            && (m.value.recall == 1.0 <==> expected <= given)
            && (m.value.recall == 0.0 <==> expected !! given)
  {
    var given, expected := Elements(paths), Elements(expectedPaths);
    assert expectedPaths[0] in expected;
    UniqueSize(paths);
    Shared(expected, given);
    Fraction(|expected * given|, |expected|);
  }

  lemma {:induction false} UniqueNext(paths: seq<string>, x: string)
    ensures Unique(paths + [x]) == if x in paths then Unique(paths) else Unique(paths) + [x]
  {
    assert (paths + [x])[..|paths|] == paths;
  }

  /** The distinct paths come in the order of their first occurrences. */
  lemma {:induction false} UniqueOfPrefix(paths: seq<string>, i: nat)
    requires i <= |paths|
    ensures Unique(paths[..i]) <= Unique(paths)
  {
    if i < |paths| {
      var n := |paths| - 1;
      UniqueOfPrefix(paths[..n], i);
      assert paths[..n][..i] == paths[..i] && paths == paths[..n] + [paths[n]];
      UniqueNext(paths[..n], paths[n]);
    } else {
      assert paths[..i] == paths;
    }
  }

  lemma {:induction false} FirstRankIs(paths: seq<string>, before: seq<string>, x: string, expected: set<string>)
    requires before + [x] <= paths && x in expected
    requires forall p :: p in before ==> p !in expected
    ensures FirstRank(paths, expected) == |before| + 1
  {
    assert paths[|before|] == x;
    assert forall j :: 0 <= j < |before| ==> paths[j] == before[j];
  }

  lemma {:induction false} FirstRankOfUnique(paths: seq<string>, expected: set<string>, i: nat)
    requires i < |paths| && paths[i] in expected
    requires forall j :: 0 <= j < i ==> paths[j] !in expected
    ensures FirstRank(Unique(paths), expected) == |Unique(paths[..i + 1])|
  {
    UniqueOfPrefix(paths, i + 1);
    UniqueNext(paths[..i], paths[i]);
    assert paths[..i + 1] == paths[..i] + [paths[i]];
    FirstRankIs(Unique(paths), Unique(paths[..i]), paths[i], expected);
  }

  /** The reciprocal rank counts the distinct paths up to the first expected one. */
  lemma {:induction false} ReciprocalRankMeans(paths: seq<string>, expectedPaths: Task, i: nat)
    requires i < |paths| && paths[i] in expectedPaths
    requires forall j :: 0 <= j < i ==> paths[j] !in expectedPaths
    ensures var m := RetrievalMetrics(paths, expectedPaths);
            m.Some? && Times(m.value.reciprocalRank, |Elements(paths[..i + 1])| as real) == 1.0
  {
    var expected, rank := Elements(expectedPaths), |Elements(paths[..i + 1])|;
    assert paths[i] in expected && paths[i] in Elements(paths[..i + 1]);
    FirstRankOfUnique(paths, expected, i);
    UniqueSize(paths[..i + 1]);
    QuotientBack(1.0 / rank as real, 1.0, rank as real);
  }

  lemma {:induction false} NoReciprocalRank(paths: seq<string>, expectedPaths: Task)
    requires expectedPaths != []
    ensures var m := RetrievalMetrics(paths, expectedPaths);
            m.Some? && (m.value.reciprocalRank == 0.0 <==> Elements(expectedPaths) !! Elements(paths))
  {
    assert expectedPaths[0] in Elements(expectedPaths);
    UniqueSize(paths);
    RankMeans(Unique(paths), Elements(expectedPaths));
  }

  /** Full precision is giving an answer and nothing outside the expected paths. */
  lemma {:induction false} PrecisionMeans(paths: seq<string>, expectedPaths: Task)
    requires expectedPaths != []
    ensures var m, given, expected := RetrievalMetrics(paths, expectedPaths), Elements(paths), Elements(expectedPaths);
            && m.Some? && 0.0 <= m.value.precision <= 1.0
            && (m.value.precision == 1.0 <==> paths != [] && given <= expected)
            && (m.value.precision == 0.0 <==> expected !! given)
  {
    var given, expected := Elements(paths), Elements(expectedPaths);
    assert expectedPaths[0] in expected;
    UniqueSize(paths);
    Shared(expected, given);
    if paths != [] {
      assert paths[0] in given;
      Fraction(|expected * given|, |given|);
    }
  }

  lemma {:induction false} RankMeans(unique: seq<string>, expected: set<string>)
    ensures FirstRank(unique, expected) == 0 <==> expected !! Elements(unique)
    ensures FirstRank(unique, expected) > 0 ==> 1.0 / FirstRank(unique, expected) as real > 0.0
  {
  }

  /** Repeating a path changes no score. */
  lemma {:induction false} RepeatsIgnored(paths: seq<string>, expectedPaths: Task)
    ensures RetrievalMetrics(paths, expectedPaths) == RetrievalMetrics(Unique(paths), expectedPaths)
  {
    UniqueAgain(Unique(paths));
  }

  lemma {:induction false} UniqueAgain(s: seq<string>)
    requires NoRepeats(s)
    ensures Unique(s) == s
  {
    if s != [] {
      UniqueAgain(s[..|s| - 1]);
      assert s == s[..|s| - 1] + [s[|s| - 1]];
    }
  }

  // ----- counting gold paths -----

  /** The gold paths of all tasks, one behind another. */
  function AllPaths(tasks: seq<Task>): seq<string> { if tasks == [] then [] else tasks[0] + AllPaths(tasks[1..]) }

  function Occurrences(tasks: seq<Task>, path: string): nat { multiset(AllPaths(tasks))[path] }

  function Gold(tasks: seq<Task>): set<string> { Elements(AllPaths(tasks)) }

  datatype Counted = Counted(path: string, count: nat)

  /** The order of the baseline: most frequent first, then by path. */
  predicate Before(a: Counted, b: Counted) { a.count > b.count || (a.count == b.count && StringLess(a.path, b.path)) }

  lemma {:induction false} BeforeOrder()
    ensures WeakOrder(Before) && forall a, b :: a == b || Before(a, b) || Before(b, a)
  {
    StringOrder();
  }

  /** A `Counter`: its keys in the order first seen, and their counts. */
  datatype Counter = Counter(keys: seq<string>, counts: map<string, nat>)

  ghost predicate Counts(c: Counter, all: multiset<string>) {
    && NoRepeats(c.keys) && Elements(c.keys) == c.counts.Keys
    && (forall p :: p in c.counts <==> p in all) && (forall p :: p in c.counts ==> c.counts[p] == all[p])
  }

  function CountOne(c: Counter, path: string): Counter {
    if path in c.counts then c.(counts := c.counts[path := c.counts[path] + 1])
    else Counter(c.keys + [path], c.counts[path := 1])
  }

  lemma {:induction false} CountOneMore(c: Counter, path: string, all: multiset<string>)
    requires Counts(c, all)
    ensures Counts(CountOne(c, path), all + multiset{path})
  {
    if path !in c.counts {
      assert path !in Elements(c.keys);
      assert Elements(c.keys + [path]) == Elements(c.keys) + {path};
    }
  }

  method CountPaths(paths: seq<string>) returns (c: Counter)
    ensures Counts(c, multiset(paths))
  {
    c := Counter([], map[]);
    for i := 0 to |paths|
      invariant Counts(c, multiset(paths[..i]))
    {
      CountOneMore(c, paths[i], multiset(paths[..i]));
      assert paths[..i + 1] == paths[..i] + [paths[i]];
      c := CountOne(c, paths[i]);
    }
    assert paths[..|paths|] == paths;
  }

  // ----- the baseline -----

  datatype Error = KBelowOne | NoTasks | NoExpectedPaths

  datatype Baseline = Baseline(k: nat, paths: seq<string>, rows: seq<Metrics>)

  /** `paths` are the `k` most frequent gold paths: the others come later in the order. */
  ghost predicate IsTopK(tasks: seq<Task>, k: nat, paths: seq<string>) {
    && NoRepeats(paths) && Elements(paths) <= Gold(tasks)
    && |paths| == (if |Gold(tasks)| < k then |Gold(tasks)| else k)
    && (forall i, j :: 0 <= i < j < |paths| ==> Before(Ranked(tasks, paths[i]), Ranked(tasks, paths[j])))
    && (forall p, q :: p in paths && q in Gold(tasks) && q !in paths ==> Before(Ranked(tasks, p), Ranked(tasks, q)))
  }

  function Ranked(tasks: seq<Task>, path: string): Counted { Counted(path, Occurrences(tasks, path)) }

  /** `p` comes before `q` in the selection: it occurs more often among the gold paths, or as often and is smaller. */
  predicate Precedes(tasks: seq<Task>, p: string, q: string) {
    || Occurrences(tasks, p) > Occurrences(tasks, q)
    || (Occurrences(tasks, p) == Occurrences(tasks, q) && StringLess(p, q))
  }

  ghost predicate MostFrequent(tasks: seq<Task>, paths: seq<string>) {
    && (forall i, j :: 0 <= i < j < |paths| ==> Precedes(tasks, paths[i], paths[j]))
    && (forall p, q :: p in paths && q in Gold(tasks) && q !in paths ==> Precedes(tasks, p, q))
  }

  lemma {:induction false} TopIsMostFrequent(tasks: seq<Task>, k: nat, paths: seq<string>)
    requires IsTopK(tasks, k, paths)
    ensures MostFrequent(tasks, paths)
  {
  }

  function Items(c: Counter): seq<Counted>
    requires forall p :: p in c.keys ==> p in c.counts
  {
    seq(|c.keys|, i requires 0 <= i < |c.keys| => Counted(c.keys[i], c.counts[c.keys[i]]))
  }

  function Paths(items: seq<Counted>): seq<string> { seq(|items|, i requires 0 <= i < |items| => items[i].path) }

  /** The sorted items: every gold path once, with its count. */
  ghost predicate IsRanking(tasks: seq<Task>, items: seq<Counted>) {
    && Sorted(Before, items) && NoRepeats(items) && |items| == |Gold(tasks)|
    && (forall i :: 0 <= i < |items| ==> items[i] == Ranked(tasks, items[i].path) && items[i].path in Gold(tasks))
    && (forall p :: p in Gold(tasks) ==> Ranked(tasks, p) in items)
  }

  lemma {:induction false} KeysAreGold(tasks: seq<Task>, c: Counter)
    requires Counts(c, multiset(AllPaths(tasks)))
    ensures forall p :: p in c.keys <==> p in Gold(tasks)
    ensures forall p :: p in c.keys ==> p in c.counts && c.counts[p] == Occurrences(tasks, p)
    ensures |c.keys| == |Gold(tasks)|
  {
    var all := AllPaths(tasks);
    assert forall p :: p in all <==> p in multiset(all);
    assert forall p :: p in c.keys <==> p in Elements(c.keys);
    assert Elements(c.keys) == Gold(tasks);
    ElementsSize(c.keys);
  }

  lemma {:induction false} ItemsOfCounter(tasks: seq<Task>, c: Counter)
    requires Counts(c, multiset(AllPaths(tasks)))
    ensures forall p :: p in c.keys ==> p in c.counts
    ensures var items := Items(c);
            && NoRepeats(items) && |items| == |Gold(tasks)|
            && (forall x :: x in items ==> x == Ranked(tasks, x.path) && x.path in Gold(tasks))
            && (forall p :: p in Gold(tasks) ==> Ranked(tasks, p) in items)
  {
    KeysAreGold(tasks, c);
    var items := Items(c);
    forall i | 0 <= i < |items|
      ensures items[i] == Ranked(tasks, c.keys[i]) && c.keys[i] in Gold(tasks)
    {
      assert c.keys[i] in c.keys;
    }
    forall p | p in Gold(tasks)
      ensures Ranked(tasks, p) in items
    {
      var i :| 0 <= i < |c.keys| && c.keys[i] == p;
      assert items[i] == Ranked(tasks, p);
    }
  }

  lemma {:induction false} SortedRanking(tasks: seq<Task>, items: seq<Counted>, sorted: seq<Counted>)
    requires NoRepeats(items) && |items| == |Gold(tasks)|
    requires forall x :: x in items ==> x == Ranked(tasks, x.path) && x.path in Gold(tasks)
    requires forall p :: p in Gold(tasks) ==> Ranked(tasks, p) in items
    requires Sorted(Before, sorted) && multiset(sorted) == multiset(items) && |sorted| == |items|
    ensures IsRanking(tasks, sorted)
  {
    PermutationOnce(sorted, items);
    forall i | 0 <= i < |sorted|
      ensures sorted[i] == Ranked(tasks, sorted[i].path) && sorted[i].path in Gold(tasks)
    {
      assert sorted[i] in sorted;
    }
  }

  lemma {:induction false} InOrder(tasks: seq<Task>, items: seq<Counted>, i: nat, j: nat)
    requires IsRanking(tasks, items) && i < j < |items|
    ensures Before(items[i], items[j]) && items[i].path != items[j].path
  {
    BeforeOrder();
    assert items[i] != items[j] && !Before(items[j], items[i]);
    assert items[i] == Ranked(tasks, items[i].path) && items[j] == Ranked(tasks, items[j].path);
  }

  /** All gold paths, the most frequent first. */
  ghost predicate IsOrder(tasks: seq<Task>, paths: seq<string>) {
    && NoRepeats(paths) && Elements(paths) == Gold(tasks)
    && (forall i, j :: 0 <= i < j < |paths| ==> Before(Ranked(tasks, paths[i]), Ranked(tasks, paths[j])))
  }

  lemma {:induction false} RankingIsOrder(tasks: seq<Task>, items: seq<Counted>)
    requires IsRanking(tasks, items)
    ensures IsOrder(tasks, Paths(items))
  {
    var paths := Paths(items);
    forall i, j | 0 <= i < j < |paths|
      ensures paths[i] != paths[j] && Before(Ranked(tasks, paths[i]), Ranked(tasks, paths[j]))
    {
      InOrder(tasks, items, i, j);
    }
    forall p | p in Gold(tasks) ensures p in paths {
      var i :| 0 <= i < |items| && items[i] == Ranked(tasks, p);
      assert paths[i] == p;
    }
    assert Elements(paths) == Gold(tasks);
  }

  lemma {:induction false} TopOfOrder(tasks: seq<Task>, paths: seq<string>, k: nat)
    requires IsOrder(tasks, paths)
    ensures IsTopK(tasks, k, if k < |paths| then paths[..k] else paths)
  {
    ElementsSize(paths);
    var top := if k < |paths| then paths[..k] else paths;
    assert forall l :: 0 <= l < |top| ==> paths[l] == top[l] && top[l] in top;
    forall p, q | p in top && q in Gold(tasks) && q !in top
      ensures Before(Ranked(tasks, p), Ranked(tasks, q))
    {
      TopBefore(tasks, paths, |top|, p, q);
    }
  }

  lemma {:induction false} TopBefore(tasks: seq<Task>, paths: seq<string>, n: nat, p: string, q: string)
    requires IsOrder(tasks, paths) && n <= |paths|
    requires p in paths[..n] && q in Gold(tasks) && q !in paths[..n]
    ensures Before(Ranked(tasks, p), Ranked(tasks, q))
  {
    var i :| 0 <= i < n && paths[i] == p;
    assert q in paths;
    var j :| 0 <= j < |paths| && paths[j] == q;
  }

  /** The row of each task, up to a task without gold paths. */
  function Rows(paths: seq<string>, tasks: seq<Task>): Option<seq<Metrics>> {
    if tasks == [] then Some([])
    else match (RetrievalMetrics(paths, tasks[0]), Rows(paths, tasks[1..]))
      case (Some(m), Some(rest)) => Some([m] + rest)
      case _ => None
  }

  method ConstantTopK(tasks: seq<Task>, k: int) returns (r: Result<Baseline, Error>)
    ensures r.Ok? <==> k >= 1 && tasks != [] && forall i :: 0 <= i < |tasks| ==> tasks[i] != []
    ensures k < 1 ==> r == Err(KBelowOne)
    ensures k >= 1 && tasks == [] ==> r == Err(NoTasks)
    ensures k >= 1 && (exists i :: 0 <= i < |tasks| && tasks[i] == []) ==> r == Err(NoExpectedPaths)
    ensures r.Ok? ==>
              && r.value.k == k && IsTopK(tasks, k, r.value.paths) && MostFrequent(tasks, r.value.paths)
              && Rows(r.value.paths, tasks) == Some(r.value.rows)
  {
    if k < 1 {
      return Err(KBelowOne);
    }
    var counts := CountPaths(AllPaths(tasks));
    ItemsOfCounter(tasks, counts);
    BeforeOrder();
    var sorted := Sort(Before, Items(counts));
    SortedRanking(tasks, Items(counts), sorted);
    RankingIsOrder(tasks, sorted);
    var order := Paths(sorted);
    TopOfOrder(tasks, order, k);
    var selected := if k < |order| then order[..k] else order;
    TopIsMostFrequent(tasks, k, selected);
    var rows := Rows(selected, tasks);
    RowsExist(selected, tasks);
    if rows == None {
      return Err(NoExpectedPaths);
    }
    if tasks == [] {
      return Err(NoTasks);
    }
    r := Ok(Baseline(k, selected, rows.value));
  }

  lemma {:induction false} RowsRest(paths: seq<string>, tasks: seq<Task>)
    requires Rows(paths, tasks).Some? && tasks != []
    ensures Rows(paths, tasks[1..]).Some? && RetrievalMetrics(paths, tasks[0]).Some?
    ensures Rows(paths, tasks).value == [RetrievalMetrics(paths, tasks[0]).value] + Rows(paths, tasks[1..]).value
  {
  }

  /** Each task's row is its metrics for the constant answer. */
  lemma {:induction false} RowsAt(paths: seq<string>, tasks: seq<Task>, i: nat)
    requires Rows(paths, tasks).Some? && i < |tasks|
    ensures |Rows(paths, tasks).value| == |tasks|
    ensures RetrievalMetrics(paths, tasks[i]) == Some(Rows(paths, tasks).value[i])
    decreases i
  {
    RowsExist(paths, tasks);
    RowsRest(paths, tasks);
    if i > 0 { RowsAt(paths, tasks[1..], i - 1); }
  }

  lemma {:induction false} RowExists(paths: seq<string>, task: Task)
    ensures RetrievalMetrics(paths, task).Some? <==> task != []
  {
    if task != [] { assert task[0] in Elements(task); } else { assert Elements(task) == {}; }
  }

  lemma {:induction false} RowsExist(paths: seq<string>, tasks: seq<Task>)
    ensures Rows(paths, tasks).Some? <==> forall i :: 0 <= i < |tasks| ==> tasks[i] != []
    ensures Rows(paths, tasks).Some? ==> |Rows(paths, tasks).value| == |tasks|
  {
    if tasks != [] {
      RowExists(paths, tasks[0]);
      RowsExist(paths, tasks[1..]);
      TailNonEmpty(tasks);
    }
  }

  lemma {:induction false} TailNonEmpty(tasks: seq<Task>)
    requires tasks != []
    ensures (forall i :: 0 <= i < |tasks| ==> tasks[i] != []) <==>
            tasks[0] != [] && forall i :: 0 <= i < |tasks| - 1 ==> tasks[1..][i] != []
  {
    assert forall i :: 0 < i < |tasks| ==> tasks[i] == tasks[1..][i - 1];
  }

  // ----- no constant answer matches more -----

  /** Gold files matched by a constant answer, summed over all tasks. */
  ghost function Matched(tasks: seq<Task>, answer: set<string>): nat {
    if tasks == [] then 0 else |Elements(tasks[0]) * answer| + Matched(tasks[1..], answer)
  }

  ghost predicate DistinctGold(tasks: seq<Task>) { forall i :: 0 <= i < |tasks| ==> NoRepeats(tasks[i]) }

  /** How many tasks a path is gold for. */
  function Containing(tasks: seq<Task>, path: string): nat {
    if tasks == [] then 0
    else (if path in Elements(tasks[0]) then 1 else 0) + Containing(tasks[1..], path)
  }

  ghost function ContainingReal(tasks: seq<Task>): string -> real { p => Containing(tasks, p) as real }

  /** What a path adds where it is gold. */
  ghost function Share<T>(t: set<T>, c: real): T -> real { x => if x in t then c else 0.0 }

  /** So many equal shares. */
  function Portion(n: nat, c: real): real { n as real * c }

  lemma {:induction false} SharedWithout<T>(s: set<T>, t: set<T>, x: T)
    requires x in s
    ensures |t * s| == |t * (s - {x})| + (if x in t then 1 else 0)
  {
    assert if x in t then t * s == t * (s - {x}) + {x} else t * s == t * (s - {x});
  }

  lemma {:induction false} SumShare<T(!new)>(s: set<T>, t: set<T>, c: real)
    ensures SumReal(s, Share(t, c)) == Portion(|t * s|, c)
    decreases s
  {
    if s == {} {
      assert t * s == {} && Portion(0, c) == 0.0;
    } else {
      var x := PickOne(s);
      SumShare(s - {x}, t, c);
      SharedWithout(s, t, x);
      OneMore(|t * (s - {x})|, c);
    }
  }

  lemma {:induction false} OneMore(n: nat, c: real)
    ensures Portion(n + 1, c) == c + Portion(n, c)
  {
  }

  lemma {:induction false} MatchedIsSum(tasks: seq<Task>, answer: set<string>)
    ensures Matched(tasks, answer) as real == SumReal(answer, ContainingReal(tasks))
  {
    if tasks == [] {
      SumRealZero(answer, ContainingReal(tasks));
    } else {
      MatchedIsSum(tasks[1..], answer);
      SumShare(answer, Elements(tasks[0]), 1.0);
      SumRealAdd(answer, Share(Elements(tasks[0]), 1.0), ContainingReal(tasks[1..]), ContainingReal(tasks));
    }
  }

  lemma {:induction false} OccurrencesAreTasks(tasks: seq<Task>, p: string)
    requires DistinctGold(tasks)
    ensures Occurrences(tasks, p) == Containing(tasks, p)
  {
    if tasks != [] {
      assert forall i :: 0 <= i < |tasks| - 1 ==> tasks[1..][i] == tasks[i + 1];
      OccurrencesAreTasks(tasks[1..], p);
      OnceInMultiset(tasks[0]);
      assert p in tasks[0] <==> p in multiset(tasks[0]);
      assert multiset(tasks[0] + AllPaths(tasks[1..])) == multiset(tasks[0]) + multiset(AllPaths(tasks[1..]));
    }
  }

  lemma {:induction false} NotGoldIsNowhere(tasks: seq<Task>, p: string)
    requires p !in Gold(tasks)
    ensures Containing(tasks, p) == 0
    ensures tasks != [] ==> p !in Elements(tasks[0]) && p !in Gold(tasks[1..])
  {
    if tasks != [] {
      assert AllPaths(tasks) == tasks[0] + AllPaths(tasks[1..]);
      NotGoldIsNowhere(tasks[1..], p);
    }
  }

  // ----- choosing the heaviest -----

  /** No set of at most `k` elements weighs more. */
  ghost predicate Heaviest<T(!new)>(k: nat, best: set<T>, w: T -> real) {
    forall a: set<T> :: |a| <= k ==> SumReal(a, w) <= SumReal(best, w)
  }

  ghost predicate NoneHeavierOutside<T>(all: set<T>, best: set<T>, w: T -> real) {
    forall p, q :: p in best && q in all - best ==> w(q) <= w(p)
  }

  /** Exchange: swapping elements for no lesser ones of another set lowers no sum. */
  lemma {:induction false} Exchange<T(!new)>(a: set<T>, b: set<T>, w: T -> real)
    requires |a| <= |b| && forall x, y :: x in a && y in b ==> w(x) <= w(y)
    requires forall x :: w(x) >= 0.0
    ensures SumReal(a, w) <= SumReal(b, w)
    decreases a
  {
    if a != {} {
      var x, y := PickOne(a), PickOne(b);
      Exchange(a - {x}, b - {y}, w);
    } else {
      SumRealNonNegative(b, w);
    }
  }

  lemma {:induction false} Rest<T>(a: set<T>, b: set<T>)
    requires |a| <= |b|
    ensures |a - b| <= |b - a|
  {
    assert a == a * b + (a - b) && b == a * b + (b - a);
  }

  lemma {:induction false} HeaviestSuffices<T(!new)>(all: set<T>, k: nat, best: set<T>, w: T -> real, a: set<T>)
    requires best <= all && |best| == (if |all| < k then |all| else k) && |a| <= k
    requires (forall x :: w(x) >= 0.0) && (forall x :: x !in all ==> w(x) == 0.0)
    requires NoneHeavierOutside(all, best, w)
    ensures SumReal(a, w) <= SumReal(best, w)
  {
    SumRealSplit(a, best, w);
    SumRealSplit(best, a, w);
    assert a * best == best * a;
    if |best| < k {
      SubsetSize(best, all);
      SumRealZero(a - best, w);
      SumRealNonNegative(best - a, w);
    } else {
      Rest(a, best);
      forall x, y | x in a - best && y in best - a ensures w(x) <= w(y) { assert x !in all ==> w(x) == 0.0; }
      Exchange(a - best, best - a, w);
    }
  }

  lemma {:induction false} SwapIn<T(!new)>(best: set<T>, p: T, q: T, w: T -> real)
    requires p in best && q !in best
    ensures |best - {p} + {q}| == |best|
    ensures SumReal(best - {p} + {q}, w) == SumReal(best, w) - w(p) + w(q)
  {
    SumRealRemove(best, p, w);
    SumRealRemove(best - {p} + {q}, q, w);
    assert best - {p} + {q} - {q} == best - {p};
  }

  /** As many elements as allowed weigh the most exactly if none left out weighs more than one of them. */
  lemma {:induction false} HeaviestIff<T(!new)>(all: set<T>, k: nat, best: set<T>, w: T -> real)
    requires best <= all && |best| == (if |all| < k then |all| else k)
    requires (forall x :: w(x) >= 0.0) && (forall x :: x !in all ==> w(x) == 0.0)
    ensures Heaviest(k, best, w) <==> NoneHeavierOutside(all, best, w)
  {
    if NoneHeavierOutside(all, best, w) {
      forall a: set<T> | |a| <= k ensures SumReal(a, w) <= SumReal(best, w) { HeaviestSuffices(all, k, best, w, a); }
    } else {
      var p, q :| p in best && q in all - best && w(q) > w(p);
      SwapIn(best, p, q, w);
    }
  }

  // ----- the baseline against every other answer -----

  /** No answer of at most `k` paths matches more gold files over all tasks. */
  ghost predicate MatchesMost(tasks: seq<Task>, k: nat, paths: seq<string>) {
    forall answer: set<string> :: |answer| <= k ==> Matched(tasks, answer) <= Matched(tasks, Elements(paths))
  }

  lemma {:induction false} TopKSize(tasks: seq<Task>, k: nat, paths: seq<string>)
    requires IsTopK(tasks, k, paths)
    ensures |Elements(paths)| == if |Gold(tasks)| < k then |Gold(tasks)| else k
  {
    ElementsSize(paths);
  }

  /** How many gold paths come before one in the order of the baseline. */
  ghost function Rank(tasks: seq<Task>, path: string): nat { |Ahead(tasks, path)| }

  ghost function Ahead(tasks: seq<Task>, path: string): set<string> {
    set q | q in Gold(tasks) && Before(Ranked(tasks, q), Ranked(tasks, path))
  }

  lemma {:induction false} AheadOfTop(tasks: seq<Task>, k: nat, paths: seq<string>, p: string, q: string)
    requires IsTopK(tasks, k, paths) && p in paths && q in Ahead(tasks, p)
    ensures q in paths && q != p
  {
    StringLessIrreflexive(p);
    if StringLess(p, q) && StringLess(q, p) { StringLessTransitive(p, q, p); }
    assert !(Before(Ranked(tasks, p), Ranked(tasks, q)) && Before(Ranked(tasks, q), Ranked(tasks, p)));
  }

  /** The baseline takes the gold paths of rank below `k`. */
  lemma {:induction false} TopIsRank(tasks: seq<Task>, k: nat, paths: seq<string>, p: string)
    requires IsTopK(tasks, k, paths) && p in Gold(tasks)
    ensures p in paths <==> Rank(tasks, p) < k
  {
    BeforeOrder();
    TopKSize(tasks, k, paths);
    var top, ahead := Elements(paths), Ahead(tasks, p);
    if p in paths {
      forall q | q in ahead ensures q in top - {p} { AheadOfTop(tasks, k, paths, p, q); }
      SubsetSize(ahead, top - {p});
    } else {
      SubsetSize(top + {p}, Gold(tasks));
      assert top <= ahead;
      SubsetSize(top, ahead);
    }
  }

  /** No gold path of rank `k` or more is gold for more tasks than one of rank below `k`. */
  ghost predicate NoneInMoreTasks(tasks: seq<Task>, k: nat) {
    forall p, q :: p in Gold(tasks) && q in Gold(tasks) && Rank(tasks, p) < k <= Rank(tasks, q) ==>
                     Containing(tasks, q) <= Containing(tasks, p)
  }

  lemma {:induction false} MatchesMostIsHeaviest(tasks: seq<Task>, k: nat, paths: seq<string>)
    ensures MatchesMost(tasks, k, paths) <==> Heaviest(k, Elements(paths), ContainingReal(tasks))
  {
    MatchedIsSum(tasks, Elements(paths));
    forall answer: set<string>
      ensures Matched(tasks, answer) as real == SumReal(answer, ContainingReal(tasks))
    {
      MatchedIsSum(tasks, answer);
    }
  }

  lemma {:induction false} HeaviestPathsIff(tasks: seq<Task>, k: nat, paths: seq<string>, w: string -> real)
    requires IsTopK(tasks, k, paths)
    requires (forall p :: w(p) >= 0.0) && (forall p :: p !in Gold(tasks) ==> w(p) == 0.0)
    ensures Heaviest(k, Elements(paths), w) <==>
            forall p, q :: p in Gold(tasks) && q in Gold(tasks) && Rank(tasks, p) < k <= Rank(tasks, q) ==> w(q) <= w(p)
  {
    TopKSize(tasks, k, paths);
    HeaviestIff(Gold(tasks), k, Elements(paths), w);
    forall p | p in Gold(tasks) ensures p in Elements(paths) <==> Rank(tasks, p) < k { TopIsRank(tasks, k, paths, p); }
  }

  /** The baseline matches the most exactly if no gold path that ranks too low for it is gold for more
      tasks than one that ranks high enough. */
  lemma {:induction false} MatchesMostIff(tasks: seq<Task>, k: nat, paths: seq<string>)
    requires IsTopK(tasks, k, paths)
    ensures MatchesMost(tasks, k, paths) <==> NoneInMoreTasks(tasks, k)
  {
    var w := ContainingReal(tasks);
    forall p | p !in Gold(tasks) ensures w(p) == 0.0 { NotGoldIsNowhere(tasks, p); }
    HeaviestPathsIff(tasks, k, paths, w);
    MatchesMostIsHeaviest(tasks, k, paths);
    assert forall p :: w(p) == Containing(tasks, p) as real;
  }

  lemma {:induction false} RankOrders(tasks: seq<Task>, p: string, q: string)
    requires p in Gold(tasks) && q in Gold(tasks) && Rank(tasks, p) < Rank(tasks, q)
    ensures Before(Ranked(tasks, p), Ranked(tasks, q))
  {
    BeforeOrder();
    if !Before(Ranked(tasks, p), Ranked(tasks, q)) {
      assert Ahead(tasks, q) <= Ahead(tasks, p);
      SubsetSize(Ahead(tasks, q), Ahead(tasks, p));
    }
  }

  lemma {:induction false} NoneMoreFrequent(tasks: seq<Task>, k: nat)
    requires DistinctGold(tasks)
    ensures NoneInMoreTasks(tasks, k)
  {
    forall p, q | p in Gold(tasks) && q in Gold(tasks) && Rank(tasks, p) < k <= Rank(tasks, q)
      ensures Containing(tasks, q) <= Containing(tasks, p)
    {
      RankOrders(tasks, p, q);
      OccurrencesAreTasks(tasks, p);
      OccurrencesAreTasks(tasks, q);
    }
  }

  /** When no task repeats a gold path, the constant answer is the best of its size. */
  lemma {:induction false} BaselineIsBest(tasks: seq<Task>, k: nat, paths: seq<string>)
    requires DistinctGold(tasks) && IsTopK(tasks, k, paths)
    ensures MatchesMost(tasks, k, paths)
  {
    NoneMoreFrequent(tasks, k);
    MatchesMostIff(tasks, k, paths);
  }

  /** Every task is answered in full exactly if there are at most `k` different gold paths. */
  lemma {:induction false} FullRecallIff(tasks: seq<Task>, k: nat, paths: seq<string>)
    requires IsTopK(tasks, k, paths)
    ensures |Gold(tasks)| <= k <==> forall i :: 0 <= i < |tasks| ==> Elements(tasks[i]) <= Elements(paths)
  {
    ElementsSize(paths);
    SubsetSize(Elements(paths), Gold(tasks));
    GoldIsUnion(tasks, Elements(paths));
    if Gold(tasks) <= Elements(paths) { SubsetSize(Gold(tasks), Elements(paths)); }
  }

  lemma {:induction false} GoldIsUnion(tasks: seq<Task>, s: set<string>)
    ensures Gold(tasks) <= s <==> forall i :: 0 <= i < |tasks| ==> Elements(tasks[i]) <= s
  {
    if tasks != [] {
      GoldIsUnion(tasks[1..], s);
      assert Gold(tasks) == Elements(tasks[0]) + Gold(tasks[1..]);
      assert forall i :: 0 < i < |tasks| ==> tasks[i] == tasks[1..][i - 1];
    }
  }

  // ----- mean recall -----

  ghost predicate NonEmpty(tasks: seq<Task>) { forall i :: 0 <= i < |tasks| ==> tasks[i] != [] }

  ghost function TotalRecall(tasks: seq<Task>, answer: set<string>): real
    requires NonEmpty(tasks)
  {
    if tasks == [] then 0.0
    else
      assert tasks[0][0] in Elements(tasks[0]);
      |Elements(tasks[0]) * answer| as real / |Elements(tasks[0])| as real + TotalRecall(tasks[1..], answer)
  }

  function SumMatched(rows: seq<Metrics>): nat { if rows == [] then 0 else rows[0].matched + SumMatched(rows[1..]) }

  function SumRecall(rows: seq<Metrics>): real { if rows == [] then 0.0 else rows[0].recall + SumRecall(rows[1..]) }

  /** What the rows of an answer add up to. */
  lemma {:induction false} RowsAddUp(paths: seq<string>, tasks: seq<Task>)
    requires NonEmpty(tasks) && Rows(paths, tasks).Some?
    ensures SumMatched(Rows(paths, tasks).value) == Matched(tasks, Elements(paths))
    ensures SumRecall(Rows(paths, tasks).value) == TotalRecall(tasks, Elements(paths))
  {
    if tasks != [] {
      RowsAddUp(paths, tasks[1..]);
      UniqueSize(paths);
      var rows := Rows(paths, tasks).value;
      assert rows[1..] == Rows(paths, tasks[1..]).value;
    }
  }

  /** The share of one gold path in a task's recall. */
  ghost function OneOf(task: Task): real
    requires task != []
  {
    assert task[0] in Elements(task);
    1.0 / |Elements(task)| as real
  }

  /** What a path adds to the recall of all tasks it is gold for. */
  ghost function RecallWeight(tasks: seq<Task>, path: string): (w: real)
    requires NonEmpty(tasks)
    ensures w >= 0.0
  {
    if tasks == [] then 0.0
    else (if path in Elements(tasks[0]) then OneOf(tasks[0]) else 0.0) + RecallWeight(tasks[1..], path)
  }

  ghost function RecallWeights(tasks: seq<Task>): string -> real
    requires NonEmpty(tasks)
  {
    p => RecallWeight(tasks, p)
  }

  lemma {:induction false} PartOfTask(part: nat, whole: nat)
    requires whole > 0
    ensures part as real / whole as real == Portion(part, 1.0 / whole as real)
  {
  }

  lemma {:induction false} TaskRecallIsSum(task: Task, answer: set<string>)
    requires task != []
    ensures |Elements(task)| > 0
    ensures |Elements(task) * answer| as real / |Elements(task)| as real ==
            SumReal(answer, Share(Elements(task), OneOf(task)))
  {
    assert task[0] in Elements(task);
    PartOfTask(|Elements(task) * answer|, |Elements(task)|);
    SumShare(answer, Elements(task), OneOf(task));
  }

  lemma {:induction false} RecallIsSum(tasks: seq<Task>, answer: set<string>)
    requires NonEmpty(tasks)
    ensures TotalRecall(tasks, answer) == SumReal(answer, RecallWeights(tasks))
  {
    if tasks == [] {
      SumRealZero(answer, RecallWeights(tasks));
    } else {
      assert NonEmpty(tasks[1..]) by { assert forall i :: 0 <= i < |tasks| - 1 ==> tasks[1..][i] == tasks[i + 1]; }
      RecallIsSum(tasks[1..], answer);
      TaskRecallIsSum(tasks[0], answer);
      SumRealAdd(answer, Share(Elements(tasks[0]), OneOf(tasks[0])), RecallWeights(tasks[1..]), RecallWeights(tasks));
    }
  }

  lemma {:induction false} NotGoldIsWeightless(tasks: seq<Task>, p: string)
    requires NonEmpty(tasks) && p !in Gold(tasks)
    ensures RecallWeight(tasks, p) == 0.0
  {
    if tasks != [] {
      NotGoldIsNowhere(tasks, p);
      NotGoldIsWeightless(tasks[1..], p);
    }
  }

  /** No answer of at most `k` paths has a greater mean recall. */
  ghost predicate RecallsMost(tasks: seq<Task>, k: nat, paths: seq<string>)
    requires NonEmpty(tasks)
  {
    forall answer: set<string> :: |answer| <= k ==> TotalRecall(tasks, answer) <= TotalRecall(tasks, Elements(paths))
  }

  /** No gold path of rank `k` or more weighs more than one of rank below `k`, each task counting for
      its gold paths in equal shares. */
  ghost predicate NoneWeighsMore(tasks: seq<Task>, k: nat)
    requires NonEmpty(tasks)
  {
    forall p, q :: p in Gold(tasks) && q in Gold(tasks) && Rank(tasks, p) < k <= Rank(tasks, q) ==>
                     RecallWeight(tasks, q) <= RecallWeight(tasks, p)
  }

  lemma {:induction false} RecallsMostIsHeaviest(tasks: seq<Task>, k: nat, paths: seq<string>)
    requires NonEmpty(tasks)
    ensures RecallsMost(tasks, k, paths) <==> Heaviest(k, Elements(paths), RecallWeights(tasks))
  {
    RecallIsSum(tasks, Elements(paths));
    forall answer: set<string>
      ensures TotalRecall(tasks, answer) == SumReal(answer, RecallWeights(tasks))
    {
      RecallIsSum(tasks, answer);
    }
  }

  /** The baseline has the best mean recall exactly if no gold path that ranks too low for it weighs more
      than one that ranks high enough. */
  lemma {:induction false} BestMeanRecallIff(tasks: seq<Task>, k: nat, paths: seq<string>)
    requires NonEmpty(tasks) && IsTopK(tasks, k, paths)
    ensures RecallsMost(tasks, k, paths) <==> NoneWeighsMore(tasks, k)
  {
    var w := RecallWeights(tasks);
    forall p | p !in Gold(tasks) ensures w(p) == 0.0 { NotGoldIsWeightless(tasks, p); }
    HeaviestPathsIff(tasks, k, paths, w);
    RecallsMostIsHeaviest(tasks, k, paths);
    assert forall p :: w(p) == RecallWeight(tasks, p);
  }

  lemma {:induction false} UniformWeight(tasks: seq<Task>, n: nat, p: string)
    requires n > 0 && NonEmpty(tasks) && forall i :: 0 <= i < |tasks| ==> |Elements(tasks[i])| == n
    ensures RecallWeight(tasks, p) == Portion(Containing(tasks, p), 1.0 / n as real)
  {
    if tasks != [] {
      assert forall i :: 0 <= i < |tasks| - 1 ==> tasks[1..][i] == tasks[i + 1];
      UniformWeight(tasks[1..], n, p);
      OneMore(Containing(tasks[1..], p), 1.0 / n as real);
    } else {
      assert Portion(0, 1.0 / n as real) == 0.0;
    }
  }

  lemma {:induction false} PortionsOrdered(a: nat, b: nat, c: real)
    requires a <= b && c >= 0.0
    ensures Portion(a, c) <= Portion(b, c)
  {
  }

  lemma {:induction false} UniformOrder(tasks: seq<Task>, n: nat, p: string, q: string)
    requires n > 0 && NonEmpty(tasks) && forall i :: 0 <= i < |tasks| ==> |Elements(tasks[i])| == n
    requires Containing(tasks, q) <= Containing(tasks, p)
    ensures RecallWeight(tasks, q) <= RecallWeight(tasks, p)
  {
    UniformWeight(tasks, n, p);
    UniformWeight(tasks, n, q);
    PortionsOrdered(Containing(tasks, q), Containing(tasks, p), 1.0 / n as real);
  }

  /** Between tasks with equally many gold paths, none repeated, the baseline is best for mean recall too. */
  lemma {:induction false} BestMeanRecall(tasks: seq<Task>, n: nat, k: nat, paths: seq<string>)
    requires DistinctGold(tasks) && NonEmpty(tasks) && IsTopK(tasks, k, paths)
    requires n > 0 && forall i :: 0 <= i < |tasks| ==> |Elements(tasks[i])| == n
    ensures RecallsMost(tasks, k, paths)
  {
    NoneMoreFrequent(tasks, k);
    forall p, q | p in Gold(tasks) && q in Gold(tasks) && Rank(tasks, p) < k <= Rank(tasks, q)
      ensures RecallWeight(tasks, q) <= RecallWeight(tasks, p)
    {
      UniformOrder(tasks, n, p, q);
    }
    BestMeanRecallIff(tasks, k, paths);
  }

  lemma {:induction false} TotalOfThree(t0: Task, t1: Task, t2: Task, answer: set<string>)
    requires t0 != [] && t1 != [] && t2 != []
    requires Elements(t0) != {} && Elements(t1) != {} && Elements(t2) != {}
    ensures TotalRecall([t0, t1, t2], answer) ==
            |Elements(t0) * answer| as real / |Elements(t0)| as real
            + (|Elements(t1) * answer| as real / |Elements(t1)| as real +
               |Elements(t2) * answer| as real / |Elements(t2)| as real)
  {
    assert [t0, t1, t2][1..] == [t1, t2] && [t1, t2][1..] == [t2] && [t2][1..] == [];
    assert TotalRecall([t2], answer) == |Elements(t2) * answer| as real / |Elements(t2)| as real + 0.0;
  }

  lemma {:induction false} PathsOfThree(t0: Task, t1: Task, t2: Task)
    ensures AllPaths([t0, t1, t2]) == t0 + t1 + t2
  {
    assert [t0, t1, t2][1..] == [t1, t2] && [t1, t2][1..] == [t2] && [t2][1..] == [];
    assert AllPaths([t2]) == t2 + [] == t2;
    assert t0 + (t1 + t2) == t0 + t1 + t2;
  }

  lemma {:induction false} OnlyOneFrequent(tasks: seq<Task>, a: string, all: multiset<string>)
    requires multiset(AllPaths(tasks)) == all && all[a] == 2 && forall q :: q != a ==> all[q] <= 1
    ensures IsTopK(tasks, 1, [a])
  {
    assert a in multiset(AllPaths(tasks)) && a in Gold(tasks);
    SubsetSize({a}, Gold(tasks));
    assert Elements([a]) == {a};
  }

  lemma {:induction false} LargeTask(a: string, b: string, v: string, w: string)
    requires a != b && a != v && a != w && b != v && b != w && v != w
    ensures var t := Elements([a, v, w]); |t| == 3 && |t * {a}| == 1 && |t * {b}| == 0
  {
    var t := Elements([a, v, w]);
    assert t == {a, v, w} && t * {a} == {a} && t * {b} == {};
  }

  lemma {:induction false} ThreeRecalls(t0: Task, t1: Task, t2: Task, a: string, b: string)
    requires t0 != [] && t1 != [] && t2 != []
    requires |Elements(t0)| == |Elements(t1)| == 3 && |Elements(t2)| == 1
    requires |Elements(t0) * {a}| == |Elements(t1) * {a}| == 1 && |Elements(t2) * {a}| == 0
    requires |Elements(t0) * {b}| == |Elements(t1) * {b}| == 0 && |Elements(t2) * {b}| == 1
    ensures TotalRecall([t0, t1, t2], {a}) < TotalRecall([t0, t1, t2], {b})
  {
    TotalOfThree(t0, t1, t2, {a});
    TotalOfThree(t0, t1, t2, {b});
  }

  ghost predicate AllDifferent<T>(a: T, b: T, v: T, w: T, x: T, y: T) {
    && a != b && a != v && a != w && a != x && a != y && b != v && b != w && b != x && b != y
    && v != w && v != x && v != y && w != x && w != y && x != y
  }

  lemma {:induction false} OnceButTwice<T>(a: T, b: T, v: T, w: T, x: T, y: T)
    requires AllDifferent(a, b, v, w, x, y)
    ensures var all := multiset([a, v, w] + [a, x, y] + [b]); all[a] == 2 && forall q :: q != a ==> all[q] <= 1
  {
    assert multiset([a, v, w] + [a, x, y] + [b]) == multiset{a, v, w} + multiset{a, x, y} + multiset{b};
  }

  /** Without that it need not be: a task with few gold paths weighs more in mean recall than in the
      counts, so another single path can beat the most frequent one. */
  lemma {:induction false} MeanRecallCanBeBeaten(a: string, b: string, v: string, w: string, x: string, y: string)
    requires AllDifferent(a, b, v, w, x, y)
    ensures var tasks := [[a, v, w], [a, x, y], [b]];
            IsTopK(tasks, 1, [a]) && TotalRecall(tasks, {a}) < TotalRecall(tasks, {b})
  {
    var t0, t1, t2 := [a, v, w], [a, x, y], [b];
    PathsOfThree(t0, t1, t2);
    OnceButTwice(a, b, v, w, x, y);
    OnlyOneFrequent([t0, t1, t2], a, multiset(t0 + t1 + t2));
    LargeTask(a, b, v, w);
    LargeTask(a, b, x, y);
    SmallTask(a, b);
    ThreeRecalls(t0, t1, t2, a, b);
  }

  lemma {:induction false} SmallTask(a: string, b: string)
    requires a != b
    ensures var t := Elements([b]); |t| == 1 && |t * {a}| == 0 && |t * {b}| == 1
  {
    var t := Elements([b]);
    assert t == {b} && t * {b} == {b} && t * {a} == {};
  }
}
