/** The worktree lifecycle harness of scripts/check_daemon_equivalence.py: a shared base index,
    a thin overlay per worktree, and tombstones hiding base files. */
module Overlay {
  import opened Prelude

  type Files = map<string, string>

  // ----- what an index must hold -----

  /** White space as `str.strip` sees it. */
  predicate IsSpace(c: char) {
    '\t' <= c <= '\r' || '\U{1C}' <= c <= ' ' || c == '\U{85}' || c == '\U{A0}' || c == '\U{1680}' ||
    '\U{2000}' <= c <= '\U{200A}' || c == '\U{2028}' || c == '\U{2029}' || c == '\U{202F}' ||
    c == '\U{205F}' || c == '\U{3000}'
  }

  predicate IsBlank(text: string) { forall c :: c in text ==> IsSpace(c) }

  predicate Same(p: string, a: Files, b: Files) { p in a && p in b && a[p] == b[p] }

  function NonBlank(files: Files): Files { map p | p in files && !IsBlank(files[p]) :: files[p] }

  /** The files an overlay must hold, with their text. */
  function Divergent(original: Files, current: Files): Files {
    map p | p in current && !IsBlank(current[p]) && !Same(p, current, original) :: current[p]
  }

  /** The base files a worktree must hide. */
  function Hidden(original: Files, current: Files): set<string> {
    set p | p in original && !Same(p, original, current)
  }

  function Visible(base: Files, tombstones: set<string>): Files {
    map p | p in base && !IsBlank(base[p]) && p !in tombstones :: base[p]
  }

  /** Everything found through both layers, counting what is found twice. */
  function Layered(base: Files, overlay: Files, tombstones: set<string>): multiset<(string, string)> {
    multiset(Visible(base, tombstones).Items) + multiset(overlay.Items)
  }

  /** Everything found by an independent index of the files. */
  function Standalone(files: Files): multiset<(string, string)> { multiset(NonBlank(files).Items) }

  // ----- one base, one worktree -----

  lemma {:induction false} ItemsMerge<K, V>(a: map<K, V>, b: map<K, V>, c: map<K, V>)
    requires a.Keys !! b.Keys && a + b == c
    ensures multiset(a.Items) + multiset(b.Items) == multiset(c.Items)
  {
    forall e: (K, V)
      ensures multiset(c.Items)[e] == multiset(a.Items)[e] + multiset(b.Items)[e]
    {
      assert e.0 in c <==> e.0 in a || e.0 in b;
    }
  }

  lemma {:induction false} ItemsSplit<K, V>(a: map<K, V>, b: map<K, V>, c: map<K, V>, k: K)
    requires multiset(a.Items) + multiset(b.Items) == multiset(c.Items)
    ensures k in a ==> k !in b && k in c && c[k] == a[k]
    ensures k in b ==> k in c && c[k] == b[k]
    ensures k in c ==> k in a || k in b
  {
    if k in a { ItemIn(a, b, c, k, a[k]); }
    if k in b { ItemIn(a, b, c, k, b[k]); }
    if k in c { ItemIn(a, b, c, k, c[k]); }
  }

  lemma {:induction false} ItemIn<K, V>(a: map<K, V>, b: map<K, V>, c: map<K, V>, k: K, v: V)
    requires multiset(a.Items) + multiset(b.Items) == multiset(c.Items)
    ensures (k in c && c[k] == v) <==> (k in a && a[k] == v) || (k in b && b[k] == v)
    ensures !((k in a && a[k] == v) && (k in b && b[k] == v))
  {
    assert multiset(c.Items)[(k, v)] == multiset(a.Items)[(k, v)] + multiset(b.Items)[(k, v)] <= 1;
    assert (k, v) in c.Items <==> (k, v) in a.Items || (k, v) in b.Items;
  }

  /** Both layers together give each file once, exactly if they share no path and merge to it. */
  lemma {:induction false} LayeredIff(base: Files, overlay: Files, tombstones: set<string>, files: Files)
    ensures Layered(base, overlay, tombstones) == Standalone(files) <==>
            Visible(base, tombstones).Keys !! overlay.Keys && Visible(base, tombstones) + overlay == NonBlank(files)
  {
    var shown, all := Visible(base, tombstones), NonBlank(files);
    if Layered(base, overlay, tombstones) == Standalone(files) {
      forall p
        ensures p in shown ==> p !in overlay && p in all && all[p] == shown[p]
        ensures p in overlay ==> p in all && all[p] == overlay[p]
        ensures p in all ==> p in shown || p in overlay
      {
        ItemsSplit(shown, overlay, all, p);
      }
      assert shown + overlay == all;
    }
    if shown.Keys !! overlay.Keys && shown + overlay == all { ItemsMerge(shown, overlay, all); }
  }

  /** The two formulas of the harness reconstruct the worktree, with no path twice. */
  lemma {:induction false} LayersReconstruct(original: Files, current: Files)
    ensures Layered(original, Divergent(original, current), Hidden(original, current)) == Standalone(current)
    ensures Visible(original, Hidden(original, current)).Keys !! Divergent(original, current).Keys
  {
    LayeredIff(original, Divergent(original, current), Hidden(original, current), current);
  }

  /** No smaller overlay and no fewer tombstones on searchable files would do. */
  lemma {:induction false} ThinnestLayers(original: Files, current: Files, overlay: Files, tombstones: set<string>)
    requires Layered(original, overlay, tombstones) == Standalone(current)
    ensures forall p :: p in Divergent(original, current) ==> p in overlay && overlay[p] == current[p]
    ensures forall p :: p in Hidden(original, current) && !IsBlank(original[p]) ==> p in tombstones
  {
    LayeredIff(original, overlay, tombstones, current);
    forall p | p in Divergent(original, current)
      ensures p in overlay && overlay[p] == current[p]
    {
      assert p in NonBlank(current) && (Visible(original, tombstones) + overlay)[p] == current[p];
    }
    forall p | p in Visible(original, tombstones)
      ensures p !in Hidden(original, current)
    {
      assert (Visible(original, tombstones) + overlay)[p] == original[p] && p in NonBlank(current);
    }
  }

  predicate SameShown(p: string, a: Files, b: Files) {
    p in NonBlank(a) || p in NonBlank(b) ==> Same(p, NonBlank(a), NonBlank(b))
  }

  /** An overlay built over one base stays right over another exactly if every path whose
      searchable content differs is one the worktree hides. */
  lemma {:induction false} ReuseIff(original: Files, next: Files, current: Files)
    ensures Layered(next, Divergent(original, current), Hidden(original, current)) == Standalone(current) <==>
            forall p :: p !in Hidden(original, current) ==> SameShown(p, original, next)
  {
    var overlay, tombstones := Divergent(original, current), Hidden(original, current);
    LayeredIff(next, overlay, tombstones, current);
    var shown, all := Visible(next, tombstones), NonBlank(current);
    if shown.Keys !! overlay.Keys && shown + overlay == all {
      forall p | p !in tombstones
        ensures SameShown(p, original, next)
      {
        ReuseNeeds(p, original, next, current);
      }
    }
    if forall p :: p !in tombstones ==> SameShown(p, original, next) {
      forall p
        ensures p in shown ==> p !in overlay && p in all && shown[p] == all[p]
        ensures p in all ==> p in shown || p in overlay
      {
        ReuseSuffices(p, original, next, current);
      }
      assert shown + overlay == all;
    }
  }

  lemma {:induction false} ReuseSuffices(p: string, original: Files, next: Files, current: Files)
    requires p !in Hidden(original, current) ==> SameShown(p, original, next)
    ensures var shown, overlay, all := Visible(next, Hidden(original, current)), Divergent(original, current),
        NonBlank(current);
            && (p in shown ==> p !in overlay && p in all && shown[p] == all[p])
            && (p in all ==> p in shown || p in overlay)
  {
    if p in NonBlank(current) && p !in Divergent(original, current) { assert p in NonBlank(original); }
  }

  lemma {:induction false} ReuseNeeds(p: string, original: Files, next: Files, current: Files)
    requires p !in Hidden(original, current)
    requires var shown, overlay := Visible(next, Hidden(original, current)), Divergent(original, current);
             shown.Keys !! overlay.Keys && shown + overlay == NonBlank(current)
    ensures SameShown(p, original, next)
  {
    var shown, overlay := Visible(next, Hidden(original, current)), Divergent(original, current);
    assert p in shown <==> p in NonBlank(next);
    if p in overlay {
      assert p !in original;
    } else {
      assert p in shown <==> p in NonBlank(current);
      assert p in shown ==> shown[p] == (shown + overlay)[p] == current[p];
      assert p in NonBlank(current) <==> p in NonBlank(original);
    }
  }

  // ----- base, worktrees and their indexes -----

  /** What `base_ref.json` records: which rebuild of the base, and which generation of it. */
  datatype Reference = Reference(incarnation: nat, generation: nat)

  datatype Worktree = Worktree(files: Files, indexed: Files, overlay: Files, tombstones: set<string>,
                               reference: Option<Reference>)

  datatype Store = Store(main: Files, base: Files, current: Reference, trees: map<string, Worktree>)

  datatype Step =
    | Write(tree: string, path: string, text: string)
    | Unlink(tree: string, path: string)
    | Replace(tree: string, path: string, target: string)
    | Checkout(tree: string, files: Files)
    | Index(tree: string)
    | Search(tree: string)
    | WriteMain(path: string, text: string)
    | UnlinkMain(path: string)
    | IndexMain
    | RebuildMain(generation: nat)

  function Edited(files: Files, step: Step): Files {
    match step
    case Write(_, path, text) => files[path := text]
    case Unlink(_, path) => files - {path}
    case Replace(_, path, target) => if path in files then (files - {path})[target := files[path]] else files
    case Checkout(_, next) => next
    case _ => files
  }

  predicate EditsTree(step: Step, tree: string) {
    (step.Write? || step.Unlink? || step.Replace? || step.Checkout?) && step.tree == tree
  }

  predicate Stale(s: Store, tree: string)
    requires tree in s.trees
  {
    s.trees[tree].reference != Some(s.current)
  }

  /** The delta of a worktree against the base as it is now. */
  function Rebuilt(s: Store, w: Worktree): Worktree {
    Worktree(w.files, w.files, Divergent(s.base, w.files), Hidden(s.base, w.files), Some(s.current))
  }

  function Next(s: Store, step: Step): Store {
    match step
    case WriteMain(path, text) => s.(main := s.main[path := text])
    case UnlinkMain(path) => s.(main := s.main - {path})
    case IndexMain => s.(base := s.main, current := s.current.(generation := s.current.generation + 1))
    case RebuildMain(generation) => s.(base := s.main, current := Reference(s.current.incarnation + 1, generation))
    case Index(tree) => if tree in s.trees then s.(trees := s.trees[tree := Rebuilt(s, s.trees[tree])]) else s
    case Search(tree) =>
      if tree in s.trees && Stale(s, tree) then s.(trees := s.trees[tree := Rebuilt(s, s.trees[tree])]) else s
    case _ =>
      if step.tree in s.trees then
        var w := s.trees[step.tree];
        s.(trees := s.trees[step.tree := w.(files := Edited(w.files, step))])
      else s
  }

  function Run(s: Store, steps: seq<Step>): Store
    decreases |steps|
  {
    if steps == [] then s else Run(Next(s, steps[0]), steps[1..])
  }

  /** What a search of the worktree finds. */
  function Answer(s: Store, tree: string): multiset<(string, string)>
    requires tree in s.trees
  {
    var after := Next(s, Search(tree));
    Layered(after.base, after.trees[tree].overlay, after.trees[tree].tombstones)
  }

  // ----- every run -----

  predicate NotAhead(r: Reference, current: Reference) {
    r.incarnation < current.incarnation || (r.incarnation == current.incarnation && r.generation <= current.generation)
  }

  predicate TreeConsistent(s: Store, w: Worktree) {
    && (w.reference.Some? ==> NotAhead(w.reference.value, s.current))
    && (w.reference == Some(s.current) ==>
          w.overlay == Divergent(s.base, w.indexed) && w.tombstones == Hidden(s.base, w.indexed))
  }

  ghost predicate Consistent(s: Store) { forall t :: t in s.trees ==> TreeConsistent(s, s.trees[t]) }

  lemma {:induction false} ConsistentNext(s: Store, step: Step)
    requires Consistent(s)
    ensures Consistent(Next(s, step)) && Next(s, step).trees.Keys == s.trees.Keys
  {
    var n := Next(s, step);
    forall t | t in n.trees
      ensures TreeConsistent(n, n.trees[t])
    {
      assert TreeConsistent(s, s.trees[t]);
    }
  }

  lemma {:induction false} ConsistentRun(s: Store, steps: seq<Step>)
    requires Consistent(s)
    ensures Consistent(Run(s, steps)) && Run(s, steps).trees.Keys == s.trees.Keys
    decreases |steps|
  {
    if steps != [] {
      ConsistentNext(s, steps[0]);
      ConsistentRun(Next(s, steps[0]), steps[1..]);
    }
  }

  /** A search never mixes two bases: it finds the worktree as of its last indexing, or as it is now
      if the base was indexed since. */
  lemma {:induction false} SearchFindsOneSnapshot(s: Store, tree: string)
    requires Consistent(s) && tree in s.trees
    ensures Answer(s, tree) == Standalone(if Stale(s, tree) then s.trees[tree].files else s.trees[tree].indexed)
  {
    assert TreeConsistent(s, s.trees[tree]);
    LayersReconstruct(s.base, if Stale(s, tree) then s.trees[tree].files else s.trees[tree].indexed);
  }

  predicate Fresh(s: Store, tree: string)
    requires tree in s.trees
  {
    Stale(s, tree) || s.trees[tree].indexed == s.trees[tree].files
  }

  ghost predicate Untouched(steps: seq<Step>, tree: string) { forall k :: k in steps ==> !EditsTree(k, tree) }

  lemma {:induction false} FreshRun(s: Store, steps: seq<Step>, tree: string)
    requires Consistent(s) && tree in s.trees && Fresh(s, tree) && Untouched(steps, tree)
    ensures tree in Run(s, steps).trees && Run(s, steps).trees[tree].files == s.trees[tree].files
    ensures Fresh(Run(s, steps), tree)
    decreases |steps|
  {
    if steps != [] {
      assert steps[0] in steps && !EditsTree(steps[0], tree);
      ConsistentNext(s, steps[0]);
      var n := Next(s, steps[0]);
      FreshNext(s, steps[0], tree);
      FreshRun(n, steps[1..], tree);
    }
  }

  lemma {:induction false} FreshNext(s: Store, step: Step, tree: string)
    requires Consistent(s) && tree in s.trees && Fresh(s, tree) && !EditsTree(step, tree)
    ensures var n := Next(s, step); tree in n.trees && n.trees[tree].files == s.trees[tree].files && Fresh(n, tree)
  {
    assert TreeConsistent(s, s.trees[tree]);
  }

  /** Isolation: edits, checkouts and indexing elsewhere, and any change and rebuild of the base,
      leave what a search of this worktree finds as it was. */
  lemma {:induction false} SiblingUnmoved(s: Store, steps: seq<Step>, tree: string)
    requires Consistent(s) && tree in s.trees && Fresh(s, tree) && Untouched(steps, tree)
    ensures tree in Run(s, steps).trees && Answer(Run(s, steps), tree) == Answer(s,
        tree) == Standalone(s.trees[tree].files)
  {
    ConsistentRun(s, steps);
    FreshRun(s, steps, tree);
    SearchFindsOneSnapshot(s, tree);
    SearchFindsOneSnapshot(Run(s, steps), tree);
  }

  lemma {:induction false} RunConcat(s: Store, a: seq<Step>, b: seq<Step>)
    ensures Run(s, a + b) == Run(Run(s, a), b)
    decreases |a|
  {
    if a == [] {
      assert a + b == b;
    } else {
      assert (a + b)[1..] == a[1..] + b;
      RunConcat(Next(s, a[0]), a[1..], b);
    }
  }

  /** Over every run: once a worktree was indexed after its last edit, searching it is searching an
      independent index of its files. */
  lemma {:induction false} IndexedSearchIsStandalone(s: Store, before: seq<Step>, after: seq<Step>, tree: string)
    requires Consistent(s) && tree in s.trees && Untouched(after, tree)
    ensures var r := Run(s, before + [Index(tree)] + after);
            tree in r.trees && Answer(r, tree) == Standalone(r.trees[tree].files)
  {
    ConsistentRun(s, before);
    var m := Run(s, before);
    var n := Next(m, Index(tree));
    ConsistentNext(m, Index(tree));
    RunConcat(s, before + [Index(tree)], after);
    RunConcat(s, before, [Index(tree)]);
    assert Run(m, [Index(tree)]) == Run(n, []) == n;
    FreshRun(n, after, tree);
    SiblingUnmoved(n, after, tree);
  }

  // ----- the randomized lifecycle -----

  /** One step of the campaign: what happens, to which worktree, with which file and marker text. */
  datatype Kind =
    | WriteFile | Live | Restart | Delete | Empty | Rename
    | CheckoutMain | CheckoutBack | BaseForce | BaseIncremental

  datatype Operation = Operation(kind: Kind, tree: string, path: string, moved: string, marker: string,
                                 committed: Files, generation: nat)

  predicate TouchesBase(kind: Kind) { kind.BaseForce? || kind.BaseIncremental? }

  /** The edits and indexing one operation performs. */
  function StepsOf(s: Store, op: Operation): seq<Step> {
    var change, index := Write(op.tree, op.path, op.marker), Index(op.tree);
    match op.kind
    case WriteFile | Live | Restart => [change, index]
    case Delete => [change, index, Unlink(op.tree, op.path), index]
    case Empty => [change, index, Write(op.tree, op.path, ""), index]
    case Rename => [change, index, Replace(op.tree, op.path, op.moved), index]
    case CheckoutMain => [Checkout(op.tree, s.main), index]
    case CheckoutBack => [Checkout(op.tree, op.committed), index]
    case BaseForce => [WriteMain(op.path, op.marker), RebuildMain(op.generation)]
    case BaseIncremental => [WriteMain(op.path, op.marker), IndexMain]
  }

  ghost predicate Ready(s: Store) {
    Consistent(s) && s.base == s.main && forall t :: t in s.trees ==> Fresh(s, t)
  }

  lemma {:induction false} FreshEverywhere(s: Store, steps: seq<Step>, tree: string)
    requires Ready(s) && forall k :: k in steps ==> forall t :: t != tree ==> !EditsTree(k, t)
    ensures forall t :: t in s.trees && t != tree ==> t in Run(s, steps).trees && Fresh(Run(s, steps), t)
  {
    forall t | t in s.trees && t != tree
      ensures t in Run(s, steps).trees && Fresh(Run(s, steps), t)
    {
      FreshRun(s, steps, t);
    }
  }

  lemma {:induction false} IndexedLast(s: Store, steps: seq<Step>, tree: string)
    requires steps != [] && steps[|steps| - 1] == Index(tree)
    ensures tree in Run(s, steps).trees ==> Fresh(Run(s, steps), tree)
    decreases |steps|
  {
    if |steps| > 1 {
      IndexedLast(Next(s, steps[0]), steps[1..], tree);
    } else {
      assert Run(s, steps) == Run(Next(s, steps[0]), []);
    }
  }

  predicate Indexes(steps: seq<Step>) {
    forall k :: k in steps ==> !k.WriteMain? && !k.UnlinkMain? && !k.IndexMain? && !k.RebuildMain?
  }

  lemma {:induction false} MainKept(s: Store, steps: seq<Step>)
    requires Indexes(steps)
    ensures Run(s, steps).main == s.main && Run(s, steps).base == s.base
    decreases |steps|
  {
    if steps != [] {
      assert steps[0] in steps;
      MainKept(Next(s, steps[0]), steps[1..]);
    }
  }

  lemma {:induction false} RunTwo(s: Store, a: Step, b: Step)
    ensures Run(s, [a, b]) == Next(Next(s, a), b)
  {
    assert [a, b][1..] == [b] && [b][1..] == [];
    assert Run(Next(s, a), [b]) == Run(Next(Next(s, a), b), []);
  }

  lemma {:induction false} BaseOperationReady(s: Store, op: Operation)
    requires Ready(s) && TouchesBase(op.kind)
    ensures Ready(Run(s, StepsOf(s, op)))
  {
    var steps := StepsOf(s, op);
    ConsistentRun(s, steps);
    FreshEverywhere(s, steps, op.tree);
    RunTwo(s, steps[0], steps[1]);
    assert steps == [steps[0], steps[1]];
    if op.tree in s.trees { FreshRun(s, steps, op.tree); }
  }

  lemma {:induction false} TreeOperationReady(s: Store, op: Operation)
    requires Ready(s) && !TouchesBase(op.kind)
    ensures Ready(Run(s, StepsOf(s, op)))
  {
    var steps := StepsOf(s, op);
    ConsistentRun(s, steps);
    FreshEverywhere(s, steps, op.tree);
    MainKept(s, steps);
    IndexedLast(s, steps, op.tree);
  }

  lemma {:induction false} OperationReady(s: Store, op: Operation)
    requires Ready(s)
    ensures Ready(Run(s, StepsOf(s, op))) && Run(s, StepsOf(s, op)).trees.Keys == s.trees.Keys
  {
    ConsistentRun(s, StepsOf(s, op));
    if TouchesBase(op.kind) { BaseOperationReady(s, op); } else { TreeOperationReady(s, op); }
  }

  // ----- what the harness accepts of any indexer -----

  /** What an index holds on disk for one worktree. */
  datatype Layers = Layers(overlay: Files, tombstones: set<string>, reference: Option<Reference>)

  /** What one round of comparisons meets: the files of the base index, its present reference, and each
      worktree's layers. Nothing is assumed of them. */
  datatype Observation = Observation(base: Files, current: Reference, trees: map<string, Layers>)

  predicate Single(found: multiset<(string, string)>) { forall e :: e in found ==> found[e] == 1 }

  /** `compare` with its `assert_layers`: searching finds what a standalone index finds, nothing twice, and
      the overlay's paths, the tombstones and the reference are as computed from the files. */
  predicate AcceptsTree(s: Store, o: Observation, tree: string)
    requires tree in s.trees
  {
    tree in o.trees &&
    var l, files := o.trees[tree], s.trees[tree].files;
    && Layered(o.base, l.overlay, l.tombstones) == Standalone(files)
    && Single(Layered(o.base, l.overlay, l.tombstones))
    && l.reference == Some(o.current)
    && l.overlay.Keys == Divergent(s.main, files).Keys && l.tombstones == Hidden(s.main, files)
  }

  /** `compare` on the main worktree, which has no layers. */
  predicate AcceptsMain(s: Store, o: Observation) { multiset(NonBlank(o.base).Items) == Standalone(s.main) }

  ghost predicate RightBase(s: Store, o: Observation) { NonBlank(o.base) == NonBlank(s.main) }

  ghost predicate RightLayers(s: Store, o: Observation, tree: string)
    requires tree in s.trees
  {
    var files := s.trees[tree].files;
    tree in o.trees && o.trees[tree] == Layers(Divergent(s.main, files), Hidden(s.main, files), Some(o.current))
  }

  /** The base index holds the searchable files, and each worktree the thinnest layers over it. */
  ghost predicate Right(s: Store, o: Observation, checked: seq<string>) {
    RightBase(s, o) && forall t :: t in checked ==> t in s.trees && RightLayers(s, o, t)
  }

  lemma {:induction false} ItemsDetermine(a: Files, b: Files)
    requires multiset(a.Items) == multiset(b.Items)
    ensures a == b
  {
    forall p
      ensures p in a <==> p in b
      ensures p in a && p in b ==> a[p] == b[p]
    {
      assert p in a ==> (p, a[p]) in multiset(a.Items);
      assert p in b ==> (p, b[p]) in multiset(b.Items);
    }
  }

  lemma {:induction false} AcceptsMainIff(s: Store, o: Observation)
    ensures AcceptsMain(s, o) <==> RightBase(s, o)
  {
    if AcceptsMain(s, o) { ItemsDetermine(NonBlank(o.base), NonBlank(s.main)); }
  }

  lemma {:induction false} VisibleAlike(a: Files, b: Files, tombstones: set<string>)
    requires NonBlank(a) == NonBlank(b)
    ensures Visible(a, tombstones) == Visible(b, tombstones)
  {
    forall p
      ensures p in Visible(a, tombstones) <==> p in Visible(b, tombstones)
      ensures p in Visible(a, tombstones) ==> p in b && a[p] == b[p]
    {
      assert p in NonBlank(a) <==> p in NonBlank(b);
    }
  }

  lemma {:induction false} NamesSuffice(original: Files, current: Files, overlay: Files, tombstones: set<string>)
    requires Layered(original, overlay, tombstones) == Standalone(current)
    requires overlay.Keys == Divergent(original, current).Keys
    ensures overlay == Divergent(original, current)
  {
    ThinnestLayers(original, current, overlay, tombstones);
  }

  /** Over a right base, the comparison accepts exactly the right layers, although it compares the
      overlay's paths only and never its text. */
  lemma {:induction false} AcceptsTreeIff(s: Store, o: Observation, tree: string)
    requires tree in s.trees && RightBase(s, o)
    ensures AcceptsTree(s, o, tree) <==> RightLayers(s, o, tree)
  {
    if tree in o.trees {
      var l, files := o.trees[tree], s.trees[tree].files;
      VisibleAlike(o.base, s.main, l.tombstones);
      if AcceptsTree(s, o, tree) { NamesSuffice(s.main, files, l.overlay, l.tombstones); }
      if RightLayers(s, o, tree) { LayersReconstruct(s.main, files); }
    }
  }

  /** One round of the harness: each worktree, then the main one, up to the first difference. It passes
      exactly if everything observed is right. */
  method CompareAll(s: Store, o: Observation, checked: seq<string>) returns (ok: bool)
    requires forall t :: t in checked ==> t in s.trees
    ensures ok <==> Right(s, o, checked)
  {
    for c := 0 to |checked|
      invariant forall k :: 0 <= k < c ==> AcceptsTree(s, o, checked[k])
    {
      if !AcceptsTree(s, o, checked[c]) {
        if RightBase(s, o) { AcceptsTreeIff(s, o, checked[c]); }
        return false;
      }
    }
    AcceptsMainIff(s, o);
    ok := AcceptsMain(s, o);
    if ok {
      forall t | t in checked
        ensures RightLayers(s, o, t)
      {
        AcceptsTreeIff(s, o, t);
      }
    }
  }

  lemma {:induction false} TreesKept(s: Store, steps: seq<Step>)
    ensures Run(s, steps).trees.Keys == s.trees.Keys
    decreases |steps|
  {
    if steps != [] {
      assert Next(s, steps[0]).trees.Keys == s.trees.Keys;
      TreesKept(Next(s, steps[0]), steps[1..]);
    }
  }

  function Performed(s: Store, op: Operation): (t: Store)
    ensures t.trees.Keys == s.trees.Keys
  {
    TreesKept(s, StepsOf(s, op));
    Run(s, StepsOf(s, op))
  }

  /** What an operation of each kind leaves of a worktree's files. */
  ghost predicate Leaves(op: Operation, main: Files, was: Files, now: Files) {
    && (op.kind.WriteFile? || op.kind.Live? || op.kind.Restart? ==> now == was[op.path := op.marker])
    && (op.kind.Delete? ==> now == was - {op.path})
    && (op.kind.Empty? ==> now == was[op.path := ""])
    && (op.kind.Rename? ==> now == (was - {op.path})[op.moved := op.marker])
    && (op.kind.CheckoutMain? ==> now == main)
    && (op.kind.CheckoutBack? ==> now == op.committed)
    && (TouchesBase(op.kind) ==> now == was)
  }

  lemma {:induction false} RunFour(s: Store, a: Step, b: Step, c: Step, d: Step)
    ensures Run(s, [a, b, c, d]) == Next(Next(Next(Next(s, a), b), c), d)
  {
    assert [a, b] + [c, d] == [a, b, c, d];
    RunConcat(s, [a, b], [c, d]);
    RunTwo(s, a, b);
    RunTwo(Next(Next(s, a), b), c, d);
  }

  lemma {:induction false} IndexKeepsFiles(s: Store, tree: string, t: string)
    requires t in s.trees
    ensures t in Next(s, Index(tree)).trees && Next(s, Index(tree)).trees[t].files == s.trees[t].files
    ensures Next(s, Index(tree)).main == s.main
  {
  }

  /** One edit of a worktree followed by indexing it. */
  lemma {:induction false} EditIndexed(s: Store, edit: Step, tree: string, t: string)
    requires EditsTree(edit, tree) && t in s.trees
    ensures var n := Next(Next(s, edit), Index(tree));
            && n.main == s.main && n.trees.Keys == s.trees.Keys
            && n.trees[t].files == if t == tree then Edited(s.trees[t].files, edit) else s.trees[t].files
  {
    IndexKeepsFiles(Next(s, edit), tree, t);
  }

  /** Two edits of a worktree, each followed by indexing it. */
  lemma {:induction false} EditedTwice(s: Store, a: Step, b: Step, tree: string, t: string)
    requires EditsTree(a, tree) && EditsTree(b, tree) && t in s.trees
    ensures var n := Run(s, [a, Index(tree), b, Index(tree)]);
            && n.main == s.main && n.trees.Keys == s.trees.Keys
            && n.trees[t].files == if t == tree then Edited(Edited(s.trees[t].files, a), b) else s.trees[t].files
  {
    RunFour(s, a, Index(tree), b, Index(tree));
    EditIndexed(s, a, tree, t);
    EditIndexed(Next(Next(s, a), Index(tree)), b, tree, t);
  }

  lemma {:induction false} EditedOnce(s: Store, a: Step, tree: string, t: string)
    requires EditsTree(a, tree) && t in s.trees
    ensures var n := Run(s, [a, Index(tree)]);
            && n.main == s.main && n.trees.Keys == s.trees.Keys
            && n.trees[t].files == if t == tree then Edited(s.trees[t].files, a) else s.trees[t].files
  {
    RunTwo(s, a, Index(tree));
    EditIndexed(s, a, tree, t);
  }

  lemma {:induction false} WriteLeaves(s: Store, op: Operation, t: string)
    requires t in s.trees && (op.kind.WriteFile? || op.kind.Live? || op.kind.Restart?)
    ensures Performed(s, op).main == s.main
    ensures if t == op.tree then Leaves(op, s.main, s.trees[t].files, Performed(s, op).trees[t].files)
            else Performed(s, op).trees[t].files == s.trees[t].files
  {
    EditedOnce(s, Write(op.tree, op.path, op.marker), op.tree, t);
  }

  lemma {:induction false} SecondEditLeaves(s: Store, op: Operation, t: string)
    requires t in s.trees && (op.kind.Delete? || op.kind.Empty? || op.kind.Rename?)
    ensures Performed(s, op).main == s.main
    ensures if t == op.tree then Leaves(op, s.main, s.trees[t].files, Performed(s, op).trees[t].files)
            else Performed(s, op).trees[t].files == s.trees[t].files
  {
    var change, was := Write(op.tree, op.path, op.marker), s.trees[t].files;
    if op.kind.Delete? {
      EditedTwice(s, change, Unlink(op.tree, op.path), op.tree, t);
      assert was[op.path := op.marker] - {op.path} == was - {op.path};
    } else if op.kind.Empty? {
      EditedTwice(s, change, Write(op.tree, op.path, ""), op.tree, t);
      assert was[op.path := op.marker][op.path := ""] == was[op.path := ""];
    } else {
      EditedTwice(s, change, Replace(op.tree, op.path, op.moved), op.tree, t);
      assert was[op.path := op.marker] - {op.path} == was - {op.path};
    }
  }

  lemma {:induction false} CheckoutLeaves(s: Store, op: Operation, t: string)
    requires t in s.trees && (op.kind.CheckoutMain? || op.kind.CheckoutBack?)
    ensures Performed(s, op).main == s.main
    ensures if t == op.tree then Leaves(op, s.main, s.trees[t].files, Performed(s, op).trees[t].files)
            else Performed(s, op).trees[t].files == s.trees[t].files
  {
    EditedOnce(s, Checkout(op.tree, if op.kind.CheckoutMain? then s.main else op.committed), op.tree, t);
  }

  lemma {:induction false} BaseLeaves(s: Store, op: Operation)
    requires TouchesBase(op.kind)
    ensures Performed(s, op).main == s.main[op.path := op.marker] && Performed(s, op).base == Performed(s, op).main
    ensures Performed(s, op).trees == s.trees && Performed(s, op).current != s.current
    ensures op.kind.BaseForce? ==> Performed(s, op).current == Reference(s.current.incarnation + 1, op.generation)
    ensures op.kind.BaseIncremental? ==> Performed(s, op).current.incarnation == s.current.incarnation
  {
    var steps := StepsOf(s, op);
    RunTwo(s, steps[0], steps[1]);
    assert steps == [steps[0], steps[1]];
  }

  /** A deletion, an emptying and a renaming each happen to a file that is indexed with the marker. */
  lemma {:induction false} SecondEditIsOfIndexed(s: Store, op: Operation)
    requires op.tree in s.trees && (op.kind.Delete? || op.kind.Empty? || op.kind.Rename?)
    ensures |StepsOf(s, op)| == 4
    ensures var m := Run(s, StepsOf(s, op)[..2]);
            && op.tree in m.trees && op.path in m.trees[op.tree].indexed
            && m.trees[op.tree].indexed == m.trees[op.tree].files && m.trees[op.tree].indexed[op.path] == op.marker
  {
    var change, steps := Write(op.tree, op.path, op.marker), StepsOf(s, op);
    assert steps[..2] == [change, Index(op.tree)];
    RunTwo(s, change, Index(op.tree));
  }

  /** What an operation does to the files: its own worktree is left as its kind says, no other worktree
      changes, and the main one changes only by the marker that the two base operations write. */
  lemma {:induction false} OperationLeaves(s: Store, op: Operation, t: string)
    requires t in s.trees
    ensures t == op.tree ==> Leaves(op, s.main, s.trees[t].files, Performed(s, op).trees[t].files)
    ensures t != op.tree ==> Performed(s, op).trees[t].files == s.trees[t].files
    ensures Performed(s, op).main == if TouchesBase(op.kind) then s.main[op.path := op.marker] else s.main
  {
    if TouchesBase(op.kind) {
      BaseLeaves(s, op);
    } else if op.kind.CheckoutMain? || op.kind.CheckoutBack? {
      CheckoutLeaves(s, op, t);
    } else if op.kind.Delete? || op.kind.Empty? || op.kind.Rename? {
      SecondEditLeaves(s, op, t);
    } else {
      WriteLeaves(s, op, t);
    }
  }

  /** The indexer's state was right after each operation. */
  ghost predicate AllRight(s: Store, operations: seq<Operation>, observed: seq<Observation>, checked: seq<string>)
    requires |operations| == |observed|
    decreases |operations|
  {
    operations != [] ==>
      && Right(Performed(s, operations[0]), observed[0], checked)
      && AllRight(Performed(s, operations[0]), operations[1..], observed[1..], checked)
  }

  lemma {:induction false} AllRightFrom(s: Store, operations: seq<Operation>, observed: seq<Observation>,
                                        checked: seq<string>, i: nat)
    requires i < |operations| == |observed|
    ensures var t := Performed(s, operations[i]);
            AllRight(s, operations[i..], observed[i..], checked) <==>
            Right(t, observed[i], checked) && AllRight(t, operations[i + 1..], observed[i + 1..], checked)
  {
    assert operations[i..][1..] == operations[i + 1..] && observed[i..][1..] == observed[i + 1..];
  }

  /** The campaign: after each operation every worktree is compared, and the first failure stops it. Whatever
      the indexer does, it passes exactly if the indexer's state was right after every operation. */
  method Campaign(start: Store, operations: seq<Operation>, observed: seq<Observation>, checked: seq<string>)
    returns (ok: bool)
    requires |operations| == |observed| && forall t :: t in checked ==> t in start.trees
    ensures ok <==> AllRight(start, operations, observed, checked)
  {
    var s := start;
    assert operations[0..] == operations && observed[0..] == observed;
    for i := 0 to |operations|
      invariant s.trees.Keys == start.trees.Keys
      invariant AllRight(start, operations, observed, checked) <==>
                AllRight(s, operations[i..], observed[i..], checked)
    {
      AllRightFrom(s, operations, observed, checked, i);
      s := Performed(s, operations[i]);
      var same := CompareAll(s, observed[i], checked);
      if !same {
        return false;
      }
    }
    ok := true;
  }

  // ----- the modelled indexer -----

  /** What the modelled store shows: each worktree's layers as a search leaves them. */
  function Shown(s: Store): Observation {
    Observation(s.base, s.current,
                map t | t in s.trees ::
                  var w := Next(s, Search(t)).trees[t]; Layers(w.overlay, w.tombstones, w.reference))
  }

  lemma {:induction false} ReadyIsRight(s: Store, checked: seq<string>)
    requires Ready(s) && forall t :: t in checked ==> t in s.trees
    ensures Right(s, Shown(s), checked)
  {
    forall t | t in checked
      ensures RightLayers(s, Shown(s), t)
    {
      assert TreeConsistent(s, s.trees[t]) && Fresh(s, t);
    }
  }

  /** What the modelled store shows after each operation. */
  function ShownAfter(s: Store, operations: seq<Operation>): (observed: seq<Observation>)
    ensures |observed| == |operations|
    decreases |operations|
  {
    if operations == [] then []
    else [Shown(Performed(s, operations[0]))] + ShownAfter(Performed(s, operations[0]), operations[1..])
  }

  /** Over every list of operations the harness accepts the modelled store. */
  lemma {:induction false} ModelIsRight(s: Store, operations: seq<Operation>, checked: seq<string>)
    requires Ready(s) && forall t :: t in checked ==> t in s.trees
    ensures AllRight(s, operations, ShownAfter(s, operations), checked)
    decreases |operations|
  {
    if operations != [] {
      OperationReady(s, operations[0]);
      var t := Performed(s, operations[0]);
      ReadyIsRight(t, checked);
      ModelIsRight(t, operations[1..], checked);
      assert ShownAfter(s, operations)[1..] == ShownAfter(t, operations[1..]);
    }
  }
}
