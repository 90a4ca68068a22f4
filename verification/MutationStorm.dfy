/** The clean-branch mutation storm of scripts/soak_daemon.py: one mutator checks branches out
    while query workers decide, from two reads of a generation counter, whether their whole
    query ran while the probe file was deleted. Every interleaving of the steps below is a run. */
module MutationStorm {
  import opened Prelude

  const CHECKOUTS: nat := 25  // twelve deleted/main cycles and one last deleted checkout
  const ERROR_CAP: nat := 5

  datatype Mutator = Resting | Switching | Stopped

  /** `since` is the instant of the query's first read of the generation. */
  datatype Worker =
    | Idle
    | ReadingFirst(since: nat, before: nat)
    | Asking(since: nat, before: nat, presentBefore: bool)
    | Answered(since: nat, before: nat, presentBefore: bool, hits: nat)
    | ReadingLast(since: nat, before: nat, presentBefore: bool, hits: nat, after: nat)
    | Failed

  datatype Stats = Stats(queries: nat, stableDeleted: nat, staleHits: nat, errors: nat)

  datatype State = State(
    generation: nat,
    finished: nat,  // checkouts that have ended
    mutator: Mutator,
    present: bool,  // the probe file exists
    lock: Option<nat>,
    workers: seq<Worker>,
    observed: bool,  // a stable deleted window has been seen
    stats: Stats)

  datatype Step =
    | BeginCheckout
    | EndCheckout(ok: bool)
    | GiveUp
    | ChangeFile(present: bool)
    | LockAndRead(w: nat)
    | ReadProbe(w: nat)
    | Answer(w: nat, hits: nat)
    | Raise(w: nat)
    | LockAgain(w: nat)
    | Record(w: nat)
    | RecordError(w: nat)

  ghost predicate Init(s: State) {
    && s.generation == s.finished == 0 && s.mutator == Resting && s.present
    && s.lock == None && !s.observed && s.stats == Stats(0, 0, 0, 0)
    && forall w :: 0 <= w < |s.workers| ==> s.workers[w] == Idle
  }

  predicate StableDeleted(w: Worker, presentAfter: bool)
    requires w.ReadingLast?
  {
    w.before == w.after && w.after % 2 == 0 && !w.presentBefore && !presentAfter
  }

  function Recorded(s: State, w: Worker): State
    requires w.ReadingLast?
  {
    var window := StableDeleted(w, s.present);
    s.(stats := s.stats.(
         queries := s.stats.queries + 1,
         stableDeleted := s.stats.stableDeleted + (if window then 1 else 0),
         staleHits := s.stats.staleHits + (if window && w.hits != 0 then 1 else 0)),
       observed := s.observed || window,
       lock := None)
  }

  function Put(s: State, w: nat, worker: Worker): State
    requires w < |s.workers|
  {
    s.(workers := s.workers[w := worker])
  }

  /** One atomic action at instant `now`. Files change only while git checks a branch out;
      the daemon's answer is unconstrained. */
  ghost predicate Next(s: State, step: Step, now: nat, t: State) {
    match step
    case BeginCheckout =>
      && s.mutator == Resting && s.lock == None && s.finished < CHECKOUTS
      && (s.finished == 1 ==> s.observed)
      && t == s.(mutator := Switching, generation := s.generation + 1)
    case EndCheckout(ok) =>
      && s.mutator == Switching && s.lock == None
      && (ok ==> s.present == (s.finished % 2 == 1))  // even checkouts go to deleted-probe, odd ones to main
      && t == s.(mutator := if ok then Resting else Stopped,
                 finished := s.finished + 1, generation := s.generation + 1)
    case GiveUp =>
      s.mutator == Resting && s.finished == 1 && !s.observed && t == s.(mutator := Stopped)
    case ChangeFile(present) =>
      s.mutator == Switching && t == s.(present := present)
    case LockAndRead(w) =>
      && w < |s.workers| && s.workers[w] == Idle && s.lock == None
      && t == Put(s, w, ReadingFirst(now, s.generation)).(lock := Some(w))
    case ReadProbe(w) =>
      && w < |s.workers| && s.workers[w].ReadingFirst?
      && t == Put(s, w, Asking(s.workers[w].since, s.workers[w].before, s.present)).(lock := None)
    case Answer(w, hits) =>
      && w < |s.workers| && s.workers[w].Asking?
      && var q := s.workers[w];
      t == Put(s, w, Answered(q.since, q.before, q.presentBefore, hits))
    case Raise(w) =>
      w < |s.workers| && s.workers[w].Asking? && t == Put(s, w, Failed)
    case LockAgain(w) =>
      && w < |s.workers| && s.workers[w].Answered? && s.lock == None
      && var q := s.workers[w];
      t == Put(s, w, ReadingLast(q.since, q.before, q.presentBefore, q.hits, s.generation)).(lock := Some(w))
    case Record(w) =>
      && w < |s.workers| && s.workers[w].ReadingLast?
      && t == Put(Recorded(s, s.workers[w]), w, Idle)
    case RecordError(w) =>
      && w < |s.workers| && s.workers[w] == Failed && s.lock == None
      && t == Put(s, w, Idle).(stats := s.stats.(errors := if s.stats.errors < ERROR_CAP then s.stats.errors + 1
                                                            else s.stats.errors))
  }

  datatype Run = Run(states: seq<State>, steps: seq<Step>)

  ghost predicate IsRun(r: Run) {
    && |r.states| == |r.steps| + 1
    && Init(r.states[0])
    && forall n :: 0 <= n < |r.steps| ==> StepAt(r, n)
  }

  ghost predicate StepAt(r: Run, n: nat)
    requires n < |r.steps| && |r.states| == |r.steps| + 1
  {
    Next(r.states[n], r.steps[n], n, r.states[n + 1])
  }

  // ----- what every interleaving keeps -----

  ghost predicate CountersAgree(s: State) {
    && s.generation == 2 * s.finished + (if s.mutator == Switching then 1 else 0)
    && s.finished + (if s.mutator == Switching then 1 else 0) <= CHECKOUTS
    && (s.mutator == Resting ==> s.present == (s.finished % 2 == 0))
    && (s.observed <==> s.stats.stableDeleted > 0)
    && (s.finished > 1 || (s.finished == 1 && s.mutator == Switching) ==> s.observed)
    && s.stats.staleHits <= s.stats.stableDeleted <= s.stats.queries
  }

  /** The lock is held by the worker that is between its two reads of one instant, if there is one. */
  ghost predicate LockAgrees(s: State) {
    forall w :: 0 <= w < |s.workers| ==>
      (s.lock == Some(w) <==> s.workers[w].ReadingFirst? || s.workers[w].ReadingLast?)
  }

  ghost predicate Consistent(s: State) { CountersAgree(s) && LockAgrees(s) }

  lemma {:induction false} RunConsistent(r: Run, n: nat)
    requires IsRun(r) && n < |r.states|
    ensures Consistent(r.states[n])
  {
    if n > 0 {
      RunConsistent(r, n - 1);
      assert StepAt(r, n - 1);
      StepConsistent(r.states[n - 1], r.steps[n - 1], n - 1, r.states[n]);
    }
  }

  lemma {:induction false} StepCountersAgree(s: State, step: Step, now: nat, t: State)
    requires CountersAgree(s) && Next(s, step, now, t)
    ensures CountersAgree(t)
  {
  }

  lemma {:induction false} StepLockAgrees(s: State, step: Step, now: nat, t: State)
    requires LockAgrees(s) && Next(s, step, now, t)
    ensures LockAgrees(t)
  {
  }

  lemma {:induction false} StepConsistent(s: State, step: Step, now: nat, t: State)
    requires Consistent(s) && Next(s, step, now, t)
    ensures Consistent(t)
  {
    StepCountersAgree(s, step, now, t);
    StepLockAgrees(s, step, now, t);
  }

  // ----- nobody waits for ever -----

  ghost predicate Can(s: State, step: Step, now: nat) { exists t :: Next(s, step, now, t) }

  /** Whoever holds the lock can give it back with its next step. */
  lemma {:induction false} LockIsReturned(s: State, w: nat, now: nat)
    requires Consistent(s) && w < |s.workers| && s.lock == Some(w)
    ensures exists t :: (Next(s, ReadProbe(w), now, t) || Next(s, Record(w), now, t)) && t.lock == None
  {
    var q := s.workers[w];
    if q.ReadingFirst? {
      assert Next(s, ReadProbe(w), now, Put(s, w, Asking(q.since, q.before, s.present)).(lock := None));
    } else {
      assert Next(s, Record(w), now, Put(Recorded(s, q), w, Idle));
    }
  }

  /** While the lock is free every worker can go on; a query may answer anything or raise. */
  lemma {:induction false} WorkerGoesOn(s: State, w: nat, hits: nat, now: nat)
    requires Consistent(s) && w < |s.workers| && s.lock == None
    ensures var q := s.workers[w];
            if q.Asking? then Can(s, Answer(w, hits), now) && Can(s, Raise(w), now)
            else Can(s, LockAndRead(w), now) || Can(s, LockAgain(w), now) || Can(s, RecordError(w), now)
  {
    var q := s.workers[w];
    if q.Asking? {
      assert Next(s, Answer(w, hits), now, Put(s, w, Answered(q.since, q.before, q.presentBefore, hits)));
      assert Next(s, Raise(w), now, Put(s, w, Failed));
    } else if q.Idle? {
      assert Next(s, LockAndRead(w), now, Put(s, w, ReadingFirst(now, s.generation)).(lock := Some(w)));
    } else if q.Answered? {
      var last := ReadingLast(q.since, q.before, q.presentBefore, q.hits, s.generation);
      assert Next(s, LockAgain(w), now, Put(s, w, last).(lock := Some(w)));
    } else {
      var errors := if s.stats.errors < ERROR_CAP then s.stats.errors + 1 else s.stats.errors;
      assert Next(s, RecordError(w), now, Put(s, w, Idle).(stats := s.stats.(errors := errors)));
    }
  }

  /** While the lock is free the mutator can end its checkout, either way, or begin the next one, except that it
      must give up without an observed window after the first. */
  lemma {:induction false} MutatorGoesOn(s: State, now: nat)
    requires s.lock == None
    ensures s.mutator == Switching ==>
              var t := s.(present := s.finished % 2 == 1);
              && Can(s, EndCheckout(false), now)
              && Next(s, ChangeFile(s.finished % 2 == 1), now, t) && Can(t, EndCheckout(true), now + 1)
    ensures s.mutator == Resting && s.finished < 25 ==>
              if s.finished == 1 && !s.observed then Can(s, GiveUp, now) else Can(s, BeginCheckout, now)
  {
    if s.mutator == Switching {
      var t := s.(present := s.finished % 2 == 1);
      assert Next(s, ChangeFile(s.finished % 2 == 1), now, t);
      EndIsPossible(s, false, now);
      EndIsPossible(t, true, now + 1);
    } else if s.mutator == Resting && s.finished < 25 {
      if s.finished == 1 && !s.observed {
        assert Next(s, GiveUp, now, s.(mutator := Stopped));
      } else {
        assert Next(s, BeginCheckout, now, s.(mutator := Switching, generation := s.generation + 1));
      }
    }
  }

  lemma {:induction false} EndIsPossible(s: State, ok: bool, now: nat)
    requires s.lock == None && s.mutator == Switching && (ok ==> s.present == (s.finished % 2 == 1))
    ensures Can(s, EndCheckout(ok), now)
  {
    var t := s.(mutator := if ok then Resting else Stopped, finished := s.finished + 1, generation := s.generation + 1);
    assert Next(s, EndCheckout(ok), now, t);
  }

  /** Mutual exclusion: the counters change only while nobody holds the lock, or by the step of its holder. */
  lemma {:induction false} CountersUnderLock(s: State, step: Step, now: nat, t: State)
    requires Consistent(s) && Next(s, step, now, t)
    requires t.stats != s.stats || t.generation != s.generation || t.observed != s.observed
    ensures s.lock == None || (step.Record? && s.lock == Some(step.w))
  {
    if step.Record? { assert s.workers[step.w].ReadingLast?; }
  }

  /** The counter is even exactly when no checkout is in progress. */
  lemma {:induction false} GenerationParity(r: Run, n: nat)
    requires IsRun(r) && n < |r.states|
    ensures r.states[n].generation % 2 == 0 <==> r.states[n].mutator != Switching
  {
    RunConsistent(r, n);
  }

  // ----- a query's whole interval -----

  /** Neither a checkout nor the probe file at instant `n`. */
  ghost predicate DeletedAndCalm(s: State) {
    s.mutator != Switching && !s.present
  }

  ghost predicate DeletedThroughout(r: Run, first: nat, last: nat)
    requires last < |r.states|
  {
    forall n :: first <= n <= last ==> DeletedAndCalm(r.states[n])
  }

  lemma {:induction false} GenerationGrows(r: Run, first: nat, last: nat)
    requires IsRun(r) && first <= last < |r.states|
    ensures r.states[first].generation <= r.states[last].generation
    decreases last
  {
    if first < last {
      GenerationGrows(r, first, last - 1);
      assert StepAt(r, last - 1);
    }
  }

  /** Equal even readings: no checkout began in between, so the file never changed. */
  lemma {:induction false} EqualEvenReadings(r: Run, first: nat, last: nat)
    requires IsRun(r) && first <= last < |r.states|
    requires r.states[first].generation == r.states[last].generation
    requires r.states[first].generation % 2 == 0
    ensures forall n :: first <= n <= last ==>
              r.states[n].mutator != Switching && r.states[n].present == r.states[first].present
    decreases last
  {
    GenerationParity(r, first);
    if first < last {
      GenerationGrows(r, first, last - 1);
      GenerationGrows(r, last - 1, last);
      GenerationParity(r, last);
      EqualEvenReadings(r, first, last - 1);
      assert StepAt(r, last - 1);
    }
  }

  /** Without a checkout in progress at any instant the counter does not move. */
  lemma {:induction false} CalmKeepsGeneration(r: Run, first: nat, last: nat)
    requires IsRun(r) && first <= last < |r.states|
    requires forall n :: first <= n <= last ==> r.states[n].mutator != Switching
    ensures r.states[last].generation == r.states[first].generation
    decreases last
  {
    if first < last {
      CalmKeepsGeneration(r, first, last - 1);
      assert StepAt(r, last - 1);
    }
  }

  /** What a worker remembers was true at instants of its own query. */
  ghost predicate Remembers(r: Run, n: nat, w: nat)
    requires n < |r.states| && w < |r.states[n].workers|
  {
    var q := r.states[n].workers[w];
    if q.Idle? || q.Failed? then true
    else
      && q.since <= n
      && r.states[q.since].generation == q.before
      && (!q.ReadingFirst? ==> exists u :: q.since <= u <= n && r.states[u].present == q.presentBefore)
      && (q.ReadingLast? ==> r.states[n].generation == q.after)
  }

  /** How one step can move one worker. */
  ghost predicate Moves(s: State, now: nat, p: Worker, q: Worker) {
    || q == p || q == Idle || q == Failed
    || q == ReadingFirst(now, s.generation)
    || (p.ReadingFirst? && q == Asking(p.since, p.before, s.present))
    || (p.Asking? && q.Answered? && q == Answered(p.since, p.before, p.presentBefore, q.hits))
    || (p.Answered? && q == ReadingLast(p.since, p.before, p.presentBefore, p.hits, s.generation))
  }

  /** What one step does to one worker; the counter stands still while a worker moves or holds the lock. */
  lemma {:induction false} OneWorker(s: State, step: Step, now: nat, t: State, w: nat)
    requires LockAgrees(s) && Next(s, step, now, t) && w < |s.workers|
    ensures |t.workers| == |s.workers| && Moves(s, now, s.workers[w], t.workers[w])
    ensures t.workers[w] != s.workers[w] || s.workers[w].ReadingLast? ==> t.generation == s.generation
    ensures s.workers[w].Asking? && t.workers[w].Answered? ==> step == Answer(w, t.workers[w].hits)
  {
  }

  lemma {:induction false} SameWorkers(s: State, step: Step, now: nat, t: State)
    requires Next(s, step, now, t)
    ensures |t.workers| == |s.workers|
  {
  }

  /** What one step of a run does to one worker. */
  lemma {:induction false} OneWorkerOfRun(r: Run, n: nat, w: nat)
    requires IsRun(r) && n < |r.steps| && w < |r.states[n + 1].workers|
    ensures w < |r.states[n].workers|
    ensures Moves(r.states[n], n, r.states[n].workers[w], r.states[n + 1].workers[w])
    ensures r.states[n + 1].workers[w] != r.states[n].workers[w] || r.states[n].workers[w].ReadingLast? ==>
              r.states[n + 1].generation == r.states[n].generation
    ensures r.states[n].workers[w].Asking? && r.states[n + 1].workers[w].Answered? ==>
              r.steps[n] == Answer(w, r.states[n + 1].workers[w].hits)
  {
    RunConsistent(r, n);
    assert StepAt(r, n);
    SameWorkers(r.states[n], r.steps[n], n, r.states[n + 1]);
    OneWorker(r.states[n], r.steps[n], n, r.states[n + 1], w);
  }

  lemma {:induction false} RemembersNext(r: Run, n: nat, w: nat)
    requires 0 < n < |r.states| && w < |r.states[n].workers| && w < |r.states[n - 1].workers|
    requires Remembers(r, n - 1, w)
    requires Moves(r.states[n - 1], n - 1, r.states[n - 1].workers[w], r.states[n].workers[w])
    requires r.states[n].workers[w] != r.states[n - 1].workers[w] || r.states[n - 1].workers[w].ReadingLast? ==>
               r.states[n].generation == r.states[n - 1].generation
    ensures Remembers(r, n, w)
  {
    var p, q := r.states[n - 1].workers[w], r.states[n].workers[w];
    if !q.Idle? && !q.Failed? && !q.ReadingFirst? {
      if p.ReadingFirst? {
        assert r.states[n - 1].present == q.presentBefore;
      } else {
        var u :| p.since <= u <= n - 1 && r.states[u].present == p.presentBefore;
        assert r.states[u].present == q.presentBefore;
      }
    }
  }

  lemma {:induction false} WorkerRemembers(r: Run, n: nat, w: nat)
    requires IsRun(r) && n < |r.states| && w < |r.states[n].workers|
    ensures Remembers(r, n, w)
  {
    if n > 0 {
      OneWorkerOfRun(r, n - 1, w);
      WorkerRemembers(r, n - 1, w);
      RemembersNext(r, n, w);
    }
  }

  /** The seqlock decides correctly, in both directions and in every interleaving: a finishing
      query counts as a stable deleted window exactly when the probe was absent, with no
      checkout in progress, at every instant from its first read to its last. */
  lemma {:induction false} WindowIsExact(r: Run, n: nat, w: nat)
    requires IsRun(r) && n < |r.steps| && r.steps[n] == Record(w)
    ensures w < |r.states[n].workers| && r.states[n].workers[w].ReadingLast? && r.states[n].workers[w].since <= n
    ensures StableDeleted(r.states[n].workers[w], r.states[n].present) <==>
            DeletedThroughout(r, r.states[n].workers[w].since, n)
  {
    assert StepAt(r, n);
    WorkerRemembers(r, n, w);
    var q := r.states[n].workers[w];
    if StableDeleted(q, r.states[n].present) {
      EqualEvenReadings(r, q.since, n);
    }
    if DeletedThroughout(r, q.since, n) {
      assert forall m :: q.since <= m <= n ==> DeletedAndCalm(r.states[m]);
      CalmKeepsGeneration(r, q.since, n);
      GenerationParity(r, n);
      var u :| q.since <= u <= n && r.states[u].present == q.presentBefore;
      assert DeletedAndCalm(r.states[u]);
    }
  }

  // ----- the counters -----

  /** Step `n` ends a query that got an answer although the probe was absent throughout. */
  ghost predicate GenuinelyStale(r: Run, n: nat)
    requires n < |r.steps| && |r.states| == |r.steps| + 1
  {
    && r.steps[n].Record?
    && r.steps[n].w < |r.states[n].workers|
    && var q := r.states[n].workers[r.steps[n].w];
       q.ReadingLast? && q.hits != 0 && DeletedThroughout(r, q.since, n)
  }

  ghost function CountStale(r: Run, n: nat): nat
    requires n <= |r.steps| && |r.states| == |r.steps| + 1
  {
    if n == 0 then 0 else CountStale(r, n - 1) + (if GenuinelyStale(r, n - 1) then 1 else 0)
  }

  lemma {:induction false} StaleNext(s: State, step: Step, now: nat, t: State)
    requires Next(s, step, now, t)
    ensures step.Record? ==> step.w < |s.workers| && s.workers[step.w].ReadingLast?
    ensures var stale := step.Record? && StableDeleted(s.workers[step.w], s.present) && s.workers[step.w].hits != 0;
            t.stats.staleHits == s.stats.staleHits + (if stale then 1 else 0)
  {
  }

  lemma {:induction false} StaleCounted(r: Run, n: nat)
    requires IsRun(r) && n < |r.steps|
    ensures r.states[n + 1].stats.staleHits ==
            r.states[n].stats.staleHits + (if GenuinelyStale(r, n) then 1 else 0)
  {
    assert StepAt(r, n);
    StaleNext(r.states[n], r.steps[n], n, r.states[n + 1]);
    if r.steps[n].Record? { WindowIsExact(r, n, r.steps[n].w); }
  }

  ghost predicate CountsStale(r: Run, n: nat)
    requires n < |r.steps| && |r.states| == |r.steps| + 1
  {
    r.states[n + 1].stats.staleHits == r.states[n].stats.staleHits + (if GenuinelyStale(r, n) then 1 else 0)
  }

  lemma {:induction false} StaleAddUp(r: Run, n: nat)
    requires |r.states| == |r.steps| + 1 && n <= |r.steps| && r.states[0].stats.staleHits == 0
    requires forall k :: 0 <= k < |r.steps| ==> CountsStale(r, k)
    ensures r.states[n].stats.staleHits == CountStale(r, n)
  {
    if n > 0 {
      StaleAddUp(r, n - 1);
      assert CountsStale(r, n - 1);
    }
  }

  /** `stable_deleted_hits` counts precisely the genuinely stale answers. */
  lemma {:induction false} StaleHitsAreExact(r: Run, n: nat)
    requires IsRun(r) && n < |r.states|
    ensures r.states[n].stats.staleHits == CountStale(r, n)
  {
    forall k | 0 <= k < |r.steps| ensures CountsStale(r, k) { StaleCounted(r, k); }
    StaleAddUp(r, n);
  }

  /** Each answer reflects the probe's state at some instant of the query so far. */
  ghost predicate Honest(r: Run)
    requires |r.states| == |r.steps| + 1
  {
    forall n :: 0 <= n < |r.steps| && r.steps[n].Answer? ==> HonestAnswer(r, n)
  }

  ghost predicate HonestAnswer(r: Run, n: nat)
    requires n < |r.steps| && r.steps[n].Answer? && |r.states| == |r.steps| + 1
  {
    var w := r.steps[n].w;
    w < |r.states[n].workers| && r.states[n].workers[w].Asking? &&
    exists u :: r.states[n].workers[w].since <= u <= n && (r.steps[n].hits != 0 <==> r.states[u].present)
  }

  ghost predicate Justified(r: Run, n: nat, q: Worker)
    requires n < |r.states|
  {
    (q.Answered? || q.ReadingLast?) && q.hits != 0 ==>
      exists u :: q.since <= u <= n && r.states[u].present
  }

  lemma {:induction false} JustifiedNext(r: Run, n: nat, p: Worker, q: Worker)
    requires n + 1 < |r.states| && Justified(r, n, p) && Moves(r.states[n], n, p, q)
    requires p.Asking? && q.Answered? && q.hits != 0 ==> exists u :: p.since <= u <= n && r.states[u].present
    ensures Justified(r, n + 1, q)
  {
    if (q.Answered? || q.ReadingLast?) && q.hits != 0 {
      var u :| p.since <= u <= n && r.states[u].present;
      assert q.since <= u <= n + 1 && r.states[u].present;
    }
  }

  lemma {:induction false} AnswerSeen(r: Run, n: nat, w: nat, hits: nat)
    requires |r.states| == |r.steps| + 1 && Honest(r) && n < |r.steps| && r.steps[n] == Answer(w, hits) && hits != 0
    ensures w < |r.states[n].workers| && r.states[n].workers[w].Asking?
    ensures exists u :: r.states[n].workers[w].since <= u <= n && r.states[u].present
  {
    assert HonestAnswer(r, n);
  }

  lemma {:induction false} HonestHitsJustified(r: Run, n: nat, w: nat)
    requires IsRun(r) && Honest(r) && n < |r.states| && w < |r.states[n].workers|
    ensures Justified(r, n, r.states[n].workers[w])
  {
    if n > 0 {
      OneWorkerOfRun(r, n - 1, w);
      HonestHitsJustified(r, n - 1, w);
      var p, q := r.states[n - 1].workers[w], r.states[n].workers[w];
      if p.Asking? && q.Answered? && q.hits != 0 { AnswerSeen(r, n - 1, w, q.hits); }
      JustifiedNext(r, n - 1, p, q);
    }
  }

  lemma {:induction false} HonestDaemonNeverStale(r: Run, n: nat)
    requires IsRun(r) && Honest(r) && n < |r.states|
    ensures r.states[n].stats.staleHits == 0
  {
    StaleHitsAreExact(r, n);
    NoGenuineStale(r, n);
  }

  lemma {:induction false} NoGenuineStale(r: Run, n: nat)
    requires IsRun(r) && Honest(r) && n < |r.states|
    ensures CountStale(r, n) == 0
  {
    if n > 0 {
      NoGenuineStale(r, n - 1);
      HonestAnswerNotStale(r, n - 1);
    }
  }

  lemma {:induction false} SeenPresent(r: Run, first: nat, last: nat, u: nat)
    requires first <= u <= last < |r.states| && r.states[u].present
    ensures !DeletedThroughout(r, first, last)
  {
    assert !DeletedAndCalm(r.states[u]);
  }

  lemma {:induction false} HonestAnswerNotStale(r: Run, n: nat)
    requires IsRun(r) && Honest(r) && n < |r.steps|
    ensures !GenuinelyStale(r, n)
  {
    if r.steps[n].Record? && r.steps[n].w < |r.states[n].workers| {
      var q := r.states[n].workers[r.steps[n].w];
      if q.ReadingLast? && q.hits != 0 {
        HonestHitsJustified(r, n, r.steps[n].w);
        var u :| q.since <= u <= n && r.states[u].present;
        SeenPresent(r, q.since, n, u);
      }
    }
  }

  /** The verdict after all threads have joined. */
  predicate Passes(stats: Stats) {
    stats.queries != 0 && stats.stableDeleted != 0 && stats.errors == 0 && stats.staleHits == 0
  }

  // ----- every counter is a number of steps -----

  /** The instants before `n` of some kind. */
  ghost function Before(n: nat, kind: nat -> bool): set<nat> { set k: nat | k < n && kind(k) }

  lemma {:induction false} BeforeNext(n: nat, kind: nat -> bool)
    ensures |Before(n + 1, kind)| == |Before(n, kind)| + (if kind(n) then 1 else 0)
  {
    if kind(n) {
      assert Before(n + 1, kind) == Before(n, kind) + {n};
    } else {
      assert Before(n + 1, kind) == Before(n, kind);
    }
  }

  /** The steps that end a query with an answer. */
  ghost function Ends(r: Run): nat -> bool { (k: nat) => k < |r.steps| && r.steps[k].Record? }

  /** Those of them whose query ran from first to last while the probe was deleted and no checkout ran. */
  ghost function EndsInWindow(r: Run): nat -> bool
    requires |r.states| == |r.steps| + 1
  {
    (k: nat) => k < |r.steps| && r.steps[k].Record? && r.steps[k].w < |r.states[k].workers| &&
         r.states[k].workers[r.steps[k].w].ReadingLast? &&
         DeletedThroughout(r, r.states[k].workers[r.steps[k].w].since, k)
  }

  ghost function RecordsError(r: Run): nat -> bool { (k: nat) => k < |r.steps| && r.steps[k].RecordError? }

  ghost function BeginsCheckout(r: Run): nat -> bool { (k: nat) => k < |r.steps| && r.steps[k].BeginCheckout? }

  ghost function EndsCheckout(r: Run): nat -> bool { (k: nat) => k < |r.steps| && r.steps[k].EndCheckout? }

  /** What one step adds to the numbers of queries, windows and errors. */
  lemma {:induction false} StatsNext(s: State, step: Step, now: nat, t: State)
    requires Next(s, step, now, t)
    ensures step.Record? ==> step.w < |s.workers| && s.workers[step.w].ReadingLast?
    ensures t.stats.queries == s.stats.queries + (if step.Record? then 1 else 0)
    ensures t.stats.stableDeleted ==
            s.stats.stableDeleted + (if step.Record? && StableDeleted(s.workers[step.w], s.present) then 1 else 0)
    ensures t.stats.errors == if step.RecordError? && s.stats.errors < 5 then s.stats.errors + 1 else s.stats.errors
  {
  }

  lemma {:induction false} CheckoutsNext(s: State, step: Step, now: nat, t: State)
    requires Next(s, step, now, t)
    ensures t.finished == s.finished + (if step.EndCheckout? then 1 else 0)
    ensures t.generation == s.generation + (if step.BeginCheckout? || step.EndCheckout? then 1 else 0)
  {
  }

  lemma {:induction false} StatsCounted(r: Run, n: nat)
    requires IsRun(r) && n < |r.steps|
    ensures r.states[n + 1].stats.queries == r.states[n].stats.queries + (if Ends(r)(n) then 1 else 0)
    ensures r.states[n + 1].stats.stableDeleted ==
            r.states[n].stats.stableDeleted + (if EndsInWindow(r)(n) then 1 else 0)
    ensures r.states[n + 1].stats.errors ==
            if RecordsError(r)(n) && r.states[n].stats.errors < 5 then r.states[n].stats.errors + 1
            else r.states[n].stats.errors
  {
    assert StepAt(r, n);
    StatsNext(r.states[n], r.steps[n], n, r.states[n + 1]);
    if r.steps[n].Record? { WindowIsExact(r, n, r.steps[n].w); }
  }

  /** Every query that ended is counted, those that ended in a window of deletion are counted as such, and
      the errors kept are the first five. */
  lemma {:induction false} StatsAreExact(r: Run, n: nat)
    requires IsRun(r) && n <= |r.steps|
    ensures r.states[n].stats.queries == |Before(n, Ends(r))|
    ensures r.states[n].stats.stableDeleted == |Before(n, EndsInWindow(r))|
    ensures var errors := |Before(n, RecordsError(r))|; r.states[n].stats.errors == if errors < 5 then errors else 5
  {
    if n == 0 {
      assert Before(0, Ends(r)) == Before(0, EndsInWindow(r)) == Before(0, RecordsError(r)) == {};
    } else {
      StatsAreExact(r, n - 1);
      StatsCounted(r, n - 1);
      BeforeNext(n - 1, Ends(r));
      BeforeNext(n - 1, EndsInWindow(r));
      BeforeNext(n - 1, RecordsError(r));
    }
  }

  lemma {:induction false} CheckoutsCounted(r: Run, n: nat)
    requires IsRun(r) && n < |r.steps|
    ensures r.states[n + 1].finished == r.states[n].finished + (if EndsCheckout(r)(n) then 1 else 0)
    ensures r.states[n + 1].generation ==
            r.states[n].generation + (if BeginsCheckout(r)(n) then 1 else 0) + (if EndsCheckout(r)(n) then 1 else 0)
  {
    assert StepAt(r, n);
    CheckoutsNext(r.states[n], r.steps[n], n, r.states[n + 1]);
  }

  /** The generation counts every beginning and every end of a checkout. */
  lemma {:induction false} CheckoutsAreExact(r: Run, n: nat)
    requires IsRun(r) && n <= |r.steps|
    ensures r.states[n].finished == |Before(n, EndsCheckout(r))|
    ensures r.states[n].generation == |Before(n, BeginsCheckout(r))| + |Before(n, EndsCheckout(r))|
  {
    if n == 0 {
      assert Before(0, BeginsCheckout(r)) == Before(0, EndsCheckout(r)) == {};
    } else {
      CheckoutsAreExact(r, n - 1);
      CheckoutsCounted(r, n - 1);
      BeforeNext(n - 1, BeginsCheckout(r));
      BeforeNext(n - 1, EndsCheckout(r));
    }
  }

  // ----- the verdict -----

  ghost predicate NoneRaised(r: Run, n: nat)
    requires n <= |r.steps|
  {
    forall k :: 0 <= k < n ==> !r.steps[k].Raise?
  }

  ghost predicate NoErrorRecorded(r: Run, n: nat)
    requires n <= |r.steps|
  {
    forall k :: 0 <= k < n ==> !r.steps[k].RecordError?
  }

  /** No exception of a query waits to be recorded. */
  ghost predicate Joined(s: State) { forall w :: 0 <= w < |s.workers| ==> s.workers[w] != Failed }

  lemma {:induction false} ErrorsCounted(r: Run, n: nat)
    requires IsRun(r) && n <= |r.steps|
    ensures r.states[n].stats.errors == 0 <==> NoErrorRecorded(r, n)
  {
    if n > 0 {
      ErrorsCounted(r, n - 1);
      assert StepAt(r, n - 1);
    }
  }

  lemma {:induction false} NoneFails(r: Run, n: nat)
    requires IsRun(r) && n <= |r.steps| && NoneRaised(r, n)
    ensures Joined(r.states[n]) && NoErrorRecorded(r, n)
  {
    if n > 0 {
      NoneFails(r, n - 1);
      assert StepAt(r, n - 1);
      assert !r.steps[n - 1].Raise?;
    }
  }

  lemma {:induction false} FailureStays(r: Run, n: nat, k: nat)
    requires IsRun(r) && k < n <= |r.steps| && r.steps[k].Raise? && NoErrorRecorded(r, n)
    ensures !Joined(r.states[n])
  {
    var w := r.steps[k].w;
    assert StepAt(r, n - 1);
    if k == n - 1 {
      assert r.states[n].workers[w] == Failed;
    } else {
      FailureStays(r, n - 1, k);
      var v :| 0 <= v < |r.states[n - 1].workers| && r.states[n - 1].workers[v] == Failed;
      assert !r.steps[n - 1].RecordError?;
      assert r.states[n].workers[v] == Failed;
    }
  }

  /** When every failure has been recorded, errors were recorded exactly if a query raised. */
  lemma {:induction false} ErrorsAreRaised(r: Run, n: nat)
    requires IsRun(r) && n <= |r.steps| && Joined(r.states[n])
    ensures NoErrorRecorded(r, n) <==> NoneRaised(r, n)
  {
    if NoneRaised(r, n) {
      NoneFails(r, n);
    } else if NoErrorRecorded(r, n) {
      var k :| 0 <= k < n && r.steps[k].Raise?;
      FailureStays(r, n, k);
    }
  }

  /** Once every checkout has been made, the last one too without an error, the verdict depends on
      nothing but the daemon: it is a pass exactly when no error was recorded and no answer was
      genuinely stale; and when the workers have joined, none recorded means that no query raised. */
  lemma {:induction false} VerdictIsExact(r: Run)
    requires IsRun(r) && r.states[|r.steps|].finished == CHECKOUTS && r.states[|r.steps|].mutator == Resting
    ensures Passes(r.states[|r.steps|].stats) <==> NoErrorRecorded(r, |r.steps|) && CountStale(r, |r.steps|) == 0
    ensures Honest(r) && NoErrorRecorded(r, |r.steps|) ==> Passes(r.states[|r.steps|].stats)
    ensures Joined(r.states[|r.steps|]) ==> (NoErrorRecorded(r, |r.steps|) <==> NoneRaised(r, |r.steps|))
  {
    var n := |r.steps|;
    RunConsistent(r, n);
    StaleHitsAreExact(r, n);
    ErrorsCounted(r, n);
    if Honest(r) { HonestDaemonNeverStale(r, n); }
    if Joined(r.states[n]) { ErrorsAreRaised(r, n); }
  }
}
