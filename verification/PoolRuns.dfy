/**
 Whole operations of the worker pool: what a push or a turn of a worker adds up to
 when no other thread steps in between.
 */
module PoolRuns {
  import opened WorkerPool

  /** The step is one that the given thread takes itself. */
  predicate StepOf<T>(step: Step<T>, me: Holder) {
    match step
    case ProducerStep(i, _, _) => me == ByProducer(i)
    case WorkerStep(j, _) => me == ByWorker(j)
    case _ => false
  }

  ghost predicate StepsOf<T>(steps: seq<Step<T>>, me: Holder) {
    forall k :: 0 <= k < |steps| ==> StepOf(steps[k], me)
  }

  /** A run in which only the given thread takes steps leads from s to s'. */
  ghost predicate Leads<T(!new)>(s: State<T>, s': State<T>, me: Holder) {
    exists steps: seq<Step<T>> :: IsRun(s, steps) && StepsOf(steps, me) && After(s, steps) == s'
  }

  lemma {:induction false} RunConcat<T>(s: State<T>, steps: seq<Step<T>>, more: seq<Step<T>>)
    requires IsRun(s, steps) && IsRun(After(s, steps), more)
    ensures IsRun(s, steps + more) && After(s, steps + more) == After(After(s, steps), more)
    decreases |steps|
  {
    if steps == [] {
      assert steps + more == more;
    } else {
      assert (steps + more)[1..] == steps[1..] + more;
      RunConcat(Next(s, steps[0]), steps[1..], more);
    }
  }

  lemma LeadsOn<T(!new)>(s: State<T>, s1: State<T>, s2: State<T>, me: Holder)
    requires Leads(s, s1, me) && Leads(s1, s2, me)
    ensures Leads(s, s2, me)
  {
    var steps: seq<Step<T>> :| IsRun(s, steps) && StepsOf(steps, me) && After(s, steps) == s1;
    var more: seq<Step<T>> :| IsRun(s1, more) && StepsOf(more, me) && After(s1, more) == s2;
    RunConcat(s, steps, more);
    assert StepsOf(steps + more, me);
  }

  lemma ReachableOn<T(!new)>(s: State<T>, s': State<T>, me: Holder)
    requires Reachable(s) && Leads(s, s', me)
    ensures Reachable(s')
  {
    var s0, steps :| Initial(s0) && IsRun(s0, steps) && After(s0, steps) == s;
    var more: seq<Step<T>> :| IsRun(s, more) && StepsOf(more, me) && After(s, more) == s';
    RunConcat(s0, steps, more);
  }

  lemma Stay<T(!new)>(s: State<T>, me: Holder)
    ensures Leads(s, s, me)
  {
    assert IsRun(s, []) && StepsOf<T>([], me) && After(s, []) == s;
  }

  /** One more step of the thread. */
  lemma Go<T(!new)>(s: State<T>, s1: State<T>, me: Holder, step: Step<T>) returns (s': State<T>)
    requires Leads(s, s1, me) && Enabled(s1, step) && StepOf(step, me)
    ensures s' == Next(s1, step) && Leads(s, s', me)
  {
    s' := Next(s1, step);
    assert [step][1..] == [];
    assert IsRun(s', []) && After(s', []) == s';
    assert IsRun(s1, [step]) && StepsOf([step], me) && After(s1, [step]) == s';
    LeadsOn(s, s1, s', me);
  }

  lemma InitialReachable<T(!new)>(s: State<T>)
    requires Initial(s)
    ensures Reachable(s)
  {
    assert IsRun(s, []) && After(s, []) == s;
  }

  /** The state after a push. */
  function Pushed<T>(s: State<T>, i: nat, x: T, woken: set<nat>): State<T>
    requires i < |s.producers|
  {
    s.(queue := s.queue + [x], pushed := s.pushed + [x],
       empty := false, full := s.full || |s.queue| + 1 == s.max, lock := Free,
       workers := if s.empty then WakeWorkers(s.workers, woken) else s.workers,
       producers := s.producers[i := Idle])
  }

  lemma PushOn<T(!new)>(s: State<T>, i: nat, x: T, woken: set<nat>) returns (s': State<T>)
    requires i < |s.producers| && s.producers[i] == CheckFull(x) && !s.full
    requires s.empty ==> WakesWorkers(s.workers, woken)
    ensures Leads(s, s', ByProducer(i)) && s' == Pushed(s, i, x, woken)
  {
    var step := ProducerStep(i, x, woken);
    hide Leads, WakesWorkers, WakeWorkers;
    Stay(s, ByProducer(i));
    var s1 := Go(s, s, ByProducer(i), step);
    var s2 := Go(s, s1, ByProducer(i), step);
    assert s2.producers[i] == SignalNotEmpty && s2.empty == s.empty && s2.workers == s.workers;
    var s3 := Go(s, s2, ByProducer(i), step);
    var s4 := Go(s, s3, ByProducer(i), step);
    var s5 := Go(s, s4, ByProducer(i), step);
    s' := Go(s, s5, ByProducer(i), step);
    assert s'.producers == s.producers[i := Idle];
  }

  /** A push without interruption: its steps lead to a state in which the queue has one
      element more and the flags are exact again, with workers woken exactly when the
      queue was empty. */
  lemma PushRuns<T(!new)>(s: State<T>, i: nat, x: T, woken: set<nat>) returns (s': State<T>)
    requires s.lock == Free && i < |s.producers| && s.producers[i].Idle? && !s.full
    requires s.empty ==> WakesWorkers(s.workers, woken)
    ensures Leads(s, s', ByProducer(i))
    ensures s' == s.(queue := s.queue + [x], pushed := s.pushed + [x],
                     empty := false, full := |s.queue| + 1 == s.max,
                     workers := if s.empty then WakeWorkers(s.workers, woken) else s.workers)
  {
    var step := ProducerStep(i, x, woken);
    hide Leads, WakesWorkers, WakeWorkers;
    Stay(s, ByProducer(i));
    var s1 := Go(s, s, ByProducer(i), step);
    var s2 := Go(s, s1, ByProducer(i), step);
    s' := PushOn(s2, i, x, woken);
    LeadsOn(s, s2, s', ByProducer(i));
    assert s'.producers == s.producers;
  }

  /** A push that was blocked, has been woken, and finds room. */
  lemma WokenPushRuns<T(!new)>(s: State<T>, i: nat, x: T, woken: set<nat>) returns (s': State<T>)
    requires s.lock == Free && i < |s.producers| && s.producers[i] == WokenNotFull(x) && !s.full
    requires s.empty ==> WakesWorkers(s.workers, woken)
    ensures Leads(s, s', ByProducer(i)) && s' == Pushed(s, i, x, woken)
  {
    hide Leads, WakesWorkers, WakeWorkers;
    Stay(s, ByProducer(i));
    var s1 := Go(s, s, ByProducer(i), ProducerStep(i, x, woken));
    s' := PushOn(s1, i, x, woken);
    LeadsOn(s, s1, s', ByProducer(i));
    assert s'.producers == s.producers[i := Idle];
  }

  /** A push that finds the queue full goes to sleep. */
  lemma BlockRuns<T(!new)>(s: State<T>, i: nat, x: T) returns (s': State<T>)
    requires s.lock == Free && i < |s.producers| && s.producers[i].Idle? && s.full
    ensures Leads(s, s', ByProducer(i)) && s' == s.(producers := s.producers[i := AsleepNotFull(x)])
  {
    var step := ProducerStep(i, x, {});
    hide Leads;
    Stay(s, ByProducer(i));
    var s1 := Go(s, s, ByProducer(i), step);
    var s2 := Go(s, s1, ByProducer(i), step);
    s' := Go(s, s2, ByProducer(i), step);
    assert s'.producers == s.producers[i := AsleepNotFull(x)];
  }

  /** A worker that finds the queue empty goes to sleep. */
  lemma SleepRuns<T(!new)>(s: State<T>, j: nat) returns (s': State<T>)
    requires s.lock == Free && j < |s.workers| && s.workers[j].LockPop? && s.empty
    ensures Leads(s, s', ByWorker(j)) && s' == s.(workers := s.workers[j := AsleepNotEmpty])
  {
    var step := WorkerStep(j, {});
    hide Leads;
    Stay(s, ByWorker(j));
    var s1 := Go(s, s, ByWorker(j), step);
    s' := Go(s, s1, ByWorker(j), step);
    assert s'.workers == s.workers[j := AsleepNotEmpty];
  }

  /** A pop without interruption: the first element is taken, the flags become exact
      again, and producers are woken exactly when the queue was full. */
  lemma PopRuns<T(!new)>(s: State<T>, j: nat, woken: set<nat>) returns (s': State<T>)
    requires s.lock == Free && j < |s.workers|
    requires s.workers[j].LockPop? || s.workers[j].WokenNotEmpty?
    requires s.queue != [] && !s.empty && (s.full ==> WakesProducers(s.producers, woken))
    ensures Leads(s, s', ByWorker(j))
    ensures s' == s.(queue := s.queue[1..], popped := s.popped + [s.queue[0]],
                     empty := |s.queue| == 1, full := false,
                     producers := if s.full then WakeProducers(s.producers, woken) else s.producers,
                     workers := s.workers[j := LockInc(Job(s.queue[0], |s.popped|))])
  {
    var step := WorkerStep(j, woken);
    hide Leads, WakesProducers, WakeProducers;
    Stay(s, ByWorker(j));
    var s1 := Go(s, s, ByWorker(j), step);
    var s2 := Go(s, s1, ByWorker(j), step);
    var s3 := Go(s, s2, ByWorker(j), step);
    var s4 := Go(s, s3, ByWorker(j), step);
    assert s4.workers[j].SignalNotFull? && s4.full == s.full && s4.producers == s.producers;
    var s5 := Go(s, s4, ByWorker(j), step);
    var s6 := Go(s, s5, ByWorker(j), step);
    s' := Go(s, s6, ByWorker(j), step);
    assert s'.workers == s.workers[j := LockInc(Job(s.queue[0], |s.popped|))];
  }

  lemma StartRuns<T(!new)>(s: State<T>, j: nat) returns (s': State<T>)
    requires s.statics == Free && j < |s.workers| && s.workers[j].LockInc?
    ensures Leads(s, s', ByWorker(j))
    ensures s' == s.(running := s.running + 1, workers := s.workers[j := Working(s.workers[j].job)])
  {
    var step := WorkerStep(j, {});
    hide Leads, WakesProducers, WakeProducers;
    Stay(s, ByWorker(j));
    var s1 := Go(s, s, ByWorker(j), step);
    var s2 := Go(s, s1, ByWorker(j), step);
    var s3 := Go(s, s2, ByWorker(j), step);
    s' := Go(s, s3, ByWorker(j), step);
    assert s'.workers == s.workers[j := Working(s.workers[j].job)];
  }

  lemma FinishRuns<T(!new)>(s: State<T>, j: nat) returns (s': State<T>)
    requires s.statics == Free && j < |s.workers| && s.workers[j].Working?
    ensures Leads(s, s', ByWorker(j))
    ensures s' == s.(running := s.running - 1, finished := s.finished + {s.workers[j].job.ticket},
                     workers := s.workers[j := LockPop])
  {
    var step := WorkerStep(j, {});
    hide Leads, WakesProducers, WakeProducers;
    Stay(s, ByWorker(j));
    var s1 := Go(s, s, ByWorker(j), step);
    var s2 := Go(s, s1, ByWorker(j), step);
    var s3 := Go(s, s2, ByWorker(j), step);
    var s4 := Go(s, s3, ByWorker(j), step);
    s' := Go(s, s4, ByWorker(j), step);
    assert s'.workers == s.workers[j := LockPop];
  }

  /** A whole turn of a worker: it takes the first element, runs its task, and is
      about to enter pop again. */
  lemma TurnRuns<T(!new)>(s: State<T>, j: nat, woken: set<nat>) returns (s': State<T>)
    requires s.lock == Free && s.statics == Free && j < |s.workers|
    requires s.workers[j].LockPop? || s.workers[j].WokenNotEmpty?
    requires s.queue != [] && !s.empty && (s.full ==> WakesProducers(s.producers, woken))
    ensures Leads(s, s', ByWorker(j))
    ensures s' == s.(queue := s.queue[1..], popped := s.popped + [s.queue[0]],
                     empty := |s.queue| == 1, full := false,
                     producers := if s.full then WakeProducers(s.producers, woken) else s.producers,
                     finished := s.finished + {|s.popped|}, workers := s.workers[j := LockPop])
  {
    hide Leads, WakesProducers, WakeProducers;
    var s1 := PopRuns(s, j, woken);
    var s2 := StartRuns(s1, j);
    s' := FinishRuns(s2, j);
    LeadsOn(s, s1, s2, ByWorker(j));
    LeadsOn(s, s2, s', ByWorker(j));
    assert s'.workers == s.workers[j := LockPop];
  }

  // ------------------------------------------------------ many operations

  /** The start of a pool with w workers and n threads that push. */
  function Start<T>(w: nat, n: nat): State<T> {
    State(2000, [], true, false, Free, Free, 0, seq(n, _ => Idle), seq(w, _ => LockPop), [], [], {})
  }

  /** With the queue empty, one worker after the other goes to sleep. */
  lemma {:induction false} SleepAllRuns<T(!new)>(s: State<T>, k: nat) returns (s': State<T>)
    requires Reachable(s) && s.lock == Free && s.empty && k <= |s.workers|
    requires forall j :: 0 <= j < k ==> s.workers[j].AsleepNotEmpty?
    requires forall j :: k <= j < |s.workers| ==> s.workers[j].LockPop?
    ensures Reachable(s') && s' == s.(workers := s'.workers) && |s'.workers| == |s.workers|
    ensures forall j :: 0 <= j < |s'.workers| ==> s'.workers[j].AsleepNotEmpty?
    decreases |s.workers| - k
  {
    hide Reachable, Leads;
    if k == |s.workers| {
      s' := s;
    } else {
      var s1 := SleepRuns(s, k);
      ReachableOn(s, s1, ByWorker(k));
      s' := SleepAllRuns(s1, k + 1);
    }
  }

  lemma WakeNobody<T>(s: State<T>)
    requires !SomeWorkerSleeps(s.workers)
    ensures WakesWorkers(s.workers, {}) && WakeWorkers(s.workers, {}) == s.workers
  {
  }

  /** Pushing until the queue is full. */
  lemma {:induction false} FillRuns<T(!new)>(s: State<T>, i: nat, x: T) returns (s': State<T>)
    requires Reachable(s) && s.lock == Free && i < |s.producers| && s.producers[i].Idle? && 0 < s.max
    requires s.empty ==> !SomeWorkerSleeps(s.workers)
    ensures Reachable(s') && Leads(s, s', ByProducer(i))
    ensures |s'.queue| == s.max && s'.full && !s'.empty && s'.lock == Free
    ensures s'.producers == s.producers && s'.workers == s.workers && s'.statics == s.statics && s'.max == s.max
    decreases s.max - |s.queue|
  {
    QueueInEveryRun(s);
    if s.full {
      s' := s;
      Stay(s, ByProducer(i));
    } else {
      if s.empty { WakeNobody(s); }
      hide Reachable, Leads, SomeWorkerSleeps, WakesWorkers, WakeWorkers;
      var s1 := PushRuns(s, i, x, {});
      ReachableOn(s, s1, ByProducer(i));
      s' := FillRuns(s1, i, x);
      LeadsOn(s, s1, s', ByProducer(i));
    }
  }

  /** A worker runs all queued tasks. */
  lemma {:induction false} DrainRuns<T(!new)>(s: State<T>, j: nat) returns (s': State<T>)
    requires Reachable(s) && s.lock == Free && s.statics == Free && !s.full
    requires j < |s.workers| && s.workers[j].LockPop?
    ensures Reachable(s') && Leads(s, s', ByWorker(j))
    ensures s'.queue == [] && s'.empty && !s'.full && s'.lock == Free && s'.statics == Free
    ensures s'.producers == s.producers && s'.workers == s.workers && s'.max == s.max
    decreases |s.queue|
  {
    QueueInEveryRun(s);
    if s.queue == [] {
      s' := s;
      Stay(s, ByWorker(j));
    } else {
      hide Reachable, Leads, WakesProducers, WakeProducers;
      var s1 := TurnRuns(s, j, {});
      ReachableOn(s, s1, ByWorker(j));
      assert s1.workers == s.workers;
      s' := DrainRuns(s1, j);
      LeadsOn(s, s1, s', ByWorker(j));
    }
  }
}
