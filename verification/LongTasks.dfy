/**
 What the pool does not guarantee: signals are sent only when the queue stops
 being empty, so a second element pushed before the woken worker runs wakes
 nobody. With tasks that never end, as a stage queues at start-up, such an element
 can stay in the queue for ever while workers sleep.
 */
module LongTasks {
  import opened WorkerPool
  import opened PoolRuns

  /** Elements are queued, nobody is about to signal, and every worker either runs
      a task or sleeps. */
  ghost predicate Stalled<T>(s: State<T>) {
    && Invariant(s) && s.queue != [] && !SignalDueNotEmpty(s)
    && forall j :: 0 <= j < |s.workers| ==> s.workers[j].Working? || s.workers[j].AsleepNotEmpty?
  }

  /** In such a state only finishing a task, or a spurious wake-up, moves a worker. */
  lemma StalledWorkersMove<T>(s: State<T>, j: nat, woken: set<nat>)
    requires Stalled(s) && WorkerEnabled(s, j, woken)
    ensures s.workers[j].Working?
  {
  }

  /** The step neither ends a task nor wakes a worker for no reason. */
  predicate EndsNoTask<T>(s: State<T>, step: Step<T>) {
    && !step.SpuriousWorker?
    && (step.WorkerStep? && step.who < |s.workers| ==> !s.workers[step.who].Working?)
  }

  ghost predicate NoTaskEnds<T>(s: State<T>, steps: seq<Step<T>>)
    requires IsRun(s, steps)
    decreases |steps|
  {
    steps != [] ==> EndsNoTask(s, steps[0]) && NoTaskEnds(Next(s, steps[0]), steps[1..])
  }

  lemma NoSignalDue<T>(s: State<T>, i: nat)
    requires Stalled(s) && i < |s.producers|
    ensures s.producers[i].Append? || s.producers[i].SignalNotEmpty? ==> !s.empty
    ensures HoldsLockP(s.producers[i]) <==> s.lock == ByProducer(i)
  {
    assert Consistent(s) && OneInside(s.producers, s.workers, s.lock);
  }

  lemma StalledProducer<T>(s: State<T>, i: nat, qe: T, woken: set<nat>)
    requires Stalled(s) && ProducerEnabled(s, i, woken)
    ensures var s' := ProducerNext(s, i, qe, woken);
      && s'.workers == s.workers && s'.popped == s.popped && s.queue <= s'.queue
      && !SignalDueNotEmpty(s')
  {
    NoSignalDue(s, i);
    ProducerMoves(s, i, qe, woken);
    hide Invariant, WakeWorkers, WakesWorkers;
  }

  lemma StalledStep<T>(s: State<T>, step: Step<T>)
    requires Stalled(s) && Enabled(s, step) && EndsNoTask(s, step)
    ensures var s' := Next(s, step);
      Stalled(s') && s'.workers == s.workers && s'.popped == s.popped && s.queue <= s'.queue
  {
    if step.WorkerStep? {
      StalledWorkersMove(s, step.who, step.woken);
    }
    InvariantKept(s, step);
    hide Invariant, ProducerNext, ProducerEnabled, WorkerNext, WorkerEnabled;
    if step.ProducerStep? {
      StalledProducer(s, step.who, step.qe, step.woken);
    }
  }

  /** Until a running task ends or a worker wakes up for no reason, nothing that
      any thread does gets the queued elements taken. */
  lemma {:induction false} StallIsPermanent<T>(s: State<T>, steps: seq<Step<T>>)
    requires Stalled(s) && IsRun(s, steps) && NoTaskEnds(s, steps)
    ensures var s' := After(s, steps);
      Stalled(s') && s'.workers == s.workers && s'.popped == s.popped && s.queue <= s'.queue
    decreases |steps|
  {
    if steps != [] {
      StalledStep(s, steps[0]);
      StallIsPermanent(Next(s, steps[0]), steps[1..]);
    }
  }

  // --------------------------------------------------- how such a state arises

  /** Some sleeping worker is asleep no longer. */
  ghost predicate WorkerWoken<T>(ws: seq<Worker<T>>, ws': seq<Worker<T>>)
    requires |ws'| == |ws|
  {
    exists j :: 0 <= j < |ws| && ws[j].AsleepNotEmpty? && !ws'[j].AsleepNotEmpty?
  }

  ghost predicate ProducerWoken<T>(ps: seq<Producer<T>>, ps': seq<Producer<T>>)
    requires |ps'| == |ps|
  {
    exists i :: 0 <= i < |ps| && ps[i].AsleepNotFull? && !ps'[i].AsleepNotFull?
  }

  /** In every interleaving, a statement of a push wakes a sleeping worker exactly
      when it is the signal and the element just appended is the only one. */
  lemma PushWakesIffQueueWasEmpty<T(!new)>(s: State<T>, i: nat, qe: T, woken: set<nat>)
    requires Reachable(s) && ProducerEnabled(s, i, woken) && SomeWorkerSleeps(s.workers)
    ensures WorkerWoken(s.workers, ProducerNext(s, i, qe, woken).workers)
       <==> s.producers[i].SignalNotEmpty? && |s.queue| == 1
  {
    ReachableInvariant(s);
    assert HoldsLockP(s.producers[i]) <==> s.lock == ByProducer(i);
    if s.producers[i].SignalNotEmpty? && s.empty {
      var j :| j in woken;
      assert s.workers[j].AsleepNotEmpty? && !WakeWorkers(s.workers, woken)[j].AsleepNotEmpty?;
    }
    hide Invariant, WakeWorkers;
  }

  /** The same for pops and blocked pushes: exactly the signal of a pop from a full
      queue wakes one. */
  lemma PopWakesIffQueueWasFull<T(!new)>(s: State<T>, j: nat, woken: set<nat>)
    requires Reachable(s) && WorkerEnabled(s, j, woken) && SomeProducerSleeps(s.producers)
    ensures ProducerWoken(s.producers, WorkerNext(s, j, woken).producers)
       <==> s.workers[j].SignalNotFull? && |s.queue| == s.max - 1
  {
    ReachableInvariant(s);
    assert HoldsLockW(s.workers[j]) <==> s.lock == ByWorker(j);
    if s.workers[j].SignalNotFull? && s.full {
      var i :| i in woken;
      assert s.producers[i].AsleepNotFull? && !WakeProducers(s.producers, woken)[i].AsleepNotFull?;
    }
    hide Invariant, WakeProducers;
  }

  /** Worker 0 works on the given element, all others sleep. */
  predicate OnlyFirstWorks<T(==)>(ws: seq<Worker<T>>, first: Worker<T>) {
    0 < |ws| && ws[0] == first && forall j :: 1 <= j < |ws| ==> ws[j].AsleepNotEmpty?
  }

  /** All workers sleep, and two elements are pushed before the worker woken by the
      first one runs. */
  lemma TwoPushesOneWoken<T(!new)>(w: nat, n: nat, a: T, b: T) returns (s: State<T>)
    requires 1 <= w && 1 <= n
    ensures Reachable(s) && s.lock == Free && s.statics == Free && !s.full && !s.empty && s.popped == []
    ensures s.queue == [a, b] && s.max == 2000 && |s.workers| == w && OnlyFirstWorks(s.workers, WokenNotEmpty)
    ensures s.producers == Start<T>(w, n).producers
  {
    var s0: State<T> := Start(w, n);
    InitialReachable(s0);
    hide Reachable, Leads;
    var s1 := SleepAllRuns(s0, 0);
    assert s1.workers[0].AsleepNotEmpty? && WakesWorkers(s1.workers, {0});
    var s2 := PushRuns(s1, 0, a, {0});
    ReachableOn(s1, s2, ByProducer(0));
    assert OnlyFirstWorks(s2.workers, WokenNotEmpty);
    s := PushRuns(s2, 0, b, {});
    ReachableOn(s2, s, ByProducer(0));
  }

  /** The worker woken by the first of two elements starts its task. */
  lemma FirstTaskStarted<T(!new)>(w: nat, n: nat, a: T, b: T) returns (s: State<T>)
    requires 1 <= w && 1 <= n
    ensures Reachable(s) && s.lock == Free && s.statics == Free && s.max == 2000
    ensures s.queue == [b] && !s.full && !s.empty
    ensures |s.workers| == w && OnlyFirstWorks(s.workers, Working(Job(a, 0)))
    ensures s.producers == Start<T>(w, n).producers
  {
    var s0 := TwoPushesOneWoken(w, n, a, b);
    hide Reachable, Leads;
    var s1 := PopRuns(s0, 0, {});
    ReachableOn(s0, s1, ByWorker(0));
    s := StartRuns(s1, 0);
    ReachableOn(s1, s, ByWorker(0));
  }

  /** "Every queued element has woken a worker of its own" fails in every pool of two
      or more workers: the first of two elements may belong to a task that need not
      end. The second one is left in the queue beside sleeping workers, and
      StallIsPermanent applies. */
  lemma QueuedTaskBesideSleepingWorker<T(!new)>(w: nat, a: T, b: T) returns (s: State<T>)
    requires 2 <= w
    ensures Reachable(s) && Stalled(s) && s.queue == [b]
    ensures |s.workers| == w && OnlyFirstWorks(s.workers, Working(Job(a, 0)))
  {
    s := FirstTaskStarted(w, 1, a, b);
    hide Reachable, Leads;
    ReachableInvariant(s);
    assert Stalled(s) by { hide Invariant; }
  }

  /** When elements are queued and nothing but the end of a task gets them taken, are
      all workers busy? Always so if and only if the pool has a single worker. */
  lemma StalledWorkersBusyIffOneWorker<T(!new)>(w: nat, x: T)
    ensures (forall s: State<T> ::
              Reachable(s) && Stalled(s) && |s.workers| == w ==> !SomeWorkerSleeps(s.workers))
       <==> w <= 1
  {
    if w <= 1 {
      forall s: State<T> | Reachable(s) && Stalled(s) && |s.workers| == w
        ensures !SomeWorkerSleeps(s.workers)
      {
        ReachableInvariant(s);
      }
    } else {
      var s := QueuedTaskBesideSleepingWorker(w, x, x);
      assert s.workers[1].AsleepNotEmpty?;
    }
  }
}
