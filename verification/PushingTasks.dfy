/**
 A task that pushes to the pool it runs in, as the stage handler's loop does: its
 worker cannot finish the task while the push is blocked. However many workers the
 pool has, all of them can come to a stop for good that way, with the queue full.
 */
module PushingTasks {
  import opened WorkerPool
  import opened PoolRuns
  import opened LongTasks

  /** The task of worker j does its pushes as thread i: while that thread is inside
      push, the task does not end. */
  predicate HostedStep<T>(s: State<T>, step: Step<T>, i: nat, j: nat) {
    step.WorkerStep? && step.who == j && j < |s.workers| && s.workers[j].Working? ==>
      i < |s.producers| && s.producers[i].Idle?
  }

  ghost predicate HostedRun<T>(s: State<T>, steps: seq<Step<T>>, i: nat, j: nat)
    requires IsRun(s, steps)
    decreases |steps|
  {
    steps != [] ==>
      HostedStep(s, steps[0], i, j) && !steps[0].SpuriousWorker? && HostedRun(Next(s, steps[0]), steps[1..], i, j)
  }

  /** Before the test of the flag full, or asleep after it. */
  predicate BeforeRoom<T>(p: Producer<T>) {
    p.AsleepNotFull? || p.WokenNotFull? || p.CheckFull?
  }

  /** The queue is full, the task of worker j waits for room as thread i, and no other
      worker is awake. */
  ghost predicate Deadlocked<T>(s: State<T>, i: nat, j: nat) {
    && Invariant(s) && s.full && |s.queue| == s.max
    && i < |s.producers| && BeforeRoom(s.producers[i])
    && j < |s.workers| && s.workers[j].Working?
    && forall k :: 0 <= k < |s.workers| && k != j ==> s.workers[k].AsleepNotEmpty?
  }

  lemma DeadlockedProducer<T>(s: State<T>, i: nat, j: nat, k: nat, qe: T, woken: set<nat>)
    requires Deadlocked(s, i, j) && ProducerEnabled(s, k, woken)
    ensures var s' := ProducerNext(s, k, qe, woken);
      && s'.full && s'.queue == s.queue && s'.max == s.max && s'.workers == s.workers
      && i < |s'.producers| && BeforeRoom(s'.producers[i])
  {
    assert HoldsLockP(s.producers[k]) <==> s.lock == ByProducer(k);
    hide OneInside, OneCounting, Accounted, Tallied, WakeWorkers, WakesWorkers;
  }

  lemma DeadlockedStep<T>(s: State<T>, step: Step<T>, i: nat, j: nat)
    requires Deadlocked(s, i, j) && Enabled(s, step) && HostedStep(s, step, i, j) && !step.SpuriousWorker?
    ensures Deadlocked(Next(s, step), i, j)
    ensures Next(s, step).queue == s.queue && Next(s, step).workers == s.workers
  {
    InvariantKept(s, step);
    hide Invariant, ProducerNext, ProducerEnabled, WorkerNext;
    match step
    case ProducerStep(k, qe, woken) => DeadlockedProducer(s, i, j, k, qe, woken);
    case WorkerStep(k, woken) =>
    case SpuriousProducer(k) =>
  }

  /** From there on the push never returns, the task never ends, and nothing is taken
      from the queue, in any run in which workers wake up only by signals. */
  lemma {:induction false} DeadlockIsPermanent<T>(s: State<T>, steps: seq<Step<T>>, i: nat, j: nat)
    requires Deadlocked(s, i, j) && IsRun(s, steps) && HostedRun(s, steps, i, j)
    ensures var s' := After(s, steps);
      Deadlocked(s', i, j) && s'.queue == s.queue && s'.workers == s.workers
    decreases |steps|
  {
    if steps != [] {
      DeadlockedStep(s, steps[0], i, j);
      DeadlockIsPermanent(Next(s, steps[0]), steps[1..], i, j);
    }
  }

  /** A pool of any size gets there: a pushing task and another element are pushed from
      outside before the woken worker runs. In state s the task has started, and from
      there it only pushes. */
  lemma PushingTaskCanBlockForGood<T(!new)>(w: nat, task: T, x: T) returns (s: State<T>, s': State<T>)
    requires 1 <= w
    ensures Reachable(s) && |s.workers| == w && OnlyFirstWorks(s.workers, Working(Job(task, 0)))
    ensures |s.producers| == 2 && s.producers[1].Idle?
    ensures Reachable(s') && Leads(s, s', ByProducer(1)) && Deadlocked(s', 1, 0) && |s'.workers| == w
  {
    s := FirstTaskStarted(w, 2, task, x);
    hide Reachable, Leads;
    var s1 := FillRuns(s, 1, x);
    s' := BlockRuns(s1, 1, x);
    LeadsOn(s, s1, s', ByProducer(1));
    ReachableOn(s1, s', ByProducer(1));
    ReachableInvariant(s');
    hide Invariant;
  }
}
