/**
 What push does not guarantee: not_full is signalled only when the queue stops being
 full, so that of two blocked pushes the second one waits for the queue to fill up
 again, however much room there is by then.
 */
module BlockedPush {
  import opened WorkerPool
  import opened PoolRuns

  /** The flag full is off all along. */
  ghost predicate NeverFull<T>(s: State<T>, steps: seq<Step<T>>)
    requires IsRun(s, steps)
    decreases |steps|
  {
    !s.full && (steps != [] ==> NeverFull(Next(s, steps[0]), steps[1..]))
  }

  /** A blocked push stays blocked, whatever is pushed, taken and run, until the
      queue is full again or the thread wakes up for no reason. */
  lemma {:induction false} BlockedUntilFull<T>(s: State<T>, steps: seq<Step<T>>, k: nat)
    requires IsRun(s, steps) && NeverFull(s, steps) && SpuriousProducer(k) !in steps
    requires k < |s.producers| && s.producers[k].AsleepNotFull?
    ensures k < |After(s, steps).producers| && After(s, steps).producers[k] == s.producers[k]
    decreases |steps|
  {
    if steps != [] {
      OneStepBlocked(s, steps[0], k);
      BlockedUntilFull(Next(s, steps[0]), steps[1..], k);
    }
  }

  lemma OneStepBlocked<T>(s: State<T>, step: Step<T>, k: nat)
    requires Enabled(s, step) && !s.full && step != SpuriousProducer(k)
    requires k < |s.producers| && s.producers[k].AsleepNotFull?
    ensures k < |Next(s, step).producers| && Next(s, step).producers[k] == s.producers[k]
  {
    hide WakeProducers, WakesProducers, WakeWorkers, WakesWorkers;
  }

  // --------------------------------------------------- how such a state arises

  predicate AllIdle<T>(ps: seq<Producer<T>>) {
    forall i :: 0 <= i < |ps| ==> ps[i].Idle?
  }

  predicate AllEntering<T>(ws: seq<Worker<T>>) {
    forall j :: 0 <= j < |ws| ==> ws[j].LockPop?
  }

  /** With the queue full, two pushes block. A worker's next pop wakes the first of
      them; before that one runs, the worker takes everything else. */
  lemma TwoBlocked<T(!new)>(s: State<T>, x: T, y: T) returns (s': State<T>)
    requires Reachable(s) && s.lock == Free && s.statics == Free && s.full && s.queue != [] && !s.empty
    requires 2 <= |s.producers| && AllIdle(s.producers) && 1 <= |s.workers| && AllEntering(s.workers)
    ensures Reachable(s') && s'.queue == [] && s'.empty && !s'.full && s'.lock == Free && s'.statics == Free
    ensures s'.producers == s.producers[0 := WokenNotFull(x)][1 := AsleepNotFull(y)]
    ensures s'.workers == s.workers && s'.max == s.max
  {
    hide Reachable, Leads;
    var s1 := BlockRuns(s, 0, x);
    ReachableOn(s, s1, ByProducer(0));
    var s2 := BlockRuns(s1, 1, y);
    ReachableOn(s1, s2, ByProducer(1));
    assert s2.producers[0].AsleepNotFull?;
    assert WakesProducers(s2.producers, {0});
    var s3 := TurnRuns(s2, 0, {0});
    ReachableOn(s2, s3, ByWorker(0));
    assert s3.producers == s.producers[0 := WokenNotFull(x)][1 := AsleepNotFull(y)];
    assert s3.workers == s.workers;
    s' := DrainRuns(s3, 0);
  }

  /** With w workers and two or more threads that push, a reachable state in which
      nothing is left to do, the queue is empty, all workers sleep, and one push is
      still blocked: BlockedUntilFull applies, and its element is not even queued. */
  lemma PushBlockedAtEmptyQueue<T(!new)>(w: nat, n: nat, x: T, y: T) returns (s: State<T>)
    requires 1 <= w && 2 <= n
    ensures Reachable(s) && AtRest(s) && s.queue == [] && s.lock == Free && !s.full
    ensures |s.workers| == w && forall j :: 0 <= j < w ==> s.workers[j].AsleepNotEmpty?
    ensures |s.producers| == n && s.producers[1] == AsleepNotFull(y)
  {
    var s0: State<T> := Start(w, n);
    InitialReachable(s0);
    hide Reachable, Leads, WakesWorkers, WakeWorkers;
    var s1 := FillRuns(s0, 0, x);
    var s2 := TwoBlocked(s1, x, y);
    assert WakesWorkers(s2.workers, {}) && WakeWorkers(s2.workers, {}) == s2.workers by { WakeNobody(s2); }
    var s3 := WokenPushRuns(s2, 0, x, {});
    ReachableOn(s2, s3, ByProducer(0));
    var s4 := DrainRuns(s3, 0);
    s := SleepAllRuns(s4, 0);
    assert forall i :: 0 <= i < n ==> s.producers[i].Idle? || s.producers[i].AsleepNotFull?;
    assert AtRest(s);
  }

  /** When the threads have come to rest, has every push returned? In a pool of any
      size, always so if and only if a single thread pushes. */
  lemma EveryPushReturnsIffOneProducer<T(!new)>(w: nat, n: nat, x: T)
    requires 1 <= w
    ensures (forall s: State<T> ::
              Reachable(s) && AtRest(s) && |s.workers| == w && |s.producers| == n ==> AllIdle(s.producers))
       <==> n <= 1
  {
    if n <= 1 {
      forall s: State<T> | Reachable(s) && AtRest(s) && |s.workers| == w && |s.producers| == n
        ensures AllIdle(s.producers)
      {
        ReachableInvariant(s);
        RestMeansDrained(s);
        RestIsFree(s);
      }
    } else {
      var s := PushBlockedAtEmptyQueue(w, n, x, x);
      assert !AllIdle(s.producers);
    }
  }
}
