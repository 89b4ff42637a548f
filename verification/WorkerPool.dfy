/**
 The worker pool around the bounded task queue, as a system of interleaved steps:
 any number of producers that call worker_pool::run and of workers that run
 per_worker_task, two mutexes and two condition variables. A step is one
 statement of one thread; a signal wakes at least one waiting thread, if there
 is one, and waiting threads may also wake up for no reason.
 */
module WorkerPool {

  /** A queue element and its place in the order of removal from the queue. */
  datatype Job<T> = Job(qe: T, ticket: nat)

  /** Where a producer is inside push; the names say what it does next. */
  datatype Producer<T> =
    | Idle
    | LockPush(qe: T)
    | CheckFull(qe: T)
    | AsleepNotFull(qe: T)
    | WokenNotFull(qe: T)
    | Append(qe: T)
    | SignalNotEmpty
    | ClearEmpty
    | SetFull
    | UnlockPush

  /** Where a worker is inside pop and the rest of its loop. */
  datatype Worker<T> =
    | LockPop
    | CheckEmpty
    | AsleepNotEmpty
    | WokenNotEmpty
    | TakeFront
    | SetEmpty(job: Job<T>)
    | SignalNotFull(job: Job<T>)
    | ClearFull(job: Job<T>)
    | UnlockPop(job: Job<T>)
    | LockInc(job: Job<T>)
    | LoadInc(job: Job<T>)
    | StoreInc(job: Job<T>, seen: int)
    | UnlockInc(job: Job<T>)
    | Working(job: Job<T>)
    | LockDec
    | LoadDec
    | StoreDec(seen: int)
    | UnlockDec

  datatype Holder = Free | ByProducer(who: nat) | ByWorker(who: nat)

  datatype State<T> = State(
    max: nat, queue: seq<T>, empty: bool, full: bool, lock: Holder,
    statics: Holder, running: int,
    producers: seq<Producer<T>>, workers: seq<Worker<T>>,
    // histories: elements pushed and popped, tickets whose task has been run
    pushed: seq<T>, popped: seq<T>, finished: set<nat>)

  datatype Step<T> =
    | ProducerStep(who: nat, qe: T, woken: set<nat>)
    | WorkerStep(who: nat, woken: set<nat>)
    | SpuriousProducer(who: nat)
    | SpuriousWorker(who: nat)

  predicate Initial<T(==)>(s: State<T>) {
    && s.max > 0 && s.queue == [] && s.empty && !s.full && s.lock == Free
    && s.statics == Free && s.running == 0
    && (forall i :: 0 <= i < |s.producers| ==> s.producers[i] == Idle)
    && (forall j :: 0 <= j < |s.workers| ==> s.workers[j] == LockPop)
    && s.pushed == [] && s.popped == [] && s.finished == {}
  }

  // ------------------------------------------------------------------- steps

  ghost predicate SomeWorkerSleeps<T>(ws: seq<Worker<T>>) {
    exists j :: 0 <= j < |ws| && ws[j].AsleepNotEmpty?
  }

  ghost predicate SomeProducerSleeps<T>(ps: seq<Producer<T>>) {
    exists i :: 0 <= i < |ps| && ps[i].AsleepNotFull?
  }

  /** A signal wakes only waiting threads, and at least one if there is any. */
  ghost predicate WakesWorkers<T>(ws: seq<Worker<T>>, woken: set<nat>) {
    && (forall j <- woken :: j < |ws| && ws[j].AsleepNotEmpty?)
    && (SomeWorkerSleeps(ws) ==> woken != {})
  }

  ghost predicate WakesProducers<T>(ps: seq<Producer<T>>, woken: set<nat>) {
    && (forall i <- woken :: i < |ps| && ps[i].AsleepNotFull?)
    && (SomeProducerSleeps(ps) ==> woken != {})
  }

  function WakeWorkers<T>(ws: seq<Worker<T>>, woken: set<nat>): (r: seq<Worker<T>>)
    ensures |r| == |ws|
  {
    seq(|ws|, j requires 0 <= j < |ws| =>
      if j in woken && ws[j].AsleepNotEmpty? then WokenNotEmpty else ws[j])
  }

  function WakeProducers<T>(ps: seq<Producer<T>>, woken: set<nat>): (r: seq<Producer<T>>)
    ensures |r| == |ps|
  {
    seq(|ps|, i requires 0 <= i < |ps| =>
      if i in woken && ps[i].AsleepNotFull? then WokenNotFull(ps[i].qe) else ps[i])
  }

  ghost predicate ProducerEnabled<T>(s: State<T>, i: nat, woken: set<nat>) {
    && i < |s.producers|
    && match s.producers[i]
       case LockPush(_) => s.lock == Free
       case WokenNotFull(_) => s.lock == Free
       case AsleepNotFull(_) => false
       case SignalNotEmpty => s.empty ==> WakesWorkers(s.workers, woken)
       case _ => true
  }

  function ProducerNext<T>(s: State<T>, i: nat, qe: T, woken: set<nat>): State<T>
    requires i < |s.producers|
  {
    match s.producers[i]
    case Idle => s.(producers := s.producers[i := LockPush(qe)])
    case LockPush(x) => s.(producers := s.producers[i := CheckFull(x)], lock := ByProducer(i))
    case CheckFull(x) =>
      if s.full then s.(producers := s.producers[i := AsleepNotFull(x)], lock := Free)
      else s.(producers := s.producers[i := Append(x)])
    case AsleepNotFull(_) => s
    case WokenNotFull(x) => s.(producers := s.producers[i := CheckFull(x)], lock := ByProducer(i))
    case Append(x) =>
      s.(producers := s.producers[i := SignalNotEmpty], queue := s.queue + [x], pushed := s.pushed + [x])
    case SignalNotEmpty =>
      s.(producers := s.producers[i := ClearEmpty],
         workers := if s.empty then WakeWorkers(s.workers, woken) else s.workers)
    case ClearEmpty => s.(producers := s.producers[i := SetFull], empty := false)
    case SetFull => s.(producers := s.producers[i := UnlockPush], full := s.full || |s.queue| == s.max)
    case UnlockPush => s.(producers := s.producers[i := Idle], lock := Free)
  }

  /** The worker is inside pop, or about to enter it. */
  predicate InPop<T>(w: Worker<T>) {
    w.LockPop? || w.CheckEmpty? || w.AsleepNotEmpty? || w.WokenNotEmpty? || w.TakeFront? ||
    w.SetEmpty? || w.SignalNotFull? || w.ClearFull? || w.UnlockPop?
  }

  ghost predicate WorkerEnabled<T>(s: State<T>, j: nat, woken: set<nat>) {
    && j < |s.workers|
    && match s.workers[j]
       case LockPop => s.lock == Free
       case WokenNotEmpty => s.lock == Free
       case AsleepNotEmpty => false
       case TakeFront => s.queue != []
       case SignalNotFull(_) => s.full ==> WakesProducers(s.producers, woken)
       case LockInc(_) => s.statics == Free
       case LockDec => s.statics == Free
       case _ => true
  }

  /** The statements of pop. */
  function PopNext<T>(s: State<T>, j: nat, woken: set<nat>): State<T>
    requires j < |s.workers| && InPop(s.workers[j]) && (s.workers[j].TakeFront? ==> s.queue != [])
  {
    match s.workers[j]
    case LockPop => s.(workers := s.workers[j := CheckEmpty], lock := ByWorker(j))
    case CheckEmpty =>
      if s.empty then s.(workers := s.workers[j := AsleepNotEmpty], lock := Free)
      else s.(workers := s.workers[j := TakeFront])
    case AsleepNotEmpty => s
    case WokenNotEmpty => s.(workers := s.workers[j := CheckEmpty], lock := ByWorker(j))
    case TakeFront =>
      s.(workers := s.workers[j := SetEmpty(Job(s.queue[0], |s.popped|))],
         queue := s.queue[1..], popped := s.popped + [s.queue[0]])
    case SetEmpty(job) => s.(workers := s.workers[j := SignalNotFull(job)], empty := s.empty || |s.queue| == 0)
    case SignalNotFull(job) =>
      s.(workers := s.workers[j := ClearFull(job)],
         producers := if s.full then WakeProducers(s.producers, woken) else s.producers)
    case ClearFull(job) => s.(workers := s.workers[j := UnlockPop(job)], full := false)
    case UnlockPop(job) => s.(workers := s.workers[j := LockInc(job)], lock := Free)
  }

  /** The statements of per_worker_task around running a task. */
  function TaskNext<T>(s: State<T>, j: nat): State<T>
    requires j < |s.workers| && !InPop(s.workers[j])
  {
    match s.workers[j]
    case LockInc(job) => s.(workers := s.workers[j := LoadInc(job)], statics := ByWorker(j))
    case LoadInc(job) => s.(workers := s.workers[j := StoreInc(job, s.running)])
    case StoreInc(job, v) => s.(workers := s.workers[j := UnlockInc(job)], running := v + 1)
    case UnlockInc(job) => s.(workers := s.workers[j := Working(job)], statics := Free)
    case Working(job) => s.(workers := s.workers[j := LockDec], finished := s.finished + {job.ticket})
    case LockDec => s.(workers := s.workers[j := LoadDec], statics := ByWorker(j))
    case LoadDec => s.(workers := s.workers[j := StoreDec(s.running)])
    case StoreDec(v) => s.(workers := s.workers[j := UnlockDec], running := v - 1)
    case UnlockDec => s.(workers := s.workers[j := LockPop], statics := Free)
  }

  function WorkerNext<T>(s: State<T>, j: nat, woken: set<nat>): State<T>
    requires j < |s.workers| && (s.workers[j].TakeFront? ==> s.queue != [])
  {
    if InPop(s.workers[j]) then PopNext(s, j, woken) else TaskNext(s, j)
  }

  ghost predicate Enabled<T>(s: State<T>, step: Step<T>) {
    match step
    case ProducerStep(i, _, woken) => ProducerEnabled(s, i, woken)
    case WorkerStep(j, woken) => WorkerEnabled(s, j, woken)
    case SpuriousProducer(i) => i < |s.producers| && s.producers[i].AsleepNotFull?
    case SpuriousWorker(j) => j < |s.workers| && s.workers[j].AsleepNotEmpty?
  }

  ghost function Next<T>(s: State<T>, step: Step<T>): State<T>
    requires Enabled(s, step)
  {
    match step
    case ProducerStep(i, qe, woken) => ProducerNext(s, i, qe, woken)
    case WorkerStep(j, woken) => WorkerNext(s, j, woken)
    case SpuriousProducer(i) => s.(producers := s.producers[i := WokenNotFull(s.producers[i].qe)])
    case SpuriousWorker(j) => s.(workers := s.workers[j := WokenNotEmpty])
  }

  // -------------------------------------------------------- mutual exclusion

  predicate HoldsLockP<T>(p: Producer<T>) {
    p.CheckFull? || p.Append? || p.SignalNotEmpty? || p.ClearEmpty? || p.SetFull? || p.UnlockPush?
  }

  predicate HoldsLockW<T>(w: Worker<T>) {
    w.CheckEmpty? || w.TakeFront? || w.SetEmpty? || w.SignalNotFull? || w.ClearFull? || w.UnlockPop?
  }

  predicate HoldsStatics<T>(w: Worker<T>) {
    w.LoadInc? || w.StoreInc? || w.UnlockInc? || w.LoadDec? || w.StoreDec? || w.UnlockDec?
  }

  /** The thread recorded as holding the queue's mutex is the only one inside. */
  ghost predicate OneInside<T>(ps: seq<Producer<T>>, ws: seq<Worker<T>>, lock: Holder) {
    && (forall i :: 0 <= i < |ps| ==> (HoldsLockP(ps[i]) <==> lock == ByProducer(i)))
    && (forall j :: 0 <= j < |ws| ==> (HoldsLockW(ws[j]) <==> lock == ByWorker(j)))
    && (lock.ByProducer? ==> lock.who < |ps|) && (lock.ByWorker? ==> lock.who < |ws|)
  }

  ghost predicate OneCounting<T>(ws: seq<Worker<T>>, statics: Holder) {
    && (forall j :: 0 <= j < |ws| ==> (HoldsStatics(ws[j]) <==> statics == ByWorker(j)))
    && !statics.ByProducer? && (statics.ByWorker? ==> statics.who < |ws|)
  }

  ghost predicate Exclusive<T>(s: State<T>) {
    OneInside(s.producers, s.workers, s.lock) && OneCounting(s.workers, s.statics)
  }

  /** A step moves one thread; other threads at most wake up. */
  ghost predicate WorkersMove<T>(ws: seq<Worker<T>>, ws': seq<Worker<T>>, who: int) {
    && |ws'| == |ws|
    && forall j :: 0 <= j < |ws| && j != who ==>
         ws'[j] == ws[j] || (ws[j].AsleepNotEmpty? && ws'[j] == WokenNotEmpty)
  }

  ghost predicate ProducersMove<T>(ps: seq<Producer<T>>, ps': seq<Producer<T>>, who: int) {
    && |ps'| == |ps|
    && forall i :: 0 <= i < |ps| && i != who ==>
         ps'[i] == ps[i] || (ps[i].AsleepNotFull? && ps'[i] == WokenNotFull(ps[i].qe))
  }

  lemma WakeMoves<T>(ws: seq<Worker<T>>, ps: seq<Producer<T>>, woken: set<nat>)
    ensures WorkersMove(ws, WakeWorkers(ws, woken), -1)
    ensures ProducersMove(ps, WakeProducers(ps, woken), -1)
  {
  }

  lemma ProducerMoves<T>(s: State<T>, i: nat, qe: T, woken: set<nat>)
    requires ProducerEnabled(s, i, woken)
    ensures var s' := ProducerNext(s, i, qe, woken);
      WorkersMove(s.workers, s'.workers, -1) && ProducersMove(s.producers, s'.producers, i)
  {
    WakeMoves(s.workers, s.producers, woken);
    hide WakeWorkers, WakesWorkers;
  }

  lemma WorkerMoves<T>(s: State<T>, j: nat, woken: set<nat>)
    requires WorkerEnabled(s, j, woken)
    ensures var s' := WorkerNext(s, j, woken);
      WorkersMove(s.workers, s'.workers, j) && ProducersMove(s.producers, s'.producers, -1)
  {
    WakeMoves(s.workers, s.producers, woken);
    hide WakeProducers, WakesProducers;
    if InPop(s.workers[j]) {
      hide TaskNext;
    } else {
      hide PopNext;
    }
  }

  /** A mutex changes hands only by being taken or released by the moving thread. */
  predicate HandsOver(h: Holder, h': Holder, me: Holder) {
    h' == h || (h == Free && h' == me) || (h == me && h' == Free)
  }

  lemma ProducerLocal<T>(s: State<T>, i: nat, qe: T, woken: set<nat>)
    requires ProducerEnabled(s, i, woken)
    requires HoldsLockP(s.producers[i]) <==> s.lock == ByProducer(i)
    ensures var s' := ProducerNext(s, i, qe, woken);
      && (HoldsLockP(s'.producers[i]) <==> s'.lock == ByProducer(i))
      && HandsOver(s.lock, s'.lock, ByProducer(i)) && s'.statics == s.statics
  {
    hide WakeWorkers, WakesWorkers;
  }

  lemma PopLocal<T>(s: State<T>, j: nat, woken: set<nat>)
    requires WorkerEnabled(s, j, woken) && InPop(s.workers[j])
    requires HoldsLockW(s.workers[j]) <==> s.lock == ByWorker(j)
    ensures var s' := PopNext(s, j, woken);
      && (HoldsLockW(s'.workers[j]) <==> s'.lock == ByWorker(j))
      && !HoldsStatics(s.workers[j]) && !HoldsStatics(s'.workers[j])
      && HandsOver(s.lock, s'.lock, ByWorker(j)) && s'.statics == s.statics
  {
    hide WakeProducers, WakesProducers;
  }

  lemma TaskLocal<T>(s: State<T>, j: nat, woken: set<nat>)
    requires WorkerEnabled(s, j, woken) && !InPop(s.workers[j])
    requires HoldsStatics(s.workers[j]) <==> s.statics == ByWorker(j)
    ensures var s' := TaskNext(s, j);
      && (HoldsStatics(s'.workers[j]) <==> s'.statics == ByWorker(j))
      && !HoldsLockW(s.workers[j]) && !HoldsLockW(s'.workers[j])
      && HandsOver(s.statics, s'.statics, ByWorker(j)) && s'.lock == s.lock
  {
  }

  lemma WorkerLocal<T>(s: State<T>, j: nat, woken: set<nat>)
    requires WorkerEnabled(s, j, woken)
    requires HoldsLockW(s.workers[j]) <==> s.lock == ByWorker(j)
    requires HoldsStatics(s.workers[j]) <==> s.statics == ByWorker(j)
    ensures var s' := WorkerNext(s, j, woken);
      && (HoldsLockW(s'.workers[j]) <==> s'.lock == ByWorker(j))
      && (HoldsStatics(s'.workers[j]) <==> s'.statics == ByWorker(j))
      && HandsOver(s.lock, s'.lock, ByWorker(j)) && HandsOver(s.statics, s'.statics, ByWorker(j))
  {
    hide PopNext, TaskNext, HoldsLockW, HoldsStatics, InPop;
    if InPop(s.workers[j]) {
      PopLocal(s, j, woken);
    } else {
      TaskLocal(s, j, woken);
    }
  }

  lemma ProducerInside<T>(ps: seq<Producer<T>>, ws: seq<Worker<T>>, lock: Holder, i: nat,
                          ps': seq<Producer<T>>, ws': seq<Worker<T>>, lock': Holder)
    requires OneInside(ps, ws, lock) && i < |ps|
    requires ProducersMove(ps, ps', i) && WorkersMove(ws, ws', -1) && HandsOver(lock, lock', ByProducer(i))
    requires HoldsLockP(ps'[i]) <==> lock' == ByProducer(i)
    ensures OneInside(ps', ws', lock')
  {
  }

  lemma WorkerInside<T>(ps: seq<Producer<T>>, ws: seq<Worker<T>>, lock: Holder, j: nat,
                        ps': seq<Producer<T>>, ws': seq<Worker<T>>, lock': Holder)
    requires OneInside(ps, ws, lock) && j < |ws|
    requires ProducersMove(ps, ps', -1) && WorkersMove(ws, ws', j) && HandsOver(lock, lock', ByWorker(j))
    requires HoldsLockW(ws'[j]) <==> lock' == ByWorker(j)
    ensures OneInside(ps', ws', lock')
  {
  }

  lemma WorkerCounting<T>(ws: seq<Worker<T>>, statics: Holder, j: int, ws': seq<Worker<T>>, statics': Holder)
    requires OneCounting(ws, statics) && WorkersMove(ws, ws', j)
    requires if 0 <= j < |ws| then
        HandsOver(statics, statics', ByWorker(j)) && (HoldsStatics(ws'[j]) <==> statics' == ByWorker(j))
      else statics' == statics
    ensures OneCounting(ws', statics')
  {
  }

  lemma ExclusiveKeptP<T>(s: State<T>, i: nat, qe: T, woken: set<nat>)
    requires Exclusive(s) && ProducerEnabled(s, i, woken)
    ensures Exclusive(ProducerNext(s, i, qe, woken))
  {
    assert HoldsLockP(s.producers[i]) <==> s.lock == ByProducer(i);
    ProducerMoves(s, i, qe, woken);
    ProducerLocal(s, i, qe, woken);
    var s' := ProducerNext(s, i, qe, woken);
    hide ProducerNext, ProducerEnabled, OneInside, OneCounting;
    ProducerInside(s.producers, s.workers, s.lock, i, s'.producers, s'.workers, s'.lock);
    WorkerCounting(s.workers, s.statics, -1, s'.workers, s'.statics);
  }

  lemma ExclusiveKeptW<T>(s: State<T>, j: nat, woken: set<nat>)
    requires Exclusive(s) && WorkerEnabled(s, j, woken)
    ensures Exclusive(WorkerNext(s, j, woken))
  {
    assert HoldsLockW(s.workers[j]) <==> s.lock == ByWorker(j);
    assert HoldsStatics(s.workers[j]) <==> s.statics == ByWorker(j);
    WorkerMoves(s, j, woken);
    WorkerLocal(s, j, woken);
    var s' := WorkerNext(s, j, woken);
    hide WorkerNext, WorkerEnabled, OneInside, OneCounting;
    WorkerInside(s.producers, s.workers, s.lock, j, s'.producers, s'.workers, s'.lock);
    WorkerCounting(s.workers, s.statics, j, s'.workers, s'.statics);
  }

  lemma ExclusiveKept<T>(s: State<T>, step: Step<T>)
    requires Exclusive(s) && Enabled(s, step)
    ensures Exclusive(Next(s, step))
  {
    hide ProducerNext, WorkerNext, ProducerEnabled, WorkerEnabled;
    match step
    case ProducerStep(i, qe, woken) => ExclusiveKeptP(s, i, qe, woken);
    case WorkerStep(j, woken) => ExclusiveKeptW(s, j, woken);
    case SpuriousProducer(i) =>
    case SpuriousWorker(j) =>
  }

  // --------------------------------------------------------- queue and flags

  /** The flags say exactly whether the queue is empty or full. */
  predicate FlagsExact<T(==)>(s: State<T>) {
    (s.empty <==> s.queue == []) && (s.full <==> |s.queue| == s.max)
  }

  predicate PushFlags<T(==)>(s: State<T>, p: Producer<T>) {
    match p
    case Append(_) => FlagsExact(s) && |s.queue| < s.max
    case SignalNotEmpty => 0 < |s.queue| && (s.empty <==> |s.queue| == 1) && !s.full
    case ClearEmpty => 0 < |s.queue| && !s.full
    case SetFull => 0 < |s.queue| && !s.empty && !s.full
    case _ => FlagsExact(s)
  }

  predicate PopFlags<T(==)>(s: State<T>, w: Worker<T>) {
    match w
    case TakeFront => FlagsExact(s) && s.queue != []
    case SetEmpty(_) => !s.empty && (s.full <==> |s.queue| == s.max - 1) && |s.queue| < s.max
    case SignalNotFull(_) =>
      (s.empty <==> s.queue == []) && (s.full <==> |s.queue| == s.max - 1) && |s.queue| < s.max
    case ClearFull(_) => (s.empty <==> s.queue == []) && |s.queue| < s.max
    case _ => FlagsExact(s)
  }

  /** The queue never exceeds its bound, and the flags are exact whenever no thread
      is between changing the queue and changing them. */
  ghost predicate Consistent<T>(s: State<T>) {
    && 0 < s.max && |s.queue| <= s.max
    && match s.lock
       case Free => FlagsExact(s)
       case ByProducer(i) => i < |s.producers| && PushFlags(s, s.producers[i])
       case ByWorker(j) => j < |s.workers| && PopFlags(s, s.workers[j])
  }

  /** Elements leave the queue in the order in which they entered it. */
  predicate InOrder<T(==)>(s: State<T>) {
    s.popped + s.queue == s.pushed
  }

  lemma ConsistentKeptP<T>(s: State<T>, i: nat, qe: T, woken: set<nat>)
    requires Exclusive(s) && Consistent(s) && ProducerEnabled(s, i, woken)
    ensures Consistent(ProducerNext(s, i, qe, woken))
  {
    ProducerMoves(s, i, qe, woken);
    assert HoldsLockP(s.producers[i]) <==> s.lock == ByProducer(i);
    hide WakeWorkers, WakesWorkers, OneInside, OneCounting;
  }

  lemma ConsistentKeptW<T>(s: State<T>, j: nat, woken: set<nat>)
    requires Exclusive(s) && Consistent(s) && WorkerEnabled(s, j, woken)
    ensures Consistent(WorkerNext(s, j, woken))
  {
    WorkerMoves(s, j, woken);
    assert HoldsLockW(s.workers[j]) <==> s.lock == ByWorker(j);
    hide WakeProducers, WakesProducers, OneInside, OneCounting;
    if InPop(s.workers[j]) {
      hide TaskNext;
    } else {
      hide PopNext;
    }
  }

  lemma InOrderKept<T>(s: State<T>, step: Step<T>)
    requires InOrder(s) && Enabled(s, step)
    ensures InOrder(Next(s, step))
  {
    hide WakeProducers, WakesProducers, WakeWorkers, WakesWorkers;
    if step.ProducerStep? && s.producers[step.who].Append? {
      var x := s.producers[step.who].qe;
      assert s.popped + (s.queue + [x]) == (s.popped + s.queue) + [x];
    } else if step.WorkerStep? && s.workers[step.who].TakeFront? {
      assert s.popped + [s.queue[0]] + s.queue[1..] == s.popped + s.queue;
    }
  }

  // ------------------------------------------------------------ no lost wake-up

  ghost predicate SomeWorkerAwake<T>(ws: seq<Worker<T>>) {
    exists j :: 0 <= j < |ws| && !ws[j].AsleepNotEmpty?
  }

  ghost predicate SomeProducerAwake<T>(ps: seq<Producer<T>>) {
    exists i :: 0 <= i < |ps| && !ps[i].AsleepNotFull?
  }

  /** The thread inside push is about to signal not_empty. */
  predicate SignalDueNotEmpty<T>(s: State<T>) {
    s.lock.ByProducer? && s.lock.who < |s.producers| && s.producers[s.lock.who].SignalNotEmpty? && s.empty
  }

  /** The thread inside pop is about to signal not_full. */
  predicate SignalDueNotFull<T>(s: State<T>) {
    && s.lock.ByWorker? && s.lock.who < |s.workers| && s.full
    && (s.workers[s.lock.who].SetEmpty? || s.workers[s.lock.who].SignalNotFull?)
  }

  ghost predicate WorkersAlert<T>(s: State<T>) {
    s.queue != [] && 0 < |s.workers| ==> SomeWorkerAwake(s.workers) || SignalDueNotEmpty(s)
  }

  ghost predicate ProducersAlert<T>(s: State<T>) {
    |s.queue| < s.max && 0 < |s.producers| ==> SomeProducerAwake(s.producers) || SignalDueNotFull(s)
  }

  lemma AwakeStays<T>(ws: seq<Worker<T>>, ws': seq<Worker<T>>, ps: seq<Producer<T>>, ps': seq<Producer<T>>)
    ensures WorkersMove(ws, ws', -1) && SomeWorkerAwake(ws) ==> SomeWorkerAwake(ws')
    ensures ProducersMove(ps, ps', -1) && SomeProducerAwake(ps) ==> SomeProducerAwake(ps')
  {
    if WorkersMove(ws, ws', -1) && SomeWorkerAwake(ws) {
      var j :| 0 <= j < |ws| && !ws[j].AsleepNotEmpty?;
      assert !ws'[j].AsleepNotEmpty?;
    }
    if ProducersMove(ps, ps', -1) && SomeProducerAwake(ps) {
      var i :| 0 <= i < |ps| && !ps[i].AsleepNotFull?;
      assert !ps'[i].AsleepNotFull?;
    }
  }

  /** A signal sent while somebody sleeps, or while nobody does, leaves somebody
      awake. */
  lemma SignalWakesWorker<T>(ws: seq<Worker<T>>, woken: set<nat>)
    requires WakesWorkers(ws, woken) && 0 < |ws|
    ensures SomeWorkerAwake(WakeWorkers(ws, woken))
  {
    var ws' := WakeWorkers(ws, woken);
    if SomeWorkerSleeps(ws) {
      var j :| j in woken;
      assert !ws'[j].AsleepNotEmpty?;
    } else {
      assert !ws[0].AsleepNotEmpty? && !ws'[0].AsleepNotEmpty?;
    }
  }

  lemma SignalWakesProducer<T>(ps: seq<Producer<T>>, woken: set<nat>)
    requires WakesProducers(ps, woken) && 0 < |ps|
    ensures SomeProducerAwake(WakeProducers(ps, woken))
  {
    var ps' := WakeProducers(ps, woken);
    if SomeProducerSleeps(ps) {
      var i :| i in woken;
      assert !ps'[i].AsleepNotFull?;
    } else {
      assert !ps[0].AsleepNotFull? && !ps'[0].AsleepNotFull?;
    }
  }

  lemma AlertKeptP<T>(s: State<T>, i: nat, qe: T, woken: set<nat>)
    requires Exclusive(s) && Consistent(s) && ProducerEnabled(s, i, woken)
    requires WorkersAlert(s) && ProducersAlert(s)
    ensures WorkersAlert(ProducerNext(s, i, qe, woken)) && ProducersAlert(ProducerNext(s, i, qe, woken))
  {
    var s' := ProducerNext(s, i, qe, woken);
    ProducerMoves(s, i, qe, woken);
    AwakeStays(s.workers, s'.workers, [], []);
    assert HoldsLockP(s.producers[i]) <==> s.lock == ByProducer(i);
    if s.producers[i].SignalNotEmpty? && s.empty && 0 < |s.workers| {
      SignalWakesWorker(s.workers, woken);
    }
    assert !s'.producers[i].AsleepNotFull? ==> SomeProducerAwake(s'.producers);
    hide OneInside, OneCounting, WakeWorkers, WakesWorkers, SomeWorkerAwake, SomeProducerAwake;
  }

  lemma AlertKeptW<T>(s: State<T>, j: nat, woken: set<nat>)
    requires Exclusive(s) && Consistent(s) && WorkerEnabled(s, j, woken)
    requires WorkersAlert(s) && ProducersAlert(s)
    ensures WorkersAlert(WorkerNext(s, j, woken)) && ProducersAlert(WorkerNext(s, j, woken))
  {
    var s' := WorkerNext(s, j, woken);
    WorkerMoves(s, j, woken);
    AwakeStays([], [], s.producers, s'.producers);
    assert HoldsLockW(s.workers[j]) <==> s.lock == ByWorker(j);
    if s.workers[j].SignalNotFull? && s.full && 0 < |s.producers| {
      SignalWakesProducer(s.producers, woken);
    }
    assert !s'.workers[j].AsleepNotEmpty? ==> SomeWorkerAwake(s'.workers);
    hide OneInside, OneCounting, WakeProducers, WakesProducers, SomeWorkerAwake, SomeProducerAwake;
    if InPop(s.workers[j]) {
      hide TaskNext;
    } else {
      hide PopNext;
    }
  }

  // ------------------------------------------------------------------- tasks

  /** The worker has taken an element whose task has not been run to its end. */
  predicate HasJob<T>(w: Worker<T>) {
    w.SetEmpty? || w.SignalNotFull? || w.ClearFull? || w.UnlockPop? ||
    w.LockInc? || w.LoadInc? || w.StoreInc? || w.UnlockInc? || w.Working?
  }

  ghost predicate Held<T>(ws: seq<Worker<T>>, n: nat) {
    exists j :: 0 <= j < |ws| && HasJob(ws[j]) && ws[j].job.ticket == n
  }

  /** Every element ever taken from the queue is with exactly one worker, or its
      task is finished, and not both. */
  ghost predicate Accounted<T>(ws: seq<Worker<T>>, popped: seq<T>, finished: set<nat>) {
    && (forall j :: 0 <= j < |ws| && HasJob(ws[j]) ==>
          var n := ws[j].job.ticket; n < |popped| && popped[n] == ws[j].job.qe && n !in finished)
    && (forall j, k :: 0 <= j < k < |ws| && HasJob(ws[j]) && HasJob(ws[k]) ==> ws[j].job.ticket != ws[k].job.ticket)
    && (forall n: nat :: n < |popped| ==> n in finished || Held(ws, n))
    && (forall n <- finished :: n < |popped|)
  }

  lemma HeldStays<T>(ws: seq<Worker<T>>, ws': seq<Worker<T>>, j: int, n: nat)
    requires WorkersMove(ws, ws', j) && Held(ws, n)
    requires 0 <= j < |ws| && HasJob(ws[j]) && ws[j].job.ticket == n ==> HasJob(ws'[j]) && ws'[j].job == ws[j].job
    ensures Held(ws', n)
  {
    var k :| 0 <= k < |ws| && HasJob(ws[k]) && ws[k].job.ticket == n;
    assert HasJob(ws'[k]) && ws'[k].job.ticket == n;
  }

  /** Nothing is taken or finished. */
  lemma AccountedMove<T>(ws: seq<Worker<T>>, ws': seq<Worker<T>>, j: int, popped: seq<T>, finished: set<nat>)
    requires Accounted(ws, popped, finished) && WorkersMove(ws, ws', j)
    requires 0 <= j < |ws| ==>
      (HasJob(ws'[j]) <==> HasJob(ws[j])) && (HasJob(ws[j]) ==> ws'[j].job == ws[j].job)
    ensures Accounted(ws', popped, finished)
  {
    assert forall k :: 0 <= k < |ws| ==>
      (HasJob(ws'[k]) <==> HasJob(ws[k])) && (HasJob(ws[k]) ==> ws'[k].job == ws[k].job);
    forall n: nat | n < |popped| && n !in finished ensures Held(ws', n) {
      HeldStays(ws, ws', j, n);
    }
  }

  lemma AccountedTake<T>(ws: seq<Worker<T>>, ws': seq<Worker<T>>, j: nat, popped: seq<T>, x: T, finished: set<nat>)
    requires Accounted(ws, popped, finished) && WorkersMove(ws, ws', j) && j < |ws|
    requires !HasJob(ws[j]) && HasJob(ws'[j]) && ws'[j].job == Job(x, |popped|)
    ensures Accounted(ws', popped + [x], finished)
  {
    forall n: nat | n < |popped| + 1 && n !in finished ensures Held(ws', n) {
      if n < |popped| {
        HeldStays(ws, ws', j, n);
      }
    }
    assert forall k :: 0 <= k < |ws| && k != j ==>
      (HasJob(ws'[k]) <==> HasJob(ws[k])) && (HasJob(ws[k]) ==> ws'[k].job == ws[k].job);
  }

  lemma AccountedFinish<T>(ws: seq<Worker<T>>, ws': seq<Worker<T>>, j: nat, popped: seq<T>, finished: set<nat>)
    requires Accounted(ws, popped, finished) && WorkersMove(ws, ws', j) && j < |ws|
    requires HasJob(ws[j]) && !HasJob(ws'[j])
    ensures Accounted(ws', popped, finished + {ws[j].job.ticket})
  {
    assert forall k :: 0 <= k < |ws| && k != j ==>
      (HasJob(ws'[k]) <==> HasJob(ws[k])) && (HasJob(ws[k]) ==> ws'[k].job == ws[k].job);
    forall n: nat | n < |popped| && n !in finished + {ws[j].job.ticket} ensures Held(ws', n) {
      HeldStays(ws, ws', j, n);
    }
  }

  /** What a worker's step does to its job. */
  lemma JobLocal<T>(s: State<T>, j: nat, woken: set<nat>)
    requires WorkerEnabled(s, j, woken)
    ensures var w, s' := s.workers[j], WorkerNext(s, j, woken); var w' := s'.workers[j];
      if w.TakeFront? then
        !HasJob(w) && HasJob(w') && w'.job == Job(s.queue[0], |s.popped|) &&
        s'.popped == s.popped + [s.queue[0]] && s'.finished == s.finished
      else if w.Working? then
        HasJob(w) && !HasJob(w') && s'.popped == s.popped && s'.finished == s.finished + {w.job.ticket}
      else
        (HasJob(w') <==> HasJob(w)) && (HasJob(w) ==> w'.job == w.job) &&
        s'.popped == s.popped && s'.finished == s.finished
  {
    hide WakeProducers, WakesProducers;
    if InPop(s.workers[j]) {
      hide TaskNext;
    } else {
      hide PopNext;
    }
  }

  lemma AccountedKeptW<T>(s: State<T>, j: nat, woken: set<nat>)
    requires WorkerEnabled(s, j, woken) && Accounted(s.workers, s.popped, s.finished)
    ensures var s' := WorkerNext(s, j, woken); Accounted(s'.workers, s'.popped, s'.finished)
  {
    var s' := WorkerNext(s, j, woken);
    WorkerMoves(s, j, woken);
    JobLocal(s, j, woken);
    assert s.workers[j].TakeFront? ==> s.queue != [];
    hide Accounted, WorkersMove, ProducersMove, WorkerNext, WorkerEnabled, HasJob;
    if s.workers[j].TakeFront? {
      AccountedTake(s.workers, s'.workers, j, s.popped, s.queue[0], s.finished);
    } else if s.workers[j].Working? {
      AccountedFinish(s.workers, s'.workers, j, s.popped, s.finished);
    } else {
      AccountedMove(s.workers, s'.workers, j, s.popped, s.finished);
    }
  }

  lemma AccountedKeptP<T>(s: State<T>, i: nat, qe: T, woken: set<nat>)
    requires ProducerEnabled(s, i, woken) && Accounted(s.workers, s.popped, s.finished)
    ensures var s' := ProducerNext(s, i, qe, woken); Accounted(s'.workers, s'.popped, s'.finished)
  {
    var s' := ProducerNext(s, i, qe, woken);
    ProducerMoves(s, i, qe, woken);
    hide Accounted, WorkersMove, ProducersMove, WakeWorkers, WakesWorkers;
    AccountedMove(s.workers, s'.workers, -1, s.popped, s.finished);
  }

  // ------------------------------------------------------- the running number

  /** The worker is between its increment and its decrement of running_num. */
  predicate Counted<T>(w: Worker<T>) {
    w.UnlockInc? || w.Working? || w.LockDec? || w.LoadDec? || w.StoreDec?
  }

  function Count<T>(ws: seq<Worker<T>>): nat {
    if ws == [] then 0 else Count(ws[..|ws| - 1]) + if Counted(ws[|ws| - 1]) then 1 else 0
  }

  function One(b: bool): nat {
    if b then 1 else 0
  }

  lemma {:induction false} CountMove<T>(ws: seq<Worker<T>>, ws': seq<Worker<T>>, j: int)
    requires WorkersMove(ws, ws', j)
    ensures Count(ws') == Count(ws) +
      if 0 <= j < |ws| then One(Counted(ws'[j])) - One(Counted(ws[j])) else 0
  {
    if ws != [] {
      CountMove(ws[..|ws| - 1], ws'[..|ws| - 1], j);
    }
  }

  /** running_num is the number of workers between increment and decrement, and
      nobody else changes it between a worker's load and store. */
  ghost predicate Tallied<T>(ws: seq<Worker<T>>, running: int) {
    && running == Count(ws)
    && forall j :: 0 <= j < |ws| && (ws[j].StoreInc? || ws[j].StoreDec?) ==> ws[j].seen == running
  }

  lemma TalliedMove<T>(ws: seq<Worker<T>>, ws': seq<Worker<T>>, j: int, running: int, running': int, statics: Holder)
    requires Tallied(ws, running) && OneCounting(ws, statics) && WorkersMove(ws, ws', j)
    requires if 0 <= j < |ws| then
        && running' - running == One(Counted(ws'[j])) - One(Counted(ws[j]))
        && (running' == running || HoldsStatics(ws[j]))
        && (ws'[j].StoreInc? || ws'[j].StoreDec? ==> ws'[j].seen == running')
      else running' == running
    ensures Tallied(ws', running')
  {
    CountMove(ws, ws', j);
  }

  lemma TallyLocal<T>(s: State<T>, j: nat, woken: set<nat>)
    requires WorkerEnabled(s, j, woken)
    requires s.workers[j].StoreInc? || s.workers[j].StoreDec? ==> s.workers[j].seen == s.running
    ensures var w, s' := s.workers[j], WorkerNext(s, j, woken); var w' := s'.workers[j];
      && s'.running - s.running == One(Counted(w')) - One(Counted(w))
      && (s'.running == s.running || HoldsStatics(w))
      && (w'.StoreInc? || w'.StoreDec? ==> w'.seen == s'.running)
  {
    hide WakeProducers, WakesProducers;
    if InPop(s.workers[j]) {
      hide TaskNext;
    } else {
      hide PopNext;
    }
  }

  lemma TalliedKept<T>(s: State<T>, step: Step<T>)
    requires Exclusive(s) && Enabled(s, step) && Tallied(s.workers, s.running)
    ensures Tallied(Next(s, step).workers, Next(s, step).running)
  {
    var s' := Next(s, step);
    match step
    case ProducerStep(i, qe, woken) =>
      ProducerMoves(s, i, qe, woken);
      hide WakeWorkers, WakesWorkers, Tallied, OneInside, OneCounting;
      TalliedMove(s.workers, s'.workers, -1, s.running, s'.running, s.statics);
    case WorkerStep(j, woken) =>
      WorkerMoves(s, j, woken);
      TallyLocal(s, j, woken);
      hide WorkerNext, WorkerEnabled, OneInside, OneCounting;
      TalliedMove(s.workers, s'.workers, j, s.running, s'.running, s.statics);
    case SpuriousProducer(i) =>
    case SpuriousWorker(j) =>
      hide OneInside, OneCounting;
      TalliedMove(s.workers, s'.workers, j, s.running, s'.running, s.statics);
  }

  // ------------------------------------------------------- reachable states

  ghost predicate Invariant<T>(s: State<T>) {
    && Exclusive(s) && Consistent(s) && InOrder(s)
    && WorkersAlert(s) && ProducersAlert(s)
    && Accounted(s.workers, s.popped, s.finished) && Tallied(s.workers, s.running)
  }

  lemma {:induction false} NobodyCounted<T>(ws: seq<Worker<T>>)
    requires forall j :: 0 <= j < |ws| ==> ws[j] == LockPop
    ensures Count(ws) == 0
  {
    if ws != [] {
      NobodyCounted(ws[..|ws| - 1]);
    }
  }

  lemma InitialInvariant<T>(s: State<T>)
    requires Initial(s)
    ensures Invariant(s)
  {
    NobodyCounted(s.workers);
    if 0 < |s.producers| {
      assert !s.producers[0].AsleepNotFull?;
    }
  }

  lemma SpuriousKeeps<T>(s: State<T>, step: Step<T>)
    requires Exclusive(s) && Consistent(s) && WorkersAlert(s) && ProducersAlert(s)
    requires Accounted(s.workers, s.popped, s.finished)
    requires Enabled(s, step) && (step.SpuriousProducer? || step.SpuriousWorker?)
    ensures var s' := Next(s, step);
      && Consistent(s') && WorkersAlert(s') && ProducersAlert(s')
      && Accounted(s'.workers, s'.popped, s'.finished)
  {
    var s', i := Next(s, step), step.who;
    if step.SpuriousWorker? {
      assert !s'.workers[i].AsleepNotEmpty?;
      AccountedMove(s.workers, s'.workers, i, s.popped, s.finished);
    } else {
      assert !s'.producers[i].AsleepNotFull?;
    }
  }

  lemma InvariantKept<T>(s: State<T>, step: Step<T>)
    requires Invariant(s) && Enabled(s, step)
    ensures Invariant(Next(s, step))
  {
    ExclusiveKept(s, step);
    InOrderKept(s, step);
    TalliedKept(s, step);
    hide Exclusive, Consistent, InOrder, WorkersAlert, ProducersAlert, Accounted, Tallied, ProducerNext, WorkerNext,
         ProducerEnabled, WorkerEnabled;
    match step
    case ProducerStep(i, qe, woken) =>
      ConsistentKeptP(s, i, qe, woken);
      AlertKeptP(s, i, qe, woken);
      AccountedKeptP(s, i, qe, woken);
    case WorkerStep(j, woken) =>
      ConsistentKeptW(s, j, woken);
      AlertKeptW(s, j, woken);
      AccountedKeptW(s, j, woken);
    case SpuriousProducer(i) =>
      SpuriousKeeps(s, step);
    case SpuriousWorker(j) =>
      SpuriousKeeps(s, step);
  }

  ghost predicate IsRun<T>(s: State<T>, steps: seq<Step<T>>)
    decreases |steps|
  {
    steps != [] ==> Enabled(s, steps[0]) && IsRun(Next(s, steps[0]), steps[1..])
  }

  ghost function After<T>(s: State<T>, steps: seq<Step<T>>): State<T>
    requires IsRun(s, steps)
    decreases |steps|
  {
    if steps == [] then s else After(Next(s, steps[0]), steps[1..])
  }

  lemma {:induction false} RunKeepsInvariant<T>(s: State<T>, steps: seq<Step<T>>)
    requires Invariant(s) && IsRun(s, steps)
    ensures Invariant(After(s, steps))
    decreases |steps|
  {
    if steps != [] {
      InvariantKept(s, steps[0]);
      RunKeepsInvariant(Next(s, steps[0]), steps[1..]);
    }
  }

  ghost predicate Reachable<T(!new)>(s: State<T>) {
    exists s0: State<T>, steps: seq<Step<T>> :: Initial(s0) && IsRun(s0, steps) && After(s0, steps) == s
  }

  lemma ReachableInvariant<T(!new)>(s: State<T>)
    requires Reachable(s)
    ensures Invariant(s)
  {
    var s0, steps :| Initial(s0) && IsRun(s0, steps) && After(s0, steps) == s;
    InitialInvariant(s0);
    RunKeepsInvariant(s0, steps);
  }

  // --------------------------------------------------------- the main results

  /** In every reachable state the queue is first-in, first-out and keeps its bound,
      and no thread is about to take from an empty queue or to append to a full
      one; with the mutex free the flags are exact. */
  lemma QueueInEveryRun<T(!new)>(s: State<T>)
    requires Reachable(s)
    ensures s.popped + s.queue == s.pushed && |s.queue| <= s.max
    ensures s.lock == Free ==> (s.empty <==> s.queue == []) && (s.full <==> |s.queue| == s.max)
    ensures forall j :: 0 <= j < |s.workers| && s.workers[j].TakeFront? ==> s.queue != []
    ensures forall i :: 0 <= i < |s.producers| && s.producers[i].Append? ==> |s.queue| < s.max
  {
    ReachableInvariant(s);
    assert forall j :: 0 <= j < |s.workers| && s.workers[j].TakeFront? ==> s.lock == ByWorker(j);
    assert forall i :: 0 <= i < |s.producers| && s.producers[i].Append? ==> s.lock == ByProducer(i);
  }

  /** In every reachable state a non-empty queue leaves some worker awake, unless
      the thread inside push is just about to wake one; a queue with room leaves
      some producer awake, unless the thread inside pop is about to wake one. */
  lemma NoLostWakeUp<T(!new)>(s: State<T>)
    requires Reachable(s) && 0 < |s.workers| && 0 < |s.producers|
    ensures s.queue != [] ==> SomeWorkerAwake(s.workers) || SignalDueNotEmpty(s)
    ensures |s.queue| < s.max ==> SomeProducerAwake(s.producers) || SignalDueNotFull(s)
    ensures s.lock == Free && s.queue != [] ==> SomeWorkerAwake(s.workers)
    ensures s.lock == Free && |s.queue| < s.max ==> SomeProducerAwake(s.producers)
  {
    ReachableInvariant(s);
  }

  /** In no reachable state are all threads asleep. */
  lemma NeverAllAsleep<T(!new)>(s: State<T>)
    requires Reachable(s) && 0 < |s.workers| && 0 < |s.producers|
    ensures SomeWorkerAwake(s.workers) || SomeProducerAwake(s.producers)
  {
    ReachableInvariant(s);
    if s.lock.ByProducer? {
      assert !s.producers[s.lock.who].AsleepNotFull?;
    } else if s.lock.ByWorker? {
      assert !s.workers[s.lock.who].AsleepNotEmpty?;
    }
  }

  /** In every reachable state each element pushed is either still queued, or has
      been handed to exactly one worker that still holds it, or its task has been
      run; and running_num is the number of workers in between their increment and
      decrement. */
  lemma TasksInEveryRun<T(!new)>(s: State<T>, n: nat)
    requires Reachable(s) && n < |s.pushed|
    ensures n < |s.popped| ==> s.popped[n] == s.pushed[n] && (n in s.finished <==> !Held(s.workers, n))
    ensures n >= |s.popped| ==>
      n - |s.popped| < |s.queue| && s.queue[n - |s.popped|] == s.pushed[n] && n !in s.finished && !Held(s.workers, n)
    ensures forall j, k :: 0 <= j < k < |s.workers| && HasJob(s.workers[j]) && HasJob(s.workers[k]) ==>
      s.workers[j].job.ticket != s.workers[k].job.ticket
    ensures s.running == Count(s.workers)
  {
    ReachableInvariant(s);
    assert |s.pushed| == |s.popped| + |s.queue|;
    if Held(s.workers, n) {
      var j :| 0 <= j < |s.workers| && HasJob(s.workers[j]) && s.workers[j].job.ticket == n;
    }
  }

  /** A worker that runs a task runs the one that was submitted, and for the first
      time. */
  lemma NoTaskRunsTwice<T(!new)>(s: State<T>, j: nat)
    requires Reachable(s) && j < |s.workers| && s.workers[j].Working?
    ensures var job := s.workers[j].job;
      job.ticket < |s.pushed| && job.qe == s.pushed[job.ticket] && job.ticket !in s.finished
  {
    ReachableInvariant(s);
    assert HasJob(s.workers[j]);
    assert s.pushed[s.workers[j].job.ticket] == s.popped[s.workers[j].job.ticket];
  }

  // ------------------------------------------------------------ who can step

  /** The mutex that the worker waits for, if it waits for one, is free. */
  predicate WorkerLockFree<T>(s: State<T>, w: Worker<T>) {
    && (w.LockPop? || w.WokenNotEmpty? ==> s.lock == Free)
    && (w.LockInc? || w.LockDec? ==> s.statics == Free)
  }

  predicate ProducerLockFree<T>(s: State<T>, p: Producer<T>) {
    p.LockPush? || p.WokenNotFull? ==> s.lock == Free
  }

  /** In every reachable state a sleeping thread can step by a spurious wake-up, and by
      nothing else; any other thread can step at once unless it waits for a mutex that
      is held. */
  lemma WhoCanStep<T(!new)>(s: State<T>, i: nat, j: nat, qe: T)
    requires Reachable(s) && i < |s.producers| && j < |s.workers|
    ensures (exists woken :: Enabled(s, WorkerStep(j, woken))) <==>
      !s.workers[j].AsleepNotEmpty? && WorkerLockFree(s, s.workers[j])
    ensures (exists woken :: Enabled(s, ProducerStep(i, qe, woken))) <==>
      !s.producers[i].AsleepNotFull? && ProducerLockFree(s, s.producers[i])
    ensures Enabled(s, SpuriousWorker(j)) <==> s.workers[j].AsleepNotEmpty?
    ensures Enabled(s, SpuriousProducer(i)) <==> s.producers[i].AsleepNotFull?
  {
    QueueInEveryRun(s);
    var ws, ps := SomebodyToWake(s);
    hide WakesWorkers, WakesProducers, Reachable;
    if !s.workers[j].AsleepNotEmpty? && WorkerLockFree(s, s.workers[j]) {
      assert Enabled(s, WorkerStep(j, ps));
    }
    if !s.producers[i].AsleepNotFull? && ProducerLockFree(s, s.producers[i]) {
      assert Enabled(s, ProducerStep(i, qe, ws));
    }
  }

  // ---------------------------------------------------------------- progress

  /** How far a worker is from sleeping, if it takes nothing more; n is the number
      of producers that its signal may wake. */
  function Weight<T>(w: Worker<T>, n: nat): nat {
    match w
    case AsleepNotEmpty => 0
    case TakeFront => 1
    case CheckEmpty => 2
    case LockPop => 3
    case WokenNotEmpty => 3
    case UnlockDec => 4
    case StoreDec(_) => 5
    case LoadDec => 6
    case LockDec => 7
    case Working(_) => 8
    case UnlockInc(_) => 9
    case StoreInc(_, _) => 10
    case LoadInc(_) => 11
    case LockInc(_) => 12
    case UnlockPop(_) => 13
    case ClearFull(_) => 14
    case SignalNotFull(_) => 15 + 2 * n
    case SetEmpty(_) => 16 + 2 * n
  }

  /** What a queued element is worth. */
  function Price(n: nat): nat {
    16 + 2 * n
  }

  /** How far a producer is from returning; price is that of its element, and m the
      number of workers that its signal may wake. */
  function Distance<T>(p: Producer<T>, price: nat, m: nat): nat {
    match p
    case Idle => 0
    case UnlockPush => 1
    case SetFull => 2
    case ClearEmpty => 3
    case SignalNotEmpty => 4 + 3 * m
    case Append(_) => 5 + 3 * m + price
    case AsleepNotFull(_) => 5 + 3 * m + price
    case CheckFull(_) => 6 + 3 * m + price
    case LockPush(_) => 7 + 3 * m + price
    case WokenNotFull(_) => 7 + 3 * m + price
  }

  function Weights<T>(ws: seq<Worker<T>>, n: nat): nat {
    if ws == [] then 0 else Weights(ws[..|ws| - 1], n) + Weight(ws[|ws| - 1], n)
  }

  function Distances<T>(ps: seq<Producer<T>>, price: nat, m: nat): nat {
    if ps == [] then 0 else Distances(ps[..|ps| - 1], price, m) + Distance(ps[|ps| - 1], price, m)
  }

  /** Work left: the price of every queued element, and what the threads have on
      their way. */
  function Measure<T>(s: State<T>): nat {
    Price(|s.producers|) * |s.queue| + Weights(s.workers, |s.producers|)
      + Distances(s.producers, Price(|s.producers|), |s.workers|)
  }

  lemma {:induction false} WeightsMove<T>(ws: seq<Worker<T>>, ws': seq<Worker<T>>, j: int, n: nat)
    requires WorkersMove(ws, ws', j)
    ensures Weights(ws', n) <= Weights(ws, n) + 3 * |ws| +
      if 0 <= j < |ws| then Weight(ws'[j], n) - Weight(ws[j], n) else 0
    ensures (forall k :: 0 <= k < |ws| && k != j ==> ws'[k] == ws[k]) ==>
      Weights(ws', n) == Weights(ws, n) + if 0 <= j < |ws| then Weight(ws'[j], n) - Weight(ws[j], n) else 0
  {
    if ws != [] {
      WeightsMove(ws[..|ws| - 1], ws'[..|ws| - 1], j, n);
    }
  }

  lemma {:induction false} DistancesMove<T>(ps: seq<Producer<T>>, ps': seq<Producer<T>>, i: int, price: nat, m: nat)
    requires ProducersMove(ps, ps', i)
    ensures Distances(ps', price, m) <= Distances(ps, price, m) + 2 * |ps| +
      if 0 <= i < |ps| then Distance(ps'[i], price, m) - Distance(ps[i], price, m) else 0
    ensures (forall k :: 0 <= k < |ps| && k != i ==> ps'[k] == ps[k]) ==>
      Distances(ps', price, m) - Distances(ps, price, m) ==
        if 0 <= i < |ps| then Distance(ps'[i], price, m) - Distance(ps[i], price, m) else 0
  {
    if ps != [] {
      DistancesMove(ps[..|ps| - 1], ps'[..|ps| - 1], i, price, m);
    }
  }

  lemma WorkerDescends<T>(s: State<T>, j: nat, woken: set<nat>)
    requires WorkerEnabled(s, j, woken)
    ensures var s', n := WorkerNext(s, j, woken), |s.producers|; var w, w' := s.workers[j], s'.workers[j];
      && s'.workers == s.workers[j := w'] && s'.pushed == s.pushed
      && (w.SignalNotFull? ==> |s'.queue| == |s.queue| && Weight(w', n) + 2 * n < Weight(w, n))
      && (!w.SignalNotFull? ==> s'.producers == s.producers)
      && (w.TakeFront? ==> |s'.queue| + 1 == |s.queue| && Weight(w', n) < Price(n) + Weight(w, n))
      && (!w.TakeFront? ==> |s'.queue| == |s.queue| && Weight(w', n) < Weight(w, n))
  {
    hide WakeProducers, WakesProducers;
    if InPop(s.workers[j]) {
      hide TaskNext;
    } else {
      hide PopNext;
    }
  }

  lemma ProducerDescends<T>(s: State<T>, i: nat, qe: T, woken: set<nat>, price: nat)
    requires ProducerEnabled(s, i, woken) && !s.producers[i].Idle?
    ensures var s', m := ProducerNext(s, i, qe, woken), |s.workers|; var p, p' := s.producers[i], s'.producers[i];
      && s'.producers == s.producers[i := p']
      && (p.SignalNotEmpty? ==> |s'.queue| == |s.queue| && Distance(p', price, m) + 3 * m < Distance(p, price, m))
      && (!p.SignalNotEmpty? ==> s'.workers == s.workers)
      && (p.Append? ==> |s'.queue| == |s.queue| + 1 && Distance(p', price, m) + price < Distance(p, price, m))
      && (!p.Append? ==> |s'.queue| == |s.queue| && Distance(p', price, m) < Distance(p, price, m))
  {
    hide WakeWorkers, WakesWorkers;
  }

  lemma Prices(price: nat, k: nat)
    ensures price * (k + 1) == price * k + price
  {
  }

  /** No step starts a new push, and nobody wakes up without a signal. */
  predicate WindingDown<T>(s: State<T>, step: Step<T>) {
    step.WorkerStep? || (step.ProducerStep? && step.who < |s.producers| && !s.producers[step.who].Idle?)
  }

  /** Every such step lowers the work left, although a signal may wake any number of
      threads. */
  lemma StepDescends<T>(s: State<T>, step: Step<T>)
    requires Enabled(s, step) && WindingDown(s, step)
    ensures Measure(Next(s, step)) < Measure(s)
  {
    var s', n, m := Next(s, step), |s.producers|, |s.workers|;
    var who := step.who;
    Prices(Price(n), if |s'.queue| < |s.queue| then |s'.queue| else |s.queue|);
    if step.WorkerStep? {
      WorkerMoves(s, who, step.woken);
      WorkerDescends(s, who, step.woken);
      hide WorkerNext, WorkerEnabled, Weight, Distance, Price;
      WeightsMove(s.workers, s'.workers, who, n);
      DistancesMove(s.producers, s'.producers, -1, Price(n), m);
    } else {
      ProducerMoves(s, who, step.qe, step.woken);
      ProducerDescends(s, who, step.qe, step.woken, Price(n));
      hide ProducerNext, ProducerEnabled, Weight, Distance, Price;
      WeightsMove(s.workers, s'.workers, -1, n);
      DistancesMove(s.producers, s'.producers, who, Price(n), m);
    }
  }

  ghost predicate WindsDown<T>(s: State<T>, steps: seq<Step<T>>)
    requires IsRun(s, steps)
    decreases |steps|
  {
    steps != [] ==> WindingDown(s, steps[0]) && WindsDown(Next(s, steps[0]), steps[1..])
  }

  lemma {:induction false} RunDescends<T>(s: State<T>, steps: seq<Step<T>>)
    requires Invariant(s) && IsRun(s, steps) && WindsDown(s, steps)
    ensures var s' := After(s, steps);
      Invariant(s') && |steps| + Measure(s') <= Measure(s) && |s'.workers| == |s.workers|
    decreases |steps|
  {
    hide Invariant, Measure, WindingDown;
    if steps != [] {
      InvariantKept(s, steps[0]);
      StepDescends(s, steps[0]);
      SameThreads(s, steps[0]);
      RunDescends(Next(s, steps[0]), steps[1..]);
    }
  }

  lemma SameThreads<T>(s: State<T>, step: Step<T>)
    requires Enabled(s, step)
    ensures |Next(s, step).workers| == |s.workers|
  {
    match step
    case ProducerStep(i, qe, woken) =>
      ProducerMoves(s, i, qe, woken);
    case WorkerStep(j, woken) =>
      WorkerMoves(s, j, woken);
    case SpuriousProducer(_) =>
    case SpuriousWorker(_) =>
  }

  /** Nothing can happen any more, except that a new push starts or somebody wakes up
      without a signal. */
  ghost predicate AtRest<T>(s: State<T>) {
    && (forall j: nat, woken: set<nat> :: !WorkerEnabled(s, j, woken))
    && (forall i: nat, woken: set<nat> :: ProducerEnabled(s, i, woken) ==> s.producers[i].Idle?)
  }

  /** Somebody can always be chosen for a signal. */
  lemma SomebodyToWake<T>(s: State<T>) returns (ws: set<nat>, ps: set<nat>)
    ensures WakesWorkers(s.workers, ws) && WakesProducers(s.producers, ps)
  {
    ws, ps := {}, {};
    if SomeWorkerSleeps(s.workers) {
      var j: nat :| j < |s.workers| && s.workers[j].AsleepNotEmpty?;
      ws := {j};
    }
    if SomeProducerSleeps(s.producers) {
      var i: nat :| i < |s.producers| && s.producers[i].AsleepNotFull?;
      ps := {i};
    }
  }

  lemma WorkerAtRest<T>(s: State<T>, j: nat)
    requires AtRest(s) && j < |s.workers|
    requires s.workers[j].TakeFront? ==> s.queue != []
    ensures !HoldsLockW(s.workers[j]) && !HoldsStatics(s.workers[j])
    ensures s.workers[j].AsleepNotEmpty? ||
            ((s.workers[j].LockPop? || s.workers[j].WokenNotEmpty?) && s.lock != Free) ||
            ((s.workers[j].LockInc? || s.workers[j].LockDec?) && s.statics != Free)
  {
    var ws, ps := SomebodyToWake(s);
    assert !WorkerEnabled(s, j, ps);
  }

  lemma ProducerAtRest<T>(s: State<T>, i: nat)
    requires AtRest(s) && i < |s.producers|
    ensures !HoldsLockP(s.producers[i])
    ensures s.producers[i].Idle? || s.producers[i].AsleepNotFull? ||
            ((s.producers[i].LockPush? || s.producers[i].WokenNotFull?) && s.lock != Free)
  {
    var ws, ps := SomebodyToWake(s);
    assert ProducerEnabled(s, i, ws) ==> s.producers[i].Idle?;
  }

  /** Threads at rest have emptied the queue and run every task; all workers sleep,
      and no producer is inside push other than asleep. */
  lemma RestMeansDrained<T>(s: State<T>)
    requires Invariant(s) && AtRest(s) && 0 < |s.workers|
    ensures s.queue == []
    ensures forall n: nat :: n < |s.pushed| ==> n in s.finished
    ensures forall j :: 0 <= j < |s.workers| ==> s.workers[j].AsleepNotEmpty?
    ensures forall i :: 0 <= i < |s.producers| ==> s.producers[i].Idle? || s.producers[i].AsleepNotFull?
  {
    RestIsFree(s);
    forall j: nat | j < |s.workers| ensures s.workers[j].AsleepNotEmpty? {
      WorkerAtRest(s, j);
    }
    forall i: nat | i < |s.producers| ensures s.producers[i].Idle? || s.producers[i].AsleepNotFull? {
      ProducerAtRest(s, i);
    }
  }

  lemma RestIsFree<T>(s: State<T>)
    requires Exclusive(s) && Consistent(s) && AtRest(s)
    ensures s.lock == Free && s.statics == Free
    ensures forall j :: 0 <= j < |s.workers| ==> !s.workers[j].TakeFront?
  {
    hide AtRest;
    if s.lock.ByWorker? { WorkerAtRest(s, s.lock.who); }
    if s.lock.ByProducer? { ProducerAtRest(s, s.lock.who); }
    if s.statics.ByWorker? { WorkerAtRest(s, s.statics.who); }
  }

  /** If tasks finish, then from any reachable state and in every interleaving, as
      long as no new push starts, the threads take a bounded number of steps; when
      none of them can step any more the queue is empty, every task pushed has been
      run, all workers sleep, and every push has returned or is blocked. */
  lemma QueueDrains<T(!new)>(s: State<T>, steps: seq<Step<T>>)
    requires Reachable(s) && 0 < |s.workers| && IsRun(s, steps) && WindsDown(s, steps)
    ensures |steps| <= Measure(s)
    ensures var s' := After(s, steps);
      AtRest(s') ==>
        && s'.queue == []
        && (forall n: nat :: n < |s'.pushed| ==> n in s'.finished)
        && (forall j :: 0 <= j < |s'.workers| ==> s'.workers[j].AsleepNotEmpty?)
        && (forall i :: 0 <= i < |s'.producers| ==> s'.producers[i].Idle? || s'.producers[i].AsleepNotFull?)
  {
    ReachableInvariant(s);
    RunDescends(s, steps);
    var s' := After(s, steps);
    if AtRest(s') {
      RestMeansDrained(s');
    }
  }
}
