/**
 The element queue between the receiver and its fetchers, as a system of
 interleaved steps. The receiver decides under the lock whether to signal, but
 signals only after it has released it; the queue has no bound.
 */
module Receiver {

  /** Where a thread is inside receiver::run; the flag is is_signal. */
  datatype Source<E> =
    | Receiving
    | LockPut(e: E)
    | TestEmpty(e: E)
    | Put(e: E, signal: bool)
    | UnlockPut(signal: bool)
    | SendSignal(signal: bool)

  /** Where a thread is inside fetchOne. */
  datatype Fetcher<E> =
    | Away
    | LockFetch
    | TestFetch
    | AsleepFetch
    | WokenFetch
    | TakeFetch
    | UnlockFetch(e: E)

  datatype Holder = Free | BySource(who: nat) | ByFetcher(who: nat)

  datatype State<E> = State(
    elements: seq<E>, lock: Holder, sources: seq<Source<E>>, fetchers: seq<Fetcher<E>>,
    // histories: elements put into the queue and taken from it
    received: seq<E>, fetched: seq<E>)

  datatype Step<E> =
    | SourceStep(who: nat, e: E, woken: set<nat>)
    | FetcherStep(who: nat)
    | Spurious(who: nat)

  predicate Initial<E(==)>(s: State<E>) {
    && s.elements == [] && s.lock == Free && s.received == [] && s.fetched == []
    && (forall i :: 0 <= i < |s.sources| ==> s.sources[i] == Receiving)
    && (forall j :: 0 <= j < |s.fetchers| ==> s.fetchers[j] == Away)
  }

  ghost predicate SomeSleeps<E>(fs: seq<Fetcher<E>>) {
    exists j :: 0 <= j < |fs| && fs[j].AsleepFetch?
  }

  ghost predicate SomeAwake<E>(fs: seq<Fetcher<E>>) {
    exists j :: 0 <= j < |fs| && !fs[j].AsleepFetch?
  }

  /** A signal wakes only waiting fetchers, and at least one if there is any. */
  ghost predicate Wakes<E>(fs: seq<Fetcher<E>>, woken: set<nat>) {
    && (forall j <- woken :: j < |fs| && fs[j].AsleepFetch?)
    && (SomeSleeps(fs) ==> woken != {})
  }

  function Wake<E>(fs: seq<Fetcher<E>>, woken: set<nat>): (r: seq<Fetcher<E>>)
    ensures |r| == |fs|
  {
    seq(|fs|, j requires 0 <= j < |fs| => if j in woken && fs[j].AsleepFetch? then WokenFetch else fs[j])
  }

  ghost predicate Enabled<E>(s: State<E>, step: Step<E>) {
    match step
    case SourceStep(i, _, woken) =>
      && i < |s.sources|
      && (s.sources[i].LockPut? ==> s.lock == Free)
      && (s.sources[i] == SendSignal(true) ==> Wakes(s.fetchers, woken))
    case FetcherStep(j) =>
      && j < |s.fetchers| && !s.fetchers[j].AsleepFetch?
      && (s.fetchers[j].LockFetch? || s.fetchers[j].WokenFetch? ==> s.lock == Free)
      && (s.fetchers[j].TakeFetch? ==> s.elements != [])
    case Spurious(j) => j < |s.fetchers| && s.fetchers[j].AsleepFetch?
  }

  /** The statements of the receiving loop. */
  function SourceNext<E>(s: State<E>, i: nat, e: E, woken: set<nat>): State<E>
    requires i < |s.sources|
  {
    match s.sources[i]
    case Receiving => s.(sources := s.sources[i := LockPut(e)])
    case LockPut(x) => s.(sources := s.sources[i := TestEmpty(x)], lock := BySource(i))
    case TestEmpty(x) => s.(sources := s.sources[i := Put(x, |s.elements| == 0)])
    case Put(x, signal) =>
      s.(sources := s.sources[i := UnlockPut(signal)], elements := s.elements + [x], received := s.received + [x])
    case UnlockPut(signal) => s.(sources := s.sources[i := SendSignal(signal)], lock := Free)
    case SendSignal(signal) =>
      s.(sources := s.sources[i := Receiving], fetchers := if signal then Wake(s.fetchers, woken) else s.fetchers)
  }

  /** The statements of fetchOne. */
  function FetcherNext<E>(s: State<E>, j: nat): State<E>
    requires j < |s.fetchers| && (s.fetchers[j].TakeFetch? ==> s.elements != [])
  {
    match s.fetchers[j]
    case Away => s.(fetchers := s.fetchers[j := LockFetch])
    case LockFetch => s.(fetchers := s.fetchers[j := TestFetch], lock := ByFetcher(j))
    case TestFetch =>
      if |s.elements| == 0 then s.(fetchers := s.fetchers[j := AsleepFetch], lock := Free)
      else s.(fetchers := s.fetchers[j := TakeFetch])
    case AsleepFetch => s
    case WokenFetch => s.(fetchers := s.fetchers[j := TestFetch], lock := ByFetcher(j))
    case TakeFetch =>
      s.(fetchers := s.fetchers[j := UnlockFetch(s.elements[0])],
         elements := s.elements[1..], fetched := s.fetched + [s.elements[0]])
    case UnlockFetch(_) => s.(fetchers := s.fetchers[j := Away], lock := Free)
  }

  ghost function Next<E>(s: State<E>, step: Step<E>): State<E>
    requires Enabled(s, step)
  {
    match step
    case SourceStep(i, e, woken) => SourceNext(s, i, e, woken)
    case FetcherStep(j) => FetcherNext(s, j)
    case Spurious(j) => s.(fetchers := s.fetchers[j := WokenFetch])
  }

  // -------------------------------------------------------------- invariants

  predicate InsideS<E>(x: Source<E>) {
    x.TestEmpty? || x.Put? || x.UnlockPut?
  }

  predicate InsideF<E>(x: Fetcher<E>) {
    x.TestFetch? || x.TakeFetch? || x.UnlockFetch?
  }

  ghost predicate Exclusive<E>(s: State<E>) {
    && (forall i :: 0 <= i < |s.sources| ==> (InsideS(s.sources[i]) <==> s.lock == BySource(i)))
    && (forall j :: 0 <= j < |s.fetchers| ==> (InsideF(s.fetchers[j]) <==> s.lock == ByFetcher(j)))
  }

  /** What the thread inside knows about the queue. */
  ghost predicate Informed<E>(s: State<E>) {
    && (forall i :: 0 <= i < |s.sources| && s.sources[i].Put? ==> (s.sources[i].signal <==> s.elements == []))
    && (forall j :: 0 <= j < |s.fetchers| && s.fetchers[j].TakeFetch? ==> s.elements != [])
  }

  /** Some thread has put an element into an empty queue and still has to signal. */
  ghost predicate SignalDue<E>(ss: seq<Source<E>>) {
    exists i :: 0 <= i < |ss| && (ss[i] == UnlockPut(true) || ss[i] == SendSignal(true))
  }

  ghost predicate Alert<E>(s: State<E>) {
    s.elements != [] && 0 < |s.fetchers| ==> SomeAwake(s.fetchers) || SignalDue(s.sources)
  }

  predicate InOrder<E(==)>(s: State<E>) {
    s.fetched + s.elements == s.received
  }

  /** A fetcher about to return hands out the element taken last. */
  ghost predicate HandsOutLast<E>(s: State<E>) {
    forall j :: 0 <= j < |s.fetchers| && s.fetchers[j].UnlockFetch? ==>
      s.fetched != [] && s.fetchers[j].e == s.fetched[|s.fetched| - 1]
  }

  ghost predicate Invariant<E>(s: State<E>) {
    Exclusive(s) && Informed(s) && Alert(s) && InOrder(s) && HandsOutLast(s)
  }

  lemma ExclusiveKept<E>(s: State<E>, step: Step<E>)
    requires Exclusive(s) && Enabled(s, step)
    ensures Exclusive(Next(s, step))
  {
  }

  lemma InformedKept<E>(s: State<E>, step: Step<E>)
    requires Exclusive(s) && Informed(s) && Enabled(s, step)
    ensures Informed(Next(s, step))
  {
  }

  lemma InOrderKept<E>(s: State<E>, step: Step<E>)
    requires InOrder(s) && Enabled(s, step)
    ensures InOrder(Next(s, step))
  {
    if step.SourceStep? && s.sources[step.who].Put? {
      var x := s.sources[step.who].e;
      assert s.fetched + (s.elements + [x]) == (s.fetched + s.elements) + [x];
    } else if step.FetcherStep? && s.fetchers[step.who].TakeFetch? {
      assert s.fetched + [s.elements[0]] + s.elements[1..] == s.fetched + s.elements;
    }
  }

  lemma HandsOutKept<E>(s: State<E>, step: Step<E>)
    requires Exclusive(s) && HandsOutLast(s) && Enabled(s, step)
    ensures HandsOutLast(Next(s, step))
  {
    var s' := Next(s, step);
    forall j | 0 <= j < |s'.fetchers| && s'.fetchers[j].UnlockFetch?
      ensures s'.fetched != [] && s'.fetchers[j].e == s'.fetched[|s'.fetched| - 1]
    {
      assert s.fetchers[j].UnlockFetch? || (step == FetcherStep(j) && s.fetchers[j].TakeFetch?);
      assert InsideF(s.fetchers[j]);
    }
  }

  /** A step of one thread leaves the others awake, and their signals due. */
  lemma AwakeStays<E>(s: State<E>, step: Step<E>)
    requires Enabled(s, step)
    ensures var s' := Next(s, step);
      && (step.SourceStep? && SomeAwake(s.fetchers) ==> SomeAwake(s'.fetchers))
      && (step.FetcherStep? && SignalDue(s.sources) ==> SignalDue(s'.sources))
  {
    var s' := Next(s, step);
    if step.SourceStep? && SomeAwake(s.fetchers) {
      var j :| 0 <= j < |s.fetchers| && !s.fetchers[j].AsleepFetch?;
      assert !s'.fetchers[j].AsleepFetch?;
    }
  }

  lemma SignalWakes<E>(fs: seq<Fetcher<E>>, woken: set<nat>)
    requires Wakes(fs, woken) && 0 < |fs|
    ensures SomeAwake(Wake(fs, woken))
  {
    var fs' := Wake(fs, woken);
    if SomeSleeps(fs) {
      var j :| j in woken;
      assert !fs'[j].AsleepFetch?;
    } else {
      assert !fs[0].AsleepFetch? && !fs'[0].AsleepFetch?;
    }
  }

  /** Another source's due signal stays due. */
  lemma DueStays<E>(s: State<E>, i: nat, e: E, woken: set<nat>)
    requires i < |s.sources| && SignalDue(s.sources)
    ensures s.sources[i] == SendSignal(true) || SignalDue(SourceNext(s, i, e, woken).sources)
  {
    var k :| 0 <= k < |s.sources| && (s.sources[k] == UnlockPut(true) || s.sources[k] == SendSignal(true));
    var ss := SourceNext(s, i, e, woken).sources;
    assert s.sources[i] == SendSignal(true) || ss[k] == UnlockPut(true) || ss[k] == SendSignal(true);
  }

  lemma AlertKeptS<E>(s: State<E>, i: nat, e: E, woken: set<nat>)
    requires Exclusive(s) && Informed(s) && Alert(s) && Enabled(s, SourceStep(i, e, woken))
    ensures Alert(SourceNext(s, i, e, woken))
  {
    var s' := SourceNext(s, i, e, woken);
    AwakeStays(s, SourceStep(i, e, woken));
    if SignalDue(s.sources) { DueStays(s, i, e, woken); }
    if s.sources[i] == SendSignal(true) && 0 < |s.fetchers| { SignalWakes(s.fetchers, woken); }
    if s.sources[i].Put? && s.elements == [] {
      assert s'.sources[i] == UnlockPut(true);
    }
    hide Exclusive, SomeAwake, Wake, Wakes;
  }

  lemma AlertKeptF<E>(s: State<E>, j: nat)
    requires Exclusive(s) && Informed(s) && Alert(s) && Enabled(s, FetcherStep(j))
    ensures Alert(FetcherNext(s, j))
  {
    AwakeStays(s, FetcherStep(j));
    var s' := FetcherNext(s, j);
    assert !s'.fetchers[j].AsleepFetch? ==> SomeAwake(s'.fetchers);
    hide Exclusive, Informed, SomeAwake, SignalDue;
  }

  lemma InvariantKept<E>(s: State<E>, step: Step<E>)
    requires Invariant(s) && Enabled(s, step)
    ensures Invariant(Next(s, step))
  {
    ExclusiveKept(s, step);
    InformedKept(s, step);
    InOrderKept(s, step);
    HandsOutKept(s, step);
    match step
    case SourceStep(i, e, woken) => AlertKeptS(s, i, e, woken);
    case FetcherStep(j) => AlertKeptF(s, j);
    case Spurious(j) => assert !Next(s, step).fetchers[j].AsleepFetch?;
  }

  ghost predicate IsRun<E>(s: State<E>, steps: seq<Step<E>>)
    decreases |steps|
  {
    steps != [] ==> Enabled(s, steps[0]) && IsRun(Next(s, steps[0]), steps[1..])
  }

  ghost function After<E>(s: State<E>, steps: seq<Step<E>>): State<E>
    requires IsRun(s, steps)
    decreases |steps|
  {
    if steps == [] then s else After(Next(s, steps[0]), steps[1..])
  }

  lemma {:induction false} RunKeepsInvariant<E>(s: State<E>, steps: seq<Step<E>>)
    requires Invariant(s) && IsRun(s, steps)
    ensures Invariant(After(s, steps)) && |After(s, steps).fetchers| == |s.fetchers|
    decreases |steps|
  {
    if steps != [] {
      InvariantKept(s, steps[0]);
      RunKeepsInvariant(Next(s, steps[0]), steps[1..]);
    }
  }

  /** In every interleaving, a non-empty queue leaves some fetcher awake or some
      receiving thread with a signal still to send; what has been fetched is a prefix of
      what has been received, in order; and each fetcher returns the element that it
      took, the last one fetched until then. */
  lemma NoLostElement<E>(s: State<E>, steps: seq<Step<E>>)
    requires Initial(s) && IsRun(s, steps) && 0 < |s.fetchers|
    ensures var s' := After(s, steps);
      && (s'.elements != [] ==> SomeAwake(s'.fetchers) || SignalDue(s'.sources))
      && (s'.elements != [] && (forall i :: 0 <= i < |s'.sources| ==> s'.sources[i].Receiving?) ==>
            SomeAwake(s'.fetchers))
      && s'.fetched <= s'.received && s'.received[|s'.fetched|..] == s'.elements
      && HandsOutLast(s')
  {
    RunKeepsInvariant(s, steps);
  }

  /** Which threads can step: a fetcher asleep by a spurious wake-up alone, any other
      thread at once unless it waits for a lock that is held. */
  lemma WhoCanStep<E>(s: State<E>, i: nat, j: nat, e: E)
    requires Invariant(s) && i < |s.sources| && j < |s.fetchers|
    ensures (exists woken :: Enabled(s, SourceStep(i, e, woken))) <==> !s.sources[i].LockPut? || s.lock == Free
    ensures Enabled(s, FetcherStep(j)) <==>
      !s.fetchers[j].AsleepFetch? && (s.fetchers[j].LockFetch? || s.fetchers[j].WokenFetch? ==> s.lock == Free)
    ensures Enabled(s, Spurious(j)) <==> s.fetchers[j].AsleepFetch?
  {
    if !s.sources[i].LockPut? || s.lock == Free {
      var woken: set<nat> := {};
      if SomeSleeps(s.fetchers) {
        var k: nat :| k < |s.fetchers| && s.fetchers[k].AsleepFetch?;
        woken := {k};
      }
      assert Enabled(s, SourceStep(i, e, woken));
    }
  }
}
