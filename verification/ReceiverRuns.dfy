/**
 Whole operations of the receiver: what the steps of one thread add up to when no
 other thread steps in between.
 */
module ReceiverRuns {
  import opened Receiver

  /** The step is one that the given thread takes itself. */
  predicate StepOf<E>(step: Step<E>, me: Holder) {
    match step
    case SourceStep(i, _, _) => me == BySource(i)
    case FetcherStep(j) => me == ByFetcher(j)
    case _ => false
  }

  ghost predicate StepsOf<E>(steps: seq<Step<E>>, me: Holder) {
    forall k :: 0 <= k < |steps| ==> StepOf(steps[k], me)
  }

  /** A run in which only the given thread takes steps leads from s to s'. */
  ghost predicate Leads<E(!new)>(s: State<E>, s': State<E>, me: Holder) {
    exists steps: seq<Step<E>> :: IsRun(s, steps) && StepsOf(steps, me) && After(s, steps) == s'
  }

  lemma {:induction false} RunConcat<E>(s: State<E>, steps: seq<Step<E>>, more: seq<Step<E>>)
    requires IsRun(s, steps) && IsRun(After(s, steps), more)
    ensures IsRun(s, steps + more) && After(s, steps + more) == After(After(s, steps), more)
    decreases |steps|
  {
    if steps == [] {
      assert steps + more == more;
    } else {
      assert (steps + more)[1..] == steps[1..] + more;
      RunConcat(Next(s, steps[0]), steps[1..], more);
    }
  }

  lemma LeadsOn<E(!new)>(s: State<E>, s1: State<E>, s2: State<E>, me: Holder)
    requires Leads(s, s1, me) && Leads(s1, s2, me)
    ensures Leads(s, s2, me)
  {
    var steps: seq<Step<E>> :| IsRun(s, steps) && StepsOf(steps, me) && After(s, steps) == s1;
    var more: seq<Step<E>> :| IsRun(s1, more) && StepsOf(more, me) && After(s1, more) == s2;
    RunConcat(s, steps, more);
    assert StepsOf(steps + more, me);
  }

  lemma Stay<E(!new)>(s: State<E>, me: Holder)
    ensures Leads(s, s, me)
  {
    assert IsRun(s, []) && StepsOf<E>([], me) && After(s, []) == s;
  }

  /** One more step of the thread. */
  lemma Go<E(!new)>(s: State<E>, s1: State<E>, me: Holder, step: Step<E>) returns (s': State<E>)
    requires Leads(s, s1, me) && Enabled(s1, step) && StepOf(step, me)
    ensures s' == Next(s1, step) && Leads(s, s', me)
  {
    s' := Next(s1, step);
    assert [step][1..] == [];
    assert IsRun(s', []) && After(s', []) == s';
    assert IsRun(s1, [step]) && StepsOf([step], me) && After(s1, [step]) == s';
    LeadsOn(s, s1, s', me);
  }

  /** Receiving without interruption: the element is put into the queue once and the
      lock is free again; fetchers are woken exactly when the queue was empty. */
  lemma ReceiveRuns<E(!new)>(s: State<E>, i: nat, e: E, woken: set<nat>) returns (s': State<E>)
    requires s.lock == Free && i < |s.sources| && s.sources[i].Receiving?
    requires s.elements == [] ==> Wakes(s.fetchers, woken)
    ensures Leads(s, s', BySource(i))
    ensures s' == s.(elements := s.elements + [e], received := s.received + [e],
                     fetchers := if s.elements == [] then Wake(s.fetchers, woken) else s.fetchers)
  {
    var step := SourceStep(i, e, woken);
    hide Leads, Wakes, Wake;
    Stay(s, BySource(i));
    var s1 := Go(s, s, BySource(i), step);
    var s2 := Go(s, s1, BySource(i), step);
    var s3 := Go(s, s2, BySource(i), step);
    var s4 := Go(s, s3, BySource(i), step);
    var s5 := Go(s, s4, BySource(i), step);
    s' := Go(s, s5, BySource(i), step);
    assert s'.sources == s.sources;
  }

  /** A fetch without interruption from a non-empty queue: in state s1 the call is about
      to return the first element, with the others left in the queue; in s' it has
      returned and the lock is free. */
  lemma FetchRuns<E(!new)>(s: State<E>, j: nat) returns (s1: State<E>, s': State<E>)
    requires s.lock == Free && j < |s.fetchers| && s.elements != []
    requires s.fetchers[j].LockFetch? || s.fetchers[j].WokenFetch?
    ensures Leads(s, s1, ByFetcher(j))
    ensures |s1.fetchers| == |s.fetchers| && s1.fetchers[j] == UnlockFetch(s.elements[0])
    ensures Leads(s1, s', ByFetcher(j))
    ensures s' == s.(elements := s.elements[1..], fetched := s.fetched + [s.elements[0]],
                     fetchers := s.fetchers[j := Away])
    ensures s1.elements == s'.elements && s1.fetched == s'.fetched
  {
    var step := FetcherStep(j);
    hide Leads;
    Stay(s, ByFetcher(j));
    var t1 := Go(s, s, ByFetcher(j), step);
    var t2 := Go(s, t1, ByFetcher(j), step);
    s1 := Go(s, t2, ByFetcher(j), step);
    Stay(s1, ByFetcher(j));
    s' := Go(s1, s1, ByFetcher(j), step);
    assert s'.fetchers == s.fetchers[j := Away];
  }

  /** A fetch from an empty queue goes to sleep and frees the lock. */
  lemma WaitRuns<E(!new)>(s: State<E>, j: nat) returns (s': State<E>)
    requires s.lock == Free && j < |s.fetchers| && s.elements == []
    requires s.fetchers[j].LockFetch? || s.fetchers[j].WokenFetch?
    ensures Leads(s, s', ByFetcher(j)) && s' == s.(fetchers := s.fetchers[j := AsleepFetch])
  {
    var step := FetcherStep(j);
    hide Leads;
    Stay(s, ByFetcher(j));
    var s1 := Go(s, s, ByFetcher(j), step);
    s' := Go(s, s1, ByFetcher(j), step);
    assert s'.fetchers == s.fetchers[j := AsleepFetch];
  }
}
