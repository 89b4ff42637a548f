/**
 The stage handler: its loop stores each fetched element in one shared field and
 then queues a job for the workers, which reads whatever the field holds by the time it
 runs. Copies of an element are taken to be atomic.
 */
module StageHandler {
  import opened Options

  /** Where the handler's loop is. */
  datatype Phase = Fetching | Queueing

  /** The shared field ie, how many tasks were queued, and for each task that has run
      the element it read. Histories: what has been fetched so far, and for each task
      how many fetches there had been before it read, less one. */
  datatype State<E> = State(
    phase: Phase, ie: Option<E>, queued: nat, read: map<nat, Option<E>>,
    fetched: seq<E>, got: map<nat, int>)

  datatype Event<E> =
    | Fetch(e: E)         // fetchOne, and the assignment to ie
    | Queue               // wp->run with a new task
    | Handle(task: nat)   // handlerFunc reads ie

  predicate Enabled<E>(s: State<E>, ev: Event<E>) {
    match ev
    case Fetch(_) => s.phase.Fetching?
    case Queue => s.phase.Queueing?
    case Handle(k) => k < s.queued && k !in s.got
  }

  function Next<E>(s: State<E>, ev: Event<E>): State<E>
    requires Enabled(s, ev)
  {
    match ev
    case Fetch(e) => s.(phase := Queueing, ie := Some(e), fetched := s.fetched + [e])
    case Queue => s.(phase := Fetching, queued := s.queued + 1)
    case Handle(k) => s.(read := s.read[k := s.ie], got := s.got[k := |s.fetched| - 1])
  }

  function Start<E>(): State<E> {
    State(Fetching, None, 0, map[], [], map[])
  }

  predicate IsRun<E>(s: State<E>, evs: seq<Event<E>>)
    decreases |evs|
  {
    evs != [] ==> Enabled(s, evs[0]) && IsRun(Next(s, evs[0]), evs[1..])
  }

  function After<E>(s: State<E>, evs: seq<Event<E>>): State<E>
    requires IsRun(s, evs)
    decreases |evs|
  {
    if evs == [] then s else After(Next(s, evs[0]), evs[1..])
  }

  /** Tasks never exceed fetches and lag by at most one, the shared field holds the last
      element fetched, and no task gets an element older than its own. */
  ghost predicate Invariant<E>(s: State<E>) {
    && s.ie == (if s.fetched == [] then None else Some(s.fetched[|s.fetched| - 1]))
    && s.read.Keys == s.got.Keys
    && (forall k <- s.got.Keys :: 0 <= s.got[k] < |s.fetched| && s.read[k] == Some(s.fetched[s.got[k]]))
    && (s.phase.Fetching? ==> s.queued == |s.fetched|)
    && (s.phase.Queueing? ==> s.queued + 1 == |s.fetched|)
    && (forall k <- s.got.Keys :: k < s.queued && k <= s.got[k] < |s.fetched|)
  }

  lemma {:induction false} RunKeepsInvariant<E>(s: State<E>, evs: seq<Event<E>>)
    requires Invariant(s) && IsRun(s, evs)
    ensures Invariant(After(s, evs))
    decreases |evs|
  {
    if evs != [] {
      RunKeepsInvariant(Next(s, evs[0]), evs[1..]);
    }
  }

  /** The elements of the fetches, in order. */
  function Elements<E>(evs: seq<Event<E>>): seq<E> {
    if evs == [] then [] else (if evs[0].Fetch? then [evs[0].e] else []) + Elements(evs[1..])
  }

  /** What has been fetched is what the fetches delivered. */
  lemma {:induction false} FetchedInOrder<E>(s: State<E>, evs: seq<Event<E>>)
    requires IsRun(s, evs)
    ensures After(s, evs).fetched == s.fetched + Elements(evs)
    decreases |evs|
  {
    if evs != [] {
      FetchedInOrder(Next(s, evs[0]), evs[1..]);
      var first := if evs[0].Fetch? then [evs[0].e] else [];
      assert s.fetched + (first + Elements(evs[1..])) == (s.fetched + first) + Elements(evs[1..]);
    }
  }

  predicate NoFetch<E>(evs: seq<Event<E>>) {
    forall a :: 0 <= a < |evs| ==> !evs[a].Fetch?
  }

  lemma {:induction false} FetchedGrows<E>(s: State<E>, evs: seq<Event<E>>)
    requires IsRun(s, evs)
    ensures |s.fetched| <= |After(s, evs).fetched|
    ensures |s.fetched| == |After(s, evs).fetched| <==> NoFetch(evs)
    decreases |evs|
  {
    if evs != [] {
      FetchedGrows(Next(s, evs[0]), evs[1..]);
      assert NoFetch(evs) ==> NoFetch(evs[1..]) by {
        if NoFetch(evs) {
          forall a | 0 <= a < |evs| - 1 ensures !evs[1..][a].Fetch? { assert evs[1..][a] == evs[a + 1]; }
        }
      }
      if !evs[0].Fetch? && NoFetch(evs[1..]) {
        forall a | 0 <= a < |evs| ensures !evs[a].Fetch? {
          if a > 0 { assert evs[1..][a - 1] == evs[a]; }
        }
      }
    }
  }

  /** The law of the shared field: let e be fetched in state s as the k-th element,
      anything happen next, and the k-th task then run. It reads the last element
      fetched until then, which has an index of at least k, and is the k-th one if and
      only if nothing was fetched in between. */
  lemma TaskReadsOwnElementIffNotOvertaken<E>(s: State<E>, e: E, evs: seq<Event<E>>, k: nat)
    requires Invariant(s) && s.phase.Fetching? && k == |s.fetched|
    requires IsRun(Next(s, Fetch(e)), evs) && Enabled(After(Next(s, Fetch(e)), evs), Handle(k))
    ensures var s' := Next(After(Next(s, Fetch(e)), evs), Handle(k));
      var arrived := [e] + Elements(evs);
      && s'.read[k] == Some(arrived[|arrived| - 1]) && s'.fetched == s.fetched + arrived
      && k <= s'.got[k] < |s'.fetched| && s'.fetched[s'.got[k]] == arrived[|arrived| - 1]
      && (s'.got[k] == k <==> NoFetch(evs)) && (NoFetch(evs) ==> s'.read[k] == Some(e))
  {
    FetchedGrows(Next(s, Fetch(e)), evs);
    FetchedInOrder(Next(s, Fetch(e)), evs);
    RunKeepsInvariant(Next(s, Fetch(e)), evs);
    assert s.fetched + [e] + Elements(evs) == s.fetched + ([e] + Elements(evs));
  }

  /** Every fetched element is handled by some task. */
  ghost predicate AllHandled<E>(s: State<E>) {
    forall k :: 0 <= k < |s.fetched| ==> k in s.got.Values
  }

  /** Every task has run and got its own element. */
  ghost predicate AllOwn<E>(s: State<E>) {
    forall k :: 0 <= k < |s.fetched| ==> k in s.got && s.got[k] == k
  }

  lemma {:induction false} HandledMeansOwn<E>(s: State<E>, k: nat)
    requires Invariant(s) && AllHandled(s) && k < |s.fetched|
    ensures k in s.got && s.got[k] == k
    decreases k
  {
    // Element k was read by some task j <= k; those before k have read their
    // own elements, so that it can only be task k.
    assert k in s.got.Values;
    var j :| j in s.got && s.got[j] == k;
    if j < k {
      HandledMeansOwn(s, j);
    }
  }

  /** No fetched element is lost in a run exactly when every task got its own. */
  lemma NothingLostIffNoTaskOvertaken<E>(evs: seq<Event<E>>)
    requires IsRun(Start(), evs)
    ensures AllHandled(After(Start(), evs)) <==> AllOwn(After(Start(), evs))
  {
    var s := After(Start<E>(), evs);
    RunKeepsInvariant(Start(), evs);
    if AllHandled(s) {
      forall k: nat | k < |s.fetched| ensures k in s.got && s.got[k] == k {
        HandledMeansOwn(s, k);
      }
    }
    if AllOwn(s) {
      forall k: nat | k < |s.fetched| ensures k in s.got.Values {
        assert s.got[k] == k;
      }
    }
  }

  function Fetches<E>(evs: seq<Event<E>>): nat {
    |Elements(evs)|
  }

  /** In the schedule, every task runs after the fetch of its own element and before
      the next one. */
  ghost predicate EachInTurn<E>(evs: seq<Event<E>>) {
    forall k: nat :: k < Fetches(evs) ==> RunsInTurn(evs, k)
  }

  ghost predicate RunsInTurn<E>(evs: seq<Event<E>>, k: nat) {
    exists p :: 0 <= p < |evs| && evs[p] == Handle(k) && Fetches(evs[..p]) == k + 1
  }

  lemma {:induction false} GotStays<E>(s: State<E>, evs: seq<Event<E>>, k: nat)
    requires IsRun(s, evs) && k in s.got
    ensures k in After(s, evs).got && After(s, evs).got[k] == s.got[k]
    decreases |evs|
  {
    if evs != [] {
      GotStays(Next(s, evs[0]), evs[1..], k);
    }
  }

  /** A task gets the last element fetched before it in the schedule. */
  lemma {:induction false} GotAt<E>(s: State<E>, evs: seq<Event<E>>, p: nat, k: nat)
    requires IsRun(s, evs) && p < |evs| && evs[p] == Handle(k)
    ensures k in After(s, evs).got && After(s, evs).got[k] == |s.fetched| + Fetches(evs[..p]) - 1
    decreases |evs|
  {
    if p == 0 {
      GotStays(Next(s, evs[0]), evs[1..], k);
    } else {
      assert evs[..p][1..] == evs[1..][..p - 1];
      GotAt(Next(s, evs[0]), evs[1..], p - 1, k);
    }
  }

  lemma {:induction false} HandledAt<E>(s: State<E>, evs: seq<Event<E>>, k: nat) returns (p: nat)
    requires IsRun(s, evs) && k !in s.got && k in After(s, evs).got
    ensures p < |evs| && evs[p] == Handle(k)
    decreases |evs|
  {
    if evs[0] == Handle(k) {
      p := 0;
    } else {
      p := HandledAt(Next(s, evs[0]), evs[1..], k);
      p := p + 1;
    }
  }

  /** No fetched element is lost in a run exactly when its schedule takes every task
      in turn. */
  lemma NothingLostIffEachInTurn<E>(evs: seq<Event<E>>)
    requires IsRun(Start(), evs)
    ensures AllHandled(After(Start(), evs)) <==> EachInTurn(evs)
  {
    var s := After(Start<E>(), evs);
    NothingLostIffNoTaskOvertaken(evs);
    FetchedInOrder(Start(), evs);
    forall k: nat | k < Fetches(evs) ensures RunsInTurn(evs, k) <==> k in s.got && s.got[k] == k {
      if k in s.got {
        var p := HandledAt(Start(), evs, k);
        GotAt(Start(), evs, p, k);
      }
      if RunsInTurn(evs, k) {
        var p :| 0 <= p < |evs| && evs[p] == Handle(k) && Fetches(evs[..p]) == k + 1;
        GotAt(Start(), evs, p, k);
      }
    }
  }

  /** Two elements fetched before the first task runs: both tasks handle the
      second element and the first one is lost. */
  lemma OvertakenTask<E>(a: E, b: E)
    ensures var evs := [Fetch(a), Queue, Fetch(b), Queue, Handle(0), Handle(1)];
      && IsRun(Start(), evs) && After(Start(), evs).read == map[0 := Some(b), 1 := Some(b)]
      && After(Start(), evs).got == map[0 := 1, 1 := 1] && !AllHandled(After(Start(), evs))
  {
    var s0: State<E> := Start();
    var s1 := Next(s0, Fetch(a));
    var s2 := Next(s1, Queue);
    var s3 := Next(s2, Fetch(b));
    var s4 := Next(s3, Queue);
    var s5 := Next(s4, Handle(0));
    var s6 := Next(s5, Handle(1));
    var evs: seq<Event<E>> := [Fetch(a), Queue, Fetch(b), Queue, Handle(0), Handle(1)];
    assert s6.got == map[0 := 1, 1 := 1] && s6.read == map[0 := Some(b), 1 := Some(b)];
    assert evs[5..] == [Handle(1)] && evs[6..] == [];
    assert IsRun(s6, evs[6..]) && After(s6, evs[6..]) == s6;
    assert evs[5..][1..] == evs[6..] && IsRun(s5, evs[5..]) && After(s5, evs[5..]) == s6;
    assert evs[4..][1..] == evs[5..] && IsRun(s4, evs[4..]) && After(s4, evs[4..]) == s6;
    assert evs[3..][1..] == evs[4..] && IsRun(s3, evs[3..]) && After(s3, evs[3..]) == s6;
    assert evs[2..][1..] == evs[3..] && IsRun(s2, evs[2..]) && After(s2, evs[2..]) == s6;
    assert evs[1..][1..] == evs[2..] && IsRun(s1, evs[1..]) && After(s1, evs[1..]) == s6;
    assert After(s0, evs) == s6;
    assert 0 !in s6.got.Values;
  }
}
