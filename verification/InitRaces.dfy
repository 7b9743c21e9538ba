/**
 What a race does to the shared initialisation: the driver forgets an init in progress, and
 the next caller starts a second one beside it. So the condition under which `InitProtocol`
 proves sharing safe is the exact one.
 */
module InitRaces {
  import opened Wrappers
  import opened InitProtocol

  // --- A race breaks the sharing ---

  /** An init is in progress that the driver no longer remembers. */
  ghost predicate Forgotten(s: State, k: InitId) {
    k < |s.inits| && Pending(s.inits[k]) && s.contextInit.None? && s.context.None?
  }

  /** The next caller then starts a second one beside it. */
  lemma ForgottenIsDoubled(config: Config, s: State, k: InitId, caller: Caller)
    requires Forgotten(s, k)
    ensures var s' := DoCall(config, s, caller);
            k < |s.inits| < |s'.inits| && Pending(s'.inits[k]) && Pending(s'.inits[|s.inits|])
  {
  }

  lemma {:induction false} CallsJoin(config: Config, s: State, callers: seq<Caller>)
    requires s.context.None? && s.contextInit.Some?
    requires s.contextInit.value < |s.inits| && Pending(s.inits[s.contextInit.value])
    ensures DoCalls(config, s, callers) == s.(waiters := DoCalls(config, s, callers).waiters)
    decreases |callers|
  {
    if callers != [] {
      CallsJoin(config, DoCall(config, s, callers[0]), callers[1..]);
    }
  }

  /** User jobs that call nobody run until the next waiter is told of the failure. */
  lemma {:induction false} Drain(config: Config, s: State, k: InitId, j: nat) returns (events: seq<Event>, s': State)
    requires WellFormed(s) && k < |s.inits| && Pending(s.inits[k]) && s.context.None?
    requires j < |s.queue| && forall i | 0 <= i < j :: s.queue[i].CallerCode?
    requires s.queue[j].CallerResume? && s.inits[s.queue[j].init].Failed?
    ensures Reaches(config, s, events, s') && Forgotten(s', k)
    decreases j
  {
    var s1 := Step(config, s, RunJob([]));
    if j == 0 {
      events, s' := [RunJob([])], s1;
      assert events[1..] == [];
    } else {
      assert s1 == s.(queue := s.queue[1..]);
      assert forall i | 0 <= i < |s1.queue| :: s1.queue[i] == s.queue[i + 1];
      var rest;
      rest, s' := Drain(config, s1, k, j - 1);
      events := [RunJob([])] + rest;
      assert events[1..] == rest;
    }
  }

  /** The first waiter still to be told; only user code stands before it. */
  lemma {:induction false} FirstUntold(config: Config, s: State, n: nat) returns (j: nat)
    requires Inv(config, s) && s.contextInit.None? && n < |s.queue| && s.queue[n].CallerResume?
    ensures j <= n && s.queue[j].CallerResume? && forall i | 0 <= i < j :: s.queue[i].CallerCode?
    decreases n
  {
    if i :| 0 <= i < n && s.queue[i].CallerResume? {
      j := FirstUntold(config, s, i);
    } else {
      j := n;
      forall i | 0 <= i < n
        ensures s.queue[i].CallerCode?
      {
        assert JobFits(config, s, s.queue[i]);
      }
    }
  }

  lemma RacedIsWellFormed(config: Config, s: State, caller: Caller, s': State)
    requires Inv(config, s) && s.contextInit.None?
    requires var begun := DoCall(config, s, caller); s' == begun.(waiters := s'.waiters)
    ensures WellFormed(s')
  {
    InvIsWellFormed(config, s);
    assert forall i | 0 <= i < |s.queue| :: s'.queue[i] == s.queue[i];
  }

  /** Where calls on the reset driver lead: a new init, with the queue as it was in front. */
  lemma CallsBegin(config: Config, s: State, calls: seq<Caller>)
    requires Inv(config, s) && s.contextInit.None? && calls != []
    ensures var s' := DoCalls(config, s, calls);
            && WellFormed(s') && s'.context.None? && |s'.inits| == |s.inits| + 1 && Pending(s'.inits[|s.inits|])
            && s.queue <= s'.queue && s'.inits[..|s.inits|] == s.inits
  {
    var begun := DoCall(config, s, calls[0]);
    CallsJoin(config, begun, calls[1..]);
    RacedIsWellFormed(config, s, calls[0], DoCalls(config, s, calls));
  }

  /** After the first race, whoever raced and however often it called, the driver can forget
      the init that was started. */
  lemma RaceForgetsInit(config: Config, s: State, e: Event) returns (events: seq<Event>, s': State)
    requires Inv(config, s) && WellFormed(s) && Enabled(s, e) && Races(s, e)
    ensures Reaches(config, Step(config, s, e), events, s') && Forgotten(s', |s.inits|)
  {
    var rest := s.(queue := s.queue[1..]);
    TakeJob(config, s);
    var j := UntoldBehind(config, s);
    CallsBegin(config, rest, e.calls);
    var raced := DoCalls(config, rest, e.calls);
    assert raced == Step(config, s, e);
    assert forall i | 0 <= i <= j :: raced.queue[i] == rest.queue[i];
    assert raced.inits[rest.queue[j].init] == rest.inits[rest.queue[j].init];
    events, s' := Drain(config, raced, |s.inits|, j);
  }

  lemma UntoldBehind(config: Config, s: State) returns (j: nat)
    requires Inv(config, s) && s.contextInit.None? && s.queue != []
    requires exists n | 0 < n < |s.queue| :: s.queue[n].CallerResume?
    ensures var rest := s.(queue := s.queue[1..]);
            && j < |rest.queue| && (forall i | 0 <= i < j :: rest.queue[i].CallerCode?)
            && rest.queue[j].CallerResume? && rest.queue[j].init < |s.inits| && s.inits[rest.queue[j].init].Failed?
  {
    var rest := s.(queue := s.queue[1..]);
    TakeJob(config, s);
    var n :| 0 < n < |s.queue| && s.queue[n].CallerResume?;
    assert rest.queue[n - 1] == s.queue[n];
    j := FirstUntold(config, rest, n - 1);
    assert JobFits(config, rest, rest.queue[j]);
  }

  /** One run after another. */
  lemma {:induction false} ReachesConcat(config: Config, s: State, first: seq<Event>, t: State, more: seq<Event>,
                                         s': State)
    requires Reaches(config, s, first, t) && Reaches(config, t, more, s')
    ensures Reaches(config, s, first + more, s')
    decreases |first|
  {
    if first == [] {
      assert first + more == more;
    } else {
      ReachesConcat(config, Step(config, s, first[0]), first[1..], t, more, s');
      assert (first + more)[1..] == first[1..] + more;
    }
  }

  /** Where a run that races does so for the first time. */
  lemma {:induction false} FirstRace(config: Config, s: State, events: seq<Event>) returns (n: nat, t: State)
    requires Inv(config, s) && !Unraced(config, s, events)
    ensures n < |events| && Reaches(config, s, events[..n], t)
    ensures Inv(config, t) && WellFormed(t) && Enabled(t, events[n]) && Races(t, events[n])
    decreases |events|
  {
    if Races(s, events[0]) {
      n, t := 0, s;
    } else {
      StepKeepsInv(config, s, events[0]);
      var m;
      m, t := FirstRace(config, Step(config, s, events[0]), events[1..]);
      n := m + 1;
      assert events[..n][1..] == events[1..][..m];
    }
  }

  /** What follows an event, put after the run that leads to it. */
  lemma ReachesThrough(config: Config, s: State, events: seq<Event>, n: nat, t: State, more: seq<Event>, s': State)
    requires n < |events| && Reaches(config, s, events[..n], t) && Reaches(config, t, [events[n]] + more, s')
    ensures Reaches(config, s, events[..n + 1] + more, s')
  {
    ReachesConcat(config, s, events[..n], t, [events[n]] + more, s');
    assert events[..n] + ([events[n]] + more) == events[..n + 1] + more;
  }

  lemma FirstRaceForgetsInit(config: Config, s: State, events: seq<Event>)
    returns (n: nat, more: seq<Event>, s': State, k: InitId)
    requires Inv(config, s) && !Unraced(config, s, events)
    ensures n <= |events| && Reaches(config, s, events[..n] + more, s') && Forgotten(s', k)
  {
    var m, t := FirstRace(config, s, events);
    more, s' := RaceForgetsInit(config, t, events[m]);
    n, k := m + 1, |t.inits|;
    Then(config, t, events[m], more, s');
    ReachesThrough(config, s, events, m, t, more, s');
  }

  /** Every run of a new driver that races anywhere has, from its first race on, a
      continuation in which the driver forgets an init in progress: the condition of
      `SharedInitIsSafe` cannot be weakened. */
  lemma RacedRunForgetsInit(config: Config, events: seq<Event>)
    returns (n: nat, more: seq<Event>, s': State, k: InitId)
    requires !Unraced(config, Start(config), events)
    ensures n <= |events| && Reaches(config, Start(config), events[..n] + more, s') && Forgotten(s', k)
  {
    n, more, s', k := FirstRaceForgetsInit(config, Start(config), events);
  }

  // --- A racing run ---

  const FRESH := Config(None, false, false)

  /** One step of a run. */
  lemma Then(config: Config, s: State, e: Event, rest: seq<Event>, s': State)
    requires WellFormed(s) && Enabled(s, e) && Reaches(config, Step(config, s, e), rest, s')
    ensures Reaches(config, s, [e] + rest, s')
  {
    assert ([e] + rest)[0] == e && ([e] + rest)[1..] == rest;
  }

  /** Where the run stands when the launch has failed and the init is about to learn it, with
      a user job behind. */
  function Rejected(): State {
    State(None, None, None, Some(0), [LaunchFailed], [BrowserKnown], [(1, 0)],
          [InitResume(0, false), CallerCode(2)], {}, 0, 0)
  }

  function Awaiting(): State {
    State(None, Some(0), None, Some(0), [Launching], [AwaitBrowser(0)], [(1, 0)], [], {}, 0, 0)
  }

  lemma Begins()
    ensures WellFormed(Start(FRESH)) && Step(FRESH, Start(FRESH), Call(1)) == Awaiting()
  {
  }

  lemma LaunchFails()
    ensures WellFormed(Awaiting())
    ensures Step(FRESH, Awaiting(), LaunchSettles(0, None)) ==
            Awaiting().(launches := [LaunchFailed], queue := [BrowserResume(0, 0)])
  {
    BrowserJobsIs([AwaitBrowser(0)], 0, 0);
  }

  lemma RejectedIsReached(s: State, rest: seq<Event>)
    requires Reaches(FRESH, Rejected(), rest, s)
    ensures Reaches(FRESH, Start(FRESH),
                    [Call(1)] + ([LaunchSettles(0, None)] + ([RunJob([])] + ([Queue(2)] + rest))), s)
  {
    var s2 := Awaiting().(launches := [LaunchFailed], queue := [BrowserResume(0, 0)]);
    var s3 := s2.(browserInit := None, inits := [BrowserKnown], queue := [InitResume(0, false)]);
    assert Step(FRESH, s3, Queue(2)) == Rejected();
    Then(FRESH, s3, Queue(2), rest, s);
    assert Step(FRESH, s2, RunJob([])) == s3;
    Then(FRESH, s2, RunJob([]), [Queue(2)] + rest, s);
    LaunchFails();
    Then(FRESH, Awaiting(), LaunchSettles(0, None), [RunJob([])] + ([Queue(2)] + rest), s);
    Begins();
    Then(FRESH, Start(FRESH), Call(1), [LaunchSettles(0, None)] + ([RunJob([])] + ([Queue(2)] + rest)), s);
  }

  /** The user job queues another one and calls; it joins the failed init behind it. */
  function Raced(): State {
    State(None, None, None, None, [LaunchFailed], [Failed], [],
          [CallerCode(3), CallerResume(4, 0), CallerCode(1)], {}, 0, 0)
  }

  /** The failed init tells its waiter behind the user job. */
  function Failing(): State {
    Rejected().(inits := [Failed], waiters := [], queue := [CallerCode(2), CallerResume(1, 0)])
  }

  lemma Rejects()
    ensures WellFormed(Rejected()) && Step(FRESH, Rejected(), RunJob([])) == Failing()
  {
    assert Others([(1, 0)], 0) == [] && ResumeJobs([(1, 0)], 0) == [CallerResume(1, 0)];
  }

  lemma JoinsFailed(s: State)
    requires s == Failing().(queue := [CallerCode(2), CallerResume(1, 0), CallerCode(3)])
    ensures Step(FRESH, s, RunJob([4])) == s.(queue := [CallerResume(1, 0), CallerCode(3), CallerResume(4, 0)])
  {
    var rest := s.(queue := s.queue[1..]);
    assert DoCalls(FRESH, rest, [4]) == DoCall(FRESH, rest, 4);
  }

  lemma RacedIsNear(s: State, rest: seq<Event>)
    requires Reaches(FRESH, Raced(), rest, s)
    ensures Reaches(FRESH, Failing(), [Queue(3)] + ([RunJob([4])] + ([RunJob([])] + rest)), s)
  {
    var s2 := Failing().(queue := [CallerCode(2), CallerResume(1, 0), CallerCode(3)]);
    var s3 := Failing().(queue := [CallerResume(1, 0), CallerCode(3), CallerResume(4, 0)]);
    assert Step(FRESH, s3, RunJob([])) == Raced();
    Then(FRESH, s3, RunJob([]), rest, s);
    JoinsFailed(s2);
    Then(FRESH, s2, RunJob([4]), [RunJob([])] + rest, s);
    assert Step(FRESH, Failing(), Queue(3)) == s2;
    Then(FRESH, Failing(), Queue(3), [RunJob([4])] + ([RunJob([])] + rest), s);
  }

  lemma RacedIsReached(s: State, rest: seq<Event>)
    requires Reaches(FRESH, Raced(), rest, s)
    ensures Reaches(FRESH, Rejected(), [RunJob([])] + ([Queue(3)] + ([RunJob([4])] + ([RunJob([])] + rest))), s)
  {
    RacedIsNear(s, rest);
    Rejects();
    Then(FRESH, Rejected(), RunJob([]), [Queue(3)] + ([RunJob([4])] + ([RunJob([])] + rest)), s);
  }

  /** The init that the race starts, before and after the driver forgets it, and the second. */
  function Started(): State {
    State(None, Some(1), None, Some(1), [LaunchFailed, Launching], [Failed, AwaitBrowser(1)], [(5, 1)],
          [CallerResume(4, 0), CallerCode(1)], {}, 0, 0)
  }

  function Dropped(): State {
    Started().(contextInit := None, queue := [CallerCode(1), CallerCode(4)])
  }

  function Doubled(): State {
    Started().(contextInit := Some(2), inits := [Failed, AwaitBrowser(1), AwaitBrowser(1)],
               waiters := [(5, 1), (6, 2)], queue := [CallerCode(4)])
  }

  lemma Restarts()
    ensures WellFormed(Raced()) && Races(Raced(), RunJob([5]))
    ensures Step(FRESH, Raced(), RunJob([5])) == Started()
  {
    var rest := Raced().(queue := [CallerResume(4, 0), CallerCode(1)]);
    assert Raced().queue[1].CallerResume?;
    assert DoCalls(FRESH, rest, [5]) == DoCall(FRESH, rest, 5);
  }

  lemma Doubles()
    ensures WellFormed(Dropped()) && Step(FRESH, Dropped(), RunJob([6])) == Doubled()
  {
    var rest := Dropped().(queue := [CallerCode(4)]);
    assert DoCalls(FRESH, rest, [6]) == DoCall(FRESH, rest, 6);
  }

  /** A run from a new driver that ends with two context inits in flight. */
  lemma RacingRunStartsTwoInits() returns (events: seq<Event>, s: State)
    ensures Reaches(FRESH, Start(FRESH), events, s)
    ensures |s.inits| == 3 && Pending(s.inits[1]) && Pending(s.inits[2])
  {
    s := Doubled();
    Doubles();
    Then(FRESH, Dropped(), RunJob([6]), [], s);
    assert Step(FRESH, Started(), RunJob([])) == Dropped();
    Then(FRESH, Started(), RunJob([]), [RunJob([6])] + [], s);
    Restarts();
    events := [RunJob([5])] + ([RunJob([])] + ([RunJob([6])] + []));
    Then(FRESH, Raced(), RunJob([5]), [RunJob([])] + ([RunJob([6])] + []), s);
    RacedIsReached(s, events);
    events := [RunJob([])] + ([Queue(3)] + ([RunJob([4])] + ([RunJob([])] + events)));
    RejectedIsReached(s, events);
    events := [Call(1)] + ([LaunchSettles(0, None)] + ([RunJob([])] + ([Queue(2)] + events)));
  }
}
