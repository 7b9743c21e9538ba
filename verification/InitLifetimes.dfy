/**
 What one lifetime of the shared initialisation leaves to the next, which configurations
 launch at all, and that every call is answered: who has called is resumed, once.
 */
module InitLifetimes {
  import opened Wrappers
  import opened InitProtocol

  // --- Dispose ---

  /** A driver that launches its own browser has none after a dispose, and remembers no launch;
      one that was given a browser, or connected to one, keeps it. Either way no context and no
      context init is remembered, and nothing is launched. */
  lemma DisposeStartsAnew(config: Config, s: State)
    requires ReachableUnraced(config, s) && WellFormed(s) && Enabled(s, Dispose)
    ensures var s' := Step(config, s, Dispose);
            && s'.context == None && s'.contextInit == None && s'.received == {} && s'.initsDone == 0
            && (config.injected.None? && !config.cdp ==> s'.browser == None && s'.browserInit == None)
            && (config.injected.Some? || config.cdp ==> s'.browser == s.browser && s'.browserInit == s.browserInit)
            && s'.launches == s.launches && s'.inits == s.inits && s'.waiters == s.waiters && s'.queue == s.queue
  {
    ReachableInv(config, s);
  }

  /** The event in which `caller` calls, from another task or as queued user code. */
  predicate CallsFirst(s: State, e: Event, caller: Caller) {
    if s.queue == [] then e == Call(caller) else e == RunJob([caller])
  }

  /** So the next call launches a browser, and waits for it. */
  lemma NextCallLaunches(config: Config, s: State, e: Event, caller: Caller)
    requires ReachableUnraced(config, s) && WellFormed(s) && Enabled(s, Dispose) && CallsFirst(s, e, caller)
    requires config == Config(None, false, false)
    ensures var disposed := Step(config, s, Dispose);
            && WellFormed(disposed) && Enabled(disposed, e)
            && var s' := Step(config, disposed, e);
               && s'.launches == s.launches + [Launching] && s'.browserInit == Some(|s.launches|)
               && s'.inits == s.inits + [AwaitBrowser(|s.launches|)] && s'.contextInit == Some(|s.inits|)
               && (caller, |s.inits|) in s'.waiters
  {
    DisposeStartsAnew(config, s);
    var disposed := Step(config, s, Dispose);
    var rest := if s.queue == [] then disposed else disposed.(queue := disposed.queue[1..]);
    var s' := DoCall(config, rest, caller);
    assert DoCalls(config, rest, [caller]) == DoCall(config, rest, caller);
    assert s'.waiters[|s'.waiters| - 1] == (caller, |s.inits|);
  }

  /** There is no browser, and none of the launches that someone waits for has succeeded. */
  ghost predicate Browserless(s: State) {
    && s.browser.None?
    && (s.browserInit.Some? ==> Unlaunched(s, s.browserInit.value))
    && (forall p | 0 <= p < |s.inits| ::
          !s.inits[p].Creating? && (s.inits[p].AwaitBrowser? ==> Unlaunched(s, s.inits[p].launch)))
    && (forall i | 0 <= i < |s.queue| ::
          && (s.queue[i].BrowserResume? ==> Unlaunched(s, s.queue[i].launch))
          && (s.queue[i].InitResume? ==> !s.queue[i].ok))
  }

  predicate Unlaunched(s: State, l: LaunchId) {
    l < |s.launches| && !s.launches[l].Launched?
  }

  lemma CallStaysBrowserless(config: Config, s: State, caller: Caller)
    requires s.contextInit.Some? ==> s.contextInit.value < |s.inits|
    requires !Persistent(config) && Browserless(s)
    ensures Browserless(DoCall(config, s, caller))
  {
  }

  lemma {:induction false} CallsStayBrowserless(config: Config, s: State, callers: seq<Caller>)
    requires s.contextInit.Some? ==> s.contextInit.value < |s.inits|
    requires !Persistent(config) && Browserless(s)
    ensures Browserless(DoCalls(config, s, callers))
    decreases |callers|
  {
    if callers != [] {
      CallStaysBrowserless(config, s, callers[0]);
      CallsStayBrowserless(config, DoCall(config, s, callers[0]), callers[1..]);
    }
  }

  lemma SettleStaysBrowserless(s: State, p: InitId)
    requires Browserless(s) && p < |s.inits|
    ensures Browserless(Settle(s, p, Failed))
  {
    var s' := Settle(s, p, Failed);
    forall i | 0 <= i < |s'.queue|
      ensures s'.queue[i].BrowserResume? ==> Unlaunched(s', s'.queue[i].launch)
      ensures s'.queue[i].InitResume? ==> !s'.queue[i].ok
    {
      if i >= |s.queue| {
        assert s'.queue[i] in ResumeJobs(s.waiters, p);
      }
    }
  }

  lemma LaunchStaysBrowserless(s: State, l: LaunchId)
    requires Browserless(s) && l < |s.launches|
    ensures Browserless(DoLaunchSettles(s, l, None))
  {
    var s' := DoLaunchSettles(s, l, None);
    forall i | 0 <= i < |s'.queue|
      ensures s'.queue[i].BrowserResume? ==> Unlaunched(s', s'.queue[i].launch)
      ensures s'.queue[i].InitResume? ==> !s'.queue[i].ok
    {
      if i >= |s.queue| {
        assert s'.queue[i] in BrowserJobs(s.inits, l);
      }
    }
  }

  lemma JobStaysBrowserless(config: Config, s: State, calls: seq<Caller>)
    requires WellFormed(s) && s.queue != [] && !Persistent(config) && Browserless(s)
    ensures Browserless(Step(config, s, RunJob(calls)))
  {
    var rest := s.(queue := s.queue[1..]);
    assert Browserless(rest);
    match s.queue[0] {
      case BrowserResume(p, l) =>
      case InitResume(p, ok) => SettleStaysBrowserless(rest, p);
      case CallerResume(c, p) =>
      case CallerCode(_) => CallsStayBrowserless(config, rest, calls);
    }
  }

  /** Until a launch succeeds no context is created, whatever is called, fails or races. */
  lemma {:induction false} NoCreationBeforeLaunch(config: Config, s: State, events: seq<Event>, s': State)
    requires !Persistent(config) && Browserless(s) && Reaches(config, s, events, s')
    requires forall e | e in events :: !(e.LaunchSettles? && e.launched.Some?)
    ensures Browserless(s')
    decreases |events|
  {
    if events != [] {
      var e := events[0];
      assert e in events;
      match e {
        case Call(c) => CallStaysBrowserless(config, s, c);
        case LaunchSettles(l, _) => LaunchStaysBrowserless(s, l);
        case CreationSettles(p, _) =>
        case RunJob(calls) => JobStaysBrowserless(config, s, calls);
        case Queue(_) =>
        case Dispose =>
      }
      NoCreationBeforeLaunch(config, Step(config, s, e), events[1..], s');
    }
  }

  /** Which is how a driver starts, and starts again. */
  lemma DisposedIsBrowserless(config: Config, s: State)
    requires ReachableUnraced(config, s) && WellFormed(s) && Enabled(s, Dispose) && config == Config(None, false, false)
    ensures Browserless(Start(config)) && Browserless(Step(config, s, Dispose))
  {
    DisposeStartsAnew(config, s);
  }

  // --- Who launches ---

  /** No launch has been started, and nobody waits for one. */
  ghost predicate NeverLaunched(config: Config, s: State) {
    && s.launches == [] && s.browserInit == None && s.browser == config.injected
    && (forall p | 0 <= p < |s.inits| :: !s.inits[p].AwaitBrowser?)
    && (forall i | 0 <= i < |s.queue| :: !s.queue[i].BrowserResume?)
  }

  lemma {:induction false} CallsNeverLaunch(config: Config, s: State, callers: seq<Caller>)
    requires s.contextInit.Some? ==> s.contextInit.value < |s.inits|
    requires (Persistent(config) || config.injected.Some?) && NeverLaunched(config, s)
    ensures NeverLaunched(config, DoCalls(config, s, callers))
    decreases |callers|
  {
    if callers != [] {
      assert NeverLaunched(config, DoCall(config, s, callers[0]));
      CallsNeverLaunch(config, DoCall(config, s, callers[0]), callers[1..]);
    }
  }

  lemma SettleNeverLaunches(config: Config, s: State, p: InitId, outcome: Init)
    requires NeverLaunched(config, s) && p < |s.inits| && (outcome.Done? || outcome.Failed?)
    ensures NeverLaunched(config, Settle(s, p, outcome))
  {
    var s' := Settle(s, p, outcome);
    forall i | 0 <= i < |s'.queue|
      ensures !s'.queue[i].BrowserResume?
    {
      if i >= |s.queue| {
        assert s'.queue[i] in ResumeJobs(s.waiters, p);
      }
    }
  }

  lemma JobNeverLaunches(config: Config, s: State, calls: seq<Caller>)
    requires (Persistent(config) || config.injected.Some?) && NeverLaunched(config, s) && WellFormed(s) && s.queue != []
    ensures NeverLaunched(config, Step(config, s, RunJob(calls)))
  {
    var rest := s.(queue := s.queue[1..]);
    match s.queue[0] {
      case InitResume(p, ok) =>
        if !ok {
          SettleNeverLaunches(config, rest, p, Failed);
        }
      case CallerCode(_) => CallsNeverLaunch(config, rest, calls);
      case _ =>
    }
  }

  /** A driver that is given a browser, or keeps its data in a directory of its own, never
      launches one, in any run, and goes on with what it was given. */
  lemma {:induction false} GivenBrowserIsEnough(config: Config, s: State, events: seq<Event>, s': State)
    requires Persistent(config) || config.injected.Some?
    requires NeverLaunched(config, s) && Reaches(config, s, events, s')
    ensures NeverLaunched(config, s')
    decreases |events|
  {
    if events != [] {
      var e := events[0];
      match e {
        case Call(c) =>
          CallsNeverLaunch(config, s, [c]);
          assert DoCalls(config, s, [c]) == DoCall(config, s, c);
        case LaunchSettles(_, _) =>
        case CreationSettles(p, created) =>
          SettleNeverLaunches(config, s, p, if created.Some? then Done(created.value) else Failed);
        case RunJob(calls) => JobNeverLaunches(config, s, calls);
        case Queue(_) =>
        case Dispose =>
      }
      GivenBrowserIsEnough(config, Step(config, s, e), events[1..], s');
    }
  }

  // --- Every call is answered once ---

  /** 1 when the job resumes the code of `c`, now or when it has been told. */
  function Resumes(job: Job, c: Caller): nat {
    if (job.CallerResume? || job.CallerCode?) && job.caller == c then 1 else 0
  }

  function Queued(queue: seq<Job>, c: Caller): nat {
    if queue == [] then 0 else Resumes(queue[0], c) + Queued(queue[1..], c)
  }

  function Waiting(waiters: seq<(Caller, InitId)>, c: Caller): nat {
    if waiters == [] then 0 else (if waiters[0].0 == c then 1 else 0) + Waiting(waiters[1..], c)
  }

  /** How often `c` has called, or was queued, and has not run since. */
  function Owed(s: State, c: Caller): nat {
    Waiting(s.waiters, c) + Queued(s.queue, c)
  }

  lemma {:induction false} QueuedConcat(a: seq<Job>, b: seq<Job>, c: Caller)
    ensures Queued(a + b, c) == Queued(a, c) + Queued(b, c)
  {
    if a == [] {
      assert a + b == b;
    } else {
      assert (a + b)[0] == a[0] && (a + b)[1..] == a[1..] + b;
      QueuedConcat(a[1..], b, c);
    }
  }

  lemma QueuedOne(queue: seq<Job>, job: Job, c: Caller)
    ensures Queued(queue + [job], c) == Queued(queue, c) + Resumes(job, c)
  {
    QueuedConcat(queue, [job], c);
    assert [job][1..] == [];
  }

  lemma {:induction false} WaitingOne(waiters: seq<(Caller, InitId)>, w: (Caller, InitId), c: Caller)
    ensures Waiting(waiters + [w], c) == Waiting(waiters, c) + if w.0 == c then 1 else 0
  {
    if waiters == [] {
      assert waiters + [w] == [w] && [w][1..] == [];
    } else {
      assert (waiters + [w])[0] == waiters[0] && (waiters + [w])[1..] == waiters[1..] + [w];
      WaitingOne(waiters[1..], w, c);
    }
  }

  /** Whoever waits for the init gets a job, the others go on waiting. */
  lemma {:induction false} WaitersSplit(waiters: seq<(Caller, InitId)>, p: InitId, c: Caller)
    ensures Waiting(waiters, c) == Waiting(Others(waiters, p), c) + Queued(ResumeJobs(waiters, p), c)
  {
    if waiters != [] {
      WaitersSplit(waiters[1..], p, c);
      var job, rest := CallerResume(waiters[0].0, p), ResumeJobs(waiters[1..], p);
      assert ([job] + rest)[1..] == rest;
      var others := Others(waiters[1..], p);
      assert ([waiters[0]] + others)[1..] == others;
      assert [] + others == others && [] + rest == rest;
    }
  }

  lemma {:induction false} BrowserJobsResumeNobody(inits: seq<Init>, l: LaunchId, c: Caller)
    ensures Queued(BrowserJobs(inits, l), c) == 0
  {
    if inits != [] {
      var p := |inits| - 1;
      BrowserJobsResumeNobody(inits[..p], l, c);
      QueuedOne(BrowserJobs(inits[..p], l), BrowserResume(p, l), c);
      assert BrowserJobs(inits[..p], l) + [] == BrowserJobs(inits[..p], l);
    }
  }

  lemma SettleKeepsOwed(s: State, p: InitId, outcome: Init, c: Caller)
    requires p < |s.inits| && (outcome.Done? || outcome.Failed?)
    ensures Owed(Settle(s, p, outcome), c) == Owed(s, c)
  {
    WaitersSplit(s.waiters, p, c);
    QueuedConcat(s.queue, ResumeJobs(s.waiters, p), c);
  }

  lemma AwaitOwes(s: State, caller: Caller, p: InitId, c: Caller)
    requires p < |s.inits|
    ensures Owed(Await(s, caller, p), c) == Owed(s, c) + if caller == c then 1 else 0
  {
    QueuedOne(s.queue, CallerResume(caller, p), c);
    WaitingOne(s.waiters, (caller, p), c);
  }

  lemma BeginOwesNothing(config: Config, s: State, c: Caller)
    ensures Owed(BeginInit(config, s), c) == Owed(s, c)
  {
    QueuedOne(s.queue, InitResume(|s.inits|, true), c);
    if s.browserInit.Some? {
      QueuedOne(s.queue, BrowserResume(|s.inits|, s.browserInit.value), c);
    }
  }

  lemma CallOwes(config: Config, s: State, caller: Caller, c: Caller)
    requires s.contextInit.Some? ==> s.contextInit.value < |s.inits|
    ensures Owed(DoCall(config, s, caller), c) == Owed(s, c) + if caller == c then 1 else 0
  {
    if s.context.Some? {
      QueuedOne(s.queue, CallerCode(caller), c);
    } else if s.contextInit.Some? {
      AwaitOwes(s, caller, s.contextInit.value, c);
    } else {
      BeginOwesNothing(config, s, c);
      AwaitOwes(BeginInit(config, s), caller, |s.inits|, c);
    }
  }

  function Times(callers: seq<Caller>, c: Caller): nat {
    if callers == [] then 0 else (if callers[0] == c then 1 else 0) + Times(callers[1..], c)
  }

  lemma {:induction false} CallsOwe(config: Config, s: State, callers: seq<Caller>, c: Caller)
    requires s.contextInit.Some? ==> s.contextInit.value < |s.inits|
    ensures Owed(DoCalls(config, s, callers), c) == Owed(s, c) + Times(callers, c)
    decreases |callers|
  {
    if callers != [] {
      CallOwes(config, s, callers[0], c);
      CallsOwe(config, DoCall(config, s, callers[0]), callers[1..], c);
    }
  }

  /** How often `c` calls, or is queued, in the step. */
  function Comes(s: State, e: Event, c: Caller): nat {
    match e
    case Call(caller) => if caller == c then 1 else 0
    case Queue(caller) => if caller == c then 1 else 0
    case RunJob(calls) => if s.queue != [] && s.queue[0].CallerCode? then Times(calls, c) else 0
    case _ => 0
  }

  /** 1 when the own code of `c` runs in the step. */
  function Runs(s: State, e: Event, c: Caller): nat {
    if e.RunJob? && s.queue != [] && s.queue[0] == CallerCode(c) then 1 else 0
  }

  lemma JobKeepsOwed(config: Config, s: State, calls: seq<Caller>, c: Caller)
    requires WellFormed(s) && s.queue != []
    ensures var e := RunJob(calls); Owed(Step(config, s, e), c) + Runs(s, e, c) == Owed(s, c) + Comes(s, e, c)
  {
    var rest := s.(queue := s.queue[1..]);
    assert Owed(s, c) == Owed(rest, c) + Resumes(s.queue[0], c);
    match s.queue[0] {
      case BrowserResume(p, l) =>
        QueuedOne(rest.queue, InitResume(p, true), c);
        QueuedOne(rest.queue, InitResume(p, false), c);
      case InitResume(p, ok) =>
        if !ok {
          SettleKeepsOwed(rest, p, Failed, c);
        }
      case CallerResume(caller, p) => QueuedOne(rest.queue, CallerCode(caller), c);
      case CallerCode(_) => CallsOwe(config, rest, calls, c);
    }
  }

  /** In every step, races and disposes included, what `c` is owed grows by its calls and
      shrinks exactly when its code runs. */
  lemma StepKeepsOwed(config: Config, s: State, e: Event, c: Caller)
    requires WellFormed(s) && Enabled(s, e)
    ensures Owed(Step(config, s, e), c) + Runs(s, e, c) == Owed(s, c) + Comes(s, e, c)
  {
    match e {
      case Call(caller) => CallOwes(config, s, caller, c);
      case LaunchSettles(l, _) =>
        BrowserJobsResumeNobody(s.inits, l, c);
        QueuedConcat(s.queue, BrowserJobs(s.inits, l), c);
      case CreationSettles(p, created) =>
        SettleKeepsOwed(s, p, if created.Some? then Done(created.value) else Failed, c);
      case RunJob(calls) => JobKeepsOwed(config, s, calls, c);
      case Queue(caller) => QueuedOne(s.queue, CallerCode(caller), c);
      case Dispose =>
    }
  }

  /** How often `c` comes, and how often its code runs, during a run. */
  ghost function Tally(config: Config, s: State, events: seq<Event>, c: Caller): (nat, nat)
    decreases |events|
  {
    if events == [] || !WellFormed(s) || !Enabled(s, events[0]) then (0, 0)
    else
      var (came, ran) := Tally(config, Step(config, s, events[0]), events[1..], c);
      (Comes(s, events[0], c) + came, Runs(s, events[0], c) + ran)
  }

  /** No call is lost and none is answered twice: in every run, as often as `c` has come it has
      run since, is queued to run, or still waits for an init. */
  lemma {:induction false} NobodyIsLost(config: Config, s: State, events: seq<Event>, s': State, c: Caller)
    requires Reaches(config, s, events, s')
    ensures var (came, ran) := Tally(config, s, events, c); Owed(s', c) + ran == Owed(s, c) + came
    decreases |events|
  {
    if events != [] {
      StepKeepsOwed(config, s, events[0], c);
      NobodyIsLost(config, Step(config, s, events[0]), events[1..], s', c);
    }
  }

  /** A waiter that is told of a context has received it, and it is the one the driver keeps;
      one that is told of a failure receives nothing, and the driver forgets the init. */
  lemma ResumedCallerIsTold(config: Config, s: State, calls: seq<Caller>, p: InitId)
    requires ReachableUnraced(config, s) && WellFormed(s)
    requires s.queue != [] && s.queue[0].CallerResume? && s.queue[0].init == p
    ensures p < |s.inits| && (s.inits[p].Done? || s.inits[p].Failed?)
    ensures var s' := Step(config, s, RunJob(calls));
            && s'.queue == s.queue[1..] + [CallerCode(s.queue[0].caller)]
            && (s.inits[p].Done? ==>
                  && s'.context == Some(s.inits[p].context) && s'.received == {s.inits[p].context}
                  && s'.contextInit == Some(p))
            && (s.inits[p].Failed? ==> s'.context == None && s'.received == {} && s'.contextInit == None)
  {
    ReachableInv(config, s);
    assert JobFits(config, s, s.queue[0]);
  }
}
