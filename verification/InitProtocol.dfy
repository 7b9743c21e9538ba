/**
 How concurrent callers of the driver share one browser and one context: the promise
 caches `browserInitPromise` and `contextInitPromise` of playwright-browser-driver.ts.

 Callers interleave through the job queue of section 9.5 of ECMA-262: a settled promise
 appends one job per waiter and jobs run first in first out. A launch or a context creation
 may settle at any time, also behind jobs that the same task has queued already. Code that
 runs as a job may call again at once, any number of times, and a job of unrelated user code
 may be queued at any time; a caller from another task finds the queue empty.

 Each waiter of a failed init resets the cache when it is told. A user job that calls
 between two of them starts a new init, which the second then makes the driver forget.
 Without such a race the sharing is safe; with it, it is not.
 */
module InitProtocol {
  import opened Wrappers

  type Browser = nat
  type Context = nat
  type Caller = nat
  type LaunchId = nat
  type InitId = nat

  datatype Config = Config(injected: Option<Browser>, cdp: bool, userDataDir: bool)

  /** `userDataDir` bypasses the browser unless one is given or connected to. */
  predicate Persistent(config: Config) {
    config.userDataDir && config.injected.None? && !config.cdp
  }

  predicate OwnsLifecycle(config: Config) {
    config.injected.None? && !config.cdp
  }

  datatype Launch = Launching | Launched(browser: Browser) | LaunchFailed

  /** A context init: waiting for the browser, about to use it, creating and preparing the
      context on it, or settled. */
  datatype Init =
    | AwaitBrowser(launch: LaunchId)
    | BrowserKnown
    | Creating(on: Option<Browser>)
    | Done(context: Context)
    | Failed

  predicate Pending(init: Init) {
    init.AwaitBrowser? || init.BrowserKnown? || init.Creating?
  }

  /** Jobs: `ensureBrowser` resumes inside an init, the init resumes with its outcome, a
      caller of `ensureContext` resumes, and the caller's own code resumes. */
  datatype Job =
    | BrowserResume(init: InitId, launch: LaunchId)
    | InitResume(init: InitId, ok: bool)
    | CallerResume(caller: Caller, init: InitId)
    | CallerCode(caller: Caller)

  /** The first four fields are the driver's variables. `received` are the contexts handed
      to callers and the two counts the successes, since the last reset. */
  datatype State = State(
    browser: Option<Browser>,
    browserInit: Option<LaunchId>,
    context: Option<Context>,
    contextInit: Option<InitId>,
    launches: seq<Launch>,
    inits: seq<Init>,
    waiters: seq<(Caller, InitId)>,
    queue: seq<Job>,
    received: set<Context>,
    launchesDone: nat,
    initsDone: nat)

  datatype Event =
    | Call(caller: Caller)
    | LaunchSettles(launch: LaunchId, launched: Option<Browser>)
    | CreationSettles(init: InitId, created: Option<Context>)
    | RunJob(calls: seq<Caller>)
    | Queue(caller: Caller)
    | Dispose

  function Start(config: Config): State {
    State(config.injected, None, None, None, [], [], [], [], {}, 0, 0)
  }

  // --- ensureBrowser and ensureContext up to their first await ---

  /** `ensureBrowser`, called by init `p`. */
  function BeginBrowser(s: State, p: InitId): State
    requires p == |s.inits|
  {
    if s.browser.Some? then
      s.(inits := s.inits + [BrowserKnown], queue := s.queue + [InitResume(p, true)])
    else if s.browserInit.None? then
      s.(inits := s.inits + [AwaitBrowser(|s.launches|)], browserInit := Some(|s.launches|),
         launches := s.launches + [Launching])
    else
      var l := s.browserInit.value;
      var joined := s.(inits := s.inits + [AwaitBrowser(l)]);
      if l < |s.launches| && !s.launches[l].Launching? then joined.(queue := s.queue + [BrowserResume(p, l)])
      else joined
  }

  function BeginInit(config: Config, s: State): State {
    var p := |s.inits|;
    var begun := if Persistent(config) then s.(inits := s.inits + [Creating(None)]) else BeginBrowser(s, p);
    begun.(contextInit := Some(p))
  }

  /** A caller awaits the promise of init `p`. */
  function Await(s: State, caller: Caller, p: InitId): State
    requires p < |s.inits|
  {
    if Pending(s.inits[p]) then s.(waiters := s.waiters + [(caller, p)])
    else s.(queue := s.queue + [CallerResume(caller, p)])
  }

  function DoCall(config: Config, s: State, caller: Caller): State
    requires s.contextInit.Some? ==> s.contextInit.value < |s.inits|
  {
    if s.context.Some? then s.(received := s.received + {s.context.value}, queue := s.queue + [CallerCode(caller)])
    else if s.contextInit.Some? then Await(s, caller, s.contextInit.value)
    else
      var begun := BeginInit(config, s);
      Await(begun, caller, |s.inits|)
  }

  function DoCalls(config: Config, s: State, callers: seq<Caller>): (s': State)
    requires s.contextInit.Some? ==> s.contextInit.value < |s.inits|
    ensures s'.contextInit.Some? ==> s'.contextInit.value < |s'.inits|
    decreases |callers|
  {
    if callers == [] then s else DoCalls(config, DoCall(config, s, callers[0]), callers[1..])
  }

  // --- Settling ---

  function ResumeJobs(waiters: seq<(Caller, InitId)>, p: InitId): (jobs: seq<Job>)
    ensures forall j | j in jobs :: j.CallerResume? && j.init == p
  {
    if waiters == [] then []
    else (if waiters[0].1 == p then [CallerResume(waiters[0].0, p)] else []) + ResumeJobs(waiters[1..], p)
  }

  function Others(waiters: seq<(Caller, InitId)>, p: InitId): (r: seq<(Caller, InitId)>)
    ensures forall w | w in r :: w in waiters && w.1 != p
  {
    if waiters == [] then []
    else (if waiters[0].1 == p then [] else [waiters[0]]) + Others(waiters[1..], p)
  }

  /** Init `p` settles: every caller waiting for it gets a job, in order. */
  function Settle(s: State, p: InitId, outcome: Init): State
    requires p < |s.inits| && (outcome.Done? || outcome.Failed?)
  {
    s.(inits := s.inits[p := outcome], queue := s.queue + ResumeJobs(s.waiters, p), waiters := Others(s.waiters, p),
       initsDone := s.initsDone + if outcome.Done? then 1 else 0)
  }

  /** A job for every init that waits for launch `l`. */
  function BrowserJobs(inits: seq<Init>, l: LaunchId): (jobs: seq<Job>)
    ensures forall j | j in jobs ::
              j.BrowserResume? && j.launch == l && j.init < |inits| && inits[j.init] == AwaitBrowser(l)
  {
    if inits == [] then []
    else
      var p := |inits| - 1;
      BrowserJobs(inits[..p], l) + if inits[p] == AwaitBrowser(l) then [BrowserResume(p, l)] else []
  }

  function DoLaunchSettles(s: State, l: LaunchId, launched: Option<Browser>): State
    requires l < |s.launches|
  {
    s.(launches := s.launches[l := if launched.Some? then Launched(launched.value) else LaunchFailed],
       launchesDone := s.launchesDone + (if launched.Some? then 1 else 0),
       queue := s.queue + BrowserJobs(s.inits, l))
  }

  // --- Jobs ---

  function DoJob(config: Config, s: State, job: Job, calls: seq<Caller>): State
    requires s.contextInit.Some? ==> s.contextInit.value < |s.inits|
    requires !job.CallerCode? ==> job.init < |s.inits|
    requires job.BrowserResume? ==> job.launch < |s.launches|
  {
    match job
    case BrowserResume(p, l) =>
      var known := s.(inits := s.inits[p := BrowserKnown]);
      if s.launches[l].Launched? then
        known.(browser := Some(s.launches[l].browser), queue := s.queue + [InitResume(p, true)])
      else known.(browserInit := None, queue := s.queue + [InitResume(p, false)])
    case InitResume(p, ok) =>
      if ok then s.(inits := s.inits[p := Creating(s.browser)]) else Settle(s, p, Failed)
    case CallerResume(c, p) =>
      if s.inits[p].Done? then
        s.(context := Some(s.inits[p].context), received := s.received + {s.inits[p].context},
           queue := s.queue + [CallerCode(c)])
      else s.(contextInit := None, queue := s.queue + [CallerCode(c)])
    case CallerCode(_) => DoCalls(config, s, calls)
  }

  function DoDispose(config: Config, s: State): State {
    var reset := s.(context := None, contextInit := None, received := {}, initsDone := 0);
    if OwnsLifecycle(config) && s.browser.Some? then
      reset.(browser := None, browserInit := None, launchesDone := 0)
    else reset
  }

  // --- Steps ---

  ghost predicate WellFormed(s: State) {
    && (s.contextInit.Some? ==> s.contextInit.value < |s.inits|)
    && (forall i | 0 <= i < |s.queue| ::
          && (!s.queue[i].CallerCode? ==> s.queue[i].init < |s.inits|)
          && (s.queue[i].BrowserResume? ==> s.queue[i].launch < |s.launches|))
  }

  /** What can happen next. The driver is not disposed of while an init is in progress or a
      waiter has still to be told. */
  ghost predicate Enabled(s: State, e: Event) {
    match e
    case Call(_) => s.queue == []
    case LaunchSettles(l, _) => l < |s.launches| && s.launches[l].Launching?
    case CreationSettles(p, _) => p < |s.inits| && s.inits[p].Creating?
    case RunJob(_) => s.queue != []
    case Queue(_) => true
    case Dispose =>
      && (forall p | 0 <= p < |s.inits| :: !Pending(s.inits[p]))
      && (forall i | 0 <= i < |s.queue| :: s.queue[i].CallerCode?)
  }

  ghost function Step(config: Config, s: State, e: Event): State
    requires WellFormed(s) && Enabled(s, e)
  {
    match e
    case Call(c) => DoCall(config, s, c)
    case LaunchSettles(l, launched) => DoLaunchSettles(s, l, launched)
    case CreationSettles(p, created) => Settle(s, p, if created.Some? then Done(created.value) else Failed)
    case RunJob(calls) => DoJob(config, s.(queue := s.queue[1..]), s.queue[0], calls)
    case Queue(c) => s.(queue := s.queue + [CallerCode(c)])
    case Dispose => DoDispose(config, s)
  }

  // --- The invariant ---

  predicate IsInitJob(job: Job) {
    job.BrowserResume? || job.InitResume?
  }

  ghost predicate InitAt(s: State, init: Init) {
    s.contextInit.Some? && s.contextInit.value < |s.inits| && s.inits[s.contextInit.value] == init
  }

  /** An init in progress is the one the driver remembers. */
  ghost predicate OneInit(s: State) {
    && (s.contextInit.Some? ==> s.contextInit.value < |s.inits|)
    && (forall p | 0 <= p < |s.inits| :: Pending(s.inits[p]) ==> s.contextInit == Some(p))
    && (forall w | w in s.waiters :: w.1 < |s.inits| && Pending(s.inits[w.1]))
    && (s.context.Some? ==> InitAt(s, Done(s.context.value)))
    && (forall x | x in s.received :: InitAt(s, Done(x)))
    && s.initsDone == if s.contextInit.Some? && s.inits[s.contextInit.value].Done? then 1 else 0
  }

  /** A launch in progress is the one the driver remembers, and the current init waits for it. */
  ghost predicate OneLaunch(s: State) {
    && (s.browserInit.Some? ==> s.browserInit.value < |s.launches|)
    && (forall l | 0 <= l < |s.launches| ::
          s.launches[l].Launching? ==> s.browserInit == Some(l) && InitAt(s, AwaitBrowser(l)))
    && (s.browserInit.Some? ==>
          || (s.browser.Some? && s.launches[s.browserInit.value] == Launched(s.browser.value))
          || (s.browser.None? && InitAt(s, AwaitBrowser(s.browserInit.value))))
    && (forall p | 0 <= p < |s.inits| && s.inits[p].AwaitBrowser? ::
          s.browserInit == Some(s.inits[p].launch) && s.browser.None?)
    && s.launchesDone == if s.browserInit.Some? && s.launches[s.browserInit.value].Launched? then 1 else 0
  }

  /** What the job at the front end of a queue may assume about the init it belongs to. */
  ghost predicate JobFits(config: Config, s: State, job: Job) {
    match job
    case BrowserResume(p, l) =>
      p < |s.inits| && s.inits[p] == AwaitBrowser(l) && l < |s.launches| && !s.launches[l].Launching?
    case InitResume(p, ok) => p < |s.inits| && s.inits[p].BrowserKnown? && (ok ==> s.browser.Some?)
    case CallerResume(_, p) =>
      && p < |s.inits| && !Pending(s.inits[p])
      && (s.inits[p].Done? ==> s.contextInit == Some(p))
      && (s.inits[p].Failed? ==> s.contextInit == None || s.contextInit == Some(p))
    case CallerCode(_) => true
  }

  ghost predicate OneInitJob(s: State) {
    forall i, j | 0 <= i < j < |s.queue| :: !(IsInitJob(s.queue[i]) && IsInitJob(s.queue[j]))
  }

  ghost predicate JobsFit(config: Config, s: State) {
    forall i | 0 <= i < |s.queue| :: JobFits(config, s, s.queue[i])
  }

  ghost predicate Inv(config: Config, s: State) {
    && OneInit(s) && OneLaunch(s) && OneInitJob(s) && JobsFit(config, s)
    && (forall p | 0 <= p < |s.inits| && s.inits[p].Creating? ::
          Persistent(config) || (s.inits[p].on == s.browser && s.browser.Some?))
    && (config.injected.Some? ==> s.browser == config.injected)
  }

  /** No caller is still to be told about a failed init. */
  ghost predicate Ready(s: State) {
    s.contextInit.None? ==> forall i | 0 <= i < |s.queue| :: !s.queue[i].CallerResume?
  }

  /** User code is about to call a driver that has been reset while another waiter of the
      failed init has still to be told. */
  ghost predicate Races(s: State, e: Event) {
    && e.RunJob? && e.calls != [] && s.contextInit.None?
    && s.queue != [] && s.queue[0].CallerCode? && exists j | 0 < j < |s.queue| :: s.queue[j].CallerResume?
  }

  lemma InvIsWellFormed(config: Config, s: State)
    requires Inv(config, s)
    ensures WellFormed(s)
  {
    forall i | 0 <= i < |s.queue|
      ensures !s.queue[i].CallerCode? ==> s.queue[i].init < |s.inits|
      ensures s.queue[i].BrowserResume? ==> s.queue[i].launch < |s.launches|
    {
      assert JobFits(config, s, s.queue[i]);
    }
  }

  /** Starting an init. */
  lemma BeginKeepsInv(config: Config, s: State)
    requires Inv(config, s) && Ready(s) && s.contextInit.None?
    ensures Inv(config, BeginInit(config, s)) && Pending(BeginInit(config, s).inits[|s.inits|])
  {
    var s', p := BeginInit(config, s), |s.inits|;
    assert forall q | 0 <= q < |s.inits| :: s'.inits[q] == s.inits[q] && !Pending(s.inits[q]);
    assert s.context.None? && s.received == {};
    forall i | 0 <= i < |s'.queue|
      ensures JobFits(config, s', s'.queue[i])
    {
      if i < |s.queue| {
        assert s'.queue[i] == s.queue[i];
        assert JobFits(config, s, s.queue[i]);
      }
    }
    assert s.browserInit.Some? ==> s.browser.Some?;
    assert forall l | 0 <= l < |s.launches| :: !s.launches[l].Launching?;
    assert forall i | 0 <= i < |s.queue| :: !IsInitJob(s.queue[i]) by {
      forall i | 0 <= i < |s.queue|
        ensures !IsInitJob(s.queue[i])
      {
        assert JobFits(config, s, s.queue[i]);
      }
    }
  }

  /** Jobs that fit the new state, added to those that did before. */
  lemma MoreJobsFit(config: Config, s: State, s': State, job: Job)
    requires JobsFit(config, s) && s' == s.(queue := s.queue + [job]) && JobFits(config, s', job)
    ensures JobsFit(config, s')
  {
    forall i | 0 <= i < |s'.queue|
      ensures JobFits(config, s', s'.queue[i])
    {
      if i < |s.queue| {
        assert JobFits(config, s, s.queue[i]);
      }
    }
  }

  lemma AwaitKeepsInv(config: Config, s: State, caller: Caller)
    requires Inv(config, s) && s.contextInit.Some?
    ensures Inv(config, Await(s, caller, s.contextInit.value))
  {
    var p := s.contextInit.value;
    var s' := Await(s, caller, p);
    if Pending(s.inits[p]) {
      assert forall i | 0 <= i < |s.queue| :: JobFits(config, s, s.queue[i]) ==> JobFits(config, s', s.queue[i]);
    } else {
      MoreJobsFit(config, s, s', CallerResume(caller, p));
    }
  }

  lemma CallKeepsInv(config: Config, s: State, caller: Caller)
    requires Inv(config, s) && Ready(s)
    ensures var s' := DoCall(config, s, caller); Inv(config, s') && Ready(s')
  {
    if s.context.Some? {
      ReceiveKeepsInv(config, s, caller);
    } else if s.contextInit.Some? {
      AwaitKeepsInv(config, s, caller);
    } else {
      BeginKeepsInv(config, s);
      AwaitKeepsInv(config, BeginInit(config, s), caller);
    }
  }

  lemma ReceiveKeepsInv(config: Config, s: State, caller: Caller)
    requires Inv(config, s) && s.context.Some?
    ensures Inv(config, s.(received := s.received + {s.context.value}, queue := s.queue + [CallerCode(caller)]))
  {
    var s' := s.(received := s.received + {s.context.value}, queue := s.queue + [CallerCode(caller)]);
    forall i | 0 <= i < |s'.queue|
      ensures JobFits(config, s', s'.queue[i])
    {
      if i < |s.queue| {
        assert JobFits(config, s, s.queue[i]);
      }
    }
  }

  lemma {:induction false} CallsKeepInv(config: Config, s: State, callers: seq<Caller>)
    requires Inv(config, s) && Ready(s)
    ensures Inv(config, DoCalls(config, s, callers))
    decreases |callers|
  {
    if callers != [] {
      CallKeepsInv(config, s, callers[0]);
      CallsKeepInv(config, DoCall(config, s, callers[0]), callers[1..]);
    }
  }

  // --- Taking a job off the queue ---

  /** What is known once the job at the front has been taken off. */
  lemma TakeJob(config: Config, s: State)
    requires Inv(config, s) && s.queue != []
    ensures var rest := s.(queue := s.queue[1..]);
            && Inv(config, rest)
            && JobFits(config, rest, s.queue[0])
            && (IsInitJob(s.queue[0]) ==> forall i | 0 <= i < |rest.queue| :: !IsInitJob(rest.queue[i]))
  {
    var rest := s.(queue := s.queue[1..]);
    forall i | 0 <= i < |rest.queue|
      ensures rest.queue[i] == s.queue[i + 1] && JobFits(config, rest, rest.queue[i])
    {
      assert JobFits(config, s, s.queue[i + 1]);
    }
    assert JobFits(config, s, s.queue[0]);
  }

  lemma BrowserResumeKeepsInv(config: Config, s: State, p: InitId, l: LaunchId)
    requires Inv(config, s) && JobFits(config, s, BrowserResume(p, l))
    requires forall i | 0 <= i < |s.queue| :: !IsInitJob(s.queue[i])
    ensures Inv(config, DoJob(config, s, BrowserResume(p, l), []))
  {
    var s' := DoJob(config, s, BrowserResume(p, l), []);
    assert s.contextInit == Some(p) && s.browserInit == Some(l) && s.browser.None?;
    forall i | 0 <= i < |s'.queue|
      ensures JobFits(config, s', s'.queue[i])
    {
      if i < |s.queue| {
        assert JobFits(config, s, s.queue[i]);
      }
    }
  }

  lemma InitResumeKeepsInv(config: Config, s: State, p: InitId, ok: bool)
    requires Inv(config, s) && JobFits(config, s, InitResume(p, ok))
    requires forall i | 0 <= i < |s.queue| :: !IsInitJob(s.queue[i])
    ensures Inv(config, DoJob(config, s, InitResume(p, ok), []))
  {
    assert s.contextInit == Some(p);
    if ok {
      var s' := DoJob(config, s, InitResume(p, ok), []);
      forall i | 0 <= i < |s'.queue|
        ensures JobFits(config, s', s'.queue[i])
      {
        assert JobFits(config, s, s.queue[i]);
      }
    } else {
      SettleKeepsInv(config, s, p, Failed);
    }
  }

  /** Settling the init in progress; none of its own jobs is queued. */
  lemma SettleKeepsInv(config: Config, s: State, p: InitId, outcome: Init)
    requires Inv(config, s) && p < |s.inits| && (s.inits[p].BrowserKnown? || s.inits[p].Creating?)
    requires outcome.Done? || outcome.Failed?
    requires forall i | 0 <= i < |s.queue| :: !IsInitJob(s.queue[i])
    ensures Inv(config, Settle(s, p, outcome))
  {
    var s' := Settle(s, p, outcome);
    assert s.contextInit == Some(p) && s.context.None? && s.received == {};
    forall i | 0 <= i < |s.queue|
      ensures s.queue[i].CallerCode?
    {
      assert JobFits(config, s, s.queue[i]);
    }
    forall i | 0 <= i < |s'.queue|
      ensures JobFits(config, s', s'.queue[i])
      ensures i >= |s.queue| ==> s'.queue[i].CallerResume? && s'.queue[i].init == p
    {
      if i >= |s.queue| {
        assert s'.queue[i] in ResumeJobs(s.waiters, p);
      }
    }
    assert forall w | w in s.waiters :: w.1 == p;
  }

  lemma CallerResumeKeepsInv(config: Config, s: State, c: Caller, p: InitId)
    requires Inv(config, s) && JobFits(config, s, CallerResume(c, p))
    ensures Inv(config, DoJob(config, s, CallerResume(c, p), []))
  {
    var s' := DoJob(config, s, CallerResume(c, p), []);
    forall i | 0 <= i < |s'.queue|
      ensures JobFits(config, s', s'.queue[i])
    {
      if i < |s.queue| {
        assert JobFits(config, s, s.queue[i]);
      }
    }
  }

  lemma JobKeepsInv(config: Config, s: State, calls: seq<Caller>)
    requires Inv(config, s) && WellFormed(s) && s.queue != [] && !Races(s, RunJob(calls))
    ensures Inv(config, Step(config, s, RunJob(calls)))
  {
    TakeJob(config, s);
    var rest := s.(queue := s.queue[1..]);
    match s.queue[0] {
      case BrowserResume(p, l) => BrowserResumeKeepsInv(config, rest, p, l);
      case InitResume(p, ok) => InitResumeKeepsInv(config, rest, p, ok);
      case CallerResume(c, p) => CallerResumeKeepsInv(config, rest, c, p);
      case CallerCode(_) =>
        if calls != [] {
          CodeIsReady(s, calls);
          CallsKeepInv(config, rest, calls);
        }
    }
  }

  /** User code that does not race finds nobody left to be told. */
  lemma CodeIsReady(s: State, calls: seq<Caller>)
    requires s.queue != [] && s.queue[0].CallerCode? && calls != [] && !Races(s, RunJob(calls))
    ensures Ready(s.(queue := s.queue[1..]))
  {
    var rest := s.(queue := s.queue[1..]);
    assert forall i | 0 <= i < |rest.queue| :: rest.queue[i] == s.queue[i + 1];
  }

  lemma {:induction false} BrowserJobsIs(inits: seq<Init>, l: LaunchId, p: InitId)
    requires p < |inits| && inits[p] == AwaitBrowser(l)
    requires forall q | 0 <= q < |inits| && q != p :: inits[q] != AwaitBrowser(l)
    ensures BrowserJobs(inits, l) == [BrowserResume(p, l)]
  {
    var n := |inits| - 1;
    if p < n {
      BrowserJobsIs(inits[..n], l, p);
    } else {
      NoBrowserJobs(inits[..n], l);
    }
  }

  lemma {:induction false} NoBrowserJobs(inits: seq<Init>, l: LaunchId)
    requires forall q | 0 <= q < |inits| :: inits[q] != AwaitBrowser(l)
    ensures BrowserJobs(inits, l) == []
  {
    if inits != [] {
      NoBrowserJobs(inits[..|inits| - 1], l);
    }
  }

  lemma LaunchKeepsInv(config: Config, s: State, l: LaunchId, launched: Option<Browser>)
    requires Inv(config, s) && Enabled(s, LaunchSettles(l, launched))
    ensures Inv(config, DoLaunchSettles(s, l, launched))
  {
    var s' := DoLaunchSettles(s, l, launched);
    assert s.browserInit == Some(l) && InitAt(s, AwaitBrowser(l));
    BrowserJobsIs(s.inits, l, s.contextInit.value);
    assert s'.queue == s.queue + [BrowserResume(s.contextInit.value, l)];
    forall i | 0 <= i < |s.queue|
      ensures s.queue[i].CallerCode?
    {
      assert JobFits(config, s, s.queue[i]);
    }
  }

  lemma DisposeKeepsInv(config: Config, s: State)
    requires Inv(config, s) && Enabled(s, Dispose)
    ensures Inv(config, DoDispose(config, s))
  {
  }

  /** Every step that is not a race keeps the invariant. */
  lemma StepKeepsInv(config: Config, s: State, e: Event)
    requires Inv(config, s) && WellFormed(s) && Enabled(s, e) && !Races(s, e)
    ensures Inv(config, Step(config, s, e))
  {
    match e {
      case Call(c) => CallKeepsInv(config, s, c);
      case LaunchSettles(l, launched) => LaunchKeepsInv(config, s, l, launched);
      case CreationSettles(p, created) =>
        SettleKeepsInv(config, s, p, if created.Some? then Done(created.value) else Failed);
      case RunJob(calls) => JobKeepsInv(config, s, calls);
      case Queue(c) => MoreJobsFit(config, s, Step(config, s, e), CallerCode(c));
      case Dispose => DisposeKeepsInv(config, s);
    }
  }

  // --- Nobody is forgotten ---

  ghost predicate HasWaiter(s: State, p: InitId) {
    exists w :: w in s.waiters && w.1 == p
  }

  ghost predicate HasResume(s: State, p: InitId) {
    exists c :: CallerResume(c, p) in s.queue
  }

  /** Someone waits for the init in progress and is told when it has failed; whatever the
      init waits for is either outside or on the queue. */
  ghost predicate Told(s: State) {
    && (forall p | 0 <= p < |s.inits| :: Pending(s.inits[p]) ==> HasWaiter(s, p))
    && (InitAt(s, Failed) ==> HasResume(s, s.contextInit.value))
    && (forall p | 0 <= p < |s.inits| && s.inits[p].AwaitBrowser? ::
          && s.inits[p].launch < |s.launches|
          && (s.launches[s.inits[p].launch].Launching? || BrowserResume(p, s.inits[p].launch) in s.queue))
    && (forall p | 0 <= p < |s.inits| && s.inits[p].BrowserKnown? ::
          InitResume(p, true) in s.queue || InitResume(p, false) in s.queue)
  }

  lemma {:induction false} EveryWaiterResumes(waiters: seq<(Caller, InitId)>, w: (Caller, InitId))
    requires w in waiters
    ensures CallerResume(w.0, w.1) in ResumeJobs(waiters, w.1)
  {
    if w != waiters[0] {
      assert w in waiters[1..];
      EveryWaiterResumes(waiters[1..], w);
    }
  }

  lemma BeginTells(config: Config, s: State, caller: Caller)
    requires Inv(config, s) && Told(s) && s.contextInit.None?
    ensures Told(Await(BeginInit(config, s), caller, |s.inits|))
  {
    var s', p := Await(BeginInit(config, s), caller, |s.inits|), |s.inits|;
    assert forall q | 0 <= q < |s.inits| :: s'.inits[q] == s.inits[q] && !Pending(s.inits[q]);
    assert s.browserInit.Some? ==> s.browser.Some?;
    assert s'.waiters[|s'.waiters| - 1] == (caller, p) && (caller, p) in s'.waiters;
    assert HasWaiter(s', p);
    assert s'.inits[p].BrowserKnown? ==> s'.queue[|s'.queue| - 1] == InitResume(p, true);
  }

  lemma MoreTells(s: State, s': State)
    requires Told(s) && s'.inits == s.inits && s'.launches == s.launches && s'.contextInit == s.contextInit
    requires forall j | j in s.queue :: j in s'.queue
    requires forall w | w in s.waiters :: w in s'.waiters
    ensures Told(s')
  {
    forall p | 0 <= p < |s.inits| && Pending(s.inits[p])
      ensures HasWaiter(s', p)
    {
      var w :| w in s.waiters && w.1 == p;
      assert w in s'.waiters;
    }
    if InitAt(s, Failed) {
      var c :| CallerResume(c, s.contextInit.value) in s.queue;
      assert CallerResume(c, s.contextInit.value) in s'.queue;
    }
  }

  lemma CallTells(config: Config, s: State, caller: Caller)
    requires Inv(config, s) && Told(s)
    ensures Told(DoCall(config, s, caller))
  {
    if s.context.None? && s.contextInit.None? {
      BeginTells(config, s, caller);
    } else {
      MoreTells(s, DoCall(config, s, caller));
    }
  }

  lemma {:induction false} CallsTell(config: Config, s: State, callers: seq<Caller>)
    requires Inv(config, s) && Ready(s) && Told(s)
    ensures Told(DoCalls(config, s, callers))
    decreases |callers|
  {
    if callers != [] {
      CallKeepsInv(config, s, callers[0]);
      CallTells(config, s, callers[0]);
      CallsTell(config, DoCall(config, s, callers[0]), callers[1..]);
    }
  }

  lemma SettleTells(config: Config, s: State, p: InitId, outcome: Init)
    requires Inv(config, s) && p < |s.inits| && Pending(s.inits[p]) && HasWaiter(s, p)
    requires outcome.Done? || outcome.Failed?
    ensures Told(Settle(s, p, outcome))
  {
    var s' := Settle(s, p, outcome);
    var w :| w in s.waiters && w.1 == p;
    EveryWaiterResumes(s.waiters, w);
    assert CallerResume(w.0, p) in s'.queue;
    assert forall q | 0 <= q < |s'.inits| :: !Pending(s'.inits[q]);
  }

  lemma JobTells(config: Config, s: State, calls: seq<Caller>)
    requires Inv(config, s) && WellFormed(s) && Told(s) && s.queue != [] && !Races(s, RunJob(calls))
    ensures Told(Step(config, s, RunJob(calls)))
  {
    TakeJob(config, s);
    var rest := s.(queue := s.queue[1..]);
    assert s.queue == [s.queue[0]] + rest.queue;
    assert JobFits(config, s, s.queue[0]);
    match s.queue[0] {
      case BrowserResume(p, l) => BrowserResumeTells(config, s, p, l);
      case InitResume(p, ok) => InitResumeTells(config, s, p, ok);
      case CallerResume(c, p) => CallerResumeTells(config, s, c, p);
      case CallerCode(c) =>
        CallerCodeTells(s, c);
        if calls != [] {
          CodeIsReady(s, calls);
          CallsTell(config, rest, calls);
        }
    }
  }

  lemma BrowserResumeTells(config: Config, s: State, p: InitId, l: LaunchId)
    requires Inv(config, s) && WellFormed(s) && Told(s) && s.queue != [] && s.queue[0] == BrowserResume(p, l)
    ensures Told(Step(config, s, RunJob([])))
  {
    var s' := Step(config, s, RunJob([]));
    assert JobFits(config, s, s.queue[0]);
    assert s.contextInit == Some(p);
    var w :| w in s.waiters && w.1 == p;
    assert HasWaiter(s', p);
    assert s'.queue[|s'.queue| - 1].InitResume?;
    assert s'.queue[|s'.queue| - 1] in s'.queue;
  }

  lemma InitResumeTells(config: Config, s: State, p: InitId, ok: bool)
    requires Inv(config, s) && WellFormed(s) && Told(s) && s.queue != [] && s.queue[0] == InitResume(p, ok)
    ensures Told(Step(config, s, RunJob([])))
  {
    var s', rest := Step(config, s, RunJob([])), s.(queue := s.queue[1..]);
    assert JobFits(config, s, s.queue[0]);
    assert s.contextInit == Some(p);
    var w :| w in s.waiters && w.1 == p;
    if ok {
      assert w in s'.waiters && HasWaiter(s', p);
    } else {
      TakeJob(config, s);
      assert w in rest.waiters && HasWaiter(rest, p);
      SettleTells(config, rest, p, Failed);
    }
  }

  lemma CallerResumeTells(config: Config, s: State, c: Caller, p: InitId)
    requires Inv(config, s) && WellFormed(s) && Told(s) && s.queue != [] && s.queue[0] == CallerResume(c, p)
    ensures Told(Step(config, s, RunJob([])))
  {
    assert JobFits(config, s, s.queue[0]);
    assert forall q | 0 <= q < |s.inits| :: !Pending(s.inits[q]);
  }

  lemma CallerCodeTells(s: State, c: Caller)
    requires Told(s) && s.queue != [] && s.queue[0] == CallerCode(c)
    ensures Told(s.(queue := s.queue[1..]))
  {
    var rest := s.(queue := s.queue[1..]);
    assert forall j | j in s.queue && !j.CallerCode? :: j in rest.queue;
    forall p | 0 <= p < |s.inits| && Pending(s.inits[p])
      ensures HasWaiter(rest, p)
    {
      var w :| w in s.waiters && w.1 == p;
      assert w in rest.waiters;
    }
    if InitAt(s, Failed) {
      var d :| CallerResume(d, s.contextInit.value) in s.queue;
      assert CallerResume(d, s.contextInit.value) in rest.queue;
    }
  }

  lemma StepTells(config: Config, s: State, e: Event)
    requires Inv(config, s) && WellFormed(s) && Enabled(s, e) && Told(s) && !Races(s, e)
    ensures Told(Step(config, s, e))
  {
    match e {
      case Call(c) => CallTells(config, s, c);
      case LaunchSettles(l, launched) => LaunchTells(config, s, l, launched);
      case CreationSettles(p, created) =>
        SettleTells(config, s, p, if created.Some? then Done(created.value) else Failed);
      case RunJob(calls) => JobTells(config, s, calls);
      case Queue(_) => MoreTells(s, Step(config, s, e));
      case Dispose =>
    }
  }

  lemma LaunchTells(config: Config, s: State, l: LaunchId, launched: Option<Browser>)
    requires Inv(config, s) && Enabled(s, LaunchSettles(l, launched)) && Told(s)
    ensures Told(DoLaunchSettles(s, l, launched))
  {
    var s', p := DoLaunchSettles(s, l, launched), s.contextInit.value;
    assert InitAt(s, AwaitBrowser(l));
    BrowserJobsIs(s.inits, l, p);
    assert s'.queue == s.queue + [BrowserResume(p, l)];
    var w :| w in s.waiters && w.1 == p;
    assert w in s'.waiters && HasWaiter(s', p);
  }

  // --- Runs ---

  /** `s'` is reached from `s` through these events, in order. */
  ghost predicate Reaches(config: Config, s: State, events: seq<Event>, s': State)
    decreases |events|
  {
    if events == [] then s' == s
    else WellFormed(s) && Enabled(s, events[0]) && Reaches(config, Step(config, s, events[0]), events[1..], s')
  }

  /** None of the events races. */
  ghost predicate Unraced(config: Config, s: State, events: seq<Event>)
    decreases |events|
  {
    events != [] && WellFormed(s) && Enabled(s, events[0]) ==>
      !Races(s, events[0]) && Unraced(config, Step(config, s, events[0]), events[1..])
  }

  lemma {:induction false} RunKeepsInv(config: Config, s: State, events: seq<Event>, s': State)
    requires Inv(config, s) && Told(s) && Reaches(config, s, events, s') && Unraced(config, s, events)
    ensures Inv(config, s') && Told(s')
    decreases |events|
  {
    if events != [] {
      StepKeepsInv(config, s, events[0]);
      StepTells(config, s, events[0]);
      RunKeepsInv(config, Step(config, s, events[0]), events[1..], s');
    }
  }

  /** Reached from a new driver without a race. */
  ghost predicate ReachableUnraced(config: Config, s: State) {
    exists events :: Reaches(config, Start(config), events, s) && Unraced(config, Start(config), events)
  }

  lemma ReachableInv(config: Config, s: State)
    requires ReachableUnraced(config, s)
    ensures Inv(config, s) && Told(s) && WellFormed(s)
  {
    var events :| Reaches(config, Start(config), events, s) && Unraced(config, Start(config), events);
    RunKeepsInv(config, Start(config), events, s);
    InvIsWellFormed(config, s);
  }

  /** Without a race, concurrent callers never have two context inits or two launches in
      flight, no second one ever succeeds before a dispose, and all callers receive the same
      context. Every job and cache refers to an init and a launch that exist. */
  lemma SharedInitIsSafe(config: Config, s: State)
    requires ReachableUnraced(config, s)
    ensures WellFormed(s)
    ensures forall p, q | 0 <= p < |s.inits| && 0 <= q < |s.inits| ::
              Pending(s.inits[p]) && Pending(s.inits[q]) ==> p == q
    ensures forall l, m | 0 <= l < |s.launches| && 0 <= m < |s.launches| ::
              s.launches[l].Launching? && s.launches[m].Launching? ==> l == m
    ensures s.initsDone <= 1 && s.launchesDone <= 1
    ensures forall x, y | x in s.received && y in s.received :: x == y
    ensures forall x | x in s.received && s.context.Some? :: x == s.context.value
    ensures forall p | 0 <= p < |s.inits| && Pending(s.inits[p]) :: s.contextInit == Some(p)
  {
    ReachableInv(config, s);
  }

  /** Once only user jobs are queued nobody waits in vain: the remembered init has succeeded or
      waits for Playwright, and a failed init or launch has left nothing behind, so that the
      next caller tries again. */
  lemma NothingStaysRejected(config: Config, s: State)
    requires ReachableUnraced(config, s) && forall i | 0 <= i < |s.queue| :: s.queue[i].CallerCode?
    ensures s.contextInit.Some? ==> s.contextInit.value < |s.inits| && DoneOrOutside(s, s.inits[s.contextInit.value])
    ensures s.browserInit.Some? ==> s.browserInit.value < |s.launches| && !s.launches[s.browserInit.value].LaunchFailed?
    ensures forall w | w in s.waiters :: s.contextInit == Some(w.1) && Pending(s.inits[w.1])
  {
    ReachableInv(config, s);
  }

  /** The init has succeeded, or Playwright has still to answer. */
  ghost predicate DoneOrOutside(s: State, init: Init) {
    || init.Done? || init.Creating?
    || (init.AwaitBrowser? && init.launch < |s.launches| && s.launches[init.launch].Launching?)
  }

  // --- Without unrelated user jobs there is no race ---

  /** Every caller waiting for a failed init is told before any caller's own code can run
      on the reset driver. */
  ghost predicate Calm(s: State) {
    && (s.contextInit.None? ==>
          forall i, j | 0 <= i < j < |s.queue| :: s.queue[i].CallerCode? ==> !s.queue[j].CallerResume?)
    && (InitAt(s, Failed) ==>
          forall i, j | 0 <= i < j < |s.queue| :: s.queue[i].CallerResume? ==> s.queue[j].CallerResume?)
  }

  lemma CalmDoesNotRace(s: State, e: Event)
    requires Calm(s)
    ensures !Races(s, e)
  {
  }

  lemma CallKeepsCalm(config: Config, s: State, caller: Caller)
    requires Inv(config, s) && Calm(s)
    ensures Calm(DoCall(config, s, caller))
  {
    if s.context.None? && s.contextInit.None? {
      assert Pending(BeginInit(config, s).inits[|s.inits|]);
    }
  }

  lemma {:induction false} CallsKeepCalm(config: Config, s: State, callers: seq<Caller>)
    requires Inv(config, s) && Ready(s) && Calm(s)
    ensures Calm(DoCalls(config, s, callers))
    decreases |callers|
  {
    if callers != [] {
      CallKeepsInv(config, s, callers[0]);
      CallKeepsCalm(config, s, callers[0]);
      CallsKeepCalm(config, DoCall(config, s, callers[0]), callers[1..]);
    }
  }

  lemma SettleKeepsCalm(config: Config, s: State, p: InitId, outcome: Init)
    requires Inv(config, s) && p < |s.inits| && Pending(s.inits[p]) && (outcome.Done? || outcome.Failed?)
    ensures Calm(Settle(s, p, outcome))
  {
    var s' := Settle(s, p, outcome);
    forall i | 0 <= i < |s.queue|
      ensures !s.queue[i].CallerResume?
    {
      assert JobFits(config, s, s.queue[i]);
    }
    forall i | |s.queue| <= i < |s'.queue|
      ensures s'.queue[i].CallerResume?
    {
      assert s'.queue[i] in ResumeJobs(s.waiters, p);
    }
  }

  lemma TakeKeepsCalm(s: State)
    requires Calm(s) && s.queue != []
    ensures Calm(s.(queue := s.queue[1..]))
    ensures s.queue[0].CallerResume? && InitAt(s, Failed) ==> forall i | 0 < i < |s.queue| :: s.queue[i].CallerResume?
    ensures s.queue[0].CallerCode? ==> Ready(s.(queue := s.queue[1..]))
  {
    var rest := s.(queue := s.queue[1..]);
    assert forall i | 0 <= i < |rest.queue| :: rest.queue[i] == s.queue[i + 1];
  }

  lemma JobKeepsCalm(config: Config, s: State, calls: seq<Caller>)
    requires Inv(config, s) && WellFormed(s) && Calm(s) && s.queue != []
    ensures Calm(Step(config, s, RunJob(calls)))
  {
    var rest := s.(queue := s.queue[1..]);
    TakeJob(config, s);
    TakeKeepsCalm(s);
    match s.queue[0] {
      case BrowserResume(p, l) => assert s.contextInit == Some(p);
      case InitResume(p, ok) =>
        assert s.contextInit == Some(p);
        if !ok {
          SettleKeepsCalm(config, rest, p, Failed);
        }
      case CallerResume(c, p) => ResumeKeepsCalm(config, rest, c, p);
      case CallerCode(_) => CallsKeepCalm(config, rest, calls);
    }
  }

  lemma ResumeKeepsCalm(config: Config, s: State, c: Caller, p: InitId)
    requires Inv(config, s) && Calm(s) && JobFits(config, s, CallerResume(c, p))
    requires InitAt(s, Failed) ==> forall i | 0 <= i < |s.queue| :: s.queue[i].CallerResume?
    ensures Calm(DoJob(config, s, CallerResume(c, p), []))
  {
  }

  lemma StepKeepsCalm(config: Config, s: State, e: Event)
    requires Inv(config, s) && WellFormed(s) && Enabled(s, e) && Calm(s) && !e.Queue?
    ensures Calm(Step(config, s, e))
  {
    match e {
      case Call(c) => CallKeepsCalm(config, s, c);
      case LaunchSettles(l, launched) => assert InitAt(s, AwaitBrowser(l));
      case CreationSettles(p, created) =>
        SettleKeepsCalm(config, s, p, if created.Some? then Done(created.value) else Failed);
      case RunJob(calls) => JobKeepsCalm(config, s, calls);
      case Dispose =>
    }
  }

  /** A run in which the only user code is that of callers as they are resumed never races,
      whatever they call: with `SharedInitIsSafe`, it is always safe. */
  lemma {:induction false} ResumedCodeNeverRaces(config: Config, s: State, events: seq<Event>)
    requires Inv(config, s) && Calm(s) && forall e | e in events :: !e.Queue?
    ensures Unraced(config, s, events)
    decreases |events|
  {
    if events != [] && WellFormed(s) && Enabled(s, events[0]) {
      var e := events[0];
      assert e in events;
      CalmDoesNotRace(s, e);
      StepKeepsInv(config, s, e);
      StepKeepsCalm(config, s, e);
      ResumedCodeNeverRaces(config, Step(config, s, e), events[1..]);
    }
  }

  // --- Retries ---

  /** The driver has its browser: nothing waits for a launch, and contexts are created on it. */
  ghost predicate UsesBrowser(s: State, b: Browser) {
    && s.browser == Some(b)
    && (forall p | 0 <= p < |s.inits| ::
          !s.inits[p].AwaitBrowser? && (s.inits[p].Creating? ==> s.inits[p].on == Some(b)))
    && (forall i | 0 <= i < |s.queue| :: !s.queue[i].BrowserResume?)
  }

  lemma CallUsesBrowser(config: Config, s: State, b: Browser, caller: Caller)
    requires s.contextInit.Some? ==> s.contextInit.value < |s.inits|
    requires !Persistent(config) && UsesBrowser(s, b)
    ensures var s' := DoCall(config, s, caller); UsesBrowser(s', b) && s'.launches == s.launches
  {
  }

  lemma {:induction false} CallsUseBrowser(config: Config, s: State, b: Browser, callers: seq<Caller>)
    requires s.contextInit.Some? ==> s.contextInit.value < |s.inits|
    requires !Persistent(config) && UsesBrowser(s, b)
    ensures var s' := DoCalls(config, s, callers); UsesBrowser(s', b) && s'.launches == s.launches
    decreases |callers|
  {
    if callers != [] {
      CallUsesBrowser(config, s, b, callers[0]);
      CallsUseBrowser(config, DoCall(config, s, callers[0]), b, callers[1..]);
    }
  }

  lemma StepUsesBrowser(config: Config, s: State, b: Browser, e: Event)
    requires WellFormed(s) && Enabled(s, e) && !Persistent(config) && UsesBrowser(s, b)
    requires e.Dispose? ==> config.injected.Some? || config.cdp
    ensures var s' := Step(config, s, e); UsesBrowser(s', b) && |s'.launches| == |s.launches|
  {
    match e {
      case Call(c) => CallUsesBrowser(config, s, b, c);
      case LaunchSettles(l, _) => NoBrowserJobs(s.inits, l);
      case RunJob(calls) =>
        var rest := s.(queue := s.queue[1..]);
        if s.queue[0].CallerCode? {
          CallsUseBrowser(config, rest, b, calls);
        }
      case _ =>
    }
  }

  /** Once a browser is there, no retry launches another one: until a dispose of a driver that
      owns it, every context is created on that browser, however many creations fail and
      whatever races. */
  lemma {:induction false} RetriesReuseBrowser(config: Config, s: State, b: Browser, events: seq<Event>, s': State)
    requires UsesBrowser(s, b) && !Persistent(config) && Reaches(config, s, events, s')
    requires forall e | e in events :: e.Dispose? ==> config.injected.Some? || config.cdp
    ensures UsesBrowser(s', b) && |s'.launches| == |s.launches|
    decreases |events|
  {
    if events != [] {
      assert events[0] in events;
      StepUsesBrowser(config, s, b, events[0]);
      RetriesReuseBrowser(config, Step(config, s, events[0]), b, events[1..], s');
    }
  }

  /** Without a race that is so from the moment the browser is known. */
  lemma KnownBrowserIsUsed(config: Config, s: State)
    requires Inv(config, s) && s.browser.Some? && !Persistent(config)
    ensures UsesBrowser(s, s.browser.value)
  {
    forall i | 0 <= i < |s.queue|
      ensures !s.queue[i].BrowserResume?
    {
      assert JobFits(config, s, s.queue[i]);
    }
  }

  /** A driver that has its browser keeps it: every later call, retry and failure leaves it
      with that browser and no further launch, and creates contexts on it, until a dispose, and
      beyond when the browser was given to it or connected to. */
  lemma KnownBrowserIsReused(config: Config, s: State, b: Browser, events: seq<Event>, s': State)
    requires ReachableUnraced(config, s) && s.browser == Some(b) && !Persistent(config)
    requires Reaches(config, s, events, s')
    requires forall e | e in events :: e.Dispose? ==> config.injected.Some? || config.cdp
    ensures s'.browser == Some(b) && |s'.launches| == |s.launches|
    ensures forall p | 0 <= p < |s'.inits| && s'.inits[p].Creating? :: s'.inits[p].on == Some(b)
  {
    ReachableInv(config, s);
    KnownBrowserIsUsed(config, s);
    RetriesReuseBrowser(config, s, b, events, s');
  }
}
