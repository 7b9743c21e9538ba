/**
 What single calls of the driver promise a caller who knows the state only through refs that
 are accepted and tabs that are open.
 */
module DriverPromises {
  import opened Wrappers
  import opened DriverModel
  import opened DriverRuns
  import opened DriverConsole

  /** What is stored for `t` is kept. */
  ghost predicate Keeps(s: State, s': State, t: TabId) {
    t in s.snapshots ==> t in s'.snapshots && s'.snapshots[t] == s.snapshots[t]
  }

  /** A page that is opened for a call has no snapshot yet. */
  lemma OpenedHasNoSnapshot(s: State, newPage: Option<Page>)
    requires Inv(s)
    ensures var r := EnsurePage(s, newPage);
            && (r.Some? ==> r.value.snapshots == s.snapshots && r.value.current.Some? && Inv(r.value))
            && (s.current.Some? ==> r == Some(s))
            && (s.current.None? && r.Some? ==> r.value.current.value !in s.snapshots)
  {
    IdsBelowCounter(s);
    EnsurePageKeepsInv(s, newPage);
  }

  /** Refs are accepted by a call exactly when they were before it. */
  lemma LocatorsBeforeCall(s: State, newPage: Option<Page>)
    requires Inv(s)
    ensures var r := EnsurePage(s, newPage);
            r.Some? ==> (forall ref :: HasLocator(r.value, ref) <==> HasLocator(s, ref))
                        && (s.current.Some? ==> r.value == s)
  {
    OpenedHasNoSnapshot(s, newPage);
  }

  lemma StoredIsAccepted(s: State, id: TabId, refs: map<string, RefInfo>)
    requires s.current == Some(id)
    ensures forall ref :: HasLocator(StoreSnapshot(s, id, refs), ref) <==> ref in refs
    ensures forall t: TabId | t != id :: Keeps(s, StoreSnapshot(s, id, refs), t)
  {
  }

  // --- What the calls promise ---

  /** There is a page to work on: the current tab's, or one that can be opened. */
  predicate PageIsThere(s: State, newPage: Option<Page>) {
    s.current.Some? || newPage.Some?
  }

  /** A timeout that is given is not over the limit. */
  predicate Within(timeout: Option<int>, maxMs: int) {
    timeout.Some? ==> timeout.value <= maxMs
  }

  /** A snapshot id that is given is the one stored for the current tab. */
  predicate IdFits(s: State, snapshotId: Option<string>) {
    snapshotId.Some? ==>
      && s.current.Some? && s.current.value in s.snapshots
      && snapshotId.value == SnapshotId(s.current.value, s.snapshots[s.current.value].counter)
  }

  /** The current tab after a call that needs a page. */
  function Shown(s: State, newPage: Option<Page>): Option<TabId> {
    if s.current.None? && newPage.Some? then Some(s.tabCounter + 1) else s.current
  }

  /** The page is the one there was, or a new one. */
  lemma EnsurePageCases(s: State, newPage: Option<Page>)
    requires Inv(s)
    ensures var r := EnsurePage(s, newPage);
            && (r.Some? <==> PageIsThere(s, newPage))
            && (r.Some? ==> r.value.current == Shown(s, newPage) && r.value.current.Some?)
            && (r.Some? ==> r.value.snapshots == s.snapshots)
            && (r.Some? && s.current.None? ==> r.value.current.value !in s.snapshots)
            && (s.current.Some? ==> r == Some(s))
  {
    OpenedHasNoSnapshot(s, newPage);
  }

  lemma IdsBeforeCall(s: State, newPage: Option<Page>, snapshotId: Option<string>)
    requires Inv(s)
    ensures var r := EnsurePage(s, newPage); r.Some? ==> (IsStale(r.value, snapshotId) <==> !IdFits(s, snapshotId))
  {
    EnsurePageCases(s, newPage);
  }

  /** A text that the page gives is stored: exactly its refs are accepted, even if the title
      cannot be had afterwards. Without one nothing that is stored changes. Other tabs keep
      what they have. */
  ghost predicate SnapshotStored(s: State, call: Event, e: Effect)
    requires call.SnapshotCall?
  {
    && e.result == (if !PageIsThere(s, call.newPage) || call.aria.Throws? then Err(Playwright)
                    else if call.aria.Empty? then Err(Internal)
                    else if call.aria.titled || call.titleOk then Ok else Err(Playwright))
    && e.state.current == Shown(s, call.newPage)
    && (PageIsThere(s, call.newPage) && call.aria.Yaml? ==>
          && e.state.current.Some? && e.state.current.value in e.state.snapshots
          && forall ref :: HasLocator(e.state, ref) <==> ref in call.aria.refs)
    && (!PageIsThere(s, call.newPage) || !call.aria.Yaml? ==> e.state.snapshots == s.snapshots)
    && forall t: TabId | s.current != Some(t) :: Keeps(s, e.state, t)
  }

  lemma SnapshotCases(s: State, newPage: Option<Page>, aria: Aria, titleOk: bool)
    ensures var r, e := EnsurePage(s, newPage), DoSnapshot(s, newPage, aria, titleOk);
            && (r.None? ==> e == Effect(s, Err(Playwright), false))
            && (r.Some? && r.value.current.Some? ==>
                  && (aria.Throws? ==> e == Effect(r.value, Err(Playwright), false))
                  && (aria.Empty? ==> e == Effect(r.value, Err(Internal), false))
                  && (aria.Yaml? ==>
                        e == Effect(StoreSnapshot(r.value, r.value.current.value, aria.refs),
                                    if aria.titled || titleOk then Ok else Err(Playwright), false)))
  {
  }

  lemma StoringKeepsOthers(s: State, r: State, refs: map<string, RefInfo>)
    requires r.snapshots == s.snapshots && r.current.Some?
    requires s.current == r.current || r.current.value !in s.snapshots
    ensures forall t: TabId | s.current != Some(t) :: Keeps(s, StoreSnapshot(r, r.current.value, refs), t)
  {
    StoredIsAccepted(r, r.current.value, refs);
    var s' := StoreSnapshot(r, r.current.value, refs);
    forall t: TabId | s.current != Some(t)
      ensures Keeps(s, s', t)
    {
      if t in s.snapshots {
        assert t != r.current.value;
        assert Keeps(r, s', t);
      }
    }
  }

  lemma SnapshotEffects(s: State, call: Event)
    requires Inv(s) && call.SnapshotCall?
    ensures SnapshotStored(s, call, Step(s, call))
  {
    var r := EnsurePage(s, call.newPage);
    EnsurePageCases(s, call.newPage);
    SnapshotCases(s, call.newPage, call.aria, call.titleOk);
    if r.Some? && call.aria.Yaml? {
      StoredIsAccepted(r.value, r.value.current.value, call.aria.refs);
      StoringKeepsOthers(s, r.value, call.aria.refs);
    }
  }

  /** With a page and a timeout of at most a minute no ref is accepted afterwards, whether or
      not the page loads; otherwise nothing that is stored changes. */
  ghost predicate Navigated(s: State, call: Event, e: Effect)
    requires call.NavigateCall?
  {
    var goes := PageIsThere(s, call.newPage) && Within(call.timeout, 60_000);
    && e.result == (if goes then (if call.gotoOk then Ok else Err(Playwright))
                    else if PageIsThere(s, call.newPage) then Err(Validation) else Err(Playwright))
    && e.state.current == Shown(s, call.newPage)
    && (goes ==> forall ref :: !HasLocator(e.state, ref))
    && (!goes ==> e.state.snapshots == s.snapshots)
    && forall t: TabId | s.current != Some(t) :: Keeps(s, e.state, t)
  }

  lemma NavigateEffects(s: State, call: Event)
    requires Inv(s) && call.NavigateCall?
    ensures Navigated(s, call, Step(s, call))
  {
    EnsurePageCases(s, call.newPage);
  }

  /** The page is touched exactly when the ref was accepted, a given snapshot id was that of
      the stored snapshot and the timeout is at most ten seconds; this also settles the
      result. After a successful click, type or select no ref is accepted; otherwise every
      snapshot is kept. */
  ghost predicate ActedOnRef(s: State, call: Event, e: Effect)
    requires call.RefCall?
  {
    var found := IdFits(s, call.snapshotId) && HasLocator(s, call.ref);
    && (e.acted <==> found && Within(call.timeout, 10_000))
    && e.result == (if !PageIsThere(s, call.newPage) then Err(Playwright)
                    else if !found then Err(StaleRef)
                    else if !Within(call.timeout, 10_000) then Err(Validation)
                    else if call.actionOk then Ok else Err(Playwright))
    && (if e.result.Ok? && (call.kind.Click? || call.kind.Type? || call.kind.Select?)
        then forall r :: !HasLocator(e.state, r)
        else e.state.snapshots == s.snapshots)
  }

  lemma RefEffects(s: State, call: Event)
    requires Inv(s) && call.RefCall?
    ensures ActedOnRef(s, call, Step(s, call))
  {
    LocatorsBeforeCall(s, call.newPage);
    EnsurePageCases(s, call.newPage);
    IdsBeforeCall(s, call.newPage, call.snapshotId);
  }

  /** Every field names a ref that is accepted. */
  ghost predicate AllFound(s: State, refs: seq<string>) {
    forall i | 0 <= i < |refs| :: HasLocator(s, refs[i])
  }

  /** A form is written exactly when it has fields, all their refs are accepted, a given
      snapshot id was that of the stored snapshot and the timeout is at most ten seconds; this
      also settles the result. After success no ref is accepted; otherwise every snapshot is
      kept. */
  ghost predicate Filled(s: State, call: Event, e: Effect)
    requires call.FillFormCall?
  {
    var ready := PageIsThere(s, call.newPage) && IdFits(s, call.snapshotId) && Within(call.timeout, 10_000);
    && (e.acted <==> call.refs != [] && ready && AllFound(s, call.refs))
    && e.result == (if !PageIsThere(s, call.newPage) then Err(Playwright)
                    else if !IdFits(s, call.snapshotId) then Err(StaleRef)
                    else if !Within(call.timeout, 10_000) then Err(Validation)
                    else if !AllFound(s, call.refs) then Err(StaleRef)
                    else if call.failsAt < |call.refs| then Err(Playwright) else Ok)
    && (if e.result.Ok? then forall r :: !HasLocator(e.state, r) else e.state.snapshots == s.snapshots)
  }

  lemma FormCases(s: State, call: Event, r: State)
    requires call.FillFormCall? && EnsurePage(s, call.newPage) == Some(r)
    ensures Step(s, call) ==
            if IsStale(r, call.snapshotId) then Effect(r, Err(StaleRef), false)
            else if !Within(call.timeout, 10_000) then Effect(r, Err(Validation), false)
            else if !AllFound(r, call.refs) then Effect(r, Err(StaleRef), false)
            else if call.failsAt < |call.refs| then Effect(r, Err(Playwright), true)
            else Effect(InvalidateCurrent(r), Ok, call.refs != [])
  {
  }

  lemma FormEffects(s: State, call: Event)
    requires Inv(s) && call.FillFormCall?
    ensures Filled(s, call, Step(s, call))
  {
    var r := EnsurePage(s, call.newPage);
    EnsurePageCases(s, call.newPage);
    LocatorsBeforeCall(s, call.newPage);
    IdsBeforeCall(s, call.newPage, call.snapshotId);
    if r.Some? {
      FormCases(s, call, r.value);
      assert AllFound(r.value, call.refs) <==> AllFound(s, call.refs);
    }
  }

  lemma AppendedAndRemoved(s: State, page: Page)
    requires Inv(s)
    ensures var withTab := s.tabs + [Tab(s.tabCounter + 1, page)];
            Ids(withTab) == Ids(s.tabs) + {s.tabCounter + 1} && Ids(RemoveTab(withTab, s.tabCounter + 1)) == Ids(s.tabs)
  {
    IdsBelowCounter(s);
    IdsOfAppended(s.tabs, Tab(s.tabCounter + 1, page));
    IdsOfRemoved(s.tabs + [Tab(s.tabCounter + 1, page)], s.tabCounter + 1);
  }

  /** The new page is there to stay: nothing had to be loaded, or it was. */
  predicate Loads(call: Event)
    requires call.TabNewCall?
  {
    call.newPage.Some? && (call.hasUrl ==> Within(call.timeout, 60_000) && call.gotoOk)
  }

  /** The new page is not loaded, for its timeout, and cannot be closed either. */
  predicate Stuck(call: Event)
    requires call.TabNewCall?
  {
    call.newPage.Some? && call.hasUrl && !Within(call.timeout, 60_000) && !call.closeOk
  }

  function TabNewResult(call: Event): Result
    requires call.TabNewCall?
  {
    if Loads(call) && call.titleOk then Ok
    else if call.newPage.Some? && call.hasUrl && !Within(call.timeout, 60_000) && call.closeOk then Err(Validation)
    else Err(Playwright)
  }

  /** A tab that loads becomes current under the next id. One that does not leaves tabs and
      current tab as they were, except that a stuck page remains open beside them. Snapshots
      stay in any case. */
  ghost predicate Opened(s: State, call: Event, e: Effect)
    requires call.TabNewCall?
  {
    var id := s.tabCounter + 1;
    && e.state.current == (if Loads(call) then Some(id) else s.current)
    && Ids(e.state.tabs) == Ids(s.tabs) + (if Loads(call) || Stuck(call) then {id} else {})
    && e.result == TabNewResult(call)
    && e.state.snapshots == s.snapshots
  }

  lemma TabNewCases(s: State, call: Event)
    requires call.TabNewCall? && call.newPage.Some?
    ensures var e, withTab := Step(s, call), OpenTab(s, call.newPage.value);
            && e.result == TabNewResult(call)
            && e.state == if Loads(call) then withTab.(current := Some(s.tabCounter + 1))
                          else if Stuck(call) then withTab else Discard(withTab, s.tabCounter + 1)
  {
  }

  /** The open tabs in the three cases. */
  lemma TabsAfter(s: State, page: Page, loads: bool, stuck: bool, s': State)
    requires Ids(OpenTab(s, page).tabs) == Ids(s.tabs) + {s.tabCounter + 1}
    requires Ids(Discard(OpenTab(s, page), s.tabCounter + 1).tabs) == Ids(s.tabs)
    requires s' == if loads then OpenTab(s, page).(current := Some(s.tabCounter + 1))
                   else if stuck then OpenTab(s, page) else Discard(OpenTab(s, page), s.tabCounter + 1)
    ensures s'.current == (if loads then Some(s.tabCounter + 1) else s.current) && s'.snapshots == s.snapshots
    ensures Ids(s'.tabs) == Ids(s.tabs) + if loads || stuck then {s.tabCounter + 1} else {}
  {
  }

  lemma TabNewEffects(s: State, call: Event)
    requires Inv(s) && call.TabNewCall?
    ensures Opened(s, call, Step(s, call))
  {
    if call.newPage.Some? {
      TabNewCases(s, call);
      AppendedAndRemoved(s, call.newPage.value);
      TabsAfter(s, call.newPage.value, Loads(call), Stuck(call), Step(s, call).state);
    } else {
      assert Step(s, call) == Effect(s, Err(Playwright), false);
    }
  }

  /** Exactly the target and its snapshot go. Closing the current tab makes the newest tab
      that is left current, or none; a failure changes nothing. */
  ghost predicate Closed(s: State, call: Event, e: Effect)
    requires call.TabCloseCall?
  {
    var target := if call.tabId.Some? then call.tabId else s.current;
    && e.result == (if target.None? || target.value !in Ids(s.tabs) then Err(NotFound)
                    else if call.closeOk then Ok else Err(Playwright))
    && (e.result.Ok? ==>
          && Ids(e.state.tabs) == Ids(s.tabs) - {target.value}
          && e.state.snapshots == s.snapshots - {target.value}
          && if target == s.current then IsNewest(e.state.current, e.state.tabs) else e.state.current == s.current)
    && (e.result.Err? ==> e.state == s)
  }

  lemma TabCloseEffects(s: State, call: Event)
    requires Inv(s) && call.TabCloseCall?
    ensures Closed(s, call, Step(s, call))
  {
    var target := if call.tabId.Some? then call.tabId else s.current;
    if target.Some? {
      var left := RemoveTab(s.tabs, target.value);
      assert Ids(left) == Ids(s.tabs) - {target.value} by {
        IdsOfRemoved(s.tabs, target.value);
      }
      assert IsNewest(LastId(left), left) by {
        NewestLeft(s.tabs, target.value);
      }
    }
  }

  /** What a read gives, in terms of the full log of the current tab: it is a read of the last
      200 messages, and without a level filter one of the whole log, as far as it is kept. */
  ghost predicate ReadFrom(log: seq<Entry>, options: ConsoleOptions, entries: seq<Entry>, total: nat) {
    && (exists ps :: IsRead(Last(200, log), options, entries, total, ps))
    && (options.levels.None? ==> (entries == Newest(Asked(options), log) <==> KeepsLimit(Asked(options), total)))
  }

  lemma ReadEffects(s: State, log: seq<Entry>, options: ConsoleOptions)
    requires CurrentBuffer(s) == Last(CONSOLE_BUFFER_CAP, log)
    ensures var (entries, total) := ReadConsole(s, options); ReadFrom(log, options, entries, total)
  {
    var ps := LimitIsKeptIff(s, options);
    var (entries, total) := ReadConsole(s, options);
    assert IsRead(Last(200, log), options, entries, total, ps);
    if options.levels.None? {
      LastOfLast(log, if Asked(options) < 0 then 0 else Asked(options), CONSOLE_BUFFER_CAP);
    }
  }

  /** What the message adds to the log of its tab. */
  function Signal(messageType: string, text: string, url: string, line: int): seq<Entry> {
    var level := LevelOf(messageType);
    if level.Some? then [Entry(level.value, text, url, line)] else []
  }

  /** The tab's buffer is the newest part of its log with the entries added; no other
      changes. */
  ghost predicate Logged(logs: map<TabId, seq<Entry>>, logs': map<TabId, seq<Entry>>, tab: TabId, log: seq<Entry>,
                         added: seq<Entry>)
  {
    && logs'.Keys == logs.Keys
    && (forall t | t in logs' && t != tab :: logs'[t] == logs[t])
    && (tab in logs' ==> logs'[tab] == Last(CONSOLE_BUFFER_CAP, log + added))
  }

  // --- At the end of a run ---

  lemma TraceInv(events: seq<Event>, states: seq<State>)
    requires IsTrace(events, states)
    ensures Inv(states[|events|])
  {
    TraceIsRun(events, states);
    InitialInv();
    RunKeepsInv(INITIAL, events);
  }

  lemma SnapshotPromise(events: seq<Event>, states: seq<State>, call: Event)
    requires IsTrace(events, states) && call.SnapshotCall?
    ensures SnapshotStored(states[|events|], call, Step(states[|events|], call))
  {
    TraceInv(events, states);
    SnapshotEffects(states[|events|], call);
  }

  lemma NavigatePromise(events: seq<Event>, states: seq<State>, call: Event)
    requires IsTrace(events, states) && call.NavigateCall?
    ensures Navigated(states[|events|], call, Step(states[|events|], call))
  {
    TraceInv(events, states);
    NavigateEffects(states[|events|], call);
  }

  lemma RefPromise(events: seq<Event>, states: seq<State>, call: Event)
    requires IsTrace(events, states) && call.RefCall?
    ensures ActedOnRef(states[|events|], call, Step(states[|events|], call))
  {
    TraceInv(events, states);
    RefEffects(states[|events|], call);
  }

  lemma FormPromise(events: seq<Event>, states: seq<State>, call: Event)
    requires IsTrace(events, states) && call.FillFormCall?
    ensures Filled(states[|events|], call, Step(states[|events|], call))
  {
    TraceInv(events, states);
    FormEffects(states[|events|], call);
  }

  /** The next id is one no tab had before. */
  lemma TabNewPromise(events: seq<Event>, states: seq<State>, call: Event)
    requires IsTrace(events, states) && call.TabNewCall?
    ensures states[|events|].tabCounter + 1 !in UsedIds(events)
    ensures Opened(states[|events|], call, Step(states[|events|], call))
  {
    NextIdIsNew(events, states);
    TraceInv(events, states);
    TabNewEffects(states[|events|], call);
  }

  lemma NextIdIsNew(events: seq<Event>, states: seq<State>)
    requires IsTrace(events, states)
    ensures forall id | id in UsedIds(events) :: id <= states[|events|].tabCounter
  {
    TraceIsRun(events, states);
    UsedIdsBelowCounter(events);
  }

  lemma TabClosePromise(events: seq<Event>, states: seq<State>, call: Event)
    requires IsTrace(events, states) && call.TabCloseCall?
    ensures Closed(states[|events|], call, Step(states[|events|], call))
  {
    TraceInv(events, states);
    TabCloseEffects(states[|events|], call);
  }

  /** A read gives the newest matching messages of the current tab's log. */
  lemma ConsolePromise(events: seq<Event>, states: seq<State>, options: ConsoleOptions)
    requires IsTrace(events, states)
    ensures var s := states[|events|];
            var (entries, total) := ReadConsole(s, options);
            && (s.current.Some? ==> ReadFrom(Heard(INITIAL, events, s.current.value), options, entries, total))
            && (s.current.None? ==> entries == [] && total == 0)
  {
    var s := states[|events|];
    if s.current.Some? {
      TraceInv(events, states);
      TraceIsRun(events, states);
      BufferIsTailOfLog(events, s.current.value);
      ReadEffects(s, Heard(INITIAL, events, s.current.value), options);
    }
  }

  /** A message that carries signal joins the log of its tab, which keeps the newest 200, and
      no other tab hears it. */
  lemma MessagePromise(events: seq<Event>, states: seq<State>, page: Page, tab: TabId, messageType: string,
                       text: string, url: string, line: int)
    requires IsTrace(events, states) && (page, tab) in states[|events|].listeners
    ensures var s := states[|events|];
            Logged(s.logs, DoMessage(s, page, tab, messageType, text, url, line).logs, tab, Heard(INITIAL, events, tab),
                   Signal(messageType, text, url, line))
  {
    var s, level := states[|events|], LevelOf(messageType);
    LevelIsTheTable(messageType);
    if tab in s.logs {
      var log := Heard(INITIAL, events, tab);
      TraceIsRun(events, states);
      BufferIsTailOfLog(events, tab);
      assert log + [] == log;
      if level.Some? {
        PushKeepsTail(log, Entry(level.value, text, url, line));
      }
    }
  }
}
