/**
 What holds over every run of the driver: tabs, the current tab, snapshots and refs.
 A run is any sequence of calls and console events, with any Playwright call failing.
 */
module DriverRuns {
  import opened Wrappers
  import opened Decimal
  import opened DriverModel

  // --- Names determine what they name ---

  /** Numerals joined by a dash can be told apart. */
  lemma DashedNumerals(a: nat, b: nat, c: nat, d: nat)
    requires Numeral(a) + "-" + Numeral(b) == Numeral(c) + "-" + Numeral(d)
    ensures a == c && b == d
  {
    var t := Numeral(a) + "-" + Numeral(b);
    assert forall i | 0 <= i < |Numeral(a)| :: t[i] == Numeral(a)[i];
    assert forall i | 0 <= i < |Numeral(c)| :: t[i] == Numeral(c)[i];
    assert t[|Numeral(a)|] == '-' && t[|Numeral(c)|] == '-';
    assert |Numeral(a)| == |Numeral(c)|;
    assert Numeral(a) == t[..|Numeral(a)|] == Numeral(c);
    assert Numeral(b) == t[|Numeral(a)| + 1..] == Numeral(d);
    NumeralInjective(a, c);
    NumeralInjective(b, d);
  }

  /** A snapshot id names one tab and one counter value. */
  lemma SnapshotIdInjective(m: TabId, j: nat, n: TabId, k: nat)
    requires SnapshotId(m, j) == SnapshotId(n, k)
    ensures m == n && j == k
  {
    assert SnapshotId(m, j)[9..] == Numeral(m) + "-" + Numeral(j);
    assert SnapshotId(n, k)[9..] == Numeral(n) + "-" + Numeral(k);
    DashedNumerals(m, j, n, k);
  }

  // --- Runs with the states they go through ---

  /** The states a run from the start goes through. */
  ghost predicate IsTrace(events: seq<Event>, states: seq<State>) {
    && |states| == |events| + 1 && states[0] == INITIAL
    && forall i {:trigger events[i]} | 0 <= i < |events| :: states[i + 1] == Step(states[i], events[i]).state
  }

  lemma TraceSnoc(events: seq<Event>, states: seq<State>, e: Event)
    requires IsTrace(events, states)
    ensures IsTrace(events + [e], states + [Step(states[|events|], e).state])
  {
  }

  /** A trace ends where the run ends. */
  lemma {:induction false} TraceIsRun(events: seq<Event>, states: seq<State>)
    requires IsTrace(events, states)
    ensures states[|events|] == Run(INITIAL, events)
  {
    if events != [] {
      var n := |events| - 1;
      assert forall i | 0 <= i < n :: events[..n][i] == events[i];
      assert IsTrace(events[..n], states[..n + 1]);
      TraceIsRun(events[..n], states[..n + 1]);
      assert states[n + 1] == Step(states[n], events[n]).state;
    }
  }

  // --- The invariant ---

  ghost predicate Inv(s: State) {
    && (forall i | 0 <= i < |s.tabs| :: s.tabs[i].id <= s.tabCounter)
    && Ascending(s.tabs)
    && (s.current.Some? ==> s.current.value in Ids(s.tabs))
    && s.snapshots.Keys <= Ids(s.tabs)
    && s.logs.Keys == Ids(s.tabs)
    && (forall id | id in s.logs :: |s.logs[id]| <= CONSOLE_BUFFER_CAP)
    && (forall l | l in s.listeners :: l.1 <= s.tabCounter)
  }

  lemma OpenTabKeepsInv(s: State, page: Page)
    requires Inv(s)
    ensures Inv(OpenTab(s, page))
    ensures s.tabCounter + 1 in Ids(OpenTab(s, page).tabs)
  {
    var s', id := OpenTab(s, page), s.tabCounter + 1;
    IdsOfAppended(s.tabs, Tab(id, page));
    assert s'.logs.Keys == s.logs.Keys + {id};
  }

  lemma IdsOfAppended(tabs: seq<Tab>, tab: Tab)
    ensures Ids(tabs + [tab]) == Ids(tabs) + {tab.id}
  {
    assert forall t :: t in tabs + [tab] <==> t in tabs || t == tab;
  }

  /** Tabs stand in the order of their ids. */
  ghost predicate Ascending(tabs: seq<Tab>) {
    forall i, j | 0 <= i < j < |tabs| :: tabs[i].id < tabs[j].id
  }

  lemma {:induction false} RemoveKeepsOrder(tabs: seq<Tab>, id: TabId)
    requires Ascending(tabs)
    ensures Ascending(RemoveTab(tabs, id))
  {
    if tabs != [] {
      assert forall i | 0 <= i < |tabs[1..]| :: tabs[1..][i] == tabs[i + 1];
      RemoveKeepsOrder(tabs[1..], id);
      var rest := RemoveTab(tabs[1..], id);
      forall t | t in rest
        ensures tabs[0].id < t.id
      {
        assert t in tabs[1..];
      }
      assert Ascending([tabs[0]] + rest);
    }
  }

  lemma IdsOfRemoved(tabs: seq<Tab>, id: TabId)
    ensures Ids(RemoveTab(tabs, id)) == Ids(tabs) - {id}
  {
  }

  lemma CloseKeepsInv(s: State, id: TabId, current: Option<TabId>)
    requires Inv(s)
    requires current.Some? ==> current.value in Ids(s.tabs) && current.value != id
    ensures Inv(Invalidate(Discard(s, id), id).(current := current))
  {
    RemoveKeepsOrder(s.tabs, id);
    IdsOfRemoved(s.tabs, id);
    var s' := Invalidate(Discard(s, id), id).(current := current);
    assert s'.logs.Keys == s.logs.Keys - {id};
    assert s'.snapshots.Keys == s.snapshots.Keys - {id};
    forall i | 0 <= i < |s'.tabs|
      ensures s'.tabs[i].id <= s'.tabCounter
    {
      assert s'.tabs[i] in s.tabs;
    }
  }

  lemma EnsurePageKeepsInv(s: State, newPage: Option<Page>)
    requires Inv(s)
    ensures var r := EnsurePage(s, newPage); r.Some? ==> Inv(r.value) && r.value.current.Some?
  {
    if s.current.None? && newPage.Some? {
      OpenTabKeepsInv(s, newPage.value);
    }
  }

  lemma StoreKeepsInv(s: State, id: TabId, refs: map<string, RefInfo>)
    requires Inv(s) && id in Ids(s.tabs)
    ensures Inv(StoreSnapshot(s, id, refs))
  {
  }

  lemma InvalidateKeepsInv(s: State, id: TabId)
    requires Inv(s)
    ensures Inv(Invalidate(s, id))
  {
  }

  lemma DiscardKeepsInv(s: State, id: TabId)
    requires Inv(s) && s.current != Some(id) && id !in s.snapshots
    ensures Inv(Discard(s, id))
  {
    CloseKeepsInv(s, id, s.current);
    assert s.snapshots - {id} == s.snapshots;
    assert Invalidate(Discard(s, id), id).(current := s.current) == Discard(s, id);
  }

  lemma IdsBelowCounter(s: State)
    requires Inv(s)
    ensures forall id | id in Ids(s.tabs) :: id <= s.tabCounter
  {
  }

  lemma TabNewEffect(s: State, e: Event)
    requires e.TabNewCall?
    ensures var s' := Step(s, e).state;
            || s' == s
            || (e.newPage.Some?
                && var withTab := OpenTab(s, e.newPage.value);
                s' in {withTab, Discard(withTab, s.tabCounter + 1), withTab.(current := Some(s.tabCounter + 1))})
  {
  }

  lemma TabNewKeepsInv(s: State, e: Event)
    requires Inv(s) && e.TabNewCall?
    ensures Inv(Step(s, e).state)
  {
    TabNewEffect(s, e);
    if e.newPage.Some? {
      OpenTabKeepsInv(s, e.newPage.value);
      IdsBelowCounter(s);
      DiscardKeepsInv(OpenTab(s, e.newPage.value), s.tabCounter + 1);
    }
  }

  /** The tab a close call is about. */
  function CloseTarget(s: State, e: Event): Option<TabId>
    requires e.TabCloseCall?
  {
    if e.tabId.Some? then e.tabId else s.current
  }

  lemma TabCloseEffect(s: State, e: Event)
    requires e.TabCloseCall?
    ensures var s', t := Step(s, e).state, CloseTarget(s, e);
            || s' == s
            || (t.Some? && t.value in Ids(s.tabs)
                && s' == Invalidate(Discard(s, t.value), t.value).(current :=
                           if s.current == t then LastId(RemoveTab(s.tabs, t.value)) else s.current))
  {
  }

  lemma LastIdIsOpen(tabs: seq<Tab>)
    ensures LastId(tabs).Some? ==> LastId(tabs).value in Ids(tabs)
  {
    assert tabs != [] ==> tabs[|tabs| - 1] in tabs;
  }

  lemma TabCloseKeepsInv(s: State, e: Event)
    requires Inv(s) && e.TabCloseCall?
    ensures Inv(Step(s, e).state)
  {
    TabCloseEffect(s, e);
    var t := CloseTarget(s, e);
    if t.Some? && t.value in Ids(s.tabs) {
      LastIdIsOpen(RemoveTab(s.tabs, t.value));
      IdsOfRemoved(s.tabs, t.value);
      CloseKeepsInv(s, t.value, if s.current == t then LastId(RemoveTab(s.tabs, t.value)) else s.current);
    }
  }

  lemma MessageKeepsInv(s: State, e: Event)
    requires Inv(s) && (e.ConsoleEvent? || e.ConsoleCall?)
    ensures Inv(Step(s, e).state)
  {
    assert Step(s, e).state.logs.Keys == s.logs.Keys;
  }

  /** Calls that start with `ensurePage`. */
  function NeedsPage(e: Event): Option<Option<Page>> {
    match e
    case SnapshotCall(newPage, _, _) => Some(newPage)
    case NavigateCall(newPage, _, _) => Some(newPage)
    case RefCall(newPage, _, _, _, _, _) => Some(newPage)
    case FillFormCall(newPage, _, _, _, _) => Some(newPage)
    case PageCall(newPage, _) => Some(newPage)
    case _ => None
  }

  /** After `ensurePage` such a call changes at most the current tab's snapshot. */
  lemma PageCallEffect(s: State, e: Event)
    requires NeedsPage(e).Some?
    ensures var r, s' := EnsurePage(s, NeedsPage(e).value), Step(s, e).state;
            if r.None? then s' == s
            else
              || s' == r.value
              || (r.value.current.Some? && s' == Invalidate(r.value, r.value.current.value))
              || (r.value.current.Some? && e.SnapshotCall? && e.aria.Yaml?
                  && s' == StoreSnapshot(r.value, r.value.current.value, e.aria.refs))
  {
  }

  lemma PageCallKeepsInv(s: State, e: Event)
    requires Inv(s) && NeedsPage(e).Some?
    ensures Inv(Step(s, e).state)
  {
    PageCallEffect(s, e);
    EnsurePageKeepsInv(s, NeedsPage(e).value);
    var r := EnsurePage(s, NeedsPage(e).value);
    if r.Some? {
      InvalidateKeepsInv(r.value, r.value.current.value);
      if e.SnapshotCall? && e.aria.Yaml? {
        StoreKeepsInv(r.value, r.value.current.value, e.aria.refs);
      }
    }
  }

  lemma OtherKeepsInv(s: State, e: Event)
    requires Inv(s) && (e.TabFocusCall? || e.DisposeCall?)
    ensures Inv(Step(s, e).state)
  {
  }

  lemma StepKeepsInv(s: State, e: Event)
    requires Inv(s)
    ensures Inv(Step(s, e).state)
  {
    if NeedsPage(e).Some? {
      PageCallKeepsInv(s, e);
    } else {
      match e {
        case TabNewCall(_, _, _, _, _, _) => TabNewKeepsInv(s, e);
        case TabCloseCall(_, _) => TabCloseKeepsInv(s, e);
        case ConsoleCall(_) => MessageKeepsInv(s, e);
        case ConsoleEvent(_, _, _, _, _, _) => MessageKeepsInv(s, e);
        case _ => OtherKeepsInv(s, e);
      }
    }
  }

  /** Every reachable state satisfies the invariant. */
  lemma {:induction false} RunKeepsInv(s: State, events: seq<Event>)
    requires Inv(s)
    ensures Inv(Run(s, events))
  {
    if events != [] {
      RunKeepsInv(s, events[..|events| - 1]);
      StepKeepsInv(Run(s, events[..|events| - 1]), events[|events| - 1]);
    }
  }

  lemma InitialInv()
    ensures Inv(INITIAL)
  {
  }

  lemma LastIsNewest(tabs: seq<Tab>)
    requires Ascending(tabs) && tabs != []
    ensures LastId(tabs).value in Ids(tabs)
    ensures forall id | id in Ids(tabs) :: id <= LastId(tabs).value
  {
    LastIdIsOpen(tabs);
    forall t | t in tabs
      ensures t.id <= tabs[|tabs| - 1].id
    {
      var i :| 0 <= i < |tabs| && tabs[i] == t;
    }
  }

  /** `id` is the most recently opened tab, or there is none. */
  ghost predicate IsNewest(id: Option<TabId>, tabs: seq<Tab>) {
    match id
    case None => Ids(tabs) == {}
    case Some(n) => n in Ids(tabs) && forall m | m in Ids(tabs) :: m <= n
  }

  /** Closing the current tab makes the most recently opened tab that is left current. */
  lemma CloseFallsBackToNewest(s: State, closeOk: bool)
    requires Inv(s) && s.current.Some?
    requires Step(s, TabCloseCall(s.current, closeOk)).result.Ok?
    ensures var s' := Step(s, TabCloseCall(s.current, closeOk)).state;
            Ids(s'.tabs) == Ids(s.tabs) - {s.current.value} && IsNewest(s'.current, s'.tabs)
  {
    CloseLeaves(s, closeOk);
    IdsOfRemoved(s.tabs, s.current.value);
    NewestLeft(s.tabs, s.current.value);
  }

  lemma CloseLeaves(s: State, closeOk: bool)
    requires s.current.Some? && Step(s, TabCloseCall(s.current, closeOk)).result.Ok?
    ensures var s', left := Step(s, TabCloseCall(s.current, closeOk)).state, RemoveTab(s.tabs, s.current.value);
            s'.tabs == left && s'.current == LastId(left)
  {
  }

  lemma NewestLeft(tabs: seq<Tab>, id: TabId)
    requires Ascending(tabs)
    ensures IsNewest(LastId(RemoveTab(tabs, id)), RemoveTab(tabs, id))
  {
    RemoveKeepsOrder(tabs, id);
    if RemoveTab(tabs, id) != [] {
      LastIsNewest(RemoveTab(tabs, id));
    }
  }

  /** What one step can do to the set of open tabs. */
  lemma StepOpensOnlyNew(s: State, e: Event)
    requires Inv(s)
    ensures var s' := Step(s, e).state;
            && s.tabCounter <= s'.tabCounter <= s.tabCounter + 1
            && forall id | id in Ids(s'.tabs) :: id in Ids(s.tabs) || s.tabCounter < id <= s'.tabCounter
  {
    if NeedsPage(e).Some? {
      PageCallEffect(s, e);
      if s.current.None? && NeedsPage(e).value.Some? {
        IdsOfAppended(s.tabs, Tab(s.tabCounter + 1, NeedsPage(e).value.value));
      }
    } else if e.TabNewCall? {
      TabNewEffect(s, e);
      if e.newPage.Some? {
        IdsOfAppended(s.tabs, Tab(s.tabCounter + 1, e.newPage.value));
        IdsOfRemoved(OpenTab(s, e.newPage.value).tabs, s.tabCounter + 1);
      }
    } else if e.TabCloseCall? {
      TabCloseEffect(s, e);
    }
  }

  /** The ids of all tabs that were open at some time of a run. */
  function UsedIds(events: seq<Event>): set<TabId> {
    (if events == [] then {} else UsedIds(events[..|events| - 1])) + Ids(Run(INITIAL, events).tabs)
  }

  /** They are at most the counter, so that the next id is a new one. */
  lemma {:induction false} UsedIdsBelowCounter(events: seq<Event>)
    ensures forall id | id in UsedIds(events) :: id <= Run(INITIAL, events).tabCounter
  {
    InitialInv();
    RunKeepsInv(INITIAL, events);
    IdsBelowCounter(Run(INITIAL, events));
    if events != [] {
      var before := events[..|events| - 1];
      UsedIdsBelowCounter(before);
      RunKeepsInv(INITIAL, before);
      StepOpensOnlyNew(Run(INITIAL, before), events[|events| - 1]);
    }
  }

  /** A tab id that is not open, whatever closed it, is never open again. */
  lemma {:induction false} ClosedIdsNeverReturn(s: State, events: seq<Event>, id: TabId)
    requires Inv(s) && id <= s.tabCounter && id !in Ids(s.tabs)
    ensures id !in Ids(Run(s, events).tabs) && s.tabCounter <= Run(s, events).tabCounter
  {
    if events != [] {
      var before := events[..|events| - 1];
      ClosedIdsNeverReturn(s, before, id);
      RunKeepsInv(s, before);
      StepOpensOnlyNew(Run(s, before), events[|events| - 1]);
    }
  }

  // --- Snapshots ---

  /** The calls that may change the snapshot of the tab they act on. */
  predicate TouchesSnapshot(e: Event) {
    e.SnapshotCall? || e.NavigateCall? || e.FillFormCall? || (e.RefCall? && Invalidates(e.kind))
  }

  /** The step may change what is stored for tab `t`. */
  predicate MayTouch(s: State, e: Event, t: TabId) {
    || e.DisposeCall?
    || (e.TabCloseCall? && CloseTarget(s, e) == Some(t))
    || (TouchesSnapshot(e) && s.current == Some(t))
  }

  /** What is stored for `t` is the same in both states. */
  ghost predicate SameSnapshot(s: State, s': State, t: TabId) {
    (t in s.snapshots <==> t in s'.snapshots) && (t in s.snapshots ==> s.snapshots[t] == s'.snapshots[t])
  }

  lemma PageCallWithoutTouch(s: State, e: Event)
    requires NeedsPage(e).Some? && !TouchesSnapshot(e)
    ensures var r := EnsurePage(s, NeedsPage(e).value); Step(s, e).state == r.UnwrapOr(s)
  {
  }

  /** A page that is opened for a call leaves the open tabs alone. */
  lemma EnsurePageKeepsTab(s: State, newPage: Option<Page>, t: TabId)
    requires Inv(s) && t in Ids(s.tabs)
    ensures var r := EnsurePage(s, newPage);
            r.Some? ==> t in Ids(r.value.tabs) && r.value.snapshots == s.snapshots
                        && (r.value.current == Some(t) ==> s.current == Some(t))
  {
    IdsBelowCounter(s);
    if s.current.None? && newPage.Some? {
      IdsOfAppended(s.tabs, Tab(s.tabCounter + 1, newPage.value));
    }
  }

  lemma UntouchedByPageCall(s: State, e: Event, t: TabId)
    requires Inv(s) && t in Ids(s.tabs) && NeedsPage(e).Some? && !(TouchesSnapshot(e) && s.current == Some(t))
    ensures var s' := Step(s, e).state; t in Ids(s'.tabs) && SameSnapshot(s, s', t)
  {
    EnsurePageKeepsTab(s, NeedsPage(e).value, t);
    PageCallEffect(s, e);
    if !TouchesSnapshot(e) {
      PageCallWithoutTouch(s, e);
    }
  }

  lemma UntouchedByTabCall(s: State, e: Event, t: TabId)
    requires Inv(s) && t in Ids(s.tabs) && (e.TabNewCall? || (e.TabCloseCall? && CloseTarget(s, e) != Some(t)))
    ensures var s' := Step(s, e).state; t in Ids(s'.tabs) && SameSnapshot(s, s', t)
  {
    IdsBelowCounter(s);
    if e.TabNewCall? {
      TabNewEffect(s, e);
      if e.newPage.Some? {
        IdsOfAppended(s.tabs, Tab(s.tabCounter + 1, e.newPage.value));
        IdsOfRemoved(OpenTab(s, e.newPage.value).tabs, s.tabCounter + 1);
      }
    } else {
      TabCloseEffect(s, e);
      if CloseTarget(s, e).Some? {
        IdsOfRemoved(s.tabs, CloseTarget(s, e).value);
      }
    }
  }

  lemma UntouchedSnapshot(s: State, e: Event, t: TabId)
    requires Inv(s) && t in Ids(s.tabs) && !MayTouch(s, e, t)
    ensures var s' := Step(s, e).state; t in Ids(s'.tabs) && SameSnapshot(s, s', t)
  {
    if NeedsPage(e).Some? {
      UntouchedByPageCall(s, e, t);
    } else if e.TabNewCall? || e.TabCloseCall? {
      UntouchedByTabCall(s, e, t);
    }
  }

  /** No step of the run may change what is stored for `t`. */
  ghost predicate Quiet(s: State, events: seq<Event>, t: TabId) {
    forall i | 0 <= i < |events| :: !MayTouch(Run(s, events[..i]), events[i], t)
  }

  lemma QuietPrefix(s: State, events: seq<Event>, t: TabId)
    requires events != [] && Quiet(s, events, t)
    ensures Quiet(s, events[..|events| - 1], t)
    ensures !MayTouch(Run(s, events[..|events| - 1]), events[|events| - 1], t)
  {
    var before := events[..|events| - 1];
    forall i | 0 <= i < |before|
      ensures !MayTouch(Run(s, before[..i]), before[i], t)
    {
      assert before[..i] == events[..i];
    }
  }

  /** Whatever happens in other tabs, a tab's snapshot stays. */
  lemma {:induction false} SnapshotSurvives(s: State, events: seq<Event>, t: TabId)
    requires Inv(s) && t in Ids(s.tabs) && Quiet(s, events, t)
    ensures var s' := Run(s, events); t in Ids(s'.tabs) && SameSnapshot(s, s', t)
  {
    if events != [] {
      var before := events[..|events| - 1];
      QuietPrefix(s, events, t);
      SnapshotSurvives(s, before, t);
      RunKeepsInv(s, before);
      UntouchedSnapshot(Run(s, before), events[|events| - 1], t);
    }
  }

  /** After focusing the tab again, its snapshot id and every ref in it are accepted. */
  lemma RefocusRestoresRefs(s: State, events: seq<Event>, t: TabId, titleOk: bool)
    requires Inv(s) && t in s.snapshots && Quiet(s, events, t)
    ensures var s' := Step(Run(s, events), TabFocusCall(t, true, titleOk)).state;
            && s'.current == Some(t)
            && !IsStale(s', Some(SnapshotId(t, s.snapshots[t].counter)))
            && forall ref | ref in s.snapshots[t].refs :: HasLocator(s', ref)
  {
    SnapshotSurvives(s, events, t);
  }

  // --- Stale refs ---

  /** A snapshot call that stores a snapshot for `t`. */
  predicate StoresFor(s: State, e: Event, t: TabId) {
    && e.SnapshotCall? && e.aria.Yaml?
    && EnsurePage(s, e.newPage).Some? && EnsurePage(s, e.newPage).value.current == Some(t)
  }

  lemma OnlyStoringAdds(s: State, e: Event, t: TabId)
    requires t !in s.snapshots && !StoresFor(s, e, t)
    ensures t !in Step(s, e).state.snapshots
  {
    if NeedsPage(e).Some? {
      PageCallEffect(s, e);
    } else if e.TabNewCall? {
      TabNewEffect(s, e);
    } else if e.TabCloseCall? {
      TabCloseEffect(s, e);
    }
  }

  /** No step of the run stores a snapshot for `t`. */
  ghost predicate NoSnapshotFor(s: State, events: seq<Event>, t: TabId) {
    forall i | 0 <= i < |events| :: !StoresFor(Run(s, events[..i]), events[i], t)
  }

  lemma {:induction false} StaysWithoutSnapshot(s: State, events: seq<Event>, t: TabId)
    requires t !in s.snapshots && NoSnapshotFor(s, events, t)
    ensures t !in Run(s, events).snapshots
  {
    if events != [] {
      var before := events[..|events| - 1];
      forall i | 0 <= i < |before|
        ensures !StoresFor(Run(s, before[..i]), before[i], t)
      {
        assert before[..i] == events[..i];
      }
      StaysWithoutSnapshot(s, before, t);
      OnlyStoringAdds(Run(s, before), events[|events| - 1], t);
    }
  }

  /** The calls after which the refs of the current tab are no longer valid: a successful
      click, type, select or form fill, or a navigation that passed validation. */
  predicate EndsSnapshot(s: State, e: Event) {
    || (TouchesSnapshot(e) && (e.RefCall? || e.FillFormCall?) && Step(s, e).result.Ok?)
    || (e.NavigateCall? && TimeoutOk(e.timeout, NAVIGATE_DEFAULT_MS, NAVIGATE_MAX_MS))
  }

  lemma EndedSnapshot(s: State, e: Event)
    requires Inv(s) && s.current.Some? && EndsSnapshot(s, e)
    ensures s.current.value !in Step(s, e).state.snapshots
  {
  }

  /** Calls that name refs. */
  predicate NamesRefs(e: Event) {
    e.RefCall? || (e.FillFormCall? && e.refs != [])
  }

  lemma WithoutSnapshotNothingActs(s: State, e: Event)
    requires NamesRefs(e) && s.current.Some? && s.current.value !in s.snapshots
    ensures Step(s, e).result.Err? && !Step(s, e).acted
  {
    assert forall ref :: !HasLocator(s, ref);
    if e.FillFormCall? {
      assert !HasLocator(s, e.refs[0]);
    }
  }

  /** Once a call has ended a tab's snapshot, every later call on that tab that names a ref
      fails without touching the page, until a new snapshot of the tab is stored. */
  lemma RefsEndWithTheirSnapshot(s: State, e: Event, events: seq<Event>, later: Event)
    requires Inv(s) && s.current.Some? && EndsSnapshot(s, e)
    requires NoSnapshotFor(Step(s, e).state, events, s.current.value)
    requires NamesRefs(later) && Run(Step(s, e).state, events).current == s.current
    ensures var r := Step(Run(Step(s, e).state, events), later); r.result.Err? && !r.acted
  {
    EndedSnapshot(s, e);
    StaysWithoutSnapshot(Step(s, e).state, events, s.current.value);
    WithoutSnapshotNothingActs(Run(Step(s, e).state, events), later);
  }

  // --- Snapshot ids ---

  function Counter(s: State, t: TabId): nat {
    if t in s.snapshots then s.snapshots[t].counter else 0
  }

  /** How many snapshots of `t` the run stores. */
  function Stored(s: State, events: seq<Event>, t: TabId): nat {
    if events == [] then 0
    else
      var before := events[..|events| - 1];
      Stored(s, before, t) + if StoresFor(Run(s, before), events[|events| - 1], t) then 1 else 0
  }

  /** The step removes the snapshot of `t`. */
  predicate Drops(s: State, e: Event, t: TabId) {
    t in s.snapshots && t !in Step(s, e).state.snapshots
  }

  ghost predicate NeverDropped(s: State, events: seq<Event>, t: TabId) {
    forall i | 0 <= i < |events| :: !Drops(Run(s, events[..i]), events[i], t)
  }

  lemma StepCounts(s: State, e: Event, t: TabId)
    requires Inv(s) && !Drops(s, e, t)
    ensures Counter(Step(s, e).state, t) == Counter(s, t) + if StoresFor(s, e, t) then 1 else 0
  {
    if NeedsPage(e).Some? {
      PageCallEffect(s, e);
    } else if e.TabNewCall? {
      TabNewEffect(s, e);
    } else if e.TabCloseCall? {
      TabCloseEffect(s, e);
    }
  }

  /** Between invalidations the counter is the number of snapshots stored. */
  lemma {:induction false} CounterCountsSnapshots(s: State, events: seq<Event>, t: TabId)
    requires Inv(s) && NeverDropped(s, events, t)
    ensures Counter(Run(s, events), t) == Counter(s, t) + Stored(s, events, t)
  {
    if events != [] {
      var before := events[..|events| - 1];
      forall i | 0 <= i < |before|
        ensures !Drops(Run(s, before[..i]), before[i], t)
      {
        assert before[..i] == events[..i];
      }
      CounterCountsSnapshots(s, before, t);
      RunKeepsInv(s, before);
      StepCounts(Run(s, before), events[|events| - 1], t);
    }
  }

  /** An id is accepted in a tab exactly when it is the one of the stored snapshot; an id
      of another tab never is. */
  lemma IdAcceptedIff(s: State, t: TabId, k: nat)
    requires s.current.Some?
    ensures !IsStale(s, Some(SnapshotId(t, k))) <==>
            t in s.snapshots && s.current == Some(t) && s.snapshots[t].counter == k
  {
    if s.current.value in s.snapshots
       && SnapshotId(s.current.value, s.snapshots[s.current.value].counter) == SnapshotId(t, k)
    {
      SnapshotIdInjective(s.current.value, s.snapshots[s.current.value].counter, t, k);
    }
  }

  /** Without an invalidation in between, an id handed out for `t` is accepted later exactly
      when no further snapshot of `t` was stored. */
  lemma EarlierIdAcceptedIff(s: State, events: seq<Event>, t: TabId)
    requires Inv(s) && t in s.snapshots && NeverDropped(s, events, t)
    requires Run(s, events).current == Some(t)
    ensures !IsStale(Run(s, events), Some(SnapshotId(t, s.snapshots[t].counter))) <==> Stored(s, events, t) == 0
  {
    CounterCountsSnapshots(s, events, t);
    NeverDroppedStays(s, events, t);
    IdAcceptedIff(Run(s, events), t, s.snapshots[t].counter);
  }

  lemma {:induction false} NeverDroppedStays(s: State, events: seq<Event>, t: TabId)
    requires t in s.snapshots && NeverDropped(s, events, t)
    ensures t in Run(s, events).snapshots
  {
    if events != [] {
      var before := events[..|events| - 1];
      forall i | 0 <= i < |before|
        ensures !Drops(Run(s, before[..i]), before[i], t)
      {
        assert before[..i] == events[..i];
      }
      NeverDroppedStays(s, before, t);
      assert !Drops(Run(s, events[..|events| - 1]), events[|events| - 1], t);
    }
  }

  /** The counter restarts after an invalidation: the id of the `k`-th earlier snapshot is
      accepted again exactly when `k` snapshots have been stored since. */
  lemma OldIdAcceptedAgainIff(s: State, events: seq<Event>, t: TabId, k: nat)
    requires Inv(s) && t !in s.snapshots && NeverDropped(s, events, t)
    requires Run(s, events).current == Some(t) && k > 0
    ensures !IsStale(Run(s, events), Some(SnapshotId(t, k))) <==> Stored(s, events, t) == k
  {
    CounterCountsSnapshots(s, events, t);
    IdAcceptedIff(Run(s, events), t, k);
    if Stored(s, events, t) > 0 {
      StoredMeansPresent(s, events, t);
    }
  }

  lemma {:induction false} StoredMeansPresent(s: State, events: seq<Event>, t: TabId)
    requires NeverDropped(s, events, t) && Stored(s, events, t) > 0
    ensures t in Run(s, events).snapshots
  {
    var before, last := events[..|events| - 1], events[|events| - 1];
    forall i | 0 <= i < |before|
      ensures !Drops(Run(s, before[..i]), before[i], t)
    {
      assert before[..i] == events[..i];
    }
    if !StoresFor(Run(s, before), last, t) {
      StoredMeansPresent(s, before, t);
    }
    assert !Drops(Run(s, before), last, t);
  }

  /** For instance: the id of a tab's first snapshot is accepted again after a click and
      another snapshot, although the page may have changed. */
  lemma RepeatedIdIsAccepted(refs: map<string, RefInfo>, ref: string)
    requires ref in refs
    ensures var first := Step(INITIAL, SnapshotCall(Some(0), Yaml(refs, true), true)).state;
            var clicked := Step(first, RefCall(None, Click, Some(SnapshotId(1, 1)), ref, None, true));
            var second := Step(clicked.state, SnapshotCall(None, Yaml(map[], true), true)).state;
            && clicked.result.Ok? && 1 !in clicked.state.snapshots
            && !IsStale(second, Some(SnapshotId(1, 1))) && !HasLocator(second, ref)
  {
    var first := Step(INITIAL, SnapshotCall(Some(0), Yaml(refs, true), true)).state;
    assert first.tabs == [Tab(1, 0)] && first.current == Some(1) && first.snapshots == map[1 := Snapshot(refs, 1)];
    assert first.tabs[0] in first.tabs;
  }
}
