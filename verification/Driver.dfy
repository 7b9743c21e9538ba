/**
 The driver object of playwright-browser-driver.ts: its closure variables as fields and
 its methods as updates of them. A ghost history records the calls and console messages so
 far; `Valid` says that the fields are what that history leads to, so that everything proved
 about runs holds of the object. What a call promises is stated in terms of refs that are
 accepted, tabs that are open and messages that were logged.
 */
module Driver {
  import opened Wrappers
  import opened DriverModel
  import opened DriverRuns
  import opened DriverConsole
  import opened DriverPromises

  class PlaywrightDriver {
    var tabs: seq<Tab>
    var currentTabId: Option<TabId>
    var tabSnapshots: map<TabId, Snapshot>
    var tabConsoleLogs: map<TabId, seq<Entry>>
    var tabCounter: nat
    var listeners: set<(Page, TabId)>
    ghost var history: seq<Event>
    ghost var trace: seq<DriverModel.State>

    function State(): DriverModel.State
      reads this
    {
      DriverModel.State(tabs, currentTabId, tabSnapshots, tabConsoleLogs, tabCounter, listeners)
    }

    ghost predicate Valid()
      reads this
    {
      IsTrace(history, trace) && trace[|history|] == State()
    }

    /** The ref leads to a locator in the current tab. */
    predicate Accepts(ref: string)
      reads this
    {
      HasLocator(State(), ref)
    }

    constructor ()
      ensures Valid() && history == [] && tabs == []
    {
      tabs, currentTabId, tabSnapshots, tabConsoleLogs, tabCounter, listeners := [], None, map[], map[], 0, {};
      history, trace := [], [INITIAL];
    }

    /** The object is where its history leads, so that what holds of runs holds of it. */
    lemma IsReached()
      requires Valid()
      ensures State() == Run(INITIAL, history)
    {
      TraceIsRun(history, trace);
    }

    /** Registers a new page and listens to its console. */
    method AddTab(page: Page) returns (tabId: TabId)
      modifies this`tabs, this`tabConsoleLogs, this`tabCounter, this`listeners
      ensures State() == OpenTab(old(State()), page) && tabId == tabCounter == old(tabCounter) + 1
    {
      tabCounter := tabCounter + 1;
      tabId := tabCounter;
      tabs := tabs + [Tab(tabId, page)];
      tabConsoleLogs := tabConsoleLogs[tabId := []];
      listeners := listeners + {(page, tabId)};
    }

    method EnsurePage(newPage: Option<Page>) returns (ok: bool)
      modifies this`tabs, this`tabConsoleLogs, this`tabCounter, this`listeners, this`currentTabId
      ensures ok == DriverModel.EnsurePage(old(State()), newPage).Some?
      ensures State() == DriverModel.EnsurePage(old(State()), newPage).UnwrapOr(old(State()))
    {
      if currentTabId == None {
        if newPage == None {
          return false;
        }
        var tabId := AddTab(newPage.value);
        currentTabId := Some(tabId);
        assert tabs[|tabs| - 1].id == tabId;
        return true;
      }
      ok := currentTabId.value in Ids(tabs);
    }

    method InvalidateTabSnapshot(tabId: TabId)
      modifies this`tabSnapshots
      ensures tabSnapshots == old(tabSnapshots) - {tabId}
    {
      tabSnapshots := tabSnapshots - {tabId};
    }

    /** A snapshot that succeeds returns an id under which exactly its refs are accepted, and
        one that gets no text from the page leaves all snapshots as they were. */
    method Snapshot(newPage: Option<Page>, aria: Aria, titleOk: bool) returns (result: Result, snapshotId: string)
      requires Valid()
      modifies this
      ensures Valid() && history == old(history) + [SnapshotCall(newPage, aria, titleOk)]
      ensures result == Step(old(State()), SnapshotCall(newPage, aria, titleOk)).result
      ensures SnapshotStored(old(State()), SnapshotCall(newPage, aria, titleOk), Effect(State(), result, false))
      ensures result.Ok? ==> IdFits(State(), Some(snapshotId)) && forall ref :: Accepts(ref) <==> ref in aria.refs
    {
      ghost var call := SnapshotCall(newPage, aria, titleOk);
      TraceSnoc(history, trace, call);
      SnapshotPromise(history, trace, call);
      history, trace := history + [call], trace + [Step(old(State()), call).state];
      snapshotId := "";
      var ok := EnsurePage(newPage);
      if !ok || aria.Throws? {
        return Err(Playwright), "";
      }
      if currentTabId == None {
        return Err(Internal), "";
      }
      var tabId := currentTabId.value;
      if aria.Empty? {
        return Err(Internal), "";
      }
      var prevCounter := if tabId in tabSnapshots then tabSnapshots[tabId].counter else 0;
      tabSnapshots := tabSnapshots[tabId := DriverModel.Snapshot(aria.refs, prevCounter + 1)];
      snapshotId := SnapshotId(tabId, prevCounter + 1);
      result := if aria.titled || titleOk then Ok else Err(Playwright);
    }

    /** Once the timeout is found valid no ref of the page is accepted any more, whether or
        not the page loads; before that nothing happens to an open tab. */
    method Navigate(newPage: Option<Page>, timeout: Option<int>, gotoOk: bool) returns (result: Result)
      requires Valid()
      modifies this
      ensures Valid() && history == old(history) + [NavigateCall(newPage, timeout, gotoOk)]
      ensures result == Step(old(State()), NavigateCall(newPage, timeout, gotoOk)).result
      ensures Navigated(old(State()), NavigateCall(newPage, timeout, gotoOk), Effect(State(), result, false))
    {
      ghost var call := NavigateCall(newPage, timeout, gotoOk);
      TraceSnoc(history, trace, call);
      NavigatePromise(history, trace, call);
      history, trace := history + [call], trace + [Step(old(State()), call).state];
      var ok := EnsurePage(newPage);
      if !ok {
        return Err(Playwright);
      }
      if currentTabId == None {
        return Err(Internal);
      }
      if !TimeoutOk(timeout, NAVIGATE_DEFAULT_MS, NAVIGATE_MAX_MS) {
        return Err(Validation);
      }
      InvalidateTabSnapshot(currentTabId.value);
      return if gotoOk then Ok else Err(Playwright);
    }

    /** click, type, select, hover, scroll to an element and upload: the page is touched
        exactly when the ref was accepted, a given snapshot id was fresh and the timeout is
        valid. After a successful click, type or select no ref is accepted; a failure keeps
        every snapshot. */
    method ActOnRef(newPage: Option<Page>, kind: RefKind, snapshotId: Option<string>, ref: string,
                    timeout: Option<int>, actionOk: bool) returns (result: Result, acted: bool)
      requires Valid()
      modifies this
      ensures Valid() && history == old(history) + [RefCall(newPage, kind, snapshotId, ref, timeout, actionOk)]
      ensures result == Step(old(State()), RefCall(newPage, kind, snapshotId, ref, timeout, actionOk)).result
      ensures ActedOnRef(old(State()), RefCall(newPage, kind, snapshotId, ref, timeout, actionOk),
                         Effect(State(), result, acted))
    {
      ghost var call := RefCall(newPage, kind, snapshotId, ref, timeout, actionOk);
      TraceSnoc(history, trace, call);
      RefPromise(history, trace, call);
      history, trace := history + [call], trace + [Step(old(State()), call).state];
      var ok := EnsurePage(newPage);
      if !ok {
        return Err(Playwright), false;
      }
      if IsStale(State(), snapshotId) {
        return Err(StaleRef), false;
      }
      if !HasLocator(State(), ref) {
        return Err(StaleRef), false;
      }
      if !TimeoutOk(timeout, ACTION_DEFAULT_MS, ACTION_MAX_MS) {
        return Err(Validation), false;
      }
      if !actionOk {
        return Err(Playwright), true;
      }
      if Invalidates(kind) && currentTabId.Some? {
        InvalidateTabSnapshot(currentTabId.value);
      }
      return Ok, true;
    }

    /** The loop over the fields that comes before any write. */
    method AllAccepted(refs: seq<string>) returns (all: bool)
      ensures all <==> !exists i | 0 <= i < |refs| :: !HasLocator(State(), refs[i])
    {
      var i := 0;
      while i < |refs|
        invariant 0 <= i <= |refs|
        invariant forall j | 0 <= j < i :: HasLocator(State(), refs[j])
      {
        if !HasLocator(State(), refs[i]) {
          return false;
        }
        i := i + 1;
      }
      return true;
    }

    /** The loop that writes the fields, in order and until one fails. */
    method WriteAll(refs: seq<string>, failsAt: nat) returns (ok: bool, written: seq<string>)
      ensures ok <==> failsAt >= |refs|
      ensures written == if ok then refs else refs[..failsAt]
    {
      written := [];
      var i := 0;
      while i < |refs|
        invariant 0 <= i <= |refs| && i <= failsAt
        invariant written == refs[..i]
      {
        if i == failsAt {
          return false, written;
        }
        written := written + [refs[i]];
        i := i + 1;
      }
      return true, written;
    }

    /** The body of `FillForm`. */
    method WriteFields(newPage: Option<Page>, snapshotId: Option<string>, refs: seq<string>,
                       timeout: Option<int>, failsAt: nat) returns (result: Result, acted: bool, written: seq<string>)
      modifies this`tabs, this`tabConsoleLogs, this`tabCounter, this`listeners, this`currentTabId, this`tabSnapshots
      ensures Effect(State(), result, acted) == DoFillForm(old(State()), newPage, snapshotId, refs, timeout, failsAt)
      ensures written == if result.Ok? then refs else if acted && failsAt < |refs| then refs[..failsAt] else []
    {
      written := [];
      var ok := EnsurePage(newPage);
      if !ok {
        return Err(Playwright), false, [];
      }
      if IsStale(State(), snapshotId) {
        return Err(StaleRef), false, [];
      }
      if !TimeoutOk(timeout, ACTION_DEFAULT_MS, ACTION_MAX_MS) {
        return Err(Validation), false, [];
      }
      var all := AllAccepted(refs);
      if !all {
        return Err(StaleRef), false, [];
      }
      ok, written := WriteAll(refs, failsAt);
      if !ok {
        return Err(Playwright), true, written;
      }
      if currentTabId.Some? {
        InvalidateTabSnapshot(currentTabId.value);
      }
      return Ok, refs != [], written;
    }

    /** Success means that every field is written; nothing is written unless every field's ref
        is accepted, and a field that fails leaves those before it written. After success no
        ref is accepted. */
    method FillForm(newPage: Option<Page>, snapshotId: Option<string>, refs: seq<string>,
                    timeout: Option<int>, failsAt: nat) returns (result: Result, acted: bool, written: seq<string>)
      requires Valid()
      modifies this
      ensures Valid() && history == old(history) + [FillFormCall(newPage, snapshotId, refs, timeout, failsAt)]
      ensures result == Step(old(State()), FillFormCall(newPage, snapshotId, refs, timeout, failsAt)).result
      ensures Filled(old(State()), FillFormCall(newPage, snapshotId, refs, timeout, failsAt),
                     Effect(State(), result, acted))
      ensures written == if result.Ok? then refs else if acted && failsAt < |refs| then refs[..failsAt] else []
    {
      ghost var call := FillFormCall(newPage, snapshotId, refs, timeout, failsAt);
      TraceSnoc(history, trace, call);
      FormPromise(history, trace, call);
      result, acted, written := WriteFields(newPage, snapshotId, refs, timeout, failsAt);
      history, trace := history + [call], trace + [Step(old(State()), call).state];
    }

    /** The body of `TabNew`. */
    method OpenPage(newPage: Option<Page>, hasUrl: bool, timeout: Option<int>, gotoOk: bool, closeOk: bool,
                    titleOk: bool) returns (result: Result)
      modifies this`tabs, this`tabConsoleLogs, this`tabCounter, this`listeners, this`currentTabId
      ensures Effect(State(), result, false) ==
              Step(old(State()), TabNewCall(newPage, hasUrl, timeout, gotoOk, closeOk, titleOk))
    {
      if newPage == None {
        return Err(Playwright);
      }
      var tabId := AddTab(newPage.value);
      var previousTabId := currentTabId;
      if hasUrl {
        if !TimeoutOk(timeout, NAVIGATE_DEFAULT_MS, NAVIGATE_MAX_MS) {
          if !closeOk {
            return Err(Playwright);
          }
          tabs := RemoveTab(tabs, tabId);
          tabConsoleLogs := tabConsoleLogs - {tabId};
          return Err(Validation);
        }
        if !gotoOk {
          tabs := RemoveTab(tabs, tabId);
          tabConsoleLogs := tabConsoleLogs - {tabId};
          currentTabId := previousTabId;
          return Err(Playwright);
        }
      }
      currentTabId := Some(tabId);
      return if titleOk then Ok else Err(Playwright);
    }

    /** A new tab becomes current under an id no tab ever had; one that does not load leaves
        tabs and current tab as before, unless it can be neither loaded nor closed. */
    method TabNew(newPage: Option<Page>, hasUrl: bool, timeout: Option<int>, gotoOk: bool, closeOk: bool,
                  titleOk: bool) returns (result: Result)
      requires Valid()
      modifies this
      ensures Valid() && history == old(history) + [TabNewCall(newPage, hasUrl, timeout, gotoOk, closeOk, titleOk)]
      ensures result == Step(old(State()), TabNewCall(newPage, hasUrl, timeout, gotoOk, closeOk, titleOk)).result
      ensures old(tabCounter) + 1 !in UsedIds(old(history))
      ensures Opened(old(State()), TabNewCall(newPage, hasUrl, timeout, gotoOk, closeOk, titleOk),
                     Effect(State(), result, false))
    {
      ghost var call := TabNewCall(newPage, hasUrl, timeout, gotoOk, closeOk, titleOk);
      TraceSnoc(history, trace, call);
      ghost var s, e := State(), Step(State(), call);
      assert s.tabCounter + 1 !in UsedIds(history) && Opened(s, call, e) by {
        TabNewPromise(history, trace, call);
      }
      result := OpenPage(newPage, hasUrl, timeout, gotoOk, closeOk, titleOk);
      assert Effect(State(), result, false) == e;
      history, trace := history + [call], trace + [Step(old(State()), call).state];
    }

    /** The last key in insertion order, found by walking over all of them. */
    method LastKey() returns (lastKey: Option<TabId>)
      ensures lastKey == LastId(tabs)
    {
      lastKey := None;
      var i := 0;
      while i < |tabs|
        invariant 0 <= i <= |tabs|
        invariant lastKey == LastId(tabs[..i])
      {
        lastKey := Some(tabs[i].id);
        i := i + 1;
      }
      assert tabs[..i] == tabs;
    }

    /** The tab is closed and its snapshot goes with it, no other one does. Closing the
        current tab makes the newest tab that is left current, or none. */
    method TabClose(tabId: Option<TabId>, closeOk: bool) returns (result: Result)
      requires Valid()
      modifies this
      ensures Valid() && history == old(history) + [TabCloseCall(tabId, closeOk)]
      ensures result == Step(old(State()), TabCloseCall(tabId, closeOk)).result
      ensures Closed(old(State()), TabCloseCall(tabId, closeOk), Effect(State(), result, false))
    {
      ghost var call := TabCloseCall(tabId, closeOk);
      TraceSnoc(history, trace, call);
      TabClosePromise(history, trace, call);
      history, trace := history + [call], trace + [Step(old(State()), call).state];
      var target := if tabId.Some? then tabId else currentTabId;
      if target == None {
        return Err(NotFound);
      }
      var targetId := target.value;
      if targetId !in Ids(tabs) {
        return Err(NotFound);
      }
      if !closeOk {
        return Err(Playwright);
      }
      tabs := RemoveTab(tabs, targetId);
      tabSnapshots := tabSnapshots - {targetId};
      tabConsoleLogs := tabConsoleLogs - {targetId};
      if currentTabId == Some(targetId) {
        currentTabId := LastKey();
      }
      return Ok;
    }

    /** Focusing finds exactly the open tabs, and what was stored for the tab is accepted
        again: its snapshot id and every ref of it. */
    method TabFocus(tabId: TabId, frontOk: bool, titleOk: bool) returns (result: Result)
      requires Valid()
      modifies this`currentTabId, this`history, this`trace
      ensures Valid() && history == old(history) + [TabFocusCall(tabId, frontOk, titleOk)]
      ensures result == Step(old(State()), TabFocusCall(tabId, frontOk, titleOk)).result
      ensures result == if tabId !in Ids(tabs) then Err(NotFound)
                        else if frontOk && titleOk then Ok else Err(Playwright)
      ensures currentTabId == if tabId in Ids(tabs) && frontOk then Some(tabId) else old(currentTabId)
      ensures result.Ok? ==> forall ref :: Accepts(ref) <==> tabId in tabSnapshots && ref in tabSnapshots[tabId].refs
      ensures result.Ok? && tabId in tabSnapshots ==>
                IdFits(State(), Some(SnapshotId(tabId, tabSnapshots[tabId].counter)))
    {
      ghost var call := TabFocusCall(tabId, frontOk, titleOk);
      TraceSnoc(history, trace, call);
      history, trace := history + [call], trace + [Step(old(State()), call).state];
      if tabId !in Ids(tabs) {
        return Err(NotFound);
      }
      if !frontOk {
        return Err(Playwright);
      }
      currentTabId := Some(tabId);
      return if titleOk then Ok else Err(Playwright);
    }

    /** The entries of the current buffer that match and are not cut, and how many match. */
    method Read(options: ConsoleOptions) returns (entries: seq<Entry>, total: nat)
      ensures (entries, total) == ReadConsole(State(), options)
    {
      var buf := if currentTabId.Some? && currentTabId.value in tabConsoleLogs then tabConsoleLogs[currentTabId.value]
                 else [];
      var filtered := Filter(buf, options.levels);
      return Slice(filtered, -Limit(options)), |filtered|;
    }

    /** The entries come from the last 200 messages the current tab has logged since it was
        opened or cleared; they are the newest ones the limit allows exactly when it is
        positive, or so negative that nothing is left. */
    method Console(options: ConsoleOptions) returns (entries: seq<Entry>, total: nat)
      requires Valid()
      modifies this`tabConsoleLogs, this`history, this`trace
      ensures Valid() && history == old(history) + [ConsoleCall(options)]
      ensures currentTabId.Some? ==>
                ReadFrom(Heard(INITIAL, old(history), currentTabId.value), options, entries, total)
      ensures currentTabId.None? ==> entries == [] && total == 0
      ensures tabConsoleLogs ==
              if options.clear && currentTabId.Some? then old(tabConsoleLogs)[currentTabId.value := []]
              else old(tabConsoleLogs)
    {
      entries, total := Read(options);
      assert && (currentTabId.Some? ==> ReadFrom(Heard(INITIAL, history, currentTabId.value), options, entries, total))
             && (currentTabId.None? ==> entries == [] && total == 0) by {
        ConsolePromise(history, trace, options);
      }
      ghost var call := ConsoleCall(options);
      TraceSnoc(history, trace, call);
      history, trace := history + [call], trace + [Step(old(State()), call).state];
      if options.clear && currentTabId.Some? {
        tabConsoleLogs := tabConsoleLogs[currentTabId.value := []];
      }
    }

    /** The console handler registered for `page` under `tab`: a message that carries signal
        joins the log of the tab, which keeps its newest 200; no other tab hears it. */
    method OnConsole(page: Page, tab: TabId, messageType: string, text: string, url: string, line: int)
      requires Valid() && (page, tab) in listeners
      modifies this`tabConsoleLogs, this`history, this`trace
      ensures Valid() && history == old(history) + [ConsoleEvent(page, tab, messageType, text, url, line)]
      ensures Logged(old(tabConsoleLogs), tabConsoleLogs, tab, Heard(INITIAL, old(history), tab),
                     Signal(messageType, text, url, line))
    {
      ghost var call := ConsoleEvent(page, tab, messageType, text, url, line);
      TraceSnoc(history, trace, call);
      MessagePromise(history, trace, page, tab, messageType, text, url, line);
      var level := NormalizeConsoleType(messageType);
      history, trace := history + [call], trace + [Step(old(State()), call).state];
      if level.None? {
        return;
      }
      if tab !in tabConsoleLogs {
        return;
      }
      var buf := tabConsoleLogs[tab] + [Entry(level.value, text, url, line)];
      if |buf| > CONSOLE_BUFFER_CAP {
        buf := buf[1..];
      }
      tabConsoleLogs := tabConsoleLogs[tab := buf];
    }

    /** Nothing is open and no ref is accepted, and every id a tab ever had is still below
        the counter, so that none is used again. */
    method Dispose()
      requires Valid()
      modifies this
      ensures Valid() && history == old(history) + [DisposeCall]
      ensures tabs == [] && currentTabId == None && forall ref :: !Accepts(ref)
      ensures forall id | id in UsedIds(old(history)) :: id <= tabCounter
    {
      NextIdIsNew(history, trace);
      TraceSnoc(history, trace, DisposeCall);
      history, trace := history + [DisposeCall], trace + [Step(old(State()), DisposeCall).state];
      tabSnapshots, tabConsoleLogs := map[], map[];
      tabs := [];
      currentTabId := None;
    }
  }
}
