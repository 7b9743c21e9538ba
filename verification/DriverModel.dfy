/**
 The state of playwright-browser-driver.ts between calls, and what each driver call does
 to it. Calls run one after another. Every Playwright call is an input that says whether
 it succeeds; console messages are events of their own.
 */
module DriverModel {
  import opened Wrappers
  import opened Decimal
  import A11yLines

  type Page = nat

  /** `n` stands for the tab id `tab-n`; the numerals make the two interchangeable. */
  type TabId = nat

  type RefInfo = A11yLines.RefInfo

  datatype Level = Log | Warning | Error | Debug | Info

  datatype Entry = Entry(level: Level, text: string, url: string, line: int)

  datatype Tab = Tab(id: TabId, page: Page)

  datatype Snapshot = Snapshot(refs: map<string, RefInfo>, counter: nat)

  /** The closure variables of the driver. `tabs` keeps insertion order; `listeners` are
      the console handlers registered so far, which outlive their tabs. */
  datatype State = State(
    tabs: seq<Tab>,
    current: Option<TabId>,
    snapshots: map<TabId, Snapshot>,
    logs: map<TabId, seq<Entry>>,
    tabCounter: nat,
    listeners: set<(Page, TabId)>)

  const INITIAL: State := State([], None, map[], map[], 0, {})

  datatype ErrorKind = StaleRef | Validation | NotFound | Internal | Playwright

  datatype Result = Ok | Err(kind: ErrorKind)

  /** A call's new state and result, and whether it acted on a page element. */
  datatype Effect = Effect(state: State, result: Result, acted: bool)

  const NAVIGATE_DEFAULT_MS := 15_000
  const NAVIGATE_MAX_MS := 60_000
  const ACTION_DEFAULT_MS := 3_000
  const ACTION_MAX_MS := 10_000
  const CONSOLE_BUFFER_CAP: nat := 200

  /** `locator.ariaSnapshot()`: it throws, returns nothing, or gives text with these refs. */
  datatype Aria = Throws | Empty | Yaml(refs: map<string, RefInfo>, titled: bool)

  /** Calls that act on one element. Only some invalidate the snapshot. */
  datatype RefKind = Click | Type | Select | Hover | ScrollTo | Upload

  datatype ConsoleOptions = ConsoleOptions(levels: Option<set<Level>>, limit: Option<int>, clear: bool)

  /** `newPage` is what opening a page gives, should the call need one: None is a failure.
      `failsAt` is the first field of a form that cannot be written. */
  datatype Event =
    | SnapshotCall(newPage: Option<Page>, aria: Aria, titleOk: bool)
    | NavigateCall(newPage: Option<Page>, timeout: Option<int>, gotoOk: bool)
    | RefCall(newPage: Option<Page>, kind: RefKind, snapshotId: Option<string>, ref: string, timeout: Option<int>,
              actionOk: bool)
    | FillFormCall(newPage: Option<Page>, snapshotId: Option<string>, refs: seq<string>, timeout: Option<int>,
                   failsAt: nat)
    | PageCall(newPage: Option<Page>, ok: bool)
    | TabNewCall(newPage: Option<Page>, hasUrl: bool, timeout: Option<int>, gotoOk: bool, closeOk: bool, titleOk: bool)
    | TabCloseCall(tabId: Option<TabId>, closeOk: bool)
    | TabFocusCall(focusId: TabId, frontOk: bool, titleOk: bool)
    | ConsoleCall(options: ConsoleOptions)
    | DisposeCall
    | ConsoleEvent(page: Page, tab: TabId, messageType: string, text: string, url: string, line: int)

  /** The id a snapshot of a tab is handed out under. */
  function SnapshotId(tab: TabId, counter: nat): string {
    "snap-tab-" + Numeral(tab) + "-" + Numeral(counter)
  }

  // --- Tabs ---

  function Ids(tabs: seq<Tab>): set<TabId> {
    set t | t in tabs :: t.id
  }

  /** `tabs.delete(id)` */
  function RemoveTab(tabs: seq<Tab>, id: TabId): (r: seq<Tab>)
    ensures forall t :: t in r <==> t in tabs && t.id != id
  {
    if tabs == [] then []
    else if tabs[0].id == id then RemoveTab(tabs[1..], id)
    else [tabs[0]] + RemoveTab(tabs[1..], id)
  }

  function LastId(tabs: seq<Tab>): Option<TabId> {
    if tabs == [] then None else Some(tabs[|tabs| - 1].id)
  }

  function Invalidate(s: State, id: TabId): State {
    s.(snapshots := s.snapshots - {id})
  }

  /** Registers a page under a new id and listens to its console. */
  function OpenTab(s: State, page: Page): State {
    var id := s.tabCounter + 1;
    s.(tabs := s.tabs + [Tab(id, page)],
       logs := s.logs[id := []],
       tabCounter := s.tabCounter + 1,
       listeners := s.listeners + {(page, id)})
  }

  /** `ensurePage`: opens a tab when none is current. */
  function EnsurePage(s: State, newPage: Option<Page>): (r: Option<State>)
  {
    if s.current.None? then
      if newPage.None? then None
      else Some(OpenTab(s, newPage.value).(current := Some(s.tabCounter + 1)))
    else if s.current.value in Ids(s.tabs) then Some(s)
    else None
  }

  // --- Snapshots and refs ---

  predicate TimeoutOk(timeout: Option<int>, defaultMs: int, maxMs: int) {
    timeout.UnwrapOr(defaultMs) <= maxMs
  }

  /** `checkSnapshotId`: a given id must be the one stored for the current tab. */
  predicate IsStale(s: State, snapshotId: Option<string>) {
    && snapshotId.Some? && s.current.Some?
    && (|| s.current.value !in s.snapshots
        || SnapshotId(s.current.value, s.snapshots[s.current.value].counter) != snapshotId.value)
  }

  /** `getLocator`: the ref is in the current tab's snapshot. */
  predicate HasLocator(s: State, ref: string) {
    && s.current.Some? && s.current.value in s.snapshots
    && ref in s.snapshots[s.current.value].refs
  }

  predicate Invalidates(kind: RefKind) {
    kind.Click? || kind.Type? || kind.Select?
  }

  function StoreSnapshot(s: State, id: TabId, refs: map<string, RefInfo>): State {
    var counter := (if id in s.snapshots then s.snapshots[id].counter else 0) + 1;
    s.(snapshots := s.snapshots[id := Snapshot(refs, counter)])
  }

  // --- Calls ---

  function DoSnapshot(s: State, newPage: Option<Page>, aria: Aria, titleOk: bool): Effect {
    var r := EnsurePage(s, newPage);
    if r.None? || aria.Throws? then Effect(r.UnwrapOr(s), Err(Playwright), false)
    else if r.value.current.None? then Effect(r.value, Err(Internal), false)
    else if aria.Empty? then Effect(r.value, Err(Internal), false)
    else
      // The snapshot is stored before the page title is asked for.
      Effect(StoreSnapshot(r.value, r.value.current.value, aria.refs),
             if aria.titled || titleOk then Ok else Err(Playwright), false)
  }

  function DoNavigate(s: State, newPage: Option<Page>, timeout: Option<int>, gotoOk: bool): Effect {
    var r := EnsurePage(s, newPage);
    if r.None? then Effect(s, Err(Playwright), false)
    else if r.value.current.None? then Effect(r.value, Err(Internal), false)
    else if !TimeoutOk(timeout, NAVIGATE_DEFAULT_MS, NAVIGATE_MAX_MS) then Effect(r.value, Err(Validation), false)
    else Effect(Invalidate(r.value, r.value.current.value), if gotoOk then Ok else Err(Playwright), false)
  }

  function InvalidateCurrent(s: State): State {
    if s.current.Some? then Invalidate(s, s.current.value) else s
  }

  function DoRef(s: State, newPage: Option<Page>, kind: RefKind, snapshotId: Option<string>, ref: string,
                 timeout: Option<int>, actionOk: bool): Effect
  {
    var r := EnsurePage(s, newPage);
    if r.None? then Effect(s, Err(Playwright), false)
    else if IsStale(r.value, snapshotId) || !HasLocator(r.value, ref) then Effect(r.value, Err(StaleRef), false)
    else if !TimeoutOk(timeout, ACTION_DEFAULT_MS, ACTION_MAX_MS) then Effect(r.value, Err(Validation), false)
    else if !actionOk then Effect(r.value, Err(Playwright), true)
    else Effect(if Invalidates(kind) then InvalidateCurrent(r.value) else r.value, Ok, true)
  }

  function DoFillForm(s: State, newPage: Option<Page>, snapshotId: Option<string>, refs: seq<string>,
                      timeout: Option<int>, failsAt: nat): Effect
  {
    var r := EnsurePage(s, newPage);
    if r.None? then Effect(s, Err(Playwright), false)
    else if IsStale(r.value, snapshotId) then Effect(r.value, Err(StaleRef), false)
    else if !TimeoutOk(timeout, ACTION_DEFAULT_MS, ACTION_MAX_MS) then Effect(r.value, Err(Validation), false)
    else if exists i | 0 <= i < |refs| :: !HasLocator(r.value, refs[i]) then Effect(r.value, Err(StaleRef), false)
    else if failsAt < |refs| then Effect(r.value, Err(Playwright), true)
    else Effect(InvalidateCurrent(r.value), Ok, refs != [])
  }

  function DoPage(s: State, newPage: Option<Page>, ok: bool): Effect {
    var r := EnsurePage(s, newPage);
    if r.None? then Effect(s, Err(Playwright), false)
    else Effect(r.value, if ok then Ok else Err(Playwright), false)
  }

  function Discard(s: State, id: TabId): State {
    s.(tabs := RemoveTab(s.tabs, id), logs := s.logs - {id})
  }

  function DoTabNew(s: State, newPage: Option<Page>, hasUrl: bool, timeout: Option<int>, gotoOk: bool,
                    closeOk: bool, titleOk: bool): Effect
  {
    if newPage.None? then Effect(s, Err(Playwright), false)
    else
      var id := s.tabCounter + 1;
      var withTab := OpenTab(s, newPage.value);
      if hasUrl && !TimeoutOk(timeout, NAVIGATE_DEFAULT_MS, NAVIGATE_MAX_MS) then
        // A failing close leaves the tab registered.
        if closeOk then Effect(Discard(withTab, id), Err(Validation), false)
        else Effect(withTab, Err(Playwright), false)
      else if hasUrl && !gotoOk then Effect(Discard(withTab, id), Err(Playwright), false)
      else Effect(withTab.(current := Some(id)), if titleOk then Ok else Err(Playwright), false)
  }

  function DoTabClose(s: State, tabId: Option<TabId>, closeOk: bool): Effect {
    var target := if tabId.Some? then tabId else s.current;
    if target.None? || target.value !in Ids(s.tabs) then Effect(s, Err(NotFound), false)
    else if !closeOk then Effect(s, Err(Playwright), false)
    else
      var closed := Invalidate(Discard(s, target.value), target.value);
      Effect(if s.current == target then closed.(current := LastId(closed.tabs)) else closed, Ok, false)
  }

  function DoTabFocus(s: State, tabId: TabId, frontOk: bool, titleOk: bool): Effect {
    if tabId !in Ids(s.tabs) then Effect(s, Err(NotFound), false)
    else if !frontOk then Effect(s, Err(Playwright), false)
    else Effect(s.(current := Some(tabId)), if titleOk then Ok else Err(Playwright), false)
  }

  function DoDispose(s: State): Effect {
    Effect(s.(tabs := [], current := None, snapshots := map[], logs := map[]), Ok, false)
  }

  // --- Console ---

  /** `normalizeConsoleType`; None carries no signal. */
  function NormalizeConsoleType(t: string): Option<Level> {
    if t == "warning" then Some(Warning)
    else if t == "error" || t == "assert" then Some(Error)
    else if t == "debug" then Some(Debug)
    else if t == "info" then Some(Info)
    else if t in {"dir", "dirxml", "table", "group", "groupCollapsed", "groupEnd", "count", "countReset", "time",
                  "timeLog", "timeEnd", "clear", "startGroup", "startGroupCollapsed", "endGroup"} then None
    else Some(Log)
  }

  /** The buffer with one more entry, the oldest dropped when it is over the cap. */
  function Push(buf: seq<Entry>, entry: Entry): seq<Entry> {
    var longer := buf + [entry];
    if |longer| > CONSOLE_BUFFER_CAP then longer[1..] else longer
  }

  function DoMessage(s: State, page: Page, tab: TabId, messageType: string, text: string, url: string, line: int): State
  {
    var level := NormalizeConsoleType(messageType);
    if (page, tab) !in s.listeners || level.None? || tab !in s.logs then s
    else s.(logs := s.logs[tab := Push(s.logs[tab], Entry(level.value, text, url, line))])
  }

  function DoConsole(s: State, options: ConsoleOptions): Effect {
    Effect(if options.clear && s.current.Some? then s.(logs := s.logs[s.current.value := []]) else s, Ok, false)
  }

  function Step(s: State, e: Event): Effect {
    match e
    case SnapshotCall(newPage, aria, titleOk) => DoSnapshot(s, newPage, aria, titleOk)
    case NavigateCall(newPage, timeout, gotoOk) => DoNavigate(s, newPage, timeout, gotoOk)
    case RefCall(newPage, kind, snapshotId, ref, timeout, actionOk) =>
      DoRef(s, newPage, kind, snapshotId, ref, timeout, actionOk)
    case FillFormCall(newPage, snapshotId, refs, timeout, failsAt) =>
      DoFillForm(s, newPage, snapshotId, refs, timeout, failsAt)
    case PageCall(newPage, ok) => DoPage(s, newPage, ok)
    case TabNewCall(newPage, hasUrl, timeout, gotoOk, closeOk, titleOk) =>
      DoTabNew(s, newPage, hasUrl, timeout, gotoOk, closeOk, titleOk)
    case TabCloseCall(tabId, closeOk) => DoTabClose(s, tabId, closeOk)
    case TabFocusCall(tabId, frontOk, titleOk) => DoTabFocus(s, tabId, frontOk, titleOk)
    case ConsoleCall(options) => DoConsole(s, options)
    case DisposeCall => DoDispose(s)
    case ConsoleEvent(page, tab, messageType, text, url, line) =>
      Effect(DoMessage(s, page, tab, messageType, text, url, line), Ok, false)
  }

  /** The state after a sequence of events. */
  function Run(s: State, events: seq<Event>): State {
    if events == [] then s else Step(Run(s, events[..|events| - 1]), events[|events| - 1]).state
  }
}
