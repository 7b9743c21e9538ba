/**
 The console buffers of the driver: each tab keeps at most 200 entries, and that buffer is
 the tail of everything the tab has logged since it was opened or cleared.
 */
module DriverConsole {
  import opened Wrappers
  import opened DriverModel
  import opened DriverRuns

  /** The last `n` entries of a log. */
  function Last(n: nat, log: seq<Entry>): seq<Entry> {
    if |log| <= n then log else log[|log| - n..]
  }

  /** Pushing onto the capped buffer is appending to the log. */
  lemma PushKeepsTail(log: seq<Entry>, entry: Entry)
    ensures Push(Last(CONSOLE_BUFFER_CAP, log), entry) == Last(CONSOLE_BUFFER_CAP, log + [entry])
  {
    var cap := CONSOLE_BUFFER_CAP;
    var buf := Last(cap, log);
    if |log| >= cap {
      assert |buf| == cap;
      assert (buf + [entry])[1..] == (log + [entry])[|log| + 1 - cap..];
    }
  }

  // --- Levels ---

  /** The message types that have a level of their own. */
  const LEVELS: map<string, Level> :=
    map["log" := Log, "trace" := Log, "warning" := Warning, "error" := Error, "assert" := Error, "debug" := Debug,
        "info" := Info]

  /** Those that only lay out the console. */
  const STRUCTURAL: set<string> :=
    {"dir", "dirxml", "table", "group", "groupCollapsed", "groupEnd", "count", "countReset", "time", "timeLog",
     "timeEnd", "clear", "startGroup", "startGroupCollapsed", "endGroup"}

  /** A type has the level of the table, none when it is structural, and is a log otherwise. */
  function LevelOf(messageType: string): Option<Level> {
    if messageType in LEVELS then Some(LEVELS[messageType])
    else if messageType in STRUCTURAL then None else Some(Log)
  }

  lemma LevelIsTheTable(messageType: string)
    ensures NormalizeConsoleType(messageType) == LevelOf(messageType)
    ensures LEVELS.Keys !! STRUCTURAL
  {
  }

  /** The entry the step adds to the log of `t`, if any. */
  function Delivered(s: State, e: Event, t: TabId): Option<Entry> {
    if e.ConsoleEvent? && e.tab == t && (e.page, t) in s.listeners && LevelOf(e.messageType).Some? then
      Some(Entry(LevelOf(e.messageType).value, e.text, e.url, e.line))
    else None
  }

  predicate Clears(s: State, e: Event, t: TabId) {
    e.ConsoleCall? && e.options.clear && s.current == Some(t)
  }

  /** Everything tab `t` has logged in the run since it was opened or last cleared. */
  function Heard(s: State, events: seq<Event>, t: TabId): seq<Entry> {
    if events == [] then []
    else
      var before, e := events[..|events| - 1], events[|events| - 1];
      var s1 := Run(s, before);
      if t !in s1.logs || t !in Step(s1, e).state.logs || Clears(s1, e, t) then []
      else if Delivered(s1, e, t).Some? then Heard(s, before, t) + [Delivered(s1, e, t).value]
      else Heard(s, before, t)
  }

  lemma PageCallLogs(s: State, e: Event, t: TabId)
    requires Inv(s) && NeedsPage(e).Some?
    ensures var s' := Step(s, e).state; t in s'.logs ==> s'.logs[t] == if t in s.logs then s.logs[t] else []
  {
    PageCallEffect(s, e);
    IdsBelowCounter(s);
  }

  lemma TabCallLogs(s: State, e: Event, t: TabId)
    requires Inv(s) && (e.TabNewCall? || e.TabCloseCall?)
    ensures var s' := Step(s, e).state; t in s'.logs ==> s'.logs[t] == if t in s.logs then s.logs[t] else []
  {
    IdsBelowCounter(s);
    if e.TabNewCall? {
      TabNewEffect(s, e);
    } else {
      TabCloseEffect(s, e);
    }
  }

  lemma StepLogs(s: State, e: Event, t: TabId)
    requires Inv(s) && t in Step(s, e).state.logs
    ensures var s' := Step(s, e).state;
            s'.logs[t] ==
              if t !in s.logs || Clears(s, e, t) then []
              else if Delivered(s, e, t).Some? then Push(s.logs[t], Delivered(s, e, t).value)
              else s.logs[t]
  {
    if NeedsPage(e).Some? {
      PageCallLogs(s, e, t);
    } else if e.TabNewCall? || e.TabCloseCall? {
      TabCallLogs(s, e, t);
    } else if e.ConsoleEvent? {
      LevelIsTheTable(e.messageType);
    }
  }

  /** In every reachable state the buffer of an open tab is the last 200 entries, or all of
      them, of what the tab has logged. */
  lemma {:induction false} BufferIsTailOfLog(events: seq<Event>, t: TabId)
    requires t in Run(INITIAL, events).logs
    ensures Run(INITIAL, events).logs[t] == Last(CONSOLE_BUFFER_CAP, Heard(INITIAL, events, t))
  {
    var before, e := events[..|events| - 1], events[|events| - 1];
    var s1 := Run(INITIAL, before);
    InitialInv();
    RunKeepsInv(INITIAL, before);
    StepLogs(s1, e, t);
    if t in s1.logs {
      BufferIsTailOfLog(before, t);
      if Delivered(s1, e, t).Some? {
        PushKeepsTail(Heard(INITIAL, before, t), Delivered(s1, e, t).value);
      }
    }
  }

  // --- Reading ---

  /** `filtered.slice(start)`: a negative start counts from the end. */
  function Slice(buf: seq<Entry>, start: int): seq<Entry> {
    if start < 0 then (if |buf| + start > 0 then buf[|buf| + start..] else buf)
    else if start < |buf| then buf[start..] else []
  }

  /** `buf.filter((e) => levels.includes(e.level))`, or the buffer when no levels are given. */
  function Filter(buf: seq<Entry>, levels: Option<set<Level>>): (r: seq<Entry>)
    ensures levels.None? ==> r == buf
  {
    if levels.None? || buf == [] then buf
    else
      var last := |buf| - 1;
      Filter(buf[..last], levels) + if buf[last].level in levels.value then [buf[last]] else []
  }

  predicate Wanted(entry: Entry, levels: Option<set<Level>>) {
    levels.Some? ==> entry.level in levels.value
  }

  /** `ps` are the positions of all entries of the levels asked for, in order. */
  ghost predicate Selects(buf: seq<Entry>, levels: Option<set<Level>>, ps: seq<nat>) {
    && (forall i | 0 <= i < |ps| :: ps[i] < |buf| && Wanted(buf[ps[i]], levels))
    && (forall i, j | 0 <= i < j < |ps| :: ps[i] < ps[j])
    && (forall p: nat | p < |buf| && Wanted(buf[p], levels) :: p in ps)
  }

  /** The entries at these positions. */
  function At(buf: seq<Entry>, ps: seq<nat>): seq<Entry>
    requires forall i | 0 <= i < |ps| :: ps[i] < |buf|
  {
    seq(|ps|, i requires 0 <= i < |ps| => buf[ps[i]])
  }

  /** Filtering keeps the entries at exactly these positions. */
  lemma {:induction false} FilterSelects(buf: seq<Entry>, levels: Option<set<Level>>) returns (ps: seq<nat>)
    ensures Selects(buf, levels, ps) && Filter(buf, levels) == At(buf, ps)
  {
    if buf == [] {
      ps := [];
    } else {
      var last := |buf| - 1;
      var before := FilterSelects(buf[..last], levels);
      ps := before + if Wanted(buf[last], levels) then [last] else [];
      SelectsMore(buf, levels, before, ps);
      FilterMore(buf, levels);
      assert At(buf, before) == At(buf[..last], before);
      assert At(buf, ps) == At(buf, before) + if Wanted(buf[last], levels) then [buf[last]] else [];
    }
  }

  lemma FilterMore(buf: seq<Entry>, levels: Option<set<Level>>)
    requires buf != []
    ensures var last := |buf| - 1;
            Filter(buf, levels) == Filter(buf[..last], levels) + if Wanted(buf[last], levels) then [buf[last]] else []
  {
    assert buf == buf[..|buf| - 1] + [buf[|buf| - 1]];
  }

  lemma SelectsMore(buf: seq<Entry>, levels: Option<set<Level>>, before: seq<nat>, ps: seq<nat>)
    requires buf != [] && Selects(buf[..|buf| - 1], levels, before)
    requires ps == before + if Wanted(buf[|buf| - 1], levels) then [|buf| - 1] else []
    ensures Selects(buf, levels, ps)
  {
    var last := |buf| - 1;
    forall p: nat | p < |buf| && Wanted(buf[p], levels)
      ensures p in ps
    {
      if p < last {
        assert buf[..last][p] == buf[p] && p in before;
      } else {
        assert ps[|before|] == p;
      }
    }
    forall i | 0 <= i < |before|
      ensures ps[i] == before[i] && ps[i] < last && Wanted(buf[ps[i]], levels)
    {
      assert buf[..last][before[i]] == buf[before[i]];
    }
  }

  const MAX_LIMIT := 200

  function Limit(options: ConsoleOptions): int {
    var limit := options.limit.UnwrapOr(50);
    if limit < MAX_LIMIT then limit else MAX_LIMIT
  }

  function CurrentBuffer(s: State): seq<Entry> {
    if s.current.Some? && s.current.value in s.logs then s.logs[s.current.value] else []
  }

  /** What `console` returns: the entries and how many matched. */
  function ReadConsole(s: State, options: ConsoleOptions): (seq<Entry>, nat) {
    var filtered := Filter(CurrentBuffer(s), options.levels);
    (Slice(filtered, -Limit(options)), |filtered|)
  }

  function Min(a: int, b: int): int {
    if a < b then a else b
  }

  /** A read without a level filter returns the last entries of the full log, as many as
      were asked for, up to 200. */
  lemma ReadReturnsNewest(events: seq<Event>, options: ConsoleOptions, t: TabId)
    requires Run(INITIAL, events).current == Some(t)
    requires options.levels.None? && Limit(options) >= 1
    ensures var (entries, total) := ReadConsole(Run(INITIAL, events), options);
            var log := Heard(INITIAL, events, t);
            entries == Last(Limit(options), log) && total == Min(|log|, CONSOLE_BUFFER_CAP)
  {
    InitialInv();
    RunKeepsInv(INITIAL, events);
    BufferIsTailOfLog(events, t);
    LastOfLast(Heard(INITIAL, events, t), Limit(options), CONSOLE_BUFFER_CAP);
  }

  lemma LastOfLast(log: seq<Entry>, m: nat, n: nat)
    requires m <= n
    ensures Last(m, Last(n, log)) == Last(m, log)
  {
  }

  /** What a limit promises: the most recent entries, at most that many. */
  function Newest(limit: int, entries: seq<Entry>): seq<Entry> {
    Last(if limit < 0 then 0 else limit, entries)
  }

  function WithoutOldest(n: nat, entries: seq<Entry>): seq<Entry> {
    if n < |entries| then entries[n..] else []
  }

  /** The limit is one that `slice(-limit)` keeps when this many entries match: a positive
      one, or one so negative that nothing is left. */
  predicate KeepsLimit(limit: int, matching: nat) {
    limit >= 1 || matching <= -limit
  }

  /** The limit that is meant: 50 unless given, and never more than 200. */
  function Asked(options: ConsoleOptions): int {
    match options.limit
    case None => 50
    case Some(limit) => Min(limit, 200)
  }

  /** `entries` and `total` are what a read of `buf` gives: `total` entries have the levels
      asked for. Of these, the newest the limit allows are returned exactly when the limit is
      kept; every other limit gives more than it allows, namely all but the oldest. */
  ghost predicate IsRead(buf: seq<Entry>, options: ConsoleOptions, entries: seq<Entry>, total: nat, ps: seq<nat>) {
    && Selects(buf, options.levels, ps) && total == |ps|
    && var matching, limit := At(buf, ps), Asked(options);
       && (entries == Newest(limit, matching) <==> KeepsLimit(limit, total))
       && (|entries| <= (if limit < 0 then 0 else limit) <==> KeepsLimit(limit, total))
       && (limit <= 0 ==> entries == WithoutOldest(-limit, matching))
  }

  lemma LimitIsKeptIff(s: State, options: ConsoleOptions) returns (ps: seq<nat>)
    ensures var (entries, total) := ReadConsole(s, options); IsRead(CurrentBuffer(s), options, entries, total, ps)
    ensures options.levels.None? ==> At(CurrentBuffer(s), ps) == CurrentBuffer(s)
  {
    ps := FilterSelects(CurrentBuffer(s), options.levels);
    SliceIsNewestIff(At(CurrentBuffer(s), ps), Limit(options));
  }

  lemma SliceIsNewestIff(matching: seq<Entry>, limit: int)
    ensures var entries := Slice(matching, -limit);
            && (entries == Newest(limit, matching) <==> KeepsLimit(limit, |matching|))
            && (|entries| <= (if limit < 0 then 0 else limit) <==> KeepsLimit(limit, |matching|))
            && (limit <= 0 ==> entries == WithoutOldest(-limit, matching))
  {
    if !KeepsLimit(limit, |matching|) {
      assert |Newest(limit, matching)| == 0;
      assert |Slice(matching, -limit)| == |matching| + limit;
    }
  }

  /** For instance: with two messages logged, a limit of zero gives both and a limit of -1
      the newer one, where none is allowed. */
  lemma LimitIsExceeded(a: string, b: string, page: Page)
    ensures var shown := Step(INITIAL, TabNewCall(Some(page), false, None, true, true, true)).state;
            var first := Step(shown, ConsoleEvent(page, 1, "log", a, "", 0)).state;
            var second := Step(first, ConsoleEvent(page, 1, "log", b, "", 0)).state;
            && ReadConsole(second, ConsoleOptions(None, Some(0), false)).0 ==
               [Entry(Log, a, "", 0), Entry(Log, b, "", 0)]
            && ReadConsole(second, ConsoleOptions(None, Some(-1), false)).0 == [Entry(Log, b, "", 0)]
  {
    var shown := Step(INITIAL, TabNewCall(Some(page), false, None, true, true, true)).state;
    assert shown.current == Some(1) && shown.logs == map[1 := []] && shown.listeners == {(page, 1)};
    var first := Step(shown, ConsoleEvent(page, 1, "log", a, "", 0)).state;
    assert first.logs[1] == [Entry(Log, a, "", 0)];
    var second := Step(first, ConsoleEvent(page, 1, "log", b, "", 0)).state;
    assert CurrentBuffer(second) == [Entry(Log, a, "", 0), Entry(Log, b, "", 0)];
  }

  // --- Pages and tabs ---

  /** Opening a page gives a page that was never seen before. */
  predicate PageIsNew(s: State, e: Event) {
    var newPage := if e.TabNewCall? then Some(e.newPage) else NeedsPage(e);
    newPage.Some? && newPage.value.Some? ==> forall l | l in s.listeners :: l.0 != newPage.value.value
  }

  ghost predicate PagesAreNew(s: State, events: seq<Event>) {
    forall i | 0 <= i < |events| :: PageIsNew(Run(s, events[..i]), events[i])
  }

  /** Every open tab listens to its page, and a page has one listener. */
  ghost predicate OneListenerPerPage(s: State) {
    && (forall a, b | a in s.listeners && b in s.listeners :: a.0 == b.0 ==> a == b)
    && (forall tab | tab in s.tabs :: (tab.page, tab.id) in s.listeners)
  }

  lemma StepKeepsListeners(s: State, e: Event)
    requires OneListenerPerPage(s) && PageIsNew(s, e)
    ensures OneListenerPerPage(Step(s, e).state)
  {
    if NeedsPage(e).Some? {
      PageCallEffect(s, e);
    } else if e.TabNewCall? {
      TabNewEffect(s, e);
    } else if e.TabCloseCall? {
      TabCloseEffect(s, e);
    }
  }

  lemma {:induction false} RunKeepsListeners(events: seq<Event>)
    requires PagesAreNew(INITIAL, events)
    ensures OneListenerPerPage(Run(INITIAL, events))
  {
    if events != [] {
      var before := events[..|events| - 1];
      forall i | 0 <= i < |before|
        ensures PageIsNew(Run(INITIAL, before[..i]), before[i])
      {
        assert before[..i] == events[..i];
      }
      RunKeepsListeners(before);
      StepKeepsListeners(Run(INITIAL, before), events[|events| - 1]);
    }
  }

  /** A message of the page shown in tab `own` never reaches the buffer of another tab. */
  lemma MessagesStayInTheirTab(events: seq<Event>, own: Tab, e: Event, other: TabId)
    requires PagesAreNew(INITIAL, events) && own in Run(INITIAL, events).tabs
    requires e.ConsoleEvent? && e.page == own.page && other != own.id && other in Run(INITIAL, events).logs
    ensures var s := Run(INITIAL, events); Step(s, e).state.logs[other] == s.logs[other]
  {
    RunKeepsListeners(events);
    MessageReachesListeners(Run(INITIAL, events), e, other);
  }

  lemma MessageReachesListeners(s: State, e: Event, t: TabId)
    requires e.ConsoleEvent? && t in s.logs && (e.tab != t || (e.page, t) !in s.listeners)
    ensures t in Step(s, e).state.logs && Step(s, e).state.logs[t] == s.logs[t]
  {
  }
}
