/**
 Which browser contexts `dispose` closes. The driver closes its context when
 `ownsContext` is set; the flag is set when a context is created and never cleared, so a
 context that a later acquisition merely reuses is closed as well.
 */
module ContextOwnership {
  import opened Wrappers

  /** A context is known by who created it. */
  datatype Context = Ours(n: nat) | Theirs(n: nat)

  /** `Create(prepared)`: a context was created and its set-up then succeeded or threw.
      `Fail`: no context was created. `Reuse`: the first context of a CDP browser. */
  datatype Event = Create(prepared: bool) | Reuse(found: Context) | Fail | Dispose

  datatype State = State(context: Option<Context>, ownsContext: bool, made: nat, closed: set<Context>)

  const START := State(None, false, 0, {})

  /** A context is acquired only while the driver has none; only a CDP browser has contexts
      to reuse, and those are open. */
  predicate Enabled(cdp: bool, s: State, e: Event) {
    match e
    case Create(_) => s.context.None?
    case Reuse(c) => s.context.None? && cdp && c !in s.closed && (c.Ours? ==> c.n < s.made)
    case Fail => s.context.None?
    case Dispose => true
  }

  function Step(s: State, e: Event): State {
    match e
    case Create(prepared) =>
      s.(context := if prepared then Some(Ours(s.made)) else None, ownsContext := true, made := s.made + 1)
    case Reuse(c) => s.(context := Some(c))
    case Fail => s
    case Dispose =>
      s.(context := None, closed := s.closed + if s.ownsContext && s.context.Some? then {s.context.value} else {})
  }

  function Run(events: seq<Event>): State {
    if events == [] then START else Step(Run(events[..|events| - 1]), events[|events| - 1])
  }

  predicate IsRun(cdp: bool, events: seq<Event>) {
    events == [] ||
    (var before := events[..|events| - 1]; IsRun(cdp, before) && Enabled(cdp, Run(before), events[|events| - 1]))
  }

  /** How many contexts the driver has created. */
  function Made(events: seq<Event>): nat {
    if events == [] then 0
    else Made(events[..|events| - 1]) + if events[|events| - 1].Create? then 1 else 0
  }

  /** The context that event `j` gave the driver. */
  function Given(events: seq<Event>, j: nat): Option<Context>
    requires j < |events|
  {
    match events[j]
    case Create(prepared) => if prepared then Some(Ours(Made(events[..j]))) else None
    case Reuse(c) => Some(c)
    case _ => None
  }

  ghost predicate HasCreated(events: seq<Event>, j: nat)
    requires j <= |events|
  {
    exists i | 0 <= i < j :: events[i].Create?
  }

  /** A `dispose` directly after the event that gave the driver context `c`. */
  ghost predicate DisposedAt(events: seq<Event>, c: Context, j: nat) {
    j + 1 < |events| && events[j + 1].Dispose? && Given(events, j) == Some(c)
  }

  lemma CreatedExtends(events: seq<Event>)
    requires events != []
    ensures var n := |events| - 1;
            HasCreated(events, n + 1) <==> HasCreated(events[..n], n) || events[n].Create?
  {
    var n := |events| - 1;
    assert forall i | 0 <= i < n :: events[i] == events[..n][i];
  }

  /** The flag is set exactly when some event created a context. */
  lemma {:induction false} FlagIff(events: seq<Event>)
    ensures Run(events).ownsContext <==> HasCreated(events, |events|)
  {
    if events != [] {
      FlagIff(events[..|events| - 1]);
      CreatedExtends(events);
    }
  }

  /** The state a run ends in, read off its events. */
  lemma {:induction false} EndsIn(cdp: bool, events: seq<Event>)
    requires IsRun(cdp, events)
    ensures var s := Run(events);
            && s.made == Made(events)
            && (s.ownsContext <==> HasCreated(events, |events|))
            && s.context == if events == [] then None else Given(events, |events| - 1)
  {
    FlagIff(events);
    if events != [] {
      EndsIn(cdp, events[..|events| - 1]);
    }
  }

  lemma DisposedEarlier(events: seq<Event>, c: Context, j: nat)
    requires j + 1 < |events| - 1
    ensures var before := events[..|events| - 1];
            && (DisposedAt(events, c, j) <==> DisposedAt(before, c, j))
            && (HasCreated(events, j + 1) <==> HasCreated(before, j + 1))
  {
    var before := events[..|events| - 1];
    assert events[..j] == before[..j];
    assert forall i | 0 <= i <= j + 1 :: events[i] == before[i];
  }

  ghost predicate ClosedBy(events: seq<Event>, c: Context) {
    exists j: nat :: DisposedAt(events, c, j) && HasCreated(events, j + 1)
  }

  lemma ClosedByExtends(events: seq<Event>, c: Context)
    requires events != []
    ensures var n := |events| - 1;
            ClosedBy(events, c) <==>
            ClosedBy(events[..n], c) || (n > 0 && DisposedAt(events, c, n - 1) && HasCreated(events, n))
  {
    var n := |events| - 1;
    if j: nat :| DisposedAt(events, c, j) && HasCreated(events, j + 1) {
      if j + 1 < n {
        DisposedEarlier(events, c, j);
      }
    }
    if j: nat :| DisposedAt(events[..n], c, j) && HasCreated(events[..n], j + 1) {
      DisposedEarlier(events, c, j);
    }
  }

  /** In every run, the contexts closed are those a `dispose` found in use after the driver
      had at some time created a context: not only those it created. */
  lemma {:induction false} ClosedIff(cdp: bool, events: seq<Event>, c: Context)
    requires IsRun(cdp, events)
    ensures c in Run(events).closed <==> ClosedBy(events, c)
  {
    if events != [] {
      var n := |events| - 1;
      var before := events[..n];
      ClosedIff(cdp, before, c);
      EndsIn(cdp, before);
      ClosedByExtends(events, c);
      assert forall i | 0 <= i < n :: events[i] == before[i];
      assert HasCreated(before, n) <==> HasCreated(events, n);
      if n > 0 {
        assert events[..n - 1] == before[..n - 1];
      }
    }
  }

  /** A context the caller owns is closed exactly when it was reused by a driver that had
      created a context before, and then disposed of. */
  lemma ForeignContextClosedIff(cdp: bool, events: seq<Event>, n: nat)
    requires IsRun(cdp, events)
    ensures Theirs(n) in Run(events).closed <==>
            exists i: nat, j: nat | i < j < |events| - 1 ::
              events[i].Create? && events[j] == Reuse(Theirs(n)) && events[j + 1].Dispose?
  {
    var c := Theirs(n);
    ClosedIff(cdp, events, c);
    if j: nat :| DisposedAt(events, c, j) && HasCreated(events, j + 1) {
      var i: nat :| i < j + 1 && events[i].Create?;
      assert events[j] == Reuse(c) && i < j;
    }
    if i: nat, j: nat :| i < j < |events| - 1 && events[i].Create? && events[j] == Reuse(c) && events[j + 1].Dispose? {
      assert DisposedAt(events, c, j) && HasCreated(events, j + 1);
    }
  }

  /** A context is the driver's only after the driver has created it. */
  lemma OursWasCreated(cdp: bool, events: seq<Event>, n: nat, j: nat)
    requires IsRun(cdp, events) && j < |events| && Given(events, j) == Some(Ours(n))
    ensures HasCreated(events, j + 1)
  {
    if events[j].Reuse? {
      ReusedAfterCreation(cdp, events, n, j);
    }
  }

  lemma {:induction false} MadeIsCreated(events: seq<Event>)
    ensures Made(events) > 0 ==> HasCreated(events, |events|)
  {
    if events != [] {
      var before := events[..|events| - 1];
      MadeIsCreated(before);
      assert forall i | 0 <= i < |before| :: events[i] == before[i];
    }
  }

  lemma {:induction false} ReusedAfterCreation(cdp: bool, events: seq<Event>, n: nat, j: nat)
    requires IsRun(cdp, events) && j < |events| && events[j] == Reuse(Ours(n))
    ensures HasCreated(events, j + 1)
  {
    var before := events[..|events| - 1];
    assert forall i | 0 <= i < |before| :: events[i] == before[i];
    if j < |before| {
      ReusedAfterCreation(cdp, before, n, j);
    } else {
      EndsIn(cdp, before);
      MadeIsCreated(before);
    }
  }

  /** A context the driver created is closed exactly when a `dispose` found it in use: one
      whose set-up threw is left open, unless it is found and reused. */
  lemma OwnContextClosedIff(cdp: bool, events: seq<Event>, n: nat)
    requires IsRun(cdp, events)
    ensures Ours(n) in Run(events).closed <==> exists j: nat :: DisposedAt(events, Ours(n), j)
  {
    ClosedIff(cdp, events, Ours(n));
    if j: nat :| DisposedAt(events, Ours(n), j) {
      OursWasCreated(cdp, events, n, j);
    }
  }

  lemma RunExtends(cdp: bool, before: seq<Event>, e: Event)
    requires IsRun(cdp, before) && Enabled(cdp, Run(before), e)
    ensures IsRun(cdp, before + [e]) && Run(before + [e]) == Step(Run(before), e)
  {
    assert (before + [e])[..|before|] == before;
  }

  /** Dispose, reconnect, dispose: the second `dispose` closes the caller's context. */
  lemma SecondDisposeClosesForeign(n: nat)
    ensures var events := [Create(true)] + [Dispose] + [Reuse(Theirs(n))] + [Dispose];
            IsRun(true, events) && Theirs(n) in Run(events).closed
  {
    var created := [Create(true)];
    RunExtends(true, [], Create(true));
    assert [] + [Create(true)] == created;
    RunExtends(true, created, Dispose);
    RunExtends(true, created + [Dispose], Reuse(Theirs(n)));
    RunExtends(true, created + [Dispose] + [Reuse(Theirs(n))], Dispose);
  }
}
