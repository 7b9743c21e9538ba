/**
 From the text of a snapshot to the locators of the driver: every ref that a reader finds in
 the text can be used, for as long as nothing invalidates the snapshot of its tab.
 */
module DriverRefs {
  import opened Wrappers
  import opened Strings
  import opened A11yLines
  import opened A11yDepth
  import opened A11ySerializer
  import opened A11yYaml
  import opened A11ySnapshot
  import opened DriverModel
  import opened DriverRuns

  /** The refs record of a result, as the driver stores it. */
  function RefMap(refs: seq<RefEntry>): map<string, A11yLines.RefInfo> {
    if refs == [] then map[]
    else RefMap(refs[..|refs| - 1])[refs[|refs| - 1].key := refs[|refs| - 1].info]
  }

  lemma {:induction false} RefMapHas(refs: seq<RefEntry>, i: nat)
    requires i < |refs|
    ensures refs[i].key in RefMap(refs)
  {
    if i < |refs| - 1 {
      RefMapHas(refs[..|refs| - 1], i);
    }
  }

  /** A ref that a line tells of is recorded. */
  lemma ShownRefIsRecorded(f: Format, r: SerializeResult, page: seq<Item>, considered: seq<Item>, kept: nat, n: nat,
                           i: nat)
    requires IsSnapshot(f, r, page, considered, kept, n) && i < kept
    ensures KeyOf(f, considered, i).Some? ==> KeyOf(f, considered, i).value in RefMap(r.refs)
  {
    if KeyOf(f, considered, i).Some? {
      RefMapHas(r.refs, Interactives(f, considered, i));
    }
  }

  /** What `snapshot` passes on from the result of `parseAriaYaml`. */
  function AriaOf(r: SerializeResult): Aria {
    Yaml(RefMap(r.refs), r.title.Some?)
  }

  /** The refs of the lines that are shown are among those stored. */
  lemma ShownAreStored(f: Format, r: SerializeResult, page: seq<Item>, items: seq<Item>, kept: nat, n: nat)
    requires Shows(f, r, page, items, kept, n)
    ensures forall i | 0 <= i < kept && KeyOf(f, items, i).Some? :: KeyOf(f, items, i).value in RefMap(r.refs)
  {
    forall i | 0 <= i < kept && KeyOf(f, items, i).Some?
      ensures KeyOf(f, items, i).value in RefMap(r.refs)
    {
      ShownRefIsRecorded(f, r, page, items, kept, n, i);
    }
  }

  /** The refs that the lines of a text tell of lead to locators. */
  ghost predicate ShownIsAccepted(f: Format, items: seq<Item>, kept: nat, s: State) {
    kept <= |items| && forall i | 0 <= i < kept && KeyOf(f, items, i).Some? :: HasLocator(s, KeyOf(f, items, i).value)
  }

  /** After a snapshot of tab `t`, whatever happens that does not touch it: focus the tab, and
      every ref that a reader finds in a line of the text that was returned leads to a
      locator. `r` is what `parseAriaYaml` returns for the text of the page. */
  lemma ShownRefsAreAccepted(s: State, newPage: Option<Page>, yaml: string, maxChars: int, maxDepth: int,
                             page: seq<Item>, r: SerializeResult, titleOk: bool, t: TabId, events: seq<Event>)
    returns (kept: nat, n: nat)
    requires Inv(s) && EnsurePage(s, newPage).Some?
    requires page == Elements(ReadLine, Split(yaml, '\n'))
    requires r == Finish(LineRun(LineFormat(maxChars), maxDepth, INIT, page))
    ensures Shows(LineFormat(maxChars), r, page, Shallow(maxDepth, page), kept, n)
    ensures var after := Step(s, SnapshotCall(newPage, AriaOf(r), titleOk)).state;
            after.current == Some(t) && Quiet(after, events, t) ==>
              ShownIsAccepted(LineFormat(maxChars), Shallow(maxDepth, page), kept,
                              Step(DriverModel.Run(after, events), TabFocusCall(t, true, titleOk)).state)
  {
    kept, n := YamlShows(yaml, maxChars, maxDepth, page);
    ShownStaysAccepted(s, newPage, LineFormat(maxChars), r, page, Shallow(maxDepth, page), kept, n, titleOk, t, events);
  }

  lemma ShownStaysAccepted(s: State, newPage: Option<Page>, f: Format, r: SerializeResult, page: seq<Item>,
                           items: seq<Item>, kept: nat, n: nat, titleOk: bool, t: TabId, events: seq<Event>)
    requires Inv(s) && EnsurePage(s, newPage).Some? && Shows(f, r, page, items, kept, n)
    ensures var after := Step(s, SnapshotCall(newPage, AriaOf(r), titleOk)).state;
            after.current == Some(t) && Quiet(after, events, t) ==>
              ShownIsAccepted(f, items, kept,
                              Step(DriverModel.Run(after, events), TabFocusCall(t, true, titleOk)).state)
  {
    var after := Step(s, SnapshotCall(newPage, AriaOf(r), titleOk)).state;
    ShownAreStored(f, r, page, items, kept, n);
    if after.current == Some(t) && Quiet(after, events, t) {
      StoredRefsStay(s, newPage, AriaOf(r), titleOk, t, events);
    }
  }

  lemma StoredRefsStay(s: State, newPage: Option<Page>, aria: Aria, titleOk: bool, t: TabId, events: seq<Event>)
    requires Inv(s) && EnsurePage(s, newPage).Some? && aria.Yaml?
    requires var after := Step(s, SnapshotCall(newPage, aria, titleOk)).state;
             after.current == Some(t) && Quiet(after, events, t)
    ensures var after := Step(s, SnapshotCall(newPage, aria, titleOk)).state;
            var focused := Step(DriverModel.Run(after, events), TabFocusCall(t, true, titleOk)).state;
            forall ref | ref in aria.refs :: HasLocator(focused, ref)
  {
    var after := Step(s, SnapshotCall(newPage, aria, titleOk)).state;
    StepKeepsInv(s, SnapshotCall(newPage, aria, titleOk));
    EnsurePageKeepsInv(s, newPage);
    assert after == StoreSnapshot(EnsurePage(s, newPage).value, t, aria.refs);
    RefocusRestoresRefs(after, events, t, titleOk);
  }
}
