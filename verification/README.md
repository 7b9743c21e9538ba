# Verified models of Koi's snapshot serialisers, browser driver and repository gates

This project models the parts of Koi whose correctness is not visible from one function
body, and proves what they promise for all inputs, all runs or all reachable states.
`dafny verify dfyconfig.toml` checks everything.

- **Doc wiring gate** (`Decimal`, `JsonNumber`, `JsonText`, `DocWiring`). The gate compares
  two `package.json` files by the text `stableJson` prints. Text is modelled as UTF-16 code
  units, numbers as ECMA-262 `Number::toString` prints them, `localeCompare` as an arbitrary
  consistent comparator. The printed text is uniquely readable, so the gate's answer is
  characterised exactly.
- **Accessibility snapshots** (`Strings`, `Wrappers`, `A11yLines`, `A11yDepth`,
  `A11yRefs`, `A11ySerializer`, `A11yLine`, `A11yYaml`, `A11yRoundTrip`, `A11yShown`,
  `A11ySnapshot`). Both serialisers are imperative and proved against one description of a run over
  the elements in document order. The line expression is a character parser that is exact for its
  grammar. What a reader finds in the returned text, refs, flag and title is stated on the result.
- **Browser driver** (`DriverModel`, `DriverRuns`, `DriverConsole`, `DriverPromises`,
  `DriverRefs`, `Driver`). `Driver` is a class with the driver's variables and a ghost history
  of calls and messages. Its methods keep the object where the history leads and promise what
  a caller sees: refs that are accepted, tabs that are open, messages that were logged. Each
  Playwright call succeeds or fails arbitrarily. The theorems are about every sequence of steps.
- **Shared initialisation** (`InitProtocol`, `InitLifetimes`, `InitRaces`, `ContextOwnership`). Concurrent
  callers of `ensureContext` interleave through an explicit job queue (section 9.5 of
  ECMA-262), with jobs of unrelated user code anywhere in it.
- **Startup latency gate** (`StartupStats`, `StartupGate`), **surface renderer**
  (`SurfaceRenderer`, `SurfaceLayout`), **command detector** (`Stretches`, `BunTestFilter`), **layer rules**
  (`LayersGraph`) and **document patcher** (`LayerDocs`).

## Where the code and its documentation disagree

The models follow the code. Each case has an exact condition.

- a11y-serializer.ts:8 says both serialisers produce the same result. Below `maxDepth` one
  stops and the other skips and goes on: `A11yRoundTrip.SerializersAgreeIff` says when this
  shows.
- The title is to be that of the first document (a11y-serializer.ts:73). Of several at the top
  level the last one read gives it: `A11ySnapshot.TitleIsFirstIff`.
- The gate is meant to ignore key order. Keys that `localeCompare` calls equal keep their
  order, which can differ unless one of them is an array index:
  `DocWiring.GateIgnoresKeyOrderIff`.
- A ref may lead to another element: after an earlier one of its role and name was skipped for
  its depth, or, without a name, after any earlier one of its role that was skipped or has a
  name: `A11yRefs.RefIsExactIff`, for whole snapshots `A11yRefs.LineRefFindsItsElementIff` and
  `A11yRefs.TreeRefFindsItsElementIff`.
- Snapshot ids repeat after an invalidation: `DriverRuns.OldIdAcceptedAgainIff`.
- A console limit is to give at most that many of the most recent entries. A limit of zero or
  less gives all matching entries but the oldest: `DriverConsole.LimitIsKeptIff`, on runs
  `DriverPromises.ConsolePromise`.
- The promise caches are to prevent two context inits at once. A user job that calls between
  two waiters of a failed init defeats them: `InitProtocol.SharedInitIsSafe`,
  `InitRaces.RacedRunForgetsInit`.
- `dispose` is to leave reused contexts alone. The flag it asks is never cleared:
  `ContextOwnership.ForeignContextClosedIff`.
- Generating an empty list leaves a stray line, so the sync check rejects it:
  `LayerDocs.GeneratorOutputInSyncIff`.

## Model

| member | source | states |
|---|---|---|
| `JsonNumber.NumberTextInjective` | scripts/check-doc-wiring-utils.ts:17-19 | two finite numbers with the same printed text are the same number, across plain and exponent notation |
| `JsonText.ReadString` | scripts/check-doc-wiring-utils.ts:17-22 | the end of a quoted string can be found in one place only, so escaped strings determine their content, lone surrogates included |
| `JsonText.ReadValue` | scripts/check-doc-wiring-utils.ts:13-24 | unique readability: a text that begins with a printed value followed by a delimiter begins with only one, at every nesting depth |
| `JsonText.PrintInjective` | scripts/check-doc-wiring-utils.ts:13-24 | different JSON values never print the same |
| `DocWiring.SortAligns` | scripts/check-doc-wiring-utils.ts:20 | the stable sort lines up the keys of two objects exactly when they have the same keys and agree on the order of keys that compare equal |
| `JsonText.IndexOfIff` | scripts/check-doc-wiring-utils.ts:20 | the keys `Object.entries` lists first, in ascending order, are exactly the numerals of numbers below 2^32 - 1 |
| `DocWiring.IndexKeepsPlace` | scripts/check-doc-wiring-utils.ts:20 | an array index stands on the same side of another key in every object that has both |
| `DocWiring.StableJsonPrintsCanonical` | scripts/check-doc-wiring-utils.ts:13-24 | `stableJson` prints the value with all objects sorted, at every depth |
| `DocWiring.StableJsonEqual` | scripts/check-doc-wiring-utils.ts:13-24 | two texts are equal if and only if the values are equal up to key order, keys that compare equal kept in order |
| `DocWiring.TieFreeForgetsOrder` | scripts/check-doc-wiring-utils.ts:20 | without two keys that compare equal, array indices apart, that is equality up to key order at every depth |
| `DocWiring.TieMisleads` | scripts/check-doc-wiring-utils.ts:20 | every value with such a pair of keys anywhere has a rearrangement, itself a JavaScript value, that the gate takes for a change |
| `DocWiring.CanonicallyEquivalentKeys` | scripts/check-doc-wiring-utils.ts:20 | a concrete pair of keys, one accented letter in its two spellings |
| `DocWiring.PackageJsonChangeRequiresDocUpdate` | scripts/check-doc-wiring-utils.ts:26-41 | for two records the gate answers no exactly when they have the same keys other than `scripts`, keys that compare equal in the same order, and equal values under each of them up to key order; without harmful ties the order does not matter at all; other values are compared whole |
| `DocWiring.GateIgnoresKeyOrderIff` | scripts/check-doc-wiring-utils.ts:26-41 | the gate ignores key order and top-level `scripts`, and nothing else, for a manifest if and only if no object in it, `scripts` apart, has two distinct keys that compare equal and of which neither is an array index |
| `A11yLines.OccurrenceKeyInjective` | a11y-serializer.ts:155-158 | the counter key of a role and a name is unambiguous, whatever the name contains |
| `A11yLines.RunKeepsLongestPrefix` | a11y-serializer.ts:173-181 | a run keeps the longest prefix whose lines fit the budget, and flags a cut exactly when something is missing |
| `A11yLines.RunRecords` | a11y-serializer.ts:155-181 | refs and title are those of the kept elements, and of the first that did not fit unless the budget was used up |
| `A11yLines.RunMatchesRefsToLines` | a11y-serializer.ts:155-181 | ref keys are e1 to eN in document order, every ref printed in a line is recorded, and at most the last recorded one has no line, only when truncated |
| `A11yLines.TextWithinBudget` | a11y-serializer.ts:173-192 | the text is never longer than a non-negative budget, in UTF-16 units |
| `A11yLines.NthNamedFindsItself` | a11y-serializer.ts:155-167 | counting the earlier elements of the same role and name finds the very element again |
| `A11yLines.RefKeyInjective` | a11y-serializer.ts:160 | ref keys of different numbers differ |
| `A11ySerializer.RolesAreSeparable` | a11y-serializer.ts:39-62 | no interactive role contains the separator of the counter key |
| `A11ySerializer.Serializer.constructor` | a11y-serializer.ts:99-116 | a traversal starts from nothing |
| `A11ySerializer.Serializer.Emit` | a11y-serializer.ts:124-181 | one node updates title, ref counter, refs, duplicate counts, lines, budget and flag as one recorded element, and says whether its line was kept |
| `A11ySerializer.Serializer.Visit` | a11y-serializer.ts:117-190 | the recursive traversal with early exit is the linear run over the preorder |
| `A11ySerializer.AttrsShowState` | a11y-serializer.ts:141-153 | level and value come first, then exactly the flags of the node's state in their order, then a description that is not empty |
| `A11ySerializer.CleanTextIsKept` | a11y-serializer.ts:89-98 | shown names hold no quotes or line breaks, and text without them is shown as it is |
| `A11yDepth.TreeRunIsRun` | a11y-serializer.ts:117-190 | the tree form is the budgeted run over the elements before the first one below the depth limit |
| `A11yDepth.LineRunIsRun` | a11y-serializer.ts:236-318 | the line form is the budgeted run over all elements within the depth limit |
| `A11yDepth.TreeKeepsLongestPrefix` | a11y-serializer.ts:117-192 | the traversal emits the longest preorder prefix within the depth limit whose lengths and newlines fit, and `truncated` holds exactly when a node is missing |
| `A11yDepth.FormsAgreeIff` | a11y-serializer.ts:119-122 | on any tree and budget, stopping and skipping below the depth limit return the same exactly when nothing within the limit follows the first deep element, or the lines before it use up the budget, or the next element neither fits nor gets a ref |
| `A11yRefs.SnapshotIsSound` | a11y-serializer.ts:117-318 | both forms keep the text within the budget and refs in step with lines, for any input |
| `A11yRefs.SnapshotRefsDistinct` | a11y-serializer.ts:155-167 | no two refs of a snapshot share role, name and index, in either form |
| `A11yRefs.TreeRefFindsItsElementIff` | a11y-serializer.ts:155-167 | the n-th ref of the tree form was made for the n-th interactive element; the driver's lookup returns that element exactly when no other answers to the ref, which by role and name is always so |
| `A11yRefs.LineRefFindsItsElementIff` | a11y-serializer.ts:289-302 | the same for the line form, where an earlier element of the same role and name that was skipped for depth answers too |
| `A11yRefs.RefIsExactIff` | playwright-browser-driver.ts:498-521 | a ref leads back to its element exactly when: with a native aria-ref, no other element has it; with a name, no earlier element of its role and name was skipped; without, no earlier element of its role was skipped or has a name |
| `A11yRefs.SkippedButtonIsFound` | a11y-serializer.ts:246-249 | a page on which, for every name and also without one, the only ref of the snapshot finds a skipped button |
| `A11yRefs.UnnamedRefFindsNamedButton` | playwright-browser-driver.ts:516-520 | a tree on which, with the default options, the ref of an unnamed button finds a named one, in both forms |
| `A11yLine.FormIsMatched` | a11y-serializer.ts:234 | every line of the form the expression describes is matched, with its own parts |
| `A11yLine.MatchIffForm` | a11y-serializer.ts:234 | a line has a given match if and only if it has the form with exactly these parts |
| `A11yYaml.SeparateAriaRef` | a11y-serializer.ts:276-287 | attributes without native refs stay in order, and the last native ref is returned |
| `A11yYaml.SerializeLines` | a11y-serializer.ts:236-318 | the loop over lines is the line form of the run over the elements read, for any reader and format |
| `A11yYaml.LineIsReadIff` | a11y-serializer.ts:236-287 | exactly the lines of the form stand for an element, whatever white space ends them, and the element has the parts of the form; blank lines and metadata stand for none |
| `A11yYaml.ReadPrinted` | a11y-serializer.ts:236-287 | an element printed in the YAML line form is read back with depth, role, name, attributes, native ref and inline text |
| `A11yRoundTrip.ReadBack` | a11y-serializer.ts:217-287 | parsing a printed tree yields the preorder of the tree |
| `A11yRoundTrip.SerializersAgreeIff` | a11y-serializer.ts:217-326 | printing a tree and parsing it gives the same text, refs, flag and title as serialising it, exactly under the condition of `FormsAgreeIff`, which is read off the tree |
| `A11yRoundTrip.SerializersDisagree` | a11y-serializer.ts:119-122 | a tree on which the two results differ |
| `A11yRoundTrip.SerializersAgreeWithinDepth` | a11y-serializer.ts:99-200 | for trees within the depth limit the two results are equal, for every budget |
| `A11yShown.LineTells` | a11y-serializer.ts:133-171 | a line of a snapshot, taken apart by the line grammar, gives back depth, role, shown name, the attributes followed by `ref=` and the key exactly when the element has one, and the inline text |
| `A11yShown.RefLine` | a11y-serializer.ts:133-171 | the line of a named element with a ref, to the letter |
| `A11yShown.AttrLine` | a11y-serializer.ts:133-171 | the line of a nested element with attributes, to the letter |
| `A11yShown.InlineLine` | a11y-serializer.ts:304-309 | the line of an element with inline text, to the letter |
| `A11yShown.YamlIsReadable` | a11y-serializer.ts:236-309 | every element read from any text is one whose line can be taken apart |
| `A11ySnapshot.TitleIsFirstIff` | a11y-serializer.ts:260-263 | the title is the name of the first top-level document exactly when the last one recorded has the same name |
| `A11ySnapshot.TreeTitleIsFirst` | a11y-serializer.ts:128-131 | for trees it always is |
| `A11ySnapshot.LaterTitleWins` | a11y-serializer.ts:260-263 | two documents of which the second gives the title |
| `A11ySnapshot.OptionDefaults` | a11y-serializer.ts:103-105 | the budget is four characters for each token, 4000 tokens and eight levels unless given |
| `A11ySnapshot.SerializeA11yTree` | a11y-serializer.ts:99-200 | the text has one line for each kept element, from which its parts and its ref can be read when the tree fits the grammar; the refs say role, name, native ref and index of the recorded elements, numbered in order; title, flag and budget are as stated on the elements |
| `A11ySnapshot.ParseAriaYaml` | a11y-serializer.ts:217-326 | the same for every text, and every line of the result can be read |
| `Driver.PlaywrightDriver.constructor` | playwright-browser-driver.ts:265-286 | a new driver has an empty history |
| `Driver.PlaywrightDriver.IsReached` | playwright-browser-driver.ts:265-286 | a driver is in the state its history of calls and messages leads to, so that what holds of runs holds of it |
| `Driver.PlaywrightDriver.Snapshot` | playwright-browser-driver.ts:551-600 | which result each outcome gives; a text makes exactly its refs accepted, under the returned id when it succeeds; one that gets no text changes nothing stored; other tabs keep theirs |
| `Driver.PlaywrightDriver.Navigate` | playwright-browser-driver.ts:602-636 | which result each outcome gives; with a timeout of at most a minute no ref is accepted afterwards, whether or not the page loads; otherwise snapshots stay |
| `Driver.PlaywrightDriver.ActOnRef` | playwright-browser-driver.ts:638-744 | the page is touched exactly when the ref was accepted, a given snapshot id was fresh and the timeout is at most ten seconds, and the result is settled in each case; after a successful click, type or select no ref is accepted, otherwise all snapshots are kept |
| `Driver.PlaywrightDriver.FillForm` | playwright-browser-driver.ts:746-790 | fields are written exactly when there are some, all their refs are accepted, a given snapshot id was fresh and the timeout is valid; success means all are written, a failing field that those before it are; the result is settled in each case, and after success no ref is accepted |
| `Driver.PlaywrightDriver.TabNew` | playwright-browser-driver.ts:892-940 | a new tab becomes current under an id no tab of this driver ever had; one that does not load leaves tabs and current tab as before, except that a page with an invalid timeout that cannot be closed stays open beside them; snapshots stay |
| `Driver.PlaywrightDriver.TabClose` | playwright-browser-driver.ts:942-971 | exactly the target and its snapshot go, and closing the current tab makes the newest remaining one current, or none |
| `Driver.PlaywrightDriver.TabFocus` | playwright-browser-driver.ts:973-1011 | exactly open tabs are found, the result is settled in each case, and the stored snapshot id and refs of the tab are accepted again |
| `Driver.PlaywrightDriver.Console` | playwright-browser-driver.ts:1030-1044 | of the last 200 messages the current tab has logged since it was opened or cleared, all those of the levels asked for are counted; the result is the newest part of them the limit allows exactly when the limit is positive or so negative that nothing is left |
| `Driver.PlaywrightDriver.OnConsole` | playwright-browser-driver.ts:300-317 | a message that carries signal joins the log of its tab, of which the newest 200 are kept, and no other tab hears it |
| `Driver.PlaywrightDriver.Dispose` | playwright-browser-driver.ts:1129-1153 | nothing is open or accepted, and every id ever used stays below the counter |
| `DriverPromises.RefPromise` | playwright-browser-driver.ts:471-542 | at the end of every run, when a call that names a ref touches the page, its result, and what it leaves accepted |
| `DriverPromises.FormPromise` | playwright-browser-driver.ts:746-790 | the same for forms, exactly: all refs are checked before anything is written |
| `DriverPromises.SnapshotPromise` | playwright-browser-driver.ts:551-600 | at the end of every run, what a snapshot call makes accepted and what it leaves alone |
| `DriverPromises.TabNewPromise` | playwright-browser-driver.ts:892-940 | at the end of every run, the next id is new, and which tabs are open and current in each way the call can end |
| `DriverPromises.TabClosePromise` | playwright-browser-driver.ts:942-971 | at the end of every run, the fallback after closing a tab |
| `DriverPromises.ConsolePromise` | playwright-browser-driver.ts:1030-1044 | at the end of every run and for every integer limit, what a read returns of the full log and exactly when that is the newest part the limit allows |
| `DriverPromises.MessagePromise` | playwright-browser-driver.ts:300-317 | at the end of every run, where a message goes |
| `DriverRefs.ShownRefsAreAccepted` | playwright-browser-driver.ts:551-600 | the text a snapshot returned can be read, and every ref a reader finds in a line of it leads to a locator, after any run that does not touch the snapshot |
| `DriverRuns.SnapshotIdInjective` | playwright-browser-driver.ts:574-581 | ids of different tabs or counters never coincide |
| `DriverRuns.StepKeepsInv` | playwright-browser-driver.ts:450-1153 | every call and event keeps: current tab open, snapshots only for open tabs, buffers for exactly the open tabs, tab order is id order |
| `DriverRuns.RunKeepsInv` | playwright-browser-driver.ts:450-1153 | so does every run |
| `DriverRuns.CloseFallsBackToNewest` | playwright-browser-driver.ts:942-971 | closing the current tab makes the most recently opened remaining tab current, or none |
| `DriverRuns.ClosedIdsNeverReturn` | playwright-browser-driver.ts:292-294 | a tab id that is no longer open is never open again, across `dispose` too |
| `DriverRuns.UsedIdsBelowCounter` | playwright-browser-driver.ts:292-294 | every id a tab had at any time of a run is at most the counter |
| `DriverRuns.SnapshotSurvives` | playwright-browser-driver.ts:255-259 | a tab's snapshot is unchanged by whatever happens in other tabs |
| `DriverRuns.RefocusRestoresRefs` | playwright-browser-driver.ts:973-1011 | after focusing the tab again its id and every ref are accepted |
| `DriverRuns.RefsEndWithTheirSnapshot` | playwright-browser-driver.ts:471-542 | after a successful click, type, select or form, or a navigate with a valid timeout, every later call naming a ref fails without acting on the page until a new snapshot is stored |
| `DriverRuns.CounterCountsSnapshots` | playwright-browser-driver.ts:574-581 | between invalidations the counter of a tab is the number of snapshots stored |
| `DriverRuns.IdAcceptedIff` | playwright-browser-driver.ts:471-486 | an id is accepted exactly when it is that of the stored snapshot of the current tab |
| `DriverRuns.EarlierIdAcceptedIff` | playwright-browser-driver.ts:471-486 | without an invalidation an earlier id is accepted exactly when no further snapshot of the tab was stored |
| `DriverRuns.OldIdAcceptedAgainIff` | playwright-browser-driver.ts:296-298 | after an invalidation the k-th id is accepted again exactly when k snapshots have been stored since |
| `DriverRuns.RepeatedIdIsAccepted` | playwright-browser-driver.ts:574-581 | a run in which an old id passes as fresh although its refs are gone |
| `DriverConsole.PushKeepsTail` | playwright-browser-driver.ts:300-317 | pushing with eviction is appending to an unbounded log and keeping its tail |
| `DriverConsole.BufferIsTailOfLog` | playwright-browser-driver.ts:300-317 | in every reachable state a buffer holds the last 200 signal-carrying messages since the last clear |
| `DriverConsole.ReadReturnsNewest` | playwright-browser-driver.ts:1030-1044 | an unfiltered read with a positive limit returns the newest entries of the full log |
| `DriverConsole.LevelIsTheTable` | playwright-browser-driver.ts:156-191 | each message type has the level of the table, structural types have none, and all others are logs |
| `DriverConsole.FilterSelects` | playwright-browser-driver.ts:1036-1037 | filtering keeps the entries at exactly the positions whose level is asked for, in order |
| `DriverConsole.LimitIsKeptIff` | playwright-browser-driver.ts:1033-1039 | of the entries at those positions the newest, at most as many as the limit, are returned exactly when the limit is positive or at most minus their number; otherwise too many are, all but the oldest |
| `DriverConsole.LimitIsExceeded` | playwright-browser-driver.ts:1033-1039 | a run after which a limit of 0 gives two entries and a limit of -1 gives one |
| `DriverConsole.MessagesStayInTheirTab` | playwright-browser-driver.ts:300-317 | a page's message never reaches the buffer of another tab |
| `InitProtocol.StepKeepsInv` | playwright-browser-driver.ts:319-448 | each call, job, queued user job and dispose, and each settling whatever is queued before it, keeps the protocol invariant, unless it is a race |
| `InitProtocol.SharedInitIsSafe` | playwright-browser-driver.ts:319-448 | in every interleaving without a race at most one context init and one launch are in flight, at most one of each succeeds per lifetime, all callers get the same context, and an init in progress is the one the driver remembers |
| `InitProtocol.ResumedCodeNeverRaces` | playwright-browser-driver.ts:319-448 | a run never races when the only user jobs are those of callers being resumed, whatever they call |
| `InitRaces.RaceForgetsInit` | playwright-browser-driver.ts:438-446 | after the first race of a run there is a continuation in which the driver forgets the init it has just started |
| `InitRaces.RacedRunForgetsInit` | playwright-browser-driver.ts:438-446 | every run of a new driver that races anywhere has, from its first race on, a continuation in which the driver forgets an init in progress, so the condition is exact |
| `InitRaces.ForgottenIsDoubled` | playwright-browser-driver.ts:354-360 | the next caller then starts a second init beside it |
| `InitRaces.RacingRunStartsTwoInits` | playwright-browser-driver.ts:438-446 | a run from a new driver that ends with two context inits in flight |
| `InitProtocol.NothingStaysRejected` | playwright-browser-driver.ts:344-349 | without a race, once only user jobs are queued no failed promise is cached and nobody waits for a settled one |
| `InitProtocol.RetriesReuseBrowser` | playwright-browser-driver.ts:354-448 | a driver that uses a browser goes on using it without another launch, through every failure, retry and race until a dispose |
| `InitProtocol.KnownBrowserIsReused` | playwright-browser-driver.ts:354-448 | a driver reached without a race that has its browser keeps it: retries after failed context creations never launch another and create on that one, whatever happens, until a dispose, and beyond when the browser was given to it or connected to |
| `InitLifetimes.DisposeStartsAnew` | playwright-browser-driver.ts:1129-1153 | after a dispose a driver that launches its own browser has none and remembers no launch, any other keeps its browser, and neither remembers a context or an init |
| `InitLifetimes.NextCallLaunches` | playwright-browser-driver.ts:319-360 | the next call of such a driver starts a launch, and a context init that waits for it |
| `InitLifetimes.NoCreationBeforeLaunch` | playwright-browser-driver.ts:319-393 | without a browser, in any run, no context is created until a launch succeeds |
| `InitLifetimes.GivenBrowserIsEnough` | playwright-browser-driver.ts:354-378 | a driver with a browser of its caller, or with a data directory of its own, launches none in any run |
| `InitLifetimes.NobodyIsLost` | playwright-browser-driver.ts:354-448 | in every run, races and disposes included, each caller has run as often as it called, or is queued or waiting for the rest |
| `InitLifetimes.ResumedCallerIsTold` | playwright-browser-driver.ts:438-446 | a waiter told of a context has received it and the driver keeps it; one told of a failure receives nothing and the driver forgets the init |
| `ContextOwnership.ClosedIff` | playwright-browser-driver.ts:1140-1145 | in every run the contexts closed are those a dispose found in use after the driver had ever created one |
| `ContextOwnership.ForeignContextClosedIff` | playwright-browser-driver.ts:271-273 | a caller's context is closed exactly when it was reused after an earlier creation and then disposed of |
| `ContextOwnership.OwnContextClosedIff` | playwright-browser-driver.ts:354-393 | a context the driver created is closed exactly when a dispose found it in use, so one whose set-up threw stays open unless found again |
| `ContextOwnership.SecondDisposeClosesForeign` | playwright-browser-driver.ts:1140-1145 | a run that closes a caller's context |
| `StartupStats.ComputeStats` | scripts/measure-startup.ts:156-179 | minimum and maximum are samples that bound all, the mean is the sum of the samples over their number, the percentiles are nearest-rank percentiles of the unsorted samples; no samples is an error |
| `StartupStats.OrderStatistic` | scripts/measure-startup.ts:156-179 | the k-th sorted sample is at most x exactly when more than k samples are |
| `StartupStats.PercentileIsNearestRank` | scripts/measure-startup.ts:156-179 | a percentile is the least value that enough samples do not exceed |
| `StartupStats.OrderStatisticsGrow` | scripts/measure-startup.ts:156-179 | pointwise slower samples have larger order statistics, although sorting permutes them |
| `StartupStats.CompareAgainst` | scripts/measure-startup.ts:181-226 | one violation for each broken rule and no other, with its measured value and limit: the budget, or the baseline plus the slack or a fifth (p50) or a quarter (p90), whichever is more |
| `StartupStats.SlowerRunViolatesMore` | scripts/measure-startup.ts:181-226 | a slower run breaks every rule the faster one breaks, against any baseline |
| `StartupStats.NoDriftAgainstItself` | scripts/measure-startup.ts:181-226 | a run does not drift from its own baseline exactly when slack or the measured value is not negative |
| `StartupGate.ValidateBaselineSchema` | scripts/measure-startup.ts:253-288 | no error exactly for a complete baseline; missing and unknown scenarios and every field that is not finite are named; a null entry throws |
| `StartupGate.SelectBaseline` | scripts/measure-startup.ts:795-982 | in each mode measurement starts in exactly the listed cases and with the listed baseline; in gate mode never with one that is incomplete or of another environment, and the working tree is taken over a ref only for a migration |
| `StartupGate.RunGate` | scripts/measure-startup.ts:1036-1053 | the gate reports exactly the violations of its scenarios, some if and only if a rule is broken |
| `StartupGate.TrustedBaselineCoversEveryScenario` | scripts/measure-startup.ts:253-288 | with a trusted baseline every scenario is held to the p50 and p90 of its own entry |
| `StartupGate.SlowerRunStillFails` | scripts/measure-startup.ts:1036-1053 | slowing a run down never makes a failing gate pass |
| `StartupGate.FreshBaselineIsTrusted` | scripts/measure-startup.ts:240-288 | a baseline written from a run is trusted in the same environment |
| `StartupGate.NoDriftFromOwnBaseline` | scripts/measure-startup.ts:181-226 | and that run can break only the hard ceiling against it |
| `SurfaceRenderer.FindRoots` | archive/v1/scripts/demo-canvas-viewer.ts:204-213 | the roots are the components no component names as a child, each once and in order |
| `SurfaceRenderer.RenderedIffReachable` | archive/v1/scripts/demo-canvas-viewer.ts:179-196 | rendering ends on every graph and descends into exactly the reachable components |
| `SurfaceRenderer.MarkerIffLoop` | archive/v1/scripts/demo-canvas-viewer.ts:179-196 | rendering makes a cycle marker exactly when a cycle is reachable |
| `SurfaceRenderer.ShownIffReachable` | archive/v1/scripts/demo-canvas-viewer.ts:154-196 | a component is in the HTML exactly when it is reachable through containers |
| `SurfaceRenderer.ShownMarkerIffLoop` | archive/v1/scripts/demo-canvas-viewer.ts:154-196 | a cycle marker is in the HTML exactly when a cycle is reachable through containers |
| `SurfaceLayout.RouteIsRendered` | archive/v1/scripts/demo-canvas-viewer.ts:179-196 | every route of child references leads to the node it should: a marker where an id comes up again, nothing for an unknown id, and otherwise the component |
| `SurfaceLayout.NodeHasRoute` | archive/v1/scripts/demo-canvas-viewer.ts:179-196 | and there are no other nodes |
| `SurfaceLayout.LaterWins` | archive/v1/scripts/demo-canvas-viewer.ts:198-202 | of several components with one id the last is looked up |
| `SurfaceLayout.RenderSurface` | archive/v1/scripts/demo-canvas-viewer.ts:179-213 | for every list of components, repeated ids included: one part for each root, in order, with exactly the nodes of the routes from it; what is descended into and what is in the HTML are exactly what lies below the roots, through containers for the HTML, with a marker exactly when a cycle does |
| `SurfaceRenderer.AcyclicSurface` | archive/v1/scripts/demo-canvas-viewer.ts:179-213 | without cycles that is every component |
| `BunTestFilter.IsBunTestWithFilter` | scripts/check-bun-test-filter.ts:163-202 | true exactly when some `bun`, then only flags and single values of flags, then `test`, then a filter |
| `BunTestFilter.OtherSubcommandsPass` | scripts/check-bun-test-filter.ts:96-127 | a command whose every `bun` is followed by another subcommand is never flagged |
| `BunTestFilter.ReconstructArgv` | scripts/check-bun-test-filter.ts:213-231 | the loop collects the `--until-pass` values in order |
| `BunTestFilter.UntilPassRoundTrip` | scripts/check-bun-test-filter.ts:213-231 | any argv is recovered from any mix of the two spellings and unrelated tokens |
| `BunTestFilter.UntilPassLineRoundTrip` | scripts/check-bun-test-filter.ts:213-231 | the same on the text of a command line |
| `BunTestFilter.JoinContinuations` | scripts/check-bun-test-filter.ts:59-86 | one logical line for each maximal run of continued lines, at the number of its first line |
| `BunTestFilter.GroupTextIsJoin` | scripts/check-bun-test-filter.ts:59-86 | its text is that of the lines joined by spaces |
| `BunTestFilter.TokensCover` | scripts/check-bun-test-filter.ts:134-164 | the tokens are the stretches between white space and quotes, all of them, in order |
| `BunTestFilter.ContinuesIff` | scripts/check-bun-test-filter.ts:70-74 | a line continues exactly when only white space follows a backslash, which is cut off with it |
| `BunTestFilter.BadExamples` | scripts/check-bun-test-filter.ts:139-163 | commands the comments name as bad |
| `BunTestFilter.GoodExamples` | scripts/check-bun-test-filter.ts:139-163 | commands the comments name as good |
| `BunTestFilter.IsFlagged` | scripts/check-bun-test-filter.ts:233-258 | a logical line is flagged exactly when a stretch between separators, wherever it is, holds a bad command, or the reconstructed command is bad |
| `BunTestFilter.DetectViolations` | scripts/check-bun-test-filter.ts:233-258 | the flagged logical lines of the file are reported once each, in order |
| `BunTestFilter.ReportedIff` | scripts/check-bun-test-filter.ts:233-258 | a report stands for a flagged logical line, and every flagged one has a report |
| `BunTestFilter.FlaggedInOrder` | scripts/check-bun-test-filter.ts:233-258 | each flagged line is reported once, in order |
| `BunTestFilter.FlaggedLineIsReported` | scripts/check-bun-test-filter.ts:59-86 | no line of a file escapes: the command it is part of is checked, and reported where it starts |
| `LayersGraph.ClassifiedIsLayer` | scripts/layers-graph.ts:40-47 | a name has the layer of the first set that holds it, and is a feature package when none does |
| `LayersGraph.DetectViolations` | scripts/layers-graph.ts:81-99 | every dependency the rules forbid, by membership in the layer sets, is reported once, in order |
| `LayersGraph.PathsStayInLayers` | scripts/layers-graph.ts:63-79 | without violations no path leads on from a core package, and one from a package that is not meta or distribution reaches only core and utility packages |
| `LayersGraph.CyclesStayInLayers` | scripts/layers-graph.ts:63-79 | every dependency cycle lies among utilities outside the core or among meta and distribution packages |
| `LayerDocs.GrammarIs` | scripts/generate-layer-docs.ts:154-168 | which lines start the paragraph, belong to the list and end it |
| `LayerDocs.ParagraphTells` | scripts/generate-layer-docs.ts:106-113 | the generated paragraph gives the number of packages and names each of them, in order |
| `LayerDocs.PatchL0uParagraph` | scripts/generate-layer-docs.ts:154-170 | the lines of the first paragraph that starts with the sentinel, up to the end of its list, and no others are replaced; a document without one is returned as it is |
| `LayerDocs.PatchIsOnLines` | scripts/generate-layer-docs.ts:154-170 | patching text replaces a block of its lines and leaves all others as they are |
| `LayerDocs.LastPatchWins` | scripts/generate-layer-docs.ts:154-170 | patching with one paragraph and then another is patching with the second, when the list line is recognised |
| `LayerDocs.UnlistedPatchGrows` | scripts/generate-layer-docs.ts:154-170 | otherwise each patch leaves a line behind |
| `LayerDocs.PatchTwiceIsPatchLast` | scripts/generate-layer-docs.ts:106-170 | on text, for every document and all non-empty lists of scoped names |
| `LayerDocs.GeneratorOutputInSyncIff` | scripts/check-doc-sync.ts:36-40 | the sync check accepts the generator's output exactly when there is nothing to replace or the list mentions the scope |
| `LayerDocs.EmptyListIsNeverInSync` | scripts/check-doc-sync.ts:36-40 | without packages, every document that has the paragraph is left in a state the check rejects |
| `LayerDocs.ShortDocumentIsNotInSync` | scripts/check-doc-sync.ts:36-40 | a document for which that is so |

## Left out

- Playwright, CDP, DNS and stealth: each call is an input that succeeds or fails, and `getByRole` with `nth` indexes the elements in document order.
- The private-address route guard, error-translator.ts, screenshots, traces, uploads of files and page evaluation.
- JSON.parse: the gate starts from parsed values; numbers are finite, with one zero.
- Floating point: timings are exact reals.
- UTF-16 in snapshots: strings of the serialisers hold no lone surrogates; lengths count code units.
- Serialiser options and console limits other than integers.
- `InitProtocol` is about interleavings, so it is modelled on values and not as a class; the set-up steps of a context are part of its creation, `dispose` happens as one step and only while no init is pending and no waiter has still to be told, and calls from other tasks come when the job queue is empty.
- InitProtocol.SharedInitIsSafe: holds for runs without a race, because the code does not keep it in others (`InitRaces`).
- InitProtocol.NothingStaysRejected: the same runs.
- Forms are filled field after field; the parallel option of `fillForm` is not modelled.
- Driver calls run one after the other, with console messages between them; the lookup of a ref sees only the refs recorded for a tab.
- A11yRoundTrip.SerializersAgreeIff: covers trees whose roles fit the line grammar, whose names have no quotes or line breaks and whose values, descriptions and levels have no commas, because the line form cannot express the others.
- A11yRoundTrip.ReadBack: the same trees.
- LayerDocs.PatchTwiceIsPatchLast: names are given as a sorted list without line breaks; sorting them and .github/labeler.yml are not modelled.
- The HTML of a component beyond which children it contains.
- Flag parsing, warn-only mode, reports, file and git access of the scripts; the other scripts and packages.
