/**
 The part that both snapshot serialisers of a11y-serializer.ts share: turning one
 element after another into a line, numbering refs, counting duplicates and stopping at
 the character budget. `Run` is that loop; the lemmas say what it leaves behind as a
 function of the element list alone.
 */
module A11yLines {
  import opened Wrappers
  import opened Strings
  import opened Decimal

  /** One element in document order: `shown` is the name as printed, `indent` is twice
      the depth, `inline` is text printed after a colon. */
  datatype Item = Item(indent: nat, role: string, name: string, shown: string, attrs: seq<string>,
                       ariaRef: Option<string>, inline: string)

  datatype RefInfo = RefInfo(role: string, name: Option<string>, ariaRef: Option<string>, nthIndex: nat)

  /** One property of the `refs` record, which keeps insertion order. */
  datatype RefEntry = RefEntry(key: string, info: RefInfo)

  /** What the loop depends on: the character budget, the roles that receive a ref, and
      how a line is written once the key of its ref, if any, is known. */
  datatype Format = Format(maxChars: int, roles: set<string>, line: (Item, Option<string>) -> string)

  /** The local variables of a serialiser. */
  datatype Out = Out(refCounter: nat, refs: seq<RefEntry>, lines: seq<string>, charCount: nat,
                     truncated: bool, title: Option<string>, occurrenceCount: map<string, nat>)

  const INIT: Out := Out(0, [], [], 0, false, None, map[])

  /** What a serialiser returns. */
  datatype SerializeResult = SerializeResult(text: string, refs: seq<RefEntry>, truncated: bool, title: Option<string>)

  function Finish(st: Out): SerializeResult {
    SerializeResult(Join(st.lines, "\n"), st.refs, st.truncated, st.title)
  }

  predicate IsInteractive(f: Format, item: Item) {
    item.role in f.roles
  }

  function RefKey(n: nat): string {
    "e" + Numeral(n)
  }

  function OccurrenceKey(role: string, name: string): string {
    role + "\0" + name
  }

  function NameField(name: string): Option<string> {
    if name == "" then None else Some(name)
  }

  function LineFor(f: Format, st: Out, item: Item): string {
    f.line(item, if IsInteractive(f, item) then Some(RefKey(st.refCounter + 1)) else None)
  }

  predicate GivesTitle(item: Item) {
    item.indent == 0 && (item.role == "document" || item.role == "WebArea") && item.name != ""
  }

  function Count(st: Out, role: string, name: string): nat {
    var key := OccurrenceKey(role, name);
    if key in st.occurrenceCount then st.occurrenceCount[key] else 0
  }

  /** What is recorded about an element before its line is known to fit. */
  function Register(f: Format, st: Out, item: Item): Out {
    var titled := if GivesTitle(item) then st.(title := Some(item.name)) else st;
    if !IsInteractive(f, item) then titled
    else
      var n := Count(st, item.role, item.name);
      titled.(refCounter := st.refCounter + 1,
              refs := st.refs + [RefEntry(RefKey(st.refCounter + 1),
                                          RefInfo(item.role, NameField(item.name), item.ariaRef, n))],
              occurrenceCount := st.occurrenceCount[OccurrenceKey(item.role, item.name) := n + 1])
  }

  /** The element fits and its line is kept. */
  function Add(f: Format, st: Out, item: Item): Out {
    var line := LineFor(f, st, item);
    Register(f, st, item).(charCount := st.charCount + Units(line) + 1, lines := st.lines + [line])
  }

  predicate Fits(f: Format, st: Out, item: Item) {
    st.charCount < f.maxChars && st.charCount + Units(LineFor(f, st, item)) + 1 <= f.maxChars
  }

  /** Handling one element, depth apart. */
  function Record(f: Format, st: Out, item: Item): Out {
    if st.charCount >= f.maxChars then st.(truncated := true)
    else if st.charCount + Units(LineFor(f, st, item)) + 1 > f.maxChars then Register(f, st, item).(truncated := true)
    else Add(f, st, item)
  }

  /** All elements, up to and including the first that does not fit. */
  function Run(f: Format, st: Out, items: seq<Item>): Out
    decreases |items|
  {
    if items == [] then st
    else if !Fits(f, st, items[0]) then Record(f, st, items[0])
    else Run(f, Add(f, st, items[0]), items[1..])
  }

  lemma {:induction false} RunConcat(f: Format, st: Out, a: seq<Item>, b: seq<Item>)
    requires !st.truncated
    ensures var r := Run(f, st, a);
            Run(f, st, a + b) == if r.truncated then r else Run(f, r, b)
    decreases |a|
  {
    if a == [] {
      assert a + b == b;
    } else {
      assert (a + b)[0] == a[0] && (a + b)[1..] == a[1..] + b;
      if Fits(f, st, a[0]) {
        RunConcat(f, Add(f, st, a[0]), a[1..], b);
      }
    }
  }

  // --- What a run leaves behind, stated on the element list ---

  /** How many of the first `i` elements get a ref. */
  function Interactives(f: Format, items: seq<Item>, i: nat): nat
    requires i <= |items|
  {
    if i == 0 then 0 else Interactives(f, items, i - 1) + if IsInteractive(f, items[i - 1]) then 1 else 0
  }

  /** How many of the first `i` elements have this role and name. */
  function Occurrences(items: seq<Item>, i: nat, role: string, name: string): nat
    requires i <= |items|
  {
    if i == 0 then 0
    else Occurrences(items, i - 1, role, name)
         + if items[i - 1].role == role && items[i - 1].name == name then 1 else 0
  }

  /** The line of element `i`, with its ref numbered by the interactive elements before it. */
  function LineAt(f: Format, items: seq<Item>, i: nat): string
    requires i < |items|
  {
    f.line(items[i], if IsInteractive(f, items[i]) then Some(RefKey(Interactives(f, items, i) + 1)) else None)
  }

  /** The ref of element `i`: its position among the elements of the same role and name. */
  function RefAt(f: Format, items: seq<Item>, i: nat): RefEntry
    requires i < |items|
  {
    RefEntry(RefKey(Interactives(f, items, i) + 1),
             RefInfo(items[i].role, NameField(items[i].name), items[i].ariaRef,
                     Occurrences(items, i, items[i].role, items[i].name)))
  }

  /** The refs of the first `i` elements, in document order. */
  function Refs(f: Format, items: seq<Item>, i: nat): (r: seq<RefEntry>)
    requires i <= |items|
    ensures |r| == Interactives(f, items, i)
  {
    if i == 0 then []
    else Refs(f, items, i - 1) + if IsInteractive(f, items[i - 1]) then [RefAt(f, items, i - 1)] else []
  }

  /** Characters used by the first `i` lines, newlines included. */
  function Cost(f: Format, items: seq<Item>, i: nat): nat
    requires i <= |items|
  {
    if i == 0 then 0 else Cost(f, items, i - 1) + Units(LineAt(f, items, i - 1)) + 1
  }

  function Lines(f: Format, items: seq<Item>, i: nat): (r: seq<string>)
    requires i <= |items|
    ensures |r| == i
  {
    seq(i, j requires 0 <= j < i => LineAt(f, items, j))
  }

  function TitleAfter(items: seq<Item>, i: nat): Option<string>
    requires i <= |items|
  {
    if i == 0 then None
    else if GivesTitle(items[i - 1]) then Some(items[i - 1].name)
    else TitleAfter(items, i - 1)
  }

  /** The state once the first `i` elements have been kept. */
  ghost predicate StateAt(f: Format, items: seq<Item>, i: nat, st: Out)
    requires i <= |items|
  {
    && st.refCounter == Interactives(f, items, i)
    && st.refs == Refs(f, items, i)
    && st.lines == Lines(f, items, i)
    && st.charCount == Cost(f, items, i)
    && st.title == TitleAfter(items, i)
    && !st.truncated
    && Counts(f, items, i, st)
  }

  ghost predicate Counts(f: Format, items: seq<Item>, i: nat, st: Out)
    requires i <= |items|
  {
    forall role, name | role in f.roles :: Count(st, role, name) == Occurrences(items, i, role, name)
  }

  ghost predicate Separable(f: Format) {
    forall role | role in f.roles :: '\0' !in role
  }

  /** No interactive role contains the separator, so the counter key is unambiguous. */
  lemma OccurrenceKeyInjective(f: Format, r1: string, n1: string, r2: string, n2: string)
    requires r1 in f.roles && r2 in f.roles && Separable(f)
    requires OccurrenceKey(r1, n1) == OccurrenceKey(r2, n2)
    ensures r1 == r2 && n1 == n2
  {
    var k := OccurrenceKey(r1, n1);
    assert k[|r1|] == '\0' && k[|r2|] == '\0';
    assert forall i | 0 <= i < |r1| :: k[i] == r1[i];
    assert forall i | 0 <= i < |r2| :: k[i] == r2[i];
    assert |r1| == |r2|;
    assert r1 == k[..|r1|] == r2;
    assert n1 == k[|r1| + 1..] == n2;
  }

  lemma RegisterCounts(f: Format, items: seq<Item>, i: nat, st: Out)
    requires Separable(f)
    requires i < |items| && Counts(f, items, i, st)
    ensures Counts(f, items, i + 1, Register(f, st, items[i]))
  {
    var st' := Register(f, st, items[i]);
    forall role, name | role in f.roles
      ensures Count(st', role, name) == Occurrences(items, i + 1, role, name)
    {
      if IsInteractive(f, items[i]) && OccurrenceKey(role, name) == OccurrenceKey(items[i].role, items[i].name) {
        OccurrenceKeyInjective(f, role, name, items[i].role, items[i].name);
      }
    }
  }

  lemma AddAt(f: Format, items: seq<Item>, i: nat, st: Out)
    requires Separable(f)
    requires i < |items| && StateAt(f, items, i, st)
    ensures StateAt(f, items, i + 1, Add(f, st, items[i]))
  {
    RegisterCounts(f, items, i, st);
    var st' := Add(f, st, items[i]);
    assert LineFor(f, st, items[i]) == LineAt(f, items, i);
    assert Lines(f, items, i + 1) == Lines(f, items, i) + [LineAt(f, items, i)];
  }

  /** How a run that has kept `i` elements ends: it keeps `k` in all, and either they are
      all there is or element `k` is the first that does not fit. */
  lemma {:induction false} RunEnds(f: Format, items: seq<Item>, i: nat, st: Out) returns (k: nat, last: Out)
    requires Separable(f)
    requires i <= |items| && StateAt(f, items, i, st)
    requires i == 0 || Cost(f, items, i) <= f.maxChars
    ensures i <= k <= |items| && StateAt(f, items, k, last)
    ensures k == 0 || Cost(f, items, k) <= f.maxChars
    ensures var r := Run(f, st, items[i..]);
            if k == |items| then r == last else !Fits(f, last, items[k]) && r == Record(f, last, items[k])
    decreases |items| - i
  {
    if i == |items| || !Fits(f, st, items[i]) {
      k, last := i, st;
    } else {
      AddAt(f, items, i, st);
      assert items[i..][1..] == items[i + 1..];
      assert LineFor(f, st, items[i]) == LineAt(f, items, i);
      k, last := RunEnds(f, items, i + 1, Add(f, st, items[i]));
    }
  }

  lemma {:induction false} CostMonotone(f: Format, items: seq<Item>, i: nat, j: nat)
    requires i <= j <= |items|
    ensures Cost(f, items, i) + (j - i) <= Cost(f, items, j)
    decreases j
  {
    if i < j {
      CostMonotone(f, items, i, j - 1);
    }
  }

  /** The first `k` lines fit in the budget; no line always fits. */
  ghost predicate Affordable(f: Format, items: seq<Item>, k: nat) {
    k <= |items| && (k == 0 || Cost(f, items, k) <= f.maxChars)
  }

  /** A run keeps the longest prefix whose lines fit, and says it cut exactly when that is
      not everything. */
  lemma RunKeepsLongestPrefix(f: Format, items: seq<Item>)
    requires Separable(f)
    ensures var r := Run(f, INIT, items);
            && Affordable(f, items, |r.lines|)
            && (forall k: nat :: Affordable(f, items, k) ==> k <= |r.lines|)
            && r.lines == Lines(f, items, |r.lines|)
            && r.charCount == Cost(f, items, |r.lines|)
            && (r.truncated <==> |r.lines| < |items|)
  {
    var k, last := RunEnds(f, items, 0, INIT);
    assert items[0..] == items;
    if k < |items| {
      assert LineFor(f, last, items[k]) == LineAt(f, items, k);
      assert Cost(f, items, k + 1) > f.maxChars;
    }
    forall n: nat | Affordable(f, items, n)
      ensures n <= k
    {
      if n > k {
        CostMonotone(f, items, k + 1, n);
      }
    }
  }

  /** How many elements a run has recorded: the one that did not fit is recorded too,
      unless the budget was already used to the last character. */
  function Recorded(f: Format, items: seq<Item>, kept: nat): (n: nat)
    requires kept <= |items|
    ensures kept <= n <= kept + 1 && n <= |items|
  {
    if kept < |items| && Cost(f, items, kept) < f.maxChars then kept + 1 else kept
  }

  lemma RegisterAt(f: Format, items: seq<Item>, k: nat, st: Out)
    requires k < |items| && StateAt(f, items, k, st)
    ensures var r := Register(f, st, items[k]);
            && r.lines == st.lines && r.refs == Refs(f, items, k + 1) && r.refCounter == |r.refs|
            && r.title == TitleAfter(items, k + 1)
  {
    assert Counts(f, items, k, st);
    assert IsInteractive(f, items[k]) ==>
        Count(st, items[k].role, items[k].name) == Occurrences(items, k, items[k].role, items[k].name);
  }

  /** Refs and title are those of the recorded elements. */
  lemma RunRecords(f: Format, items: seq<Item>)
    requires Separable(f)
    ensures var r := Run(f, INIT, items);
            && |r.lines| <= |items|
            && r.refs == Refs(f, items, Recorded(f, items, |r.lines|))
            && r.refCounter == |r.refs|
            && r.title == TitleAfter(items, Recorded(f, items, |r.lines|))
  {
    var k, last := RunEnds(f, items, 0, INIT);
    assert items[0..] == items;
    assert last.refCounter == |last.refs| && |last.lines| == k;
    if k < |items| {
      RegisterAt(f, items, k, last);
    }
  }

  lemma {:induction false} TextLength(f: Format, items: seq<Item>, k: nat)
    requires 0 < k <= |items|
    ensures Units(Join(Lines(f, items, k), "\n")) + 1 == Cost(f, items, k)
  {
    JoinLength(Lines(f, items, k));
    LinesCost(f, items, k);
  }

  /** The lengths of the lines, one newline each. */
  function TotalLength(lines: seq<string>): nat {
    if lines == [] then 0 else Units(lines[0]) + 1 + TotalLength(lines[1..])
  }

  lemma {:induction false} JoinLength(lines: seq<string>)
    requires lines != []
    ensures Units(Join(lines, "\n")) + 1 == TotalLength(lines)
  {
    if |lines| > 1 {
      JoinLength(lines[1..]);
      UnitsConcat(lines[0] + "\n", Join(lines[1..], "\n"));
      UnitsConcat(lines[0], "\n");
      assert Units("\n") == 1;
    }
  }

  lemma {:induction false} TotalLengthSnoc(lines: seq<string>, line: string)
    ensures TotalLength(lines + [line]) == TotalLength(lines) + Units(line) + 1
  {
    if lines != [] {
      assert (lines + [line])[1..] == lines[1..] + [line];
      TotalLengthSnoc(lines[1..], line);
    }
  }

  lemma {:induction false} LinesCost(f: Format, items: seq<Item>, k: nat)
    requires k <= |items|
    ensures TotalLength(Lines(f, items, k)) == Cost(f, items, k)
  {
    if k > 0 {
      LinesCost(f, items, k - 1);
      TotalLengthSnoc(Lines(f, items, k - 1), LineAt(f, items, k - 1));
      assert Lines(f, items, k) == Lines(f, items, k - 1) + [LineAt(f, items, k - 1)];
    }
  }

  /** The text stays within a non-negative budget. */
  lemma TextWithinBudget(f: Format, items: seq<Item>)
    requires Separable(f) && f.maxChars >= 0
    ensures Units(Join(Run(f, INIT, items).lines, "\n")) <= f.maxChars
  {
    RunKeepsLongestPrefix(f, items);
    var k := |Run(f, INIT, items).lines|;
    if k > 0 {
      TextLength(f, items, k);
    }
  }

  // --- Finding an element again ---

  /** The `n`-th interactive element. */
  function InteractiveIndex(f: Format, items: seq<Item>, n: nat): (i: nat)
    requires n < Interactives(f, items, |items|)
    ensures i < |items| && IsInteractive(f, items[i]) && Interactives(f, items, i) == n
  {
    InteractiveBelow(f, items, |items|, n)
  }

  function InteractiveBelow(f: Format, items: seq<Item>, m: nat, n: nat): (i: nat)
    requires m <= |items| && n < Interactives(f, items, m)
    ensures i < m && IsInteractive(f, items[i]) && Interactives(f, items, i) == n
  {
    if Interactives(f, items, m - 1) == n then m - 1 else InteractiveBelow(f, items, m - 1, n)
  }

  lemma {:induction false} InteractivesMonotone(f: Format, items: seq<Item>, i: nat, j: nat)
    requires i <= j <= |items|
    ensures Interactives(f, items, i) <= Interactives(f, items, j)
    decreases j
  {
    if i < j {
      InteractivesMonotone(f, items, i, j - 1);
    }
  }

  /** The `n`-th ref belongs to the `n`-th interactive element. */
  lemma {:induction false} RefsInOrder(f: Format, items: seq<Item>, m: nat, n: nat)
    requires m <= |items| && n < |Refs(f, items, m)|
    ensures Interactives(f, items, m) <= Interactives(f, items, |items|)
    ensures Refs(f, items, m)[n] == RefAt(f, items, InteractiveIndex(f, items, n))
    ensures Refs(f, items, m)[n].key == RefKey(n + 1)
  {
    InteractivesMonotone(f, items, m, |items|);
    if IsInteractive(f, items[m - 1]) && n == |Refs(f, items, m)| - 1 {
      SameInteractive(f, items, m - 1, InteractiveIndex(f, items, n));
    } else {
      RefsInOrder(f, items, m - 1, n);
    }
  }

  lemma InteractivesStrict(f: Format, items: seq<Item>, i: nat, j: nat)
    requires i <= |items| && j <= |items|
    ensures i < j && IsInteractive(f, items[i]) ==> Interactives(f, items, i) < Interactives(f, items, j)
  {
    if i < j {
      InteractivesMonotone(f, items, i + 1, j);
    }
  }

  lemma SameInteractive(f: Format, items: seq<Item>, i: nat, j: nat)
    requires i < |items| && j < |items| && IsInteractive(f, items[i]) && IsInteractive(f, items[j])
    requires Interactives(f, items, i) == Interactives(f, items, j)
    ensures i == j
  {
    InteractivesStrict(f, items, i, j);
    InteractivesStrict(f, items, j, i);
  }

  /** `getByRole(role, { name, exact: true }).nth(n)` on a page with these elements in
      document order: the index of the element found. */
  function NthNamed(items: seq<Item>, role: string, name: string, n: nat): Option<nat> {
    NthNamedFrom(items, 0, role, name, n)
  }

  function NthNamedFrom(items: seq<Item>, i: nat, role: string, name: string, n: nat): Option<nat>
    requires i <= |items|
    decreases |items| - i
  {
    if i == |items| then None
    else if items[i].role != role || items[i].name != name then NthNamedFrom(items, i + 1, role, name, n)
    else if n == 0 then Some(i)
    else NthNamedFrom(items, i + 1, role, name, n - 1)
  }

  lemma {:induction false} OccurrencesMonotone(items: seq<Item>, i: nat, j: nat, role: string, name: string)
    requires i <= j <= |items|
    ensures Occurrences(items, i, role, name) <= Occurrences(items, j, role, name)
    decreases j
  {
    if i < j {
      OccurrencesMonotone(items, i, j - 1, role, name);
    }
  }

  lemma {:induction false} NthNamedFromIs(items: seq<Item>, i: nat, j: nat, role: string, name: string)
    requires i <= j < |items| && items[j].role == role && items[j].name == name
    ensures Occurrences(items, i, role, name) <= Occurrences(items, j, role, name)
    ensures NthNamedFrom(items, i, role, name, Occurrences(items, j, role, name) - Occurrences(items, i, role, name)) ==
            Some(j)
    decreases j - i
  {
    OccurrencesMonotone(items, i, j, role, name);
    if i < j {
      NthNamedFromIs(items, i + 1, j, role, name);
    }
  }

  /** Counting earlier duplicates finds the very element again. */
  lemma NthNamedFindsItself(items: seq<Item>, j: nat)
    requires j < |items|
    ensures NthNamed(items, items[j].role, items[j].name, Occurrences(items, j, items[j].role, items[j].name)) ==
            Some(j)
  {
    NthNamedFromIs(items, 0, j, items[j].role, items[j].name);
  }

  /** Ref keys are e1, e2, ... in document order; every ref printed in a line is recorded;
      at most one recorded ref, the last, is not printed, and only when something was cut. */
  ghost predicate RefsMatchLines(f: Format, items: seq<Item>, r: Out) {
    && |r.lines| <= |items| && r.lines == Lines(f, items, |r.lines|)
    && (forall n | 0 <= n < |r.refs| :: r.refs[n].key == RefKey(n + 1))
    && (forall i | 0 <= i < |r.lines| && IsInteractive(f, items[i]) :: RefAt(f, items, i) in r.refs)
    && Interactives(f, items, |r.lines|) <= |r.refs| <= Interactives(f, items, |r.lines|) + 1
    && (|r.refs| == Interactives(f, items, |r.lines|) + 1 ==> r.truncated)
  }

  lemma RunMatchesRefsToLines(f: Format, items: seq<Item>)
    requires Separable(f)
    ensures RefsMatchLines(f, items, Run(f, INIT, items))
  {
    RunKeepsLongestPrefix(f, items);
    RunRecords(f, items);
    var r := Run(f, INIT, items);
    var m := Recorded(f, items, |r.lines|);
    forall n | 0 <= n < |r.refs|
      ensures r.refs[n].key == RefKey(n + 1)
    {
      RefsInOrder(f, items, m, n);
    }
    forall i | 0 <= i < |r.lines| && IsInteractive(f, items[i])
      ensures RefAt(f, items, i) in r.refs
    {
      InteractivesStrict(f, items, i, m);
      RefsInOrder(f, items, m, Interactives(f, items, i));
      SameInteractive(f, items, i, InteractiveIndex(f, items, Interactives(f, items, i)));
    }
  }

  lemma RefKeyInjective(m: nat, n: nat)
    requires RefKey(m) == RefKey(n)
    ensures m == n
  {
    assert RefKey(m)[1..] == Numeral(m) && RefKey(n)[1..] == Numeral(n);
    NumeralInjective(m, n);
  }
}
