/**
 What the refs of a snapshot point at: the driver looks a ref up on the page again, by its
 native aria-ref or by counting elements of its role and name, while the serialiser counted
 only the elements it considered.
 */
module A11yRefs {
  import opened Wrappers
  import opened Strings
  import opened A11yLines
  import opened A11yDepth
  import opened A11ySerializer

  /** `getByRole(role).nth(n)`: the index of the `n`-th element of the role. */
  function NthOfRole(items: seq<Item>, i: nat, role: string, n: nat): Option<nat>
    requires i <= |items|
    decreases |items| - i
  {
    if i == |items| then None
    else if items[i].role != role then NthOfRole(items, i + 1, role, n)
    else if n == 0 then Some(i)
    else NthOfRole(items, i + 1, role, n - 1)
  }

  /** The first element from `i` on with this native aria-ref, or the number of elements. */
  function FirstNative(items: seq<Item>, i: nat, ariaRef: string): (j: nat)
    requires i <= |items|
    ensures i <= j <= |items|
    ensures forall k | i <= k < j :: items[k].ariaRef != Some(ariaRef)
    ensures j < |items| ==> items[j].ariaRef == Some(ariaRef)
    decreases |items| - i
  {
    if i == |items| || items[i].ariaRef == Some(ariaRef) then i else FirstNative(items, i + 1, ariaRef)
  }

  /** The element a native aria-ref selects; acting on several at once is an error. */
  function OnlyNative(items: seq<Item>, ariaRef: string): Option<nat> {
    var j := FirstNative(items, 0, ariaRef);
    if j == |items| || FirstNative(items, j + 1, ariaRef) < |items| then None else Some(j)
  }

  /** How the driver resolves a ref on a page with these elements, as an index into them. */
  function Locate(page: seq<Item>, info: RefInfo): Option<nat> {
    if info.ariaRef.Some? && info.ariaRef.value != "" then OnlyNative(page, info.ariaRef.value)
    else if info.name.Some? then NthNamed(page, info.role, info.name.value, info.nthIndex)
    else NthOfRole(page, 0, info.role, info.nthIndex)
  }

  function OfRole(items: seq<Item>, i: nat, role: string): nat
    requires i <= |items|
  {
    if i == 0 then 0 else OfRole(items, i - 1, role) + if items[i - 1].role == role then 1 else 0
  }

  lemma {:induction false} OfRoleMonotone(items: seq<Item>, i: nat, j: nat, role: string)
    requires i <= j <= |items|
    ensures OfRole(items, i, role) <= OfRole(items, j, role)
    decreases j
  {
    if i < j {
      OfRoleMonotone(items, i, j - 1, role);
    }
  }

  lemma {:induction false} NthOfRoleIs(items: seq<Item>, i: nat, role: string, n: nat)
    requires i <= |items|
    ensures match NthOfRole(items, i, role, n)
            case Some(j) =>
              i <= j < |items| && items[j].role == role && OfRole(items, j, role) == OfRole(items, i, role) + n
            case None => OfRole(items, |items|, role) <= OfRole(items, i, role) + n
    decreases |items| - i
  {
    if i < |items| {
      if items[i].role != role {
        NthOfRoleIs(items, i + 1, role, n);
      } else if n > 0 {
        NthOfRoleIs(items, i + 1, role, n - 1);
      }
    }
  }

  lemma {:induction false} UnnamedAmongRole(items: seq<Item>, i: nat, role: string)
    requires i <= |items|
    ensures Occurrences(items, i, role, "") <= OfRole(items, i, role)
    ensures Occurrences(items, i, role, "") == OfRole(items, i, role) <==>
            forall j | 0 <= j < i && items[j].role == role :: items[j].name == ""
  {
    if i > 0 {
      UnnamedAmongRole(items, i - 1, role);
    }
  }

  lemma OfRoleStrict(items: seq<Item>, i: nat, j: nat, role: string)
    requires i <= |items| && j <= |items|
    ensures i < j && items[i].role == role ==> OfRole(items, i, role) < OfRole(items, j, role)
  {
    if i < j {
      OfRoleMonotone(items, i + 1, j, role);
    }
  }

  lemma NthOfRoleIff(page: seq<Item>, j: nat, n: nat)
    requires j < |page|
    ensures NthOfRole(page, 0, page[j].role, n) == Some(j) <==> n == OfRole(page, j, page[j].role)
  {
    var role := page[j].role;
    NthOfRoleIs(page, 0, role, n);
    OfRoleMonotone(page, j + 1, |page|, role);
    var found := NthOfRole(page, 0, role, n);
    if found.Some? {
      OfRoleStrict(page, j, found.value, role);
      OfRoleStrict(page, found.value, j, role);
    }
  }

  /** Position of the `n`-th element within the limit among all elements. */
  function Origin(maxDepth: int, items: seq<Item>, n: nat): (j: nat)
    requires n < |Shallow(maxDepth, items)|
    ensures j < |items| && items[j] == Shallow(maxDepth, items)[n] && !Deep(maxDepth, items[j])
  {
    if Deep(maxDepth, items[0]) then 1 + Origin(maxDepth, items[1..], n)
    else if n == 0 then 0
    else 1 + Origin(maxDepth, items[1..], n - 1)
  }

  /** Occurrences among the elements within the limit, and those that were skipped. */
  function Skipped(maxDepth: int, items: seq<Item>, i: nat, role: string, name: string): nat
    requires i <= |items|
  {
    if i == 0 then 0
    else Skipped(maxDepth, items, i - 1, role, name)
         + if Deep(maxDepth, items[i - 1]) && items[i - 1].role == role && items[i - 1].name == name then 1 else 0
  }

  lemma {:induction false} SkippedNone(maxDepth: int, items: seq<Item>, i: nat, role: string, name: string)
    requires i <= |items|
    ensures Skipped(maxDepth, items, i, role, name) == 0 <==>
            forall j | 0 <= j < i && Deep(maxDepth, items[j]) :: items[j].role != role || items[j].name != name
  {
    if i > 0 {
      SkippedNone(maxDepth, items, i - 1, role, name);
    }
  }

  lemma {:induction false} OccurrencesTail(items: seq<Item>, i: nat, role: string, name: string)
    requires 0 < i <= |items|
    ensures Occurrences(items, i, role, name) ==
            Occurrences(items[1..], i - 1, role, name) + if items[0].role == role && items[0].name == name then 1 else 0
  {
    if i > 1 {
      OccurrencesTail(items, i - 1, role, name);
    }
  }

  lemma {:induction false} SkippedTail(maxDepth: int, items: seq<Item>, i: nat, role: string, name: string)
    requires 0 < i <= |items|
    ensures Skipped(maxDepth, items, i, role, name) == Skipped(maxDepth, items[1..], i - 1, role, name)
            + if Deep(maxDepth, items[0]) && items[0].role == role && items[0].name == name then 1 else 0
  {
    if i > 1 {
      SkippedTail(maxDepth, items, i - 1, role, name);
    }
  }

  lemma OriginTail(maxDepth: int, items: seq<Item>, n: nat)
    requires n < |Shallow(maxDepth, items)|
    ensures Deep(maxDepth, items[0]) ==>
              n < |Shallow(maxDepth, items[1..])| && Origin(maxDepth, items, n) == 1 + Origin(maxDepth, items[1..], n)
    ensures !Deep(maxDepth, items[0]) ==>
              && Shallow(maxDepth, items)[0] == items[0]
              && Shallow(maxDepth, items)[1..] == Shallow(maxDepth, items[1..])
              && (n == 0 ==> Origin(maxDepth, items, n) == 0)
              && (n > 0 ==> Origin(maxDepth, items, n) == 1 + Origin(maxDepth, items[1..], n - 1))
  {
  }

  lemma {:induction false} OccurrencesSplit(maxDepth: int, items: seq<Item>, n: nat, role: string, name: string)
    requires n < |Shallow(maxDepth, items)|
    ensures var j := Origin(maxDepth, items, n);
            Occurrences(items, j, role, name) ==
            Occurrences(Shallow(maxDepth, items), n, role, name) + Skipped(maxDepth, items, j, role, name)
    decreases |items|
  {
    OriginTail(maxDepth, items, n);
    if Deep(maxDepth, items[0]) {
      OccurrencesSplit(maxDepth, items[1..], n, role, name);
      CountsTail(maxDepth, items, Origin(maxDepth, items[1..], n) + 1, role, name);
    } else if n > 0 {
      OccurrencesSplit(maxDepth, items[1..], n - 1, role, name);
      SplitTail(maxDepth, items, n, Origin(maxDepth, items[1..], n - 1) + 1, role, name);
    }
  }

  /** An element within the limit counts among all and among the considered ones. */
  lemma SplitTail(maxDepth: int, items: seq<Item>, n: nat, j: nat, role: string, name: string)
    requires items != [] && !Deep(maxDepth, items[0]) && 0 < j <= |items| && 0 < n <= |Shallow(maxDepth, items)|
    requires Occurrences(items[1..], j - 1, role, name) ==
             Occurrences(Shallow(maxDepth, items[1..]), n - 1, role, name)
             + Skipped(maxDepth, items[1..], j - 1, role, name)
    ensures Occurrences(items, j, role, name) ==
            Occurrences(Shallow(maxDepth, items), n, role, name) + Skipped(maxDepth, items, j, role, name)
  {
    CountsTail(maxDepth, items, j, role, name);
    OccurrencesTail(Shallow(maxDepth, items), n, role, name);
    assert Shallow(maxDepth, items)[1..] == Shallow(maxDepth, items[1..]);
  }

  /** Leaving out the first element takes the same from both counts, when it is deep. */
  lemma CountsTail(maxDepth: int, items: seq<Item>, i: nat, role: string, name: string)
    requires 0 < i <= |items|
    ensures var here := if items[0].role == role && items[0].name == name then 1 else 0;
            && Occurrences(items, i, role, name) == Occurrences(items[1..], i - 1, role, name) + here
            && Skipped(maxDepth, items, i, role, name) ==
               Skipped(maxDepth, items[1..], i - 1, role, name) + if Deep(maxDepth, items[0]) then here else 0
  {
    OccurrencesTail(items, i, role, name);
    SkippedTail(maxDepth, items, i, role, name);
  }

  lemma {:induction false} NthNamedIs(items: seq<Item>, i: nat, role: string, name: string, n: nat, j: nat)
    requires i <= |items| && NthNamedFrom(items, i, role, name, n) == Some(j)
    ensures i <= j < |items| && Occurrences(items, j, role, name) == Occurrences(items, i, role, name) + n
    decreases |items| - i
  {
    if items[i].role != role || items[i].name != name {
      NthNamedIs(items, i + 1, role, name, n, j);
    } else if n > 0 {
      NthNamedIs(items, i + 1, role, name, n - 1, j);
    }
  }

  lemma NthNamedIff(page: seq<Item>, j: nat, k: nat)
    requires j < |page|
    ensures NthNamed(page, page[j].role, page[j].name, k) == Some(j) <==>
            k == Occurrences(page, j, page[j].role, page[j].name)
  {
    if NthNamed(page, page[j].role, page[j].name, k) == Some(j) {
      NthNamedIs(page, 0, page[j].role, page[j].name, k, j);
    }
    NthNamedFindsItself(page, j);
  }

  lemma NativeIff(page: seq<Item>, j: nat)
    requires j < |page| && page[j].ariaRef.Some?
    ensures OnlyNative(page, page[j].ariaRef.value) == Some(j) <==>
            forall i | 0 <= i < |page| && i != j :: page[i].ariaRef != page[j].ariaRef
  {
    var x := page[j].ariaRef.value;
    var first := FirstNative(page, 0, x);
    assert first <= j;
    if first == j {
      var second := FirstNative(page, j + 1, x);
      assert second < |page| ==> page[second].ariaRef == page[j].ariaRef;
    }
  }

  predicate HasNative(item: Item) {
    item.ariaRef.Some? && item.ariaRef.value != ""
  }

  /** No other element of the page answers to the ref of element `j`: none has its native
      aria-ref; or no earlier one of its role and name was skipped for its depth; or, without
      a name, no earlier one of its role was skipped or has a name. */
  ghost predicate RefIsClear(maxDepth: int, page: seq<Item>, j: nat)
    requires j < |page|
  {
    if HasNative(page[j]) then forall i | 0 <= i < |page| && i != j :: page[i].ariaRef != page[j].ariaRef
    else if page[j].name != "" then
      forall i | 0 <= i < j && Deep(maxDepth, page[i]) :: page[i].role != page[j].role || page[i].name != page[j].name
    else
      forall i | 0 <= i < j && page[i].role == page[j].role :: page[i].name == "" && !Deep(maxDepth, page[i])
  }

  /** A ref made while elements below the limit are skipped leads back to its own element
      exactly when no other element answers to it. */
  lemma RefIsExactIff(f: Format, maxDepth: int, page: seq<Item>, n: nat)
    requires n < |Shallow(maxDepth, page)|
    ensures var j := Origin(maxDepth, page, n);
            Locate(page, RefAt(f, Shallow(maxDepth, page), n).info) == Some(j) <==> RefIsClear(maxDepth, page, j)
  {
    var j := Origin(maxDepth, page, n);
    var role, name := page[j].role, page[j].name;
    if HasNative(page[j]) {
      NativeIff(page, j);
    } else {
      OccurrencesSplit(maxDepth, page, n, role, name);
      SkippedNone(maxDepth, page, j, role, name);
      if name != "" {
        NthNamedIff(page, j, Occurrences(Shallow(maxDepth, page), n, role, name));
      } else {
        UnnamedAmongRole(page, j, role);
        NthOfRoleIff(page, j, Occurrences(Shallow(maxDepth, page), n, role, ""));
      }
    }
  }

  // --- The refs of a whole snapshot ---

  /** The refs of the tree form are those of a prefix of the page. */
  lemma TreeRefs(f: Format, maxDepth: int, page: seq<Item>) returns (m: nat)
    requires Separable(f)
    ensures m <= ShallowPrefix(maxDepth, page) && TreeRun(f, maxDepth, INIT, page).refs == Refs(f, page, m)
  {
    var p := ShallowPrefix(maxDepth, page);
    TreeRunIsRun(f, maxDepth, INIT, page);
    RunRecords(f, page[..p]);
    m := Recorded(f, page[..p], |Run(f, INIT, page[..p]).lines|);
    PrefixRefs(f, page, p, m);
  }

  /** A prefix within the limit is numbered like the elements within the limit. */
  lemma {:induction false} ShallowStarts(maxDepth: int, page: seq<Item>)
    ensures var p := ShallowPrefix(maxDepth, page);
            p <= |Shallow(maxDepth, page)| && Shallow(maxDepth, page)[..p] == page[..p]
            && forall n: nat | n < p :: Origin(maxDepth, page, n) == n
  {
    if page != [] && !Deep(maxDepth, page[0]) {
      ShallowStarts(maxDepth, page[1..]);
      var p := ShallowPrefix(maxDepth, page);
      assert page[..p] == [page[0]] + page[1..][..p - 1];
    }
  }

  /** The `n`-th ref of the tree form was made for the `n`-th interactive element of the
      page. The driver's lookup finds that very element exactly when no other answers to the
      ref; by role and name it always does. */
  lemma TreeRefFindsItsElementIff(f: Format, maxDepth: int, page: seq<Item>, n: nat)
    requires Separable(f) && n < |TreeRun(f, maxDepth, INIT, page).refs|
    ensures n < Interactives(f, page, |page|)
    ensures var ref, j := TreeRun(f, maxDepth, INIT, page).refs[n], InteractiveIndex(f, page, n);
            && ref == RefAt(f, page, j) && ref.key == RefKey(n + 1)
            && (Locate(page, ref.info) == Some(j) <==> RefIsClear(maxDepth, page, j))
            && (ref.info.name.Some? && !HasNative(page[j]) ==> Locate(page, ref.info) == Some(j))
  {
    var p := ShallowPrefix(maxDepth, page);
    var m := TreeRefs(f, maxDepth, page);
    RefsInOrder(f, page, m, n);
    var j := InteractiveIndex(f, page, n);
    RecordedBeforeDeep(f, page, m, n);
    ShallowStarts(maxDepth, page);
    RefIsExactIff(f, maxDepth, page, j);
    SameRef(f, page, Shallow(maxDepth, page), p, j);
  }

  lemma RecordedBeforeDeep(f: Format, page: seq<Item>, m: nat, n: nat)
    requires m <= |page| && n < Interactives(f, page, m)
    ensures Interactives(f, page, m) <= Interactives(f, page, |page|) && InteractiveIndex(f, page, n) < m
  {
    InteractivesMonotone(f, page, m, |page|);
    var j := InteractiveIndex(f, page, n);
    if m <= j {
      InteractivesMonotone(f, page, m, j);
    }
  }

  /** Elements that start alike number their refs alike. */
  lemma SameRef(f: Format, a: seq<Item>, b: seq<Item>, p: nat, j: nat)
    requires j < p <= |a| && p <= |b| && a[..p] == b[..p]
    ensures RefAt(f, a, j) == RefAt(f, b, j)
  {
    assert a[j] == a[..p][j] && b[j] == b[..p][j];
    PrefixCounts(f, a, p, j, a[j].role, a[j].name);
    PrefixCounts(f, b, p, j, a[j].role, a[j].name);
  }

  /** The `n`-th ref of the line form was made for the `n`-th interactive element within
      the depth limit, and is found again exactly when no other element answers to it. */
  lemma LineRefFindsItsElementIff(f: Format, maxDepth: int, page: seq<Item>, n: nat)
    requires Separable(f) && n < |LineRun(f, maxDepth, INIT, page).refs|
    ensures n < Interactives(f, Shallow(maxDepth, page), |Shallow(maxDepth, page)|)
    ensures var ref, k := LineRun(f, maxDepth, INIT, page).refs[n], InteractiveIndex(f, Shallow(maxDepth, page), n);
            var j := Origin(maxDepth, page, k);
            && ref == RefAt(f, Shallow(maxDepth, page), k) && ref.key == RefKey(n + 1)
            && (Locate(page, ref.info) == Some(j) <==> RefIsClear(maxDepth, page, j))
  {
    var within := Shallow(maxDepth, page);
    LineRunIsRun(f, maxDepth, INIT, page);
    RunRecords(f, within);
    RefsInOrder(f, within, Recorded(f, within, |Run(f, INIT, within).lines|), n);
    RefIsExactIff(f, maxDepth, page, InteractiveIndex(f, within, n));
  }

  /** No two refs of a snapshot have the same role, name and index. */
  lemma SnapshotRefsDistinct(f: Format, maxDepth: int, page: seq<Item>, m: nat, n: nat)
    requires Separable(f) && m < n
    ensures n < |TreeRun(f, maxDepth, INIT, page).refs| ==>
            var a, b := TreeRun(f, maxDepth, INIT, page).refs[m].info, TreeRun(f, maxDepth, INIT, page).refs[n].info;
            !(a.role == b.role && a.name == b.name && a.nthIndex == b.nthIndex)
    ensures n < |LineRun(f, maxDepth, INIT, page).refs| ==>
            var a, b := LineRun(f, maxDepth, INIT, page).refs[m].info, LineRun(f, maxDepth, INIT, page).refs[n].info;
            !(a.role == b.role && a.name == b.name && a.nthIndex == b.nthIndex)
  {
    if n < |TreeRun(f, maxDepth, INIT, page).refs| {
      TreeRefFindsItsElementIff(f, maxDepth, page, m);
      TreeRefFindsItsElementIff(f, maxDepth, page, n);
      DistinctInteractives(f, page, m, n);
    }
    if n < |LineRun(f, maxDepth, INIT, page).refs| {
      LineRefFindsItsElementIff(f, maxDepth, page, m);
      LineRefFindsItsElementIff(f, maxDepth, page, n);
      DistinctInteractives(f, Shallow(maxDepth, page), m, n);
    }
  }

  lemma DistinctInteractives(f: Format, items: seq<Item>, m: nat, n: nat)
    requires m < n < Interactives(f, items, |items|)
    ensures var a := RefAt(f, items, InteractiveIndex(f, items, m)).info;
            var b := RefAt(f, items, InteractiveIndex(f, items, n)).info;
            !(a.role == b.role && a.name == b.name && a.nthIndex == b.nthIndex)
  {
    NthNamedFindsItself(items, InteractiveIndex(f, items, m));
    NthNamedFindsItself(items, InteractiveIndex(f, items, n));
  }

  /** Either form keeps its text within the budget and its refs in step with its lines,
      over the elements it considers. */
  lemma SnapshotIsSound(f: Format, maxDepth: int, page: seq<Item>)
    requires Separable(f)
    ensures var tree, line := TreeRun(f, maxDepth, INIT, page), LineRun(f, maxDepth, INIT, page);
            && RefsMatchLines(f, page[..ShallowPrefix(maxDepth, page)], tree)
            && RefsMatchLines(f, Shallow(maxDepth, page), line)
            && (f.maxChars >= 0 ==>
                  && Units(Join(tree.lines, "\n")) <= f.maxChars
                  && Units(Join(line.lines, "\n")) <= f.maxChars)
  {
    TreeRunIsRun(f, maxDepth, INIT, page);
    LineRunIsRun(f, maxDepth, INIT, page);
    RunMatchesRefsToLines(f, page[..ShallowPrefix(maxDepth, page)]);
    RunMatchesRefsToLines(f, Shallow(maxDepth, page));
    if f.maxChars >= 0 {
      TextWithinBudget(f, page[..ShallowPrefix(maxDepth, page)]);
      TextWithinBudget(f, Shallow(maxDepth, page));
    }
  }

  // --- Refs that lead elsewhere ---

  function Element(indent: nat, role: string, name: string): Item {
    Item(indent, role, name, name, [], None, "")
  }

  lemma ButtonsGetRefs(maxChars: int)
    ensures "button" in LineFormat(maxChars).roles && "list" !in LineFormat(maxChars).roles
  {
  }

  lemma ListFits(f: Format, list: Item)
    requires f == LineFormat(16000) && list == Element(0, "list", "")
    ensures Fits(f, INIT, list) && Add(f, INIT, list).charCount < 16000
  {
    ButtonsGetRefs(16000);
    assert LineText(list, None) == "list";
    UnitsBound("list");
  }

  /** The line form on an element that fits, a deep one and one that gets a ref. */
  lemma SkippedRun(f: Format, maxDepth: int, list: Item, first: Item, second: Item)
    requires !Deep(maxDepth, list) && Deep(maxDepth, first) && !Deep(maxDepth, second)
    requires !IsInteractive(f, list) && IsInteractive(f, second)
    requires Fits(f, INIT, list) && Add(f, INIT, list).charCount < f.maxChars
    ensures LineRun(f, maxDepth, INIT, [list, first, second]).refs ==
            [RefEntry(RefKey(1), RefInfo(second.role, NameField(second.name), second.ariaRef, 0))]
  {
    var st := Add(f, INIT, list);
    var cut := st.(truncated := true);
    assert [list, first, second][1..] == [first, second] && [first, second][1..] == [second] && [second][1..] == [];
    assert LineRun(f, maxDepth, INIT, [list, first, second]) == LineRun(f, maxDepth, st, [first, second]);
    assert LineRun(f, maxDepth, st, [first, second]) == LineRun(f, maxDepth, cut, [second]);
    assert LineRun(f, maxDepth, cut, [second]).refs == Register(f, cut, second).refs;
    assert st.refs == [] && st.occurrenceCount == map[];
  }

  /** Looking for the first of two like elements finds the first. */
  lemma LocatesFirst(list: Item, first: Item, second: Item)
    requires first.role == second.role != list.role && first.name == second.name && !HasNative(second)
    ensures Locate([list, first, second], RefInfo(second.role, NameField(second.name), second.ariaRef, 0)) == Some(1)
  {
    var page := [list, first, second];
    assert NthNamedFrom(page, 1, second.role, second.name, 0) == Some(1);
    assert NthOfRole(page, 1, second.role, 0) == Some(1);
  }

  /** A list with a button below the limit, and after it a second button of the same name:
      the only ref of the snapshot was made for the second button and finds the first,
      whatever the name, and also without one. */
  lemma SkippedButtonIsFound(name: string)
    ensures var page := [Element(0, "list", ""), Element(2, "button", name), Element(0, "button", name)];
            var f := LineFormat(MaxChars(Options(None, Some(0))));
            var refs := LineRun(f, 0, INIT, page).refs;
            && |refs| == 1 && Shallow(0, page)[1..] == [page[2]] && Origin(0, page, 1) == 2
            && refs[0] == RefAt(f, Shallow(0, page), 1)
            && Locate(page, refs[0].info) == Some(1)
  {
    var list, first, second := Element(0, "list", ""), Element(2, "button", name), Element(0, "button", name);
    var page, f := [list, first, second], LineFormat(16000);
    assert MaxChars(Options(None, Some(0))) == 16000;
    ButtonsGetRefs(16000);
    ListFits(f, list);
    SkippedRun(f, 0, list, first, second);
    LocatesFirst(list, first, second);
    ShallowOfThree(list, first, second);
    FirstOfTwo(f, list, second);
  }

  lemma ShallowOfThree(list: Item, first: Item, second: Item)
    requires !Deep(0, list) && Deep(0, first) && !Deep(0, second)
    ensures var page := [list, first, second];
            Shallow(0, page) == [list, second] && Origin(0, page, 1) == 2
  {
    var page := [list, first, second];
    assert page[1..] == [first, second] && [first, second][1..] == [second];
    assert Shallow(0, [second]) == [second] && Origin(0, [second], 0) == 0;
    assert Shallow(0, [first, second]) == [second] && Origin(0, [first, second], 0) == 1;
  }

  lemma FirstOfTwo(f: Format, list: Item, second: Item)
    requires !IsInteractive(f, list) && list.role != second.role
    ensures RefAt(f, [list, second], 1) ==
            RefEntry(RefKey(1), RefInfo(second.role, NameField(second.name), second.ariaRef, 0))
  {
    assert Interactives(f, [list, second], 1) == 0;
    assert Occurrences([list, second], 1, second.role, second.name) == 0;
  }

  /** A list with a button that has a name and one that has none. */
  function Buttons(): Node {
    Bare("list", "", [Bare("button", "OK", []), Bare("button", "", [])])
  }

  lemma BareItem(role: string, name: string, children: seq<Node>, depth: nat)
    requires name == "" || name == "OK"
    ensures ItemOf(Bare(role, name, children), depth) == Element(2 * depth, role, name)
  {
    assert Attrs(Bare(role, name, children)) == [];
    assert SanitizeName(name) == name;
  }

  lemma ButtonsElements()
    ensures Preorder(Buttons(), 0) == [Element(0, "list", ""), Element(2, "button", "OK"), Element(2, "button", "")]
  {
    var named, unnamed := Bare("button", "OK", []), Bare("button", "", []);
    BareItem("button", "OK", [], 1);
    BareItem("button", "", [], 1);
    BareItem("list", "", [named, unnamed], 0);
    assert [named, unnamed][1..] == [unnamed] && [unnamed][1..] == [];
    assert Preorder(named, 1) == [Element(2, "button", "OK")] && Preorder(unnamed, 1) == [Element(2, "button", "")];
  }

  lemma ButtonLineBound(key: string)
    ensures Units(LineText(Element(2, "button", "OK"), Some(key))) <= 2 * (20 + |key|)
  {
    var line := LineText(Element(2, "button", "OK"), Some(key));
    assert [] + ["ref=" + key] == ["ref=" + key];
    assert |line| == 20 + |key|;
    UnitsBound(line);
  }

  lemma AfterList(f: Format)
    requires f == LineFormat(16000)
    ensures var st := Add(f, INIT, Element(0, "list", "")); st.refCounter == 0 && st.charCount <= 9
  {
    ButtonsGetRefs(16000);
    assert LineText(Element(0, "list", ""), None) == "list";
    UnitsBound("list");
  }

  lemma ButtonFits(f: Format, st: Out, button: Item)
    requires IsInteractive(f, button) && st.refCounter == 0 && st.charCount <= 9 && f.maxChars == 16000
    requires Units(f.line(button, Some(RefKey(1)))) <= 2 * (20 + |RefKey(1)|) && |RefKey(1)| <= 2
    ensures Fits(f, st, button) && Add(f, st, button).charCount < 16000
  {
  }

  lemma NamedButtonFits(f: Format, st: Out)
    requires f == LineFormat(16000) && st == Add(f, INIT, Element(0, "list", ""))
    ensures var button := Element(2, "button", "OK"); Fits(f, st, button) && Add(f, st, button).charCount < 16000
  {
    AfterList(f);
    ButtonsGetRefs(16000);
    ButtonLineBound(RefKey(1));
    FirstKeyIsShort();
    ButtonFits(f, st, Element(2, "button", "OK"));
  }

  lemma FirstKeyIsShort()
    ensures |RefKey(1)| == 2
  {
  }

  /** Either form on an element without a ref, one with a ref and one of the same role
      without a name. */
  lemma BothGetRefs(f: Format, maxDepth: int, list: Item, first: Item, second: Item)
    requires !Deep(maxDepth, list) && !Deep(maxDepth, first) && !Deep(maxDepth, second)
    requires !IsInteractive(f, list) && IsInteractive(f, first) && first.role == second.role
    requires first.name != "" && second.name == "" && second.ariaRef == None
    requires var st := Add(f, INIT, list);
             && Fits(f, INIT, list) && st.charCount < f.maxChars
             && Fits(f, st, first) && Add(f, st, first).charCount < f.maxChars
    ensures var page := [list, first, second];
            && |TreeRun(f, maxDepth, INIT, page).refs| == |LineRun(f, maxDepth, INIT, page).refs| == 2
            && TreeRun(f, maxDepth, INIT, page).refs[1].info == RefInfo(second.role, None, None, 0)
            && LineRun(f, maxDepth, INIT, page).refs[1].info == RefInfo(second.role, None, None, 0)
  {
    var page := [list, first, second];
    var st := Add(f, INIT, list);
    var st' := Add(f, st, first);
    assert page[1..] == [first, second] && [first, second][1..] == [second] && [second][1..] == [];
    assert st.refs == [] && st.occurrenceCount == map[];
    assert |OccurrenceKey(first.role, first.name)| > |OccurrenceKey(second.role, "")|;
    assert Count(st', second.role, "") == 0;
    assert TreeRun(f, maxDepth, INIT, page) == TreeRun(f, maxDepth, st, [first, second]);
    assert TreeRun(f, maxDepth, st, [first, second]) == TreeRun(f, maxDepth, st', [second]);
    assert TreeRun(f, maxDepth, st', [second]).refs == Register(f, st', second).refs;
    assert LineRun(f, maxDepth, INIT, page) == LineRun(f, maxDepth, st, [first, second]);
    assert LineRun(f, maxDepth, st, [first, second]) == LineRun(f, maxDepth, st', [second]);
    assert LineRun(f, maxDepth, st', [second]).refs == Register(f, st', second).refs;
  }

  lemma UnnamedFindsFirst(root: Node, options: Options, list: Item, first: Item, second: Item)
    requires Preorder(root, 0) == [list, first, second] && options == Options(None, None)
    requires list == Element(0, "list", "")
    requires first == Element(2, "button", "OK") && second == Element(2, "button", "")
    ensures var page, tree := Preorder(root, 0), TreeOut(root, options);
            var line := LineRun(LineFormat(MaxChars(options)), MaxDepth(options), INIT, page);
            && |tree.refs| == |line.refs| == 2
            && Locate(page, tree.refs[1].info) == Locate(page, line.refs[1].info) == Some(1)
  {
    var f := LineFormat(16000);
    assert MaxChars(options) == 16000;
    ButtonsGetRefs(16000);
    ListFits(f, list);
    NamedButtonFits(f, Add(f, INIT, list));
    BothGetRefs(f, 8, list, first, second);
    assert NthOfRole([list, first, second], 1, "button", 0) == Some(1);
  }

  /** On that tree, with the default options, the ref of the second button was counted among
      the unnamed ones and finds the first, in either form. */
  lemma UnnamedRefFindsNamedButton()
    ensures var page, options := Preorder(Buttons(), 0), Options(None, None);
            var tree := TreeOut(Buttons(), options);
            var line := LineRun(LineFormat(MaxChars(options)), MaxDepth(options), INIT, page);
            && |page| == 3 && |tree.refs| == |line.refs| == 2
            && Locate(page, tree.refs[1].info) == Locate(page, line.refs[1].info) == Some(1)
  {
    ButtonsElements();
    UnnamedFindsFirst(Buttons(), Options(None, None), Element(0, "list", ""), Element(2, "button", "OK"),
                      Element(2, "button", ""));
  }
}
