/**
 The two entry points of a11y-serializer.ts, and what a caller finds in their results: which
 elements the text shows and how it can be read, which refs there are and what they say.
 */
module A11ySnapshot {
  import opened Wrappers
  import opened Strings
  import opened Decimal
  import opened A11yLines
  import opened A11yDepth
  import opened A11ySerializer
  import opened A11yLine
  import opened A11yYaml
  import opened A11yShown
  import opened A11yRoundTrip

  // --- What a result says, in terms of the elements ---

  /** The ref of element `i`: interactive elements are numbered in document order. */
  function KeyOf(f: Format, items: seq<Item>, i: nat): Option<string>
    requires i < |items|
  {
    if items[i].role in f.roles then Some("e" + Numeral(Interactives(f, items, i) + 1)) else None
  }

  /** The text has one line for each of the first `kept` elements, and the line tells of it. */
  ghost predicate TextTells(f: Format, text: string, items: seq<Item>, kept: nat)
    requires kept <= |items|
  {
    if kept == 0 then text == ""
    else
      var lines := Split(text, '\n');
      |lines| == kept && forall i | 0 <= i < kept :: Tells(lines[i], items[i], KeyOf(f, items, i))
  }

  /** The ref says where its element can be found: its role, its name if it has one, its
      native ref, and how many elements of that role and name come before it. */
  ghost predicate RefTells(entry: RefEntry, m: nat, items: seq<Item>, i: nat)
    requires i < |items|
  {
    && entry.key == "e" + Numeral(m + 1)
    && entry.info.role == items[i].role
    && entry.info.name == (if items[i].name == "" then None else Some(items[i].name))
    && entry.info.ariaRef == items[i].ariaRef
    && entry.info.nthIndex == Occurrences(items, i, items[i].role, items[i].name)
  }

  /** The refs are those of the interactive ones among the first `n` elements. */
  ghost predicate RefsTell(f: Format, refs: seq<RefEntry>, items: seq<Item>, n: nat)
    requires n <= |items|
  {
    && |refs| == Interactives(f, items, n)
    && forall i | 0 <= i < n && items[i].role in f.roles ::
         var m := Interactives(f, items, i); m < |refs| && RefTells(refs[m], m, items, i)
  }

  predicate IsPage(item: Item) {
    item.indent == 0 && item.role in {"document", "WebArea"} && item.name != ""
  }

  /** The title is the name of the last top-level document among the first `n` elements. */
  ghost predicate TitleTells(title: Option<string>, items: seq<Item>, n: nat)
    requires n <= |items|
  {
    match title
    case None => forall i | 0 <= i < n :: !IsPage(items[i])
    case Some(name) =>
      exists i :: 0 <= i < n && IsPage(items[i]) && items[i].name == name && forall j | i < j < n :: !IsPage(items[j])
  }

  /** `r` shows the first `kept` of the elements that are considered and records the first
      `n`, at most one more; it is within the budget, and says whether anything of the page is
      missing. */
  ghost predicate IsSnapshot(f: Format, r: SerializeResult, page: seq<Item>, considered: seq<Item>, kept: nat, n: nat) {
    && kept <= n <= |considered| <= |page| && n <= kept + 1
    && ((forall i | 0 <= i < kept :: Readable(considered[i])) ==> TextTells(f, r.text, considered, kept))
    && (f.maxChars >= 0 ==> Units(r.text) <= f.maxChars)
    && RefsTell(f, r.refs, considered, n)
    && TitleTells(r.title, considered, n)
    && (r.truncated <==> kept < |page|)
    && (n > kept ==> r.truncated)
  }

  // --- Every run gives such a result ---

  ghost predicate PlainKey(key: Option<string>) {
    key.Some? ==> PlainAttr("ref=" + key.value)
  }

  /** Lines of the format can be read. */
  ghost predicate Telling(f: Format) {
    forall item, key :: Readable(item) && PlainKey(key) ==>
      Tells(f.line(item, key), item, key) && '\n' !in f.line(item, key)
  }

  lemma LineFormatTells(maxChars: int)
    ensures Telling(LineFormat(maxChars))
  {
    var f := LineFormat(maxChars);
    forall item, key | Readable(item) && PlainKey(key)
      ensures Tells(f.line(item, key), item, key) && '\n' !in f.line(item, key)
    {
      LineTells(item, key);
      LineIsOneLine(item, key);
    }
  }

  lemma LineAtTells(f: Format, items: seq<Item>, i: nat)
    requires Telling(f) && i < |items| && Readable(items[i])
    ensures Tells(LineAt(f, items, i), items[i], KeyOf(f, items, i)) && '\n' !in LineAt(f, items, i)
  {
    KeyIsPlain(Interactives(f, items, i) + 1);
    assert PlainKey(KeyOf(f, items, i));
  }

  lemma LinesTell(f: Format, items: seq<Item>, kept: nat)
    requires Telling(f) && kept <= |items| && forall i | 0 <= i < kept :: Readable(items[i])
    ensures TextTells(f, Join(Lines(f, items, kept), "\n"), items, kept)
  {
    var lines := Lines(f, items, kept);
    forall i | 0 <= i < kept
      ensures Tells(lines[i], items[i], KeyOf(f, items, i)) && '\n' !in lines[i]
    {
      LineAtTells(f, items, i);
    }
    if kept > 0 {
      assert ['\n'] == "\n";
      SplitJoin(lines, '\n');
    }
  }

  lemma {:induction false} RefsAt(f: Format, items: seq<Item>, n: nat, i: nat)
    requires i < n <= |items| && items[i].role in f.roles
    ensures var m := Interactives(f, items, i); m < |Refs(f, items, n)| && Refs(f, items, n)[m] == RefAt(f, items, i)
  {
    if i < n - 1 {
      RefsAt(f, items, n - 1, i);
    }
  }

  lemma RefsTellOf(f: Format, items: seq<Item>, n: nat)
    requires n <= |items|
    ensures RefsTell(f, Refs(f, items, n), items, n)
  {
    forall i | 0 <= i < n && items[i].role in f.roles
      ensures var m, refs := Interactives(f, items, i), Refs(f, items, n); m < |refs| && RefTells(refs[m], m, items, i)
    {
      RefsAt(f, items, n, i);
    }
  }

  lemma {:induction false} TitleTellsOf(items: seq<Item>, n: nat)
    requires n <= |items|
    ensures TitleTells(TitleAfter(items, n), items, n)
  {
    if n > 0 {
      TitleTellsOf(items, n - 1);
      if IsPage(items[n - 1]) {
        assert TitleAfter(items, n) == Some(items[n - 1].name);
      } else if TitleAfter(items, n - 1).Some? {
        var i :| 0 <= i < n - 1 && IsPage(items[i]) && items[i].name == TitleAfter(items, n - 1).value
                 && forall j | i < j < n - 1 :: !IsPage(items[j]);
        assert forall j | i < j < n :: !IsPage(items[j]);
      }
    }
  }

  // --- Titles ---

  ghost predicate IsFirstPage(items: seq<Item>, n: nat, i: nat) {
    i < n <= |items| && IsPage(items[i]) && forall j | 0 <= j < i :: !IsPage(items[j])
  }

  ghost predicate IsLastPage(items: seq<Item>, n: nat, i: nat) {
    i < n <= |items| && IsPage(items[i]) && forall j | i < j < n :: !IsPage(items[j])
  }

  /** The title is the name of the first top-level document, if there is one. */
  ghost predicate IsFirstTitle(title: Option<string>, items: seq<Item>, n: nat)
    requires n <= |items|
  {
    match title
    case None => forall i | 0 <= i < n :: !IsPage(items[i])
    case Some(name) => exists i: nat :: IsFirstPage(items, n, i) && items[i].name == name
  }

  /** Which it is exactly when the first and the last document have the same name. */
  lemma TitleIsFirstIff(title: Option<string>, items: seq<Item>, n: nat)
    requires n <= |items| && TitleTells(title, items, n)
    ensures IsFirstTitle(title, items, n) <==>
            forall i: nat, j: nat | IsFirstPage(items, n, i) && IsLastPage(items, n, j) ::
              items[i].name == items[j].name
  {
    if title.Some? {
      var last :| 0 <= last < n && IsPage(items[last]) && items[last].name == title.value
                  && forall j | last < j < n :: !IsPage(items[j]);
      assert IsLastPage(items, n, last);
      var first := FirstPageBefore(items, n, last);
      assert forall i: nat | IsFirstPage(items, n, i) :: i == first;
      assert forall j: nat | IsLastPage(items, n, j) :: j == last;
    } else {
      assert forall i: nat :: !IsFirstPage(items, n, i);
    }
  }

  lemma {:induction false} FirstPageBefore(items: seq<Item>, n: nat, i: nat) returns (first: nat)
    requires i < n <= |items| && IsPage(items[i])
    ensures first <= i && IsFirstPage(items, n, first)
    decreases i
  {
    if j: nat :| j < i && IsPage(items[j]) {
      first := FirstPageBefore(items, n, j);
    } else {
      first := i;
    }
  }

  /** In a tree only the root is at the top. */
  lemma TreeTitleIsFirst(title: Option<string>, root: Node, n: nat)
    requires n <= |Preorder(root, 0)| && TitleTells(title, Preorder(root, 0), n)
    ensures IsFirstTitle(title, Preorder(root, 0), n)
  {
    var items := Preorder(root, 0);
    DeeperThanRoot(root.children, 1);
    assert forall i | 0 < i < |items| :: items[i] == PreorderAll(root.children, 1)[i - 1];
    TitleIsFirstIff(title, items, n);
  }

  /** For instance. */
  lemma LaterTitleWins(a: string, b: string)
    requires a != "" && b != "" && a != b
    ensures var items := [Item(0, "document", a, a, [], None, ""), Item(0, "document", b, b, [], None, "")];
            TitleAfter(items, 2) == Some(b) && !IsFirstTitle(Some(b), items, 2)
  {
    var items := [Item(0, "document", a, a, [], None, ""), Item(0, "document", b, b, [], None, "")];
    assert IsPage(items[0]);
    assert forall i: nat | IsFirstPage(items, 2, i) :: i == 0;
  }

  /** A run over the elements considered. */
  lemma RunIsSnapshot(f: Format, page: seq<Item>, considered: seq<Item>, st: Out) returns (kept: nat, n: nat)
    requires Separable(f) && Telling(f) && |considered| <= |page|
    requires var r := Run(f, INIT, considered); st == r.(truncated := r.truncated || |considered| < |page|)
    ensures IsSnapshot(f, Finish(st), page, considered, kept, n) && kept == |st.lines|
  {
    var r := Run(f, INIT, considered);
    RunKeepsLongestPrefix(f, considered);
    RunRecords(f, considered);
    kept := |r.lines|;
    n := Recorded(f, considered, kept);
    RefsTellOf(f, considered, n);
    TitleTellsOf(considered, n);
    if forall i | 0 <= i < kept :: Readable(considered[i]) {
      LinesTell(f, considered, kept);
    }
    if f.maxChars >= 0 {
      TextWithinBudget(f, considered);
    }
  }

  lemma TreeRunIsSnapshot(f: Format, maxDepth: int, page: seq<Item>) returns (kept: nat, n: nat)
    requires Separable(f) && Telling(f)
    ensures var considered := page[..ShallowPrefix(maxDepth, page)];
            IsSnapshot(f, Finish(TreeRun(f, maxDepth, INIT, page)), page, considered, kept, n)
  {
    TreeRunIsRun(f, maxDepth, INIT, page);
    kept, n := RunIsSnapshot(f, page, page[..ShallowPrefix(maxDepth, page)], TreeRun(f, maxDepth, INIT, page));
  }

  lemma LineRunIsSnapshot(f: Format, maxDepth: int, page: seq<Item>) returns (kept: nat, n: nat)
    requires Separable(f) && Telling(f) && forall i | 0 <= i < |page| :: Readable(page[i])
    ensures var r, considered := Finish(LineRun(f, maxDepth, INIT, page)), Shallow(maxDepth, page);
            IsSnapshot(f, r, page, considered, kept, n) && TextTells(f, r.text, considered, kept)
  {
    LineRunIsRun(f, maxDepth, INIT, page);
    kept, n := RunIsSnapshot(f, page, Shallow(maxDepth, page), LineRun(f, maxDepth, INIT, page));
    ShallowAre(maxDepth, page, Readable);
  }

  lemma {:induction false} ShallowAre(maxDepth: int, items: seq<Item>, good: Item -> bool)
    requires forall i | 0 <= i < |items| :: good(items[i])
    ensures forall i | 0 <= i < |Shallow(maxDepth, items)| :: good(Shallow(maxDepth, items)[i])
  {
    if items != [] {
      ShallowAre(maxDepth, items[1..], good);
    }
  }

  // --- Trees whose lines can be read ---

  /** The role fits the line grammar, and no value, description or level contains a comma. The
      name may be anything. */
  predicate ReadableTree(node: Node) {
    IsRole(node.role) && CleanState(node) && forall i | 0 <= i < |node.children| :: ReadableTree(node.children[i])
  }

  lemma NodeIsReadable(node: Node, depth: nat)
    requires IsRole(node.role) && CleanState(node)
    ensures Readable(ItemOf(node, depth))
  {
    CleanAttrs(node);
    var item := ItemOf(node, depth);
    assert forall i | 0 <= i < |item.attrs| :: item.attrs[i] in Attrs(node);
    CleanTextIsKept(node.name);
  }

  lemma {:induction false} TreeIsReadable(node: Node, depth: nat)
    requires ReadableTree(node)
    ensures forall i | 0 <= i < |Preorder(node, depth)| :: Readable(Preorder(node, depth)[i])
    decreases node, 1
  {
    NodeIsReadable(node, depth);
    ForestIsReadable(node.children, depth + 1);
  }

  lemma {:induction false} ForestIsReadable(nodes: seq<Node>, depth: nat)
    requires forall i | 0 <= i < |nodes| :: ReadableTree(nodes[i])
    ensures forall i | 0 <= i < |PreorderAll(nodes, depth)| :: Readable(PreorderAll(nodes, depth)[i])
    decreases nodes, 0
  {
    if nodes != [] {
      TreeIsReadable(nodes[0], depth);
      ForestIsReadable(nodes[1..], depth);
    }
  }

  /** `r` is a snapshot of the elements considered, and can be read. */
  ghost predicate Shows(f: Format, r: SerializeResult, page: seq<Item>, considered: seq<Item>, kept: nat, n: nat) {
    IsSnapshot(f, r, page, considered, kept, n) && TextTells(f, r.text, considered, kept)
  }

  lemma LineFormatShows(maxChars: int, maxDepth: int, page: seq<Item>) returns (kept: nat, n: nat)
    requires forall i | 0 <= i < |page| :: Readable(page[i])
    ensures var f := LineFormat(maxChars);
            Shows(f, Finish(LineRun(f, maxDepth, INIT, page)), page, Shallow(maxDepth, page), kept, n)
  {
    RolesAreSeparable(maxChars);
    LineFormatTells(maxChars);
    kept, n := LineRunIsSnapshot(LineFormat(maxChars), maxDepth, page);
  }

  lemma YamlShows(yaml: string, maxChars: int, maxDepth: int, page: seq<Item>) returns (kept: nat, n: nat)
    requires page == Elements(ReadLine, Split(yaml, '\n'))
    ensures var f := LineFormat(maxChars);
            Shows(f, Finish(LineRun(f, maxDepth, INIT, page)), page, Shallow(maxDepth, page), kept, n)
  {
    YamlIsReadable(yaml);
    kept, n := LineFormatShows(maxChars, maxDepth, page);
  }

  lemma TreeShows(root: Node, maxChars: int, maxDepth: int, page: seq<Item>) returns (kept: nat, n: nat)
    requires page == Preorder(root, 0)
    ensures var f, considered := LineFormat(maxChars), page[..ShallowPrefix(maxDepth, page)];
            && IsSnapshot(f, Finish(TreeRun(f, maxDepth, INIT, page)), page, considered, kept, n)
            && (ReadableTree(root) ==> Shows(f, Finish(TreeRun(f, maxDepth, INIT, page)), page, considered, kept, n))
  {
    RolesAreSeparable(maxChars);
    LineFormatTells(maxChars);
    kept, n := TreeRunIsSnapshot(LineFormat(maxChars), maxDepth, page);
    if ReadableTree(root) {
      TreeIsReadable(root, 0);
    }
  }

  // --- The entry points ---

  /** The options that are not given: 4000 tokens of four characters, eight levels. */
  lemma OptionDefaults(options: Options)
    ensures MaxChars(options) == (if options.maxTokens.None? then 16000 else 4 * options.maxTokens.value)
    ensures MaxDepth(options) == (if options.maxDepth.None? then 8 else options.maxDepth.value)
  {
  }

  /** A traversal of the whole tree. */
  method Traverse(f: Format, maxDepth: int, root: Node) returns (r: SerializeResult)
    ensures r == Finish(TreeRun(f, maxDepth, INIT, Preorder(root, 0)))
  {
    var serializer := new Serializer(f, maxDepth);
    var _ := serializer.Visit(root, 0);
    r := Finish(serializer.State());
  }

  /** `serializeA11yTree`: of the elements in preorder, those before the first one below the
      depth limit are considered. The lines can be read when `ReadableTree` holds. */
  method SerializeA11yTree(root: Node, options: Options)
    returns (r: SerializeResult, ghost page: seq<Item>, ghost kept: nat, ghost n: nat)
    ensures page == Preorder(root, 0) && r == Finish(TreeOut(root, options))
    ensures var f, considered := LineFormat(MaxChars(options)), page[..ShallowPrefix(MaxDepth(options), page)];
            && IsSnapshot(f, r, page, considered, kept, n)
            && (ReadableTree(root) ==> Shows(f, r, page, considered, kept, n))
  {
    r := Traverse(LineFormat(MaxChars(options)), MaxDepth(options), root);
    page := Preorder(root, 0);
    kept, n := TreeShows(root, MaxChars(options), MaxDepth(options), page);
  }

  /** `parseAriaYaml`: of the elements of the text, all within the depth limit are considered,
      and every line of the result can be read. */
  method ParseAriaYaml(yaml: string, options: Options)
    returns (r: SerializeResult, ghost page: seq<Item>, ghost kept: nat, ghost n: nat)
    ensures page == Elements(ReadLine, Split(yaml, '\n')) && r == Finish(YamlOut(yaml, options))
    ensures Shows(LineFormat(MaxChars(options)), r, page, Shallow(MaxDepth(options), page), kept, n)
  {
    var st := SerializeLines(LineFormat(MaxChars(options)), MaxDepth(options), ReadLine, Split(yaml, '\n'));
    r := Finish(st);
    page := Elements(ReadLine, Split(yaml, '\n'));
    kept, n := YamlShows(yaml, MaxChars(options), MaxDepth(options), page);
  }
}
