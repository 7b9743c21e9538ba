/**
 The two entry points of a11y-serializer.ts side by side: a tree printed in the line form
 and read by `parseAriaYaml` against the same tree given to `serializeA11yTree`.
 */
module A11yRoundTrip {
  import opened Wrappers
  import opened Strings
  import opened A11yLines
  import opened A11yDepth
  import opened A11ySerializer
  import opened A11yYaml
  import opened A11yLine

  function YamlLines(node: Node, depth: nat): (lines: seq<string>)
    ensures lines != []
    decreases node, 1
  {
    [YamlLine(ItemOf(node, depth), node.children != [])] + YamlLinesAll(node.children, depth + 1)
  }

  function YamlLinesAll(nodes: seq<Node>, depth: nat): seq<string>
    decreases nodes, 0
  {
    if nodes == [] then [] else YamlLines(nodes[0], depth) + YamlLinesAll(nodes[1..], depth)
  }

  /** The tree as ariaSnapshot() prints it. */
  function PrintYaml(root: Node): string {
    Join(YamlLines(root, 0), "\n")
  }

  predicate NoComma(s: Option<string>) {
    s.Some? ==> ',' !in s.value
  }

  /** The role fits the line grammar, the name has no quotes or line breaks, and no
      attribute contains a comma, a bracket or a line break. */
  predicate CleanNode(node: Node) {
    IsRole(node.role) && CleanName(node.name) && CleanState(node)
  }

  predicate CleanState(node: Node) {
    && NoComma(node.value) && NoComma(node.description)
    && (node.level.Some? ==> CleanLevel(node.level.value))
  }

  predicate CleanLevel(level: string) {
    level != "" && !IsSpace(level[|level| - 1]) && ',' !in level && ']' !in level && '\n' !in level
  }

  predicate CleanTree(node: Node) {
    CleanNode(node) && forall i | 0 <= i < |node.children| :: CleanTree(node.children[i])
  }

  lemma CleanPlain(attr: string)
    requires attr in {"checked", "indeterminate", "pressed", "selected",
                      "expanded", "collapsed", "disabled", "required"}
    ensures CleanAttr(attr)
  {
    assert ARIA_REF[0] == 'a' && !(ARIA_REF <= attr);
  }

  lemma CleanQuoted(prefix: string, text: string)
    requires prefix == "value=\"" || prefix == "desc=\""
    requires ',' !in text
    ensures CleanAttr(prefix + SanitizeAttrValue(text) + "\"")
  {
    var attr := prefix + SanitizeAttrValue(text) + "\"";
    assert attr[0] == prefix[0] != ARIA_REF[0];
    assert attr[|attr| - 1] == '"';
  }

  lemma CleanLevelAttr(level: string)
    requires CleanLevel(level)
    ensures CleanAttr("level=" + level)
  {
    var attr := "level=" + level;
    assert attr[0] == 'l' != ARIA_REF[0];
    assert attr[|attr| - 1] == level[|level| - 1];
  }

  lemma CleanFlags(node: Node)
    ensures forall a | a in Flags(node) :: CleanAttr(a)
  {
    forall a | a in Flags(node)
      ensures CleanAttr(a)
    {
      CleanPlain(a);
    }
  }

  lemma CleanAttrs(node: Node)
    requires CleanState(node)
    ensures forall a | a in Attrs(node) :: CleanAttr(a)
  {
    CleanFlags(node);
    if node.level.Some? {
      CleanLevelAttr(node.level.value);
    }
    if node.value.Some? {
      CleanQuoted("value=\"", node.value.value);
    }
    if node.description.Some? {
      CleanQuoted("desc=\"", node.description.value);
    }
    assert forall a | a in Attrs(node) :: a in LeadingAttrs(node) || a in Flags(node) || a in DescriptionAttr(node);
  }

  lemma CleanItemOf(node: Node, depth: nat)
    requires CleanNode(node)
    ensures CleanItem(ItemOf(node, depth))
  {
    CleanAttrs(node);
    assert SanitizeName(node.name) == node.name;
  }

  lemma {:induction false} ElementsConcat(read: string -> Option<Item>, a: seq<string>, b: seq<string>)
    ensures Elements(read, a + b) == Elements(read, a) + Elements(read, b)
  {
    if a == [] {
      assert a + b == b;
    } else {
      var first := if read(a[0]).Some? then [read(a[0]).value] else [];
      assert (a + b)[0] == a[0] && (a + b)[1..] == a[1..] + b;
      ElementsConcat(read, a[1..], b);
      assert first + (Elements(read, a[1..]) + Elements(read, b)) == first + Elements(read, a[1..]) + Elements(read, b);
    }
  }

  lemma ElementsOne(read: string -> Option<Item>, line: string, item: Item)
    requires read(line) == Some(item)
    ensures Elements(read, [line]) == [item]
  {
    assert [line][1..] == [];
  }

  /** Reading the printed lines of a tree gives its elements in preorder. */
  lemma {:induction false} ReadTree(node: Node, depth: nat)
    requires CleanTree(node)
    ensures Elements(ReadLine, YamlLines(node, depth)) == Preorder(node, depth)
    decreases node, 1
  {
    var line := YamlLine(ItemOf(node, depth), node.children != []);
    CleanItemOf(node, depth);
    ReadPrinted(ItemOf(node, depth), node.children != []);
    ElementsOne(ReadLine, line, ItemOf(node, depth));
    ElementsConcat(ReadLine, [line], YamlLinesAll(node.children, depth + 1));
    ReadForest(node.children, depth + 1);
  }

  lemma {:induction false} ReadForest(nodes: seq<Node>, depth: nat)
    requires forall i | 0 <= i < |nodes| :: CleanTree(nodes[i])
    ensures Elements(ReadLine, YamlLinesAll(nodes, depth)) == PreorderAll(nodes, depth)
    decreases nodes, 0
  {
    if nodes != [] {
      ElementsConcat(ReadLine, YamlLines(nodes[0], depth), YamlLinesAll(nodes[1..], depth));
      ReadTree(nodes[0], depth);
      ReadForest(nodes[1..], depth);
    }
  }

  lemma YamlLineIsOneLine(item: Item, hasChildren: bool)
    requires CleanItem(item)
    ensures '\n' !in YamlLine(item, hasChildren)
  {
    var d := FormOf(item, hasChildren);
    var attrs := item.attrs + AriaAttr(item);
    assert forall i | 0 <= i < |attrs| :: PlainAttr(attrs[i]);
    JoinHas(attrs, ", ", '\n');
    assert '\n' !in item.role && '\n' !in Spaces(item.indent);
    assert '\n' !in MarkedText(d.name, '"', '"') && '\n' !in MarkedText(d.attrs, '[', ']');
    assert '\n' !in AfterRole(d);
  }

  lemma ConsAreLines(line: string, rest: seq<string>)
    requires '\n' !in line && forall i | 0 <= i < |rest| :: '\n' !in rest[i]
    ensures forall i | 0 <= i < |[line] + rest| :: '\n' !in ([line] + rest)[i]
  {
  }

  lemma {:induction false} TreeLinesAreLines(node: Node, depth: nat)
    requires CleanTree(node)
    ensures forall i | 0 <= i < |YamlLines(node, depth)| :: '\n' !in YamlLines(node, depth)[i]
    decreases node, 1
  {
    var line, rest := YamlLine(ItemOf(node, depth), node.children != []), YamlLinesAll(node.children, depth + 1);
    CleanItemOf(node, depth);
    YamlLineIsOneLine(ItemOf(node, depth), node.children != []);
    ForestLinesAreLines(node.children, depth + 1);
    ConsAreLines(line, rest);
  }

  lemma {:induction false} ForestLinesAreLines(nodes: seq<Node>, depth: nat)
    requires forall i | 0 <= i < |nodes| :: CleanTree(nodes[i])
    ensures forall i | 0 <= i < |YamlLinesAll(nodes, depth)| :: '\n' !in YamlLinesAll(nodes, depth)[i]
    decreases nodes, 0
  {
    if nodes != [] {
      TreeLinesAreLines(nodes[0], depth);
      ForestLinesAreLines(nodes[1..], depth);
    }
  }

  lemma {:induction false} DeeperThanRoot(nodes: seq<Node>, depth: nat)
    requires depth > 0
    ensures forall i | 0 <= i < |PreorderAll(nodes, depth)| :: PreorderAll(nodes, depth)[i].indent > 0
    decreases nodes
  {
    if nodes != [] {
      var first, rest := Preorder(nodes[0], depth), PreorderAll(nodes[1..], depth);
      DeeperThanRoot(nodes[0].children, depth + 1);
      DeeperThanRoot(nodes[1..], depth);
      assert first[0].indent == 2 * depth;
      assert forall i | 0 < i < |first| :: first[i] == PreorderAll(nodes[0].children, depth + 1)[i - 1];
      assert PreorderAll(nodes, depth) == first + rest;
    }
  }

  /** The elements `parseAriaYaml` sees are those of the tree. */
  lemma ReadBack(root: Node)
    requires CleanTree(root)
    ensures Elements(ReadLine, Split(PrintYaml(root), '\n')) == Preorder(root, 0)
  {
    TreeLinesAreLines(root, 0);
    assert ['\n'] == "\n";
    SplitJoin(YamlLines(root, 0), '\n');
    ReadTree(root, 0);
  }

  /** Printing a tree and parsing it back gives the same text, refs, flag and title as
      serialising the tree, exactly when skipping deep elements makes no difference. */
  lemma SerializersAgreeIff(root: Node, options: Options)
    requires CleanTree(root)
    ensures Finish(TreeOut(root, options)) == Finish(YamlOut(PrintYaml(root), options)) <==>
            DepthIrrelevant(LineFormat(MaxChars(options)), MaxDepth(options), Preorder(root, 0))
  {
    ReadBack(root);
    DeeperThanRoot(root.children, 1);
    RolesAreSeparable(MaxChars(options));
    FormsAgreeIff(LineFormat(MaxChars(options)), MaxDepth(options), Preorder(root, 0));
  }

  /** A tree within the depth limit gets the same result from both, for every budget. */
  lemma SerializersAgreeWithinDepth(root: Node, options: Options)
    requires CleanTree(root)
    requires forall i | 0 <= i < |Preorder(root, 0)| :: !Deep(MaxDepth(options), Preorder(root, 0)[i])
    ensures Finish(TreeOut(root, options)) == Finish(YamlOut(PrintYaml(root), options))
  {
    ReadBack(root);
    FormsAgreeWithinDepth(LineFormat(MaxChars(options)), MaxDepth(options), Preorder(root, 0));
  }

  // --- A tree on which the serialisers disagree ---

  function Plain(role: string, children: seq<Node>): Node {
    Bare(role, "", children)
  }

  function PlainItem(role: string, depth: nat): Item {
    Item(2 * depth, role, "", "", [], None, "")
  }

  lemma PlainIsClean(role: string, children: seq<Node>)
    requires IsRole(role) && forall i | 0 <= i < |children| :: CleanTree(children[i])
    ensures CleanTree(Plain(role, children))
  {
  }

  lemma PlainPreorder(role: string, children: seq<Node>, depth: nat)
    ensures Preorder(Plain(role, children), depth) == [PlainItem(role, depth)] + PreorderAll(children, depth + 1)
  {
    assert Attrs(Plain(role, children)) == [];
    assert SanitizeName("") == "";
  }

  lemma PreorderOfTwo(a: Node, b: Node, depth: nat)
    ensures PreorderAll([a], depth) == Preorder(a, depth)
    ensures PreorderAll([a, b], depth) == Preorder(a, depth) + Preorder(b, depth)
  {
    assert [a, b][1..] == [b] && [b][1..] == [] && [a][1..] == [];
    assert Preorder(a, depth) + [] == Preorder(a, depth) && Preorder(b, depth) + [] == Preorder(b, depth);
  }

  /** A document with a list and, after the list, a button. */
  function Page(): Node {
    Plain("document", [Plain("list", [Plain("listitem", [])]), Plain("button", [])])
  }

  lemma PageIsClean()
    ensures CleanTree(Page())
  {
    var item, button := Plain("listitem", []), Plain("button", []);
    PlainIsClean("listitem", []);
    PlainIsClean("button", []);
    PlainIsClean("list", [item]);
    PlainIsClean("document", [Plain("list", [item]), button]);
  }

  lemma PageElements()
    ensures Preorder(Page(), 0) ==
            [PlainItem("document", 0), PlainItem("list", 1), PlainItem("listitem", 2), PlainItem("button", 1)]
  {
    var item, button := Plain("listitem", []), Plain("button", []);
    var list := Plain("list", [item]);
    PlainPreorder("listitem", [], 2);
    PlainPreorder("button", [], 1);
    PreorderOfTwo(item, item, 2);
    PlainPreorder("list", [item], 1);
    PreorderOfTwo(list, button, 1);
    PlainPreorder("document", [list, button], 0);
  }

  /** Four elements, the third below the limit and the last with a ref: skipping matters. */
  lemma RefAfterDeep(f: Format, maxDepth: int, items: seq<Item>)
    requires |items| == 4 && Deep(maxDepth, items[2]) && forall i | 0 <= i < 4 && i != 2 :: !Deep(maxDepth, items[i])
    requires !IsInteractive(f, items[0]) && !IsInteractive(f, items[1]) && IsInteractive(f, items[3])
    requires Units(f.line(items[0], None)) + Units(f.line(items[1], None)) + 2 < f.maxChars
    ensures !DepthIrrelevant(f, maxDepth, items)
  {
    var p := ShallowPrefix(maxDepth, items);
    assert p == 2;
    assert Resume(maxDepth, items, 2) == 3;
    assert Cost(f, items, 1) == Units(f.line(items[0], None)) + 1;
    assert Cost(f, items, 2) == Units(f.line(items[0], None)) + Units(f.line(items[1], None)) + 2;
  }

  lemma PageRoles(maxChars: int)
    ensures var roles := LineFormat(maxChars).roles; "document" !in roles && "list" !in roles && "button" in roles
  {
  }

  lemma PlainLine(role: string, depth: nat)
    ensures Units(LineText(PlainItem(role, depth), None)) <= 4 * depth + 2 * |role|
  {
    var line := LineText(PlainItem(role, depth), None);
    assert |line| == 2 * depth + |role|;
    UnitsBound(line);
  }

  /** With a limit of one level, serialising stops at the list item while parsing goes on and
      records the button. */
  lemma SerializersDisagree()
    ensures var options := Options(None, Some(1));
            CleanTree(Page()) && Finish(TreeOut(Page(), options)) != Finish(YamlOut(PrintYaml(Page()), options))
  {
    var f, items := LineFormat(16000), Preorder(Page(), 0);
    PageIsClean();
    PageElements();
    PageRoles(16000);
    PlainLine("document", 0);
    PlainLine("list", 1);
    RefAfterDeep(f, 1, items);
    SerializersAgreeIff(Page(), Options(None, Some(1)));
  }
}
