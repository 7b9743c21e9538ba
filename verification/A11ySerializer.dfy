/**
 The tree serialiser of a11y-serializer.ts: `serializeA11yTree` and the state it shares
 with `parseAriaYaml`.
 */
module A11ySerializer {
  import opened Wrappers
  import opened Strings
  import opened A11yLines
  import opened A11yDepth

  /** Roles that receive a ref. */
  const VALID_ROLES: set<string> := {
    "button", "link", "textbox", "searchbox", "combobox", "listbox", "radiogroup", "radio",
    "checkbox", "switch", "spinbutton", "slider", "menuitem", "menuitemradio", "menuitemcheckbox",
    "tab", "treeitem", "option", "cell", "gridcell", "columnheader", "rowheader"
  }

  /** An undefined option is None. */
  datatype Options = Options(maxTokens: Option<int>, maxDepth: Option<int>)

  const CHARS_PER_TOKEN := 4

  function MaxChars(o: Options): int {
    o.maxTokens.UnwrapOr(4000) * CHARS_PER_TOKEN
  }

  function MaxDepth(o: Options): int {
    o.maxDepth.UnwrapOr(8)
  }

  // --- Nodes ---

  datatype Tri = Yes | No | Mixed

  /** An accessibility node; a number stands as the text it prints as. */
  datatype Node = Node(role: string, name: string, value: Option<string>, description: Option<string>,
                       level: Option<string>, checked: Option<Tri>, pressed: Option<Tri>,
                       selected: Option<bool>, expanded: Option<bool>, disabled: Option<bool>,
                       required: Option<bool>, children: seq<Node>)

  /** A node without attributes. */
  function Bare(role: string, name: string, children: seq<Node>): Node {
    Node(role, name, None, None, None, None, None, None, None, None, None, children)
  }

  function SanitizeNameChar(c: char): char {
    if c == '\r' || c == '\n' then ' ' else if c == '"' then '\'' else c
  }

  function SanitizeName(s: string): string {
    seq(|s|, i requires 0 <= i < |s| => SanitizeNameChar(s[i]))
  }

  function SanitizeAttrChar(c: char): char {
    if c == ']' then ')' else SanitizeNameChar(c)
  }

  function SanitizeAttrValue(s: string): (t: string)
    ensures '\n' !in t && ']' !in t && '"' !in t
    ensures ',' !in s ==> ',' !in t
  {
    seq(|s|, i requires 0 <= i < |s| => SanitizeAttrChar(s[i]))
  }

  function When(condition: bool, attr: string): seq<string> {
    if condition then [attr] else []
  }

  function LeadingAttrs(node: Node): seq<string> {
    (if node.level.Some? then ["level=" + node.level.value] else [])
    + (if node.value.Some? then ["value=\"" + SanitizeAttrValue(node.value.value) + "\""] else [])
  }

  function Flags(node: Node): (r: seq<string>)
    ensures forall a | a in r ::
              a in {"checked", "indeterminate", "pressed", "selected", "expanded", "collapsed", "disabled", "required"}
  {
    When(node.checked == Some(Yes), "checked")
    + When(node.checked == Some(Mixed), "indeterminate")
    + When(node.pressed == Some(Yes), "pressed")
    + When(node.selected == Some(true), "selected")
    + When(node.expanded == Some(true), "expanded")
    + When(node.expanded == Some(false), "collapsed")
    + When(node.disabled == Some(true), "disabled")
    + When(node.required == Some(true), "required")
  }

  // --- What the attributes say ---

  /** The order in which flags are listed, */
  const FLAGS: seq<string> :=
    ["checked", "indeterminate", "pressed", "selected", "expanded", "collapsed", "disabled", "required"]

  /** and which of them hold of a node. */
  function Holds(node: Node): seq<bool> {
    [node.checked == Some(Yes), node.checked == Some(Mixed), node.pressed == Some(Yes), node.selected == Some(true),
     node.expanded == Some(true), node.expanded == Some(false), node.disabled == Some(true),
     node.required == Some(true)]
  }

  /** `picked` are the names at the places `ks`, which are those that hold, in order. */
  ghost predicate Picks(holds: seq<bool>, names: seq<string>, n: nat, ks: seq<nat>, picked: seq<string>) {
    && n <= |holds| == |names| && |picked| == |ks|
    && (forall i | 0 <= i < |ks| :: ks[i] < n && holds[ks[i]] && picked[i] == names[ks[i]])
    && (forall i, j | 0 <= i < j < |ks| :: ks[i] < ks[j])
    && (forall k | 0 <= k < n && holds[k] :: k in ks)
  }

  lemma PicksMore(holds: seq<bool>, names: seq<string>, n: nat, ks: seq<nat>, picked: seq<string>)
    returns (ks': seq<nat>)
    requires Picks(holds, names, n, ks, picked) && n < |holds|
    ensures Picks(holds, names, n + 1, ks', picked + When(holds[n], names[n]))
  {
    ks' := ks + if holds[n] then [n] else [];
    assert forall i | 0 <= i < |ks| :: ks'[i] == ks[i];
    forall k | 0 <= k < n + 1 && holds[k]
      ensures k in ks'
    {
      if k == n {
        assert ks'[|ks|] == n;
      }
    }
  }

  lemma PicksEight(holds: seq<bool>, names: seq<string>) returns (ks: seq<nat>)
    requires |holds| == |names| == 8
    ensures Picks(holds, names, 8, ks, When(holds[0], names[0]) + When(holds[1], names[1]) + When(holds[2], names[2])
                                       + When(holds[3], names[3]) + When(holds[4], names[4]) + When(holds[5], names[5])
                                       + When(holds[6], names[6]) + When(holds[7], names[7]))
  {
    var a := When(holds[0], names[0]);
    ks := PicksMore(holds, names, 0, [], []);
    assert [] + a == a;
    ks := PicksMore(holds, names, 1, ks, a);
    ks := PicksMore(holds, names, 2, ks, a + When(holds[1], names[1]));
    var b := a + When(holds[1], names[1]) + When(holds[2], names[2]);
    ks := PicksMore(holds, names, 3, ks, b);
    ks := PicksMore(holds, names, 4, ks, b + When(holds[3], names[3]));
    var c := b + When(holds[3], names[3]) + When(holds[4], names[4]);
    ks := PicksMore(holds, names, 5, ks, c);
    ks := PicksMore(holds, names, 6, ks, c + When(holds[5], names[5]));
    ks := PicksMore(holds, names, 7, ks, c + When(holds[5], names[5]) + When(holds[6], names[6]));
  }

  /** Exactly the flags of the node's state are listed, in order. */
  lemma FlagsShowState(node: Node) returns (ks: seq<nat>)
    ensures Picks(Holds(node), FLAGS, 8, ks, Flags(node))
  {
    ks := PicksEight(Holds(node), FLAGS);
  }

  function DescriptionAttr(node: Node): seq<string> {
    if node.description.UnwrapOr("") != "" then ["desc=\"" + SanitizeAttrValue(node.description.value) + "\""] else []
  }

  /** The state attributes, in the order they are collected. */
  function Attrs(node: Node): seq<string> {
    LeadingAttrs(node) + Flags(node) + DescriptionAttr(node)
  }

  /** Level and value come first, then the flags, then a description that is not empty. */
  lemma AttrsShowState(node: Node) returns (ks: seq<nat>, flags: seq<string>)
    ensures Picks(Holds(node), FLAGS, 8, ks, flags)
    ensures Attrs(node) ==
            (match node.level case None => [] case Some(level) => ["level=" + level])
            + (match node.value case None => [] case Some(value) => ["value=\"" + SanitizeAttrValue(value) + "\""])
            + flags
            + (if node.description == None || node.description == Some("") then []
               else ["desc=\"" + SanitizeAttrValue(node.description.value) + "\""])
  {
    ks := FlagsShowState(node);
    flags := Flags(node);
  }

  /** Text without quotes, line breaks and closing brackets is shown as it is. */
  lemma CleanTextIsKept(s: string)
    ensures '"' !in SanitizeName(s) && '\n' !in SanitizeName(s) && '\r' !in SanitizeName(s)
    ensures '"' !in s && '\n' !in s && '\r' !in s ==> SanitizeName(s) == s
    ensures '"' !in s && '\n' !in s && '\r' !in s && ']' !in s ==> SanitizeAttrValue(s) == s
  {
  }

  function ItemOf(node: Node, depth: nat): Item {
    Item(2 * depth, node.role, node.name, SanitizeName(node.name), Attrs(node), None, "")
  }

  /** The elements of a tree in document order. */
  function Preorder(node: Node, depth: nat): seq<Item>
    decreases node, 1
  {
    [ItemOf(node, depth)] + PreorderAll(node.children, depth + 1)
  }

  function PreorderAll(nodes: seq<Node>, depth: nat): seq<Item>
    decreases nodes, 0
  {
    if nodes == [] then [] else Preorder(nodes[0], depth) + PreorderAll(nodes[1..], depth)
  }

  lemma {:induction false} PreorderAllSnoc(nodes: seq<Node>, last: Node, depth: nat)
    ensures PreorderAll(nodes + [last], depth) == PreorderAll(nodes, depth) + Preorder(last, depth)
  {
    if nodes == [] {
      assert nodes + [last] == [last];
      assert [last][1..] == [];
    } else {
      assert (nodes + [last])[0] == nodes[0] && (nodes + [last])[1..] == nodes[1..] + [last];
      PreorderAllSnoc(nodes[1..], last, depth);
    }
  }

  lemma {:induction false} PreorderAllConcat(a: seq<Node>, b: seq<Node>, depth: nat)
    ensures PreorderAll(a + b, depth) == PreorderAll(a, depth) + PreorderAll(b, depth)
  {
    if a == [] {
      assert a + b == b;
    } else {
      assert (a + b)[0] == a[0] && (a + b)[1..] == a[1..] + b;
      PreorderAllConcat(a[1..], b, depth);
    }
  }

  // --- Lines ---

  function RenderLine(item: Item, attrs: seq<string>): string {
    Spaces(item.indent / 2 * 2) + item.role
    + (if item.name == "" then "" else " \"" + item.shown + "\"")
    + (if attrs == [] then "" else " [" + Join(attrs, ", ") + "]")
    + (if item.inline == "" then "" else ": " + item.inline)
  }

  function RefAttr(refKey: Option<string>): seq<string> {
    if refKey.Some? then ["ref=" + refKey.value] else []
  }

  function LineText(item: Item, refKey: Option<string>): string {
    RenderLine(item, item.attrs + RefAttr(refKey))
  }

  function LineFormat(maxChars: int): Format {
    Format(maxChars, VALID_ROLES, LineText)
  }

  lemma RolesAreSeparable(maxChars: int)
    ensures Separable(LineFormat(maxChars))
  {
  }

  /** The local variables of a serialiser call. */
  class Serializer {
    const format: Format
    const maxDepth: int
    var refCounter: nat
    var refs: seq<RefEntry>
    var lines: seq<string>
    var charCount: nat
    var truncated: bool
    var title: Option<string>
    var occurrenceCount: map<string, nat>

    function State(): Out
      reads this
    {
      Out(refCounter, refs, lines, charCount, truncated, title, occurrenceCount)
    }

    constructor (format: Format, maxDepth: int)
      ensures this.format == format && this.maxDepth == maxDepth
      ensures State() == INIT
    {
      this.format, this.maxDepth := format, maxDepth;
      refCounter, refs, lines, charCount, truncated, title, occurrenceCount := 0, [], [], 0, false, None, map[];
    }

    /** Everything after the depth check: title, ref, line and budget. */
    method Emit(item: Item) returns (kept: bool)
      modifies this
      ensures State() == Record(format, old(State()), item)
      ensures kept == Fits(format, old(State()), item)
    {
      if charCount >= format.maxChars {
        truncated := true;
        return false;
      }
      if GivesTitle(item) {
        title := Some(item.name);
      }
      var refKey := None;
      if item.role in format.roles {
        var key := OccurrenceKey(item.role, item.name);
        var nthIndex := if key in occurrenceCount then occurrenceCount[key] else 0;
        occurrenceCount := occurrenceCount[key := nthIndex + 1];
        refCounter := refCounter + 1;
        refKey := Some(RefKey(refCounter));
        refs := refs + [RefEntry(RefKey(refCounter), RefInfo(item.role, NameField(item.name), item.ariaRef, nthIndex))];
      }
      var line := format.line(item, refKey);
      if charCount + Units(line) + 1 > format.maxChars {
        truncated := true;
        return false;
      }
      charCount := charCount + Units(line) + 1;
      lines := lines + [line];
      return true;
    }

    /** The recursive traversal, which gives up as soon as a node is not kept. */
    method Visit(node: Node, depth: nat) returns (more: bool)
      modifies this
      ensures State() == TreeRun(format, maxDepth, old(State()), Preorder(node, depth))
      ensures !more ==> truncated
      decreases node
    {
      ghost var start := State();
      ghost var rest := PreorderAll(node.children, depth + 1);
      assert Preorder(node, depth)[1..] == rest;
      if truncated {
        return false;
      }
      if depth > maxDepth {
        truncated := true;
        return false;
      }
      var kept := Emit(ItemOf(node, depth));
      ghost var emitted := State();
      assert TreeRun(format, maxDepth, start, Preorder(node, depth)) == TreeRun(format, maxDepth, emitted, rest);
      if !kept {
        return false;
      }
      var i := 0;
      while i < |node.children|
        invariant 0 <= i <= |node.children|
        invariant State() == TreeRun(format, maxDepth, emitted, PreorderAll(node.children[..i], depth + 1))
      {
        more := Visit(node.children[i], depth + 1);
        ChildVisited(format, maxDepth, emitted, node.children, i, depth + 1);
        i := i + 1;
        if !more {
          break;
        }
      }
      ChildrenLeft(format, maxDepth, emitted, node.children, i, depth + 1);
      return true;
    }
  }

  lemma {:induction false} ChildVisited(f: Format, maxDepth: int, st: Out, nodes: seq<Node>, i: nat, depth: nat)
    requires i < |nodes|
    ensures TreeRun(f, maxDepth, st, PreorderAll(nodes[..i + 1], depth)) ==
            TreeRun(f, maxDepth, TreeRun(f, maxDepth, st, PreorderAll(nodes[..i], depth)), Preorder(nodes[i], depth))
  {
    TreeRunConcat(f, maxDepth, st, PreorderAll(nodes[..i], depth), Preorder(nodes[i], depth));
    PreorderAllSnoc(nodes[..i], nodes[i], depth);
    assert nodes[..i + 1] == nodes[..i] + [nodes[i]];
  }

  /** Once something was cut, the children left over change nothing. */
  lemma {:induction false} ChildrenLeft(f: Format, maxDepth: int, st: Out, nodes: seq<Node>, i: nat, depth: nat)
    requires i <= |nodes|
    requires i == |nodes| || TreeRun(f, maxDepth, st, PreorderAll(nodes[..i], depth)).truncated
    ensures TreeRun(f, maxDepth, st, PreorderAll(nodes, depth)) ==
            TreeRun(f, maxDepth, st, PreorderAll(nodes[..i], depth))
  {
    assert nodes == nodes[..i] + nodes[i..];
    PreorderAllConcat(nodes[..i], nodes[i..], depth);
    TreeRunConcat(f, maxDepth, st, PreorderAll(nodes[..i], depth), PreorderAll(nodes[i..], depth));
  }

  function TreeOut(root: Node, options: Options): Out {
    TreeRun(LineFormat(MaxChars(options)), MaxDepth(options), INIT, Preorder(root, 0))
  }
}
