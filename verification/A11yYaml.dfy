/**
 The line serialiser of a11y-serializer.ts: `parseAriaYaml` reads the YAML lines of
 Playwright's ariaSnapshot() with a regular expression. Its match is deterministic, so it
 is written here as a left-to-right parser. Printing a tree in that line form and reading
 it back gives the elements of the tree.
 */
module A11yYaml {
  import opened Wrappers
  import opened Strings
  import opened A11yLines
  import opened A11yDepth
  import opened A11ySerializer
  import opened A11yLine

  // --- Attributes ---

  function TrimmedParts(parts: seq<string>): seq<string> {
    if parts == [] then []
    else
      var part := Trim(parts[0]);
      (if part == "" then [] else [part]) + TrimmedParts(parts[1..])
  }

  function AttrParts(rawAttrs: string): seq<string> {
    if rawAttrs == "" then [] else TrimmedParts(Split(rawAttrs, ','))
  }

  const ARIA_REF := "aria-ref="

  predicate IsAriaRef(part: string) {
    && ARIA_REF < part
    && forall i | |ARIA_REF| <= i < |part| :: !IsLineTerminator(part[i])
  }

  function WithoutAriaRefs(parts: seq<string>): seq<string> {
    if parts == [] then []
    else WithoutAriaRefs(parts[..|parts| - 1]) + if IsAriaRef(parts[|parts| - 1]) then [] else [parts[|parts| - 1]]
  }

  /** The last native ref wins. */
  function NativeRef(parts: seq<string>): Option<string> {
    if parts == [] then None
    else if IsAriaRef(parts[|parts| - 1]) then Some(parts[|parts| - 1][|ARIA_REF|..])
    else NativeRef(parts[..|parts| - 1])
  }

  /** Separates native refs from the attributes that are passed through. */
  method SeparateAriaRef(parts: seq<string>) returns (outAttrs: seq<string>, nativeAriaRef: Option<string>)
    ensures outAttrs == WithoutAriaRefs(parts) && nativeAriaRef == NativeRef(parts)
  {
    outAttrs, nativeAriaRef := [], None;
    var i := 0;
    while i < |parts|
      invariant 0 <= i <= |parts|
      invariant outAttrs == WithoutAriaRefs(parts[..i]) && nativeAriaRef == NativeRef(parts[..i])
    {
      assert parts[..i + 1][..i] == parts[..i];
      if IsAriaRef(parts[i]) {
        nativeAriaRef := Some(parts[i][|ARIA_REF|..]);
      } else {
        outAttrs := outAttrs + [parts[i]];
      }
      i := i + 1;
    }
    assert parts[..i] == parts;
  }

  function ItemOfMatch(m: LineMatch): Item {
    var parts := AttrParts(m.attrs);
    Item(m.indent, m.role, m.name, m.name, WithoutAriaRefs(parts), NativeRef(parts), SanitizeAttrValue(Trim(m.inline)))
  }

  /** The element a raw line stands for, if any. */
  function ReadLine(rawLine: string): Option<Item> {
    var trimmed := TrimEnd(rawLine);
    if Trim(trimmed) == "" || IsMetadata(trimmed) then None
    else
      var m := MatchLine(trimmed);
      if m.None? then None else Some(ItemOfMatch(m.value))
  }

  /** The elements of the lines that stand for one. */
  function Elements(read: string -> Option<Item>, rawLines: seq<string>): seq<Item> {
    if rawLines == [] then []
    else
      var element := read(rawLines[0]);
      (if element.Some? then [element.value] else []) + Elements(read, rawLines[1..])
  }

  function YamlOut(yaml: string, options: Options): Out {
    LineRun(LineFormat(MaxChars(options)), MaxDepth(options), INIT, Elements(ReadLine, Split(yaml, '\n')))
  }

  /** The loop over the lines, for any way of reading and writing a line. */
  method SerializeLines(f: Format, maxDepth: int, read: string -> Option<Item>, rawLines: seq<string>) returns (st: Out)
    ensures st == LineRun(f, maxDepth, INIT, Elements(read, rawLines))
  {
    var s := new Serializer(f, maxDepth);
    var i := 0;
    assert rawLines[0..] == rawLines;
    while i < |rawLines|
      invariant 0 <= i <= |rawLines|
      invariant s.format == f && s.maxDepth == maxDepth
      invariant LineRun(f, maxDepth, s.State(), Elements(read, rawLines[i..])) ==
                LineRun(f, maxDepth, INIT, Elements(read, rawLines))
    {
      ghost var rest := Elements(read, rawLines[i + 1..]);
      assert rawLines[i..][1..] == rawLines[i + 1..];
      var element := read(rawLines[i]);
      i := i + 1;
      if element.None? {
        assert [] + rest == rest;
        continue;
      }
      var item := element.value;
      assert ([item] + rest)[1..] == rest;
      if item.indent > 2 * maxDepth {
        s.truncated := true;
        continue;
      }
      var kept := s.Emit(item);
      if !kept {
        break;
      }
    }
    st := s.State();
  }

  // --- The line form of a tree ---

  predicate CleanName(name: string) {
    '"' !in name && '\n' !in name && '\r' !in name
  }

  /** Between the commas of a bracket group this stands for itself. */
  predicate PlainAttr(attr: string) {
    && attr != "" && !IsSpace(attr[0]) && !IsSpace(attr[|attr| - 1])
    && ',' !in attr && ']' !in attr && '\n' !in attr
  }

  predicate CleanAttr(attr: string) {
    PlainAttr(attr) && !IsAriaRef(attr)
  }

  /** Text that sanitizing and trimming leave alone. */
  predicate CleanInline(text: string) {
    && (forall i | 0 <= i < |text| :: !IsLineTerminator(text[i])) && '"' !in text && ']' !in text
    && (text != "" ==> !IsSpace(text[0]) && !IsSpace(text[|text| - 1]))
  }

  /** The native ref as an attribute. */
  function AriaAttr(item: Item): seq<string> {
    if item.ariaRef.Some? then [ARIA_REF + item.ariaRef.value] else []
  }

  /** The line grammar can express the element, and its attributes hold no free text. */
  predicate CleanItem(item: Item) {
    && IsRole(item.role) && CleanName(item.name) && item.shown == item.name
    && (forall i | 0 <= i < |item.attrs| :: CleanAttr(item.attrs[i]))
    && (forall a | a in AriaAttr(item) :: PlainAttr(a) && IsAriaRef(a))
    && CleanInline(item.inline)
  }

  /** An element as ariaSnapshot() prints it, its native ref among the attributes; inline text
      follows a colon, and one with children ends in a colon. */
  function YamlLine(item: Item, hasChildren: bool): string {
    LineOf(FormOf(item, hasChildren))
  }

  // --- Reading a printed line ---

  /** A printed element has the form of a line. */
  function FormOf(item: Item, hasChildren: bool): Form {
    Form(item.indent, item.role,
         if item.name == "" then None else Some(Marked(" ", item.name)),
         AttrGroup(item.attrs + AriaAttr(item)),
         if item.inline != "" then Some(Marked(" ", item.inline))
         else if hasChildren then Some(Marked("", "")) else None)
  }

  function AttrGroup(attrs: seq<string>): Option<Marked> {
    if attrs == [] then None else Some(Marked(" ", Join(attrs, ", ")))
  }

  /** The parts of the printed line. */
  function PartsOf(item: Item): LineMatch {
    LineMatch(item.indent, item.role, item.name, TextOf(AttrGroup(item.attrs + AriaAttr(item))), item.inline)
  }

  lemma MatchPrinted(item: Item, hasChildren: bool)
    requires CleanItem(item)
    ensures MatchLine(YamlLine(item, hasChildren)) == Some(PartsOf(item))
  {
    PrintedIsForm(item, hasChildren);
    FormIsMatched(FormOf(item, hasChildren));
  }

  lemma AttrsAreMarked(attrs: seq<string>)
    requires forall i | 0 <= i < |attrs| :: PlainAttr(attrs[i])
    ensures IsMarked(AttrGroup(attrs), ']')
  {
    JoinHas(attrs, ", ", ']');
  }

  lemma PrintedIsForm(item: Item, hasChildren: bool)
    requires CleanItem(item)
    ensures IsForm(FormOf(item, hasChildren)) && MatchOf(FormOf(item, hasChildren)) == PartsOf(item)
  {
    var attrs := item.attrs + AriaAttr(item);
    assert forall i | 0 <= i < |attrs| :: PlainAttr(attrs[i]);
    AttrsAreMarked(attrs);
  }

  lemma TrimmedCons(part: string, parts: seq<string>, trimmed: string)
    requires Trim(part) == trimmed != ""
    ensures TrimmedParts([part] + parts) == [trimmed] + TrimmedParts(parts)
  {
    assert ([part] + parts)[1..] == parts;
  }

  lemma JoinCons(lead: string, attrs: seq<string>)
    requires |attrs| > 1
    ensures lead + Join(attrs, ", ") == (lead + attrs[0]) + [','] + (" " + Join(attrs[1..], ", "))
  {
    var a, rest := attrs[0], Join(attrs[1..], ", ");
    assert lead + (a + ", " + rest) == (lead + a) + [','] + (" " + rest);
  }

  lemma {:induction false} TrimmedSplit(attrs: seq<string>, lead: string)
    requires attrs != [] && (lead == "" || lead == " ")
    requires forall i | 0 <= i < |attrs| :: PlainAttr(attrs[i])
    ensures TrimmedParts(Split(lead + Join(attrs, ", "), ',')) == attrs
    decreases |attrs|
  {
    var a := attrs[0];
    assert PlainAttr(a);
    if |attrs| == 1 {
      OneTrimmed(lead, a, []);
      SplitWithout(lead + a, ',');
      assert [lead + a] + [] == [lead + a];
    } else {
      var rest := " " + Join(attrs[1..], ", ");
      TrimmedSplit(attrs[1..], " ");
      JoinCons(lead, attrs);
      SplitConcat(lead + a, ',', rest);
      OneTrimmed(lead, a, Split(rest, ','));
    }
  }

  lemma OneTrimmed(lead: string, a: string, parts: seq<string>)
    requires (lead == "" || lead == " ") && PlainAttr(a)
    ensures ',' !in lead + a && TrimmedParts([lead + a] + parts) == [a] + TrimmedParts(parts)
  {
    TrimLead(lead, a);
    TrimmedCons(lead + a, parts, a);
  }

  lemma TrimLead(lead: string, a: string)
    requires lead == "" || lead == " "
    requires a != "" && !IsSpace(a[0]) && !IsSpace(a[|a| - 1])
    ensures Trim(lead + a) == a
  {
    if lead == "" {
      assert lead + a == a;
    } else {
      assert (lead + a)[1..] == a;
    }
    TrimId(a);
  }

  lemma {:induction false} NoAriaRefs(parts: seq<string>)
    requires forall i | 0 <= i < |parts| :: !IsAriaRef(parts[i])
    ensures WithoutAriaRefs(parts) == parts && NativeRef(parts) == None
  {
    if parts != [] {
      var front, last := parts[..|parts| - 1], parts[|parts| - 1];
      NoAriaRefs(front);
      assert !IsAriaRef(last);
      assert front + [last] == parts;
    }
  }

  lemma JoinStarts(attrs: seq<string>)
    requires attrs != [] && attrs[0] != ""
    ensures Join(attrs, ", ") != ""
  {
  }

  lemma PartsOfJoin(attrs: seq<string>, text: string)
    requires attrs != [] && text == Join(attrs, ", ") != "" && forall i | 0 <= i < |attrs| :: PlainAttr(attrs[i])
    ensures AttrParts(text) == attrs
  {
    TrimmedSplit(attrs, "");
    assert "" + text == text;
  }

  lemma AttrsReadBack(attrs: seq<string>)
    requires forall i | 0 <= i < |attrs| :: PlainAttr(attrs[i])
    ensures AttrParts(TextOf(AttrGroup(attrs))) == attrs
  {
    if attrs != [] {
      assert PlainAttr(attrs[0]);
      JoinStarts(attrs);
      PartsOfJoin(attrs, Join(attrs, ", "));
    }
  }

  lemma ReadLineIs(line: string, m: LineMatch)
    requires line != "" && !IsSpace(line[|line| - 1])
    ensures Trim(line) != "" && !IsMetadata(line) && MatchLine(line) == Some(m) ==>
              ReadLine(line) == Some(ItemOfMatch(m))
  {
    assert TrimEnd(line) == line;
  }

  /** The native ref is taken out again. */
  lemma AriaRefsRead(item: Item)
    requires CleanItem(item)
    ensures var parts := item.attrs + AriaAttr(item);
            WithoutAriaRefs(parts) == item.attrs && NativeRef(parts) == item.ariaRef
  {
    NoAriaRefs(item.attrs);
    if item.ariaRef.None? {
      assert item.attrs + AriaAttr(item) == item.attrs;
    } else {
      var a := ARIA_REF + item.ariaRef.value;
      assert a in AriaAttr(item);
      assert (item.attrs + [a])[..|item.attrs|] == item.attrs;
      assert a[|ARIA_REF|..] == item.ariaRef.value;
    }
  }

  lemma InlineReadBack(text: string)
    requires CleanInline(text)
    ensures SanitizeAttrValue(Trim(text)) == text
  {
    assert Trim(text) == text by {
      TrimId(text);
    }
    assert '\n' !in text && '\r' !in text;
    CleanTextIsKept(text);
  }

  lemma ItemReadBack(item: Item)
    requires CleanItem(item)
    ensures ItemOfMatch(PartsOf(item)) == item
  {
    var parts := item.attrs + AriaAttr(item);
    assert forall i | 0 <= i < |parts| :: PlainAttr(parts[i]);
    AttrsReadBack(parts);
    AriaRefsRead(item);
    InlineReadBack(item.inline);
  }

  /** A printed element is read back. */
  lemma ReadPrinted(item: Item, hasChildren: bool)
    requires CleanItem(item)
    ensures ReadLine(YamlLine(item, hasChildren)) == Some(item)
  {
    PrintedEnds(item, hasChildren);
    PrintedIsElement(item, hasChildren);
    MatchPrinted(item, hasChildren);
    ReadLineIs(YamlLine(item, hasChildren), PartsOf(item));
    ItemReadBack(item);
  }

  lemma PrintedEnds(item: Item, hasChildren: bool)
    requires CleanItem(item)
    ensures var line := YamlLine(item, hasChildren); line != "" && !IsSpace(line[|line| - 1])
  {
    var d := FormOf(item, hasChildren);
    var line := LineOf(d);
    var last := if d.inline.Some? then InlineText(d.inline) else if d.attrs.Some? then MarkedText(d.attrs, '[', ']')
                else if d.name.Some? then MarkedText(d.name, '"', '"') else d.role;
    assert line[|line| - 1] == last[|last| - 1];
  }

  lemma PrintedIsElement(item: Item, hasChildren: bool)
    requires CleanItem(item)
    ensures var line := YamlLine(item, hasChildren); Trim(line) != "" && !IsMetadata(line)
  {
    PrintedIsForm(item, hasChildren);
    FormIsElement(FormOf(item, hasChildren));
  }

  // --- Which lines stand for an element ---

  lemma FormIsElement(d: Form)
    requires IsForm(d)
    ensures Trim(LineOf(d)) != "" && !IsMetadata(LineOf(d))
  {
    var element := d.role + AfterRole(d);
    var line := LineOf(d);
    LeadingSpacesIs(d.indent, "- " + element);
    assert ("- " + element)[2] == d.role[0];
    assert line[d.indent] == '-';
    TrimKeeps(line, d.indent);
  }

  lemma TrimKeeps(s: string, i: nat)
    requires i < |s| && !IsSpace(s[i])
    ensures Trim(s) != ""
  {
    var t := TrimStart(s);
    assert |s| - |t| <= i;
    assert t[i - (|s| - |t|)] == s[i];
  }

  /** Exactly the lines of the form stand for an element, whatever white space ends them; blank
      lines and metadata do not. The element consists of the parts of the form. */
  lemma LineIsReadIff(rawLine: string)
    ensures ReadLine(rawLine).Some? <==> exists d :: IsForm(d) && LineOf(d) == TrimEnd(rawLine)
    ensures forall d | IsForm(d) && LineOf(d) == TrimEnd(rawLine) :: ReadLine(rawLine) == Some(ItemOfMatch(MatchOf(d)))
  {
    if ReadLine(rawLine).Some? {
      var d := MatchHasForm(TrimEnd(rawLine));
    }
    forall d | IsForm(d) && LineOf(d) == TrimEnd(rawLine)
      ensures ReadLine(rawLine) == Some(ItemOfMatch(MatchOf(d)))
    {
      FormIsElement(d);
      FormIsMatched(d);
    }
  }
}
