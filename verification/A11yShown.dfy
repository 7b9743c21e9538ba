/**
 What a reader sees in a line of a snapshot. The lines are taken apart as the lines of
 ariaSnapshot() are, without their dash, and give back depth, role, name, attributes, ref and
 inline text of the element they were written for.
 */
module A11yShown {
  import opened Wrappers
  import opened Strings
  import opened Decimal
  import opened A11yLines
  import opened A11ySerializer
  import opened A11yLine
  import opened A11yYaml

  /** The parts of a line of a snapshot. */
  function ReadShown(line: string): Option<LineMatch> {
    var n := LeadingSpaces(line);
    MatchElement(n, line[n..])
  }

  /** A reader of the line finds the element: its depth as pairs of spaces, its role, its
      name, its attributes followed by its ref, if it has one, and its inline text. */
  ghost predicate Tells(line: string, item: Item, key: Option<string>) {
    match ReadShown(line)
    case None => false
    case Some(m) =>
      && m.indent == 2 * (item.indent / 2) && m.role == item.role
      && m.name == (if item.name == "" then "" else item.shown)
      && AttrParts(m.attrs) == item.attrs + (if key.Some? then ["ref=" + key.value] else [])
      && m.inline == item.inline
  }

  /** The parts of the element stand for themselves in a line. */
  predicate Readable(item: Item) {
    && IsRole(item.role) && '"' !in item.shown && '\n' !in item.shown
    && (forall i | 0 <= i < |item.attrs| :: PlainAttr(item.attrs[i]))
    && (forall i | 0 <= i < |item.inline| :: !IsLineTerminator(item.inline[i]))
    && (item.inline != "" ==> !IsSpace(item.inline[0]))
  }

  function ShownForm(item: Item, key: Option<string>): Form {
    Form(item.indent / 2 * 2, item.role,
         if item.name == "" then None else Some(Marked(" ", item.shown)),
         AttrGroup(item.attrs + RefAttr(key)),
         if item.inline == "" then None else Some(Marked(" ", item.inline)))
  }

  lemma NameMarked(name: string, shown: string)
    ensures (if name == "" then "" else " \"" + shown + "\"") ==
            MarkedText(if name == "" then None else Some(Marked(" ", shown)), '"', '"')
  {
    assert " \"" + shown + "\"" == " " + (['"'] + (shown + ['"']));
  }

  lemma AttrsMarked(attrs: seq<string>)
    ensures (if attrs == [] then "" else " [" + Join(attrs, ", ") + "]") == MarkedText(AttrGroup(attrs), '[', ']')
  {
    assert " [" + Join(attrs, ", ") + "]" == " " + (['['] + (Join(attrs, ", ") + [']']));
  }

  lemma InlineMarked(inline: string)
    ensures (if inline == "" then "" else ": " + inline) ==
            InlineText(if inline == "" then None else Some(Marked(" ", inline)))
  {
    assert ": " + inline == ":" + (" " + inline);
  }

  lemma Associate(a: string, b: string, c: string, d: string, e: string)
    ensures a + b + c + d + e == a + (b + (c + (d + e)))
  {
  }

  lemma LineIsForm(item: Item, key: Option<string>)
    ensures var d := ShownForm(item, key); LineText(item, key) == Spaces(d.indent) + (d.role + AfterRole(d))
  {
    var d, attrs := ShownForm(item, key), item.attrs + RefAttr(key);
    NameMarked(item.name, item.shown);
    AttrsMarked(attrs);
    InlineMarked(item.inline);
    Associate(Spaces(d.indent), d.role, MarkedText(d.name, '"', '"'), MarkedText(d.attrs, '[', ']'),
              InlineText(d.inline));
  }

  lemma AttrsAreGroup(attrs: seq<string>)
    requires forall i | 0 <= i < |attrs| :: PlainAttr(attrs[i])
    ensures IsMarked(AttrGroup(attrs), ']') && AttrParts(TextOf(AttrGroup(attrs))) == attrs
  {
    AttrsAreMarked(attrs);
    AttrsReadBack(attrs);
  }

  lemma ShownIsForm(item: Item, key: Option<string>)
    requires Readable(item) && (key.Some? ==> PlainAttr("ref=" + key.value))
    ensures IsForm(ShownForm(item, key)) && AttrParts(TextOf(ShownForm(item, key).attrs)) == item.attrs + RefAttr(key)
  {
    AttrsAreGroup(item.attrs + RefAttr(key));
  }

  /** The line of an element tells of it. */
  lemma LineTells(item: Item, key: Option<string>)
    requires Readable(item) && (key.Some? ==> PlainAttr("ref=" + key.value))
    ensures Tells(LineText(item, key), item, key)
  {
    var d := ShownForm(item, key);
    var element := d.role + AfterRole(d);
    LineIsForm(item, key);
    ShownIsForm(item, key);
    assert element[0] == d.role[0];
    LeadingSpacesIs(d.indent, element);
    ElementIsMatched(d);
  }

  lemma KeyIsPlain(n: nat)
    ensures PlainAttr("ref=" + RefKey(n))
  {
    var attr, digits := "ref=" + RefKey(n), Numeral(n);
    assert attr == "ref=e" + digits;
    assert attr[|attr| - 1] == digits[|digits| - 1];
  }

  lemma LineIsOneLine(item: Item, key: Option<string>)
    requires Readable(item) && (key.Some? ==> PlainAttr("ref=" + key.value))
    ensures '\n' !in LineText(item, key)
  {
    var d, attrs := ShownForm(item, key), item.attrs + RefAttr(key);
    assert forall i | 0 <= i < |attrs| :: PlainAttr(attrs[i]);
    JoinHas(attrs, ", ", '\n');
    LineIsForm(item, key);
    assert '\n' !in item.role && '\n' !in Spaces(d.indent) && '\n' !in item.inline;
    assert '\n' !in MarkedText(d.name, '"', '"') && '\n' !in MarkedText(d.attrs, '[', ']');
    assert '\n' !in InlineText(d.inline);
  }

  /** To the letter: an element with a ref, */
  lemma RefLine(role: string, name: string, key: string)
    requires name != ""
    ensures LineText(Item(0, role, name, name, [], None, ""), Some(key)) == role + " \"" + name + "\" [ref=" + key + "]"
  {
    assert [] + ["ref=" + key] == ["ref=" + key];
    assert Spaces(0) == "";
  }

  /** one with two attributes, a level down, */
  lemma AttrLine(role: string, name: string, a: string, b: string)
    requires name != ""
    ensures LineText(Item(2, role, name, name, [a, b], None, ""), None) ==
            "  " + role + " \"" + name + "\" [" + a + ", " + b + "]"
  {
    assert [a, b] + [] == [a, b] && [a, b][1..] == [b];
    assert Join([b], ", ") == b;
    assert Join([a, b], ", ") == a + ", " + b;
    assert Spaces(2) == "  ";
    assert " [" + (a + ", " + b) + "]" == " [" + a + ", " + b + "]";
    Associate("  " + role, " \"", name, "\"", " [" + a + ", " + b + "]");
  }

  /** and one with inline text. */
  lemma InlineLine(role: string, text: string)
    requires text != ""
    ensures LineText(Item(0, role, "", "", [], None, text), None) == role + ": " + text
  {
    assert Spaces(0) == "";
  }

  // --- Elements that are read are readable ---

  lemma {:induction false} TrimmedArePlain(parts: seq<string>)
    requires forall i | 0 <= i < |parts| :: ',' !in parts[i] && ']' !in parts[i] && '\n' !in parts[i]
    ensures forall a | a in TrimmedParts(parts) :: PlainAttr(a)
  {
    if parts != [] {
      TrimmedArePlain(parts[1..]);
      TrimIsPart(parts[0]);
    }
  }

  lemma TrimIsPart(s: string)
    ensures forall c | c in Trim(s) :: c in s
    ensures Trim(s) != "" ==> !IsSpace(Trim(s)[0]) && !IsSpace(Trim(s)[|Trim(s)| - 1])
  {
    TrimStartIsPart(s);
    TrimEndIsPart(TrimStart(s));
  }

  lemma TrimStartIsPart(s: string)
    ensures forall c | c in TrimStart(s) :: c in s
  {
    var t := TrimStart(s);
    assert forall i | 0 <= i < |t| :: t[i] == s[|s| - |t| + i];
  }

  lemma TrimEndIsPart(t: string)
    requires t != "" ==> !IsSpace(t[0])
    ensures forall c | c in TrimEnd(t) :: c in t
    ensures var e := TrimEnd(t); e != "" ==> !IsSpace(e[0]) && !IsSpace(e[|e| - 1])
  {
    var e := TrimEnd(t);
    assert forall i | 0 <= i < |e| :: e[i] == t[i];
  }

  lemma {:induction false} SplitHas(s: string, c: char, x: char)
    requires x !in s
    ensures forall i | 0 <= i < |Split(s, c)| :: x !in Split(s, c)[i]
  {
    if s != "" {
      SplitHas(s[1..], c, x);
    }
  }

  lemma {:induction false} OthersAreParts(parts: seq<string>)
    ensures forall a | a in WithoutAriaRefs(parts) :: a in parts
  {
    if parts != [] {
      OthersAreParts(parts[..|parts| - 1]);
    }
  }

  lemma AttrsArePlain(rawAttrs: string)
    requires ']' !in rawAttrs && '\n' !in rawAttrs
    ensures forall a | a in WithoutAriaRefs(AttrParts(rawAttrs)) :: PlainAttr(a)
  {
    SplitHas(rawAttrs, ',', ']');
    SplitHas(rawAttrs, ',', '\n');
    SplitHasNoSeparator(rawAttrs, ',');
    TrimmedArePlain(Split(rawAttrs, ','));
    OthersAreParts(AttrParts(rawAttrs));
  }

  lemma InlineIsReadable(text: string)
    requires forall i | 0 <= i < |text| :: !IsLineTerminator(text[i])
    ensures var inline := SanitizeAttrValue(Trim(text));
            && (forall i | 0 <= i < |inline| :: !IsLineTerminator(inline[i]))
            && (inline != "" ==> !IsSpace(inline[0]))
  {
    var trimmed := Trim(text);
    TrimIsPart(text);
    forall i | 0 <= i < |trimmed|
      ensures !IsLineTerminator(SanitizeAttrChar(trimmed[i]))
      ensures !IsSpace(trimmed[i]) ==> !IsSpace(SanitizeAttrChar(trimmed[i]))
    {
      assert trimmed[i] in text;
    }
  }

  lemma MarkedHas(m: Option<Marked>, open: char, close: char, x: char)
    requires x !in MarkedText(m, open, close)
    ensures x !in TextOf(m)
  {
    if m.Some? {
      assert forall c | c in m.value.text :: c in MarkedText(m, open, close);
    }
  }

  lemma PartsAreOneLine(d: Form)
    requires '\n' !in LineOf(d)
    ensures '\n' !in TextOf(d.name) && '\n' !in TextOf(d.attrs)
  {
    var element := d.role + AfterRole(d);
    assert forall c | c in AfterRole(d) :: c in element && c in "- " + element && c in LineOf(d);
    assert forall c | c in MarkedText(d.name, '"', '"') :: c in AfterRole(d);
    assert forall c | c in AfterName(d) :: c in AfterRole(d);
    assert forall c | c in MarkedText(d.attrs, '[', ']') :: c in AfterName(d);
    MarkedHas(d.name, '"', '"', '\n');
    MarkedHas(d.attrs, '[', ']', '\n');
  }

  lemma MatchIsReadable(m: LineMatch)
    requires IsRole(m.role) && '"' !in m.name && '\n' !in m.name && ']' !in m.attrs && '\n' !in m.attrs
    requires forall i | 0 <= i < |m.inline| :: !IsLineTerminator(m.inline[i])
    ensures Readable(ItemOfMatch(m))
  {
    var item := ItemOfMatch(m);
    AttrsArePlain(m.attrs);
    assert forall i | 0 <= i < |item.attrs| :: item.attrs[i] in WithoutAriaRefs(AttrParts(m.attrs));
    InlineIsReadable(m.inline);
  }

  lemma FormIsReadable(d: Form)
    requires IsForm(d) && '\n' !in LineOf(d)
    ensures Readable(ItemOfMatch(MatchOf(d)))
  {
    PartsAreOneLine(d);
    MatchIsReadable(MatchOf(d));
  }

  lemma ReadIsReadable(rawLine: string)
    requires '\n' !in rawLine && ReadLine(rawLine).Some?
    ensures Readable(ReadLine(rawLine).value)
  {
    var trimmed := TrimEnd(rawLine);
    var d := MatchHasForm(trimmed);
    assert forall c | c in trimmed :: c in rawLine;
    FormIsReadable(d);
  }

  /** Every element `parseAriaYaml` finds is readable in the text it returns. */
  lemma YamlIsReadable(yaml: string)
    ensures var items := Elements(ReadLine, Split(yaml, '\n')); forall i | 0 <= i < |items| :: Readable(items[i])
  {
    var rawLines := Split(yaml, '\n');
    SplitHasNoSeparator(yaml, '\n');
    forall i | 0 <= i < |rawLines|
      ensures ReadLine(rawLines[i]).Some? ==> Readable(ReadLine(rawLines[i]).value)
    {
      if ReadLine(rawLines[i]).Some? {
        ReadIsReadable(rawLines[i]);
      }
    }
    ElementsAre(ReadLine, rawLines, Readable);
  }

  lemma {:induction false} ElementsAre(read: string -> Option<Item>, rawLines: seq<string>, good: Item -> bool)
    requires forall i | 0 <= i < |rawLines| :: read(rawLines[i]).Some? ==> good(read(rawLines[i]).value)
    ensures forall i | 0 <= i < |Elements(read, rawLines)| :: good(Elements(read, rawLines)[i])
  {
    if rawLines != [] {
      ElementsAre(read, rawLines[1..], good);
    }
  }
}
