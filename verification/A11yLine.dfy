/**
 The regular expression with which `parseAriaYaml` reads one line, as a left-to-right
 parser. The parser is exact: it finds a match for precisely the lines that have the form
 the expression describes, and the parts are the ones a greedy match takes.
 */
module A11yLine {
  import opened Wrappers
  import opened Strings

  predicate IsRoleStart(c: char) {
    'a' <= c <= 'z'
  }

  predicate IsRoleChar(c: char) {
    'a' <= c <= 'z' || 'A' <= c <= 'Z' || '0' <= c <= '9' || c == '_' || c == '-'
  }

  function LeadingSpaces(s: string): (n: nat)
    ensures n <= |s|
  {
    if s != "" && s[0] == ' ' then 1 + LeadingSpaces(s[1..]) else 0
  }

  function RoleLength(s: string): (n: nat)
    ensures n <= |s|
  {
    if s != "" && IsRoleChar(s[0]) then 1 + RoleLength(s[1..]) else 0
  }

  function SpaceLength(s: string): (n: nat)
    ensures n <= |s|
  {
    if s != "" && IsSpace(s[0]) then 1 + SpaceLength(s[1..]) else 0
  }

  function IndexOf(s: string, c: char): (n: nat)
    ensures n <= |s|
  {
    if s == "" || s[0] == c then 0 else 1 + IndexOf(s[1..], c)
  }

  datatype Group = Group(text: Option<string>, rest: string)

  /** An optional group: white space, an opening mark, text up to the closing mark. */
  function OptionalGroup(s: string, open: char, close: char): Group {
    var w := SpaceLength(s);
    if w == 0 || w == |s| || s[w] != open then Group(None, s)
    else
      var rest := s[w + 1..];
      var k := IndexOf(rest, close);
      if k == |rest| then Group(None, s) else Group(Some(rest[..k]), rest[k + 1..])
  }

  /** The optional `: inline text` that must end the line. */
  function InlineGroup(s: string): Option<string> {
    if s == "" then Some("")
    else if s[0] != ':' then None
    else
      var text := TrimStart(s[1..]);
      if exists i | 0 <= i < |text| :: IsLineTerminator(text[i]) then None else Some(text)
  }

  datatype LineMatch = LineMatch(indent: nat, role: string, name: string, attrs: string, inline: string)

  /** The regular expression for one line. */
  function MatchLine(s: string): Option<LineMatch> {
    var n := LeadingSpaces(s);
    var s1 := s[n..];
    if !("- " <= s1) then None
    else MatchElement(n, s1[2..])
  }

  function MatchElement(indent: nat, s: string): Option<LineMatch> {
    if s == "" || !IsRoleStart(s[0]) then None
    else
      var k := RoleLength(s);
      var name := OptionalGroup(s[k..], '"', '"');
      var attrs := OptionalGroup(name.rest, '[', ']');
      var inline := InlineGroup(attrs.rest);
      if inline.None? then None
      else Some(LineMatch(indent, s[..k], name.text.UnwrapOr(""), attrs.text.UnwrapOr(""), inline.value))
  }

  /** `- /key: value` lines. */
  predicate IsMetadata(s: string) {
    "- /" <= s[LeadingSpaces(s)..]
  }

  predicate IsRole(role: string) {
    role != "" && IsRoleStart(role[0]) && forall i | 0 <= i < |role| :: IsRoleChar(role[i])
  }

  // --- The form of a line ---

  ghost predicate IsSpacing(w: string) {
    forall i | 0 <= i < |w| :: IsSpace(w[i])
  }

  ghost predicate IsInline(text: string) {
    && (forall i | 0 <= i < |text| :: !IsLineTerminator(text[i]))
    && (text != "" ==> !IsSpace(text[0]))
  }

  /** A group that is present: white space, the opening mark, text, the closing mark. */
  datatype Marked = Marked(space: string, text: string)

  ghost predicate IsMarked(m: Option<Marked>, close: char) {
    m.Some? ==> m.value.space != "" && IsSpacing(m.value.space) && close !in m.value.text
  }

  function MarkedText(m: Option<Marked>, open: char, close: char): string {
    if m.None? then "" else m.value.space + ([open] + (m.value.text + [close]))
  }

  /** The inline text with the white space after its colon. */
  function InlineText(m: Option<Marked>): string {
    if m.None? then "" else ":" + (m.value.space + m.value.text)
  }

  datatype Form = Form(indent: nat, role: string, name: Option<Marked>, attrs: Option<Marked>, inline: Option<Marked>)

  ghost predicate IsForm(d: Form) {
    && IsRole(d.role) && IsMarked(d.name, '"') && IsMarked(d.attrs, ']')
    && (d.inline.Some? ==> IsSpacing(d.inline.value.space) && IsInline(d.inline.value.text))
  }

  function AfterName(d: Form): string {
    MarkedText(d.attrs, '[', ']') + InlineText(d.inline)
  }

  function AfterRole(d: Form): string {
    MarkedText(d.name, '"', '"') + AfterName(d)
  }

  /** The line of a form. */
  function LineOf(d: Form): string {
    Spaces(d.indent) + ("- " + (d.role + AfterRole(d)))
  }

  function TextOf(m: Option<Marked>): string {
    if m.None? then "" else m.value.text
  }

  function MatchOf(d: Form): LineMatch {
    LineMatch(d.indent, d.role, TextOf(d.name), TextOf(d.attrs), TextOf(d.inline))
  }

  // --- Every form is matched ---

  lemma {:induction false} LeadingSpacesIs(n: nat, s: string)
    requires s != "" && s[0] != ' '
    ensures LeadingSpaces(Spaces(n) + s) == n && (Spaces(n) + s)[n..] == s
  {
    if n == 0 {
      assert Spaces(0) + s == s;
    } else {
      assert (Spaces(n) + s)[1..] == Spaces(n - 1) + s;
      LeadingSpacesIs(n - 1, s);
    }
  }

  lemma {:induction false} RoleLengthIs(role: string, s: string)
    requires forall i | 0 <= i < |role| :: IsRoleChar(role[i])
    requires s == "" || !IsRoleChar(s[0])
    ensures RoleLength(role + s) == |role| && (role + s)[..|role|] == role && (role + s)[|role|..] == s
  {
    if role == "" {
      assert role + s == s;
    } else {
      assert (role + s)[1..] == role[1..] + s;
      RoleLengthIs(role[1..], s);
    }
  }

  lemma {:induction false} IndexOfIs(text: string, c: char, s: string)
    requires c !in text
    ensures IndexOf(text + [c] + s, c) == |text|
    ensures (text + [c] + s)[..|text|] == text && (text + [c] + s)[|text| + 1..] == s
  {
    if text != "" {
      assert (text + [c] + s)[1..] == text[1..] + [c] + s;
      IndexOfIs(text[1..], c, s);
    }
  }

  lemma {:induction false} SpaceLengthIs(w: string, s: string)
    requires IsSpacing(w) && (s == "" || !IsSpace(s[0]))
    ensures SpaceLength(w + s) == |w| && (w + s)[|w|..] == s
  {
    if w == "" {
      assert w + s == s;
    } else {
      assert (w + s)[1..] == w[1..] + s;
      SpaceLengthIs(w[1..], s);
    }
  }

  /** A group that is present is read. */
  lemma PresentGroup(m: Marked, open: char, close: char, rest: string)
    requires IsMarked(Some(m), close) && !IsSpace(open)
    ensures OptionalGroup(MarkedText(Some(m), open, close) + rest, open, close) == Group(Some(m.text), rest)
  {
    var after := [open] + (m.text + [close] + rest);
    var s := MarkedText(Some(m), open, close) + rest;
    assert s == m.space + after;
    SpaceLengthIs(m.space, after);
    assert s[|m.space|] == open;
    assert s[|m.space| + 1..] == m.text + [close] + rest;
    IndexOfIs(m.text, close, rest);
  }

  /** A group with other marks is not. */
  lemma OtherGroup(w: string, other: char, rest: string, open: char, close: char)
    requires IsSpacing(w) && !IsSpace(other) && other != open
    ensures OptionalGroup(w + ([other] + rest), open, close) == Group(None, w + ([other] + rest))
  {
    SpaceLengthIs(w, [other] + rest);
    assert (w + ([other] + rest))[|w|] == other;
  }

  lemma InlineIs(inline: Option<Marked>, open: char, close: char)
    requires inline.Some? ==> IsSpacing(inline.value.space) && IsInline(inline.value.text)
    ensures OptionalGroup(InlineText(inline), open, close) == Group(None, InlineText(inline))
    ensures InlineGroup(InlineText(inline)) == Some(TextOf(inline))
  {
    var s := InlineText(inline);
    if inline.Some? {
      assert s[0] == ':' && s[1..] == inline.value.space + inline.value.text;
      TrimStartIs(inline.value.space, inline.value.text);
    }
  }

  lemma {:induction false} TrimStartIs(w: string, s: string)
    requires IsSpacing(w) && (s != "" ==> !IsSpace(s[0]))
    ensures TrimStart(w + s) == s
  {
    if w == "" {
      assert w + s == s;
    } else {
      assert (w + s)[1..] == w[1..] + s;
      TrimStartIs(w[1..], s);
    }
  }

  lemma AttrsAreRead(d: Form)
    requires IsForm(d)
    ensures OptionalGroup(AfterName(d), '[', ']') ==
            Group(if d.attrs.Some? then Some(d.attrs.value.text) else None, InlineText(d.inline))
  {
    if d.attrs.Some? {
      PresentGroup(d.attrs.value, '[', ']', InlineText(d.inline));
    } else {
      assert AfterName(d) == InlineText(d.inline);
      InlineIs(d.inline, '[', ']');
    }
  }

  lemma NameIsRead(d: Form)
    requires IsForm(d)
    ensures OptionalGroup(AfterRole(d), '"', '"') ==
            Group(if d.name.Some? then Some(d.name.value.text) else None, AfterName(d))
  {
    if d.name.Some? {
      PresentGroup(d.name.value, '"', '"', AfterName(d));
    } else {
      assert AfterRole(d) == AfterName(d);
      if d.attrs.Some? {
        var rest := d.attrs.value.text + [']'] + InlineText(d.inline);
        assert AfterName(d) == d.attrs.value.space + (['['] + rest);
        OtherGroup(d.attrs.value.space, '[', rest, '"', '"');
      } else {
        assert AfterName(d) == InlineText(d.inline);
        InlineIs(d.inline, '"', '"');
      }
    }
  }

  lemma AfterRoleHead(d: Form)
    requires IsForm(d)
    ensures AfterRole(d) == "" || !IsRoleChar(AfterRole(d)[0])
  {
    if d.name.Some? {
      assert AfterRole(d)[0] == d.name.value.space[0];
    } else if d.attrs.Some? {
      assert AfterRole(d) == AfterName(d);
      assert AfterName(d)[0] == d.attrs.value.space[0];
    } else {
      assert AfterRole(d) == InlineText(d.inline);
    }
  }

  lemma FormIsMatched(d: Form)
    requires IsForm(d)
    ensures MatchLine(LineOf(d)) == Some(MatchOf(d))
  {
    var element := d.role + AfterRole(d);
    LeadingSpacesIs(d.indent, "- " + element);
    assert ("- " + element)[2..] == element;
    ElementIsMatched(d);
  }

  lemma ElementIsMatched(d: Form)
    requires IsForm(d)
    ensures MatchElement(d.indent, d.role + AfterRole(d)) == Some(MatchOf(d))
  {
    AfterRoleHead(d);
    RoleLengthIs(d.role, AfterRole(d));
    NameIsRead(d);
    AttrsAreRead(d);
    InlineIs(d.inline, '[', ']');
  }

  // --- Every match comes from a form ---

  lemma {:induction false} SpacesFound(s: string)
    ensures s == Spaces(LeadingSpaces(s)) + s[LeadingSpaces(s)..]
  {
    if s != "" && s[0] == ' ' {
      SpacesFound(s[1..]);
      assert s == [' '] + s[1..];
    }
  }

  lemma {:induction false} RoleFound(s: string)
    ensures forall i | 0 <= i < RoleLength(s) :: IsRoleChar(s[i])
  {
    if s != "" && IsRoleChar(s[0]) {
      RoleFound(s[1..]);
    }
  }

  lemma {:induction false} SpacingFound(s: string)
    ensures IsSpacing(s[..SpaceLength(s)])
  {
    if s != "" && IsSpace(s[0]) {
      SpacingFound(s[1..]);
      assert s[..SpaceLength(s)] == [s[0]] + s[1..][..SpaceLength(s[1..])];
    }
  }

  lemma {:induction false} IndexFound(s: string, c: char)
    ensures c !in s[..IndexOf(s, c)] && (IndexOf(s, c) < |s| ==> s[IndexOf(s, c)] == c)
  {
    if s != "" && s[0] != c {
      IndexFound(s[1..], c);
      assert s[..IndexOf(s, c)] == [s[0]] + s[1..][..IndexOf(s[1..], c)];
    }
  }

  lemma CutAt(s: string, k: nat)
    requires k < |s|
    ensures s == s[..k] + ([s[k]] + s[k + 1..])
  {
  }

  lemma Regroup(w: string, open: string, text: string, rest: string)
    ensures w + (open + (text + rest)) == (w + (open + text)) + rest
  {
  }

  /** The pieces of a group that was read. */
  lemma GroupPieces(s: string, w: nat, k: nat)
    requires w < |s| && k < |s[w + 1..]|
    ensures var rest := s[w + 1..]; s == (s[..w] + ([s[w]] + (rest[..k] + [rest[k]]))) + rest[k + 1..]
  {
    var rest := s[w + 1..];
    CutAt(s, w);
    CutAt(rest, k);
    assert rest == (rest[..k] + [rest[k]]) + rest[k + 1..];
    Regroup(s[..w], [s[w]], rest[..k] + [rest[k]], rest[k + 1..]);
  }

  ghost predicate Reads(g: Group, m: Option<Marked>, s: string, open: char, close: char) {
    && IsMarked(m, close) && s == MarkedText(m, open, close) + g.rest
    && g.text == (if m.Some? then Some(m.value.text) else None)
  }

  lemma GroupFound(s: string, open: char, close: char) returns (m: Option<Marked>)
    ensures Reads(OptionalGroup(s, open, close), m, s, open, close)
  {
    if OptionalGroup(s, open, close).text.None? {
      m := None;
      assert s == "" + s;
    } else {
      var w := SpaceLength(s);
      var k := IndexOf(s[w + 1..], close);
      SpacingFound(s);
      IndexFound(s[w + 1..], close);
      GroupPieces(s, w, k);
      m := Some(Marked(s[..w], s[w + 1..][..k]));
    }
  }

  lemma InlineFound(s: string) returns (m: Option<Marked>)
    requires InlineGroup(s).Some?
    ensures m.Some? ==> IsSpacing(m.value.space) && IsInline(m.value.text)
    ensures s == InlineText(m) && TextOf(m) == InlineGroup(s).value
  {
    if s == "" {
      m := None;
    } else {
      var text := TrimStart(s[1..]);
      var n := |s[1..]| - |text|;
      m := Some(Marked(s[1..][..n], text));
      assert IsSpacing(m.value.space);
      assert s[1..] == s[1..][..n] + text;
      CutAt(s, 0);
      assert [s[0]] == ":" && s[..0] == "";
    }
  }

  lemma MatchHasForm(s: string) returns (d: Form)
    requires MatchLine(s).Some?
    ensures IsForm(d) && LineOf(d) == s && MatchOf(d) == MatchLine(s).value
  {
    var n := LeadingSpaces(s);
    SpacesFound(s);
    var element := s[n..][2..];
    assert s[n..] == "- " + element;
    d := ElementHasForm(n, element);
  }

  lemma ElementHasForm(n: nat, element: string) returns (d: Form)
    requires MatchElement(n, element).Some?
    ensures IsForm(d) && d.indent == n && d.role + AfterRole(d) == element
    ensures MatchOf(d) == MatchElement(n, element).value
  {
    var k := RoleLength(element);
    var role := RoleFoundIn(element);
    var name := GroupFound(element[k..], '"', '"');
    var afterName := OptionalGroup(element[k..], '"', '"').rest;
    var attrs := GroupFound(afterName, '[', ']');
    var inline := InlineFound(OptionalGroup(afterName, '[', ']').rest);
    d := Form(n, role, name, attrs, inline);
    assert AfterName(d) == afterName;
    assert AfterRole(d) == element[k..];
  }

  lemma RoleFoundIn(element: string) returns (role: string)
    requires element != "" && IsRoleStart(element[0])
    ensures role == element[..RoleLength(element)] && IsRole(role)
    ensures role + element[RoleLength(element)..] == element
  {
    RoleFound(element);
    role := element[..RoleLength(element)];
    assert role[0] == element[0];
  }

  /** The parser accepts exactly the lines that have the form, with the parts of the form. */
  lemma MatchIffForm(s: string, m: LineMatch)
    ensures MatchLine(s) == Some(m) <==> exists d :: IsForm(d) && LineOf(d) == s && MatchOf(d) == m
  {
    if MatchLine(s) == Some(m) {
      var d := MatchHasForm(s);
    }
    if d :| IsForm(d) && LineOf(d) == s && MatchOf(d) == m {
      FormIsMatched(d);
    }
  }
}
