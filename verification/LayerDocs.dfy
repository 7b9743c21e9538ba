/**
 The paragraph that scripts/generate-layer-docs.ts keeps up to date in Koi.md, and the
 gate of scripts/check-doc-sync.ts that patching changes nothing any more.
 */
module LayerDocs {
  import opened Strings
  import opened Decimal

  const SENTINEL := "**L0-utility packages**"
  const SCOPE := "@koi/"

  // --- The generated paragraph ---

  /** The names in backticks; `names` is the sorted list of packages. */
  function Quoted(names: seq<string>): seq<string> {
    seq(|names|, i requires 0 <= i < |names| => "`" + names[i] + "`")
  }

  const CANONICAL := " total \U{2014} canonical list lives in "
  const PLACE := "`scripts/layers.ts` \U{2192} `L0U_PACKAGES`):"

  function Heading(names: seq<string>): string {
    SENTINEL + (" (" + Numeral(|names|) + (CANONICAL + PLACE))
  }

  function ListLine(names: seq<string>): string {
    Join(Quoted(names), ", ") + "."
  }

  /** `generateL0uDocParagraph` */
  function Paragraph(names: seq<string>): string {
    Heading(names) + "\n" + ListLine(names)
  }

  // --- Patching ---

  predicate Contains(s: string, part: string) {
    exists i | 0 <= i <= |s| :: part <= s[i..]
  }

  predicate EndsList(line: string) {
    var t := TrimEnd(line);
    t != "" && t[|t| - 1] == '.'
  }

  /** What the walk needs to know about lines. */
  datatype Grammar = Grammar(starts: string -> bool, lists: string -> bool, ends: string -> bool)

  const GRAMMAR: Grammar :=
    Grammar((l: string) => SENTINEL <= l, (l: string) => Contains(l, SCOPE), (l: string) => EndsList(l))

  /** The first line that starts the paragraph, or the number of lines. */
  function FirstIndex(g: Grammar, lines: seq<string>): (s: nat)
    ensures s <= |lines|
    ensures forall i | 0 <= i < s :: !g.starts(lines[i])
    ensures s < |lines| ==> g.starts(lines[s])
  {
    if lines == [] || g.starts(lines[0]) then 0 else 1 + FirstIndex(g, lines[1..])
  }

  /** Where the list that continues at line `i` ends. */
  function ListEnd(g: Grammar, lines: seq<string>, i: nat): (e: nat)
    requires i <= |lines|
    ensures i <= e <= |lines|
    decreases |lines| - i
  {
    if i == |lines| || !g.lists(lines[i]) then i
    else if g.ends(lines[i]) then i + 1
    else ListEnd(g, lines, i + 1)
  }

  /** Lines `s` up to `e` replaced. */
  function Splice(lines: seq<string>, s: nat, paragraph: seq<string>, e: nat): seq<string>
    requires s <= e <= |lines|
  {
    lines[..s] + paragraph + lines[e..]
  }

  /** The lines with the paragraph replaced. */
  function PatchLines(g: Grammar, lines: seq<string>, paragraph: seq<string>): seq<string> {
    var s := FirstIndex(g, lines);
    if s == |lines| then lines else Splice(lines, s, paragraph, ListEnd(g, lines, s + 1))
  }

  /** `patchL0uParagraph` */
  function Patch(g: Grammar, content: string, paragraph: string): string {
    var lines := Split(content, '\n');
    if FirstIndex(g, lines) == |lines| then content else Join(PatchLines(g, lines, [paragraph]), "\n")
  }

  /** Lines `s` up to `e` are the paragraph: the first line that starts one and the list lines
      after it, up to one that ends the list, or a line that is none, or the end. */
  ghost predicate IsBlock(g: Grammar, lines: seq<string>, s: nat, e: nat) {
    && s < e <= |lines| && g.starts(lines[s]) && (forall i | 0 <= i < s :: !g.starts(lines[i]))
    && (forall i | s < i < e :: g.lists(lines[i])) && (forall i | s < i < e - 1 :: !g.ends(lines[i]))
    && (e < |lines| ==> (e > s + 1 && g.ends(lines[e - 1])) || !g.lists(lines[e]))
  }

  /** A document without the paragraph is returned as it is; otherwise the lines of the
      paragraph, and no others, are replaced. */
  method PatchL0uParagraph(g: Grammar, content: string, paragraph: string)
    returns (r: string, ghost s: nat, ghost e: nat)
    ensures r == Patch(g, content, paragraph)
    ensures var lines := Split(content, '\n');
            || (r == content && forall i | 0 <= i < |lines| :: !g.starts(lines[i]))
            || (IsBlock(g, lines, s, e) && r == Join(lines[..s] + [paragraph] + lines[e..], "\n"))
  {
    r := Walk(g, content, paragraph);
    ghost var lines := Split(content, '\n');
    s, e := 0, 0;
    if FirstIndex(g, lines) < |lines| {
      BlockIs(g, lines);
      s, e := FirstIndex(g, lines), ListEnd(g, lines, FirstIndex(g, lines) + 1);
      assert IsBlock(g, lines, s, e);
      assert PatchLines(g, lines, [paragraph]) == lines[..s] + [paragraph] + lines[e..];
    }
  }

  lemma {:induction false} ListEndIs(g: Grammar, lines: seq<string>, i: nat)
    requires i <= |lines|
    ensures var e := ListEnd(g, lines, i);
            && (forall k | i <= k < e :: g.lists(lines[k])) && (forall k | i <= k < e - 1 :: !g.ends(lines[k]))
            && (e < |lines| ==> (e > i && g.ends(lines[e - 1])) || !g.lists(lines[e]))
    decreases |lines| - i
  {
    if i < |lines| && g.lists(lines[i]) && !g.ends(lines[i]) {
      ListEndIs(g, lines, i + 1);
    }
  }

  lemma BlockIs(g: Grammar, lines: seq<string>)
    requires FirstIndex(g, lines) < |lines|
    ensures IsBlock(g, lines, FirstIndex(g, lines), ListEnd(g, lines, FirstIndex(g, lines) + 1))
  {
    ListEndIs(g, lines, FirstIndex(g, lines) + 1);
  }

  /** The loop over the lines of the list. */
  method Walk(g: Grammar, content: string, paragraph: string) returns (r: string)
    ensures r == Patch(g, content, paragraph)
  {
    var lines := Split(content, '\n');
    var startIdx := FirstIndex(g, lines);
    if startIdx == |lines| {
      return content;
    }
    var endIdx := startIdx + 1;
    ghost var done := false;
    while endIdx < |lines|
      invariant startIdx < endIdx <= |lines|
      invariant !done && ListEnd(g, lines, endIdx) == ListEnd(g, lines, startIdx + 1)
    {
      var line := lines[endIdx];
      if !g.lists(line) {
        break;
      }
      endIdx := endIdx + 1;
      if g.ends(line) {
        done := true;
        break;
      }
    }
    assert done || ListEnd(g, lines, endIdx) == endIdx;
    assert endIdx == ListEnd(g, lines, startIdx + 1);
    r := Join(Splice(lines, startIdx, [paragraph], endIdx), "\n");
  }

  /** What the walk looks for in Koi.md. */
  lemma GrammarIs(line: string)
    ensures GRAMMAR.starts(line) <==> "**L0-utility packages**" <= line
    ensures GRAMMAR.lists(line) <==> exists i | 0 <= i <= |line| :: "@koi/" <= line[i..]
    ensures GRAMMAR.ends(line) <==>
            exists i :: 0 <= i < |line| && line[i] == '.' && forall j | i < j < |line| :: IsSpace(line[j])
  {
    if GRAMMAR.ends(line) {
      var i := |TrimEnd(line)| - 1;
      assert line[i] == '.';
    }
    if i :| 0 <= i < |line| && line[i] == '.' && forall j | i < j < |line| :: IsSpace(line[j]) {
      var t := TrimEnd(line);
      assert !IsSpace('.');
      assert |t| > i && t[|t| - 1] == line[|t| - 1];
    }
  }

  // --- On lines ---

  lemma {:induction false} FirstIndexIs(g: Grammar, lines: seq<string>, s: nat)
    requires s < |lines| && g.starts(lines[s]) && forall i | 0 <= i < s :: !g.starts(lines[i])
    ensures FirstIndex(g, lines) == s
  {
    if s > 0 {
      FirstIndexIs(g, lines[1..], s - 1);
    }
  }

  /** A heading and one list line. */
  ghost predicate IsParagraph(g: Grammar, paragraph: seq<string>) {
    |paragraph| == 2 && g.starts(paragraph[0]) && g.ends(paragraph[1])
  }

  /** Replacing the two lines that were put in, or only the first of them. */
  lemma SpliceAgain(lines: seq<string>, s: nat, first: seq<string>, e: nat, second: seq<string>)
    requires s <= e <= |lines| && |first| == 2
    ensures var once := Splice(lines, s, first, e);
            && |once| == s + 2 + (|lines| - e) && once[s] == first[0] && once[s + 1] == first[1]
            && (forall i | 0 <= i < s :: once[i] == lines[i])
            && Splice(once, s, second, s + 2) == Splice(lines, s, second, e)
            && Splice(once, s, second, s + 1) == Splice(lines, s, second + [first[1]], e)
  {
  }

  /** A last list line is taken exactly when it is recognised. */
  lemma ListEndAt(g: Grammar, lines: seq<string>, i: nat)
    requires i < |lines| && g.ends(lines[i])
    ensures ListEnd(g, lines, i) == if g.lists(lines[i]) then i + 1 else i
  {
  }

  lemma {:induction false} PatchedAgain(g: Grammar, lines: seq<string>, first: seq<string>, second: seq<string>)
    requires IsParagraph(g, first) && FirstIndex(g, lines) < |lines|
    ensures var s, e := FirstIndex(g, lines), ListEnd(g, lines, FirstIndex(g, lines) + 1);
            PatchLines(g, PatchLines(g, lines, first), second) ==
              Splice(lines, s, if g.lists(first[1]) then second else second + [first[1]], e)
  {
    var s, e := FirstIndex(g, lines), ListEnd(g, lines, FirstIndex(g, lines) + 1);
    var once := Splice(lines, s, first, e);
    SpliceAgain(lines, s, first, e, second);
    FirstIndexIs(g, once, s);
    ListEndAt(g, once, s + 1);
  }

  /** Patching with one paragraph and then with another is patching with the second, when
      the list line is recognised as one. */
  lemma LastPatchWins(g: Grammar, lines: seq<string>, first: seq<string>, second: seq<string>)
    requires IsParagraph(g, first) && IsParagraph(g, second) && g.lists(first[1])
    ensures PatchLines(g, PatchLines(g, lines, first), second) == PatchLines(g, lines, second)
  {
    if FirstIndex(g, lines) < |lines| {
      PatchedAgain(g, lines, first, second);
    }
  }

  /** Otherwise the old list line stays behind. */
  lemma UnlistedPatchGrows(g: Grammar, lines: seq<string>, paragraph: seq<string>)
    requires IsParagraph(g, paragraph) && !g.lists(paragraph[1]) && FirstIndex(g, lines) < |lines|
    ensures |PatchLines(g, PatchLines(g, lines, paragraph), paragraph)| == |PatchLines(g, lines, paragraph)| + 1
  {
    PatchedAgain(g, lines, paragraph, paragraph);
  }

  // --- On text ---

  lemma {:induction false} JoinParagraph(before: seq<string>, a: string, b: string, after: seq<string>)
    ensures Join(before + [a + "\n" + b] + after, "\n") == Join(before + [a, b] + after, "\n")
  {
    var joined, apart := before + [a + "\n" + b] + after, before + [a, b] + after;
    if before == [] {
      assert joined[1..] == after && apart[1..] == [b] + after && ([b] + after)[1..] == after;
      if after != [] {
        assert Join(joined, "\n") == a + "\n" + b + "\n" + Join(after, "\n");
        assert Join(apart, "\n") == a + "\n" + (b + "\n" + Join(after, "\n"));
      }
    } else {
      JoinParagraph(before[1..], a, b, after);
      assert joined[1..] == before[1..] + [a + "\n" + b] + after;
      assert apart[1..] == before[1..] + [a, b] + after;
    }
  }

  ghost predicate OneLine(s: string) {
    '\n' !in s
  }

  lemma SplicedAreLines(lines: seq<string>, s: nat, a: string, b: string, e: nat)
    requires s <= e <= |lines| && OneLine(a) && OneLine(b) && forall i | 0 <= i < |lines| :: OneLine(lines[i])
    ensures var patched := Splice(lines, s, [a, b], e); forall i | 0 <= i < |patched| :: OneLine(patched[i])
  {
    var patched := Splice(lines, s, [a, b], e);
    forall i | 0 <= i < |patched|
      ensures OneLine(patched[i])
    {
      if i < s {
        assert patched[i] == lines[i];
      } else if i >= s + 2 {
        assert patched[i] == lines[e..][i - s - 2];
      }
    }
  }

  /** Patching text is patching its lines. */
  lemma {:induction false} PatchIsOnLines(g: Grammar, content: string, a: string, b: string)
    requires OneLine(a) && OneLine(b)
    ensures Split(Patch(g, content, a + "\n" + b), '\n') == PatchLines(g, Split(content, '\n'), [a, b])
    ensures Patch(g, content, a + "\n" + b) == Join(PatchLines(g, Split(content, '\n'), [a, b]), "\n")
  {
    var lines := Split(content, '\n');
    var s := FirstIndex(g, lines);
    var patched := PatchLines(g, lines, [a, b]);
    assert "\n" == ['\n'];
    SplitHasNoSeparator(content, '\n');
    JoinSplit(content, '\n');
    if s < |lines| {
      JoinParagraph(lines[..s], a, b, lines[ListEnd(g, lines, s + 1)..]);
      SplicedAreLines(lines, s, a, b, ListEnd(g, lines, s + 1));
      assert forall i | 0 <= i < |patched| :: OneLine(patched[i]);
      SplitJoin(patched, '\n');
    }
  }

  lemma TextPatchTwice(g: Grammar, content: string, a: string, b: string, c: string, d: string)
    requires OneLine(a) && OneLine(b) && OneLine(c) && OneLine(d)
    ensures Patch(g, Patch(g, content, a + "\n" + b), c + "\n" + d) ==
            Join(PatchLines(g, PatchLines(g, Split(content, '\n'), [a, b]), [c, d]), "\n")
  {
    PatchIsOnLines(g, content, a, b);
    PatchIsOnLines(g, Patch(g, content, a + "\n" + b), c, d);
  }

  // --- The generated paragraph ---

  lemma HeadingIsOneLine(names: seq<string>)
    ensures OneLine(Heading(names)) && SENTINEL <= Heading(names)
  {
    assert '\n' !in SENTINEL && '\n' !in " (";
    assert '\n' !in CANONICAL && '\n' !in PLACE;
    assert '\n' !in Numeral(|names|);
  }

  lemma ListIsOneLine(names: seq<string>)
    requires forall i | 0 <= i < |names| :: OneLine(names[i])
    ensures OneLine(ListLine(names)) && EndsList(ListLine(names))
  {
    JoinHas(Quoted(names), ", ", '\n');
    var line := ListLine(names);
    assert line[|line| - 1] == '.' && !IsSpace('.');
    assert TrimEnd(line) == line;
  }

  lemma GeneratedIsParagraph(names: seq<string>)
    requires forall i | 0 <= i < |names| :: OneLine(names[i])
    ensures IsParagraph(GRAMMAR, [Heading(names), ListLine(names)])
    ensures OneLine(Heading(names)) && OneLine(ListLine(names))
    ensures GRAMMAR.lists(ListLine(names)) <==> Contains(ListLine(names), SCOPE)
  {
    HeadingIsOneLine(names);
    ListIsOneLine(names);
  }

  /** Cutting a line of the list at the backticks gives the names, at every second place. */
  lemma {:induction false} NamesAreListed(names: seq<string>, end: string)
    requires (forall i | 0 <= i < |names| :: '`' !in names[i]) && '`' !in end
    ensures var parts := Split(Join(Quoted(names), ", ") + end, '`');
            && |parts| == 2 * |names| + 1
            && forall i | 0 <= i < |names| :: parts[2 * i + 1] == names[i]
  {
    if names == [] {
      assert "" + end == end;
      SplitWithout(end, '`');
    } else {
      var a, tail := names[0], names[1..];
      assert Quoted(names)[1..] == Quoted(tail);
      var rest := if tail == [] then end else ", " + (Join(Quoted(tail), ", ") + end);
      OneNameMore(names, end, rest);
      NamesAreListed(tail, end);
      if tail == [] {
        SplitWithout(end, '`');
      } else {
        ListContinues(tail, end);
      }
      NamesShift(names, Split(rest, '`'), Split(Join(Quoted(names), ", ") + end, '`'));
    }
  }

  lemma NamesShift(names: seq<string>, rest: seq<string>, parts: seq<string>)
    requires names != [] && |rest| == 2 * |names| - 1 && parts == ["", names[0]] + rest
    requires forall i | 0 <= i < |names| - 1 :: rest[2 * i + 1] == names[i + 1]
    ensures |parts| == 2 * |names| + 1 && forall i | 0 <= i < |names| :: parts[2 * i + 1] == names[i]
  {
    forall i | 0 <= i < |names|
      ensures parts[2 * i + 1] == names[i]
    {
      if i > 0 {
        assert parts[2 * i + 1] == rest[2 * (i - 1) + 1];
      }
    }
  }

  lemma OneNameMore(names: seq<string>, end: string, rest: string)
    requires names != [] && '`' !in names[0]
    requires rest == if |names| == 1 then end else ", " + (Join(Quoted(names[1..]), ", ") + end)
    ensures Split(Join(Quoted(names), ", ") + end, '`') == ["", names[0]] + Split(rest, '`')
  {
    var a := names[0];
    ListStarts(names, end, rest);
    SplitConcat("", '`', a + ['`'] + rest);
    SplitConcat(a, '`', rest);
    assert [""] + ([a] + Split(rest, '`')) == ["", a] + Split(rest, '`');
  }

  lemma ListStarts(names: seq<string>, end: string, rest: string)
    requires names != []
    requires rest == if |names| == 1 then end else ", " + (Join(Quoted(names[1..]), ", ") + end)
    ensures Join(Quoted(names), ", ") + end == "" + ['`'] + (names[0] + ['`'] + rest)
  {
    var a, quoted := names[0], Quoted(names);
    assert quoted[0] == "`" + a + "`" && quoted[1..] == Quoted(names[1..]);
    if |names| > 1 {
      assert Join(quoted, ", ") == quoted[0] + ", " + Join(Quoted(names[1..]), ", ");
    }
  }

  /** The separator before a name goes with the part before its backtick. */
  lemma ListContinues(tail: seq<string>, end: string)
    requires tail != []
    ensures var text := Join(Quoted(tail), ", ") + end;
            && |Split(", " + text, '`')| == |Split(text, '`')|
            && forall i | 0 < i < |Split(text, '`')| :: Split(", " + text, '`')[i] == Split(text, '`')[i]
  {
    var text := Join(Quoted(tail), ", ") + end;
    assert Quoted(tail)[0] == "`" + tail[0] + "`";
    assert text[0] == '`';
    assert text == "" + ['`'] + text[1..];
    SplitConcat("", '`', text[1..]);
    assert ", " + text == ", " + ['`'] + text[1..];
    SplitConcat(", ", '`', text[1..]);
  }

  /** The paragraph says how many packages there are and names each of them, in order. */
  lemma ParagraphTells(names: seq<string>)
    requires forall i | 0 <= i < |names| :: OneLine(names[i]) && '`' !in names[i]
    ensures var lines := Split(Paragraph(names), '\n');
            && |lines| == 2 && "**L0-utility packages** (" + Numeral(|names|) + " total" <= lines[0]
            && var parts := Split(lines[1], '`');
               |parts| == 2 * |names| + 1 && forall i | 0 <= i < |names| :: parts[2 * i + 1] == names[i]
  {
    HeadingIsOneLine(names);
    ListIsOneLine(names);
    SplitConcat(Heading(names), '\n', ListLine(names));
    SplitWithout(ListLine(names), '\n');
    assert Heading(names) + "\n" + ListLine(names) == Heading(names) + ['\n'] + ListLine(names);
    NamesAreListed(names, ".");
    HeadingStarts(names);
  }

  lemma HeadingStarts(names: seq<string>)
    ensures "**L0-utility packages** (" + Numeral(|names|) + " total" <= Heading(names)
  {
    var rest := CANONICAL[6..] + PLACE;
    assert CANONICAL == " total" + CANONICAL[6..];
    assert Heading(names) == SENTINEL + " (" + Numeral(|names|) + " total" + rest;
    assert SENTINEL + " (" == "**L0-utility packages** (";
  }

  /** A list of scoped names is recognised. */
  lemma ScopedNamesAreListed(names: seq<string>)
    requires names != [] && SCOPE <= names[0]
    ensures Contains(ListLine(names), SCOPE)
  {
    var line := ListLine(names);
    assert Quoted(names)[0] == "`" + names[0] + "`";
    assert Quoted(names)[0] <= Join(Quoted(names), ", ");
    assert forall i | 0 <= i < |SCOPE| :: line[i + 1] == names[0][i] == SCOPE[i];
    assert SCOPE <= line[1..];
  }

  /** Patching Koi.md with one generated paragraph and then another leaves what patching with
      the second alone leaves, for non-empty lists of scoped names without line breaks. */
  lemma PatchTwiceIsPatchLast(content: string, names: seq<string>, names': seq<string>)
    requires forall i | 0 <= i < |names| :: OneLine(names[i])
    requires forall i | 0 <= i < |names'| :: OneLine(names'[i])
    requires names != [] && SCOPE <= names[0]
    ensures Patch(GRAMMAR, Patch(GRAMMAR, content, Paragraph(names)), Paragraph(names')) ==
            Patch(GRAMMAR, content, Paragraph(names'))
  {
    var g, lines := GRAMMAR, Split(content, '\n');
    var first, second := [Heading(names), ListLine(names)], [Heading(names'), ListLine(names')];
    GeneratedIsParagraph(names);
    GeneratedIsParagraph(names');
    ScopedNamesAreListed(names);
    LastPatchWins(g, lines, first, second);
    TextPatchTwice(g, content, Heading(names), ListLine(names), Heading(names'), ListLine(names'));
    PatchIsOnLines(g, content, Heading(names'), ListLine(names'));
  }

  /** The sync gate: patching changes nothing. */
  ghost predicate InSync(content: string, names: seq<string>) {
    Patch(GRAMMAR, content, Paragraph(names)) == content
  }

  /** The gate accepts what the generator wrote exactly when the document has no paragraph to
      replace or the list mentions the scope; an empty list leaves its period behind. */
  lemma GeneratorOutputInSyncIff(content: string, names: seq<string>)
    requires forall i | 0 <= i < |names| :: OneLine(names[i])
    ensures InSync(Patch(GRAMMAR, content, Paragraph(names)), names) <==>
            FirstIndex(GRAMMAR, Split(content, '\n')) == |Split(content, '\n')| || Contains(ListLine(names), SCOPE)
  {
    var g, lines := GRAMMAR, Split(content, '\n');
    var paragraph := [Heading(names), ListLine(names)];
    GeneratedIsParagraph(names);
    PatchIsOnLines(g, content, Heading(names), ListLine(names));
    var once := Patch(g, content, Paragraph(names));
    PatchIsOnLines(g, once, Heading(names), ListLine(names));
    if g.lists(ListLine(names)) {
      LastPatchWins(g, lines, paragraph, paragraph);
    } else if FirstIndex(g, lines) < |lines| {
      UnlistedPatchGrows(g, lines, paragraph);
    }
  }

  lemma EmptyListHasNoScope()
    ensures !Contains(ListLine([]), SCOPE)
  {
    var line := ListLine([]);
    assert |line| == 1;
    forall i | 0 <= i <= |line|
      ensures !(SCOPE <= line[i..])
    {
      assert |line[i..]| < |SCOPE|;
    }
  }

  /** Without packages, the generator leaves every document that has the paragraph in a state
      the gate rejects. */
  lemma EmptyListIsNeverInSync(content: string)
    requires FirstIndex(GRAMMAR, Split(content, '\n')) < |Split(content, '\n')|
    ensures !InSync(Patch(GRAMMAR, content, Paragraph([])), [])
  {
    EmptyListHasNoScope();
    GeneratorOutputInSyncIff(content, []);
  }

  lemma ShortDocumentHasParagraph(content: string)
    requires content == SENTINEL
    ensures FirstIndex(GRAMMAR, Split(content, '\n')) < |Split(content, '\n')|
  {
    SplitWithout(content, '\n');
    assert GRAMMAR.starts(content);
    assert Split(content, '\n')[0] == content;
  }

  /** For instance the document that consists of the first words of the paragraph. */
  lemma ShortDocumentIsNotInSync(content: string)
    requires content == SENTINEL
    ensures !InSync(Patch(GRAMMAR, content, Paragraph([])), [])
  {
    ShortDocumentHasParagraph(content);
    EmptyListIsNeverInSync(content);
  }
}
