/**
 The detector of scripts/check-bun-test-filter.ts for `bun [flags] test ... --filter ...`:
 line continuations, tokens, a left-to-right walk over the tokens after `bun`, and the
 command spelled through repeated `--until-pass` flags.
 */
module BunTestFilter {
  import opened Strings
  import opened Stretches

  const KNOWN_SUBCOMMANDS: set<string> := {
    "run", "x", "exec", "install", "i", "add", "a", "remove", "rm", "update", "outdated", "link", "unlink",
    "init", "create", "pm", "repl", "upgrade", "build", "audit", "publish", "patch", "why", "info"
  }

  const BUN := "bun"
  const TEST := "test"
  const FILTER := "--filter"
  const FILTER_EQ := "--filter="
  const UNTIL_PASS := "--until-pass"
  const UNTIL_PASS_EQ := "--until-pass="

  // --- The walk over the tokens ---

  predicate IsFlag(token: string) {
    token != "" && token[0] == '-'
  }

  /** A flag that may take the next token as its value. */
  predicate IsSpaceFlag(token: string) {
    IsFlag(token) && '=' !in token
  }

  predicate IsFilter(token: string) {
    token == FILTER || FILTER_EQ <= token
  }

  /** A token that may stand between `bun` and `test`: a flag, or the value of the flag
      right before it; never `test` itself or another subcommand. */
  predicate MayPrecedeTest(known: set<string>, tokens: seq<string>, m: nat)
    requires 0 < m < |tokens|
  {
    tokens[m] != TEST && tokens[m] !in known && (IsFlag(tokens[m]) || IsSpaceFlag(tokens[m - 1]))
  }

  /** `bun` at `i`, `test` at `j` and only flags and their values in between. */
  ghost predicate RunsTests(known: set<string>, tokens: seq<string>, i: nat, j: nat) {
    && i < j < |tokens| && tokens[i] == BUN && tokens[j] == TEST
    && forall m | i < m < j :: MayPrecedeTest(known, tokens, m)
  }

  /** The command runs `bun test` with a filter. */
  ghost predicate IsBadCommand(known: set<string>, tokens: seq<string>) {
    exists i: nat, j: nat, k: nat :: RunsTests(known, tokens, i, j) && j < k < |tokens| && IsFilter(tokens[k])
  }

  /** From `bun` at `i`, all tokens before `j` may precede `test`. */
  ghost predicate Walked(known: set<string>, tokens: seq<string>, i: nat, j: nat) {
    && i < j <= |tokens| && tokens[i] == BUN
    && forall m | i < m < j :: MayPrecedeTest(known, tokens, m)
  }

  lemma WalkEnds(known: set<string>, tokens: seq<string>, i: nat, j: nat, j': nat)
    requires Walked(known, tokens, i, j) && RunsTests(known, tokens, i, j')
    requires j == |tokens| || !MayPrecedeTest(known, tokens, j)
    ensures j' == j
  {
    assert !MayPrecedeTest(known, tokens, j');
  }

  /** `isBunTestWithFilter` on tokens. */
  method IsBunTestWithFilter(known: set<string>, tokens: seq<string>) returns (found: bool)
    ensures found <==> IsBadCommand(known, tokens)
  {
    var i := 0;
    while i < |tokens|
      invariant 0 <= i <= |tokens|
      invariant forall a: nat, j: nat, k: nat | a < i && RunsTests(known, tokens, a, j) && j < k < |tokens| ::
                  !IsFilter(tokens[k])
    {
      if tokens[i] == BUN {
        var hit := WalkFrom(known, tokens, i);
        if hit {
          return true;
        }
      }
      i := i + 1;
    }
    return false;
  }

  /** The walk from one `bun` token. */
  method WalkFrom(known: set<string>, tokens: seq<string>, i: nat) returns (hit: bool)
    requires i < |tokens| && tokens[i] == BUN
    ensures hit <==> exists j: nat, k: nat :: RunsTests(known, tokens, i, j) && j < k < |tokens| && IsFilter(tokens[k])
  {
    var j := i + 1;
    var prevWasSpaceFlag := false;
    assert !IsFlag(BUN);
    while j < |tokens|
      invariant Walked(known, tokens, i, j)
      invariant prevWasSpaceFlag == IsSpaceFlag(tokens[j - 1])
    {
      var tok := tokens[j];
      if tok == TEST {
        assert RunsTests(known, tokens, i, j);
        var k := j + 1;
        while k < |tokens|
          invariant j < k <= |tokens|
          invariant forall k' | j < k' < k :: !IsFilter(tokens[k'])
        {
          if IsFilter(tokens[k]) {
            return true;
          }
          k := k + 1;
        }
        NoOtherTest(known, tokens, i, j);
        return false;
      }
      if tok in known {
        NoOtherTest(known, tokens, i, j);
        return false;
      }
      if IsFlag(tok) {
        prevWasSpaceFlag := '=' !in tok;
        j := j + 1;
        continue;
      }
      if prevWasSpaceFlag {
        prevWasSpaceFlag := false;
        j := j + 1;
        continue;
      }
      NoOtherTest(known, tokens, i, j);
      return false;
    }
    NoOtherTest(known, tokens, i, j);
    return false;
  }

  lemma NoOtherTest(known: set<string>, tokens: seq<string>, i: nat, j: nat)
    requires Walked(known, tokens, i, j)
    requires j == |tokens| || !MayPrecedeTest(known, tokens, j)
    ensures forall j': nat | RunsTests(known, tokens, i, j') :: j' == j
  {
    forall j': nat | RunsTests(known, tokens, i, j')
      ensures j' == j
    {
      WalkEnds(known, tokens, i, j, j');
    }
  }

  /** Commands that the comments of the detector name as bad, with and without a flag's value, */
  lemma BadExamples(dir: string)
    requires dir != TEST && dir !in KNOWN_SUBCOMMANDS
    ensures IsBadCommand(KNOWN_SUBCOMMANDS, ["bun", "test", "--filter=foo"])
    ensures IsBadCommand(KNOWN_SUBCOMMANDS, ["bun", "--cwd", dir, "test", "--filter", "foo"])
  {
    var plain, valued := ["bun", "test", "--filter=foo"], ["bun", "--cwd", dir, "test", "--filter", "foo"];
    assert RunsTests(KNOWN_SUBCOMMANDS, plain, 0, 1) && IsFilter(plain[2]);
    assert MayPrecedeTest(KNOWN_SUBCOMMANDS, valued, 1) && MayPrecedeTest(KNOWN_SUBCOMMANDS, valued, 2);
    assert RunsTests(KNOWN_SUBCOMMANDS, valued, 0, 3) && IsFilter(valued[4]);
  }

  /** and as good: a script before `test`, and another subcommand. */
  lemma GoodExamples(script: string)
    requires script != TEST && script != BUN && !IsFlag(script)
    ensures !IsBadCommand(KNOWN_SUBCOMMANDS, ["bun", script, "test", "--filter=foo"])
    ensures !IsBadCommand(KNOWN_SUBCOMMANDS, ["bun", "install", "--filter=foo"])
  {
    var other, install := ["bun", script, "test", "--filter=foo"], ["bun", "install", "--filter=foo"];
    assert !IsSpaceFlag(other[0]) && !MayPrecedeTest(KNOWN_SUBCOMMANDS, other, 1);
    assert other[1] != TEST && other[1] != BUN && other[2] != BUN && other[3] != BUN && other[3] != TEST;
    assert install[1] != TEST && install[2] != TEST;
  }

  // --- Tokens ---

  function NormalizeChar(c: char): char {
    if c == '`' || c == '\'' || c == '"' then ' ' else c
  }

  function NormalizeLine(line: string): (r: string)
    ensures |r| == |line|
  {
    seq(|line|, i requires 0 <= i < |line| => NormalizeChar(line[i]))
  }

  predicate IsDecoration(c: char) {
    c == '`' || c == '\'' || c == '"'
  }

  /** Neither white space nor a quote. */
  predicate IsWord(s: string) {
    forall i | 0 <= i < |s| :: !IsSpace(s[i]) && !IsDecoration(s[i])
  }

  function WordLength(s: string): (n: nat)
    ensures n <= |s|
    ensures forall i | 0 <= i < n :: !IsSpace(s[i])
    ensures n < |s| ==> IsSpace(s[n])
  {
    if s == "" || IsSpace(s[0]) then 0 else 1 + WordLength(s[1..])
  }

  /** `line.match(/\S+/g) ?? []` */
  function Words(s: string): seq<string>
    decreases |s|
  {
    if s == "" then []
    else if IsSpace(s[0]) then Words(s[1..])
    else [s[..WordLength(s)]] + Words(s[WordLength(s)..])
  }

  function Tokens(line: string): seq<string> {
    Words(NormalizeLine(line))
  }

  lemma WordsCons(word: string, rest: string)
    requires word != "" && (forall i | 0 <= i < |word| :: !IsSpace(word[i])) && (rest == "" || IsSpace(rest[0]))
    ensures Words(word + rest) == [word] + Words(rest)
  {
    var s := word + rest;
    assert s[0] == word[0];
    assert forall i | 0 <= i < |word| :: !IsSpace(s[i]);
    assert |word| < |s| ==> s[|word|] == rest[0];
    assert WordLength(s) == |word|;
    assert s[..|word|] == word && s[|word|..] == rest;
  }

  /** What separates tokens: white space and quotes. */
  predicate IsGap(c: char) {
    IsSpace(c) || c == '`' || c == '\'' || c == '"'
  }

  lemma NormalizedGaps(s: string)
    ensures forall i | 0 <= i < |s| :: IsSpace(NormalizeLine(s)[i]) <==> IsGap(s[i])
    ensures forall i | 0 <= i < |s| :: !IsGap(s[i]) ==> NormalizeLine(s)[i] == s[i]
  {
  }

  lemma {:induction false} WordLengthIs(s: string)
    ensures WordLength(s) == StretchLength(s, IsSpace)
  {
    if s != "" && !IsSpace(s[0]) {
      WordLengthIs(s[1..]);
    }
  }

  lemma {:induction false} WordsAreStretches(s: string)
    ensures Words(s) == StretchesOf(s, IsSpace)
    decreases |s|
  {
    if s != "" {
      if IsSpace(s[0]) {
        WordsAreStretches(s[1..]);
      } else {
        WordLengthIs(s);
        WordsAreStretches(s[WordLength(s)..]);
      }
    }
  }

  lemma CoversOther(s: string, t: string, spans: seq<(nat, nat)>, words: seq<string>)
    requires |s| == |t| && Covers(t, IsSpace, spans, words)
    requires forall i | 0 <= i < |s| :: IsSpace(t[i]) <==> IsGap(s[i])
    requires forall i | 0 <= i < |s| :: !IsGap(s[i]) ==> t[i] == s[i]
    ensures Covers(s, IsGap, spans, words)
  {
    forall k | 0 <= k < |spans|
      ensures IsPart(s, IsGap, spans[k], words[k])
    {
      assert IsPart(t, IsSpace, spans[k], words[k]);
      assert t[spans[k].0..spans[k].1] == s[spans[k].0..spans[k].1];
    }
  }

  /** The tokens are the stretches between white space and quotes, all of them, in order. */
  lemma TokensCover(s: string) returns (spans: seq<(nat, nat)>)
    ensures Covers(s, IsGap, spans, Tokens(s))
  {
    var t := NormalizeLine(s);
    spans := Spans(t, IsSpace, 0);
    StretchesCover(t, IsSpace);
    WordsAreStretches(t);
    NormalizedGaps(s);
    CoversOther(s, t, spans, Tokens(s));
  }

  function NonEmpty(parts: seq<string>): seq<string> {
    if parts == [] then [] else (if parts[0] == "" then [] else [parts[0]]) + NonEmpty(parts[1..])
  }

  /** Words joined by spaces are found again. */
  lemma {:induction false} WordsOfJoin(parts: seq<string>)
    requires forall i | 0 <= i < |parts| :: IsWord(parts[i])
    ensures Words(Join(parts, " ")) == NonEmpty(parts)
  {
    if |parts| == 1 {
      assert parts[1..] == [];
      if parts[0] != "" {
        assert parts[0] + "" == parts[0];
        WordsCons(parts[0], "");
      }
    } else if |parts| > 1 {
      var rest := Join(parts[1..], " ");
      WordsOfJoin(parts[1..]);
      assert (" " + rest)[1..] == rest;
      assert Words(" " + rest) == Words(rest);
      assert Join(parts, " ") == parts[0] + (" " + rest);
      if parts[0] != "" {
        WordsCons(parts[0], " " + rest);
      } else {
        assert parts[0] + (" " + rest) == " " + rest;
      }
    }
  }

  lemma {:induction false} WordsAreWords(s: string)
    requires forall i | 0 <= i < |s| :: !IsDecoration(s[i])
    ensures forall w | w in Words(s) :: w != "" && IsWord(w)
    decreases |s|
  {
    if s != "" {
      if IsSpace(s[0]) {
        WordsAreWords(s[1..]);
      } else {
        WordsAreWords(s[WordLength(s)..]);
      }
    }
  }

  lemma {:induction false} JoinIsPlain(parts: seq<string>)
    requires forall i | 0 <= i < |parts| :: IsWord(parts[i])
    ensures NormalizeLine(Join(parts, " ")) == Join(parts, " ")
  {
    PlainJoin(parts);
    var s := Join(parts, " ");
    assert forall i | 0 <= i < |s| :: NormalizeChar(s[i]) == s[i];
  }

  lemma {:induction false} PlainJoin(parts: seq<string>)
    requires forall i | 0 <= i < |parts| :: IsWord(parts[i])
    ensures forall i | 0 <= i < |Join(parts, " ")| :: !IsDecoration(Join(parts, " ")[i])
  {
    if |parts| > 1 {
      PlainJoin(parts[1..]);
    }
  }

  lemma TokensOfJoin(parts: seq<string>)
    requires forall i | 0 <= i < |parts| :: IsWord(parts[i])
    ensures Tokens(Join(parts, " ")) == NonEmpty(parts)
  {
    JoinIsPlain(parts);
    WordsOfJoin(parts);
  }

  // --- --until-pass ---

  /** The values of the `--until-pass` flags, from token `i` on. */
  function UntilPass(tokens: seq<string>, i: nat): seq<string>
    requires i <= |tokens|
    decreases |tokens| - i
  {
    if i == |tokens| then []
    else if tokens[i] == UNTIL_PASS then
      if i + 1 < |tokens| then [tokens[i + 1]] + UntilPass(tokens, i + 2) else []
    else if UNTIL_PASS_EQ <= tokens[i] then [tokens[i][|UNTIL_PASS_EQ|..]] + UntilPass(tokens, i + 1)
    else UntilPass(tokens, i + 1)
  }

  /** The loop of `reconstructUntilPassArgv`. */
  method ReconstructArgv(tokens: seq<string>) returns (argv: seq<string>)
    ensures argv == UntilPass(tokens, 0)
  {
    argv := [];
    var i := 0;
    assert [] + UntilPass(tokens, 0) == UntilPass(tokens, 0);
    while i < |tokens|
      invariant 0 <= i <= |tokens|
      invariant argv + UntilPass(tokens, i) == UntilPass(tokens, 0)
    {
      var tok := tokens[i];
      if tok == UNTIL_PASS {
        if i + 1 < |tokens| {
          PushArgv(argv, tokens[i + 1], UntilPass(tokens, i + 2));
          argv := argv + [tokens[i + 1]];
          i := i + 1;
        }
      } else if UNTIL_PASS_EQ <= tok {
        PushArgv(argv, tok[|UNTIL_PASS_EQ|..], UntilPass(tokens, i + 1));
        argv := argv + [tok[|UNTIL_PASS_EQ|..]];
      }
      i := i + 1;
    }
    assert argv + [] == argv;
  }

  lemma PushArgv(argv: seq<string>, value: string, rest: seq<string>)
    ensures argv + ([value] + rest) == (argv + [value]) + rest
  {
  }

  /** One piece of a command line: a value in either spelling, or an unrelated token. */
  datatype Piece = Spaced(value: string) | Equals(value: string) | Unrelated(token: string)

  predicate IsUnrelated(token: string) {
    token != UNTIL_PASS && !(UNTIL_PASS_EQ <= token)
  }

  function Encode(pieces: seq<Piece>): seq<string> {
    if pieces == [] then []
    else
      (match pieces[0]
       case Spaced(v) => [UNTIL_PASS, v]
       case Equals(v) => [UNTIL_PASS_EQ + v]
       case Unrelated(t) => [t])
      + Encode(pieces[1..])
  }

  function Values(pieces: seq<Piece>): seq<string> {
    if pieces == [] then []
    else (if pieces[0].Unrelated? then [] else [pieces[0].value]) + Values(pieces[1..])
  }

  lemma {:induction false} UntilPassShift(a: string, tokens: seq<string>, i: nat)
    requires i <= |tokens|
    ensures UntilPass([a] + tokens, i + 1) == UntilPass(tokens, i)
    decreases |tokens| - i
  {
    var shifted := [a] + tokens;
    if i < |tokens| {
      assert shifted[i + 1] == tokens[i];
      if i + 1 < |tokens| {
        assert shifted[i + 2] == tokens[i + 1];
        UntilPassShift(a, tokens, i + 2);
      }
      UntilPassShift(a, tokens, i + 1);
    }
  }

  lemma SpacedIsRead(v: string, rest: seq<string>)
    ensures UntilPass([UNTIL_PASS, v] + rest, 0) == [v] + UntilPass(rest, 0)
  {
    var tokens := [UNTIL_PASS] + ([v] + rest);
    assert [UNTIL_PASS, v] + rest == tokens;
    UntilPassShift(UNTIL_PASS, [v] + rest, 1);
    UntilPassShift(v, rest, 0);
    assert tokens[1] == v;
  }

  lemma OneTokenIsRead(token: string, rest: seq<string>)
    requires token != UNTIL_PASS
    ensures UntilPass([token] + rest, 0) ==
            (if UNTIL_PASS_EQ <= token then [token[|UNTIL_PASS_EQ|..]] else []) + UntilPass(rest, 0)
  {
    UntilPassShift(token, rest, 0);
  }

  /** Any argv is recovered from any mix of the two spellings, whatever stands between. */
  lemma {:induction false} UntilPassRoundTrip(pieces: seq<Piece>)
    requires forall i | 0 <= i < |pieces| :: pieces[i].Unrelated? ==> IsUnrelated(pieces[i].token)
    ensures UntilPass(Encode(pieces), 0) == Values(pieces)
  {
    if pieces != [] {
      var rest := Encode(pieces[1..]);
      UntilPassRoundTrip(pieces[1..]);
      match pieces[0] {
        case Spaced(v) => SpacedIsRead(v, rest);
        case Equals(v) =>
          EqualsIsRead(v);
          OneTokenIsRead(UNTIL_PASS_EQ + v, rest);
        case Unrelated(t) => OneTokenIsRead(t, rest);
      }
    }
  }

  lemma {:induction false} AllNonEmpty(parts: seq<string>)
    requires forall i | 0 <= i < |parts| :: parts[i] != ""
    ensures NonEmpty(parts) == parts
  {
    if parts != [] {
      AllNonEmpty(parts[1..]);
    }
  }

  /** The same on the text of a command line, for pieces made of words. */
  lemma UntilPassLineRoundTrip(pieces: seq<Piece>)
    requires forall i | 0 <= i < |pieces| :: pieces[i].Unrelated? ==> IsUnrelated(pieces[i].token)
    requires forall i | 0 <= i < |Encode(pieces)| :: Encode(pieces)[i] != "" && IsWord(Encode(pieces)[i])
    ensures UntilPass(Tokens(Join(Encode(pieces), " ")), 0) == Values(pieces)
  {
    TokensOfJoin(Encode(pieces));
    AllNonEmpty(Encode(pieces));
    UntilPassRoundTrip(pieces);
  }

  lemma EqualsIsRead(v: string)
    ensures UNTIL_PASS_EQ + v != UNTIL_PASS && UNTIL_PASS_EQ <= UNTIL_PASS_EQ + v
    ensures (UNTIL_PASS_EQ + v)[|UNTIL_PASS_EQ|..] == v
  {
    assert |UNTIL_PASS_EQ + v| > |UNTIL_PASS|;
  }

  // --- Line continuations ---

  /** `/\\\s*$/`: the last character that is not white space is a backslash. */
  predicate Continues(raw: string) {
    var t := TrimEnd(raw);
    t != "" && t[|t| - 1] == '\\'
  }

  /** The line without the trailing backslash and what follows it. */
  function Stripped(raw: string): string {
    if Continues(raw) then TrimEnd(raw)[..|TrimEnd(raw)| - 1] else raw
  }

  /** A line continues when only white space follows a backslash, which is cut off with it. */
  lemma ContinuesIff(raw: string)
    ensures Continues(raw) <==> exists k :: EndsAt(raw, k)
    ensures forall k | EndsAt(raw, k) :: Stripped(raw) == raw[..k]
    ensures !Continues(raw) ==> Stripped(raw) == raw
  {
    var t := TrimEnd(raw);
    if Continues(raw) {
      assert EndsAt(raw, |t| - 1);
    }
    forall k | EndsAt(raw, k)
      ensures Continues(raw) && Stripped(raw) == raw[..k]
    {
      assert !IsSpace('\\');
      assert |t| > k && t[|t| - 1] == raw[|t| - 1];
      assert |t| == k + 1;
    }
  }

  ghost predicate EndsAt(raw: string, k: int) {
    0 <= k < |raw| && raw[k] == '\\' && forall j | k < j < |raw| :: IsSpace(raw[j])
  }

  /** A line of the file: its text without the continuation, and whether it has one. */
  datatype RawLine = RawLine(text: string, continues: bool)

  function ReadRaw(raw: string): RawLine {
    RawLine(Stripped(raw), Continues(raw))
  }

  function RawLines(content: string): seq<RawLine> {
    var lines := Split(content, '\n');
    seq(|lines|, i requires 0 <= i < |lines| => ReadRaw(lines[i]))
  }

  datatype LogicalLine = LogicalLine(text: string, originLine: nat)

  /** Where the logical line that line `i` belongs to starts: after the last earlier line
      that does not continue. */
  function GroupStart(lines: seq<RawLine>, i: nat): (start: nat)
    requires i <= |lines|
    ensures start <= i
    ensures forall k | start <= k < i :: lines[k].continues
    ensures start > 0 ==> !lines[start - 1].continues
  {
    if i == 0 then 0 else if lines[i - 1].continues then GroupStart(lines, i - 1) else i
  }

  /** The texts of lines `i` up to `e`, with a space between them. */
  function GroupText(lines: seq<RawLine>, i: nat, e: nat): string
    requires i < e <= |lines|
    decreases e
  {
    if e == i + 1 then lines[i].text else GroupText(lines, i, e - 1) + " " + lines[e - 1].text
  }

  /** The logical line that ends before line `e`, reported at its first line. */
  function GroupBefore(lines: seq<RawLine>, e: nat): LogicalLine
    requires 0 < e <= |lines|
  {
    var start := GroupStart(lines, e - 1);
    LogicalLine(GroupText(lines, start, e), start + 1)
  }

  /** The logical lines that are complete within the first `i` lines: one for each line that
      does not continue. */
  function CompleteLines(lines: seq<RawLine>, i: nat): seq<LogicalLine>
    requires i <= |lines|
  {
    if i == 0 then []
    else if lines[i - 1].continues then CompleteLines(lines, i - 1)
    else CompleteLines(lines, i - 1) + [GroupBefore(lines, i)]
  }

  /** All logical lines; a file may end in a continuation. */
  function LogicalLines(lines: seq<RawLine>): seq<LogicalLine> {
    var n := |lines|;
    CompleteLines(lines, n) + if n > 0 && lines[n - 1].continues then [GroupBefore(lines, n)] else []
  }

  function Texts(lines: seq<RawLine>): seq<string> {
    seq(|lines|, i requires 0 <= i < |lines| => lines[i].text)
  }

  /** The text of a group is that of its lines joined by spaces. */
  lemma {:induction false} GroupTextIsJoin(lines: seq<RawLine>, i: nat, e: nat)
    requires i < e <= |lines|
    ensures GroupText(lines, i, e) == Join(Texts(lines[i..e]), " ")
    decreases e
  {
    if e > i + 1 {
      GroupTextIsJoin(lines, i, e - 1);
      JoinConcat(Texts(lines[i..e - 1]), [lines[e - 1].text], " ");
      assert Texts(lines[i..e]) == Texts(lines[i..e - 1]) + [lines[e - 1].text];
    }
  }

  /** `joinContinuations` on the lines of a file. */
  method JoinContinuations(lines: seq<RawLine>) returns (result: seq<LogicalLine>)
    ensures result == LogicalLines(lines)
  {
    result := [];
    var buffer, bufferStart, inContinuation := "", 0, false;
    var i := 0;
    while i < |lines|
      invariant 0 <= i <= |lines|
      invariant inContinuation <==> GroupStart(lines, i) < i
      invariant inContinuation ==> LogicalLine(buffer, bufferStart) == GroupBefore(lines, i)
      invariant result == CompleteLines(lines, i)
    {
      if inContinuation {
        buffer := buffer + " " + lines[i].text;
      } else {
        bufferStart, buffer := i + 1, lines[i].text;
      }
      assert LogicalLine(buffer, bufferStart) == GroupBefore(lines, i + 1);
      inContinuation := lines[i].continues;
      if !inContinuation {
        result := result + [LogicalLine(buffer, bufferStart)];
      }
      i := i + 1;
    }
    if inContinuation {
      result := result + [LogicalLine(buffer, bufferStart)];
    }
  }

  /** Every line of the file is part of a reported logical line: the one its group ends. */
  lemma {:induction false} LogicalLinesCover(lines: seq<RawLine>, k: nat, n: nat) returns (e: nat)
    requires k < n <= |lines| && (n == |lines| || !lines[n - 1].continues)
    ensures k < e <= n && GroupStart(lines, e - 1) <= k && GroupBefore(lines, e) in LogicalLines(lines)
    decreases n
  {
    var start := GroupStart(lines, n - 1);
    if start <= k {
      e := n;
      CompleteKeeps(lines, n);
    } else {
      e := LogicalLinesCover(lines, k, start);
    }
  }

  lemma CompleteKeeps(lines: seq<RawLine>, e: nat)
    requires 0 < e <= |lines| && (e == |lines| || !lines[e - 1].continues)
    ensures GroupBefore(lines, e) in LogicalLines(lines)
  {
    if !lines[e - 1].continues {
      CompleteGrows(lines, e, |lines|);
    }
  }

  lemma {:induction false} CompleteGrows(lines: seq<RawLine>, e: nat, n: nat)
    requires e <= n <= |lines|
    ensures forall line | line in CompleteLines(lines, e) :: line in CompleteLines(lines, n)
    decreases n
  {
    if e < n {
      CompleteGrows(lines, e, n - 1);
    }
  }

  // --- detectViolations ---

  predicate IsSeparator(c: char) {
    c == ';' || c == '|' || c == '&'
  }

  function CommandLength(s: string): (n: nat)
    ensures n <= |s|
  {
    if s == "" || IsSeparator(s[0]) then 0 else 1 + CommandLength(s[1..])
  }

  function SeparatorLength(s: string): (n: nat)
    ensures n <= |s|
    ensures s != "" && IsSeparator(s[0]) ==> n > 0
  {
    if s == "" || !IsSeparator(s[0]) then 0 else 1 + SeparatorLength(s[1..])
  }

  lemma CommandStops(s: string)
    ensures CommandLength(s) < |s| ==> IsSeparator(s[CommandLength(s)])
  {
  }

  /** `text.split(/[;|&]+/)` */
  function Commands(text: string): seq<string>
    decreases |text|
  {
    var n := CommandLength(text);
    if n == |text| then [text]
    else
      CommandStops(text);
      var rest := text[n..];
      [text[..n]] + Commands(rest[SeparatorLength(rest)..])
  }

  lemma {:induction false} CommandLengthIs(s: string)
    ensures CommandLength(s) == StretchLength(s, IsSeparator)
  {
    if s != "" && !IsSeparator(s[0]) {
      CommandLengthIs(s[1..]);
    }
  }

  lemma {:induction false} SeparatorsHaveNoStretches(s: string)
    ensures StretchesOf(s[SeparatorLength(s)..], IsSeparator) == StretchesOf(s, IsSeparator)
  {
    if s != "" && IsSeparator(s[0]) {
      SeparatorsHaveNoStretches(s[1..]);
      assert s[SeparatorLength(s)..] == s[1..][SeparatorLength(s[1..])..];
    }
  }

  lemma NonEmptyCons(part: string, parts: seq<string>)
    ensures NonEmpty([part] + parts) == (if part == "" then [] else [part]) + NonEmpty(parts)
  {
    assert ([part] + parts)[1..] == parts;
  }

  lemma FirstStretch(s: string, gap: char -> bool)
    ensures var n := StretchLength(s, gap);
            StretchesOf(s, gap) == (if n == 0 then [] else [s[..n]]) + StretchesOf(s[n..], gap)
  {
    var n := StretchLength(s, gap);
    if n == 0 {
      assert s[0..] == s && [] + StretchesOf(s, gap) == StretchesOf(s, gap);
    }
  }

  /** The commands, empty ones apart, are the stretches between separators. */
  lemma {:induction false} CommandsAreStretches(s: string)
    ensures NonEmpty(Commands(s)) == StretchesOf(s, IsSeparator)
    decreases |s|
  {
    var n := CommandLength(s);
    CommandLengthIs(s);
    FirstStretch(s, IsSeparator);
    if n == |s| {
      assert s[n..] == "" && s[..n] == s;
      NonEmptyCons(s, []);
      assert [s] + [] == [s];
    } else {
      CommandStops(s);
      var rest := s[n..];
      var m := SeparatorLength(rest);
      SeparatorsHaveNoStretches(rest);
      CommandsAreStretches(rest[m..]);
      NonEmptyCons(s[..n], Commands(rest[m..]));
    }
  }

  datatype Violation = Violation(file: string, line: nat, text: string)

  /** A logical line is flagged for the command in one of the stretches between its separators,
      wherever it is, or for the command its `--until-pass` values spell. */
  ghost predicate Flagged(known: set<string>, text: string) {
    HasBadStretch(known, text) || IsBadCommand(known, NonEmpty(UntilPass(Tokens(text), 0)))
  }

  /** One of the commands is bad. */
  ghost predicate HasBadCommand(known: set<string>, commands: seq<string>) {
    exists i :: 0 <= i < |commands| && IsBadCommand(known, Tokens(commands[i]))
  }

  lemma {:induction false} NonEmptyKeeps(parts: seq<string>, part: string)
    ensures part in NonEmpty(parts) <==> part in parts && part != ""
  {
    if parts != [] {
      NonEmptyKeeps(parts[1..], part);
    }
  }

  /** The command in one of the stretches is bad. */
  ghost predicate HasBadStretch(known: set<string>, text: string) {
    exists a: nat, b: nat :: IsStretch(text, IsSeparator, a, b) && IsBadCommand(known, Tokens(text[a..b]))
  }

  lemma BadCommandIsStretch(known: set<string>, text: string, spans: seq<(nat, nat)>, parts: seq<string>, k: nat)
    requires Covers(text, IsSeparator, spans, parts) && k < |parts| && IsBadCommand(known, Tokens(parts[k]))
    ensures HasBadStretch(known, text)
  {
    assert IsPart(text, IsSeparator, spans[k], parts[k]);
  }

  lemma BadStretchIsCommand(known: set<string>, text: string, spans: seq<(nat, nat)>, parts: seq<string>)
    requires Covers(text, IsSeparator, spans, parts) && HasBadStretch(known, text)
    ensures HasBadCommand(known, parts)
  {
    var a: nat, b: nat :| IsStretch(text, IsSeparator, a, b) && IsBadCommand(known, Tokens(text[a..b]));
    StretchIsPart(text, IsSeparator, spans, parts, a, b);
    var k :| 0 <= k < |parts| && parts[k] == text[a..b];
  }

  /** Empty commands are never bad. */
  lemma NonEmptyIsEnough(known: set<string>, commands: seq<string>)
    ensures HasBadCommand(known, commands) <==> HasBadCommand(known, NonEmpty(commands))
  {
    var parts := NonEmpty(commands);
    if i :| 0 <= i < |commands| && IsBadCommand(known, Tokens(commands[i])) {
      EmptyIsNotBad(known);
      NonEmptyKeeps(commands, commands[i]);
      var k :| 0 <= k < |parts| && parts[k] == commands[i];
    }
    if k :| 0 <= k < |parts| && IsBadCommand(known, Tokens(parts[k])) {
      NonEmptyKeeps(commands, parts[k]);
      var i :| 0 <= i < |commands| && commands[i] == parts[k];
    }
  }

  lemma BadCommandIff(known: set<string>, text: string)
    ensures HasBadCommand(known, Commands(text)) <==> HasBadStretch(known, text)
  {
    var spans := Spans(text, IsSeparator, 0);
    var parts := StretchesOf(text, IsSeparator);
    StretchesCover(text, IsSeparator);
    CommandsAreStretches(text);
    NonEmptyIsEnough(known, Commands(text));
    if k :| 0 <= k < |parts| && IsBadCommand(known, Tokens(parts[k])) {
      BadCommandIsStretch(known, text, spans, parts, k);
    }
    if HasBadStretch(known, text) {
      BadStretchIsCommand(known, text, spans, parts);
    }
  }

  lemma {:induction false} UntilPassIsWords(tokens: seq<string>, i: nat)
    requires i <= |tokens| && forall k | 0 <= k < |tokens| :: IsWord(tokens[k])
    ensures forall k | 0 <= k < |UntilPass(tokens, i)| :: IsWord(UntilPass(tokens, i)[k])
    decreases |tokens| - i
  {
    if i < |tokens| {
      if tokens[i] == UNTIL_PASS {
        if i + 1 < |tokens| {
          UntilPassIsWords(tokens, i + 2);
        }
      } else {
        UntilPassIsWords(tokens, i + 1);
      }
    }
  }

  lemma NormalizedHasNoDecoration(line: string)
    ensures forall i | 0 <= i < |line| :: !IsDecoration(NormalizeLine(line)[i])
  {
  }

  /** Joining the values and splitting them again loses only empty ones. */
  lemma ReconstructedTokens(text: string)
    ensures Tokens(Join(UntilPass(Tokens(text), 0), " ")) == NonEmpty(UntilPass(Tokens(text), 0))
  {
    NormalizedHasNoDecoration(text);
    WordsAreWords(NormalizeLine(text));
    var tokens := Tokens(text);
    forall k | 0 <= k < |tokens|
      ensures IsWord(tokens[k])
    {
      assert tokens[k] in tokens;
    }
    UntilPassIsWords(tokens, 0);
    TokensOfJoin(UntilPass(tokens, 0));
  }

  lemma EmptyIsNotBad(known: set<string>)
    ensures !IsBadCommand(known, Tokens(""))
  {
    assert NormalizeLine("") == "";
  }

  /** The loop over the commands. */
  method AnyBad(known: set<string>, commands: seq<string>) returns (bad: bool)
    ensures bad <==> HasBadCommand(known, commands)
  {
    var i := 0;
    while i < |commands|
      invariant 0 <= i <= |commands|
      invariant forall k | 0 <= k < i :: !IsBadCommand(known, Tokens(commands[k]))
    {
      bad := IsBunTestWithFilter(known, Tokens(commands[i]));
      if bad {
        return true;
      }
      i := i + 1;
    }
    return false;
  }

  lemma FlaggedIff(known: set<string>, text: string)
    ensures Flagged(known, text) <==>
            || HasBadCommand(known, Commands(text))
            || IsBadCommand(known, NonEmpty(UntilPass(Tokens(text), 0)))
  {
    BadCommandIff(known, text);
  }

  /** The loop body: is this logical line flagged? */
  method IsFlagged(known: set<string>, text: string) returns (flagged: bool)
    ensures flagged <==> Flagged(known, text)
  {
    FlaggedIff(known, text);
    flagged := AnyBad(known, Commands(text));
    if flagged {
      return;
    }
    var argv := ReconstructArgv(Tokens(text));
    var reconstructed := Join(argv, " ");
    ReconstructedTokens(text);
    if reconstructed == "" {
      EmptyIsNotBad(known);
      return false;
    }
    flagged := IsBunTestWithFilter(known, Tokens(reconstructed));
  }

  function Reported(file: string, line: LogicalLine): Violation {
    Violation(file, line.originLine, Trim(line.text))
  }

  /** Which logical lines are flagged. */
  ghost function Flags(known: set<string>): string -> bool {
    text => Flagged(known, text)
  }

  /** The flagged lines, each once and in order. */
  ghost function FlaggedLines(flags: string -> bool, lines: seq<LogicalLine>): seq<LogicalLine> {
    if lines == [] then []
    else
      var last := lines[|lines| - 1];
      FlaggedLines(flags, lines[..|lines| - 1]) + if flags(last.text) then [last] else []
  }

  /** One report for each line. */
  ghost function Reports(report: LogicalLine -> Violation, lines: seq<LogicalLine>): seq<Violation> {
    seq(|lines|, i requires 0 <= i < |lines| => report(lines[i]))
  }

  function ReportIn(file: string): LogicalLine -> Violation {
    line => Reported(file, line)
  }

  lemma ReportsSnoc(report: LogicalLine -> Violation, lines: seq<LogicalLine>, line: LogicalLine)
    ensures Reports(report, lines + [line]) == Reports(report, lines) + [report(line)]
  {
  }

  lemma MemberSnoc(lines: seq<LogicalLine>, line: LogicalLine)
    requires lines != []
    ensures line in lines <==> line in lines[..|lines| - 1] || line == lines[|lines| - 1]
  {
    assert lines == lines[..|lines| - 1] + [lines[|lines| - 1]];
  }

  /** A line is reported if and only if it is a flagged line of the file. */
  lemma {:induction false} ReportedIff(flags: string -> bool, lines: seq<LogicalLine>, line: LogicalLine)
    ensures line in FlaggedLines(flags, lines) <==> line in lines && flags(line.text)
  {
    if lines != [] {
      ReportedIff(flags, lines[..|lines| - 1], line);
      MemberSnoc(lines, line);
    }
  }

  /** `picked` are the lines at the places `ps`, in order, and these are the places of all
      flagged lines. */
  ghost predicate PicksFlagged(flags: string -> bool, lines: seq<LogicalLine>, ps: seq<nat>, picked: seq<LogicalLine>) {
    && |picked| == |ps|
    && (forall k | 0 <= k < |ps| :: ps[k] < |lines| && picked[k] == lines[ps[k]] && flags(picked[k].text))
    && (forall k, l | 0 <= k < l < |ps| :: ps[k] < ps[l])
    && (forall p: nat | p < |lines| && flags(lines[p].text) :: p in ps)
  }

  /** Every flagged line is reported once, in order. */
  lemma {:induction false} FlaggedInOrder(flags: string -> bool, lines: seq<LogicalLine>) returns (ps: seq<nat>)
    ensures PicksFlagged(flags, lines, ps, FlaggedLines(flags, lines))
  {
    if lines == [] {
      ps := [];
    } else {
      var n := |lines| - 1;
      var before := FlaggedInOrder(flags, lines[..n]);
      ps := before + if flags(lines[n].text) then [n] else [];
      FlaggedMore(flags, lines, before, FlaggedLines(flags, lines[..n]), ps, FlaggedLines(flags, lines));
    }
  }

  lemma FlaggedMore(flags: string -> bool, lines: seq<LogicalLine>, before: seq<nat>, picked: seq<LogicalLine>,
                    ps: seq<nat>, picked': seq<LogicalLine>)
    requires lines != []
    requires var n := |lines| - 1;
             && PicksFlagged(flags, lines[..n], before, picked)
             && ps == before + (if flags(lines[n].text) then [n] else [])
             && picked' == picked + if flags(lines[n].text) then [lines[n]] else []
    ensures PicksFlagged(flags, lines, ps, picked')
  {
    var n := |lines| - 1;
    forall p: nat | p < |lines| && flags(lines[p].text)
      ensures p in ps
    {
      if p < n {
        assert lines[..n][p] == lines[p] && p in before;
      } else {
        assert ps[|before|] == n;
      }
    }
    assert forall k | 0 <= k < |before| :: ps[k] == before[k] && lines[..n][before[k]] == lines[before[k]];
  }

  /** No line of a file escapes: the logical line it is part of is checked, and reported at
      its first line. */
  lemma FlaggedLineIsReported(flags: string -> bool, lines: seq<RawLine>, k: nat) returns (e: nat)
    requires k < |lines|
    ensures k < e <= |lines| && GroupStart(lines, e - 1) <= k
    ensures var group := GroupBefore(lines, e);
            flags(group.text) <==> group in FlaggedLines(flags, LogicalLines(lines))
  {
    e := LogicalLinesCover(lines, k, |lines|);
    ReportedIff(flags, LogicalLines(lines), GroupBefore(lines, e));
  }

  lemma StopsAtSubcommand(known: set<string>, tokens: seq<string>, i: nat, j: nat)
    requires TEST !in known && i + 1 < |tokens| && tokens[i + 1] in known
    ensures !RunsTests(known, tokens, i, j)
  {
    assert !MayPrecedeTest(known, tokens, i + 1);
  }

  /** `bun` followed by another subcommand is never taken for `bun test`. */
  lemma OtherSubcommandsPass(known: set<string>, tokens: seq<string>)
    requires TEST !in known
    requires forall i | 0 <= i < |tokens| - 1 :: tokens[i] == BUN ==> tokens[i + 1] in known
    ensures !IsBadCommand(known, tokens)
  {
    forall i: nat, j: nat
      ensures !RunsTests(known, tokens, i, j)
    {
      if i < |tokens| - 1 && tokens[i] == BUN {
        StopsAtSubcommand(known, tokens, i, j);
      }
    }
  }

  /** The loop over the logical lines, for any way of reporting a line. */
  method DetectWith(known: set<string>, report: LogicalLine -> Violation, content: string)
    returns (violations: seq<Violation>)
    ensures violations == Reports(report, FlaggedLines(Flags(known), LogicalLines(RawLines(content))))
  {
    violations := [];
    var logical := JoinContinuations(RawLines(content));
    ghost var flags := Flags(known);
    var i := 0;
    while i < |logical|
      invariant 0 <= i <= |logical|
      invariant violations == Reports(report, FlaggedLines(flags, logical[..i]))
    {
      assert logical[..i + 1][..i] == logical[..i];
      var flagged := IsFlagged(known, logical[i].text);
      if flagged {
        ReportsSnoc(report, FlaggedLines(flags, logical[..i]), logical[i]);
        violations := violations + [report(logical[i])];
      }
      i := i + 1;
    }
    assert logical[..i] == logical;
  }

  /** `detectViolations` reports exactly the flagged logical lines. */
  method DetectViolations(file: string, content: string) returns (violations: seq<Violation>)
    ensures violations ==
            Reports(ReportIn(file), FlaggedLines(Flags(KNOWN_SUBCOMMANDS), LogicalLines(RawLines(content))))
  {
    violations := DetectWith(KNOWN_SUBCOMMANDS, ReportIn(file), content);
  }
}
