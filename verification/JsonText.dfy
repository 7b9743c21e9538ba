/**
 JSON values and the text JSON.stringify gives for their strings, numbers and
 literals, joined with the separators `stableJson` puts between them. Printed text can
 be read in one way only: a value's text followed by a separator determines the value
 and where it ends.
 */
module JsonText {
  import opened Wrappers
  import opened Decimal
  import opened JsonNumber

  const QUOTE: CodeUnit := 0x22
  const BACKSLASH: CodeUnit := 0x5C
  const COMMA: CodeUnit := 0x2C
  const COLON: CodeUnit := 0x3A
  const OPEN_BRACKET: CodeUnit := 0x5B
  const CLOSE_BRACKET: CodeUnit := 0x5D
  const OPEN_BRACE: CodeUnit := 0x7B
  const CLOSE_BRACE: CodeUnit := 0x7D
  const NULL: Text := [0x6E, 0x75, 0x6C, 0x6C]
  const TRUE: Text := [0x74, 0x72, 0x75, 0x65]
  const FALSE: Text := [0x66, 0x61, 0x6C, 0x73, 0x65]

  /** A value JSON.parse can return. An object keeps its members in property order. */
  datatype Json =
    | Null
    | Bool(b: bool)
    | Num(num: Number)
    | Str(s: Text)
    | Arr(items: seq<Json>)
    | Obj(members: seq<Member>)

  datatype Member = Member(key: Text, value: Json)

  ghost predicate DistinctKeys(ms: seq<Member>) {
    forall i, j | 0 <= i < j < |ms| :: ms[i].key != ms[j].key
  }

  // --- Property order: OrdinaryOwnPropertyKeys, section 10.1.11.1 of ECMA-262 ---

  /** Array indices are below this number. */
  const INDEX_LIMIT := 0xFFFF_FFFF

  function DigitIn(u: CodeUnit): Digit
    requires IsDigit(u)
  {
    u as int - 0x30
  }

  function DigitsIn(key: Text): (ds: seq<Digit>)
    requires forall i | 0 <= i < |key| :: IsDigit(key[i])
    ensures |ds| == |key| && forall i | 0 <= i < |ds| :: ds[i] == DigitIn(key[i])
  {
    if key == [] then [] else DigitsIn(key[..|key| - 1]) + [DigitIn(key[|key| - 1])]
  }

  /** The array index a key is, if it is one: digits without leading zeros, in range. */
  function IndexOf(key: Text): Option<nat> {
    if key == [] || (exists i | 0 <= i < |key| :: !IsDigit(key[i])) || (|key| > 1 && key[0] == 0x30) then None
    else
      var n := Value(DigitsIn(key));
      if n < INDEX_LIMIT then Some(n) else None
  }

  predicate IsIndex(key: Text) {
    IndexOf(key).Some?
  }

  lemma IndexHasNumeral(key: Text)
    requires IsIndex(key)
    ensures key == DigitText(Digits(IndexOf(key).value))
  {
    var ds := DigitsIn(key);
    DigitsOfValue(ds);
    var text := DigitText(ds);
    forall i | 0 <= i < |key|
      ensures text[i] == key[i]
    {
      assert ds[i] == DigitIn(key[i]);
    }
    assert text == key;
  }

  lemma NumeralIsIndex(n: nat)
    requires n < INDEX_LIMIT
    ensures IndexOf(DigitText(Digits(n))) == Some(n)
  {
    var ds := Digits(n);
    var key := DigitText(ds);
    assert n == 0 ==> ds == [0];
    assert key[0] == DigitUnit(ds[0]);
    assert DigitsIn(key) == ds;
    ValueOfDigits(n);
  }

  /** It is the number whose numeral the key is. */
  lemma IndexOfIff(key: Text, n: nat)
    ensures IndexOf(key) == Some(n) <==> n < INDEX_LIMIT && key == DigitText(Digits(n))
  {
    if IndexOf(key) == Some(n) {
      IndexHasNumeral(key);
    }
    if n < INDEX_LIMIT {
      NumeralIsIndex(n);
    }
  }

  /** A property with key `x` can come before one with key `y`: array indices come first, in
      ascending order. */
  predicate MayPrecede(x: Text, y: Text) {
    IndexOf(y).Some? ==> IndexOf(x).Some? && IndexOf(x).value < IndexOf(y).value
  }

  ghost predicate InPropertyOrder(ms: seq<Member>) {
    forall i, j | 0 <= i < j < |ms| :: MayPrecede(ms[i].key, ms[j].key)
  }

  /** An array index cannot come on both sides of another key. */
  lemma IndexOrderIsForced(x: Text, y: Text)
    ensures IsIndex(x) && MayPrecede(x, y) ==> !MayPrecede(y, x)
    ensures IsIndex(y) && MayPrecede(x, y) ==> IsIndex(x)
  {
  }

  /** What every JavaScript value of this shape satisfies: an object has each key once, and
      its array indices first. */
  ghost predicate Valid(v: Json) {
    match v
    case Num(x) => Shortest(x)
    case Arr(items) => forall i | 0 <= i < |items| :: Valid(items[i])
    case Obj(ms) => DistinctKeys(ms) && InPropertyOrder(ms) && forall i | 0 <= i < |ms| :: Valid(ms[i].value)
    case _ => true
  }

  // --- Strings: QuoteJSONString, section 25.5.2.3 of ECMA-262 ---

  predicate IsHigh(u: CodeUnit) { 0xD800 <= u < 0xDC00 }

  predicate IsLow(u: CodeUnit) { 0xDC00 <= u < 0xE000 }

  function HexUnit(d: nat): CodeUnit
    requires d < 16
  {
    if d < 10 then 0x30 + d else 0x57 + d
  }

  /** Four lower-case hexadecimal digits. */
  function HexDigits(u: CodeUnit): (t: Text)
    ensures |t| == 4
  {
    var u1 := u / 0x10;
    var u2 := u1 / 0x10;
    [HexUnit(u2 / 0x10), HexUnit(u2 % 0x10), HexUnit(u1 % 0x10), HexUnit(u % 0x10)]
  }

  /** The letter after the backslash, for the code units that have a short escape. */
  function ShortEscape(u: CodeUnit): CodeUnit {
    if u == 0x08 then 0x62
    else if u == 0x09 then 0x74
    else if u == 0x0A then 0x6E
    else if u == 0x0C then 0x66
    else if u == 0x0D then 0x72
    else u
  }

  predicate HasShortEscape(u: CodeUnit) {
    u == 0x08 || u == 0x09 || u == 0x0A || u == 0x0C || u == 0x0D || u == QUOTE || u == BACKSLASH
  }

  predicate NeedsUnicodeEscape(u: CodeUnit) {
    u < 0x20 || IsHigh(u) || IsLow(u)
  }

  /** One code unit that is not half of a surrogate pair. */
  function Escape(u: CodeUnit): Text {
    if HasShortEscape(u) then [BACKSLASH, ShortEscape(u)]
    else if NeedsUnicodeEscape(u) then
      [BACKSLASH, 0x75] + HexDigits(u)
    else [u]
  }

  predicate StartsPair(s: Text) {
    |s| >= 2 && IsHigh(s[0]) && IsLow(s[1])
  }

  function EscapeAll(s: Text): Text {
    if s == [] then []
    else if StartsPair(s) then s[..2] + EscapeAll(s[2..])
    else Escape(s[0]) + EscapeAll(s[1..])
  }

  function Quote(s: Text): Text {
    [QUOTE] + EscapeAll(s) + [QUOTE]
  }

  lemma HexDigitsInjective(u: CodeUnit, v: CodeUnit)
    requires HexDigits(u) == HexDigits(v)
    ensures u == v
  {
    var u1, v1 := u / 0x10, v / 0x10;
    var u2, v2 := u1 / 0x10, v1 / 0x10;
    assert HexDigits(u)[0] == HexDigits(v)[0] && HexDigits(u)[1] == HexDigits(v)[1];
    assert HexDigits(u)[2] == HexDigits(v)[2] && HexDigits(u)[3] == HexDigits(v)[3];
    assert u2 / 0x10 == v2 / 0x10 && u2 % 0x10 == v2 % 0x10;
    assert u1 % 0x10 == v1 % 0x10 && u % 0x10 == v % 0x10;
  }

  lemma Assoc(a: Text, b: Text, c: Text)
    ensures (a + b) + c == a + (b + c)
  {
  }

  /** What follows a list goes behind what follows its first element. */
  lemma AfterComma(head: Text, tail: Text, end: Text)
    ensures (head + ([COMMA] + tail)) + end == head + ([COMMA] + (tail + end))
  {
    Assoc(head, [COMMA] + tail, end);
    Assoc([COMMA], tail, end);
  }

  lemma Split(a: Text, b: Text)
    ensures (a + b)[..|a|] == a && (a + b)[|a|..] == b
  {
  }

  /** The escapes of single code units form a prefix code. */
  lemma EscapePrefixFree(u: CodeUnit, v: CodeUnit, r: Text, s: Text)
    requires Escape(u) + r == Escape(v) + s
    ensures u == v && r == s
  {
    var t := Escape(u) + r;
    Split(Escape(u), r);
    Split(Escape(v), s);
    assert t[0] == Escape(u)[0] == Escape(v)[0];
    if t[0] == BACKSLASH {
      assert t[1] == Escape(u)[1] == Escape(v)[1];
      if t[1] == 0x75 {
        assert t[2..6] == HexDigits(u) == HexDigits(v);
        HexDigitsInjective(u, v);
      }
    }
  }

  /** A raw surrogate or quote never begins the escape of a single unit. */
  lemma EscapeHead(u: CodeUnit)
    ensures Escape(u) != [] && Escape(u)[0] != QUOTE
    ensures !IsHigh(Escape(u)[0])
  {
  }

  /** The first unit of escaped text tells the three cases of `EscapeAll` apart. */
  lemma StringHead(s: Text, r: Text)
    requires r != [] && r[0] == QUOTE
    ensures var text := EscapeAll(s) + r;
            && (text[0] == QUOTE <==> s == [])
            && (IsHigh(text[0]) <==> StartsPair(s))
            && (StartsPair(s) ==> text == s[..2] + (EscapeAll(s[2..]) + r))
            && (s != [] && !StartsPair(s) ==> text == Escape(s[0]) + (EscapeAll(s[1..]) + r))
  {
    var text := EscapeAll(s) + r;
    if StartsPair(s) {
      Assoc(s[..2], EscapeAll(s[2..]), r);
    } else if s != [] {
      EscapeHead(s[0]);
      Assoc(Escape(s[0]), EscapeAll(s[1..]), r);
    }
  }

  /** The closing quote is found at one place only. */
  lemma {:induction false} ReadString(s: Text, t: Text, r1: Text, r2: Text)
    requires r1 != [] && r1[0] == QUOTE && r2 != [] && r2[0] == QUOTE
    requires EscapeAll(s) + r1 == EscapeAll(t) + r2
    ensures s == t && r1 == r2
    decreases |s|
  {
    StringHead(s, r1);
    StringHead(t, r2);
    if s == [] {
      assert EscapeAll(s) + r1 == r1 && EscapeAll(t) + r2 == r2;
    } else if StartsPair(s) {
      Split(s[..2], EscapeAll(s[2..]) + r1);
      Split(t[..2], EscapeAll(t[2..]) + r2);
      ReadString(s[2..], t[2..], r1, r2);
      Split(s[..2], s[2..]);
      assert s == s[..2] + s[2..] && t == t[..2] + t[2..];
    } else {
      EscapePrefixFree(s[0], t[0], EscapeAll(s[1..]) + r1, EscapeAll(t[1..]) + r2);
      ReadString(s[1..], t[1..], r1, r2);
      assert s == [s[0]] + s[1..] && t == [t[0]] + t[1..];
    }
  }

  // --- Values ---

  function Literal(v: Json): Text
    requires v.Null? || v.Bool?
  {
    if v.Null? then NULL else if v.b then TRUE else FALSE
  }

  /** The text of a value whose object members are printed in the order they have. */
  function Print(v: Json): Text
    requires Printable(v)
  {
    match v
    case Num(x) => NumberText(x)
    case Str(s) => Quote(s)
    case Arr(items) => [OPEN_BRACKET] + (PrintItems(items) + [CLOSE_BRACKET])
    case Obj(ms) => [OPEN_BRACE] + (PrintMembers(ms) + [CLOSE_BRACE])
    case _ => Literal(v)
  }

  function PrintItems(items: seq<Json>): Text
    requires forall i | 0 <= i < |items| :: Printable(items[i])
  {
    if items == [] then []
    else if |items| == 1 then Print(items[0])
    else Print(items[0]) + ([COMMA] + PrintItems(items[1..]))
  }

  function PrintMembers(ms: seq<Member>): Text
    requires forall i | 0 <= i < |ms| :: Printable(ms[i].value)
  {
    if ms == [] then []
    else if |ms| == 1 then PrintMember(ms[0])
    else PrintMember(ms[0]) + ([COMMA] + PrintMembers(ms[1..]))
  }

  function PrintMember(m: Member): Text
    requires Printable(m.value)
  {
    Quote(m.key) + ([COLON] + Print(m.value))
  }

  /** Every number inside is in shortest form. */
  predicate Printable(v: Json) {
    match v
    case Num(x) => Shortest(x)
    case Arr(items) => forall i | 0 <= i < |items| :: Printable(items[i])
    case Obj(ms) => forall i | 0 <= i < |ms| :: Printable(ms[i].value)
    case _ => true
  }

  /** What can follow a value: the end of the text or a separator. */
  ghost predicate Delimited(r: Text) {
    r == [] || r[0] == COMMA || r[0] == CLOSE_BRACKET || r[0] == CLOSE_BRACE
  }

  /** The first code unit of a value's text names its kind. */
  predicate StartsLike(v: Json, u: CodeUnit) {
    match v
    case Null => u == 0x6E
    case Bool(b) => u == if b then 0x74 else 0x66
    case Num(_) => u == MINUS || IsDigit(u)
    case Str(_) => u == QUOTE
    case Arr(_) => u == OPEN_BRACKET
    case Obj(_) => u == OPEN_BRACE
  }

  lemma PrintHead(v: Json)
    requires Printable(v)
    ensures Print(v) != [] && StartsLike(v, Print(v)[0])
  {
  }

  /** Number text stops where the first unit that numbers do not use stands. */
  lemma ReadNumber(x: Number, y: Number, r1: Text, r2: Text)
    requires Shortest(x) && Shortest(y)
    requires NumberText(x) + r1 == NumberText(y) + r2
    requires Delimited(r1) && Delimited(r2)
    ensures x == y && r1 == r2
  {
    var tx, ty := NumberText(x), NumberText(y);
    var text := tx + r1;
    assert forall i | 0 <= i < |tx| :: IsNumberUnit(text[i]);
    assert |tx| < |text| ==> text[|tx|] == r1[0] && !IsNumberUnit(text[|tx|]);
    assert forall i | 0 <= i < |ty| :: IsNumberUnit(text[i]);
    assert |ty| < |text| ==> text[|ty|] == r2[0] && !IsNumberUnit(text[|ty|]);
    assert tx == text[..|tx|] == ty && r1 == text[|tx|..] == r2;
    NumberTextInjective(x, y);
  }

  lemma ReadQuoted(s: Text, t: Text, r1: Text, r2: Text)
    requires Quote(s) + r1 == Quote(t) + r2
    ensures s == t && r1 == r2
  {
    assert (Quote(s) + r1)[1..] == EscapeAll(s) + ([QUOTE] + r1);
    assert (Quote(t) + r2)[1..] == EscapeAll(t) + ([QUOTE] + r2);
    ReadString(s, t, [QUOTE] + r1, [QUOTE] + r2);
    Split([QUOTE], r1);
    Split([QUOTE], r2);
  }

  lemma BracketText(open: CodeUnit, inner: Text, close: CodeUnit, r: Text)
    ensures (([open] + (inner + [close])) + r)[1..] == inner + ([close] + r)
  {
    Assoc([open], inner + [close], r);
    Assoc(inner, [close], r);
    Split([open], inner + ([close] + r));
  }

  /** Unique readability: text that starts with a delimited value starts with one value. */
  lemma {:induction false} ReadValue(v: Json, w: Json, r1: Text, r2: Text)
    requires Printable(v) && Printable(w)
    requires Print(v) + r1 == Print(w) + r2
    requires Delimited(r1) && Delimited(r2)
    ensures v == w && r1 == r2
    decreases v, 2
  {
    PrintHead(v);
    PrintHead(w);
    var text := Print(v) + r1;
    assert text[0] == Print(v)[0] == Print(w)[0];
    match v {
      case Num(x) => ReadNumber(x, w.num, r1, r2);
      case Str(s) => ReadQuoted(s, w.s, r1, r2);
      case Arr(items) =>
        BracketText(OPEN_BRACKET, PrintItems(items), CLOSE_BRACKET, r1);
        BracketText(OPEN_BRACKET, PrintItems(w.items), CLOSE_BRACKET, r2);
        ReadItems(items, w.items, r1, r2);
      case Obj(ms) =>
        BracketText(OPEN_BRACE, PrintMembers(ms), CLOSE_BRACE, r1);
        BracketText(OPEN_BRACE, PrintMembers(w.members), CLOSE_BRACE, r2);
        ReadMembers(ms, w.members, r1, r2);
      case _ =>
        Split(Print(v), r1);
        Split(Print(w), r2);
    }
  }

  /** What follows the first item of a non-empty list. */
  function AfterItem(items: seq<Json>, r: Text): Text
    requires items != []
    requires forall i | 0 <= i < |items| :: Printable(items[i])
  {
    if |items| == 1 then [CLOSE_BRACKET] + r
    else [COMMA] + (PrintItems(items[1..]) + ([CLOSE_BRACKET] + r))
  }

  lemma {:induction false} AfterItemHead(items: seq<Json>, r: Text)
    requires items != []
    requires forall i | 0 <= i < |items| :: Printable(items[i])
    ensures var text := AfterItem(items, r);
            && Delimited(text)
            && (text[0] == CLOSE_BRACKET <==> |items| == 1)
            && text[1..] == if |items| == 1 then r else PrintItems(items[1..]) + ([CLOSE_BRACKET] + r)
  {
    if |items| == 1 {
      Split([CLOSE_BRACKET], r);
    } else {
      Split([COMMA], PrintItems(items[1..]) + ([CLOSE_BRACKET] + r));
    }
  }

  lemma {:induction false} ItemsText(items: seq<Json>, r: Text)
    requires items != []
    requires forall i | 0 <= i < |items| :: Printable(items[i])
    ensures PrintItems(items) + ([CLOSE_BRACKET] + r) == Print(items[0]) + AfterItem(items, r)
  {
    if |items| > 1 {
      AfterComma(Print(items[0]), PrintItems(items[1..]), [CLOSE_BRACKET] + r);
    }
  }

  lemma {:induction false} ItemsHead(items: seq<Json>, r: Text)
    requires forall i | 0 <= i < |items| :: Printable(items[i])
    ensures var text := PrintItems(items) + ([CLOSE_BRACKET] + r);
            && (text[0] == CLOSE_BRACKET <==> items == [])
            && text == if items == [] then [CLOSE_BRACKET] + r else Print(items[0]) + AfterItem(items, r)
  {
    var text := PrintItems(items) + ([CLOSE_BRACKET] + r);
    if items != [] {
      PrintHead(items[0]);
      ItemsText(items, r);
      assert text[0] == Print(items[0])[0];
    }
  }

  lemma {:induction false} ReadItems(vs: seq<Json>, ws: seq<Json>, r1: Text, r2: Text)
    requires forall i | 0 <= i < |vs| :: Printable(vs[i])
    requires forall i | 0 <= i < |ws| :: Printable(ws[i])
    requires PrintItems(vs) + ([CLOSE_BRACKET] + r1) == PrintItems(ws) + ([CLOSE_BRACKET] + r2)
    ensures vs == ws && r1 == r2
    decreases vs, 1
  {
    ItemsHead(vs, r1);
    ItemsHead(ws, r2);
    if vs == [] {
      Split([CLOSE_BRACKET], r1);
      Split([CLOSE_BRACKET], r2);
    } else {
      var a1, a2 := AfterItem(vs, r1), AfterItem(ws, r2);
      AfterItemHead(vs, r1);
      AfterItemHead(ws, r2);
      ReadValue(vs[0], ws[0], a1, a2);
      if |vs| > 1 {
        ReadItems(vs[1..], ws[1..], r1, r2);
      }
      HeadAndTail(vs, ws);
    }
  }

  function AfterMember(ms: seq<Member>, r: Text): Text
    requires ms != []
    requires forall i | 0 <= i < |ms| :: Printable(ms[i].value)
  {
    if |ms| == 1 then [CLOSE_BRACE] + r
    else [COMMA] + (PrintMembers(ms[1..]) + ([CLOSE_BRACE] + r))
  }

  lemma {:induction false} AfterMemberHead(ms: seq<Member>, r: Text)
    requires ms != []
    requires forall i | 0 <= i < |ms| :: Printable(ms[i].value)
    ensures var text := AfterMember(ms, r);
            && Delimited(text)
            && (text[0] == CLOSE_BRACE <==> |ms| == 1)
            && text[1..] == if |ms| == 1 then r else PrintMembers(ms[1..]) + ([CLOSE_BRACE] + r)
  {
    if |ms| == 1 {
      Split([CLOSE_BRACE], r);
    } else {
      Split([COMMA], PrintMembers(ms[1..]) + ([CLOSE_BRACE] + r));
    }
  }

  lemma {:induction false} MembersText(ms: seq<Member>, r: Text)
    requires ms != []
    requires forall i | 0 <= i < |ms| :: Printable(ms[i].value)
    ensures PrintMembers(ms) + ([CLOSE_BRACE] + r) == PrintMember(ms[0]) + AfterMember(ms, r)
  {
    if |ms| > 1 {
      AfterComma(PrintMember(ms[0]), PrintMembers(ms[1..]), [CLOSE_BRACE] + r);
    }
  }

  lemma {:induction false} MembersHead(ms: seq<Member>, r: Text)
    requires forall i | 0 <= i < |ms| :: Printable(ms[i].value)
    ensures var text := PrintMembers(ms) + ([CLOSE_BRACE] + r);
            && (text[0] == CLOSE_BRACE <==> ms == [])
            && text == if ms == [] then [CLOSE_BRACE] + r
                       else Quote(ms[0].key) + ([COLON] + (Print(ms[0].value) + AfterMember(ms, r)))
  {
    var text := PrintMembers(ms) + ([CLOSE_BRACE] + r);
    if ms != [] {
      var key, colonValue := Quote(ms[0].key), [COLON] + Print(ms[0].value);
      MembersText(ms, r);
      Assoc(key, colonValue, AfterMember(ms, r));
      Assoc([COLON], Print(ms[0].value), AfterMember(ms, r));
      assert text[0] == key[0];
    }
  }

  lemma ReadKey(s: Text, t: Text, r1: Text, r2: Text)
    requires Quote(s) + ([COLON] + r1) == Quote(t) + ([COLON] + r2)
    ensures s == t && r1 == r2
  {
    ReadQuoted(s, t, [COLON] + r1, [COLON] + r2);
    Split([COLON], r1);
    Split([COLON], r2);
  }

  lemma HeadAndTail<T>(s: seq<T>, t: seq<T>)
    requires s != [] && t != [] && s[0] == t[0] && s[1..] == t[1..]
    ensures s == t
  {
    assert s == [s[0]] + s[1..] && t == [t[0]] + t[1..];
  }

  lemma {:induction false} ReadMembers(vs: seq<Member>, ws: seq<Member>, r1: Text, r2: Text)
    requires forall i | 0 <= i < |vs| :: Printable(vs[i].value)
    requires forall i | 0 <= i < |ws| :: Printable(ws[i].value)
    requires PrintMembers(vs) + ([CLOSE_BRACE] + r1) == PrintMembers(ws) + ([CLOSE_BRACE] + r2)
    ensures vs == ws && r1 == r2
    decreases vs, 1
  {
    MembersHead(vs, r1);
    MembersHead(ws, r2);
    if vs == [] {
      Split([CLOSE_BRACE], r1);
      Split([CLOSE_BRACE], r2);
    } else {
      var a1, a2 := AfterMember(vs, r1), AfterMember(ws, r2);
      ReadKey(vs[0].key, ws[0].key, Print(vs[0].value) + a1, Print(ws[0].value) + a2);
      AfterMemberHead(vs, r1);
      AfterMemberHead(ws, r2);
      ReadValue(vs[0].value, ws[0].value, a1, a2);
      assert vs[0] == ws[0];
      if |vs| > 1 {
        ReadMembers(vs[1..], ws[1..], r1, r2);
      }
      HeadAndTail(vs, ws);
    }
  }

  /** Distinct values have distinct texts. */
  lemma PrintInjective(v: Json, w: Json)
    requires Printable(v) && Printable(w)
    requires Print(v) == Print(w)
    ensures v == w
  {
    assert Print(v) + [] == Print(w) + [];
    ReadValue(v, w, [], []);
  }
}
