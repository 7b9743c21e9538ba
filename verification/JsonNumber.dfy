/**
 How JSON.stringify prints a finite number: Number::toString with radix 10
 (section 6.1.6.1.20 of ECMA-262). A finite number other than zero is its sign, the
 shortest digit sequence that reads back to it and the position of the decimal point;
 both zeros print as `0`. The text determines the number.
 */
module JsonNumber {
  import opened Decimal

  /** A UTF-16 code unit; JavaScript strings are sequences of them. */
  type CodeUnit = u: nat | u < 0x1_0000
  type Text = seq<CodeUnit>

  const DOT: CodeUnit := 0x2E
  const MINUS: CodeUnit := 0x2D
  const PLUS: CodeUnit := 0x2B
  const LOWER_E: CodeUnit := 0x65

  /** `NonZero(neg, ds, n)` is 0.ds times ten to the power n, negated when `neg`. */
  datatype Number = Zero | NonZero(negative: bool, digits: seq<Digit>, point: int)

  /** The digit sequence is as short as possible: it neither starts nor ends with zero. */
  predicate Shortest(x: Number) {
    x.NonZero? ==> x.digits != [] && x.digits[0] != 0 && x.digits[|x.digits| - 1] != 0
  }

  predicate IsDigit(u: CodeUnit) {
    0x30 <= u <= 0x39
  }

  predicate IsNumberUnit(u: CodeUnit) {
    IsDigit(u) || u == DOT || u == MINUS || u == PLUS || u == LOWER_E
  }

  function DigitUnit(d: Digit): (u: CodeUnit)
    ensures IsDigit(u) && u as int == 0x30 + d as int
  {
    0x30 + d as int
  }

  function DigitText(ds: seq<Digit>): (t: Text)
    ensures |t| == |ds|
    ensures forall i | 0 <= i < |t| :: IsDigit(t[i]) && t[i] == DigitUnit(ds[i])
  {
    seq(|ds|, i requires 0 <= i < |ds| => DigitUnit(ds[i]))
  }

  function Zeros(n: nat): (ds: seq<Digit>)
    ensures |ds| == n
    ensures forall i | 0 <= i < n :: ds[i] == 0
  {
    seq(n, _ => 0)
  }

  /** The pieces of a printed number: integer part, fraction, exponent. An absent
      fraction or exponent is the empty sequence. */
  datatype Parts = Parts(whole: seq<Digit>, fraction: seq<Digit>, exponentPositive: bool, exponent: seq<Digit>)

  /** Step 6: plain notation, for exponents from -5 to 21. */
  function PlainParts(ds: seq<Digit>, n: int): (p: Parts)
    requires ds != []
    ensures p.whole != [] && p.exponent == [] && p.exponentPositive
  {
    if n >= |ds| then Parts(ds + Zeros(n - |ds|), [], true, [])
    else if n > 0 then Parts(ds[..n], ds[n..], true, [])
    else Parts([0], Zeros(-n) + ds, true, [])
  }

  /** Steps 7 to 12: exponent notation. */
  function ScientificParts(ds: seq<Digit>, n: int): (p: Parts)
    requires ds != []
    ensures p.whole != [] && p.exponent != []
  {
    if n > 0 then Parts(ds[..1], ds[1..], true, Digits(n - 1))
    else Parts(ds[..1], ds[1..], false, Digits(1 - n))
  }

  function PartsOf(x: Number): (p: Parts)
    requires Shortest(x)
    ensures p.whole != []
    ensures p.exponent == [] ==> p.exponentPositive
  {
    match x
    case Zero => Parts([0], [], true, [])
    case NonZero(_, ds, n) => if -5 <= n <= 21 then PlainParts(ds, n) else ScientificParts(ds, n)
  }

  function FractionText(p: Parts): Text {
    if p.fraction == [] then [] else [DOT] + DigitText(p.fraction)
  }

  function ExponentText(p: Parts): Text {
    if p.exponent == [] then []
    else [LOWER_E, if p.exponentPositive then PLUS else MINUS] + DigitText(p.exponent)
  }

  function Unsigned(p: Parts): (t: Text)
    requires p.whole != []
    ensures t != [] && IsDigit(t[0])
    ensures forall i | 0 <= i < |t| :: IsNumberUnit(t[i])
  {
    DigitText(p.whole) + (FractionText(p) + ExponentText(p))
  }

  function Signed(negative: bool, body: Text): Text {
    if negative then [MINUS] + body else body
  }

  predicate Negative(x: Number) {
    x.NonZero? && x.negative
  }

  function NumberText(x: Number): (t: Text)
    requires Shortest(x)
    ensures t != []
    ensures t[0] == MINUS || IsDigit(t[0])
    ensures forall i | 0 <= i < |t| :: IsNumberUnit(t[i])
  {
    Signed(Negative(x), Unsigned(PartsOf(x)))
  }

  ghost predicate EndsDigits(t: Text) {
    t == [] || !IsDigit(t[0])
  }

  lemma DigitsThen(ds: seq<Digit>, r: Text)
    requires EndsDigits(r)
    ensures var t := DigitText(ds) + r;
            && (forall i | 0 <= i < |ds| :: t[i] == DigitUnit(ds[i]))
            && (|ds| < |t| ==> !IsDigit(t[|ds|]))
            && t[|ds|..] == r
  {
  }

  /** Where digits end is determined by the text. */
  lemma SpanDigits(ds: seq<Digit>, es: seq<Digit>, r: Text, s: Text)
    requires DigitText(ds) + r == DigitText(es) + s
    requires EndsDigits(r) && EndsDigits(s)
    ensures ds == es && r == s
  {
    DigitsThen(ds, r);
    DigitsThen(es, s);
  }

  /** What follows the integer part starts with a dot exactly when there is a fraction. */
  lemma FractionHead(p: Parts)
    ensures var t := FractionText(p) + ExponentText(p);
            && EndsDigits(t) && EndsDigits(ExponentText(p))
            && ((t != [] && t[0] == DOT) <==> p.fraction != [])
            && (if p.fraction == [] then t == ExponentText(p) else t[1..] == DigitText(p.fraction) + ExponentText(p))
  {
    var e := ExponentText(p);
    assert EndsDigits(e) && (e != [] ==> e[0] == LOWER_E);
    if p.fraction == [] {
      assert FractionText(p) + e == e;
    } else {
      DotThen(DigitText(p.fraction), e);
    }
  }

  lemma DotThen(digits: Text, rest: Text)
    ensures var t := [DOT] + digits + rest; t[0] == DOT && t[1..] == digits + rest
  {
  }

  lemma UnsignedInjective(p: Parts, q: Parts)
    requires p.whole != [] && q.whole != []
    requires Unsigned(p) == Unsigned(q)
    requires p.exponent == [] ==> p.exponentPositive
    requires q.exponent == [] ==> q.exponentPositive
    ensures p == q
  {
    FractionHead(p);
    FractionHead(q);
    SpanDigits(p.whole, q.whole, FractionText(p) + ExponentText(p), FractionText(q) + ExponentText(q));
    if p.fraction != [] {
      SpanDigits(p.fraction, q.fraction, ExponentText(p), ExponentText(q));
    }
    ExponentInjective(p, q);
  }

  lemma ExponentInjective(p: Parts, q: Parts)
    requires ExponentText(p) == ExponentText(q)
    requires p.exponent == [] ==> p.exponentPositive
    requires q.exponent == [] ==> q.exponentPositive
    ensures p.exponent == q.exponent && p.exponentPositive == q.exponentPositive
  {
    if p.exponent != [] {
      assert ExponentText(p)[1] == ExponentText(q)[1];
      assert ExponentText(p)[2..] == DigitText(p.exponent);
      assert ExponentText(q)[2..] == DigitText(q.exponent);
      assert DigitText(p.exponent) + [] == DigitText(q.exponent) + [];
      SpanDigits(p.exponent, q.exponent, [], []);
    }
  }

  lemma ZerosAfter(ds: seq<Digit>, n: nat)
    ensures forall i | |ds| <= i < |ds| + n :: (ds + Zeros(n))[i] == 0
    ensures (ds + Zeros(n))[..|ds|] == ds
  {
  }

  lemma ZerosBefore(ds: seq<Digit>, n: nat)
    ensures forall i | 0 <= i < n :: (Zeros(n) + ds)[i] == 0
    ensures (Zeros(n) + ds)[n..] == ds
  {
  }

  /** Digits followed by padding zeros determine the digits, when the last is not zero. */
  lemma PaddedRight(ds: seq<Digit>, es: seq<Digit>, m: nat, n: nat)
    requires ds != [] && es != [] && ds[|ds| - 1] != 0 && es[|es| - 1] != 0
    requires ds + Zeros(m) == es + Zeros(n)
    ensures ds == es && m == n
  {
    var t := ds + Zeros(m);
    ZerosAfter(ds, m);
    ZerosAfter(es, n);
    assert t[|ds| - 1] == ds[|ds| - 1] && t[|es| - 1] == es[|es| - 1];
  }

  /** Padding zeros followed by digits determine the digits, when the first is not zero. */
  lemma PaddedLeft(ds: seq<Digit>, es: seq<Digit>, m: nat, n: nat)
    requires ds != [] && es != [] && ds[0] != 0 && es[0] != 0
    requires Zeros(m) + ds == Zeros(n) + es
    ensures ds == es && m == n
  {
    var t := Zeros(m) + ds;
    ZerosBefore(ds, m);
    ZerosBefore(es, n);
    assert t[m] == ds[0] && t[n] == es[0];
  }

  lemma PlainInjective(ds: seq<Digit>, m: int, es: seq<Digit>, n: int)
    requires ds != [] && ds[0] != 0 && ds[|ds| - 1] != 0
    requires es != [] && es[0] != 0 && es[|es| - 1] != 0
    requires PlainParts(ds, m) == PlainParts(es, n)
    ensures ds == es && m == n
  {
    var p := PlainParts(ds, m);
    if p.fraction == [] {
      PaddedRight(ds, es, m - |ds|, n - |es|);
    } else if p.whole[0] == 0 {
      PaddedLeft(ds, es, -m, -n);
    } else {
      assert ds == ds[..m] + ds[m..] && es == es[..n] + es[n..];
    }
  }

  lemma ScientificInjective(ds: seq<Digit>, m: int, es: seq<Digit>, n: int)
    requires ds != [] && es != []
    requires ScientificParts(ds, m) == ScientificParts(es, n)
    ensures ds == es && m == n
  {
    assert ds == ds[..1] + ds[1..] && es == es[..1] + es[1..];
    if m > 0 {
      DigitsInjective(m - 1, n - 1);
    } else {
      DigitsInjective(1 - m, 1 - n);
    }
  }

  lemma OnlyZeroPrintsAsZero(x: Number)
    requires Shortest(x) && x.NonZero?
    ensures PartsOf(x) != PartsOf(Zero)
  {
    var p := PartsOf(x);
    if p.fraction == [] {
      assert p.whole[0] == x.digits[0] != 0;
    }
  }

  lemma SignIsLegible(m: bool, n: bool, s: Text, t: Text)
    requires s != [] && t != [] && IsDigit(s[0]) && IsDigit(t[0])
    requires Signed(m, s) == Signed(n, t)
    ensures m == n && s == t
  {
    assert m ==> s == Signed(m, s)[1..];
    assert n ==> t == Signed(n, t)[1..];
  }

  /** Distinct finite numbers print differently. */
  lemma NumberTextInjective(x: Number, y: Number)
    requires Shortest(x) && Shortest(y)
    requires NumberText(x) == NumberText(y)
    ensures x == y
  {
    SignIsLegible(Negative(x), Negative(y), Unsigned(PartsOf(x)), Unsigned(PartsOf(y)));
    UnsignedInjective(PartsOf(x), PartsOf(y));
    if x.NonZero? && y.NonZero? {
      if PartsOf(x).exponent == [] {
        PlainInjective(x.digits, x.point, y.digits, y.point);
      } else {
        ScientificInjective(x.digits, x.point, y.digits, y.point);
      }
    } else if x.NonZero? {
      OnlyZeroPrintsAsZero(x);
    } else if y.NonZero? {
      OnlyZeroPrintsAsZero(y);
    }
  }
}
