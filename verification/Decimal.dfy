/**
 Decimal numerals, as a template literal or `String(n)` prints a non-negative integer.
 The point of the module is that a numeral determines its number.
 */
module Decimal {

  type Digit = d: nat | d < 10

  /** The decimal digits of `n`, most significant first, without leading zeros. */
  function Digits(n: nat): (ds: seq<Digit>)
    ensures ds != []
    ensures n > 0 ==> ds[0] != 0
  {
    if n < 10 then [n] else Digits(n / 10) + [n % 10]
  }

  /** The number a digit sequence denotes. */
  function Value(ds: seq<Digit>): nat
  {
    if ds == [] then 0 else 10 * Value(ds[..|ds| - 1]) + ds[|ds| - 1]
  }

  lemma {:induction false} ValueOfDigits(n: nat)
    ensures Value(Digits(n)) == n
  {
    if n < 10 {
      assert Digits(n)[..0] == [];
    } else {
      ValueOfDigits(n / 10);
      var ds := Digits(n);
      assert ds[..|ds| - 1] == Digits(n / 10);
    }
  }

  lemma {:induction false} OneMoreDigit(n: nat, d: Digit)
    requires n > 0
    ensures Digits(10 * n + d) == Digits(n) + [d]
  {
    assert (10 * n + d) / 10 == n && (10 * n + d) % 10 == d;
  }

  /** Digits without leading zeros are those of the number they denote. */
  lemma {:induction false} DigitsOfValue(ds: seq<Digit>)
    requires ds != [] && (|ds| > 1 ==> ds[0] != 0)
    ensures Digits(Value(ds)) == ds && (ds[0] != 0 ==> Value(ds) > 0)
  {
    var front, last := ds[..|ds| - 1], ds[|ds| - 1];
    if |ds| == 1 {
      assert front == [] && ds == [last];
    } else {
      assert front[0] == ds[0];
      DigitsOfValue(front);
      OneMoreDigit(Value(front), last);
      assert ds == front + [last];
    }
  }

  lemma DigitsInjective(m: nat, n: nat)
    requires Digits(m) == Digits(n)
    ensures m == n
  {
    ValueOfDigits(m);
    ValueOfDigits(n);
  }

  function DigitChar(d: Digit): (c: char)
    ensures '0' <= c <= '9'
  {
    "0123456789"[d]
  }

  /** `String(n)` for a non-negative integer. */
  function Numeral(n: nat): (s: string)
    ensures s != []
    ensures forall i | 0 <= i < |s| :: '0' <= s[i] <= '9'
  {
    var ds := Digits(n);
    seq(|ds|, i requires 0 <= i < |ds| => DigitChar(ds[i]))
  }

  lemma DigitCharInjective(d: Digit, e: Digit)
    requires DigitChar(d) == DigitChar(e)
    ensures d == e
  {
    var table := "0123456789";
    assert forall i, j | 0 <= i < j < 10 :: table[i] != table[j];
  }

  lemma NumeralInjective(m: nat, n: nat)
    requires Numeral(m) == Numeral(n)
    ensures m == n
  {
    var ds, es := Digits(m), Digits(n);
    assert |Numeral(m)| == |ds| && |Numeral(n)| == |es|;
    forall i | 0 <= i < |ds|
      ensures ds[i] == es[i]
    {
      assert Numeral(m)[i] == DigitChar(ds[i]) && Numeral(n)[i] == DigitChar(es[i]);
      DigitCharInjective(ds[i], es[i]);
    }
    assert ds == es;
    DigitsInjective(m, n);
  }
}
