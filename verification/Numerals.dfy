/** Numbers as they are written: the decimal numeral of a number, with zeros in front of it or without. The
    readers of numbers (app/backend/src/bart/emitter.ts, assembly.ts) are held to it. */
module Numerals {
  import opened Lex
  import opened Munch
  import opened Emitter

  const DIGITS := "0123456789"

  /** The decimal numeral of `n`. */
  function Decimal(n: nat): string {
    if n < 10 then [DIGITS[n]] else Decimal(n / 10) + [DIGITS[n % 10]]
  }

  function Zeros(k: nat): string { seq(k, _ => '0') }

  /** A numeral of `n`: `k` zeros, then its decimal one. */
  function Padded(k: nat, n: nat): string { Zeros(k) + Decimal(n) }

  lemma DigitIs(d: nat)
    requires d < 10
    ensures DIGITS[d] as int - '0' as int == d && IsDigit(DIGITS[d])
  {
    if d < 5 {
      assert d == 0 || d == 1 || d == 2 || d == 3 || d == 4;
    } else {
      assert d == 5 || d == 6 || d == 7 || d == 8 || d == 9;
    }
  }

  lemma ValueMore(digits: string, c: char)
    requires (IsWhole(digits) || digits == "") && IsDigit(c)
    ensures IsWhole(digits + [c]) && DigitsValue(digits + [c]) == DigitsValue(digits) * 10 + (c as int - '0' as int)
  {
    assert (digits + [c])[..|digits|] == digits;
  }

  lemma {:induction false} ZerosValue(k: nat)
    ensures (IsWhole(Zeros(k)) || Zeros(k) == "") && DigitsValue(Zeros(k)) == 0
  {
    if k == 0 {
    } else {
      ZerosValue(k - 1);
      ValueMore(Zeros(k - 1), '0');
      assert Zeros(k) == Zeros(k - 1) + ['0'];
    }
  }

  /** Reading a numeral of `n` gives `n`. */
  lemma {:induction false} ValueOfPadded(k: nat, n: nat)
    ensures IsWhole(Padded(k, n)) && DigitsValue(Padded(k, n)) == n
    decreases n
  {
    hide DigitsValue;
    DigitIs(n % 10);
    if n < 10 {
      ZerosValue(k);
      ValueMore(Zeros(k), DIGITS[n]);
      assert Padded(k, n) == Zeros(k) + [DIGITS[n]];
    } else {
      ValueOfPadded(k, n / 10);
      ValueMore(Padded(k, n / 10), DIGITS[n % 10]);
      assert Padded(k, n) == Padded(k, n / 10) + [DIGITS[n % 10]];
    }
  }

  lemma DecimalMore(m: nat, d: nat)
    requires d < 10
    ensures Decimal(m * 10 + d) == if m == 0 then [DIGITS[d]] else Decimal(m) + [DIGITS[d]]
  {
    assert m > 0 ==> m * 10 + d >= 10;
    assert (m * 10 + d) / 10 == m && (m * 10 + d) % 10 == d;
  }

  lemma ZeroMore(k: nat)
    ensures Zeros(k + 1) == Padded(k, 0)
  {
  }

  lemma WholeParts(digits: string)
    requires IsWhole(digits)
    ensures var front, last := digits[..|digits| - 1], digits[|digits| - 1];
            digits == front + [last] && IsDigit(last) && (front == "" || IsWhole(front))
  {
    var front, last := digits[..|digits| - 1], digits[|digits| - 1];
    assert last in digits && forall c :: c in front ==> c in digits;
  }

  /** Every text of digits is a numeral of the number it is read as. */
  lemma {:induction false} PaddedOf(digits: string) returns (k: nat)
    requires IsWhole(digits)
    ensures digits == Padded(k, DigitsValue(digits))
    decreases |digits|
  {
    hide IsWhole, DigitsValue, Decimal, Zeros;
    WholeParts(digits);
    var front, last := digits[..|digits| - 1], digits[|digits| - 1];
    LastDigit(last);
    ValueMore(front, last);
    var m := if front == "" then 0 else DigitsValue(front);
    NoDigits();
    DecimalMore(m, last as int - '0' as int);
    if front == "" {
      k := 0;
      assert Padded(0, DigitsValue(digits)) == Zeros(0) + Decimal(DigitsValue(digits));
    } else {
      k := PaddedOf(front);
      ZeroMore(k);
      if m == 0 {
        k := k + 1;
        assert digits == Zeros(k) + [last];
      } else {
        assert digits == Zeros(k) + (Decimal(m) + [last]);
      }
    }
  }

  lemma NoDigits()
    ensures DigitsValue("") == 0 && Zeros(0) == ""
  {
  }

  lemma LastDigit(c: char)
    requires IsDigit(c)
    ensures 0 <= c as int - '0' as int < 10 && DIGITS[c as int - '0' as int] == c
  {
    DigitIs(c as int - '0' as int);
  }

  /** A whole number, whatever its sign, is written in a policy just up to 2^53 - 1. */
  lemma WritableWhole(k: nat, n: nat)
    ensures IsWritableNumber(Padded(k, n)) <==> n <= 9007199254740991
    ensures IsWritableNumber("-" + Padded(k, n)) <==> n <= 9007199254740991
  {
    hide DigitsValue;
    ValueOfPadded(k, n);
    var text := Padded(k, n);
    assert text[0] in text;
    assert Unsigned(text) == text && Unsigned("-" + text) == text;
  }
}
