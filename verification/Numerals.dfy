/** Decimal numerals. */
module Numerals {

  function DigitOf(n: nat): char
    requires n < 10
  {
    "0123456789"[n]
  }

  /** The numeral of a number. */
  function Decimal(n: nat): (s: string)
    ensures s != []
  {
    if n < 10 then [DigitOf(n)] else Decimal(n / 10) + [DigitOf(n % 10)]
  }

  predicate DigitsOnly(text: string)
  {
    text != "" && forall i :: 0 <= i < |text| ==> '0' <= text[i] <= '9'
  }

  /** The number of a numeral. */
  function DecimalValue(digits: string): nat
    requires forall i :: 0 <= i < |digits| ==> '0' <= digits[i] <= '9'
  {
    if digits == "" then 0
    else 10 * DecimalValue(digits[..|digits| - 1]) + (digits[|digits| - 1] - '0') as int
  }

  lemma DigitIsDigit(n: nat)
    requires n < 10
    ensures '0' <= DigitOf(n) <= '9' && (DigitOf(n) - '0') as int == n
    ensures DigitOf(n) == '0' <==> n == 0
  {
  }

  lemma ValueOfNext(init: string, d: char)
    requires DigitsOnly(init) && '0' <= d <= '9'
    ensures DigitsOnly(init + [d])
    ensures DecimalValue(init + [d]) == 10 * DecimalValue(init) + (d - '0') as int
  {
    assert (init + [d])[..|init|] == init;
  }

  lemma ValueOfDigit(d: char)
    requires '0' <= d <= '9'
    ensures DigitsOnly([d]) && DecimalValue([d]) == (d - '0') as int
  {
    assert [d][..0] == "";
  }

  /** The numeral of a number consists of digits, begins with zero only when it is zero, and stands for
      the number. */
  lemma {:induction false} NumeralExactly(n: nat)
    ensures DigitsOnly(Decimal(n)) && DecimalValue(Decimal(n)) == n
    ensures Decimal(n)[0] == '0' <==> n == 0
  {
    DigitIsDigit(n % 10);
    if n < 10 {
      ValueOfDigit(DigitOf(n));
    } else {
      NumeralExactly(n / 10);
      ValueOfNext(Decimal(n / 10), DigitOf(n % 10));
    }
  }

  lemma NextDigit(n: nat, d: char, m: nat)
    requires n > 0 && '0' <= d <= '9' && m == 10 * n + (d - '0') as int
    ensures Decimal(m) == Decimal(n) + [d]
  {
    var x := (d - '0') as int;
    assert m / 10 == n && m % 10 == x;
    assert DigitOf(x) == d;
  }

  lemma NextNumeral(init: string, d: char)
    requires DigitsOnly(init) && DecimalValue(init) > 0 && '0' <= d <= '9' && Decimal(DecimalValue(init)) == init
    ensures DigitsOnly(init + [d]) && Decimal(DecimalValue(init + [d])) == init + [d]
  {
    ValueOfNext(init, d);
    NextDigit(DecimalValue(init), d, DecimalValue(init + [d]));
  }

  /** Every text of digits without a leading zero is the numeral of its number. */
  lemma {:induction false} ValueExactly(digits: string)
    requires DigitsOnly(digits) && (digits[0] == '0' ==> |digits| == 1)
    ensures Decimal(DecimalValue(digits)) == digits
  {
    if |digits| == 1 {
      assert digits == [digits[0]];
      ValueOfDigit(digits[0]);
      assert DigitOf((digits[0] - '0') as int) == digits[0];
    } else {
      var init := digits[..|digits| - 1];
      assert init[0] == digits[0] && digits == init + [digits[|digits| - 1]];
      ValueExactly(init);
      NumeralExactly(DecimalValue(init));
      NextNumeral(init, digits[|digits| - 1]);
    }
  }
}
