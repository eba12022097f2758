/** Decimal numerals and the numbers they stand for. */
module Numerals {

  function DecimalChar(d: int): (c: char)
    requires 0 <= d < 10
    ensures '0' <= c <= '9' && c as int - '0' as int == d && (c == '0' <==> d == 0)
  {
    ('0' as int + d) as char
  }

  function ToDecimal(n: nat): (s: string)
    ensures s != []
  {
    if n < 10 then [DecimalChar(n)] else ToDecimal(n / 10) + [DecimalChar(n % 10)]
  }

  /** The number a string of decimal digits stands for. */
  function DecimalValue(s: string): int {
    if s == [] then 0 else 10 * DecimalValue(s[..|s| - 1]) + (s[|s| - 1] as int - '0' as int)
  }

  /** A decimal numeral without superfluous zeros. */
  predicate IsNumeral(s: string) {
    && s != [] && (forall i :: 0 <= i < |s| ==> '0' <= s[i] <= '9')
    && (s[0] == '0' ==> |s| == 1)
  }

  lemma {:induction false} DecimalRoundTrip(n: nat)
    ensures IsNumeral(ToDecimal(n)) && DecimalValue(ToDecimal(n)) == n
    ensures n > 0 ==> ToDecimal(n)[0] != '0'
  {
    var s := ToDecimal(n);
    if n < 10 {
      assert s[..0] == [];
    } else {
      DecimalRoundTrip(n / 10);
      assert s[..|s| - 1] == ToDecimal(n / 10);
    }
  }

  /** One more digit at the end. */
  lemma {:induction false} NextDigit(q: nat, d: nat)
    requires q > 0 && d < 10
    ensures ToDecimal(10 * q + d) == ToDecimal(q) + [DecimalChar(d)]
  {
    assert (10 * q + d) / 10 == q && (10 * q + d) % 10 == d;
  }

  /** Numerals without superfluous zeros are the printed form of their value. */
  lemma {:induction false} NumeralRoundTrip(s: string)
    requires IsNumeral(s)
    ensures DecimalValue(s) >= 0 && ToDecimal(DecimalValue(s)) == s
    ensures s[0] != '0' ==> DecimalValue(s) > 0
  {
    var n := |s| - 1;
    var last := s[n] as int - '0' as int;
    if n == 0 {
      assert s[..0] == [];
      assert DecimalValue(s) == last;
    } else {
      NumeralRoundTrip(s[..n]);
      assert DecimalValue(s) == 10 * DecimalValue(s[..n]) + last;
      hide ToDecimal, DecimalValue;
      NextDigit(DecimalValue(s[..n]), last);
      assert s == s[..n] + [s[n]] && s[n] == DecimalChar(last);
    }
  }

  /** Base ten, most significant digit first. */
  lemma {:induction false} DecimalExample()
    ensures ToDecimal(1903) == "1903" && DecimalValue("1903") == 1903
  {
    assert ToDecimal(1) == "1" && ToDecimal(19) == "19" && ToDecimal(190) == "190";
    NumeralRoundTrip("1903");
    DecimalRoundTrip(1903);
  }
}
