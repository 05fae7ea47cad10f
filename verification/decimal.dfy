/** How the legend turns an integer depth limit into text: JavaScript's
    number-to-string conversion, restricted to integers (an optional minus
    sign, then decimal digits without leading zeros). A parser is given beside
    it so that the conversion can be shown to lose nothing. */
module Decimal {

  datatype Option<T> = None | Some(value: T)

  predicate IsDigit(c: char) {
    '0' <= c <= '9'
  }

  predicate AllDigits(s: string) {
    forall i :: 0 <= i < |s| ==> IsDigit(s[i])
  }

  function DigitChar(d: nat): (c: char)
    requires d < 10
    ensures IsDigit(c) && c as int - '0' as int == d
  {
    ('0' as int + d) as char
  }

  function DigitValue(c: char): (d: nat)
    requires IsDigit(c)
    ensures d < 10 && DigitChar(d) == c
  {
    c as int - '0' as int
  }

  /** The decimal digits of a natural number, most significant first. */
  function NatToDecimal(n: nat): (s: string)
    ensures |s| >= 1 && AllDigits(s)
    ensures s[0] == '0' <==> n == 0
  {
    if n < 10 then [DigitChar(n)]
    else NatToDecimal(n / 10) + [DigitChar(n % 10)]
  }

  /** A number is written with a single digit exactly when it is below 10. */
  lemma NatToDecimalSingleDigit(n: nat)
    ensures |NatToDecimal(n)| == 1 <==> n < 10
  {
    if n >= 10 {
      assert |NatToDecimal(n)| == |NatToDecimal(n / 10)| + 1;
    }
  }

  /** The number a string of digits denotes. */
  function DigitsValue(s: string): nat
    requires AllDigits(s)
  {
    if s == [] then 0
    else DigitsValue(s[..|s| - 1]) * 10 + DigitValue(s[|s| - 1])
  }

  /** An integer as JavaScript writes it when it is concatenated to a string,
      for |n| <= 2^53. JavaScript numbers are doubles: above 2^53 it writes the
      shortest digits that pick out the stored double and pads them with zeros
      (2^60 becomes "1152921504606847000"), and from 10^21 on it switches to
      exponent form ("1e+21"). This function writes the exact digits. */
  function IntToDecimal(n: int): (s: string)
    ensures |s| >= 1
    ensures s[0] == '-' <==> n < 0
    ensures n < 0 ==> AllDigits(s[1..])
    ensures 0 <= n ==> AllDigits(s)
    ensures n > 0 ==> s[0] != '0'
    ensures n < 0 ==> |s| >= 2 && s[1] != '0'
  {
    if n < 0 then "-" + NatToDecimal(-n) else NatToDecimal(n)
  }

  /** Reads back an optional minus sign followed by at least one digit. */
  function ParseInt(s: string): (r: Option<int>)
    ensures r.Some? ==> |s| >= 1
  {
    if |s| >= 2 && s[0] == '-' && AllDigits(s[1..]) then Some(-(DigitsValue(s[1..]) as int))
    else if |s| >= 1 && AllDigits(s) then Some(DigitsValue(s))
    else None
  }

  lemma {:induction false} NatToDecimalRoundTrip(n: nat)
    ensures DigitsValue(NatToDecimal(n)) == n
  {
    var s := NatToDecimal(n);
    if n >= 10 {
      NatToDecimalRoundTrip(n / 10);
      assert s[..|s| - 1] == NatToDecimal(n / 10);
    }
  }

  /** The text of an integer reads back as that integer. */
  lemma IntToDecimalRoundTrip(n: int)
    ensures ParseInt(IntToDecimal(n)) == Some(n)
  {
    var s := IntToDecimal(n);
    if n < 0 {
      var t := NatToDecimal(-n);
      assert s == "-" + t;
      assert s[1..] == t;
      assert |s| >= 2 && s[0] == '-' && AllDigits(s[1..]);
      NatToDecimalRoundTrip(-n);
      assert DigitsValue(s[1..]) == -n;
    } else {
      var t := NatToDecimal(n);
      assert s == t && s[0] != '-';
      NatToDecimalRoundTrip(n);
      assert ParseInt(s) == Some(DigitsValue(t));
    }
  }

  /** The text of an integer is made of a sign and digits only. */
  lemma IntToDecimalCharacters(n: int)
    ensures forall i :: 0 <= i < |IntToDecimal(n)| ==>
              IsDigit(IntToDecimal(n)[i]) || (i == 0 && IntToDecimal(n)[i] == '-')
  {
  }

  lemma SmallIntegers()
    ensures IntToDecimal(-10) == "-10"
    ensures IntToDecimal(10) == "10"
    ensures IntToDecimal(90) == "90"
  {
    assert NatToDecimal(10) == NatToDecimal(1) + ['0'];
    assert NatToDecimal(90) == NatToDecimal(9) + ['0'];
  }
}
