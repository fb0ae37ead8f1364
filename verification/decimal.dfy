/**
 Decimal text of integers, as JavaScript's `Number.prototype.toString()`
 renders an integral number of safe magnitude: an optional `-` followed by
 the digits, without leading zeros. `ParseInt` is the inverse reading, used
 to show that the rendering loses nothing.
 */
module Decimal {
  import opened Options

  predicate IsDigit(c: char) {
    '0' <= c <= '9'
  }

  predicate AllDigits(s: string) {
    forall i :: 0 <= i < |s| ==> IsDigit(s[i])
  }

  function DigitChar(d: nat): (c: char)
    requires d < 10
    ensures IsDigit(c)
  {
    ('0' as int + d) as char
  }

  function DigitValue(c: char): (d: nat)
    requires IsDigit(c)
    ensures d < 10
  {
    c as int - '0' as int
  }

  /** The digits of `n`, most significant first. */
  function NatToDecimal(n: nat): (s: string)
  {
    if n < 10 then [DigitChar(n)] else NatToDecimal(n / 10) + [DigitChar(n % 10)]
  }

  /** How a JavaScript integer prints: a minus sign, then the digits of its magnitude. */
  function IntToDecimal(n: int): (s: string)
  {
    if n < 0 then "-" + NatToDecimal(-n) else NatToDecimal(n)
  }

  /** The value of a run of digits, read most significant first. */
  function DigitsValue(s: string): (n: nat)
    requires AllDigits(s)
  {
    if s == [] then 0 else DigitsValue(s[..|s| - 1]) * 10 + DigitValue(s[|s| - 1])
  }

  /** Reads an optional minus sign followed by one or more digits. */
  function ParseInt(s: string): (r: Option<int>)
    ensures r.Some? ==> s != []
  {
    if s != [] && s[0] == '-' then
      var t := s[1..];
      if t != [] && AllDigits(t) then Some(0 - DigitsValue(t) as int) else None
    else if s != [] && AllDigits(s) then Some(DigitsValue(s))
    else None
  }

  /** The digits of a natural number are non-empty, all digits, free of
      leading zeros, and read back to the number. */
  lemma {:induction false} NatToDecimalRoundTrip(n: nat)
    ensures NatToDecimal(n) != []
    ensures AllDigits(NatToDecimal(n))
    ensures |NatToDecimal(n)| > 1 ==> NatToDecimal(n)[0] != '0'
    ensures DigitsValue(NatToDecimal(n)) == n
  {
    if n >= 10 {
      NatToDecimalRoundTrip(n / 10);
      var t := NatToDecimal(n / 10);
      var s := NatToDecimal(n);
      assert s == t + [DigitChar(n % 10)];
      assert s[..|s| - 1] == t;
      assert s[0] == t[0];
      if |t| == 1 {
        assert DigitsValue(t) == DigitValue(t[0]) by {
          assert t[..0] == [];
        }
        assert t[0] != '0';
      }
    }
  }

  /** Rendering an integer and reading it back yields the integer. */
  lemma IntToDecimalRoundTrip(n: int)
    ensures ParseInt(IntToDecimal(n)) == Some(n)
  {
    if n < 0 {
      NatToDecimalRoundTrip(-n);
      var s := IntToDecimal(n);
      assert s[0] == '-';
      assert s[1..] == NatToDecimal(-n);
    } else {
      NatToDecimalRoundTrip(n);
      assert IsDigit(NatToDecimal(n)[0]);
    }
  }

  /** Distinct integers print differently. */
  lemma IntToDecimalInjective(a: int, b: int)
    ensures IntToDecimal(a) == IntToDecimal(b) ==> a == b
  {
    IntToDecimalRoundTrip(a);
    IntToDecimalRoundTrip(b);
  }
}
