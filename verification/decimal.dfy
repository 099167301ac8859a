/**
  Decimal text of integers: the string JavaScript produces when a context
  value that is an integral number of magnitude at most 2^53 is interpolated
  into a template string.
 */
module Decimal {

  predicate IsDigit(c: char)
  {
    '0' <= c <= '9'
  }

  predicate IsDigits(s: string)
  {
    forall i | 0 <= i < |s| :: IsDigit(s[i])
  }

  /** Digit strings without superfluous leading zeros, as JavaScript prints them. */
  predicate Canonical(s: string)
  {
    |s| > 0 && IsDigits(s) && (s[0] == '0' ==> |s| == 1)
  }

  function DigitChar(d: nat): (c: char)
    requires d < 10
    ensures IsDigit(c)
  {
    ('0' as int + d) as char
  }

  function DigitValue(c: char): (d: nat)
    requires IsDigit(c)
    ensures d < 10 && DigitChar(d) == c
  {
    c as int - '0' as int
  }

  /** The decimal digits of `n`, most significant first. */
  function NatToDecimal(n: nat): (s: string)
    ensures Canonical(s)
    decreases n
  {
    if n < 10 then [DigitChar(n)]
    else NatToDecimal(n / 10) + [DigitChar(n % 10)]
  }

  /** The number a digit string denotes. */
  function DecimalValue(s: string): nat
    requires IsDigits(s)
  {
    if |s| == 0 then 0
    else 10 * DecimalValue(s[..|s| - 1]) + DigitValue(s[|s| - 1])
  }

  /** Reading the printed digits back gives the number. */
  lemma {:induction false} DecimalRoundTrip(n: nat)
    ensures DecimalValue(NatToDecimal(n)) == n
    decreases n
  {
    if n >= 10 {
      var s := NatToDecimal(n);
      DecimalRoundTrip(n / 10);
      assert s[..|s| - 1] == NatToDecimal(n / 10);
    }
  }

  /** A digit string that does not start with `0` denotes a positive number. */
  lemma {:induction false} LeadingDigitPositive(s: string)
    requires IsDigits(s) && |s| > 0 && s[0] != '0'
    ensures DecimalValue(s) > 0
    decreases |s|
  {
    if |s| > 1 {
      LeadingDigitPositive(s[..|s| - 1]);
    } else {
      assert DigitChar(DigitValue(s[0])) == s[0];
    }
  }

  /** Printing the number a canonical digit string denotes gives the string back. */
  lemma {:induction false} CanonicalRoundTrip(s: string)
    requires Canonical(s)
    ensures NatToDecimal(DecimalValue(s)) == s
    decreases |s|
  {
    var d := DigitValue(s[|s| - 1]);
    if |s| == 1 {
      assert s == [DigitChar(d)];
    } else {
      var p := s[..|s| - 1];
      LeadingDigitPositive(p);
      CanonicalRoundTrip(p);
      var n := DecimalValue(s);
      assert n / 10 == DecimalValue(p) && n % 10 == d;
      assert s == p + [DigitChar(d)];
    }
  }

  /**
    `i` as JavaScript prints an integral number of magnitude at most 2^53: a
    minus sign for a negative number, then the digits of its magnitude.
   */
  function IntToDecimal(i: int): (s: string)
    ensures |s| > 0
    ensures s[0] == '-' <==> i < 0
    ensures Canonical(if i < 0 then s[1..] else s)
  {
    if i < 0 then "-" + NatToDecimal(-i) else NatToDecimal(i)
  }

  /** Text that `IntToDecimal` can produce. */
  predicate IsIntegerText(s: string)
  {
    if |s| > 0 && s[0] == '-' then Canonical(s[1..]) && s[1..] != "0" else Canonical(s)
  }

  /** The integer denoted by an optionally negative digit string. */
  function ParseInteger(s: string): int
    requires IsIntegerText(s)
  {
    if |s| > 0 && s[0] == '-' then -(DecimalValue(s[1..]) as int) else DecimalValue(s)
  }

  /** Printing then parsing an integer gives it back. */
  lemma IntRoundTrip(i: int)
    ensures IsIntegerText(IntToDecimal(i))
    ensures ParseInteger(IntToDecimal(i)) == i
  {
    var s := IntToDecimal(i);
    if i < 0 {
      var digits := NatToDecimal(-i);
      assert s[1..] == digits;
      DecimalRoundTrip(-i);
      assert digits != "0" by {
        assert DecimalValue(digits) != 0;
      }
    } else {
      DecimalRoundTrip(i);
    }
  }

  /** Parsing then printing integer text gives it back. */
  lemma IntTextRoundTrip(s: string)
    requires IsIntegerText(s)
    ensures IntToDecimal(ParseInteger(s)) == s
  {
    if |s| > 0 && s[0] == '-' {
      CanonicalRoundTrip(s[1..]);
      var n := DecimalValue(s[1..]);
      assert n != 0;
      assert s == "-" + s[1..];
    } else {
      CanonicalRoundTrip(s);
    }
  }
}
