/** The decimal text JavaScript produces when an integer is interpolated into a
    template literal, with a parser as its inverse. */
module Decimal {
  import opened Wrappers

  function DigitChar(d: nat): (c: char)
    requires d < 10
    ensures '0' <= c <= '9'
  {
    (d + '0' as int) as char
  }

  function DigitValue(c: char): Option<nat> {
    if '0' <= c <= '9' then Some(c as int - '0' as int) else None
  }

  /** Decimal digits of `n`, most significant first, without leading zeros. */
  function NatToDecimal(n: nat): (s: string)
    ensures |s| >= 1
    ensures forall k :: 0 <= k < |s| ==> '0' <= s[k] <= '9'
    ensures s[0] == '0' <==> n == 0
    ensures n < 10 ==> |s| == 1
  {
    if n < 10 then [DigitChar(n)] else NatToDecimal(n / 10) + [DigitChar(n % 10)]
  }

  /** The source's `${n}` for an integer `n`. */
  function IntToDecimal(n: int): string {
    if n < 0 then "-" + NatToDecimal(-n) else NatToDecimal(n)
  }

  /** The value of a non-empty string of decimal digits. */
  function ParseNat(s: string): Option<nat> {
    if |s| == 0 then None
    else
      match DigitValue(s[|s| - 1])
      case None => None
      case Some(d) =>
        if |s| == 1 then Some(d)
        else
          match ParseNat(s[..|s| - 1])
          case None => None
          case Some(m) => Some(10 * m + d)
  }

  /** The value of an optionally negative decimal numeral. */
  function ParseInt(s: string): Option<int> {
    if |s| > 0 && s[0] == '-' then
      match ParseNat(s[1..])
      case None => None
      case Some(m) => Some(-(m as int))
    else
      match ParseNat(s)
      case None => None
      case Some(m) => Some(m)
  }

  lemma {:induction false} ParseNatToDecimal(n: nat)
    ensures ParseNat(NatToDecimal(n)) == Some(n)
  {
    var s := NatToDecimal(n);
    if n < 10 {
      assert DigitValue(s[0]) == Some(n);
    } else {
      var prefix := NatToDecimal(n / 10);
      assert s == prefix + [DigitChar(n % 10)];
      assert s[..|s| - 1] == prefix;
      assert DigitValue(s[|s| - 1]) == Some(n % 10);
      ParseNatToDecimal(n / 10);
    }
  }

  lemma {:induction false} ParseNegativeDecimal(n: nat)
    requires n > 0
    ensures ParseInt(IntToDecimal(-(n as int))) == Some(-(n as int))
  {
    var digits := NatToDecimal(n);
    var s := "-" + digits;
    assert s[0] == '-' && s[1..] == digits;
    ParseNatToDecimal(n);
    assert ParseInt(s) == Some(-(n as int));
  }

  lemma {:induction false} ParseNonNegativeDecimal(n: nat)
    ensures ParseInt(IntToDecimal(n)) == Some(n)
  {
    var digits := NatToDecimal(n);
    assert digits[0] != '-';
    ParseNatToDecimal(n);
    assert ParseInt(digits) == Some(n);
  }

  /** The year text placed in a query can be read back as the same year. */
  lemma {:induction false} ParseIntToDecimal(n: int)
    ensures ParseInt(IntToDecimal(n)) == Some(n)
  {
    if n < 0 {
      ParseNegativeDecimal(-n);
    } else {
      ParseNonNegativeDecimal(n);
    }
  }
}
