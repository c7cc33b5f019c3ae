/**
 * Python's `str(n)` for an integer, as it appears in the `--limit=` and
 * `--offset=` options, with a parser that reads it back.
 */
module Decimal {
  import opened Wrappers

  predicate IsDigit(c: char)
  {
    '0' <= c <= '9'
  }

  function DigitChar(d: nat): (c: char)
    requires d < 10
    ensures IsDigit(c)
  {
    ('0' as int + d) as char
  }

  function DigitValue(c: char): nat
    requires IsDigit(c)
  {
    (c as int - '0' as int) as nat
  }

  /** The decimal digits of `n`, most significant first, without leading zeros. */
  function Digits(n: nat): (s: string)
    ensures |s| >= 1 && forall k :: 0 <= k < |s| ==> IsDigit(s[k])
    ensures s[0] == '0' <==> n == 0
    ensures |s| > 1 ==> s[0] != '0'
    decreases n
  {
    if n < 10 then [DigitChar(n)] else Digits(n / 10) + [DigitChar(n % 10)]
  }

  /** Python's `str(n)`: a minus sign for negative numbers, then the digits. */
  function IntToString(n: int): string
  {
    if n < 0 then "-" + Digits(-n) else Digits(n)
  }

  /** The value of a non-empty run of decimal digits. */
  function ParseDigits(s: string): Option<nat>
    decreases |s|
  {
    if |s| == 0 || !IsDigit(s[|s| - 1]) then None
    else if |s| == 1 then Some(DigitValue(s[0]))
    else match ParseDigits(s[..|s| - 1])
      case None => None
      case Some(v) => Some(v * 10 + DigitValue(s[|s| - 1]))
  }

  /** Python's `int(s)` restricted to an optional minus sign followed by digits. */
  function ParseInt(s: string): Option<int>
  {
    if |s| > 0 && s[0] == '-' then
      match ParseDigits(s[1..])
      case None => None
      case Some(v) => Some(-(v as int))
    else
      match ParseDigits(s)
      case None => None
      case Some(v) => Some(v as int)
  }

  lemma {:induction false} ParseDigitsOfDigits(n: nat)
    ensures ParseDigits(Digits(n)) == Some(n)
    decreases n
  {
    if n >= 10 {
      ParseDigitsOfDigits(n / 10);
      var s := Digits(n);
      assert s[..|s| - 1] == Digits(n / 10);
    }
  }

  /** The text of a negative integer is "-" and the digits of its magnitude. */
  lemma ParseNegative(m: nat)
    requires m > 0
    ensures ParseInt("-" + Digits(m)) == Some(-(m as int))
  {
    var s := "-" + Digits(m);
    ParseDigitsOfDigits(m);
    assert s[0] == '-' && s[1..] == Digits(m);
  }

  /** The text of a non-negative integer is its digits, which do not start with "-". */
  lemma ParseNonNegative(n: nat)
    ensures ParseInt(Digits(n)) == Some(n as int)
  {
    ParseDigitsOfDigits(n);
    assert IsDigit(Digits(n)[0]);
  }

  /** Reading back the text of an integer gives the integer. */
  lemma ParseIntToString(n: int)
    ensures ParseInt(IntToString(n)) == Some(n)
  {
    if n < 0 {
      ParseNegative(-n);
    } else {
      ParseNonNegative(n);
    }
  }
}
