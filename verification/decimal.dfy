/**
 Decimal text of an integer, the way a script's `String(n)` writes a whole
 number: an optional minus sign followed by digits with no leading zero.
 */
module Decimal {
  import opened Records

  predicate IsDigit(c: char) {
    '0' <= c <= '9'
  }

  predicate AllDigits(s: string) {
    forall i :: 0 <= i < |s| ==> IsDigit(s[i])
  }

  function DigitChar(d: nat): (c: char)
    requires d < 10
    ensures IsDigit(c)
  {
    ('0' as int + d) as char
  }

  function DigitValue(c: char): (d: nat)
    requires IsDigit(c)
    ensures d < 10 && DigitChar(d) == c
  {
    c as int - '0' as int
  }

  /** Digits of `n`, most significant first. */
  function NatText(n: nat): (s: string)
    ensures |s| > 0 && AllDigits(s)
    ensures |s| > 1 ==> s[0] != '0'
    decreases n
  {
    if n < 10 then [DigitChar(n)] else NatText(n / 10) + [DigitChar(n % 10)]
  }

  /** Reads a string of digits back as a number. */
  function NatValue(s: string): nat
    requires AllDigits(s)
    decreases |s|
  {
    if s == [] then 0 else NatValue(s[..|s| - 1]) * 10 + DigitValue(s[|s| - 1])
  }

  function IntText(n: int): (s: string)
    ensures |s| > 0
  {
    if n < 0 then "-" + NatText(-n) else NatText(n)
  }

  /** Reads the text of an integer; None for anything that is not one. */
  function IntValue(s: string): Option<int> {
    if |s| > 0 && s[0] == '-' && |s| > 1 && AllDigits(s[1..]) then Some(0 - NatValue(s[1..]))
    else if |s| > 0 && AllDigits(s) then Some(NatValue(s))
    else None
  }

  lemma {:induction false} NatRoundTrip(n: nat)
    ensures NatValue(NatText(n)) == n
    decreases n
  {
    if n >= 10 {
      var s := NatText(n);
      assert s[..|s| - 1] == NatText(n / 10);
      NatRoundTrip(n / 10);
    }
  }

  /** No two integers share a text, so converting numeric cells keeps distinct values distinct. */
  lemma IntRoundTrip(n: int)
    ensures IntValue(IntText(n)) == Some(n)
  {
    if n < 0 {
      var s := IntText(n);
      assert s[1..] == NatText(-n);
      NatRoundTrip(-n);
    } else {
      NatRoundTrip(n);
    }
  }
}
