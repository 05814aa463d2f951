/**
 * The "%d" conversion the sensor handler uses to render its reading: the
 * decimal text of a C `int`, with its inverse and its length bound.
 */
module Decimal {
  import opened Coap

  /** A C `int` on the target: 32-bit two's complement. */
  type Int32 = x: int | -0x8000_0000 <= x < 0x8000_0000

  const MINUS: byte := '-' as byte

  predicate IsDigit(b: byte)
  {
    '0' as byte <= b <= '9' as byte
  }

  predicate AllDigits(s: seq<byte>)
  {
    forall i :: 0 <= i < |s| ==> IsDigit(s[i])
  }

  /** The decimal digits of n, most significant first, without leading zeros. */
  function Digits(n: nat): (r: seq<byte>)
    ensures |r| >= 1 && AllDigits(r)
    ensures r[0] == '0' as byte ==> n == 0
    decreases n
  {
    if n < 10 then ['0' as byte + n as byte]
    else Digits(n / 10) + ['0' as byte + (n % 10) as byte]
  }

  /** printf's "%d": an optional minus sign followed by the digits of the magnitude. */
  function DecimalText(n: int): (r: seq<byte>)
    ensures 1 <= |r| && (r[0] == MINUS <==> n < 0)
    ensures AllDigits(if n < 0 then r[1..] else r)
    ensures |r| >= 2 && r[0] == MINUS ==> r[1] != '0' as byte
  {
    if n < 0 then [MINUS] + Digits(-n) else Digits(n)
  }

  /** The number a string of digits denotes. */
  function DigitsValue(s: seq<byte>): nat
    requires AllDigits(s)
  {
    if s == [] then 0
    else DigitsValue(s[..|s| - 1]) * 10 + (s[|s| - 1] - '0' as byte) as nat
  }

  /** Reads back a decimal integer as a client would: an optional minus sign, then at least one digit. */
  function ParseDecimal(s: seq<byte>): Option<int>
  {
    if |s| >= 2 && s[0] == MINUS && AllDigits(s[1..]) then Some(-(DigitsValue(s[1..]) as int))
    else if |s| >= 1 && AllDigits(s) then Some(DigitsValue(s))
    else None
  }

  lemma {:induction false} DigitsRoundTrip(n: nat)
    ensures DigitsValue(Digits(n)) == n
  {
    if n >= 10 {
      DigitsRoundTrip(n / 10);
      var r := Digits(n);
      assert r[..|r| - 1] == Digits(n / 10);
    }
  }

  /** The sensor text is well formed and denotes exactly the reading. */
  lemma DecimalRoundTrip(n: int)
    ensures ParseDecimal(DecimalText(n)) == Some(n)
    ensures DecimalText(n)[0] == MINUS <==> n < 0
    ensures 0 !in DecimalText(n)
  {
    var t := DecimalText(n);
    if n < 0 {
      DigitsRoundTrip(-n);
      assert t[1..] == Digits(-n);
    } else {
      DigitsRoundTrip(n);
      assert !IsDigit(MINUS);
    }
  }

  /** Distinct readings render as distinct texts. */
  lemma DecimalTextInjective(a: int, b: int)
    requires DecimalText(a) == DecimalText(b)
    ensures a == b
  {
    DecimalRoundTrip(a);
    DecimalRoundTrip(b);
  }

  function Pow10(k: nat): nat
  {
    if k == 0 then 1 else 10 * Pow10(k - 1)
  }

  lemma {:induction false} DigitsLength(n: nat, k: nat)
    requires 1 <= k && n < Pow10(k)
    ensures |Digits(n)| <= k
  {
    if n >= 10 {
      assert k >= 2;
      DigitsLength(n / 10, k - 1);
    }
  }

  /** The text of any C `int` takes at most 11 bytes, so a 50-byte buffer never truncates it. */
  lemma Int32TextLength(n: Int32)
    ensures 1 <= |DecimalText(n)| <= 11
  {
    assert Pow10(10) == 10_000_000_000;
    if n < 0 {
      DigitsLength(-(n as int), 10);
    } else {
      DigitsLength(n, 10);
    }
  }
}
