/** Bytes as hexadecimal and numbers as decimal text. */
module Text {

  type Byte = x: nat | x < 256

  const DIGITS: string := "0123456789abcdef"

  function Hex(bytes: seq<Byte>): (r: string)
    ensures |r| == 2 * |bytes|
  {
    if bytes == [] then ""
    else Hex(bytes[..|bytes| - 1]) + [DIGITS[bytes[|bytes| - 1] / 16], DIGITS[bytes[|bytes| - 1] % 16]]
  }

  predicate IsDigit(c: char) { '0' <= c <= '9' }

  predicate AllDigits(s: string) { forall i :: 0 <= i < |s| ==> IsDigit(s[i]) }

  function DigitValue(c: char): nat
    requires IsDigit(c)
  {
    c as int - '0' as int
  }

  /** Without leading zeros; zero is "0". */
  function Decimal(n: nat): (r: string)
    ensures r != "" && AllDigits(r)
  {
    var digit := ['0' + (n % 10) as char];
    if n < 10 then digit else Decimal(n / 10) + digit
  }

  function SignedDecimal(i: int): string { if i < 0 then "-" + Decimal(-i) else Decimal(i) }

  function ParseDecimal(s: string): nat
    requires AllDigits(s)
  {
    if s == "" then 0 else 10 * ParseDecimal(s[..|s| - 1]) + DigitValue(s[|s| - 1])
  }

  lemma {:induction false} DecimalRoundTrip(n: nat)
    ensures ParseDecimal(Decimal(n)) == n
  {
    var s := Decimal(n);
    if n < 10 {
      assert s[..0] == "";
    } else {
      DecimalRoundTrip(n / 10);
      assert s[..|s| - 1] == Decimal(n / 10);
    }
  }

  function Pow10(k: nat): nat { if k == 0 then 1 else 10 * Pow10(k - 1) }

  lemma {:induction false} DecimalLength(n: nat, k: nat)
    requires k >= 1 && n < Pow10(k)
    ensures |Decimal(n)| <= k
  {
    if n >= 10 {
      DecimalLength(n / 10, k - 1);
    }
  }

  lemma SignedLength(i: int)
    requires -0x8000_0000_0000_0000 <= i < 0x8000_0000_0000_0000
    ensures |SignedDecimal(i)| <= 20
    ensures i >= 0 ==> |SignedDecimal(i)| <= 19
  {
    calc {
      Pow10(19);
      { assert Pow10(4) == 10_000; assert Pow10(9) == 100_000 * Pow10(4); assert Pow10(14) == 100_000 * Pow10(9); }
      10_000_000_000_000_000_000;
    }
    DecimalLength(if i < 0 then -i else i, 19);
  }
}
