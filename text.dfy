// Character-level building blocks of the printed text: decimal numbers
// (`%i`, `%02d`-style padding used by `%F %T`) and two-digit upper-case
// hexadecimal (`%02X`).
module Text {
  import opened Bytes

  predicate IsDigit(c: char) { '0' <= c <= '9' }

  predicate AllDigits(s: string) { forall i :: 0 <= i < |s| ==> IsDigit(s[i]) }

  function DigitChar(d: nat): (c: char)
    requires d < 10
    ensures IsDigit(c) && c as int - '0' as int == d
  {
    (('0' as int) + d) as char
  }

  /** The value of a string of decimal digits, most significant first. */
  function DecValue(s: string): nat
    requires AllDigits(s)
  {
    if s == [] then 0
    else 10 * DecValue(s[..|s| - 1]) + (s[|s| - 1] as int - '0' as int)
  }

  /** `n` in decimal, as `%i` prints a non-negative value. */
  function Decimal(n: nat): (s: string)
    ensures 1 <= |s| && AllDigits(s)
    ensures s[0] == '0' ==> n == 0
    decreases n
  {
    if n < 10 then [DigitChar(n)] else Decimal(n / 10) + [DigitChar(n % 10)]
  }

  /** Reading back the decimal text of `n` gives `n`. */
  lemma {:induction false} DecimalRoundTrip(n: nat)
    ensures DecValue(Decimal(n)) == n
  {
    if n >= 10 {
      var s := Decimal(n);
      assert s[..|s| - 1] == Decimal(n / 10);
      DecimalRoundTrip(n / 10);
    }
  }

  /** Distinct numbers have distinct decimal texts. */
  lemma DecimalInjective(m: nat, n: nat)
    requires Decimal(m) == Decimal(n)
    ensures m == n
  {
    DecimalRoundTrip(m);
    DecimalRoundTrip(n);
  }

  /** `n` as exactly two decimal digits, zero-padded. */
  function Pad2(n: nat): (s: string)
    requires n < 100
    ensures |s| == 2 && AllDigits(s) && DecValue(s) == n
  {
    var t := [DigitChar(n / 10), DigitChar(n % 10)];
    assert t[..1] == [DigitChar(n / 10)];
    assert DecValue(t[..1]) == n / 10 by { assert t[..1][..0] == []; }
    t
  }

  /** `n` as exactly four decimal digits, zero-padded. */
  function Pad4(n: nat): (s: string)
    requires n < 10000
    ensures |s| == 4 && AllDigits(s) && DecValue(s) == n
  {
    var hi, lo := Pad2(n / 100), Pad2(n % 100);
    assert (hi + lo)[..3] == hi + lo[..1];
    assert (hi + lo)[..3][..2] == hi;
    hi + lo
  }

  predicate IsUpperHex(c: char) { '0' <= c <= '9' || 'A' <= c <= 'F' }

  function HexValue(c: char): (v: nat)
    requires IsUpperHex(c)
    ensures v < 16
  {
    if c <= '9' then c as int - '0' as int else c as int - 'A' as int + 10
  }

  /** The upper-case hexadecimal digit for 0..15. */
  function HexChar(d: nat): (c: char)
    requires d < 16
    ensures IsUpperHex(c) && HexValue(c) == d
  {
    if d < 10 then (('0' as int) + d) as char else (('A' as int) + d - 10) as char
  }

  /** The two upper-case hexadecimal digits `%02X` prints for a byte. */
  function Hex2(b: uint8): (s: string)
    ensures |s| == 2 && IsUpperHex(s[0]) && IsUpperHex(s[1])
    ensures 16 * HexValue(s[0]) + HexValue(s[1]) == b
  {
    [HexChar(b / 16), HexChar(b % 16)]
  }
}
