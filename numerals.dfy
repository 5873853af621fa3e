/** Rust's `{}` formatting of integers, and the lowercase hexadecimal digits
    of a UUID's hyphenated form. */
module Numerals {
  import opened Text

  /** Rust's `i32`. */
  type I32 = n: int | -0x8000_0000 <= n < 0x8000_0000

  /** Rust's `u32` and `u64`. */
  type U32 = n: nat | n < 0x1_0000_0000
  type U64 = n: nat | n < 0x1_0000_0000_0000_0000

  function DigitChar(d: nat): (c: char)
    requires d < 10
    ensures IsAsciiDigit(c) && c as int - '0' as int == d
  {
    ('0' as int + d) as char
  }

  predicate AllDigits(s: string) {
    forall i :: 0 <= i < |s| ==> IsAsciiDigit(s[i])
  }

  /** Decimal form of a natural number, most significant digit first, with no
      leading zeros. */
  function NatToDecimal(n: nat): (s: string)
    ensures 1 <= |s| && AllDigits(s)
    ensures |s| > 1 ==> s[0] != '0'
  {
    if n < 10 then [DigitChar(n)] else NatToDecimal(n / 10) + [DigitChar(n % 10)]
  }

  /** The value a string of decimal digits denotes. */
  function DecimalValue(s: string): nat
    requires AllDigits(s)
  {
    if s == [] then 0
    else DecimalValue(s[..|s| - 1]) * 10 + (s[|s| - 1] as int - '0' as int)
  }

  lemma {:induction false} DecimalRoundTrip(n: nat)
    ensures DecimalValue(NatToDecimal(n)) == n
  {
    if n >= 10 {
      var s := NatToDecimal(n);
      assert s[..|s| - 1] == NatToDecimal(n / 10);
      DecimalRoundTrip(n / 10);
    }
  }

  lemma NatToDecimalInjective(a: nat, b: nat)
    requires NatToDecimal(a) == NatToDecimal(b)
    ensures a == b
  {
    DecimalRoundTrip(a);
    DecimalRoundTrip(b);
  }

  /** Rust's `format!("{}", i)` for a signed integer. */
  function IntToDecimal(i: int): (s: string)
    ensures 1 <= |s|
    ensures i >= 0 ==> s == NatToDecimal(i)
    ensures i < 0 ==> s == "-" + NatToDecimal(-i)
    ensures forall k :: 0 < k < |s| ==> IsAsciiDigit(s[k])
    ensures IsAsciiDigit(s[0]) || s[0] == '-'
  {
    if i < 0 then "-" + NatToDecimal(-i) else NatToDecimal(i)
  }

  lemma IntToDecimalInjective(a: int, b: int)
    requires IntToDecimal(a) == IntToDecimal(b)
    ensures a == b
  {
    if a < 0 && b < 0 {
      PrefixCancel("-", NatToDecimal(-a), NatToDecimal(-b));
      NatToDecimalInjective(-a, -b);
    } else if a >= 0 && b >= 0 {
      NatToDecimalInjective(a, b);
    }
  }

  function HexChar(d: nat): (c: char)
    requires d < 16
  {
    if d < 10 then DigitChar(d) else ('a' as int + (d - 10)) as char
  }

  function HexValueOf(c: char): nat {
    if '0' <= c <= '9' then c as int - '0' as int
    else if 'a' <= c <= 'f' then c as int - 'a' as int + 10
    else 0
  }

  function Pow16(w: nat): (p: nat)
    ensures p >= 1
  {
    if w == 0 then 1 else 16 * Pow16(w - 1)
  }

  lemma {:induction false} Pow16Add(a: nat, b: nat)
    ensures Pow16(a + b) == Pow16(a) * Pow16(b)
  {
    if a > 0 {
      Pow16Add(a - 1, b);
      assert Pow16(a + b) == 16 * Pow16(a - 1 + b);
      assert 16 * (Pow16(a - 1) * Pow16(b)) == (16 * Pow16(a - 1)) * Pow16(b);
    }
  }

  /** Thirty-two hexadecimal digits hold exactly the 128-bit values. */
  lemma Pow16Of32()
    ensures Pow16(32) == 0x1_0000_0000_0000_0000_0000_0000_0000_0000
  {
    assert Pow16(1) == 16;
    Pow16Add(1, 1);
    assert Pow16(2) == 0x100;
    Pow16Add(2, 2);
    assert Pow16(4) == 0x1_0000;
    Pow16Add(4, 4);
    assert Pow16(8) == 0x1_0000_0000;
    Pow16Add(8, 8);
    assert Pow16(16) == 0x1_0000_0000_0000_0000;
    Pow16Add(16, 16);
  }

  /** The last `w` lowercase hexadecimal digits of `n`, zero-padded. */
  function HexFixed(n: nat, w: nat): (s: string)
    ensures |s| == w
  {
    if w == 0 then [] else HexFixed(n / 16, w - 1) + [HexChar(n % 16)]
  }

  function HexValue(s: string): nat {
    if s == [] then 0 else HexValue(s[..|s| - 1]) * 16 + HexValueOf(s[|s| - 1])
  }

  lemma {:induction false} HexRoundTrip(n: nat, w: nat)
    requires n < Pow16(w)
    ensures HexValue(HexFixed(n, w)) == n
  {
    if w > 0 {
      var s := HexFixed(n, w);
      assert s[..|s| - 1] == HexFixed(n / 16, w - 1);
      HexRoundTrip(n / 16, w - 1);
    }
  }
}
