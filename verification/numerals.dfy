/** Numeral texts the model needs: PHP's 64-bit integers and their decimal
    form, the rule that turns a decimal string array key into an integer key,
    and the byte packing and hex encoding used to name uploaded files
    (`pack('N')`, `pack('n')`, `bin2hex`). */
module Numerals {

  const IntMin: int := -0x8000_0000_0000_0000
  const IntMax: int := 0x7FFF_FFFF_FFFF_FFFF

  /** PHP's `int` on a 64-bit build. */
  type Int64 = x: int | -0x8000_0000_0000_0000 <= x <= 0x7FFF_FFFF_FFFF_FFFF

  type Byte = x: int | 0 <= x < 256

  predicate IsDigit(c: char) { '0' <= c <= '9' }

  predicate AllDigits(s: string)
  {
    forall i :: 0 <= i < |s| ==> IsDigit(s[i])
  }

  function DigitValue(c: char): nat
    requires IsDigit(c)
  {
    c as int - '0' as int
  }

  function DigitChar(d: nat): (c: char)
    requires d < 10
    ensures IsDigit(c) && DigitValue(c) == d
  {
    ('0' as int + d) as char
  }

  /** Value of a string of decimal digits, most significant first. */
  function DigitsValue(s: string): nat
    requires AllDigits(s)
  {
    if |s| == 0 then 0 else DigitsValue(s[..|s| - 1]) * 10 + DigitValue(s[|s| - 1])
  }

  /** Shortest decimal digits of `n`: no leading zero except for `0` itself. */
  function NatText(n: nat): (s: string)
    ensures |s| > 0 && AllDigits(s)
    ensures s[0] == '0' <==> n == 0
    ensures n == 0 ==> s == "0"
  {
    if n < 10 then [DigitChar(n)] else NatText(n / 10) + [DigitChar(n % 10)]
  }

  /** `(string)$n` for an integer. */
  function DecimalText(n: int): string
  {
    if n < 0 then "-" + NatText(-n) else NatText(n)
  }

  /** The digits after an optional leading minus sign. */
  function Magnitude(s: string): string
  {
    if |s| > 0 && s[0] == '-' then s[1..] else s
  }

  /** A decimal integer written the way PHP writes it: optional `-`, digits,
      no leading zero, and `-0` excluded. */
  predicate IsCanonicalDecimal(s: string)
  {
    var m := Magnitude(s);
    && |m| > 0
    && AllDigits(m)
    && (m[0] != '0' || s == "0")
  }

  function DecimalValue(s: string): int
    requires IsCanonicalDecimal(s)
  {
    if s[0] == '-' then -(DigitsValue(s[1..]) as int) else DigitsValue(s)
  }

  /** The strings PHP stores as integer array keys: canonical decimals that fit
      in 64 bits. Any other string stays a string key. */
  predicate IsIntegerKey(s: string)
  {
    IsCanonicalDecimal(s) && IntMin <= DecimalValue(s) <= IntMax
  }

  lemma {:induction false} DigitsValueOfNatText(n: nat)
    ensures DigitsValue(NatText(n)) == n
  {
    if n >= 10 {
      DigitsValueOfNatText(n / 10);
      var s := NatText(n);
      assert s[..|s| - 1] == NatText(n / 10);
    }
  }

  lemma {:induction false} DigitsValuePositive(s: string)
    requires |s| > 0 && AllDigits(s) && s[0] != '0'
    ensures DigitsValue(s) >= 1
    decreases |s|
  {
    if |s| > 1 {
      DigitsValuePositive(s[..|s| - 1]);
    }
  }

  lemma {:induction false} NatTextOfDigitsValue(s: string)
    requires |s| > 0 && AllDigits(s)
    requires s[0] != '0' || |s| == 1
    ensures NatText(DigitsValue(s)) == s
    decreases |s|
  {
    var last := s[|s| - 1];
    assert DigitChar(DigitValue(last)) == last;
    if |s| > 1 {
      var init := s[..|s| - 1];
      DigitsValuePositive(init);
      NatTextOfDigitsValue(init);
      assert s == init + [last];
    }
  }

  /** Every 64-bit integer's decimal text is an integer key denoting it. */
  lemma DecimalTextIsIntegerKey(n: Int64)
    ensures IsIntegerKey(DecimalText(n))
    ensures DecimalValue(DecimalText(n)) == n
  {
    if n < 0 {
      var t := NatText(-(n as int));
      DigitsValueOfNatText(-(n as int));
      assert DecimalText(n)[1..] == t;
    } else {
      DigitsValueOfNatText(n);
    }
  }

  /** An integer key has exactly one spelling: the decimal text of its value. */
  lemma IntegerKeyIsDecimalText(s: string)
    requires IsIntegerKey(s)
    ensures DecimalText(DecimalValue(s)) == s
  {
    if s[0] == '-' {
      NatTextOfDigitsValue(s[1..]);
      assert s == "-" + s[1..];
    } else {
      NatTextOfDigitsValue(s);
    }
  }

  function Pow256(n: nat): nat
  {
    if n == 0 then 1 else 256 * Pow256(n - 1)
  }

  /** The `width` low-order bytes of `n`, most significant first
      (`pack('N')` for width 4, `pack('n')` for width 2). */
  function BigEndian(n: nat, width: nat): (bytes: seq<Byte>)
    ensures |bytes| == width
  {
    if width == 0 then [] else BigEndian(n / 256, width - 1) + [n % 256]
  }

  function BytesValue(bytes: seq<Byte>): nat
  {
    if |bytes| == 0 then 0 else BytesValue(bytes[..|bytes| - 1]) * 256 + bytes[|bytes| - 1]
  }

  /** Packing a number that fits in `width` bytes loses nothing. */
  lemma {:induction false} BigEndianValue(n: nat, width: nat)
    requires n < Pow256(width)
    ensures BytesValue(BigEndian(n, width)) == n
  {
    if width > 0 {
      BigEndianValue(n / 256, width - 1);
      var b := BigEndian(n, width);
      assert b[..|b| - 1] == BigEndian(n / 256, width - 1);
    }
  }

  predicate IsLowerHex(c: char) { '0' <= c <= '9' || 'a' <= c <= 'f' }

  function HexChar(d: nat): (c: char)
    requires d < 16
    ensures IsLowerHex(c)
  {
    if d < 10 then ('0' as int + d) as char else ('a' as int + d - 10) as char
  }

  function HexValueOf(c: char): nat
    requires IsLowerHex(c)
  {
    if c <= '9' then c as int - '0' as int else c as int - 'a' as int + 10
  }

  /** `bin2hex($bytes)`: two lowercase hex digits per byte, high nibble first. */
  function Bin2Hex(bytes: seq<Byte>): (s: string)
    ensures |s| == 2 * |bytes|
    ensures forall i :: 0 <= i < |s| ==> IsLowerHex(s[i])
  {
    if |bytes| == 0 then ""
    else
      var b := bytes[|bytes| - 1];
      Bin2Hex(bytes[..|bytes| - 1]) + [HexChar(b / 16), HexChar(b % 16)]
  }

  /** Value of a string of lowercase hex digits, most significant first. */
  function HexValue(s: string): nat
    requires forall i :: 0 <= i < |s| ==> IsLowerHex(s[i])
  {
    if |s| == 0 then 0 else HexValue(s[..|s| - 1]) * 16 + HexValueOf(s[|s| - 1])
  }

  lemma {:induction false} Bin2HexConcat(a: seq<Byte>, b: seq<Byte>)
    ensures Bin2Hex(a + b) == Bin2Hex(a) + Bin2Hex(b)
    decreases |b|
  {
    if |b| > 0 {
      assert (a + b)[..|a + b| - 1] == a + b[..|b| - 1];
      Bin2HexConcat(a, b[..|b| - 1]);
    } else {
      assert a + b == a;
    }
  }

  /** Reading `bin2hex` output as a hex number gives the bytes' big-endian value. */
  lemma {:induction false} HexValueOfBin2Hex(bytes: seq<Byte>)
    ensures HexValue(Bin2Hex(bytes)) == BytesValue(bytes)
    decreases |bytes|
  {
    if |bytes| > 0 {
      var init := bytes[..|bytes| - 1];
      var b := bytes[|bytes| - 1];
      HexValueOfBin2Hex(init);
      var s := Bin2Hex(bytes);
      assert s[..|s| - 1][..|s| - 2] == Bin2Hex(init);
      assert HexValueOf(HexChar(b / 16)) == b / 16;
      assert HexValueOf(HexChar(b % 16)) == b % 16;
    }
  }
}
