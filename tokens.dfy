/** The literal code units of the .reg and .pol formats (src/Constants.h:83-236 and
    Constants.h:40-90), and the hexadecimal numerals that `std::hex` reads and
    writes. Tokens are given by value; both headers name some of them differently. */
module Tokens {
  import opened Registry

  const NUL: char16 := 0x00
  const LF: char16 := 0x0A
  const CR: char16 := 0x0D
  const Space: char16 := 0x20
  const Quote: char16 := 0x22
  const OpenParen: char16 := 0x28
  const CloseParen: char16 := 0x29
  const Comma: char16 := 0x2C
  const Colon: char16 := 0x3A
  const Semicolon: char16 := 0x3B
  const EqualsSign: char16 := 0x3D
  const AtSign: char16 := 0x40
  const OpenBracket: char16 := 0x5B
  const Backslash: char16 := 0x5C
  const CloseBracket: char16 := 0x5D

  /** "\r\n", the only line terminator of a .reg file. */
  const NewLines: Text := [CR, LF]
  /** "\\\r\n": a value rendition continues on the next line. */
  const EscapedNewLine: Text := [Backslash, CR, LF]
  /** "]\r\n": the end of a key header line. */
  const KeyClosingAtEOL: Text := [CloseBracket, CR, LF]

  /** "hex" */
  const HexPrefix: Text := [0x68, 0x65, 0x78]
  /** "dword" (src/Constants.h); the renderer appends ':' itself. */
  const DwordPrefix: Text := [0x64, 0x77, 0x6F, 0x72, 0x64]
  /** "dword:" (Constants.h), the token the parser looks for. */
  const DwordPrefixColon: Text := DwordPrefix + [Colon]
  /** "qword" */
  const QwordPrefix: Text := [0x71, 0x77, 0x6F, 0x72, 0x64]
  /** "multi_sz" */
  const MultiSzPrefix: Text := [0x6D, 0x75, 0x6C, 0x74, 0x69, 0x5F, 0x73, 0x7A]
  /** "expand_sz" */
  const ExpandSzPrefix: Text := [0x65, 0x78, 0x70, 0x61, 0x6E, 0x64, 0x5F, 0x73, 0x7A]

  /** The code units of an ASCII string literal. */
  function Ascii(s: string): (t: Text)
    ensures |t| == |s|
  {
    seq(|s|, i requires 0 <= i < |s| => (s[i] as int) % 0x1_0000)
  }

  /** Byte order mark, "Windows Registry Editor Version 5.00", then two line ends. */
  const Preamble: Text := [0xFEFF] + Ascii("Windows Registry Editor Version 5.00") + NewLines + NewLines

  /** Limits of the hex line wrap and its continuation indent. */
  const HexWrappingLimit: nat := 80
  const MultiSzWrappingLimit: nat := 80
  const HexNewLineLeadingSpaces: nat := 2

  /** `n` space characters. */
  function Spaces(n: nat): (t: Text)
    ensures |t| == n && forall i :: 0 <= i < n ==> t[i] == Space
  {
    seq(n, i => Space)
  }

  predicate StartsWith(s: Text, p: Text) {
    |p| <= |s| && s[..|p|] == p
  }

  // ---------------------------------------------------------------------------
  // Hexadecimal digits (ASCII only)
  // ---------------------------------------------------------------------------

  predicate IsHexDigit(c: char16) {
    (0x30 <= c <= 0x39) || (0x41 <= c <= 0x46) || (0x61 <= c <= 0x66)
  }

  predicate AllHexDigits(s: Text) {
    forall i :: 0 <= i < |s| ==> IsHexDigit(s[i])
  }

  function DigitValue(c: char16): (d: nat)
    requires IsHexDigit(c)
    ensures d < 16
  {
    if c <= 0x39 then c - 0x30 else if c <= 0x46 then c - 0x41 + 10 else c - 0x61 + 10
  }

  /** The lower-case digit `std::hex` writes for a nibble. */
  function LowerDigit(d: nat): (c: char16)
    requires d < 16
    ensures IsHexDigit(c) && DigitValue(c) == d
  {
    if d < 10 then 0x30 + d else 0x61 + d - 10
  }

  /** ASCII case folding, as the case-insensitive comparison applies it. */
  function ToLower(c: char16): (l: char16)
    ensures IsHexDigit(c) ==> IsHexDigit(l) && DigitValue(l) == DigitValue(c)
  {
    if 0x41 <= c <= 0x5A then c + 0x20 else c
  }

  /** The number a run of hex digits denotes, most significant first. */
  function HexValue(s: Text): (n: nat)
    requires AllHexDigits(s)
    ensures n < Pow16(|s|)
  {
    if s == [] then 0 else 16 * HexValue(s[..|s| - 1]) + DigitValue(s[|s| - 1])
  }

  function Pow16(k: nat): (p: nat)
    ensures p >= 1
  {
    if k == 0 then 1 else 16 * Pow16(k - 1)
  }

  /** `std::hex << n`: lower-case digits without leading zeros ("0" for zero). */
  function HexNumeral(n: nat): (t: Text)
    ensures 1 <= |t| && AllHexDigits(t)
  {
    if n < 16 then [LowerDigit(n)] else HexNumeral(n / 16) + [LowerDigit(n % 16)]
  }

  /** `std::hex << std::setw(w) << std::setfill('0') << n`. */
  function HexPadded(n: nat, w: nat): (t: Text)
    ensures AllHexDigits(t)
  {
    var digits := HexNumeral(n);
    Zeros(if |digits| < w then w - |digits| else 0) + digits
  }

  /** `z` zero digits, the fill of a padded numeral. */
  function Zeros(z: nat): (t: Text)
    ensures |t| == z && forall i :: 0 <= i < z ==> t[i] == 0x30
  {
    seq(z, _ => 0x30)
  }

  lemma {:induction false} HexValueOfNumeral(n: nat)
    ensures HexValue(HexNumeral(n)) == n
  {
    if n >= 16 {
      HexValueOfNumeral(n / 16);
      var t := HexNumeral(n);
      assert t[..|t| - 1] == HexNumeral(n / 16);
    }
  }

  lemma {:induction false} NumeralLength(n: nat, w: nat)
    requires 1 <= w && n < Pow16(w)
    ensures |HexNumeral(n)| <= w
  {
    if n >= 16 {
      assert w > 1;
      assert n / 16 < Pow16(w - 1);
      NumeralLength(n / 16, w - 1);
    }
  }

  lemma {:induction false} HexValueLeadingZeros(z: nat, s: Text)
    requires AllHexDigits(s)
    ensures AllHexDigits(Zeros(z) + s)
    ensures HexValue(Zeros(z) + s) == HexValue(s)
    decreases |s|, z
  {
    var t := Zeros(z) + s;
    if s == [] {
      assert t == Zeros(z);
      if z > 0 {
        assert t[..|t| - 1] == Zeros(z - 1) + [];
        HexValueLeadingZeros(z - 1, []);
      }
    } else {
      assert t[..|t| - 1] == Zeros(z) + s[..|s| - 1];
      HexValueLeadingZeros(z, s[..|s| - 1]);
    }
  }

  /** A padded numeral of a number that fits is exactly `w` digits and reads back. */
  lemma HexPaddedRoundTrip(n: nat, w: nat)
    requires 1 <= w && n < Pow16(w)
    ensures |HexPadded(n, w)| == w
    ensures HexValue(HexPadded(n, w)) == n
  {
    NumeralLength(n, w);
    var digits := HexNumeral(n);
    var z := if |digits| < w then w - |digits| else 0;
    assert HexPadded(n, w) == Zeros(z) + digits;
    HexValueLeadingZeros(z, digits);
    HexValueOfNumeral(n);
  }

  /** The digits `std::hex` writes. */
  predicate IsLowerHexDigit(c: char16) {
    (0x30 <= c <= 0x39) || (0x61 <= c <= 0x66)
  }

  /** `_wcsnicmp(a, b, |a|) == 0` on strings of one length, with ASCII case folding
      (`a` holds no NUL, so the comparison does not stop early). */
  predicate EqualIgnoringCase(a: Text, b: Text) {
    |a| == |b| && forall i :: 0 <= i < |a| ==> ToLower(a[i]) == ToLower(b[i])
  }

  lemma {:induction false} NumeralIsLower(n: nat)
    ensures forall i :: 0 <= i < |HexNumeral(n)| ==> IsLowerHexDigit(HexNumeral(n)[i])
  {
    if n >= 16 {
      NumeralIsLower(n / 16);
    }
  }

  lemma PaddedIsLower(n: nat, w: nat)
    ensures forall i :: 0 <= i < |HexPadded(n, w)| ==> IsLowerHexDigit(HexPadded(n, w)[i])
  {
    NumeralIsLower(n);
  }

  /** A written digit equals, up to case, exactly the digits of the same value. */
  lemma LowerDigitMatch(a: char16, b: char16)
    requires IsLowerHexDigit(a)
    ensures ToLower(a) == a
    ensures ToLower(b) == a <==> IsHexDigit(b) && DigitValue(b) == DigitValue(a)
  {
  }

  /** Two digit strings of one length denote the same number exactly when they
      agree digit by digit in value. */
  lemma {:induction false} HexValueDigitwise(x: Text, y: Text)
    requires |x| == |y| && AllHexDigits(x) && AllHexDigits(y)
    ensures HexValue(x) == HexValue(y) <==> forall i :: 0 <= i < |x| ==> DigitValue(x[i]) == DigitValue(y[i])
  {
    if x != [] {
      var x', y' := x[..|x| - 1], y[..|y| - 1];
      HexValueDigitwise(x', y');
      var a, b := DigitValue(x[|x| - 1]), DigitValue(y[|y| - 1]);
      if HexValue(x) == HexValue(y) {
        DivMod16(HexValue(x'), a, HexValue(y'), b);
        assert forall i :: 0 <= i < |x'| ==> x'[i] == x[i] && y'[i] == y[i];
      } else {
        assert HexValue(x') != HexValue(y') || a != b;
        if HexValue(x') != HexValue(y') {
          var i :| 0 <= i < |x'| && DigitValue(x'[i]) != DigitValue(y'[i]);
          assert x'[i] == x[i] && y'[i] == y[i];
        }
      }
    }
  }

  lemma DivMod16(p: nat, a: nat, q: nat, b: nat)
    requires a < 16 && b < 16 && 16 * p + a == 16 * q + b
    ensures p == q && a == b
  {
  }

  /** The test that accepts the eight characters after `dword:`: whatever number
      `n` below 2^32 the stream read, writing it back as eight lower-case digits gives
      the same text up to case exactly when the text is eight hex digits denoting
      `n`. Any sign, `0x`, space or other unit in the text makes the test fail. */
  lemma DwordCheck(n: nat, d: Text)
    requires n < 0x1_0000_0000 && |d| == 8
    ensures EqualIgnoringCase(HexPadded(n, 8), d) <==> AllHexDigits(d) && HexValue(d) == n
  {
    Pow16Of8();
    HexPaddedRoundTrip(n, 8);
    PaddedIsLower(n, 8);
    var a := HexPadded(n, 8);
    forall i | 0 <= i < 8 {
      LowerDigitMatch(a[i], d[i]);
    }
    if AllHexDigits(d) {
      HexValueDigitwise(a, d);
    }
  }

  lemma Pow16Of8()
    ensures Pow16(8) == 0x1_0000_0000 && Pow16(16) == Pow256(8) && Pow256(4) == Pow16(8)
  {
    assert Pow16(2) == 0x100 == Pow256(1);
    assert Pow16(4) == 0x1_0000 == Pow256(2);
    assert Pow16(8) == 0x1_0000_0000 == Pow256(4);
    assert Pow16(12) == Pow256(6);
  }
}
