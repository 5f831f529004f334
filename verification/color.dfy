/**
 Packed-colour decoding of index.js (`color2rgb`).

 The capture library hands colours over as one unsigned integer packing
 R, G, B and A from the most to the least significant byte. The source
 decodes it by rendering the number in base 16, left-padding that text
 with '0' to eight characters, cutting it into two-character slices and
 parsing each slice back with `parseInt(…, 16)`. This module models that
 string route literally and proves it equal to plain byte arithmetic.
 */
module Color {

  import opened Optional

  /** Powers of sixteen, the place values of a hexadecimal numeral. */
  function Pow16(k: nat): (p: nat)
    ensures p >= 1
  {
    if k == 0 then 1 else 16 * Pow16(k - 1)
  }

  /** The lower-case digit alphabet of `Number.prototype.toString(16)`. */
  const LowerDigits: string := "0123456789abcdef"

  /** A digit `toString(16)` can write. */
  predicate IsLowerHexDigit(ch: char) {
    ('0' <= ch <= '9') || ('a' <= ch <= 'f')
  }

  predicate IsHexDigit(ch: char) {
    ('0' <= ch <= '9') || ('a' <= ch <= 'f') || ('A' <= ch <= 'F')
  }

  /** The value `parseInt` gives one hexadecimal digit (either case);
      characters that are not digits never reach it. */
  function DigitValue(ch: char): (v: nat)
    ensures v < 16
  {
    if '0' <= ch <= '9' then (ch - '0') as nat
    else if 'a' <= ch <= 'f' then (ch - 'a') as nat + 10
    else if 'A' <= ch <= 'F' then (ch - 'A') as nat + 10
    else 0
  }

  function HexDigit(d: nat): (ch: char)
    requires d < 16
    ensures IsLowerHexDigit(ch)
    ensures IsHexDigit(ch) && DigitValue(ch) == d
  {
    LowerDigits[d]
  }

  /** Big-endian value of a numeral, read from the right. */
  function HexValue(s: string): nat {
    if |s| == 0 then 0 else HexValue(s[..|s| - 1]) * 16 + DigitValue(s[|s| - 1])
  }

  predicate AllHexDigits(s: string) {
    forall i :: 0 <= i < |s| ==> IsHexDigit(s[i])
  }

  /** `n.toString(16)` for a non-negative integer: shortest numeral, no
      leading zeros, "0" for zero. */
  function ToHex(n: nat): (s: string)
    ensures 1 <= |s|
    ensures AllHexDigits(s)
    ensures |s| > 1 ==> s[0] != '0'
  {
    if n < 16 then [HexDigit(n)] else ToHex(n / 16) + [HexDigit(n % 16)]
  }

  /** `ch.repeat(k)`. */
  function Repeat(ch: char, k: nat): (s: string)
    ensures |s| == k
    ensures forall i :: 0 <= i < k ==> s[i] == ch
  {
    if k == 0 then [] else [ch] + Repeat(ch, k - 1)
  }

  /** The padding step of `color2rgb`: shorter numerals get '0's in front
      until they are eight characters long; longer ones are left alone. */
  function PadTo8(s: string): (p: string)
    ensures |s| < 8 ==> |p| == 8 && p[8 - |s|..] == s
    ensures |s| < 8 ==> forall i :: 0 <= i < 8 - |s| ==> p[i] == '0'
    ensures |s| >= 8 ==> p == s
  {
    if |s| < 8 then Repeat('0', 8 - |s|) + s else s
  }

  /** Number of leading hexadecimal digits of `s`. */
  function HexPrefixLength(s: string): (k: nat)
    ensures k <= |s|
    ensures AllHexDigits(s[..k])
    ensures k < |s| ==> !IsHexDigit(s[k])
  {
    if |s| == 0 || !IsHexDigit(s[0]) then 0
    else
      var k := 1 + HexPrefixLength(s[1..]);
      assert s[..k] == [s[0]] + s[1..][..k - 1];
      k
  }

  /** `parseInt(s, 16)`: the value of the longest run of leading
      hexadecimal digits, or `None` (JavaScript's NaN) when there is none. */
  function ParseHex(s: string): (v: Option<nat>)
    ensures v == None <==> |s| == 0 || !IsHexDigit(s[0])
    ensures v.Some? ==> v.value < Pow16(HexPrefixLength(s))
  {
    var k := HexPrefixLength(s);
    if k == 0 then None
    else
      HexValueBound(s[..k]);
      Some(HexValue(s[..k]))
  }

  /** The four channels `color2rgb` parses, before alpha is dropped. */
  datatype Rgba = Rgba(r: nat, g: nat, b: nat, a: nat)

  /** The object `color2rgb` returns. */
  datatype Rgb = Rgb(r: nat, g: nat, b: nat)

  /** Every slice of a digit string is a digit string. */
  lemma AllHexDigitsSlice(s: string, i: nat, j: nat)
    requires AllHexDigits(s) && i <= j <= |s|
    ensures AllHexDigits(s[i..j])
  {
  }

  /** The string route of `color2rgb`: render, pad, slice, parse. Every
      slice is made of hexadecimal digits, so no channel is NaN. */
  function DecodeRgba(color: nat): (q: Rgba)
    ensures color < 0x1_0000_0000 ==>
      q == Rgba((color / 0x100_0000) % 256, (color / 0x1_0000) % 256, (color / 0x100) % 256, color % 256)
  {
    var hex := PadTo8(ToHex(color));
    PaddedDigits(color);
    AllHexDigitsSlice(hex, 0, 2);
    AllHexDigitsSlice(hex, 2, 4);
    AllHexDigitsSlice(hex, 4, 6);
    AllHexDigitsSlice(hex, 6, |hex|);
    ParseAllDigits(hex[0..2]);
    ParseAllDigits(hex[2..4]);
    ParseAllDigits(hex[4..6]);
    ParseAllDigits(hex[6..]);
    var q := Rgba(ParseHex(hex[0..2]).value, ParseHex(hex[2..4]).value,
                  ParseHex(hex[4..6]).value, ParseHex(hex[6..]).value);
    if color < 0x1_0000_0000 then
      DecodeIsByteArithmetic(color);
      q
    else
      q
  }

  /** `color2rgb`: the R, G and B channels; alpha is parsed and discarded. */
  function Color2Rgb(color: nat): (rgb: Rgb)
    ensures color < 0x1_0000_0000 ==>
      rgb == Rgb((color / 0x100_0000) % 256, (color / 0x1_0000) % 256, (color / 0x100) % 256)
  {
    var q := DecodeRgba(color);
    Rgb(q.r, q.g, q.b)
  }

  /** Packing of four bytes, the inverse of the decoding. */
  function Pack(r: nat, g: nat, b: nat, a: nat): nat {
    r * 0x100_0000 + g * 0x1_0000 + b * 0x100 + a
  }

  // ---------------------------------------------------------------------
  // Proofs about the numeral route.
  // ---------------------------------------------------------------------

  /** The padded numeral is all digits and at least eight long. */
  lemma PaddedDigits(color: nat)
    ensures |PadTo8(ToHex(color))| >= 8
    ensures AllHexDigits(PadTo8(ToHex(color)))
  {
    var s := ToHex(color);
    var p := PadTo8(s);
    if |s| < 8 {
      forall i | 0 <= i < |p|
        ensures IsHexDigit(p[i])
      {
        if i >= 8 - |s| {
          assert p[i] == p[8 - |s|..][i - (8 - |s|)];
        }
      }
    }
  }

  /** `parseInt` of a non-empty all-digit string is its value. */
  lemma ParseAllDigits(s: string)
    requires 1 <= |s| && AllHexDigits(s)
    ensures ParseHex(s) == Some(HexValue(s))
  {
    var k := HexPrefixLength(s);
    assert k == |s|;
    assert s[..k] == s;
  }

  /** `toString(16)` and the numeral value are inverse. */
  lemma {:induction false} ToHexValue(n: nat)
    ensures HexValue(ToHex(n)) == n
  {
    if n >= 16 {
      ToHexValue(n / 16);
      var s := ToHex(n);
      assert s[..|s| - 1] == ToHex(n / 16);
    }
  }

  /** A numeral of length `k` is below `16^k`. */
  lemma {:induction false} HexValueBound(s: string)
    ensures HexValue(s) < Pow16(|s|)
  {
    if |s| > 0 {
      HexValueBound(s[..|s| - 1]);
    }
  }

  /** `toString(16)` yields at most `k` digits exactly for numbers below `16^k`. */
  lemma ToHexLength(n: nat, k: nat)
    requires k >= 1
    ensures |ToHex(n)| <= k <==> n < Pow16(k)
  {
    ToHexIsDigitCount(n);
    DigitCountBelow(n, k);
  }

  /** The number of base-16 digits of `n`, leading zeros excluded. */
  function DigitCount(n: nat): nat {
    if n < 16 then 1 else DigitCount(n / 16) + 1
  }

  lemma {:induction false} ToHexIsDigitCount(n: nat)
    ensures |ToHex(n)| == DigitCount(n)
  {
    if n >= 16 {
      ToHexIsDigitCount(n / 16);
    }
  }

  lemma {:induction false} DigitCountBelow(n: nat, k: nat)
    requires k >= 1
    ensures DigitCount(n) <= k <==> n < Pow16(k)
  {
    if n < 16 {
      DivSixteenBelow(n, Pow16(k - 1));
    } else if k == 1 {
      assert DigitCount(n / 16) >= 1 by { DigitCountPositive(n / 16); }
    } else {
      DigitCountBelow(n / 16, k - 1);
      DivSixteenBelow(n, Pow16(k - 1));
    }
  }

  lemma DigitCountPositive(n: nat)
    ensures DigitCount(n) >= 1
  {
  }

  /** A quotient by sixteen is below `p` exactly when the number is below `16 p`. */
  lemma DivSixteenBelow(n: nat, p: nat)
    ensures n / 16 < p <==> n < 16 * p
  {
  }

  /** `toString(16)` writes only lower-case digits. */
  lemma {:induction false} ToHexLowerCase(n: nat)
    ensures forall i :: 0 <= i < |ToHex(n)| ==> IsLowerHexDigit(ToHex(n)[i])
  {
    if n >= 16 {
      ToHexLowerCase(n / 16);
      var s := ToHex(n);
      assert s == ToHex(n / 16) + [HexDigit(n % 16)];
    }
  }

  /** Splitting a numeral at `i`: the left part is worth its value times
      the place value of the right part. */
  lemma {:induction false} HexValueSplit(s: string, i: nat)
    requires i <= |s|
    ensures HexValue(s) == HexValue(s[..i]) * Pow16(|s| - i) + HexValue(s[i..])
  {
    if i == |s| {
      assert s[..i] == s;
      assert s[i..] == [];
    } else {
      var t := s[..|s| - 1];
      HexValueSplit(t, i);
      assert t[..i] == s[..i];
      assert s[i..][..|s[i..]| - 1] == t[i..];
      calc {
        HexValue(s);
        HexValue(t) * 16 + DigitValue(s[|s| - 1]);
        (HexValue(s[..i]) * Pow16(|t| - i) + HexValue(t[i..])) * 16 + DigitValue(s[|s| - 1]);
        { MulAssoc(HexValue(s[..i]), Pow16(|t| - i), 16); }
        HexValue(s[..i]) * Pow16(|s| - i) + (HexValue(t[i..]) * 16 + DigitValue(s[|s| - 1]));
        HexValue(s[..i]) * Pow16(|s| - i) + HexValue(s[i..]);
      }
    }
  }

  lemma MulAssoc(a: nat, b: nat, c: nat)
    ensures (a * b) * c == a * (c * b)
  {
  }

  /** Euclidean division has one quotient and one remainder. */
  lemma DivModUnique(x: nat, d: nat, q: nat, r: nat)
    requires 0 <= r < d
    requires x == q * d + r
    ensures x / d == q && x % d == r
  {
    var q' := x / d;
    var r' := x % d;
    assert x == q' * d + r';
    var k: int := q' - q;
    assert k * d == q' * d - q * d;
    assert k * d == r - r';
    if k >= 1 {
      MulAtLeast(k, d);
      assert false;
    } else if k <= -1 {
      assert (-k) * d == r' - r;
      MulAtLeast(-k, d);
      assert false;
    }
  }

  lemma MulAtLeast(k: int, d: int)
    requires k >= 1 && d >= 0
    ensures k * d >= d
  {
  }

  /** The digits between `i` and `j` of a numeral are worth the numeral's
      value shifted right and truncated: a slice is a byte extraction. */
  lemma SliceValue(s: string, i: nat, j: nat)
    requires i <= j <= |s|
    ensures HexValue(s[i..j]) == (HexValue(s) / Pow16(|s| - j)) % Pow16(j - i)
  {
    var u := s[..j];
    HexValueSplit(s, j);
    HexValueBound(s[j..]);
    assert s[..j] == u;
    DivModUnique(HexValue(s), Pow16(|s| - j), HexValue(u), HexValue(s[j..]));
    HexValueSplit(u, i);
    HexValueBound(u[i..]);
    assert u[i..] == s[i..j];
    DivModUnique(HexValue(u), Pow16(j - i), HexValue(u[..i]), HexValue(u[i..]));
  }

  /** Leading zeros do not change a numeral's value. */
  lemma ZeroPadValue(s: string)
    ensures HexValue(PadTo8(s)) == HexValue(s)
  {
    var p := PadTo8(s);
    if |s| < 8 {
      var z := 8 - |s|;
      HexValueSplit(p, z);
      ZerosValue(p[..z]);
    }
  }

  lemma {:induction false} ZerosValue(z: string)
    requires forall i :: 0 <= i < |z| ==> z[i] == '0'
    ensures HexValue(z) == 0
  {
    if |z| > 0 {
      ZerosValue(z[..|z| - 1]);
    }
  }

  lemma Pow16Values()
    ensures Pow16(0) == 1 && Pow16(2) == 0x100 && Pow16(4) == 0x1_0000
    ensures Pow16(6) == 0x100_0000 && Pow16(8) == 0x1_0000_0000
  {
  }

  /** For a 32-bit colour the padded numeral is exactly eight digits and
      is worth the colour itself. */
  lemma PaddedNumeral(color: nat)
    requires color < 0x1_0000_0000
    ensures |PadTo8(ToHex(color))| == 8
    ensures HexValue(PadTo8(ToHex(color))) == color
  {
    Pow16Values();
    ToHexLength(color, 8);
    ToHexValue(color);
    ZeroPadValue(ToHex(color));
  }

  /** One two-digit slice of an eight-digit numeral is one byte of its
      value, `p` being the place value of the slice's last digit. */
  lemma SliceByte(hex: string, color: nat, i: nat, p: nat)
    requires |hex| == 8 && HexValue(hex) == color
    requires i <= 6 && p == Pow16(6 - i)
    ensures HexValue(hex[i..i + 2]) == (color / p) % 256
  {
    SliceValue(hex, i, i + 2);
    assert Pow16(2) == 0x100;
  }

  /** The core of `color2rgb`: the byte slices of the padded numeral of a
      32-bit colour are the colour's bytes. */
  lemma DecodeIsByteArithmetic(color: nat)
    requires color < 0x1_0000_0000
    ensures |PadTo8(ToHex(color))| == 8
    ensures HexValue(PadTo8(ToHex(color))[0..2]) == (color / 0x100_0000) % 256
    ensures HexValue(PadTo8(ToHex(color))[2..4]) == (color / 0x1_0000) % 256
    ensures HexValue(PadTo8(ToHex(color))[4..6]) == (color / 0x100) % 256
    ensures HexValue(PadTo8(ToHex(color))[6..]) == color % 256
  {
    PaddedNumeral(color);
    NumeralBytes(PadTo8(ToHex(color)), color);
  }

  /** The four two-digit slices of an eight-digit numeral are the bytes
      of its value, most significant first. */
  lemma NumeralBytes(hex: string, color: nat)
    requires |hex| == 8 && HexValue(hex) == color
    ensures HexValue(hex[0..2]) == (color / 0x100_0000) % 256
    ensures HexValue(hex[2..4]) == (color / 0x1_0000) % 256
    ensures HexValue(hex[4..6]) == (color / 0x100) % 256
    ensures HexValue(hex[6..]) == color % 256
  {
    assert HexValue(hex[0..2]) == (color / 0x100_0000) % 256 by {
      Pow16Values();
      SliceByte(hex, color, 0, 0x100_0000);
    }
    assert HexValue(hex[2..4]) == (color / 0x1_0000) % 256 by {
      Pow16Values();
      SliceByte(hex, color, 2, 0x1_0000);
    }
    assert HexValue(hex[4..6]) == (color / 0x100) % 256 by {
      Pow16Values();
      SliceByte(hex, color, 4, 0x100);
    }
    assert HexValue(hex[6..]) == color % 256 by {
      Pow16Values();
      SliceByte(hex, color, 6, 1);
      assert hex[6..] == hex[6..8];
    }
  }

  // ---------------------------------------------------------------------
  // Properties of the decoder.
  // ---------------------------------------------------------------------

  /** Every channel `color2rgb` returns for a 32-bit colour is a byte. */
  lemma ChannelsAreBytes(color: nat)
    requires color < 0x1_0000_0000
    ensures var rgb := Color2Rgb(color); rgb.r < 256 && rgb.g < 256 && rgb.b < 256
  {
  }

  /** Alpha is dropped: colours that differ only in their lowest byte
      decode to the same triple. */
  lemma AlphaIgnored(c1: nat, c2: nat)
    requires c1 < 0x1_0000_0000 && c2 < 0x1_0000_0000
    requires c1 / 0x100 == c2 / 0x100
    ensures Color2Rgb(c1) == Color2Rgb(c2)
  {
    assert c1 / 0x100_0000 == (c1 / 0x100) / 0x1_0000;
    assert c2 / 0x100_0000 == (c2 / 0x100) / 0x1_0000;
    assert c1 / 0x1_0000 == (c1 / 0x100) / 0x100;
    assert c2 / 0x1_0000 == (c2 / 0x100) / 0x100;
  }

  /** The byte arithmetic of a packed colour recovers the four bytes. */
  lemma PackBytes(r: nat, g: nat, b: nat, a: nat)
    requires r < 256 && g < 256 && b < 256 && a < 256
    ensures Pack(r, g, b, a) < 0x1_0000_0000
    ensures (Pack(r, g, b, a) / 0x100_0000) % 256 == r
    ensures (Pack(r, g, b, a) / 0x1_0000) % 256 == g
    ensures (Pack(r, g, b, a) / 0x100) % 256 == b
    ensures Pack(r, g, b, a) % 256 == a
  {
    var c := Pack(r, g, b, a);
    assert c / 0x100_0000 == r by {
      DivModUnique(c, 0x100_0000, r, g * 0x1_0000 + b * 0x100 + a);
    }
    assert c / 0x1_0000 == r * 0x100 + g by {
      DivModUnique(c, 0x1_0000, r * 0x100 + g, b * 0x100 + a);
    }
    assert (r * 0x100 + g) % 0x100 == g by {
      DivModUnique(r * 0x100 + g, 0x100, r, g);
    }
    assert c / 0x100 == r * 0x1_0000 + g * 0x100 + b by {
      DivModUnique(c, 0x100, r * 0x1_0000 + g * 0x100 + b, a);
    }
    assert (r * 0x1_0000 + g * 0x100 + b) % 0x100 == b by {
      DivModUnique(r * 0x1_0000 + g * 0x100 + b, 0x100, r * 0x100 + g, b);
    }
  }

  /** Every 32-bit colour is the packing of four bytes. */
  lemma {:induction false} Unpack(c: nat) returns (r: nat, g: nat, b: nat, a: nat)
    requires c < 0x1_0000_0000
    ensures r < 256 && g < 256 && b < 256 && a < 256
    ensures c == Pack(r, g, b, a)
  {
    a := c % 0x100;
    var c1 := c / 0x100;
    b := c1 % 0x100;
    var c2 := c1 / 0x100;
    g := c2 % 0x100;
    r := c2 / 0x100;
    assert c == c1 * 0x100 + a;
    assert c1 == c2 * 0x100 + b;
    assert c2 == r * 0x100 + g;
    assert c == ((r * 0x100 + g) * 0x100 + b) * 0x100 + a;
    assert c == Pack(r, g, b, a);
  }

  /** Packing four bytes and decoding gives the four bytes back; in
      particular `color2rgb` recovers R, G and B whatever the alpha. */
  lemma PackThenDecode(r: nat, g: nat, b: nat, a: nat)
    requires r < 256 && g < 256 && b < 256 && a < 256
    ensures Pack(r, g, b, a) < 0x1_0000_0000
    ensures DecodeRgba(Pack(r, g, b, a)) == Rgba(r, g, b, a)
    ensures Color2Rgb(Pack(r, g, b, a)) == Rgb(r, g, b)
  {
    PackBytes(r, g, b, a);
  }

  /** Decoding a 32-bit colour and packing the four channels again gives
      the colour back. */
  lemma DecodeThenPack(color: nat)
    requires color < 0x1_0000_0000
    ensures var q := DecodeRgba(color); Pack(q.r, q.g, q.b, q.a) == color
  {
    var r, g, b, a := Unpack(color);
    PackThenDecode(r, g, b, a);
  }

  /** Zero, the transparent-black colour the walk treats as "no colour",
      renders as the numeral "00000000" and decodes to black. */
  lemma ZeroDecodesToBlack()
    ensures PadTo8(ToHex(0)) == "00000000"
    ensures Color2Rgb(0) == Rgb(0, 0, 0)
  {
  }
}
