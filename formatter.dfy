/**
 * `IPv4.Formatter.string(from:)`, identical in both copies of the library:
 * three dotted styles that render each byte and join the renderings with
 * `"."`, and three integer styles that fold the bytes into a Swift `Int` and
 * render that integer. The formatter accepts any `IP`, so the integer fold is
 * modelled for any number of bytes, including the 64-bit wrap-around that
 * happens for the sixteen bytes of an IPv6 address.
 */
module Formatter {
  import opened Wrappers
  import opened Collections
  import opened Text
  import opened Bytes
  import opened Address

  /** `IPv4.Formatter.Style`; the six static formatters are its six values. */
  datatype Style = DotDecimal | DotHexadecimal | DotOctal | Decimal | Hexadecimal | Octal {
    predicate Dotted() {
      DotDecimal? || DotHexadecimal? || DotOctal?
    }
  }

  // ----- the dotted styles -----

  /** How a dotted style renders one byte: `String($0)`, `String(format: "0x%02X", $0)`
      or `String(format: "%04O", $0)`. */
  function ByteText(b: byte, style: Style): string
    requires style.Dotted()
  {
    match style
    case DotDecimal => Digits(b as nat, 10)
    case DotHexadecimal => "0x" + PadZeros(Digits(b as nat, 16), 2)
    case DotOctal => PadZeros(Digits(b as nat, 8), 4)
  }

  /** `bytes.map { ... }` with the renderer of a dotted style. */
  function ByteTexts(bytes: seq<byte>, style: Style): (r: seq<string>)
    requires style.Dotted()
    ensures |r| == |bytes|
    ensures forall i :: 0 <= i < |bytes| ==> r[i] == ByteText(bytes[i], style)
  {
    if |bytes| == 0 then [] else [ByteText(bytes[0], style)] + ByteTexts(bytes[1..], style)
  }

  // ----- the integer styles -----

  /** 2^64 and 2^63: Swift's `Int` is a 64-bit two's complement integer. */
  const IntModulus: int := 0x1_0000_0000_0000_0000
  const IntHalf: int := 0x8000_0000_0000_0000

  /** The `Int` whose bit pattern is the low 64 bits of `x`. */
  function WrapInt(x: int): (r: int)
    ensures -IntHalf <= r < IntHalf
    ensures (r - x) % IntModulus == 0
  {
    var w := x % IntModulus;
    if w >= IntHalf then w - IntModulus else w
  }

  /** `acc << 8` on `Int`: a smart shift, so bits moved past bit 63 are discarded (no trap). */
  function ShiftLeft8(acc: int): int
  {
    WrapInt(acc * 256)
  }

  /** `bytes.reduce(0) { ($0 << 8) + Int($1) }`. The addition cannot overflow:
      the shifted value has its low eight bits clear. */
  function Fold(bytes: seq<byte>): int
  {
    if |bytes| == 0 then 0 else ShiftLeft8(Fold(bytes[..|bytes| - 1])) + bytes[|bytes| - 1] as int
  }

  /** The bytes read as an unbounded big-endian number. */
  function BigEndian(bytes: seq<byte>): nat
  {
    if |bytes| == 0 then 0 else BigEndian(bytes[..|bytes| - 1]) * 256 + bytes[|bytes| - 1] as int
  }

  /** `String(v, radix:, uppercase: true)` of an `Int`: a minus sign, then the digits of the magnitude. */
  function IntText(v: int, radix: nat): (s: string)
    requires 2 <= radix <= 16
  {
    if v < 0 then "-" + Digits(-v, radix) else Digits(v, radix)
  }

  // ----- the formatter -----

  /** `IPv4.Formatter.string(from:)` in the given style. */
  function Format(ip: IP, style: Style): string
  {
    match style
    case DotDecimal => Join(ByteTexts(ip.bytes, style), ".")
    case DotHexadecimal => Join(ByteTexts(ip.bytes, style), ".")
    case DotOctal => Join(ByteTexts(ip.bytes, style), ".")
    case Decimal => IntText(Fold(ip.bytes), 10)
    case Hexadecimal => "0x" + IntText(Fold(ip.bytes), 16)
    case Octal => "0" + IntText(Fold(ip.bytes), 8)
  }

  // ----- properties of the integer fold -----

  /** Two integers with the same residue modulo 2^64 wrap to the same `Int`. */
  lemma WrapCongruent(x: int, y: int)
    requires (x - y) % IntModulus == 0
    ensures WrapInt(x) == WrapInt(y)
  {
    var k := (x - y) / IntModulus;
    assert x == y + k * IntModulus;
    assert x % IntModulus == y % IntModulus;
  }

  /** Adding a byte to a value whose low eight bits are clear commutes with the wrap. */
  lemma WrapAddByte(w: int, x: int)
    requires w % 256 == 0 && 0 <= x < 256
    ensures WrapInt(w) + x == WrapInt(w + x)
  {
    var q := w / IntModulus;
    var r := w % IntModulus;
    assert w == q * IntModulus + r;
    assert r % 256 == 0;
    assert w + x == q * IntModulus + (r + x);
    assert r + x < IntModulus;
    assert (w + x) % IntModulus == r + x;
  }

  lemma MultipleOf256(t: int)
    ensures (t * 256) % 256 == 0
  {
  }

  /** One step of the fold on a wrapped accumulator is one step of the
      big-endian value, wrapped. */
  lemma FoldStep(v: int, x: int)
    requires 0 <= x < 256
    ensures ShiftLeft8(WrapInt(v)) + x == WrapInt(v * 256 + x)
  {
    var t := WrapInt(v);
    assert (t * 256 - v * 256) % IntModulus == 0 by {
      var k := (t - v) / IntModulus;
      assert t - v == k * IntModulus;
      assert t * 256 - v * 256 == (k * 256) * IntModulus;
    }
    WrapCongruent(t * 256, v * 256);
    MultipleOf256(v);
    WrapAddByte(v * 256, x);
  }

  /** The fold computes the big-endian value, wrapped into 64-bit `Int`. */
  lemma {:induction false} FoldIsWrappedBigEndian(bytes: seq<byte>)
    ensures Fold(bytes) == WrapInt(BigEndian(bytes))
  {
    if |bytes| > 0 {
      var init := bytes[..|bytes| - 1];
      FoldIsWrappedBigEndian(init);
      FoldStep(BigEndian(init), bytes[|bytes| - 1] as int);
    }
  }

  /** A big-endian value of `n` bytes is below 256^n. */
  function Pow256(n: nat): (p: nat)
    ensures p >= 1
  {
    if n == 0 then 1 else 256 * Pow256(n - 1)
  }

  lemma {:induction false} BigEndianBound(bytes: seq<byte>)
    ensures BigEndian(bytes) < Pow256(|bytes|)
  {
    if |bytes| > 0 {
      var init := bytes[..|bytes| - 1];
      BigEndianBound(init);
      assert BigEndian(init) + 1 <= Pow256(|init|);
      assert (BigEndian(init) + 1) * 256 <= Pow256(|init|) * 256;
    }
  }

  lemma {:induction false} Pow256Monotone(m: nat, n: nat)
    requires m <= n
    ensures Pow256(m) <= Pow256(n)
    decreases n
  {
    if m < n { Pow256Monotone(m, n - 1); }
  }

  /** Up to seven bytes the fold does not wrap: it is the big-endian value. In
      particular an IPv4 address folds to its 32-bit value. */
  lemma FoldShort(bytes: seq<byte>)
    requires |bytes| <= 7
    ensures Fold(bytes) == BigEndian(bytes)
    ensures |bytes| == 4 ==> Fold(bytes) < 0x1_0000_0000
  {
    FoldIsWrappedBigEndian(bytes);
    BigEndianBound(bytes);
    Pow256Monotone(|bytes|, 7);
    assert Pow256(7) == 0x100_0000_0000_0000;
    if |bytes| == 4 { assert Pow256(4) == 0x1_0000_0000; }
  }

  // ----- what the styles render -----

  /** The integer styles of an IPv4 address render its 32-bit big-endian value
      in radix 10, 16 (after "0x") and 8 (after "0"), with no minus sign. */
  lemma IntegerStylesOfIPv4(ip: IP)
    requires ip.Valid() && ip.V4?
    ensures var v := BigEndian(ip.bytes);
      Format(ip, Decimal) == Digits(v, 10) &&
      Format(ip, Hexadecimal) == "0x" + Digits(v, 16) &&
      Format(ip, Octal) == "0" + Digits(v, 8)
    ensures IsDigits(Format(ip, Decimal), 10) && DigitsValue(Format(ip, Decimal), 10) == BigEndian(ip.bytes)
  {
    FoldShort(ip.bytes);
    DigitsRoundTrip(BigEndian(ip.bytes), 10);
  }

  /** On the sixteen bytes of an IPv6 address the integer styles render the
      wrapped value: a signed 64-bit integer, negative when bit 63 of the
      big-endian value is set (then rendered with a leading "-"). */
  lemma IntegerStylesOfIPv6(ip: IP)
    requires ip.Valid() && ip.V6?
    ensures Fold(ip.bytes) == WrapInt(BigEndian(ip.bytes))
    ensures Format(ip, Decimal)[0] == '-' <==> Fold(ip.bytes) < 0
  {
    FoldIsWrappedBigEndian(ip.bytes);
    if Fold(ip.bytes) >= 0 {
      DigitsRoundTrip(Fold(ip.bytes), 10);
      assert DigitValue(Format(ip, Decimal)[0], 10).Some?;
    }
  }

  /** Dotted decimal text parses back to the address: `IPv4(from: ip.string())` is `ip`. */
  lemma DotDecimalRoundTrip(ip: IP)
    requires ip.Valid() && ip.V4?
    ensures ParseIPv4(Format(ip, DotDecimal)) == Some(ip)
  {
    var parts := ByteTexts(ip.bytes, DotDecimal);
    forall k | 0 <= k < |parts| ensures '.' !in parts[k] && ParseDecimalByte(parts[k]) == Some(ip.bytes[k]) {
      DecimalByteRoundTrip(ip.bytes[k]);
    }
    SplitJoin(parts, '.');
    CompactMapAll(parts, ParseDecimalByte);
    assert DottedBytes(Format(ip, DotDecimal)) == ip.bytes;
  }

  /** The converse round trip: four canonical decimal segments (no leading
      zeros, none above 255) joined by "." parse to an address whose
      dotted-decimal rendering is the text again. */
  lemma CanonicalTextRoundTrip(parts: seq<string>)
    requires |parts| == 4
    requires forall k :: 0 <= k < 4 ==> DigitsValue(parts[k], 10) <= 255
    requires forall k :: 0 <= k < 4 ==> parts[k] == Digits(DigitsValue(parts[k], 10), 10)
    ensures ParseIPv4(Join(parts, ".")).Some?
    ensures Format(ParseIPv4(Join(parts, ".")).value, DotDecimal) == Join(parts, ".")
  {
    var bs := seq(4, k requires 0 <= k < 4 => ByteOfValue(DigitsValue(parts[k], 10)));
    CanonicalTexts(parts, bs);
    FormatDotted(V4(bs), DotDecimal);
    DotDecimalRoundTrip(V4(bs));
  }

  /** Canonical decimal segments are the dotted-decimal texts of their values. */
  lemma CanonicalTexts(parts: seq<string>, bs: seq<byte>)
    requires |parts| == 4 && |bs| == 4
    requires forall k :: 0 <= k < 4 ==> parts[k] == Digits(bs[k] as nat, 10)
    ensures ByteTexts(bs, DotDecimal) == parts
  {
    var texts := ByteTexts(bs, DotDecimal);
    forall k | 0 <= k < 4 ensures texts[k] == parts[k] {
      assert texts[k] == ByteText(bs[k], DotDecimal);
    }
  }

  /** A value below 256 as a byte. */
  function ByteOfValue(v: nat): (b: byte)
    requires v <= 255
    ensures b as nat == v
  {
    ByteOfNat(v);
    v as byte
  }

  /** One byte in decimal: digits only, and they parse back to the byte. */
  lemma DecimalByteRoundTrip(b: byte)
    ensures '.' !in Digits(b as nat, 10)
    ensures ParseDecimalByte(Digits(b as nat, 10)) == Some(b)
  {
    DigitsRoundTrip(b as nat, 10);
    NotInDigits(Digits(b as nat, 10), 10, '.');
  }

  /** The components of a dotted rendering, recovered by splitting on ".": in
      hexadecimal each is "0x" and exactly two hex digits, in octal exactly
      four octal digits, and in every dotted style the digits give back the byte. */
  lemma DottedComponents(ip: IP, style: Style)
    requires style.Dotted()
    requires |ip.bytes| > 0
    ensures Split(Format(ip, style), ".") == ByteTexts(ip.bytes, style)
    ensures forall i :: 0 <= i < |ip.bytes| ==> ByteTextValue(ByteText(ip.bytes[i], style), style) == Some(ip.bytes[i] as nat)
  {
    var parts := ByteTexts(ip.bytes, style);
    forall k | 0 <= k < |parts|
      ensures '.' !in parts[k]
      ensures ByteTextValue(parts[k], style) == Some(ip.bytes[k] as nat)
    {
      ByteTextRoundTrip(ip.bytes[k], style);
    }
    SplitJoin(parts, '.');
  }

  /** Reads one component of a dotted style back: decimal digits; "0x" and two
      hex digits; four octal digits. */
  function ByteTextValue(s: string, style: Style): Option<nat>
    requires style.Dotted()
  {
    match style
    case DotDecimal => if IsDigits(s, 10) then Some(DigitsValue(s, 10)) else None
    case DotHexadecimal =>
      if |s| == 4 && s[..2] == "0x" && IsDigits(s[2..], 16) then Some(DigitsValue(s[2..], 16)) else None
    case DotOctal => if |s| == 4 && IsDigits(s, 8) then Some(DigitsValue(s, 8)) else None
  }

  lemma ByteTextRoundTrip(b: byte, style: Style)
    requires style.Dotted()
    ensures '.' !in ByteText(b, style)
    ensures ByteTextValue(ByteText(b, style), style) == Some(b as nat)
  {
    match style
    case DotDecimal => DecimalTextRoundTrip(b);
    case DotHexadecimal => HexTextRoundTrip(b);
    case DotOctal => OctalTextRoundTrip(b);
  }

  lemma DecimalTextRoundTrip(b: byte)
    ensures '.' !in ByteText(b, DotDecimal)
    ensures ByteTextValue(ByteText(b, DotDecimal), DotDecimal) == Some(b as nat)
  {
    DigitsRoundTrip(b as nat, 10);
    NotInDigits(Digits(b as nat, 10), 10, '.');
  }

  lemma HexTextRoundTrip(b: byte)
    ensures '.' !in ByteText(b, DotHexadecimal)
    ensures ByteTextValue(ByteText(b, DotHexadecimal), DotHexadecimal) == Some(b as nat)
  {
    var d := PadZeros(Digits(b as nat, 16), 2);
    PaddedRoundTrip(b as nat, 16, 2);
    NotInDigits(d, 16, '.');
    HexPrefixed(d);
  }

  /** Two hex digits after "0x" read back as their value, with no '.' added. */
  lemma HexPrefixed(d: string)
    requires |d| == 2 && IsDigits(d, 16) && '.' !in d
    ensures '.' !in "0x" + d
    ensures ByteTextValue("0x" + d, DotHexadecimal) == Some(DigitsValue(d, 16))
  {
    var s := "0x" + d;
    assert s[..2] == "0x" && s[2..] == d;
  }

  lemma OctalTextRoundTrip(b: byte)
    ensures '.' !in ByteText(b, DotOctal)
    ensures ByteTextValue(ByteText(b, DotOctal), DotOctal) == Some(b as nat)
  {
    PaddedRoundTrip(b as nat, 8, 4);
    NotInDigits(ByteText(b, DotOctal), 8, '.');
  }

  /** A byte padded to `width` digits has exactly `width` digits (a byte needs
      at most two hex or three octal digits) whose value is the byte. */
  lemma PaddedRoundTrip(n: nat, radix: nat, width: nat)
    requires n < 256
    requires (radix == 16 && width == 2) || (radix == 8 && width == 4)
    ensures |PadZeros(Digits(n, radix), width)| == width
    ensures IsDigits(PadZeros(Digits(n, radix), width), radix)
    ensures DigitsValue(PadZeros(Digits(n, radix), width), radix) == n
  {
    var d := Digits(n, radix);
    DigitsRoundTrip(n, radix);
    DigitsLength(n, radix);
    if |d| < width {
      LeadingZerosValue(d, width - |d|, radix);
    }
  }

  /** The digit counts a byte needs: at most two in hexadecimal, three in octal. */
  lemma DigitsLength(n: nat, radix: nat)
    requires n < 256 && (radix == 16 || radix == 8)
    ensures radix == 16 ==> |Digits(n, radix)| <= 2
    ensures radix == 8 ==> |Digits(n, radix)| <= 3
  {
    if n >= radix {
      DivStep(n, radix);
      var q := n / radix;
      assert |Digits(n, radix)| == |Digits(q, radix)| + 1;
      if q >= radix {
        DivStep(q, radix);
        assert radix == 8 && q < 32;
        assert q / radix < radix;
        assert |Digits(q, radix)| == 2;
      }
    }
  }

  // ----- the formats pinned by example -----

  lemma FormatDotted(ip: IP, style: Style)
    requires style.Dotted()
    ensures Format(ip, style) == Join(ByteTexts(ip.bytes, style), ".")
  {
  }

  lemma ByteTextsOfFour(a: seq<byte>, style: Style)
    requires |a| == 4 && style.Dotted()
    ensures ByteTexts(a, style) == [ByteText(a[0], style), ByteText(a[1], style), ByteText(a[2], style), ByteText(a[3], style)]
  {
  }

  /** 192.0.2.235 in the three dotted styles. */
  lemma DottedDecimalExample()
    ensures Format(V4([192, 0, 2, 235]), DotDecimal) == "192.0.2.235"
  {
    FormatDotted(V4([192, 0, 2, 235]), DotDecimal);
    ByteTextsOfFour([192, 0, 2, 235], DotDecimal);
    Decimal192();
    Decimal235();
    JoinDecimalExample();
  }

  lemma DottedHexadecimalExample()
    ensures Format(V4([192, 0, 2, 235]), DotHexadecimal) == "0xC0.0x00.0x02.0xEB"
  {
    FormatDotted(V4([192, 0, 2, 235]), DotHexadecimal);
    ByteTextsOfFour([192, 0, 2, 235], DotHexadecimal);
    Hex192();
    Hex0();
    Hex2();
    Hex235();
    JoinHexExample();
  }

  lemma DottedOctalExample()
    ensures Format(V4([192, 0, 2, 235]), DotOctal) == "0300.0000.0002.0353"
  {
    FormatDotted(V4([192, 0, 2, 235]), DotOctal);
    ByteTextsOfFour([192, 0, 2, 235], DotOctal);
    Octal192();
    Octal0();
    Octal2();
    Octal235();
    JoinOctalExample();
  }

  /** 192.0.2.235 as one integer in the three integer styles. */
  lemma DecimalExample()
    ensures Format(V4([192, 0, 2, 235]), Decimal) == "3221226219"
  {
    FoldExample();
    assert Digits(3221226219, 10) == "3221226219";
  }

  lemma HexadecimalExample()
    ensures Format(V4([192, 0, 2, 235]), Hexadecimal) == "0xC00002EB"
  {
    FoldExample();
    assert Digits(3221226219, 16) == "C00002EB";
  }

  lemma OctalExample()
    ensures Format(V4([192, 0, 2, 235]), Octal) == "030000001353"
  {
    FoldExample();
    OctalDigitsExample();
  }

  /** 255.255.255.255 in dotted decimal and dotted hexadecimal. */
  lemma BroadcastDecimalExample()
    ensures Format(V4([255, 255, 255, 255]), DotDecimal) == "255.255.255.255"
  {
    FormatDotted(V4([255, 255, 255, 255]), DotDecimal);
    ByteTextsOfFour([255, 255, 255, 255], DotDecimal);
    Decimal255();
    JoinBroadcastExamples();
  }

  lemma BroadcastHexadecimalExample()
    ensures Format(V4([255, 255, 255, 255]), DotHexadecimal) == "0xFF.0xFF.0xFF.0xFF"
  {
    FormatDotted(V4([255, 255, 255, 255]), DotHexadecimal);
    ByteTextsOfFour([255, 255, 255, 255], DotHexadecimal);
    Hex255();
    JoinBroadcastExamples();
  }

  // The pieces the examples are assembled from.

  /** 192.0.2.235 folds to 3221226219 = 0xC00002EB. */
  lemma FoldExample()
    ensures Fold([192, 0, 2, 235]) == 3221226219
  {
    var a: seq<byte> := [192, 0, 2, 235];
    FoldShort(a);
    assert a[..3] == [192, 0, 2];
    assert a[..3][..2] == [192, 0];
    assert a[..3][..2][..1] == [192];
    assert BigEndian([192]) == 192;
    assert BigEndian([192, 0]) == 49152;
    assert BigEndian([192, 0, 2]) == 12582914;
  }

  lemma OctalDigitsExample() ensures Digits(3221226219, 8) == "30000001353" {
    OctalDigitsHigh();
    DigitsStep(3221226219, 8);
    DigitsStep(402653277, 8);
    DigitsStep(50331659, 8);
  }

  lemma OctalDigitsHigh() ensures Digits(6291457, 8) == "30000001" {
    DigitsStep(6291457, 8);
    DigitsStep(786432, 8);
    DigitsStep(98304, 8);
  }

  lemma Decimal192() ensures ByteText(192, DotDecimal) == "192" { assert Digits(192, 10) == "192"; }
  lemma Decimal235() ensures ByteText(235, DotDecimal) == "235" { assert Digits(235, 10) == "235"; }
  lemma Decimal255() ensures ByteText(255, DotDecimal) == "255" { assert Digits(255, 10) == "255"; }
  lemma Hex0() ensures ByteText(0, DotHexadecimal) == "0x00" {}
  lemma Hex2() ensures ByteText(2, DotHexadecimal) == "0x02" {}
  lemma Hex192() ensures ByteText(192, DotHexadecimal) == "0xC0" { assert Digits(192, 16) == "C0"; }
  lemma Hex235() ensures ByteText(235, DotHexadecimal) == "0xEB" { assert Digits(235, 16) == "EB"; }
  lemma Hex255() ensures ByteText(255, DotHexadecimal) == "0xFF" { assert Digits(255, 16) == "FF"; }
  lemma Octal0() ensures ByteText(0, DotOctal) == "0000" {}
  lemma Octal2() ensures ByteText(2, DotOctal) == "0002" {}
  lemma Octal192() ensures ByteText(192, DotOctal) == "0300" { assert Digits(192, 8) == "300"; }
  lemma Octal235() ensures ByteText(235, DotOctal) == "0353" { assert Digits(235, 8) == "353"; }

  lemma JoinDecimalExample() ensures Join(["192", "0", "2", "235"], ".") == "192.0.2.235" {}
  lemma JoinHexExample() ensures Join(["0xC0", "0x00", "0x02", "0xEB"], ".") == "0xC0.0x00.0x02.0xEB" {}
  lemma JoinOctalExample() ensures Join(["0300", "0000", "0002", "0353"], ".") == "0300.0000.0002.0353" {}
  lemma JoinBroadcastExamples()
    ensures Join(["255", "255", "255", "255"], ".") == "255.255.255.255"
    ensures Join(["0xFF", "0xFF", "0xFF", "0xFF"], ".") == "0xFF.0xFF.0xFF.0xFF"
  {
  }
}
