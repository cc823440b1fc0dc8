/**
 * Addresses as the library represents them: a family tag and the raw bytes
 * (`IP.bytes`), the IPv4 byte and text initialisers, the IPv4 constants, the
 * cross-family comparison `isEqual(to:)` and the classification predicates
 * whose rules do not depend on a named IPv6 constant. Everything here is
 * shared by the two copies of the library (Sources/unkoip and Sources/swiftIP),
 * whose code for these members is identical.
 */
module Address {
  import opened Wrappers
  import opened Collections
  import opened Text
  import opened Bytes

  /** `_v4BytesLength` and `_v6BytesLength`. */
  const V4Length: nat := 4
  const V6Length: nat := 16

  /** `_v4InV6Prefix`: ten zero bytes then 0xFF, 0xFF, the IPv4-mapped prefix
      of section 2.5.5.2 of RFC 4291. */
  const MappedPrefix: seq<byte> := [0, 0, 0, 0, 0, 0, 0, 0, 0, 0, 0xFF, 0xFF]

  /** A value of the `IP` protocol: `V4` is the `IPv4` struct, `V6` the `IPv6`
      struct; `isIPv4` is `V4?` and `isIPv6` is `V6?`. */
  datatype IP = V4(bytes: seq<byte>) | V6(bytes: seq<byte>) {
    /** What the failable initialisers guarantee of every value they build. */
    predicate Valid() {
      |bytes| == if V4? then V4Length else V6Length
    }
  }

  /** `IPv4.init?(from: [UInt8])`: exactly four bytes, kept as given. */
  function IPv4FromBytes(b: seq<byte>): (r: Option<IP>)
    ensures r.Some? <==> |b| == 4
    ensures r.Some? ==> r.value.V4? && r.value.bytes == b && r.value.Valid()
  {
    if |b| != V4Length then None else Some(V4(b))
  }

  /** `UInt8(segment)`: a decimal byte. */
  function ParseDecimalByte(s: string): (r: Option<byte>)
    ensures r.Some? <==> IsDigits(s, 10) && DigitsValue(s, 10) <= 255
    ensures r.Some? ==> r.value as nat == DigitsValue(s, 10)
  {
    match ParseUnsigned(s, 10, 255)
    case Some(v) => ByteOfNat(v); Some(v as byte)
    case None => None
  }

  /** The bytes `IPv4.init?(from: String)` hands to the byte initialiser:
      the dot-separated segments that parse as decimal bytes, the others dropped. */
  function DottedBytes(s: string): seq<byte>
  {
    CompactMap(Split(s, "."), ParseDecimalByte)
  }

  /** `IPv4.init?(from: String)`. */
  function ParseIPv4(s: string): (r: Option<IP>)
    ensures r.Some? ==> r.value.V4? && r.value.Valid()
  {
    IPv4FromBytes(DottedBytes(s))
  }

  /** Some dot-separated segment of `s` parses to `b`. */
  predicate IsSegmentValue(s: string, b: byte)
  {
    exists k :: 0 <= k < |Split(s, ".")| && ParseDecimalByte(Split(s, ".")[k]) == Some(b)
  }

  /** The text parser succeeds exactly when four segments survive; those are the
      address bytes, each the value of some segment of the text. More precisely,
      with `ks` the positions of the segments that parse as decimal bytes, the
      parser succeeds iff there are four of them, and byte `j` is then the value
      of segment `ks[j]`: the positions increase, and no segment that parses is
      skipped, so the bytes are the parsing segments' values in text order. */
  lemma ParseIPv4Survivors(s: string)
    ensures ParseIPv4(s).Some? <==> |DottedBytes(s)| == 4
    ensures ParseIPv4(s).Some? ==> forall j :: 0 <= j < 4 ==> IsSegmentValue(s, ParseIPv4(s).value.bytes[j])
    ensures ParseIPv4(s).Some? <==> |KeptIndices(Split(s, "."), ParseDecimalByte)| == 4
    ensures ParseIPv4(s).Some? ==>
              var segs, ks := Split(s, "."), KeptIndices(Split(s, "."), ParseDecimalByte);
              forall j :: 0 <= j < 4 ==> ks[j] < |segs| && ParseDecimalByte(segs[ks[j]]) == Some(ParseIPv4(s).value.bytes[j])
    ensures var ks := KeptIndices(Split(s, "."), ParseDecimalByte);
              forall j, k :: 0 <= j < k < |ks| ==> ks[j] < ks[k]
    ensures var segs, ks := Split(s, "."), KeptIndices(Split(s, "."), ParseDecimalByte);
              forall i :: 0 <= i < |segs| && ParseDecimalByte(segs[i]).Some? ==> i in ks
  {
    CompactMapOrder(Split(s, "."), ParseDecimalByte);
    if ParseIPv4(s).Some? {
      assert ParseIPv4(s).value.bytes == DottedBytes(s);
      forall j | 0 <= j < 4 ensures IsSegmentValue(s, ParseIPv4(s).value.bytes[j]) {
        var xs := Split(s, ".");
        CompactMapKept(xs, ParseDecimalByte, j);
        var k :| 0 <= k < |xs| && ParseDecimalByte(xs[k]) == Some(CompactMap(xs, ParseDecimalByte)[j]);
        assert ParseDecimalByte(Split(s, ".")[k]) == Some(ParseIPv4(s).value.bytes[j]);
      }
    }
  }

  /** When the text has exactly four segments the parser succeeds iff each is a
      decimal byte, and the address is those four values in order. */
  lemma {:induction false} ParseIPv4FourSegments(s: string)
    requires |Split(s, ".")| == 4
    ensures ParseIPv4(s).Some? <==> forall k :: 0 <= k < 4 ==> ParseDecimalByte(Split(s, ".")[k]).Some?
    ensures ParseIPv4(s).Some? ==> forall k :: 0 <= k < 4 ==>
              Some(ParseIPv4(s).value.bytes[k]) == ParseDecimalByte(Split(s, ".")[k])
  {
    CompactMapAll(Split(s, "."), ParseDecimalByte);
  }

  /** Fewer than four segments, i.e. fewer than three dots, always fails. */
  lemma ParseIPv4TooFewDots(s: string)
    requires Count(s, '.') < 3
    ensures ParseIPv4(s).None?
  {
    SplitCount(s, '.');
  }

  // ----- constants -----

  /** `IPv4.zero`, 0.0.0.0. */
  function Zero4(): (ip: IP)
    ensures ip.Valid() && ip.V4? && forall i :: 0 <= i < 4 ==> ip.bytes[i] == 0
  {
    IPv4FromBytes([0, 0, 0, 0]).value
  }

  /** `IPv4.boardcast`, 255.255.255.255. */
  function Broadcast4(): (ip: IP)
    ensures ip.Valid() && ip.V4? && forall i :: 0 <= i < 4 ==> ip.bytes[i] == 0xFF
  {
    IPv4FromBytes([255, 255, 255, 255]).value
  }

  // ----- comparison -----

  /** `isEqual(to:)` as written. Within one family it compares the bytes. In the
      mixed branches the slice `bytes[...12]` is a closed range of thirteen
      bytes, compared with the twelve-byte mapped prefix. */
  function IsEqual(a: IP, b: IP): bool
    requires a.Valid() && b.Valid()
  {
    match (a, b)
    case (V4(x), V4(y)) => x == y
    case (V4(x), V6(y)) => y[..13] == MappedPrefix && x == y[12..]
    case (V6(x), V4(y)) => x[..13] == MappedPrefix && y == x[12..]
    case (V6(x), V6(y)) => x == y
  }

  /** `isEqual` is symmetric. */
  lemma IsEqualSymmetric(a: IP, b: IP)
    requires a.Valid() && b.Valid()
    ensures IsEqual(a, b) == IsEqual(b, a)
  {
  }

  /** Within one family `isEqual` is equality of the addresses. */
  lemma IsEqualSameFamily(a: IP, b: IP)
    requires a.Valid() && b.Valid() && a.V4? == b.V4?
    ensures IsEqual(a, b) <==> a == b
  {
  }

  /** As written, an IPv4 address is never equal to an IPv6 address, not even to
      its own IPv4-mapped form: the thirteen-byte slice cannot equal the
      twelve-byte prefix. */
  lemma IsEqualMixedNever(a: IP, b: IP)
    requires a.Valid() && b.Valid() && a.V4? != b.V4?
    ensures !IsEqual(a, b)
  {
    if a.V4? { assert |b.bytes[..13]| != |MappedPrefix|; }
    else { assert |a.bytes[..13]| != |MappedPrefix|; }
  }

  // ----- classification predicates that use no IPv6 constant -----

  /** `isZero`: some byte is zero (not: every byte is zero). */
  predicate IsZero(ip: IP)
  {
    0 in ip.bytes
  }

  /** `isMulticast`. */
  predicate IsMulticast(ip: IP)
    requires ip.Valid()
  {
    (ip.V4? && ip.bytes[0] & 0xF0 == 0xE0) || (ip.V6? && ip.bytes[0] == 0xFF)
  }

  /** `isInterfaceLocalMulticast`. */
  predicate IsInterfaceLocalMulticast(ip: IP)
    requires ip.Valid()
  {
    ip.V6? && ip.bytes[0] == 0xFF && ip.bytes[1] & 0x0F == 0x01
  }

  /** `isLinkLocalMulticast`. */
  predicate IsLinkLocalMulticast(ip: IP)
    requires ip.Valid()
  {
    (ip.V4? && ip.bytes[0] == 224 && ip.bytes[1] == 0 && ip.bytes[2] == 0) ||
    (ip.V6? && ip.bytes[0] == 0xFF && ip.bytes[1] & 0x0F == 0x02)
  }

  /** `isLinkLocalUnicast`. */
  predicate IsLinkLocalUnicast(ip: IP)
    requires ip.Valid()
  {
    (ip.V4? && ip.bytes[0] == 169 && ip.bytes[1] == 254) ||
    (ip.V6? && ip.bytes[0] == 0xFE && ip.bytes[1] & 0xC0 == 0x80)
  }

  /** `isZero` holds of every address with a zero byte anywhere, e.g. 10.0.0.1,
      and fails for an address with no zero byte. */
  lemma IsZeroMeansSomeZeroByte(ip: IP)
    ensures IsZero(ip) <==> exists i :: 0 <= i < |ip.bytes| && ip.bytes[i] == 0
    ensures IsZero(V4([10, 0, 0, 1])) && !IsZero(V4([10, 1, 1, 1]))
  {
    assert V4([10, 0, 0, 1]).bytes[1] == 0;
  }

  /** The multicast block as a range: 224.0.0.0/4 for IPv4 (first byte 224 to
      239), ff00::/8 for IPv6 (section 2.7 of RFC 4291). */
  lemma MulticastBlocks(ip: IP)
    requires ip.Valid()
    ensures ip.V4? ==> (IsMulticast(ip) <==> 224 <= ip.bytes[0] <= 239)
    ensures ip.V6? ==> (IsMulticast(ip) <==> ip.bytes[0] == 0xFF)
  {
  }

  /** The scoped multicast predicates select subsets of the multicast block. The
      IPv6 ones read the scope nibble (the low four bits of the second byte):
      1 is interface-local, 2 is link-local, and on IPv6 each scope is exactly
      the multicast addresses with that nibble. IPv4 link-local multicast is
      224.0.0.0/24. No IPv4 address is interface-local multicast. */
  lemma ScopedMulticast(ip: IP)
    requires ip.Valid()
    ensures IsInterfaceLocalMulticast(ip) ==> IsMulticast(ip) && ip.V6? && ip.bytes[1] as int % 16 == 1
    ensures IsLinkLocalMulticast(ip) && ip.V6? ==> IsMulticast(ip) && ip.bytes[1] as int % 16 == 2
    ensures IsLinkLocalMulticast(ip) && ip.V4? ==> IsMulticast(ip)
    ensures !(IsInterfaceLocalMulticast(ip) && IsLinkLocalMulticast(ip))
    ensures ip.V6? ==> (IsInterfaceLocalMulticast(ip) <==> IsMulticast(ip) && ip.bytes[1] as int % 16 == 1)
    ensures ip.V6? ==> (IsLinkLocalMulticast(ip) <==> IsMulticast(ip) && ip.bytes[1] as int % 16 == 2)
    ensures ip.V4? ==> (IsLinkLocalMulticast(ip) <==> ip.bytes[0] == 224 && ip.bytes[1] == 0 && ip.bytes[2] == 0)
  {
  }

  /** Link-local unicast is 169.254.0.0/16 for IPv4 (RFC 3927) and fe80::/10 for
      IPv6 (section 2.5.6 of RFC 4291), and is never multicast. */
  lemma LinkLocalUnicastBlocks(ip: IP)
    requires ip.Valid()
    ensures ip.V6? ==> (IsLinkLocalUnicast(ip) <==> ip.bytes[0] == 0xFE && 0x80 <= ip.bytes[1] <= 0xBF)
    ensures IsLinkLocalUnicast(ip) ==> !IsMulticast(ip)
  {
  }
}
