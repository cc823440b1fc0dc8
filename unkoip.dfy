/**
 * The complete copy of the library (Sources/unkoip): the IPv6 value with its
 * byte initialiser and its three text grammars, the conversions between the
 * families, the classification predicates that compare against the IPv4 and
 * IPv6 constants, and `defaultMask` / `masking(with:)`.
 */
module Unkoip {
  import opened Wrappers
  import opened Collections
  import opened Text
  import opened Bytes
  import opened Address
  import opened Masks

  /** Swift's `UInt16`. */
  type uint16 = x: int | 0 <= x < 0x1_0000

  /** `IPv6.init?(from: [UInt8])`: exactly sixteen bytes, kept as given. */
  function IPv6FromBytes(b: seq<byte>): (r: Option<IP>)
    ensures r.Some? <==> |b| == 16
    ensures r.Some? ==> r.value.V6? && r.value.bytes == b && r.value.Valid()
  {
    if |b| != V6Length then None else Some(V6(b))
  }

  // ----- the pieces of the IPv6 grammars -----

  /** `UInt16(s, radix: 16)`: a non-empty run of hexadecimal digits (either
      case) whose value fits in sixteen bits. */
  function HexGroup(s: string): (r: Option<uint16>)
    ensures r.Some? <==> IsDigits(s, 16) && DigitsValue(s, 16) <= 0xFFFF
    ensures r.Some? ==> r.value == DigitsValue(s, 16)
  {
    match ParseUnsigned(s, 16, 0xFFFF)
    case Some(v) => Some(v as uint16)
    case None => None
  }

  /** `UInt8(s, radix: 16)`: a non-empty run of hexadecimal digits whose value fits in a byte. */
  function HexByte(s: string): (r: Option<byte>)
    ensures r.Some? <==> IsDigits(s, 16) && DigitsValue(s, 16) <= 0xFF
    ensures r.Some? ==> r.value as nat == DigitsValue(s, 16)
  {
    match ParseUnsigned(s, 16, 0xFF)
    case Some(v) => ByteOfNat(v); Some(v as byte)
    case None => None
  }

  /** `toUInt8(from:)`: the high byte `(g & 0xFF00) >> 8`, then the low byte `g & 0xFF`. */
  function ToUInt8(g: uint16): (r: seq<byte>)
    ensures |r| == 2 && r[0] as int * 256 + r[1] as int == g
  {
    ByteOfNat(g / 256);
    ByteOfNat(g % 256);
    [(g / 256) as byte, (g % 256) as byte]
  }

  /** `.flatMap { toUInt8(from: $0) }`: every group as two big-endian bytes. */
  function GroupsBytes(gs: seq<uint16>): (r: seq<byte>)
    ensures |r| == 2 * |gs|
  {
    if |gs| == 0 then [] else ToUInt8(gs[0]) + GroupsBytes(gs[1..])
  }

  /** Bytes `2k` and `2k + 1` are group `k`, high byte first. */
  lemma {:induction false} GroupsBytesAt(gs: seq<uint16>, k: nat)
    requires k < |gs|
    ensures GroupsBytes(gs)[2 * k] as int * 256 + GroupsBytes(gs)[2 * k + 1] as int == gs[k]
  {
    var r := GroupsBytes(gs);
    if k == 0 {
      assert r[..2] == ToUInt8(gs[0]);
    } else {
      GroupsBytesAt(gs[1..], k - 1);
      assert r[2..] == GroupsBytes(gs[1..]);
      assert r[2 * k] == r[2..][2 * (k - 1)] && r[2 * k + 1] == r[2..][2 * (k - 1) + 1];
    }
  }

  /** `.compactMap { UInt16($0, radix: 16) }.flatMap { toUInt8(from: $0) }`:
      the groups that parse, two bytes each; the others are dropped. */
  function HexBytes(parts: seq<string>): (r: seq<byte>)
    ensures |r| == 2 * |CompactMap(parts, HexGroup)|
  {
    GroupsBytes(CompactMap(parts, HexGroup))
  }

  // ----- the three grammars -----

  /** `build(normal:)`: exactly eight `:`-separated groups. */
  function BuildNormal(s: string): Option<IP>
  {
    var cmpt := Split(s, ":");
    if |cmpt| != 8 then None else IPv6FromBytes(HexBytes(cmpt))
  }

  /** The full form succeeds exactly when there are eight groups and every one
      parses; bytes `2k` and `2k + 1` are then group `k`, big-endian. */
  lemma BuildNormalSpec(s: string)
    ensures BuildNormal(s).Some? <==>
              |Split(s, ":")| == 8 && forall k :: 0 <= k < 8 ==> HexGroup(Split(s, ":")[k]).Some?
    ensures BuildNormal(s).Some? ==> BuildNormal(s).value.V6? && BuildNormal(s).value.Valid()
    ensures BuildNormal(s).Some? ==> forall k :: 0 <= k < 8 ==>
              BuildNormal(s).value.bytes[2 * k] as int * 256 + BuildNormal(s).value.bytes[2 * k + 1] as int ==
              HexGroup(Split(s, ":")[k]).value
  {
    var cmpt := Split(s, ":");
    CompactMapAll(cmpt, HexGroup);
    if BuildNormal(s).Some? {
      var gs := CompactMap(cmpt, HexGroup);
      forall k | 0 <= k < 8
        ensures BuildNormal(s).value.bytes[2 * k] as int * 256 + BuildNormal(s).value.bytes[2 * k + 1] as int ==
                HexGroup(cmpt[k]).value
      {
        GroupsBytesAt(gs, k);
      }
    }
  }

  /** `build(doubleColon:)`. Exactly two `::`-separated halves; the parseable
      groups of each half become bytes and the gap is zero-filled. When the
      halves together exceed sixteen bytes the range `0..<(16 - pre - suf)` at
      Sources/unkoip/unkoip.swift:227 traps; that is modelled as failure. */
  function BuildDoubleColon(s: string): Option<IP>
  {
    var cmpt := Split(s, "::");
    if |cmpt| != 2 then None
    else
      var pre := HexBytes(Split(cmpt[0], ":"));
      var suf := HexBytes(Split(cmpt[1], ":"));
      if |pre| + |suf| > V6Length then None
      else IPv6FromBytes(pre + Repeat(0, V6Length - |pre| - |suf|) + suf)
  }

  /** The `::` form succeeds exactly when there are two halves whose groups fit
      in sixteen bytes; the address is the prefix bytes, zeros, then the suffix bytes. */
  lemma BuildDoubleColonSpec(s: string)
    ensures BuildDoubleColon(s).Some? <==>
              |Split(s, "::")| == 2 &&
              |HexBytes(Split(Split(s, "::")[0], ":"))| + |HexBytes(Split(Split(s, "::")[1], ":"))| <= 16
    ensures BuildDoubleColon(s).Some? ==>
              var pre := HexBytes(Split(Split(s, "::")[0], ":"));
              var suf := HexBytes(Split(Split(s, "::")[1], ":"));
              var b := BuildDoubleColon(s).value.bytes;
              BuildDoubleColon(s).value.V6? && |b| == 16 &&
              b[..|pre|] == pre && b[16 - |suf|..] == suf &&
              forall i :: |pre| <= i < 16 - |suf| ==> b[i] == 0
  {
    if BuildDoubleColon(s).Some? {
      var cmpt := Split(s, "::");
      var pre := HexBytes(Split(cmpt[0], ":"));
      var suf := HexBytes(Split(cmpt[1], ":"));
      var z := Repeat(0 as byte, 16 - |pre| - |suf|);
      var b := BuildDoubleColon(s).value.bytes;
      assert b == pre + z + suf;
      assert b[..|pre|] == pre;
      assert b[16 - |suf|..] == suf;
      forall i | |pre| <= i < 16 - |suf| ensures b[i] == 0 {
        assert b[i] == z[i - |pre|];
      }
    }
  }

  /** In a `::` address the prefix bytes are the prefix half's parseable
      groups in order and the suffix bytes, which end at byte 16, are the
      suffix half's, each group high byte first. */
  lemma BuildDoubleColonGroups(s: string)
    ensures BuildDoubleColon(s).Some? ==>
              var gp := CompactMap(Split(Split(s, "::")[0], ":"), HexGroup);
              var b := BuildDoubleColon(s).value.bytes;
              2 * |gp| <= 16 && forall k :: 0 <= k < |gp| ==> b[2 * k] as int * 256 + b[2 * k + 1] as int == gp[k]
    ensures BuildDoubleColon(s).Some? ==>
              var gq := CompactMap(Split(Split(s, "::")[1], ":"), HexGroup);
              var b := BuildDoubleColon(s).value.bytes;
              var o := 16 - 2 * |gq|;
              0 <= o && forall k :: 0 <= k < |gq| ==> b[o + 2 * k] as int * 256 + b[o + 2 * k + 1] as int == gq[k]
  {
    if BuildDoubleColon(s).Some? {
      BuildDoubleColonSpec(s);
      var cmpt := Split(s, "::");
      var gp := CompactMap(Split(cmpt[0], ":"), HexGroup);
      var gq := CompactMap(Split(cmpt[1], ":"), HexGroup);
      var pre := HexBytes(Split(cmpt[0], ":"));
      var suf := HexBytes(Split(cmpt[1], ":"));
      var b := BuildDoubleColon(s).value.bytes;
      forall k | 0 <= k < |gp| ensures b[2 * k] as int * 256 + b[2 * k + 1] as int == gp[k] {
        GroupsBytesAt(gp, k);
        assert b[2 * k] == b[..|pre|][2 * k] && b[2 * k + 1] == b[..|pre|][2 * k + 1];
      }
      var o := 16 - |suf|;
      forall k | 0 <= k < |gq| ensures b[o + 2 * k] as int * 256 + b[o + 2 * k + 1] as int == gq[k] {
        GroupsBytesAt(gq, k);
        assert b[o + 2 * k] == b[o..][2 * k] && b[o + 2 * k + 1] == b[o..][2 * k + 1];
      }
    }
  }

  /** Component pairs `2i` and `2i + 1` of the dotted form, concatenated. */
  function DotPairs(cmpt: seq<string>): (r: seq<string>)
    requires |cmpt| == 32
    ensures |r| == 16 && forall i :: 0 <= i < 16 ==> r[i] == cmpt[2 * i] + cmpt[2 * i + 1]
  {
    seq(16, i requires 0 <= i < 16 => cmpt[2 * i] + cmpt[2 * i + 1])
  }

  /** `build(dot:)`: exactly thirty-two `.`-separated parts, read in pairs. */
  function BuildDot(s: string): Option<IP>
  {
    var cmpt := Split(s, ".");
    if |cmpt| != 32 then None else IPv6FromBytes(CompactMap(DotPairs(cmpt), HexByte))
  }

  /** The dotted form succeeds exactly when there are thirty-two parts and every
      pair parses as a hexadecimal byte; byte `i` is then the value of pair `i`. */
  lemma BuildDotSpec(s: string)
    ensures BuildDot(s).Some? <==>
              |Split(s, ".")| == 32 &&
              forall i :: 0 <= i < 16 ==> HexByte(Split(s, ".")[2 * i] + Split(s, ".")[2 * i + 1]).Some?
    ensures BuildDot(s).Some? ==> BuildDot(s).value.V6? && BuildDot(s).value.Valid()
    ensures BuildDot(s).Some? ==> forall i :: 0 <= i < 16 ==>
              Some(BuildDot(s).value.bytes[i]) == HexByte(Split(s, ".")[2 * i] + Split(s, ".")[2 * i + 1])
  {
    var cmpt := Split(s, ".");
    if |cmpt| == 32 {
      CompactMapAll(DotPairs(cmpt), HexByte);
    }
  }

  /** `IPv6.init?(from: String)`: the full form, else the `::` form, else the dotted form. */
  function ParseIPv6(s: string): (r: Option<IP>)
    ensures r.Some? ==> r.value.V6? && r.value.Valid()
  {
    if BuildNormal(s).Some? then BuildNormal(s)
    else if BuildDoubleColon(s).Some? then BuildDoubleColon(s)
    else BuildDot(s)
  }

  /** The text is an IPv6 address exactly when it fits one of the three
      grammars: eight `:`-groups that all parse; two `::`-halves whose groups
      fit in sixteen bytes; or thirty-two `.`-parts whose sixteen pairs all
      parse as bytes. A grammar is used only when the ones before it fail. */
  lemma ParseIPv6Order(s: string)
    ensures ParseIPv6(s).Some? <==>
              (|Split(s, ":")| == 8 && forall k :: 0 <= k < 8 ==> HexGroup(Split(s, ":")[k]).Some?) ||
              (|Split(s, "::")| == 2 &&
               |HexBytes(Split(Split(s, "::")[0], ":"))| + |HexBytes(Split(Split(s, "::")[1], ":"))| <= 16) ||
              (|Split(s, ".")| == 32 &&
               forall i :: 0 <= i < 16 ==> HexByte(Split(s, ".")[2 * i] + Split(s, ".")[2 * i + 1]).Some?)
    ensures BuildNormal(s).Some? ==> ParseIPv6(s) == BuildNormal(s)
    ensures BuildNormal(s).None? && BuildDoubleColon(s).Some? ==> ParseIPv6(s) == BuildDoubleColon(s)
    ensures BuildNormal(s).None? && BuildDoubleColon(s).None? ==> ParseIPv6(s) == BuildDot(s)
  {
    BuildNormalSpec(s);
    BuildDoubleColonSpec(s);
    BuildDotSpec(s);
  }

  // ----- conversions between the families -----

  /** `toIPv4()`: an IPv4 address is itself; an IPv6 address converts only
      when it starts with the mapped prefix, to its last four bytes. */
  function ToIPv4(ip: IP): Option<IP>
    requires ip.Valid()
  {
    match ip
    case V4(_) => Some(ip)
    case V6(b) => if b[..12] == MappedPrefix then IPv4FromBytes(b[12..]) else None
  }

  /** `toIPv6()`: an IPv4 address gets the mapped prefix; an IPv6 address is itself. */
  function ToIPv6(ip: IP): Option<IP>
    requires ip.Valid()
  {
    match ip
    case V4(b) => IPv6FromBytes(MappedPrefix + b)
    case V6(_) => Some(ip)
  }

  /** Conversion to IPv6 always succeeds and conversion back recovers an IPv4
      address; an IPv6 address converts to IPv4 exactly when it is IPv4-mapped,
      and then converting back recovers it. */
  lemma ConversionRoundTrips(ip: IP)
    requires ip.Valid()
    ensures ToIPv6(ip).Some? && ToIPv6(ip).value.V6? && ToIPv6(ip).value.Valid()
    ensures ip.V4? ==> ToIPv6(ip).value.bytes == MappedPrefix + ip.bytes
    ensures ip.V4? ==> ToIPv4(ToIPv6(ip).value) == Some(ip)
    ensures ip.V6? ==> (ToIPv4(ip).Some? <==> ip.bytes[..12] == MappedPrefix)
    ensures ip.V6? && ToIPv4(ip).Some? ==>
              ToIPv4(ip).value == V4(ip.bytes[12..]) && ToIPv6(ToIPv4(ip).value) == Some(ip)
  {
    if ip.V4? {
      var b := MappedPrefix + ip.bytes;
      assert b[..12] == MappedPrefix && b[12..] == ip.bytes;
    } else if ip.bytes[..12] == MappedPrefix {
      assert MappedPrefix + ip.bytes[12..] == ip.bytes;
    }
  }

  // ----- the IPv6 constants -----

  /** As written, all six IPv6 constants are built from sixteen zero bytes:
      `zero`, `unspecified`, `loopback`, `interfacelocalallnodes`,
      `linklocalallnodes` and `linklocalallrouters`. */
  const AllZero6: seq<byte> := Repeat(0, 16)
  const Zero6: IP := IPv6FromBytes(AllZero6).value
  const Unspecified6: IP := IPv6FromBytes(AllZero6).value
  const Loopback6: IP := IPv6FromBytes(AllZero6).value
  const InterfaceLocalAllNodes6: IP := IPv6FromBytes(AllZero6).value
  const LinkLocalAllNodes6: IP := IPv6FromBytes(AllZero6).value
  const LinkLocalAllRouters6: IP := IPv6FromBytes(AllZero6).value

  /** The constants are one and the same address, ::, so `loopback` is not ::1
      and the three multicast groups are not ff01::1, ff02::1 and ff02::2. */
  lemma ConstantsAllZero()
    ensures Zero6 == Unspecified6 == Loopback6 == InterfaceLocalAllNodes6 ==
            LinkLocalAllNodes6 == LinkLocalAllRouters6 == V6(AllZero6)
    ensures Loopback6 != V6(Repeat(0, 15) + [1])
    ensures !IsMulticast(InterfaceLocalAllNodes6) && !IsMulticast(LinkLocalAllNodes6) &&
            !IsMulticast(LinkLocalAllRouters6)
  {
    assert (Repeat(0 as byte, 15) + [1])[15] == 1;
  }

  // ----- classification predicates that use the constants -----

  /** `isUnspecified`. */
  predicate IsUnspecified(ip: IP)
    requires ip.Valid()
  {
    (ip.V4? && IsEqual(ip, Zero4())) || (ip.V6? && IsEqual(ip, Unspecified6))
  }

  /** `isLoopback`. */
  predicate IsLoopback(ip: IP)
    requires ip.Valid()
  {
    (ip.V4? && ip.bytes[0] == 127) || IsEqual(ip, Loopback6)
  }

  /** `isGlobalUnicast`; `isIPv4 || isIPv6` always holds. */
  predicate IsGlobalUnicast(ip: IP)
    requires ip.Valid()
  {
    (ip.V4? || ip.V6?) &&
    !IsEqual(ip, Broadcast4()) &&
    !IsUnspecified(ip) &&
    !IsLoopback(ip) &&
    !IsMulticast(ip) &&
    !IsLinkLocalUnicast(ip)
  }

  /** Sixteen zero bytes. */
  predicate AllZero(b: seq<byte>)
  {
    forall i :: 0 <= i < |b| ==> b[i] == 0
  }

  lemma AllZeroIsConstant(b: seq<byte>)
    requires |b| == 16
    ensures AllZero(b) <==> b == AllZero6
  {
    if AllZero(b) {
      assert forall i :: 0 <= i < 16 ==> b[i] == AllZero6[i];
    }
  }

  /** The classifiers on an IPv4 address: 0.0.0.0 is the only unspecified
      address, 127/8 is loopback, 224.0.0/24 link-local multicast and 169.254/16
      link-local unicast; no IPv4 address is interface-local multicast. */
  lemma IPv4Classes(ip: IP)
    requires ip.Valid() && ip.V4?
    ensures IsUnspecified(ip) <==> ip.bytes == [0, 0, 0, 0]
    ensures IsLoopback(ip) <==> ip.bytes[0] == 127
    ensures IsMulticast(ip) <==> ip.bytes[0] & 0xF0 == 0xE0
    ensures !IsInterfaceLocalMulticast(ip)
    ensures IsLinkLocalMulticast(ip) <==> ip.bytes[..3] == [224, 0, 0]
    ensures IsLinkLocalUnicast(ip) <==> ip.bytes[..2] == [169, 254]
  {
    IsEqualMixedNever(ip, Loopback6);
    if ip.bytes[..3] == [224, 0, 0] {
      assert ip.bytes[0] == 224 && ip.bytes[1] == 0 && ip.bytes[2] == 0;
    }
    if ip.bytes[..2] == [169, 254] {
      assert ip.bytes[0] == 169 && ip.bytes[1] == 254;
    }
  }

  /** On an IPv6 address `isUnspecified` and `isLoopback` coincide: both hold
      exactly for the all-zero address, so ::1 is not loopback. */
  lemma IPv6Classes(ip: IP)
    requires ip.Valid() && ip.V6?
    ensures IsUnspecified(ip) <==> AllZero(ip.bytes)
    ensures IsLoopback(ip) <==> AllZero(ip.bytes)
    ensures !IsLoopback(V6(Repeat(0, 15) + [1]))
  {
    AllZeroIsConstant(ip.bytes);
    assert (Repeat(0 as byte, 15) + [1])[15] == 1;
  }

  /** The broadcast test rejects only the IPv4 address 255.255.255.255, never an
      IPv6 address, so `isGlobalUnicast` reads, per family, as below. */
  lemma GlobalUnicastRules(ip: IP)
    requires ip.Valid()
    ensures IsEqual(ip, Broadcast4()) <==> ip == V4([255, 255, 255, 255])
    ensures ip.V4? ==> (IsGlobalUnicast(ip) <==>
              ip.bytes != [255, 255, 255, 255] && ip.bytes != [0, 0, 0, 0] && ip.bytes[0] != 127 &&
              !(224 <= ip.bytes[0] <= 239) && ip.bytes[..2] != [169, 254])
    ensures ip.V6? ==> (IsGlobalUnicast(ip) <==>
              !AllZero(ip.bytes) && ip.bytes[0] != 0xFF &&
              !(ip.bytes[0] == 0xFE && 0x80 <= ip.bytes[1] <= 0xBF))
  {
    MulticastBlocks(ip);
    if ip.V4? {
      IPv4Classes(ip);
      assert Broadcast4().bytes == [255, 255, 255, 255];
    } else {
      IsEqualMixedNever(ip, Broadcast4());
      IPv6Classes(ip);
      LinkLocalUnicastBlocks(ip);
    }
  }

  // ----- masks -----

  /** `defaultMask()`: the classful mask of the IPv4 form, if there is one. */
  function DefaultMask(ip: IP): Option<IPMask>
    requires ip.Valid()
  {
    match ToIPv4(ip)
    case Some(v4) => Some(ClassfulMask(v4))
    case None => None
  }

  /** Every IPv4 address and every IPv4-mapped IPv6 address has a default mask,
      the one chosen by the first IPv4 byte; other IPv6 addresses have none. */
  lemma DefaultMaskSpec(ip: IP)
    requires ip.Valid()
    ensures DefaultMask(ip).Some? <==> ip.V4? || ip.bytes[..12] == MappedPrefix
    ensures DefaultMask(ip).Some? ==>
              DefaultMask(ip).value.Valid() &&
              DefaultMask(ip).value == ClassfulMask(V4(ip.bytes[|ip.bytes| - 4..]))
  {
    ConversionRoundTrips(ip);
    if ip.V4? {
      assert ip.bytes[|ip.bytes| - 4..] == ip.bytes;
      ClassfulThresholds(ip);
    } else if ip.bytes[..12] == MappedPrefix {
      ClassfulThresholds(ToIPv4(ip).value);
    }
  }

  /** `masking(with:)`: the bytewise AND of the IPv4 form with the mask. */
  function Masking(ip: IP, mask: IPMask): Option<IP>
    requires ip.Valid()
  {
    match ToIPv4(ip)
    case Some(v4) => IPv4FromBytes(AndBytes(v4.bytes, mask.bytes))
    case None => None
  }

  /** With a four-byte mask (every `IPMask` has four bytes), masking succeeds
      exactly when the address has an IPv4 form, and every byte of the result is
      that byte ANDed with the mask byte. */
  lemma MaskingSpec(ip: IP, mask: IPMask)
    requires ip.Valid() && |mask.bytes| == 4
    ensures Masking(ip, mask).Some? <==> ToIPv4(ip).Some?
    ensures Masking(ip, mask).Some? ==> Masking(ip, mask).value.V4? && Masking(ip, mask).value.Valid()
    ensures Masking(ip, mask).Some? ==> forall i :: 0 <= i < 4 ==>
              Masking(ip, mask).value.bytes[i] == ToIPv4(ip).value.bytes[i] & mask.bytes[i]
  {
    match ToIPv4(ip)
    case None =>
    case Some(v4) =>
      assert Masking(ip, mask) == Some(V4(AndBytes(v4.bytes, mask.bytes)));
      MaskingBytes(ip, mask);
  }

  lemma MaskingBytes(ip: IP, mask: IPMask)
    requires ip.Valid() && |mask.bytes| == 4 && Masking(ip, mask).Some?
    ensures forall i :: 0 <= i < 4 ==>
              Masking(ip, mask).value.bytes[i] == ToIPv4(ip).value.bytes[i] & mask.bytes[i]
  {
    var x := ToIPv4(ip).value.bytes;
    var r := Masking(ip, mask).value.bytes;
    assert r == AndBytes(x, mask.bytes);
    forall i | 0 <= i < 4 ensures r[i] == x[i] & mask.bytes[i] {
      AndBytesAt(x, mask.bytes, i);
    }
  }

  /** Masking an already masked address with the same mask changes nothing. */
  lemma MaskingIdempotent(ip: IP, mask: IPMask)
    requires ip.Valid() && Masking(ip, mask).Some?
    ensures Masking(Masking(ip, mask).value, mask) == Masking(ip, mask)
  {
    ConversionRoundTrips(ip);
    AndBytesIdempotent(ToIPv4(ip).value.bytes, mask.bytes);
  }

  /** The masked address keeps the network bits of the IPv4 form and clears the host bits. */
  lemma MaskingNetworkBits(ip: IP, mask: IPMask)
    requires ip.Valid() && mask.Valid() && Masking(ip, mask).Some?
    ensures forall i :: 0 <= i < 32 ==>
              Bits(Masking(ip, mask).value.bytes)[i] == (i < mask.number.network && Bits(ToIPv4(ip).value.bytes)[i])
  {
    ConversionRoundTrips(ip);
    MaskingKeepsNetworkBits(ToIPv4(ip).value.bytes, mask);
  }
}
