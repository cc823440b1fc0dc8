# swiftIP / unkoip in Dafny

This project models `unkoip`, a small Swift library of IPv4 and IPv6 address
values, and its earlier copy, `swiftIP`. It proves properties of that model.

An address is a byte sequence tagged with its family: `V4` has 4 bytes, `V6` has 16. The model covers:

- the byte and text constructors;
- the three IPv6 text grammars, tried in order: eight hex groups, `::` zero compression, and a 32-part dotted form;
- conversion through the IPv4-mapped prefix (ten zero bytes, then FF FF) of section 2.5.5.2 of RFC 4291;
- `isEqual`;
- the classification predicates;
- the subnet-mask validator `IPMask.Number.init?(bytes:)`;
- the classful default mask;
- bytewise masking;
- the six-style IPv4 formatter.

Modules:

- `Wrappers`, `Bytes`, `Collections`, `Text` hold the building blocks:
  - `Option`;
  - `byte` as `bv8`;
  - Swift's `compactMap`;
  - `components(separatedBy:)` / `joined(separator:)` as `Split` / `Join`;
  - digit rendering and parsing in a radix.
- `Address` holds what both copies share:
  - the `IP` datatype and its IPv4 constructors;
  - `isEqual`;
  - the classifiers that use no IPv6 constant.
- `Masks` holds `IPMask` and `Number`:
  - `ScanNumber` is the imperative scan of `Number.init?(bytes:)`, with its nested loops and early exits. It is proved equal to `MaskNumber`, a functional specification.
  - `MaskNumber` is proved to accept exactly the bit strings `1^n 0^(m-n)`.
- `Formatter` holds `IPv4.Formatter.string(from:)` for all six styles.
- `Unkoip` holds the complete copy's IPv6 side:
  - the byte and text constructors and the three grammars;
  - `toUInt8`;
  - both conversions;
  - the six IPv6 constants;
  - the predicates that read them;
  - `defaultMask` and `masking`.
- `SwiftIP` holds the earlier copy, where the IPv6 side is stubbed.
  - Both IPv6 initialisers return nil, so every force-unwrapped IPv6 constant traps when read. The model writes that trap as `None`.
  - `IsUnspecified`, `IsLoopback` and `IsGlobalUnicast` return `Option<bool>`. Swift's short-circuit `&&`/`||` decide whether the trap is reached.
- `IPv4Examples` and `ConversionExamples` work the library's test scenarios out on the model:
  - the IPv4 construction tests;
  - 135.75.43.52 ⇄ `0000:…:FFFF:874B:2B34` ⇄ `::FFFF:874B:2B34`.
  - The formatter examples sit in `Formatter`.

The model follows the code as written, including three quirks.

- **`isEqual` across families** slices `bytes[...12]`, which is 13 bytes, and compares it with the 12-byte prefix. So an IPv4 address is never equal to an IPv6 address, not even its own mapped form (`Address.IsEqualMixedNever`). The library's tests only compare addresses of the same family after conversion, so they are not affected.
- **The six IPv6 constants** are all sixteen zero bytes. As a result:
  - `isUnspecified` and `isLoopback` coincide on IPv6;
  - `::1` is not a loopback address;
  - no constant is multicast.
- **Classful default masks** use `<= 0x80` and `<= 0xC0`. So 128.x is class A and 192.x is class B.

## Model

| member | source | states |
|---|---|---|
| Address.IPv4FromBytes | Sources/unkoip/unkoip.swift:116-121 | succeeds iff there are exactly 4 bytes; the address is IPv4 and holds those bytes unchanged |
| Address.ParseDecimalByte | Sources/unkoip/unkoip.swift:113 | `UInt8(segment)`: succeeds iff the segment is a non-empty run of decimal digits of value at most 255, and returns that value |
| Address.ParseIPv4 | Sources/unkoip/unkoip.swift:112-114 | a successful text parse is a valid IPv4 address |
| Address.ParseIPv4Survivors | Sources/unkoip/unkoip.swift:112-114 | the text parser succeeds iff exactly four `.`-segments parse as decimal bytes; the address bytes are then the values of those segments in text order, and no parsing segment is skipped |
| Address.ParseIPv4FourSegments | Sources/unkoip/unkoip.swift:112-114 | with exactly four segments, parsing succeeds iff each is a decimal byte, and byte k is segment k's value |
| Address.ParseIPv4TooFewDots | Sources/unkoip/unkoip.swift:112-114 | a text with fewer than three dots never parses |
| Address.Zero4 | Sources/unkoip/unkoip.swift:107 | `IPv4.zero` is the valid IPv4 address 0.0.0.0 |
| Address.Broadcast4 | Sources/unkoip/unkoip.swift:108 | `IPv4.boardcast` is the valid IPv4 address 255.255.255.255 |
| Address.IsEqualSymmetric | Sources/unkoip/unkoip.swift:38-49 | `isEqual` is symmetric |
| Address.IsEqualSameFamily | Sources/unkoip/unkoip.swift:38-49 | within one family `isEqual` holds iff the addresses are equal |
| Address.IsEqualMixedNever | Sources/unkoip/unkoip.swift:42-45 | across families `isEqual` is always false, because the 13-byte slice cannot equal the 12-byte prefix |
| Address.IsZeroMeansSomeZeroByte | Sources/unkoip/unkoip.swift:60-62 | `isZero` holds iff some byte is zero (10.0.0.1 is "zero", 10.1.1.1 is not) |
| Address.MulticastBlocks | Sources/unkoip/unkoip.swift:72-74 | IPv4 multicast iff the first byte is in 224..239; IPv6 multicast iff the first byte is 0xFF |
| Address.ScopedMulticast | Sources/unkoip/unkoip.swift:76-83 | on IPv6, interface-local multicast holds iff the address is multicast with low nibble 1 in byte 1, and link-local multicast iff multicast with low nibble 2; on IPv4, link-local multicast holds iff 224.0.0.x and interface-local never; the two scopes exclude each other |
| Address.LinkLocalUnicastBlocks | Sources/unkoip/unkoip.swift:85-88 | IPv6 link-local unicast iff fe80::/10 (byte 0 is 0xFE, byte 1 in 0x80..0xBF); link-local unicast is never multicast |
| Address.IsEqual | Sources/unkoip/unkoip.swift:38-49 | specified by `IsEqualSymmetric`, `IsEqualSameFamily` and `IsEqualMixedNever`: symmetric, equality within a family, never true across families |
| Address.IsZero | Sources/unkoip/unkoip.swift:60-62 | specified by `IsZeroMeansSomeZeroByte`: some byte is zero |
| Address.IsMulticast | Sources/unkoip/unkoip.swift:72-74 | specified by `MulticastBlocks`: 224..239 on IPv4, first byte 0xFF on IPv6 |
| Address.IsInterfaceLocalMulticast | Sources/unkoip/unkoip.swift:76-78 | specified by `ScopedMulticast`: exactly the IPv6 multicast addresses with low nibble 1 in byte 1 |
| Address.IsLinkLocalMulticast | Sources/unkoip/unkoip.swift:80-83 | specified by `ScopedMulticast`: exactly 224.0.0.x on IPv4 and exactly the IPv6 multicast addresses with low nibble 2 in byte 1 |
| Address.IsLinkLocalUnicast | Sources/unkoip/unkoip.swift:85-88 | specified by `LinkLocalUnicastBlocks`: 169.254.x.x on IPv4, fe80::/10 on IPv6, never multicast |
| Collections.CompactMap | Sources/unkoip/unkoip.swift:113 | Swift's `compactMap`: the result is never longer than the input |
| Collections.CompactMapAll | Sources/unkoip/unkoip.swift:113 | nothing is dropped iff every element converts, and then the result is the pointwise conversion |
| Collections.CompactMapKept | Sources/unkoip/unkoip.swift:113 | every kept value is the conversion of some input element |
| Collections.CompactMapOrder | Sources/unkoip/unkoip.swift:113 | the kept values are the conversions of a strictly increasing run of input positions, which includes every position that converts |
| Collections.CompactMapAppend | Sources/unkoip/unkoip.swift:113 | `compactMap` of a concatenation is the concatenation of the two `compactMap`s |
| Text.Split | Sources/unkoip/unkoip.swift:113 | `components(separatedBy:)` always yields at least one component |
| Text.JoinSplit | Sources/unkoip/unkoip.swift:113 | joining the components with the separator gives back the text |
| Text.SplitJoin | Sources/unkoip/unkoip.swift:165 | splitting a join of separator-free parts gives back the parts |
| Text.SplitCount | Sources/unkoip/unkoip.swift:113 | splitting on a character gives one more component than there are occurrences of it |
| Text.SplitAbsent | Sources/unkoip/unkoip.swift:219 | a text without the separator splits into itself alone |
| Text.SplitFree | Sources/unkoip/unkoip.swift:211 | no component contains the separator character |
| Text.ParseUnsigned | Sources/unkoip/unkoip.swift:215 | a parsed value never exceeds the type's maximum |
| Text.Digits | Sources/unkoip/unkoip.swift:165-170 | `String(n, radix:)` with upper-case digits is never empty |
| Text.DigitsRoundTrip | Sources/unkoip/unkoip.swift:165-170 | the rendering of n in a radix is a run of digits whose value is n |
| Text.DigitsCanonical | Sources/unkoip/unkoip.swift:165-170 | the rendering starts with '0' iff n is 0 (no leading zeros) |
| Text.PadZeros | Sources/unkoip/unkoip.swift:166-167 | `%02X`/`%04O` padding: the width is reached, the digits are kept at the end, the left is filled with '0' |
| Text.LeadingZerosValue | Sources/unkoip/unkoip.swift:215 | leading zeros change neither digit-ness nor value |
| Masks.MaskNumber | Sources/unkoip/unkoip.swift:319-342 | specified by `NumberIffOnesThenZeros` and `MaskNumberContiguous`: defined exactly on the bit strings `1^n 0^*`, with network n |
| Masks.ClassfulMask | Sources/unkoip/unkoip.swift:296-305 | specified by `ClassfulThresholds`: /8 up to 128, /16 up to 192, /24 above |
| Masks.ScanNumber | Sources/unkoip/unkoip.swift:319-342 | the loop scan of `Number.init?(bytes:)` returns exactly the specification `MaskNumber` |
| Masks.CountLeadingOnes | Sources/unkoip/unkoip.swift:326-333 | the inner `while check & 0x80 != 0` loop counts the byte's leading ones; the shifted remainder is zero iff the byte is a prefix mask |
| Masks.NumberIffOnesThenZeros | Sources/unkoip/unkoip.swift:319-342 | `Number(bytes:)` succeeds iff the bits read big-endian are `1^n 0^(8 len - n)`; then `network == n` and `host == 32 - network` |
| Masks.MaskNumberContiguous | Sources/unkoip/unkoip.swift:319-342 | `Number(bytes:)` is `(n, 32 - n)` iff the bytes are the /n mask |
| Masks.LeadingOnesOfMask | Sources/unkoip/unkoip.swift:321-330 | the /n mask has exactly n leading ones |
| Masks.MaskBits | Sources/unkoip/unkoip.swift:319-342 | the bytes are the /n mask iff their bits are `1^n 0^*` |
| Masks.MaskFromBytes | Sources/unkoip/unkoip.swift:284-294 | an accepted mask is valid and keeps its bytes |
| Masks.MaskFromBytesSpec | Sources/unkoip/unkoip.swift:284-294 | `IPMask(from:)` succeeds iff there are 4 bytes of the form `1^n 0^(32-n)`; network is n within 0..32, host is 32 - n |
| Masks.MaskExamples | Sources/unkoip/unkoip.swift:284-294 | 255.255.255.0 is a /24 mask with 8 host bits; 255.0.255.0 is refused |
| Masks.ClassAMask | Sources/unkoip/unkoip.swift:277 | class A is 255.0.0.0 with network 8 and host 24 |
| Masks.ClassBMask | Sources/unkoip/unkoip.swift:278 | class B is 255.255.0.0 with network 16 and host 16 |
| Masks.ClassCMask | Sources/unkoip/unkoip.swift:279 | class C is 255.255.255.0 with network 24 and host 8 |
| Masks.ClassfulThresholds | Sources/unkoip/unkoip.swift:296-305 | `IPMask(from: IPv4)` gives /8 iff byte 0 ≤ 128, /16 iff 128 < byte 0 ≤ 192, /24 otherwise; 128.0.0.1 is /8, 192.0.2.1 is /16 |
| Masks.AndBytes | Sources/unkoip/unkoip.swift:101 | `zip(...).map { $0 & $1 }` has the length of the shorter input |
| Masks.AndBytesAt | Sources/unkoip/unkoip.swift:101 | byte i of the result is `x[i] & m[i]` |
| Masks.AndBytesIdempotent | Sources/unkoip/unkoip.swift:101 | masking a masked sequence again changes nothing |
| Masks.AndBytesBits | Sources/unkoip/unkoip.swift:101 | bit i of the masked bytes is the conjunction of the two bits i |
| Masks.MaskingKeepsNetworkBits | Sources/unkoip/unkoip.swift:97-103 | masking 4 bytes with a valid mask keeps the first `network` bits and clears the host bits |
| Formatter.Format | Sources/unkoip/unkoip.swift:163-172 | specified by `DottedComponents`, `DotDecimalRoundTrip`, `CanonicalTextRoundTrip`, `IntegerStylesOfIPv4` and `IntegerStylesOfIPv6`: the dotted styles split back into per-byte texts, the integer styles render the wrapped big-endian value |
| Formatter.ByteText | Sources/unkoip/unkoip.swift:165-167 | specified by `ByteTextRoundTrip` and `PaddedRoundTrip`: no '.', reads back as the byte, padded width in the padded styles |
| Formatter.Fold | Sources/unkoip/unkoip.swift:168-170 | specified by `FoldIsWrappedBigEndian` and `FoldShort`: the big-endian value wrapped to a signed 64-bit Int |
| Formatter.ByteTexts | Sources/unkoip/unkoip.swift:165-167 | the per-byte map renders every byte, in order |
| Formatter.WrapInt | Sources/unkoip/unkoip.swift:168 | the 64-bit wrap lands in the signed range and is congruent mod 2^64 |
| Formatter.FoldIsWrappedBigEndian | Sources/unkoip/unkoip.swift:168-170 | the `reduce(0) { ($0 << 8) + Int($1) }` fold is the big-endian value wrapped to a signed 64-bit Int |
| Formatter.FoldShort | Sources/unkoip/unkoip.swift:168-170 | up to 7 bytes the fold is exactly the big-endian value; for 4 bytes it is below 2^32 |
| Formatter.IntegerStylesOfIPv4 | Sources/unkoip/unkoip.swift:168-170 | decimal / hexadecimal / octal render the 32-bit big-endian value in radix 10, "0x" plus radix 16, "0" plus radix 8, and the decimal text reads back as that value |
| Formatter.IntegerStylesOfIPv6 | Sources/unkoip/unkoip.swift:168-170 | on 16 bytes the fold is the wrapped value, and decimal starts with '-' iff the wrapped value is negative |
| Formatter.DotDecimalRoundTrip | Sources/unkoip/unkoip.swift:165 | parsing the dotted-decimal rendering of an IPv4 address gives the address back |
| Formatter.CanonicalTextRoundTrip | Sources/unkoip/unkoip.swift:165 | four canonical decimal parts (no leading zeros, each at most 255) joined by '.' parse, and the dotted-decimal rendering of the result is the same text |
| Formatter.DecimalByteRoundTrip | Sources/unkoip/unkoip.swift:165 | a byte's decimal text has no '.' and parses back to the byte |
| Formatter.DottedComponents | Sources/unkoip/unkoip.swift:165-167 | a dotted rendering splits on '.' into the per-byte texts, each of which reads back as its byte |
| Formatter.ByteTextRoundTrip | Sources/unkoip/unkoip.swift:165-167 | in every dotted style a byte's text has no '.' and reads back as the byte |
| Formatter.PaddedRoundTrip | Sources/unkoip/unkoip.swift:166-167 | `%02X` and `%04O` of a byte have width 2 and 4, are digits of the radix, and keep the value |
| Formatter.DottedDecimalExample | Tests/unkoipTests/IPv4Tests.swift:56 | 192.0.2.235 renders as "192.0.2.235" |
| Formatter.DottedHexadecimalExample | Tests/unkoipTests/IPv4Tests.swift:57 | renders as "0xC0.0x00.0x02.0xEB" |
| Formatter.DottedOctalExample | Tests/unkoipTests/IPv4Tests.swift:58 | renders as "0300.0000.0002.0353" |
| Formatter.HexadecimalExample | Tests/unkoipTests/IPv4Tests.swift:59 | renders as "0xC00002EB" |
| Formatter.DecimalExample | Tests/unkoipTests/IPv4Tests.swift:60 | renders as "3221226219" |
| Formatter.OctalExample | Tests/unkoipTests/IPv4Tests.swift:61 | renders as "030000001353" |
| Formatter.BroadcastDecimalExample | Tests/unkoipTests/IPv4Tests.swift:51 | 255.255.255.255 renders as "255.255.255.255" |
| Formatter.BroadcastHexadecimalExample | Tests/unkoipTests/IPv4Tests.swift:52 | 255.255.255.255 renders as "0xFF.0xFF.0xFF.0xFF" |
| IPv4Examples.ByteInitExamples | Tests/unkoipTests/IPv4Tests.swift:14-35 | 4 bytes give an address; 0, 1, 2, 3 and 5 bytes do not |
| IPv4Examples.TextInitExamples | Tests/unkoipTests/IPv4Tests.swift:21-40 | "0.0.0.0" and "255.255.255.255" parse; "", "256.256.256.256", "0,0,0,0", "-1.-1.-1.-1", "0.0.0.0.0", "0.0.0", "0.0", "0" do not |
| IPv4Examples.LenientExamples | Sources/unkoip/unkoip.swift:112-114 | unparseable segments are skipped: "1.2.3.4." and "x.1.2.3.4" both parse to 1.2.3.4 |
| Unkoip.IPv6FromBytes | Sources/unkoip/unkoip.swift:203-208 | succeeds iff there are exactly 16 bytes; the address is a valid IPv6 address holding those bytes unchanged |
| Unkoip.HexGroup | Sources/unkoip/unkoip.swift:215 | `UInt16(_, radix: 16)` succeeds iff the text is a run of hex digits of value ≤ 0xFFFF, and returns that value |
| Unkoip.HexByte | Sources/unkoip/unkoip.swift:236 | `UInt8(_, radix: 16)` succeeds iff the text is a run of hex digits of value ≤ 0xFF, and returns that value |
| Unkoip.ToUInt8 | Sources/unkoip/unkoip.swift:239-241 | a group becomes two bytes, high byte first, whose big-endian value is the group |
| Unkoip.GroupsBytes | Sources/unkoip/unkoip.swift:215 | `flatMap { toUInt8(from: $0) }` gives two bytes per group |
| Unkoip.GroupsBytesAt | Sources/unkoip/unkoip.swift:239-241 | bytes 2k and 2k+1 are group k, big-endian |
| Unkoip.HexBytes | Sources/unkoip/unkoip.swift:225-226 | the groups that parse give two bytes each |
| Unkoip.BuildNormalSpec | Sources/unkoip/unkoip.swift:210-216 | the full form succeeds iff there are exactly 8 `:`-components and all are hex groups; bytes 2k, 2k+1 are group k |
| Unkoip.BuildDoubleColonSpec | Sources/unkoip/unkoip.swift:218-229 | the `::` form succeeds iff there are exactly two `::`-parts whose surviving groups fit in 16 bytes; the address is the prefix bytes, zeros, then the suffix bytes |
| Unkoip.BuildDoubleColonGroups | Sources/unkoip/unkoip.swift:223-228 | in a `::` address, bytes 2k and 2k+1 are the prefix half's k-th parseable group, and the suffix half's groups fill the last bytes in order, high byte first |
| Unkoip.DotPairs | Sources/unkoip/unkoip.swift:236 | pair i is components 2i and 2i+1 concatenated |
| Unkoip.BuildDotSpec | Sources/unkoip/unkoip.swift:231-237 | the dotted form succeeds iff there are exactly 32 `.`-components and all 16 pairs parse as hex bytes; byte i is pair i's value |
| Unkoip.ParseIPv6 | Sources/unkoip/unkoip.swift:191-201 | a parsed address is a valid IPv6 address |
| Unkoip.ParseIPv6Order | Sources/unkoip/unkoip.swift:191-201 | the text is an IPv6 address iff it has eight `:`-groups that all parse, or two `::`-halves whose parseable groups fit in 16 bytes, or 32 `.`-parts whose 16 pairs all parse as hex bytes; the first grammar that succeeds decides the address |
| Unkoip.BuildNormal | Sources/unkoip/unkoip.swift:210-216 | specified by `BuildNormalSpec` |
| Unkoip.BuildDoubleColon | Sources/unkoip/unkoip.swift:218-229 | specified by `BuildDoubleColonSpec` and `BuildDoubleColonGroups` |
| Unkoip.BuildDot | Sources/unkoip/unkoip.swift:231-237 | specified by `BuildDotSpec` |
| Unkoip.ToIPv4 | Sources/unkoip/unkoip.swift:251-256 | specified by `ConversionRoundTrips`: succeeds on IPv4, and on IPv6 iff the mapped prefix is present, keeping the last 4 bytes |
| Unkoip.ToIPv6 | Sources/unkoip/unkoip.swift:135-137 | specified by `ConversionRoundTrips`: always succeeds, prepending the mapped prefix to IPv4 |
| Unkoip.IsUnspecified | Sources/unkoip/unkoip.swift:64-66 | specified by `IPv4Classes` and `IPv6Classes`: 0.0.0.0 on IPv4, all zero on IPv6 |
| Unkoip.IsLoopback | Sources/unkoip/unkoip.swift:68-70 | specified by `IPv4Classes` and `IPv6Classes`: 127.x on IPv4, all zero (not ::1) on IPv6 |
| Unkoip.IsGlobalUnicast | Sources/unkoip/unkoip.swift:51-58 | specified by `GlobalUnicastRules`: none of the excluded blocks |
| Unkoip.DefaultMask | Sources/unkoip/unkoip.swift:90-95 | specified by `DefaultMaskSpec` |
| Unkoip.Masking | Sources/unkoip/unkoip.swift:97-103 | specified by `MaskingSpec`, `MaskingIdempotent` and `MaskingNetworkBits` |
| Unkoip.ConversionRoundTrips | Sources/unkoip/unkoip.swift:251-256 | `toIPv6` always succeeds and prepends the mapped prefix to IPv4; `toIPv4` of IPv6 succeeds iff the prefix is present and keeps the last 4 bytes; both round trips are the identity |
| Unkoip.ConstantsAllZero | Sources/unkoip/unkoip.swift:177-187 | all six IPv6 constants are the same all-zero address; loopback is not ::1; none is multicast |
| Unkoip.AllZeroIsConstant | Sources/unkoip/unkoip.swift:177-187 | sixteen bytes are all zero iff they are the constants' bytes |
| Unkoip.IPv4Classes | Sources/unkoip/unkoip.swift:64-88 | on IPv4: unspecified iff 0.0.0.0, loopback iff 127.x, multicast iff `b0 & 0xF0 == 0xE0`, never interface-local multicast, link-local multicast iff 224.0.0.x, link-local unicast iff 169.254.x.x |
| Unkoip.IPv6Classes | Sources/unkoip/unkoip.swift:64-70 | on IPv6: unspecified iff all zero, loopback iff all zero, ::1 is not loopback |
| Unkoip.GlobalUnicastRules | Sources/unkoip/unkoip.swift:51-58 | the broadcast test only rejects IPv4 255.255.255.255; per family, global unicast iff none of the excluded blocks |
| Unkoip.DefaultMaskSpec | Sources/unkoip/unkoip.swift:90-95 | a default mask exists iff the address is IPv4 or IPv4-mapped IPv6; it is the classful mask of the last 4 bytes |
| Unkoip.MaskingSpec | Sources/unkoip/unkoip.swift:97-103 | masking succeeds iff `toIPv4` does; the result is IPv4 and byte i is `ip[i] & mask[i]` |
| Unkoip.MaskingBytes | Sources/unkoip/unkoip.swift:101-102 | byte i of a masked address is `ip[i] & mask[i]` |
| Unkoip.MaskingIdempotent | Sources/unkoip/unkoip.swift:97-103 | masking twice with the same mask equals masking once |
| Unkoip.MaskingNetworkBits | Sources/unkoip/unkoip.swift:97-103 | masking with a valid mask keeps the network bits and clears the host bits |
| ConversionExamples.IPv4TextExample | Tests/unkoipTests/IPv6Tests.swift:14-15 | 135.75.43.52 renders as "135.75.43.52" and parses back |
| ConversionExamples.FullFormExample | Tests/unkoipTests/IPv6Tests.swift:17 | "0000:0000:0000:0000:0000:FFFF:874B:2B34" parses, by the full form, to ::FFFF:135.75.43.52 |
| ConversionExamples.CompressedExample | Tests/unkoipTests/IPv6Tests.swift:23-24 | "::FFFF:874B:2B34" fails the full form and parses, by the `::` form, to the same address |
| ConversionExamples.TwoDoubleColons | Sources/unkoip/unkoip.swift:218-221 | "1::2::3" splits on "::" into three parts, so the `::` form refuses it, and the text is not an IPv6 address |
| ConversionExamples.ConvertExample | Tests/unkoipTests/IPv6Tests.swift:18-21 | 135.75.43.52 and ::FFFF:135.75.43.52 convert into each other, and each `isEqual` the other's conversion |
| SwiftIP.IPv6FromBytes | Sources/swiftIP/swiftIP.swift:196-199 | the IPv6 byte initialiser always fails |
| SwiftIP.ParseIPv6 | Sources/swiftIP/swiftIP.swift:191-194 | the IPv6 text initialiser always fails |
| SwiftIP.ToIPv4 | Sources/swiftIP/swiftIP.swift:209-212 | `toIPv4` succeeds iff the address is IPv4, and is then the address itself |
| SwiftIP.ToIPv6 | Sources/swiftIP/swiftIP.swift:135-137 | `toIPv6` succeeds iff the address is already IPv6, and is then the address itself |
| SwiftIP.EqualToConstant | Sources/swiftIP/swiftIP.swift:177-187 | comparing with a constant completes iff the constant can be read, and is then `isEqual` |
| SwiftIP.IPv6Stubs | Sources/swiftIP/swiftIP.swift:177-216 | nothing builds an IPv6 address, no IPv6 constant can be read, an IPv4 address does not convert to IPv6 |
| SwiftIP.IPv4Traps | Sources/swiftIP/swiftIP.swift:64-70 | on IPv4, `isUnspecified` completes and agrees with the complete copy; `isLoopback` completes, with true, iff byte 0 is 127, and traps otherwise |
| SwiftIP.GlobalUnicastTraps | Sources/swiftIP/swiftIP.swift:51-58 | on IPv4, `isGlobalUnicast` completes iff the address is 255.255.255.255, 0.0.0.0 or 127.x.y.z, and is then false |
| SwiftIP.IPv6Traps | Sources/swiftIP/swiftIP.swift:51-70 | on IPv6, `isUnspecified`, `isLoopback` and `isGlobalUnicast` all trap |
| SwiftIP.IsUnspecified | Sources/swiftIP/swiftIP.swift:64-66 | specified by `IPv4Traps` and `IPv6Traps`: completes on IPv4 and agrees with the complete copy; traps on IPv6 |
| SwiftIP.IsLoopback | Sources/swiftIP/swiftIP.swift:68-70 | specified by `IPv4Traps` and `IPv6Traps`: true for 127.x, a trap otherwise |
| SwiftIP.IsGlobalUnicast | Sources/swiftIP/swiftIP.swift:51-58 | specified by `GlobalUnicastTraps` and `IPv6Traps`: completes, with false, only for 255.255.255.255, 0.0.0.0 and 127.x.y.z |
| SwiftIP.DefaultMask | Sources/swiftIP/swiftIP.swift:90-95 | specified by `MasksAgree`: defined iff IPv4, then the complete copy's mask |
| SwiftIP.Masking | Sources/swiftIP/swiftIP.swift:97-103 | specified by `MasksAgree`: defined iff IPv4, then the complete copy's masking |
| SwiftIP.MasksAgree | Sources/swiftIP/swiftIP.swift:90-103 | `defaulMask` and `masking` succeed iff the address is IPv4, and then agree with the complete copy |
| SwiftIP.FormatIPv6 | Sources/swiftIP/swiftIP.swift:224-229 | the IPv6 formatter renders every address as the empty string |

## Left out

- The `IPFormatter` and `IPFormattable` protocols, their dispatch and the duplicate `string(formatter:)` overloads (unkoip.swift:7-13, 139-145, 262-264) are not modelled. The model has one `Style` datatype and one `Format` function.
- `IPMask.string(formatter:)` (unkoip.swift:307-313) is also left out. It only formats the mask's bytes as an IPv4 address.
- unkoip's `IPv6.Formatter.string(from:)` (unkoip.swift:267-274) returns Swift's reflective `"\(ip)"` description, which does not say what the text is.
- Swift's `UInt8(_:)` and `UInt16(_:radix:)` are modelled as "a non-empty run of digits in the radix, value in range". Their handling of an optional leading `+` or `-` sign is not modelled, so a signed segment such as "+1" is refused here. They also accept lower-case letters, as the model does.
- `String(format: "0x%02X")` and `"%04O"` are modelled as explicit digit rendering with zero padding.
- The integer styles are modelled for any byte count, including the 16 bytes of an IPv6 address. The fold into Swift's 64-bit `Int` is written out as a wrap into the signed 64-bit range. This is Swift's `<<` on `Int`, which silently drops high bits, followed by `+`. For 4 bytes it is proved to be the plain big-endian value.
- `Int` overflow trapping in `+` is also not modelled. No byte sequence reaches it, because the shift leaves the low 8 bits zero.
- Traps are modelled as `None`. These are the negative range at unkoip.swift:227 and swiftIP's force-unwrapped nil IPv6 constants.
- Masks.CountLeadingOnes: is the inner `while` loop of `Number.init?(bytes:)`, written as its own method that `ScanNumber` calls.
- Text.DigitsValue: is total: a non-digit counts as 0. It is only read on runs of digits, so this has no effect on any result.
- Unkoip.MaskingSpec: requires that the mask has 4 bytes, which every `IPMask` has by construction. Swift's `zip` would truncate a shorter one, and `Masks.AndBytes` models that case.
- SwiftIP.MasksAgree: has the same 4-byte requirement on the mask.
- `IPMask(ipv4:)`, used by Tests/unkoipTests/IPMaskTests.swift:14, exists in neither source and is not modelled.
- Text is `seq<char>`, a sequence of Unicode scalars. Foundation's `components(separatedBy:)` works on grapheme clusters, so a separator followed by a combining mark would not split there; that behaviour is not modelled.
- Test scaffolding such as XCTestManifests.swift is not modelled. The tests serve only as the source of the example lemmas.
- The `Number.network` and `host` fields are plain integers. The scan is modelled on a byte
  sequence of any length, as the source allows. `host` is `32 - network` even when there are more than four bytes.
