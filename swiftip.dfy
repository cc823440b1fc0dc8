/**
 * The earlier copy of the library (Sources/swiftIP). Its IPv4 values, IPv4
 * formatter, `isEqual`, the constant-free classification predicates and the
 * mask engine are those of the Address, Formatter and Masks modules. What
 * differs is IPv6: both initialisers and `toIPv4()` are stubs returning nil,
 * so every IPv6 constant, a force-unwrapped nil, traps when first read. A
 * computation that may reach such a constant yields `Option<bool>`, with
 * `None` standing for the trap; Swift's `&&` and `||` evaluate left to right
 * and stop early, so whether the trap is reached depends on the address.
 */
module SwiftIP {
  import opened Wrappers
  import opened Collections
  import opened Bytes
  import opened Address
  import opened Masks
  import Unkoip

  /** `IPv6.init?(from: [UInt8])`: a stub that always fails. */
  function IPv6FromBytes(b: seq<byte>): (r: Option<IP>)
    ensures r.None?
  {
    None
  }

  /** `IPv6.init?(from: String)`: a stub that always fails. */
  function ParseIPv6(s: string): (r: Option<IP>)
    ensures r.None?
  {
    None
  }

  /** `toIPv4()`: an IPv4 address is itself; the IPv6 stub always fails. */
  function ToIPv4(ip: IP): (r: Option<IP>)
    requires ip.Valid()
    ensures r.Some? <==> ip.V4?
    ensures r.Some? ==> r.value == ip
  {
    match ip
    case V4(_) => Some(ip)
    case V6(_) => None
  }

  /** `toIPv6()`: an IPv4 address goes through the failing byte initialiser;
      an IPv6 address is itself. */
  function ToIPv6(ip: IP): (r: Option<IP>)
    requires ip.Valid()
    ensures r.Some? <==> ip.V6?
    ensures r.Some? ==> r.value == ip
  {
    match ip
    case V4(b) => IPv6FromBytes(MappedPrefix + b)
    case V6(_) => Some(ip)
  }

  /** The six IPv6 constants, each `IPv6(from: <sixteen zeros>)!`: the
      initialiser fails, so reading any of them traps. */
  const AllZero6: seq<byte> := Repeat(0, 16)
  const Zero6: Option<IP> := IPv6FromBytes(AllZero6)
  const Unspecified6: Option<IP> := IPv6FromBytes(AllZero6)
  const Loopback6: Option<IP> := IPv6FromBytes(AllZero6)
  const InterfaceLocalAllNodes6: Option<IP> := IPv6FromBytes(AllZero6)
  const LinkLocalAllNodes6: Option<IP> := IPv6FromBytes(AllZero6)
  const LinkLocalAllRouters6: Option<IP> := IPv6FromBytes(AllZero6)

  /** `isEqual(to: c)` for a constant `c` that may trap when read. */
  function EqualToConstant(ip: IP, c: Option<IP>): (r: Option<bool>)
    requires ip.Valid() && (c.Some? ==> c.value.Valid())
    ensures r.Some? <==> c.Some?
    ensures r.Some? ==> r.value == IsEqual(ip, c.value)
  {
    match c
    case None => None
    case Some(k) => Some(IsEqual(ip, k))
  }

  /** `isUnspecified`: `(isIPv4 && isEqual(to: IPv4.zero)) || (isIPv6 && isEqual(to: IPv6.unspecified))`. */
  function IsUnspecified(ip: IP): Option<bool>
    requires ip.Valid()
  {
    if ip.V4? && IsEqual(ip, Zero4()) then Some(true)
    else if !ip.V6? then Some(false)
    else EqualToConstant(ip, Unspecified6)
  }

  /** `isLoopback`: `(isIPv4 && bytes[0] == 127) || isEqual(to: IPv6.loopback)`. */
  function IsLoopback(ip: IP): Option<bool>
    requires ip.Valid()
  {
    if ip.V4? && ip.bytes[0] == 127 then Some(true)
    else EqualToConstant(ip, Loopback6)
  }

  /** `isGlobalUnicast`: the conjunction of the negated tests, evaluated left
      to right; a trap in `isUnspecified` or `isLoopback` is a trap of the whole. */
  function IsGlobalUnicast(ip: IP): Option<bool>
    requires ip.Valid()
  {
    if !(ip.V4? || ip.V6?) || IsEqual(ip, Broadcast4()) then Some(false)
    else match IsUnspecified(ip)
      case None => None
      case Some(true) => Some(false)
      case Some(false) =>
        match IsLoopback(ip)
        case None => None
        case Some(true) => Some(false)
        case Some(false) => Some(!IsMulticast(ip) && !IsLinkLocalUnicast(ip))
  }

  /** The IPv6 side is unusable: nothing builds an IPv6 address, an IPv4
      address does not convert, and an IPv6 address would not convert back. */
  lemma IPv6Stubs(ip: IP, b: seq<byte>, s: string)
    requires ip.Valid()
    ensures IPv6FromBytes(b).None? && ParseIPv6(s).None?
    ensures Zero6.None? && Unspecified6.None? && Loopback6.None?
    ensures InterfaceLocalAllNodes6.None? && LinkLocalAllNodes6.None? && LinkLocalAllRouters6.None?
    ensures ip.V4? ==> ToIPv6(ip).None? && ToIPv4(ip) == Some(ip)
    ensures ip.V6? ==> ToIPv4(ip).None?
  {
  }

  /** On an IPv4 address `isUnspecified` never reaches an IPv6 constant, and
      agrees with the complete copy; `isLoopback` reaches `IPv6.loopback`, and
      traps, exactly when the first byte is not 127. */
  lemma IPv4Traps(ip: IP)
    requires ip.Valid() && ip.V4?
    ensures IsUnspecified(ip) == Some(ip.bytes == [0, 0, 0, 0])
    ensures IsUnspecified(ip) == Some(Unkoip.IsUnspecified(ip))
    ensures IsLoopback(ip).Some? <==> ip.bytes[0] == 127
    ensures IsLoopback(ip).Some? ==> IsLoopback(ip).value
  {
    Unkoip.IPv4Classes(ip);
  }

  /** `isGlobalUnicast` on an IPv4 address completes only for
      255.255.255.255, 0.0.0.0 and 127.x.y.z, and those are not global unicast;
      for every other IPv4 address it traps. */
  lemma GlobalUnicastTraps(ip: IP)
    requires ip.Valid() && ip.V4?
    ensures IsGlobalUnicast(ip).Some? <==>
              ip.bytes == [255, 255, 255, 255] || ip.bytes == [0, 0, 0, 0] || ip.bytes[0] == 127
    ensures IsGlobalUnicast(ip).Some? ==> !IsGlobalUnicast(ip).value
  {
    IPv4Traps(ip);
    Unkoip.GlobalUnicastRules(ip);
  }

  /** Every classification that reads an IPv6 constant traps on an IPv6 address. */
  lemma IPv6Traps(ip: IP)
    requires ip.Valid() && ip.V6?
    ensures IsUnspecified(ip).None? && IsLoopback(ip).None? && IsGlobalUnicast(ip).None?
  {
    IsEqualMixedNever(ip, Broadcast4());
  }

  // ----- masks -----

  /** `defaulMask()` (so spelled in this copy): the classful mask of the IPv4 form. */
  function DefaultMask(ip: IP): Option<IPMask>
    requires ip.Valid()
  {
    match ToIPv4(ip)
    case Some(v4) => Some(ClassfulMask(v4))
    case None => None
  }

  /** `masking(with:)`: the bytewise AND of the IPv4 form with the mask. */
  function Masking(ip: IP, mask: IPMask): Option<IP>
    requires ip.Valid()
  {
    match ToIPv4(ip)
    case Some(v4) => IPv4FromBytes(AndBytes(v4.bytes, mask.bytes))
    case None => None
  }

  /** Only IPv4 addresses have a default mask or can be masked; on them both
      agree with the complete copy, so the classful thresholds and the bytewise
      AND carry over. */
  lemma MasksAgree(ip: IP, mask: IPMask)
    requires ip.Valid() && |mask.bytes| == 4
    ensures DefaultMask(ip).Some? <==> ip.V4?
    ensures Masking(ip, mask).Some? <==> ip.V4?
    ensures ip.V4? ==> DefaultMask(ip) == Unkoip.DefaultMask(ip) && DefaultMask(ip).value.Valid()
    ensures ip.V4? ==> Masking(ip, mask) == Unkoip.Masking(ip, mask)
  {
    if ip.V4? {
      ClassfulThresholds(ip);
      Unkoip.MaskingSpec(ip, mask);
    }
  }

  /** `IPv6.Formatter.string(from:)`: a stub that renders every address as the empty string. */
  function FormatIPv6(ip: IP): (s: string)
    ensures |s| == 0
  {
    ""
  }
}
