/**
 * The subnet-mask engine shared by both copies of the library (`IPMask` and
 * `IPMask.Number`): validation of a contiguous mask, its network and host bit
 * counts, the classful default masks, and bytewise masking.
 */
module Masks {
  import opened Wrappers
  import opened Bytes
  import opened Address

  /** `IPMask.Number`: the count of network bits and `host = 32 - network`. */
  datatype Number = Number(network: int, host: int)

  /** `IPMask`: the mask bytes and their `Number`. */
  datatype IPMask = IPMask(bytes: seq<byte>, number: Number) {
    /** What `IPMask.init?(from:)` guarantees: four bytes forming a contiguous mask, and their count. */
    predicate Valid() {
      |bytes| == V4Length && MaskNumber(bytes) == Some(number)
    }
  }

  // ----- the bit-level specification -----

  /** The byte with its `k` high-order bits set and the others clear. */
  function HighOnes(k: nat): byte
    requires k <= 8
  {
    if k == 0 then 0x00 else if k == 1 then 0x80 else if k == 2 then 0xC0
    else if k == 3 then 0xE0 else if k == 4 then 0xF0 else if k == 5 then 0xF8
    else if k == 6 then 0xFC else if k == 7 then 0xFE else 0xFF
  }

  /** The byte with only bit `k` set, counting from the most significant bit. */
  function BitAt(k: nat): byte
    requires k < 8
  {
    if k == 0 then 0x80 else if k == 1 then 0x40 else if k == 2 then 0x20
    else if k == 3 then 0x10 else if k == 4 then 0x08 else if k == 5 then 0x04
    else if k == 6 then 0x02 else 0x01
  }

  /** The bits of a byte, most significant first. */
  function ByteBits(v: byte): (r: seq<bool>)
    ensures |r| == 8
  {
    seq(8, k requires 0 <= k < 8 => v & BitAt(k) != 0)
  }

  /** The bits of a byte sequence read big-endian: byte 0 first, each most significant bit first. */
  function Bits(bytes: seq<byte>): (r: seq<bool>)
    ensures |r| == 8 * |bytes|
  {
    if |bytes| == 0 then [] else ByteBits(bytes[0]) + Bits(bytes[1..])
  }

  /** The bit string 1^n 0^(m-n) (all ones if n >= m, all zeros if n <= 0). */
  function OnesThenZeros(n: int, m: nat): (r: seq<bool>)
    ensures |r| == m
  {
    seq(m, i => i < n)
  }

  function Clamp8(x: int): (r: nat)
    ensures r <= 8
  {
    if x < 0 then 0 else if x > 8 then 8 else x
  }

  /** The `len`-byte mask with `n` leading one bits. */
  function MaskOfLength(n: int, len: nat): (m: seq<byte>)
    ensures |m| == len
  {
    seq(len, i => HighOnes(Clamp8(n - 8 * i)))
  }

  /** The number of leading one bits of a byte. */
  function ByteLeadingOnes(v: byte): (r: nat)
    ensures r <= 8 && v & HighOnes(r) == HighOnes(r)
    ensures r < 8 ==> v & BitAt(r) == 0
  {
    if v & 0x80 == 0 then 0 else if v & 0x40 == 0 then 1 else if v & 0x20 == 0 then 2
    else if v & 0x10 == 0 then 3 else if v & 0x08 == 0 then 4 else if v & 0x04 == 0 then 5
    else if v & 0x02 == 0 then 6 else if v & 0x01 == 0 then 7 else 8
  }

  /** A run of `k` high ones followed by a clear bit (or the end of the byte)
      is the byte's leading run. */
  lemma LeadingOnesUnique(v: byte, k: nat)
    requires k <= 8 && v & HighOnes(k) == HighOnes(k)
    requires k < 8 ==> v & BitAt(k) == 0
    ensures k == ByteLeadingOnes(v)
  {
    if k == 0 {} else if k == 1 {} else if k == 2 {} else if k == 3 {}
    else if k == 4 {} else if k == 5 {} else if k == 6 {} else if k == 7 {} else {}
  }

  lemma HighOnesStep(v: byte, k: nat)
    requires k < 8 && v & HighOnes(k) == HighOnes(k) && v & BitAt(k) != 0
    ensures v & HighOnes(k + 1) == HighOnes(k + 1)
  {
    if k == 0 {} else if k == 1 {} else if k == 2 {} else if k == 3 {}
    else if k == 4 {} else if k == 5 {} else if k == 6 {} else {}
  }

  /** The number of leading one bits of a byte sequence read big-endian. */
  function LeadingOnes(bytes: seq<byte>): (n: nat)
    ensures n <= 8 * |bytes|
  {
    if |bytes| == 0 then 0
    else if bytes[0] == 0xFF then 8 + LeadingOnes(bytes[1..])
    else ByteLeadingOnes(bytes[0])
  }

  /** `Number.init?(bytes:)`, specified as a function: the count of leading one
      bits, provided the bytes are exactly that many ones followed by zeros. */
  function MaskNumber(bytes: seq<byte>): Option<Number>
  {
    var n := LeadingOnes(bytes);
    if bytes == MaskOfLength(n, |bytes|) then Some(Number(n, 32 - n)) else None
  }

  // ----- the scan of `Number.init?(bytes:)` -----

  /** `IPMask.Number.init?(bytes:)`: scans the bytes left to right; a 0xFF byte
      adds 8; any other byte adds its leading one bits and must have nothing
      set after them, and every byte after it must be zero. The scan does not
      stop there: the later (zero) bytes are visited too and add nothing. */
  method ScanNumber(bytes: seq<byte>) returns (r: Option<Number>)
    ensures r == MaskNumber(bytes)
  {
    var network: int := 0;
    ghost var cut := -1;  // the index of the first byte other than 0xFF, once seen
    for index := 0 to |bytes|
      invariant -1 <= cut < index
      invariant cut == -1 ==> AllOnesBefore(bytes, index) && network == 8 * index
      invariant 0 <= cut ==> PartialByteAt(bytes, cut) && network == 8 * cut + ByteLeadingOnes(bytes[cut])
    {
      var value := bytes[index];
      assert 0 <= cut ==> value == 0;
      if value == 0xFF {
        network := network + 8;
        continue;
      }
      var ones, check := CountLeadingOnes(value);
      network := network + ones;
      if check != 0 {
        assert cut == -1;
        NotMaskAtCut(bytes, index, index);
        return None;
      }
      for j := index + 1 to |bytes|
        invariant ZerosBetween(bytes, index + 1, j)
      {
        if bytes[j] != 0 {
          assert cut == -1;
          NotMaskAtCut(bytes, index, j);
          return None;
        }
      }
      if cut == -1 {
        cut := index;
      } else {
        assert value == 0 && ByteLeadingOnes(value) == 0;
      }
    }
    if cut == -1 {
      AllOnesMask(bytes);
    } else {
      PartialMask(bytes, cut);
    }
    r := Some(Number(network, 32 - network));
  }

  /** The inner loop of `Number.init?(bytes:)`: `check` starts as the byte and is
      shifted left while its top bit is set; each shift is one more network bit.
      Returns that count and what is left of `check`. */
  method CountLeadingOnes(value: byte) returns (ones: nat, check: byte)
    ensures ones == ByteLeadingOnes(value)
    ensures check == Shl(value, ones)
    ensures check == 0 <==> value == HighOnes(ones)
  {
    ones := 0;
    check := value;
    while check & 0x80 != 0
      invariant ones <= 8
      invariant value & HighOnes(ones) == HighOnes(ones)
      invariant check == Shl(value, ones)
      decreases 8 - ones
    {
      ShiftTopBit(value, ones);
      ShiftOnce(value, ones);
      HighOnesStep(value, ones);
      ones := ones + 1;
      check := check << 1;
    }
    ShiftTopBit(value, ones);
    LeadingOnesUnique(value, ones);
    ShiftedRest(value, ones);
  }

  /** Every byte before index `n` is 0xFF. */
  ghost predicate AllOnesBefore(bytes: seq<byte>, n: int)
  {
    n <= |bytes| && forall j :: 0 <= j < n ==> bytes[j] == 0xFF
  }

  /** Every byte with index in `[lo, hi)` is zero. */
  ghost predicate ZerosBetween(bytes: seq<byte>, lo: int, hi: int)
  {
    0 <= lo && hi <= |bytes| && forall j :: lo <= j < hi ==> bytes[j] == 0
  }

  /** Bytes before `p` are 0xFF, byte `p` is a shorter run of high ones, and every
      byte after it is zero. */
  ghost predicate PartialByteAt(bytes: seq<byte>, p: int)
  {
    0 <= p < |bytes| && AllOnesBefore(bytes, p) &&
    bytes[p] != 0xFF && bytes[p] == HighOnes(ByteLeadingOnes(bytes[p])) &&
    ZerosBetween(bytes, p + 1, |bytes|)
  }

  /** `v << k` for a shift of at most eight bits, written with constant shifts. */
  function Shl(v: byte, k: nat): byte
    requires k <= 8
  {
    if k == 0 then v else if k == 1 then v << 1 else if k == 2 then v << 2
    else if k == 3 then v << 3 else if k == 4 then v << 4 else if k == 5 then v << 5
    else if k == 6 then v << 6 else if k == 7 then v << 7 else 0
  }

  /** The top bit of the byte shifted left by `k` is bit `k` of the byte. */
  lemma ShiftTopBit(v: byte, k: nat)
    requires k <= 8
    ensures (Shl(v, k) & 0x80 != 0) <==> k < 8 && v & BitAt(k) != 0
  {
    if k == 0 {} else if k == 1 {} else if k == 2 {} else if k == 3 {}
    else if k == 4 {} else if k == 5 {} else if k == 6 {} else if k == 7 {} else {}
  }

  /** Shifting once more adds one to the shift. */
  lemma ShiftOnce(v: byte, k: nat)
    requires k < 8
    ensures Shl(v, k) << 1 == Shl(v, k + 1)
  {
    if k == 0 {} else if k == 1 {} else if k == 2 {} else if k == 3 {}
    else if k == 4 {} else if k == 5 {} else if k == 6 {} else {}
  }

  /** Once the `k` leading ones are shifted out, nothing is left exactly when
      the byte was those ones alone. */
  lemma ShiftedRest(v: byte, k: nat)
    requires k <= 8 && v & HighOnes(k) == HighOnes(k)
    ensures (Shl(v, k) == 0) <==> v == HighOnes(k)
  {
    if k == 0 {} else if k == 1 {} else if k == 2 {} else if k == 3 {}
    else if k == 4 {} else if k == 5 {} else if k == 6 {} else if k == 7 {} else {}
  }

  /** Leading 0xFF bytes each contribute eight leading ones. */
  lemma {:induction false} LeadingOnesAfterFF(bytes: seq<byte>, p: nat)
    requires p <= |bytes| && AllOnesBefore(bytes, p)
    ensures LeadingOnes(bytes) == 8 * p + LeadingOnes(bytes[p..])
  {
    if p > 0 {
      LeadingOnesAfterFF(bytes[1..], p - 1);
      assert bytes[1..][p - 1..] == bytes[p..];
    }
  }

  lemma AllOnesMask(bytes: seq<byte>)
    requires AllOnesBefore(bytes, |bytes|)
    ensures MaskNumber(bytes) == Some(Number(8 * |bytes|, 32 - 8 * |bytes|))
  {
    LeadingOnesAfterFF(bytes, |bytes|);
    assert bytes == MaskOfLength(8 * |bytes|, |bytes|);
  }

  lemma PartialMask(bytes: seq<byte>, p: int)
    requires PartialByteAt(bytes, p)
    ensures MaskNumber(bytes) == Some(Number(8 * p + ByteLeadingOnes(bytes[p]), 32 - (8 * p + ByteLeadingOnes(bytes[p]))))
  {
    var n := 8 * p + ByteLeadingOnes(bytes[p]);
    LeadingOnesAfterFF(bytes, p);
    assert bytes[p..][0] == bytes[p];
    assert LeadingOnes(bytes) == n;
    forall j | 0 <= j < |bytes| ensures bytes[j] == MaskOfLength(n, |bytes|)[j] {
      if j < p { assert n - 8 * j >= 8; }
      else if j == p { assert Clamp8(n - 8 * j) == ByteLeadingOnes(bytes[p]); }
      else { assert n - 8 * j < 0; }
    }
  }

  /** When bytes before `p` are 0xFF and byte `p` is not, the scan's two failure
      tests (byte `p` has a bit set after its leading ones, or a later byte `q`
      is not zero) each rule out every mask. */
  lemma NotMaskAtCut(bytes: seq<byte>, p: nat, q: nat)
    requires p <= q < |bytes|
    requires AllOnesBefore(bytes, p)
    requires bytes[p] != 0xFF
    requires q == p ==> bytes[p] != HighOnes(ByteLeadingOnes(bytes[p]))
    requires q > p ==> bytes[q] != 0
    ensures MaskNumber(bytes).None?
  {
    var n := 8 * p + ByteLeadingOnes(bytes[p]);
    LeadingOnesAfterFF(bytes, p);
    assert bytes[p..][0] == bytes[p];
    assert LeadingOnes(bytes) == n;
    if q == p {
      assert Clamp8(n - 8 * p) == ByteLeadingOnes(bytes[p]);
      assert bytes[p] != MaskOfLength(n, |bytes|)[p];
    } else {
      assert n - 8 * q < 0;
      assert bytes[q] != MaskOfLength(n, |bytes|)[q];
    }
  }

  // ----- what the scan accepts -----

  /** A `len`-byte mask is its first byte followed by the mask of the remaining bytes. */
  lemma MaskOfLengthCons(n: int, len: nat)
    requires len > 0
    ensures MaskOfLength(n, len) == [HighOnes(Clamp8(n))] + MaskOfLength(n - 8, len - 1)
  {
    var m, t := MaskOfLength(n, len), MaskOfLength(n - 8, len - 1);
    forall i | 1 <= i < len ensures m[i] == t[i - 1] {
      assert n - 8 * i == (n - 8) - 8 * (i - 1);
    }
  }

  lemma HighOnesLeadingOnes(k: nat)
    requires k <= 8
    ensures ByteLeadingOnes(HighOnes(k)) == k
  {
    LeadingOnesUnique(HighOnes(k), k) by {
      if k == 0 {} else if k == 1 {} else if k == 2 {} else if k == 3 {}
      else if k == 4 {} else if k == 5 {} else if k == 6 {} else if k == 7 {} else {}
    }
  }

  /** The mask `1^n 0^(8 len - n)` has exactly `n` leading ones. */
  lemma {:induction false} LeadingOnesOfMask(n: int, len: nat)
    requires 0 <= n <= 8 * len
    ensures LeadingOnes(MaskOfLength(n, len)) == n
  {
    if len > 0 {
      MaskOfLengthCons(n, len);
      var m := MaskOfLength(n, len);
      assert m[1..] == MaskOfLength(n - 8, len - 1);
      if n >= 8 {
        LeadingOnesOfMask(n - 8, len - 1);
      } else {
        HighOnesLeadingOnes(n);
      }
    }
  }

  /** `Number.init?(bytes:)` succeeds exactly on the contiguous masks
      `1^n 0^(8 len - n)`, and then reports `network == n` and `host == 32 - n`. */
  lemma MaskNumberContiguous(bytes: seq<byte>, n: int)
    requires 0 <= n <= 8 * |bytes|
    ensures MaskNumber(bytes) == Some(Number(n, 32 - n)) <==> bytes == MaskOfLength(n, |bytes|)
  {
    if bytes == MaskOfLength(n, |bytes|) {
      LeadingOnesOfMask(n, |bytes|);
    }
  }

  /** The accepted masks, read as bits big-endian, are one bits followed by zero bits. */
  lemma {:induction false} MaskBits(bytes: seq<byte>, n: int)
    ensures bytes == MaskOfLength(n, |bytes|) <==> Bits(bytes) == OnesThenZeros(n, 8 * |bytes|)
  {
    if |bytes| > 0 {
      var len := |bytes|;
      MaskOfLengthCons(n, len);
      MaskBits(bytes[1..], n - 8);
      var ones := OnesThenZeros(n, 8 * len);
      assert ones == OnesThenZeros(n, 8) + OnesThenZeros(n - 8, 8 * (len - 1)) by {
        var t := OnesThenZeros(n - 8, 8 * (len - 1));
        forall i | 8 <= i < 8 * len ensures ones[i] == t[i - 8] {}
      }
      ByteBitsOfMask(bytes[0], n);
      assert bytes == [bytes[0]] + bytes[1..];
      SplitEquality(ByteBits(bytes[0]), Bits(bytes[1..]), OnesThenZeros(n, 8), OnesThenZeros(n - 8, 8 * (len - 1)));
    }
  }

  lemma SplitEquality<T>(a: seq<T>, b: seq<T>, c: seq<T>, d: seq<T>)
    requires |a| == |c|
    ensures a + b == c + d <==> a == c && b == d
  {
    if a + b == c + d {
      assert a == (a + b)[..|a|] && c == (c + d)[..|c|];
      assert b == (a + b)[|a|..] && d == (c + d)[|c|..];
    }
  }

  /** A byte's bits are `1^n 0^(8-n)` exactly when it is the byte of `n` (clamped) high ones. */
  lemma ByteBitsOfMask(v: byte, n: int)
    ensures ByteBits(v) == OnesThenZeros(n, 8) <==> v == HighOnes(Clamp8(n))
  {
    var c := Clamp8(n);
    assert OnesThenZeros(n, 8) == OnesThenZeros(c, 8);
    assert ByteBits(HighOnes(c)) == OnesThenZeros(c, 8) by {
      if c == 0 {} else if c == 1 {} else if c == 2 {} else if c == 3 {}
      else if c == 4 {} else if c == 5 {} else if c == 6 {} else if c == 7 {} else {}
    }
    if ByteBits(v) == ByteBits(HighOnes(c)) {
      ByteBitsInjective(v, HighOnes(c));
    }
  }

  /** A byte is determined by its bits. */
  lemma ByteBitsInjective(a: byte, b: byte)
    requires ByteBits(a) == ByteBits(b)
    ensures a == b
  {
    assert ByteBits(a)[0] == ByteBits(b)[0] && ByteBits(a)[1] == ByteBits(b)[1];
    assert ByteBits(a)[2] == ByteBits(b)[2] && ByteBits(a)[3] == ByteBits(b)[3];
    assert ByteBits(a)[4] == ByteBits(b)[4] && ByteBits(a)[5] == ByteBits(b)[5];
    assert ByteBits(a)[6] == ByteBits(b)[6] && ByteBits(a)[7] == ByteBits(b)[7];
  }

  /** Mask validation as the library states it: the scan accepts the bytes iff,
      read as a big-endian bit string, they are `n` ones followed by zeros, and
      then `network == n` and `host == 32 - network`. */
  lemma NumberIffOnesThenZeros(bytes: seq<byte>)
    ensures MaskNumber(bytes).Some? <==>
              exists n :: 0 <= n <= 8 * |bytes| && Bits(bytes) == OnesThenZeros(n, 8 * |bytes|)
    ensures MaskNumber(bytes).Some? ==>
              var num := MaskNumber(bytes).value;
              0 <= num.network <= 8 * |bytes| && num.host == 32 - num.network &&
              Bits(bytes) == OnesThenZeros(num.network, 8 * |bytes|)
  {
    if MaskNumber(bytes).Some? {
      MaskBits(bytes, LeadingOnes(bytes));
    }
    if exists n :: 0 <= n <= 8 * |bytes| && Bits(bytes) == OnesThenZeros(n, 8 * |bytes|) {
      var n :| 0 <= n <= 8 * |bytes| && Bits(bytes) == OnesThenZeros(n, 8 * |bytes|);
      MaskBits(bytes, n);
      MaskNumberContiguous(bytes, n);
    }
  }

  // ----- IPMask -----

  /** `IPMask.init?(from: [UInt8])`: four bytes that `Number.init?(bytes:)` accepts. */
  function MaskFromBytes(b: seq<byte>): (r: Option<IPMask>)
    ensures r.Some? ==> r.value.Valid() && r.value.bytes == b
  {
    if |b| != V4Length then None
    else match MaskNumber(b)
      case None => None
      case Some(number) => Some(IPMask(b, number))
  }

  /** A mask is accepted iff it has four bytes forming `1^n 0^(32-n)`; its
      network and host counts are then `n` and `32 - n`, both within 0..32. */
  lemma MaskFromBytesSpec(b: seq<byte>)
    ensures MaskFromBytes(b).Some? <==>
              |b| == 4 && exists n :: 0 <= n <= 32 && Bits(b) == OnesThenZeros(n, 32)
    ensures MaskFromBytes(b).Some? ==>
              var num := MaskFromBytes(b).value.number;
              0 <= num.network <= 32 && num.host == 32 - num.network && 0 <= num.host <= 32 &&
              Bits(b) == OnesThenZeros(num.network, 32)
  {
    NumberIffOnesThenZeros(b);
  }

  /** 255.255.255.0 is a /24 mask with 8 host bits; 255.0.255.0 has a hole and is refused. */
  lemma MaskExamples()
    ensures MaskFromBytes([255, 255, 255, 0]) == Some(IPMask([255, 255, 255, 0], Number(24, 8)))
    ensures MaskFromBytes([255, 0, 255, 0]).None?
  {
    MaskNumberContiguous([255, 255, 255, 0], 24);
    assert [255, 255, 255, 0] == MaskOfLength(24, 4);
    var hole: seq<byte> := [255, 0, 255, 0];
    NotMaskAtCut(hole, 1, 2);
  }

  /** `IPMask.classAMask`, `classBMask` and `classCMask`: /8, /16 and /24. */
  function ClassAMask(): (m: IPMask)
    ensures m.Valid() && m.bytes == [0xFF, 0, 0, 0] && m.number == Number(8, 24)
  {
    MaskNumberContiguous([0xFF, 0, 0, 0], 8);
    assert [0xFF, 0, 0, 0] == MaskOfLength(8, 4);
    MaskFromBytes([0xFF, 0, 0, 0]).value
  }

  function ClassBMask(): (m: IPMask)
    ensures m.Valid() && m.bytes == [0xFF, 0xFF, 0, 0] && m.number == Number(16, 16)
  {
    MaskNumberContiguous([0xFF, 0xFF, 0, 0], 16);
    assert [0xFF, 0xFF, 0, 0] == MaskOfLength(16, 4);
    MaskFromBytes([0xFF, 0xFF, 0, 0]).value
  }

  function ClassCMask(): (m: IPMask)
    ensures m.Valid() && m.bytes == [0xFF, 0xFF, 0xFF, 0] && m.number == Number(24, 8)
  {
    MaskNumberContiguous([0xFF, 0xFF, 0xFF, 0], 24);
    assert [0xFF, 0xFF, 0xFF, 0] == MaskOfLength(24, 4);
    MaskFromBytes([0xFF, 0xFF, 0xFF, 0]).value
  }

  /** `IPMask.init(from: IPv4)`: the classful default mask chosen by the first byte. */
  function ClassfulMask(ip: IP): IPMask
    requires ip.Valid() && ip.V4?
  {
    if ip.bytes[0] <= 0x80 then ClassAMask()
    else if ip.bytes[0] <= 0xC0 then ClassBMask()
    else ClassCMask()
  }

  /** The classful mask is /8 for a first byte up to 128, /16 up to 192 and /24
      above. The thresholds are inclusive, so 128.x.y.z gets /8 and 192.x.y.z
      gets /16, where RFC 791's classes would give /16 and /24. */
  lemma ClassfulThresholds(ip: IP)
    requires ip.Valid() && ip.V4?
    ensures ClassfulMask(ip).Valid()
    ensures ClassfulMask(ip).number.network == 8 <==> ip.bytes[0] <= 128
    ensures ClassfulMask(ip).number.network == 16 <==> 128 < ip.bytes[0] <= 192
    ensures ClassfulMask(ip).number.network == 24 <==> 192 < ip.bytes[0]
    ensures ClassfulMask(V4([128, 0, 0, 1])).number.network == 8
    ensures ClassfulMask(V4([192, 0, 2, 1])).number.network == 16
  {
  }

  // ----- masking -----

  /** `zip(ip.bytes, mask.bytes).map { $0 & $1 }`: the pairwise AND, as long as the shorter input. */
  function AndBytes(x: seq<byte>, m: seq<byte>): (r: seq<byte>)
    ensures |r| == if |x| < |m| then |x| else |m|
  {
    if |x| == 0 || |m| == 0 then [] else [x[0] & m[0]] + AndBytes(x[1..], m[1..])
  }

  lemma {:induction false} AndBytesAt(x: seq<byte>, m: seq<byte>, i: nat)
    requires i < |x| && i < |m|
    ensures AndBytes(x, m)[i] == x[i] & m[i]
  {
    if i > 0 { AndBytesAt(x[1..], m[1..], i - 1); }
  }

  /** Masking twice with the same mask is masking once. */
  lemma {:induction false} AndBytesIdempotent(x: seq<byte>, m: seq<byte>)
    ensures AndBytes(AndBytes(x, m), m) == AndBytes(x, m)
  {
    if |x| > 0 && |m| > 0 {
      AndBytesIdempotent(x[1..], m[1..]);
      assert (x[0] & m[0]) & m[0] == x[0] & m[0];
    }
  }

  /** The bits of the AND are the ANDs of the bits. */
  lemma {:induction false} AndBytesBits(x: seq<byte>, m: seq<byte>, i: nat)
    requires |x| == |m| && i < 8 * |x|
    ensures Bits(AndBytes(x, m))[i] == (Bits(x)[i] && Bits(m)[i])
  {
    var y := AndBytes(x, m);
    if i < 8 {
      AndBytesFirstByte(x, m, i);
    } else {
      calc {
        Bits(y)[i];
      == { BitsCons(y, i); }
        Bits(y[1..])[i - 8];
      == { assert y[1..] == AndBytes(x[1..], m[1..]); }
        Bits(AndBytes(x[1..], m[1..]))[i - 8];
      == { AndBytesBits(x[1..], m[1..], i - 8); }
        Bits(x[1..])[i - 8] && Bits(m[1..])[i - 8];
      == { BitsCons(x, i); BitsCons(m, i); }
        Bits(x)[i] && Bits(m)[i];
      }
    }
  }

  lemma AndBytesFirstByte(x: seq<byte>, m: seq<byte>, i: nat)
    requires |x| == |m| && i < 8 && 0 < |x|
    ensures Bits(AndBytes(x, m))[i] == (Bits(x)[i] && Bits(m)[i])
  {
    var y := AndBytes(x, m);
    AndBytesAt(x, m, 0);
    BitsCons(y, i);
    BitsCons(x, i);
    BitsCons(m, i);
    ByteBitsAnd(x[0], m[0], i);
  }

  /** Bit `i` of a byte sequence lies in its first byte or in the rest. */
  lemma BitsCons(x: seq<byte>, i: nat)
    requires i < 8 * |x|
    ensures i < 8 ==> Bits(x)[i] == ByteBits(x[0])[i]
    ensures 8 <= i ==> Bits(x)[i] == Bits(x[1..])[i - 8]
  {
    var a, b := ByteBits(x[0]), Bits(x[1..]);
    assert Bits(x) == a + b;
    assert |a| == 8;
  }

  lemma ByteBitsAt(v: byte, i: nat)
    requires i < 8
    ensures ByteBits(v)[i] == (v & BitAt(i) != 0)
  {
  }

  lemma AndBit(a: byte, b: byte, i: nat)
    requires i < 8
    ensures (a & b & BitAt(i) != 0) == (a & BitAt(i) != 0 && b & BitAt(i) != 0)
  {
    if i == 0 {} else if i == 1 {} else if i == 2 {} else if i == 3 {}
    else if i == 4 {} else if i == 5 {} else if i == 6 {} else {}
  }

  lemma ByteBitsAnd(a: byte, b: byte, i: nat)
    requires i < 8
    ensures ByteBits(a & b)[i] == (ByteBits(a)[i] && ByteBits(b)[i])
  {
    ByteBitsAt(a & b, i);
    ByteBitsAt(a, i);
    ByteBitsAt(b, i);
    AndBit(a, b, i);
  }

  /** Masking with a contiguous mask of `n` network bits keeps the first `n`
      bits of the address and clears the host bits. */
  lemma MaskingKeepsNetworkBits(x: seq<byte>, mask: IPMask)
    requires |x| == 4 && mask.Valid()
    ensures forall i :: 0 <= i < 32 ==>
              Bits(AndBytes(x, mask.bytes))[i] == (i < mask.number.network && Bits(x)[i])
  {
    NumberIffOnesThenZeros(mask.bytes);
    forall i | 0 <= i < 32 ensures Bits(AndBytes(x, mask.bytes))[i] == (i < mask.number.network && Bits(x)[i]) {
      AndBytesBits(x, mask.bytes, i);
    }
  }
}
