/**
 * The conversion scenario of the library's IPv4 and IPv6 tests, worked out on
 * the model: 135.75.43.52, its full IPv6 text
 * "0000:0000:0000:0000:0000:FFFF:874B:2B34" and its compressed text
 * "::FFFF:874B:2B34" all denote the same IPv4-mapped address.
 */
module ConversionExamples {
  import opened Wrappers
  import opened Collections
  import opened Text
  import opened Bytes
  import opened Address
  import opened Formatter
  import opened Unkoip

  /** ::FFFF:135.75.43.52 as bytes. */
  const Mapped: seq<byte> := MappedPrefix + [0x87, 0x4B, 0x2B, 0x34]

  const FullText: string := "0000:0000:0000:0000:0000:FFFF:874B:2B34"
  const FullGroups: seq<string> := ["0000", "0000", "0000", "0000", "0000", "FFFF", "874B", "2B34"]
  const CompressedText: string := "::FFFF:874B:2B34"
  const TailText: string := "FFFF:874B:2B34"
  const TailGroups: seq<string> := ["FFFF", "874B", "2B34"]

  /** The IPv4 side: 135.75.43.52 renders as "135.75.43.52" and that text parses back to it. */
  lemma IPv4TextExample()
    ensures Format(V4([135, 75, 43, 52]), DotDecimal) == "135.75.43.52"
    ensures ParseIPv4("135.75.43.52") == Some(V4([135, 75, 43, 52]))
  {
    FormatDotted(V4([135, 75, 43, 52]), DotDecimal);
    ByteTextsOfFour([135, 75, 43, 52], DotDecimal);
    DecimalBytes();
    JoinIPv4Example();
    DotDecimalRoundTrip(V4([135, 75, 43, 52]));
  }

  /** The full form: eight groups, all parsing, give the mapped address. */
  lemma FullFormExample()
    ensures BuildNormal(FullText) == Some(V6(Mapped))
    ensures ParseIPv6(FullText) == Some(V6(Mapped))
  {
    FullFormSplit();
    FullFormGroupValues();
    FullFormBytes();
  }

  /** The compressed form: five `:`-components, so the full form fails; the
      `::` form has an empty prefix and three suffix groups, and the ten bytes in
      between are zero-filled. */
  lemma CompressedExample()
    ensures BuildNormal(CompressedText).None?
    ensures BuildDoubleColon(CompressedText) == Some(V6(Mapped))
    ensures ParseIPv6(CompressedText) == Some(V6(Mapped))
  {
    CompressedColonSplit();
    CompressedDoubleColon();
  }

  /** Converting between the families relates 135.75.43.52 and its mapped form
      both ways, and `isEqual` holds between each address and the other's conversion. */
  lemma ConvertExample()
    ensures ToIPv6(V4([135, 75, 43, 52])) == Some(V6(Mapped))
    ensures ToIPv4(V6(Mapped)) == Some(V4([135, 75, 43, 52]))
    ensures IsEqual(ToIPv6(V4([135, 75, 43, 52])).value, V6(Mapped))
    ensures IsEqual(ToIPv4(V6(Mapped)).value, V4([135, 75, 43, 52]))
  {
    assert Mapped[..12] == MappedPrefix;
    assert Mapped[12..] == [135, 75, 43, 52];
  }

  // The pieces the examples are assembled from.

  lemma JoinIPv4Example() ensures Join(["135", "75", "43", "52"], ".") == "135.75.43.52" {}

  lemma DecimalBytes()
    ensures ByteText(135, DotDecimal) == "135" && ByteText(75, DotDecimal) == "75"
    ensures ByteText(43, DotDecimal) == "43" && ByteText(52, DotDecimal) == "52"
  {
    assert Digits(135, 10) == "135";
    assert Digits(75, 10) == "75";
    assert Digits(43, 10) == "43";
    assert Digits(52, 10) == "52";
  }

  lemma FullFormSplit()
    ensures Split(FullText, ":") == FullGroups
  {
    var a := ["0000", "0000", "0000", "0000"];
    var b := ["0000", "FFFF", "874B", "2B34"];
    assert a + b == FullGroups;
    JoinAppend(a, b, ":");
    FullLeft();
    FullRight();
    FullConcat();
    NoColonInGroups();
    SplitJoin(FullGroups, ':');
  }

  lemma FullLeft() ensures Join(["0000", "0000", "0000", "0000"], ":") == "0000:0000:0000:0000" {}
  lemma FullRight() ensures Join(["0000", "FFFF", "874B", "2B34"], ":") == "0000:FFFF:874B:2B34" {}
  lemma FullConcat() ensures "0000:0000:0000:0000" + ":" + "0000:FFFF:874B:2B34" == FullText {}

  lemma NoColonInGroups()
    ensures forall k :: 0 <= k < |FullGroups| ==> ':' !in FullGroups[k]
    ensures forall k :: 0 <= k < |TailGroups| ==> ':' !in TailGroups[k]
  {
  }

  /** A hexadecimal rendering parses back as a group. */
  lemma HexGroupOf(n: uint16, s: string)
    requires Digits(n, 16) == s
    ensures HexGroup(s) == Some(n)
  {
    DigitsRoundTrip(n, 16);
  }

  lemma GroupValues()
    ensures HexGroup("0000") == Some(0) && HexGroup("FFFF") == Some(0xFFFF)
    ensures HexGroup("874B") == Some(0x874B) && HexGroup("2B34") == Some(0x2B34)
  {
    GroupZero();
    GroupFFFF();
    Group874B();
    Group2B34();
  }

  lemma GroupZero() ensures HexGroup("0000") == Some(0) {
    LeadingZerosValue("0", 3, 16);
    assert Repeat('0', 3) + "0" == "0000";
    DigitsRoundTrip(0, 16);
  }
  lemma GroupFFFF() ensures HexGroup("FFFF") == Some(0xFFFF) { assert Digits(0xFFFF, 16) == "FFFF"; HexGroupOf(0xFFFF, "FFFF"); }
  lemma Group874B() ensures HexGroup("874B") == Some(0x874B) { assert Digits(0x874B, 16) == "874B"; HexGroupOf(0x874B, "874B"); }
  lemma Group2B34() ensures HexGroup("2B34") == Some(0x2B34) { assert Digits(0x2B34, 16) == "2B34"; HexGroupOf(0x2B34, "2B34"); }

  lemma FullFormGroupValues()
    ensures CompactMap(FullGroups, HexGroup) == [0, 0, 0, 0, 0, 0xFFFF, 0x874B, 0x2B34]
  {
    GroupValues();
    CompactMapAll(FullGroups, HexGroup);
  }

  lemma FullFormBytes()
    ensures GroupsBytes([0, 0, 0, 0, 0, 0xFFFF, 0x874B, 0x2B34]) == Mapped
  {
    var z: seq<uint16> := [0, 0, 0, 0, 0];
    var t: seq<uint16> := [0xFFFF, 0x874B, 0x2B34];
    assert z + t == [0, 0, 0, 0, 0, 0xFFFF, 0x874B, 0x2B34];
    GroupsBytesAppend(z, t);
    ZeroGroupBytes();
    TailGroupBytes();
    ZeroFill();
  }

  lemma ZeroGroupBytes()
    ensures GroupsBytes([0, 0, 0, 0, 0]) == Repeat(0, 10)
  {
  }

  /** The bytes of two lists of groups are the bytes of each, in order. */
  lemma {:induction false} GroupsBytesAppend(a: seq<uint16>, b: seq<uint16>)
    ensures GroupsBytes(a + b) == GroupsBytes(a) + GroupsBytes(b)
    decreases |a|
  {
    if |a| == 0 {
      assert a + b == b;
    } else {
      assert (a + b)[0] == a[0] && (a + b)[1..] == a[1..] + b;
      GroupsBytesAppend(a[1..], b);
    }
  }

  lemma TailGroupBytes()
    ensures GroupsBytes([0xFFFF, 0x874B, 0x2B34]) == [0xFF, 0xFF, 0x87, 0x4B, 0x2B, 0x34]
  {
    GroupBytesExamples();
    var gs: seq<uint16> := [0xFFFF, 0x874B, 0x2B34];
    assert gs[1..] == [0x874B, 0x2B34] && gs[1..][1..] == [0x2B34] && gs[1..][1..][1..] == [];
  }

  lemma GroupBytesExamples()
    ensures ToUInt8(0xFFFF) == [0xFF, 0xFF] && ToUInt8(0x874B) == [0x87, 0x4B] && ToUInt8(0x2B34) == [0x2B, 0x34]
  {
    GroupBytesFFFF();
    GroupBytes874B();
    GroupBytes2B34();
  }

  lemma GroupBytesFFFF() ensures ToUInt8(0xFFFF) == [0xFF, 0xFF] {}
  lemma GroupBytes874B() ensures ToUInt8(0x874B) == [0x87, 0x4B] {}
  lemma GroupBytes2B34() ensures ToUInt8(0x2B34) == [0x2B, 0x34] {}

  lemma CompressedColonSplit()
    ensures Split(CompressedText, ":") == ["", "", "FFFF", "874B", "2B34"]
  {
    var a := ["", ""];
    assert a + TailGroups == ["", "", "FFFF", "874B", "2B34"];
    JoinAppend(a, TailGroups, ":");
    assert Join(a, ":") == ":";
    TailJoin();
    CompressedConcat();
    NoColonInGroups();
    SplitJoin(["", "", "FFFF", "874B", "2B34"], ':');
  }

  lemma TailJoin() ensures Join(TailGroups, ":") == TailText {}
  lemma CompressedConcat() ensures ":" + ":" + TailText == CompressedText {}

  /** The `::` form's pieces: an empty prefix with no bytes and the three tail groups. */
  lemma CompressedDoubleColon()
    ensures BuildDoubleColon(CompressedText) == Some(V6(Mapped))
  {
    CompressedHalves();
    TailColonSplit();
    TailBytes();
    EmptyPrefixBytes();
    ZeroFill();
  }

  /** The empty prefix before "::" is one empty component, which is no group. */
  lemma EmptyPrefixBytes()
    ensures HexBytes(Split("", ":")) == []
  {
    assert Split("", ":") == [""];
    assert HexGroup("").None?;
  }

  lemma TailColonSplit()
    ensures Split(TailText, ":") == TailGroups
  {
    TailJoin();
    NoColonInGroups();
    SplitJoin(TailGroups, ':');
  }

  lemma CompressedHalves()
    ensures Split(CompressedText, "::") == ["", TailText]
  {
    TailHasNoDoubleColon();
    SplitAbsent(TailText, "::");
    CompressedSlices();
    SplitAtSeparator(CompressedText, "::");
  }

  lemma CompressedSlices() ensures CompressedText[..2] == "::" && CompressedText[2..] == TailText {}

  lemma TailHasNoDoubleColon()
    ensures forall i: nat :: !OccursAt(TailText, "::", i)
  {
    var t := TailText;
    forall i: nat ensures !OccursAt(t, "::", i) {
      if i + 2 <= |t| {
        if i == 4 || i == 9 { assert t[i + 1] != ':'; } else { assert t[i] != ':'; }
      }
    }
  }

  lemma TailBytes()
    ensures HexBytes(TailGroups) == [0xFF, 0xFF, 0x87, 0x4B, 0x2B, 0x34]
  {
    GroupValues();
    CompactMapAll(TailGroups, HexGroup);
    assert CompactMap(TailGroups, HexGroup) == [0xFFFF, 0x874B, 0x2B34];
    TailGroupBytes();
  }

  lemma ZeroFill()
    ensures [] + Repeat(0 as byte, 10) + [0xFF, 0xFF, 0x87, 0x4B, 0x2B, 0x34] == Mapped
  {
  }

  /** A text with two "::" splits into three halves, which the `::` form
      refuses; neither of the other grammars accepts it either. */
  lemma TwoDoubleColons()
    ensures Split("1::2::3", "::") == ["1", "2", "3"]
    ensures BuildDoubleColon("1::2::3").None?
    ensures ParseIPv6("1::2::3").None?
  {
    ThreeHalves();
    assert BuildNormal("1::2::3").None? by {
      SplitCount("1::2::3", ':');
      assert Count("1::2::3", ':') == 4;
    }
    assert BuildDot("1::2::3").None? by {
      SplitCount("1::2::3", '.');
      assert Count("1::2::3", '.') == 0;
    }
  }

  lemma ThreeHalves()
    ensures Split("1::2::3", "::") == ["1", "2", "3"]
  {
    assert Split("3", "::") == ["3"];
    SplitAtSeparator("::3", "::");
    assert Split("::3", "::") == ["", "3"] by { assert "::3"[2..] == "3"; }
    SplitOffSeparator("2::3", "::");
    assert "2::3"[0] == '2' && "2::3"[1..] == "::3" && ['2'] + "" == "2";
    assert Split("2::3", "::") == ["2", "3"];
    SplitAtSeparator("::2::3", "::");
    assert Split("::2::3", "::") == ["", "2", "3"] by { assert "::2::3"[2..] == "2::3"; }
    SplitOffSeparator("1::2::3", "::");
    assert "1::2::3"[0] == '1' && "1::2::3"[1..] == "::2::3" && ['1'] + "" == "1";
  }

  /** A text that does not start with the separator's first character puts
      that character at the head of its first component. */
  lemma SplitOffSeparator(s: string, sep: string)
    requires |sep| > 0 && |s| >= |sep| && s[0] != sep[0]
    ensures Split(s, sep) == [[s[0]] + Split(s[1..], sep)[0]] + Split(s[1..], sep)[1..]
  {
    assert s[..|sep|][0] != sep[0];
  }
}
