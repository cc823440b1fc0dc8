/**
 * The construction scenario of the library's IPv4 tests, worked out on the
 * model: which byte sequences and which texts yield an address.
 */
module IPv4Examples {
  import opened Wrappers
  import opened Collections
  import opened Text
  import opened Address
  import opened Formatter

  /** Exactly four bytes make an address; 0, 1, 2, 3 and 5 bytes do not. */
  lemma ByteInitExamples()
    ensures IPv4FromBytes([255, 255, 255, 255]) == Some(V4([255, 255, 255, 255]))
    ensures IPv4FromBytes([0, 0, 0, 0]) == Some(V4([0, 0, 0, 0]))
    ensures IPv4FromBytes([1, 1, 1, 1]) == Some(V4([1, 1, 1, 1]))
    ensures IPv4FromBytes([]).None? && IPv4FromBytes([0]).None? && IPv4FromBytes([0, 0]).None?
    ensures IPv4FromBytes([0, 0, 0]).None? && IPv4FromBytes([0, 0, 0, 0, 0]).None?
    ensures IPv4FromBytes([255, 255, 255, 255, 255]).None?
  {
  }

  /** The texts the tests accept and refuse. "256.256.256.256" and
      "-1.-1.-1.-1" fail because every segment is dropped, "0.0.0.0.0" because
      five segments survive, and the others because they have too few dots. */
  lemma TextInitExamples()
    ensures ParseIPv4("0.0.0.0") == Some(V4([0, 0, 0, 0]))
    ensures ParseIPv4("255.255.255.255") == Some(V4([255, 255, 255, 255]))
    ensures ParseIPv4("256.256.256.256").None?
    ensures ParseIPv4("-1.-1.-1.-1").None?
    ensures ParseIPv4("0.0.0.0.0").None?
    ensures ParseIPv4("").None? && ParseIPv4("0,0,0,0").None?
    ensures ParseIPv4("0.0.0").None? && ParseIPv4("0.0").None? && ParseIPv4("0").None?
  {
    ZeroRoundTrip();
    BroadcastRoundTrip();
    OutOfRange();
    Negative();
    FiveSegments();
    TooFewDots();
  }

  lemma ZeroRoundTrip()
    ensures ParseIPv4("0.0.0.0") == Some(V4([0, 0, 0, 0]))
  {
    var ip := V4([0, 0, 0, 0]);
    FormatDotted(ip, DotDecimal);
    ByteTextsOfFour(ip.bytes, DotDecimal);
    assert ByteText(0, DotDecimal) == "0";
    JoinZeros();
    DotDecimalRoundTrip(ip);
  }

  lemma JoinZeros() ensures Join(["0", "0", "0", "0"], ".") == "0.0.0.0" {}

  lemma BroadcastRoundTrip()
    ensures ParseIPv4("255.255.255.255") == Some(V4([255, 255, 255, 255]))
  {
    BroadcastDecimalExample();
    DotDecimalRoundTrip(V4([255, 255, 255, 255]));
  }

  /** A text whose four segments all fail to parse leaves no byte. */
  lemma AllDropped(parts: seq<string>, s: string)
    requires parts == ["256", "256", "256", "256"] || parts == ["-1", "-1", "-1", "-1"]
    requires Join(parts, ".") == s
    ensures ParseIPv4(s).None?
  {
    RefusedSegments();
    SplitJoin(parts, '.');
    CompactMapAll(parts, ParseDecimalByte);
  }

  lemma OutOfRange()
    ensures ParseIPv4("256.256.256.256").None?
  {
    JoinOutOfRange();
    AllDropped(["256", "256", "256", "256"], "256.256.256.256");
  }

  lemma JoinOutOfRange() ensures Join(["256", "256", "256", "256"], ".") == "256.256.256.256" {}

  lemma Negative()
    ensures ParseIPv4("-1.-1.-1.-1").None?
  {
    JoinNegative();
    AllDropped(["-1", "-1", "-1", "-1"], "-1.-1.-1.-1");
  }

  lemma JoinNegative() ensures Join(["-1", "-1", "-1", "-1"], ".") == "-1.-1.-1.-1" {}

  /** 256 is out of range and "-1" is not a run of digits. */
  lemma RefusedSegments()
    ensures ParseDecimalByte("256").None? && ParseDecimalByte("-1").None?
  {
    assert Digits(256, 10) == "256";
    DigitsRoundTrip(256, 10);
    assert DigitValue('-', 10).None?;
  }

  lemma FiveSegments()
    ensures ParseIPv4("0.0.0.0.0").None?
  {
    var parts := ["0", "0", "0", "0", "0"];
    JoinFiveZeros();
    SplitJoin(parts, '.');
    assert ParseDecimalByte("0") == Some(0) by {
      assert Digits(0, 10) == "0";
      DigitsRoundTrip(0, 10);
    }
    CompactMapAll(parts, ParseDecimalByte);
  }

  lemma JoinFiveZeros() ensures Join(["0", "0", "0", "0", "0"], ".") == "0.0.0.0.0" {}

  lemma TooFewDots()
    ensures ParseIPv4("").None? && ParseIPv4("0,0,0,0").None?
    ensures ParseIPv4("0.0.0").None? && ParseIPv4("0.0").None? && ParseIPv4("0").None?
  {
    ParseIPv4TooFewDots("");
    ParseIPv4TooFewDots("0,0,0,0");
    ParseIPv4TooFewDots("0.0.0");
    ParseIPv4TooFewDots("0.0");
    ParseIPv4TooFewDots("0");
  }

  /** The parser is lenient: segments that do not parse are skipped, so a
      trailing dot or a leading word still leaves the address 1.2.3.4. */
  lemma LenientExamples()
    ensures ParseIPv4("1.2.3.4.") == Some(V4([1, 2, 3, 4]))
    ensures ParseIPv4("x.1.2.3.4") == Some(V4([1, 2, 3, 4]))
  {
    var good := ["1", "2", "3", "4"];
    SmallSegments();
    CompactMapAll(good, ParseDecimalByte);
    TrailingDot(good);
    LeadingWord(good);
  }

  lemma TrailingDot(good: seq<string>)
    requires good == ["1", "2", "3", "4"]
    requires CompactMap(good, ParseDecimalByte) == [1, 2, 3, 4]
    requires ParseDecimalByte("").None?
    ensures ParseIPv4("1.2.3.4.") == Some(V4([1, 2, 3, 4]))
  {
    var parts := good + [""];
    assert parts == ["1", "2", "3", "4", ""];
    JoinTrailingDot();
    SplitJoin(parts, '.');
    assert Split("1.2.3.4.", ".") == parts;
    CompactMapAppend(good, [""], ParseDecimalByte);
    assert CompactMap([""], ParseDecimalByte) == [];
    assert DottedBytes("1.2.3.4.") == [1, 2, 3, 4];
  }

  lemma LeadingWord(good: seq<string>)
    requires good == ["1", "2", "3", "4"]
    requires CompactMap(good, ParseDecimalByte) == [1, 2, 3, 4]
    requires ParseDecimalByte("x").None?
    ensures ParseIPv4("x.1.2.3.4") == Some(V4([1, 2, 3, 4]))
  {
    var parts := ["x"] + good;
    assert parts == ["x", "1", "2", "3", "4"];
    JoinLeadingWord();
    SplitJoin(parts, '.');
    assert Split("x.1.2.3.4", ".") == parts;
    CompactMapAppend(["x"], good, ParseDecimalByte);
    assert CompactMap(["x"], ParseDecimalByte) == [];
    assert DottedBytes("x.1.2.3.4") == [1, 2, 3, 4];
  }

  lemma JoinTrailingDot() ensures Join(["1", "2", "3", "4", ""], ".") == "1.2.3.4." {}

  lemma JoinLeadingWord() ensures Join(["x", "1", "2", "3", "4"], ".") == "x.1.2.3.4" {}

  /** One-digit segments parse to their digit; the empty and the non-digit segment do not parse. */
  lemma SmallSegments()
    ensures ParseDecimalByte("1") == Some(1) && ParseDecimalByte("2") == Some(2)
    ensures ParseDecimalByte("3") == Some(3) && ParseDecimalByte("4") == Some(4)
    ensures ParseDecimalByte("").None? && ParseDecimalByte("x").None?
  {
    assert DigitValue('x', 10).None?;
  }
}
