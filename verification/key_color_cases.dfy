/**
 * What `hexToRgb` makes of particular key colour strings: the default, the forms a
 * user might plausibly write (CSS shorthand, CSS with alpha, a colour name) and the
 * corners of `parseInt` (sign, `0x` prefix, whitespace, trailing text, rounding).
 */
module KeyColorCases {

  import opened JsNumber
  import opened Chroma
  import opened HexColor

  /** The default key colour `#00ff00` is pure green. */
  lemma DefaultKeyColorIsGreen(hex: string)
    requires hex == "#00ff00"
    ensures KeyBytes(hex) == Rgb8(0, 255, 0)
    ensures HexToRgb(hex) == Rgb(0.0, 1.0, 0.0)
  {
    SixDigitPairs(hex);
    NormalisedGreen(hex);
  }

  lemma NormalisedGreen(hex: string)
    requires KeyBytes(hex) == Rgb8(0, 255, 0)
    ensures HexToRgb(hex) == Rgb(0.0, 1.0, 0.0)
  {
  }

  /** CSS shorthand is not expanded: `#0f0` is the number 0x0f0 = 240, a dark blue,
      not green. */
  lemma ShorthandIsNotExpanded(hex: string)
    requires hex == "#0f0"
    ensures KeyBytes(hex) == Rgb8(0, 0, 240)
  {
    var ds := "0f0";
    assert ds[..2] == "0f";
    HexValueOfPair("0f");
    assert HexValue(ds) == 240;
    assert hex[1..] == ds;
    assert LowBytes(240) == Rgb8(0, 0, 240);
    KeyBytesOfDigits(hex);
  }

  /** Seven digits: the leading one falls outside the low 24 bits. */
  lemma SevenDigitsKeepLowSix(hex: string)
    requires hex == "#1234567"
    ensures KeyBytes(hex) == Rgb8(0x23, 0x45, 0x67)
  {
    LowSixDigitPairs(hex);
  }

  /** A CSS `#RRGGBBAA` colour keys on green, blue and alpha read as red, green and
      blue: opaque green `#00ff00ff` becomes magenta. */
  lemma CssAlphaShiftsChannels(hex: string)
    requires hex == "#00ff00ff"
    ensures KeyBytes(hex) == Rgb8(0xff, 0x00, 0xff)
  {
    LowSixDigitPairs(hex);
  }

  /** Colour names are not understood. `green` loses its `g` and `reen` has no
      leading digit, so the key is black; `red` loses its `r` and `ed` is 237, a
      blue. */
  lemma ColourNames(green: string, red: string)
    requires green == "green" && red == "red"
    ensures HexToRgb(green) == Rgb(0.0, 0.0, 0.0)
    ensures KeyBytes(red) == Rgb8(0, 0, 237)
  {
    assert green[1..] == "reen";
    ParseIntHexNoDigits("reen");
    NonFiniteIsBlack(green);
    assert red[1..] == "ed";
    HexValueOfPair("ed");
    assert LowBytes(237) == Rgb8(0, 0, 237);
    KeyBytesOfDigits(red);
  }

  /** No digits at all gives NaN, hence black. */
  lemma EmptyKeyIsBlack()
    ensures HexToRgb("") == Rgb(0.0, 0.0, 0.0)
    ensures HexToRgb("#") == Rgb(0.0, 0.0, 0.0)
  {
    ParseIntHexNoDigits("");
    assert "#"[1..] == "";
    NonFiniteIsBlack("");
    NonFiniteIsBlack("#");
  }

  /** A sign is accepted: `#-000001` is -1, whose low 24 bits are all ones, so the key
      is white. */
  lemma MinusOneIsWhite(hex: string)
    requires hex == "#-000001"
    ensures KeyBytes(hex) == Rgb8(255, 255, 255)
  {
    MinusOneParsed(hex);
    KeyBytesOfNumber(hex, -1);
    LowBytesOfMinusOne();
  }

  lemma MinusOneParsed(hex: string)
    requires hex == "#-000001"
    ensures KeyColorNumber(hex) == Finite(-1)
  {
    var ds := "000001";
    assert hex[1..] == "-" + ds;
    ParseIntHexSign(ds);
    OneParsed(ds);
  }

  lemma OneParsed(ds: string)
    requires ds == "000001"
    ensures ParseIntHex(ds) == Finite(1)
  {
    ValueOfOne(ds);
    Pow2Of53();
    ParseIntHexOfDigits(ds);
  }

  lemma ValueOfOne(ds: string)
    requires ds == "000001"
    ensures HexValue(ds) == 1
  {
    var zeros := ds[..4];
    assert ds == zeros + "01";
    ZerosHaveValueZero(zeros);
    HexValueAppendPair(zeros, "01");
    HexValueOfPair("01");
  }

  lemma LowBytesOfMinusOne()
    ensures LowBytes(-1) == Rgb8(255, 255, 255)
  {
    assert -1 % 0x100_0000 == 0xff_ffff;
    assert -1 % 0x1_0000 == 0xffff;
  }

  /** A `0x` prefix after the first character is skipped, and so is leading
      whitespace: both keys below are the default green. */
  lemma PrefixAndWhitespaceSkipped()
    ensures KeyBytes("#0x00ff00") == KeyBytes("#00ff00")
    ensures KeyBytes("# 00ff00") == KeyBytes("#00ff00")
  {
    var ds := "00ff00";
    assert "#0x00ff00"[1..] == "0x" + ds;
    assert "# 00ff00"[1..] == [' '] + ds;
    assert "#00ff00"[1..] == ds;
    ParseIntHexPrefix(ds);
    ParseIntHexSkipsWhitespace(' ', ds);
  }

  /** Text after the digits is ignored: `#00ff00;` is the default green. */
  lemma TrailingTextIgnored()
    ensures KeyBytes("#00ff00;") == KeyBytes("#00ff00")
  {
    var ds := "00ff00";
    assert "#00ff00;"[1..] == ds + ";";
    assert "#00ff00"[1..] == ds;
    ParseIntHexStopsAtNonHex(ds, ";");
  }

  /** Fourteen digits reach past the 53-bit significand. `20000000000001` is
      2^53 + 1, which `parseInt` rounds to 2^53: the key is black, where the exact
      value's last digit would have given a blue of 1. */
  lemma RoundingReachesTheKey(hex: string)
    requires hex == "#20000000000001"
    ensures KeyBytes(hex) == Rgb8(0, 0, 0)
  {
    RoundedKeyNumber(hex);
    KeyBytesOfNumber(hex, 0x20_0000_0000_0000);
    LowBytesOfTwoTo53();
  }

  /** The exact value of the same digits has a low byte of 1. */
  lemma ExactValueEndsInOne(ds: string)
    requires ds == "20000000000001"
    ensures LowBytes(HexValue(ds)) == Rgb8(0, 0, 1)
  {
    ValueOfTwoTo53PlusOne(ds);
    assert LowBytes(0x20_0000_0000_0001) == Rgb8(0, 0, 1);
  }

  lemma RoundedKeyNumber(hex: string)
    requires hex == "#20000000000001"
    ensures KeyColorNumber(hex) == Finite(0x20_0000_0000_0000)
  {
    var ds := hex[1..];
    ValueOfTwoTo53PlusOne(ds);
    RoundedParse(ds);
  }

  lemma LowBytesOfTwoTo53()
    ensures LowBytes(0x20_0000_0000_0000) == Rgb8(0, 0, 0)
  {
  }

  lemma RoundedParse(ds: string)
    requires AllHex(ds) && |ds| > 0 && HexValue(ds) == 0x20_0000_0000_0001
    ensures ParseIntHex(ds) == Finite(0x20_0000_0000_0000)
  {
    DigitsOfDigits(ds);
    RoundToDoubleFirstInexact(HexValue(ds));
  }

  lemma ValueOfTwoTo53PlusOne(ds: string)
    requires ds == "20000000000001"
    ensures HexValue(ds) == 0x20_0000_0000_0001
  {
    var zeros := "000000000000";
    assert ds == "2" + (zeros + "1");
    ZerosHaveValueZero(zeros);
    HexValueAppend(zeros, "1");
    HexValueAppend("2", zeros + "1");
    assert HexValue("2") == 2 by {
      assert "2"[..0] == "";
    }
    assert HexValue("1") == 1 by {
      assert "1"[..0] == "";
    }
    Pow2Of53();
    assert Pow2(53) == 2 * Pow2(52);
  }

  lemma {:induction false} ZerosHaveValueZero(z: string)
    requires forall i :: 0 <= i < |z| ==> z[i] == '0'
    ensures AllHex(z) && HexValue(z) == 0
  {
    if |z| > 0 {
      ZerosHaveValueZero(z[..|z| - 1]);
    }
  }
}
