/**
 * `hexToRgb`: the key colour string is turned into three bytes by
 * `parseInt(hex.slice(1), 16)` followed by `>> 16`, `>> 8` and `& 255`, and each
 * byte is divided by 255. Nothing is validated: `parseInt` is modelled as
 * ECMAScript defines it for radix 16, so every string has a colour, and the lemmas
 * below say which one.
 */
module HexColor {

  import opened JsNumber
  import opened Chroma

  /** The code points `parseInt` trims from the front: ECMAScript's WhiteSpace
      (TAB, VT, FF, SP, NBSP, ZWNBSP and the Zs category) and LineTerminator. */
  predicate IsJsWhitespace(c: char) {
    c == '\t' || c == '\n' || c == '\U{000B}' || c == '\U{000C}' || c == '\r' || c == ' '
    || c == '\U{00A0}' || c == '\U{1680}' || ('\U{2000}' <= c <= '\U{200A}')
    || c == '\U{2028}' || c == '\U{2029}' || c == '\U{202F}' || c == '\U{205F}'
    || c == '\U{3000}' || c == '\U{FEFF}'
  }

  /** A radix-16 digit: ASCII 0-9, a-f and A-F only. */
  predicate IsHexDigit(c: char) {
    ('0' <= c <= '9') || ('a' <= c <= 'f') || ('A' <= c <= 'F')
  }

  function HexDigitValue(c: char): (v: nat)
    requires IsHexDigit(c)
    ensures v < 16
  {
    if '0' <= c <= '9' then c as int - '0' as int
    else if 'a' <= c <= 'f' then c as int - 'a' as int + 10
    else c as int - 'A' as int + 10
  }

  predicate AllHex(s: string) {
    forall i :: 0 <= i < |s| ==> IsHexDigit(s[i])
  }

  /** The string without its leading whitespace. */
  function TrimStart(s: string): (t: string)
    ensures |t| <= |s|
  {
    if |s| > 0 && IsJsWhitespace(s[0]) then TrimStart(s[1..]) else s
  }

  /** `TrimStart` keeps a suffix, everything it drops is whitespace, and what it keeps
      does not start with whitespace. */
  lemma {:induction false} TrimStartSpec(s: string)
    ensures TrimStart(s) == s[|s| - |TrimStart(s)|..]
    ensures forall i :: 0 <= i < |s| - |TrimStart(s)| ==> IsJsWhitespace(s[i])
    ensures |TrimStart(s)| > 0 ==> !IsJsWhitespace(TrimStart(s)[0])
  {
    if |s| > 0 && IsJsWhitespace(s[0]) {
      TrimStartSpec(s[1..]);
      var t := TrimStart(s);
      assert forall i :: 1 <= i < |s| - |t| ==> s[i] == s[1..][i - 1];
    }
  }

  /** The length of the longest prefix of s made of hex digits. */
  function HexRun(s: string): (n: nat)
    ensures n <= |s|
  {
    if |s| > 0 && IsHexDigit(s[0]) then 1 + HexRun(s[1..]) else 0
  }

  /** `HexRun` is the longest hex prefix: every character before it is a digit, and the
      character at it, if any, is not. */
  lemma {:induction false} HexRunSpec(s: string)
    ensures AllHex(s[..HexRun(s)])
    ensures HexRun(s) < |s| ==> !IsHexDigit(s[HexRun(s)])
  {
    if |s| > 0 && IsHexDigit(s[0]) {
      HexRunSpec(s[1..]);
      var n := HexRun(s);
      assert forall i :: 1 <= i < n ==> s[..n][i] == s[1..][..n - 1][i - 1];
    }
  }

  /** The integer a string of hex digits denotes, most significant digit first. */
  function HexValue(ds: string): (v: nat)
    requires AllHex(ds)
    ensures v < Pow2(4 * |ds|)
  {
    if |ds| == 0 then 0
    else
      var prefix := HexValue(ds[..|ds| - 1]);
      Pow2Add(4 * (|ds| - 1), 4);
      assert Pow2(4) == 16;
      prefix * 16 + HexDigitValue(ds[|ds| - 1])
  }

  /** A leading `+` or `-` is removed (one only). */
  function AfterSign(t: string): string {
    if |t| > 0 && (t[0] == '+' || t[0] == '-') then t[1..] else t
  }

  /** With radix 16 a leading `0x` or `0X` is removed. */
  function AfterHexPrefix(u: string): string {
    if |u| >= 2 && u[0] == '0' && (u[1] == 'x' || u[1] == 'X') then u[2..] else u
  }

  /** Where `parseInt` looks for digits: after the whitespace, the sign and a `0x`
      prefix. */
  function DigitsStart(s: string): string {
    AfterHexPrefix(AfterSign(TrimStart(s)))
  }

  /** No hex digit stands where the digits should start. */
  predicate NoLeadingDigit(s: string) {
    var w := DigitsStart(s);
    |w| == 0 || !IsHexDigit(w[0])
  }

  /** The digits `parseInt` reads: the longest run of hex digits where the digits
      start. */
  function DigitsOf(s: string): (z: string)
    ensures AllHex(z)
  {
    var w := DigitsStart(s);
    HexRunSpec(w);
    w[..HexRun(w)]
  }

  /** The sign `parseInt` reads: a `-` right after the whitespace. */
  predicate IsNegative(s: string) {
    var t := TrimStart(s);
    |t| > 0 && t[0] == '-'
  }

  /** The Number of a sign and a digit value: zero for zero, otherwise the value
      rounded to a double, then negated for a `-`. */
  function SignedNumber(negative: bool, m: nat): Number {
    if m == 0 then Finite(0)
    else if negative then Negate(RoundToDouble(m))
    else RoundToDouble(m)
  }

  /** `parseInt(s, 16)`: no digits gives NaN, otherwise their value with the sign. The
      result is NaN exactly when no hex digit stands where the digits start. */
  function ParseIntHex(s: string): (n: Number)
    ensures n.NaN? <==> NoLeadingDigit(s)
  {
    var z := DigitsOf(s);
    if |z| == 0 then NaN else SignedNumber(IsNegative(s), HexValue(z))
  }

  /** `parseInt(hex.slice(1), 16)`. `slice` counts UTF-16 code units: when the first
      character lies outside the Basic Multilingual Plane, dropping one code unit leaves
      a lone trailing surrogate in front, which is neither whitespace, sign nor digit,
      so `parseInt` returns NaN. */
  function KeyColorNumber(hex: string): Number {
    if |hex| == 0 then ParseIntHex([])
    else if hex[0] as int >= 0x1_0000 then NaN
    else ParseIntHex(hex[1..])
  }

  /** Three 8-bit channel values. */
  datatype Rgb8 = Rgb8(r: int, g: int, b: int)

  /** `(bigint >> 16) & 255`, `(bigint >> 8) & 255` and `bigint & 255`. */
  function KeyBytes(hex: string): (c: Rgb8)
    ensures 0 <= c.r <= 255 && 0 <= c.g <= 255 && 0 <= c.b <= 255
  {
    var x := ToInt32(KeyColorNumber(hex));
    Rgb8(BitAnd255(SignedShiftRight(x, 16)), BitAnd255(SignedShiftRight(x, 8)), BitAnd255(x))
  }

  function Normalise(c: Rgb8): (n: Rgb)
    requires 0 <= c.r <= 255 && 0 <= c.g <= 255 && 0 <= c.b <= 255
    ensures InUnitCube(n)
  {
    Rgb(c.r as real / 255.0, c.g as real / 255.0, c.b as real / 255.0)
  }

  /** `hexToRgb`: each byte divided by 255, so every channel lies in [0, 1]. */
  function HexToRgb(hex: string): (c: Rgb)
    ensures InUnitCube(c)
  {
    Normalise(KeyBytes(hex))
  }

  // ---------------------------------------------------------------------------
  // parseInt(s, 16)

  /** A string of hex digits is one run. */
  lemma HexRunAll(ds: string)
    requires AllHex(ds)
    ensures HexRun(ds) == |ds|
  {
    HexRunSpec(ds);
  }

  /** Digits followed by a non-digit: the run ends at the non-digit. */
  lemma {:induction false} HexRunStops(ds: string, rest: string)
    requires AllHex(ds) && |rest| > 0 && !IsHexDigit(rest[0])
    ensures HexRun(ds + rest) == |ds|
  {
    if |ds| == 0 {
      assert ds + rest == rest;
    } else {
      assert (ds + rest)[1..] == ds[1..] + rest;
      HexRunStops(ds[1..], rest);
    }
  }

  /** Digits only, worth less than 2^53: `parseInt` returns their exact value. */
  lemma ParseIntHexOfDigits(ds: string)
    requires 0 < |ds| && AllHex(ds) && HexValue(ds) < Pow2(53)
    ensures ParseIntHex(ds) == Finite(HexValue(ds))
  {
    DigitsOfDigits(ds);
    SignedNumberExact(HexValue(ds));
  }

  /** A string of digits is read whole, without a sign. */
  lemma DigitsOfDigits(ds: string)
    requires 0 < |ds| && AllHex(ds)
    ensures DigitsOf(ds) == ds && !IsNegative(ds)
  {
    assert TrimStart(ds) == ds;
    assert AfterHexPrefix(AfterSign(ds)) == ds;
    HexRunAll(ds);
    assert ds[..|ds|] == ds;
  }

  lemma SignedNumberExact(m: nat)
    requires m < Pow2(53)
    ensures SignedNumber(false, m) == Finite(m)
  {
    RoundToDoubleExact(m);
  }

  /** Digits followed by a non-digit are read up to the non-digit, with one exception:
      a lone `0` followed by `x` or `X` is the `0x` prefix. */
  lemma DigitsStopAtNonHex(ds: string, rest: string)
    requires 0 < |ds| && AllHex(ds) && |rest| > 0 && !IsHexDigit(rest[0])
    requires !(ds == "0" && (rest[0] == 'x' || rest[0] == 'X'))
    ensures DigitsOf(ds + rest) == ds == DigitsOf(ds)
    ensures !IsNegative(ds + rest) && !IsNegative(ds)
  {
    var s := ds + rest;
    assert s[0] == ds[0];
    assert TrimStart(s) == s && TrimStart(ds) == ds;
    assert AfterSign(s) == s && AfterSign(ds) == ds;
    if |ds| == 1 {
      assert s[1] == rest[0];
      assert ds == [ds[0]];
    } else {
      assert s[1] == ds[1];
    }
    assert AfterHexPrefix(s) == s && AfterHexPrefix(ds) == ds;
    HexRunStops(ds, rest);
    HexRunAll(ds);
    assert s[..|ds|] == ds == ds[..|ds|];
  }

  /** Parsing stops at the first character that is not a hex digit: whatever follows
      it is ignored. The one exception is a lone `0` followed by `x` or `X`, which is
      read as the `0x` prefix. */
  lemma ParseIntHexStopsAtNonHex(ds: string, rest: string)
    requires 0 < |ds| && AllHex(ds) && |rest| > 0 && !IsHexDigit(rest[0])
    requires !(ds == "0" && (rest[0] == 'x' || rest[0] == 'X'))
    ensures ParseIntHex(ds + rest) == ParseIntHex(ds)
  {
    DigitsStopAtNonHex(ds, rest);
  }

  /** Leading whitespace is skipped. */
  lemma ParseIntHexSkipsWhitespace(c: char, s: string)
    requires IsJsWhitespace(c)
    ensures ParseIntHex([c] + s) == ParseIntHex(s)
  {
    assert ([c] + s)[1..] == s;
  }

  /** What follows a sign is read for its digits, as long as it is neither whitespace
      nor another sign. */
  lemma DigitsAfterSign(c: char, s: string)
    requires c == '+' || c == '-'
    requires |s| == 0 || (!IsJsWhitespace(s[0]) && s[0] != '+' && s[0] != '-')
    ensures DigitsOf([c] + s) == DigitsOf(s)
    ensures IsNegative([c] + s) == (c == '-') && !IsNegative(s)
  {
    assert ([c] + s)[1..] == s;
    assert TrimStart([c] + s) == [c] + s;
    assert TrimStart(s) == s && AfterSign(s) == s;
  }

  lemma SignedNumberNegate(m: nat)
    ensures SignedNumber(true, m) == Negate(SignedNumber(false, m))
  {
  }

  /** A `+` changes nothing and a `-` negates (NaN stays NaN), when what follows is
      neither whitespace nor another sign. */
  lemma ParseIntHexSign(s: string)
    requires |s| == 0 || (!IsJsWhitespace(s[0]) && s[0] != '+' && s[0] != '-')
    ensures ParseIntHex("+" + s) == ParseIntHex(s)
    ensures ParseIntHex("-" + s) == Negate(ParseIntHex(s))
  {
    DigitsAfterSign('+', s);
    DigitsAfterSign('-', s);
    SignedNumberNegate(HexValue(DigitsOf(s)));
  }

  /** What follows a `0x` prefix is read for its digits, as long as it is not whitespace,
      a sign or another prefix. */
  lemma DigitsAfterPrefix(x: char, s: string)
    requires x == 'x' || x == 'X'
    requires |s| == 0 || (!IsJsWhitespace(s[0]) && s[0] != '+' && s[0] != '-')
    requires !(|s| >= 2 && s[0] == '0' && (s[1] == 'x' || s[1] == 'X'))
    ensures DigitsOf(['0', x] + s) == DigitsOf(s)
    ensures !IsNegative(['0', x] + s) && !IsNegative(s)
  {
    assert (['0', x] + s)[2..] == s;
    assert TrimStart(['0', x] + s) == ['0', x] + s;
    assert TrimStart(s) == s && AfterSign(s) == s && AfterHexPrefix(s) == s;
  }

  /** A `0x` or `0X` prefix is dropped, when what follows is not itself such a
      prefix. In particular `0x` alone has no digits and gives NaN. */
  lemma ParseIntHexPrefix(s: string)
    requires |s| == 0 || (!IsJsWhitespace(s[0]) && s[0] != '+' && s[0] != '-')
    requires !(|s| >= 2 && s[0] == '0' && (s[1] == 'x' || s[1] == 'X'))
    ensures ParseIntHex("0x" + s) == ParseIntHex(s)
    ensures ParseIntHex("0X" + s) == ParseIntHex(s)
  {
    DigitsAfterPrefix('x', s);
    DigitsAfterPrefix('X', s);
  }

  /** With no hex digit after the whitespace, the sign and the prefix (as in `""`,
      `"0x"`, `"- 5"` or `"0x-1"`), the result is NaN. */
  lemma ParseIntHexNoDigits(s: string)
    requires NoLeadingDigit(s)
    ensures ParseIntHex(s) == NaN
  {
  }

  // ---------------------------------------------------------------------------
  // Values of digit strings

  /** Appending digits shifts the value left by four bits per digit. */
  lemma {:induction false} HexValueAppend(a: string, b: string)
    requires AllHex(a) && AllHex(b)
    ensures AllHex(a + b)
    ensures HexValue(a + b) == HexValue(a) * Pow2(4 * |b|) + HexValue(b)
  {
    if |b| == 0 {
      assert a + b == a;
    } else {
      var b' := b[..|b| - 1];
      assert (a + b)[..|a + b| - 1] == a + b';
      assert (a + b)[|a + b| - 1] == b[|b| - 1];
      HexValueAppend(a, b');
      Pow2Add(4 * |b'|, 4);
      assert Pow2(4) == 16;
      ShiftByDigit(HexValue(a), Pow2(4 * |b'|), HexValue(b'), HexDigitValue(b[|b| - 1]));
    }
  }

  lemma ShiftByDigit(x: int, p: int, y: int, d: int)
    ensures (x * p + y) * 16 + d == x * (p * 16) + (y * 16 + d)
  {
  }

  /** Two digits: the high one times 16 plus the low one. */
  lemma HexValueOfPair(ds: string)
    requires |ds| == 2 && AllHex(ds)
    ensures HexValue(ds) == HexDigitValue(ds[0]) * 16 + HexDigitValue(ds[1])
  {
    assert ds[..1][..0] == [];
  }

  /** The value modulo 2^24 is the value of the last six digits. */
  lemma HexValueLowSixDigits(ds: string)
    requires AllHex(ds) && 6 <= |ds|
    ensures HexValue(ds) % 0x100_0000 == HexValue(ds[|ds| - 6..])
  {
    var a, b := ds[..|ds| - 6], ds[|ds| - 6..];
    assert ds == a + b;
    HexValueAppend(a, b);
    Pow2Of24();
    ModOfShifted(HexValue(a), HexValue(b));
  }

  /** Appending two digits appends a byte. */
  lemma HexValueAppendPair(a: string, b: string)
    requires AllHex(a) && AllHex(b) && |b| == 2
    ensures AllHex(a + b) && HexValue(a + b) == HexValue(a) * 0x100 + HexValue(b)
  {
    HexValueAppend(a, b);
    Pow2Values();
  }

  lemma ThreeBytes(a: int, b: int, c: int, ab: int, abc: int)
    requires ab == a * 0x100 + b && abc == ab * 0x100 + c
    ensures abc == a * 0x1_0000 + b * 0x100 + c
  {
  }

  /** Six digits are three bytes. */
  lemma HexValueSixDigits(ds: string)
    requires AllHex(ds) && |ds| == 6
    ensures HexValue(ds) == HexValue(ds[..2]) * 0x1_0000 + HexValue(ds[2..4]) * 0x100 + HexValue(ds[4..])
  {
    assert ds[..4] == ds[..2] + ds[2..4];
    assert ds == ds[..4] + ds[4..];
    HexValueAppendPair(ds[..2], ds[2..4]);
    HexValueAppendPair(ds[..4], ds[4..]);
    ThreeBytes(HexValue(ds[..2]), HexValue(ds[2..4]), HexValue(ds[4..]), HexValue(ds[..4]), HexValue(ds));
  }

  // ---------------------------------------------------------------------------
  // hexToRgb

  /** Bits 16-23, 8-15 and 0-7 of v. */
  function LowBytes(v: int): Rgb8 {
    Rgb8((v % 0x100_0000) / 0x1_0000, (v % 0x1_0000) / 0x100, v % 0x100)
  }

  /** Bits above the 24th play no part. */
  lemma LowBytesMod(v: int)
    ensures LowBytes(v % 0x100_0000) == LowBytes(v)
  {
    LowerMods(v);
  }

  /** The bytes of a six-digit value are its digit pairs. */
  lemma LowBytesOfSixDigits(ds: string)
    requires AllHex(ds) && |ds| == 6
    ensures LowBytes(HexValue(ds)) == Rgb8(HexValue(ds[..2]), HexValue(ds[2..4]), HexValue(ds[4..]))
  {
    HexValueSixDigits(ds);
    BytesOfThree(HexValue(ds[..2]), HexValue(ds[2..4]), HexValue(ds[4..]));
  }

  /** The same, digit by digit. */
  lemma LowBytesOfSixDigitPairs(ds: string)
    requires AllHex(ds) && |ds| == 6
    ensures LowBytes(HexValue(ds)) == Rgb8(
      HexDigitValue(ds[0]) * 16 + HexDigitValue(ds[1]),
      HexDigitValue(ds[2]) * 16 + HexDigitValue(ds[3]),
      HexDigitValue(ds[4]) * 16 + HexDigitValue(ds[5]))
  {
    LowBytesOfSixDigits(ds);
    HexValueOfPair(ds[..2]);
    HexValueOfPair(ds[2..4]);
    HexValueOfPair(ds[4..]);
  }

  /** Of a longer digit string only the last six digits reach the bytes. */
  lemma LowBytesOfLastSix(ds: string)
    requires AllHex(ds) && 6 <= |ds|
    ensures LowBytes(HexValue(ds)) == LowBytes(HexValue(ds[|ds| - 6..]))
  {
    HexValueLowSixDigits(ds);
    LowBytesMod(HexValue(ds));
  }

  /** A finite result of `parseInt` gives the key bytes of its low 24 bits: the
      32-bit conversion and the shifts only ever drop higher bits. */
  lemma KeyBytesOfNumber(hex: string, v: int)
    requires KeyColorNumber(hex) == Finite(v)
    ensures KeyBytes(hex) == LowBytes(v)
  {
    LowBytesOfInt32(v);
  }

  /** Up to 13 hex digits after the first character (so the value is below 2^52 and
      exact): the bytes are bits 16-23, 8-15 and 0-7 of the digits' value. */
  lemma KeyBytesOfDigits(hex: string)
    requires 2 <= |hex| <= 14 && (hex[0] as int) < 0x1_0000 && AllHex(hex[1..])
    ensures KeyBytes(hex) == LowBytes(HexValue(hex[1..]))
  {
    var ds := hex[1..];
    Pow2Monotone(4 * |ds|, 53);
    ParseIntHexOfDigits(ds);
    KeyBytesOfNumber(hex, HexValue(ds));
  }

  /** `#RRGGBB`: the bytes are the digit pairs at positions 1-2, 3-4 and 5-6. */
  lemma SixDigitPairs(hex: string)
    requires |hex| == 7 && (hex[0] as int) < 0x1_0000 && AllHex(hex[1..])
    ensures KeyBytes(hex) == Rgb8(
      HexDigitValue(hex[1]) * 16 + HexDigitValue(hex[2]),
      HexDigitValue(hex[3]) * 16 + HexDigitValue(hex[4]),
      HexDigitValue(hex[5]) * 16 + HexDigitValue(hex[6]))
  {
    KeyBytesOfDigits(hex);
    LowBytesOfSixDigitPairs(hex[1..]);
  }

  /** Of longer digit strings only the last six digits (the low 24 bits) count. */
  lemma OnlyLowSixDigitsMatter(hex: string)
    requires 7 <= |hex| <= 14 && (hex[0] as int) < 0x1_0000 && AllHex(hex[1..])
    ensures KeyBytes(hex) == KeyBytes([hex[0]] + hex[|hex| - 6..])
  {
    var short := [hex[0]] + hex[|hex| - 6..];
    assert short[1..] == hex[|hex| - 6..] == hex[1..][|hex[1..]| - 6..];
    KeyBytesOfDigits(hex);
    KeyBytesOfDigits(short);
    LowBytesOfLastSix(hex[1..]);
  }

  /** Hence the bytes of a longer key are the pairs among its last six digits. */
  lemma LowSixDigitPairs(hex: string)
    requires 7 <= |hex| <= 14 && (hex[0] as int) < 0x1_0000 && AllHex(hex[1..])
    ensures var n := |hex|; KeyBytes(hex) == Rgb8(
      HexDigitValue(hex[n - 6]) * 16 + HexDigitValue(hex[n - 5]),
      HexDigitValue(hex[n - 4]) * 16 + HexDigitValue(hex[n - 3]),
      HexDigitValue(hex[n - 2]) * 16 + HexDigitValue(hex[n - 1]))
  {
    var ds := hex[1..];
    KeyBytesOfDigits(hex);
    LowBytesOfLastSix(ds);
    LowBytesOfSixDigitPairs(ds[|ds| - 6..]);
  }

  /** The first character is dropped without being looked at. */
  lemma FirstCharIgnored(c1: char, c2: char, rest: string)
    requires (c1 as int) < 0x1_0000 && (c2 as int) < 0x1_0000
    ensures KeyBytes([c1] + rest) == KeyBytes([c2] + rest)
  {
    assert ([c1] + rest)[1..] == rest == ([c2] + rest)[1..];
  }

  /** When `parseInt` gives NaN or an infinity the key colour is black. */
  lemma NonFiniteIsBlack(hex: string)
    requires !KeyColorNumber(hex).Finite?
    ensures KeyBytes(hex) == Rgb8(0, 0, 0)
    ensures HexToRgb(hex) == Rgb(0.0, 0.0, 0.0)
  {
    assert ToInt32(KeyColorNumber(hex)) == 0;
  }

  /** A key with nothing after its first character, or with no hex digit where
      `parseInt` looks for one, is black. */
  lemma KeyWithoutDigitsIsBlack(hex: string)
    requires |hex| <= 1 || NoLeadingDigit(hex[1..])
    ensures HexToRgb(hex) == Rgb(0.0, 0.0, 0.0)
  {
    if |hex| == 1 {
      assert hex[1..] == [];
    }
    assert NoLeadingDigit([]);
    NonFiniteIsBlack(hex);
  }

  /** A first character outside the Basic Multilingual Plane makes the colour black,
      whatever follows. */
  lemma AstralFirstCharIsBlack(hex: string)
    requires |hex| > 0 && (hex[0] as int) >= 0x1_0000
    ensures HexToRgb(hex) == Rgb(0.0, 0.0, 0.0)
  {
    NonFiniteIsBlack(hex);
  }
}
